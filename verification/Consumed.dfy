/** The pointer only ever moves forward in the buffer: where parsing ends is a suffix of where it
    began, unless it runs past the terminator; Overrun says when that happens. */
module Consumed {
  import opened Bytes
  import opened Codec
  import opened CodecLaws
  import opened Xml
  import opened Parser

  predicate Suffix(t: bytes, s: bytes) {
    |t| <= |s| && s[|s| - |t|..] == t
  }

  /** q is further along in the buffer of p, unless it is null or wild. */
  predicate Ahead(q: Ptr, p: Ptr) {
    q.At? ==> p.At? && Suffix(q.s, p.s)
  }

  lemma DropIsSuffix(s: bytes, k: nat)
    requires k <= |s|
    ensures Suffix(s[k..], s)
  {
  }

  lemma SuffixTrans(u: bytes, t: bytes, s: bytes)
    requires Suffix(u, t) && Suffix(t, s)
    ensures Suffix(u, s)
  {
    var k := |s| - |t|;
    assert s[k..][|t| - |u|..] == s[|s| - |u|..];
  }

  lemma AheadTrans(r: Ptr, q: Ptr, p: Ptr)
    requires Ahead(r, q) && Ahead(q, p)
    ensures Ahead(r, p)
  {
    if r.At? {
      SuffixTrans(r.s, q.s, p.s);
    }
  }

  lemma StepsAhead(q: Ptr, p: Ptr, k: nat)
    requires p.At? && k <= |p.s| && Ahead(q, At(p.s[k..]))
    ensures Ahead(q, p)
  {
    DropIsSuffix(p.s, k);
    AheadTrans(q, At(p.s[k..]), p);
  }

  lemma {:induction false} SkipWsAhead(s: bytes, enc: Encoding)
    ensures Suffix(SkipWs(s, enc), s)
  {
    if s != [] {
      if enc == Utf8 && IsMark(s) {
        SkipWsAhead(s[3..], enc);
        DropIsSuffix(s, 3);
        SuffixTrans(SkipWs(s, enc), s[3..], s);
      } else if IsSpace(s[0]) {
        SkipWsAhead(s[1..], enc);
        DropIsSuffix(s, 1);
        SuffixTrans(SkipWs(s, enc), s[1..], s);
      }
    } else {
      assert s[|s|..] == s;
    }
  }

  lemma WhiteSpaceAhead(p: Ptr, enc: Encoding)
    ensures Ahead(AfterWhiteSpace(p, enc), p)
  {
    if p.Live() {
      SkipWsAhead(p.s, enc);
    }
  }

  lemma EntityAhead(s: bytes, enc: Encoding)
    requires s != [] && s[0] == AMP
    ensures EntityAt(s, enc).Char? ==> Suffix(EntityAt(s, enc).rest, s)
  {
    hide Suffix, CodePoint, Number, AreDigits;
    DropIsSuffix(s, 1);
    if AMP_REF <= s || |s| >= 5 {
      DropIsSuffix(s, 5);
    }
    if |s| >= 4 {
      DropIsSuffix(s, 4);
    }
    if |s| >= 6 {
      DropIsSuffix(s, 6);
    }
    if |s| > 2 && s[1] == HASH {
      var semi := IndexFrom(s, if s[2] == LOWER_X && |s| > 3 then 3 else 2, SEMI);
      if semi < |s| {
        DropIsSuffix(s, semi + 1);
      }
    }
  }

  lemma CharAhead(s: bytes, enc: Encoding)
    requires s != []
    ensures CharAt(s, enc).Char? ==> Suffix(CharAt(s, enc).rest, s)
  {
    var n := Step(s[0], enc);
    if n == 1 && s[0] == AMP {
      EntityAhead(s, enc);
      hide EntityAt, Suffix;
    } else {
      DropIsSuffix(s, if n <= |s| then n else |s|);
      assert n > |s| ==> s[|s|..] == [];
      hide EntityAt, Suffix;
    }
  }

  lemma {:induction false} ScanAhead(s: bytes, tag: bytes, enc: Encoding)
    ensures Ahead(Scan(s, tag, enc).p, At(s))
    decreases |s|
  {
    if s == [] || tag <= s {
      assert s[|s| - |s|..] == s;
    } else {
      CharAhead(s, enc);
      match CharAt(s, enc)
      case NoChar =>
      case Overrun(_) =>
      case Char(_, rest) =>
        ScanAhead(rest, tag, enc);
        AheadTrans(Scan(rest, tag, enc).p, At(rest), At(s));
    }
  }

  lemma TextAhead(p: Ptr, condense: bool, tag: bytes, enc: Encoding)
    ensures Ahead(TextAt(p, condense, tag, enc).p, p)
  {
    var from := if condense then AfterWhiteSpace(p, enc) else p;
    if from.Live() {
      WhiteSpaceAhead(p, enc);
      ScanAhead(from.s, tag, enc);
      var q := Scan(from.s, tag, enc).p;
      hide Scan, AfterWhiteSpace;
      if AfterTag(q, tag).At? {
        DropIsSuffix(q.s, |tag|);
        AheadTrans(AfterTag(q, tag), q, from);
      }
      if condense {
        AheadTrans(AfterTag(q, tag), from, p);
      }
    }
  }

  lemma {:induction false} BareValueAhead(s: bytes)
    ensures Ahead(BareValueAt(s).p, At(s))
  {
    if s == [] || EndsBareValue(s[0]) {
      assert s[|s| - |s|..] == s;
    } else if s[0] != APOS && s[0] != QUOT {
      BareValueAhead(s[1..]);
      StepsAhead(BareValueAt(s[1..]).p, At(s), 1);
    }
  }

  lemma ValueAhead(name: bytes, s: bytes, enc: Encoding)
    requires s != []
    ensures Ahead(ValueAt(name, s, enc).p, At(s))
  {
    if s[0] == APOS || s[0] == QUOT {
      TextAhead(At(s[1..]), false, [s[0]], enc);
      StepsAhead(ValueAt(name, s, enc).p, At(s), 1);
    } else {
      BareValueAhead(s);
    }
  }

  lemma AttributeAhead(p: Ptr, enc: Encoding)
    ensures Ahead(AttributeAt(p, enc).p, p)
  {
    var r := AttributeAt(p, enc);
    if r.p.At? {
      var p0 := AfterWhiteSpace(p, enc);
      var nm := NameAt(p0);
      var p1 := AfterWhiteSpace(nm.p, enc);
      var p2 := AfterWhiteSpace(At(p1.s[1..]), enc);
      ValueAhead(nm.name, p2.s, enc);
      WhiteSpaceAhead(p, enc);
      WhiteSpaceAhead(nm.p, enc);
      WhiteSpaceAhead(At(p1.s[1..]), enc);
      assert nm.p.s == p0.s[|nm.name|..];
      hide AfterWhiteSpace, NameAt, ValueAt, AttributeAt;
      DropIsSuffix(p0.s, |nm.name|);
      AheadTrans(r.p, p2, At(p1.s[1..]));
      StepsAhead(r.p, p1, 1);
      AheadTrans(r.p, p1, nm.p);
      AheadTrans(r.p, nm.p, p0);
      AheadTrans(r.p, p0, p);
    }
  }

  lemma PastCloserAhead(p: Ptr, k: nat, n: nat)
    requires p.At? && k <= |p.s| && n <= |p.s| - k && (n < |p.s| - k ==> n + 3 <= |p.s| - k)
    ensures Ahead(At(PastCloser(p.s[k..], n)), p)
  {
    var body := p.s[k..];
    if n < |body| {
      assert body[n + 3..] == p.s[k + n + 3..];
    }
  }

  lemma CommentAhead(p: Ptr, enc: Encoding, err: Err)
    ensures Ahead(CommentAt(p, enc, err).p, p)
  {
    var p0 := AfterWhiteSpace(p, enc);
    if p0.Live() && COMMENT_OPEN <= p0.s {
      var n := FindTag(p0.s[4..], COMMENT_CLOSE);
      PastCloserAhead(p0, 4, n);
      WhiteSpaceAhead(p, enc);
      hide AfterWhiteSpace, PastCloser, FindTag;
      AheadTrans(CommentAt(p, enc, err).p, p0, p);
    }
  }

  lemma CdataAhead(p: Ptr, enc: Encoding, err: Err)
    ensures Ahead(CdataAt(p, enc, err).p, p)
  {
    if p.Live() && CDATA_OPEN <= p.s {
      var n := FindTag(p.s[9..], CDATA_CLOSE);
      assert p.s[9..][n..] == p.s[9 + n..];
      TextAhead(At(p.s[9 + n..]), false, CDATA_CLOSE, enc);
      hide TextAt, FindTag;
      StepsAhead(CdataAt(p, enc, err).p, p, 9 + n);
    }
  }

  lemma UnrecognizedAhead(p: Ptr, enc: Encoding, err: Err)
    ensures Ahead(UnrecognizedAt(p, enc, err).p, p)
  {
    WhiteSpaceAhead(p, enc);
    var p0 := AfterWhiteSpace(p, enc);
    hide AfterWhiteSpace;
    if p0.Live() && p0.s[0] == LT {
      AheadTrans(UnrecognizedAt(p, enc, err).p, p0, p);
    }
  }

  lemma DeclaredAhead(decl: Node, p: Ptr, enc: Encoding)
    requires decl.Declaration? && p.Live() && p.s[0] != GT
    ensures Ahead(DeclaredAt(decl, p, enc).p, p)
  {
    var p0 := AfterWhiteSpace(p, enc);
    var a := AttributeAt(p0, enc);
    WhiteSpaceAhead(p, enc);
    AttributeAhead(p0, enc);
    AheadTrans(a.p, p0, p);
    hide AttributeAt, HasPrefixIgnoringCase, Suffix, AfterWhiteSpace, CStr;
    var k := JunkLength(p0.s);
    DropIsSuffix(p0.s, k);
    AheadTrans(At(p0.s[k..]), p0, p);
  }

  lemma {:induction false} DeclarationBodyAhead(decl: Node, p: Ptr, enc: Encoding, err: Err)
    requires decl.Declaration?
    ensures Ahead(DeclarationBodyAt(decl, p, enc, err).p, p)
    decreases p.Left()
  {
    hide DeclaredAt, Suffix;
    if p.Live() && p.s[0] != GT {
      var r := DeclaredAt(decl, p, enc);
      DeclaredAhead(decl, p, enc);
      DeclarationBodyAhead(r.decl, r.p, enc, err);
      AheadTrans(DeclarationBodyAt(decl, p, enc, err).p, r.p, p);
    } else if p.Live() {
      DropIsSuffix(p.s, 1);
    }
  }

  lemma DeclarationAhead(p: Ptr, enc: Encoding, err: Err)
    ensures Ahead(DeclarationAt(p, enc, err).p, p)
  {
    var p0 := AfterWhiteSpace(p, enc);
    if p0.Live() && HasPrefixIgnoringCase(p0.s, XML_HEADER) {
      var r := DeclarationAt(p, enc, err).p;
      DeclarationBodyAhead(Declaration([], [], []), At(p0.s[5..]), enc, err);
      WhiteSpaceAhead(p, enc);
      hide DeclarationBodyAt, AfterWhiteSpace;
      StepsAhead(r, p0, 5);
      AheadTrans(r, p0, p);
    }
  }

  lemma PlainTextAhead(s: bytes, condense: bool, enc: Encoding)
    requires s != [] && s[0] != LT
    ensures Ahead(PlainTextAt(s, condense, enc).p, At(s))
  {
    var r := TextAt(At(s), condense, LT_TAG, enc);
    if r.p.Live() {
      var from := if condense then AfterWhiteSpace(At(s), enc) else At(s);
      var q := Scan(from.s, LT_TAG, enc).p;
      WhiteSpaceAhead(At(s), enc);
      ScanAhead(from.s, LT_TAG, enc);
      ScanStopsAtTag(from.s, LT_TAG, enc);
      assert q.s == LT_TAG + r.p.s;
      hide Scan, AfterWhiteSpace, TextAt;
      if condense {
        AheadTrans(q, from, At(s));
      }
    }
  }

  lemma {:induction false} NodeAhead(kind: Kind, p: Ptr, condense: bool, enc: Encoding, err: Err)
    ensures Ahead(NodeAt(kind, p, condense, enc, err).p, p)
    decreases p.Left(), 3
  {
    match kind
    case ElementKind => ElementAhead(p, condense, enc, err);
    case CommentKind => CommentAhead(p, enc, err);
    case CdataKind => CdataAhead(p, enc, err);
    case DeclarationKind => DeclarationAhead(p, enc, err);
    case UnrecognizedKind => UnrecognizedAhead(p, enc, err);
  }

  lemma {:induction false} ElementAhead(p: Ptr, condense: bool, enc: Encoding, err: Err)
    ensures Ahead(ElementAt(p, condense, enc, err).p, p)
    decreases p.Left(), 2
  {
    var r := ElementAt(p, condense, enc, err).p;
    var p0 := AfterWhiteSpace(p, enc);
    if p0.Live() && p0.s[0] == LT {
      var p1 := AfterWhiteSpace(At(p0.s[1..]), enc);
      var nm := NameAt(p1);
      if nm.p.Live() {
        TagAhead(nm.name, [], nm.p, condense, enc, err);
        WhiteSpaceAhead(p, enc);
        WhiteSpaceAhead(At(p0.s[1..]), enc);
        assert nm.p.s == p1.s[|nm.name|..];
        hide TagAt, AfterWhiteSpace, NameAt;
        DropIsSuffix(p1.s, |nm.name|);
        AheadTrans(r, nm.p, p1);
        AheadTrans(r, p1, At(p0.s[1..]));
        StepsAhead(r, p0, 1);
        AheadTrans(r, p0, p);
      }
    }
  }

  lemma EndTagAhead(name: bytes, p: Ptr, enc: Encoding, err: Err)
    ensures Ahead(EndTagAt(name, p, enc, err).p, p)
  {
    var r := EndTagAt(name, p, enc, err).p;
    if r.At? {
      var k := |END_TAG_OPEN + name|;
      var p0 := AfterWhiteSpace(At(p.s[k..]), enc);
      WhiteSpaceAhead(At(p.s[k..]), enc);
      assert r.s == p0.s[1..];
      hide AfterWhiteSpace;
      DropIsSuffix(p0.s, 1);
      AheadTrans(r, p0, At(p.s[k..]));
      StepsAhead(r, p, k);
    }
  }

  lemma {:induction false} TagAhead(name: bytes, attrs: seq<Attr>, p: Ptr, condense: bool, enc: Encoding, err: Err)
    requires p.Live()
    ensures Ahead(TagAt(name, attrs, p, condense, enc, err).p, p)
    decreases p.Left(), 1
  {
    hide AfterWhiteSpace, AttributeAt, ContentAt, EndTagAt, Suffix;
    var r := TagAt(name, attrs, p, condense, enc, err).p;
    var p0 := AfterWhiteSpace(p, enc);
    WhiteSpaceAhead(p, enc);
    if r.At? {
      if p0.s[0] == SLASH {
        DropIsSuffix(p0.s, 2);
      } else if p0.s[0] == GT {
        var c := ContentAt([], At(p0.s[1..]), condense, enc, err);
        ContentAhead([], At(p0.s[1..]), condense, enc, err);
        EndTagAhead(name, c.p, enc, c.err);
        AheadTrans(r, c.p, At(p0.s[1..]));
        StepsAhead(r, p0, 1);
      } else {
        var a := AttributeAt(p0, enc);
        AttributeAhead(p0, enc);
        TagAhead(name, attrs + [a.attr], a.p, condense, enc, err);
        AheadTrans(r, a.p, p0);
      }
      AheadTrans(r, p0, p);
    }
  }

  lemma {:induction false} ContentAhead(kids: seq<Node>, p: Ptr, condense: bool, enc: Encoding, err: Err)
    ensures Ahead(ContentAt(kids, p, condense, enc, err).p, p)
    decreases p.Left(), 4
  {
    var r := ContentAt(kids, p, condense, enc, err).p;
    var p0 := AfterWhiteSpace(p, enc);
    WhiteSpaceAhead(p, enc);
    if r.At? && p0.Live() {
      if p0.s[0] != LT {
        FirstIsNotLt(p, enc);
        var s := if condense then p0.s else p.s;
        var t := PlainTextAt(s, condense, enc);
        PlainTextAhead(s, condense, enc);
        ContentAhead(WithText(kids, t.text), t.p, condense, enc, err);
        hide ContentAt, PlainTextAt, AfterWhiteSpace, WithText;
        AheadTrans(r, t.p, At(s));
        if condense {
          AheadTrans(r, p0, p);
        }
      } else if !(END_TAG_OPEN <= p0.s) {
        var kind := Identify(p0, enc).kind;
        var n := NodeAt(kind, p0, condense, enc, err);
        NodeAhead(kind, p0, condense, enc, err);
        ContentAhead(kids + [n.node], n.p, condense, enc, n.err);
        hide ContentAt, NodeAt, AfterWhiteSpace, Identify;
        AheadTrans(r, n.p, p0);
        AheadTrans(r, p0, p);
      }
    }
  }
}
