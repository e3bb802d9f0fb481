/** When parsing runs past the terminator: where a UTF-8 sequence is cut short by the end of the text,
    and nowhere else. */
module Overrun {
  import opened Bytes
  import Utf8
  import opened Codec
  import opened CodecLaws
  import opened Xml
  import opened Parser
  import opened Consumed

  /** The bytes ahead start with a sequence that announces more bytes than there are. */
  predicate Cut(s: bytes, enc: Encoding) {
    s != [] && |s| < Step(s[0], enc)
  }

  // ----- exactly when -----

  /** What is ahead of the pointer at each character read up to the tag. */
  function CharsRead(s: bytes, tag: bytes, enc: Encoding): seq<bytes>
    decreases |s|
  {
    if s == [] || tag <= s then []
    else
      var c := CharAt(s, enc);
      [s] + if c.Char? then CharsRead(c.rest, tag, enc) else []
  }

  predicate AnyCut(ps: seq<bytes>, enc: Encoding) {
    exists i :: 0 <= i < |ps| && Cut(ps[i], enc)
  }

  lemma AnyCutCons(p: bytes, ps: seq<bytes>, enc: Encoding)
    ensures AnyCut([p] + ps, enc) <==> Cut(p, enc) || AnyCut(ps, enc)
  {
    hide Cut;
    var all := [p] + ps;
    assert all[0] == p && forall i :: 0 <= i < |ps| ==> all[i + 1] == ps[i];
  }

  /** One character overruns exactly when it is cut short. */
  lemma CharOverrunsIffCut(s: bytes, enc: Encoding)
    requires s != []
    ensures CharAt(s, enc).Overrun? <==> Cut(s, enc)
  {
  }

  /** Reading up to a tag overruns exactly when a character it reads is cut short. */
  lemma {:induction false} ScanOverrunsIffCut(s: bytes, tag: bytes, enc: Encoding)
    ensures Scan(s, tag, enc).p.Wild? <==> AnyCut(CharsRead(s, tag, enc), enc)
    decreases |s|
  {
    if s == [] || tag <= s {
      assert CharsRead(s, tag, enc) == [];
    } else {
      var c := CharAt(s, enc);
      var more := if c.Char? then CharsRead(c.rest, tag, enc) else [];
      CharOverrunsIffCut(s, enc);
      if c.Char? {
        ScanOverrunsIffCut(c.rest, tag, enc);
      }
      AnyCutCons(s, more, enc);
      hide CharAt, Cut;
    }
  }

  lemma TextOverrunsIffCut(p: Ptr, condense: bool, tag: bytes, enc: Encoding)
    requires p.At?
    ensures var from := if condense then AfterWhiteSpace(p, enc) else p;
            TextAt(p, condense, tag, enc).p.Wild? <==> from.At? && AnyCut(CharsRead(from.s, tag, enc), enc)
  {
    var from := if condense then AfterWhiteSpace(p, enc) else p;
    if from.At? {
      ScanOverrunsIffCut(from.s, tag, enc);
    }
    hide AfterWhiteSpace, AnyCut;
  }

  // ----- a condition on the text -----

  /** Every sequence a byte of s could start fits into s. */
  predicate Uncut(s: bytes, enc: Encoding) {
    forall i {:trigger s[i]} :: 0 <= i < |s| ==> i + Step(s[i], enc) <= |s|
  }

  lemma SuffixUncut(t: bytes, s: bytes, enc: Encoding)
    requires Suffix(t, s) && Uncut(s, enc)
    ensures Uncut(t, enc)
  {
    forall i | 0 <= i < |t|
      ensures i + Step(t[i], enc) <= |t|
    {
      assert t[i] == s[|s| - |t| + i];
    }
  }

  /** Well-formed UTF-8 meets it. */
  lemma {:induction false} WellFormedIsUncut(s: bytes)
    requires WellFormed(s)
    ensures Uncut(s, Encoding.Utf8)
    decreases |s|
  {
    if s == [] {
    } else {
      var n :| 0 < n <= |s| && Utf8.IsChar(s[..n]) && WellFormed(s[n..]);
      WellFormedIsUncut(s[n..]);
      forall i | 0 <= i < |s|
        ensures i + Step(s[i], Encoding.Utf8) <= |s|
      {
        if i < n {
          assert s[i] == s[..n][i];
        } else {
          assert s[i] == s[n..][i - n];
        }
      }
    }
  }

  /** A pointer into text that meets it, or null. */
  predicate Sturdy(p: Ptr, enc: Encoding) {
    !p.Wild? && (p.At? ==> Uncut(p.s, enc))
  }

  lemma SturdyAhead(q: Ptr, p: Ptr, enc: Encoding)
    requires Ahead(q, p) && Sturdy(p, enc) && !q.Wild?
    ensures Sturdy(q, enc)
  {
    if q.At? {
      SuffixUncut(q.s, p.s, enc);
    }
  }

  lemma WhiteSpaceSturdy(p: Ptr, enc: Encoding)
    requires Sturdy(p, enc)
    ensures Sturdy(AfterWhiteSpace(p, enc), enc)
  {
    WhiteSpaceAhead(p, enc);
    SturdyAhead(AfterWhiteSpace(p, enc), p, enc);
  }

  lemma DropSturdy(s: bytes, k: nat, enc: Encoding)
    requires Uncut(s, enc) && k <= |s|
    ensures Sturdy(At(s[k..]), enc)
  {
    DropIsSuffix(s, k);
    SuffixUncut(s[k..], s, enc);
  }

  lemma {:induction false} ScanSturdy(s: bytes, tag: bytes, enc: Encoding)
    requires Uncut(s, enc)
    ensures !Scan(s, tag, enc).p.Wild?
    decreases |s|
  {
    if s == [] || tag <= s {
    } else {
      assert 0 + Step(s[0], enc) <= |s|;
      CharAhead(s, enc);
      CharOverrunsIffCut(s, enc);
      var c := CharAt(s, enc);
      hide CharAt, Uncut;
      if c.Char? {
        SuffixUncut(c.rest, s, enc);
        ScanSturdy(c.rest, tag, enc);
      }
    }
  }

  lemma TextSturdy(p: Ptr, condense: bool, tag: bytes, enc: Encoding)
    requires Sturdy(p, enc)
    ensures Sturdy(TextAt(p, condense, tag, enc).p, enc)
  {
    TextAhead(p, condense, tag, enc);
    WhiteSpaceSturdy(p, enc);
    var from := if condense then AfterWhiteSpace(p, enc) else p;
    if from.At? {
      ScanSturdy(from.s, tag, enc);
    }
    hide AfterWhiteSpace, Scan, Uncut, Ahead;
    SturdyAhead(TextAt(p, condense, tag, enc).p, p, enc);
  }

  lemma ValueSturdy(name: bytes, s: bytes, enc: Encoding)
    requires s != [] && Uncut(s, enc)
    ensures !ValueAt(name, s, enc).p.Wild?
  {
    DropSturdy(s, 1, enc);
    TextSturdy(At(s[1..]), false, [s[0]], enc);
  }

  lemma AttributeSturdy(p: Ptr, enc: Encoding)
    requires Sturdy(p, enc)
    ensures Sturdy(AttributeAt(p, enc).p, enc)
  {
    AttributeAhead(p, enc);
    var p0 := AfterWhiteSpace(p, enc);
    WhiteSpaceSturdy(p, enc);
    if p0.Live() {
      var nm := NameAt(p0);
      if nm.p.Live() {
        DropSturdy(p0.s, |nm.name|, enc);
        assert p0.s[|nm.name|..] == nm.p.s;
        WhiteSpaceSturdy(nm.p, enc);
        var p1 := AfterWhiteSpace(nm.p, enc);
        if p1.Live() {
          DropSturdy(p1.s, 1, enc);
          WhiteSpaceSturdy(At(p1.s[1..]), enc);
          var p2 := AfterWhiteSpace(At(p1.s[1..]), enc);
          if p2.Live() {
            ValueSturdy(nm.name, p2.s, enc);
          }
        }
      }
    }
    hide AfterWhiteSpace, NameAt, ValueAt, Uncut, Ahead;
    SturdyAhead(AttributeAt(p, enc).p, p, enc);
  }

  lemma DeclaredSturdy(decl: Node, p: Ptr, enc: Encoding)
    requires decl.Declaration? && p.Live() && p.s[0] != GT && Sturdy(p, enc)
    ensures Sturdy(DeclaredAt(decl, p, enc).p, enc)
  {
    var p0 := AfterWhiteSpace(p, enc);
    WhiteSpaceSturdy(p, enc);
    AttributeSturdy(p0, enc);
    hide AttributeAt, HasPrefixIgnoringCase, Uncut, AfterWhiteSpace, CStr;
    DropSturdy(p0.s, JunkLength(p0.s), enc);
  }

  lemma {:induction false} DeclarationBodySturdy(decl: Node, p: Ptr, enc: Encoding, err: Err)
    requires decl.Declaration? && Sturdy(p, enc)
    ensures !DeclarationBodyAt(decl, p, enc, err).p.Wild?
    decreases p.Left()
  {
    hide DeclaredAt, Uncut;
    if p.Live() && p.s[0] != GT {
      var r := DeclaredAt(decl, p, enc);
      DeclaredSturdy(decl, p, enc);
      DeclarationBodySturdy(r.decl, r.p, enc, err);
    }
  }

  lemma DeclarationSturdy(p: Ptr, enc: Encoding, err: Err)
    requires Sturdy(p, enc)
    ensures !DeclarationAt(p, enc, err).p.Wild?
  {
    var p0 := AfterWhiteSpace(p, enc);
    WhiteSpaceSturdy(p, enc);
    hide Uncut;
    if p0.Live() && HasPrefixIgnoringCase(p0.s, XML_HEADER) {
      DropSturdy(p0.s, 5, enc);
      DeclarationBodySturdy(Declaration([], [], []), At(p0.s[5..]), enc, err);
    }
  }

  lemma CdataSturdy(p: Ptr, enc: Encoding, err: Err)
    requires Sturdy(p, enc)
    ensures !CdataAt(p, enc, err).p.Wild?
  {
    if p.Live() && CDATA_OPEN <= p.s {
      var body := p.s[9..];
      var n := FindTag(body, CDATA_CLOSE);
      assert body[n..] == p.s[9 + n..];
      DropSturdy(p.s, 9 + n, enc);
      TextSturdy(At(body[n..]), false, CDATA_CLOSE, enc);
    }
  }

  lemma PlainTextSturdy(s: bytes, condense: bool, enc: Encoding)
    requires s != [] && s[0] != LT && Uncut(s, enc)
    ensures Sturdy(PlainTextAt(s, condense, enc).p, enc)
  {
    PlainTextAhead(s, condense, enc);
    TextSturdy(At(s), condense, LT_TAG, enc);
    hide TextAt, Uncut, Ahead;
    SturdyAhead(PlainTextAt(s, condense, enc).p, At(s), enc);
  }

  // ----- whole parses -----

  lemma {:induction false} NodeSturdy(kind: Kind, p: Ptr, condense: bool, enc: Encoding, err: Err)
    requires Sturdy(p, enc)
    ensures Sturdy(NodeAt(kind, p, condense, enc, err).p, enc)
    decreases p.Left(), 3
  {
    match kind {
    case ElementKind => ElementSturdy(p, condense, enc, err);
    case CommentKind =>
    case CdataKind => CdataSturdy(p, enc, err);
    case DeclarationKind => DeclarationSturdy(p, enc, err);
    case UnrecognizedKind =>
    }
    NodeAhead(kind, p, condense, enc, err);
    hide Sturdy, Ahead, ElementAt, CdataAt, DeclarationAt;
    SturdyAhead(NodeAt(kind, p, condense, enc, err).p, p, enc);
  }

  /** An element does not overrun in text that meets the condition. */
  lemma {:induction false} ElementSturdy(p: Ptr, condense: bool, enc: Encoding, err: Err)
    requires Sturdy(p, enc)
    ensures !ElementAt(p, condense, enc, err).p.Wild?
    decreases p.Left(), 2
  {
    var p0 := AfterWhiteSpace(p, enc);
    WhiteSpaceSturdy(p, enc);
    hide Uncut;
    if p0.Live() && p0.s[0] == LT {
      DropSturdy(p0.s, 1, enc);
      WhiteSpaceSturdy(At(p0.s[1..]), enc);
      var p1 := AfterWhiteSpace(At(p0.s[1..]), enc);
      var nm := NameAt(p1);
      if nm.p.Live() {
        assert p1.s[|nm.name|..] == nm.p.s;
        DropSturdy(p1.s, |nm.name|, enc);
        TagSturdy(nm.name, [], nm.p, condense, enc, err);
      }
    }
  }

  lemma {:induction false} TagSturdy(name: bytes, attrs: seq<Attr>, p: Ptr, condense: bool, enc: Encoding, err: Err)
    requires p.Live() && Sturdy(p, enc)
    ensures !TagAt(name, attrs, p, condense, enc, err).p.Wild?
    decreases p.Left(), 1
  {
    var p0 := AfterWhiteSpace(p, enc);
    WhiteSpaceSturdy(p, enc);
    hide AfterWhiteSpace, AttributeAt, ContentAt, Uncut;
    if p0.Live() && p0.s[0] == GT {
      DropSturdy(p0.s, 1, enc);
      ContentSturdy([], At(p0.s[1..]), condense, enc, err);
    } else if p0.Live() && p0.s[0] != SLASH {
      var a := AttributeAt(p0, enc);
      AttributeSturdy(p0, enc);
      if a.p.Live() && a.attr.name !in AttrNames(attrs) {
        TagSturdy(name, attrs + [a.attr], a.p, condense, enc, err);
      }
    }
  }

  lemma {:induction false} ContentSturdy(kids: seq<Node>, p: Ptr, condense: bool, enc: Encoding, err: Err)
    requires Sturdy(p, enc)
    ensures !ContentAt(kids, p, condense, enc, err).p.Wild?
    decreases p.Left(), 4
  {
    var p0 := AfterWhiteSpace(p, enc);
    WhiteSpaceSturdy(p, enc);
    hide Uncut;
    if p0.Live() {
      if p0.s[0] != LT {
        FirstIsNotLt(p, enc);
        var s := if condense then p0.s else p.s;
        var t := PlainTextAt(s, condense, enc);
        PlainTextSturdy(s, condense, enc);
        hide AfterWhiteSpace, PlainTextAt;
        ContentSturdy(WithText(kids, t.text), t.p, condense, enc, err);
      } else if !(END_TAG_OPEN <= p0.s) {
        match Identify(p0, enc)
        case NoKind =>
        case Is(kind) =>
          var n := NodeAt(kind, p0, condense, enc, err);
          NodeSturdy(kind, p0, condense, enc, err);
          hide NodeAt, AfterWhiteSpace, Identify;
          ContentSturdy(kids + [n.node], n.p, condense, enc, n.err);
      }
    }
  }

  /** Whichever encoding gets settled on the way. */
  predicate SturdyInAll(p: Ptr, enc: Encoding) {
    Sturdy(p, if enc == Legacy then Legacy else Encoding.Utf8)
  }

  lemma SturdyInOne(p: Ptr, enc: Encoding)
    requires SturdyInAll(p, enc)
    ensures Sturdy(p, enc)
  {
  }

  lemma {:induction false} NodesSturdy(kids: seq<Node>, p: Ptr, condense: bool, enc: Encoding, err: Err)
    requires SturdyInAll(p, enc)
    ensures !NodesAt(kids, p, condense, enc, err).p.Wild?
    decreases p.Left()
  {
    SturdyInOne(p, enc);
    if p.Live() && Identify(p, enc).Is? {
      var kind := Identify(p, enc).kind;
      var n := NodeAt(kind, p, condense, enc, err);
      var enc' := EncodingAfter(enc, n.node);
      var q := AfterWhiteSpace(n.p, enc');
      assert enc == Legacy ==> enc' == Legacy;
      NodeSturdy(kind, p, condense, enc, err);
      NodeAhead(kind, p, condense, enc, err);
      WhiteSpaceAhead(n.p, enc');
      AheadTrans(q, n.p, p);
      assert !q.Wild?;
      hide NodeAt, AfterWhiteSpace, Identify, EncodingAfter, Uncut, Ahead;
      SturdyAhead(q, p, if enc == Legacy then Legacy else Encoding.Utf8);
      NodesSturdy(kids + [n.node], q, condense, enc', n.err);
    }
  }

  /** A document does not overrun if every UTF-8 sequence fits into its text; in the legacy encoding
      it never does. */
  lemma DocumentStaysInside(s: bytes, condense: bool, enc: Encoding)
    requires enc == Legacy || Uncut(s, Encoding.Utf8)
    ensures !DocumentAt(s, condense, enc).p.Wild?
  {
    if s != [] {
      var enc0 := StartEncoding(s, enc);
      var p := At(SkipWs(s, enc0));
      SkipWsAhead(s, enc0);
      SturdyAhead(p, At(s), if enc0 == Legacy then Legacy else Encoding.Utf8);
      NodesSturdy([], p, condense, enc0, NoError);
    }
  }

  // ----- a text that does overrun -----

  const CUT_TEXT: bytes := [LT, 97, GT, 0xE2]

  /** The text "<a>" and a lone lead byte of three, in UTF-8. */
  lemma CutTextOverruns(condense: bool)
    ensures ElementAt(At(CUT_TEXT), condense, Encoding.Utf8, NoError).p == Wild
  {
    var enc := Encoding.Utf8;
    var s := CUT_TEXT;
    NothingToSkipAt(s, enc);
    assert s[1..] == [97, GT, 0xE2] && s[2..] == [GT, 0xE2] && s[3..] == [0xE2];
    NothingToSkipAt(s[1..], enc);
    NothingToSkipAt(s[2..], enc);
    NothingToSkipAt(s[3..], enc);
    assert NameLength(s[1..]) == 1 by { assert s[1..][1..] == s[2..] && NameLength(s[2..]) == 0; }
    assert s[1..][1..] == s[2..] && s[2..][1..] == s[3..];
    assert PlainTextAt(s[3..], condense, enc).p == Wild by {
      assert Scan(s[3..], LT_TAG, enc).p == Wild;
    }
    hide AfterWhiteSpace, PlainTextAt, AttributeAt, NameLength;
    assert ContentAt([], At(s[3..]), condense, enc, NoError).p == Wild;
  }

  lemma CutDocumentOverruns(condense: bool)
    ensures DocumentAt(CUT_TEXT, condense, Encoding.Utf8).p == Wild
  {
    var enc := Encoding.Utf8;
    var s := CUT_TEXT;
    CutTextOverruns(condense);
    NothingToSkipAt(s, enc);
    ElementStartsAt(s, enc);
    hide ElementAt, Identify, AfterWhiteSpace, SkipWs;
    FirstNodeOverruns(s, ElementKind, condense, enc);
  }

  lemma FirstNodeOverruns(s: bytes, kind: Kind, condense: bool, enc: Encoding)
    requires s != [] && AfterWhiteSpace(At(s), enc) == At(s) && StartEncoding(s, enc) == enc
    requires Identify(At(s), enc) == Is(kind) && NodeAt(kind, At(s), condense, enc, NoError).p == Wild
    ensures DocumentAt(s, condense, enc).p == Wild
  {
    var n := NodeAt(kind, At(s), condense, enc, NoError);
    hide NodeAt, Identify, EncodingAfter, SkipWs;
    assert NodesAt([] + [n.node], Wild, condense, EncodingAfter(enc, n.node), n.err)
           == Content([] + [n.node], Wild, n.err);
  }

  lemma ElementStartsAt(s: bytes, enc: Encoding)
    requires |s| > 1 && s[0] == LT && IsNameStart(s[1])
    ensures Identify(At(s), enc) == Is(ElementKind)
  {
    NothingToSkipAt(s, enc);
    assert s[1] != COMMENT_OPEN[1] && s[1] != CDATA_OPEN[1] && s[1] != DTD_HEADER[1] && ToLower(s[1]) != XML_HEADER[1];
    hide AfterWhiteSpace;
  }

  lemma NothingToSkipAt(s: bytes, enc: Encoding)
    requires s != [] && !IsSpace(s[0]) && s[0] != 0xEF
    ensures AfterWhiteSpace(At(s), enc) == At(s)
  {
  }
}
