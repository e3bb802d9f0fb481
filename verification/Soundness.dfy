/** What a successful parse guarantees about the text it took and the tree it built. */
module Soundness {
  import opened Bytes
  import opened Codec
  import opened CodecLaws
  import opened Xml
  import opened Parser
  import opened LeafRoundTrip
  import opened RoundTrip
  import opened Consumed

  // ----- the text taken -----

  /** An end tag with nothing but skipped white space in front of its '>'. */
  predicate IsEndTag(close: bytes, name: bytes, gap: bytes, enc: Encoding) {
    close == END_TAG_OPEN + name + gap + [GT] && SkipWs(gap + [GT], enc) == [GT]
  }

  /** The end of an element: "/>", or its end tag. */
  ghost predicate IsClose(close: bytes, name: bytes, enc: Encoding) {
    close == [SLASH, GT] || exists gap :: IsEndTag(close, name, gap, enc)
  }

  ghost predicate ClosesWith(s: bytes, body: bytes, close: bytes, rest: bytes, name: bytes, enc: Encoding) {
    s == body + close + rest && IsClose(close, name, enc)
  }

  /** Between s and rest the text ends with the end of an element called name. */
  ghost predicate Closes(s: bytes, rest: bytes, name: bytes, enc: Encoding) {
    exists body, close :: ClosesWith(s, body, close, rest, name, enc)
  }

  lemma ClosesFrom(s: bytes, t: bytes, rest: bytes, name: bytes, enc: Encoding)
    requires Suffix(t, s) && Closes(t, rest, name, enc)
    ensures Closes(s, rest, name, enc)
  {
    var body, close :| ClosesWith(t, body, close, rest, name, enc);
    var pre := s[..|s| - |t|];
    assert s == pre + t;
    hide IsClose;
    Assoc(body, close, rest);
    Assoc(pre, body, close + rest);
    Assoc(pre + body, close, rest);
    assert ClosesWith(s, pre + body, close, rest, name, enc);
  }

  lemma {:induction false} OnlySkipped(w: bytes, rest: bytes, enc: Encoding)
    requires |SkipWs(w + [GT] + rest, enc)| == 1 + |rest|
    ensures SkipWs(w + [GT], enc) == [GT]
  {
    var s, t := w + [GT] + rest, w + [GT];
    if w == [] {
      assert t == [GT];
    } else {
      assert t[0] == s[0] == w[0];
      if enc == Utf8 && IsMark(s) {
        assert |w| >= 3 by {
          assert s[|w|] == GT && s[1] != GT && s[2] != GT;
        }
        assert t[1] == s[1] && t[2] == s[2];
        assert s[3..] == w[3..] + [GT] + rest && t[3..] == w[3..] + [GT];
        OnlySkipped(w[3..], rest, enc);
        assert IsMark(t);
      } else {
        assert s[1..] == w[1..] + [GT] + rest && t[1..] == w[1..] + [GT];
        OnlySkipped(w[1..], rest, enc);
        assert !IsMark(t) || enc != Utf8 by {
          if IsMark(t) {
            assert |t| >= 3 && s[1] == t[1] && s[2] == t[2];
          }
        }
      }
    }
  }

  /** The parts of an end tag that was read: tag, gap, '>' and what follows. */
  lemma EndTagParts(name: bytes, p: Ptr, enc: Encoding, err: Err) returns (gap: bytes)
    requires EndTagAt(name, p, enc, err).p.At?
    ensures var rest := EndTagAt(name, p, enc, err).p.s;
            p.At? && p.s == END_TAG_OPEN + name + (gap + ([GT] + rest)) &&
            SkipWs(gap + ([GT] + rest), enc) == [GT] + rest
  {
    var tag, rest := END_TAG_OPEN + name, EndTagAt(name, p, enc, err).p.s;
    var x := p.s[|tag|..];
    hide SkipWs;
    var y := SkipWs(x, enc);
    assert x != [] && y == [GT] + rest;
    SkipWsAhead(x, enc);
    gap := x[..|x| - |y|];
    assert x == gap + y;
    assert p.s == tag + x;
  }

  lemma EndTagCloses(name: bytes, p: Ptr, enc: Encoding, err: Err)
    ensures var r := EndTagAt(name, p, enc, err); r.p.At? ==> Closes(p.s, r.p.s, name, enc)
  {
    hide EndTagAt, SkipWs;
    var r := EndTagAt(name, p, enc, err);
    if r.p.At? {
      var gap := EndTagParts(name, p, enc, err);
      var tag, rest := END_TAG_OPEN + name, r.p.s;
      CloseParts(tag, gap, rest);
      OnlySkipped(gap, rest, enc);
      var close := tag + gap + [GT];
      assert IsEndTag(close, name, gap, enc);
      assert ClosesWith(p.s, [], close, rest, name, enc);
    }
  }

  lemma CloseParts(tag: bytes, w: bytes, rest: bytes)
    ensures tag + (w + ([GT] + rest)) == [] + (tag + w + [GT]) + rest
    ensures w + ([GT] + rest) == w + [GT] + rest
  {
    NothingInFront(tag + w + [GT]);
    Assoc(w, [GT], rest);
    Assoc(tag, w, [GT]);
    Assoc(tag, w + [GT], rest);
  }

  lemma {:induction false} TagCloses(name: bytes, attrs: seq<Attr>, p: Ptr, condense: bool, enc: Encoding, err: Err)
    requires p.Live()
    ensures var r := TagAt(name, attrs, p, condense, enc, err); r.p.At? ==> Closes(p.s, r.p.s, name, enc)
    decreases p.Left()
  {
    var r := TagAt(name, attrs, p, condense, enc, err);
    var p0 := AfterWhiteSpace(p, enc);
    WhiteSpaceAhead(p, enc);
    if r.p.At? {
      if p0.s[0] == SLASH {
        assert IsClose([SLASH, GT], name, enc);
        assert p0.s == [] + [SLASH, GT] + r.p.s;
        assert ClosesWith(p0.s, [], [SLASH, GT], r.p.s, name, enc);
      } else if p0.s[0] == GT {
        var q := At(p0.s[1..]);
        var c := ContentAt([], q, condense, enc, err);
        ContentAhead([], q, condense, enc, err);
        EndTagCloses(name, c.p, enc, c.err);
        hide ContentAt, EndTagAt, Closes;
        StepsAhead(c.p, p0, 1);
        ClosesFrom(p0.s, c.p.s, r.p.s, name, enc);
      } else {
        var a := AttributeAt(p0, enc);
        AttributeAhead(p0, enc);
        TagCloses(name, attrs + [a.attr], a.p, condense, enc, err);
        hide AttributeAt, Closes;
        ClosesFrom(p0.s, a.p.s, r.p.s, name, enc);
      }
      hide TagAt, AfterWhiteSpace, Closes;
      ClosesFrom(p.s, p0.s, r.p.s, name, enc);
    }
  }

  /** The text of a parsed element opens with '<' and its name and closes with "/>" or with its end
      tag. */
  lemma ElementTextIsSound(p: Ptr, condense: bool, enc: Encoding, err: Err)
    ensures var r := ElementAt(p, condense, enc, err);
            r.p.At? ==>
              var p0 := AfterWhiteSpace(p, enc);
              p0.Live() && p0.s[0] == LT &&
              var p1 := AfterWhiteSpace(At(p0.s[1..]), enc);
              p1.Live() && r.node.name <= p1.s && Closes(p1.s[|r.node.name|..], r.p.s, r.node.name, enc)
  {
    var r := ElementAt(p, condense, enc, err);
    if r.p.At? {
      var p0 := AfterWhiteSpace(p, enc);
      var p1 := AfterWhiteSpace(At(p0.s[1..]), enc);
      var nm := NameAt(p1);
      TagKeepsName(nm.name, [], nm.p, condense, enc, err);
      TagCloses(nm.name, [], nm.p, condense, enc, err);
      hide TagAt, AfterWhiteSpace, Closes;
      assert p1.s[|nm.name|..] == nm.p.s;
    }
  }

  lemma {:induction false} TagKeepsName(name: bytes, attrs: seq<Attr>, p: Ptr, condense: bool, enc: Encoding, err: Err)
    requires p.Live()
    ensures var n := TagAt(name, attrs, p, condense, enc, err).node;
            n.name == name && attrs <= n.attrs
    decreases p.Left()
  {
    hide AfterWhiteSpace, AttributeAt, ContentAt, EndTagAt, AttrNames;
    var p0 := AfterWhiteSpace(p, enc);
    if p0.Live() && p0.s[0] != SLASH && p0.s[0] != GT {
      var a := AttributeAt(p0, enc);
      if a.p.Live() && a.attr.name !in AttrNames(attrs) {
        TagKeepsName(name, attrs + [a.attr], a.p, condense, enc, err);
      }
    }
  }

  // ----- the tree built -----

  predicate SoundAttrs(attrs: seq<Attr>, enc: Encoding) {
    DistinctNames(attrs) && forall i :: 0 <= i < |attrs| ==> GoodName(attrs[i].name, enc)
  }

  /** The well-formedness of a tree that does not depend on its character data. */
  predicate Sound(n: Node, enc: Encoding)
    decreases n, 0
  {
    match n
    case Element(name, attrs, children) =>
      GoodName(name, enc) && SoundAttrs(attrs, enc) && SoundChildren(children, enc)
    case Text(v, true) => GoodCdata(v)
    case Text(v, false) => !Blank(v)
    case Comment(v) => GoodComment(v)
    case Declaration(_, _, _) => true
    case Unrecognized(v) => GoodUnrecognized(v)
  }

  predicate SoundChildren(ns: seq<Node>, enc: Encoding)
    decreases ns
  {
    (forall i :: 0 <= i < |ns| ==> Sound(ns[i], enc) && !IsEndTagLike(ns[i])) &&
    forall i {:trigger ns[i]} :: 0 <= i < |ns| - 1 && ns[i].IsPlainText() ==> !ns[i + 1].IsPlainText()
  }

  predicate EndsInText(ns: seq<Node>) {
    ns != [] && ns[|ns| - 1].IsPlainText()
  }

  lemma SoundAppend(ns: seq<Node>, n: Node, enc: Encoding)
    requires SoundChildren(ns, enc) && Sound(n, enc) && !IsEndTagLike(n)
    requires EndsInText(ns) ==> !n.IsPlainText()
    ensures SoundChildren(ns + [n], enc)
  {
    var all := ns + [n];
    forall i | 0 <= i < |all| - 1 && all[i].IsPlainText()
      ensures !all[i + 1].IsPlainText()
    {
      assert all[i] == ns[i];
      assert i + 1 < |ns| ==> all[i + 1] == ns[i + 1];
    }
  }

  lemma SuffixNulFree(t: bytes, s: bytes)
    requires Suffix(t, s) && NulFree(s)
    ensures NulFree(t)
  {
    assert forall i :: 0 <= i < |t| ==> t[i] == s[|s| - |t| + i];
  }

  lemma SkippedNulFree(p: Ptr, enc: Encoding)
    requires p.At? && NulFree(p.s)
    ensures var q := AfterWhiteSpace(p, enc); q.At? ==> NulFree(q.s)
  {
    WhiteSpaceAhead(p, enc);
    if AfterWhiteSpace(p, enc).At? {
      SuffixNulFree(AfterWhiteSpace(p, enc).s, p.s);
    }
  }

  lemma NameIsGood(p: Ptr, enc: Encoding)
    ensures var nm := NameAt(AfterWhiteSpace(p, enc)); nm.p.At? ==> GoodName(nm.name, enc)
  {
    var p0 := AfterWhiteSpace(p, enc);
    var nm := NameAt(p0);
    if nm.p.At? && enc == Utf8 && IsMark(nm.name) {
      assert nm.name <= p0.s;
      assert p0.s[0] == nm.name[0] && p0.s[1] == nm.name[1] && p0.s[2] == nm.name[2];
      assert IsMark(p0.s);
      NoMarkBehindSkip(p.s, enc);
    }
  }

  lemma {:induction false} NoMarkBehindSkip(s: bytes, enc: Encoding)
    ensures enc == Utf8 ==> !IsMark(SkipWs(s, enc))
  {
    if s == [] {
    } else {
      if enc == Utf8 && IsMark(s) {
        NoMarkBehindSkip(s[3..], enc);
      } else if IsSpace(s[0]) {
        NoMarkBehindSkip(s[1..], enc);
      }
    }
  }

  lemma AttributeNameIsGood(p: Ptr, enc: Encoding)
    ensures var a := AttributeAt(p, enc); a.p.At? ==> GoodName(a.attr.name, enc)
  {
    NameIsGood(p, enc);
    hide GoodName, ValueAt, NameAt, AfterWhiteSpace;
  }

  lemma PrefixesGrow(t: bytes, s: bytes, tag: bytes)
    requires t <= s
    ensures tag <= t ==> tag <= s
    ensures HasPrefixIgnoringCase(t, tag) ==> HasPrefixIgnoringCase(s, tag)
  {
    assert forall i :: 0 <= i < |t| ==> t[i] == s[i];
  }

  lemma NoTagInTail(v: bytes, tag: bytes)
    requires v != [] && !(tag <= v) && !Occurs(tag, v[1..])
    ensures !Occurs(tag, v)
  {
    forall i | 0 <= i <= |v|
      ensures !(tag <= v[i..])
    {
      if i == 0 {
        assert v[0..] == v;
      } else {
        assert v[i..] == v[1..][i - 1..];
      }
    }
  }

  /** The first closing tag is outside of what comes before it. */
  lemma {:induction false} NoTagBefore(s: bytes, tag: bytes)
    requires tag != []
    ensures !Occurs(tag, s[..FindTag(s, tag)])
  {
    var n := FindTag(s, tag);
    var v := s[..n];
    if s == [] || tag <= s {
      assert v == [] && !Occurs(tag, []);
    } else {
      hide Occurs;
      NoTagBefore(s[1..], tag);
      assert v[1..] == s[1..][..n - 1];
      PrefixesGrow(v, s, tag);
      NoTagInTail(v, tag);
    }
  }

  lemma PrefixNulFree(s: bytes, lo: nat, hi: nat)
    requires lo <= hi <= |s| && NulFree(s)
    ensures NulFree(s[lo..hi])
  {
  }

  lemma LeafIsSound(kind: Kind, p: Ptr, condense: bool, enc: Encoding, err: Err)
    requires p.Live() && NulFree(p.s) && AfterWhiteSpace(p, enc) == p
    requires kind != ElementKind && Identify(p, enc) == Is(kind)
    ensures var n := NodeAt(kind, p, condense, enc, err).node;
            Sound(n, enc) && !n.IsPlainText() && !n.Element? &&
            (!(END_TAG_OPEN <= p.s) ==> !IsEndTagLike(n))
  {
    hide CommentAt, CdataAt, DeclarationAt, UnrecognizedAt, GoodComment, GoodCdata, GoodUnrecognized, Identify;
    match kind
    case CommentKind => CommentIsSound(p, enc, err);
    case CdataKind => CdataIsSound(p, enc, err);
    case DeclarationKind =>
    case UnrecognizedKind => UnrecognizedIsSound(p, enc, err);
  }

  lemma CommentIsSound(p: Ptr, enc: Encoding, err: Err)
    requires p.Live() && NulFree(p.s) && AfterWhiteSpace(p, enc) == p && Identify(p, enc) == Is(CommentKind)
    ensures var n := CommentAt(p, enc, err).node; n.Comment? && GoodComment(n.value)
  {
    assert COMMENT_OPEN <= p.s;
    hide FindTag, Occurs, NulFree, Identify;
    var body := p.s[4..];
    var n := FindTag(body, COMMENT_CLOSE);
    NoTagBefore(body, COMMENT_CLOSE);
    assert body[..n] == p.s[4..4 + n];
    PrefixNulFree(p.s, 4, 4 + n);
  }

  lemma CdataIsSound(p: Ptr, enc: Encoding, err: Err)
    requires p.Live() && NulFree(p.s) && AfterWhiteSpace(p, enc) == p && Identify(p, enc) == Is(CdataKind)
    ensures var n := CdataAt(p, enc, err).node; n.Text? && n.cdata && GoodCdata(n.value)
  {
    assert CDATA_OPEN <= p.s;
    hide FindTag, Occurs, NulFree, Identify, TextAt;
    var body := p.s[9..];
    var n := FindTag(body, CDATA_CLOSE);
    NoTagBefore(body, CDATA_CLOSE);
    assert body[..n] == p.s[9..9 + n];
    PrefixNulFree(p.s, 9, 9 + n);
  }

  lemma UnrecognizedIsSound(p: Ptr, enc: Encoding, err: Err)
    requires p.Live() && NulFree(p.s) && AfterWhiteSpace(p, enc) == p
    requires Identify(p, enc) == Is(UnrecognizedKind)
    ensures var n := UnrecognizedAt(p, enc, err).node;
            n.Unrecognized? && GoodUnrecognized(n.value) && (!(END_TAG_OPEN <= p.s) ==> !IsEndTagLike(n))
  {
    hide AfterWhiteSpace;
    var v := UnrecognizedAt(p, enc, err).node.value;
    var t := LT_TAG + v;
    assert t <= p.s;
    PrefixesGrow(t, p.s, XML_HEADER);
    PrefixesGrow(t, p.s, COMMENT_OPEN);
    PrefixesGrow(t, p.s, CDATA_OPEN);
    assert v != [] ==> v[0] == p.s[1];
    assert DTD_HEADER <= p.s ==> p.s[1] == BANG;
    assert NulFree(v);
    assert IsEndTagLike(Unrecognized(v)) ==> END_TAG_OPEN <= p.s;
  }

  /** A parsed element is sound, all the way down. */
  lemma {:induction false} ElementIsSound(p: Ptr, condense: bool, enc: Encoding, err: Err)
    requires p.At? && NulFree(p.s)
    ensures var r := ElementAt(p, condense, enc, err); r.p.At? ==> Sound(r.node, enc)
    decreases p.Left(), 2
  {
    var p0 := AfterWhiteSpace(p, enc);
    SkippedNulFree(p, enc);
    if p0.Live() && p0.s[0] == LT {
      var p1 := AfterWhiteSpace(At(p0.s[1..]), enc);
      var nm := NameAt(p1);
      NameIsGood(At(p0.s[1..]), enc);
      if nm.p.Live() {
        SkippedNulFree(At(p0.s[1..]), enc);
        assert nm.p.s == p1.s[|nm.name|..];
        TagIsSound(nm.name, [], nm.p, condense, enc, err);
      }
    }
    hide TagAt, AfterWhiteSpace, NameAt, Sound;
  }

  lemma SoundAttrsAppend(attrs: seq<Attr>, a: Attr, enc: Encoding)
    requires SoundAttrs(attrs, enc) && GoodName(a.name, enc) && a.name !in AttrNames(attrs)
    ensures SoundAttrs(attrs + [a], enc)
  {
    var more := attrs + [a];
    assert forall i :: 0 <= i < |attrs| ==> more[i] == attrs[i] && attrs[i].name in AttrNames(attrs);
    hide GoodName, AttrNames;
  }

  lemma {:induction false} TagIsSound(name: bytes, attrs: seq<Attr>, p: Ptr, condense: bool, enc: Encoding, err: Err)
    requires p.Live() && NulFree(p.s) && GoodName(name, enc) && SoundAttrs(attrs, enc)
    ensures var r := TagAt(name, attrs, p, condense, enc, err); r.p.At? ==> Sound(r.node, enc)
    decreases p.Left(), 1
  {
    var r := TagAt(name, attrs, p, condense, enc, err);
    var p0 := AfterWhiteSpace(p, enc);
    SkippedNulFree(p, enc);
    if r.p.At? {
      if p0.s[0] == SLASH {
        assert Sound(r.node, enc);
      } else if p0.s[0] == GT {
        ContentIsSound([], At(p0.s[1..]), condense, enc, err);
        hide ContentAt, EndTagAt, AfterWhiteSpace, GoodName, SoundAttrs, SoundChildren;
      } else {
        var a := AttributeAt(p0, enc);
        AttributeAhead(p0, enc);
        AttributeNameIsGood(p0, enc);
        SuffixNulFree(a.p.s, p0.s);
        var more := attrs + [a.attr];
        SoundAttrsAppend(attrs, a.attr, enc);
        hide AttributeAt, AfterWhiteSpace, Sound, SoundAttrs, GoodName, AttrNames;
        TagIsSound(name, more, a.p, condense, enc, err);
      }
    }
  }

  lemma {:induction false} NodeIsSound(kind: Kind, p: Ptr, condense: bool, enc: Encoding, err: Err)
    requires p.Live() && NulFree(p.s) && AfterWhiteSpace(p, enc) == p && Identify(p, enc) == Is(kind)
    ensures var r := NodeAt(kind, p, condense, enc, err);
            (r.p.At? || kind != ElementKind ==> Sound(r.node, enc)) && !r.node.IsPlainText() &&
            (!(END_TAG_OPEN <= p.s) ==> !IsEndTagLike(r.node))
    decreases p.Left(), 3
  {
    if kind == ElementKind {
      ElementIsSound(p, condense, enc, err);
      hide ElementAt, Sound, Identify;
    } else {
      LeafIsSound(kind, p, condense, enc, err);
      hide NodeAt, Sound, Identify;
    }
  }

  lemma {:induction false} ContentIsSound(kids: seq<Node>, p: Ptr, condense: bool, enc: Encoding, err: Err)
    requires p.At? ==> NulFree(p.s)
    requires SoundChildren(kids, enc) && (EndsInText(kids) && p.Live() ==> p.s[0] == LT)
    ensures var r := ContentAt(kids, p, condense, enc, err); r.p.At? ==> SoundChildren(r.kids, enc)
    decreases p.Left(), 4
  {
    hide NodeAt, Identify, PlainTextAt, SoundChildren, WithText, Sound;
    var r := ContentAt(kids, p, condense, enc, err);
    var p0 := AfterWhiteSpace(p, enc);
    if r.p.At? && p0.Live() {
      SkippedNulFree(p, enc);
      SkipWsTwice(p, enc);
      if p0.s[0] != LT {
        FirstIsNotLt(p, enc);
        var s := if condense then p0.s else p.s;
        var t := PlainTextAt(s, condense, enc);
        var more := WithText(kids, t.text);
        PlainTextAhead(s, condense, enc);
        if t.p.At? {
          SuffixNulFree(t.p.s, s);
          SoundWithText(kids, t.text, enc);
          ContentIsSound(more, t.p, condense, enc, err);
        }
        hide ContentAt, PlainTextAt, AfterWhiteSpace, WithText, SoundChildren;
        assert t.p.Null? ==> ContentAt(more, t.p, condense, enc, err).p.Left() == 0;
      } else if !(END_TAG_OPEN <= p0.s) {
        var kind := Identify(p0, enc).kind;
        var n := NodeAt(kind, p0, condense, enc, err);
        NodeIsSound(kind, p0, condense, enc, err);
        NodeAhead(kind, p0, condense, enc, err);
        if n.p.At? {
          SuffixNulFree(n.p.s, p0.s);
          SoundAppend(kids, n.node, enc);
          assert !EndsInText(kids + [n.node]);
          ContentIsSound(kids + [n.node], n.p, condense, enc, n.err);
        }
        hide ContentAt, NodeAt, AfterWhiteSpace, Identify, SoundChildren;
        assert n.p.Null? ==> ContentAt(kids + [n.node], n.p, condense, enc, n.err).p.Left() == 0;
      }
    }
  }

  lemma SoundWithText(kids: seq<Node>, text: bytes, enc: Encoding)
    requires SoundChildren(kids, enc) && !EndsInText(kids)
    ensures SoundChildren(WithText(kids, text), enc)
  {
    if !Blank(text) {
      SoundAppend(kids, Text(text, false), enc);
    }
  }

  lemma SkipWsTwice(p: Ptr, enc: Encoding)
    ensures AfterWhiteSpace(p, enc).Live() ==>
              AfterWhiteSpace(AfterWhiteSpace(p, enc), enc) == AfterWhiteSpace(p, enc)
  {
    if p.Live() {
      NoMarkBehindSkip(p.s, enc);
    }
  }
}
