/** Printing a tree and parsing the text gives the tree back. */
module RoundTrip {
  import opened Bytes
  import opened Codec
  import opened CodecLaws
  import opened EscapeLimits
  import opened Xml
  import opened Parser
  import opened Printer
  import opened LeafRoundTrip

  // ----- the trees that read back, and what they read back as -----

  /** The value printed text has after parsing. */
  function TextBack(v: bytes, condense: bool, enc: Encoding): bytes
    requires HexFree(v) && WholeChars(v, enc)
  {
    if condense then Condensed(v, enc) else v
  }

  /** Text that survives escaping. */
  predicate GoodText(v: bytes, enc: Encoding) {
    HexFree(v) && WholeChars(v, enc)
  }

  /** Text that becomes a node again: more than blanks and marks in front, and not blank in what is
      kept of it. */
  predicate Shows(v: bytes, condense: bool, enc: Encoding) {
    StripLead(v, enc) != [] && !Blank(if condense then StripLead(v, enc) else v)
  }

  /** The nodes printed text becomes. */
  function TextNodes(v: bytes, condense: bool, enc: Encoding): seq<Node>
    requires GoodText(v, enc)
  {
    if Shows(v, condense, enc) then [Text(TextBack(v, condense, enc), false)] else []
  }

  /** Condensing makes no text blank and no blank text visible. */
  lemma BlankOnceRead(v: bytes, condense: bool, enc: Encoding)
    requires GoodText(v, enc)
    ensures Shows(v, condense, enc) <==> StripLead(v, enc) != [] && !Blank(TextBack(v, condense, enc))
  {
    if condense {
      CondensedIsBlank(v, enc);
    }
  }

  predicate IsEndTagLike(n: Node) {
    n.Unrecognized? && n.value != [] && n.value[0] == SLASH
  }

  predicate GoodAttrs(attrs: seq<Attr>, enc: Encoding) {
    DistinctNames(attrs) && forall i :: 0 <= i < |attrs| ==> GoodAttr(attrs[i], enc)
  }

  predicate Good(n: Node, enc: Encoding)
    decreases n, 0
  {
    match n
    case Element(name, attrs, children) =>
      GoodName(name, enc) && GoodAttrs(attrs, enc) && GoodChildren(children, enc)
    case Text(v, true) => GoodCdata(v)
    case Text(v, false) => GoodText(v, enc)
    case Comment(v) => GoodComment(v)
    case Declaration(_, _, _) => GoodDeclaration(n, enc)
    case Unrecognized(v) => GoodUnrecognized(v)
  }

  /** Children of an element: good nodes, no two plain texts in a row, none like an end tag. */
  predicate GoodChildren(ns: seq<Node>, enc: Encoding)
    decreases ns
  {
    ns != [] ==>
      Good(ns[0], enc) && !IsEndTagLike(ns[0]) && GoodChildren(ns[1..], enc) &&
      (|ns| > 1 && ns[0].IsPlainText() ==> !ns[1].IsPlainText())
  }

  /** A node that is not plain text, as it reads back: texts below it are condensed, or dropped. */
  function Back(n: Node, condense: bool, enc: Encoding): (r: Node)
    requires Good(n, enc)
    ensures n.Declaration? ==> r == n
    decreases n, 0
  {
    match n
    case Element(name, attrs, children) => Element(name, attrs, BackAll(children, condense, enc))
    case Text(v, false) => Text(TextBack(v, condense, enc), false)
    case _ => n
  }

  function BackAll(ns: seq<Node>, condense: bool, enc: Encoding): (rs: seq<Node>)
    requires GoodChildren(ns, enc)
    ensures |rs| <= |ns|
    decreases ns
  {
    if ns == [] then [] else Backs(ns[0], condense, enc) + BackAll(ns[1..], condense, enc)
  }

  function Backs(n: Node, condense: bool, enc: Encoding): (rs: seq<Node>)
    requires Good(n, enc)
    ensures |rs| <= 1 && (!n.IsPlainText() ==> rs == [Back(n, condense, enc)])
    decreases n, 1
  {
    if n.IsPlainText() then TextNodes(n.value, condense, enc) else [Back(n, condense, enc)]
  }

  /** Stream printing when white space is kept, any white space for layout when it is condensed. */
  predicate Lays(style: Style, condense: bool) {
    if condense then AllSpace(style.indent) && AllSpace(style.lineBreak) else style == STREAM
  }

  lemma {:induction false} IndentIsSpace(style: Style, depth: nat, condense: bool)
    requires Lays(style, condense)
    ensures AllSpace(Indent(style, depth))
    ensures !condense ==> Indent(style, depth) == []
  {
    if depth == 0 {
    } else {
      IndentIsSpace(style, depth - 1, condense);
    }
  }

  // ----- tags -----

  lemma SpaceBeforeName(name: bytes, rest: bytes, enc: Encoding)
    requires GoodName(name, enc) && rest != [] && rest[0] < 0x80 && !IsNameByte(rest[0])
    ensures AfterWhiteSpace(At([SPACE] + (name + rest)), enc) == At(name + rest)
  {
    NameReadsBack(name, rest, enc);
    SkipWsOverSpaces([SPACE], name + rest, enc);
  }

  /** One round of the attribute loop that reads an attribute. */
  lemma AttributeRound(name: bytes, done: seq<Attr>, p: Ptr, s: bytes, a: Attr, rest: bytes,
                       condense: bool, enc: Encoding, err: Err)
    requires p.Live() && AfterWhiteSpace(p, enc) == At(s) && s != [] && s[0] != SLASH && s[0] != GT
    requires AttributeAt(At(s), enc) == AttrRead(a, At(rest), NoError) && rest != []
    requires a.name !in AttrNames(done)
    ensures TagAt(name, done, p, condense, enc, err) == TagAt(name, done + [a], At(rest), condense, enc, err)
  {
    hide AttributeAt, AfterWhiteSpace, AttrNames;
  }

  lemma {:induction false} AttrsReadBack(name: bytes, done: seq<Attr>, attrs: seq<Attr>, after: bytes,
                                         condense: bool, enc: Encoding, err: Err)
    requires GoodAttrs(done + attrs, enc) && after != [] && after[0] < 0x80 && !IsNameByte(after[0])
    ensures TagAt(name, done, At(PrintAttrs(attrs) + after), condense, enc, err)
            == TagAt(name, done + attrs, At(after), condense, enc, err)
    decreases |attrs|
  {
    if attrs == [] {
      assert PrintAttrs(attrs) + after == after && done + attrs == done;
    } else {
      var a, more := attrs[0], PrintAttrs(attrs[1..]) + after;
      assert (done + attrs)[|done|] == a;
      assert a.name !in AttrNames(done) by {
        forall i | 0 <= i < |done|
          ensures done[i].name != a.name
        {
          assert (done + attrs)[i] == done[i];
        }
      }
      assert done + attrs == done + [a] + attrs[1..];
      AttrsReadBack(name, done + [a], attrs[1..], after, condense, enc, err);
      PrintedAttrs(attrs, after);
      AttrReadsBack(a, more, enc);
      AttrStartsWithName(a, more, enc);
      var s := PrintAttr(a) + more;
      assert ([SPACE] + s)[0] == SPACE;
      hide *;
      AttributeRound(name, done, At([SPACE] + s), s, a, more, condense, enc, err);
    }
  }

  lemma PrintedAttrs(attrs: seq<Attr>, after: bytes)
    requires attrs != []
    ensures PrintAttrs(attrs) + after == [SPACE] + (PrintAttr(attrs[0]) + (PrintAttrs(attrs[1..]) + after))
  {
    hide PrintAttr;
    var a, b := PrintAttr(attrs[0]), PrintAttrs(attrs[1..]);
    assert PrintAttrs(attrs) == [SPACE] + a + b;
    hide PrintAttrs;
    Assoc([SPACE] + a, b, after);
    Assoc([SPACE], a, b + after);
  }

  lemma AttrStartsWithName(a: Attr, more: bytes, enc: Encoding)
    requires GoodAttr(a, enc)
    ensures var s := PrintAttr(a) + more;
            s != [] && s[0] != SLASH && s[0] != GT && AfterWhiteSpace(At([SPACE] + s), enc) == At(s)
  {
    var q := if QUOT in CStr(a.value) then APOS else QUOT;
    var rest := [EQUALS, q] + Escape(a.value) + [q] + more;
    NameEscapesToItself(a.name);
    assert PrintAttr(a) + more == a.name + rest;
    hide Escape, PrintAttr, CStr, HexFree, WholeChars;
    assert rest[0] == EQUALS;
    SpaceBeforeName(a.name, rest, enc);
    assert (a.name + rest)[0] == a.name[0];
  }

  lemma EmptyTagReadsBack(name: bytes, attrs: seq<Attr>, rest: bytes, condense: bool, enc: Encoding, err: Err)
    ensures TagAt(name, attrs, At(EMPTY_CLOSE + rest), condense, enc, err)
            == Parsed(Element(name, attrs, []), At(rest), err)
  {
    var s := [SLASH, GT] + rest;
    assert EMPTY_CLOSE + rest == [SPACE] + s;
    OneSpaceSkipped(s, enc);
    assert s[2..] == rest;
    hide AfterWhiteSpace, AttributeAt;
  }

  lemma EndTagReadsBack(name: bytes, rest: bytes, enc: Encoding, err: Err)
    ensures EndTagAt(name, At(END_TAG_OPEN + name + [GT] + rest), enc, err) == EndRead(At(rest), err)
  {
    var tag, end := END_TAG_OPEN + name, [GT] + rest;
    var s := END_TAG_OPEN + name + [GT] + rest;
    assert s == tag + end;
    TakeDrop(tag, end);
    TakeDrop([GT], rest);
    NothingToSkip(end, enc);
    hide AfterWhiteSpace;
  }

  /** A start tag, content that reads back up to the end tag, and the end tag. */
  lemma ElementWithContent(name: bytes, attrs: seq<Attr>, body: bytes, kids: seq<Node>, rest: bytes,
                           condense: bool, enc: Encoding, err: Err)
    requires ContentAt([], At(body), condense, enc, err)
          == Content(kids, At(END_TAG_OPEN + name + [GT] + rest), err)
    ensures TagAt(name, attrs, At([GT] + body), condense, enc, err)
         == Parsed(Element(name, attrs, kids), At(rest), err)
  {
    TakeDrop([GT], body);
    NothingToSkip([GT] + body, enc);
    EndTagReadsBack(name, rest, enc, err);
    hide AfterWhiteSpace, AttributeAt, ContentAt, EndTagAt;
  }

  /** The start of an element, up to its attributes. */
  lemma ElementOpens(n: Node, after: bytes, condense: bool, enc: Encoding, err: Err)
    requires n.Element? && GoodName(n.name, enc) && GoodAttrs(n.attrs, enc)
    requires after != [] && after[0] < 0x80 && !IsNameByte(after[0])
    ensures var s := PrintOpen(n) + after;
            s != [] && s[0] == LT && !(END_TAG_OPEN <= s) &&
            Identify(At(s), enc) == Is(ElementKind) &&
            ElementAt(At(s), condense, enc, err) == TagAt(n.name, n.attrs, At(after), condense, enc, err)
  {
    var rest := PrintAttrs(n.attrs) + after;
    PrintedOpen(n, after, enc);
    ElementKindOf(n.name, rest, enc);
    AttrsReadBack(n.name, [], n.attrs, after, condense, enc, err);
    assert [] + n.attrs == n.attrs;
    PrintAttrsStart(n.attrs, after);
    hide Identify, PrintOpen, PrintAttrs, TagAt;
    ElementStarts(n.name, rest, condense, enc, err);
  }

  lemma PrintedOpen(n: Node, after: bytes, enc: Encoding)
    requires n.Element? && GoodName(n.name, enc) && GoodAttrs(n.attrs, enc)
    ensures PrintOpen(n) + after == LT_TAG + n.name + (PrintAttrs(n.attrs) + after)
  {
    CStrOf(n.name);
    ReachedIsAll(n.attrs);
    hide PrintAttrs;
    Assoc(LT_TAG + n.name, PrintAttrs(n.attrs), after);
  }

  lemma PrintAttrsStart(attrs: seq<Attr>, after: bytes)
    requires after != [] && after[0] < 0x80 && !IsNameByte(after[0])
    ensures var rest := PrintAttrs(attrs) + after;
            rest != [] && rest[0] < 0x80 && !IsNameByte(rest[0])
  {
    if attrs == [] {
      assert PrintAttrs(attrs) + after == after;
    } else {
      PrintedAttrs(attrs, after);
    }
  }

  lemma ElementStarts(name: bytes, rest: bytes, condense: bool, enc: Encoding, err: Err)
    requires GoodName(name, enc) && rest != [] && rest[0] < 0x80 && !IsNameByte(rest[0])
    ensures var s := LT_TAG + name + rest;
            s != [] && s[0] == LT && !(END_TAG_OPEN <= s) &&
            ElementAt(At(s), condense, enc, err) == TagAt(name, [], At(rest), condense, enc, err)
  {
    var s := LT_TAG + name + rest;
    NothingToSkip(s, enc);
    assert s[1..] == name + rest;
    assert s[1] == name[0] && END_TAG_OPEN[1] == SLASH;
    NameReadsBack(name, rest, enc);
    hide AfterWhiteSpace, NameAt, TagAt;
  }

  // ----- content -----

  /** White space in front of the next child changes nothing: where it is kept, only in front of
      markup. */
  lemma ContentSkips(kids: seq<Node>, w: bytes, s: bytes, condense: bool, enc: Encoding, err: Err)
    requires AllSpace(w) && s != [] && (condense || w == [] || s[0] == LT)
    ensures ContentAt(kids, At(w + s), condense, enc, err) == ContentAt(kids, At(s), condense, enc, err)
  {
    if w == [] {
      assert w + s == s;
    } else {
      SkipWsOverSpaces(w, s, enc);
      assert AfterWhiteSpace(At(w + s), enc) == AfterWhiteSpace(At(s), enc);
      if s[0] == LT {
        NothingToSkip(s, enc);
      }
      hide AfterWhiteSpace, ContentAt;
      SameContent(kids, At(w + s), At(s), condense, enc, err);
    }
  }

  /** Where white space is condensed, or markup comes next, content is read from the next byte that is kept. */
  lemma SameContent(kids: seq<Node>, p: Ptr, q: Ptr, condense: bool, enc: Encoding, err: Err)
    requires AfterWhiteSpace(p, enc) == AfterWhiteSpace(q, enc)
    requires condense || (AfterWhiteSpace(p, enc).Live() && AfterWhiteSpace(p, enc).s[0] == LT)
    ensures ContentAt(kids, p, condense, enc, err) == ContentAt(kids, q, condense, enc, err)
  {
    hide AfterWhiteSpace, PlainTextAt, Identify, NodeAt;
  }

  lemma TextStarts(v: bytes, w: bytes, more: bytes, enc: Encoding)
    requires HexFree(v) && WholeChars(v, enc) && StripLead(v, enc) != [] && AllSpace(w)
    ensures var u := StripLead(v, enc);
            var s := Escape(u) + (w + (LT_TAG + more));
            HexFree(u) && WholeChars(u, enc) && s[0] != LT &&
            SkipWs(Escape(v) + (w + (LT_TAG + more)), enc) == s
  {
    var u, end := StripLead(v, enc), w + (LT_TAG + more);
    StripLeadKeeps(v, enc);
    SkipWsStripsLead(v, w, LT_TAG + more, enc);
    NoMarkInFront(u);
    EscapedCharReadsBack(u, end, enc);
    hide Escape;
    assert (Escape(u) + end)[0] == Escape(u)[0];
  }

  lemma CondensedBehindLead(v: bytes, enc: Encoding)
    requires HexFree(v) && WholeChars(v, enc)
    ensures var u := StripLead(v, enc);
            HexFree(u) && WholeChars(u, enc) && Condensed(u, enc) == Condensed(v, enc)
  {
    StripLeadKeeps(v, enc);
    StripLeadTwice(v, enc);
  }

  lemma CondensedChild(v: bytes, w: bytes, more: bytes, enc: Encoding)
    requires HexFree(v) && WholeChars(v, enc) && StripLead(v, enc) != [] && AllSpace(w) && more != []
    ensures var s := Escape(StripLead(v, enc)) + (w + (LT_TAG + more));
            s[0] != LT && PlainTextAt(s, true, enc) == TextRead(Condensed(v, enc), At(LT_TAG + more))
  {
    var u := StripLead(v, enc);
    var s := Escape(u) + (w + (LT_TAG + more));
    TextStarts(v, w, more, enc);
    CondensedBehindLead(v, enc);
    hide Escape, Condensed, StripLead;
    CondensedTextReadsBack([], u, w, LT_TAG, more, enc);
    Assoc(w, LT_TAG, more);
    assert [] + s == s;
    hide TextAt;
  }

  lemma KeptChild(v: bytes, more: bytes, enc: Encoding)
    requires HexFree(v) && WholeChars(v, enc) && more != []
    ensures var s := Escape(v) + (LT_TAG + more);
            s[0] != LT ==> PlainTextAt(s, false, enc) == TextRead(v, At(LT_TAG + more))
  {
    KeptTextReadsBack(v, LT_TAG, more, enc);
    hide Escape, TextAt;
  }

  /** One round of the content loop that reads plain text. */
  lemma TextRound(kids: seq<Node>, p: Ptr, s: bytes, v: bytes, q: Ptr, condense: bool, enc: Encoding, err: Err)
    requires p.Live() && AfterWhiteSpace(p, enc) == At(s) && s != [] && s[0] != LT && p.s[0] != LT
    requires PlainTextAt(if condense then s else p.s, condense, enc) == TextRead(v, q)
    ensures ContentAt(kids, p, condense, enc, err) == ContentAt(WithText(kids, v), q, condense, enc, err)
  {
    hide AfterWhiteSpace, PlainTextAt, Blank, Identify, NodeAt;
  }

  /** Nothing but white space and marks in front of markup is read over. */
  lemma NothingRead(kids: seq<Node>, p: Ptr, s: bytes, condense: bool, enc: Encoding, err: Err)
    requires p.Live() && AfterWhiteSpace(p, enc) == At(s) && s != [] && s[0] == LT
    ensures ContentAt(kids, p, condense, enc, err) == ContentAt(kids, At(s), condense, enc, err)
  {
    NothingToSkip(s, enc);
    hide AfterWhiteSpace, ContentAt;
    SameContent(kids, p, At(s), condense, enc, err);
  }

  /** A printed text, laid out with white space where that is condensed, is read as one child if it
      shows, and as none if it does not. */
  lemma TextChildReadsBack(kids: seq<Node>, lead: bytes, v: bytes, w: bytes, more: bytes,
                           condense: bool, enc: Encoding, err: Err)
    requires GoodText(v, enc) && AllSpace(lead) && AllSpace(w) && more != []
    requires condense || (lead == [] && w == [])
    ensures ContentAt(kids, At(lead + (Escape(v) + (w + (LT_TAG + more)))), condense, enc, err)
            == ContentAt(kids + TextNodes(v, condense, enc), At(LT_TAG + more), condense, enc, err)
  {
    if StripLead(v, enc) == [] {
      var end := w + (LT_TAG + more);
      assert TextNodes(v, condense, enc) == [] && kids + [] == kids;
      SkipWsStripsLead(v, w, LT_TAG + more, enc);
      SkipWsOverSpaces(lead, Escape(v) + end, enc);
      hide Escape, SkipWs, ContentAt, Shows, StripLead;
      NothingRead(kids, At(lead + (Escape(v) + end)), LT_TAG + more, condense, enc, err);
    } else {
      ReadTextReadsBack(kids, lead, v, w, more, condense, enc, err);
      BlankOnceRead(v, condense, enc);
      hide Escape, ContentAt, Shows, StripLead, TextBack;
      assert kids + [] == kids;
    }
  }

  lemma ReadTextReadsBack(kids: seq<Node>, lead: bytes, v: bytes, w: bytes, more: bytes,
                          condense: bool, enc: Encoding, err: Err)
    requires GoodText(v, enc) && StripLead(v, enc) != [] && AllSpace(lead) && AllSpace(w) && more != []
    requires condense || (lead == [] && w == [])
    ensures ContentAt(kids, At(lead + (Escape(v) + (w + (LT_TAG + more)))), condense, enc, err)
            == ContentAt(WithText(kids, TextBack(v, condense, enc)), At(LT_TAG + more), condense, enc, err)
  {
    var end := w + (LT_TAG + more);
    var p := At(lead + (Escape(v) + end));
    var s := Escape(StripLead(v, enc)) + end;
    TextStarts(v, w, more, enc);
    SkipWsOverSpaces(lead, Escape(v) + end, enc);
    FirstIsNotLt(p, enc);
    if condense {
      CondensedChild(v, w, more, enc);
    } else {
      assert end == LT_TAG + more && p.s == Escape(v) + end;
      KeptChild(v, more, enc);
    }
    var back := TextBack(v, condense, enc);
    assert AfterWhiteSpace(p, enc) == At(s);
    hide *;
    TextRound(kids, p, s, back, At(LT_TAG + more), condense, enc, err);
  }

  /** A text that is not blank and yet gets lost: in UTF-8, a byte-order mark. */
  lemma MarkAloneGetsLost(kids: seq<Node>, more: bytes, condense: bool, err: Err)
    requires more != []
    ensures GoodText(BOM, Encoding.Utf8) && !Blank(BOM)
    ensures ContentAt(kids, At(Escape(BOM) + (LT_TAG + more)), condense, Encoding.Utf8, err)
            == ContentAt(kids, At(LT_TAG + more), condense, Encoding.Utf8, err)
  {
    var enc := Encoding.Utf8;
    assert BOM[3..] == [];
    forall i | 0 <= i <= |BOM|
      ensures !(HEX_MARK <= BOM[i..])
    {
      if i < |BOM| {
        assert BOM[i..][0] == BOM[i] != HEX_MARK[0];
      }
    }
    assert StripLead(BOM, enc) == [] by { assert StripLead(BOM[3..], enc) == []; }
    assert WholeChars(BOM, enc) by { assert WholeChars(BOM[3..], enc); }
    assert [] + (LT_TAG + more) == LT_TAG + more;
    assert [] + (Escape(BOM) + (LT_TAG + more)) == Escape(BOM) + (LT_TAG + more);
    assert TextNodes(BOM, condense, enc) == [] && kids + [] == kids;
    hide Escape, ContentAt;
    TextChildReadsBack(kids, [], BOM, [], more, condense, enc, err);
  }

  function KindOf(n: Node): Kind
    requires !n.IsPlainText()
  {
    match n
    case Element(_, _, _) => ElementKind
    case Text(_, _) => CdataKind
    case Comment(_) => CommentKind
    case Declaration(_, _, _) => DeclarationKind
    case Unrecognized(_) => UnrecognizedKind
  }

  /** Where reading a printed node ends. */
  function Behind(n: Node, rest: bytes): Ptr {
    if n.Text? then BehindCdata(rest) else At(rest)
  }

  /** At s a node is recognized, and parsing it gives back and leaves the pointer at p. */
  predicate Reads(s: bytes, kind: Kind, back: Node, p: Ptr, condense: bool, enc: Encoding, err: Err) {
    s != [] && s[0] == LT && Identify(At(s), enc) == Is(kind) &&
    NodeAt(kind, At(s), condense, enc, err) == Parsed(back, p, err)
  }

  lemma CdataNodeReadsBack(v: bytes, rest: bytes, condense: bool, enc: Encoding, err: Err)
    requires GoodCdata(v)
    ensures Reads(PrintLeaf(Text(v, true)) + rest, CdataKind, Text(v, true), BehindCdata(rest), condense, enc, err)
  {
    CdataReadsBackIff(v, rest, enc, err);
    PrintedCdata(v, rest);
    MarkupKinds(v + CDATA_CLOSE + rest, enc);
    hide PrintLeaf, CdataAt, Identify, GoodCdata;
    Assoc(CDATA_OPEN, v + CDATA_CLOSE, rest);
  }

  lemma CommentNodeReadsBack(v: bytes, rest: bytes, condense: bool, enc: Encoding, err: Err)
    requires GoodComment(v)
    ensures Reads(PrintLeaf(Comment(v)) + rest, CommentKind, Comment(v), At(rest), condense, enc, err)
  {
    CommentReadsBackIff(v, rest, enc, err);
    PrintedComment(v, rest);
    MarkupKinds(v + COMMENT_CLOSE + rest, enc);
    hide PrintLeaf, CommentAt, Identify, GoodComment;
    Assoc(COMMENT_OPEN, v + COMMENT_CLOSE, rest);
  }

  lemma LeafReadsBack(n: Node, rest: bytes, condense: bool, enc: Encoding, err: Err)
    requires Good(n, enc) && !n.Element? && !n.IsPlainText()
    ensures Reads(PrintLeaf(n) + rest, KindOf(n), n, Behind(n, rest), condense, enc, err)
  {
    hide PrintLeaf, CommentAt, CdataAt, DeclarationAt, UnrecognizedAt, Identify, ElementAt;
    match n
    case Text(v, _) =>
      CdataNodeReadsBack(v, rest, condense, enc, err);
    case Comment(v) =>
      CommentNodeReadsBack(v, rest, condense, enc, err);
    case Declaration(_, _, _) =>
      LeafStarts(n, rest, enc);
      DeclarationReadsBack(n, rest, enc, err);
      hide PrintLeaf, DeclarationAt, Identify;
    case Unrecognized(v) =>
      LeafStarts(n, rest, enc);
      UnrecognizedReadsBack(v, rest, enc, err);
      hide PrintLeaf, UnrecognizedAt, Identify;
  }

  lemma LeafStarts(n: Node, rest: bytes, enc: Encoding)
    requires Good(n, enc) && !n.Element? && !n.IsPlainText()
    ensures var s := PrintLeaf(n) + rest;
            s != [] && s[0] == LT && (!IsEndTagLike(n) ==> !(END_TAG_OPEN <= s))
  {
    var s := PrintLeaf(n) + rest;
    assert END_TAG_OPEN[1] == SLASH;
    match n
    case Unrecognized(v) =>
      CStrOf(v);
      assert s[1] == if v == [] then GT else v[0];
    case Text(v, _) => assert s[1] == BANG;
    case Comment(v) => assert s[1] == BANG;
    case Declaration(_, _, _) =>
      PrintedDeclaration(n, rest);
      assert s[1] == XML_HEADER[1];
  }

  /** One round of the content loop that reads a node. */
  lemma NodeRound(kids: seq<Node>, lead: bytes, s: bytes, kind: Kind, back: Node, q: Ptr,
                  condense: bool, enc: Encoding, err: Err)
    requires AllSpace(lead) && Reads(s, kind, back, q, condense, enc, err) && !(END_TAG_OPEN <= s)
    ensures ContentAt(kids, At(lead + s), condense, enc, err) == ContentAt(kids + [back], q, condense, enc, err)
  {
    ContentSkips(kids, lead, s, condense, enc, err);
    NothingToSkip(s, enc);
    hide AfterWhiteSpace, PlainTextAt, Identify, NodeAt;
  }

  lemma PrintedNodes(ns: seq<Node>, style: Style, depth: nat, end: bytes)
    requires ns != []
    ensures PrintNodes(ns, style, depth) + end
            == Indent(style, depth)
               + (PrintBare(ns[0], style, depth) + (style.lineBreak + (PrintNodes(ns[1..], style, depth) + end)))
  {
    hide PrintBare, Indent;
    var lead, bare := Indent(style, depth), PrintBare(ns[0], style, depth);
    var br, more := style.lineBreak, PrintNodes(ns[1..], style, depth);
    assert PrintNodes(ns, style, depth) == lead + bare + br + more;
    hide PrintNodes;
    Assoc(lead + bare + br, more, end);
    Assoc(lead + bare, br, more + end);
    Assoc(lead, bare, br + (more + end));
  }

  /** What follows a child starts with white space and then markup. */
  lemma MarkupFollows(ns: seq<Node>, style: Style, depth: nat, w: bytes, more: bytes,
                      condense: bool, enc: Encoding) returns (lead: bytes, rest: bytes)
    requires GoodChildren(ns, enc) && Lays(style, condense) && AllSpace(w) && (condense || w == [])
    requires ns != [] ==> !ns[0].IsPlainText()
    requires more != []
    ensures AllSpace(lead) && (condense || lead == []) && rest != []
    ensures PrintNodes(ns, style, depth) + (w + (LT_TAG + more)) == lead + (LT_TAG + rest)
  {
    var end := w + (LT_TAG + more);
    if ns == [] {
      lead, rest := w, more;
      assert PrintNodes(ns, style, depth) + end == end;
    } else {
      var bare := PrintBare(ns[0], style, depth);
      BareStarts(ns[0], style, depth, enc);
      IndentIsSpace(style, depth, condense);
      PrintedNodes(ns, style, depth, end);
      hide PrintBare, Indent, PrintNodes, AllSpace;
      lead := Indent(style, depth);
      var tail := style.lineBreak + (PrintNodes(ns[1..], style, depth) + end);
      rest := bare[1..] + tail;
      assert bare == LT_TAG + bare[1..];
      Assoc(LT_TAG, bare[1..], tail);
    }
  }

  lemma BareStarts(n: Node, style: Style, depth: nat, enc: Encoding)
    requires Good(n, enc) && !n.IsPlainText()
    ensures |PrintBare(n, style, depth)| > 1 && PrintBare(n, style, depth)[0] == LT
  {
    if n.Element? {
      assert PrintOpen(n) != [] && PrintOpen(n)[0] == LT;
    } else if n.Declaration? {
      PrintedDeclaration(n, []);
      assert PrintLeaf(n) + [] == PrintLeaf(n);
    }
  }

  /** The content ends at an end tag. */
  lemma ContentEnds(kids: seq<Node>, w: bytes, more: bytes, condense: bool, enc: Encoding, err: Err)
    requires AllSpace(w)
    ensures var end := END_TAG_OPEN + more;
            ContentAt(kids, At(w + end), condense, enc, err) == Content(kids, At(end), err)
  {
    var end := END_TAG_OPEN + more;
    ContentSkips(kids, w, end, condense, enc, err);
    NothingToSkip(end, enc);
    TakeDrop(END_TAG_OPEN, more);
    hide AfterWhiteSpace, PlainTextAt, Identify, NodeAt;
  }

  lemma EmptyElementReadsBack(n: Node, style: Style, depth: nat, rest: bytes,
                              condense: bool, enc: Encoding, err: Err)
    requires n.Element? && n.children == [] && Good(n, enc)
    ensures var s := PrintBare(n, style, depth) + rest;
            Reads(s, ElementKind, Back(n, condense, enc), At(rest), condense, enc, err) && !(END_TAG_OPEN <= s)
  {
    var after := EMPTY_CLOSE + rest;
    assert PrintBare(n, style, depth) == PrintOpen(n) + EMPTY_CLOSE;
    assert Back(n, condense, enc) == Element(n.name, n.attrs, []);
    hide PrintOpen, PrintBare, ElementAt, Identify, GoodAttrs, GoodName;
    Assoc(PrintOpen(n), EMPTY_CLOSE, rest);
    ElementOpens(n, after, condense, enc, err);
    EmptyTagReadsBack(n.name, n.attrs, rest, condense, enc, err);
  }

  /** An element whose content, up to its end tag, reads back as kids. */
  lemma FullElementReadsBack(n: Node, bare: bytes, body: bytes, kids: seq<Node>, rest: bytes,
                             condense: bool, enc: Encoding, err: Err)
    requires n.Element? && GoodName(n.name, enc) && GoodAttrs(n.attrs, enc)
    requires ContentAt([], At(body + (PrintClose(n) + rest)), condense, enc, err)
          == Content(kids, At(END_TAG_OPEN + n.name + [GT] + rest), err)
    requires bare == PrintOpen(n) + [GT] + (body + PrintClose(n))
    ensures var s := bare + rest;
            Reads(s, ElementKind, Element(n.name, n.attrs, kids), At(rest), condense, enc, err) &&
            !(END_TAG_OPEN <= s)
  {
    hide PrintOpen, PrintClose, ContentAt, ElementAt, Identify, GoodAttrs, GoodName;
    var tail := body + (PrintClose(n) + rest);
    Assoc(PrintOpen(n) + [GT], body + PrintClose(n), rest);
    Assoc(body, PrintClose(n), rest);
    Assoc(PrintOpen(n), [GT], tail);
    ElementOpens(n, [GT] + tail, condense, enc, err);
    ElementWithContent(n.name, n.attrs, tail, kids, rest, condense, enc, err);
  }

  lemma PrintedClose(n: Node, rest: bytes, enc: Encoding)
    requires n.Element? && GoodName(n.name, enc)
    ensures PrintClose(n) + rest == END_TAG_OPEN + n.name + [GT] + rest
    ensures PrintClose(n) + rest == END_TAG_OPEN + (n.name + [GT] + rest)
    ensures PrintClose(n) + rest == LT_TAG + ([SLASH] + n.name + [GT] + rest)
  {
    CStrOf(n.name);
  }

  lemma SimpleElementReadsBack(n: Node, style: Style, depth: nat, rest: bytes,
                               condense: bool, enc: Encoding, err: Err)
    requires n.Element? && SimpleText(n.children) && Good(n, enc)
    ensures var s := PrintBare(n, style, depth) + rest;
            Reads(s, ElementKind, Back(n, condense, enc), At(rest), condense, enc, err) && !(END_TAG_OPEN <= s)
  {
    var v := n.children[0].value;
    SimpleParts(n, style, depth, condense, enc);
    var backs := TextNodes(v, condense, enc);
    SimpleContent(n, v, rest, condense, enc, err);
    hide *;
    FullElementReadsBack(n, PrintBare(n, style, depth), Escape(v), backs, rest, condense, enc, err);
  }

  lemma SimpleParts(n: Node, style: Style, depth: nat, condense: bool, enc: Encoding)
    requires n.Element? && SimpleText(n.children) && Good(n, enc)
    ensures var v := n.children[0].value;
            GoodText(v, enc) &&
            PrintBare(n, style, depth) == PrintOpen(n) + [GT] + (Escape(v) + PrintClose(n)) &&
            Back(n, condense, enc) == Element(n.name, n.attrs, TextNodes(v, condense, enc))
    ensures GoodName(n.name, enc) && GoodAttrs(n.attrs, enc)
  {
    var v := n.children[0].value;
    assert Good(n.children[0], enc) && GoodText(v, enc);
    hide GoodText, GoodName, GoodAttrs, TextNodes, Escape, PrintOpen, PrintClose;
    assert BackAll(n.children[1..], condense, enc) == [];
    assert BackAll(n.children, condense, enc) == TextNodes(v, condense, enc);
  }

  /** TextChildReadsBack with nothing around the text. */
  lemma TextAlone(v: bytes, more: bytes, condense: bool, enc: Encoding, err: Err)
    requires GoodText(v, enc) && more != []
    ensures ContentAt([], At(Escape(v) + (LT_TAG + more)), condense, enc, err)
            == ContentAt(TextNodes(v, condense, enc), At(LT_TAG + more), condense, enc, err)
  {
    hide ContentAt, GoodText, TextNodes, Escape;
    NothingInFront(LT_TAG + more);
    NothingInFront(Escape(v) + (LT_TAG + more));
    NothingInFront(TextNodes(v, condense, enc));
    TextChildReadsBack([], [], v, [], more, condense, enc, err);
  }

  lemma EndAlone(kids: seq<Node>, more: bytes, condense: bool, enc: Encoding, err: Err)
    ensures ContentAt(kids, At(END_TAG_OPEN + more), condense, enc, err) == Content(kids, At(END_TAG_OPEN + more), err)
  {
    hide ContentAt;
    NothingInFront(END_TAG_OPEN + more);
    ContentEnds(kids, [], more, condense, enc, err);
  }

  lemma SimpleContent(n: Node, v: bytes, rest: bytes, condense: bool, enc: Encoding, err: Err)
    requires n.Element? && GoodName(n.name, enc) && GoodText(v, enc)
    ensures ContentAt([], At(Escape(v) + (PrintClose(n) + rest)), condense, enc, err)
            == Content(TextNodes(v, condense, enc), At(END_TAG_OPEN + n.name + [GT] + rest), err)
  {
    hide PrintClose, ContentAt, GoodName, GoodText, TextNodes, Escape;
    PrintedClose(n, rest, enc);
    TextAlone(v, [SLASH] + n.name + [GT] + rest, condense, enc, err);
    EndAlone(TextNodes(v, condense, enc), n.name + [GT] + rest, condense, enc, err);
  }

  /** A printed node is recognized and reads back, whatever follows it. */
  lemma {:induction false} NodeReadsBack(n: Node, style: Style, depth: nat, rest: bytes,
                                         condense: bool, enc: Encoding, err: Err)
    requires Good(n, enc) && Lays(style, condense) && !n.IsPlainText()
    ensures var s := PrintBare(n, style, depth) + rest;
            Reads(s, KindOf(n), Back(n, condense, enc), Behind(n, rest), condense, enc, err) &&
            (!IsEndTagLike(n) ==> !(END_TAG_OPEN <= s))
    decreases n, 0
  {
    if !n.Element? {
      LeafReadsBack(n, rest, condense, enc, err);
      LeafStarts(n, rest, enc);
      hide Reads, PrintLeaf;
    } else if n.children == [] {
      EmptyElementReadsBack(n, style, depth, rest, condense, enc, err);
      hide Reads, PrintBare;
    } else if SimpleText(n.children) {
      SimpleElementReadsBack(n, style, depth, rest, condense, enc, err);
      hide Reads, PrintBare;
    } else {
      LaidOutReadsBack(n, style, depth, rest, condense, enc, err);
      hide Reads, PrintBare;
    }
  }

  lemma {:induction false} LaidOutReadsBack(n: Node, style: Style, depth: nat, rest: bytes,
                                            condense: bool, enc: Encoding, err: Err)
    requires n.Element? && n.children != [] && !SimpleText(n.children)
    requires Good(n, enc) && Lays(style, condense)
    ensures var s := PrintBare(n, style, depth) + rest;
            Reads(s, ElementKind, Back(n, condense, enc), At(rest), condense, enc, err) && !(END_TAG_OPEN <= s)
    decreases n.children, 2
  {
    var w, br := Indent(style, depth), style.lineBreak;
    var printed := PrintNodes(n.children, style, depth + 1);
    var more := n.name + [GT] + rest;
    var kids := BackAll(n.children, condense, enc);
    ContentReadsBack([], n.children, style, depth + 1, w, more, condense, enc, err) by {
      IndentIsSpace(style, depth, condense);
    }
    LaidOutParts(n, style, depth, condense, enc);
    PrintedClose(n, rest, enc);
    assert END_TAG_OPEN + more != [];
    hide *;
    LaidOutContent(br, printed, w, END_TAG_OPEN + more, kids, condense, enc, err);
    FullElementReadsBack(n, PrintBare(n, style, depth), br + printed + w, kids, rest, condense, enc, err);
  }

  lemma LaidOutParts(n: Node, style: Style, depth: nat, condense: bool, enc: Encoding)
    requires n.Element? && n.children != [] && !SimpleText(n.children)
    requires Good(n, enc) && Lays(style, condense)
    ensures PrintBare(n, style, depth) == PrintOpen(n) + [GT]
              + (style.lineBreak + PrintNodes(n.children, style, depth + 1) + Indent(style, depth) + PrintClose(n))
    ensures Back(n, condense, enc) == Element(n.name, n.attrs, BackAll(n.children, condense, enc))
    ensures AllSpace(style.lineBreak) && (condense || style.lineBreak == [])
    ensures GoodName(n.name, enc) && GoodAttrs(n.attrs, enc)
  {
    hide PrintOpen, PrintClose, Indent, PrintNodes, GoodName, GoodAttrs;
  }

  lemma LaidOutContent(br: bytes, printed: bytes, w: bytes, end: bytes, kids: seq<Node>,
                       condense: bool, enc: Encoding, err: Err)
    requires AllSpace(br) && (condense || br == []) && end != []
    requires ContentAt([], At(printed + (w + end)), condense, enc, err) == Content([] + kids, At(end), err)
    ensures ContentAt([], At(br + printed + w + end), condense, enc, err) == Content(kids, At(end), err)
  {
    hide ContentAt, AllSpace;
    assert [] + kids == kids;
    ContentSkips([], br, printed + (w + end), condense, enc, err);
    Assoc(br + printed, w, end);
    Assoc(br, printed, w + end);
  }

  /** Printed children read back in order; the markup behind them is left. */
  lemma {:induction false} ContentReadsOn(kids: seq<Node>, ns: seq<Node>, style: Style, depth: nat, w: bytes,
                                          more: bytes, condense: bool, enc: Encoding, err: Err)
    requires GoodChildren(ns, enc) && Lays(style, condense) && AllSpace(w) && (condense || w == []) && more != []
    ensures ContentAt(kids, At(PrintNodes(ns, style, depth) + (w + (LT_TAG + more))), condense, enc, err)
            == ContentAt(kids + BackAll(ns, condense, enc), At(LT_TAG + more), condense, enc, err)
    decreases ns, 0
  {
    var end := LT_TAG + more;
    if ns == [] {
      assert PrintNodes(ns, style, depth) + (w + end) == w + end;
      assert kids + BackAll(ns, condense, enc) == kids;
      hide ContentAt;
      ContentSkips(kids, w, end, condense, enc, err);
    } else {
      var back := Backs(ns[0], condense, enc);
      var backs := BackAll(ns[1..], condense, enc);
      assert BackAll(ns, condense, enc) == back + backs;
      var kids' := kids + back;
      ContentReadsOn(kids', ns[1..], style, depth, w, more, condense, enc, err);
      if ns[0].IsPlainText() {
        TextThenContent(kids, ns, style, depth, w, more, condense, enc, err);
      } else {
        NodeReadsBack(ns[0], style, depth, style.lineBreak + (PrintNodes(ns[1..], style, depth) + (w + end)),
                      condense, enc, err);
        NodeThenContent(kids, ns, style, depth, w + end, condense, enc, err);
      }
      hide ContentAt, PrintNodes, Backs, BackAll;
      Assoc(kids, back, backs);
    }
  }

  /** Printed children read back in order, up to the end tag behind them. */
  lemma {:induction false} ContentReadsBack(kids: seq<Node>, ns: seq<Node>, style: Style, depth: nat, w: bytes,
                                            more: bytes, condense: bool, enc: Encoding, err: Err)
    requires GoodChildren(ns, enc) && Lays(style, condense) && AllSpace(w) && (condense || w == [])
    ensures var end := END_TAG_OPEN + more;
            ContentAt(kids, At(PrintNodes(ns, style, depth) + (w + end)), condense, enc, err)
            == Content(kids + BackAll(ns, condense, enc), At(end), err)
    decreases ns, 1
  {
    hide ContentAt, PrintNodes, BackAll, GoodChildren;
    assert END_TAG_OPEN + more == LT_TAG + ([SLASH] + more);
    ContentReadsOn(kids, ns, style, depth, w, [SLASH] + more, condense, enc, err);
    EndAlone(kids + BackAll(ns, condense, enc), more, condense, enc, err);
  }

  /** The first child, a plain text, is read; what follows it is left. */
  lemma TextThenContent(kids: seq<Node>, ns: seq<Node>, style: Style, depth: nat, w: bytes, more: bytes,
                        condense: bool, enc: Encoding, err: Err)
    requires GoodChildren(ns, enc) && Lays(style, condense) && AllSpace(w) && (condense || w == []) && more != []
    requires ns != [] && ns[0].IsPlainText()
    ensures var end := w + (LT_TAG + more);
            ContentAt(kids, At(PrintNodes(ns, style, depth) + end), condense, enc, err)
            == ContentAt(kids + Backs(ns[0], condense, enc), At(PrintNodes(ns[1..], style, depth) + end),
                         condense, enc, err)
  {
    var v, br := ns[0].value, style.lineBreak;
    var end := w + (LT_TAG + more);
    var lead2, rest2 := MarkupFollows(ns[1..], style, depth, w, more, condense, enc);
    var lead := Indent(style, depth);
    IndentIsSpace(style, depth, condense);
    PrintedNodes(ns, style, depth, end);
    assert PrintBare(ns[0], style, depth) == Escape(v);
    assert AllSpace(br + lead2);
    var back := Backs(ns[0], condense, enc);
    assert back == TextNodes(v, condense, enc);
    hide PrintNodes, PrintBare, Escape, Indent, ContentAt, AllSpace, GoodText, TextNodes, Backs;
    Assoc(br, lead2, LT_TAG + rest2);
    assert !condense ==> br + lead2 == [];
    TextChildReadsBack(kids, lead, v, br + lead2, rest2, condense, enc, err);
    ContentSkips(kids + back, lead2, LT_TAG + rest2, condense, enc, err);
  }

  /** The first child, not a plain text, is read; what follows it is left. */
  lemma NodeThenContent(kids: seq<Node>, ns: seq<Node>, style: Style, depth: nat, end: bytes,
                        condense: bool, enc: Encoding, err: Err)
    requires GoodChildren(ns, enc) && Lays(style, condense) && end != []
    requires ns != [] && !ns[0].IsPlainText()
    requires var rest := style.lineBreak + (PrintNodes(ns[1..], style, depth) + end);
             var s := PrintBare(ns[0], style, depth) + rest;
             Reads(s, KindOf(ns[0]), Back(ns[0], condense, enc), Behind(ns[0], rest), condense, enc, err) &&
             !(END_TAG_OPEN <= s)
    ensures ContentAt(kids, At(PrintNodes(ns, style, depth) + end), condense, enc, err)
            == ContentAt(kids + [Back(ns[0], condense, enc)], At(PrintNodes(ns[1..], style, depth) + end),
                         condense, enc, err)
  {
    var br, inner := style.lineBreak, PrintNodes(ns[1..], style, depth) + end;
    var s := PrintBare(ns[0], style, depth) + (br + inner);
    var back := Back(ns[0], condense, enc);
    IndentIsSpace(style, depth, condense);
    PrintedNodes(ns, style, depth, end);
    hide PrintNodes, PrintBare, Indent, ContentAt, Back, Reads;
    NodeRound(kids, Indent(style, depth), s, KindOf(ns[0]), back, Behind(ns[0], br + inner), condense, enc, err);
    ContentSkips(kids + [back], br, inner, condense, enc, err);
  }
}
