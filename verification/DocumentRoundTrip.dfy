/** Whole documents: printing and parsing, and when that gives the very same tree. */
module DocumentRoundTrip {
  import opened Bytes
  import opened Codec
  import opened CodecLaws
  import opened EscapeLimits
  import opened Xml
  import opened Parser
  import opened Printer
  import opened LeafRoundTrip
  import opened RoundTrip

  /** Documents that read back. A document holds no plain text, and with the encoding unknown a
      declaration settles it for the nodes behind. */
  predicate GoodDocument(ns: seq<Node>, enc: Encoding) {
    ns != [] ==>
      Good(ns[0], enc) && !ns[0].IsPlainText() &&
      GoodDocument(ns[1..], EncodingAfter(enc, ns[0]))
  }

  function DocumentBack(ns: seq<Node>, condense: bool, enc: Encoding): seq<Node>
    requires GoodDocument(ns, enc)
  {
    if ns == [] then []
    else [Back(ns[0], condense, enc)] + DocumentBack(ns[1..], condense, EncodingAfter(enc, ns[0]))
  }

  // ----- no NUL is printed -----

  lemma {:induction false} EscapeIsNulFree(s: bytes)
    requires HexFree(s)
    ensures NulFree(Escape(s))
  {
    if s == [] {
    } else {
      HexFreeTail(s, 1);
      NoMarkInFront(s);
      EscapeIsNulFree(s[1..]);
    }
  }

  lemma {:induction false} AttrsAreNulFree(attrs: seq<Attr>, enc: Encoding)
    requires forall i :: 0 <= i < |attrs| ==> GoodAttr(attrs[i], enc)
    ensures NulFree(PrintAttrs(attrs))
  {
    if attrs == [] {
    } else {
      AttrsAreNulFree(attrs[1..], enc);
      AttrIsNulFree(attrs[0], enc);
      hide PrintAttr;
    }
  }

  lemma NameIsNulFree(name: bytes)
    requires IsName(name)
    ensures NulFree(name)
  {
  }

  lemma QuotedIsNulFree(name: bytes, quote: byte, value: bytes)
    requires NulFree(name) && NulFree(value) && quote != NUL
    ensures NulFree(name + [EQUALS, quote] + value + [quote])
  {
    assert NulFree([EQUALS, quote]) && NulFree([quote]);
    hide NulFree;
    NulFreeConcat(name, [EQUALS, quote]);
    NulFreeConcat(name + [EQUALS, quote], value);
    NulFreeConcat(name + [EQUALS, quote] + value, [quote]);
  }

  lemma AttrIsNulFree(a: Attr, enc: Encoding)
    requires GoodAttr(a, enc)
    ensures NulFree(PrintAttr(a))
  {
    hide Escape, HexFree, WholeChars, NulFree;
    NameEscapesToItself(a.name);
    NameIsNulFree(a.name);
    EscapeIsNulFree(a.value);
    QuotedIsNulFree(a.name, if QUOT in CStr(a.value) then APOS else QUOT, Escape(a.value));
  }

  lemma LeafIsNulFree(n: Node, enc: Encoding)
    requires Good(n, enc) && !n.Element?
    ensures NulFree(PrintLeaf(n))
  {
    match n
    case Text(v, cdata) => if !cdata { EscapeIsNulFree(v); }
    case Declaration(_, _, _) =>
      assert NulFree(PrintDeclared(VERSION_OPEN, n.version));
      assert NulFree(PrintDeclared(ENCODING_OPEN, n.encoding));
      assert NulFree(PrintDeclared(STANDALONE_OPEN, n.standalone));
    case _ =>
  }

  lemma TagsAreNulFree(n: Node, enc: Encoding)
    requires n.Element? && GoodName(n.name, enc) && GoodAttrs(n.attrs, enc)
    ensures NulFree(PrintOpen(n)) && NulFree(PrintClose(n))
  {
    ReachedIsAll(n.attrs);
    AttrsAreNulFree(n.attrs, enc);
  }

  lemma {:induction false} BareIsNulFree(n: Node, style: Style, depth: nat, condense: bool, enc: Encoding)
    requires Good(n, enc) && Lays(style, condense)
    ensures NulFree(PrintBare(n, style, depth))
    decreases n, 0
  {
    if !n.Element? {
      LeafIsNulFree(n, enc);
    } else {
      TagsAreNulFree(n, enc);
      if SimpleText(n.children) {
        SimpleParts(n, style, depth, condense, enc);
        EscapeIsNulFree(n.children[0].value);
        hide Escape, PrintOpen, PrintClose, GoodText;
      } else if n.children != [] {
        IndentIsSpace(style, depth, condense);
        NodesAreNulFree(n.children, style, depth + 1, condense, enc);
        hide Escape, PrintOpen, PrintClose, PrintNodes, Indent;
      }
    }
  }

  lemma {:induction false} NodesAreNulFree(ns: seq<Node>, style: Style, depth: nat, condense: bool, enc: Encoding)
    requires GoodChildren(ns, enc) && Lays(style, condense)
    ensures NulFree(PrintNodes(ns, style, depth))
    decreases ns
  {
    if ns == [] {
    } else {
      IndentIsSpace(style, depth, condense);
      BareIsNulFree(ns[0], style, depth, condense, enc);
      NodesAreNulFree(ns[1..], style, depth, condense, enc);
      hide PrintBare, Indent;
    }
  }

  lemma {:induction false} DocumentIsNulFree(ns: seq<Node>, style: Style, condense: bool, enc: Encoding)
    requires GoodDocument(ns, enc) && Lays(style, condense)
    ensures NulFree(PrintNodes(ns, style, 0))
  {
    if ns == [] {
    } else {
      BareIsNulFree(ns[0], style, 0, condense, enc);
      DocumentIsNulFree(ns[1..], style, condense, EncodingAfter(enc, ns[0]));
      assert Indent(style, 0) == [];
      hide PrintBare, Indent;
    }
  }

  // ----- documents -----

  lemma SameEncodingAfter(n: Node, condense: bool, enc: Encoding)
    requires Good(n, enc)
    ensures EncodingAfter(enc, Back(n, condense, enc)) == EncodingAfter(enc, n)
  {
  }

  lemma DocumentStartsWithLt(ns: seq<Node>, style: Style, enc: Encoding)
    requires GoodDocument(ns, enc) && ns != []
    ensures PrintNodes(ns, style, 0) != [] && PrintNodes(ns, style, 0)[0] == LT
  {
    BareStarts(ns[0], style, 0, enc);
    assert Indent(style, 0) == [];
    hide PrintBare, Indent;
  }

  /** One round of the document loop. */
  lemma DocumentRound(kids: seq<Node>, s: bytes, kind: Kind, back: Node, q: Ptr,
                      condense: bool, enc: Encoding, err: Err)
    requires Reads(s, kind, back, q, condense, enc, err)
    ensures var enc' := EncodingAfter(enc, back);
            NodesAt(kids, At(s), condense, enc, err)
            == NodesAt(kids + [back], AfterWhiteSpace(q, enc'), condense, enc', err)
  {
    hide Identify, NodeAt, AfterWhiteSpace, EncodingAfter;
  }

  lemma {:induction false} AllSpaceIsSkipped(w: bytes, enc: Encoding)
    requires AllSpace(w)
    ensures SkipWs(w, enc) == []
  {
    assert w + [] == w;
    SkipWsOverSpaces(w, [], enc);
  }

  /** Between two nodes, or behind the last one, only white space is skipped. */
  lemma GapIsSkipped(br: bytes, more: bytes, n: Node, enc: Encoding)
    requires AllSpace(br) && (more == [] || (!IsSpace(more[0]) && more[0] < 0x80))
    ensures var q := AfterWhiteSpace(Behind(n, br + more), enc);
            if more == [] then !q.Live() && !q.Wild? else q == At(more)
  {
    if more == [] {
      assert br + more == br;
      AllSpaceIsSkipped(br, enc);
    } else {
      SkipWsOverSpaces(br, more, enc);
      NothingToSkip(more, enc);
    }
  }

  lemma FirstPrinted(ns: seq<Node>, style: Style)
    requires ns != []
    ensures PrintNodes(ns, style, 0)
            == PrintBare(ns[0], style, 0) + (style.lineBreak + PrintNodes(ns[1..], style, 0))
  {
    assert Indent(style, 0) == [];
    hide PrintBare, Indent;
    var bare, br, more := PrintBare(ns[0], style, 0), style.lineBreak, PrintNodes(ns[1..], style, 0);
    assert PrintNodes(ns, style, 0) == [] + bare + br + more;
    hide PrintNodes;
    NothingInFront(bare);
    Assoc(bare, br, more);
  }

  lemma {:induction false} NodesReadBack(kids: seq<Node>, ns: seq<Node>, style: Style,
                                         condense: bool, enc: Encoding, err: Err)
    requires GoodDocument(ns, enc) && Lays(style, condense) && ns != []
    ensures var r := NodesAt(kids, At(PrintNodes(ns, style, 0)), condense, enc, err);
            r.kids == kids + DocumentBack(ns, condense, enc) && r.err == err && !r.p.Live() && !r.p.Wild?
    decreases ns
  {
    var n, br, enc' := ns[0], style.lineBreak, EncodingAfter(enc, ns[0]);
    var back := Back(n, condense, enc);
    var more := PrintNodes(ns[1..], style, 0);
    var backs := DocumentBack(ns[1..], condense, enc');
    var s := PrintBare(n, style, 0) + (br + more);
    FirstPrinted(ns, style);
    SameEncodingAfter(n, condense, enc);
    NodeReadsBack(n, style, 0, br + more, condense, enc, err);
    assert DocumentBack(ns, condense, enc) == [back] + backs;
    if ns[1..] != [] {
      DocumentStartsWithLt(ns[1..], style, enc');
      NodesReadBack(kids + [back], ns[1..], style, condense, enc', err);
    }
    assert AllSpace(br);
    hide Reads, PrintBare, PrintNodes, DocumentBack, Back, EncodingAfter, AllSpace, Behind, KindOf, AfterWhiteSpace;
    DocumentRound(kids, s, KindOf(n), back, Behind(n, br + more), condense, enc, err);
    GapIsSkipped(br, more, n, enc');
    Assoc(kids, [back], backs);
  }

  /** Parsing what was printed gives the tree back, without error and up to the end: with any
      white space for layout if the parser condenses it, in stream printing if it keeps it. */
  lemma DocumentReadsBack(ns: seq<Node>, style: Style, condense: bool, enc: Encoding)
    requires GoodDocument(ns, enc) && Lays(style, condense) && ns != []
    ensures var r := DocumentAt(CStr(PrintNodes(ns, style, 0)), condense, enc);
            r.kids == DocumentBack(ns, condense, enc) && r.err == NoError && !r.p.Live() && !r.p.Wild?
  {
    var s := PrintNodes(ns, style, 0);
    DocumentIsNulFree(ns, style, condense, enc);
    CStrOf(s);
    DocumentStartsWithLt(ns, style, enc);
    NothingToSkip(s, enc);
    assert !(BOM <= s) by { assert BOM[0] != LT; }
    NodesReadBack([], ns, style, condense, enc, NoError);
    hide PrintNodes, NodesAt, CStr, GoodDocument, Lays;
    assert [] + DocumentBack(ns, condense, enc) == DocumentBack(ns, condense, enc);
    assert |DocumentBack(ns, condense, enc)| > 0;
  }

  /** With condensing on, any two layouts of a document parse to the same tree, so pretty printing
      parses like stream printing. */
  lemma LayoutDoesNotMatter(ns: seq<Node>, style1: Style, style2: Style, enc: Encoding)
    requires GoodDocument(ns, enc) && ns != []
    requires AllSpace(style1.indent) && AllSpace(style1.lineBreak)
    requires AllSpace(style2.indent) && AllSpace(style2.lineBreak)
    ensures var r1 := DocumentAt(CStr(PrintNodes(ns, style1, 0)), true, enc);
            var r2 := DocumentAt(CStr(PrintNodes(ns, style2, 0)), true, enc);
            r1.kids == r2.kids && r1.err == r2.err == NoError
  {
    DocumentReadsBack(ns, style1, true, enc);
    DocumentReadsBack(ns, style2, true, enc);
  }

  // ----- when the tree is the very same -----

  /** A text that reads back as it is: not blank, and tidy where white space is condensed; where it is
      kept, more than blanks and marks. */
  predicate Unchanged(v: bytes, condense: bool, enc: Encoding) {
    !Blank(v) && if condense then Tidy(v, enc) else StripLead(v, enc) != []
  }

  lemma TextIsSame(v: bytes, condense: bool, enc: Encoding)
    requires GoodText(v, enc)
    ensures TextNodes(v, condense, enc) == [Text(v, false)] <==> Unchanged(v, condense, enc)
  {
    StripLeadIsProper(v, enc);
    if condense {
      CondensedIffTidy(v, enc);
    }
  }

  /** Every plain text below reads back as it is. */
  predicate TidyTexts(n: Node, condense: bool, enc: Encoding)
    decreases n, 0
  {
    match n
    case Element(_, _, children) => AllTidy(children, condense, enc)
    case Text(v, false) => Unchanged(v, condense, enc)
    case _ => true
  }

  predicate AllTidy(ns: seq<Node>, condense: bool, enc: Encoding)
    decreases ns
  {
    ns != [] ==> TidyTexts(ns[0], condense, enc) && AllTidy(ns[1..], condense, enc)
  }

  lemma {:induction false} BackIsSame(n: Node, condense: bool, enc: Encoding)
    requires Good(n, enc)
    ensures Backs(n, condense, enc) == [n] <==> TidyTexts(n, condense, enc)
    decreases n, 0
  {
    match n
    case Element(_, _, children) => BackAllIsSame(children, condense, enc);
    case Text(v, cdata) =>
      if !cdata {
        TextIsSame(v, condense, enc);
      }
    case _ =>
  }

  lemma {:induction false} BackAllIsSame(ns: seq<Node>, condense: bool, enc: Encoding)
    requires GoodChildren(ns, enc)
    ensures BackAll(ns, condense, enc) == ns <==> AllTidy(ns, condense, enc)
    decreases ns
  {
    if ns == [] {
    } else {
      BackIsSame(ns[0], condense, enc);
      BackAllIsSame(ns[1..], condense, enc);
      hide Backs, TidyTexts;
      var b, bs := Backs(ns[0], condense, enc), BackAll(ns[1..], condense, enc);
      assert BackAll(ns, condense, enc) == b + bs;
      assert ns == [ns[0]] + ns[1..];
      if b + bs == ns {
        assert |b| == 1 && b == (b + bs)[..1] && bs == (b + bs)[1..];
      }
    }
  }

  predicate DocumentTidy(ns: seq<Node>, condense: bool, enc: Encoding) {
    ns != [] ==> TidyTexts(ns[0], condense, enc) && DocumentTidy(ns[1..], condense, EncodingAfter(enc, ns[0]))
  }

  lemma {:induction false} DocumentBackIsSame(ns: seq<Node>, condense: bool, enc: Encoding)
    requires GoodDocument(ns, enc)
    ensures DocumentBack(ns, condense, enc) == ns <==> DocumentTidy(ns, condense, enc)
  {
    if ns == [] {
    } else {
      var enc' := EncodingAfter(enc, ns[0]);
      BackIsSame(ns[0], condense, enc);
      DocumentBackIsSame(ns[1..], condense, enc');
      hide Back, TidyTexts, EncodingAfter;
      assert ns == [ns[0]] + ns[1..];
      var bs := DocumentBack(ns, condense, enc);
      assert bs[0] == Back(ns[0], condense, enc) && bs[1..] == DocumentBack(ns[1..], condense, enc');
    }
  }

  /** Stream printing and parsing give the very same tree exactly when every plain text reads back as
      it is. */
  lemma StreamRoundTrip(ns: seq<Node>, condense: bool, enc: Encoding)
    requires GoodDocument(ns, enc) && ns != []
    ensures DocumentAt(CStr(PrintNodes(ns, STREAM, 0)), condense, enc).kids == ns
            <==> DocumentTidy(ns, condense, enc)
  {
    DocumentReadsBack(ns, STREAM, condense, enc);
    DocumentBackIsSame(ns, condense, enc);
  }

  // ----- which texts show -----

  lemma {:induction false} StripLeadOfBlank(s: bytes, enc: Encoding)
    requires enc != Utf8 && Blank(s)
    ensures Blank(StripLead(s, enc))
  {
    if s != [] && s[0] == SPACE {
      StripLeadOfBlank(s[1..], enc);
    }
  }

  lemma {:induction false} StripLeadKeepsBytes(s: bytes, enc: Encoding)
    requires enc != Utf8 && !Blank(s)
    ensures !Blank(StripLead(s, enc))
  {
    if s[0] == SPACE {
      BlankConcat([s[0]], s[1..]);
      assert s == [s[0]] + s[1..];
      StripLeadKeepsBytes(s[1..], enc);
    }
  }

  /** Outside UTF-8, every text that is not blank becomes a node again. */
  lemma NonBlankTextShows(v: bytes, condense: bool, enc: Encoding)
    requires enc != Utf8
    ensures Shows(v, condense, enc) <==> !Blank(v)
  {
    if Blank(v) {
      StripLeadOfBlank(v, enc);
    } else {
      StripLeadKeepsBytes(v, enc);
    }
  }

  lemma {:induction false} EveryStringIsWhole(s: bytes, enc: Encoding)
    requires enc != Utf8
    ensures WholeChars(s, enc)
  {
    if s == [] {
    } else {
      EveryStringIsWhole(s[1..], enc);
    }
  }
}
