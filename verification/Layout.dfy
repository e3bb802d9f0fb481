/** What printed text looks like: its lines, and how far each is indented. */
module Layout {
  import opened Bytes
  import opened Codec
  import opened Xml
  import opened Parser
  import opened Printer

  // ----- indentation -----

  /** The place within its copy of byte i, where a copy has m bytes. */
  function InCopy(i: nat, m: nat): (k: nat)
    requires m > 0
    ensures k == i % m
    ensures k < m
  {
    i % m
  }

  /** So many copies of the indent. */
  function Copies(indent: bytes, level: nat): (r: bytes)
    ensures |r| == level * |indent|
    ensures forall i :: 0 <= i < |r| ==> |indent| > 0 && r[i] == indent[InCopy(i, |indent|)]
  {
    if indent == [] then [] else seq(level * |indent|, i requires 0 <= i => indent[InCopy(i, |indent|)])
  }

  lemma RemainderIs(q: nat, m: nat, j: nat)
    requires j < m
    ensures (q * m + j) % m == j
  {
    var i := q * m + j;
    RemainderIsUnique(q, i / m, m, j, i % m);
  }

  lemma RemainderIsUnique(q: int, d: int, m: nat, j: nat, r: nat)
    requires q * m + j == d * m + r && j < m && r < m
    ensures j == r
  {
    Minus(q, d, m);
    Minus(d, q, m);
    if q > d {
      AtLeast(q - d, m);
    } else if q < d {
      AtLeast(d - q, m);
    }
  }

  lemma Minus(a: int, b: int, n: int)
    ensures (a - b) * n == a * n - b * n
  {
  }

  lemma AtLeast(a: nat, n: nat)
    requires a >= 1
    ensures a * n >= n
  {
    assert a * n == (a - 1) * n + n;
  }

  lemma InLastCopy(q: nat, m: nat, k: nat, i: nat)
    requires m > 0 && k == q * m && k <= i < k + m
    ensures InCopy(i, m) == i - k
  {
    RemainderIs(q, m, i - k);
  }

  lemma SameBytes(indent: bytes, all: bytes, some: bytes, level: nat)
    requires indent != [] && |some| == level * |indent| && |all| == |some| + |indent|
    requires forall i :: 0 <= i < |all| ==> all[i] == indent[InCopy(i, |indent|)]
    requires forall i :: 0 <= i < |some| ==> some[i] == indent[InCopy(i, |indent|)]
    ensures all == some + indent
  {
    hide InCopy;
    var m, k := |indent|, |some|;
    forall i | k <= i < k + m
      ensures all[i] == indent[i - k]
    {
      InLastCopy(level, m, k, i);
    }
  }

  lemma NextProduct(q: nat, m: nat)
    ensures (q + 1) * m == q * m + m
  {
  }

  lemma OneMoreCopy(indent: bytes, level: nat)
    ensures Copies(indent, level + 1) == Copies(indent, level) + indent
  {
    hide Copies, InCopy;
    NextProduct(level, |indent|);
    if indent == [] {
      assert |Copies(indent, level + 1)| == 0 && |Copies(indent, level)| == 0;
    } else {
      SameBytes(indent, Copies(indent, level + 1), Copies(indent, level), level);
    }
  }

  /** The printer's indentation is one copy of the indent for each level. */
  lemma {:induction false} IndentIsCopies(style: Style, depth: nat)
    ensures Indent(style, depth) == Copies(style.indent, depth)
  {
    if depth == 0 {
    } else {
      IndentIsCopies(style, depth - 1);
      OneMoreCopy(style.indent, depth - 1);
      hide Copies;
    }
  }

  // ----- lines -----

  /** A line of the print: the level it is indented to, and what stands there. */
  datatype Line = Line(level: nat, text: bytes)

  /** A start tag and an end tag of their own, with the children between them. */
  predicate HasLinesInside(n: Node) {
    n.Element? && n.children != [] && !(|n.children| == 1 && n.children[0].Text? && !n.children[0].cdata)
  }

  function OnlyLine(n: Node): bytes
    requires !HasLinesInside(n)
  {
    if !n.Element? then PrintLeaf(n)
    else if n.children == [] then PrintOpen(n) + [SPACE, SLASH, GT]
    else PrintOpen(n) + [GT] + Escape(n.children[0].value) + PrintClose(n)
  }

  function FirstLine(n: Node): bytes {
    if HasLinesInside(n) then PrintOpen(n) + [GT] else OnlyLine(n)
  }

  function LinesOf(n: Node, level: nat): (ls: seq<Line>)
    ensures ls != [] && ls[0] == Line(level, FirstLine(n))
    decreases n, 1
  {
    if !HasLinesInside(n) then [Line(level, OnlyLine(n))]
    else [Line(level, FirstLine(n))] + LinesOfAll(n.children, level + 1) + [Line(level, PrintClose(n))]
  }

  function LinesOfAll(ns: seq<Node>, level: nat): seq<Line>
    decreases ns
  {
    if ns == [] then [] else LinesOf(ns[0], level) + LinesOfAll(ns[1..], level)
  }

  function LaidLine(l: Line, style: Style): bytes {
    Copies(style.indent, l.level) + (l.text + style.lineBreak)
  }

  function Laid(ls: seq<Line>, style: Style): bytes {
    if ls == [] then [] else LaidLine(ls[0], style) + Laid(ls[1..], style)
  }

  lemma {:induction false} LaidConcat(a: seq<Line>, b: seq<Line>, style: Style)
    ensures Laid(a + b, style) == Laid(a, style) + Laid(b, style)
  {
    hide LaidLine;
    if a == [] {
      assert a + b == b;
    } else {
      LaidConcat(a[1..], b, style);
      assert (a + b)[1..] == a[1..] + b;
      Assoc(LaidLine(a[0], style), Laid(a[1..], style), Laid(b, style));
    }
  }

  lemma LaidOne(l: Line, style: Style)
    ensures Laid([l], style) == LaidLine(l, style)
  {
    assert [l][1..] == [];
    assert Laid([], style) == [];
    hide LaidLine;
  }

  /** A node on a line of its own. */
  lemma OneLinePrinted(n: Node, style: Style, depth: nat)
    requires !HasLinesInside(n)
    ensures PrintNode(n, style, depth) == Laid(LinesOf(n, depth), style)
  {
    var lead, bare, br := Indent(style, depth), PrintBare(n, style, depth), style.lineBreak;
    IndentIsCopies(style, depth);
    LaidOne(Line(depth, OnlyLine(n)), style);
    BareIsOnlyLine(n, style, depth);
    assert PrintNode(n, style, depth) == lead + bare + br;
    hide PrintNode, PrintBare, Indent, Copies, Laid, OnlyLine;
    Assoc(lead, bare, br);
  }

  lemma BareIsOnlyLine(n: Node, style: Style, depth: nat)
    requires !HasLinesInside(n)
    ensures PrintBare(n, style, depth) == OnlyLine(n)
  {
    if n.Element? && n.children != [] {
      Assoc(PrintOpen(n) + [GT], Escape(n.children[0].value), PrintClose(n));
    }
    hide PrintOpen, PrintClose, PrintLeaf, Escape;
  }

  lemma {:induction false} NodePrinted(n: Node, style: Style, depth: nat)
    ensures PrintNode(n, style, depth) == Laid(LinesOf(n, depth), style)
    decreases n, 1
  {
    if !HasLinesInside(n) {
      OneLinePrinted(n, style, depth);
    } else {
      NodesPrinted(n.children, style, depth + 1);
      IndentIsCopies(style, depth);
      var first, last := Line(depth, FirstLine(n)), Line(depth, PrintClose(n));
      var inside := LinesOfAll(n.children, depth + 1);
      assert LinesOf(n, depth) == [first] + inside + [last];
      BareHasLines(n, style, depth);
      hide PrintBare, PrintOpen, PrintClose, PrintNodes, LinesOf, LinesOfAll, Indent, Copies, Laid;
      LaidConcat([first] + inside, [last], style);
      LaidConcat([first], inside, style);
      LaidOne(first, style);
      LaidOne(last, style);
      LinePieces(Indent(style, depth), FirstLine(n), style.lineBreak, Laid(inside, style), PrintClose(n));
    }
  }

  lemma BareHasLines(n: Node, style: Style, depth: nat)
    requires HasLinesInside(n)
    ensures PrintNode(n, style, depth)
            == Indent(style, depth)
               + (FirstLine(n)
                  + (style.lineBreak + PrintNodes(n.children, style, depth + 1) + Indent(style, depth) + PrintClose(n)))
               + style.lineBreak
  {
    hide PrintOpen, PrintClose, PrintNodes, Indent;
  }

  lemma LinePieces(lead: bytes, first: bytes, br: bytes, inside: bytes, last: bytes)
    ensures lead + (first + (br + inside + lead + last)) + br
            == lead + (first + br) + inside + (lead + (last + br))
  {
    Assoc(lead, first + (br + inside + lead + last), br);
    Assoc(first, br + inside + lead + last, br);
    Assoc(br + inside + lead, last, br);
    Assoc(br + inside, lead, last + br);
    Assoc(br, inside, lead + (last + br));
    Assoc(first, br, inside + (lead + (last + br)));
    Assoc(lead, first + br, inside + (lead + (last + br)));
    Assoc(lead + (first + br), inside, lead + (last + br));
  }

  /** What is printed of nodes is their lines, one after the other, each indented by as many copies of
      the indent as it has levels above it and ended by the line break. */
  lemma {:induction false} NodesPrinted(ns: seq<Node>, style: Style, depth: nat)
    ensures PrintNodes(ns, style, depth) == Laid(LinesOfAll(ns, depth), style)
    decreases ns
  {
    if ns == [] {
    } else {
      NodePrinted(ns[0], style, depth);
      NodesPrinted(ns[1..], style, depth);
      hide PrintNode, LinesOf, Laid;
      LaidConcat(LinesOf(ns[0], depth), LinesOfAll(ns[1..], depth), style);
    }
  }

  // ----- levels -----

  /** The node a path leads to: the place of a child in its list, level by level. */
  predicate IsPath(ns: seq<Node>, path: seq<nat>)
    decreases |path|
  {
    path != [] && path[0] < |ns| &&
    (|path| > 1 ==> HasLinesInside(ns[path[0]]) && IsPath(ns[path[0]].children, path[1..]))
  }

  function NodeOn(ns: seq<Node>, path: seq<nat>): Node
    requires IsPath(ns, path)
    decreases |path|
  {
    if |path| == 1 then ns[path[0]] else NodeOn(ns[path[0]].children, path[1..])
  }

  lemma {:induction false} LinesOfChild(ns: seq<Node>, k: nat, level: nat)
    requires k < |ns|
    ensures LinesOfAll(ns, level)
            == LinesOfAll(ns[..k], level) + (LinesOf(ns[k], level) + LinesOfAll(ns[k + 1..], level))
    decreases k
  {
    hide LinesOf;
    if k == 0 {
      assert ns[..0] == [];
      NothingInFront(LinesOf(ns[0], level) + LinesOfAll(ns[1..], level));
    } else {
      LinesOfChild(ns[1..], k - 1, level);
      assert ns[1..][..k - 1] == ns[..k][1..] && ns[1..][k..] == ns[k + 1..];
      Assoc(LinesOf(ns[0], level), LinesOfAll(ns[..k][1..], level),
            LinesOf(ns[k], level) + LinesOfAll(ns[k + 1..], level));
    }
  }

  /** The lines of a node at the end of a path stand together, as many levels down as the path has
      nodes above it. */
  lemma {:induction false} LinesOfPath(ns: seq<Node>, path: seq<nat>, level: nat)
    returns (above: seq<Line>, below: seq<Line>)
    requires IsPath(ns, path)
    ensures LinesOfAll(ns, level) == above + (LinesOf(NodeOn(ns, path), level + |path| - 1) + below)
    decreases |path|
  {
    hide LinesOf, LinesOfAll, IsPath, NodeOn, HasLinesInside;
    PathStarts(ns, path);
    var k := path[0];
    var a, b := LinesOfAll(ns[..k], level), LinesOfAll(ns[k + 1..], level);
    LinesOfChild(ns, k, level);
    if |path| == 1 {
      above, below := a, b;
    } else {
      var n := ns[k];
      ElementLines(n, level);
      var first, last := [Line(level, FirstLine(n))], [Line(level, PrintClose(n))];
      var up, down := LinesOfPath(n.children, path[1..], level + 1);
      above, below := a + first + up, down + last + b;
      PathPieces(a, first, up, LinesOf(NodeOn(ns, path), level + |path| - 1), down, last, b);
    }
  }

  lemma PathStarts(ns: seq<Node>, path: seq<nat>)
    requires IsPath(ns, path)
    ensures path != [] && path[0] < |ns| && (|path| == 1 ==> NodeOn(ns, path) == ns[path[0]])
    ensures |path| > 1 ==>
              HasLinesInside(ns[path[0]]) && ns[path[0]].Element? && IsPath(ns[path[0]].children, path[1..]) &&
              NodeOn(ns, path) == NodeOn(ns[path[0]].children, path[1..])
  {
  }

  lemma ElementLines(n: Node, level: nat)
    requires n.Element? && HasLinesInside(n)
    ensures LinesOf(n, level)
            == [Line(level, FirstLine(n))] + LinesOfAll(n.children, level + 1) + [Line(level, PrintClose(n))]
  {
    hide FirstLine, PrintClose, LinesOfAll;
  }

  lemma PathPieces(a: seq<Line>, first: seq<Line>, up: seq<Line>, inside: seq<Line>, down: seq<Line>, last: seq<Line>,
                   b: seq<Line>)
    ensures a + ((first + (up + (inside + down)) + last) + b) == a + first + up + (inside + (down + last + b))
  {
    Assoc(first, up + (inside + down), last);
    Assoc(up, inside + down, last);
    Assoc(inside, down, last);
    Assoc(first, up + (inside + (down + last)), b);
    Assoc(up, inside + (down + last), b);
    Assoc(inside, down + last, b);
    Assoc(a, first, up + (inside + (down + last + b)));
    Assoc(a + first, up, inside + (down + last + b));
  }

  /** Nothing is printed yet, or a line was just ended. */
  predicate AtLineStart(s: bytes, style: Style) {
    s == [] || (|s| >= |style.lineBreak| && s[|s| - |style.lineBreak|..] == style.lineBreak)
  }

  lemma {:induction false} LinesEndInBreaks(ls: seq<Line>, style: Style)
    ensures AtLineStart(Laid(ls, style), style)
    decreases |ls|
  {
    if ls == [] {
    } else {
      var l := LaidLine(ls[0], style);
      var more := Laid(ls[1..], style);
      LinesEndInBreaks(ls[1..], style);
      assert l[|l| - |style.lineBreak|..] == style.lineBreak;
      hide LaidLine, Laid, Copies;
      if more == [] {
        assert l + more == l;
      } else {
        assert (l + more)[|l + more| - |style.lineBreak|..] == more[|more| - |style.lineBreak|..];
      }
    }
  }

  /** In front of a node there is the start of a line and exactly one copy of the indent for each node
      above it; its line break is right behind it. */
  lemma NodeIsIndented(ns: seq<Node>, style: Style, path: seq<nat>) returns (before: bytes, inside: bytes, after: bytes)
    requires IsPath(ns, path)
    ensures var n, lead := NodeOn(ns, path), Copies(style.indent, |path| - 1);
            PrintNodes(ns, style, 0) == before + (lead + (FirstLine(n) + style.lineBreak) + inside + after) &&
            AtLineStart(before, style) &&
            if HasLinesInside(n)
            then inside == Laid(LinesOfAll(n.children, |path|), style) + (lead + (PrintClose(n) + style.lineBreak)) &&
                 AtLineStart(Laid(LinesOfAll(n.children, |path|), style), style)
            else inside == []
  {
    var n := NodeOn(ns, path);
    var level := |path| - 1;
    var above, below := LinesOfPath(ns, path, 0);
    NodesPrinted(ns, style, 0);
    LinesEndInBreaks(above, style);
    before, after := Laid(above, style), Laid(below, style);
    LaidConcat(above, LinesOf(n, level) + below, style);
    LaidConcat(LinesOf(n, level), below, style);
    var first := Line(level, FirstLine(n));
    LaidOne(first, style);
    if HasLinesInside(n) {
      var kids, last := LinesOfAll(n.children, |path|), Line(level, PrintClose(n));
      assert LinesOf(n, level) == [first] + kids + [last];
      LinesEndInBreaks(kids, style);
      hide Laid, LinesOf, LinesOfAll, Copies, PrintClose, FirstLine, PrintNodes, AtLineStart;
      inside := Laid(kids, style) + LaidLine(last, style);
      LaidOne(last, style);
      LaidConcat([first] + kids, [last], style);
      LaidConcat([first], kids, style);
      Assoc(LaidLine(first, style), Laid(kids, style), LaidLine(last, style));
    } else {
      assert LinesOf(n, level) == [first];
      hide Laid, LinesOf, LinesOfAll, Copies, FirstLine, PrintNodes, AtLineStart;
      inside := [];
      assert LaidLine(first, style) + inside == LaidLine(first, style);
    }
  }

  // ----- values with a NUL -----

  /** Names, comments, CDATA sections and unknown constructs are printed up to their first NUL. */
  lemma PrintStopsAtNul(v: bytes, w: bytes, attrs: seq<Attr>, kids: seq<Node>)
    requires NulFree(v)
    ensures var long := v + ([NUL] + w);
            PrintLeaf(Comment(long)) == PrintLeaf(Comment(v)) &&
            PrintLeaf(Text(long, true)) == PrintLeaf(Text(v, true)) &&
            PrintLeaf(Unrecognized(long)) == PrintLeaf(Unrecognized(v)) &&
            PrintOpen(Element(long, attrs, kids)) == PrintOpen(Element(v, attrs, kids)) &&
            PrintClose(Element(long, attrs, kids)) == PrintClose(Element(v, attrs, kids))
  {
    CutAtNul(v, w);
    CStrKeepsExactlyNulFree(v);
    hide CStr;
  }

  // ----- attributes and declarations -----

  /** The value stands between two quotes of one kind, single ones exactly if it shows a double quote. */
  lemma QuotesAre(a: Attr)
    ensures var text := PrintAttr(a);
            var q, open := (if QUOT in CStr(a.value) then APOS else QUOT), |Escape(a.name)| + 1;
            open < |text| - 1 && text[open] == text[|text| - 1] == q &&
            text[..open] == Escape(a.name) + [EQUALS] && text[open + 1..|text| - 1] == Escape(a.value)
  {
    hide Escape, CStr;
  }

  /** The bytes of a text. */
  function Ascii(text: string): (r: bytes)
    requires forall i :: 0 <= i < |text| ==> text[i] as int < 128
    ensures |r| == |text| && forall i :: 0 <= i < |r| ==> r[i] as int == text[i] as int
  {
    seq(|text|, i requires 0 <= i < |text| => text[i] as int as byte)
  }

  lemma AsciiEnds()
    ensures Ascii("<?xml version=\"") == DECLARATION_OPEN + VERSION_OPEN
    ensures Ascii("\" ?>") == VALUE_CLOSE + DECLARATION_CLOSE
  {
  }

  lemma AsciiMiddles()
    ensures Ascii("\" encoding=\"") == VALUE_CLOSE + ENCODING_OPEN
    ensures Ascii("\" standalone=\"") == VALUE_CLOSE + STANDALONE_OPEN
  {
  }

  lemma Regrouped(a: bytes, open: bytes, v: bytes, close: bytes)
    ensures a + (open + v + close) == a + open + v + close
  {
    Assoc(a, open + v, close);
    Assoc(a, open, v);
  }

  lemma Interleaved(a: bytes, vo: bytes, v: bytes, c: bytes, eo: bytes, e: bytes, so: bytes, s: bytes, z: bytes)
    ensures a + (vo + v + c) + (eo + e + c) + (so + s + c) + z
            == (a + vo) + v + (c + eo) + e + (c + so) + s + (c + z)
  {
    Regrouped(a, vo, v, c);
    Regrouped(a + vo + v + c, eo, e, c);
    Assoc(a + vo + v, c, eo);
    Regrouped(a + vo + v + (c + eo) + e + c, so, s, c);
    Assoc(a + vo + v + (c + eo) + e, c, so);
    Assoc(a + vo + v + (c + eo) + e + (c + so) + s, c, z);
  }

  /** A declaration that holds everything. */
  lemma DeclarationText(v: bytes, e: bytes, s: bytes)
    requires v != [] && e != [] && s != []
    ensures PrintLeaf(Declaration(v, e, s))
            == Ascii("<?xml version=\"") + v + Ascii("\" encoding=\"") + e + Ascii("\" standalone=\"") + s
               + Ascii("\" ?>")
  {
    AsciiEnds();
    AsciiMiddles();
    hide Ascii;
    Interleaved(DECLARATION_OPEN, VERSION_OPEN, v, VALUE_CLOSE, ENCODING_OPEN, e, STANDALONE_OPEN, s,
                DECLARATION_CLOSE);
  }

  /** A declaration that holds nothing. */
  lemma EmptyDeclarationText()
    ensures PrintLeaf(Declaration([], [], [])) == Ascii("<?xml ?>")
  {
  }

  function SizeIfAny(name: bytes, v: bytes): nat {
    if v == [] then 0 else |name| + |v| + |['=', '"', '"', ' ']|
  }

  /** A declaration has room for the values that are not empty and for nothing else. */
  lemma DeclarationSize(d: Node)
    requires d.Declaration?
    ensures |PrintLeaf(d)|
            == |"<?xml ?>"| + SizeIfAny(VERSION, d.version) + SizeIfAny(ENCODING, d.encoding)
               + SizeIfAny(STANDALONE, d.standalone)
  {
  }

  // ----- at an input -----

  lemma PlainTags(c: byte, kids: seq<Node>)
    requires c != NUL
    ensures var n := Element([c], [], kids); PrintOpen(n) == [LT, c] && PrintClose(n) == [LT, SLASH, c, GT]
  {
    assert CStr([c]) == [c] by { assert [c][1..] == []; }
    assert Reached([]) == [];
  }

  lemma EmptyLine(c: byte)
    requires c != NUL
    ensures OnlyLine(Element([c], [], [])) == [LT, c, SPACE, SLASH, GT]
  {
    PlainTags(c, []);
    hide PrintOpen;
  }

  lemma BlanksOf(level: nat)
    ensures Copies(PRETTY.indent, level) == seq(4 * level, _ => SPACE)
  {
  }

  lemma FiveLines(a: Line, b: Line, c: Line, d: Line, e: Line, style: Style)
    ensures Laid([a, b, c, d, e], style)
            == LaidLine(a, style)
               + (LaidLine(b, style) + (LaidLine(c, style) + (LaidLine(d, style) + LaidLine(e, style))))
  {
    hide LaidLine;
    assert [a, b, c, d, e] == [a] + ([b] + ([c] + ([d] + [e])));
    LaidConcat([a], [b] + ([c] + ([d] + [e])), style);
    LaidConcat([b], [c] + ([d] + [e]), style);
    LaidConcat([c], [d] + [e], style);
    LaidConcat([d], [e], style);
    LaidOne(a, style);
    LaidOne(b, style);
    LaidOne(c, style);
    LaidOne(d, style);
    LaidOne(e, style);
    hide Laid;
  }

  lemma LinesOfOne(n: Node, level: nat)
    ensures LinesOfAll([n], level) == LinesOf(n, level)
  {
    hide LinesOf;
    assert [n][1..] == [] && LinesOfAll([], level) == [];
  }

  lemma PrettyLine(level: nat, text: bytes)
    ensures LaidLine(Line(level, text), PRETTY) == seq(4 * level, _ => SPACE) + (text + [LF])
  {
    BlanksOf(level);
    hide Copies;
  }

  lemma NestedLines()
    ensures var a := Element([97], [], [Element([98], [], [Element([99], [], [])])]);
            LinesOfAll([a], 0) == [Line(0, [LT, 97, GT]), Line(1, [LT, 98, GT]), Line(2, [LT, 99, SPACE, SLASH, GT]),
                                   Line(1, [LT, SLASH, 98, GT]), Line(0, [LT, SLASH, 97, GT])]
  {
    var c := Element([99], [], []);
    var b := Element([98], [], [c]);
    PlainTags(97, [b]);
    PlainTags(98, [c]);
    PlainTags(99, []);
    EmptyLine(99);
    hide OnlyLine, PrintOpen, PrintClose;
    LinesOfOne(c, 2);
    LinesOfOne(b, 1);
    LinesOfOne(Element([97], [], [b]), 0);
    hide LinesOfAll;
    assert LinesOf(c, 2) == [Line(2, [LT, 99, SPACE, SLASH, GT])];
    assert [LT, 97] + [GT] == [LT, 97, GT] && [LT, 98] + [GT] == [LT, 98, GT];
    var l1, l2 := Line(0, [LT, 97, GT]), Line(1, [LT, 98, GT]);
    var l4, l5 := Line(1, [LT, SLASH, 98, GT]), Line(0, [LT, SLASH, 97, GT]);
    assert LinesOf(b, 1) == [l2] + LinesOfAll([c], 2) + [l4];
    assert LinesOf(Element([97], [], [b]), 0) == [l1] + LinesOfAll([b], 1) + [l5];
  }

  /** "<a><b><c/></b></a>", printed as `PrintS` does: "<c />" stands behind eight blanks. */
  lemma NestedExample()
    ensures var a := Element([97], [], [Element([98], [], [Element([99], [], [])])]);
            var four, eight := seq(4, _ => SPACE), seq(8, _ => SPACE);
            PrintNodes([a], PRETTY, 0)
            == [LT, 97, GT, LF] + (four + [LT, 98, GT, LF] + (eight + [LT, 99, SPACE, SLASH, GT, LF]
               + (four + [LT, SLASH, 98, GT, LF] + [LT, SLASH, 97, GT, LF])))
  {
    var a := Element([97], [], [Element([98], [], [Element([99], [], [])])]);
    NodesPrinted([a], PRETTY, 0);
    NestedLines();
    PrettyLine(0, [LT, 97, GT]);
    PrettyLine(1, [LT, 98, GT]);
    PrettyLine(2, [LT, 99, SPACE, SLASH, GT]);
    PrettyLine(1, [LT, SLASH, 98, GT]);
    PrettyLine(0, [LT, SLASH, 97, GT]);
    hide PrintNodes, LinesOfAll, Laid, LaidLine;
    NothingInFront([LT, 97, GT, LF]);
    NothingInFront([LT, SLASH, 97, GT, LF]);
    assert [LT, 97, GT] + [LF] == [LT, 97, GT, LF] && [LT, 98, GT] + [LF] == [LT, 98, GT, LF];
    assert [LT, 99, SPACE, SLASH, GT] + [LF] == [LT, 99, SPACE, SLASH, GT, LF];
    assert [LT, SLASH, 97, GT] + [LF] == [LT, SLASH, 97, GT, LF];
    assert [LT, SLASH, 98, GT] + [LF] == [LT, SLASH, 98, GT, LF];
    FiveLines(Line(0, [LT, 97, GT]), Line(1, [LT, 98, GT]), Line(2, [LT, 99, SPACE, SLASH, GT]),
              Line(1, [LT, SLASH, 98, GT]), Line(0, [LT, SLASH, 97, GT]), PRETTY);
    hide LaidLine;
  }
}
