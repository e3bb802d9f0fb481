/** TiXmlPrinter: the visitor that prints a tree into its buffer, and the walk that drives it. */
module DomPrinter {
  import opened Bytes
  import opened Codec
  import opened Xml
  import opened Printer
  import opened Layout
  import opened Parser
  import opened Scanner
  import opened AttributeSpec
  import opened AttributeSet
  import opened Store
  import opened Dom

  /** `TiXmlString::find` for a byte: the search ends at the first NUL. */
  method Find(s: bytes, c: byte) returns (found: bool)
    requires c != NUL
    ensures found <==> c in CStr(s)
  {
    found := false;
    var i := 0;
    assert s[0..] == s;
    while i < |s| && s[i] != NUL
      invariant i <= |s|
      invariant c in CStr(s) <==> c in CStr(s[i..])
    {
      assert s[i..][1..] == s[i + 1..];
      if s[i] == c {
        return true;
      }
      i := i + 1;
    }
  }

  /** `TiXmlAttribute::Print` into a string. */
  method PrintAttribute(attrib: TiXmlAttribute) returns (text: bytes)
    ensures text == PrintAttr(Attr(attrib.name, attrib.value))
  {
    var n := EncodeString(attrib.name);
    var v := EncodeString(attrib.value);
    var hasQuote := Find(attrib.value, QUOT);
    if !hasQuote {
      text := n + [EQUALS, QUOT] + v + [QUOT];
    } else {
      text := n + [EQUALS, APOS] + v + [APOS];
    }
  }

  class TiXmlPrinter {
    var depth: nat
    var simpleTextPrint: bool
    var buffer: bytes
    var indent: bytes
    var lineBreak: bytes

    function GetStyle(): Style
      reads this`indent, this`lineBreak
    {
      Style(indent, lineBreak)
    }

    /** The initial layout: four blanks and a line feed. */
    constructor ()
      ensures depth == 0 && !simpleTextPrint && buffer == []
      ensures indent == [SPACE, SPACE, SPACE, SPACE] && lineBreak == [LF]
    {
      depth, simpleTextPrint, buffer := 0, false, [];
      indent, lineBreak := [SPACE, SPACE, SPACE, SPACE], [LF];
    }

    method SetStreamPrinting()
      modifies this`indent, this`lineBreak
      ensures GetStyle() == STREAM
    {
      indent, lineBreak := [], [];
    }

    method DoIndent()
      modifies this`buffer
      ensures buffer == old(buffer) + Indent(GetStyle(), depth)
      ensures buffer == old(buffer) + Copies(indent, depth)
    {
      IndentIsCopies(GetStyle(), depth);
      var i := 0;
      while i < depth
        invariant i <= depth && buffer == old(buffer) + Indent(GetStyle(), i)
      {
        Assoc(old(buffer), Indent(GetStyle(), i), indent);
        buffer := buffer + indent;
        i := i + 1;
      }
    }

    method DoLineBreak()
      modifies this`buffer
      ensures buffer == old(buffer) + lineBreak
    {
      buffer := buffer + lineBreak;
    }

    method Append(text: bytes)
      modifies this`buffer
      ensures buffer == old(buffer) + text
    {
      buffer := buffer + text;
    }

    /** The attribute loop of VisitEnter. */
    method PrintAttributes(attributeSet: TiXmlAttributeSet)
      requires attributeSet.Valid()
      modifies this`buffer
      ensures buffer == old(buffer) + PrintAttrs(Reached(attributeSet.Entries()))
    {
      hide EntriesOf, TiXmlAttributeSet.Valid, PrintAttr, PrintAttrs, Reached;
      ghost var all, i, todo := attributeSet.Entries(), 0, Reached(attributeSet.Entries());
      var attrib := attributeSet.First();
      WalkStart(all);
      assert buffer + PrintAttrs(todo) == old(buffer) + PrintAttrs(Reached(all));
      while attrib != null
        invariant attributeSet.Valid() && attributeSet.Entries() == all
        invariant attrib != null ==>
                    i < |attributeSet.items| && attrib == attributeSet.items[i] && todo == Reached(all[i..])
        invariant attrib == null ==> todo == []
        invariant buffer + PrintAttrs(todo) == old(buffer) + PrintAttrs(Reached(all))
        decreases if attrib == null then 0 else |attributeSet.items| - i + 1
      {
        attributeSet.EntryAt(i);
        WalkPrints(all, i, buffer);
        var text := PrintAttribute(attrib);
        buffer := buffer + ([SPACE] + text);
        attrib := attributeSet.After(attrib, i);
        i := i + 1;
        todo := if attrib == null then [] else Reached(all[i..]);
      }
      NothingPrinted();
    }

    /** The start tag up to its last attribute. */
    method PrintStart(element: TiXmlNode)
      requires element.HasAttributes()
      modifies this`buffer
      ensures buffer == old(buffer) + (Indent(GetStyle(), depth) + old(StartTag(element)))
    {
      hide EntriesOf, TiXmlAttributeSet.Valid, Reached, PrintAttrs, Indent;
      ghost var before, front, name := buffer, Indent(GetStyle(), depth), LT_TAG + CStr(element.value);
      ghost var attrs := PrintAttrs(Reached(element.attributeSet.Entries()));
      ThreePieces(before, front, name, attrs);
      Assoc(front, name, attrs);
      DoIndent();
      Append(LT_TAG + CStr(element.value));
      PrintAttributes(element.attributeSet);
    }

    method VisitEnter(element: TiXmlNode)
      requires element.HasAttributes() && element.Linked()
      modifies this`buffer, this`depth, this`simpleTextPrint
      ensures depth == old(depth) + 1 && simpleTextPrint == (old(simpleTextPrint) || old(HasSimpleText(element)))
      ensures buffer == old(buffer) + (Indent(GetStyle(), old(depth)) + old(StartTag(element))
                                       + old(TagEnd(element, lineBreak)))
    {
      hide Indent, StartTag, TiXmlAttributeSet.Valid;
      ghost var before, start := buffer, Indent(GetStyle(), depth) + StartTag(element);
      PrintStart(element);
      if element.firstChild == null {
        Append(EMPTY_CLOSE);
        DoLineBreak();
        ThreePieces(before, start, EMPTY_CLOSE, lineBreak);
        Assoc(start, EMPTY_CLOSE, lineBreak);
      } else {
        Append([GT]);
        if element.firstChild.kind == TextType && element.lastChild == element.firstChild && !element.firstChild.cdata {
          simpleTextPrint := true;
          Assoc(before, start, [GT]);
        } else {
          DoLineBreak();
          ThreePieces(before, start, [GT], lineBreak);
          Assoc(start, [GT], lineBreak);
        }
      }
      depth := depth + 1;
    }

    method VisitExit(element: TiXmlNode)
      requires depth > 0 && element.Linked()
      modifies this`buffer, this`depth, this`simpleTextPrint
      ensures depth == old(depth) - 1
      ensures element.children == [] ==> buffer == old(buffer) && simpleTextPrint == old(simpleTextPrint)
      ensures element.children != [] ==>
                !simpleTextPrint &&
                buffer == old(buffer) + ((if old(simpleTextPrint) then [] else Indent(GetStyle(), depth))
                                         + (END_TAG_OPEN + CStr(element.value) + [GT]) + lineBreak)
    {
      depth := depth - 1;
      if element.firstChild != null {
        ghost var before, close := buffer, END_TAG_OPEN + CStr(element.value) + [GT];
        ghost var front := if simpleTextPrint then [] else Indent(GetStyle(), depth);
        hide Indent;
        if simpleTextPrint {
          simpleTextPrint := false;
        } else {
          DoIndent();
        }
        Append(END_TAG_OPEN + CStr(element.value) + [GT]);
        DoLineBreak();
        ThreePieces(before, front, close, lineBreak);
      }
    }

    /** Prints one node on a line of its own, the way the other Visit methods do. */
    method PrintLine(text: bytes)
      modifies this`buffer
      ensures buffer == old(buffer) + (Indent(GetStyle(), depth) + text + lineBreak)
    {
      hide Indent;
      ThreePieces(buffer, Indent(GetStyle(), depth), text, lineBreak);
      DoIndent();
      Append(text);
      DoLineBreak();
    }

    method VisitText(text: TiXmlNode)
      requires text.kind == TextType
      modifies this`buffer
      ensures buffer == old(buffer) + if simpleTextPrint && !text.cdata then Escape(text.value)
                                      else PrintNode(Text(text.value, text.cdata), GetStyle(), depth)
    {
      hide Escape, Indent;
      if text.cdata {
        PrintLine(CDATA_OPEN + CStr(text.value) + CDATA_CLOSE);
      } else {
        var str := EncodeString(text.value);
        if simpleTextPrint {
          Append(str);
        } else {
          PrintLine(str);
        }
      }
    }

    method VisitComment(comment: TiXmlNode)
      modifies this`buffer
      ensures buffer == old(buffer) + PrintNode(Comment(comment.value), GetStyle(), depth)
    {
      PrintLine(COMMENT_OPEN + CStr(comment.value) + COMMENT_CLOSE);
    }

    method VisitUnknown(unknown: TiXmlNode)
      modifies this`buffer
      ensures buffer == old(buffer) + PrintNode(Unrecognized(unknown.value), GetStyle(), depth)
    {
      PrintLine(LT_TAG + CStr(unknown.value) + [GT]);
    }

    method VisitDeclaration(declaration: TiXmlNode)
      modifies this`buffer
      ensures var d := Declaration(declaration.version, declaration.encoding, declaration.standalone);
              buffer == old(buffer) + PrintNode(d, GetStyle(), depth)
    {
      var text := DECLARATION_OPEN;
      if declaration.version != [] {
        text := text + (VERSION_OPEN + declaration.version + VALUE_CLOSE);
      }
      if declaration.encoding != [] {
        text := text + (ENCODING_OPEN + declaration.encoding + VALUE_CLOSE);
      }
      if declaration.standalone != [] {
        text := text + (STANDALONE_OPEN + declaration.standalone + VALUE_CLOSE);
      }
      text := text + DECLARATION_CLOSE;
      PrintLine(text);
    }
  }

  /** The only child is plain text. */
  ghost predicate HasSimpleText(element: TiXmlNode)
    reads element`children, element.children
  {
    |element.children| == 1 && element.children[0].kind == TextType && !element.children[0].cdata
  }

  ghost function StartTag(element: TiXmlNode): bytes
    reads element`value, element.attributeSet, element.attributeSet.items
  {
    LT_TAG + CStr(element.value) + PrintAttrs(Reached(element.attributeSet.Entries()))
  }

  /** What VisitEnter prints behind the attributes. */
  ghost function TagEnd(element: TiXmlNode, lineBreak: bytes): bytes
    reads element`children, element.children
  {
    if element.children == [] then EMPTY_CLOSE + lineBreak
    else if HasSimpleText(element) then [GT]
    else [GT] + lineBreak
  }

  lemma ThreePieces(b: bytes, x: bytes, y: bytes, z: bytes)
    ensures b + x + y + z == b + (x + y + z)
    ensures x == [] ==> b + y + z == b + (x + y + z)
  {
  }

  lemma WalkStart(all: seq<Attr>)
    ensures all[0..] == all && (all == [] ==> Reached(all) == [])
  {
  }

  lemma NothingPrinted()
    ensures PrintAttrs([]) == []
  {
  }

  /** One round of the attribute walk. */
  lemma WalkPrints(all: seq<Attr>, i: nat, buffer: bytes)
    requires i < |all|
    ensures var next := if i + 1 < |all| && all[i + 1] != Attr([], []) then Reached(all[i + 1..]) else [];
            buffer + PrintAttrs(Reached(all[i..])) == buffer + ([SPACE] + PrintAttr(all[i])) + PrintAttrs(next)
  {
    hide PrintAttr;
    var next := if i + 1 < |all| && all[i + 1] != Attr([], []) then Reached(all[i + 1..]) else [];
    assert all[i..][1..] == all[i + 1..];
    assert Reached(all[i..]) == [all[i]] + next;
    Assoc(buffer, [SPACE] + PrintAttr(all[i]), PrintAttrs(next));
  }

  // ----- the walk -----

  lemma EmptyElement(b: bytes, i: bytes, o: bytes, e: bytes, l: bytes)
    ensures b + (i + o + (e + l)) == b + (i + (o + e) + l)
  {
    Assoc(i, o, e + l);
    Assoc(o, e, l);
    Assoc(i, o + e, l);
  }

  lemma SimpleElement(b: bytes, i: bytes, o: bytes, g: bytes, v: bytes, c: bytes, l: bytes)
    ensures b + (i + o + g) + v + ([] + c + l) == b + (i + (o + g + (v + c)) + l)
  {
    assert [] + c == c;
    Assoc(i, o, g);
    Assoc(b, i + (o + g), v);
    Assoc(i, o + g, v);
    Assoc(b, i + (o + g + v), c + l);
    Assoc(o + g, v, c);
    Assoc(i, o + g + v, c + l);
    Assoc(o + g + v, c, l);
    Assoc(i, o + g + v + c, l);
  }

  lemma FullElement(b: bytes, i: bytes, o: bytes, g: bytes, l: bytes, k: bytes, c: bytes)
    ensures b + (i + o + (g + l)) + k + (i + c + l) == b + (i + (o + g + (l + k + i + c)) + l)
  {
    var x := o + g;
    Assoc(i, o, g + l);
    Assoc(o, g, l);
    Assoc(b, i + (x + l), k);
    Assoc(i, x + l, k);
    Assoc(x, l, k);
    var y := l + k;
    Assoc(b, i + (x + y), i + c + l);
    Assoc(i, x + y, i + c + l);
    Assoc(x, y, i + c + l);
    Assoc(y, i + c, l);
    Assoc(y, i, c);
    var z := y + i + c;
    Assoc(x, z, l);
    Assoc(i, x + z, l);
  }

  lemma {:induction false} PrintNodesSnoc(ns: seq<Node>, n: Node, style: Style, depth: nat)
    ensures PrintNodes(ns + [n], style, depth) == PrintNodes(ns, style, depth) + PrintNode(n, style, depth)
    decreases |ns|
  {
    hide PrintNode;
    if ns == [] {
      assert ns + [n] == [n] && [n][1..] == [];
      assert PrintNodes([n], style, depth) == PrintNode(n, style, depth) + [];
    } else {
      assert (ns + [n])[1..] == ns[1..] + [n];
      PrintNodesSnoc(ns[1..], n, style, depth);
      Assoc(PrintNode(ns[0], style, depth), PrintNodes(ns[1..], style, depth), PrintNode(n, style, depth));
    }
  }

  /** What the children of an element look like to the visitor. */
  lemma SimpleTextIs(element: TiXmlNode, forest: set<TiXmlNode>)
    requires IsForest(forest) && element in forest
    ensures var kids := Kids(element.children, View(forest));
            (SimpleText(kids) <==> HasSimpleText(element)) &&
            (HasSimpleText(element) ==> kids[0].value == element.children[0].value)
  {
    hide IsForest, Tree;
    if |element.children| == 1 {
      element.ChildIs(forest, 0);
      TreeOf(element.children[0], forest);
    }
  }

  /** What a visited node adds to the buffer: plain text goes without a line of its own as the only
      child of an element. */
  function Printed(t: Node, style: Style, depth: nat, simple: bool): bytes {
    if simple && t.IsPlainText() then Escape(t.value) else PrintNode(t, style, depth)
  }

  /** `Accept` for the nodes without children. */
  method AcceptLeaf(node: TiXmlNode, printer: TiXmlPrinter, ghost forest: set<TiXmlNode>)
    requires IsForest(forest) && node in forest && node.kind !in {ElementType, DocumentType}
    requires printer.simpleTextPrint ==> node.kind == TextType && !node.cdata
    modifies printer`buffer
    ensures printer.buffer
            == old(printer.buffer)
               + Printed(old(Tree(node, View(forest))), printer.GetStyle(), printer.depth, printer.simpleTextPrint)
  {
    hide IsForest, Tree, View, Kids, PrintNode, Escape;
    TreeOf(node, forest);
    match node.kind {
    case TextType => printer.VisitText(node);
    case CommentType => printer.VisitComment(node);
    case UnknownType => printer.VisitUnknown(node);
    case DeclarationType => printer.VisitDeclaration(node);
    }
  }

  /** `Accept`, for every node that can be a child. The visitor is left as it was but for its buffer. */
  method Accept(node: TiXmlNode, printer: TiXmlPrinter, ghost forest: set<TiXmlNode>)
    requires IsForest(forest) && Furnished(forest) && node in forest && node.kind != DocumentType
    requires printer.simpleTextPrint ==> node.kind == TextType && !node.cdata
    modifies printer`buffer, printer`depth, printer`simpleTextPrint
    ensures printer.depth == old(printer.depth) && printer.simpleTextPrint == old(printer.simpleTextPrint)
    ensures printer.buffer
            == old(printer.buffer)
               + Printed(old(Tree(node, View(forest))), printer.GetStyle(), printer.depth, printer.simpleTextPrint)
    decreases node.rank, 5
  {
    hide IsForest, Tree, View, Kids, PrintNode, Escape;
    if node.kind == ElementType {
      AcceptElement(node, printer, forest);
    } else {
      AcceptLeaf(node, printer, forest);
    }
  }

  method AcceptElement(element: TiXmlNode, printer: TiXmlPrinter, ghost forest: set<TiXmlNode>)
    requires IsForest(forest) && Furnished(forest) && element in forest && element.kind == ElementType
    requires !printer.simpleTextPrint
    modifies printer`buffer, printer`depth, printer`simpleTextPrint
    ensures printer.depth == old(printer.depth) && !printer.simpleTextPrint
    ensures printer.buffer
            == old(printer.buffer) + PrintNode(old(Tree(element, View(forest))), printer.GetStyle(), printer.depth)
    decreases element.rank, 3
  {
    hide IsForest, Furnished, Tree, View, Kids, Indent;
    hide PrintNode, StartTag, PrintClose, Escape, PrintNodes, TiXmlAttributeSet.Valid;
    ghost var before, style, depth := printer.buffer, printer.GetStyle(), printer.depth;
    ghost var t, o := Tree(element, View(forest)), StartTag(element);
    ElementIs(element, forest);
    ElementPrinted(before, t, style, depth);
    NothingPrintedAll(style, depth + 1, false);
    VisitElement(element, printer, forest);
    element.HostIs(forest);
    printer.VisitExit(element);
  }

  /** What the three calls of the visitor add up to. */
  lemma ElementPrinted(before: bytes, t: Node, style: Style, depth: nat)
    requires t.Element?
    ensures var i, o, c, l := Indent(style, depth), PrintOpen(t), PrintClose(t), style.lineBreak;
            before + PrintNode(t, style, depth)
            == if t.children == [] then before + (i + o + (EMPTY_CLOSE + l))
               else if SimpleText(t.children) then before + (i + o + [GT]) + Escape(t.children[0].value) + ([] + c + l)
               else before + (i + o + ([GT] + l)) + PrintNodes(t.children, style, depth + 1) + (i + c + l)
  {
    hide Indent, PrintOpen, PrintClose, Escape;
    var i, o, c, l := Indent(style, depth), PrintOpen(t), PrintClose(t), style.lineBreak;
    if t.children == [] {
      EmptyElement(before, i, o, EMPTY_CLOSE, l);
    } else if SimpleText(t.children) {
      SimpleElement(before, i, o, [GT], Escape(t.children[0].value), c, l);
    } else {
      FullElement(before, i, o, [GT], l, PrintNodes(t.children, style, depth + 1), c);
    }
  }

  /** VisitEnter and the children. */
  method VisitElement(element: TiXmlNode, printer: TiXmlPrinter, ghost forest: set<TiXmlNode>)
    requires IsForest(forest) && Furnished(forest) && element in forest && element.kind == ElementType
    requires !printer.simpleTextPrint
    modifies printer`buffer, printer`depth, printer`simpleTextPrint
    ensures IsForest(forest) && Furnished(forest) && View(forest) == old(View(forest))
    ensures printer.depth == old(printer.depth) + 1 && printer.simpleTextPrint == old(HasSimpleText(element))
    ensures printer.buffer
            == old(printer.buffer)
               + (Indent(printer.GetStyle(), old(printer.depth)) + old(StartTag(element))
                  + old(TagEnd(element, printer.lineBreak)))
               + PrintedAll(old(Kids(element.children, View(forest))), printer.GetStyle(), printer.depth,
                            printer.simpleTextPrint)
    decreases element.rank, 2
  {
    hide IsForest, Furnished, Tree, View, Kids, Indent, PrintedAll, StartTag, TagEnd;
    element.HostIs(forest);
    HasRing(element, forest);
    printer.VisitEnter(element);
    SourceKept(forest);
    AcceptChildren(element, printer, forest);
  }

  lemma HasRing(n: TiXmlNode, forest: set<TiXmlNode>)
    requires Furnished(forest) && n in forest
    ensures n.HasAttributes()
  {
  }

  /** The tree of an element, as the visitor sees it. */
  lemma ElementIs(element: TiXmlNode, forest: set<TiXmlNode>)
    requires IsForest(forest) && element in forest && element.kind == ElementType
    ensures var t := Tree(element, View(forest));
            t.Element? && t.children == Kids(element.children, View(forest)) && PrintOpen(t) == StartTag(element) &&
            PrintClose(t) == END_TAG_OPEN + CStr(element.value) + [GT] &&
            (SimpleText(t.children) <==> HasSimpleText(element))
  {
    hide IsForest, Tree, Kids, PrintAttrs, Reached;
    TreeOf(element, forest);
    SimpleTextIs(element, forest);
  }

  /** `Accept`; the forest is left alone. */
  method AcceptChild(child: TiXmlNode, printer: TiXmlPrinter, ghost forest: set<TiXmlNode>)
    requires IsForest(forest) && Furnished(forest) && child in forest && child.kind != DocumentType
    requires printer.simpleTextPrint ==> child.kind == TextType && !child.cdata
    modifies printer`buffer, printer`depth, printer`simpleTextPrint
    ensures IsForest(forest) && Furnished(forest) && View(forest) == old(View(forest))
    ensures printer.depth == old(printer.depth) && printer.simpleTextPrint == old(printer.simpleTextPrint)
    ensures printer.buffer
            == old(printer.buffer)
               + Printed(old(Tree(child, View(forest))), printer.GetStyle(), printer.depth, printer.simpleTextPrint)
    decreases child.rank, 6
  {
    hide IsForest, Furnished, Tree, View, Printed;
    Accept(child, printer, forest);
    SourceKept(forest);
  }

  /** What the children of an element or a document add to the buffer. */
  function PrintedAll(ts: seq<Node>, style: Style, depth: nat, simple: bool): bytes {
    if simple then (if ts == [] then [] else Printed(ts[0], style, depth, true)) else PrintNodes(ts, style, depth)
  }

  lemma PrintedStep(cs: seq<TiXmlNode>, i: nat, v: map<TiXmlNode, Info<TiXmlNode>>, style: Style, depth: nat,
                    simple: bool)
    requires i < |cs| && (simple ==> |cs| == 1)
    ensures PrintedAll(Kids(cs[..i + 1], v), style, depth, simple)
            == PrintedAll(Kids(cs[..i], v), style, depth, simple) + Printed(Tree(cs[i], v), style, depth, simple)
  {
    hide Tree, PrintNode;
    assert Kids(cs[..i + 1], v) == Kids(cs[..i], v) + [Tree(cs[i], v)];
    PrintNodesSnoc(Kids(cs[..i], v), Tree(cs[i], v), style, depth);
  }

  /** The loop over the children in `Accept`. */
  method AcceptChildren(parent: TiXmlNode, printer: TiXmlPrinter, ghost forest: set<TiXmlNode>)
    requires IsForest(forest) && Furnished(forest) && parent in forest
    requires printer.simpleTextPrint ==> HasSimpleText(parent)
    modifies printer`buffer, printer`depth, printer`simpleTextPrint
    ensures IsForest(forest) && Furnished(forest) && View(forest) == old(View(forest))
    ensures printer.depth == old(printer.depth) && printer.simpleTextPrint == old(printer.simpleTextPrint)
    ensures printer.buffer
            == old(printer.buffer)
               + PrintedAll(old(Kids(parent.children, View(forest))), printer.GetStyle(), printer.depth,
                            printer.simpleTextPrint)
    decreases parent.rank, 1
  {
    hide IsForest, Furnished, Tree, View, Kids, PrintNode, Printed, PrintedAll;
    ghost var v, cs, i, simple := View(forest), parent.children, 0, printer.simpleTextPrint;
    ghost var before, style, depth := printer.buffer, printer.GetStyle(), printer.depth;
    NothingPrintedAll(style, depth, simple);
    parent.FirstChildIs(forest);
    var node := parent.firstChild;
    while node != null
      invariant IsForest(forest) && Furnished(forest) && View(forest) == v
      invariant parent.children == cs && i <= |cs| && node == if i < |cs| then cs[i] else null
      invariant printer.depth == depth && printer.simpleTextPrint == simple && printer.GetStyle() == style
      invariant printer.buffer == before + PrintedAll(Kids(cs[..i], v), style, depth, simple)
      decreases |cs| - i
    {
      parent.ChildIs(forest, i);
      PrintedStep(cs, i, v, style, depth, simple);
      Assoc(before, PrintedAll(Kids(cs[..i], v), style, depth, simple), Printed(Tree(cs[i], v), style, depth, simple));
      AcceptChild(node, printer, forest);
      parent.ChildIs(forest, i);
      node := node.next;
      i := i + 1;
    }
    assert cs[..i] == cs;
  }

  lemma NothingPrintedAll(style: Style, depth: nat, simple: bool)
    ensures PrintedAll([], style, depth, simple) == []
  {
  }

  /** `TiXmlDocument::Accept`. */
  method AcceptDocument(document: TiXmlNode, printer: TiXmlPrinter, ghost forest: set<TiXmlNode>)
    requires IsForest(forest) && Furnished(forest) && document in forest && !printer.simpleTextPrint
    modifies printer`buffer, printer`depth, printer`simpleTextPrint
    ensures IsForest(forest) && Furnished(forest) && View(forest) == old(View(forest))
    ensures printer.depth == old(printer.depth) && !printer.simpleTextPrint
    ensures printer.buffer
            == old(printer.buffer)
               + PrintNodes(old(Kids(document.children, View(forest))), printer.GetStyle(), printer.depth)
  {
    hide IsForest, Furnished, View, Kids;
    AcceptChildren(document, printer, forest);
  }

  /** `TiXmlDocument::PrintS`. */
  method PrintS(document: TiXmlNode, ghost forest: set<TiXmlNode>) returns (text: bytes)
    requires IsForest(forest) && Furnished(forest) && document in forest
    ensures text == CStr(PrintNodes(old(Kids(document.children, View(forest))), PRETTY, 0))
    ensures text == CStr(Laid(LinesOfAll(old(Kids(document.children, View(forest))), 0), PRETTY))
  {
    hide IsForest, Furnished, View, Kids, PrintNodes, Laid, LinesOfAll;
    NodesPrinted(Kids(document.children, View(forest)), PRETTY, 0);
    ghost var all := PrintNodes(Kids(document.children, View(forest)), PRETTY, 0);
    assert [] + all == all;
    var printer := new TiXmlPrinter();
    SourceKept(forest);
    AcceptDocument(document, printer, forest);
    text := CStr(printer.buffer);
  }
}
