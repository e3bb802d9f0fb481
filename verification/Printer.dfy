/** What TiXmlPrinter appends to its buffer for a tree. The visitor itself is in DomPrinter. */
module Printer {
  import opened Bytes
  import opened Codec
  import opened Xml
  import opened Parser

  /** The two strings that control the layout; both empty is stream printing. */
  datatype Style = Style(indent: bytes, lineBreak: bytes)

  const STREAM := Style([], [])

  /** The layout of a new printer: four blanks and a line feed. */
  const PRETTY := Style([SPACE, SPACE, SPACE, SPACE], [LF])

  const VERSION_OPEN: bytes := VERSION + [EQUALS, QUOT]
  const ENCODING_OPEN: bytes := ENCODING + [EQUALS, QUOT]
  const STANDALONE_OPEN: bytes := STANDALONE + [EQUALS, QUOT]
  const VALUE_CLOSE: bytes := [QUOT, SPACE]
  const DECLARATION_OPEN: bytes := XML_HEADER + [SPACE]
  const DECLARATION_CLOSE: bytes := [QMARK, GT]
  const EMPTY_CLOSE: bytes := [SPACE, SLASH, GT]

  function Indent(style: Style, depth: nat): bytes {
    if depth == 0 then [] else Indent(style, depth - 1) + style.indent
  }

  /** `TiXmlAttribute::Print`: in double quotes, or in single ones when a search of the value as a C
      string finds a double quote. */
  function PrintAttr(a: Attr): bytes {
    var quote := if QUOT in CStr(a.value) then APOS else QUOT;
    Escape(a.name) + [EQUALS, quote] + Escape(a.value) + [quote]
  }

  function PrintAttrs(attrs: seq<Attr>): bytes {
    if attrs == [] then [] else [SPACE] + PrintAttr(attrs[0]) + PrintAttrs(attrs[1..])
  }

  /** One attribute of a declaration, left out when empty; the value is not escaped. */
  function PrintDeclared(open: bytes, value: bytes): bytes {
    if value == [] then [] else open + value + VALUE_CLOSE
  }

  function PrintDeclaration(d: Node): bytes
    requires d.Declaration?
  {
    DECLARATION_OPEN + PrintDeclared(VERSION_OPEN, d.version) + PrintDeclared(ENCODING_OPEN, d.encoding)
    + PrintDeclared(STANDALONE_OPEN, d.standalone) + DECLARATION_CLOSE
  }

  /** The only child is plain text, which is then printed without line breaks. */
  predicate SimpleText(children: seq<Node>) {
    |children| == 1 && children[0].IsPlainText()
  }

  function PrintLeaf(n: Node): bytes
    requires !n.Element?
  {
    match n
    case Text(v, true) => CDATA_OPEN + CStr(v) + CDATA_CLOSE
    case Text(v, false) => Escape(v)
    case Comment(v) => COMMENT_OPEN + CStr(v) + COMMENT_CLOSE
    case Declaration(_, _, _) => PrintDeclaration(n)
    case Unrecognized(v) => LT_TAG + CStr(v) + [GT]
  }

  function PrintOpen(n: Node): bytes
    requires n.Element?
  {
    LT_TAG + CStr(n.name) + PrintAttrs(Reached(n.attrs))
  }

  function PrintClose(n: Node): bytes
    requires n.Element?
  {
    END_TAG_OPEN + CStr(n.name) + [GT]
  }

  /** A node without its own indentation and without the line break behind it. */
  function PrintBare(n: Node, style: Style, depth: nat): bytes
    decreases n, 0
  {
    if !n.Element? then PrintLeaf(n)
    else if n.children == [] then PrintOpen(n) + EMPTY_CLOSE
    else if SimpleText(n.children)
    then PrintOpen(n) + [GT] + (Escape(n.children[0].value) + PrintClose(n))
    else PrintOpen(n) + [GT]
         + (style.lineBreak + PrintNodes(n.children, style, depth + 1) + Indent(style, depth) + PrintClose(n))
  }

  function PrintNode(n: Node, style: Style, depth: nat): bytes
    decreases n, 1
  {
    Indent(style, depth) + PrintBare(n, style, depth) + style.lineBreak
  }

  /** Nodes one after the other: the children of an element, or of the document at depth 0. */
  function PrintNodes(ns: seq<Node>, style: Style, depth: nat): bytes
    decreases ns
  {
    if ns == [] then [] else PrintNode(ns[0], style, depth) + PrintNodes(ns[1..], style, depth)
  }
}
