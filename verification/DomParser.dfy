/** The Parse methods of elements and documents: they build the nodes and link them in, and are
    proved to leave the tree, the pointer and the error that Parser describes. */
module DomParser {
  import opened Bytes
  import opened Codec
  import opened Xml
  import opened Parser
  import opened Scanner
  import opened AttributeSpec
  import opened AttributeSet
  import opened Store
  import opened Dom
  import opened Reader
  import opened Cursor
  import opened Stamps

  function TypeOf(kind: Kind): NodeType {
    match kind
    case ElementKind => ElementType
    case CommentKind => CommentType
    case CdataKind => TextType
    case DeclarationKind => DeclarationType
    case UnrecognizedKind => UnknownType
  }

  /** A node that Identify has made. */
  ghost predicate IsNew(node: TiXmlNode, kind: Kind)
    reads *
  {
    node.kind == TypeOf(kind) && node.parent == null && IsForest({node}) && node.HasAttributes() &&
    node.Look() == Info(TypeOf(kind), [], kind == CdataKind, [], [], [], [], [])
  }

  method NewNode(kind: Kind) returns (node: TiXmlNode)
    ensures fresh(node) && fresh(node.attributeSet.Repr()) && IsNew(node, kind)
  {
    hide IsForest, TiXmlAttributeSet.Valid;
    node := new TiXmlNode(TypeOf(kind));
    if kind == CdataKind {
      node.cdata := true;
    }
  }

  /** `TiXmlNode::Identify`: the node to parse into, none if nothing starts here. */
  method Identify(start: Ptr, enc: Encoding) returns (node: TiXmlNode?, ghost kind: Kind)
    ensures node == null <==> Parser.Identify(start, enc) == NoKind
    ensures node != null ==> fresh(node) && fresh(node.attributeSet.Repr())
    ensures node != null ==> Parser.Identify(start, enc) == Is(kind) && IsNew(node, kind)
  {
    hide AfterWhiteSpace, IsNew;
    kind := UnrecognizedKind;
    var p := SkipWhiteSpace(start, enc);
    if !p.Live() || p.s[0] != LT {
      return null, kind;
    }
    var isDeclaration := StringEqualIgnoringCase(p.s, XML_HEADER);
    var isComment := StringEqual(p.s, COMMENT_OPEN);
    var isCdata := StringEqual(p.s, CDATA_OPEN);
    var isDtd := StringEqual(p.s, DTD_HEADER);
    var found := UnrecognizedKind;
    if isDeclaration {
      found := DeclarationKind;
    } else if isComment {
      found := CommentKind;
    } else if isCdata {
      found := CdataKind;
    } else if !isDtd && |p.s| > 1 && IsNameStart(p.s[1]) {
      found := ElementKind;
    }
    kind := found;
    node := NewNode(found);
  }

  /** What Parse leaves of a node: a forest with the node as a root. */
  twostate predicate Built(node: TiXmlNode, new grown: set<TiXmlNode>)
    reads *
  {
    node in grown && fresh(grown - {node}) && node.parent == null && IsForest(grown) && Furnished(grown)
  }

  lemma LeafTree(node: TiXmlNode)
    requires node.kind in {CommentType, UnknownType, TextType, DeclarationType}
    ensures Tree(node, View({node})) == AsNode(node.Look(), [])
  {
  }

  /** `node->Parse` for the nodes that have no children. */
  method ParseLeaf(node: TiXmlNode, ghost kind: Kind, p: Ptr, condense: bool, data: TiXmlParsingData, enc: Encoding,
                   document: TiXmlNode)
    returns (r: Ptr)
    requires IsNew(node, kind) && kind != ElementKind && node != document
    requires Covers(data, p) && RunOf(data, NodeStamps(kind, p, condense, enc, document.error), enc).To?
    modifies node`value, node`version, node`encoding, node`standalone, document`error, data
    ensures To(data.GetMark()) == old(RunOf(data, NodeStamps(kind, p, condense, enc, document.error), enc))
    ensures Built(node, {node})
    ensures Parsed(Tree(node, View({node})), r, document.error) == NodeAt(kind, p, condense, enc, old(document.error))
  {
    hide IsForest, EntriesOf, TiXmlAttributeSet.Valid, CommentAt, CdataAt, DeclarationAt, UnrecognizedAt, Follow;
    hide CommentStamps, CdataStamps, DeclarationStamps, UnrecognizedStamps, ElementStamps;
    match node.kind {
    case CommentType => r := ParseComment(node, p, data, enc, document);
    case TextType => r := ParseCdata(node, p, data, enc, document);
    case DeclarationType => r := ParseDeclaration(node, p, data, enc, document);
    case UnknownType => r := ParseUnknown(node, p, data, enc, document);
    }
    LeafTree(node);
  }

  // ----- elements -----

  lemma ElementTree(element: TiXmlNode, grown: set<TiXmlNode>)
    requires IsForest(grown) && element in grown && element.kind == ElementType
    ensures Tree(element, View(grown))
            == Element(element.value, element.attributeSet.Entries(), Kids(element.children, View(grown)))
  {
    hide IsForest, Tree, Kids;
    TreeOf(element, grown);
  }

  /** `node->Parse`. */
  method ParseNode(node: TiXmlNode, ghost kind: Kind, p: Ptr, condense: bool, data: TiXmlParsingData, enc: Encoding,
                   document: TiXmlNode)
    returns (r: Ptr, ghost grown: set<TiXmlNode>)
    requires IsNew(node, kind) && node != document
    requires Covers(data, p) && RunOf(data, NodeStamps(kind, p, condense, enc, document.error), enc).To?
    modifies node, node.attributeSet.Repr(), document`error, data
    ensures To(data.GetMark()) == old(RunOf(data, NodeStamps(kind, p, condense, enc, document.error), enc))
    ensures Built(node, grown)
    ensures Parsed(Tree(node, View(grown)), r, document.error) == NodeAt(kind, p, condense, enc, old(document.error))
    decreases p.Left(), 3
  {
    hide IsForest, Tree, View, ElementAt, Follow, ElementStamps;
    if node.kind == ElementType {
      r, grown := ParseElement(node, p, condense, data, enc, document);
    } else {
      r := ParseLeaf(node, kind, p, condense, data, enc, document);
      grown := {node};
    }
  }

  /** An element without children, outside of every list. */
  ghost predicate IsBare(element: TiXmlNode)
    reads *
  {
    element.kind == ElementType && element.parent == null && element.children == [] &&
    IsForest({element}) && element.HasAttributes()
  }

  /** Tells the document and leaves the element as it is. */
  method GiveUp(element: TiXmlNode, id: ErrorId, p: Ptr, data: TiXmlParsingData, enc: Encoding, document: TiXmlNode)
    requires IsBare(element) && element != document
    requires Covers(data, p)
    requires RunOf(data, ErrorStamps(document.error, Xml.SetError(document.error, id, p)), enc).To?
    modifies document`error, data
    ensures To(data.GetMark())
            == old(RunOf(data, ErrorStamps(document.error, Xml.SetError(document.error, id, p)), enc))
    ensures document.error == Xml.SetError(old(document.error), id, p)
    ensures Built(element, {element})
    ensures Tree(element, View({element})) == old(Element(element.value, element.attributeSet.Entries(), []))
  {
    hide IsForest, Tree, View, Kids, EntriesOf, TiXmlAttributeSet.Valid, Follow;
    SetErrorAt(document, id, p, data, enc);
    ElementTree(element, {element});
  }

  /** `TiXmlElement::Parse`. */
  method ParseElement(element: TiXmlNode, start: Ptr, condense: bool, data: TiXmlParsingData, enc: Encoding,
                      document: TiXmlNode)
    returns (r: Ptr, ghost grown: set<TiXmlNode>)
    requires IsNew(element, ElementKind) && element != document
    requires Covers(data, start) && RunOf(data, ElementStamps(start, condense, enc, document.error), enc).To?
    modifies element, element.attributeSet.Repr(), document`error, data
    ensures To(data.GetMark()) == old(RunOf(data, ElementStamps(start, condense, enc, document.error), enc))
    ensures Built(element, grown)
    ensures Parsed(Tree(element, View(grown)), r, document.error)
            == ElementAt(start, condense, enc, old(document.error))
    decreases start.Left(), 2
  {
    hide IsForest, Tree, View, Kids, EntriesOf, TiXmlAttributeSet.Valid, AfterWhiteSpace, TagAt, TagStamps, Follow;
    grown := {element};
    var p := SkipWhiteSpace(start, enc);
    if !p.Live() {
      GiveUp(element, ParsingElement, Null, data, enc, document);
      return Null, grown;
    }
    RunSplit(data, PlacesOf(p), OpenStamps(p, condense, enc, document.error), enc);
    StampAt(data, p, enc);
    if p.s[0] != LT {
      GiveUp(element, ParsingElement, p, data, enc, document);
      return Null, grown;
    }
    p := SkipWhiteSpace(At(p.s[1..]), enc);
    var pErr, name := p, [];
    name, p := ReadName(p);
    element.value := name;
    if !p.Live() {
      GiveUp(element, FailedToReadElementName, pErr, data, enc, document);
      return Null, grown;
    }
    r, grown := ParseTag(element, p, condense, data, enc, document);
  }

  /** What `TiXmlElement::Parse` does behind the name. */
  method ParseTag(element: TiXmlNode, start: Ptr, condense: bool, data: TiXmlParsingData, enc: Encoding,
                  document: TiXmlNode)
    returns (r: Ptr, ghost grown: set<TiXmlNode>)
    requires IsBare(element) && element.attributeSet.Entries() == [] && element != document && start.Live()
    requires Covers(data, start) &&
             RunOf(data, TagStamps(element.value, [], start, condense, enc, document.error), enc).To?
    modifies element, element.attributeSet.Repr(), document`error, data
    ensures To(data.GetMark())
            == old(RunOf(data, TagStamps(element.value, [], start, condense, enc, document.error), enc))
    ensures Built(element, grown)
    ensures Parsed(Tree(element, View(grown)), r, document.error)
            == TagAt(old(element.value), [], start, condense, enc, old(document.error))
    decreases start.Left(), 1
  {
    hide IsForest, Tree, View, Kids, EntriesOf;
    hide TiXmlAttributeSet.Valid, AfterWhiteSpace, ContentAt, EndTagAt, AttributeAt;
    hide Follow, AttributeStamps, Xml.SetError, Report, AttrNames, TagAt, TagStamps;
    grown := {element};
    var p := start;
    ghost var goal := TagAt(element.value, [], start, condense, enc, document.error);
    ghost var run := RunOf(data, TagStamps(element.value, [], start, condense, enc, document.error), enc);
    while true
      invariant p.Live() && IsBare(element) && element.value == old(element.value)
      invariant fresh(element.attributeSet.Repr() - old(element.attributeSet.Repr()))
      invariant TagAt(element.value, element.attributeSet.Entries(), p, condense, enc, document.error) == goal
      invariant Covers(data, p)
      invariant RunOf(data, TagStamps(element.value, element.attributeSet.Entries(), p, condense, enc, document.error),
                      enc) == run
      decreases p.Left()
    {
      var pErr := p;
      p := SkipWhiteSpace(p, enc);
      if !p.Live() || p.s[0] == SLASH || p.s[0] == GT {
        r, grown := FinishTag(element, pErr, p, condense, data, enc, document);
        return;
      }
      ghost var attrs, a := element.attributeSet.Entries(), AttributeAt(p, enc);
      TagReadsAttribute(element.value, attrs, pErr, condense, enc, document.error);
      RunSplit(data, AttributeStamps(attrs, p, enc, document.error),
               if IsNewAttribute(a, attrs)
               then TagStamps(element.value, attrs + [a.attr], a.p, condense, enc, document.error) else [], enc);
      var ok, q := ReadAttribute(element.attributeSet, p, data, enc, document);
      if !ok {
        NothingStamped(data, enc);
        ElementTree(element, grown);
        return q.Lost(), grown;
      }
      p := q;
    }
  }

  /** What it does where an attribute starts. */
  lemma TagReadsAttribute(name: bytes, attrs: seq<Attr>, p: Ptr, condense: bool, enc: Encoding, err: Err)
    requires p.Live()
    requires var p0 := AfterWhiteSpace(p, enc); p0.Live() && p0.s[0] != SLASH && p0.s[0] != GT
    ensures var p0 := AfterWhiteSpace(p, enc);
            var a := AttributeAt(p0, enc);
            TagAt(name, attrs, p, condense, enc, err)
            == (if IsNewAttribute(a, attrs) then TagAt(name, attrs + [a.attr], a.p, condense, enc, err)
                else Parsed(Element(name, attrs, []), a.p.Lost(),
                            if a.p.Wild? then err
                            else if !a.p.Live() then Xml.SetError(Report(err, a.fault), ParsingElement, p0)
                            else Xml.SetError(err, ParsingElement, p0)))
    ensures var p0 := AfterWhiteSpace(p, enc);
            var a := AttributeAt(p0, enc);
            TagStamps(name, attrs, p, condense, enc, err)
            == AttributeStamps(attrs, p0, enc, err)
               + if IsNewAttribute(a, attrs) then TagStamps(name, attrs + [a.attr], a.p, condense, enc, err) else []
  {
    hide AfterWhiteSpace, AttributeAt, AttrNames, AttributeStamps;
  }

  /** What it does where no attribute starts; pErr is in front of the white space before p. */
  method FinishTag(element: TiXmlNode, pErr: Ptr, p: Ptr, condense: bool, data: TiXmlParsingData, enc: Encoding,
                   document: TiXmlNode)
    returns (r: Ptr, ghost grown: set<TiXmlNode>)
    requires IsBare(element) && element != document && pErr.Live() && p == AfterWhiteSpace(pErr, enc)
    requires !p.Live() || p.s[0] == SLASH || p.s[0] == GT
    requires Covers(data, pErr)
    requires RunOf(data, TagStamps(element.value, element.attributeSet.Entries(), pErr, condense, enc, document.error),
                   enc).To?
    modifies element, document`error, data
    ensures Built(element, grown)
    ensures Parsed(Tree(element, View(grown)), r, document.error)
            == TagAt(old(element.value), old(element.attributeSet.Entries()), pErr, condense, enc, old(document.error))
    ensures To(data.GetMark())
            == old(RunOf(data, TagStamps(element.value, element.attributeSet.Entries(), pErr, condense, enc,
                                         document.error), enc))
    decreases pErr.Left(), 0
  {
    hide IsForest, Tree, View, Kids, EntriesOf;
    hide TiXmlAttributeSet.Valid, AfterWhiteSpace, ContentAt, EndTagAt, AttributeAt;
    hide Follow, ContentStamps, EndTagStamps, AttributeStamps, ErrorStamps, Xml.SetError;
    grown := {element};
    NothingStamped(data, enc);
    if !p.Live() {
      GiveUp(element, ReadingAttributes, pErr, data, enc, document);
      return Null, grown;
    }
    if p.s[0] == SLASH {
      if |p.s| > 1 && p.s[1] == GT {
        ElementTree(element, grown);
        return At(p.s[2..]), grown;
      }
      GiveUp(element, ParsingEmpty, At(p.s[1..]), data, enc, document);
      return Null, grown;
    }
    r, grown := ParseContent(element, At(p.s[1..]), condense, data, enc, document);
  }

  /** What it does behind the '>' of the start tag. */
  method ParseContent(element: TiXmlNode, start: Ptr, condense: bool, data: TiXmlParsingData, enc: Encoding,
                      document: TiXmlNode)
    returns (r: Ptr, ghost grown: set<TiXmlNode>)
    requires IsBare(element) && element != document && Covers(data, start)
    requires var c := ContentAt([], start, condense, enc, document.error);
             RunOf(data, ContentStamps(start, condense, enc, document.error)
                         + EndTagStamps(element.value, c.p, enc, c.err), enc).To?
    modifies element, document`error, data
    ensures var c := ContentAt([], start, condense, enc, old(document.error));
            To(data.GetMark()) == old(RunOf(data, ContentStamps(start, condense, enc, document.error)
                                                  + EndTagStamps(element.value, c.p, enc, c.err), enc))
    ensures Built(element, grown)
    ensures var c := ContentAt([], start, condense, enc, old(document.error));
            var e := EndTagAt(old(element.value), c.p, enc, c.err);
            Tree(element, View(grown)) == Element(old(element.value), old(element.attributeSet.Entries()), c.kids) &&
            r == e.p && document.error == e.err
    decreases start.Left(), 8
  {
    hide IsForest, Tree, View, Kids, Furnished, EntriesOf, TiXmlAttributeSet.Valid, ContentAt, EndTagAt;
    hide Follow, ContentStamps, EndTagStamps;
    ghost var c := ContentAt([], start, condense, enc, document.error);
    RunSplit(data, ContentStamps(start, condense, enc, document.error),
             EndTagStamps(element.value, c.p, enc, c.err), enc);
    r, grown := ReadValue(element, start, condense, data, enc, document);
    label Read:
    r := ReadEndTag(element.value, r, data, enc, document);
    SourceKept@Read(grown);
    ElementTree(element, grown);
  }

  /** The node is a declaration, and of that encoding, just as the tree is. */
  ghost predicate Declares(node: TiXmlNode, tree: Node)
    reads node`encoding
  {
    (node.kind == DeclarationType <==> tree.Declaration?) && (tree.Declaration? ==> node.encoding == tree.encoding)
  }

  lemma DeclaresItsTree(node: TiXmlNode, forest: set<TiXmlNode>)
    requires node in forest
    ensures Declares(node, Tree(node, View(forest)))
  {
    hide Kids;
  }

  /** Parses into a new node and links it in. */
  method AddChild(parent: TiXmlNode, node: TiXmlNode, ghost kind: Kind, p: Ptr, condense: bool,
                  data: TiXmlParsingData, enc: Encoding, document: TiXmlNode, ghost forest: set<TiXmlNode>)
    returns (r: Ptr, ghost grown: set<TiXmlNode>)
    requires IsNew(node, kind) && node !in forest && node != document
    requires IsForest(forest) && Furnished(forest) && parent in forest
    modifies forest`firstChild, forest`lastChild, forest`children, forest`next, forest`prev, forest`rank, forest`error
    requires Covers(data, p) && RunOf(data, NodeStamps(kind, p, condense, enc, document.error), enc).To?
    modifies node, node.attributeSet.Repr(), document`error, data
    ensures To(data.GetMark()) == old(RunOf(data, NodeStamps(kind, p, condense, enc, document.error), enc))
    ensures IsForest(grown) && Furnished(grown) && forest <= grown && fresh(grown - forest - {node})
    ensures parent.parent == old(parent.parent) && parent.Look() == old(parent.Look()).(children := parent.children)
    ensures var n := NodeAt(kind, p, condense, enc, old(document.error));
            r == n.p && document.error == n.err && Declares(node, n.node) &&
            Kids(parent.children, View(grown)) == Kids(old(parent.children), old(View(forest))) + [n.node]
    decreases p.Left(), 4
  {
    hide IsForest, Tree, View, Kids, Furnished, EntriesOf, TiXmlAttributeSet.Valid, NodeAt, TiXmlNode.Look;
    hide Follow, NodeStamps;
    ghost var sub;
    RingsOutside(node, forest);
    r, sub := ParseNode(node, kind, p, condense, data, enc, document);
    SourceKept(forest);
    DeclaresItsTree(node, sub);
    parent.Adopt(node, forest, sub);
    grown := forest + sub;
  }

  /** Identifies what starts at p, parses it into a new node and links that in. */
  method AddNode(parent: TiXmlNode, p: Ptr, condense: bool, data: TiXmlParsingData, enc: Encoding, document: TiXmlNode,
                 ghost forest: set<TiXmlNode>)
    returns (node: TiXmlNode?, r: Ptr, ghost grown: set<TiXmlNode>)
    requires IsForest(forest) && Furnished(forest) && parent in forest
    requires Covers(data, p) && RunOf(data, MarkupStamps(p, condense, enc, document.error), enc).To?
    modifies forest`firstChild, forest`lastChild, forest`children, forest`next, forest`prev, forest`rank, forest`error
    modifies document`error, data
    ensures To(data.GetMark()) == old(RunOf(data, MarkupStamps(p, condense, enc, document.error), enc))
    ensures IsForest(grown) && Furnished(grown) && forest <= grown && fresh(grown - forest)
    ensures parent.parent == old(parent.parent) && parent.Look() == old(parent.Look()).(children := parent.children)
    ensures node != null <==> Parser.Identify(p, enc) != NoKind
    ensures node != null ==>
              var n := NodeAt(Parser.Identify(p, enc).kind, p, condense, enc, old(document.error));
              r == n.p && document.error == n.err && Declares(node, n.node) &&
              Kids(parent.children, View(grown)) == Kids(old(parent.children), old(View(forest))) + [n.node]
    ensures node == null ==>
              document.error == old(document.error) &&
              Kids(parent.children, View(grown)) == Kids(old(parent.children), old(View(forest)))
    decreases p.Left(), 5
  {
    hide IsForest, Tree, View, Kids, Furnished, EntriesOf, TiXmlAttributeSet.Valid, NodeAt, Parser.Identify;
    hide TiXmlNode.Look, IsNew, Follow, NodeStamps;
    ghost var kind;
    node, kind := Identify(p, enc);
    SourceKept(forest);
    if node == null {
      OwnChildren(parent.Look());
      NothingStamped(data, enc);
      return null, Null, forest;
    }
    r, grown := AddChild(parent, node, kind, p, condense, data, enc, document, forest);
  }

  /** Reads character data into a new node and links it in unless it is blank. */
  method AddText(parent: TiXmlNode, s: bytes, condense: bool, data: TiXmlParsingData, enc: Encoding,
                 ghost forest: set<TiXmlNode>)
    returns (r: Ptr, ghost grown: set<TiXmlNode>)
    requires IsForest(forest) && Furnished(forest) && parent in forest && s != [] && s[0] != LT
    requires Covers(data, At(s)) && RunOf(data, [|s|], enc).To?
    modifies forest`firstChild, forest`lastChild, forest`children, forest`next, forest`prev, forest`rank, forest`error
    modifies data
    ensures To(data.GetMark()) == old(RunOf(data, [|s|], enc))
    ensures IsForest(grown) && Furnished(grown) && forest <= grown && fresh(grown - forest)
    ensures parent.parent == old(parent.parent) && parent.Look() == old(parent.Look()).(children := parent.children)
    ensures parent.error == old(parent.error)
    ensures var t := PlainTextAt(s, condense, enc);
            r == t.p &&
            Kids(parent.children, View(grown)) == WithText(Kids(old(parent.children), old(View(forest))), t.text)
  {
    hide IsForest, Tree, View, Kids, Furnished, EntriesOf, TiXmlAttributeSet.Valid, PlainTextAt, TiXmlNode.Look;
    hide Follow;
    var textNode, blank;
    textNode, r, blank := MakeText(s, condense, data, enc);
    SourceKept(forest);
    grown := forest;
    if blank {
      OwnChildren(parent.Look());
    } else {
      parent.Adopt(textNode, forest, {textNode});
      grown := forest + {textNode};
    }
  }

  /** A new node with the character data at s. */
  method MakeText(s: bytes, condense: bool, data: TiXmlParsingData, enc: Encoding)
    returns (node: TiXmlNode, r: Ptr, blank: bool)
    requires s != [] && s[0] != LT
    requires Covers(data, At(s)) && RunOf(data, [|s|], enc).To?
    modifies data
    ensures To(data.GetMark()) == old(RunOf(data, [|s|], enc))
    ensures fresh(node) && node.kind == TextType && node.parent == null && IsForest({node}) && Furnished({node})
    ensures TextRead(node.value, r) == PlainTextAt(s, condense, enc) && (blank <==> Blank(node.value))
    ensures Tree(node, View({node})) == Text(node.value, false)
  {
    hide IsForest, EntriesOf, TiXmlAttributeSet.Valid, PlainTextAt, Follow;
    node := new TiXmlNode(TextType);
    r := ParseText(node, s, condense, data, enc);
    blank := IsBlank(node.value);
    LeafTree(node);
  }

  // What a round of that loop is, by what starts behind the white space.

  lemma RoundEnds(kids: seq<Node>, p: Ptr, condense: bool, enc: Encoding, err: Err)
    requires var p0 := AfterWhiteSpace(p, enc); !p0.Live() || (p0.s[0] == LT && END_TAG_OPEN <= p0.s)
    ensures var p0 := AfterWhiteSpace(p, enc);
            ContentAt(kids, p, condense, enc, err)
            == Content(kids, p0, if p0.Null? then Xml.SetError(err, ReadingElementValue, Null) else err)
    ensures ContentStamps(p, condense, enc, err) == []
  {
    hide AfterWhiteSpace;
  }

  lemma RoundReadsText(kids: seq<Node>, p: Ptr, condense: bool, enc: Encoding, err: Err)
    requires var p0 := AfterWhiteSpace(p, enc); p0.Live() && p0.s[0] != LT
    ensures var p0 := AfterWhiteSpace(p, enc);
            p.Live() && p.s[0] != LT &&
            var s := if condense then p0.s else p.s;
            var t := PlainTextAt(s, condense, enc);
            |s| <= |p.s| &&
            ContentAt(kids, p, condense, enc, err) == ContentAt(WithText(kids, t.text), t.p, condense, enc, err) &&
            ContentStamps(p, condense, enc, err) == [|s|] + ContentStamps(t.p, condense, enc, err)
  {
    FirstIsNotLt(p, enc);
    hide AfterWhiteSpace, PlainTextAt, WithText;
  }

  lemma RoundReadsNode(kids: seq<Node>, p: Ptr, condense: bool, enc: Encoding, err: Err)
    requires var p0 := AfterWhiteSpace(p, enc); p0.Live() && p0.s[0] == LT && !(END_TAG_OPEN <= p0.s)
    ensures var p0 := AfterWhiteSpace(p, enc);
            ContentAt(kids, p, condense, enc, err)
            == (match Parser.Identify(p0, enc)
                case NoKind => Content(kids, Null, err)
                case Is(kind) =>
                  var n := NodeAt(kind, p0, condense, enc, err);
                  ContentAt(kids + [n.node], n.p, condense, enc, n.err))
    ensures var p0 := AfterWhiteSpace(p, enc);
            ContentStamps(p, condense, enc, err)
            == MarkupStamps(p0, condense, enc, err) + StampsAfter(p0, condense, enc, err)
  {
    hide AfterWhiteSpace, NodeAt, Parser.Identify;
  }

  /** One round of the loop of ReadValue from p, where the white space before the next child starts. */
  method ReadRound(element: TiXmlNode, p: Ptr, condense: bool, data: TiXmlParsingData, enc: Encoding,
                   document: TiXmlNode, ghost forest: set<TiXmlNode>)
    returns (more: bool, r: Ptr, ghost grown: set<TiXmlNode>)
    requires IsForest(forest) && Furnished(forest) && element in forest && document !in forest
    requires Covers(data, p) && RunOf(data, ContentStamps(p, condense, enc, document.error), enc).To?
    modifies forest`firstChild, forest`lastChild, forest`children, forest`next, forest`prev, forest`rank, forest`error
    modifies document`error, data
    ensures old(RunOf(data, ContentStamps(p, condense, enc, document.error), enc))
            == if more then RunOf(data, ContentStamps(r, condense, enc, document.error), enc) else To(data.GetMark())
    ensures IsForest(grown) && Furnished(grown) && forest <= grown && fresh(grown - forest)
    ensures element.parent == old(element.parent)
    ensures element.Look() == old(element.Look()).(children := element.children)
    ensures var kids := Kids(element.children, View(grown));
            ContentAt(Kids(old(element.children), old(View(forest))), p, condense, enc, old(document.error))
            == if more then ContentAt(kids, r, condense, enc, document.error) else Content(kids, r, document.error)
    ensures more ==> r.Left() < p.Left()
    decreases p.Left(), 6
  {
    hide IsForest, Tree, View, Kids, EntriesOf, TiXmlAttributeSet.Valid, NodeAt, AfterWhiteSpace, PlainTextAt;
    hide Follow, NodeStamps, MarkupStamps, ContentAt, ContentStamps, WithText, Furnished, TiXmlNode.Look;
    grown := forest;
    NothingStamped(data, enc);
    ghost var kids, err := Kids(element.children, View(forest)), document.error;
    var p0 := SkipWhiteSpace(p, enc);
    if !p0.Live() {
      RoundEnds(kids, p, condense, enc, err);
      if p0.Null? {
        document.SetError(ReadingElementValue, Null);
      }
      SourceKept(forest);
      return false, p0, grown;
    }
    if p0.s[0] != LT {
      RoundReadsText(kids, p, condense, enc, err);
      SourceKept(forest);
      var s := if condense then p0.s else p.s;
      RunSplit(data, [|s|], ContentStamps(PlainTextAt(s, condense, enc).p, condense, enc, document.error), enc);
      r, grown := AddText(element, s, condense, data, enc, grown);
      return true, r, grown;
    }
    var atEnd := StringEqual(p0.s, END_TAG_OPEN);
    SourceKept(forest);
    if atEnd {
      RoundEnds(kids, p, condense, enc, err);
      return false, p0, grown;
    }
    var node;
    RoundReadsNode(kids, p, condense, enc, err);
    RunSplit(data, MarkupStamps(p0, condense, enc, document.error),
             StampsAfter(p0, condense, enc, document.error), enc);
    node, r, grown := AddNode(element, p0, condense, data, enc, document, grown);
    NothingStamped(data, enc);
    more := node != null;
    if !more {
      r := Null;
    }
  }

  /** `TiXmlElement::ReadValue`. */
  method ReadValue(element: TiXmlNode, start: Ptr, condense: bool, data: TiXmlParsingData, enc: Encoding,
                   document: TiXmlNode)
    returns (r: Ptr, ghost grown: set<TiXmlNode>)
    requires IsBare(element) && element != document
    requires Covers(data, start) && RunOf(data, ContentStamps(start, condense, enc, document.error), enc).To?
    modifies element, document`error, data
    ensures To(data.GetMark()) == old(RunOf(data, ContentStamps(start, condense, enc, document.error), enc))
    ensures Built(element, grown) && element.Look() == old(element.Look()).(children := element.children)
    ensures Content(Kids(element.children, View(grown)), r, document.error)
            == ContentAt([], start, condense, enc, old(document.error))
    decreases start.Left(), 7
  {
    hide IsForest, Tree, View, Kids, ContentAt, TiXmlNode.Look, TiXmlNode.HasAttributes, Follow, ContentStamps;
    grown := {element};
    OwnChildren(element.Look());
    r := start;
    var more := true;
    while more
      invariant Built(element, grown) && element.Look() == old(element.Look()).(children := element.children)
      invariant var kids := Kids(element.children, View(grown));
                ContentAt([], start, condense, enc, old(document.error))
                == if more then ContentAt(kids, r, condense, enc, document.error) else Content(kids, r, document.error)
      invariant r.Left() <= start.Left()
      invariant old(RunOf(data, ContentStamps(start, condense, enc, document.error), enc))
                == if more then RunOf(data, ContentStamps(r, condense, enc, document.error), enc)
                   else To(data.GetMark())
      decreases more, r.Left()
    {
      more, r, grown := ReadRound(element, r, condense, data, enc, document, grown);
    }
  }

  method ReadEndTag(name: bytes, start: Ptr, data: TiXmlParsingData, enc: Encoding, document: TiXmlNode)
    returns (r: Ptr)
    requires Covers(data, start) && RunOf(data, EndTagStamps(name, start, enc, document.error), enc).To?
    modifies document`error, data
    ensures EndRead(r, document.error) == EndTagAt(name, start, enc, old(document.error))
    ensures To(data.GetMark()) == old(RunOf(data, EndTagStamps(name, start, enc, document.error), enc))
  {
    hide AfterWhiteSpace, Follow;
    NothingStamped(data, enc);
    if start.Wild? {
      return start;
    }
    var at := false;
    if start.Live() {
      at := StringEqual(start.s, END_TAG_OPEN + name);
    }
    if !at {
      SetErrorAt(document, ReadingEndTag, start, data, enc);
      return Null;
    }
    var p := SkipWhiteSpace(At(start.s[|END_TAG_OPEN + name|..]), enc);
    if p.Live() && p.s[0] == GT {
      return At(p.s[1..]);
    }
    SetErrorAt(document, ReadingEndTag, p, data, enc);
    r := Null;
  }

  lemma NameIsTaken(attrs: seq<Attr>, name: bytes)
    ensures Lookup(attrs, name) < |attrs| <==> name in AttrNames(attrs)
  {
    var i := Lookup(attrs, name);
    if i < |attrs| {
      assert attrs[i].name in AttrNames(attrs);
    }
  }

  /** A new attribute with what is read at p. */
  method MakeAttribute(p: Ptr, data: TiXmlParsingData, enc: Encoding, document: TiXmlNode)
    returns (attrib: TiXmlAttribute, r: Ptr)
    requires Covers(data, p)
    requires var e := Report(document.error, AttributeAt(p, enc).fault);
             RunOf(data, NameStamps(p, enc) + ErrorStamps(document.error, e), enc).To?
    modifies document`error, data
    ensures fresh(attrib)
    ensures To(data.GetMark())
            == old(RunOf(data, NameStamps(p, enc)
                               + ErrorStamps(document.error, Report(document.error, AttributeAt(p, enc).fault)), enc))
    ensures var a := AttributeAt(p, enc);
            r == a.p && Attr(attrib.name, attrib.value) == a.attr &&
            document.error == Report(old(document.error), a.fault)
  {
    hide AttributeAt, Follow, NameStamps;
    attrib := new TiXmlAttribute();
    var fault;
    ghost var e := Report(document.error, AttributeAt(p, enc).fault);
    RunSplit(data, NameStamps(p, enc), ErrorStamps(document.error, e), enc);
    var pErr;
    r, fault, pErr := ParseAttribute(attrib, p, data, enc);
    NothingStamped(data, enc);
    if fault.Error? {
      SetErrorAt(document, fault.id, pErr, data, enc);
    }
  }

  /** Reads an attribute and links it into the ring, unless it cannot be read, nothing follows it or
      its name is taken. */
  method ReadAttribute(attributeSet: TiXmlAttributeSet, p: Ptr, data: TiXmlParsingData, enc: Encoding,
                       document: TiXmlNode)
    returns (ok: bool, r: Ptr)
    requires attributeSet.Valid()
    requires Covers(data, p) && RunOf(data, AttributeStamps(attributeSet.Entries(), p, enc, document.error), enc).To?
    modifies attributeSet.Repr(), document`error, data
    ensures To(data.GetMark()) == old(RunOf(data, AttributeStamps(attributeSet.Entries(), p, enc, document.error), enc))
    ensures attributeSet.Valid() && attributeSet.owner == old(attributeSet.owner)
    ensures fresh(attributeSet.Repr() - old(attributeSet.Repr()))
    ensures var a := AttributeAt(p, enc);
            var attrs := old(attributeSet.Entries());
            ok == (a.p.Live() && a.attr.name !in AttrNames(attrs)) && r == a.p &&
            attributeSet.Entries() == (if ok then attrs + [a.attr] else attrs) &&
            document.error ==
              if ok || a.p.Wild? then old(document.error)
              else if !a.p.Live() then Xml.SetError(Report(old(document.error), a.fault), ParsingElement, p)
              else Xml.SetError(old(document.error), ParsingElement, p)
  {
    hide AttributeAt, EntriesOf, TiXmlAttributeSet.Valid, Lookup, AttrNames, Follow, NameStamps;
    var attrib;
    AttributeSplit(attributeSet.Entries(), p, data, enc, document.error);
    attrib, r := MakeAttribute(p, data, enc, document);
    NothingStamped(data, enc);
    if r.Wild? {
      return false, r;
    }
    if !r.Live() {
      SetErrorAt(document, ParsingElement, p, data, enc);
      return false, r;
    }
    NameIsTaken(attributeSet.Entries(), attrib.name);
    var found;
    ghost var k;
    found, k := attributeSet.Find(attrib.name);
    if found != null {
      SetErrorAt(document, ParsingElement, p, data, enc);
      return false, r;
    }
    attributeSet.Add(attrib);
    ok := true;
  }

  // ----- documents -----

  /** The encoding a declaration settles. */
  method ReadEncoding(node: TiXmlNode, enc: Encoding, ghost tree: Node) returns (r: Encoding)
    requires Declares(node, tree)
    ensures r == EncodingAfter(enc, tree)
  {
    if enc != Unknown || node.kind != DeclarationType {
      return enc;
    }
    var name := CStr(node.encoding);
    if name == [] {
      return Encoding.Utf8;
    }
    var isUtf8 := StringEqualIgnoringCase(name, UTF_8_NAME);
    if !isUtf8 {
      isUtf8 := StringEqualIgnoringCase(name, UTF8_NAME);
    }
    r := if isUtf8 then Encoding.Utf8 else Legacy;
  }

  /** One round of the loop of `TiXmlDocument::Parse`. */
  method DocumentRound(document: TiXmlNode, p: Ptr, condense: bool, data: TiXmlParsingData, enc: Encoding,
                       ghost forest: set<TiXmlNode>)
    returns (more: bool, r: Ptr, e: Encoding, ghost grown: set<TiXmlNode>)
    requires IsForest(forest) && Furnished(forest) && document in forest && p.Live()
    requires Covers(data, p) && Reaches(data, p, condense, enc, document.error).To?
    modifies forest`firstChild, forest`lastChild, forest`children, forest`next, forest`prev, forest`rank, forest`error
    modifies data
    ensures old(Reaches(data, p, condense, enc, document.error))
            == if more then Reaches(data, r, condense, e, document.error) else To(data.GetMark())
    ensures IsForest(grown) && Furnished(grown) && forest <= grown && fresh(grown - forest)
    ensures document.parent == old(document.parent)
    ensures document.Look() == old(document.Look()).(children := document.children)
    ensures var kids := Kids(document.children, View(grown));
            NodesAt(Kids(old(document.children), old(View(forest))), p, condense, enc, old(document.error))
            == if more then NodesAt(kids, r, condense, e, document.error) else Content(kids, r, document.error)
    ensures more ==> r.Left() < p.Left()
  {
    hide IsForest, Tree, View, Kids, Furnished, EntriesOf, TiXmlAttributeSet.Valid, NodeAt, AfterWhiteSpace;
    hide TiXmlNode.Look, Follow, NodeStamps, EncodingAfter, NodesRun;
    var node;
    ReachesNext(data, p, condense, enc, document.error);
    node, r, grown := AddNode(document, p, condense, data, enc, document, forest);
    if node == null {
      return false, p, enc, grown;
    }
    ghost var n := NodeAt(Parser.Identify(p, enc).kind, p, condense, enc, old(document.error));
    label Read:
    e := ReadEncoding(node, enc, n.node);
    r := SkipWhiteSpace(r, e);
    SourceKept@Read(grown);
    more := true;
  }

  /** The loop of `TiXmlDocument::Parse`. */
  method ReadNodes(document: TiXmlNode, start: Ptr, condense: bool, data: TiXmlParsingData, enc: Encoding,
                   ghost forest: set<TiXmlNode>)
    returns (r: Ptr, ghost grown: set<TiXmlNode>)
    requires IsForest(forest) && Furnished(forest) && document in forest
    requires Covers(data, start) && Reaches(data, start, condense, enc, document.error).To?
    modifies forest`firstChild, forest`lastChild, forest`children, forest`next, forest`prev, forest`rank, forest`error
    modifies data
    ensures To(data.GetMark()) == old(Reaches(data, start, condense, enc, document.error))
    ensures IsForest(grown) && Furnished(grown) && forest <= grown && fresh(grown - forest)
    ensures document.Look() == old(document.Look()).(children := document.children)
    ensures Content(Kids(document.children, View(grown)), r, document.error)
            == NodesAt(Kids(old(document.children), old(View(forest))), start, condense, enc, old(document.error))
  {
    hide IsForest, Tree, View, Kids, Furnished, TiXmlNode.Look, NodesAt, NodesRun;
    grown := forest;
    OwnChildren(document.Look());
    ghost var run := Reaches(data, start, condense, enc, document.error);
    ghost var goal := NodesAt(Kids(document.children, View(grown)), start, condense, enc, document.error);
    r := start;
    var e, more := enc, true;
    while more && r.Live()
      invariant IsForest(grown) && Furnished(grown) && forest <= grown && fresh(grown - forest)
      invariant document.Look() == old(document.Look()).(children := document.children)
      invariant var kids := Kids(document.children, View(grown));
                goal == if more then NodesAt(kids, r, condense, e, document.error) else Content(kids, r, document.error)
      invariant more ==> Covers(data, r)
      invariant run == if more then Reaches(data, r, condense, e, document.error) else To(data.GetMark())
      decreases more, r.Left()
    {
      more, r, e, grown := DocumentRound(document, r, condense, data, e, grown);
    }
    if more {
      NoMoreNodes(Kids(document.children, View(grown)), r, condense, data, e, document.error);
    }
  }

  lemma NoMoreNodes(kids: seq<Node>, p: Ptr, condense: bool, data: TiXmlParsingData, enc: Encoding, err: Err)
    requires !p.Live()
    ensures NodesAt(kids, p, condense, enc, err) == Content(kids, p, err)
    ensures Reaches(data, p, condense, enc, err) == To(data.GetMark())
  {
  }

  /** `TiXmlDocument::Parse`. */
  method ParseDocument(document: TiXmlNode, s: bytes, condense: bool, enc: Encoding, tabsize: int,
                       ghost forest: set<TiXmlNode>)
    returns (r: Ptr, ghost grown: set<TiXmlNode>)
    requires IsForest(forest) && Furnished(forest) && document in forest
    requires DocumentRun(s, condense, enc, tabsize).To?
    modifies forest`firstChild, forest`lastChild, forest`children, forest`next, forest`prev, forest`rank, forest`error
    ensures IsForest(grown) && Furnished(grown) && forest <= grown && fresh(grown - forest)
    ensures document.Look() == old(document.Look()).(children := document.children)
    ensures Content(Kids(document.children, View(grown)), r, document.error)
            == DocumentInto(old(Kids(document.children, View(forest))), s, condense, enc)
  {
    hide IsForest, Tree, View, Kids, Furnished, TiXmlNode.Look, NodesAt;
    if s == [] {
      Complain(document, NoError, DocumentEmpty, forest);
      return Null, forest;
    }
    var e := StartEncoding(s, enc);
    var data;
    r, data := Begin(document, s, e, tabsize, forest);
    r, grown := ReadNodes(document, r, condense, data, e, forest);
    document.FirstChildIs(grown);
    if document.firstChild == null {
      Complain(document, document.error, DocumentEmpty, grown);
      r := Null;
    }
  }

  /** Puts an error behind those there are; the nodes are left alone. */
  method Complain(document: TiXmlNode, err: Err, id: ErrorId, ghost forest: set<TiXmlNode>)
    requires IsForest(forest) && Furnished(forest) && document in forest
    modifies document`error
    ensures IsForest(forest) && Furnished(forest) && View(forest) == old(View(forest))
    ensures document.Look() == old(document.Look()).(children := document.children)
    ensures document.error == Xml.SetError(err, id, Null)
  {
    hide IsForest, Furnished, View, TiXmlNode.Look;
    document.error := err;
    document.SetError(id, Null);
    SourceKept(forest);
    OwnChildren(document.Look());
  }

  /** Clears the error, sets up the cursor and skips the white space in front. */
  method Begin(document: TiXmlNode, s: bytes, enc: Encoding, tabsize: int, ghost forest: set<TiXmlNode>)
    returns (r: Ptr, data: TiXmlParsingData)
    requires IsForest(forest) && Furnished(forest) && document in forest && s != []
    modifies document`error
    ensures IsForest(forest) && Furnished(forest) && View(forest) == old(View(forest))
    ensures document.Look() == old(document.Look()).(children := document.children)
    ensures document.error == NoError && r == At(SkipWs(s, enc))
    ensures fresh(data) && data.text == s && data.tabsize == tabsize && data.GetMark() == Mark(0, 0, 0)
  {
    hide IsForest, Furnished, View, TiXmlNode.Look;
    document.error := NoError;
    data := new TiXmlParsingData(s, tabsize, 0, 0);
    r := SkipWhiteSpace(At(s), enc);
    SourceKept(forest);
    OwnChildren(document.Look());
  }
}
