/** What the Parse functions compute: for the bytes ahead of the pointer, the node read, where the
    pointer ends up, and the document's error state. Each loop of the source is a recursive
    function here. The methods that build the tree are in DomParser. */
module Parser {
  import opened Bytes
  import opened Codec
  import opened Xml

  const LT_TAG: bytes := [LT]
  const END_TAG_OPEN: bytes := [LT, SLASH]
  const XML_HEADER: bytes := [LT, QMARK, 120, 109, 108]
  const COMMENT_OPEN: bytes := [LT, BANG, DASH, DASH]
  const COMMENT_CLOSE: bytes := [DASH, DASH, GT]
  const DTD_HEADER: bytes := [LT, BANG]
  const CDATA_OPEN: bytes := [LT, BANG, OPEN_BRACKET, 67, 68, 65, 84, 65, OPEN_BRACKET]
  const CDATA_CLOSE: bytes := [CLOSE_BRACKET, CLOSE_BRACKET, GT]
  const VERSION: bytes := [118, 101, 114, 115, 105, 111, 110]
  const ENCODING: bytes := [101, 110, 99, 111, 100, 105, 110, 103]
  const STANDALONE: bytes := [115, 116, 97, 110, 100, 97, 108, 111, 110, 101]
  const UTF_8_NAME: bytes := [85, 84, 70, 45, 56]
  const UTF8_NAME: bytes := [85, 84, 70, 56]

  // ----- names and attributes -----

  function NameLength(s: bytes): (n: nat)
    ensures n <= |s|
    ensures n < |s| ==> !IsNameByte(s[n])
    ensures forall i :: 0 <= i < n ==> IsNameByte(s[i])
  {
    if s == [] || !IsNameByte(s[0]) then 0 else 1 + NameLength(s[1..])
  }

  /** A name ReadName can read back whole. */
  predicate IsName(s: bytes) {
    s != [] && IsNameStart(s[0]) && forall i :: 0 <= i < |s| ==> IsNameByte(s[i])
  }

  datatype NameRead = NameRead(name: bytes, p: Ptr)

  /** `ReadName`: null where no name starts. */
  function NameAt(p: Ptr): (r: NameRead)
    ensures r.p.Left() <= p.Left()
    ensures r.p.At? ==> p.At? && IsName(r.name) && p.s == r.name + r.p.s
    ensures r.p.Null? ==> r.name == []
  {
    if p.Live() && IsNameStart(p.s[0])
    then NameRead(p.s[..NameLength(p.s)], At(p.s[NameLength(p.s)..]))
    else NameRead([], Null)
  }

  datatype AttrRead = AttrRead(attr: Attr, p: Ptr, fault: Err)

  predicate EndsBareValue(c: byte) {
    IsSpace(c) || c == SLASH || c == GT
  }

  /** An unquoted attribute value; a quote in it is an error. */
  function BareValueAt(s: bytes): (r: AttrRead)
    ensures r.p.Left() <= At(s).Left()
    ensures r.p.At? <==> r.fault == NoError
    ensures !r.p.Wild?
  {
    if s == [] || EndsBareValue(s[0]) then AttrRead(Attr([], []), At(s), NoError)
    else if s[0] == APOS || s[0] == QUOT
    then AttrRead(Attr([], []), Null, Error(ReadingAttributes, Place(|s|)))
    else
      var r := BareValueAt(s[1..]);
      r.(attr := Attr([], [s[0]] + r.attr.value))
  }

  function ValueAt(name: bytes, s: bytes, enc: Encoding): (r: AttrRead)
    requires s != []
    ensures r.p.Left() <= At(s).Left()
    ensures r.attr.name == name
    ensures !r.p.Null? ==> r.fault == NoError
  {
    if s[0] == APOS || s[0] == QUOT then
      var r := TextAt(At(s[1..]), false, [s[0]], enc);
      AttrRead(Attr(name, r.text), r.p, NoError)
    else
      var r := BareValueAt(s);
      r.(attr := Attr(name, r.attr.value))
  }

  /** `TiXmlAttribute::Parse`; fault is what it reports to its document, if it has one. */
  function AttributeAt(p: Ptr, enc: Encoding): (r: AttrRead)
    ensures r.p.At? ==> r.p.Left() < p.Left()
    ensures r.p.At? ==> IsName(r.attr.name)
    ensures !r.p.Null? ==> r.fault == NoError
  {
    var p0 := AfterWhiteSpace(p, enc);
    if !p0.Live() then AttrRead(Attr([], []), Null, NoError)
    else
      var nm := NameAt(p0);
      if !nm.p.Live() then AttrRead(Attr(nm.name, []), Null, SetError(NoError, ReadingAttributes, p0))
      else
        var p1 := AfterWhiteSpace(nm.p, enc);
        if !p1.Live() || p1.s[0] != EQUALS
        then AttrRead(Attr(nm.name, []), Null, SetError(NoError, ReadingAttributes, p1))
        else
          var p2 := AfterWhiteSpace(At(p1.s[1..]), enc);
          if !p2.Live()
          then AttrRead(Attr(nm.name, []), Null, SetError(NoError, ReadingAttributes, p2))
          else ValueAt(nm.name, p2.s, enc)
  }

  function Report(err: Err, fault: Err): Err {
    if err.Error? then err else fault
  }

  // ----- leaves -----

  datatype Parsed = Parsed(node: Node, p: Ptr, err: Err)

  /** Index of the first tag in s, |s| when there is none. */
  function FindTag(s: bytes, tag: bytes): (n: nat)
    ensures n <= |s|
    ensures n < |s| ==> tag <= s[n..]
  {
    if s == [] || tag <= s then 0 else 1 + FindTag(s[1..], tag)
  }

  /** Behind the three-byte closing tag found at n; the terminator when none was found. */
  function PastCloser(body: bytes, n: nat): (r: bytes)
    requires n == |body| || n + 3 <= |body|
    ensures |r| <= |body|
  {
    if n < |body| then body[n + 3..] else []
  }

  /** `TiXmlComment::Parse`. Without a "-->" it ends at the terminator and is no error. */
  function CommentAt(p: Ptr, enc: Encoding, err: Err): (r: Parsed)
    ensures r.p.At? ==> r.p.Left() < p.Left()
  {
    var p0 := AfterWhiteSpace(p, enc);
    if !p0.Live() || !(COMMENT_OPEN <= p0.s)
    then Parsed(Comment([]), Null, SetError(err, ParsingComment, p0))
    else
      var body := p0.s[4..];
      var n := FindTag(body, COMMENT_CLOSE);
      Parsed(Comment(body[..n]), At(PastCloser(body, n)), err)
  }

  /** `TiXmlText::Parse` for a CDATA section: ends past the "]]>" if a byte is left there. */
  function CdataAt(p: Ptr, enc: Encoding, err: Err): (r: Parsed)
    ensures r.p.At? ==> r.p.Left() < p.Left()
  {
    if !p.Live() || !(CDATA_OPEN <= p.s)
    then Parsed(Text([], true), Null, SetError(err, ParsingCdata, p))
    else
      var body := p.s[9..];
      var n := FindTag(body, CDATA_CLOSE);
      Parsed(Text(body[..n], true), TextAt(At(body[n..]), false, CDATA_CLOSE, enc).p, err)
  }

  /** `TiXmlText::Parse` for character data: the '<' that ends it is put back. */
  function PlainTextAt(s: bytes, condense: bool, enc: Encoding): (r: TextRead)
    requires s != [] && s[0] != LT
    ensures r.p.Live() ==> r.p.s[0] == LT
    ensures r.p.Left() < At(s).Left()
  {
    var r := TextAt(At(s), condense, LT_TAG, enc);
    if r.p.Live() then
      TextProgress(s, condense, enc);
      TextRead(r.text, At(LT_TAG + r.p.s))
    else TextRead(r.text, r.p.Lost())
  }

  /** Character data that does not start at its end tag takes at least one byte. */
  lemma TextProgress(s: bytes, condense: bool, enc: Encoding)
    requires s != [] && s[0] != LT
    ensures var r := TextAt(At(s), condense, LT_TAG, enc);
            r.p.Live() ==> |r.p.s| + 1 < |s|
  {
    if condense {
      var from := AfterWhiteSpace(At(s), enc);
      if from.s == s {
        ScanProgress(s, enc);
      }
    } else {
      ScanProgress(s, enc);
    }
  }

  lemma ScanProgress(s: bytes, enc: Encoding)
    requires s != [] && s[0] != LT
    ensures Scan(s, LT_TAG, enc).p.Left() < At(s).Left()
  {
  }

  /** `TiXmlUnknown::Parse`. */
  function UnrecognizedAt(p: Ptr, enc: Encoding, err: Err): (r: Parsed)
    ensures r.p.At? ==> r.p.Left() < p.Left()
  {
    var p0 := AfterWhiteSpace(p, enc);
    if !p0.Live() || p0.s[0] != LT
    then Parsed(Unrecognized([]), Null, SetError(err, ParsingUnknown, p0))
    else
      var n := IndexFrom(p0.s, 1, GT);
      Parsed(Unrecognized(p0.s[1..n]), At(if n < |p0.s| then p0.s[n + 1..] else []), err)
  }

  /** Bytes read over in a declaration when no attribute is recognized. */
  function JunkLength(s: bytes): (n: nat)
    ensures n <= |s|
    ensures n == 0 ==> s == [] || s[0] == GT || IsSpace(s[0])
  {
    if s == [] || s[0] == GT || IsSpace(s[0]) then 0 else 1 + JunkLength(s[1..])
  }

  datatype DeclRead = DeclRead(decl: Node, p: Ptr)

  /** One round of the loop of `TiXmlDeclaration::Parse`. */
  function DeclaredAt(decl: Node, p: Ptr, enc: Encoding): (r: DeclRead)
    requires decl.Declaration? && p.Live() && p.s[0] != GT
    ensures r.decl.Declaration? && r.p.Left() < p.Left()
  {
    var p0 := AfterWhiteSpace(p, enc);
    var a := AttributeAt(p0, enc);
    if p0.Live() && HasPrefixIgnoringCase(p0.s, VERSION)
    then DeclRead(decl.(version := CStr(a.attr.value)), a.p)
    else if p0.Live() && HasPrefixIgnoringCase(p0.s, ENCODING)
    then DeclRead(decl.(encoding := CStr(a.attr.value)), a.p)
    else if p0.Live() && HasPrefixIgnoringCase(p0.s, STANDALONE)
    then DeclRead(decl.(standalone := CStr(a.attr.value)), a.p)
    else DeclRead(decl, At(p0.s[JunkLength(p0.s)..]))
  }

  /** The loop from p, with what it has read so far. */
  function DeclarationBodyAt(decl: Node, p: Ptr, enc: Encoding, err: Err): (r: Parsed)
    requires decl.Declaration?
    ensures r.p.Left() <= p.Left() && r.node.Declaration? && r.err == err
    decreases p.Left()
  {
    if !p.Live() then Parsed(decl, p.Lost(), err)
    else if p.s[0] == GT then Parsed(decl, At(p.s[1..]), err)
    else
      var r := DeclaredAt(decl, p, enc);
      DeclarationBodyAt(r.decl, r.p, enc, err)
  }

  /** `TiXmlDeclaration::Parse`. */
  function DeclarationAt(p: Ptr, enc: Encoding, err: Err): (r: Parsed)
    ensures r.p.At? ==> r.p.Left() < p.Left()
    ensures r.node.Declaration?
  {
    var p0 := AfterWhiteSpace(p, enc);
    var blank := Declaration([], [], []);
    if !p0.Live() || !HasPrefixIgnoringCase(p0.s, XML_HEADER)
    then Parsed(blank, Null, SetError(err, ParsingDeclaration, Null))
    else DeclarationBodyAt(blank, At(p0.s[5..]), enc, err)
  }

  // ----- elements -----

  datatype Kind = ElementKind | CommentKind | CdataKind | DeclarationKind | UnrecognizedKind

  datatype KindRead = NoKind | Is(kind: Kind)

  /** `TiXmlNode::Identify`: what starts at p. */
  function Identify(p: Ptr, enc: Encoding): KindRead {
    var p0 := AfterWhiteSpace(p, enc);
    if !p0.Live() || p0.s[0] != LT then NoKind
    else if HasPrefixIgnoringCase(p0.s, XML_HEADER) then Is(DeclarationKind)
    else if COMMENT_OPEN <= p0.s then Is(CommentKind)
    else if CDATA_OPEN <= p0.s then Is(CdataKind)
    else if DTD_HEADER <= p0.s then Is(UnrecognizedKind)
    else if |p0.s| > 1 && IsNameStart(p0.s[1]) then Is(ElementKind)
    else Is(UnrecognizedKind)
  }

  /** `node->Parse` for a node Identify has just created. */
  function NodeAt(kind: Kind, p: Ptr, condense: bool, enc: Encoding, err: Err): (r: Parsed)
    ensures r.p.At? ==> r.p.Left() < p.Left()
    decreases p.Left(), 3
  {
    match kind
    case ElementKind => ElementAt(p, condense, enc, err)
    case CommentKind => CommentAt(p, enc, err)
    case CdataKind => CdataAt(p, enc, err)
    case DeclarationKind => DeclarationAt(p, enc, err)
    case UnrecognizedKind => UnrecognizedAt(p, enc, err)
  }

  /** `TiXmlElement::Parse`. */
  function ElementAt(p: Ptr, condense: bool, enc: Encoding, err: Err): (r: Parsed)
    ensures r.p.At? ==> r.p.Left() < p.Left()
    ensures r.node.Element?
    decreases p.Left(), 2
  {
    var blank := Element([], [], []);
    var p0 := AfterWhiteSpace(p, enc);
    if !p0.Live() then Parsed(blank, Null, SetError(err, ParsingElement, Null))
    else if p0.s[0] != LT then Parsed(blank, Null, SetError(err, ParsingElement, p0))
    else
      var p1 := AfterWhiteSpace(At(p0.s[1..]), enc);
      var nm := NameAt(p1);
      if !nm.p.Live()
      then Parsed(Element(nm.name, [], []), Null, SetError(err, FailedToReadElementName, p1))
      else TagAt(nm.name, [], nm.p, condense, enc, err)
  }

  /** The attribute loop of `TiXmlElement::Parse` from p, with the attributes read so far; it ends
      with the tag or, behind the content, with the end tag. */
  function TagAt(name: bytes, attrs: seq<Attr>, p: Ptr, condense: bool, enc: Encoding, err: Err): (r: Parsed)
    requires p.Live()
    ensures r.p.At? ==> r.p.Left() < p.Left()
    ensures r.node.Element?
    decreases p.Left(), 1
  {
    var p0 := AfterWhiteSpace(p, enc);
    var open := Element(name, attrs, []);
    if !p0.Live() then Parsed(open, Null, SetError(err, ReadingAttributes, p))
    else if p0.s[0] == SLASH then
      if |p0.s| > 1 && p0.s[1] == GT then Parsed(open, At(p0.s[2..]), err)
      else Parsed(open, Null, SetError(err, ParsingEmpty, At(p0.s[1..])))
    else if p0.s[0] == GT then
      var c := ContentAt([], At(p0.s[1..]), condense, enc, err);
      var e := EndTagAt(name, c.p, enc, c.err);
      Parsed(open.(children := c.kids), e.p, e.err)
    else
      var a := AttributeAt(p0, enc);
      if a.p.Wild? then Parsed(open, Wild, err)
      else if !a.p.Live() then Parsed(open, Null, SetError(Report(err, a.fault), ParsingElement, p0))
      else if a.attr.name in AttrNames(attrs)
      then Parsed(open, Null, SetError(err, ParsingElement, p0))
      else TagAt(name, attrs + [a.attr], a.p, condense, enc, err)
  }

  datatype EndRead = EndRead(p: Ptr, err: Err)

  /** The end tag that has to follow the content. */
  function EndTagAt(name: bytes, p: Ptr, enc: Encoding, err: Err): (r: EndRead)
    ensures r.p.At? ==> r.p.Left() < p.Left()
  {
    var tag := END_TAG_OPEN + name;
    if p.Wild? then EndRead(Wild, err)
    else if !p.Live() || !(tag <= p.s) then EndRead(Null, SetError(err, ReadingEndTag, p))
    else
      var p0 := AfterWhiteSpace(At(p.s[|tag|..]), enc);
      if p0.Live() && p0.s[0] == GT then EndRead(At(p0.s[1..]), err)
      else EndRead(Null, SetError(err, ReadingEndTag, p0))
  }

  datatype Content = Content(kids: seq<Node>, p: Ptr, err: Err)

  function WithText(kids: seq<Node>, text: bytes): seq<Node> {
    if Blank(text) then kids else kids + [Text(text, false)]
  }

  /** The loop of `TiXmlElement::ReadValue` from p, where the white space before the next child
      starts, with the children linked so far. */
  function ContentAt(kids: seq<Node>, p: Ptr, condense: bool, enc: Encoding, err: Err): (r: Content)
    ensures r.p.Left() <= p.Left()
    ensures r.p.Live() ==> END_TAG_OPEN <= r.p.s
    decreases p.Left(), 4
  {
    var p0 := AfterWhiteSpace(p, enc);
    if p0.Wild? then Content(kids, Wild, err)
    else if p0.Null? then Content(kids, Null, SetError(err, ReadingElementValue, Null))
    else if p0.s == [] then Content(kids, p0, err)
    else if p0.s[0] != LT then
      FirstIsNotLt(p, enc);
      var t := PlainTextAt(if condense then p0.s else p.s, condense, enc);
      ContentAt(WithText(kids, t.text), t.p, condense, enc, err)
    else if END_TAG_OPEN <= p0.s then Content(kids, p0, err)
    else
      match Identify(p0, enc)
      case NoKind => Content(kids, Null, err)
      case Is(kind) =>
        var n := NodeAt(kind, p0, condense, enc, err);
        ContentAt(kids + [n.node], n.p, condense, enc, n.err)
  }

  lemma FirstIsNotLt(p: Ptr, enc: Encoding)
    requires p.Live() && AfterWhiteSpace(p, enc).Live() && AfterWhiteSpace(p, enc).s[0] != LT
    ensures p.s[0] != LT
  {
  }

  // ----- documents -----

  /** The encoding after a node was read at document level. */
  function EncodingAfter(enc: Encoding, node: Node): Encoding {
    if enc != Unknown || !node.Declaration? then enc
    else
      var name := CStr(node.encoding);
      if name == [] || HasPrefixIgnoringCase(name, UTF_8_NAME) || HasPrefixIgnoringCase(name, UTF8_NAME)
      then Utf8
      else Legacy
  }

  /** The loop of `TiXmlDocument::Parse`. */
  function NodesAt(kids: seq<Node>, p: Ptr, condense: bool, enc: Encoding, err: Err): Content
    decreases p.Left()
  {
    if !p.Live() then Content(kids, p, err)
    else
      match Identify(p, enc)
      case NoKind => Content(kids, p, err)
      case Is(kind) =>
        var n := NodeAt(kind, p, condense, enc, err);
        var enc' := EncodingAfter(enc, n.node);
        NodesAt(kids + [n.node], AfterWhiteSpace(n.p, enc'), condense, enc', n.err)
  }

  /** A byte-order mark in front settles an unknown encoding. */
  function StartEncoding(s: bytes, enc: Encoding): Encoding {
    if enc == Unknown && BOM <= s then Utf8 else enc
  }

  /** `TiXmlDocument::Parse`, for the text of a C string, into a document that has children already. */
  function DocumentInto(kids: seq<Node>, s: bytes, condense: bool, enc: Encoding): Content {
    if s == [] then Content(kids, Null, Error(DocumentEmpty, Nowhere))
    else
      var enc0 := StartEncoding(s, enc);
      var r := NodesAt(kids, At(SkipWs(s, enc0)), condense, enc0, NoError);
      if r.kids == [] then r.(p := Null, err := SetError(r.err, DocumentEmpty, Null)) else r
  }

  /** The same, into an empty document. */
  function DocumentAt(s: bytes, condense: bool, enc: Encoding): Content {
    DocumentInto([], s, condense, enc)
  }
}
