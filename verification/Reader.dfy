/** The Parse methods of the leaves of the tree, with their loops, into the nodes they fill. Each is
    proved to leave in the node what Parser says is read there. */
module Reader {
  import opened Bytes
  import opened Codec
  import opened Xml
  import opened Parser
  import opened Scanner
  import opened AttributeSet
  import opened Store
  import opened Dom
  import opened Cursor
  import opened Stamps

  // ----- errors -----

  /** `document->SetError` with the cursor of the parse: the place of a first error is stamped. */
  method SetErrorAt(document: TiXmlNode, id: ErrorId, p: Ptr, data: TiXmlParsingData, enc: Encoding)
    requires Covers(data, p)
    requires RunOf(data, ErrorStamps(document.error, Xml.SetError(document.error, id, p)), enc).To?
    modifies document`error, data
    ensures document.error == Xml.SetError(old(document.error), id, p)
    ensures To(data.GetMark())
            == old(RunOf(data, ErrorStamps(document.error, Xml.SetError(document.error, id, p)), enc))
  {
    if document.error.Error? {
      return;
    }
    document.SetError(id, p);
    StampAt(data, p, enc);
  }

  lemma NothingStamped(data: TiXmlParsingData, enc: Encoding)
    ensures RunOf(data, [], enc) == To(data.GetMark())
  {
  }

  // ----- attributes -----

  method ReadBareValue(s: bytes) returns (value: bytes, r: Ptr, fault: Err, pErr: Ptr)
    ensures fault.Error? ==> fault.left == PlaceOf(pErr) && pErr.Left() <= At(s).Left()
    ensures AttrRead(Attr([], value), r, fault) == BareValueAt(s)
  {
    value := [];
    var p := s;
    while p != [] && !IsSpace(p[0]) && p[0] != SLASH && p[0] != GT
      invariant |p| <= |s|
      invariant BareValueAt(s) == BareValueAt(p).(attr := Attr([], value + BareValueAt(p).attr.value))
      decreases |p|
    {
      if p[0] == APOS || p[0] == QUOT {
        return value, Null, Error(ReadingAttributes, Place(|p|)), At(p);
      }
      Assoc(value, [p[0]], BareValueAt(p[1..]).attr.value);
      value := value + [p[0]];
      p := p[1..];
    }
    r, fault, pErr := At(p), NoError, Null;
  }

  /** `TiXmlAttribute::Parse` into an attribute just made. What goes wrong is handed to the caller. */
  method ParseAttribute(attrib: TiXmlAttribute, start: Ptr, data: TiXmlParsingData, enc: Encoding)
    returns (r: Ptr, fault: Err, pErr: Ptr)
    requires attrib.name == [] && attrib.value == []
    requires Covers(data, start) && RunOf(data, NameStamps(start, enc), enc).To?
    modifies attrib`name, attrib`value, data
    ensures AttrRead(Attr(attrib.name, attrib.value), r, fault) == AttributeAt(start, enc)
    ensures fault.Error? ==> fault.left == PlaceOf(pErr) && Covers(data, pErr)
    ensures To(data.GetMark()) == old(RunOf(data, NameStamps(start, enc), enc))
  {
    hide AfterWhiteSpace, NameAt, TextAt, BareValueAt, Follow;
    fault := NoError;
    var p := SkipWhiteSpace(start, enc);
    if !p.Live() {
      NothingStamped(data, enc);
      return Null, NoError, Null;
    }
    StampAt(data, p, enc);
    pErr := p;
    var name;
    name, p := ReadName(p);
    attrib.SetName(name);
    if !p.Live() {
      return Null, Error(ReadingAttributes, PlaceOf(pErr)), pErr;
    }
    p := SkipWhiteSpace(p, enc);
    if !p.Live() || p.s[0] != EQUALS {
      return Null, Error(ReadingAttributes, PlaceOf(p)), p;
    }
    p := SkipWhiteSpace(At(p.s[1..]), enc);
    if !p.Live() {
      return Null, Error(ReadingAttributes, PlaceOf(p)), p;
    }
    var value;
    if p.s[0] == APOS || p.s[0] == QUOT {
      value, r := ReadText(At(p.s[1..]), false, false, [p.s[0]], enc);
    } else {
      value, r, fault, pErr := ReadBareValue(p.s);
    }
    attrib.SetValue(value);
  }

  // ----- leaves -----

  /** The bytes up to a three-byte closing tag, which is read over if it is there. */
  method ReadUpTo(s: bytes, tag: bytes) returns (value: bytes, rest: bytes)
    requires tag != []
    ensures value == s[..FindTag(s, tag)] && rest == s[FindTag(s, tag)..]
  {
    value, rest := [], s;
    ghost var n := 0;
    var at := StringEqual(rest, tag);
    while rest != [] && !at
      invariant n <= |s| && value == s[..n] && rest == s[n..] && FindTag(s, tag) == n + FindTag(rest, tag)
      invariant at <==> tag <= rest
      decreases |rest|
    {
      value := value + [rest[0]];
      rest := rest[1..];
      n := n + 1;
      at := StringEqual(rest, tag);
    }
  }

  method ParseComment(node: TiXmlNode, start: Ptr, data: TiXmlParsingData, enc: Encoding, document: TiXmlNode)
    returns (r: Ptr)
    requires node != document && node.kind == CommentType
    requires Covers(data, start) && RunOf(data, CommentStamps(start, enc, document.error), enc).To?
    modifies node`value, document`error, data
    ensures Parsed(Comment(node.value), r, document.error) == CommentAt(start, enc, old(document.error))
    ensures To(data.GetMark()) == old(RunOf(data, CommentStamps(start, enc, document.error), enc))
  {
    hide AfterWhiteSpace, FindTag, Follow;
    node.value := [];
    var p := SkipWhiteSpace(start, enc);
    RunSplit(data, PlacesOf(p), ErrorStamps(document.error, CommentAt(start, enc, document.error).err), enc);
    StampAt(data, p, enc);
    NothingStamped(data, enc);
    var at := false;
    if p.At? {
      at := StringEqual(p.s, COMMENT_OPEN);
    }
    if !at {
      SetErrorAt(document, ParsingComment, p, data, enc);
      return Null;
    }
    var value, rest := ReadUpTo(p.s[4..], COMMENT_CLOSE);
    node.value := value;
    r := At(if rest != [] then rest[3..] else []);
  }

  /** `TiXmlText::Parse` for a node marked as a CDATA section. */
  method ParseCdata(node: TiXmlNode, start: Ptr, data: TiXmlParsingData, enc: Encoding, document: TiXmlNode)
    returns (r: Ptr)
    requires node != document && node.kind == TextType && node.cdata
    requires Covers(data, start) && RunOf(data, CdataStamps(start, enc, document.error), enc).To?
    modifies node`value, document`error, data
    ensures Parsed(Text(node.value, node.cdata), r, document.error) == CdataAt(start, enc, old(document.error))
    ensures To(data.GetMark()) == old(RunOf(data, CdataStamps(start, enc, document.error), enc))
  {
    hide FindTag, TextAt, Follow;
    node.value := [];
    RunSplit(data, PlacesOf(start), ErrorStamps(document.error, CdataAt(start, enc, document.error).err), enc);
    StampAt(data, start, enc);
    NothingStamped(data, enc);
    var at := false;
    if start.At? {
      at := StringEqual(start.s, CDATA_OPEN);
    }
    if !at {
      SetErrorAt(document, ParsingCdata, start, data, enc);
      return Null;
    }
    var value, rest := ReadUpTo(start.s[9..], CDATA_CLOSE);
    node.value := value;
    var dummy;
    dummy, r := ReadText(At(rest), false, false, CDATA_CLOSE, enc);
  }

  /** `TiXmlText::Parse` for character data. */
  method ParseText(node: TiXmlNode, s: bytes, condense: bool, data: TiXmlParsingData, enc: Encoding) returns (r: Ptr)
    requires node.kind == TextType && s != [] && s[0] != LT
    requires Covers(data, At(s)) && RunOf(data, [|s|], enc).To?
    modifies node`value, data
    ensures TextRead(node.value, r) == PlainTextAt(s, condense, enc)
    ensures To(data.GetMark()) == old(RunOf(data, [|s|], enc))
  {
    hide TextAt, Follow;
    StampAt(data, At(s), enc);
    var value;
    value, r := ReadText(At(s), true, condense, LT_TAG, enc);
    node.value := value;
    if r.Live() {
      TextProgress(s, condense, enc);
      r := At(LT_TAG + r.s);
    } else {
      r := r.Lost();
    }
  }

  method ParseUnknown(node: TiXmlNode, start: Ptr, data: TiXmlParsingData, enc: Encoding, document: TiXmlNode)
    returns (r: Ptr)
    requires node != document && node.kind == UnknownType && node.value == []
    requires Covers(data, start) && RunOf(data, UnrecognizedStamps(start, enc, document.error), enc).To?
    modifies node`value, document`error, data
    ensures Parsed(Unrecognized(node.value), r, document.error) == UnrecognizedAt(start, enc, old(document.error))
    ensures To(data.GetMark()) == old(RunOf(data, UnrecognizedStamps(start, enc, document.error), enc))
  {
    hide AfterWhiteSpace, Follow;
    var p := SkipWhiteSpace(start, enc);
    RunSplit(data, PlacesOf(p), ErrorStamps(document.error, UnrecognizedAt(start, enc, document.error).err), enc);
    StampAt(data, p, enc);
    NothingStamped(data, enc);
    if !p.Live() || p.s[0] != LT {
      SetErrorAt(document, ParsingUnknown, p, data, enc);
      return Null;
    }
    var value, rest := ReadUpToGt(p.s);
    node.value := value;
    r := At(if rest != [] then rest[1..] else []);
  }

  /** The bytes behind the first one, up to a '>'. */
  method ReadUpToGt(s: bytes) returns (value: bytes, rest: bytes)
    requires s != []
    ensures value == s[1..IndexFrom(s, 1, GT)] && rest == s[IndexFrom(s, 1, GT)..]
  {
    value, rest := [], s[1..];
    ghost var i := 1;
    while rest != [] && rest[0] != GT
      invariant 1 <= i <= |s| && value == s[1..i] && rest == s[i..]
      invariant forall j :: 1 <= j < i ==> s[j] != GT
      decreases |rest|
    {
      value := value + [rest[0]];
      rest := rest[1..];
      i := i + 1;
    }
    if rest != [] {
      IndexFromIs(s, 1, GT, i);
    }
  }

  /** `TiXmlText::Blank`. */
  method IsBlank(value: bytes) returns (blank: bool)
    ensures blank <==> Blank(value)
  {
    var i := 0;
    while i < |value|
      invariant i <= |value| && forall j :: 0 <= j < i ==> IsSpace(value[j])
    {
      if !IsSpace(value[i]) {
        return false;
      }
      i := i + 1;
    }
    blank := true;
  }

  // ----- declarations -----

  /** Reads over what is no attribute of a declaration. */
  method SkipJunk(s: bytes) returns (rest: bytes)
    ensures rest == s[JunkLength(s)..]
  {
    rest := s;
    ghost var n := 0;
    while rest != [] && rest[0] != GT && !IsSpace(rest[0])
      invariant n <= |s| && rest == s[n..] && JunkLength(s) == n + JunkLength(rest)
      decreases |rest|
    {
      rest := rest[1..];
      n := n + 1;
    }
  }

  method Starts(p: Ptr, tag: bytes) returns (yes: bool)
    requires tag != []
    ensures yes <==> p.Live() && HasPrefixIgnoringCase(p.s, tag)
  {
    yes := false;
    if p.Live() {
      yes := StringEqualIgnoringCase(p.s, tag);
    }
  }

  /** One attribute of a declaration, or what is read over in place of one. */
  method ReadDeclared(node: TiXmlNode, start: Ptr, data: TiXmlParsingData, enc: Encoding) returns (r: Ptr)
    requires start.Live() && start.s[0] != GT
    requires Covers(data, start) && RunOf(data, DeclarationBodyStamps(start, enc), enc).To?
    modifies node`version, node`encoding, node`standalone, data
    ensures RunOf(data, DeclarationBodyStamps(r, enc), enc) == old(RunOf(data, DeclarationBodyStamps(start, enc), enc))
    ensures DeclRead(Declaration(node.version, node.encoding, node.standalone), r)
            == DeclaredAt(old(Declaration(node.version, node.encoding, node.standalone)), start, enc)
  {
    hide AttributeAt, Follow, SkipWs, NameStamps;
    var p := SkipWhiteSpace(start, enc);
    RunSplit(data, NameStamps(p, enc), DeclarationBodyStamps(AttributeAt(p, enc).p, enc), enc);
    var isVersion := Starts(p, VERSION);
    var isEncoding := Starts(p, ENCODING);
    var isStandalone := Starts(p, STANDALONE);
    if isVersion || isEncoding || isStandalone {
      var attrib := new TiXmlAttribute();
      var fault;
      var pErr;
      r, fault, pErr := ParseAttribute(attrib, p, data, enc);
      if isVersion {
        node.version := CStr(attrib.value);
      } else if isEncoding {
        node.encoding := CStr(attrib.value);
      } else {
        node.standalone := CStr(attrib.value);
      }
    } else {
      var rest := SkipJunk(p.s);
      r := At(rest);
    }
  }

  method ParseDeclaration(node: TiXmlNode, start: Ptr, data: TiXmlParsingData, enc: Encoding, document: TiXmlNode)
    returns (r: Ptr)
    requires node != document && node.kind == DeclarationType
    requires node.version == [] && node.encoding == [] && node.standalone == []
    requires Covers(data, start) && RunOf(data, DeclarationStamps(start, enc), enc).To?
    modifies node`version, node`encoding, node`standalone, document`error, data
    ensures To(data.GetMark()) == old(RunOf(data, DeclarationStamps(start, enc), enc))
    ensures Parsed(Declaration(node.version, node.encoding, node.standalone), r, document.error)
            == DeclarationAt(start, enc, old(document.error))
  {
    hide AttributeAt, Follow, AfterWhiteSpace, DeclaredAt;
    NothingStamped(data, enc);
    var p := SkipWhiteSpace(start, enc);
    var at := Starts(p, XML_HEADER);
    if !at {
      document.SetError(ParsingDeclaration, Null);
      return Null;
    }
    RunSplit(data, PlacesOf(p), DeclarationBodyStamps(At(p.s[5..]), enc), enc);
    StampAt(data, p, enc);
    p := At(p.s[5..]);
    ghost var run := RunOf(data, DeclarationBodyStamps(p, enc), enc);
    ghost var goal := DeclarationBodyAt(Declaration([], [], []), p, enc, document.error);
    while p.Live()
      invariant DeclarationBodyAt(Declaration(node.version, node.encoding, node.standalone), p, enc, document.error)
                == goal
      invariant document.error == old(document.error)
      invariant Covers(data, p) && RunOf(data, DeclarationBodyStamps(p, enc), enc) == run
      decreases p.Left()
    {
      if p.s[0] == GT {
        NothingStamped(data, enc);
        return At(p.s[1..]);
      }
      p := ReadDeclared(node, p, data, enc);
    }
    NothingStamped(data, enc);
    r := p.Lost();
  }
}
