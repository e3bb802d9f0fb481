/** Printing and reading back attributes, names and leaf nodes. */
module LeafRoundTrip {
  import opened Bytes
  import opened Codec
  import opened CodecLaws
  import opened Xml
  import opened Parser
  import opened Printer

  // ----- names -----

  /** A name that reads back: in UTF-8 it must not start with a byte-order mark, which the parser
      skips as white space. */
  predicate GoodName(name: bytes, enc: Encoding) {
    IsName(name) && !(enc == Utf8 && IsMark(name))
  }

  lemma {:induction false} NameLengthIs(name: bytes, rest: bytes)
    requires forall i :: 0 <= i < |name| ==> IsNameByte(name[i])
    requires rest != [] && !IsNameByte(rest[0])
    ensures NameLength(name + rest) == |name|
  {
    if name == [] {
      assert name + rest == rest;
    } else {
      NameLengthIs(name[1..], rest);
      assert (name + rest)[1..] == name[1..] + rest;
    }
  }

  lemma NameReadsBack(name: bytes, rest: bytes, enc: Encoding)
    requires GoodName(name, enc) && rest != [] && rest[0] < 0x80 && !IsNameByte(rest[0])
    ensures AfterWhiteSpace(At(name + rest), enc) == At(name + rest)
    ensures NameAt(At(name + rest)) == NameRead(name, At(rest))
  {
    var s := name + rest;
    assert s[0] == name[0];
    assert s[|name|] == rest[0];
    if IsMark(s) {
      assert s[1] >= 0x80 && s[2] >= 0x80;
      assert |name| >= 3;
      assert name[1] == s[1] && name[2] == s[2];
    }
    NameLengthIs(name, rest);
    TakeDrop(name, rest);
  }

  lemma {:induction false} NameEscapesToItself(name: bytes)
    requires forall i :: 0 <= i < |name| ==> IsNameByte(name[i])
    ensures Escape(name) == name
  {
    if name == [] {
    } else {
      NameEscapesToItself(name[1..]);
      assert name[0] != AMP;
      assert name == [name[0]] + name[1..];
    }
  }

  lemma {:induction false} CStrOf(s: bytes)
    requires NulFree(s)
    ensures CStr(s) == s
  {
    CStrKeepsExactlyNulFree(s);
  }

  // ----- attributes -----

  predicate GoodAttr(a: Attr, enc: Encoding) {
    GoodName(a.name, enc) && HexFree(a.value) && WholeChars(a.value, enc)
  }

  /** Nothing is skipped in front of an ASCII byte that is not white space. */
  lemma NothingToSkip(s: bytes, enc: Encoding)
    requires s != [] && !IsSpace(s[0]) && s[0] < 0x80
    ensures AfterWhiteSpace(At(s), enc) == At(s)
  {
  }

  lemma QuotedValueReadsBack(name: bytes, v: bytes, quote: byte, rest: bytes, enc: Encoding)
    requires HexFree(v) && WholeChars(v, enc) && rest != []
    requires quote == QUOT || quote == APOS
    ensures ValueAt(name, [quote] + (Escape(v) + ([quote] + rest)), enc)
            == AttrRead(Attr(name, v), At(rest), NoError)
  {
    var value := Escape(v) + ([quote] + rest);
    TakeDrop([quote], value);
    KeptTextReadsBack(v, [quote], rest, enc);
    hide Escape, TextAt;
    assert ([quote] + value)[0] == quote;
  }

  /** A name, '=' and a quoted value are an attribute. */
  lemma AttributeRule(name: bytes, value: bytes, enc: Encoding)
    requires GoodName(name, enc) && value != [] && (value[0] == QUOT || value[0] == APOS)
    ensures AttributeAt(At(name + ([EQUALS] + value)), enc) == ValueAt(name, value, enc)
  {
    var end := [EQUALS] + value;
    NameReadsBack(name, end, enc);
    NothingToSkip(end, enc);
    TakeDrop([EQUALS], value);
    NothingToSkip(value, enc);
    hide AfterWhiteSpace, NameAt, ValueAt;
  }

  lemma AttrPieces(name: bytes, q: byte, v: bytes, rest: bytes)
    ensures name + [EQUALS, q] + v + [q] + rest == name + ([EQUALS] + ([q] + (v + ([q] + rest))))
  {
    assert [EQUALS, q] == [EQUALS] + [q];
    Assoc(name, [EQUALS, q], v);
    Assoc(name, [EQUALS, q] + v, [q]);
    Assoc(name, [EQUALS, q] + v + [q], rest);
    Assoc([EQUALS, q] + v, [q], rest);
    Assoc([EQUALS, q], v, [q] + rest);
    Assoc([EQUALS], [q], v + ([q] + rest));
  }

  /** A printed attribute reads back, name and value, up to what follows it. */
  lemma AttrReadsBack(a: Attr, rest: bytes, enc: Encoding)
    requires GoodAttr(a, enc) && rest != []
    ensures AttributeAt(At(PrintAttr(a) + rest), enc) == AttrRead(a, At(rest), NoError)
  {
    hide Escape, AttributeAt, ValueAt;
    var q := if QUOT in CStr(a.value) then APOS else QUOT;
    NameEscapesToItself(a.name);
    var value := [q] + (Escape(a.value) + ([q] + rest));
    AttrPieces(a.name, q, Escape(a.value), rest);
    QuotedValueReadsBack(a.name, a.value, q, rest, enc);
    AttributeRule(a.name, value, enc);
  }

  // ----- leaves -----

  predicate IsCloser(tag: bytes) {
    |tag| == 3 && tag[0] == tag[1] != tag[2]
  }

  /** The first closing tag behind a text without one is the one put there. */
  lemma {:induction false} FindTagBehind(v: bytes, tag: bytes, rest: bytes)
    requires IsCloser(tag) && !Occurs(tag, v)
    ensures FindTag(v + tag + rest, tag) == |v|
  {
    var s := v + tag + rest;
    if v == [] {
      assert s == tag + rest;
    } else {
      NoTagAhead(v, tag, rest);
      hide Occurs, IsCloser;
      FindTagBehind(v[1..], tag, rest);
      assert s[1..] == v[1..] + tag + rest;
    }
  }

  lemma NoTagAhead(v: bytes, tag: bytes, rest: bytes)
    requires IsCloser(tag) && !Occurs(tag, v) && v != []
    ensures !(tag <= v + tag + rest) && !Occurs(tag, v[1..])
  {
    var s := v + tag + rest;
    assert !(tag <= v) by { assert v[0..] == v; }
    assert forall i :: |v| <= i < |v| + 3 ==> s[i] == tag[i - |v|];
    assert |v| == 1 ==> s[1] == tag[0] && s[2] == tag[1];
    assert |v| == 2 ==> s[2] == tag[0];
    assert |v| > 2 ==> s[..3] == v[..3];
    forall i | 0 <= i <= |v[1..]|
      ensures !(tag <= v[1..][i..])
    {
      assert v[1..][i..] == v[i + 1..];
    }
  }

  lemma {:induction false} FindTagBy(s: bytes, tag: bytes, i: nat)
    requires i <= |s| && tag <= s[i..]
    ensures FindTag(s, tag) <= i
    decreases i
  {
    if i == 0 {
      assert s[0..] == s;
    } else {
      assert s[1..][i - 1..] == s[i..];
      FindTagBy(s[1..], tag, i - 1);
    }
  }

  /** If the text has a closing tag of its own, that one is found first. */
  lemma FindTagInside(v: bytes, tag: bytes, rest: bytes)
    requires tag != [] && Occurs(tag, v)
    ensures FindTag(v + rest, tag) < |v|
  {
    hide FindTag;
    var i :| 0 <= i <= |v| && tag <= v[i..];
    assert (v + rest)[i..] == v[i..] + rest;
    FindTagBy(v + rest, tag, i);
  }

  predicate GoodComment(v: bytes) {
    NulFree(v) && !Occurs(COMMENT_CLOSE, v)
  }

  predicate GoodCdata(v: bytes) {
    NulFree(v) && !Occurs(CDATA_CLOSE, v)
  }

  lemma PrintedComment(v: bytes, rest: bytes)
    requires NulFree(v)
    ensures PrintLeaf(Comment(v)) + rest == COMMENT_OPEN + (v + COMMENT_CLOSE + rest)
  {
    CStrOf(v);
  }

  lemma CommentRule(body: bytes, enc: Encoding, err: Err)
    ensures var n := FindTag(body, COMMENT_CLOSE);
            CommentAt(At(COMMENT_OPEN + body), enc, err)
            == Parsed(Comment(body[..n]), At(PastCloser(body, n)), err)
  {
    TakeDrop(COMMENT_OPEN, body);
    NothingToSkip(COMMENT_OPEN + body, enc);
  }

  /** A printed comment reads back exactly when it holds no "-->". */
  lemma CommentReadsBackIff(v: bytes, rest: bytes, enc: Encoding, err: Err)
    requires NulFree(v)
    ensures CommentAt(At(PrintLeaf(Comment(v)) + rest), enc, err) == Parsed(Comment(v), At(rest), err)
            <==> GoodComment(v)
  {
    var body := v + COMMENT_CLOSE + rest;
    assert IsCloser(COMMENT_CLOSE);
    assert PastCloser(body, |v|) == rest;
    assert GoodComment(v) <==> !Occurs(COMMENT_CLOSE, v);
    hide *;
    PrintedComment(v, rest);
    CommentRule(body, enc, err);
    if Occurs(COMMENT_CLOSE, v) {
      FindTagInside(v, COMMENT_CLOSE, COMMENT_CLOSE + rest);
      Assoc(v, COMMENT_CLOSE, rest);
    } else {
      FindTagBehind(v, COMMENT_CLOSE, rest);
      assert body[..|v|] == v;
    }
  }

  /** Where reading a CDATA section ends: null when nothing follows it. */
  function BehindCdata(rest: bytes): Ptr {
    if rest == [] then Null else At(rest)
  }

  lemma AtItsTag(end: bytes, tag: bytes, enc: Encoding)
    requires tag != [] && tag <= end
    ensures TextAt(At(end), false, tag, enc).p == AfterTag(At(end), tag)
  {
  }

  lemma PrintedCdata(v: bytes, rest: bytes)
    requires NulFree(v)
    ensures PrintLeaf(Text(v, true)) + rest == CDATA_OPEN + (v + CDATA_CLOSE + rest)
  {
    CStrOf(v);
  }

  lemma CdataOpens(body: bytes, enc: Encoding, err: Err)
    ensures var n := FindTag(body, CDATA_CLOSE);
            CdataAt(At(CDATA_OPEN + body), enc, err)
            == Parsed(Text(body[..n], true), TextAt(At(body[n..]), false, CDATA_CLOSE, enc).p, err)
  {
    TakeDrop(CDATA_OPEN, body);
    hide TextAt, FindTag;
  }

  lemma CdataRule(body: bytes, enc: Encoding, err: Err)
    ensures var n := FindTag(body, CDATA_CLOSE);
            CdataAt(At(CDATA_OPEN + body), enc, err)
            == Parsed(Text(body[..n], true), BehindCdata(PastCloser(body, n)), err)
  {
    var n := FindTag(body, CDATA_CLOSE);
    var end := body[n..];
    CdataOpens(body, enc, err);
    assert |CDATA_CLOSE| == 3;
    if n < |body| {
      AtItsTag(end, CDATA_CLOSE, enc);
      assert end[3..] == PastCloser(body, n);
    }
    hide CdataAt, FindTag;
  }

  /** A printed CDATA section reads back exactly when it holds no "]]>". */
  lemma CdataReadsBackIff(v: bytes, rest: bytes, enc: Encoding, err: Err)
    requires NulFree(v)
    ensures CdataAt(At(PrintLeaf(Text(v, true)) + rest), enc, err)
            == Parsed(Text(v, true), BehindCdata(rest), err)
            <==> GoodCdata(v)
  {
    var body := v + CDATA_CLOSE + rest;
    assert IsCloser(CDATA_CLOSE);
    assert PastCloser(body, |v|) == rest;
    assert GoodCdata(v) <==> !Occurs(CDATA_CLOSE, v);
    hide *;
    PrintedCdata(v, rest);
    CdataRule(body, enc, err);
    if Occurs(CDATA_CLOSE, v) {
      FindTagInside(v, CDATA_CLOSE, CDATA_CLOSE + rest);
      Assoc(v, CDATA_CLOSE, rest);
    } else {
      FindTagBehind(v, CDATA_CLOSE, rest);
      assert body[..|v|] == v;
    }
  }

  predicate GoodUnrecognized(v: bytes) {
    NulFree(v) && GT !in v &&
    !HasPrefixIgnoringCase(LT_TAG + v, XML_HEADER) &&
    !(COMMENT_OPEN <= LT_TAG + v) && !(CDATA_OPEN <= LT_TAG + v) &&
    (v != [] ==> !IsNameStart(v[0]))
  }

  /** A '>' behind t cannot complete a header that holds none. */
  lemma HeaderStopsAtGt(header: bytes, t: bytes, rest: bytes)
    requires forall i :: 0 <= i < |header| ==> ToLower(header[i]) != GT
    ensures HasPrefixIgnoringCase(t + ([GT] + rest), header) ==> HasPrefixIgnoringCase(t, header)
    ensures header <= t + ([GT] + rest) ==> header <= t
  {
    var s := t + ([GT] + rest);
    assert forall i :: 0 <= i < |t| ==> s[i] == t[i];
    assert s[|t|] == GT && ToLower(GT) == GT;
  }

  lemma UnrecognizedKindReadsBack(v: bytes, rest: bytes, enc: Encoding)
    requires GoodUnrecognized(v)
    ensures Identify(At(LT_TAG + v + ([GT] + rest)), enc) == Is(UnrecognizedKind)
  {
    var t := LT_TAG + v;
    var s := t + ([GT] + rest);
    HeaderStopsAtGt(XML_HEADER, t, rest);
    HeaderStopsAtGt(COMMENT_OPEN, t, rest);
    HeaderStopsAtGt(CDATA_OPEN, t, rest);
    NothingToSkip(s, enc);
    assert s[1] == if v == [] then GT else v[0];
  }

  /** A construct the library does not interpret is recognized as such and reads back. */
  lemma UnrecognizedReadsBack(v: bytes, rest: bytes, enc: Encoding, err: Err)
    requires GoodUnrecognized(v)
    ensures var s := PrintLeaf(Unrecognized(v)) + rest;
            Identify(At(s), enc) == Is(UnrecognizedKind) &&
            UnrecognizedAt(At(s), enc, err) == Parsed(Unrecognized(v), At(rest), err)
  {
    CStrOf(v);
    UnrecognizedKindReadsBack(v, rest, enc);
    hide Identify, CStr, GoodUnrecognized, UnrecognizedAt;
    Assoc(LT_TAG + v, [GT], rest);
    UnrecognizedRule(v, rest, enc, err);
  }

  lemma UnrecognizedRule(v: bytes, rest: bytes, enc: Encoding, err: Err)
    requires GT !in v
    ensures UnrecognizedAt(At(LT_TAG + v + ([GT] + rest)), enc, err) == Parsed(Unrecognized(v), At(rest), err)
  {
    var t := LT_TAG + v;
    var s := t + ([GT] + rest);
    NothingToSkip(s, enc);
    hide AfterWhiteSpace;
    TakeDrop(t, [GT] + rest);
    TakeDrop([GT], rest);
    assert forall j :: 1 <= j < |t| ==> s[j] == v[j - 1];
    IndexFromIs(s, 1, GT, |t|);
    assert t[1..] == v && s[1..|t|] == s[..|t|][1..];
    assert s[|t| + 1..] == s[|t|..][1..];
  }

  // ----- declarations -----

  /** A value Declaration::Print writes and the parser reads unchanged; neither end escapes it. */
  predicate GoodDeclared(v: bytes, enc: Encoding) {
    NulFree(v) && AMP !in v && QUOT !in v && WholeChars(v, enc)
  }

  predicate GoodDeclaration(d: Node, enc: Encoding)
    requires d.Declaration?
  {
    GoodDeclared(d.version, enc) && GoodDeclared(d.encoding, enc) && GoodDeclared(d.standalone, enc)
  }

  lemma RawChar(v: bytes, end: bytes, enc: Encoding)
    requires v != [] && v[0] != AMP && WholeChars(v, enc)
    ensures var n := Step(v[0], enc);
            n <= |v| && (v + end)[0] == v[0] && CharAt(v + end, enc) == Char(v[..n], v[n..] + end)
  {
    var n := Step(v[0], enc);
    assert v == v[..n] + v[n..];
    Assoc(v[..n], v[n..], end);
    TakeDrop(v[..n], v[n..] + end);
    assert (v + end)[0] == v[0];
    assert n == 1 ==> v[..1] == [v[0]];
    hide EntityAt, WholeChars;
  }

  lemma FlattenCons(t: Token, ts: seq<Token>)
    ensures Flatten([t] + ts) == t.val + Flatten(ts)
  {
    assert ([t] + ts)[1..] == ts;
  }

  /** Text without '&' is scanned as it stands. */
  lemma {:induction false} ScanRaw(v: bytes, end: bytes, tag: bytes, enc: Encoding)
    requires AMP !in v && WholeChars(v, enc) && tag != [] && tag[0] !in v
    ensures var r := Scan(v + end, tag, enc);
            var more := Scan(end, tag, enc);
            r.p == more.p && Flatten(r.tokens) == v + Flatten(more.tokens)
    decreases |v|
  {
    var s := v + end;
    if v == [] {
      assert s == end;
      NothingInFront(Flatten(Scan(end, tag, enc).tokens));
    } else {
      var n := Step(v[0], enc);
      ScanRaw(v[n..], end, tag, enc);
      var t := Token(v[..n], IsSpace(v[0]));
      RawChar(v, end, enc);
      ScanCons(s, t.val, v[n..] + end, tag, enc);
      hide CharAt, Scan;
      FlattenCons(t, Scan(v[n..] + end, tag, enc).tokens);
      hide Flatten;
      Assoc(v[..n], v[n..], Flatten(Scan(end, tag, enc).tokens));
      assert v == v[..n] + v[n..];
    }
  }

  lemma RawValueReadsBack(name: bytes, v: bytes, rest: bytes, enc: Encoding)
    requires AMP !in v && QUOT !in v && WholeChars(v, enc) && rest != []
    ensures ValueAt(name, [QUOT] + (v + ([QUOT] + rest)), enc) == AttrRead(Attr(name, v), At(rest), NoError)
  {
    var end := [QUOT] + rest;
    TakeDrop([QUOT], v + end);
    TakeDrop([QUOT], rest);
    ScanRaw(v, end, [QUOT], enc);
    assert Scan(end, [QUOT], enc) == Scanned([], At(end));
    assert v + [] == v;
    hide Scan, Flatten;
  }

  lemma DeclaredAttribute(name: bytes, v: bytes, more: bytes, enc: Encoding)
    requires GoodName(name, enc) && GoodDeclared(v, enc)
    ensures AttributeAt(At(name + [EQUALS, QUOT] + v + VALUE_CLOSE + more), enc)
            == AttrRead(Attr(name, v), At([SPACE] + more), NoError)
  {
    var value := [QUOT] + (v + ([QUOT] + ([SPACE] + more)));
    assert name + [EQUALS, QUOT] + v + VALUE_CLOSE + more == name + ([EQUALS] + value);
    AttributeRule(name, value, enc);
    RawValueReadsBack(name, v, [SPACE] + more, enc);
    hide *;
  }

  lemma OneSpaceSkipped(s: bytes, enc: Encoding)
    requires s != [] && !IsSpace(s[0]) && s[0] < 0x80
    ensures AfterWhiteSpace(At([SPACE] + s), enc) == At(s)
  {
    assert ([SPACE] + s)[1..] == s;
    NothingToSkip(s, enc);
    assert SkipWs([SPACE] + s, enc) == SkipWs(s, enc);
  }

  /** The declaration with one of its three values read, chosen by the first letters of s. */
  function Declared(decl: Node, s: bytes, v: bytes): Node
    requires decl.Declaration?
  {
    if HasPrefixIgnoringCase(s, VERSION) then decl.(version := v)
    else if HasPrefixIgnoringCase(s, ENCODING) then decl.(encoding := v)
    else decl.(standalone := v)
  }

  lemma DeclaredReadsBack(decl: Node, name: bytes, v: bytes, more: bytes, enc: Encoding, err: Err)
    requires decl.Declaration? && GoodDeclared(v, enc)
    requires name == VERSION || name == ENCODING || name == STANDALONE
    ensures var s := PrintDeclared(name + [EQUALS, QUOT], v) + more;
            v != [] ==>
              DeclarationBodyAt(decl, At([SPACE] + s), enc, err)
              == DeclarationBodyAt(Declared(decl, name, v), At([SPACE] + more), enc, err)
  {
    if v != [] {
      var s := name + [EQUALS, QUOT] + v + VALUE_CLOSE + more;
      assert forall i :: 0 <= i < |name| ==> s[i] == name[i];
      assert GoodName(name, enc) by {
        assert BOM[0] == 0xEF && NON_CHAR_E[0] == 0xEF && NON_CHAR_F[0] == 0xEF;
        assert name[0] != 0xEF;
      }
      DeclaredAttribute(name, v, more, enc);
      CStrOf(v);
      hide AttributeAt, DeclarationBodyAt, Declared, CStr, HasPrefixIgnoringCase, IsMark;
      DeclarationStep(decl, name, v, s, [SPACE] + more, enc, err);
    }
  }

  lemma WhichDeclared(name: bytes, s: bytes)
    requires name == VERSION || name == ENCODING || name == STANDALONE
    requires name <= s
    ensures HasPrefixIgnoringCase(s, VERSION) == HasPrefixIgnoringCase(name, VERSION) == (name == VERSION)
    ensures HasPrefixIgnoringCase(s, ENCODING) == HasPrefixIgnoringCase(name, ENCODING) == (name == ENCODING)
    ensures HasPrefixIgnoringCase(s, STANDALONE) == HasPrefixIgnoringCase(name, STANDALONE) == (name == STANDALONE)
  {
    assert s[0] == name[0];
    assert ToLower(VERSION[0]) == 118 && ToLower(ENCODING[0]) == 101 && ToLower(STANDALONE[0]) == 115;
    assert HasPrefixIgnoringCase(name, name) && HasPrefixIgnoringCase(s, name);
  }

  /** One round of the declaration loop that reads an attribute. */
  lemma DeclarationRound(decl: Node, p: Ptr, s: bytes, name: bytes, v: bytes, rest: Ptr, enc: Encoding, err: Err)
    requires decl.Declaration? && CStr(v) == v && p.Live() && p.s[0] != GT
    requires name == VERSION || name == ENCODING || name == STANDALONE
    requires AfterWhiteSpace(p, enc) == At(s) && s != [] && name <= s
    requires AttributeAt(At(s), enc) == AttrRead(Attr(name, v), rest, NoError)
    ensures DeclarationBodyAt(decl, p, enc, err) == DeclarationBodyAt(Declared(decl, name, v), rest, enc, err)
  {
    WhichDeclared(name, s);
    hide AttributeAt, AfterWhiteSpace, HasPrefixIgnoringCase, CStr;
  }

  lemma DeclarationStep(decl: Node, name: bytes, v: bytes, s: bytes, rest: bytes, enc: Encoding, err: Err)
    requires decl.Declaration? && CStr(v) == v
    requires name == VERSION || name == ENCODING || name == STANDALONE
    requires name <= s && AttributeAt(At(s), enc) == AttrRead(Attr(name, v), At(rest), NoError)
    ensures DeclarationBodyAt(decl, At([SPACE] + s), enc, err)
            == DeclarationBodyAt(Declared(decl, name, v), At(rest), enc, err)
  {
    assert s[0] == name[0];
    OneSpaceSkipped(s, enc);
    assert ([SPACE] + s)[0] == SPACE;
    hide *;
    DeclarationRound(decl, At([SPACE] + s), s, name, v, At(rest), enc, err);
  }

  lemma DeclarationEnds(decl: Node, rest: bytes, enc: Encoding, err: Err)
    requires decl.Declaration?
    ensures DeclarationBodyAt(decl, At([SPACE] + (DECLARATION_CLOSE + rest)), enc, err) == Parsed(decl, At(rest), err)
  {
    var s := DECLARATION_CLOSE + rest;
    OneSpaceSkipped(s, enc);
    assert s[0] == QMARK && s[1] == GT && s[1..][0] == GT;
    assert ToLower(QMARK) == QMARK;
    assert !HasPrefixIgnoringCase(s, VERSION) by { assert ToLower(VERSION[0]) != QMARK; }
    assert !HasPrefixIgnoringCase(s, ENCODING) by { assert ToLower(ENCODING[0]) != QMARK; }
    assert !HasPrefixIgnoringCase(s, STANDALONE) by { assert ToLower(STANDALONE[0]) != QMARK; }
    assert JunkLength(s[1..]) == 0 && JunkLength(s) == 1;
    assert ([SPACE] + s)[0] == SPACE;
    assert s[1..][1..] == rest;
    hide AttributeAt, AfterWhiteSpace, HasPrefixIgnoringCase, JunkLength;
  }

  lemma DeclarationOpens(body: bytes, enc: Encoding, err: Err)
    ensures var s := XML_HEADER + body;
            Identify(At(s), enc) == Is(DeclarationKind) &&
            DeclarationAt(At(s), enc, err) == DeclarationBodyAt(Declaration([], [], []), At(body), enc, err)
  {
    var s := XML_HEADER + body;
    NothingToSkip(s, enc);
    TakeDrop(XML_HEADER, body);
    assert HasPrefixIgnoringCase(s, XML_HEADER);
    hide DeclarationBodyAt;
  }

  lemma PrintedDeclaration(d: Node, rest: bytes)
    requires d.Declaration?
    ensures PrintLeaf(d) + rest ==
            XML_HEADER + ([SPACE] + (PrintDeclared(VERSION_OPEN, d.version)
              + (PrintDeclared(ENCODING_OPEN, d.encoding)
                 + (PrintDeclared(STANDALONE_OPEN, d.standalone) + (DECLARATION_CLOSE + rest)))))
  {
    hide PrintDeclared;
    DeclarationPieces(XML_HEADER, PrintDeclared(VERSION_OPEN, d.version), PrintDeclared(ENCODING_OPEN, d.encoding),
                      PrintDeclared(STANDALONE_OPEN, d.standalone), DECLARATION_CLOSE, rest);
  }

  lemma DeclarationPieces(h: bytes, a: bytes, b: bytes, c: bytes, e: bytes, rest: bytes)
    ensures h + [SPACE] + a + b + c + e + rest == h + ([SPACE] + (a + (b + (c + (e + rest)))))
  {
    var x := h + [SPACE];
    Assoc(x + a + b + c, e, rest);
    Assoc(x + a + b, c, e + rest);
    Assoc(x + a, b, c + (e + rest));
    Assoc(x, a, b + (c + (e + rest)));
    Assoc(h, [SPACE], a + (b + (c + (e + rest))));
  }

  /** A printed declaration reads back: each value present is read, each absent one stays empty. */
  lemma DeclarationReadsBack(d: Node, rest: bytes, enc: Encoding, err: Err)
    requires d.Declaration? && GoodDeclaration(d, enc)
    ensures var s := PrintLeaf(d) + rest;
            Identify(At(s), enc) == Is(DeclarationKind) &&
            DeclarationAt(At(s), enc, err) == Parsed(d, At(rest), err)
  {
    var r3 := DECLARATION_CLOSE + rest;
    var r2 := PrintDeclared(STANDALONE_OPEN, d.standalone) + r3;
    var r1 := PrintDeclared(ENCODING_OPEN, d.encoding) + r2;
    var r0 := PrintDeclared(VERSION_OPEN, d.version) + r1;
    PrintedDeclaration(d, rest);
    DeclarationOpens([SPACE] + r0, enc, err);
    var d0 := Declaration([], [], []);
    var d1 := d0.(version := d.version);
    var d2 := d1.(encoding := d.encoding);
    assert HasPrefixIgnoringCase(VERSION, VERSION);
    assert !HasPrefixIgnoringCase(ENCODING, VERSION) && HasPrefixIgnoringCase(ENCODING, ENCODING) by {
      assert ToLower(ENCODING[0]) != ToLower(VERSION[0]);
    }
    assert !HasPrefixIgnoringCase(STANDALONE, VERSION) && !HasPrefixIgnoringCase(STANDALONE, ENCODING) by {
      assert ToLower(STANDALONE[0]) != ToLower(VERSION[0]) && ToLower(STANDALONE[0]) != ToLower(ENCODING[0]);
    }
    assert d.version == [] ==> [] + r1 == r1;
    assert d.encoding == [] ==> [] + r2 == r2;
    assert d.standalone == [] ==> [] + r3 == r3;
    DeclaredReadsBack(d0, VERSION, d.version, r1, enc, err);
    DeclaredReadsBack(d1, ENCODING, d.encoding, r2, enc, err);
    DeclaredReadsBack(d2, STANDALONE, d.standalone, r3, enc, err);
    DeclarationEnds(d, rest, enc, err);
    hide DeclarationBodyAt, DeclarationAt, Identify, HasPrefixIgnoringCase, PrintLeaf;
  }

  // ----- what kind of node starts here -----

  lemma MarkupKinds(rest: bytes, enc: Encoding)
    ensures Identify(At(COMMENT_OPEN + rest), enc) == Is(CommentKind)
    ensures Identify(At(CDATA_OPEN + rest), enc) == Is(CdataKind)
  {
    var s, t := COMMENT_OPEN + rest, CDATA_OPEN + rest;
    NothingToSkip(s, enc);
    NothingToSkip(t, enc);
    TakeDrop(COMMENT_OPEN, rest);
    TakeDrop(CDATA_OPEN, rest);
    assert s[1] == BANG && t[1] == BANG && t[2] == OPEN_BRACKET;
    assert ToLower(BANG) != ToLower(XML_HEADER[1]);
    assert COMMENT_OPEN[2] != OPEN_BRACKET;
  }

  lemma ElementKindOf(name: bytes, rest: bytes, enc: Encoding)
    requires IsName(name)
    ensures Identify(At(LT_TAG + name + rest), enc) == Is(ElementKind)
  {
    var s := LT_TAG + name + rest;
    NothingToSkip(s, enc);
    assert s[1] == name[0];
    assert ToLower(name[0]) != ToLower(XML_HEADER[1]);
    assert COMMENT_OPEN[1] == BANG && CDATA_OPEN[1] == BANG && DTD_HEADER[1] == BANG;
  }
}
