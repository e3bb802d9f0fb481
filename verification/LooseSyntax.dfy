/** What is read of text that no printer writes: unquoted values, white space and case that do not
    matter, and constructs that are never closed. */
module LooseSyntax {
  import opened Bytes
  import opened Codec
  import opened CodecLaws
  import opened Xml
  import opened Parser
  import opened Printer
  import opened LeafRoundTrip
  import opened RoundTrip
  import opened RawText

  // ----- names -----

  predicate Between(c: byte, low: char, high: char) {
    low as int <= c as int <= high as int
  }

  /** Letters, the underscore, and every byte from 127 on. */
  predicate StartsNames(c: byte) {
    Between(c, 'a', 'z') || Between(c, 'A', 'Z') || c as int == '_' as int || c >= 127
  }

  predicate GoesInNames(c: byte) {
    StartsNames(c) || Between(c, '0', '9') ||
    c as int == '-' as int || c as int == '.' as int || c as int == ':' as int
  }

  /** A name is read to its end: up to the first byte that goes in no name, or to the terminator. Where
      no name starts, null is returned. */
  lemma NameIsRead(name: bytes, rest: bytes)
    requires forall i :: 0 <= i < |name| ==> GoesInNames(name[i])
    requires rest != [] ==> !GoesInNames(rest[0])
    ensures NameAt(At(name + rest))
            == if name != [] && StartsNames(name[0]) then NameRead(name, At(rest)) else NameRead([], Null)
  {
    assert forall c: byte :: IsNameByte(c) <==> GoesInNames(c);
    assert forall c: byte :: IsNameStart(c) <==> StartsNames(c);
    if name == [] {
      assert name + rest == rest;
    } else {
      assert (name + rest)[0] == name[0];
      TakeDrop(name, rest);
      LongestName(name, rest);
      hide NameLength;
    }
  }

  lemma {:induction false} LongestName(name: bytes, rest: bytes)
    requires forall i :: 0 <= i < |name| ==> IsNameByte(name[i])
    requires rest != [] ==> !IsNameByte(rest[0])
    ensures NameLength(name + rest) == |name|
  {
    if name == [] {
      assert name + rest == rest;
    } else {
      LongestName(name[1..], rest);
      assert (name + rest)[1..] == name[1..] + rest;
    }
  }

  // ----- white space -----

  predicate IsBlankByte(c: byte) {
    c as int == ' ' as int || Between(c, '\t', '\r')
  }

  /** A text is left out exactly if all its bytes are blanks or bytes from tab to carriage return,
      whether they were written as they are or as references. */
  lemma BlankTextIsLeftOut(kids: seq<Node>, v: bytes)
    ensures WithText(kids, v)
            == if forall i :: 0 <= i < |v| ==> IsBlankByte(v[i]) then kids else kids + [Text(v, false)]
  {
  }

  /** A byte-order mark, or one of the non-characters FFFE and FFFF. */
  predicate IsIgnorable(c: bytes) {
    c == [0xEF, 0xBB, 0xBF] || c == [0xEF, 0xBF, 0xBE] || c == [0xEF, 0xBF, 0xBF]
  }

  predicate IsSkipped(c: bytes, enc: Encoding) {
    (|c| == 1 && IsBlankByte(c[0])) || (enc == Encoding.Utf8 && IsIgnorable(c))
  }

  /** White space is skipped, in UTF-8 the marks too, one after the other. */
  lemma OneIsSkipped(c: bytes, s: bytes, enc: Encoding)
    requires IsSkipped(c, enc)
    ensures SkipWs(c + s, enc) == SkipWs(s, enc)
  {
    TakeDrop(c, s);
    assert (c + s)[0] == c[0];
    assert |c| == 3 ==> IsMark(c + s);
  }

  /** And nothing else is. */
  lemma NothingElseIsSkipped(s: bytes, enc: Encoding)
    requires s != [] ==> !IsSkipped([s[0]], enc)
    requires |s| >= 3 ==> !IsSkipped(s[..3], enc)
    ensures SkipWs(s, enc) == s
  {
    if s != [] {
      assert [s[0]][0] == s[0];
      assert IsMark(s) ==> |s| >= 3 && IsIgnorable(s[..3]);
    }
  }

  // ----- attributes -----

  /** White space around the '=' does not matter. */
  lemma SpacedAttribute(name: bytes, w1: bytes, w2: bytes, value: bytes, enc: Encoding)
    requires GoodName(name, enc) && AllSpace(w1) && AllSpace(w2)
    requires value != [] && AfterWhiteSpace(At(value), enc) == At(value)
    ensures AttributeAt(At(name + (w1 + ([EQUALS] + (w2 + value)))), enc) == ValueAt(name, value, enc)
  {
    var behind := [EQUALS] + (w2 + value);
    var rest := w1 + behind;
    assert rest[0] == if w1 == [] then EQUALS else w1[0];
    NameReadsBack(name, rest, enc);
    SkipWsOverSpaces(w1, behind, enc);
    NothingToSkip(behind, enc);
    TakeDrop([EQUALS], w2 + value);
    SkipWsOverSpaces(w2, value, enc);
    hide SkipWs, NameAt, ValueAt, GoodName;
  }

  /** A byte an unquoted value can hold. */
  predicate IsBare(c: byte) {
    !Between(c, '\t', '\r') && c as int != ' ' as int && c as int != '/' as int && c as int != '>' as int &&
    c as int != '\'' as int && c as int != '"' as int
  }

  predicate AreBare(v: bytes) {
    forall i :: 0 <= i < |v| ==> IsBare(v[i])
  }

  /** An unquoted value runs up to white space, '/', '>' or the terminator; a quote before that is an
      error, at the quote. */
  lemma {:induction false} BareValueIsRead(v: bytes, rest: bytes)
    requires AreBare(v) && (rest != [] ==> !IsBare(rest[0]))
    ensures BareValueAt(v + rest)
            == if rest != [] && (rest[0] == APOS || rest[0] == QUOT)
               then AttrRead(Attr([], v), Null, Error(ReadingAttributes, Place(|rest|)))
               else AttrRead(Attr([], v), At(rest), NoError)
  {
    if v == [] {
      assert v + rest == rest;
    } else {
      BareValueIsRead(v[1..], rest);
      assert (v + rest)[1..] == v[1..] + rest && (v + rest)[0] == v[0];
      assert IsBare(v[0]);
      assert v == [v[0]] + v[1..];
    }
  }

  /** A value that does not start with a mark, which would be skipped. */
  predicate GoodBare(v: bytes, enc: Encoding) {
    v != [] && AreBare(v) && !(enc == Utf8 && IsMark(v))
  }

  lemma MarkIsInside(v: bytes, rest: bytes)
    requires v != [] && IsMark(v + rest) && (rest != [] ==> rest[0] < 0x80)
    ensures IsMark(v)
  {
    var s := v + rest;
    assert s[1] >= 0x80 && s[2] >= 0x80;
    assert rest != [] ==> s[|v|] == rest[0];
    assert s[0] == v[0] && s[1] == v[1] && s[2] == v[2];
  }

  lemma BareIsNotSkipped(v: bytes, rest: bytes, enc: Encoding)
    requires GoodBare(v, enc) && (rest != [] ==> !IsBare(rest[0]))
    ensures AfterWhiteSpace(At(v + rest), enc) == At(v + rest)
  {
    assert IsBare(v[0]) && (v + rest)[0] == v[0];
    assert IsMark(v + rest) ==> IsMark(v) by {
      if IsMark(v + rest) {
        MarkIsInside(v, rest);
      }
    }
  }

  lemma BareAttributeIsRead(name: bytes, w1: bytes, w2: bytes, v: bytes, rest: bytes, enc: Encoding)
    requires GoodName(name, enc) && AllSpace(w1) && AllSpace(w2) && GoodBare(v, enc)
    requires rest != [] ==> !IsBare(rest[0])
    ensures AttributeAt(At(name + (w1 + ([EQUALS] + (w2 + (v + rest))))), enc)
            == if rest != [] && (rest[0] == APOS || rest[0] == QUOT)
               then AttrRead(Attr(name, v), Null, Error(ReadingAttributes, Place(|rest|)))
               else AttrRead(Attr(name, v), At(rest), NoError)
  {
    BareIsNotSkipped(v, rest, enc);
    SpacedAttribute(name, w1, w2, v + rest, enc);
    BareValueIsRead(v, rest);
    assert IsBare(v[0]) && (v + rest)[0] == v[0];
    hide AttributeAt, AfterWhiteSpace, BareValueAt, GoodName;
  }

  /** In a start tag, an attribute without quotes is read like one with them. */
  lemma BareAttributeInTag(tag: bytes, done: seq<Attr>, w: bytes, name: bytes, w1: bytes, w2: bytes, v: bytes,
                           rest: bytes, condense: bool, enc: Encoding, err: Err)
    requires AllSpace(w) && w != [] && AllSpace(w1) && AllSpace(w2)
    requires GoodName(name, enc) && GoodBare(v, enc) && name !in AttrNames(done)
    requires rest != [] && !IsBare(rest[0]) && rest[0] != APOS && rest[0] != QUOT
    ensures TagAt(tag, done, At(w + (name + (w1 + ([EQUALS] + (w2 + (v + rest)))))), condense, enc, err)
            == TagAt(tag, done + [Attr(name, v)], At(rest), condense, enc, err)
  {
    var behind := w1 + ([EQUALS] + (w2 + (v + rest)));
    var s := name + behind;
    BareAttributeIsRead(name, w1, w2, v, rest, enc);
    assert behind[0] == if w1 == [] then EQUALS else w1[0];
    NameReadsBack(name, behind, enc);
    SkipWsOverSpaces(w, s, enc);
    assert s[0] == name[0];
    hide *;
    AttributeRound(tag, done, At(w + s), s, Attr(name, v), rest, condense, enc, err);
  }

  /** "<a b=12/>". */
  lemma BareExample(condense: bool, enc: Encoding, err: Err)
    ensures ElementAt(At([LT, 97] + ([SPACE] + ([98] + ([] + ([EQUALS] + ([] + ([49, 50] + [SLASH, GT]))))))),
                      condense, enc, err)
            == Parsed(Element([97], [Attr([98], [49, 50])], []), At([]), err)
  {
    var attr := [98] + ([] + ([EQUALS] + ([] + ([49, 50] + [SLASH, GT]))));
    assert GoodName([97], enc) && GoodName([98], enc) && GoodBare([49, 50], enc) by {
      assert BOM[0] == NON_CHAR_E[0] == NON_CHAR_F[0] == 0xEF;
    }
    assert [LT, 97] == LT_TAG + [97];
    hide ElementAt, GoodName, GoodBare;
    ElementStarts([97], [SPACE] + attr, condense, enc, err);
    BareAttributeInTag([97], [], [SPACE], [98], [], [], [49, 50], [SLASH, GT], condense, enc, err);
    assert [] + [Attr([98], [49, 50])] == [Attr([98], [49, 50])];
    hide TagAt;
    EmptyTag([97], [Attr([98], [49, 50])], [], [], condense, enc, err);
    assert [SLASH, GT] + [] == [SLASH, GT] && [] + [SLASH, GT] == [SLASH, GT];
  }

  /** An element without content ends at "/>", whatever white space is in front of it. */
  lemma EmptyTag(name: bytes, attrs: seq<Attr>, w: bytes, rest: bytes, condense: bool, enc: Encoding, err: Err)
    requires AllSpace(w)
    ensures TagAt(name, attrs, At(w + ([SLASH, GT] + rest)), condense, enc, err)
            == Parsed(Element(name, attrs, []), At(rest), err)
  {
    var s := [SLASH, GT] + rest;
    SkipWsOverSpaces(w, s, enc);
    NothingToSkip(s, enc);
    assert s[2..] == rest && w + s != [];
    hide SkipWs, AttributeAt, ContentAt;
  }

  /** White space in front of the '>' of an end tag does not matter. */
  lemma SpacedEndTag(name: bytes, w: bytes, rest: bytes, enc: Encoding, err: Err)
    requires AllSpace(w)
    ensures EndTagAt(name, At(END_TAG_OPEN + name + (w + ([GT] + rest))), enc, err) == EndRead(At(rest), err)
  {
    var end := [GT] + rest;
    TakeDrop(END_TAG_OPEN + name, w + end);
    SkipWsOverSpaces(w, end, enc);
    NothingToSkip(end, enc);
    TakeDrop([GT], rest);
    hide SkipWs;
  }

  // ----- declarations -----

  lemma AnyCaseName(field: bytes, name: bytes, rest: bytes, enc: Encoding)
    requires field == VERSION || field == ENCODING || field == STANDALONE
    requires |name| == |field| && forall i :: 0 <= i < |name| ==> ToLower(name[i]) == field[i]
    ensures var s := name + rest;
            GoodName(name, enc) && s != [] && !IsSpace(s[0]) && s[0] < 0x80 &&
            HasPrefixIgnoringCase(s, VERSION) == (field == VERSION) &&
            HasPrefixIgnoringCase(s, ENCODING) == (field == ENCODING) &&
            HasPrefixIgnoringCase(s, STANDALONE) == (field == STANDALONE)
  {
    var s := name + rest;
    assert forall i :: 0 <= i < |name| ==> s[i] == name[i];
    assert forall c: byte :: IsNameByte(ToLower(c)) ==> IsNameByte(c) by {
      assert forall c: byte :: ToLower(c) == c || 65 <= c <= 90;
    }
    assert forall i :: 0 <= i < |field| ==> ToLower(field[i]) == field[i] && IsNameByte(field[i]);
    assert BOM[0] == NON_CHAR_E[0] == NON_CHAR_F[0] == 0xEF && name[0] != 0xEF;
    assert VERSION[0] == 118 && ENCODING[0] == 101 && STANDALONE[0] == 115;
    assert HasPrefixIgnoringCase(s, field);
  }

  lemma QuotedRaw(name: bytes, v: bytes, q: byte, more: bytes, enc: Encoding)
    requires (q == QUOT || q == APOS) && AMP !in v && q !in v && WholeChars(v, enc) && more != []
    ensures ValueAt(name, [q] + (v + ([q] + more)), enc) == AttrRead(Attr(name, v), At(more), NoError)
  {
    var s := v + ([q] + more);
    assert ([q] + s)[1..] == s && ([q] + s)[0] == q;
    hide TextAt;
    RawTextIsKeptIff(v, [q], more, enc);
  }

  lemma AnyCaseRound(decl: Node, field: bytes, all: bytes, s: bytes, a: Attr, rest: Ptr, enc: Encoding, err: Err)
    requires decl.Declaration? && (field == VERSION || field == ENCODING || field == STANDALONE)
    requires all != [] && all[0] != GT && AfterWhiteSpace(At(all), enc) == At(s) && s != [] && CStr(a.value) == a.value
    requires HasPrefixIgnoringCase(s, VERSION) == (field == VERSION)
    requires HasPrefixIgnoringCase(s, ENCODING) == (field == ENCODING)
    requires HasPrefixIgnoringCase(s, STANDALONE) == (field == STANDALONE)
    requires AttributeAt(At(s), enc) == AttrRead(a, rest, NoError)
    ensures DeclarationBodyAt(decl, At(all), enc, err)
            == DeclarationBodyAt(Declared(decl, field, a.value), rest, enc, err)
  {
    WhichDeclared(field, field);
    hide AttributeAt, AfterWhiteSpace, HasPrefixIgnoringCase, CStr;
  }

  /** Anything else in a declaration is read over, up to white space or the '>'. */
  lemma JunkIsReadOver(decl: Node, junk: bytes, more: bytes, enc: Encoding, err: Err)
    requires decl.Declaration? && junk != [] && junk[0] < 0x80
    requires ToLower(junk[0]) != VERSION[0] && ToLower(junk[0]) != ENCODING[0] && ToLower(junk[0]) != STANDALONE[0]
    requires forall i :: 0 <= i < |junk| ==> junk[i] != GT && !IsSpace(junk[i])
    requires more != [] ==> more[0] == GT || IsSpace(more[0])
    ensures DeclarationBodyAt(decl, At(junk + more), enc, err) == DeclarationBodyAt(decl, At(more), enc, err)
  {
    var s := junk + more;
    assert s[0] == junk[0];
    NothingToSkip(s, enc);
    JunkLengthIs(junk, more);
    TakeDrop(junk, more);
    assert !HasPrefixIgnoringCase(s, VERSION) && !HasPrefixIgnoringCase(s, ENCODING)
           && !HasPrefixIgnoringCase(s, STANDALONE) by {
      assert ToLower(VERSION[0]) == VERSION[0] && ToLower(ENCODING[0]) == ENCODING[0]
             && ToLower(STANDALONE[0]) == STANDALONE[0];
    }
    hide AttributeAt, AfterWhiteSpace, HasPrefixIgnoringCase, JunkLength, CStr;
  }

  lemma {:induction false} JunkLengthIs(junk: bytes, more: bytes)
    requires forall i :: 0 <= i < |junk| ==> junk[i] != GT && !IsSpace(junk[i])
    requires more != [] ==> more[0] == GT || IsSpace(more[0])
    ensures JunkLength(junk + more) == |junk|
  {
    if junk == [] {
      assert junk + more == more;
    } else {
      JunkLengthIs(junk[1..], more);
      assert (junk + more)[1..] == junk[1..] + more;
    }
  }

  /** The names of a declaration's values are read in any case, and their values in either quote. */
  lemma DeclaredInAnyCase(decl: Node, field: bytes, name: bytes, w1: bytes, w2: bytes, q: byte, v: bytes, more: bytes,
                          enc: Encoding, err: Err)
    requires decl.Declaration? && (field == VERSION || field == ENCODING || field == STANDALONE)
    requires |name| == |field| && forall i :: 0 <= i < |name| ==> ToLower(name[i]) == field[i]
    requires AllSpace(w1) && AllSpace(w2) && (q == QUOT || q == APOS)
    requires NulFree(v) && AMP !in v && q !in v && WholeChars(v, enc) && more != []
    ensures var value := [q] + (v + ([q] + more));
            DeclarationBodyAt(decl, At([SPACE] + (name + (w1 + ([EQUALS] + (w2 + value))))), enc, err)
            == DeclarationBodyAt(Declared(decl, field, v), At(more), enc, err)
  {
    var value := [q] + (v + ([q] + more));
    var s := name + (w1 + ([EQUALS] + (w2 + value)));
    AnyCaseName(field, name, w1 + ([EQUALS] + (w2 + value)), enc);
    NothingToSkip(value, enc);
    SpacedAttribute(name, w1, w2, value, enc);
    QuotedRaw(name, v, q, more, enc);
    OneSpaceSkipped(s, enc);
    CStrOf(v);
    assert ([SPACE] + s)[0] == SPACE;
    hide *;
    AnyCaseRound(decl, field, [SPACE] + s, s, Attr(name, v), At(more), enc, err);
  }

  predicate HasNoNul(d: Node)
    requires d.Declaration?
  {
    NulFree(d.version) && NulFree(d.encoding) && NulFree(d.standalone)
  }

  /** The values of a declaration are cut at a NUL that a reference stands for. */
  lemma {:induction false} DeclaredHasNoNul(decl: Node, p: Ptr, enc: Encoding, err: Err)
    requires decl.Declaration? && HasNoNul(decl)
    ensures HasNoNul(DeclarationBodyAt(decl, p, enc, err).node)
    decreases p.Left()
  {
    hide AttributeAt, AfterWhiteSpace, HasPrefixIgnoringCase, CStr, JunkLength;
    if p.Live() && p.s[0] != GT {
      var r := DeclaredAt(decl, p, enc);
      DeclaredHasNoNul(r.decl, r.p, enc, err);
    }
  }

  // ----- what starts here -----

  predicate IsLetter(c: byte, lower: char)
    requires 'a' <= lower <= 'z'
  {
    c as int == lower as int || c as int == lower as int - 'a' as int + 'A' as int
  }

  /** Two bytes are taken for each other exactly if they are the same, or one letter in its two cases. */
  lemma SameButForCase(c: byte, d: byte)
    ensures ToLower(c) == ToLower(d)
            <==> c == d || exists l: char :: 'a' <= l <= 'z' && IsLetter(c, l) && IsLetter(d, l)
  {
    if ToLower(c) == ToLower(d) && c != d {
      var l := ToLower(c) as int as char;
      assert 'a' <= l <= 'z' && IsLetter(c, l) && IsLetter(d, l);
    }
  }

  /** "<?xml", in any case of its letters. */
  predicate IsXmlHeader(s: bytes) {
    |s| >= 5 && s[0] as int == '<' as int && s[1] as int == '?' as int &&
    IsLetter(s[2], 'x') && IsLetter(s[3], 'm') && IsLetter(s[4], 'l')
  }

  lemma HeaderIs(s: bytes)
    ensures HasPrefixIgnoringCase(s, XML_HEADER) <==> IsXmlHeader(s)
  {
    assert HasPrefixIgnoringCase(s, XML_HEADER)
           <==> |s| >= 5 && ToLower(s[0]) == 60 && ToLower(s[1]) == 63 && ToLower(s[2]) == 120 && ToLower(s[3]) == 109
                && ToLower(s[4]) == 108;
  }

  predicate Spells(s: bytes, text: string) {
    |s| >= |text| && forall i :: 0 <= i < |text| ==> s[i] as int == text[i] as int
  }

  /** What starts at a '<', by its first bytes. */
  lemma KindIs(s: bytes, enc: Encoding)
    requires s != [] && s[0] == LT
    ensures Identify(At(s), enc)
            == Is(if IsXmlHeader(s) then DeclarationKind
                  else if Spells(s, "<!--") then CommentKind
                  else if Spells(s, "<![CDATA[") then CdataKind
                  else if |s| > 1 && StartsNames(s[1]) then ElementKind
                  else UnrecognizedKind)
  {
    NothingToSkip(s, enc);
    HeaderIs(s);
    SpelledOpenings(s);
    hide HasPrefixIgnoringCase, IsXmlHeader, AfterWhiteSpace;
  }

  lemma SpelledOpenings(s: bytes)
    ensures COMMENT_OPEN <= s <==> Spells(s, "<!--")
    ensures CDATA_OPEN <= s <==> Spells(s, "<![CDATA[")
  {
    assert Spells(s, "<!--") <==> |s| >= 4 && s[0] == 60 && s[1] == 33 && s[2] == 45 && s[3] == 45;
    assert Spells(s, "<![CDATA[")
           <==> |s| >= 9 && s[0] == 60 && s[1] == 33 && s[2] == 91 && s[3] == 67 && s[4] == 68 && s[5] == 65
                && s[6] == 84 && s[7] == 65 && s[8] == 91;
  }

  // ----- constructs that are not closed -----

  lemma {:induction false} NoTag(s: bytes, tag: bytes)
    requires tag != [] && !Occurs(tag, s)
    ensures FindTag(s, tag) == |s|
  {
    if s == [] {
    } else {
      assert s[0..] == s;
      forall i | 0 <= i <= |s[1..]|
        ensures !(tag <= s[1..][i..])
      {
        assert s[1..][i..] == s[i + 1..];
      }
      NoTag(s[1..], tag);
    }
  }

  /** A comment that is not closed is the rest of the text, and no error. */
  lemma UnclosedComment(body: bytes, enc: Encoding, err: Err)
    requires !Occurs(COMMENT_CLOSE, body)
    ensures CommentAt(At(COMMENT_OPEN + body), enc, err) == Parsed(Comment(body), At([]), err)
  {
    CommentRule(body, enc, err);
    NoTag(body, COMMENT_CLOSE);
    assert body[..|body|] == body;
    hide CommentAt, FindTag;
  }

  /** A CDATA section that is not closed is the rest of the text too, but null is returned. */
  lemma UnclosedCdata(body: bytes, enc: Encoding, err: Err)
    requires !Occurs(CDATA_CLOSE, body)
    ensures CdataAt(At(CDATA_OPEN + body), enc, err) == Parsed(Text(body, true), Null, err)
  {
    CdataRule(body, enc, err);
    NoTag(body, CDATA_CLOSE);
    assert body[..|body|] == body;
    hide CdataAt, FindTag;
  }

  /** So is an unknown construct without '>'. */
  lemma UnclosedUnrecognized(body: bytes, enc: Encoding, err: Err)
    requires GT !in body
    ensures UnrecognizedAt(At(LT_TAG + body), enc, err) == Parsed(Unrecognized(body), At([]), err)
  {
    var s := LT_TAG + body;
    NothingToSkip(s, enc);
    assert s[1..] == body;
    assert forall i :: 1 <= i < |s| ==> s[i] == body[i - 1];
    assert IndexFrom(s, 1, GT) == |s|;
    assert s[1..|s|] == body;
    hide AfterWhiteSpace, IndexFrom;
  }

  /** A declaration without '>' holds nothing if none of its values starts, and null is returned. */
  lemma UnclosedDeclaration(junk: bytes, enc: Encoding, err: Err)
    requires junk != [] && junk[0] < 0x80
    requires ToLower(junk[0]) != VERSION[0] && ToLower(junk[0]) != ENCODING[0] && ToLower(junk[0]) != STANDALONE[0]
    requires forall i :: 0 <= i < |junk| ==> junk[i] != GT && !IsSpace(junk[i])
    ensures DeclarationAt(At(XML_HEADER + junk), enc, err) == Parsed(Declaration([], [], []), Null, err)
  {
    DeclarationOpens(junk, enc, err);
    JunkIsReadOver(Declaration([], [], []), junk, [], enc, err);
    assert junk + [] == junk;
    assert DeclarationBodyAt(Declaration([], [], []), At([]), enc, err) == Parsed(Declaration([], [], []), Null, err);
    hide DeclarationBodyAt, DeclarationAt;
  }

  // ----- text that is not ended -----

  /** Raw text without its end tag is kept, but null is returned. */
  lemma UnendedText(v: bytes, tag: bytes, enc: Encoding)
    requires AMP !in v && WholeChars(v, enc) && tag != [] && tag[0] !in v
    ensures TextAt(At(v), false, tag, enc) == TextRead(v, Null)
  {
    assert v + [] == v;
    ScanRaw(v, [], tag, enc);
    assert Scan([], tag, enc) == Scanned([], At([]));
    assert Flatten(Scan([], tag, enc).tokens) == [];
    hide Scan, Flatten;
  }

  /** Text in front of a reference that is refused is kept, and null is returned. */
  lemma TextBeforeRefused(v: bytes, bad: bytes, tag: bytes, enc: Encoding)
    requires AMP !in v && WholeChars(v, enc) && tag != [] && tag[0] !in v
    requires bad != [] && !(tag <= bad) && CharAt(bad, enc) == NoChar
    ensures TextAt(At(v + bad), false, tag, enc) == TextRead(v, Null)
  {
    ScanRaw(v, bad, tag, enc);
    assert Scan(bad, tag, enc) == Scanned([Token([], false)], Null);
    assert Flatten([Token([], false)]) == [] by { assert [Token([], false)][1..] == []; }
    assert v + [] == v;
    hide Scan, Flatten, CharAt;
  }
}
