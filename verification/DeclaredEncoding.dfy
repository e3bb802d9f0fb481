/** Which encoding the nodes of a document are read in. */
module DeclaredEncoding {
  import opened Bytes
  import Utf8
  import opened Codec
  import opened CodecLaws
  import opened Xml
  import opened Parser
  import opened Printer
  import opened LeafRoundTrip
  import opened RoundTrip
  import opened References
  import opened LooseSyntax

  // ----- the name of the encoding -----

  /** No name, or one that starts with "UTF-8" or "UTF8", in any case of its letters. */
  predicate NamesUtf8(e: bytes) {
    e == [] ||
    (|e| >= 4 && IsLetter(e[0], 'u') && IsLetter(e[1], 't') && IsLetter(e[2], 'f') &&
     (e[3] as int == '8' as int || (|e| >= 5 && e[3] as int == '-' as int && e[4] as int == '8' as int)))
  }

  lemma NameDecides(e: bytes)
    ensures NamesUtf8(e) <==> e == [] || HasPrefixIgnoringCase(e, UTF_8_NAME) || HasPrefixIgnoringCase(e, UTF8_NAME)
  {
    if |e| >= 4 {
      assert HasPrefixIgnoringCase(e, UTF8_NAME)
             <==> ToLower(e[0]) == 117 && ToLower(e[1]) == 116 && ToLower(e[2]) == 102 && ToLower(e[3]) == 56;
      if |e| >= 5 {
        assert HasPrefixIgnoringCase(e, UTF_8_NAME)
               <==> ToLower(e[0]) == 117 && ToLower(e[1]) == 116 && ToLower(e[2]) == 102 && ToLower(e[3]) == 45
                    && ToLower(e[4]) == 56;
      }
    }
  }

  /** "utf-8" and "UTF8" name UTF-8; "ISO-8859-1" and "UTF-16" do not. */
  lemma SomeNames()
    ensures NamesUtf8([]) && NamesUtf8([117, 116, 102, 45, 56]) && NamesUtf8([85, 84, 70, 56])
    ensures !NamesUtf8([73, 83, 79, 45, 56, 56, 53, 57, 45, 49]) && !NamesUtf8([85, 84, 70, 45, 49, 54])
  {
  }

  function Named(e: bytes): Encoding {
    if NamesUtf8(e) then Encoding.Utf8 else Legacy
  }

  // ----- documents -----

  /** What is read does not depend on what was read before. */
  lemma {:induction false} NodesAppend(kids: seq<Node>, p: Ptr, condense: bool, enc: Encoding, err: Err)
    ensures var r, alone := NodesAt(kids, p, condense, enc, err), NodesAt([], p, condense, enc, err);
            r == Content(kids + alone.kids, alone.p, alone.err)
    decreases p.Left()
  {
    if p.Live() && Identify(p, enc).Is? {
      var n := NodeAt(Identify(p, enc).kind, p, condense, enc, err);
      var enc' := EncodingAfter(enc, n.node);
      var q := AfterWhiteSpace(n.p, enc');
      hide NodeAt, Identify, AfterWhiteSpace, EncodingAfter;
      NodesAppend(kids + [n.node], q, condense, enc', n.err);
      NodesAppend([n.node], q, condense, enc', n.err);
      NothingInFront([n.node]);
      Assoc(kids, [n.node], NodesAt([], q, condense, enc', n.err).kids);
    } else {
      assert kids + [] == kids;
    }
  }

  lemma DocumentRest(d: Node, rest: bytes, condense: bool, enc: Encoding)
    requires d.Declaration? && GoodDeclaration(d, enc)
    ensures var s := PrintLeaf(d) + rest;
            var enc' := EncodingAfter(enc, d);
            var alone := NodesAt([], AfterWhiteSpace(At(rest), enc'), condense, enc', NoError);
            DocumentAt(s, condense, enc) == Content([d] + alone.kids, alone.p, alone.err)
  {
    hide PrintLeaf, DeclarationAt, Identify, EncodingAfter, NodesAt, GoodDeclaration, SkipWs, StartEncoding,
      AfterWhiteSpace;
    var s := PrintLeaf(d) + rest;
    DeclarationStarts(d, rest, enc);
    DeclarationReadsBack(d, rest, enc, NoError);
    var enc' := EncodingAfter(enc, d);
    NodesAppend([d], AfterWhiteSpace(At(rest), enc'), condense, enc', NoError);
    FirstIsDeclaration(s, d, rest, condense, enc);
  }

  lemma FirstIsDeclaration(s: bytes, d: Node, rest: bytes, condense: bool, enc: Encoding)
    requires s != [] && Identify(At(s), enc) == Is(DeclarationKind)
    requires DeclarationAt(At(s), enc, NoError) == Parsed(d, At(rest), NoError)
    ensures var enc' := EncodingAfter(enc, d);
            NodesAt([], At(s), condense, enc, NoError)
            == NodesAt([d], AfterWhiteSpace(At(rest), enc'), condense, enc', NoError)
  {
    hide Identify, DeclarationAt, AfterWhiteSpace, EncodingAfter;
    NothingInFront([d]);
  }

  lemma DeclarationStarts(d: Node, rest: bytes, enc: Encoding)
    requires d.Declaration?
    ensures var s := PrintLeaf(d) + rest;
            s != [] && StartEncoding(s, enc) == enc && SkipWs(s, enc) == s
  {
    var s := PrintLeaf(d) + rest;
    PrintedDeclaration(d, rest);
    assert s[0] == LT && BOM[0] != LT;
    NothingToSkip(s, enc);
  }

  /** In a document whose encoding is not known, what follows a declaration is read as it would be
      alone: in UTF-8 if the declaration names no other encoding, byte by byte if it does. */
  lemma DeclarationSettles(d: Node, rest: bytes, condense: bool)
    requires d.Declaration? && GoodDeclaration(d, Unknown)
    ensures var r := DocumentAt(PrintLeaf(d) + rest, condense, Unknown);
            var alone := DocumentAt(rest, condense, if NamesUtf8(d.encoding) then Encoding.Utf8 else Legacy);
            r.kids == [d] + alone.kids && (alone.kids != [] ==> r.p == alone.p && r.err == alone.err)
  {
    NameDecides(d.encoding);
    CStrOf(d.encoding);
    DocumentRest(d, rest, condense, Unknown);
    hide PrintLeaf, GoodDeclaration, HasPrefixIgnoringCase, NamesUtf8;
    RestAlone(rest, condense, Named(d.encoding));
  }

  lemma RestAlone(rest: bytes, condense: bool, enc: Encoding)
    requires enc != Unknown
    ensures var r, alone := NodesAt([], AfterWhiteSpace(At(rest), enc), condense, enc, NoError),
                            DocumentAt(rest, condense, enc);
            r.kids == alone.kids && (alone.kids != [] ==> r == alone)
  {
    if rest == [] {
      assert !AfterWhiteSpace(At(rest), enc).Live();
    }
    hide SkipWs, Identify, NodeAt, EncodingAfter;
  }

  /** Where the encoding is known, a declaration does not change it, whatever it names. */
  lemma KnownEncodingStays(d: Node, rest: bytes, condense: bool, enc: Encoding)
    requires d.Declaration? && GoodDeclaration(d, enc) && enc != Unknown
    ensures var r, alone := DocumentAt(PrintLeaf(d) + rest, condense, enc), DocumentAt(rest, condense, enc);
            r.kids == [d] + alone.kids && (alone.kids != [] ==> r.p == alone.p && r.err == alone.err)
  {
    DocumentRest(d, rest, condense, enc);
    hide PrintLeaf, GoodDeclaration;
    RestAlone(rest, condense, enc);
  }

  /** A byte-order mark in front of a document whose encoding is not known settles it for UTF-8. */
  lemma MarkSettles(s: bytes, condense: bool)
    ensures DocumentAt([0xEF, 0xBB, 0xBF] + s, condense, Unknown) == DocumentAt(s, condense, Encoding.Utf8)
  {
    var all := [0xEF, 0xBB, 0xBF] + s;
    assert BOM == [0xEF, 0xBB, 0xBF];
    TakeDrop(BOM, s);
    assert SkipWs(all, Encoding.Utf8) == SkipWs(s, Encoding.Utf8);
    hide NodesAt;
    if s == [] {
      NothingAhead(condense, Encoding.Utf8);
    }
  }

  lemma NothingAhead(condense: bool, enc: Encoding)
    ensures NodesAt([], At([]), condense, enc, NoError) == Content([], At([]), NoError)
  {
  }

  // ----- what that means for a reference -----

  /** A character reference that is all the text there is. */
  lemma OneReference(ref: bytes, v: bytes, more: bytes, condense: bool, enc: Encoding)
    requires ref != [] && ref[0] == AMP && more != []
    requires CharAt(ref + (LT_TAG + more), enc) == Char(v, LT_TAG + more)
    ensures PlainTextAt(ref + (LT_TAG + more), condense, enc) == TextRead(v, At(LT_TAG + more))
  {
    var end := LT_TAG + more;
    var s := ref + end;
    assert s[0] == AMP;
    NothingToSkip(s, enc);
    TakeDrop(LT_TAG, more);
    assert Scan(end, LT_TAG, enc) == Scanned([], At(end));
    ScanCons(s, v, end, LT_TAG, enc);
    var ts := [Token(v, false)] + [];
    assert Flatten(ts) == v by {
      assert ts[1..] == [];
      assert v + [] == v;
    }
    assert Condense(ts) == v by { OneWord(v); }
    hide Scan, CharAt, AfterWhiteSpace, Condense, Flatten;
  }

  lemma OneWord(v: bytes)
    ensures Condense([Token(v, false)]) == v
  {
    var ts := [Token(v, false)];
    assert ts[1..] == [] && ts[..1] == ts;
    assert Flatten(ts) == v by { assert v + [] == v; }
    assert WordLength(ts) == 1;
    assert Words(ts[1..]) == [];
    assert Words(ts) == [v];
  }

  /** An element that holds it. */
  lemma ReferenceInElement(e: Node, ref: bytes, v: bytes, condense: bool, enc: Encoding, err: Err)
    requires e.Element? && GoodName(e.name, enc) && GoodAttrs(e.attrs, enc) && ref != [] && ref[0] == AMP
    requires CharAt(ref + PrintClose(e), enc) == Char(v, PrintClose(e))
    ensures var kids := if Blank(v) then [] else [Text(v, false)];
            Reads(PrintOpen(e) + [GT] + (ref + PrintClose(e)), ElementKind, Element(e.name, e.attrs, kids), At([]),
                  condense, enc, err)
  {
    hide PrintOpen, PrintClose, CharAt, Blank, GoodName, GoodAttrs, ContentAt, PlainTextAt, Reads;
    var close, bare := PrintClose(e), PrintOpen(e) + [GT] + (ref + PrintClose(e));
    var more := [SLASH] + e.name + [GT] + [];
    PrintedClose(e, [], enc);
    assert close + [] == close;
    assert bare + [] == bare;
    OneReference(ref, v, more, condense, enc);
    ContentOfReference(ref, v, e.name + [GT] + [], condense, enc, err);
    FullElementReadsBack(e, bare, ref, if Blank(v) then [] else [Text(v, false)], [], condense, enc, err);
  }

  lemma ContentOfReference(ref: bytes, v: bytes, more: bytes, condense: bool, enc: Encoding, err: Err)
    requires ref != [] && ref[0] == AMP
    requires var end := END_TAG_OPEN + more;
             PlainTextAt(ref + end, condense, enc) == TextRead(v, At(end))
    ensures var end := END_TAG_OPEN + more;
            ContentAt([], At(ref + end), condense, enc, err)
            == Content(if Blank(v) then [] else [Text(v, false)], At(end), err)
  {
    var end := END_TAG_OPEN + more;
    var s := ref + end;
    assert s[0] == AMP;
    NothingToSkip(s, enc);
    EndAlone(WithText([], v), more, condense, enc, err);
    NothingInFront([Text(v, false)]);
    assert WithText([], v) == if Blank(v) then [] else [Text(v, false)];
    hide PlainTextAt, AfterWhiteSpace, ContentAt, WithText, Blank;
    TextRound([], At(s), s, v, At(end), condense, enc, err);
  }

  /** The number in decimal digits. */
  function ReferenceTo(n: nat, upper: seq<bool>): bytes {
    [AMP, HASH] + (Written(n, 10, upper) + [SEMI])
  }

  function TextOf(v: bytes): seq<Node> {
    if Blank(v) then [] else [Text(v, false)]
  }

  /** The tags of the element with the text between them. */
  function Holding(e: Node, text: bytes): bytes
    requires e.Element?
  {
    PrintOpen(e) + [GT] + (text + PrintClose(e))
  }

  lemma ReferenceHeld(e: Node, n: nat, upper: seq<bool>, condense: bool, enc: Encoding)
    requires e.Element? && GoodName(e.name, enc) && GoodAttrs(e.attrs, enc) && enc != Unknown
    requires n < ULONG_MODULUS && n < Power(10, |upper|)
    ensures DocumentAt(Holding(e, ReferenceTo(n, upper)), condense, enc)
            == Content([e.(children := TextOf(Meant(n, enc)))], Null, NoError)
  {
    hide PrintOpen, PrintClose, DocumentAt, CharAt, Written, Meant, Blank, Power, Utf8.Encode, GoodName, GoodAttrs,
      Reads;
    var v, close, ref := Meant(n, enc), PrintClose(e), ReferenceTo(n, upper);
    DecimalNumberIsRead([AMP, HASH], n, upper, close, enc);
    ReferenceText(Written(n, 10, upper), close);
    ReferenceInElement(e, ref, v, condense, enc, NoError);
    OneElement(Holding(e, ref), e.(children := TextOf(v)), condense, enc);
  }

  lemma MeantUnder(n: nat, name: bytes)
    ensures Meant(n, Named(name)) == if NamesUtf8(name) then Utf8.Encode(n) else [(n % 256) as byte]
  {
  }

  /** The number n, as a decimal reference in the element behind a declaration, is read as its UTF-8
      sequence or as its low byte: the name of the encoding decides. */
  lemma ReferenceFollowsDeclaration(d: Node, e: Node, n: nat, upper: seq<bool>, condense: bool)
    requires d.Declaration? && GoodDeclaration(d, Unknown) && n < ULONG_MODULUS && n < Power(10, |upper|)
    requires e.Element? && GoodName(e.name, Named(d.encoding)) && GoodAttrs(e.attrs, Named(d.encoding))
    ensures var r := DocumentAt(PrintLeaf(d) + Holding(e, ReferenceTo(n, upper)), condense, Unknown);
            var v := if NamesUtf8(d.encoding) then Utf8.Encode(n) else [(n % 256) as byte];
            r.err == NoError && r.kids == [d, e.(children := TextOf(v))]
  {
    hide PrintLeaf, DocumentAt, Holding, ReferenceTo, TextOf, Meant, Power, Utf8.Encode, NamesUtf8, GoodDeclaration,
      GoodName, GoodAttrs;
    MeantUnder(n, d.encoding);
    DeclarationSettles(d, Holding(e, ReferenceTo(n, upper)), condense);
    ReferenceHeld(e, n, upper, condense, Named(d.encoding));
  }

  lemma ReferenceText(ds: bytes, end: bytes)
    ensures [AMP, HASH] + (ds + [SEMI]) + end == [AMP, HASH] + (ds + ([SEMI] + end))
  {
    Assoc(ds, [SEMI], end);
    Assoc([AMP, HASH], ds + [SEMI], end);
  }

  lemma OneElement(s: bytes, n: Node, condense: bool, enc: Encoding)
    requires enc != Unknown && n.Element? && Reads(s, ElementKind, n, At([]), condense, enc, NoError)
    ensures DocumentAt(s, condense, enc) == Content([n], Null, NoError)
  {
    hide Identify, NodeAt, AfterWhiteSpace, SkipWs;
    OneNode(s, n, condense, enc);
    NothingSkipped(s, enc);
    assert StartEncoding(s, enc) == enc;
  }

  lemma NothingSkipped(s: bytes, enc: Encoding)
    requires s != [] && s[0] == LT
    ensures SkipWs(s, enc) == s
  {
    NothingToSkip(s, enc);
  }

  lemma OneNode(s: bytes, n: Node, condense: bool, enc: Encoding)
    requires enc != Unknown && n.Element? && Reads(s, ElementKind, n, At([]), condense, enc, NoError)
    ensures NodesAt([], At(s), condense, enc, NoError) == Content([n], Null, NoError)
  {
    assert AfterWhiteSpace(At([]), enc) == Null;
    NothingInFront([n]);
    hide Identify, NodeAt, AfterWhiteSpace;
    assert NodesAt([n], Null, condense, enc, NoError) == Content([n], Null, NoError);
  }

  // ----- at an input -----

  /** "&#233;" in an element, behind a declaration. */
  lemma BehindDeclaration(name: bytes, condense: bool)
    requires forall i :: 0 <= i < |name| ==> 40 <= name[i] < 0x80
    ensures var a, d := Element([97], [], []), Declaration([], name, []);
            DocumentAt(PrintLeaf(d) + Holding(a, [AMP, HASH, 50, 51, 51, SEMI]), condense, Unknown).kids
            == [d, Element([97], [], [Text(if NamesUtf8(name) then [0xC3, 0xA9] else [0xE9], false)])]
  {
    hide PrintLeaf, DocumentAt, Holding, Power, NamesUtf8, GoodDeclaration, GoodName, GoodAttrs, ReferenceTo;
    Digits233();
    EasyDeclaration(name);
    EasyName(Named(name));
    ShownAlone([0xC3, 0xA9]);
    ShownAlone([0xE9]);
    Encoded233();
    ReferenceFollowsDeclaration(Declaration([], name, []), Element([97], [], []), 233, [true, true, true], condense);
  }

  lemma Encoded233()
    ensures Utf8.Encode(233) == [0xC3, 0xA9]
  {
  }

  lemma ShownAlone(v: bytes)
    requires v != [] && !IsSpace(v[0])
    ensures TextOf(v) == [Text(v, false)]
  {
  }

  lemma Digits233()
    ensures ReferenceTo(233, [true, true, true]) == [AMP, HASH, 50, 51, 51, SEMI] && 233 < Power(10, 3)
  {
    assert [true, true, true][..2] == [true, true] && [true, true][..1] == [true] && [true][..0] == [];
    assert Written(2, 10, [true]) == [50];
    assert Written(23, 10, [true, true]) == [50, 51];
    assert Power(10, 1) == 10 && Power(10, 2) == 100;
  }

  /** It is C3 A9 behind a declaration without an encoding and behind one for "utf-8", and E9 behind one
      for "ISO-8859-1". */
  lemma ThreeDeclarations(condense: bool)
    ensures var text := Holding(Element([97], [], []), [AMP, HASH, 50, 51, 51, SEMI]);
            var none, utf8 := Declaration([], [], []), Declaration([], [117, 116, 102, 45, 56], []);
            var iso := Declaration([], [73, 83, 79, 45, 56, 56, 53, 57, 45, 49], []);
            DocumentAt(PrintLeaf(none) + text, condense, Unknown).kids
            == [none, Element([97], [], [Text([0xC3, 0xA9], false)])] &&
            DocumentAt(PrintLeaf(utf8) + text, condense, Unknown).kids
            == [utf8, Element([97], [], [Text([0xC3, 0xA9], false)])] &&
            DocumentAt(PrintLeaf(iso) + text, condense, Unknown).kids
            == [iso, Element([97], [], [Text([0xE9], false)])]
  {
    hide PrintLeaf, Holding, DocumentAt, NamesUtf8;
    SomeNames();
    BehindDeclaration([], condense);
    BehindDeclaration([117, 116, 102, 45, 56], condense);
    BehindDeclaration([73, 83, 79, 45, 56, 56, 53, 57, 45, 49], condense);
  }

  lemma EasyName(enc: Encoding)
    ensures GoodName([97], enc) && GoodAttrs([], enc)
  {
    assert BOM[0] != 97 && NON_CHAR_E[0] != 97 && NON_CHAR_F[0] != 97;
  }

  lemma EasyDeclaration(e: bytes)
    requires forall i :: 0 <= i < |e| ==> 40 <= e[i] < 0x80
    ensures GoodDeclaration(Declaration([], e, []), Unknown)
  {
    EveryByteIsWhole(e);
  }

  lemma {:induction false} EveryByteIsWhole(s: bytes)
    ensures WholeChars(s, Unknown)
  {
    if s == [] {
    } else {
      EveryByteIsWhole(s[1..]);
    }
  }
}
