/** Which error a broken document is left with, and where, told from its text. */
module Faults {
  import opened Bytes
  import opened Codec
  import opened CodecLaws
  import opened Xml
  import opened Parser
  import opened Printer
  import opened LeafRoundTrip
  import opened RoundTrip
  import opened DocumentRoundTrip
  import opened LooseSyntax
  import opened ErrorLaws

  /** An element starts at s, and parsing it ends in null with that error. */
  predicate Fails(s: bytes, id: ErrorId, left: Place, condense: bool, enc: Encoding) {
    s != [] && s[0] == LT && !(END_TAG_OPEN <= s) && Identify(At(s), enc) == Is(ElementKind) &&
    var r := ElementAt(At(s), condense, enc, NoError);
    r.p == Null && r.err == Error(id, left)
  }

  /** A start tag whose name and attributes can be read, up to what follows it. */
  predicate GoodTag(n: Node, enc: Encoding) {
    n.Element? && GoodName(n.name, enc) && GoodAttrs(n.attrs, enc)
  }

  predicate EndsName(s: bytes) {
    s != [] && s[0] < 0x80 && !IsNameByte(s[0])
  }

  /** Nothing is skipped in front of s as white space or a mark. */
  predicate Shown(s: bytes, enc: Encoding) {
    SkipWs(s, enc) == s
  }

  lemma FailsInTag(n: Node, after: bytes, id: ErrorId, left: Place, condense: bool, enc: Encoding)
    requires GoodTag(n, enc) && EndsName(after)
    requires var r := TagAt(n.name, n.attrs, At(after), condense, enc, NoError); r.p == Null && r.err == Error(id, left)
    ensures Fails(PrintOpen(n) + after, id, left, condense, enc)
  {
    hide PrintOpen, TagAt, ElementAt, Identify, GoodName, GoodAttrs;
    ElementOpens(n, after, condense, enc, NoError);
  }

  lemma SkippedTo(w: bytes, s: bytes, enc: Encoding)
    requires AllSpace(w) && w + s != [] && Shown(s, enc)
    ensures AfterWhiteSpace(At(w + s), enc) == At(s)
  {
    SkipWsOverSpaces(w, s, enc);
  }

  // ----- end tags -----

  lemma SamePrefix(a: bytes, s: bytes, t: bytes)
    ensures a + s <= a + t <==> s <= t
  {
    assert forall i :: 0 <= i < |s| ==> (a + s)[|a| + i] == s[i];
    assert forall i :: 0 <= i < |t| ==> (a + t)[|a| + i] == t[i];
  }

  /** Behind good content an end tag of another name stands: reported at its `</`. */
  lemma WrongEndTag(n: Node, style: Style, depth: nat, w: bytes, more: bytes, condense: bool, enc: Encoding)
    requires GoodTag(n, enc) && GoodChildren(n.children, enc) && Lays(style, condense)
    requires AllSpace(w) && (condense || w == []) && !(n.name <= more)
    ensures var end := END_TAG_OPEN + more;
            Fails(PrintOpen(n) + ([GT] + (PrintNodes(n.children, style, depth) + (w + end))), ReadingEndTag,
                  Place(|end|), condense, enc)
  {
    var end := END_TAG_OPEN + more;
    var body := PrintNodes(n.children, style, depth) + (w + end);
    ContentReadsBack([], n.children, style, depth, w, more, condense, enc, NoError);
    SamePrefix(END_TAG_OPEN, n.name, more);
    hide ContentAt, PrintNodes, PrintOpen, BackAll, GoodChildren, GoodName, GoodAttrs;
    EndTagFails(n, body, [] + BackAll(n.children, condense, enc), At(end), Place(|end|), condense, enc);
  }

  /** An element whose content ends where its end tag cannot be read. */
  lemma EndTagFails(n: Node, body: bytes, kids: seq<Node>, p: Ptr, left: Place, condense: bool, enc: Encoding)
    requires GoodTag(n, enc)
    requires ContentAt([], At(body), condense, enc, NoError) == Content(kids, p, NoError)
    requires EndTagAt(n.name, p, enc, NoError) == EndRead(Null, Error(ReadingEndTag, left))
    ensures Fails(PrintOpen(n) + ([GT] + body), ReadingEndTag, left, condense, enc)
  {
    hide ContentAt, EndTagAt, TagAt, PrintOpen, GoodName, GoodAttrs, Fails;
    ContentStarts(n.name, n.attrs, body, condense, enc, NoError);
    FailsInTag(n, [GT] + body, ReadingEndTag, left, condense, enc);
  }

  lemma ContentStarts(name: bytes, attrs: seq<Attr>, body: bytes, condense: bool, enc: Encoding, err: Err)
    ensures var c := ContentAt([], At(body), condense, enc, err);
            var e := EndTagAt(name, c.p, enc, c.err);
            TagAt(name, attrs, At([GT] + body), condense, enc, err) == Parsed(Element(name, attrs, c.kids), e.p, e.err)
  {
    TakeDrop([GT], body);
    NothingToSkip([GT] + body, enc);
    hide AfterWhiteSpace, AttributeAt, ContentAt, EndTagAt;
  }

  /** The name of the end tag is right, but no '>' follows it: reported where the '>' should be. */
  lemma UnclosedEndTag(n: Node, style: Style, depth: nat, w: bytes, w2: bytes, rest: bytes,
                       condense: bool, enc: Encoding)
    requires GoodTag(n, enc) && GoodChildren(n.children, enc) && Lays(style, condense)
    requires AllSpace(w) && (condense || w == []) && AllSpace(w2)
    requires Shown(rest, enc) && (rest != [] ==> rest[0] != GT)
    ensures var end := END_TAG_OPEN + (n.name + (w2 + rest));
            Fails(PrintOpen(n) + ([GT] + (PrintNodes(n.children, style, depth) + (w + end))), ReadingEndTag,
                  if w2 + rest == [] then Nowhere else Place(|rest|), condense, enc)
  {
    var end := END_TAG_OPEN + (n.name + (w2 + rest));
    var body := PrintNodes(n.children, style, depth) + (w + end);
    ContentReadsBack([], n.children, style, depth, w, n.name + (w2 + rest), condense, enc, NoError);
    NoGt(n.name, w2, rest, enc);
    hide ContentAt, PrintNodes, PrintOpen, BackAll, GoodChildren, GoodName, GoodAttrs, EndTagAt;
    EndTagFails(n, body, [] + BackAll(n.children, condense, enc), At(end),
                if w2 + rest == [] then Nowhere else Place(|rest|), condense, enc);
  }

  lemma NoGt(name: bytes, w: bytes, rest: bytes, enc: Encoding)
    requires AllSpace(w) && Shown(rest, enc) && (rest != [] ==> rest[0] != GT)
    ensures EndTagAt(name, At(END_TAG_OPEN + (name + (w + rest))), enc, NoError)
            == EndRead(Null, Error(ReadingEndTag, if w + rest == [] then Nowhere else Place(|rest|)))
  {
    var tag := END_TAG_OPEN + name;
    Assoc(END_TAG_OPEN, name, w + rest);
    TakeDrop(tag, w + rest);
    if w + rest != [] {
      SkippedTo(w, rest, enc);
    }
    hide SkipWs, AllSpace;
  }

  // ----- text that ends too early -----

  /** The text ends in the content: behind white space the end tag is missed at the very end, otherwise
      the content itself is reported, without a place. */
  lemma TextEndsInContent(n: Node, w: bytes, condense: bool, enc: Encoding)
    requires GoodTag(n, enc) && AllSpace(w)
    ensures if w == [] then Fails(PrintOpen(n) + ([GT] + w), ReadingElementValue, Nowhere, condense, enc)
            else Fails(PrintOpen(n) + ([GT] + w), ReadingEndTag, Place(0), condense, enc)
  {
    NothingLeft([], w, condense, enc);
    hide ContentAt, PrintOpen, GoodName, GoodAttrs, AllSpace;
    ContentFails(n, w, ContentAt([], At(w), condense, enc, NoError), condense, enc);
  }

  lemma NothingLeft(kids: seq<Node>, w: bytes, condense: bool, enc: Encoding)
    requires AllSpace(w)
    ensures ContentAt(kids, At(w), condense, enc, NoError)
            == if w == [] then Content(kids, Null, Error(ReadingElementValue, Nowhere))
               else Content(kids, At([]), NoError)
  {
    if w != [] {
      AllSpaceIsSkipped(w, enc);
    }
    hide SkipWs;
  }

  /** Content that ends at the terminator, or in null with an error of its own. */
  lemma ContentFails(n: Node, body: bytes, c: Content, condense: bool, enc: Encoding)
    requires GoodTag(n, enc) && c == ContentAt([], At(body), condense, enc, NoError)
    requires (c.p == Null && c.err.Error?) || (c.p == At([]) && c.err == NoError)
    ensures if c.p == Null then Fails(PrintOpen(n) + ([GT] + body), c.err.id, c.err.left, condense, enc)
            else Fails(PrintOpen(n) + ([GT] + body), ReadingEndTag, Place(0), condense, enc)
  {
    ContentStarts(n.name, n.attrs, body, condense, enc, NoError);
    EndTagNowhere(n.name, c, enc);
    hide ContentAt, EndTagAt, TagAt, PrintOpen, GoodName, GoodAttrs;
    if c.p == Null {
      FailsInTag(n, [GT] + body, c.err.id, c.err.left, condense, enc);
    } else {
      FailsInTag(n, [GT] + body, ReadingEndTag, Place(0), condense, enc);
    }
  }

  lemma EndTagNowhere(name: bytes, c: Content, enc: Encoding)
    requires (c.p == Null && c.err.Error?) || (c.p == At([]) && c.err == NoError)
    ensures EndTagAt(name, c.p, enc, c.err)
            == EndRead(Null, if c.p == Null then c.err else Error(ReadingEndTag, Place(0)))
  {
  }

  /** The same behind children, the last of which is markup. */
  lemma TextEndsBehindChildren(n: Node, last: Node, style: Style, depth: nat, w: bytes, w2: bytes,
                               condense: bool, enc: Encoding)
    requires GoodTag(n, enc) && GoodChildren(n.children, enc) && Lays(style, condense)
    requires AllSpace(w) && (condense || w == []) && AllSpace(w2)
    requires Good(last, enc) && !last.IsPlainText() && !IsEndTagLike(last)
    ensures var body := PrintNodes(n.children, style, depth) + (w + (PrintBare(last, style, depth) + w2));
            if w2 == [] then Fails(PrintOpen(n) + ([GT] + body), ReadingElementValue, Nowhere, condense, enc)
            else Fails(PrintOpen(n) + ([GT] + body), ReadingEndTag, Place(0), condense, enc)
  {
    hide ContentAt, PrintNodes, PrintBare, PrintOpen, BackAll, Back, GoodChildren, GoodName, GoodAttrs, Good, Reads,
      AllSpace, Fails;
    var s := PrintBare(last, style, depth) + w2;
    var kids := [] + BackAll(n.children, condense, enc);
    NodeReadsBack(last, style, depth, w2, condense, enc, NoError);
    BareIsMarkup(last, style, depth, w2, enc);
    ContentReadsOn([], n.children, style, depth, w, s[1..], condense, enc, NoError);
    NothingInFront(s);
    NoSpace();
    NodeRound(kids, [], s, KindOf(last), Back(last, condense, enc), Behind(last, w2), condense, enc, NoError);
    var kids' := kids + [Back(last, condense, enc)];
    NothingLeft(kids', w2, condense, enc);
    NullContent(kids', condense, enc, NoError);
    var body := PrintNodes(n.children, style, depth) + (w + s);
    ContentFails(n, body, ContentAt([], At(body), condense, enc, NoError), condense, enc);
  }

  lemma NoSpace()
    ensures AllSpace([])
  {
  }

  lemma BareIsMarkup(n: Node, style: Style, depth: nat, rest: bytes, enc: Encoding)
    requires Good(n, enc) && !n.IsPlainText()
    ensures var s := PrintBare(n, style, depth) + rest; s == LT_TAG + s[1..] && s[1..] != []
  {
    BareStarts(n, style, depth, enc);
    hide PrintBare;
  }

  lemma NullContent(kids: seq<Node>, condense: bool, enc: Encoding, err: Err)
    ensures ContentAt(kids, Null, condense, enc, err) == Content(kids, Null, SetError(err, ReadingElementValue, Null))
  {
  }

  /** The text ends in character data: it is kept as far as it goes, and the content is reported. */
  lemma TextEndsInText(n: Node, v: bytes, condense: bool, enc: Encoding)
    requires GoodTag(n, enc) && v != [] && Shown(v, enc) && AMP !in v && LT !in v && WholeChars(v, enc)
    ensures Fails(PrintOpen(n) + ([GT] + v), ReadingElementValue, Nowhere, condense, enc)
  {
    EndlessText(v, condense, enc);
    var t := PlainTextAt(v, condense, enc).text;
    assert v[0] in v;
    hide PlainTextAt, ContentAt, PrintOpen, GoodName, GoodAttrs, SkipWs, WholeChars, WithText;
    TextRound([], At(v), v, t, Null, condense, enc, NoError);
    NullContent(WithText([], t), condense, enc, NoError);
    ContentFails(n, v, ContentAt([], At(v), condense, enc, NoError), condense, enc);
  }

  lemma EndlessText(v: bytes, condense: bool, enc: Encoding)
    requires v != [] && Shown(v, enc) && AMP !in v && LT !in v && WholeChars(v, enc)
    ensures v[0] != LT && PlainTextAt(v, condense, enc).p == Null
  {
    assert v[0] in v;
    assert v + [] == v;
    ScanRaw(v, [], LT_TAG, enc);
    hide Scan, SkipWs, Flatten, Condense;
    assert Scan([], LT_TAG, enc).p == At([]) by { NothingScanned(LT_TAG, enc); }
  }

  lemma NothingScanned(tag: bytes, enc: Encoding)
    ensures Scan([], tag, enc) == Scanned([], At([]))
  {
  }

  /** The text ends inside the start tag, behind white space. */
  lemma TextEndsInTag(n: Node, w: bytes, condense: bool, enc: Encoding)
    requires GoodTag(n, enc) && w != [] && AllSpace(w)
    ensures Fails(PrintOpen(n) + w, ReadingAttributes, Place(|w|), condense, enc)
  {
    AllSpaceIsSkipped(w, enc);
    assert TagAt(n.name, n.attrs, At(w), condense, enc, NoError)
           == Parsed(Element(n.name, n.attrs, []), Null, Error(ReadingAttributes, Place(|w|)));
    assert IsSpace(w[0]);
    hide TagAt, PrintOpen, GoodName, GoodAttrs, SkipWs;
    FailsInTag(n, w, ReadingAttributes, Place(|w|), condense, enc);
  }

  /** The text ends inside the name of the element. */
  lemma TextEndsInName(name: bytes, condense: bool, enc: Encoding)
    requires GoodName(name, enc)
    ensures Fails(LT_TAG + name, FailedToReadElementName, Place(|name|), condense, enc)
  {
    var s := LT_TAG + name;
    NothingToSkip(s, enc);
    assert s[1..] == name && s[1] == name[0] && END_TAG_OPEN[1] == SLASH;
    assert AfterWhiteSpace(At(name), enc) == At(name);
    NameIsRead(name, []);
    assert name + [] == name;
    assert forall c: byte :: IsNameByte(c) ==> GoesInNames(c);
    ElementKindOf(name, [], enc);
    assert LT_TAG + name + [] == s;
    hide Identify, AfterWhiteSpace, NameAt, GoesInNames;
  }

  /** No name behind '<'. Identify takes no such text for an element, so only a caller of Parse sees it. */
  lemma NoElementName(w: bytes, rest: bytes, condense: bool, enc: Encoding)
    requires AllSpace(w) && Shown(rest, enc) && (rest != [] ==> !StartsNames(rest[0]))
    ensures ElementAt(At(LT_TAG + (w + rest)), condense, enc, NoError)
            == Parsed(Element([], [], []), Null,
                      Error(FailedToReadElementName, if w + rest == [] then Nowhere else Place(|rest|)))
  {
    var s := LT_TAG + (w + rest);
    NothingToSkip(s, enc);
    TakeDrop(LT_TAG, w + rest);
    if w + rest != [] {
      SkippedTo(w, rest, enc);
    }
    assert forall c: byte :: IsNameStart(c) ==> StartsNames(c);
    hide SkipWs, NameLength, TagAt, AllSpace;
  }

  // ----- start tags -----

  /** A '/' without '>': reported behind the '/'. */
  lemma SlashWithoutGt(n: Node, w: bytes, more: bytes, condense: bool, enc: Encoding)
    requires GoodTag(n, enc) && AllSpace(w) && (more != [] ==> more[0] != GT)
    ensures Fails(PrintOpen(n) + (w + ([SLASH] + more)), ParsingEmpty, Place(|more|), condense, enc)
  {
    var s := [SLASH] + more;
    NothingToSkip(s, enc);
    SkippedTo(w, s, enc);
    assert s[1..] == more;
    assert (w + s)[0] == if w == [] then SLASH else w[0];
    hide PrintOpen, GoodName, GoodAttrs, SkipWs;
    SlashStops(n, w + s, s, condense, enc);
    FailsInTag(n, w + s, ParsingEmpty, Place(|more|), condense, enc);
  }

  lemma SlashStops(n: Node, after: bytes, s: bytes, condense: bool, enc: Encoding)
    requires n.Element? && after != [] && AfterWhiteSpace(At(after), enc) == At(s) && s != [] && s[0] == SLASH
    requires |s| > 1 ==> s[1] != GT
    ensures var r := TagAt(n.name, n.attrs, At(after), condense, enc, NoError);
            r.p == Null && r.err == Error(ParsingEmpty, Place(|s| - 1))
  {
    hide AfterWhiteSpace, AttributeAt, ContentAt;
  }

  /** An attribute that cannot be read, or whose name is taken. */
  lemma AttributeFails(n: Node, after: bytes, s: bytes, id: ErrorId, left: Place, condense: bool, enc: Encoding)
    requires GoodTag(n, enc) && EndsName(after) && AfterWhiteSpace(At(after), enc) == At(s)
    requires s != [] && s[0] != SLASH && s[0] != GT
    requires var a := AttributeAt(At(s), enc);
             if a.p.Live() && a.attr.name in AttrNames(n.attrs)
             then Error(id, left) == Error(ParsingElement, Place(|s|))
             else a.p == Null &&
                  Error(id, left) == if a.fault.Error? then a.fault else Error(ParsingElement, Place(|s|))
    ensures Fails(PrintOpen(n) + after, id, left, condense, enc)
  {
    AttributeStops(n, after, s, condense, enc);
    hide AttributeAt, AfterWhiteSpace, TagAt, PrintOpen, GoodName, GoodAttrs, AttrNames;
    FailsInTag(n, after, id, left, condense, enc);
  }

  lemma AttributeStops(n: Node, after: bytes, s: bytes, condense: bool, enc: Encoding)
    requires n.Element? && after != [] && AfterWhiteSpace(At(after), enc) == At(s)
    requires s != [] && s[0] != SLASH && s[0] != GT
    requires var a := AttributeAt(At(s), enc); a.p == Null || (a.p.Live() && a.attr.name in AttrNames(n.attrs))
    ensures var a := AttributeAt(At(s), enc);
            var r := TagAt(n.name, n.attrs, At(after), condense, enc, NoError);
            r.p == Null &&
            r.err == if a.p == Null && a.fault.Error? then a.fault else Error(ParsingElement, Place(|s|))
  {
    hide AttributeAt, AfterWhiteSpace, AttrNames, ContentAt;
  }

  /** An attribute whose name is taken: reported at its start. */
  lemma RepeatedAttribute(n: Node, a: Attr, more: bytes, condense: bool, enc: Encoding)
    requires GoodTag(n, enc) && GoodAttr(a, enc) && more != []
    requires exists i :: 0 <= i < |n.attrs| && n.attrs[i].name == a.name
    ensures var s := PrintAttr(a) + more;
            Fails(PrintOpen(n) + ([SPACE] + s), ParsingElement, Place(|s|), condense, enc)
  {
    hide PrintOpen, PrintAttr, AttributeAt, AfterWhiteSpace, GoodName, GoodAttrs, GoodAttr, AttrNames, Fails;
    var s := PrintAttr(a) + more;
    AttrReadsBack(a, more, enc);
    AttrStartsWithName(a, more, enc);
    NameIsTaken(n.attrs, a.name);
    assert ([SPACE] + s)[0] == SPACE;
    AttributeFails(n, [SPACE] + s, s, ParsingElement, Place(|s|), condense, enc);
  }

  lemma NameIsTaken(attrs: seq<Attr>, name: bytes)
    requires exists i :: 0 <= i < |attrs| && attrs[i].name == name
    ensures name in AttrNames(attrs)
  {
  }

  lemma NameBehindSpace(w: bytes, name: bytes, rest: bytes, enc: Encoding)
    requires AllSpace(w) && w != [] && GoodName(name, enc) && EndsName(rest)
    ensures var s := name + rest;
            EndsName(w + s) && AfterWhiteSpace(At(w + s), enc) == At(s) && s[0] != SLASH && s[0] != GT
  {
    var s := name + rest;
    NameReadsBack(name, rest, enc);
    SkipWsOverSpaces(w, s, enc);
    assert s[0] == name[0] && (w + s)[0] == w[0] && IsSpace(w[0]);
  }

  /** A name that no '=' follows: reported where the '=' should be. */
  lemma AttributeWithoutEquals(n: Node, w: bytes, name: bytes, w1: bytes, more: bytes, condense: bool, enc: Encoding)
    requires GoodTag(n, enc) && AllSpace(w) && w != [] && GoodName(name, enc) && AllSpace(w1)
    requires EndsName(w1 + more) && Shown(more, enc) && (more != [] ==> more[0] != EQUALS)
    ensures Fails(PrintOpen(n) + (w + (name + (w1 + more))), ReadingAttributes, Place(|more|), condense, enc)
  {
    var s := name + (w1 + more);
    NameBehindSpace(w, name, w1 + more, enc);
    WithoutEquals(name, w1, more, enc);
    hide PrintOpen, AttributeAt, AfterWhiteSpace, GoodName, GoodAttrs, SkipWs, EndsName;
    AttributeFails(n, w + s, s, ReadingAttributes, Place(|more|), condense, enc);
  }

  lemma WithoutEquals(name: bytes, w: bytes, more: bytes, enc: Encoding)
    requires GoodName(name, enc) && AllSpace(w) && EndsName(w + more) && Shown(more, enc)
    requires more != [] ==> more[0] != EQUALS
    ensures AttributeAt(At(name + (w + more)), enc)
            == AttrRead(Attr(name, []), Null, Error(ReadingAttributes, Place(|more|)))
  {
    NameReadsBack(name, w + more, enc);
    SkippedTo(w, more, enc);
    hide SkipWs, NameAt, GoodName;
  }

  /** Text that ends behind the name of an attribute: reported at the start of that name. */
  lemma TextEndsInAttributeName(n: Node, w: bytes, name: bytes, condense: bool, enc: Encoding)
    requires GoodTag(n, enc) && AllSpace(w) && w != [] && GoodName(name, enc)
    ensures Fails(PrintOpen(n) + (w + name), ReadingAttributes, Place(|name|), condense, enc)
  {
    assert AfterWhiteSpace(At(name), enc) == At(name);
    SkippedTo(w, name, enc);
    NameIsRead(name, []);
    assert name + [] == name;
    assert forall c: byte :: IsNameByte(c) ==> GoesInNames(c);
    assert (w + name)[0] == w[0] && IsSpace(w[0]);
    assert AttributeAt(At(name), enc) == AttrRead(Attr(name, []), Null, Error(ReadingAttributes, Place(|name|))) by {
      hide SkipWs, NameLength;
    }
    hide PrintOpen, AttributeAt, AfterWhiteSpace, GoodAttrs, SkipWs, GoesInNames;
    AttributeFails(n, w + name, name, ReadingAttributes, Place(|name|), condense, enc);
  }

  /** Something that is no name where an attribute should start: reported there. */
  lemma NoAttributeName(n: Node, w: bytes, more: bytes, condense: bool, enc: Encoding)
    requires GoodTag(n, enc) && AllSpace(w) && w != [] && more != [] && Shown(more, enc)
    requires !StartsNames(more[0]) && more[0] != SLASH && more[0] != GT
    ensures Fails(PrintOpen(n) + (w + more), ReadingAttributes, Place(|more|), condense, enc)
  {
    SkippedTo(w, more, enc);
    assert forall c: byte :: IsNameStart(c) ==> StartsNames(c);
    assert (w + more)[0] == w[0] && IsSpace(w[0]);
    assert AfterWhiteSpace(At(more), enc) == At(more);
    hide PrintOpen, AfterWhiteSpace, GoodName, GoodAttrs, SkipWs, ValueAt;
    AttributeFails(n, w + more, more, ReadingAttributes, Place(|more|), condense, enc);
  }

  /** Nothing behind the '='. */
  lemma NothingBehindEquals(n: Node, w: bytes, name: bytes, w1: bytes, w2: bytes, condense: bool, enc: Encoding)
    requires GoodTag(n, enc) && AllSpace(w) && w != [] && GoodName(name, enc) && AllSpace(w1) && AllSpace(w2)
    ensures Fails(PrintOpen(n) + (w + (name + (w1 + ([EQUALS] + w2)))), ReadingAttributes,
                  if w2 == [] then Nowhere else Place(0), condense, enc)
  {
    var behind := w1 + ([EQUALS] + w2);
    assert behind[0] == if w1 == [] then EQUALS else w1[0];
    NameBehindSpace(w, name, behind, enc);
    BareEquals(name, w1, w2, enc);
    hide PrintOpen, AttributeAt, AfterWhiteSpace, GoodName, GoodAttrs, SkipWs, EndsName;
    AttributeFails(n, w + (name + behind), name + behind, ReadingAttributes, if w2 == [] then Nowhere else Place(0),
                   condense, enc);
  }

  lemma BareEquals(name: bytes, w1: bytes, w2: bytes, enc: Encoding)
    requires GoodName(name, enc) && AllSpace(w1) && AllSpace(w2)
    ensures AttributeAt(At(name + (w1 + ([EQUALS] + w2))), enc)
            == AttrRead(Attr(name, []), Null, Error(ReadingAttributes, if w2 == [] then Nowhere else Place(0)))
  {
    var behind := [EQUALS] + w2;
    assert (w1 + behind)[0] == if w1 == [] then EQUALS else w1[0];
    NameReadsBack(name, w1 + behind, enc);
    NothingToSkip(behind, enc);
    SkippedTo(w1, behind, enc);
    TakeDrop([EQUALS], w2);
    if w2 != [] {
      AllSpaceIsSkipped(w2, enc);
    }
    hide SkipWs, NameAt, GoodName;
  }

  /** A quote inside an unquoted value: reported at the quote. */
  lemma QuoteInBareValue(n: Node, w: bytes, name: bytes, v: bytes, more: bytes, condense: bool, enc: Encoding)
    requires GoodTag(n, enc) && AllSpace(w) && w != [] && GoodName(name, enc) && GoodBare(v, enc)
    requires more != [] && (more[0] == QUOT || more[0] == APOS)
    ensures Fails(PrintOpen(n) + (w + (name + ([EQUALS] + (v + more)))), ReadingAttributes, Place(|more|),
                  condense, enc)
  {
    var behind := [EQUALS] + (v + more);
    NothingInFront(behind);
    NothingInFront(v + more);
    NameBehindSpace(w, name, behind, enc);
    BareAttributeIsRead(name, [], [], v, more, enc);
    hide PrintOpen, AttributeAt, AfterWhiteSpace, GoodName, GoodAttrs, GoodBare, EndsName;
    AttributeFails(n, w + (name + behind), name + behind, ReadingAttributes, Place(|more|), condense, enc);
  }

  /** A quoted value that the text ends in, or behind: reported at the start of the attribute. */
  lemma TextEndsInValue(n: Node, w: bytes, name: bytes, q: byte, v: bytes, closed: bool, condense: bool, enc: Encoding)
    requires GoodTag(n, enc) && AllSpace(w) && w != [] && GoodName(name, enc) && (q == QUOT || q == APOS)
    requires AMP !in v && q !in v && WholeChars(v, enc)
    ensures var s := name + ([EQUALS] + ([q] + (v + if closed then [q] else [])));
            Fails(PrintOpen(n) + (w + s), ParsingElement, Place(|s|), condense, enc)
  {
    var end := if closed then [q] else [];
    var value := [q] + (v + end);
    var s := name + ([EQUALS] + value);
    NameBehindSpace(w, name, [EQUALS] + value, enc);
    AttributeRule(name, value, enc);
    EndlessValue(name, q, v, closed, enc);
    hide PrintOpen, AttributeAt, ValueAt, AfterWhiteSpace, GoodName, GoodAttrs, WholeChars, EndsName;
    AttributeFails(n, w + s, s, ParsingElement, Place(|s|), condense, enc);
  }

  lemma EndlessValue(name: bytes, q: byte, v: bytes, closed: bool, enc: Encoding)
    requires (q == QUOT || q == APOS) && AMP !in v && q !in v && WholeChars(v, enc)
    ensures ValueAt(name, [q] + (v + if closed then [q] else []), enc) == AttrRead(Attr(name, v), Null, NoError)
  {
    var end := if closed then [q] else [];
    TakeDrop([q], v + end);
    ScanRaw(v, end, [q], enc);
    assert Scan(end, [q], enc) == Scanned([], At(end));
    assert Flatten([]) == [] && v + [] == v;
    assert ([q] + (v + end))[0] == q;
    hide Scan, Flatten;
  }

  // ----- what is parsed as another kind of node -----

  /** Parse called where no node of its kind starts returns null with the error of that kind. */
  lemma NothingOfItsKind(s: bytes, condense: bool, enc: Encoding)
    requires s != [] && Shown(s, enc)
    ensures var place := Place(|s|);
            (s[0] != LT ==> ElementAt(At(s), condense, enc, NoError).err == Error(ParsingElement, place)) &&
            (s[0] != LT ==> UnrecognizedAt(At(s), enc, NoError).err == Error(ParsingUnknown, place)) &&
            (!Spells(s, "<!--") ==> CommentAt(At(s), enc, NoError).err == Error(ParsingComment, place)) &&
            (!Spells(s, "<![CDATA[") ==> CdataAt(At(s), enc, NoError).err == Error(ParsingCdata, place)) &&
            (!IsXmlHeader(s) ==> DeclarationAt(At(s), enc, NoError).err == Error(ParsingDeclaration, Nowhere))
  {
    SpelledOpenings(s);
    HeaderIs(s);
    assert AfterWhiteSpace(At(s), enc) == At(s);
    hide AfterWhiteSpace, TagAt, NameAt, DeclarationBodyAt, FindTag, TextAt, IndexFrom, Spells, IsXmlHeader,
      HasPrefixIgnoringCase;
  }

  // ----- how an error gets out -----

  /** An element whose child fails behind good children fails with the same error. */
  lemma FaultPassesUp(n: Node, style: Style, depth: nat, w: bytes, s: bytes, id: ErrorId, left: Place,
                      condense: bool, enc: Encoding)
    requires GoodTag(n, enc) && GoodChildren(n.children, enc) && Lays(style, condense)
    requires AllSpace(w) && (condense || w == []) && Fails(s, id, left, condense, enc)
    ensures Fails(PrintOpen(n) + ([GT] + (PrintNodes(n.children, style, depth) + (w + s))), id, left, condense, enc)
  {
    var kids := [] + BackAll(n.children, condense, enc);
    var body := PrintNodes(n.children, style, depth) + (w + s);
    ElementIsLong(s, enc);
    assert s == LT_TAG + s[1..];
    ContentReadsOn([], n.children, style, depth, w, s[1..], condense, enc, NoError);
    hide PrintNodes, PrintOpen, BackAll, GoodChildren, GoodName, GoodAttrs, AllSpace;
    FailingChild(kids, s, id, left, condense, enc);
    hide ContentAt, Fails;
    ContentFails(n, body, ContentAt([], At(body), condense, enc, NoError), condense, enc);
  }

  lemma ElementIsLong(s: bytes, enc: Encoding)
    requires s != [] && s[0] == LT && Identify(At(s), enc) == Is(ElementKind)
    ensures |s| > 1
  {
    NothingToSkip(s, enc);
  }

  lemma FailingChild(kids: seq<Node>, s: bytes, id: ErrorId, left: Place, condense: bool, enc: Encoding)
    requires Fails(s, id, left, condense, enc)
    ensures var c := ContentAt(kids, At(s), condense, enc, NoError); c.p == Null && c.err == Error(id, left)
  {
    NothingToSkip(s, enc);
    var r := ElementAt(At(s), condense, enc, NoError);
    NullContent(kids + [r.node], condense, enc, r.err);
    hide AfterWhiteSpace, Identify, ElementAt;
  }

  /** Elements that are not closed yet, with the children they have so far. */
  predicate GoodTags(tags: seq<Node>, enc: Encoding) {
    forall i :: 0 <= i < |tags| ==> tags[i].Element? && GoodTag(tags[i], enc) && GoodChildren(tags[i].children, enc)
  }

  /** Start tags, each with its children so far, one inside the other. */
  function Opened(tags: seq<Node>, style: Style, depth: nat): bytes
    requires forall i :: 0 <= i < |tags| ==> tags[i].Element?
  {
    if tags == [] then []
    else
      PrintOpen(tags[0])
      + ([GT] + (PrintNodes(tags[0].children, style, depth) + Opened(tags[1..], style, depth + 1)))
  }

  /** At any depth. */
  lemma {:induction false} FaultPassesAllUp(tags: seq<Node>, style: Style, depth: nat, s: bytes, id: ErrorId,
                                            left: Place, condense: bool, enc: Encoding)
    requires Fails(s, id, left, condense, enc) && Lays(style, condense)
    requires GoodTags(tags, enc)
    ensures Fails(Opened(tags, style, depth) + s, id, left, condense, enc)
  {
    hide PrintOpen, PrintNodes, Opened, Fails, GoodTag, GoodChildren;
    OpenedStarts(tags, style, depth, s);
    if tags == [] {
    } else {
      var more := Opened(tags[1..], style, depth + 1) + s;
      FaultPassesAllUp(tags[1..], style, depth + 1, s, id, left, condense, enc);
      NothingInFront(more);
      FaultPassesUp(tags[0], style, depth, [], more, id, left, condense, enc);
    }
  }

  lemma OpenedStarts(tags: seq<Node>, style: Style, depth: nat, s: bytes)
    requires forall i :: 0 <= i < |tags| ==> tags[i].Element?
    ensures Opened(tags, style, depth) + s
            == if tags == [] then s
               else PrintOpen(tags[0])
                    + ([GT] + (PrintNodes(tags[0].children, style, depth) + (Opened(tags[1..], style, depth + 1) + s)))
  {
    hide PrintOpen, PrintNodes;
    if tags == [] {
      NothingInFront(s);
    } else {
      var open, kids := PrintOpen(tags[0]), PrintNodes(tags[0].children, style, depth);
      var more := Opened(tags[1..], style, depth + 1);
      assert Opened(tags, style, depth) == open + ([GT] + (kids + more));
      Assoc(open, [GT] + (kids + more), s);
      Assoc([GT], kids + more, s);
      Assoc(kids, more, s);
    }
  }

  // ----- documents -----

  function EncodingBehind(ns: seq<Node>, enc: Encoding): Encoding {
    if ns == [] then enc else EncodingBehind(ns[1..], EncodingAfter(enc, ns[0]))
  }

  /** Printed nodes are read in order; what follows them is left. */
  lemma {:induction false} NodesReadOn(kids: seq<Node>, ns: seq<Node>, s: bytes, style: Style,
                                       condense: bool, enc: Encoding, err: Err)
    requires GoodDocument(ns, enc) && Lays(style, condense) && s != [] && !IsSpace(s[0]) && s[0] < 0x80
    ensures NodesAt(kids, At(PrintNodes(ns, style, 0) + s), condense, enc, err)
            == NodesAt(kids + DocumentBack(ns, condense, enc), At(s), condense, EncodingBehind(ns, enc), err)
    decreases ns
  {
    if ns == [] {
      assert PrintNodes(ns, style, 0) + s == s && kids + DocumentBack(ns, condense, enc) == kids;
    } else {
      var n, br, enc' := ns[0], style.lineBreak, EncodingAfter(enc, ns[0]);
      var back := Back(n, condense, enc);
      var more := PrintNodes(ns[1..], style, 0) + s;
      var backs := DocumentBack(ns[1..], condense, enc');
      var bare := PrintBare(n, style, 0);
      NodeReadsBack(n, style, 0, br + more, condense, enc, err);
      SameEncodingAfter(n, condense, enc);
      NodesReadOn(kids + [back], ns[1..], s, style, condense, enc', err);
      assert DocumentBack(ns, condense, enc) == [back] + backs;
      assert AllSpace(br);
      FirstPrinted(ns, style);
      StartOfRest(ns[1..], s, style, enc');
      hide Reads, PrintBare, PrintNodes, DocumentBack, Back, EncodingAfter, AllSpace, Behind, KindOf, AfterWhiteSpace,
        GoodDocument, NodesAt;
      Assoc(bare, br + PrintNodes(ns[1..], style, 0), s);
      Assoc(br, PrintNodes(ns[1..], style, 0), s);
      DocumentRound(kids, bare + (br + more), KindOf(n), back, Behind(n, br + more), condense, enc, err);
      GapIsSkipped(br, more, n, enc');
      Assoc(kids, [back], backs);
    }
  }

  lemma StartOfRest(ns: seq<Node>, s: bytes, style: Style, enc: Encoding)
    requires GoodDocument(ns, enc) && s != [] && !IsSpace(s[0]) && s[0] < 0x80
    ensures var more := PrintNodes(ns, style, 0) + s; more != [] && !IsSpace(more[0]) && more[0] < 0x80
  {
    if ns == [] {
      assert PrintNodes(ns, style, 0) + s == s;
    } else {
      DocumentStartsWithLt(ns, style, enc);
      assert (PrintNodes(ns, style, 0) + s)[0] == PrintNodes(ns, style, 0)[0];
    }
  }

  lemma DocumentReadsOn(ns: seq<Node>, s: bytes, style: Style, condense: bool, enc: Encoding)
    requires GoodDocument(ns, enc) && Lays(style, condense) && s != [] && !IsSpace(s[0]) && s[0] < 0x80
    ensures var r := NodesAt(DocumentBack(ns, condense, enc), At(s), condense, EncodingBehind(ns, enc), NoError);
            r.kids != [] ==> DocumentAt(PrintNodes(ns, style, 0) + s, condense, enc) == r
  {
    var all := PrintNodes(ns, style, 0) + s;
    StartOfRest(ns, s, style, enc);
    NothingToSkip(all, enc);
    assert !(BOM <= all) by { assert BOM[0] >= 0x80; }
    NodesReadOn([], ns, s, style, condense, enc, NoError);
    NothingInFront(DocumentBack(ns, condense, enc));
    hide PrintNodes, NodesAt, GoodDocument, DocumentBack, EncodingBehind, SkipWs;
  }

  /** A document is left with the error of the first element that fails, at any depth behind good
      nodes, and that error has the place at which it happens. */
  lemma DocumentReports(ns: seq<Node>, tags: seq<Node>, s: bytes, style: Style, id: ErrorId, left: Place,
                        condense: bool, enc: Encoding)
    requires GoodDocument(ns, enc) && Lays(style, condense) && Fails(s, id, left, condense, EncodingBehind(ns, enc))
    requires GoodTags(tags, EncodingBehind(ns, enc))
    ensures var r := DocumentAt(PrintNodes(ns, style, 0) + (Opened(tags, style, 1) + s), condense, enc);
            r.err == Error(id, left) && !r.p.Live() && DocumentBack(ns, condense, enc) <= r.kids &&
            |r.kids| == |DocumentBack(ns, condense, enc)| + 1
  {
    var enc' := EncodingBehind(ns, enc);
    var t := Opened(tags, style, 1) + s;
    FaultPassesAllUp(tags, style, 1, s, id, left, condense, enc');
    FailingNode(DocumentBack(ns, condense, enc), t, id, left, condense, enc');
    assert t[0] == LT;
    hide PrintNodes, Opened, Fails, NodesAt, DocumentBack, GoodDocument, EncodingBehind, GoodTag, GoodChildren;
    DocumentReadsOn(ns, t, style, condense, enc);
  }

  lemma FailingNode(kids: seq<Node>, s: bytes, id: ErrorId, left: Place, condense: bool, enc: Encoding)
    requires Fails(s, id, left, condense, enc)
    ensures var r := NodesAt(kids, At(s), condense, enc, NoError);
            r.p == Null && r.err == Error(id, left) && kids < r.kids && |r.kids| == |kids| + 1
  {
    var r := ElementAt(At(s), condense, enc, NoError);
    var enc' := EncodingAfter(enc, r.node);
    assert AfterWhiteSpace(r.p, enc') == Null;
    hide Identify, ElementAt, AfterWhiteSpace, EncodingAfter;
    assert NodesAt(kids + [r.node], Null, condense, enc', r.err) == Content(kids + [r.node], Null, r.err);
  }

  /** At document level, text that is no markup ends the parse where it stands, and is no error. */
  lemma DocumentStopsAtText(ns: seq<Node>, s: bytes, style: Style, condense: bool, enc: Encoding)
    requires GoodDocument(ns, enc) && ns != [] && Lays(style, condense)
    requires s != [] && !IsSpace(s[0]) && s[0] < 0x80 && s[0] != LT
    ensures DocumentAt(PrintNodes(ns, style, 0) + s, condense, enc)
            == Content(DocumentBack(ns, condense, enc), At(s), NoError)
  {
    var enc' := EncodingBehind(ns, enc);
    NothingToSkip(s, enc');
    assert DocumentBack(ns, condense, enc) != [];
    assert NodesAt(DocumentBack(ns, condense, enc), At(s), condense, enc', NoError)
           == Content(DocumentBack(ns, condense, enc), At(s), NoError);
    hide PrintNodes, NodesAt, DocumentBack, GoodDocument, EncodingBehind, AfterWhiteSpace;
    DocumentReadsOn(ns, s, style, condense, enc);
  }

  // ----- at an input -----

  /** "<a></b>": the end tag is reported, at its '<'. */
  lemma WrongEndTagExample(condense: bool, enc: Encoding)
    ensures var r := DocumentAt([LT, 97, GT, LT, SLASH, 98, GT], condense, enc);
            r.err == Error(ReadingEndTag, Place(4)) && !r.p.Live()
  {
    hide Fails, DocumentAt;
    var text: bytes := [LT, 97, GT, LT, SLASH, 98, GT];
    WrongNameFails(condense, enc);
    NothingInFront(text);
    assert Opened([], STREAM, 1) + text == text && PrintNodes([], STREAM, 0) + text == text;
    DocumentReports([], [], text, STREAM, ReadingEndTag, Place(4), condense, enc);
  }

  lemma WrongNameFails(condense: bool, enc: Encoding)
    ensures Fails([LT, 97, GT, LT, SLASH, 98, GT], ReadingEndTag, Place(4), condense, enc)
  {
    hide Fails, GoodName, PrintOpen;
    var n := Element([97], [], []);
    OpenedA(enc);
    NothingInFront(END_TAG_OPEN + [98, GT]);
    assert END_TAG_OPEN + [98, GT] == [LT, SLASH, 98, GT];
    assert PrintNodes([], STREAM, 0) + [LT, SLASH, 98, GT] == [LT, SLASH, 98, GT];
    assert [LT, 97] + ([GT] + [LT, SLASH, 98, GT]) == [LT, 97, GT, LT, SLASH, 98, GT];
    assert n.name[0] != [98, GT][0];
    WrongEndTag(n, STREAM, 0, [], [98, GT], condense, enc);
  }

  lemma OpenedA(enc: Encoding)
    ensures var n := Element([97], [], []); GoodTag(n, enc) && PrintOpen(n) == [LT, 97]
  {
    assert BOM[0] == NON_CHAR_E[0] == NON_CHAR_F[0] == 0xEF;
    CStrOf([97]);
    assert Reached([]) == [];
  }
}
