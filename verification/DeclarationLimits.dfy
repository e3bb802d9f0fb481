/** Which declarations survive being printed and parsed: neither end escapes their values. */
module DeclarationLimits {
  import opened Bytes
  import opened Codec
  import opened CodecLaws
  import opened Xml
  import opened Parser
  import opened Printer
  import opened LeafRoundTrip
  import opened RawText
  import opened Consumed

  // ----- what reading a value takes of the text -----

  predicate IsDeclared(name: bytes) {
    name == VERSION || name == ENCODING || name == STANDALONE
  }

  function Field(d: Node, name: bytes): bytes
    requires d.Declaration?
  {
    if name == VERSION then d.version else if name == ENCODING then d.encoding else d.standalone
  }

  /** The least that reading the value under the name takes: only a value in quotes can hold one. */
  function Price(name: bytes, v: bytes): nat {
    |name| + 1 + |v| + if QUOT in v then 2 else 0
  }

  function Cost(from: Node, to: Node, name: bytes): nat
    requires from.Declaration? && to.Declaration?
  {
    if Field(from, name) == Field(to, name) then 0 else Price(name, Field(to, name))
  }

  /** The least it takes to turn one declaration into the other. */
  function Costs(from: Node, to: Node): nat
    requires from.Declaration? && to.Declaration?
  {
    Cost(from, to, VERSION) + Cost(from, to, ENCODING) + Cost(from, to, STANDALONE)
  }

  lemma {:induction false} BareShrinks(s: bytes)
    ensures var r := BareValueAt(s);
            r.p.At? ==> |r.attr.value| + |r.p.s| <= |s| && QUOT !in r.attr.value
  {
    if s != [] && !EndsBareValue(s[0]) && s[0] != APOS && s[0] != QUOT {
      BareShrinks(s[1..]);
    }
  }

  lemma ValueTakes(name: bytes, s: bytes, enc: Encoding)
    requires s != []
    ensures var r := ValueAt(name, s, enc);
            r.p.At? ==> |r.attr.value| + |r.p.s| + (if QUOT in r.attr.value then 2 else 0) <= |s|
  {
    if s[0] == APOS || s[0] == QUOT {
      ScanShrinks(s[1..], [s[0]], enc);
    } else {
      BareShrinks(s);
    }
  }

  lemma NameIsLong(s: bytes, name: bytes)
    requires IsDeclared(name) && HasPrefixIgnoringCase(s, name)
    ensures NameLength(s) >= |name|
  {
    assert forall i :: 0 <= i < |name| ==> ToLower(s[i]) == ToLower(name[i]) && IsNameByte(s[i]);
  }

  lemma AttributeTakes(p: Ptr, name: bytes, enc: Encoding)
    requires p.Live() && AfterWhiteSpace(p, enc) == p && IsDeclared(name) && HasPrefixIgnoringCase(p.s, name)
    ensures var a := AttributeAt(p, enc); a.p.At? ==> Price(name, CStr(a.attr.value)) + |a.p.s| <= |p.s|
  {
    NameIsLong(p.s, name);
    var a := AttributeAt(p, enc);
    if a.p.At? {
      var nm := NameAt(p);
      var p1 := AfterWhiteSpace(nm.p, enc);
      var p2 := AfterWhiteSpace(At(p1.s[1..]), enc);
      ValueTakes(nm.name, p2.s, enc);
      assert QUOT in CStr(a.attr.value) ==> QUOT in a.attr.value;
      hide AfterWhiteSpace, ValueAt, NameLength, HasPrefixIgnoringCase, CStr, IsDeclared;
    }
  }

  lemma AgainNothing(p: Ptr, enc: Encoding)
    requires p.Live()
    ensures AfterWhiteSpace(p, enc).Live() ==>
              AfterWhiteSpace(AfterWhiteSpace(p, enc), enc) == AfterWhiteSpace(p, enc)
    ensures AfterWhiteSpace(p, enc) == p || |AfterWhiteSpace(p, enc).s| < |p.s|
  {
    SkippedOnce(p.s, enc);
  }

  lemma {:induction false} SkippedOnce(s: bytes, enc: Encoding)
    ensures SkipWs(SkipWs(s, enc), enc) == SkipWs(s, enc)
    ensures SkipWs(s, enc) == s || |SkipWs(s, enc)| < |s|
    decreases |s|
  {
    if s == [] {
    } else {
      if enc == Utf8 && IsMark(s) {
        SkippedOnce(s[3..], enc);
      } else if IsSpace(s[0]) {
        SkippedOnce(s[1..], enc);
      }
    }
  }

  /** The price of a field that is set pays for all that setting it can save. */
  lemma SettingPays(from: Node, to: Node, name: bytes, v: bytes)
    requires from.Declaration? && to.Declaration? && IsDeclared(name)
    ensures Costs(from, to) <= Costs(Declared(from, name, v), to) + Price(name, v)
  {
    WhichDeclared(name, name);
    hide Price, HasPrefixIgnoringCase;
  }

  /** One round takes at least what it saves. */
  lemma DeclaredTakes(decl: Node, p: Ptr, enc: Encoding, to: Node)
    requires decl.Declaration? && to.Declaration? && p.Live() && p.s[0] != GT
    requires DeclaredAt(decl, p, enc).p.At?
    ensures var r := DeclaredAt(decl, p, enc); Costs(decl, to) + |r.p.s| <= Costs(r.decl, to) + |p.s|
  {
    var p0 := AfterWhiteSpace(p, enc);
    var r := DeclaredAt(decl, p, enc);
    AgainNothing(p, enc);
    if p0.Live() && HasPrefixIgnoringCase(p0.s, VERSION) {
      RoundTakes(decl, p0, VERSION, enc, to);
    } else if p0.Live() && HasPrefixIgnoringCase(p0.s, ENCODING) {
      RoundTakes(decl, p0, ENCODING, enc, to);
    } else if p0.Live() && HasPrefixIgnoringCase(p0.s, STANDALONE) {
      RoundTakes(decl, p0, STANDALONE, enc, to);
    }
    hide AttributeAt, HasPrefixIgnoringCase, CStr, AfterWhiteSpace, JunkLength, Costs;
  }

  lemma RoundTakes(decl: Node, p: Ptr, name: bytes, enc: Encoding, to: Node)
    requires decl.Declaration? && to.Declaration? && IsDeclared(name)
    requires p.Live() && AfterWhiteSpace(p, enc) == p && HasPrefixIgnoringCase(p.s, name)
    ensures var a := AttributeAt(p, enc);
            var next := (if name == VERSION then decl.(version := CStr(a.attr.value))
                        else if name == ENCODING then decl.(encoding := CStr(a.attr.value))
                        else decl.(standalone := CStr(a.attr.value)));
            a.p.At? ==> Costs(decl, to) + |a.p.s| <= Costs(next, to) + |p.s|
  {
    AttributeTakes(p, name, enc);
    WhichDeclared(name, name);
    SettingPays(decl, to, name, CStr(AttributeAt(p, enc).attr.value));
    hide AttributeAt, HasPrefixIgnoringCase, CStr, AfterWhiteSpace, Costs, Price;
  }

  /** What is read in the rest of a declaration has its price there, and so has the '>'. */
  lemma {:induction false} DeclarationTakes(decl: Node, p: Ptr, enc: Encoding, err: Err)
    requires decl.Declaration?
    ensures var r := DeclarationBodyAt(decl, p, enc, err);
            r.p.At? ==> Costs(decl, r.node) + |r.p.s| + 1 <= |p.s|
    decreases p.Left()
  {
    hide DeclaredAt;
    if p.Live() && p.s[0] != GT {
      var next := DeclaredAt(decl, p, enc);
      DeclarationTakes(next.decl, next.p, enc, err);
      if next.p.At? {
        DeclaredTakes(decl, p, enc, DeclarationBodyAt(decl, p, enc, err).node);
      }
    } else {
      assert Costs(decl, decl) == 0;
    }
  }

  // ----- one printed value -----

  /** What starts behind the white space of a value: the value's first reading. */
  lemma SlotOpens(decl: Node, name: bytes, s: bytes, enc: Encoding, err: Err)
    requires decl.Declaration? && IsDeclared(name)
    ensures var a := ValueAt(name, [QUOT] + s, enc);
            DeclarationBodyAt(decl, At([SPACE] + (name + [EQUALS, QUOT] + s)), enc, err)
            == DeclarationBodyAt(Declared(decl, name, CStr(a.attr.value)), a.p, enc, err)
  {
    var t := name + [EQUALS, QUOT] + s;
    SlotStarts(name, s, enc);
    OneSpaceSkipped(t, enc);
    WhichDeclared(name, t);
    assert ([SPACE] + t)[0] == SPACE && ([SPACE] + t) != [];
    hide AttributeAt, AfterWhiteSpace, CStr, ValueAt, HasPrefixIgnoringCase;
  }

  lemma SlotStarts(name: bytes, s: bytes, enc: Encoding)
    requires IsDeclared(name)
    ensures var t := name + [EQUALS, QUOT] + s;
            name <= t && t[0] == name[0] && !IsSpace(t[0]) && t[0] < 0x80 &&
            AttributeAt(At(t), enc) == ValueAt(name, [QUOT] + s, enc)
  {
    var t := name + [EQUALS, QUOT] + s;
    assert t == name + ([EQUALS] + ([QUOT] + s)) && t[0] == name[0];
    assert GoodName(name, enc) by {
      assert BOM[0] == 0xEF && NON_CHAR_E[0] == 0xEF && NON_CHAR_F[0] == 0xEF && name[0] != 0xEF;
    }
    AttributeRule(name, [QUOT] + s, enc);
    hide AttributeAt, ValueAt, GoodName;
  }

  /** Reading a value that is printed in front of the tail gives the value back only from its own
      place: there is not enough text behind it for another reading. */
  lemma SlotIsRaw(decl: Node, d: Node, name: bytes, tail: bytes, rest: bytes, slack: nat, enc: Encoding, err: Err)
    requires decl.Declaration? && d.Declaration? && IsDeclared(name) && Field(decl, name) == []
    requires Field(d, name) != [] && WholeChars(Field(d, name), enc)
    requires |tail| + Price(name, Field(d, name)) <= |rest| + 2 + Costs(decl, d) + slack && slack < |name|
    requires forall i :: 0 <= i <= slack && i < |tail| ==> tail[i] != QUOT
    requires DeclarationBodyAt(decl, At([SPACE] + (name + [EQUALS, QUOT] + (Field(d, name) + (VALUE_CLOSE + tail)))),
                               enc, err) == Parsed(d, At(rest), err)
    ensures AMP !in Field(d, name) && QUOT !in Field(d, name)
  {
    var v, end := Field(d, name), VALUE_CLOSE + tail;
    SlotOpens(decl, name, v + end, enc, err);
    var a := ValueAt(name, [QUOT] + (v + end), enc);
    var x := CStr(a.attr.value);
    var decl' := Declared(decl, name, x);
    DeclarationTakes(decl', a.p, enc, err);
    assert a.p.At?;
    SetCosts(decl, d, name, x);
    hide DeclarationBodyAt, Costs, Declared;
    ValueIsRaw(name, v, tail, slack, enc, a);
  }

  lemma SetCosts(decl: Node, d: Node, name: bytes, x: bytes)
    requires decl.Declaration? && d.Declaration? && IsDeclared(name)
    requires Field(decl, name) == [] && Field(d, name) != []
    ensures Costs(Declared(decl, name, x), d) + Price(name, Field(d, name))
            == Costs(decl, d) + if x == Field(d, name) then 0 else Price(name, Field(d, name))
  {
    WhichDeclared(name, name);
    hide Price, HasPrefixIgnoringCase;
  }

  lemma ValueIsRaw(name: bytes, v: bytes, tail: bytes, slack: nat, enc: Encoding, a: AttrRead)
    requires WholeChars(v, enc) && v != [] && a == ValueAt(name, [QUOT] + (v + (VALUE_CLOSE + tail)), enc) && a.p.At?
    requires |tail| + (if CStr(a.attr.value) == v then 0 else Price(name, v)) <= |a.p.s| + 1 + slack && slack < |name|
    requires forall i :: 0 <= i <= slack && i < |tail| ==> tail[i] != QUOT
    ensures AMP !in v && QUOT !in v
  {
    var end := VALUE_CLOSE + tail;
    var value := [QUOT] + (v + end);
    assert value[1..] == v + end;
    var r := Scan(v + end, [QUOT], enc);
    ScanShrinks(v + end, [QUOT], enc);
    ScanStopsAtTag(v + end, [QUOT], enc);
    ScanAhead(v + end, [QUOT], enc);
    assert a.p == AfterTag(r.p, [QUOT]) && a.attr.value == Flatten(r.tokens);
    hide Scan, ValueAt;
    var t := r.p.s;
    assert |t| == |a.p.s| + 1 && t[0] == QUOT;
    hide Flatten, CStr;
    NoSecondReading(name, v, tail, slack, a, t);
    QuoteOfTheEnd(v, tail, slack, t);
    FullLengthIsRaw(v, end, [QUOT], enc);
  }

  /** A second reading would need more text than there is left. */
  lemma NoSecondReading(name: bytes, v: bytes, tail: bytes, slack: nat, a: AttrRead, t: bytes)
    requires v != [] && slack < |name| && Suffix(t, v + (VALUE_CLOSE + tail)) && t != [] && t[0] == QUOT
    requires a.p.At? && |t| == |a.p.s| + 1 && |a.attr.value| + |t| <= |v + (VALUE_CLOSE + tail)|
    requires |tail| + (if CStr(a.attr.value) == v then 0 else Price(name, v)) <= |a.p.s| + 1 + slack
    ensures CStr(a.attr.value) == v && |a.attr.value| >= |v|
  {
    if QUOT !in v {
      assert t[0] == (v + (VALUE_CLOSE + tail))[|v + (VALUE_CLOSE + tail)| - |t|];
      assert |t| <= |VALUE_CLOSE + tail|;
    }
  }

  lemma QuoteOfTheEnd(v: bytes, tail: bytes, slack: nat, t: bytes)
    requires Suffix(t, v + (VALUE_CLOSE + tail)) && t != [] && t[0] == QUOT
    requires |tail| <= |t| + slack && |t| <= |tail| + 2
    requires forall i :: 0 <= i <= slack && i < |tail| ==> tail[i] != QUOT
    ensures t == VALUE_CLOSE + tail
  {
    var end := VALUE_CLOSE + tail;
    assert end[0] == QUOT && end[1] == SPACE && end[2..] == tail;
    var k := |end| - |t|;
    assert t[0] == (v + end)[|v| + k] == end[k];
  }

  // ----- exactly when -----

  function Slack(v: bytes): nat {
    if v == [] then 0 else 3
  }

  function PriceIfAny(name: bytes, v: bytes): nat {
    if v == [] then 0 else Price(name, v)
  }

  /** What is printed behind a value, and how much more it is than its price. */
  lemma TailIs(e: bytes, s: bytes, rest: bytes)
    ensures var tail := PrintDeclared(ENCODING_OPEN, e)
                        + (PrintDeclared(STANDALONE_OPEN, s) + (DECLARATION_CLOSE + rest));
            |tail| <= |rest| + 2 + Slack(e) + Slack(s) + PriceIfAny(ENCODING, e) + PriceIfAny(STANDALONE, s)
  {
    PrintedPrice(ENCODING, e);
    PrintedPrice(STANDALONE, s);
    hide PrintDeclared, PriceIfAny, Slack;
  }

  lemma PrintedPrice(name: bytes, v: bytes)
    ensures |PrintDeclared(name + [EQUALS, QUOT], v)| <= PriceIfAny(name, v) + Slack(v)
  {
  }

  /** Where the next quote is. */
  lemma TailQuote(e: bytes, s: bytes, rest: bytes)
    ensures var tail := PrintDeclared(ENCODING_OPEN, e)
                        + (PrintDeclared(STANDALONE_OPEN, s) + (DECLARATION_CLOSE + rest));
            forall i :: 0 <= i <= Slack(e) + Slack(s) && i < |tail| ==> tail[i] != QUOT
  {
    var close := DECLARATION_CLOSE + rest;
    var more := PrintDeclared(STANDALONE_OPEN, s) + close;
    if e != [] {
      PrintedName(ENCODING, e, more);
    } else if s != [] {
      PrintedName(STANDALONE, s, close);
      NothingInFront(more);
    } else {
      NothingInFront(close);
      assert close[0] == QMARK;
    }
    hide PrintDeclared;
    assert e == [] ==> PrintDeclared(ENCODING_OPEN, e) == [] by { NothingDeclared(ENCODING_OPEN); }
    assert s == [] ==> PrintDeclared(STANDALONE_OPEN, s) == [] by { NothingDeclared(STANDALONE_OPEN); }
  }

  lemma NothingDeclared(open: bytes)
    ensures PrintDeclared(open, []) == []
  {
  }

  lemma PrintedName(name: bytes, v: bytes, more: bytes)
    requires v != [] && |name| > 6 && forall i :: 0 <= i < 7 ==> name[i] != QUOT
    ensures var tail := PrintDeclared(name + [EQUALS, QUOT], v) + more;
            |tail| > 6 && forall i :: 0 <= i < 7 ==> tail[i] != QUOT
  {
    var tail := PrintDeclared(name + [EQUALS, QUOT], v) + more;
    assert forall i :: 0 <= i < 7 ==> tail[i] == name[i];
  }

  lemma PrintedSlot(name: bytes, v: bytes, tail: bytes)
    requires v != []
    ensures PrintDeclared(name + [EQUALS, QUOT], v) + tail == name + [EQUALS, QUOT] + (v + (VALUE_CLOSE + tail))
  {
    Assoc(name + [EQUALS, QUOT] + v, VALUE_CLOSE, tail);
    Assoc(name + [EQUALS, QUOT], v, VALUE_CLOSE + tail);
  }

  /** One value that reads back is raw, and what comes behind it is read next. */
  lemma SlotReadsBack(decl: Node, d: Node, name: bytes, tail: bytes, rest: bytes, slack: nat, enc: Encoding, err: Err)
    requires decl.Declaration? && d.Declaration? && IsDeclared(name) && Field(decl, name) == []
    requires NulFree(Field(d, name)) && WholeChars(Field(d, name), enc) && slack < |name|
    requires Field(d, name) != [] ==>
               |tail| + Price(name, Field(d, name)) <= |rest| + 2 + Costs(decl, d) + slack &&
               forall i :: 0 <= i <= slack && i < |tail| ==> tail[i] != QUOT
    requires DeclarationBodyAt(decl, At([SPACE] + (PrintDeclared(name + [EQUALS, QUOT], Field(d, name)) + tail)),
                               enc, err) == Parsed(d, At(rest), err)
    ensures GoodDeclared(Field(d, name), enc)
    ensures DeclarationBodyAt(Declared(decl, name, Field(d, name)), At([SPACE] + tail), enc, err)
            == Parsed(d, At(rest), err)
  {
    var v := Field(d, name);
    if v == [] {
      assert PrintDeclared(name + [EQUALS, QUOT], v) + tail == tail;
      UnsetField(decl, name);
    } else {
      PrintedSlot(name, v, tail);
      hide PrintDeclared, DeclarationBodyAt, Costs, Price;
      SlotIsRaw(decl, d, name, tail, rest, slack, enc, err);
      DeclaredReadsBack(decl, name, v, tail, enc, err);
    }
  }

  lemma UnsetField(decl: Node, name: bytes)
    requires decl.Declaration? && IsDeclared(name) && Field(decl, name) == []
    ensures Declared(decl, name, []) == decl
  {
    WhichDeclared(name, name);
  }

  /** A printed declaration reads back exactly when none of its values holds an '&' or a double
      quote. */
  lemma DeclarationReadsBackIff(d: Node, rest: bytes, enc: Encoding, err: Err)
    requires d.Declaration? && NulFree(d.version) && NulFree(d.encoding) && NulFree(d.standalone)
    requires WholeChars(d.version, enc) && WholeChars(d.encoding, enc) && WholeChars(d.standalone, enc)
    ensures DeclarationAt(At(PrintLeaf(d) + rest), enc, err) == Parsed(d, At(rest), err) <==> GoodDeclaration(d, enc)
  {
    if GoodDeclaration(d, enc) {
      DeclarationReadsBack(d, rest, enc, err);
    } else if DeclarationAt(At(PrintLeaf(d) + rest), enc, err) == Parsed(d, At(rest), err) {
      DeclarationIsGood(d, rest, enc, err);
    }
  }

  lemma DeclarationIsGood(d: Node, rest: bytes, enc: Encoding, err: Err)
    requires d.Declaration? && NulFree(d.version) && NulFree(d.encoding) && NulFree(d.standalone)
    requires WholeChars(d.version, enc) && WholeChars(d.encoding, enc) && WholeChars(d.standalone, enc)
    requires DeclarationAt(At(PrintLeaf(d) + rest), enc, err) == Parsed(d, At(rest), err)
    ensures GoodDeclaration(d, enc)
  {
    var e, s := d.encoding, d.standalone;
    var d0 := Declaration([], [], []);
    var tail := PrintDeclared(ENCODING_OPEN, e) + (PrintDeclared(STANDALONE_OPEN, s) + (DECLARATION_CLOSE + rest));
    PrintedDeclaration(d, rest);
    DeclarationOpens([SPACE] + (PrintDeclared(VERSION_OPEN, d.version) + tail), enc, err);
    TailIs(e, s, rest);
    TailQuote(e, s, rest);
    CostsOf(d);
    WhichDeclared(VERSION, VERSION);
    assert Slack(e) + Slack(s) < |VERSION|;
    hide DeclarationAt, DeclarationBodyAt, PrintLeaf, PrintDeclared;
    hide Costs, Price, Slack, WholeChars, HasPrefixIgnoringCase;
    SlotReadsBack(d0, d, VERSION, tail, rest, Slack(e) + Slack(s), enc, err);
    OthersAreGood(d, rest, enc, err);
  }

  /** The same for the values behind the version. */
  lemma OthersAreGood(d: Node, rest: bytes, enc: Encoding, err: Err)
    requires d.Declaration? && NulFree(d.encoding) && NulFree(d.standalone)
    requires WholeChars(d.encoding, enc) && WholeChars(d.standalone, enc)
    requires var tail := PrintDeclared(ENCODING_OPEN, d.encoding)
                         + (PrintDeclared(STANDALONE_OPEN, d.standalone) + (DECLARATION_CLOSE + rest));
             DeclarationBodyAt(Declaration(d.version, [], []), At([SPACE] + tail), enc, err) == Parsed(d, At(rest), err)
    ensures GoodDeclared(d.encoding, enc) && GoodDeclared(d.standalone, enc)
  {
    var s := d.standalone;
    var tail := PrintDeclared(STANDALONE_OPEN, s) + (DECLARATION_CLOSE + rest);
    TailIs([], s, rest);
    TailQuote([], s, rest);
    NothingDeclared(ENCODING_OPEN);
    NothingInFront(tail);
    CostsOf(d);
    WhichDeclared(ENCODING, ENCODING);
    hide DeclarationBodyAt, PrintDeclared, Costs, Price, WholeChars, HasPrefixIgnoringCase;
    SlotReadsBack(Declaration(d.version, [], []), d, ENCODING, tail, rest, Slack(s), enc, err);
    StandaloneIsGood(d, rest, enc, err);
  }

  lemma StandaloneIsGood(d: Node, rest: bytes, enc: Encoding, err: Err)
    requires d.Declaration? && NulFree(d.standalone) && WholeChars(d.standalone, enc)
    requires var tail := PrintDeclared(STANDALONE_OPEN, d.standalone) + (DECLARATION_CLOSE + rest);
             DeclarationBodyAt(Declaration(d.version, d.encoding, []), At([SPACE] + tail), enc, err)
             == Parsed(d, At(rest), err)
    ensures GoodDeclared(d.standalone, enc)
  {
    var close := DECLARATION_CLOSE + rest;
    TailIs([], [], rest);
    TailQuote([], [], rest);
    NothingDeclared(ENCODING_OPEN);
    NothingDeclared(STANDALONE_OPEN);
    NothingInFront(close);
    CostsOf(d);
    WhichDeclared(STANDALONE, STANDALONE);
    hide DeclarationBodyAt, PrintDeclared, Costs, Price, WholeChars, HasPrefixIgnoringCase;
    SlotReadsBack(Declaration(d.version, d.encoding, []), d, STANDALONE, close, rest, 0, enc, err);
  }

  lemma CostsOf(d: Node)
    requires d.Declaration?
    ensures var pe, ps := PriceIfAny(ENCODING, d.encoding), PriceIfAny(STANDALONE, d.standalone);
            Costs(Declaration([], [], []), d) == PriceIfAny(VERSION, d.version) + pe + ps &&
            Costs(Declaration(d.version, [], []), d) == pe + ps &&
            Costs(Declaration(d.version, d.encoding, []), d) == ps
  {
    hide Price;
  }

  /** A printed version reads back exactly when it holds no '&' and no double quote. */
  lemma VersionReadsBackIff(v: bytes, rest: bytes, enc: Encoding, err: Err)
    requires NulFree(v) && WholeChars(v, enc)
    ensures var d := Declaration(v, [], []);
            DeclarationAt(At(PrintLeaf(d) + rest), enc, err) == Parsed(d, At(rest), err)
            <==> AMP !in v && QUOT !in v
  {
    hide DeclarationAt, PrintLeaf;
    DeclarationReadsBackIff(Declaration(v, [], []), rest, enc, err);
  }

  /** Two versions that do not read back: a double quote, and an '&'. */
  lemma QuoteAndAmpersandAreLost(rest: bytes, enc: Encoding, err: Err)
    ensures DeclarationAt(At(PrintLeaf(Declaration([QUOT], [], [])) + rest), enc, err)
            != Parsed(Declaration([QUOT], [], []), At(rest), err)
    ensures DeclarationAt(At(PrintLeaf(Declaration([AMP], [], [])) + rest), enc, err)
            != Parsed(Declaration([AMP], [], []), At(rest), err)
  {
    hide DeclarationAt, PrintLeaf;
    assert [QUOT][1..] == [] && [AMP][1..] == [];
    assert WholeChars([QUOT], enc) && WholeChars([AMP], enc);
    VersionReadsBackIff([QUOT], rest, enc, err);
    VersionReadsBackIff([AMP], rest, enc, err);
  }
}
