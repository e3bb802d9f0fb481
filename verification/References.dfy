/** Numeric references: every way to write a number is read as that number, and what is no number is
    refused. */
module References {
  import opened Bytes
  import Utf8
  import opened Codec
  import opened CodecLaws

  // ----- numbers as they are written -----

  function WrittenDigit(d: nat, upper: bool): byte
    requires d < 16
  {
    if d < 10 then ('0' as int + d) as byte
    else if upper then ('A' as int + d - 10) as byte
    else ('a' as int + d - 10) as byte
  }

  /** The last digits of n, as many as there are choices of case; there are leading zeros if n has
      fewer. */
  function Written(n: nat, base: nat, upper: seq<bool>): (ds: bytes)
    requires base == 10 || base == 16
    ensures |ds| == |upper|
  {
    if upper == [] then []
    else
      var last := |upper| - 1;
      Written(n / base, base, upper[..last]) + [WrittenDigit(n % base, upper[last])]
  }

  function Power(base: nat, k: nat): nat {
    if k == 0 then 1 else base * Power(base, k - 1)
  }

  /** The digits of XML 1.0, section 4.1. */
  predicate IsWrittenDigit(c: byte, base: nat) {
    var i := c as int;
    '0' as int <= i <= '9' as int
    || (base == 16 && ('a' as int <= i <= 'f' as int || 'A' as int <= i <= 'F' as int))
  }

  predicate AreWrittenDigits(ds: bytes, base: nat) {
    forall i :: 0 <= i < |ds| ==> IsWrittenDigit(ds[i], base)
  }

  // ----- what they are read as -----

  lemma DigitReadsBack(d: nat, upper: bool, base: nat)
    requires d < base && (base == 10 || base == 16)
    ensures var c := WrittenDigit(d, upper);
            IsWrittenDigit(c, base) && IsDigitOf(c, base) && DigitValue(c) == d &&
            c != SEMI && c != LOWER_X && c != HASH
  {
  }

  lemma OneMoreDigit(front: bytes, c: byte, base: nat)
    requires (base == 10 || base == 16) && AreDigits(front, base) && IsDigitOf(c, base)
    ensures AreDigits(front + [c], base) && Number(front + [c], base) == Number(front, base) * base + DigitValue(c)
  {
    var ds := front + [c];
    assert ds[..|ds| - 1] == front && ds[|front|] == c;
  }

  lemma {:induction false} WrittenIsRead(n: nat, base: nat, upper: seq<bool>)
    requires (base == 10 || base == 16) && n < Power(base, |upper|)
    ensures var ds := Written(n, base, upper);
            AreDigits(ds, base) && Number(ds, base) == n && SEMI !in ds && LOWER_X !in ds && HASH !in ds
    decreases |upper|
  {
    if upper == [] {
    } else {
      var k := |upper| - 1;
      var front, ds := Written(n / base, base, upper[..k]), Written(n, base, upper);
      QuotientIsBelow(n, base, k);
      DivisionOf(n, base);
      WrittenIsRead(n / base, base, upper[..k]);
      DigitReadsBack(n % base, upper[k], base);
      assert ds == front + [WrittenDigit(n % base, upper[k])];
      OneMoreDigit(front, WrittenDigit(n % base, upper[k]), base);
      hide Written, WrittenDigit, DigitValue, IsDigitOf, AreDigits, Number, Power;
      NoneOfThem(front, WrittenDigit(n % base, upper[k]));
    }
  }

  lemma NoneOfThem(front: bytes, c: byte)
    requires SEMI !in front && LOWER_X !in front && HASH !in front && c != SEMI && c != LOWER_X && c != HASH
    ensures var ds := front + [c]; SEMI !in ds && LOWER_X !in ds && HASH !in ds
  {
  }

  lemma DivisionOf(n: nat, base: nat)
    requires base == 10 || base == 16
    ensures n / base * base + n % base == n && n % base < base
  {
    if base == 10 {
    } else {
    }
  }

  lemma QuotientIsBelow(n: nat, base: nat, k: nat)
    requires (base == 10 || base == 16) && n < Power(base, k + 1)
    ensures n / base < Power(base, k)
  {
    var p := Power(base, k);
    assert Power(base, k + 1) == base * p;
    hide Power;
    if base == 10 {
      assert n < 10 * p;
    } else {
      assert n < 16 * p;
    }
  }

  /** Only these are digits. */
  lemma DigitsAre(ds: bytes, base: nat)
    requires base == 10 || base == 16
    ensures AreDigits(ds, base) <==> AreWrittenDigits(ds, base)
  {
    assert forall c: byte :: IsDigitOf(c, base) <==> IsWrittenDigit(c, base);
    hide IsDigitOf, IsWrittenDigit;
  }

  /** What a number stands for: its UTF-8 sequence, or its low byte. */
  function Meant(n: nat, enc: Encoding): bytes {
    if enc == Encoding.Utf8 then Utf8.Encode(n) else [(n % 256) as byte]
  }

  // ----- references -----

  /** The text in front of the digits: a marker, or anything without ';' that ends in one. */
  predicate Opens(open: bytes, mark: byte) {
    open != [] && open[|open| - 1] == mark && SEMI !in open
  }

  lemma ReferenceParts(first: bytes, open: bytes, ds: bytes, rest: bytes, mark: byte)
    requires Opens(open, mark) && SEMI !in ds && mark !in ds && first <= open && SEMI !in first
    ensures var s := open + (ds + ([SEMI] + rest));
            var semi := |open| + |ds|;
            first <= s && s[|open| - 1] == mark && s[semi] == SEMI && s[|open|..semi] == ds && s[semi + 1..] == rest &&
            (forall j :: 0 <= j < semi ==> s[j] != SEMI) && (forall j :: |open| <= j < semi ==> s[j] != mark)
  {
    var s := open + (ds + ([SEMI] + rest));
    var semi := |open| + |ds|;
    assert s == (open + ds) + ([SEMI] + rest);
    TakeDrop(open + ds, [SEMI] + rest);
    assert forall j :: 0 <= j < |open| ==> s[j] == open[j];
    assert forall j :: |open| <= j < semi ==> s[j] == ds[j - |open|];
  }

  /** Where the digits of a reference are: behind the last marker in front of the first ';'. */
  lemma DigitsBehindLastMarker(s: bytes, from: nat, mark: byte, base: nat, k: nat, semi: nat, enc: Encoding)
    requires (base == 10 || base == 16) && 0 < from <= k + 1 <= semi < |s|
    requires s[from - 1] == mark && s[k] == mark && s[semi] == SEMI
    requires forall j :: from <= j < semi ==> s[j] != SEMI
    requires forall j :: k < j < semi ==> s[j] != mark
    ensures NumericAt(s, from, mark, base, enc)
            == if AreDigits(s[k + 1..semi], base)
               then Char(CodePoint(Number(s[k + 1..semi], base) % ULONG_MODULUS, enc), s[semi + 1..])
               else NoChar
  {
    IndexFromIs(s, from, SEMI, semi);
    LastMarkerIs(s, semi, mark, k);
    hide CodePoint, Number, AreDigits;
  }

  /** A hexadecimal reference: digits behind the last 'x' in front of the ';', whatever stands between
      "&#x" and that 'x'. */
  lemma HexReference(open: bytes, ds: bytes, rest: bytes, enc: Encoding)
    requires HEX_MARK <= open && Opens(open, LOWER_X) && SEMI !in ds && LOWER_X !in ds
    ensures CharAt(open + (ds + ([SEMI] + rest)), enc)
            == if AreDigits(ds, 16) then Char(CodePoint(Number(ds, 16) % ULONG_MODULUS, enc), rest) else NoChar
  {
    var s := open + (ds + ([SEMI] + rest));
    var semi := |open| + |ds|;
    ReferenceParts(HEX_MARK, open, ds, rest, LOWER_X);
    DigitsBehindLastMarker(s, 3, LOWER_X, 16, |open| - 1, semi, enc);
    hide NumericAt, CodePoint, Number, AreDigits;
  }

  lemma DecimalStarts(s: bytes, enc: Encoding)
    requires [AMP, HASH] <= s && |s| > 2 && s[2] != LOWER_X
    ensures CharAt(s, enc) == NumericAt(s, 2, HASH, 10, enc)
  {
    hide NumericAt;
  }

  lemma NotHex(open: bytes, ds: bytes, rest: bytes)
    requires |open| >= 2 && (|open| > 2 ==> open[2] != LOWER_X)
    requires |open| == 2 && ds != [] ==> ds[0] != LOWER_X
    ensures var s := open + (ds + ([SEMI] + rest)); |s| > 2 && s[2] != LOWER_X
  {
    var s := open + (ds + ([SEMI] + rest));
    assert s[2] == if |open| > 2 then open[2] else if ds != [] then ds[0] else SEMI;
  }

  /** A decimal reference: digits behind the last '#'. */
  lemma DecimalReference(open: bytes, ds: bytes, rest: bytes, enc: Encoding)
    requires [AMP, HASH] <= open && Opens(open, HASH) && (|open| > 2 ==> open[2] != LOWER_X)
    requires SEMI !in ds && HASH !in ds && (|open| == 2 && ds != [] ==> ds[0] != LOWER_X)
    ensures CharAt(open + (ds + ([SEMI] + rest)), enc)
            == if AreDigits(ds, 10) then Char(CodePoint(Number(ds, 10) % ULONG_MODULUS, enc), rest) else NoChar
  {
    var s := open + (ds + ([SEMI] + rest));
    var semi := |open| + |ds|;
    ReferenceParts([AMP, HASH], open, ds, rest, HASH);
    NotHex(open, ds, rest);
    DecimalStarts(s, enc);
    hide CharAt;
    DigitsBehindLastMarker(s, 2, HASH, 10, |open| - 1, semi, enc);
    hide NumericAt, CodePoint, Number, AreDigits;
  }

  lemma MeantIs(n: nat, enc: Encoding)
    ensures CodePoint(n % ULONG_MODULUS, enc) == Meant(n % ULONG_MODULUS, enc)
    ensures n < ULONG_MODULUS ==> CodePoint(n % ULONG_MODULUS, enc) == Meant(n, enc)
  {
  }

  /** Every number, in hexadecimal digits of either case and with any leading zeros, is read as that
      number modulo 2^32. */
  lemma HexNumberIsRead(open: bytes, n: nat, upper: seq<bool>, rest: bytes, enc: Encoding)
    requires HEX_MARK <= open && Opens(open, LOWER_X) && n < Power(16, |upper|)
    ensures CharAt(open + (Written(n, 16, upper) + ([SEMI] + rest)), enc)
            == Char(Meant(n % ULONG_MODULUS, enc), rest)
  {
    WrittenIsRead(n, 16, upper);
    HexReference(open, Written(n, 16, upper), rest, enc);
    MeantIs(n, enc);
    hide CharAt, CodePoint, Meant;
  }

  /** The same for decimal digits. */
  lemma DecimalNumberIsRead(open: bytes, n: nat, upper: seq<bool>, rest: bytes, enc: Encoding)
    requires [AMP, HASH] <= open && Opens(open, HASH) && (|open| > 2 ==> open[2] != LOWER_X)
    requires n < Power(10, |upper|)
    ensures CharAt(open + (Written(n, 10, upper) + ([SEMI] + rest)), enc)
            == Char(Meant(n % ULONG_MODULUS, enc), rest)
  {
    var ds := Written(n, 10, upper);
    WrittenIsRead(n, 10, upper);
    assert ds != [] ==> ds[0] in ds;
    DecimalReference(open, ds, rest, enc);
    MeantIs(n, enc);
    hide CharAt, CodePoint, Meant;
  }

  /** The case of the digits does not matter, and neither do leading zeros. */
  lemma CaseDoesNotMatter(n: nat, upper1: seq<bool>, upper2: seq<bool>, rest: bytes, enc: Encoding)
    requires n < Power(16, |upper1|) && n < Power(16, |upper2|)
    ensures CharAt(HEX_MARK + (Written(n, 16, upper1) + ([SEMI] + rest)), enc)
            == CharAt(HEX_MARK + (Written(n, 16, upper2) + ([SEMI] + rest)), enc)
  {
    HexNumberIsRead(HEX_MARK, n, upper1, rest, enc);
    HexNumberIsRead(HEX_MARK, n, upper2, rest, enc);
  }

  /** A reference is refused exactly when something behind its last marker is no digit. */
  lemma HexRefusedIff(open: bytes, ds: bytes, rest: bytes, enc: Encoding)
    requires HEX_MARK <= open && Opens(open, LOWER_X) && SEMI !in ds && LOWER_X !in ds
    ensures CharAt(open + (ds + ([SEMI] + rest)), enc) == NoChar <==> !AreWrittenDigits(ds, 16)
  {
    HexReference(open, ds, rest, enc);
    DigitsAre(ds, 16);
    hide CharAt, AreDigits, AreWrittenDigits;
  }

  lemma DecimalRefusedIff(open: bytes, ds: bytes, rest: bytes, enc: Encoding)
    requires [AMP, HASH] <= open && Opens(open, HASH) && (|open| > 2 ==> open[2] != LOWER_X)
    requires SEMI !in ds && HASH !in ds && (|open| == 2 && ds != [] ==> ds[0] != LOWER_X)
    ensures CharAt(open + (ds + ([SEMI] + rest)), enc) == NoChar <==> !AreWrittenDigits(ds, 10)
  {
    DecimalReference(open, ds, rest, enc);
    DigitsAre(ds, 10);
    hide CharAt, AreDigits, AreWrittenDigits;
  }

  /** A numeric reference without ';' is refused. */
  lemma UnendedIsRefused(s: bytes, enc: Encoding)
    requires [AMP, HASH] <= s && |s| > 2 && SEMI !in s
    ensures CharAt(s, enc) == NoChar
  {
    hide AreDigits, CodePoint, Number;
  }

  /** A control byte is escaped with its two digits in upper case. */
  lemma ControlIsWritten(c: byte)
    requires c < SPACE
    ensures EscapeByte(c) == HEX_MARK + (Written(c as nat, 16, [true, true]) + [SEMI])
  {
    TwoWritten(c as nat, true);
  }

  // ----- at an input -----

  /** "&#xe9;" and "&#xE9;" are both 0xE9. */
  lemma LowerCaseDigits(rest: bytes)
    ensures CharAt([AMP, HASH, LOWER_X, 101, 57, SEMI] + rest, Legacy) == Char([0xE9], rest)
    ensures CharAt([AMP, HASH, LOWER_X, 69, 57, SEMI] + rest, Legacy) == Char([0xE9], rest)
    ensures CharAt([AMP, HASH, LOWER_X, 101, 57, SEMI] + rest, Encoding.Utf8) == Char([0xC3, 0xA9], rest)
  {
    hide CharAt, WrittenDigit, Meant;
    DigitsOfE9();
    TwoDigits(0xE9, false, rest, Legacy);
    TwoDigits(0xE9, true, rest, Legacy);
    TwoDigits(0xE9, false, rest, Encoding.Utf8);
  }

  lemma DigitsOfE9()
    ensures WrittenDigit(14, false) == 101 && WrittenDigit(14, true) == 69
    ensures WrittenDigit(9, false) == WrittenDigit(9, true) == 57
    ensures Meant(0xE9, Legacy) == [0xE9] && Meant(0xE9, Encoding.Utf8) == [0xC3, 0xA9]
  {
  }

  lemma TwoDigits(n: nat, upper: bool, rest: bytes, enc: Encoding)
    requires n < 256
    ensures CharAt([AMP, HASH, LOWER_X, WrittenDigit(n / 16, upper), WrittenDigit(n % 16, upper), SEMI] + rest, enc)
            == Char(Meant(n, enc), rest)
  {
    hide CharAt, Written, WrittenDigit, Meant, Power;
    TwoWritten(n, upper);
    var x, y := WrittenDigit(n / 16, upper), WrittenDigit(n % 16, upper);
    assert HEX_MARK + ([x, y] + ([SEMI] + rest)) == [AMP, HASH, LOWER_X, x, y, SEMI] + rest;
    HexNumberIsRead(HEX_MARK, n, [upper, upper], rest, enc);
  }

  lemma TwoWritten(n: nat, upper: bool)
    requires n < 256
    ensures Written(n, 16, [upper, upper]) == [WrittenDigit(n / 16, upper), WrittenDigit(n % 16, upper)]
    ensures Power(16, 2) == 256
  {
    hide WrittenDigit;
    assert [upper, upper][..1] == [upper] && [upper][..0] == [];
    assert Written(n / 16 / 16, 16, []) == [];
    assert Written(n / 16, 16, [upper]) == [WrittenDigit(n / 16, upper)];
    assert Power(16, 0) == 1 && Power(16, 1) == 16;
  }

  /** What stands in front of the last marker is not looked at: "&#x!x42;" is read as "B". */
  lemma JunkIsNotLookedAt(rest: bytes, enc: Encoding)
    ensures CharAt([AMP, HASH, LOWER_X, BANG, LOWER_X, 52, 50, SEMI] + rest, enc) == Char([66], rest)
  {
    var open: bytes := [AMP, HASH, LOWER_X, BANG, LOWER_X];
    var ds: bytes := [52, 50];
    assert open + (ds + ([SEMI] + rest)) == [AMP, HASH, LOWER_X, BANG, LOWER_X, 52, 50, SEMI] + rest;
    assert ds[..1] == [52] && [52][..0] == [];
    assert Number([52], 16) == 4 && Number(ds, 16) == 66;
    assert CodePoint(66, enc) == [66];
    hide CharAt, CodePoint, Number;
    HexReference(open, ds, rest, enc);
  }
}
