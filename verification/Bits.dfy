/** The bit operations of the source, on numbers: what the conversions are modelled to compute by
    arithmetic is what the source computes by masks, shifts and marks. */
module Bits {
  import opened Bytes
  import Utf8
  import Streams

  // ----- the operations, digit by digit -----

  /** A number but for its last binary digit. */
  function Half(n: nat): (r: nat)
    ensures 2 * r <= n <= 2 * r + 1
  {
    n / 2
  }

  predicate IsOdd(n: nat) {
    n % 2 == 1
  }

  /** `a & b`. */
  function And(a: nat, b: nat): (r: nat)
    ensures r <= a && r <= b
  {
    if a == 0 || b == 0 then 0 else 2 * And(Half(a), Half(b)) + if IsOdd(a) && IsOdd(b) then 1 else 0
  }

  /** `a | b`. */
  function Or(a: nat, b: nat): (r: nat)
    ensures r >= a && r >= b
    decreases a + b
  {
    if a == 0 && b == 0 then 0 else 2 * Or(Half(a), Half(b)) + if IsOdd(a) || IsOdd(b) then 1 else 0
  }

  function Pow2(k: nat): (p: nat)
    ensures p > 0
  {
    if k == 0 then 1 else 2 * Pow2(k - 1)
  }

  /** `a << k`, without a width. */
  function Shl(a: nat, k: nat): nat {
    if k == 0 then a else 2 * Shl(a, k - 1)
  }

  /** `a >> k`. */
  function Shr(a: nat, k: nat): nat {
    if k == 0 then a else Shr(a / 2, k - 1)
  }

  // ----- shifts by known amounts -----

  lemma Powers()
    ensures Pow2(3) == 8 && Pow2(4) == 16 && Pow2(5) == 32 && Pow2(6) == 64 && Pow2(8) == 256
    ensures Pow2(16) == 0x1_0000 && Pow2(24) == 0x100_0000
  {
    assert Pow2(1) == 2 && Pow2(2) == 4 && Pow2(7) == 128;
    PowersBehind(8);
    PowersBehind(16);
  }

  lemma PowersBehind(k: nat)
    ensures Pow2(k + 8) == 256 * Pow2(k)
  {
    assert Pow2(k + 2) == 4 * Pow2(k) && Pow2(k + 4) == 16 * Pow2(k) && Pow2(k + 6) == 64 * Pow2(k);
  }

  lemma Products(a: nat)
    ensures Shl(a, 3) == 8 * a && Shl(a, 4) == 16 * a && Shl(a, 5) == 32 * a && Shl(a, 6) == 64 * a
    ensures Shl(a, 8) == 256 * a && Shl(a, 16) == 0x1_0000 * a && Shl(a, 24) == 0x100_0000 * a
  {
    assert Shl(a, 1) == 2 * a && Shl(a, 2) == 4 * a && Shl(a, 3) == 8 * a && Shl(a, 4) == 16 * a;
    assert Shl(a, 5) == 32 * a && Shl(a, 6) == 64 * a && Shl(a, 7) == 128 * a;
    ProductsBehind(a, 8);
    ProductsBehind(a, 16);
  }

  lemma ProductsBehind(a: nat, k: nat)
    ensures Shl(a, k + 8) == 256 * Shl(a, k)
  {
    assert Shl(a, k + 2) == 4 * Shl(a, k) && Shl(a, k + 4) == 16 * Shl(a, k) && Shl(a, k + 6) == 64 * Shl(a, k);
  }

  lemma Quotients(a: nat)
    ensures Shr(a, 6) == a / 64 && Shr(a, 8) == a / 256 && Shr(a, 24) == a / 0x100_0000
  {
    QuotientBy64(a);
    QuotientBy256(a);
    QuotientBy256(a / 256);
    QuotientBy256(a / 256 / 256);
    QuotientsBehind(a, 16);
    QuotientsBehind(a / 256, 8);
    assert a / 256 / 256 / 256 == a / 0x100_0000;
    hide Shr;
  }

  lemma QuotientBy64(a: nat)
    ensures Shr(a, 6) == a / 64
  {
    Quarter(a, 4);
    Quarter(a / 4, 2);
    Quarter(a / 4 / 4, 0);
    assert Shr(a / 4 / 4 / 4, 0) == a / 4 / 4 / 4 == a / 64;
    hide Shr;
  }

  lemma QuotientBy256(a: nat)
    ensures Shr(a, 8) == a / 256
  {
    QuotientsBehind(a, 0);
    assert Shr(a / 256, 0) == a / 256;
    hide Shr;
  }

  lemma Quarter(a: nat, k: nat)
    ensures Shr(a, k + 2) == Shr(a / 4, k)
  {
    assert Shr(a, k + 2) == Shr(a / 2, k + 1) == Shr(a / 2 / 2, k);
  }

  lemma QuotientsBehind(a: nat, k: nat)
    ensures Shr(a, k + 8) == Shr(a / 256, k)
  {
    Quarter(a, k + 6);
    Quarter(a / 4, k + 4);
    Quarter(a / 16, k + 2);
    Quarter(a / 64, k);
    hide Shr;
  }

  // ----- high and low digits -----

  lemma AndNext(a: nat, b: nat)
    ensures And(a, b) == 2 * And(Half(a), Half(b)) + if IsOdd(a) && IsOdd(b) then 1 else 0
  {
  }

  lemma OrNext(a: nat, b: nat)
    ensures Or(a, b) == 2 * Or(Half(a), Half(b)) + if IsOdd(a) || IsOdd(b) then 1 else 0
  {
  }

  lemma HalfOf(m: nat, b: nat)
    ensures Half(2 * m + b) == m + Half(b) && (IsOdd(2 * m + b) <==> IsOdd(b))
  {
  }

  lemma PowNext(k: nat)
    requires k > 0
    ensures Pow2(k) == 2 * Pow2(k - 1)
  {
  }

  lemma NoShift(a: nat)
    ensures Shl(a, 0) == a && Pow2(0) == 1
  {
  }

  lemma ShlNext(a: nat, k: nat)
    requires k > 0
    ensures Shl(a, k) == 2 * Shl(a, k - 1)
  {
  }

  /** The high digits and the low digits are taken apart from each other. */
  lemma {:induction false} AndParts(a: nat, b: nat, c: nat, d: nat, k: nat)
    requires b < Pow2(k) && d < Pow2(k)
    ensures And(Shl(a, k) + b, Shl(c, k) + d) == Shl(And(a, c), k) + And(b, d)
  {
    hide And, Shl, Pow2, Half, IsOdd;
    if k == 0 {
      NoShift(a);
      NoShift(c);
      NoShift(And(a, c));
      AndZero(0);
    } else {
      ShlNext(a, k);
      ShlNext(c, k);
      ShlNext(And(a, c), k);
      PowNext(k);
      HalfOf(Shl(a, k - 1), b);
      HalfOf(Shl(c, k - 1), d);
      AndNext(Shl(a, k) + b, Shl(c, k) + d);
      AndNext(b, d);
      AndParts(a, Half(b), c, Half(d), k - 1);
    }
  }

  lemma AndSplit(m: nat, n: nat, a: nat, b: nat, c: nat, d: nat, k: nat)
    requires b < Pow2(k) && d < Pow2(k) && m == Shl(a, k) + b && n == Shl(c, k) + d
    ensures And(m, n) == Shl(And(a, c), k) + And(b, d)
  {
    hide And, Shl, Pow2, Or, Shr, Half, IsOdd;
    AndParts(a, b, c, d, k);
  }

  lemma {:induction false} OrParts(a: nat, b: nat, c: nat, d: nat, k: nat)
    requires b < Pow2(k) && d < Pow2(k)
    ensures Or(Shl(a, k) + b, Shl(c, k) + d) == Shl(Or(a, c), k) + Or(b, d)
  {
    hide Or, Shl, Pow2, Half, IsOdd;
    if k == 0 {
      NoShift(a);
      NoShift(c);
      NoShift(Or(a, c));
      OrZero(0);
    } else {
      ShlNext(a, k);
      ShlNext(c, k);
      ShlNext(Or(a, c), k);
      PowNext(k);
      HalfOf(Shl(a, k - 1), b);
      HalfOf(Shl(c, k - 1), d);
      OrNext(Shl(a, k) + b, Shl(c, k) + d);
      OrNext(b, d);
      OrParts(a, Half(b), c, Half(d), k - 1);
    }
  }

  lemma OrSplit(m: nat, n: nat, a: nat, b: nat, c: nat, d: nat, k: nat)
    requires b < Pow2(k) && d < Pow2(k) && m == Shl(a, k) + b && n == Shl(c, k) + d
    ensures Or(m, n) == Shl(Or(a, c), k) + Or(b, d)
  {
    hide Or, Shl, Pow2, And, Shr, Half, IsOdd;
    OrParts(a, b, c, d, k);
  }

  lemma AndZero(a: nat)
    ensures And(a, 0) == 0 && And(0, a) == 0
  {
  }

  lemma {:induction false} OrZero(a: nat)
    ensures Or(a, 0) == a && Or(0, a) == a
  {
    if a == 0 {
    } else {
      OrZero(Half(a));
    }
  }

  lemma {:induction false} ShlZero(k: nat)
    ensures Shl(0, k) == 0
  {
    if k == 0 {
    } else {
      ShlZero(k - 1);
    }
  }

  /** Digits that do not overlap add up. */
  lemma OrAdds(a: nat, b: nat, k: nat)
    requires b < Pow2(k)
    ensures Or(Shl(a, k), b) == Shl(a, k) + b && Or(b, Shl(a, k)) == Shl(a, k) + b
  {
    hide Or, Shl, Pow2, And, Shr, Half, IsOdd;
    OrZero(a);
    OrZero(b);
    ShlZero(k);
    OrSplit(Shl(a, k), b, a, 0, 0, b, k);
    OrSplit(b, Shl(a, k), 0, b, a, 0, k);
  }

  lemma {:induction false} AndOnes(b: nat, k: nat)
    requires b < Pow2(k)
    ensures And(b, Pow2(k) - 1) == b && And(Pow2(k) - 1, b) == b
  {
    if k == 0 {
    } else {
      HalfOf(Pow2(k - 1) - 1, 1);
      assert 2 * (Pow2(k - 1) - 1) + 1 == Pow2(k) - 1;
      AndOnes(Half(b), k - 1);
      AndNext(b, Pow2(k) - 1);
      AndNext(Pow2(k) - 1, b);
      hide And;
      assert b == 2 * Half(b) + if IsOdd(b) then 1 else 0;
    }
  }

  /** A mask of ones takes the low digits. */
  lemma AndLow(a: nat, b: nat, k: nat)
    requires b < Pow2(k)
    ensures And(Shl(a, k) + b, Pow2(k) - 1) == b && And(Pow2(k) - 1, Shl(a, k) + b) == b
  {
    hide And, Shl, Pow2, Or, Shr, Half, IsOdd;
    AndZero(a);
    ShlZero(k);
    AndOnes(b, k);
    AndSplit(Shl(a, k) + b, Pow2(k) - 1, a, b, 0, Pow2(k) - 1, k);
    AndSplit(Pow2(k) - 1, Shl(a, k) + b, 0, Pow2(k) - 1, a, b, k);
  }

  // ----- the UTF-8 conversion -----

  /** A continuation byte as the source computes it. */
  function Continuation(x: nat): nat {
    And(Or(x, 0x80), 0xBF)
  }

  lemma ContinuationIs(x: nat)
    ensures Continuation(x) == 0x80 + x % 64
  {
    hide And, Or, Shl, Shr, Pow2, Half, IsOdd;
    var a, b := x / 64, x % 64;
    OrWith80(a, b);
    AndWithBF(Or(a, 2), b);
    SecondDigit(a);
    assert x == 64 * a + b;
  }

  lemma OrWith80(a: nat, b: nat)
    requires b < 64
    ensures Or(64 * a + b, 0x80) == 64 * Or(a, 2) + b
  {
    hide Or, Pow2, Shl, And, Shr, Half, IsOdd;
    Powers();
    Products(a);
    Products(2);
    Products(Or(a, 2));
    OrZero(b);
    OrSplit(64 * a + b, 0x80, a, b, 2, 0, 6);
  }

  lemma AndWithBF(c: nat, b: nat)
    requires b < 64
    ensures And(64 * c + b, 0xBF) == 64 * And(c, 2) + b
  {
    hide And, Pow2, Shl, Or, Shr, Half, IsOdd;
    Powers();
    Products(c);
    Products(2);
    Products(And(c, 2));
    AndOnes(b, 6);
    AndSplit(64 * c + b, 0xBF, c, b, 2, 63, 6);
  }

  lemma SecondDigit(a: nat)
    ensures And(Or(a, 2), 2) == 2
  {
    OrNext(a, 2);
    OrNext(Half(a), 1);
    AndNext(Or(a, 2), 2);
    AndNext(Or(Half(a), 1), 1);
    assert Half(2) == 1 && Half(1) == 0 && !IsOdd(2) && IsOdd(1);
    assert And(Half(Or(Half(a), 1)), 0) == 0;
    HalfOf(Or(Half(a), 1), if IsOdd(a) then 1 else 0);
    HalfOf(Or(Half(Half(a)), 0), 1);
    hide And, Or, Half, IsOdd;
  }

  lemma LeadMarks(c: nat)
    ensures c < 32 ==> Or(c, 0xC0) == 0xC0 + c
    ensures c < 16 ==> Or(c, 0xE0) == 0xE0 + c
    ensures c < 8 ==> Or(c, 0xF0) == 0xF0 + c
  {
    hide Or, Pow2, Shl, And, Shr, Half, IsOdd;
    Powers();
    Products(6);
    Products(14);
    Products(30);
    if c < 32 {
      OrAdds(6, c, 5);
    }
    if c < 16 {
      OrAdds(14, c, 4);
    }
    if c < 8 {
      OrAdds(30, c, 3);
    }
  }

  /** What the source writes for an input, from its last byte to its first. */
  function SourceBytes(x: nat, length: nat): seq<nat>
    requires 1 <= length <= 4
  {
    var y := Shr(x, 6);
    var z := Shr(y, 6);
    if length == 1 then [x]
    else if length == 2 then [Continuation(x), Or(y, 0xC0)]
    else if length == 3 then [Continuation(x), Continuation(y), Or(z, 0xE0)]
    else [Continuation(x), Continuation(y), Continuation(z), Or(Shr(z, 6), 0xF0)]
  }

  lemma SourceBytesAre(u: nat, length: nat)
    requires 1 <= length <= 4
    requires length == 2 ==> u < 0x800
    requires length == 3 ==> u < 0x1_0000
    requires length == 4 ==> u < 0x20_0000
    ensures SourceBytes(u, length)
            == if length == 1 then [u]
               else if length == 2 then [0x80 + u % 64, 0xC0 + u / 64]
               else if length == 3 then [0x80 + u % 64, 0x80 + u / 64 % 64, 0xE0 + u / 4096]
               else [0x80 + u % 64, 0x80 + u / 64 % 64, 0x80 + u / 4096 % 64, 0xF0 + u / 262144]
  {
    hide Or, Pow2, Shr, Continuation, And, Shl, Half, IsOdd;
    var u1, u2, u3 := u / 64, u / 4096, u / 262144;
    assert u1 / 64 == u2 && u2 / 64 == u3;
    Quotients(u);
    Quotients(u1);
    Quotients(u2);
    ContinuationIs(u);
    ContinuationIs(u1);
    ContinuationIs(u2);
    LeadMarks(u1);
    LeadMarks(u2);
    LeadMarks(u3);
  }

  /** The bytes of the conversion are those the source computes from its input. */
  lemma ConvertedAsInSource(u: nat)
    requires u < 0x20_0000
    ensures var s := Utf8.Encode(u);
            var bytes := SourceBytes(u, |s|);
            |bytes| == |s| && forall i :: 0 <= i < |s| ==> s[|s| - 1 - i] as nat == bytes[i]
  {
    SourceBytesAre(u, |Utf8.Encode(u)|);
    hide SourceBytes;
  }

  // ----- network byte order -----

  /** `hton16` on a little-endian host, as the source computes it. */
  lemma Hton16AsInSource(n: nat)
    requires n < 0x1_0000
    ensures Streams.ToNet16(n, false) == Or(Shl(And(0xFF, n), 8), And(Shr(n, 8), 0xFF))
  {
    hide And, Or, Pow2, Shl, Shr, Half, IsOdd;
    var a, b := n / 256, n % 256;
    Powers();
    Products(a);
    Products(b);
    Quotients(n);
    AndLow(a, b, 8);
    AndOnes(a, 8);
    OrAdds(b, a, 8);
  }

  /** The digits of a number under one byte of ones. */
  lemma MaskedByte(a: nat, b: byte, c: nat, k: nat)
    requires c < Pow2(k)
    ensures And(Shl(0xFF, k), Shl(a * 256 + b as nat, k) + c) == Shl(b as nat, k)
  {
    hide And, Pow2, Shl, Or, Shr, Half, IsOdd;
    AndSplit(Shl(0xFF, k), Shl(a * 256 + b as nat, k) + c, 0xFF, 0, a * 256 + b as nat, c, k);
    AndZero(c);
    Powers();
    Products(a);
    AndLow(a, b as nat, 8);
  }

  /** `hton32` on a little-endian host, as the source computes it. */
  lemma Hton32AsInSource(n: nat)
    requires n < 0x1_0000_0000
    ensures Streams.ToNet32(n, false)
            == Or(Or(Or(Shl(And(0x0000_00FF, n), 24), Shl(And(0x0000_FF00, n), 8)),
                     Shr(And(0x00FF_0000, n), 8)), Shr(And(0xFF00_0000, n), 24))
  {
    hide And, Streams.Digit, Or, Shl, Shr, Pow2, Half, IsOdd;
    var a, b, c, d := Streams.Digit(n, 3), Streams.Digit(n, 2), Streams.Digit(n, 1), Streams.Digit(n, 0);
    Streams.PackOfDigits(n);
    MaskedBytes(a, b, c, d);
    OrOfDigits(d as nat, c as nat, b as nat, a as nat);
  }

  lemma OrOfDigits(w: nat, z: nat, y: nat, x: nat)
    requires w < 256 && z < 256 && y < 256 && x < 256
    ensures Or(Or(Or(Shl(w, 24), Shl(z * 256, 8)), Shr(y * 0x1_0000, 8)), Shr(x * 0x100_0000, 24))
            == ((w * 256 + z) * 256 + y) * 256 + x
  {
    hide Or, Shl, Shr, And, Pow2, Half, IsOdd;
    Products(w);
    Products(z * 256);
    Quotients(y * 0x1_0000);
    Quotients(x * 0x100_0000);
    assert y * 0x1_0000 / 256 == y * 256 && x * 0x100_0000 / 0x100_0000 == x;
    OrByProduct(w, z * 0x1_0000, 24, 0x100_0000);
    OrByProduct(w * 256 + z, y * 256, 16, 0x1_0000);
    OrByProduct(w * 0x1_0000 + z * 256 + y, x, 8, 256);
  }

  lemma OrByProduct(a: nat, b: nat, k: nat, p: nat)
    requires (k == 8 && p == 256) || (k == 16 && p == 0x1_0000) || (k == 24 && p == 0x100_0000)
    requires b < p
    ensures Or(p * a, b) == p * a + b
  {
    hide Or, Pow2, Shl, And, Shr, Half, IsOdd;
    Powers();
    Products(a);
    OrAdds(a, b, k);
  }

  lemma MaskedBytes(a: byte, b: byte, c: byte, d: byte)
    ensures var n := Streams.Pack(a, b, c, d);
            And(0x0000_00FF, n) == d as nat && And(0x0000_FF00, n) == c as nat * 256 &&
            And(0x00FF_0000, n) == b as nat * 0x1_0000 && And(0xFF00_0000, n) == a as nat * 0x100_0000
  {
    hide And, Streams.Pack, Or, Shl, Shr, Pow2, Half, IsOdd;
    var x, y, z, w := a as nat, b as nat, c as nat, d as nat;
    var n := Streams.Pack(a, b, c, d);
    PackIs(a, b, c, d);
    Lowest((x * 256 + y) * 256 + z, d);
    Masked8(x * 256 + y, c, w);
    Masked16(x, b, z * 256 + w);
    Masked24(a, (y * 256 + z) * 256 + w);
  }

  lemma PackIs(a: byte, b: byte, c: byte, d: byte)
    ensures var x, y, z, w := a as nat, b as nat, c as nat, d as nat;
            var n := Streams.Pack(a, b, c, d);
            n == ((x * 256 + y) * 256 + z) * 256 + w && n == (x * 256 + y) * 0x1_0000 + (z * 256 + w) &&
            n == x * 0x100_0000 + ((y * 256 + z) * 256 + w)
  {
  }

  lemma Lowest(a: nat, b: byte)
    ensures And(0xFF, a * 256 + b as nat) == b as nat
  {
    hide And, Pow2, Shl, Or, Shr, Half, IsOdd;
    Powers();
    Products(a);
    AndLow(a, b as nat, 8);
  }

  lemma Masked8(a: nat, b: byte, c: nat)
    requires c < 256
    ensures And(0xFF00, (a * 256 + b as nat) * 256 + c) == b as nat * 256
  {
    hide And, Pow2, Shl, Or, Shr, Half, IsOdd;
    Powers();
    Products(0xFF);
    Products(a * 256 + b as nat);
    Products(b as nat);
    MaskedByte(a, b, c, 8);
  }

  lemma Masked16(a: nat, b: byte, c: nat)
    requires c < 0x1_0000
    ensures And(0xFF_0000, (a * 256 + b as nat) * 0x1_0000 + c) == b as nat * 0x1_0000
  {
    hide And, Pow2, Shl, Or, Shr, Half, IsOdd;
    Powers();
    Products(0xFF);
    Products(a * 256 + b as nat);
    Products(b as nat);
    MaskedByte(a, b, c, 16);
  }

  lemma Masked24(b: byte, c: nat)
    requires c < 0x100_0000
    ensures And(0xFF00_0000, b as nat * 0x100_0000 + c) == b as nat * 0x100_0000
  {
    hide And, Pow2, Shl, Or, Shr, Half, IsOdd;
    Powers();
    Products(0xFF);
    Products(b as nat);
    MaskedByte(0, b, c, 24);
  }
}
