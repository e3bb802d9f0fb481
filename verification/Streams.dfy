/** COutStream and CInStream: typed values in network byte order, whatever the byte order of the host. */
module Streams {
  import opened Bytes

  // ----- byte order -----

  /** `hton16`, by arithmetic. */
  function ToNet16(x: nat, bigEndian: bool): (r: nat)
    requires x < 0x1_0000
    ensures r < 0x1_0000
  {
    if bigEndian then x else x % 256 * 256 + x / 256
  }

  /** `hton32`, by arithmetic. */
  function ToNet32(x: nat, bigEndian: bool): (r: nat)
    requires x < 0x1_0000_0000
    ensures r < 0x1_0000_0000
  {
    if bigEndian then x else Pack(Digit(x, 0), Digit(x, 1), Digit(x, 2), Digit(x, 3))
  }

  /** A word from its bytes, most significant first. */
  function Pack(a: byte, b: byte, c: byte, d: byte): (r: nat)
    ensures r < 0x1_0000_0000
  {
    ((a as nat * 256 + b as nat) * 256 + c as nat) * 256 + d as nat
  }

  /** The k-th byte of a number from its least significant one. */
  function Digit(x: nat, k: nat): byte
    decreases k
  {
    if k == 0 then (x % 256) as byte else Digit(x / 256, k - 1)
  }

  lemma DigitsOfPack(a: byte, b: byte, c: byte, d: byte)
    ensures var x := Pack(a, b, c, d);
            Digit(x, 0) == d && Digit(x, 1) == c && Digit(x, 2) == b && Digit(x, 3) == a
  {
    var x := Pack(a, b, c, d);
    var u := a as nat * 256 + b as nat;
    var v := u * 256 + c as nat;
    assert x == v * 256 + d as nat && x / 256 == v && v / 256 == u && u / 256 == a as nat;
    assert Digit(x, 1) == Digit(v, 0);
    assert Digit(x, 2) == Digit(v, 1) == Digit(u, 0);
    assert Digit(x, 3) == Digit(v, 2) == Digit(u, 1) == Digit(a as nat, 0);
  }

  lemma PackOfDigits(x: nat)
    requires x < 0x1_0000_0000
    ensures Pack(Digit(x, 3), Digit(x, 2), Digit(x, 1), Digit(x, 0)) == x
  {
    var v := x / 256;
    var u := v / 256;
    var w := u / 256;
    assert Digit(x, 1) == Digit(v, 0);
    assert Digit(x, 2) == Digit(v, 1) == Digit(u, 0);
    assert Digit(x, 3) == Digit(v, 2) == Digit(u, 1) == Digit(w, 0);
  }

  /** `hton64`. */
  function ToNet64(x: bv64, bigEndian: bool): bv64 {
    if bigEndian then x
    else ((x & 0x00000000000000FF) << 56) | ((x & 0x000000000000FF00) << 40) |
         ((x & 0x0000000000FF0000) << 24) | ((x & 0x00000000FF000000) << 8) |
         ((x & 0x000000FF00000000) >> 8) | ((x & 0x0000FF0000000000) >> 24) |
         ((x & 0x00FF000000000000) >> 40) | ((x & 0xFF00000000000000) >> 56)
  }

  /** The bytes of a word in memory, by address. */
  function Memory16(x: nat, bigEndian: bool): (r: bytes)
    requires x < 0x1_0000
    ensures |r| == 2
  {
    var hi, lo := (x / 256) as byte, (x % 256) as byte;
    if bigEndian then [hi, lo] else [lo, hi]
  }

  function Memory32(x: nat, bigEndian: bool): (r: bytes)
    requires x < 0x1_0000_0000
    ensures |r| == 4
  {
    if bigEndian then [Digit(x, 3), Digit(x, 2), Digit(x, 1), Digit(x, 0)]
    else [Digit(x, 0), Digit(x, 1), Digit(x, 2), Digit(x, 3)]
  }

  /** The word two bytes of memory make up. */
  function Word16(a: byte, b: byte, bigEndian: bool): (r: nat)
    ensures r < 0x1_0000
  {
    if bigEndian then a as nat * 256 + b as nat else b as nat * 256 + a as nat
  }

  function Word32(a: byte, b: byte, c: byte, d: byte, bigEndian: bool): (r: nat)
    ensures r < 0x1_0000_0000
  {
    if bigEndian then Pack(a, b, c, d) else Pack(d, c, b, a)
  }

  /** What a host converts and stores has its most significant byte first, and converting there and
      back changes nothing, so one function serves both directions. */
  lemma Net16(x: nat, bigEndian: bool)
    requires x < 0x1_0000
    ensures Memory16(ToNet16(x, bigEndian), bigEndian) == Memory16(x, true)
    ensures ToNet16(ToNet16(x, bigEndian), bigEndian) == x
  {
  }

  lemma Net32(x: nat, bigEndian: bool)
    requires x < 0x1_0000_0000
    ensures Memory32(ToNet32(x, bigEndian), bigEndian) == Memory32(x, true)
    ensures ToNet32(ToNet32(x, bigEndian), bigEndian) == x
  {
    hide Pack, Digit;
    DigitsOfPack(Digit(x, 0), Digit(x, 1), Digit(x, 2), Digit(x, 3));
    PackOfDigits(x);
  }

  function Memory64(x: bv64, bigEndian: bool): seq<bv64> {
    var a, b, c, d := x >> 56, (x >> 48) & 0xFF, (x >> 40) & 0xFF, (x >> 32) & 0xFF;
    var e, f, g, h := (x >> 24) & 0xFF, (x >> 16) & 0xFF, (x >> 8) & 0xFF, x & 0xFF;
    if bigEndian then [a, b, c, d, e, f, g, h] else [h, g, f, e, d, c, b, a]
  }

  lemma Net64(x: bv64, bigEndian: bool)
    ensures Memory64(ToNet64(x, bigEndian), bigEndian) == Memory64(x, true)
  {
    LowBytes(x);
    HighBytes(x);
    hide ToNet64;
    assert bigEndian ==> ToNet64(x, bigEndian) == x by { NetOnBigEndian(x); }
  }

  lemma NetOnBigEndian(x: bv64)
    ensures ToNet64(x, true) == x
  {
  }

  lemma LowBytes(x: bv64)
    ensures var y := ToNet64(x, false);
            y & 0xFF == x >> 56 && (y >> 8) & 0xFF == (x >> 48) & 0xFF &&
            (y >> 16) & 0xFF == (x >> 40) & 0xFF && (y >> 24) & 0xFF == (x >> 32) & 0xFF
  {
  }

  lemma HighBytes(x: bv64)
    ensures var y := ToNet64(x, false);
            (y >> 32) & 0xFF == (x >> 24) & 0xFF && (y >> 40) & 0xFF == (x >> 16) & 0xFF &&
            (y >> 48) & 0xFF == (x >> 8) & 0xFF && y >> 56 == x & 0xFF
  {
  }

  lemma Net64Twice(x: bv64, bigEndian: bool)
    ensures ToNet64(ToNet64(x, bigEndian), bigEndian) == x
  {
  }

  /** What a host loads and converts is the value the bytes denote, most significant first. */
  lemma Loads16(a: byte, b: byte, bigEndian: bool)
    ensures ToNet16(Word16(a, b, bigEndian), bigEndian) == Word16(a, b, true)
  {
  }

  lemma Loads32(a: byte, b: byte, c: byte, d: byte, bigEndian: bool)
    ensures ToNet32(Word32(a, b, c, d, bigEndian), bigEndian) == Word32(a, b, c, d, true)
  {
    hide Pack, Digit;
    DigitsOfPack(d, c, b, a);
  }

  // ----- what goes over the wire -----

  newtype uint16 = n: int | 0 <= n < 0x1_0000
  newtype uint32 = n: int | 0 <= n < 0x1_0000_0000
  newtype int8 = n: int | -0x80 <= n < 0x80
  newtype int16 = n: int | -0x8000 <= n < 0x8000
  newtype int32 = n: int | -0x8000_0000 <= n < 0x8000_0000

  datatype Item =
    | U8(u8: byte) | U16(u16: uint16) | U32(u32: uint32)
    | I8(i8: int8) | I16(i16: int16) | I32(i32: int32)
    | Text(s: bytes)

  datatype Kind = KU8 | KU16 | KU32 | KI8 | KI16 | KI32 | KText

  function KindOf(i: Item): Kind {
    match i
    case U8(_) => KU8
    case U16(_) => KU16
    case U32(_) => KU32
    case I8(_) => KI8
    case I16(_) => KI16
    case I32(_) => KI32
    case Text(_) => KText
  }

  /** The conversions between signed and unsigned: the same bits in two's complement. */
  function ToUnsigned(n: int, modulus: int): (r: nat)
    requires -modulus <= n < modulus
    ensures r < modulus
  {
    if n < 0 then n + modulus else n
  }

  function ToSigned(u: nat, modulus: int): (n: int)
    requires u < modulus && modulus % 2 == 0
    ensures -modulus <= 2 * n < modulus
  {
    if 2 * u >= modulus then u - modulus else u
  }

  /** The length prefix of a text: its length cast to 16 bits. */
  function Prefix(s: bytes): (n: nat)
    ensures n < 0x1_0000 && n <= |s|
    ensures n == |s| <==> |s| < 0x1_0000
  {
    |s| % 0x1_0000
  }

  function Wire(i: Item): bytes {
    match i
    case U8(n) => [n]
    case U16(n) => Memory16(n as nat, true)
    case U32(n) => Memory32(n as nat, true)
    case I8(n) => [ToUnsigned(n as int, 0x100) as byte]
    case I16(n) => Memory16(ToUnsigned(n as int, 0x1_0000), true)
    case I32(n) => Memory32(ToUnsigned(n as int, 0x1_0000_0000), true)
    case Text(s) => Memory16(Prefix(s), true) + s[..Prefix(s)]
  }

  /** The number the bytes denote, the highest first. */
  function Value(bs: bytes): nat {
    if bs == [] then 0 else Value(bs[..|bs| - 1]) * 256 + bs[|bs| - 1] as nat
  }

  /** Numbers are written with the highest byte first, negative ones in two's complement. */
  lemma NumberOnWire(i: Item)
    requires !i.Text?
    ensures var w := Wire(i);
            match i
            case U8(n) => |w| == 1 && Value(w) == n as nat
            case U16(n) => |w| == 2 && Value(w) == n as nat
            case U32(n) => |w| == 4 && Value(w) == n as nat
            case I8(n) => |w| == 1 && Value(w) == n as int + if n < 0 then 0x100 else 0
            case I16(n) => |w| == 2 && Value(w) == n as int + if n < 0 then 0x1_0000 else 0
            case I32(n) => |w| == 4 && Value(w) == n as int + if n < 0 then 0x1_0000_0000 else 0
  {
    match i
    case U8(n) => OneByteValue(n);
    case U16(n) => Value16(n as nat);
    case U32(n) => Value32(n as nat);
    case I8(n) => OneByteValue(ToUnsigned(n as int, 0x100) as byte);
    case I16(n) => Value16(ToUnsigned(n as int, 0x1_0000));
    case I32(n) => Value32(ToUnsigned(n as int, 0x1_0000_0000));
  }

  lemma OneByteValue(b: byte)
    ensures Value([b]) == b as nat
  {
    assert [b][..0] == [] && Value([]) == 0;
  }

  lemma ValueSnoc(bs: bytes, b: byte)
    ensures Value(bs + [b]) == Value(bs) * 256 + b as nat
  {
    assert (bs + [b])[..|bs|] == bs;
  }

  lemma Value16(n: nat)
    requires n < 0x1_0000
    ensures |Memory16(n, true)| == 2 && Value(Memory16(n, true)) == n
  {
    var w := Memory16(n, true);
    assert w == [w[0]] + [w[1]];
    OneByteValue(w[0]);
    ValueSnoc([w[0]], w[1]);
    hide Value;
  }

  lemma Value32(n: nat)
    requires n < 0x1_0000_0000
    ensures |Memory32(n, true)| == 4 && Value(Memory32(n, true)) == n
  {
    hide Value, Digit, Pack;
    var a, b, c, d := Digit(n, 3), Digit(n, 2), Digit(n, 1), Digit(n, 0);
    var w := Memory32(n, true);
    assert w == [a, b, c, d] == [a] + [b] + [c] + [d];
    OneByteValue(a);
    ValueSnoc([a], b);
    ValueSnoc([a] + [b], c);
    ValueSnoc([a] + [b] + [c], d);
    PackOfDigits(n);
    PackIsValue(a, b, c, d);
  }

  lemma PackIsValue(a: byte, b: byte, c: byte, d: byte)
    ensures Pack(a, b, c, d) == ((a as nat * 256 + b as nat) * 256 + c as nat) * 256 + d as nat
  {
  }

  /** A text is written as its length in two bytes and that many of its own. */
  lemma TextOnWire(s: bytes)
    requires |s| < 0x1_0000
    ensures var w := Wire(Text(s)); |w| == 2 + |s| && Value(w[..2]) == |s| && w[2..] == s
  {
    var len := Memory16(|s|, true);
    Value16(|s|);
    TakeDrop(len, s);
    assert s[..|s|] == s;
    hide Memory16, Value;
  }

  function WireAll(items: seq<Item>): bytes {
    if items == [] then [] else Wire(items[0]) + WireAll(items[1..])
  }

  datatype Decoded = Short | Got(item: Item, rest: bytes)

  function Load16(s: bytes, bigEndian: bool): (r: nat)
    requires |s| >= 2
    ensures r < 0x1_0000
  {
    ToNet16(Word16(s[0], s[1], bigEndian), bigEndian)
  }

  function Load32(s: bytes, bigEndian: bool): (r: nat)
    requires |s| >= 4
    ensures r < 0x1_0000_0000
  {
    ToNet32(Word32(s[0], s[1], s[2], s[3], bigEndian), bigEndian)
  }

  function WidthOf(kind: Kind): nat {
    match kind
    case KU8 => 1
    case KI8 => 1
    case KU16 => 2
    case KI16 => 2
    case KText => 2
    case KU32 => 4
    case KI32 => 4
  }

  /** Reading a value of some kind from the bytes ahead of the cursor. */
  function Decode(kind: Kind, s: bytes, bigEndian: bool): Decoded {
    if |s| < WidthOf(kind) then Short
    else
      match kind
      case KU8 => Got(U8(s[0]), s[1..])
      case KU16 => Got(U16(Load16(s, bigEndian) as uint16), s[2..])
      case KU32 => Got(U32(Load32(s, bigEndian) as uint32), s[4..])
      case KI8 => Got(I8(ToSigned(s[0] as nat, 0x100) as int8), s[1..])
      case KI16 => Got(I16(ToSigned(Load16(s, bigEndian), 0x1_0000) as int16), s[2..])
      case KI32 => Got(I32(ToSigned(Load32(s, bigEndian), 0x1_0000_0000) as int32), s[4..])
      case KText =>
        var n := Load16(s, bigEndian);
        if |s| < 2 + n then Short else Got(Text(s[2..2 + n]), s[2 + n..])
  }

  /** A run of reads: the values, and the bytes still ahead of the cursor. */
  datatype Reads = Reads(items: seq<Item>, rest: bytes)

  function DecodeAll(kinds: seq<Kind>, s: bytes, bigEndian: bool): Reads {
    if kinds == [] then Reads([], s)
    else
      var d := Decode(kinds[0], s, bigEndian);
      if d.Short? then Reads([], s)
      else
        var r := DecodeAll(kinds[1..], d.rest, bigEndian);
        r.(items := [d.item] + r.items)
  }

  /** What comes back: a text loses whole multiples of 65536 bytes at its end. */
  function Received(i: Item): Item {
    match i
    case Text(s) => Text(s[..Prefix(s)])
    case _ => i
  }

  function KindsOf(items: seq<Item>): seq<Kind> {
    if items == [] then [] else [KindOf(items[0])] + KindsOf(items[1..])
  }

  function ReceivedAll(items: seq<Item>): seq<Item> {
    if items == [] then [] else [Received(items[0])] + ReceivedAll(items[1..])
  }

  lemma Load16Back(n: nat, more: bytes, bigEndian: bool)
    requires n < 0x1_0000
    ensures var w := Memory16(n, true) + more;
            Load16(w, bigEndian) == n && w[2..] == more
  {
    var w := Memory16(n, true) + more;
    assert w[0] == (n / 256) as byte && w[1] == (n % 256) as byte;
    Loads16(w[0], w[1], bigEndian);
  }

  lemma Load32Back(n: nat, more: bytes, bigEndian: bool)
    requires n < 0x1_0000_0000
    ensures var w := Memory32(n, true) + more;
            Load32(w, bigEndian) == n && w[4..] == more
  {
    hide ToNet32, Pack, Digit;
    var w := Memory32(n, true) + more;
    Loads32(w[0], w[1], w[2], w[3], bigEndian);
    PackOfDigits(n);
  }

  lemma TextReadsBack(n: nat, text: bytes, more: bytes, bigEndian: bool)
    requires n == |text| < 0x1_0000
    ensures Decode(KText, Memory16(n, true) + text + more, bigEndian) == Got(Text(text), more)
  {
    hide Load16, Memory16;
    Assoc(Memory16(n, true), text, more);
    Load16Back(n, text + more, bigEndian);
    TakeDrop(text, more);
    var w := Memory16(n, true) + text + more;
    assert w[2..2 + n] == w[2..][..n] && w[2 + n..] == w[2..][n..];
  }

  /** A value is read back by a host of either byte order, and nothing else of the stream with it. */
  lemma WireReadsBack(i: Item, more: bytes, bigEndian: bool)
    ensures Decode(KindOf(i), Wire(i) + more, bigEndian) == Got(Received(i), more)
  {
    hide Load16, Load32, Memory16, Memory32, Prefix;
    match i
    case U8(n) =>
      assert (Wire(i) + more)[1..] == more;
    case I8(n) =>
      assert (Wire(i) + more)[1..] == more;
    case U16(n) => Load16Back(n as nat, more, bigEndian);
    case I16(n) => Load16Back(ToUnsigned(n as int, 0x1_0000), more, bigEndian);
    case U32(n) => Load32Back(n as nat, more, bigEndian);
    case I32(n) => Load32Back(ToUnsigned(n as int, 0x1_0000_0000), more, bigEndian);
    case Text(s) => TextReadsBack(Prefix(s), s[..Prefix(s)], more, bigEndian);
  }

  /** Any sequence of values is read back by the matching reads, which end where the writing ended. */
  lemma {:induction false} AllReadBack(items: seq<Item>, more: bytes, bigEndian: bool)
    ensures DecodeAll(KindsOf(items), WireAll(items) + more, bigEndian) == Reads(ReceivedAll(items), more)
    decreases |items|
  {
    if items == [] {
      assert WireAll(items) + more == more;
    } else {
      hide Decode, Wire, Received, KindOf;
      Assoc(Wire(items[0]), WireAll(items[1..]), more);
      WireReadsBack(items[0], WireAll(items[1..]) + more, bigEndian);
      AllReadBack(items[1..], more, bigEndian);
      assert KindsOf(items)[1..] == KindsOf(items[1..]);
    }
  }

  /** They come back unchanged exactly when every text is shorter than 65536 bytes. */
  lemma {:induction false} UnchangedIffShort(items: seq<Item>)
    ensures ReceivedAll(items) == items <==> forall i :: 0 <= i < |items| && items[i].Text? ==> |items[i].s| < 0x1_0000
    decreases |items|
  {
    if items == [] {
    } else {
      UnchangedIffShort(items[1..]);
      var r := ReceivedAll(items);
      assert r == items <==> r[0] == items[0] && r[1..] == items[1..];
      assert r[1..] == ReceivedAll(items[1..]);
      assert forall i :: 1 <= i < |items| ==> items[i] == items[1..][i - 1];
    }
  }

  /** A text of 65536 bytes comes back empty. */
  lemma LongTextIsLost(s: bytes)
    requires |s| == 0x1_0000
    ensures ReceivedAll([Text(s)]) == [Text([])] != [Text(s)]
  {
    assert [Text(s)][1..] == [] && s[..0] == [];
  }

  // ----- writing -----

  /** The bytes of b with data written over those at the place. */
  function Overwritten(b: bytes, at: nat, data: bytes): (r: bytes)
    requires at <= |b|
    ensures |r| == if at + |data| < |b| then |b| else at + |data|
  {
    b[..at] + data + if at + |data| < |b| then b[at + |data|..] else []
  }

  /** Only the overwritten bytes change. */
  lemma OverwrittenAt(b: bytes, at: nat, data: bytes, i: nat)
    requires at <= |b| && i < |Overwritten(b, at, data)|
    ensures Overwritten(b, at, data)[i] == if at <= i < at + |data| then data[i - at] else b[i]
  {
  }

  lemma OverwrittenTwice(b: bytes, at: nat, x: bytes, y: bytes)
    requires at <= |b|
    ensures Overwritten(Overwritten(b, at, x), at + |x|, y) == Overwritten(b, at, x + y)
  {
  }

  class COutStream {
    var buffer: bytes
    var currIndex: nat
    const bigEndian: bool

    predicate Valid()
      reads this
    {
      currIndex <= |buffer|
    }

    /** What `Data()` and `Length()` show. */
    function Written(): bytes
      requires Valid()
      reads this
    {
      buffer[..currIndex]
    }

    constructor (bigEndian: bool)
      ensures Valid() && Written() == [] && this.bigEndian == bigEndian && |buffer| == 1024
    {
      this.bigEndian, buffer, currIndex := bigEndian, seq(1024, _ => 0), 0;
    }

    method EnsureWriteableBytes(len: nat)
      requires Valid()
      modifies this`buffer
      ensures Valid() && currIndex + len <= |buffer| && old(buffer) <= buffer
      ensures |buffer| == if currIndex + len > |old(buffer)| then currIndex + len else |old(buffer)|
      ensures forall i {:trigger buffer[i]} :: |old(buffer)| <= i < |buffer| ==> buffer[i] == 0
    {
      if |buffer| - currIndex < len {
        buffer := buffer + seq(currIndex + len - |buffer|, _ => 0);
      }
    }

    method Append(data: bytes)
      requires Valid()
      modifies this`buffer, this`currIndex
      ensures Valid() && currIndex == old(currIndex) + |data| && Written() == old(Written()) + data
      ensures buffer == Overwritten(old(buffer), old(currIndex), data)
    {
      EnsureWriteableBytes(|data|);
      buffer := buffer[..currIndex] + data + buffer[currIndex + |data|..];
      currIndex := currIndex + |data|;
    }

    /** The typed operators: the value is converted, and its bytes in memory are appended. */
    method Write(i: Item)
      requires Valid()
      modifies this`buffer, this`currIndex
      ensures Valid() && Written() == old(Written()) + Wire(i)
      ensures buffer == Overwritten(old(buffer), old(currIndex), Wire(i))
    {
      match i {
      case U8(n) => Append([n]);
      case I8(n) => Append([ToUnsigned(n as int, 0x100) as byte]);
      case U16(n) => Write16(n as nat);
      case I16(n) => Write16(ToUnsigned(n as int, 0x1_0000));
      case U32(n) => Write32(n as nat);
      case I32(n) => Write32(ToUnsigned(n as int, 0x1_0000_0000));
      case Text(s) =>
        ghost var b, at, len := buffer, currIndex, Memory16(Prefix(s), true);
        hide Overwritten;
        OverwrittenTwice(b, at, len, s[..Prefix(s)]);
        Assoc(Written(), len, s[..Prefix(s)]);
        Write16(Prefix(s));
        Append(s[..Prefix(s)]);
      }
    }

    method Write16(n: nat)
      requires Valid() && n < 0x1_0000
      modifies this`buffer, this`currIndex
      ensures Valid() && currIndex == old(currIndex) + 2 && Written() == old(Written()) + Memory16(n, true)
      ensures buffer == Overwritten(old(buffer), old(currIndex), Memory16(n, true))
    {
      hide Overwritten, Memory16, ToNet16;
      Net16(n, bigEndian);
      Append(Memory16(ToNet16(n, bigEndian), bigEndian));
    }

    method Write32(n: nat)
      requires Valid() && n < 0x1_0000_0000
      modifies this`buffer, this`currIndex
      ensures Valid() && Written() == old(Written()) + Memory32(n, true)
      ensures buffer == Overwritten(old(buffer), old(currIndex), Memory32(n, true))
    {
      hide Overwritten, Memory32, ToNet32;
      Net32(n, bigEndian);
      Append(Memory32(ToNet32(n, bigEndian), bigEndian));
    }

    /** Moves the cursor. The stream can be written to again if the place is inside the buffer. */
    method Reposition(pos: nat)
      modifies this`currIndex
      ensures currIndex == pos && (Valid() <==> pos <= |buffer|)
      ensures pos <= |buffer| ==> Written() == buffer[..pos]
    {
      currIndex := pos;
    }

    method Clear()
      modifies this`buffer, this`currIndex
      ensures Valid() && Written() == [] && buffer == []
    {
      buffer, currIndex := [], 0;
    }

    /** Leaves room, with the bytes that are there, or zeros. */
    method Skip(len: nat)
      requires Valid()
      modifies this`buffer, this`currIndex
      ensures Valid() && currIndex == old(currIndex) + len
      ensures |buffer| == if currIndex > |old(buffer)| then currIndex else |old(buffer)|
      ensures forall i {:trigger buffer[i]} :: 0 <= i < |buffer| ==>
                buffer[i] == if i < |old(buffer)| then old(buffer)[i] else 0
    {
      EnsureWriteableBytes(len);
      currIndex := currIndex + len;
    }
  }

  // ----- reading -----

  class CInStream {
    var buffer: bytes
    var currIndex: nat
    const bigEndian: bool

    predicate Valid()
      reads this
    {
      currIndex <= |buffer|
    }

    /** The bytes ahead of the cursor. */
    function Ahead(): bytes
      requires Valid()
      reads this
    {
      buffer[currIndex..]
    }

    constructor (data: bytes, bigEndian: bool)
      ensures Valid() && Ahead() == data && this.bigEndian == bigEndian
    {
      this.bigEndian, buffer, currIndex := bigEndian, data, 0;
    }

    method SetData(data: bytes)
      modifies this`buffer, this`currIndex
      ensures Valid() && Ahead() == data
    {
      buffer, currIndex := data, 0;
    }

    method Peek16() returns (n: nat)
      requires Valid() && |Ahead()| >= 2
      ensures n == Load16(Ahead(), bigEndian)
    {
      n := ToNet16(Word16(buffer[currIndex], buffer[currIndex + 1], bigEndian), bigEndian);
    }

    method Peek32() returns (n: nat)
      requires Valid() && |Ahead()| >= 4
      ensures n == Load32(Ahead(), bigEndian)
    {
      var i := currIndex;
      n := ToNet32(Word32(buffer[i], buffer[i + 1], buffer[i + 2], buffer[i + 3], bigEndian), bigEndian);
    }

    method ReadBytes(len: nat) returns (data: bytes)
      requires Valid() && |Ahead()| >= len
      modifies this`currIndex
      ensures Valid() && data == old(Ahead())[..len] && Ahead() == old(Ahead())[len..]
    {
      data := buffer[currIndex..currIndex + len];
      currIndex := currIndex + len;
    }

    /** The typed operators, and for texts a length followed by that many bytes. The stream has to
        hold a value of the kind. */
    method Read(kind: Kind) returns (i: Item)
      requires Valid() && Decode(kind, Ahead(), bigEndian).Got?
      modifies this`currIndex
      ensures Valid() && Got(i, Ahead()) == Decode(kind, old(Ahead()), bigEndian)
    {
      hide Load16, Load32;
      ghost var ahead := Ahead();
      var n := 0;
      match kind {
      case KU8 => i := U8(buffer[currIndex]);
      case KI8 => i := I8(ToSigned(buffer[currIndex] as nat, 0x100) as int8);
      case KU16 =>
        n := Peek16();
        i := U16(n as uint16);
      case KI16 =>
        n := Peek16();
        i := I16(ToSigned(n, 0x1_0000) as int16);
      case KU32 =>
        n := Peek32();
        i := U32(n as uint32);
      case KI32 =>
        n := Peek32();
        i := I32(ToSigned(n, 0x1_0000_0000) as int32);
      case KText =>
        n := Peek16();
        currIndex := currIndex + 2;
        var data := ReadBytes(n);
        assert ahead[2..][..n] == ahead[2..2 + n] && ahead[2..][n..] == ahead[2 + n..];
        return Text(data);
      }
      currIndex := currIndex + WidthOf(kind);
    }
  }
}
