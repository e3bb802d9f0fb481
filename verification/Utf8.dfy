/** The lead-byte table and the UTF-32 to UTF-8 conversion, against section 3 of RFC 3629. */
module Utf8 {
  import opened Bytes

  /** `utf8ByteTable`: length of the sequence a lead byte announces, 1 for an invalid lead. */
  function ByteTable(lead: byte): (n: nat)
    ensures 1 <= n <= 4
  {
    if lead < 0xC2 then 1
    else if lead < 0xE0 then 2
    else if lead < 0xF0 then 3
    else if lead < 0xF5 then 4
    else 1
  }

  predicate IsContinuation(c: byte) {
    0x80 <= c < 0xC0
  }

  /** A byte sequence that section 3 of RFC 3629 allows for one character number, surrogates
      included: right length for the lead byte, continuation bytes, shortest form, at most
      0x10FFFF. */
  predicate IsChar(s: bytes) {
    s != [] &&
    (forall i :: 1 <= i < |s| ==> IsContinuation(s[i])) &&
    match |s|
    case 1 => s[0] < 0x80
    case 2 => 0xC2 <= s[0] < 0xE0
    case 3 => 0xE0 <= s[0] < 0xF0 && (s[0] == 0xE0 ==> 0xA0 <= s[1])
    case 4 => 0xF0 <= s[0] < 0xF5 && (s[0] == 0xF0 ==> 0x90 <= s[1]) && (s[0] == 0xF4 ==> s[1] < 0x90)
    case _ => false
  }

  /** The character number a sequence stands for: the payload bits of its bytes, in order. */
  function Decode(s: bytes): nat
    requires IsChar(s)
  {
    var tail := (i: int) requires 1 <= i < |s| => s[i] as int - 0x80;
    match |s|
    case 1 => s[0] as nat
    case 2 => (s[0] as int - 0xC0) * 64 + tail(1)
    case 3 => (s[0] as int - 0xE0) * 4096 + tail(1) * 64 + tail(2)
    case _ => (s[0] as int - 0xF0) * 262144 + tail(1) * 4096 + tail(2) * 64 + tail(3)
  }

  function EncodedLength(u: nat): nat {
    if u < 0x80 then 1
    else if u < 0x800 then 2
    else if u < 0x10000 then 3
    else if u < 0x200000 then 4
    else 0
  }

  function Tail(u: nat, shift: nat): byte
    requires shift > 0
  {
    (0x80 + u / shift % 64) as byte
  }

  /** What the conversion writes: nothing above 0x1FFFFF. */
  function Encode(u: nat): (s: bytes)
    ensures |s| == EncodedLength(u)
  {
    if u < 0x80 then [u as byte]
    else if u < 0x800 then [(0xC0 + u / 64) as byte, Tail(u, 1)]
    else if u < 0x10000 then [(0xE0 + u / 4096) as byte, Tail(u, 64), Tail(u, 1)]
    else if u < 0x200000 then [(0xF0 + u / 262144) as byte, Tail(u, 4096), Tail(u, 64), Tail(u, 1)]
    else []
  }

  lemma SplitBase64(u: nat)
    ensures u == u / 64 * 64 + u % 64
    ensures u / 64 == u / 4096 * 64 + u / 64 % 64
    ensures u / 4096 == u / 262144 * 64 + u / 4096 % 64
  {
  }

  /** Up to 0x10FFFF the conversion writes a sequence RFC 3629 allows, and it decodes back. */
  lemma EncodeThenDecode(u: nat)
    requires u <= 0x10FFFF
    ensures IsChar(Encode(u)) && Decode(Encode(u)) == u
  {
    SplitBase64(u);
  }

  /** It is the only such sequence. */
  lemma DecodeThenEncode(s: bytes)
    requires IsChar(s)
    ensures Decode(s) <= 0x10FFFF && Encode(Decode(s)) == s
  {
    var u := Decode(s);
    match |s|
    case 1 =>
    case 2 =>
      assert u / 64 == s[0] as int - 0xC0;
    case 3 =>
      assert u / 64 == (s[0] as int - 0xE0) * 64 + (s[1] as int - 0x80);
      SplitBase64(u);
    case 4 =>
      assert u / 64 == (s[0] as int - 0xF0) * 4096 + (s[1] as int - 0x80) * 64 + (s[2] as int - 0x80);
      assert u / 4096 == (s[0] as int - 0xF0) * 64 + (s[1] as int - 0x80);
      SplitBase64(u);
  }

  /** The lead byte announces the length that was written exactly below 0x140000, so a reader
      stepping by the table takes the sequence back as one character. */
  lemma LeadAnnouncesLength(u: nat)
    requires u < 0x200000
    ensures ByteTable(Encode(u)[0]) == |Encode(u)| <==> u < 0x140000
  {
    SplitBase64(u);
  }

  /** The table announces the length of every sequence RFC 3629 allows. */
  lemma TableKnowsChars(s: bytes)
    requires IsChar(s)
    ensures ByteTable(s[0]) == |s|
  {
  }

  /** And a byte it announces more than one byte for leads such a sequence. */
  lemma TableKnowsNoOthers(lead: byte) returns (s: bytes)
    requires ByteTable(lead) > 1
    ensures IsChar(s) && s[0] == lead && |s| == ByteTable(lead)
  {
    var second: byte := if lead == 0xF4 then 0x80 else 0xBF;
    s := [lead, second] + seq(ByteTable(lead) - 2, _ => 0x80);
  }

  const FIRST_BYTE_MARK: seq<nat> := [0x00, 0x00, 0xC0, 0xE0, 0xF0, 0xF8, 0xFC]

  /** `TiXmlBase::ConvertUTF32ToUTF8`: fills output from its last byte backwards, falling
      through from the longer lengths to the shorter ones. */
  method ConvertUTF32ToUTF8(input: nat, output: array<byte>) returns (length: nat)
    requires output.Length >= 4
    modifies output
    ensures length <= 4 && output[..length] == Encode(input)
    ensures output[length..] == old(output[length..])
  {
    if input < 0x80 {
      length := 1;
    } else if input < 0x800 {
      length := 2;
    } else if input < 0x10000 {
      length := 3;
    } else if input < 0x200000 {
      length := 4;
    } else {
      length := 0;
      return;
    }
    SplitBase64(input);
    var rest, at := input, length;
    if length >= 4 {
      at := at - 1;
      output[at] := (0x80 + rest % 64) as byte;
      rest := rest / 64;
    }
    if length >= 3 {
      at := at - 1;
      output[at] := (0x80 + rest % 64) as byte;
      rest := rest / 64;
    }
    if length >= 2 {
      at := at - 1;
      output[at] := (0x80 + rest % 64) as byte;
      rest := rest / 64;
    }
    at := at - 1;
    output[at] := (rest + FIRST_BYTE_MARK[length]) as byte;
  }
}
