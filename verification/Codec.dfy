/** Escaping and unescaping of character data: what `EncodeString`, `GetEntity`, `GetChar`,
    `SkipWhiteSpace` and `ReadText` compute. The methods themselves are in Scanner. */
module Codec {
  import opened Bytes
  import Utf8

  // ----- escaping -----

  const AMP_REF: bytes := [AMP, 97, 109, 112, SEMI]
  const LT_REF: bytes := [AMP, 108, 116, SEMI]
  const GT_REF: bytes := [AMP, 103, 116, SEMI]
  const QUOT_REF: bytes := [AMP, 113, 117, 111, 116, SEMI]
  const APOS_REF: bytes := [AMP, 97, 112, 111, 115, SEMI]
  /** "&#x", which EncodeString takes for a reference the caller already wrote. */
  const HEX_MARK: bytes := [AMP, HASH, LOWER_X]

  /** One digit of the `%02X` conversion. */
  function HexDigit(n: byte): byte
    requires n < 16
  {
    if n < 10 then 48 + n else 55 + n
  }

  function EscapeByte(c: byte): bytes {
    if c == AMP then AMP_REF
    else if c == LT then LT_REF
    else if c == GT then GT_REF
    else if c == QUOT then QUOT_REF
    else if c == APOS then APOS_REF
    else if c < 32 then HEX_MARK + [HexDigit(c / 16), HexDigit(c % 16), SEMI]
    else [c]
  }

  /** How many bytes are copied unchanged at a HEX_MARK: up to the next ';', which is left to
      the next round, or all but the last byte when there is none. */
  function PassThrough(s: bytes): (k: nat)
    requires HEX_MARK <= s
    ensures 2 <= k < |s|
  {
    var k := IndexFrom(s, 3, SEMI);
    if k < |s| then k else |s| - 1
  }

  /** The text EncodeString appends to its output. */
  function Escape(s: bytes): bytes {
    if s == [] then []
    else if HEX_MARK <= s then s[..PassThrough(s)] + Escape(s[PassThrough(s)..])
    else EscapeByte(s[0]) + Escape(s[1..])
  }

  /** Bytes that never appear raw in escaped text; each opens an end tag or a quote. */
  predicate IsDelimiter(c: byte) {
    c == LT || c == GT || c == QUOT || c == APOS
  }

  // ----- unescaping -----

  const ULONG_MODULUS := 0x1_0000_0000

  predicate IsHexDigit(c: byte) {
    IsDigit(c) || 97 <= c <= 102 || 65 <= c <= 70
  }

  function DigitValue(c: byte): (v: nat)
    requires IsHexDigit(c)
    ensures v < 16
  {
    if IsDigit(c) then c as nat - 48 else if c >= 97 then c as nat - 87 else c as nat - 55
  }

  predicate IsDigitOf(c: byte, base: nat) {
    if base == 10 then IsDigit(c) else IsHexDigit(c)
  }

  predicate AreDigits(ds: bytes, base: nat) {
    forall i :: 0 <= i < |ds| ==> IsDigitOf(ds[i], base)
  }

  /** The number a digit string denotes, most significant digit first. */
  function Number(ds: bytes, base: nat): nat
    requires AreDigits(ds, base)
  {
    if ds == [] then 0 else Number(ds[..|ds| - 1], base) * base + DigitValue(ds[|ds| - 1])
  }

  /** Index of the last c before hi. */
  function LastBefore(s: bytes, hi: nat, c: byte): (k: nat)
    requires hi <= |s| && c in s[..hi]
    ensures k < hi && s[k] == c
    ensures forall j :: k < j < hi ==> s[j] != c
  {
    if s[hi - 1] == c then hi - 1 else LastBefore(s, hi - 1, c)
  }

  /** Result of reading one character: failure (the null pointer), or the bytes it stands for
      and what follows it. */
  datatype CharRead = NoChar | Overrun(cut: bytes) | Char(val: bytes, rest: bytes)

  /** What a numeric reference contributes: the byte sequence of the code point in UTF-8, its
      low byte otherwise. */
  function CodePoint(n: nat, enc: Encoding): bytes {
    if enc == Utf8 then Utf8.Encode(n) else [(n % 256) as byte]
  }

  /** A numeric reference whose digits start at from: they run from the last marker (the 'x'
      or the '#') before the first ';' to that ';'. */
  function NumericAt(s: bytes, from: nat, marker: byte, base: nat, enc: Encoding): (r: CharRead)
    requires 0 < from <= |s| && s[from - 1] == marker
    ensures r.Char? ==> |r.rest| < |s|
  {
    var semi := IndexFrom(s, from, SEMI);
    if semi == |s| then NoChar
    else
      assert s[..semi][from - 1] == marker;
      var ds := s[LastBefore(s, semi, marker) + 1..semi];
      if AreDigits(ds, base)
      then Char(CodePoint(Number(ds, base) % ULONG_MODULUS, enc), s[semi + 1..])
      else NoChar
  }

  function EntityAt(s: bytes, enc: Encoding): (r: CharRead)
    requires s != [] && s[0] == AMP
    ensures r.Char? ==> |r.rest| < |s|
  {
    if |s| > 2 && s[1] == HASH then
      if s[2] != LOWER_X then NumericAt(s, 2, HASH, 10, enc)
      else if |s| == 3 then NoChar
      else NumericAt(s, 3, LOWER_X, 16, enc)
    else if AMP_REF <= s then Char([AMP], s[5..])
    else if LT_REF <= s then Char([LT], s[4..])
    else if GT_REF <= s then Char([GT], s[4..])
    else if QUOT_REF <= s then Char([QUOT], s[6..])
    else if APOS_REF <= s then Char([APOS], s[6..])
    else Char([], s[1..])
  }

  /** How far GetChar steps at a byte that does not start an entity. */
  function Step(lead: byte, enc: Encoding): (n: nat)
    ensures 1 <= n <= 4
  {
    if enc == Utf8 then Utf8.ByteTable(lead) else 1
  }

  /** `GetChar`. In UTF-8 a lead byte near the end can announce more bytes than there are: what there
      is of them is copied, and the step goes past the terminator. */
  function CharAt(s: bytes, enc: Encoding): (r: CharRead)
    requires s != []
    ensures r.Char? ==> |r.rest| < |s|
  {
    var n := Step(s[0], enc);
    if n == 1 then (if s[0] == AMP then EntityAt(s, enc) else Char([s[0]], s[1..]))
    else if n <= |s| then Char(s[..n], s[n..])
    else Overrun(s + seq(n - |s|, _ => NUL))
  }

  // ----- white space and text -----

  const BOM: bytes := [0xEF, 0xBB, 0xBF]
  const NON_CHAR_E: bytes := [0xEF, 0xBF, 0xBE]
  const NON_CHAR_F: bytes := [0xEF, 0xBF, 0xBF]

  predicate IsMark(s: bytes) {
    BOM <= s || NON_CHAR_E <= s || NON_CHAR_F <= s
  }

  /** s without the white space, and in UTF-8 the byte-order marks, at its front. */
  function SkipWs(s: bytes, enc: Encoding): (r: bytes)
    ensures |r| <= |s|
    ensures r != [] ==> !IsSpace(r[0])
  {
    if s == [] then []
    else if enc == Utf8 && IsMark(s) then SkipWs(s[3..], enc)
    else if IsSpace(s[0]) then SkipWs(s[1..], enc)
    else s
  }

  function AfterWhiteSpace(p: Ptr, enc: Encoding): (r: Ptr)
    ensures r.Left() <= p.Left()
    ensures r.Live() ==> p.Live() && !IsSpace(r.s[0])
  {
    if p.Live() then At(SkipWs(p.s, enc)) else p.Lost()
  }

  /** One character of text as read: what it contributes, and whether it was white space in the
      input. White space written as a reference is not. */
  datatype Token = Token(val: bytes, space: bool)

  datatype Scanned = Scanned(tokens: seq<Token>, p: Ptr)

  /** The characters up to tag, which p then points at; up to the terminator or to a failing
      reference without one. The failing reference contributes nothing, but it is not white space. */
  function Scan(s: bytes, tag: bytes, enc: Encoding): (r: Scanned)
    ensures r.p.Left() <= At(s).Left()
    decreases |s|
  {
    if s == [] || tag <= s then Scanned([], At(s))
    else
      match CharAt(s, enc)
      case NoChar => Scanned([Token([], false)], Null)
      case Overrun(v) => Scanned([Token(v, IsSpace(s[0]))], Wild)
      case Char(v, rest) =>
        var more := Scan(rest, tag, enc);
        Scanned([Token(v, IsSpace(s[0]))] + more.tokens, more.p)
  }

  function Flatten(ts: seq<Token>): bytes {
    if ts == [] then [] else ts[0].val + Flatten(ts[1..])
  }

  function DropSpaces(ts: seq<Token>): (r: seq<Token>)
    ensures |r| <= |ts|
    ensures r != [] ==> !r[0].space
  {
    if ts != [] && ts[0].space then DropSpaces(ts[1..]) else ts
  }

  /** Number of leading tokens that are not white space. */
  function WordLength(ts: seq<Token>): (n: nat)
    ensures n <= |ts|
    ensures n < |ts| ==> ts[n].space
  {
    if ts == [] || ts[0].space then 0 else 1 + WordLength(ts[1..])
  }

  /** The maximal runs without white space. */
  function Words(ts: seq<Token>): seq<bytes>
    decreases |ts|
  {
    var us := DropSpaces(ts);
    if us == [] then []
    else [Flatten(us[..WordLength(us)])] + Words(us[WordLength(us)..])
  }

  function Join(ws: seq<bytes>): bytes {
    if ws == [] then []
    else if |ws| == 1 then ws[0]
    else ws[0] + [SPACE] + Join(ws[1..])
  }

  /** Condensed text: its words, one space between them. */
  function Condense(ts: seq<Token>): bytes {
    Join(Words(ts))
  }

  datatype TextRead = TextRead(text: bytes, p: Ptr)

  /** Past the end tag, if any byte is left there; null otherwise. */
  function AfterTag(p: Ptr, tag: bytes): (r: Ptr)
    ensures r.Left() <= p.Left()
  {
    if p.Live() && |tag| < |p.s| then At(p.s[|tag|..]) else p.Lost()
  }

  /** ReadText with trimWhiteSpace && condenseWhiteSpace given as condense. */
  function TextAt(p: Ptr, condense: bool, tag: bytes, enc: Encoding): (r: TextRead)
    ensures r.p.Left() <= p.Left()
    ensures r.p.Live() ==> p.Live() && |r.p.s| + |tag| <= |p.s|
  {
    var from := if condense then AfterWhiteSpace(p, enc) else p;
    if !from.Live() then TextRead([], from.Lost())
    else
      var r := Scan(from.s, tag, enc);
      TextRead(if condense then Condense(r.tokens) else Flatten(r.tokens), AfterTag(r.p, tag))
  }
}
