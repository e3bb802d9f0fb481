/** The scanning methods of TiXmlBase, with their loops, against what Codec and Parser say they
    compute. A pointer that a loop advances is the sequence of bytes ahead of it. */
module Scanner {
  import opened Bytes
  import Utf8
  import opened Codec
  import opened CodecLaws
  import opened Parser

  method SkipWhiteSpace(start: Ptr, enc: Encoding) returns (r: Ptr)
    ensures r == AfterWhiteSpace(start, enc)
  {
    if !start.Live() {
      return start.Lost();
    }
    var p := start.s;
    if enc == Utf8 {
      while p != []
        invariant SkipWs(p, enc) == SkipWs(start.s, enc)
        decreases |p|
      {
        if BOM <= p {
          p := p[3..];
          continue;
        } else if NON_CHAR_E <= p {
          p := p[3..];
          continue;
        } else if NON_CHAR_F <= p {
          p := p[3..];
          continue;
        }
        if IsSpace(p[0]) {
          p := p[1..];
        } else {
          break;
        }
      }
    } else {
      while p != [] && IsSpace(p[0])
        invariant SkipWs(p, enc) == SkipWs(start.s, enc)
      {
        p := p[1..];
      }
    }
    r := At(p);
  }

  method ReadName(start: Ptr) returns (name: bytes, r: Ptr)
    ensures NameRead(name, r) == NameAt(start)
  {
    name := [];
    if start.Live() && IsNameStart(start.s[0]) {
      var p := start.s;
      ghost var n := NameLength(start.s);
      while p != [] && IsNameByte(p[0])
        invariant |p| <= |start.s| && p == start.s[|start.s| - |p|..]
        invariant |start.s| - |p| + NameLength(p) == n
      {
        p := p[1..];
      }
      name := start.s[..|start.s| - |p|];
      r := At(p);
    } else {
      r := Null;
    }
  }

  /** The case-sensitive comparison with a tag: false at the terminator. */
  method StringEqual(p: bytes, tag: bytes) returns (equal: bool)
    requires tag != []
    ensures equal <==> tag <= p
  {
    if p == [] {
      return false;
    }
    var k := 0;
    while k < |p| && k < |tag| && p[k] == tag[k]
      invariant k <= |p| && k <= |tag| && p[..k] == tag[..k]
    {
      k := k + 1;
    }
    equal := k == |tag|;
    assert tag <= p ==> forall i :: 0 <= i < |tag| ==> tag[i] == p[i];
  }

  /** The comparison that ignores the case of ASCII letters. */
  method StringEqualIgnoringCase(p: bytes, tag: bytes) returns (equal: bool)
    requires tag != []
    ensures equal <==> HasPrefixIgnoringCase(p, tag)
  {
    if p == [] {
      return false;
    }
    var k := 0;
    while k < |p| && k < |tag| && ToLower(p[k]) == ToLower(tag[k])
      invariant k <= |p| && k <= |tag|
      invariant forall i :: 0 <= i < k ==> ToLower(p[i]) == ToLower(tag[i])
    {
      k := k + 1;
    }
    equal := k == |tag|;
  }

  // ----- entities -----

  function Pow(base: nat, n: nat): nat {
    if n == 0 then 1 else base * Pow(base, n - 1)
  }

  lemma Distribute(a: nat, p: nat, b: nat, base: nat)
    ensures (a * p + b) * base == a * (base * p) + b * base
  {
  }

  /** A digit in front weighs the base to the number of digits behind it. */
  lemma {:induction false} NumberFromTheRight(d: byte, ds: bytes, base: nat)
    requires AreDigits([d] + ds, base)
    ensures AreDigits(ds, base) && IsHexDigit(d)
    ensures Number([d] + ds, base) == DigitValue(d) * Pow(base, |ds|) + Number(ds, base)
    decreases |ds|
  {
    var all := [d] + ds;
    assert all[0] == d && forall i :: 0 <= i < |ds| ==> ds[i] == all[i + 1];
    if ds == [] {
      assert all[..0] == [];
      assert Number(all, base) == Number(all[..0], base) * base + DigitValue(d);
    } else {
      var n := |ds| - 1;
      var init, last := ds[..n], ds[n];
      assert all[..|all| - 1] == [d] + init && all[|all| - 1] == last;
      NumberFromTheRight(d, init, base);
      assert Number(all, base) == Number([d] + init, base) * base + DigitValue(last);
      assert Number(ds, base) == Number(init, base) * base + DigitValue(last);
      assert Pow(base, |ds|) == base * Pow(base, n);
      hide Number, Pow, DigitValue, AreDigits;
      Distribute(DigitValue(d), Pow(base, n), Number(init, base), base);
    }
  }

  /** One round of the wrapping sum: what is lost are multiples of the word. */
  lemma RoundLosesMultiples(sum: nat, overS: nat, mult: nat, overM: nat, d: nat)
    requires sum < ULONG_MODULUS && mult < ULONG_MODULUS
    ensures var t := sum + mult * d % ULONG_MODULUS;
            var over := overS + d * overM + mult * d / ULONG_MODULUS;
            d * (mult + overM * ULONG_MODULUS) + (sum + overS * ULONG_MODULUS) == t + over * ULONG_MODULUS
  {
    var x := mult * d;
    assert d * (mult + overM * ULONG_MODULUS) == x + (d * overM) * ULONG_MODULUS;
  }

  lemma WeightLosesMultiples(mult: nat, overM: nat, base: nat)
    requires base == 10 || base == 16
    ensures base * (mult + overM * ULONG_MODULUS)
            == mult * base % ULONG_MODULUS + (overM * base + mult * base / ULONG_MODULUS) * ULONG_MODULUS
  {
  }

  /** The wrapping sum of two words. */
  function WrapAdd(a: nat, b: nat): (r: nat)
    requires a < ULONG_MODULUS && b < ULONG_MODULUS
    ensures r < ULONG_MODULUS
  {
    if a + b >= ULONG_MODULUS then a + b - ULONG_MODULUS else a + b
  }

  lemma SumWraps(n: nat, weight: nat, d: nat, base: nat)
    requires base == 10 || base == 16
    ensures WrapAdd(n % ULONG_MODULUS, (weight % ULONG_MODULUS) * d % ULONG_MODULUS)
            == (d * weight + n) % ULONG_MODULUS
    ensures (weight % ULONG_MODULUS) * base % ULONG_MODULUS == (base * weight) % ULONG_MODULUS
  {
    var u, a := n % ULONG_MODULUS, n / ULONG_MODULUS;
    var w, b := weight % ULONG_MODULUS, weight / ULONG_MODULUS;
    RoundLosesMultiples(u, a, w, b, d);
    WeightLosesMultiples(w, b, base);
    var v, x := w * d % ULONG_MODULUS, d * weight + n;
    var over := a + d * b + w * d / ULONG_MODULUS;
    assert x == u + v + over * ULONG_MODULUS;
    RemainderIs(x, WrapAdd(u, v), if u + v >= ULONG_MODULUS then over + 1 else over);
    RemainderIs(base * weight, w * base % ULONG_MODULUS, b * base + w * base / ULONG_MODULUS);
  }

  lemma RemainderIs(x: nat, r: nat, k: nat)
    requires r < ULONG_MODULUS && x == r + k * ULONG_MODULUS
    ensures x % ULONG_MODULUS == r
  {
  }

  /** One round of adding up: the digit at q joins those behind it. */
  lemma SumRound(s: bytes, q: nat, semi: nat, base: nat)
    requires q < semi <= |s| && (base == 10 || base == 16)
    requires AreDigits(s[q + 1..semi], base) && IsDigitOf(s[q], base)
    ensures AreDigits(s[q..semi], base) && IsHexDigit(s[q])
    ensures WrapAdd(Number(s[q + 1..semi], base) % ULONG_MODULUS,
                    (Pow(base, semi - 1 - q) % ULONG_MODULUS) * DigitValue(s[q]) % ULONG_MODULUS)
            == Number(s[q..semi], base) % ULONG_MODULUS
    ensures (Pow(base, semi - 1 - q) % ULONG_MODULUS) * base % ULONG_MODULUS == Pow(base, semi - q) % ULONG_MODULUS
  {
    var ds := s[q + 1..semi];
    assert s[q..semi] == [s[q]] + ds;
    assert Pow(base, semi - q) == base * Pow(base, |ds|);
    NumberFromTheRight(s[q], ds, base);
    hide Number, Pow, DigitValue, AreDigits, WrapAdd;
    SumWraps(Number(ds, base), Pow(base, |ds|), DigitValue(s[q]), base);
  }

  lemma NotAllDigits(ds: bytes, i: nat, base: nat)
    requires i < |ds| && !IsDigitOf(ds[i], base) && (base == 10 || base == 16)
    ensures !AreDigits(ds, base)
  {
  }

  lemma NothingAddedUp(base: nat)
    ensures AreDigits([], base) && Number([], base) == 0 && Pow(base, 0) == 1
  {
  }

  /** The digits before a ';' are added up from the last one leftwards, in unsigned arithmetic that
      wraps; the sum is the number they denote, left to right, modulo the word. */
  method SumDigits(s: bytes, marker: byte, semi: nat, base: nat) returns (ok: bool, ucs: nat)
    requires semi <= |s| && marker in s[..semi]
    requires (base == 16 && marker == LOWER_X) || (base == 10 && marker == HASH)
    ensures var ds := s[LastBefore(s, semi, marker) + 1..semi];
            (ok <==> AreDigits(ds, base)) && (ok ==> ucs == Number(ds, base) % ULONG_MODULUS)
  {
    hide Number, DigitValue, AreDigits, WrapAdd, IsDigitOf;
    NothingAddedUp(base);
    assert s[semi..semi] == [];
    ghost var m := LastBefore(s, semi, marker);
    var q: int, mult: nat := semi - 1, 1;
    ok, ucs := false, 0;
    while s[q] != marker
      invariant m <= q < semi
      invariant AreDigits(s[q + 1..semi], base)
      invariant ucs == Number(s[q + 1..semi], base) % ULONG_MODULUS
      invariant mult == Pow(base, semi - 1 - q) % ULONG_MODULUS
      decreases q
    {
      if !IsDigitOf(s[q], base) {
        NotAllDigits(s[m + 1..semi], q - (m + 1), base);
        return;
      }
      SumRound(s, q, semi, base);
      ucs := WrapAdd(ucs, mult * DigitValue(s[q]) % ULONG_MODULUS);
      mult := mult * base % ULONG_MODULUS;
      q := q - 1;
    }
    assert q == m;
    ok := true;
  }

  method ReadNumber(s: bytes, from: nat, marker: byte, base: nat) returns (ok: bool, ucs: nat, next: nat)
    requires 0 < from <= |s| && s[from - 1] == marker
    requires (base == 16 && marker == LOWER_X) || (base == 10 && marker == HASH)
    ensures forall enc: Encoding ::
              NumericAt(s, from, marker, base, enc)
              == if ok && next <= |s| then Char(CodePoint(ucs, enc), s[next..]) else NoChar
    ensures ok ==> next <= |s|
  {
    hide Number, AreDigits, CodePoint, LastBefore, IndexFrom;
    ok, ucs, next := false, 0, 0;
    var semi := from;
    while semi < |s| && s[semi] != SEMI
      invariant from <= semi <= |s|
      invariant forall j :: from <= j < semi ==> s[j] != SEMI
    {
      semi := semi + 1;
    }
    if semi == |s| {
      return;
    }
    IndexFromIs(s, from, SEMI, semi);
    assert s[..semi][from - 1] == marker;
    ok, ucs := SumDigits(s, marker, semi, base);
    next := semi + 1;
  }

  function AsRead(value: bytes, next: Ptr): CharRead {
    if next.Null? then NoChar else if next.Wild? then Overrun(value) else Char(value, next.s)
  }

  method GetEntity(p: bytes, enc: Encoding) returns (value: bytes, next: Ptr)
    requires p != [] && p[0] == AMP
    ensures AsRead(value, next) == EntityAt(p, enc) && (next.Null? ==> value == [])
  {
    value, next := [], Null;
    if |p| > 2 && p[1] == HASH {
      var ok, ucs, k;
      if p[2] == LOWER_X {
        if |p| == 3 {
          return;
        }
        ok, ucs, k := ReadNumber(p, 3, LOWER_X, 16);
      } else {
        ok, ucs, k := ReadNumber(p, 2, HASH, 10);
      }
      if !ok {
        return;
      }
      if enc == Utf8 {
        var output := new byte[4](_ => NUL);
        var length := Utf8.ConvertUTF32ToUTF8(ucs, output);
        value := output[..length];
      } else {
        value := [(ucs % 256) as byte];
      }
      next := At(p[k..]);
      return;
    }
    var found: bool;
    found := StringEqual(p, AMP_REF);
    if found { return [AMP], At(p[5..]); }
    found := StringEqual(p, LT_REF);
    if found { return [LT], At(p[4..]); }
    found := StringEqual(p, GT_REF);
    if found { return [GT], At(p[4..]); }
    found := StringEqual(p, QUOT_REF);
    if found { return [QUOT], At(p[6..]); }
    found := StringEqual(p, APOS_REF);
    if found { return [APOS], At(p[6..]); }
    next := At(p[1..]);
  }

  method GetChar(p: bytes, enc: Encoding) returns (value: bytes, next: Ptr)
    requires p != []
    ensures AsRead(value, next) == CharAt(p, enc) && (next.Null? ==> value == [])
  {
    var length := Step(p[0], enc);
    if length == 1 {
      if p[0] == AMP {
        value, next := GetEntity(p, enc);
        return;
      }
      return [p[0]], At(p[1..]);
    }
    value := [];
    var i := 0;
    while i < length && i < |p|
      invariant i <= length && i <= |p| && value == p[..i]
    {
      value := value + [p[i]];
      i := i + 1;
    }
    value := value + seq(length - i, _ => NUL);
    next := if length <= |p| then At(p[length..]) else Wild;
    assert i == |p| ==> p[..i] == p;
    assert length <= |p| ==> value == p[..length];
  }

  // ----- text -----

  method ReadText(start: Ptr, trimWhiteSpace: bool, condenseWhiteSpace: bool, tag: bytes, enc: Encoding)
    returns (text: bytes, r: Ptr)
    requires tag != []
    ensures TextRead(text, r) == TextAt(start, trimWhiteSpace && condenseWhiteSpace, tag, enc)
  {
    if !trimWhiteSpace || !condenseWhiteSpace {
      text, r := ReadKept(start, tag, enc);
    } else {
      text, r := ReadCondensed(start, tag, enc);
    }
  }

  method AtTag(p: Ptr, tag: bytes) returns (at: bool)
    requires tag != []
    ensures at <==> p.At? && tag <= p.s
  {
    at := false;
    if p.At? {
      at := StringEqual(p.s, tag);
    }
  }

  method ReadKept(start: Ptr, tag: bytes, enc: Encoding) returns (text: bytes, r: Ptr)
    requires tag != []
    ensures TextRead(text, r) == TextAt(start, false, tag, enc)
  {
    text := [];
    var p := start;
    ghost var all := Scanned([], p);
    if start.At? {
      all := Scan(start.s, tag, enc);
    }
    ghost var rest := all;
    var atTag := AtTag(p, tag);
    while p.Live() && !atTag
      invariant rest == if p.At? then Scan(p.s, tag, enc) else Scanned([], p)
      invariant text + Flatten(rest.tokens) == Flatten(all.tokens) && rest.p == all.p
      invariant atTag <==> p.At? && tag <= p.s
      decreases p.Left()
    {
      var value;
      ghost var before := text;
      ScanRound(p.s, tag, enc);
      value, p := GetChar(p.s, enc);
      text := text + value;
      ghost var more := if p.At? then Scan(p.s, tag, enc) else Scanned([], p);
      assert rest.tokens[0].val == value && rest.tokens[1..] == more.tokens;
      Assoc(before, value, Flatten(more.tokens));
      rest := more;
      atTag := AtTag(p, tag);
    }
    assert rest.tokens == [] && rest.p == p;
    if p.Live() {
      p := At(p.s[|tag|..]);
    }
    r := if p.Live() then p else p.Lost();
  }

  /** One character of text is one token, also where a reference fails. */
  lemma ScanRound(s: bytes, tag: bytes, enc: Encoding)
    requires s != [] && !(tag <= s)
    ensures var r := Scan(s, tag, enc);
            var c := CharAt(s, enc);
            r.tokens != [] && r.tokens[0].space == IsSpace(s[0]) &&
            if c.NoChar? then r.tokens[0].val == [] && r.tokens[1..] == [] && r.p == Null
            else if c.Overrun? then r.tokens[0].val == c.cut && r.tokens[1..] == [] && r.p == Wild
            else r.tokens[0].val == c.val && r.tokens[1..] == Scan(c.rest, tag, enc).tokens &&
                 r.p == Scan(c.rest, tag, enc).p
  {
    if CharAt(s, enc).NoChar? {
      assert s[0] == AMP;
    }
    hide CharAt;
  }

  /** The single pass that drops leading and trailing white space and turns each run inside into one
      space computes exactly the words with one space between them. */
  method ReadCondensed(start: Ptr, tag: bytes, enc: Encoding) returns (text: bytes, r: Ptr)
    requires tag != []
    ensures TextRead(text, r) == TextAt(start, true, tag, enc)
  {
    text := [];
    var whitespace := false;
    var p := SkipWhiteSpace(start, enc);
    ghost var all := Scanned([], p);
    if p.At? {
      all := Scan(p.s, tag, enc);
      StartsWithoutSpace(p.s, tag, enc);
      OnePassCondenses(all.tokens);
    }
    ghost var rest := all;
    var atTag := AtTag(p, tag);
    while p.Live() && !atTag
      invariant rest == if p.At? then Scan(p.s, tag, enc) else Scanned([], p)
      invariant text + OnePass(rest.tokens, whitespace) == OnePass(all.tokens, false) && rest.p == all.p
      invariant atTag <==> p.At? && tag <= p.s
      decreases p.Left()
    {
      ScanRound(p.s, tag, enc);
      if p.s[0] == CR || p.s[0] == LF {
        whitespace := true;
        p := At(p.s[1..]);
        rest := Scan(p.s, tag, enc);
      } else if IsSpace(p.s[0]) {
        whitespace := true;
        p := At(p.s[1..]);
        rest := Scan(p.s, tag, enc);
      } else {
        ghost var before, pad := text, Pad(whitespace);
        if whitespace {
          text := text + [SPACE];
          whitespace := false;
        }
        var value;
        value, p := GetChar(p.s, enc);
        text := text + value;
        ghost var more := if p.At? then Scan(p.s, tag, enc) else Scanned([], p);
        assert rest.tokens[0] == Token(value, false) && rest.tokens[1..] == more.tokens;
        OnePassRound(before, pad, value, OnePass(more.tokens, false));
        rest := more;
      }
      atTag := AtTag(p, tag);
    }
    assert rest.tokens == [] && rest.p == p;
    if p.Live() {
      p := At(p.s[|tag|..]);
    }
    r := if p.Live() then p else p.Lost();
  }

  lemma OnePassRound(text: bytes, pad: bytes, value: bytes, more: bytes)
    ensures text + (pad + value + more) == text + pad + value + more
    ensures pad == [] ==> text + (pad + value + more) == text + value + more
  {
  }

  lemma StartsWithoutSpace(s: bytes, tag: bytes, enc: Encoding)
    requires s != [] ==> !IsSpace(s[0])
    ensures var ts := Scan(s, tag, enc).tokens; DropSpaces(ts) == ts
  {
    if s != [] && !(tag <= s) {
      ScanRound(s, tag, enc);
    }
  }

  // ----- escaping -----

  /** The bytes of a reference the caller wrote, copied up to its ';' or up to the last byte. */
  method CopyReference(s: bytes, start: nat) returns (copied: bytes, i: nat)
    requires start <= |s| && HEX_MARK <= s[start..]
    ensures i == start + PassThrough(s[start..]) && copied == s[start..i]
  {
    ghost var t := s[start..];
    ghost var k := PassThrough(t);
    assert forall j :: 0 <= j < |t| ==> t[j] == s[start + j];
    assert t[0] == AMP && t[1] == HASH && t[2] == LOWER_X;
    copied, i := [], start;
    while i < |s| - 1
      invariant start <= i <= start + k && copied == s[start..i]
      invariant i == start || t[i - start] != SEMI
      decreases |s| - i
    {
      copied := copied + [s[i]];
      i := i + 1;
      if s[i] == SEMI {
        break;
      }
    }
  }

  /** What a byte outside of references is replaced by. */
  method EncodeByte(c: byte) returns (piece: bytes)
    ensures piece == EscapeByte(c)
  {
    piece := [c];
    if c == AMP {
      piece := AMP_REF;
    } else if c == LT {
      piece := LT_REF;
    } else if c == GT {
      piece := GT_REF;
    } else if c == QUOT {
      piece := QUOT_REF;
    } else if c == APOS {
      piece := APOS_REF;
    } else if c < 32 {
      piece := HEX_MARK + [HexDigit(c / 16), HexDigit(c % 16), SEMI];
    }
  }

  /** One round: what is appended at i, and where the next round starts. */
  lemma EscapeRound(s: bytes, i: nat)
    requires i < |s|
    ensures HEX_MARK <= s[i..] <==> s[i] == AMP && i < |s| - 2 && s[i + 1] == HASH && s[i + 2] == LOWER_X
    ensures HEX_MARK <= s[i..] ==>
              var k := i + PassThrough(s[i..]);
              i < k < |s| && Escape(s[i..]) == s[i..k] + Escape(s[k..])
    ensures !(HEX_MARK <= s[i..]) ==> Escape(s[i..]) == EscapeByte(s[i]) + Escape(s[i + 1..])
  {
    var t := s[i..];
    assert forall j :: 0 <= j < |t| ==> t[j] == s[i + j];
    assert t[1..] == s[i + 1..];
    if s[i] == AMP && i < |s| - 2 && s[i + 1] == HASH && s[i + 2] == LOWER_X {
      assert t[..3] == HEX_MARK;
    }
    if HEX_MARK <= t {
      var k := PassThrough(t);
      assert t[..k] == s[i..i + k] && t[k..] == s[i + k..];
    }
  }

  method EncodeString(s: bytes) returns (out: bytes)
    ensures out == Escape(s)
  {
    hide Escape, EscapeByte, PassThrough;
    out := [];
    var i := 0;
    assert s[0..] == s && out + Escape(s) == Escape(s);
    while i < |s|
      invariant i <= |s| && out + Escape(s[i..]) == Escape(s)
    {
      EscapeRound(s, i);
      var c, piece, next := s[i], [], i + 1;
      if c == AMP && i < |s| - 2 && s[i + 1] == HASH && s[i + 2] == LOWER_X {
        piece, next := CopyReference(s, i);
      } else {
        piece := EncodeByte(c);
      }
      Assoc(out, piece, Escape(s[next..]));
      out, i := out + piece, next;
    }
    EscapeNothing(s[|s|..]);
  }

  lemma EscapeNothing(s: bytes)
    requires |s| == 0
    ensures Escape(s) == []
  {
  }
}
