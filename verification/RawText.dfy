/** Text that is not escaped, and what reading it gives. */
module RawText {
  import opened Bytes
  import opened Codec
  import opened CodecLaws
  import opened EscapeLimits
  import opened LeafRoundTrip

  // ----- reading never makes text longer -----

  lemma ReferenceIsLonger(ds: bytes, base: nat, enc: Encoding)
    requires AreDigits(ds, base) && (base == 10 || base == 16)
    ensures |CodePoint(Number(ds, base) % ULONG_MODULUS, enc)| < |ds| + 3
  {
    if ds == [] {
      assert Number(ds, base) == 0;
    } else if |ds| == 1 {
      OneDigit(ds, base);
    }
    hide Number, AreDigits;
  }

  lemma OneDigit(ds: bytes, base: nat)
    requires AreDigits(ds, base) && (base == 10 || base == 16) && |ds| == 1
    ensures Number(ds, base) < 16
  {
    assert ds[..0] == [] && Number(ds[..0], base) == 0;
  }

  lemma NumericShrinks(s: bytes, from: nat, marker: byte, base: nat, enc: Encoding)
    requires 2 <= from <= |s| && s[from - 1] == marker && (base == 10 || base == 16)
    ensures match NumericAt(s, from, marker, base, enc)
            case Char(v, rest) => |v| + |rest| < |s|
            case _ => true
  {
    var semi := IndexFrom(s, from, SEMI);
    if semi < |s| {
      assert s[..semi][from - 1] == marker;
      var k := LastBefore(s, semi, marker);
      LastIsBehind(s, semi, marker, from - 1);
      var ds := s[k + 1..semi];
      if AreDigits(ds, base) {
        ReferenceIsLonger(ds, base, enc);
      }
      hide CodePoint, AreDigits, Number;
    }
  }

  lemma LastIsBehind(s: bytes, hi: nat, c: byte, k: nat)
    requires k < hi <= |s| && s[k] == c && c in s[..hi]
    ensures LastBefore(s, hi, c) >= k
  {
  }

  /** A character that was read is no longer than its bytes in the text; a reference is shorter. */
  lemma CharShrinks(s: bytes, enc: Encoding)
    requires s != []
    ensures match CharAt(s, enc)
            case Char(v, rest) => |v| + |rest| <= |s| && (s[0] == AMP ==> |v| + |rest| < |s|)
            case _ => true
  {
    if s[0] == AMP {
      EntityShrinks(s, enc);
      hide EntityAt;
    }
  }

  lemma EntityShrinks(s: bytes, enc: Encoding)
    requires s != [] && s[0] == AMP
    ensures match EntityAt(s, enc)
            case Char(v, rest) => |v| + |rest| < |s|
            case _ => true
  {
    if |s| > 2 && s[1] == HASH {
      if s[2] != LOWER_X {
        NumericShrinks(s, 2, HASH, 10, enc);
      } else if |s| > 3 {
        NumericShrinks(s, 3, LOWER_X, 16, enc);
      }
    }
    hide NumericAt;
  }

  lemma {:induction false} ScanShrinks(s: bytes, tag: bytes, enc: Encoding)
    ensures var r := Scan(s, tag, enc);
            r.p.At? ==> |Flatten(r.tokens)| + |r.p.s| <= |s|
    decreases |s|
  {
    if s == [] || tag <= s {
    } else {
      CharShrinks(s, enc);
      var c := CharAt(s, enc);
      hide CharAt;
      if c.Char? {
        ScanShrinks(c.rest, tag, enc);
        ScanCons(s, c.val, c.rest, tag, enc);
        FlattenCons(Token(c.val, IsSpace(s[0])), Scan(c.rest, tag, enc).tokens);
      }
    }
  }

  // ----- what reading keeps -----

  /** Text that is read up to a tag without getting shorter holds no '&' and no start of the tag. */
  lemma {:induction false} FullLengthIsRaw(v: bytes, end: bytes, tag: bytes, enc: Encoding)
    requires WholeChars(v, enc) && tag != [] && (tag[0] !in v || (|tag| == 1 && tag[0] < 0x80))
    requires var r := Scan(v + end, tag, enc); r.p == At(end) && |Flatten(r.tokens)| == |v|
    ensures AMP !in v && tag[0] !in v
    decreases |v|
  {
    if v == [] {
    } else {
      var n := Step(v[0], enc);
      NotAtTag(v, end, tag, enc);
      NotAtReference(v, end, tag, enc);
      RawChar(v, end, enc);
      ScanCons(v + end, v[..n], v[n..] + end, tag, enc);
      FlattenCons(Token(v[..n], IsSpace((v + end)[0])), Scan(v[n..] + end, tag, enc).tokens);
      hide CharAt, Scan, Flatten;
      FullLengthIsRaw(v[n..], end, tag, enc);
      NoneInFront(v, n, tag[0]);
    }
  }

  lemma NoneInFront(v: bytes, n: nat, c: byte)
    requires 0 < n <= |v| && v[0] != AMP && v[0] != c && (c < 0x80 || c !in v)
    requires forall i :: 1 <= i < n ==> v[i] >= 0x80
    requires AMP !in v[n..] && c !in v[n..]
    ensures AMP !in v && c !in v
  {
    assert forall i :: n <= i < |v| ==> v[i] in v[n..];
  }

  lemma NotAtTag(v: bytes, end: bytes, tag: bytes, enc: Encoding)
    requires v != [] && tag != [] && (tag[0] !in v || |tag| == 1) && Scan(v + end, tag, enc).p == At(end)
    ensures v[0] != tag[0] && !(tag <= v + end)
  {
    assert (v + end)[0] == v[0];
  }

  lemma NotAtReference(v: bytes, end: bytes, tag: bytes, enc: Encoding)
    requires v != [] && !(tag <= v + end)
    requires var r := Scan(v + end, tag, enc); r.p == At(end) && |Flatten(r.tokens)| == |v|
    ensures v[0] != AMP
  {
    var s := v + end;
    assert s[0] == v[0];
    var c := CharAt(s, enc);
    CharShrinks(s, enc);
    hide CharAt;
    if c.Char? {
      ScanCons(s, c.val, c.rest, tag, enc);
      FlattenCons(Token(c.val, IsSpace(s[0])), Scan(c.rest, tag, enc).tokens);
      ScanShrinks(c.rest, tag, enc);
    }
  }

  /** Raw text in front of an end tag that it holds no start of keeps its bytes exactly when it has no
      '&'. */
  lemma RawTextIsKeptIff(v: bytes, tag: bytes, rest: bytes, enc: Encoding)
    requires WholeChars(v, enc) && tag != [] && tag[0] !in v && rest != []
    ensures TextAt(At(v + (tag + rest)), false, tag, enc) == TextRead(v, At(rest)) <==> AMP !in v
  {
    var end := tag + rest;
    var r := Scan(v + end, tag, enc);
    TakeDrop(tag, rest);
    if AMP !in v {
      ScanRaw(v, end, tag, enc);
      assert Scan(end, tag, enc) == Scanned([], At(end));
      assert v + [] == v;
      hide Scan, Flatten;
    } else if TextAt(At(v + end), false, tag, enc) == TextRead(v, At(rest)) {
      ScanStopsAtTag(v + end, tag, enc);
      OnlyTagBefore(r.p, tag, rest);
      FullLengthIsRaw(v, end, tag, enc);
    }
  }

  // ----- an '&' that starts no reference -----

  predicate StartsReference(s: bytes) {
    (|s| > 2 && s[1] == HASH) ||
    AMP_REF <= s || LT_REF <= s || GT_REF <= s || QUOT_REF <= s || APOS_REF <= s
  }

  /** An '&' vanishes by itself exactly when it starts no reference. */
  lemma VanishesIff(s: bytes, enc: Encoding)
    requires s != [] && s[0] == AMP
    ensures CharAt(s, enc) == Char([], s[1..]) <==> !StartsReference(s)
  {
  }

  /** Such an '&' is lost: "&b" in front of a '<' is read as "b". */
  lemma AmpersandIsLost(enc: Encoding)
    ensures TextAt(At([AMP, 98, LT, 99]), false, [LT], enc) == TextRead([98], At([99]))
  {
    var s: bytes := [AMP, 98, LT, 99];
    assert s[1..] == [98, LT, 99] && s[1..][1..] == [LT, 99] && s[1..][1..][1..] == [99];
    assert !StartsReference(s) by {
      assert AMP_REF[1] != 98 && LT_REF[1] != 98 && GT_REF[1] != 98 && QUOT_REF[1] != 98 && APOS_REF[1] != 98;
    }
    VanishesIff(s, enc);
    assert CharAt(s[1..], enc) == Char([98], [LT, 99]);
    hide CharAt;
    assert Scan([LT, 99], [LT], enc) == Scanned([], At([LT, 99]));
    ScanCons(s[1..], [98], [LT, 99], [LT], enc);
    ScanCons(s, [], s[1..], [LT], enc);
    hide Scan;
    assert Flatten([Token([98], false)]) == [98];
    assert Scan(s, [LT], enc).tokens == [Token([], false), Token([98], false)];
  }
}
