/** Reading back escaped text. */
module CodecLaws {
  import opened Bytes
  import Utf8
  import opened Codec

  /** s holds no "&#x", the text EncodeString passes through instead of escaping. */
  predicate HexFree(s: bytes) {
    !Occurs(HEX_MARK, s)
  }

  /** No byte sequence is cut short: in UTF-8 every lead byte is followed by as many bytes above
      0x7F as it announces. Well-formed UTF-8 is; so is every string in the other encodings. */
  predicate WholeChars(s: bytes, enc: Encoding) {
    s != [] ==>
      var n := Step(s[0], enc);
      n <= |s| && (forall i :: 1 <= i < n ==> s[i] >= 0x80) && WholeChars(s[n..], enc)
  }

  /** Characters as section 3 of RFC 3629 allows them, one after the other. */
  predicate WellFormed(s: bytes) {
    s != [] ==> exists n {:trigger s[n..]} :: 0 < n <= |s| && Utf8.IsChar(s[..n]) && WellFormed(s[n..])
  }

  /** No character of well-formed UTF-8 is cut short. */
  lemma {:induction false} WellFormedIsWhole(s: bytes)
    requires WellFormed(s)
    ensures WholeChars(s, Encoding.Utf8)
    decreases |s|
  {
    if s == [] {
    } else {
      var n :| 0 < n <= |s| && Utf8.IsChar(s[..n]) && WellFormed(s[n..]);
      assert s[..n][0] == s[0] && forall i :: 1 <= i < n ==> s[..n][i] == s[i];
      WellFormedIsWhole(s[n..]);
    }
  }

  /** The characters of an unescaped string; only a space can come out of escaping raw. */
  function CharsOf(s: bytes, enc: Encoding): seq<Token>
    requires WholeChars(s, enc)
  {
    if s == [] then []
    else
      var n := Step(s[0], enc);
      [Token(s[..n], s[0] == SPACE)] + CharsOf(s[n..], enc)
  }

  lemma HexFreeTail(s: bytes, k: nat)
    requires HexFree(s) && k <= |s|
    ensures HexFree(s[k..])
  {
    forall i | 0 <= i <= |s[k..]|
      ensures !(HEX_MARK <= s[k..][i..])
    {
      assert s[k..][i..] == s[k + i..];
    }
  }

  lemma NoMarkInFront(s: bytes)
    requires HexFree(s)
    ensures !(HEX_MARK <= s)
  {
    assert s[0..] == s;
  }

  lemma {:induction false} FlattenConcat(a: seq<Token>, b: seq<Token>)
    ensures Flatten(a + b) == Flatten(a) + Flatten(b)
  {
    if a == [] {
      assert a + b == b;
    } else {
      FlattenConcat(a[1..], b);
      assert (a + b)[1..] == a[1..] + b && (a + b)[0] == a[0];
      Assoc(a[0].val, Flatten(a[1..]), Flatten(b));
    }
  }

  /** The characters of a string make up the string. */
  lemma {:induction false} FlattenCharsOf(s: bytes, enc: Encoding)
    requires WholeChars(s, enc)
    ensures Flatten(CharsOf(s, enc)) == s
  {
    if s == [] {
    } else {
      var n := Step(s[0], enc);
      FlattenCharsOf(s[n..], enc);
      assert s == s[..n] + s[n..];
    }
  }

  /** Bytes above 0x7F escape to themselves. */
  lemma {:induction false} EscapeHighBytes(s: bytes, k: nat)
    requires k <= |s| && forall i :: 0 <= i < k ==> s[i] >= 0x80
    ensures Escape(s) == s[..k] + Escape(s[k..])
  {
    if k == 0 {
      assert s[..k] == [] && s[k..] == s;
    } else {
      var t := s[1..];
      EscapeHighBytes(t, k - 1);
      assert t[k - 1..] == s[k..];
      assert !(HEX_MARK <= s) by { assert HEX_MARK[0] == AMP; }
      assert Escape(s) == [s[0]] + (t[..k - 1] + Escape(s[k..]));
      Assoc([s[0]], t[..k - 1], Escape(s[k..]));
      assert [s[0]] + t[..k - 1] == s[..k];
    }
  }

  /** One digit run between the marker and the ';'. */
  lemma LastMarkerIs(s: bytes, hi: nat, c: byte, k: nat)
    requires k < hi <= |s| && s[k] == c
    requires forall j :: k < j < hi ==> s[j] != c
    ensures c in s[..hi] && LastBefore(s, hi, c) == k
  {
    assert s[..hi][k] == c;
  }

  /** The two digits written for a control byte denote it. */
  lemma ControlDigits(c: byte, enc: Encoding)
    requires c < 32
    ensures var ds := [HexDigit(c / 16), HexDigit(c % 16)];
            AreDigits(ds, 16) && CodePoint(Number(ds, 16) % ULONG_MODULUS, enc) == [c]
  {
    var ds := [HexDigit(c / 16), HexDigit(c % 16)];
    assert ds[..1] == [ds[0]] && [ds[0]][..0] == [];
    assert Number([ds[0]], 16) == DigitValue(ds[0]);
    assert Number(ds, 16) == c as int;
  }

  /** A hexadecimal reference, from where its digits and its ';' are. */
  lemma HexReads(s: bytes, m: nat, semi: nat, enc: Encoding)
    requires HEX_MARK <= s && 2 <= m < semi < |s| && s[m] == LOWER_X && s[semi] == SEMI
    requires forall j :: 3 <= j < semi ==> s[j] != SEMI
    requires forall j :: m < j < semi ==> s[j] != LOWER_X
    requires AreDigits(s[m + 1..semi], 16)
    ensures CharAt(s, enc)
            == Char(CodePoint(Number(s[m + 1..semi], 16) % ULONG_MODULUS, enc), s[semi + 1..])
  {
    IndexFromIs(s, 3, SEMI, semi);
    LastMarkerIs(s, semi, LOWER_X, m);
  }

  /** Behind a "&#x" without ';', or at its own, the reference written for a control byte reads
      as that byte. */
  lemma ControlReference(pre: bytes, c: byte, rest: bytes, enc: Encoding)
    requires c < 32
    requires pre == [] || (HEX_MARK <= pre && forall j :: 3 <= j < |pre| ==> pre[j] != SEMI)
    ensures CharAt(pre + EscapeByte(c) + rest, enc) == Char([c], rest)
  {
    var ref := EscapeByte(c);
    var all := pre + ref + rest;
    var k, hi, lo := |pre|, HexDigit(c / 16), HexDigit(c % 16);
    assert ref == [AMP, HASH, LOWER_X, hi, lo, SEMI];
    assert forall j :: k <= j < k + 6 ==> all[j] == ref[j - k];
    assert HEX_MARK <= all;
    assert all[k + 3..k + 5] == [hi, lo] && all[k + 6..] == rest;
    ControlDigits(c, enc);
    hide CharAt, Number, CodePoint;
    HexReads(all, k + 2, k + 5, enc);
  }

  /** The five named references read back as the characters they stand for. */
  lemma NamedReference(c: byte, rest: bytes, enc: Encoding)
    requires IsDelimiter(c) || c == AMP
    ensures CharAt(EscapeByte(c) + rest, enc) == Char([c], rest)
  {
    var s := EscapeByte(c) + rest;
    TakeDrop(EscapeByte(c), rest);
    assert s[1] == EscapeByte(c)[1] && s[2] == EscapeByte(c)[2];
    assert AMP_REF[1] == 97 && AMP_REF[2] == 109 && APOS_REF[2] == 112;
    assert LT_REF[1] == 108 && GT_REF[1] == 103 && QUOT_REF[1] == 113;
  }

  /** Whatever one byte below 0x80 escapes to reads back as that byte. */
  lemma EscapedByteReadsBack(c: byte, rest: bytes, enc: Encoding)
    requires Step(c, enc) == 1
    ensures CharAt(EscapeByte(c) + rest, enc) == Char([c], rest)
    ensures EscapeByte(c) != [] && !IsDelimiter(EscapeByte(c)[0])
    ensures IsSpace(EscapeByte(c)[0]) <==> c == SPACE
  {
    if c < 32 {
      assert [] + EscapeByte(c) + rest == EscapeByte(c) + rest;
      ControlReference([], c, rest, enc);
    } else if IsDelimiter(c) || c == AMP {
      NamedReference(c, rest, enc);
    } else {
      TakeDrop([c], rest);
    }
  }

  /** The first character of escaped text reads back as the first character of the text. */
  lemma EscapedCharReadsBack(s: bytes, rest: bytes, enc: Encoding)
    requires s != [] && !(HEX_MARK <= s) && WholeChars(s, enc)
    ensures Escape(s) != [] && !IsDelimiter(Escape(s)[0])
    ensures IsSpace(Escape(s)[0]) <==> s[0] == SPACE
    ensures var n := Step(s[0], enc);
            CharAt(Escape(s) + rest, enc) == Char(s[..n], Escape(s[n..]) + rest)
  {
    var n := Step(s[0], enc);
    var more := Escape(s[n..]) + rest;
    if n == 1 {
      EscapedByteReadsBack(s[0], more, enc);
      assert Escape(s) == EscapeByte(s[0]) + Escape(s[1..]);
      Assoc(EscapeByte(s[0]), Escape(s[1..]), rest);
      assert s[..1] == [s[0]];
    } else {
      EscapeHighBytes(s, n);
      Assoc(s[..n], Escape(s[n..]), rest);
      TakeDrop(s[..n], more);
    }
  }

  /** The bytes a character number is converted to are reread as one character, '&' aside, exactly
      when their lead byte is one the byte table knows. */
  lemma ConvertedCharReadsBack(u: nat, rest: bytes)
    requires u < 0x200000 && u != AMP as nat
    ensures CharAt(Utf8.Encode(u) + rest, Encoding.Utf8) == Char(Utf8.Encode(u), rest) <==> u < 0x140000
  {
    var s := Utf8.Encode(u);
    Utf8.LeadAnnouncesLength(u);
    TakeDrop(s, rest);
    assert (s + rest)[0] == s[0];
  }

  /** The first number that does not read back: its lead byte is 0xF5, which is read as a character of
      its own. */
  lemma UnknownLeadIsReadAlone(rest: bytes)
    ensures var s := Utf8.Encode(0x14_0000);
            s[0] == 0xF5 && CharAt(s + rest, Encoding.Utf8) == Char([0xF5], s[1..] + rest)
  {
    var s := Utf8.Encode(0x14_0000);
    assert s[0] == 0xF5 && s == [0xF5] + s[1..];
    Assoc([0xF5], s[1..], rest);
    TakeDrop([0xF5], s[1..] + rest);
  }

  predicate AllSpace(w: bytes) {
    forall i :: 0 <= i < |w| ==> IsSpace(w[i])
  }

  function SpaceTokens(w: bytes): seq<Token> {
    if w == [] then [] else [Token([w[0]], true)] + SpaceTokens(w[1..])
  }

  lemma ScanCons(s: bytes, val: bytes, rest: bytes, tag: bytes, enc: Encoding)
    requires s != [] && !(tag <= s) && CharAt(s, enc) == Char(val, rest)
    ensures var more := Scan(rest, tag, enc);
            Scan(s, tag, enc) == Scanned([Token(val, IsSpace(s[0]))] + more.tokens, more.p)
  {
    hide CharAt;
  }

  lemma SpaceIsOneChar(s: bytes, enc: Encoding)
    requires s != [] && IsSpace(s[0])
    ensures CharAt(s, enc) == Char([s[0]], s[1..])
  {
  }

  /** Raw white space before the end tag is scanned byte by byte. */
  lemma {:induction false} ScanSpaces(w: bytes, tag: bytes, rest: bytes, enc: Encoding)
    requires AllSpace(w) && tag != [] && IsDelimiter(tag[0])
    ensures Scan(w + tag + rest, tag, enc) == Scanned(SpaceTokens(w), At(tag + rest))
  {
    hide CharAt;
    if w == [] {
      assert w + tag + rest == tag + rest;
      TakeDrop(tag, rest);
    } else {
      ScanSpaces(w[1..], tag, rest, enc);
      var all := w + tag + rest;
      assert all[1..] == w[1..] + tag + rest && all[0] == w[0] && !(tag <= all);
      hide Scan;
      SpaceIsOneChar(all, enc);
      ScanCons(all, [w[0]], all[1..], tag, enc);
    }
  }

  lemma ScanStep(s: bytes, end: bytes, tag: bytes, enc: Encoding)
    requires s != [] && !(HEX_MARK <= s) && WholeChars(s, enc)
    requires tag != [] && IsDelimiter(tag[0])
    ensures var n := Step(s[0], enc);
            var more := Scan(Escape(s[n..]) + end, tag, enc);
            Scan(Escape(s) + end, tag, enc) == Scanned([Token(s[..n], s[0] == SPACE)] + more.tokens, more.p)
  {
    var all := Escape(s) + end;
    var n := Step(s[0], enc);
    EscapedCharReadsBack(s, end, enc);
    hide Escape, CharAt;
    assert all[0] == Escape(s)[0];
    ScanCons(all, s[..n], Escape(s[n..]) + end, tag, enc);
  }

  /** Scanning escaped text for an end tag that starts with a delimiter gives the characters of
      the text, then whatever follows. */
  lemma {:induction false} ScanInvertsEscape(s: bytes, end: bytes, tag: bytes, enc: Encoding)
    requires HexFree(s) && WholeChars(s, enc)
    requires tag != [] && IsDelimiter(tag[0])
    ensures var r := Scan(end, tag, enc);
            Scan(Escape(s) + end, tag, enc) == Scanned(CharsOf(s, enc) + r.tokens, r.p)
    decreases |s|
  {
    var r := Scan(end, tag, enc);
    if s == [] {
      assert Escape(s) + end == end;
      assert CharsOf(s, enc) + r.tokens == r.tokens;
    } else {
      hide Escape, CharAt;
      var n := Step(s[0], enc);
      var first := [Token(s[..n], s[0] == SPACE)];
      NoMarkInFront(s);
      HexFreeTail(s, n);
      ScanInvertsEscape(s[n..], end, tag, enc);
      ScanStep(s, end, tag, enc);
      Assoc(first, CharsOf(s[n..], enc), r.tokens);
    }
  }

  lemma {:induction false} ScanStopsAtTag(s: bytes, tag: bytes, enc: Encoding)
    ensures var r := Scan(s, tag, enc); r.p.Live() ==> tag <= r.p.s
    decreases |s|
  {
    if s == [] || tag <= s {
    } else {
      match CharAt(s, enc)
      case NoChar =>
      case Overrun(_) =>
      case Char(v, rest) => ScanStopsAtTag(rest, tag, enc);
    }
  }

  // ----- condensing white space -----

  /** The loop of ReadText with condensing on, as one pass over the characters: pending says
      that white space was seen since the last character kept. */
  function OnePass(ts: seq<Token>, pending: bool): bytes {
    if ts == [] then []
    else if ts[0].space then OnePass(ts[1..], true)
    else Pad(pending) + ts[0].val + OnePass(ts[1..], false)
  }

  function Pad(pending: bool): bytes {
    if pending then [SPACE] else []
  }

  lemma {:induction false} OnePassInWord(ts: seq<Token>)
    ensures var n := WordLength(ts);
            OnePass(ts, false) == Flatten(ts[..n]) + OnePass(ts[n..], false)
  {
    var n := WordLength(ts);
    if n == 0 {
      assert ts[..n] == [] && ts[n..] == ts;
    } else {
      OnePassInWord(ts[1..]);
      assert ts[1..][..n - 1] == ts[..n][1..];
      assert ts[1..][n - 1..] == ts[n..];
      Assoc(ts[0].val, Flatten(ts[..n][1..]), OnePass(ts[n..], false));
      assert OnePass(ts, false) == ts[0].val + OnePass(ts[1..], false);
    }
  }

  lemma {:induction false} OnePassOverSpaces(ts: seq<Token>, pending: bool)
    ensures OnePass(ts, pending) == OnePass(DropSpaces(ts), pending || (ts != [] && ts[0].space))
  {
    if ts != [] && ts[0].space {
      OnePassOverSpaces(ts[1..], true);
    }
  }

  /** One pass computes the words with one space between them; leading white space is what its
      caller skips first. */
  lemma {:induction false} OnePassCondenses(ts: seq<Token>)
    ensures OnePass(DropSpaces(ts), false) == Condense(ts)
    decreases |ts|
  {
    var us := DropSpaces(ts);
    if us != [] {
      var n := WordLength(us);
      var word, more := Flatten(us[..n]), us[n..];
      OnePassInWord(us);
      OnePassOverSpaces(more, false);
      OnePassCondenses(more);
      var vs := DropSpaces(more);
      if vs == [] {
        assert Words(more) == [];
        assert word + OnePass(more, false) == word;
        assert Words(us) == [word] + Words(more) == [word];
      } else {
        assert OnePass(vs, true) == [SPACE] + OnePass(vs, false) by {
          Assoc([SPACE], vs[0].val, OnePass(vs[1..], false));
          assert [] + vs[0].val == vs[0].val;
        }
        assert (([word] + Words(more))[1..]) == Words(more) && Words(more) != [];
        Assoc(word, [SPACE], Condense(more));
      }
    }
  }

  lemma {:induction false} DropSpacesConcat(ts: seq<Token>, w: bytes)
    ensures var us := DropSpaces(ts);
            DropSpaces(ts + SpaceTokens(w)) == if us == [] then [] else us + SpaceTokens(w)
  {
    if ts != [] {
      assert (ts + SpaceTokens(w))[1..] == ts[1..] + SpaceTokens(w);
      if ts[0].space {
        DropSpacesConcat(ts[1..], w);
      }
    } else {
      assert ts + SpaceTokens(w) == SpaceTokens(w);
      if w != [] {
        assert SpaceTokens(w)[1..] == SpaceTokens(w[1..]);
        DropSpacesConcat(ts, w[1..]);
        assert ts + SpaceTokens(w[1..]) == SpaceTokens(w[1..]);
      }
    }
  }

  lemma {:induction false} WordLengthConcat(ts: seq<Token>, w: bytes)
    ensures WordLength(ts + SpaceTokens(w)) == WordLength(ts)
  {
    if ts != [] {
      assert (ts + SpaceTokens(w))[1..] == ts[1..] + SpaceTokens(w);
      WordLengthConcat(ts[1..], w);
    } else {
      assert ts + SpaceTokens(w) == SpaceTokens(w);
    }
  }

  /** White space after the text does not change its words. */
  lemma {:induction false} TrailingSpaceIsDropped(ts: seq<Token>, w: bytes)
    ensures Words(ts + SpaceTokens(w)) == Words(ts)
    decreases |ts|
  {
    var us := DropSpaces(ts);
    DropSpacesConcat(ts, w);
    if us != [] {
      WordLengthConcat(us, w);
      var n, all := WordLength(us), us + SpaceTokens(w);
      assert all[..n] == us[..n] && all[n..] == us[n..] + SpaceTokens(w);
      TrailingSpaceIsDropped(us[n..], w);
    }
  }

  /** s without the raw spaces, and in UTF-8 the byte-order marks, at its front. */
  function StripLead(s: bytes, enc: Encoding): (r: bytes)
    ensures |r| <= |s|
  {
    if s == [] then []
    else if enc == Utf8 && IsMark(s) then StripLead(s[3..], enc)
    else if s[0] == SPACE then StripLead(s[1..], enc)
    else s
  }

  lemma {:induction false} StripLeadKeeps(s: bytes, enc: Encoding)
    requires HexFree(s) && WholeChars(s, enc)
    ensures HexFree(StripLead(s, enc)) && WholeChars(StripLead(s, enc), enc)
  {
    if s == [] {
    } else {
      if enc == Utf8 && IsMark(s) {
        HexFreeTail(s, 3);
        StripLeadKeeps(s[3..], enc);
      } else if s[0] == SPACE {
        HexFreeTail(s, 1);
        StripLeadKeeps(s[1..], enc);
      }
    }
  }

  lemma {:induction false} StripLeadTwice(s: bytes, enc: Encoding)
    ensures StripLead(StripLead(s, enc), enc) == StripLead(s, enc)
  {
    if s == [] {
    } else {
      if enc == Utf8 && IsMark(s) {
        StripLeadTwice(s[3..], enc);
      } else if s[0] == SPACE {
        StripLeadTwice(s[1..], enc);
      }
    }
  }

  /** The value that escaped text has when it is read back with condensing on. */
  function Condensed(s: bytes, enc: Encoding): bytes
    requires HexFree(s) && WholeChars(s, enc)
  {
    StripLeadKeeps(s, enc);
    Condense(CharsOf(StripLead(s, enc), enc))
  }

  /** A mark is a whole character, so escaping neither makes nor hides one. */
  lemma EscapeKeepsMarks(s: bytes, rest: bytes)
    requires s != [] && HexFree(s) && WholeChars(s, Utf8)
    ensures IsMark(Escape(s) + rest) == IsMark(s)
    ensures IsMark(s) ==> (Escape(s) + rest)[3..] == Escape(s[3..]) + rest
  {
    var all := Escape(s) + rest;
    NoMarkInFront(s);
    if s[0] == 0xEF {
      EscapeHighBytes(s, 3);
      Assoc(s[..3], Escape(s[3..]), rest);
      TakeDrop(s[..3], Escape(s[3..]) + rest);
      assert all[0] == s[0] && all[1] == s[1] && all[2] == s[2];
    } else {
      EscapeFirstByte(s);
      assert all[0] == Escape(s)[0];
    }
  }

  lemma EscapeFirstByte(s: bytes)
    requires s != [] && !(HEX_MARK <= s)
    ensures Escape(s) != [] && Escape(s)[0] == EscapeByte(s[0])[0]
    ensures s[0] != 0xEF ==> Escape(s)[0] != 0xEF
  {
  }

  lemma {:induction false} SkipWsOverSpaces(w: bytes, s: bytes, enc: Encoding)
    requires AllSpace(w)
    ensures SkipWs(w + s, enc) == SkipWs(s, enc)
  {
    if w == [] {
      assert w + s == s;
    } else {
      var all := w + s;
      assert all[1..] == w[1..] + s && all[0] == w[0];
      assert !IsMark(all);
      SkipWsOverSpaces(w[1..], s, enc);
    }
  }

  lemma EscapeFirstIsSpace(s: bytes)
    requires s != [] && !(HEX_MARK <= s)
    ensures Escape(s) != [] && (IsSpace(Escape(s)[0]) <==> s[0] == SPACE)
    ensures s[0] == SPACE ==> Escape(s) == [SPACE] + Escape(s[1..])
  {
  }

  /** One step of skipping white space in escaped text. */
  lemma SkipWsStep(s: bytes, rest: bytes, enc: Encoding)
    requires s != [] && HexFree(s) && WholeChars(s, enc)
    ensures SkipWs(Escape(s) + rest, enc)
            == if enc == Utf8 && IsMark(s) then SkipWs(Escape(s[3..]) + rest, enc)
               else if s[0] == SPACE then SkipWs(Escape(s[1..]) + rest, enc)
               else Escape(s) + rest
  {
    hide Escape, WholeChars, IsMark;
    var all := Escape(s) + rest;
    NoMarkInFront(s);
    EscapeFirstIsSpace(s);
    assert all[0] == Escape(s)[0];
    if enc == Utf8 {
      EscapeKeepsMarks(s, rest);
    }
    if s[0] == SPACE {
      assert all[1..] == Escape(s[1..]) + rest;
    }
  }

  /** Skipping white space in front of escaped text strips its raw lead; when nothing else is
      left of the text, the white space after it goes too. */
  lemma {:induction false} SkipWsStripsLead(s: bytes, w: bytes, rest: bytes, enc: Encoding)
    requires HexFree(s) && WholeChars(s, enc) && AllSpace(w)
    requires rest != [] && !IsSpace(rest[0]) && rest[0] < 0x80
    ensures var u := StripLead(s, enc);
            SkipWs(Escape(s) + (w + rest), enc) == if u == [] then rest else Escape(u) + (w + rest)
  {
    if s == [] {
      assert Escape(s) + (w + rest) == w + rest;
      SkipWsOverSpaces(w, rest, enc);
      assert SkipWs(rest, enc) == rest;
    } else {
      SkipWsStep(s, w + rest, enc);
      if enc == Utf8 && IsMark(s) {
        HexFreeTail(s, 3);
        assert WholeChars(s[3..], enc);
        hide Escape, SkipWs, WholeChars;
        SkipWsStripsLead(s[3..], w, rest, enc);
      } else if s[0] == SPACE {
        HexFreeTail(s, 1);
        assert WholeChars(s[1..], enc);
        hide Escape, SkipWs, WholeChars;
        SkipWsStripsLead(s[1..], w, rest, enc);
      }
    }
  }

  // ----- ReadText after EncodeString -----

  /** With white space kept, escaped text followed by its end tag and one more byte reads back
      as the text. */
  lemma KeptTextReadsBack(s: bytes, tag: bytes, rest: bytes, enc: Encoding)
    requires HexFree(s) && WholeChars(s, enc)
    requires tag != [] && IsDelimiter(tag[0]) && rest != []
    ensures TextAt(At(Escape(s) + (tag + rest)), false, tag, enc) == TextRead(s, At(rest))
  {
    hide Escape, CharAt;
    ScanInvertsEscape(s, tag + rest, tag, enc);
    FlattenCharsOf(s, enc);
    TakeDrop(tag, rest);
    assert Scan(tag + rest, tag, enc) == Scanned([], At(tag + rest));
    assert CharsOf(s, enc) + [] == CharsOf(s, enc);
  }

  /** With white space condensed, it reads back condensed, whatever white space surrounds it. */
  lemma CondensedTextReadsBack(lead: bytes, s: bytes, w: bytes, tag: bytes, rest: bytes, enc: Encoding)
    requires HexFree(s) && WholeChars(s, enc) && AllSpace(lead) && AllSpace(w)
    requires tag != [] && IsDelimiter(tag[0]) && rest != []
    ensures TextAt(At(lead + (Escape(s) + (w + tag + rest))), true, tag, enc)
            == TextRead(Condensed(s, enc), At(rest))
  {
    hide Escape, CharAt, SkipWs, StripLead, WholeChars;
    var end := w + tag + rest;
    var u := StripLead(s, enc);
    StripLeadKeeps(s, enc);
    SkipWsOverSpaces(lead, Escape(s) + end, enc);
    Assoc(w, tag, rest);
    SkipWsStripsLead(s, w, tag + rest, enc);
    TakeDrop(tag, rest);
    if u == [] {
      assert Condensed(s, enc) == [];
    } else {
      ScanInvertsEscape(u, end, tag, enc);
      ScanSpaces(w, tag, rest, enc);
      TrailingSpaceIsDropped(CharsOf(u, enc), w);
    }
  }
}
