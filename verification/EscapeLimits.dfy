/** Exactly which strings survive escaping and reading back. */
module EscapeLimits {
  import opened Bytes
  import Utf8
  import opened Codec
  import opened CodecLaws

  /** Text that EncodeString escapes throughout holds no raw delimiter. */
  lemma {:induction false} EscapedTextHasNoDelimiter(s: bytes)
    requires HexFree(s)
    ensures forall i :: 0 <= i < |Escape(s)| ==> !IsDelimiter(Escape(s)[i])
  {
    if s == [] {
    } else {
      NoMarkInFront(s);
      HexFreeTail(s, 1);
      EscapedTextHasNoDelimiter(s[1..]);
      EscapedByteHasNoDelimiter(s[0]);
      var e, more := EscapeByte(s[0]), Escape(s[1..]);
      assert Escape(s) == e + more;
      hide Escape, EscapeByte, IsDelimiter;
      forall i | 0 <= i < |e + more|
        ensures !IsDelimiter((e + more)[i])
      {
        assert (e + more)[i] == if i < |e| then e[i] else more[i - |e|];
      }
    }
  }

  lemma EscapedByteHasNoDelimiter(c: byte)
    ensures forall i :: 0 <= i < |EscapeByte(c)| ==> !IsDelimiter(EscapeByte(c)[i])
  {
  }

  /** Nor anything below a blank. */
  lemma {:induction false} EscapedTextHasNoControl(s: bytes)
    requires HexFree(s)
    ensures forall i :: 0 <= i < |Escape(s)| ==> Escape(s)[i] >= SPACE
  {
    if s == [] {
    } else {
      NoMarkInFront(s);
      HexFreeTail(s, 1);
      EscapedTextHasNoControl(s[1..]);
      assert forall i :: 0 <= i < |EscapeByte(s[0])| ==> EscapeByte(s[0])[i] >= SPACE;
      hide EscapeByte;
    }
  }

  /** A byte that is written as it is. */
  predicate IsPlain(c: byte) {
    c >= SPACE && !IsDelimiter(c) && c != AMP
  }

  /** Only what has to be is escaped. */
  lemma {:induction false} EscapeIsSameIff(s: bytes)
    requires HexFree(s)
    ensures |Escape(s)| >= |s| && (Escape(s) == s <==> forall i :: 0 <= i < |s| ==> IsPlain(s[i]))
  {
    if s == [] {
    } else {
      NoMarkInFront(s);
      HexFreeTail(s, 1);
      EscapeIsSameIff(s[1..]);
      var e, more := EscapeByte(s[0]), Escape(s[1..]);
      assert Escape(s) == e + more && s == [s[0]] + s[1..];
      assert if IsPlain(s[0]) then e == [s[0]] else |e| > 1;
      hide Escape, EscapeByte, IsPlain;
      if IsPlain(s[0]) {
        assert (e + more)[1..] == more;
      } else {
        assert |e + more| > |s|;
      }
      assert forall i :: 1 <= i < |s| ==> s[i] == s[1..][i - 1];
    }
  }

  /** A hexadecimal reference that was written already passes through up to its ';', whatever its
      digits are. */
  lemma ReferencePassesThrough(body: bytes, rest: bytes)
    requires SEMI !in body
    ensures Escape(HEX_MARK + (body + ([SEMI] + rest))) == HEX_MARK + (body + ([SEMI] + Escape(rest)))
  {
    var s := HEX_MARK + (body + ([SEMI] + rest));
    var k := |body| + 3;
    TakeDrop(HEX_MARK, body + ([SEMI] + rest));
    assert s == (HEX_MARK + body) + ([SEMI] + rest);
    TakeDrop(HEX_MARK + body, [SEMI] + rest);
    assert forall j :: 3 <= j < k ==> s[j] == body[j - 3];
    IndexFromIs(s, 3, SEMI, k);
    assert PassThrough(s) == k;
    MarkIsKept(s);
    hide Escape, PassThrough;
    SemicolonIsKept(s[k..]);
    TakeDrop([SEMI], rest);
    Assoc(HEX_MARK, body, [SEMI] + Escape(rest));
  }

  /** Without a ';' all passes through but the last byte. */
  lemma UnendedPassesThrough(body: bytes, last: byte)
    requires SEMI !in body && last != SEMI
    ensures Escape(HEX_MARK + (body + [last])) == HEX_MARK + (body + EscapeByte(last))
  {
    var s := HEX_MARK + (body + [last]);
    var k := |body| + 3;
    TakeDrop(HEX_MARK, body + [last]);
    assert s == (HEX_MARK + body) + [last];
    TakeDrop(HEX_MARK + body, [last]);
    assert forall j :: 3 <= j < |s| ==> s[j] == (body + [last])[j - 3];
    assert IndexFrom(s, 3, SEMI) == |s|;
    MarkIsKept(s);
    assert [last][1..] == [] && Escape([]) == [];
    assert !(HEX_MARK <= [last]);
    assert Escape([last]) == EscapeByte(last) + [];
    hide Escape, PassThrough, EscapeByte;
    Assoc(HEX_MARK, body, EscapeByte(last));
  }

  lemma {:induction false} WholeCharsFrom(s: bytes, j: nat, enc: Encoding)
    requires WholeChars(s, enc) && j < |s| && s[j] < 0x80
    ensures WholeChars(s[j..], enc)
    decreases |s|
  {
    var n := Step(s[0], enc);
    if j == 0 {
      assert s[j..] == s;
    } else {
      assert n <= j;
      assert s[n..][j - n..] == s[j..];
      WholeCharsFrom(s[n..], j - n, enc);
    }
  }

  lemma MarkIsLater(s: bytes, n: nat)
    requires n <= |s| && !HexFree(s) && !(HEX_MARK <= s)
    requires forall i :: 1 <= i < n ==> s[i] != AMP
    ensures !HexFree(s[n..])
  {
    var i :| 0 <= i <= |s| && HEX_MARK <= s[i..];
    assert s[0..] == s;
    assert s[i..][0] == s[i] == AMP;
    assert s[n..][i - n..] == s[i..];
  }

  lemma {:induction false} EmptyOrShortCodePoint(ds: bytes, enc: Encoding)
    requires AreDigits(ds, 16)
    ensures |CodePoint(Number(ds, 16) % ULONG_MODULUS, enc)| < |ds| + 4
  {
    if ds == [] {
      assert Number(ds, 16) == 0;
    }
  }

  lemma MarkIsKept(s: bytes)
    requires HEX_MARK <= s
    ensures Escape(s) == s[..PassThrough(s)] + Escape(s[PassThrough(s)..])
  {
  }

  lemma SemicolonIsKept(s: bytes)
    requires s != [] && s[0] == SEMI
    ensures Escape(s) == [SEMI] + Escape(s[1..])
  {
  }

  lemma WrittenReferenceIs(s: bytes, end: bytes)
    requires HEX_MARK <= s && s[PassThrough(s)] == SEMI
    ensures var k := PassThrough(s);
            Escape(s) + end == s[..k + 1] + (Escape(s[k + 1..]) + end) &&
            (Escape(s) + end)[k + 1..] == Escape(s[k + 1..]) + end
  {
    var k := PassThrough(s);
    var more := Escape(s[k + 1..]);
    hide Escape, PassThrough;
    MarkIsKept(s);
    SemicolonIsKept(s[k..]);
    assert s[k..][1..] == s[k + 1..] && s[..k + 1] == s[..k] + [SEMI];
    Assoc(s[..k], [SEMI], more);
    Assoc(s[..k + 1], more, end);
    TakeDrop(s[..k + 1], more + end);
  }

  /** A reference the caller already wrote, up to its ';', reads as fewer bytes than it has. */
  lemma WrittenReferenceShrinks(s: bytes, end: bytes, enc: Encoding)
    requires HEX_MARK <= s && s[PassThrough(s)] == SEMI
    ensures var k := PassThrough(s);
            var all := Escape(s) + end;
            match CharAt(all, enc)
            case NoChar => true
            case Overrun(_) => false
            case Char(v, rest) => |v| <= k && rest == Escape(s[k + 1..]) + end
  {
    var k := PassThrough(s);
    var all := Escape(s) + end;
    var tail := Escape(s[k + 1..]) + end;
    WrittenReferenceIs(s, end);
    assert forall j :: 0 <= j <= k ==> all[j] == s[j];
    hide Escape, EscapeByte, Utf8.Encode, Number, CodePoint;
    IndexFromIs(all, 3, SEMI, k);
    assert all[..k][2] == LOWER_X;
    var ds := all[LastBefore(all, k, LOWER_X) + 1..k];
    if AreDigits(ds, 16) {
      EmptyOrShortCodePoint(ds, enc);
      assert all[k + 1..] == tail;
    }
  }

  lemma NamedReferenceIsNoNumber(pre: bytes, c: byte, end: bytes)
    requires |pre| >= 3 && pre[2] == LOWER_X && forall j :: 3 <= j < |pre| ==> pre[j] != SEMI
    requires c == AMP || IsDelimiter(c)
    ensures var all := pre + EscapeByte(c) + end;
            var semi := IndexFrom(all, 3, SEMI);
            semi < |all| && LOWER_X in all[..semi] &&
            !AreDigits(all[LastBefore(all, semi, LOWER_X) + 1..semi], 16)
  {
    var ref := EscapeByte(c);
    var all := pre + ref + end;
    var semi := |pre| + |ref| - 1;
    assert forall j :: |pre| <= j < |pre| + |ref| ==> all[j] == ref[j - |pre|];
    assert forall j :: 0 <= j < |ref| - 1 ==> ref[j] != SEMI && ref[j] != LOWER_X;
    IndexFromIs(all, 3, SEMI, semi);
    assert all[..semi][2] == LOWER_X;
    var m := LastBefore(all, semi, LOWER_X);
    assert all[|pre|] == AMP;
    var ds := all[m + 1..semi];
    assert ds[|pre| - (m + 1)] == AMP;
  }

  lemma NamedReferenceFails(pre: bytes, c: byte, end: bytes, enc: Encoding)
    requires HEX_MARK <= pre && forall j :: 3 <= j < |pre| ==> pre[j] != SEMI
    requires c == AMP || IsDelimiter(c)
    ensures CharAt(pre + EscapeByte(c) + end, enc) == NoChar
  {
    NamedReferenceIsNoNumber(pre, c, end);
    var all := pre + EscapeByte(c) + end;
    assert all[0] == AMP && all[1] == HASH && all[2] == LOWER_X && |all| > 3;
    hide EscapeByte, Number, CodePoint, AreDigits, IndexFrom, LastBefore;
  }

  lemma UnfinishedReferenceIs(s: bytes)
    requires HEX_MARK <= s && s[PassThrough(s)] != SEMI
    ensures var k := PassThrough(s);
            Escape(s) == s[..k] + EscapeByte(s[k]) && (forall j :: 3 <= j < k ==> s[j] != SEMI) &&
            HEX_MARK <= s[..k] + [s[k]] && (s[k] != LOWER_X ==> HEX_MARK <= s[..k])
  {
    var k := PassThrough(s);
    var c := s[k];
    assert s[k..] == [c] && [c][1..] == [];
    assert Escape([c]) == EscapeByte(c) + Escape([]) == EscapeByte(c);
    assert s[..k] + [c] == s[..k + 1] && s[..3] == HEX_MARK;
  }

  lemma PlainAfterMark(pre: bytes, end: bytes, enc: Encoding)
    requires HEX_MARK <= pre && forall j :: 3 <= j < |pre| ==> pre[j] != SEMI
    requires end != [] && IsDelimiter(end[0])
    ensures match CharAt(pre + end, enc)
            case NoChar => true
            case Overrun(_) => false
            case Char(_, rest) => |rest| < |end|
  {
    var all := pre + end;
    var semi := IndexFrom(all, 3, SEMI);
    if semi < |all| {
      assert all[..semi][2] == LOWER_X;
      var m := LastBefore(all, semi, LOWER_X);
      assert all[|pre|] == end[0];
      if m < |pre| {
        assert all[m + 1..semi][|pre| - (m + 1)] == end[0];
      }
    }
  }

  /** When no ';' follows the mark, the last byte is escaped on its own and the reader looks for
      the ';' there or after the end tag; it fails, reads past the tag, or reads one byte. */
  lemma UnfinishedReferenceShrinks(s: bytes, end: bytes, enc: Encoding)
    requires HEX_MARK <= s && s[PassThrough(s)] != SEMI
    requires end != [] && IsDelimiter(end[0])
    ensures match CharAt(Escape(s) + end, enc)
            case NoChar => true
            case Overrun(_) => false
            case Char(v, rest) => |rest| < |end| || (|v| == 1 && rest == end)
  {
    var k := PassThrough(s);
    var c := s[k];
    UnfinishedReferenceIs(s);
    hide Escape, PassThrough;
    if c == AMP || IsDelimiter(c) {
      NamedReferenceFails(s[..k], c, end, enc);
    } else if c < 32 {
      ControlReference(s[..k], c, end, enc);
    } else {
      PlainAfterMark(s[..k] + EscapeByte(c), end, enc);
    }
  }

  /** A text read back up to its own end tag is never longer than the text, and shorter as soon
      as the text holds "&#x". */
  lemma {:induction false} ReadBackIsNoLonger(s: bytes, tag: bytes, rest: bytes, enc: Encoding)
    requires WholeChars(s, enc) && tag != [] && IsDelimiter(tag[0])
    ensures var r := Scan(Escape(s) + (tag + rest), tag, enc);
            r.p == At(tag + rest) ==>
              |Flatten(r.tokens)| <= |s| && (!HexFree(s) ==> |Flatten(r.tokens)| < |s|)
    decreases |s|
  {
    hide CharAt, PassThrough;
    var end := tag + rest;
    var all := Escape(s) + end;
    if s == [] {
      assert all == end;
      TakeDrop(tag, rest);
    } else if HEX_MARK <= s {
      var k := PassThrough(s);
      assert all[0] == AMP && !(tag <= all);
      if s[k] == SEMI {
        WrittenReferenceShrinks(s, end, enc);
        WholeCharsFrom(s, k, enc);
        assert s[k..][1..] == s[k + 1..];
        ReadBackIsNoLonger(s[k + 1..], tag, rest, enc);
      } else {
        UnfinishedReferenceShrinks(s, end, enc);
        TakeDrop(tag, rest);
      }
    } else {
      var n := Step(s[0], enc);
      ScanStep(s, end, tag, enc);
      ReadBackIsNoLonger(s[n..], tag, rest, enc);
      if !HexFree(s) {
        MarkIsLater(s, n);
      }
    }
  }

  lemma OnlyTagBefore(p: Ptr, tag: bytes, rest: bytes)
    requires p.Live() ==> tag <= p.s
    ensures AfterTag(p, tag) == At(rest) ==> p == At(tag + rest)
  {
    if AfterTag(p, tag) == At(rest) {
      assert p.s == p.s[..|tag|] + p.s[|tag|..];
    }
  }

  /** Reading escaped text back gives the text, with the pointer just past the end tag, exactly
      when the text does not hold "&#x". */
  lemma ReadBackIffHexFree(s: bytes, tag: bytes, rest: bytes, enc: Encoding)
    requires WholeChars(s, enc) && tag != [] && IsDelimiter(tag[0]) && rest != []
    ensures TextAt(At(Escape(s) + (tag + rest)), false, tag, enc) == TextRead(s, At(rest)) <==> HexFree(s)
  {
    var all := Escape(s) + (tag + rest);
    if HexFree(s) {
      KeptTextReadsBack(s, tag, rest, enc);
    } else {
      ReadBackIsNoLonger(s, tag, rest, enc);
      ScanStopsAtTag(all, tag, enc);
      OnlyTagBefore(Scan(all, tag, enc).p, tag, rest);
    }
  }

  /** What the pass-through is for: a reference the caller wrote comes back resolved. */
  lemma WrittenReferenceIsResolved(rest: bytes, enc: Encoding)
    requires rest != []
    ensures var s := HEX_MARK + [48, 65, SEMI];
            Escape(s) == s && CharAt(s + rest, enc) == Char([LF], rest)
  {
    var s := HEX_MARK + [48, 65, SEMI];
    IndexFromIs(s, 3, SEMI, 5);
    assert s[5..] == [SEMI] && [SEMI][1..] == [];
    assert Escape([SEMI]) == [SEMI] + Escape([]) == [SEMI];
    assert s == s[..5] + [SEMI];
    assert s == EscapeByte(LF) && [] + s + rest == s + rest;
    ControlReference([], LF, rest, enc);
  }

  // ----- condensing -----

  /** Behind pending white space or not, no space that condensing would remove. */
  predicate SingleSpaced(s: bytes, pending: bool) {
    (pending ==> s != [] && s[0] != SPACE) &&
    (s != [] ==> s[|s| - 1] != SPACE) &&
    forall i {:trigger s[i]} :: 0 <= i < |s| - 1 ==> !(s[i] == SPACE && s[i + 1] == SPACE)
  }

  /** No leading, trailing or doubled space, and in UTF-8 no byte-order mark in front. */
  predicate Tidy(s: bytes, enc: Encoding) {
    SingleSpaced(s, false) && (s != [] ==> s[0] != SPACE) && !(enc == Utf8 && IsMark(s))
  }

  lemma SingleSpacedStep(s: bytes, n: nat, pending: bool)
    requires 0 < n <= |s| && forall i :: 1 <= i < n ==> s[i] != SPACE
    ensures s[0] != SPACE ==> (SingleSpaced(s, pending) <==> SingleSpaced(s[n..], false))
    ensures s[0] == SPACE && n == 1 ==>
              (SingleSpaced(s, false) <==> SingleSpaced(s[1..], true)) && !SingleSpaced(s, true)
  {
    var t := s[n..];
    assert forall i :: n <= i < |s| ==> s[i] == t[i - n];
    if s[0] != SPACE && SingleSpaced(t, false) {
      forall i | 0 <= i < |s| - 1
        ensures !(s[i] == SPACE && s[i + 1] == SPACE)
      {
        if i >= n {
          assert !(t[i - n] == SPACE && t[i - n + 1] == SPACE);
        }
      }
      assert t == [] ==> s[|s| - 1] != SPACE;
    }
    if SingleSpaced(s, false) {
      forall i | 0 <= i < |t| - 1
        ensures !(t[i] == SPACE && t[i + 1] == SPACE)
      {
        assert !(s[i + n] == SPACE && s[i + n + 1] == SPACE);
      }
    }
    if s[0] == SPACE && n == 1 && SingleSpaced(t, true) {
      forall i | 0 <= i < |s| - 1
        ensures !(s[i] == SPACE && s[i + 1] == SPACE)
      {
        if i >= 1 {
          assert !(t[i - 1] == SPACE && t[i] == SPACE);
        }
      }
    }
  }

  lemma OnePassStep(s: bytes, enc: Encoding, pending: bool)
    requires s != [] && WholeChars(s, enc)
    ensures var n := Step(s[0], enc);
            OnePass(CharsOf(s, enc), pending) ==
              if s[0] == SPACE then OnePass(CharsOf(s[1..], enc), true)
              else Pad(pending) + s[..n] + OnePass(CharsOf(s[n..], enc), false)
  {
    assert CharsOf(s, enc)[1..] == CharsOf(s[Step(s[0], enc)..], enc);
  }

  /** One pass keeps the text, and the space pending before it, just if it is single spaced. */
  predicate KeptIffSingleSpaced(s: bytes, enc: Encoding, pending: bool)
    requires WholeChars(s, enc)
  {
    var r := OnePass(CharsOf(s, enc), pending);
    |r| <= |Pad(pending) + s| &&
    (s != [] || !pending ==> (r == Pad(pending) + s <==> SingleSpaced(s, pending)))
  }

  lemma KeptAtSpace(s: bytes, enc: Encoding, pending: bool)
    requires s != [] && s[0] == SPACE && WholeChars(s, enc)
    requires KeptIffSingleSpaced(s[1..], enc, true)
    ensures KeptIffSingleSpaced(s, enc, pending)
  {
    assert Pad(true) == [SPACE] && Pad(false) == [];
    hide OnePass, CharsOf, SingleSpaced, Pad;
    SingleSpacedStep(s, 1, pending);
    OnePassStep(s, enc, pending);
    NothingInFront(s);
    SpaceInFront(s, pending);
  }

  lemma SpaceInFront(s: bytes, pending: bool)
    requires s != [] && s[0] == SPACE
    ensures s == [SPACE] + s[1..] && (s[1..] == [] ==> !SingleSpaced(s, pending))
  {
  }

  lemma SameBehindHead(pad: bytes, s: bytes, n: nat, more: bytes)
    requires n <= |s|
    ensures pad + s[..n] + more == pad + s <==> more == s[n..]
    ensures |pad + s[..n] + more| <= |pad + s| <==> |more| <= |s[n..]|
  {
    TakeDrop(pad + s[..n], more);
    TakeDrop(pad + s[..n], s[n..]);
    assert pad + s == pad + s[..n] + s[n..];
  }

  lemma KeptAtWord(s: bytes, enc: Encoding, pending: bool)
    requires s != [] && s[0] != SPACE && WholeChars(s, enc)
    requires KeptIffSingleSpaced(s[Step(s[0], enc)..], enc, false)
    ensures KeptIffSingleSpaced(s, enc, pending)
  {
    var n := Step(s[0], enc);
    SingleSpacedStep(s, n, pending);
    OnePassStep(s, enc, pending);
    assert Pad(false) == [];
    hide OnePass, CharsOf, SingleSpaced, Pad;
    SameBehindHead(Pad(pending), s, n, OnePass(CharsOf(s[n..], enc), false));
    assert [] + s[n..] == s[n..];
  }

  lemma {:induction false} OnePassKeepsSingleSpaced(s: bytes, enc: Encoding, pending: bool)
    requires WholeChars(s, enc)
    ensures KeptIffSingleSpaced(s, enc, pending)
    decreases |s|
  {
    if s == [] {
      assert [] + s == s;
    } else if s[0] == SPACE {
      OnePassKeepsSingleSpaced(s[1..], enc, true);
      KeptAtSpace(s, enc, pending);
    } else {
      OnePassKeepsSingleSpaced(s[Step(s[0], enc)..], enc, false);
      KeptAtWord(s, enc, pending);
    }
  }

  lemma {:induction false} StripLeadIsProper(s: bytes, enc: Encoding)
    ensures StripLead(s, enc) == s || |StripLead(s, enc)| < |s|
    ensures StripLead(s, enc) == s <==> s == [] || (s[0] != SPACE && !(enc == Utf8 && IsMark(s)))
  {
  }

  /** Condensing gives the text back exactly when it is tidy. */
  lemma CondensedIffTidy(s: bytes, enc: Encoding)
    requires HexFree(s) && WholeChars(s, enc)
    ensures Condensed(s, enc) == s <==> Tidy(s, enc)
  {
    var u := StripLead(s, enc);
    StripLeadKeeps(s, enc);
    StripLeadIsProper(s, enc);
    StripLeadIsProper(u, enc);
    StripLeadTwice(s, enc);
    var ts := CharsOf(u, enc);
    assert DropSpaces(ts) == ts;
    OnePassCondenses(ts);
    OnePassKeepsSingleSpaced(u, enc, false);
    assert [] + u == u;
  }

  // ----- blank text -----

  lemma BlankConcat(a: bytes, b: bytes)
    ensures Blank(a + b) <==> Blank(a) && Blank(b)
  {
    var s := a + b;
    assert forall i :: 0 <= i < |a| ==> s[i] == a[i];
    assert forall i :: 0 <= i < |b| ==> s[|a| + i] == b[i];
  }

  /** What one pass keeps of a text is blank just if the text is. */
  lemma {:induction false} OnePassKeepsBytes(s: bytes, enc: Encoding, pending: bool)
    requires WholeChars(s, enc)
    ensures Blank(OnePass(CharsOf(s, enc), pending)) <==> Blank(s)
    decreases |s|
  {
    if s == [] {
      assert OnePass(CharsOf(s, enc), pending) == [];
    } else {
      var n := Step(s[0], enc);
      OnePassStep(s, enc, pending);
      assert s == s[..n] + s[n..] && Blank(Pad(pending)) && (n == 1 ==> s[..n] == [s[0]]);
      BlankConcat(s[..n], s[n..]);
      OnePassKeepsBytes(s[n..], enc, s[0] == SPACE);
      assert s[0] == SPACE ==> n == 1 && Blank(s[..n]);
      hide OnePass, CharsOf, Blank;
      BlankConcat(Pad(pending), s[..n]);
      BlankConcat(Pad(pending) + s[..n], OnePass(CharsOf(s[n..], enc), false));
    }
  }

  lemma CondensedIsBlank(s: bytes, enc: Encoding)
    requires HexFree(s) && WholeChars(s, enc)
    ensures Blank(Condensed(s, enc)) <==> Blank(StripLead(s, enc))
  {
    var u := StripLead(s, enc);
    StripLeadKeeps(s, enc);
    StripLeadTwice(s, enc);
    StripLeadIsProper(u, enc);
    var ts := CharsOf(u, enc);
    assert DropSpaces(ts) == ts;
    OnePassCondenses(ts);
    OnePassKeepsBytes(u, enc, false);
  }
}
