/** The newline normalisation of `TiXmlDocument::LoadFile`: an in-place loop with a read head and a
    write head, against the rule of section 2.11 of XML 1.0. */
module NewLines {
  import opened Bytes

  /** One pass, as the loop works: a CR becomes an LF and takes an LF behind it along. */
  function Normalized(s: bytes): (r: bytes)
    ensures |r| <= |s|
    decreases |s|
  {
    if s == [] then []
    else if s[0] == CR then [LF] + Normalized(if |s| > 1 && s[1] == LF then s[2..] else s[1..])
    else [s[0]] + Normalized(s[1..])
  }

  // ----- the rule -----

  /** Drops each CR that an LF follows. */
  function DropCrBeforeLf(s: bytes): bytes {
    if s == [] then []
    else if s[0] == CR && |s| > 1 && s[1] == LF then DropCrBeforeLf(s[1..])
    else [s[0]] + DropCrBeforeLf(s[1..])
  }

  /** Turns each CR that is left into an LF. */
  function CrToLf(s: bytes): (r: bytes)
    ensures |r| == |s| && forall i {:trigger r[i]} :: 0 <= i < |r| ==> r[i] == if s[i] == CR then LF else s[i]
  {
    seq(|s|, i requires 0 <= i < |s| => if s[i] == CR then LF else s[i])
  }

  /** Both a CR LF and a CR without an LF behind it are translated to one LF. */
  lemma {:induction false} NormalizedFollowsTheRule(s: bytes)
    ensures Normalized(s) == CrToLf(DropCrBeforeLf(s))
    decreases |s|
  {
    if s == [] {
    } else {
      var d := DropCrBeforeLf(s);
      if s[0] == CR && |s| > 1 && s[1] == LF {
        NormalizedFollowsTheRule(s[2..]);
        var more := s[1..];
        assert more[1..] == s[2..] && more[0] == LF;
        assert d == DropCrBeforeLf(more) == [LF] + DropCrBeforeLf(more[1..]);
      } else {
        NormalizedFollowsTheRule(s[1..]);
        assert d == [s[0]] + DropCrBeforeLf(s[1..]);
      }
      assert d[1..] == DropCrBeforeLf(if s[0] == CR && |s| > 1 && s[1] == LF then s[2..] else s[1..]);
      assert CrToLf(d) == [if d[0] == CR then LF else d[0]] + CrToLf(d[1..]);
    }
  }

  lemma {:induction false} NormalizedHasNoCr(s: bytes)
    ensures CR !in Normalized(s)
    ensures NulFree(s) ==> NulFree(Normalized(s))
    decreases |s|
  {
    if s == [] {
    } else {
      NormalizedHasNoCr(if s[0] == CR && |s| > 1 && s[1] == LF then s[2..] else s[1..]);
    }
  }

  /** Text stays as it is exactly when it has no CR; so normalising twice is normalising once. */
  lemma {:induction false} NormalizedIsSame(s: bytes)
    ensures Normalized(s) == s <==> CR !in s
  {
    NormalizedHasNoCr(s);
    if CR !in s && s != [] {
      NormalizedIsSame(s[1..]);
      assert s == [s[0]] + s[1..];
    }
  }

  /** The loop of `LoadFile` over a buffer with one byte to spare: the bytes up to the first NUL are
      normalised where they are. */
  method Normalize(buf: array<byte>)
    requires buf.Length > 0
    modifies buf
    ensures CStr(buf[..]) == Normalized(CStr(old(buf[..buf.Length - 1])))
  {
    hide CStr, Normalized, NulFree;
    var length := buf.Length - 1;
    ghost var text := buf[..length];
    buf[length] := NUL;
    ghost var all, done := buf[..], [];
    Start(all, text);
    var p, q := 0, 0;
    while buf[p] != NUL
      invariant 0 <= q <= p <= length
      invariant forall j {:trigger buf[j]} :: p <= j <= length ==> buf[j] == all[j]
      invariant |done| == q && forall j {:trigger buf[j]} :: 0 <= j < q ==> buf[j] == done[j]
      invariant NulFree(done) && done + Normalized(CStr(all[p..])) == Normalized(CStr(text))
      decreases length - p
    {
      ghost var written, next := if all[p] == CR then LF else all[p], Next(all, p);
      CStrAhead(all, p);
      Written(done, written, Normalized(CStr(all[next..])));
      if buf[p] == CR {
        buf[q] := LF;
        q := q + 1;
        p := p + 1;
        if buf[p] == LF {
          p := p + 1;
        }
      } else {
        buf[q] := buf[p];
        q := q + 1;
        p := p + 1;
      }
      assert p == next;
      done := done + [written];
    }
    NothingAhead(all[p..]);
    buf[q] := NUL;
    CStrEndsAt(buf[..], done);
  }

  lemma Start(all: bytes, text: bytes)
    requires |all| == |text| + 1 && all[..|text|] == text && all[|text|] == NUL
    ensures [] + Normalized(CStr(all[0..])) == Normalized(CStr(text)) && NulFree([])
  {
    hide Normalized;
    assert all == text + [NUL] && all[0..] == all;
    CStrOfTerminated(text);
  }

  lemma Written(done: bytes, x: byte, more: bytes)
    requires NulFree(done) && x != NUL
    ensures NulFree(done + [x]) && done + [x] + more == done + ([x] + more)
  {
  }

  lemma NothingAhead(s: bytes)
    requires s != [] && s[0] == NUL
    ensures Normalized(CStr(s)) == []
  {
  }

  lemma {:induction false} CStrEndsAt(s: bytes, done: bytes)
    requires |done| < |s| && s[|done|] == NUL && NulFree(done) && forall j :: 0 <= j < |done| ==> s[j] == done[j]
    ensures CStr(s) == done
    decreases done
  {
    if done == [] {
    } else {
      assert done[0] in done && forall c :: c in done[1..] ==> c in done;
      CStrEndsAt(s[1..], done[1..]);
    }
  }

  lemma {:induction false} CStrOfTerminated(s: bytes)
    ensures CStr(s + [NUL]) == CStr(s)
  {
    if s == [] {
      assert s + [NUL] == [NUL];
    } else {
      assert (s + [NUL])[1..] == s[1..] + [NUL];
      CStrOfTerminated(s[1..]);
    }
  }

  /** Where the read head goes from p. */
  ghost function Next(all: bytes, p: nat): (n: nat)
    requires p < |all| - 1
    ensures p < n <= |all|
  {
    if all[p] == CR && all[p + 1] == LF then p + 2 else p + 1
  }

  /** What is ahead of p, which does not point at a NUL. */
  lemma CStrAhead(all: bytes, p: nat)
    requires p < |all| - 1 && all[p] != NUL
    ensures Normalized(CStr(all[p..]))
            == [if all[p] == CR then LF else all[p]] + Normalized(CStr(all[Next(all, p)..]))
  {
    var ahead, more := CStr(all[p..]), CStr(all[p + 1..]);
    assert all[p..][1..] == all[p + 1..];
    assert ahead == [all[p]] + more && ahead[1..] == more;
    if all[p + 1] == LF {
      assert all[p + 1..][1..] == all[p + 2..];
      assert more == [LF] + CStr(all[p + 2..]);
      assert ahead[2..] == more[1..] == CStr(all[p + 2..]);
    }
  }
}
