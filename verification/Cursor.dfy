/** Where a position of the text is, in rows and columns: `TiXmlParsingData::Stamp`. */
module Cursor {
  import opened Bytes
  import opened Codec
  import opened CodecLaws

  /** A position that has been stamped, with its row and column. */
  datatype Mark = Mark(at: nat, row: int, col: int)

  datatype Run = Stuck | To(mark: Mark)

  /** The bytes taken in one round at p; none, so that the loop never ends, at a 0xEF in UTF-8 that
      two more bytes do not follow. */
  function Width(text: bytes, p: nat, enc: Encoding): (n: nat)
    requires p < |text|
    ensures n <= 4
  {
    var c := text[p];
    if c == CR then (if p + 1 < |text| && text[p + 1] == LF then 2 else 1)
    else if c == LF then (if p + 1 < |text| && text[p + 1] == CR then 2 else 1)
    else if c == TAB then 1
    else if c == 0xEF && enc == Utf8 then (if p + 2 < |text| then 3 else 0)
    else Step(c, enc)
  }

  /** Division of C: towards zero. */
  function Quotient(a: int, b: int): int
    requires b > 0
  {
    if a >= 0 then a / b else -(-a / b)
  }

  /** The mark behind the round at m. Tabs go to the next stop, marks and non-characters take no room. */
  function Moved(text: bytes, m: Mark, tab: int, enc: Encoding): Mark
    requires m.at < |text| && tab >= 1
  {
    var c, p := text[m.at], m.at + Width(text, m.at, enc);
    if c == CR || c == LF then Mark(p, m.row + 1, 0)
    else if c == TAB then Mark(p, m.row, (Quotient(m.col, tab) + 1) * tab)
    else if enc == Utf8 && IsMark(text[m.at..]) then Mark(p, m.row, m.col)
    else Mark(p, m.row, m.col + 1)
  }

  /** The loop of Stamp from m. */
  function Stamped(text: bytes, m: Mark, now: nat, tab: int, enc: Encoding): Run
    requires now <= |text| && tab >= 1
    decreases |text| - m.at
  {
    if m.at >= now then To(m)
    else if Width(text, m.at, enc) == 0 then Stuck
    else Stamped(text, Moved(text, m, tab, enc), now, tab, enc)
  }

  // ----- path independence -----

  /** Stamping at one place and then at another is stamping at the one further on. */
  lemma {:induction false} StampTwice(text: bytes, m: Mark, a: nat, b: nat, tab: int, enc: Encoding)
    requires a <= |text| && b <= |text| && tab >= 1
    ensures var r := Stamped(text, m, a, tab, enc);
            Stamped(text, m, if a < b then b else a, tab, enc)
            == if r.Stuck? then Stuck else Stamped(text, r.mark, b, tab, enc)
    decreases |text| - m.at
  {
    if m.at < a {
      if Width(text, m.at, enc) != 0 {
        StampTwice(text, Moved(text, m, tab, enc), a, b, tab, enc);
      }
    } else if a >= b {
      assert Stamped(text, m, b, tab, enc) == To(m);
    }
  }

  predicate Within(nows: seq<nat>, end: nat) {
    forall i :: 0 <= i < |nows| ==> nows[i] <= end
  }

  /** The calls of a whole run. */
  function StampedAll(text: bytes, m: Mark, nows: seq<nat>, tab: int, enc: Encoding): Run
    requires tab >= 1 && Within(nows, |text|)
    decreases |nows|
  {
    if nows == [] then To(m)
    else
      var r := Stamped(text, m, nows[0], tab, enc);
      if r.Stuck? then Stuck else StampedAll(text, r.mark, nows[1..], tab, enc)
  }

  function Furthest(nows: seq<nat>): (r: nat)
    requires nows != []
    ensures Within(nows, r) && exists i :: 0 <= i < |nows| && nows[i] == r
  {
    if |nows| == 1 then nows[0]
    else
      var r := Furthest(nows[1..]);
      assert forall i :: 1 <= i < |nows| ==> nows[i] == nows[1..][i - 1];
      if nows[0] < r then r else nows[0]
  }

  /** After any sequence of stamps, row, column and position are those of one stamp at the furthest
      place. */
  lemma {:induction false} PathIndependent(text: bytes, m: Mark, nows: seq<nat>, tab: int, enc: Encoding)
    requires tab >= 1 && nows != [] && Within(nows, |text|)
    ensures StampedAll(text, m, nows, tab, enc) == Stamped(text, m, Furthest(nows), tab, enc)
    decreases |nows|
  {
    var a := nows[0];
    var r := Stamped(text, m, a, tab, enc);
    if |nows| > 1 {
      StampTwice(text, m, a, Furthest(nows[1..]), tab, enc);
      if r.To? {
        PathIndependent(text, r.mark, nows[1..], tab, enc);
      }
    }
  }

  // ----- order -----

  predicate NotBefore(m: Mark, n: Mark) {
    m.row < n.row || (m.row == n.row && m.col <= n.col)
  }

  lemma TabMovesOn(col: int, tab: int)
    requires tab >= 1 && col >= -1
    ensures (Quotient(col, tab) + 1) * tab > col && (Quotient(col, tab) + 1) * tab >= 0
  {
    if col == -1 && tab > 1 {
      assert Quotient(col, tab) == 0;
    }
  }

  /** Row and column never go back. A cleared cursor stands at -1. */
  lemma {:induction false} StampGoesOn(text: bytes, m: Mark, now: nat, tab: int, enc: Encoding)
    requires now <= |text| && tab >= 1 && m.col >= -1
    ensures var r := Stamped(text, m, now, tab, enc);
            r.To? ==> NotBefore(m, r.mark) && r.mark.col >= -1 && now <= r.mark.at && m.at <= r.mark.at
    decreases |text| - m.at
  {
    if m.at < now && Width(text, m.at, enc) != 0 {
      TabMovesOn(m.col, tab);
      StampGoesOn(text, Moved(text, m, tab, enc), now, tab, enc);
    }
  }

  // ----- termination -----

  predicate CutShort(text: bytes, p: nat, enc: Encoding) {
    enc == Utf8 && p < |text| <= p + 2 && text[p] == 0xEF
  }

  /** The positions the loop visits. */
  function Visited(text: bytes, p: nat, now: nat, enc: Encoding): seq<nat>
    requires now <= |text|
    decreases |text| - p
  {
    if p >= now then []
    else [p] + if Width(text, p, enc) == 0 then [] else Visited(text, p + Width(text, p, enc), now, enc)
  }

  predicate AnyCutShort(text: bytes, ps: seq<nat>, enc: Encoding) {
    exists i :: 0 <= i < |ps| && CutShort(text, ps[i], enc)
  }

  lemma AnyCutShortCons(text: bytes, p: nat, ps: seq<nat>, enc: Encoding)
    ensures AnyCutShort(text, [p] + ps, enc) <==> CutShort(text, p, enc) || AnyCutShort(text, ps, enc)
  {
    hide CutShort;
    var all := [p] + ps;
    assert all[0] == p && forall i :: 0 <= i < |ps| ==> all[i + 1] == ps[i];
  }

  /** The loop ends unless it visits a 0xEF that is cut short. */
  lemma {:induction false} StuckIffCutShort(text: bytes, m: Mark, now: nat, tab: int, enc: Encoding)
    requires now <= |text| && tab >= 1
    ensures Stamped(text, m, now, tab, enc) == Stuck <==> AnyCutShort(text, Visited(text, m.at, now, enc), enc)
    decreases |text| - m.at
  {
    hide Width, CutShort, AnyCutShort, Moved;
    NothingIsCutShort(text, enc);
    if m.at < now {
      var w, n := Width(text, m.at, enc), Moved(text, m, tab, enc);
      WidthIsNothing(text, m.at, enc);
      WidthOfMoved(text, m, tab, enc);
      var more := if w == 0 then [] else Visited(text, n.at, now, enc);
      AnyCutShortCons(text, m.at, more, enc);
      if w != 0 {
        StuckIffCutShort(text, n, now, tab, enc);
      }
    }
  }

  lemma NothingIsCutShort(text: bytes, enc: Encoding)
    ensures !AnyCutShort(text, [], enc)
  {
  }

  lemma WidthIsNothing(text: bytes, p: nat, enc: Encoding)
    requires p < |text|
    ensures Width(text, p, enc) == 0 <==> CutShort(text, p, enc)
  {
  }

  // ----- rows -----

  function LineFeeds(s: bytes): nat {
    if s == [] then 0 else (if s[0] == LF then 1 else 0) + LineFeeds(s[1..])
  }

  lemma {:induction false} LineFeedsAdd(s: bytes, t: bytes)
    ensures LineFeeds(s + t) == LineFeeds(s) + LineFeeds(t)
  {
    if s == [] {
      assert s + t == t;
    } else {
      assert (s + t)[1..] == s[1..] + t;
      LineFeedsAdd(s[1..], t);
    }
  }

  lemma LineFeedsSplit(text: bytes, a: nat, b: nat, c: nat)
    requires a <= b <= c <= |text|
    ensures LineFeeds(text[a..c]) == LineFeeds(text[a..b]) + LineFeeds(text[b..c])
  {
    assert text[a..c] == text[a..b] + text[b..c];
    LineFeedsAdd(text[a..b], text[b..c]);
  }

  lemma {:induction false} NoLineFeeds(s: bytes)
    requires LF !in s
    ensures LineFeeds(s) == 0
  {
    if s == [] {
    } else {
      NoLineFeeds(s[1..]);
    }
  }

  /** One round over text without CR whose characters are whole. */
  lemma RoundCountsRows(text: bytes, m: Mark, tab: int, enc: Encoding)
    requires m.at < |text| && tab >= 1 && CR !in text && WholeChars(text[m.at..], enc)
    ensures var n := Moved(text, m, tab, enc);
            m.at < n.at <= |text| && WholeChars(text[n.at..], enc) &&
            n.row == m.row + LineFeeds(text[m.at..n.at])
  {
    var s, n := text[m.at..], Moved(text, m, tab, enc);
    var w := Width(text, m.at, enc);
    assert s[0] == text[m.at];
    assert w == Step(s[0], enc);
    assert text[n.at..] == s[w..];
    var passed := text[m.at..n.at];
    assert passed == [text[m.at]] + passed[1..];
    assert forall i :: 1 <= i < w ==> s[i] == text[m.at + i];
    NoLineFeeds(passed[1..]);
  }

  lemma WidthOfMoved(text: bytes, m: Mark, tab: int, enc: Encoding)
    requires m.at < |text| && tab >= 1
    ensures Moved(text, m, tab, enc).at == m.at + Width(text, m.at, enc)
  {
  }

  /** On text whose newlines are normalised, each LF that is passed makes a row. */
  lemma {:induction false} RowsAreLineFeeds(text: bytes, m: Mark, now: nat, tab: int, enc: Encoding)
    requires m.at <= |text| && now <= |text| && tab >= 1 && CR !in text && WholeChars(text[m.at..], enc)
    ensures var r := Stamped(text, m, now, tab, enc);
            r.To? && m.at <= r.mark.at <= |text| && r.mark.row == m.row + LineFeeds(text[m.at..r.mark.at])
    decreases |text| - m.at
  {
    hide WholeChars, LineFeeds, Moved, Width;
    if m.at < now {
      RoundCountsRows(text, m, tab, enc);
      WidthOfMoved(text, m, tab, enc);
      var n := Moved(text, m, tab, enc);
      RowsAreLineFeeds(text, n, now, tab, enc);
      LineFeedsSplit(text, m.at, n.at, Stamped(text, n, now, tab, enc).mark.at);
    } else {
      NoLineFeeds(text[m.at..m.at]);
    }
  }

  // ----- the class -----

  class TiXmlParsingData {
    const text: bytes
    const tabsize: int
    var row: int
    var col: int
    var stamp: nat

    constructor (text: bytes, tabsize: int, row: int, col: int)
      ensures this.text == text && this.tabsize == tabsize && this.row == row && this.col == col && stamp == 0
    {
      this.text, this.tabsize, this.row, this.col, stamp := text, tabsize, row, col, 0;
    }

    function GetMark(): Mark
      reads this
    {
      Mark(stamp, row, col)
    }

    /** Moves the cursor on to now, which lies in the text, its terminator included. With a tab size
        below 1 nothing is tracked. */
    method Stamp(now: nat, enc: Encoding)
      requires now <= |text|
      requires tabsize >= 1 ==> Stamped(text, GetMark(), now, tabsize, enc).To?
      modifies this`row, this`col, this`stamp
      ensures if tabsize < 1 then GetMark() == old(GetMark())
              else To(GetMark()) == Stamped(text, old(GetMark()), now, tabsize, enc)
    {
      if tabsize < 1 {
        return;
      }
      var r, c, p := row, col, stamp;
      ghost var goal := Stamped(text, GetMark(), now, tabsize, enc);
      while p < now
        invariant Stamped(text, Mark(p, r, c), now, tabsize, enc) == goal
        decreases |text| - p
      {
        assert Width(text, p, enc) != 0;
        if text[p] == CR {
          r, c, p := r + 1, 0, p + 1;
          if p < |text| && text[p] == LF {
            p := p + 1;
          }
        } else if text[p] == LF {
          r, c, p := r + 1, 0, p + 1;
          if p < |text| && text[p] == CR {
            p := p + 1;
          }
        } else if text[p] == TAB {
          c, p := (Quotient(c, tabsize) + 1) * tabsize, p + 1;
        } else if text[p] == 0xEF && enc == Utf8 {
          if p + 2 < |text| {
            if !IsMark(text[p..]) {
              c := c + 1;
            }
            p := p + 3;
          }
        } else {
          p, c := p + Step(text[p], enc), c + 1;
        }
      }
      row, col, stamp := r, c, p;
    }
  }
}
