/** Which row and column a stamp leaves, told from the text it passes. */
module Columns {
  import opened Bytes
  import opened Codec
  import opened CodecLaws
  import opened Cursor
  import opened LooseSyntax

  // ----- one byte of layout -----

  /** What one round of the loop does is what stamping right behind its first byte does. */
  lemma OneRound(text: bytes, m: Mark, tab: int, enc: Encoding)
    requires m.at < |text| && tab >= 1 && Width(text, m.at, enc) != 0
    ensures Stamped(text, m, m.at + 1, tab, enc) == To(Moved(text, m, tab, enc))
  {
    WidthOfMoved(text, m, tab, enc);
    hide Moved, Width;
  }

  lemma NextMultiple(col: int, tab: int)
    requires tab >= 1 && col >= 0
    ensures var stop := (Quotient(col, tab) + 1) * tab; IsNextStop(stop, col, tab)
  {
    var q := col / tab;
    assert col == q * tab + col % tab;
    assert (q + 1) * tab == q * tab + tab;
    MultipleLeavesNothing(q + 1, tab);
  }

  lemma MultipleLeavesNothing(k: nat, n: int)
    requires n >= 1
    ensures (k * n) % n == 0
  {
    var a := k * n;
    OnlyRemainder(k, n, a / n, a % n);
  }

  lemma OnlyRemainder(k: int, n: int, d: int, r: int)
    requires k * n == d * n + r && 0 <= r < n
    ensures r == 0
  {
    Minus(k, d, n);
    if k > d {
      AtLeast(k - d, n);
    } else if k < d {
      Minus(d, k, n);
      AtLeast(d - k, n);
    }
  }

  lemma Minus(a: int, b: int, n: int)
    ensures (a - b) * n == a * n - b * n
  {
  }

  lemma AtLeast(a: nat, n: nat)
    requires a >= 1
    ensures a * n >= n
  {
    assert a * n == (a - 1) * n + n;
  }

  /** The multiple of the tab size that lies above the column by at most the tab size. */
  predicate IsNextStop(stop: int, col: int, tab: int)
    requires tab >= 1
  {
    stop % tab == 0 && col < stop <= col + tab
  }

  /** Behind a tab the column is the multiple of the tab size that lies above the one before by at
      most the tab size. */
  lemma TabGoesToTheNextStop(text: bytes, m: Mark, tab: int, enc: Encoding)
    requires m.at < |text| && text[m.at] == TAB && tab >= 1 && m.col >= 0
    ensures var r := Stamped(text, m, m.at + 1, tab, enc);
            r.To? && r.mark.at == m.at + 1 && r.mark.row == m.row &&
            IsNextStop(r.mark.col, m.col, tab)
  {
    OneRound(text, m, tab, enc);
    NextMultiple(m.col, tab);
    hide Quotient;
  }

  predicate IsNewLine(c: byte) {
    c == CR || c == LF
  }

  /** Behind a newline the column is 0. CR and LF next to each other, in either order, are one
      newline. */
  lemma NewLineStartsALine(text: bytes, m: Mark, tab: int, enc: Encoding)
    requires m.at < |text| && IsNewLine(text[m.at]) && tab >= 1
    ensures var pair := m.at + 1 < |text| && IsNewLine(text[m.at + 1]) && text[m.at + 1] != text[m.at];
            Stamped(text, m, m.at + 1, tab, enc)
            == To(Mark(if pair then m.at + 2 else m.at + 1, m.row + 1, 0))
  {
    OneRound(text, m, tab, enc);
  }

  // ----- a stretch of characters -----

  /** How many characters of the text take a column. */
  function Room(s: bytes, enc: Encoding): nat
    requires WholeChars(s, enc)
  {
    if s == [] then 0
    else
      var n := Step(s[0], enc);
      (if IsIgnorable(s[..n]) then 0 else 1) + Room(s[n..], enc)
  }

  predicate IsStretch(s: bytes, enc: Encoding) {
    TAB !in s && LF !in s && CR !in s && WholeChars(s, enc)
  }

  lemma StretchIsWhole(s: bytes, enc: Encoding)
    requires IsStretch(s, enc)
    ensures WholeChars(s, enc)
  {
  }

  lemma NoRoom(enc: Encoding)
    ensures WholeChars([], enc) && Room([], enc) == 0
  {
  }

  lemma RoomNext(s: bytes, enc: Encoding)
    requires s != [] && WholeChars(s, enc)
    ensures var n := Step(s[0], enc);
            n <= |s| && WholeChars(s[n..], enc) &&
            Room(s, enc) == (if IsIgnorable(s[..n]) then 0 else 1) + Room(s[n..], enc)
  {
  }

  lemma StretchTail(s: bytes, enc: Encoding)
    requires s != [] && IsStretch(s, enc)
    ensures var n := Step(s[0], enc); n <= |s| && IsStretch(s[n..], enc)
  {
    var t := s[Step(s[0], enc)..];
    assert forall c :: c in t ==> c in s;
  }

  lemma CharacterMoves(text: bytes, m: Mark, s: bytes, tab: int, enc: Encoding)
    requires tab >= 1 && s != [] && IsStretch(s, enc)
    requires m.at + |s| <= |text| && text[m.at..m.at + |s|] == s
    ensures var n := Step(s[0], enc);
            n <= |s| && Width(text, m.at, enc) == n &&
            Moved(text, m, tab, enc) == Mark(m.at + n, m.row, m.col + if IsIgnorable(s[..n]) then 0 else 1)
  {
    var n := Step(s[0], enc);
    assert s[0] in s && s[0] == text[m.at];
    if s[0] == 0xEF && enc == Utf8 {
      assert n == 3;
      assert text[m.at..][..3] == s[..3];
      assert forall mark: bytes :: |mark| == 3 ==> (mark <= text[m.at..] <==> mark == s[..3]);
    } else {
      assert s[..n][0] == s[0];
      assert !IsMark(text[m.at..]) || enc != Utf8;
      assert enc != Utf8 ==> n == 1;
    }
  }

  lemma TailOfText(text: bytes, at: nat, s: bytes, n: nat)
    requires n <= |s| && at + |s| <= |text| && text[at..at + |s|] == s
    ensures text[at + n..at + n + |s[n..]|] == s[n..] && s == s[..n] + s[n..]
  {
  }

  /** Over a stretch without tabs and newlines the column grows by the characters that take one. */
  lemma {:induction false} StretchCounts(text: bytes, m: Mark, s: bytes, tab: int, enc: Encoding)
    requires tab >= 1 && IsStretch(s, enc)
    requires m.at + |s| <= |text| && text[m.at..m.at + |s|] == s
    ensures Stamped(text, m, m.at + |s|, tab, enc) == To(Mark(m.at + |s|, m.row, m.col + Room(s, enc)))
    decreases |s|
  {
    hide Moved, Width, IsIgnorable, Room, IsStretch, WholeChars;
    StretchIsWhole(s, enc);
    if s == [] {
      NoRoom(enc);
    } else {
      var n := Step(s[0], enc);
      CharacterMoves(text, m, s, tab, enc);
      StretchTail(s, enc);
      RoomNext(s, enc);
      var next := Moved(text, m, tab, enc);
      TailOfText(text, m.at, s, n);
      StretchCounts(text, next, s[n..], tab, enc);
    }
  }

  /** Outside UTF-8 each byte takes a column. */
  lemma {:induction false} EveryByteTakesRoom(s: bytes, enc: Encoding)
    requires enc != Utf8 && WholeChars(s, enc)
    ensures Room(s, enc) == |s|
  {
    if s == [] {
    } else {
      assert |s[..1]| == 1;
      EveryByteTakesRoom(s[1..], enc);
    }
  }

  // ----- whole texts -----

  /** A stamp behind whole characters stops there, and has counted the lines in front. */
  lemma {:induction false} LinesInFront(text: bytes, m: Mark, s: bytes, tab: int, enc: Encoding)
    requires tab >= 1 && CR !in text && WholeChars(s, enc)
    requires m.at + |s| <= |text| && text[m.at..m.at + |s|] == s
    ensures var r := Stamped(text, m, m.at + |s|, tab, enc);
            r.To? && r.mark.at == m.at + |s| && r.mark.row == m.row + LineFeeds(s)
    decreases |s|
  {
    hide Moved, Width, LineFeeds, WholeChars;
    if s == [] {
      NoLineFeeds(s);
    } else {
      var n := Step(s[0], enc);
      RoundInFront(text, m, s, tab, enc);
      var next := Moved(text, m, tab, enc);
      TailOfText(text, m.at, s, n);
      LineFeedsAdd(s[..n], s[n..]);
      LinesInFront(text, next, s[n..], tab, enc);
    }
  }

  lemma RoundInFront(text: bytes, m: Mark, s: bytes, tab: int, enc: Encoding)
    requires tab >= 1 && CR !in text && WholeChars(s, enc) && s != []
    requires m.at + |s| <= |text| && text[m.at..m.at + |s|] == s
    ensures var n := Step(s[0], enc);
            var next := Moved(text, m, tab, enc);
            n <= |s| && WholeChars(s[n..], enc) && Width(text, m.at, enc) == n &&
            next.at == m.at + n && next.row == m.row + LineFeeds(s[..n])
  {
    var n := Step(s[0], enc);
    assert s[0] == text[m.at] && text[m.at] in text;
    assert s[..n] == [s[0]] + s[1..n];
    NoLineFeeds(s[1..n]);
    assert m.at + 1 < |text| ==> text[m.at + 1] in text;
  }

  /** Stamping at one place and then at the next. */
  lemma ThenStamped(text: bytes, m: Mark, middle: Mark, now: nat, tab: int, enc: Encoding)
    requires middle.at <= now <= |text| && tab >= 1
    requires Stamped(text, m, middle.at, tab, enc) == To(middle)
    ensures Stamped(text, m, now, tab, enc) == Stamped(text, middle, now, tab, enc)
  {
    hide Stamped;
    StampTwice(text, m, middle.at, now, tab, enc);
  }

  lemma Pieces(lead: bytes, c: byte, line: bytes, more: bytes)
    ensures var text := lead + ([c] + (line + more));
            var a, b := |lead| + 1, |lead| + 1 + |line|;
            |text| == b + |more| && text[0..|lead|] == lead && text[|lead|] == c && text[a..b] == line &&
            (more != [] ==> text[b] == more[0])
  {
    TakeDrop(lead, [c] + (line + more));
    var text := lead + ([c] + (line + more));
    var a, b := |lead| + 1, |lead| + 1 + |line|;
    assert forall i :: a <= i < b ==> text[i] == line[i - a];
  }

  lemma NoCrIn(lead: bytes, line: bytes, more: bytes)
    requires CR !in lead && CR !in line && CR !in more
    ensures CR !in lead + ([LF] + (line + more))
  {
  }

  /** From a place whose row is known, over a newline and a stretch. */
  lemma LineThenStretch(text: bytes, start: Mark, m: Mark, line: bytes, tab: int, enc: Encoding)
    requires tab >= 1 && IsStretch(line, enc) && CR !in text && m.at + 1 + |line| <= |text|
    requires Stamped(text, start, m.at, tab, enc) == To(m)
    requires text[m.at] == LF && text[m.at + 1..m.at + 1 + |line|] == line
    ensures var now := m.at + 1 + |line|;
            Stamped(text, start, now, tab, enc) == To(Mark(now, m.row + 1, Room(line, enc)))
  {
    hide Stamped, Room, IsStretch;
    NewLineStartsALine(text, m, tab, enc);
    var next := Mark(m.at + 1, m.row + 1, 0);
    assert m.at + 1 < |text| ==> text[m.at + 1] in text;
    ThenStamped(text, start, m, m.at + 1, tab, enc);
    ThenStamped(text, start, next, next.at + |line|, tab, enc);
    StretchCounts(text, next, line, tab, enc);
  }

  /** From a place whose column is known, over a tab and a stretch. */
  lemma TabThenStretch(text: bytes, start: Mark, m: Mark, line: bytes, tab: int, enc: Encoding)
    requires tab >= 1 && IsStretch(line, enc) && m.col >= 0 && m.at + 1 + |line| <= |text|
    requires Stamped(text, start, m.at, tab, enc) == To(m)
    requires text[m.at] == TAB && text[m.at + 1..m.at + 1 + |line|] == line
    ensures var now := m.at + 1 + |line|;
            var r := Stamped(text, start, now, tab, enc);
            r.To? && r.mark.at == now && r.mark.row == m.row &&
            IsNextStop(r.mark.col - Room(line, enc), m.col, tab)
  {
    hide Stamped, Room, IsStretch, IsNextStop;
    TabGoesToTheNextStop(text, m, tab, enc);
    var next := Stamped(text, m, m.at + 1, tab, enc).mark;
    ThenStamped(text, start, m, m.at + 1, tab, enc);
    ThenStamped(text, start, next, next.at + |line|, tab, enc);
    StretchCounts(text, next, line, tab, enc);
  }

  /** Behind whole lines and a last one without tabs: the row is the number of lines in front, the
      column the characters of the last one. */
  lemma RowAndColumn(lead: bytes, line: bytes, more: bytes, tab: int, enc: Encoding)
    requires tab >= 1 && WholeChars(lead, enc) && IsStretch(line, enc)
    requires CR !in lead && CR !in more
    ensures var text := lead + ([LF] + (line + more));
            Stamped(text, Mark(0, 0, 0), |lead| + 1 + |line|, tab, enc)
            == To(Mark(|lead| + 1 + |line|, LineFeeds(lead) + 1, Room(line, enc)))
  {
    var text, start := lead + ([LF] + (line + more)), Mark(0, 0, 0);
    assert CR !in line;
    Pieces(lead, LF, line, more);
    NoCrIn(lead, line, more);
    hide Stamped, Room, LineFeeds, IsStretch, WholeChars;
    LinesInFront(text, start, lead, tab, enc);
    LineThenStretch(text, start, Stamped(text, start, |lead|, tab, enc).mark, line, tab, enc);
  }

  lemma FrontOf(lead: bytes, line: bytes, end: bytes)
    ensures lead + ([LF] + (line + end)) == lead + ([LF] + line) + end
  {
    Assoc([LF], line, end);
    Assoc(lead, [LF] + line, end);
  }

  lemma TabIsNoCr(rest: bytes, more: bytes, enc: Encoding)
    requires IsStretch(rest, enc) && CR !in more
    ensures CR !in [TAB] + (rest + more)
  {
  }

  /** With a tab in the last line: the characters behind it are counted from the stop it goes to. */
  lemma ColumnBehindTab(lead: bytes, line: bytes, rest: bytes, more: bytes, tab: int, enc: Encoding)
    requires tab >= 1 && WholeChars(lead, enc) && IsStretch(line, enc) && IsStretch(rest, enc)
    requires CR !in lead && CR !in more
    ensures var text := lead + ([LF] + (line + ([TAB] + (rest + more))));
            var now := |lead| + 1 + |line| + 1 + |rest|;
            var r := Stamped(text, Mark(0, 0, 0), now, tab, enc);
            r.To? && r.mark.at == now && r.mark.row == LineFeeds(lead) + 1 &&
            IsNextStop(r.mark.col - Room(rest, enc), Room(line, enc), tab)
  {
    hide IsNextStop, Stamped, Room, LineFeeds, IsStretch, WholeChars;
    StretchIsWhole(line, enc);
    var front := lead + ([LF] + line);
    FrontOf(lead, line, [TAB] + (rest + more));
    var text := lead + ([LF] + (line + ([TAB] + (rest + more))));
    Pieces(front, TAB, rest, more);
    TabIsNoCr(rest, more, enc);
    RowAndColumn(lead, line, [TAB] + (rest + more), tab, enc);
    TabThenStretch(text, Mark(0, 0, 0), Mark(|front|, LineFeeds(lead) + 1, Room(line, enc)), rest, tab, enc);
  }

  /** "ab", a tab and '<', with a tab size of 4: the '<' is in column 4. */
  lemma TabInAnExample(enc: Encoding)
    ensures Stamped([97, 98, TAB, LT], Mark(0, 0, 0), 3, 4, enc) == To(Mark(3, 0, 4))
  {
    var text: bytes := [97, 98, TAB, LT];
    assert text[0..2] == [97, 98];
    assert IsStretch([97, 98], enc) && Room([97, 98], enc) == 2 by {
      assert [97, 98][1..] == [98] && [98][1..] == [];
      assert WholeChars([98], enc);
    }
    StretchCounts(text, Mark(0, 0, 0), [97, 98], 4, enc);
    TabGoesToTheNextStop(text, Mark(2, 0, 2), 4, enc);
    hide Stamped;
    StampTwice(text, Mark(0, 0, 0), 2, 3, 4, enc);
  }
}
