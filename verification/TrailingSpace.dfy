/** `skip_trailing_space`: trailing blanks are skipped a word at a time where the addresses allow it. */
module TrailingSpace {
  import opened Bytes

  const SIZEOF_INT := 4
  const SPACE_INT := 0x20202020

  /** What is left of s without the blanks at its end: the byte-by-byte loop. */
  function Trimmed(s: bytes): (r: bytes)
    ensures r <= s && (r == [] || r[|r| - 1] != SPACE)
    ensures forall i :: |r| <= i < |s| ==> s[i] == SPACE
  {
    if s == [] || s[|s| - 1] != SPACE then s else Trimmed(s[..|s| - 1])
  }

  /** The end found this way is the only one with a blank everywhere behind it and none before it. */
  lemma {:induction false} TrimmedIs(s: bytes, end: nat)
    requires end <= |s| && forall i :: end <= i < |s| ==> s[i] == SPACE
    requires end == 0 || s[end - 1] != SPACE
    ensures Trimmed(s) == s[..end]
  {
    if end < |s| {
      TrimmedIs(s[..|s| - 1], end);
      assert s[..|s| - 1][..end] == s[..end];
    }
  }

  /** An unsigned int in memory at offset i. */
  function Word(s: bytes, i: nat, bigEndian: bool): nat
    requires i + SIZEOF_INT <= |s|
  {
    var a, b, c, d := s[i] as nat, s[i + 1] as nat, s[i + 2] as nat, s[i + 3] as nat;
    if bigEndian then ((a * 256 + b) * 256 + c) * 256 + d else ((d * 256 + c) * 256 + b) * 256 + a
  }

  /** A word of blanks, on either byte order, is four bytes of blanks. */
  lemma WordOfSpaces(s: bytes, i: nat, bigEndian: bool)
    requires i + SIZEOF_INT <= |s|
    ensures Word(s, i, bigEndian) == SPACE_INT <==> forall j :: i <= j < i + SIZEOF_INT ==> s[j] == SPACE
  {
    var a, b, c, d := s[i] as nat, s[i + 1] as nat, s[i + 2] as nat, s[i + 3] as nat;
    assert Word(s, i, bigEndian) == SPACE_INT <==> a == 32 && b == 32 && c == 32 && d == 32;
  }

  /** Reads a word; it has to lie inside the buffer, at an address that is a multiple of its size. */
  method ReadWord(s: bytes, base: nat, i: int, bigEndian: bool) returns (w: nat)
    requires 0 <= i && i + SIZEOF_INT <= |s| && (base + i) % SIZEOF_INT == 0
    ensures w == Word(s, i, bigEndian)
  {
    w := Word(s, i, bigEndian);
  }

  /** The buffer s starts at the address base. The end found is that of the byte-by-byte loop, for
      every length and alignment. */
  method SkipTrailingSpace(s: bytes, base: nat, bigEndian: bool) returns (end: nat)
    ensures end == |Trimmed(s)|
  {
    end := |s|;
    if |s| > 20 {
      var endWords := (base + |s|) / SIZEOF_INT * SIZEOF_INT - base;
      var startWords := (base + SIZEOF_INT - 1) / SIZEOF_INT * SIZEOF_INT - base;
      if endWords > 0 {
        while end > endWords && s[end - 1] == SPACE
          invariant endWords <= end <= |s|
          invariant forall i :: end <= i < |s| ==> s[i] == SPACE
        {
          end := end - 1;
        }
        if s[end - 1] == SPACE && startWords < endWords {
          var blank := true;
          while end > startWords && blank
            invariant startWords <= end <= |s| && (base + end) % SIZEOF_INT == 0
            invariant forall i :: end <= i < |s| ==> s[i] == SPACE
            decreases end, blank
          {
            var w := ReadWord(s, base, end - SIZEOF_INT, bigEndian);
            WordOfSpaces(s, end - SIZEOF_INT, bigEndian);
            blank := w == SPACE_INT;
            if blank {
              end := end - SIZEOF_INT;
            }
          }
        }
      }
    }
    while end > 0 && s[end - 1] == SPACE
      invariant end <= |s| && forall i :: end <= i < |s| ==> s[i] == SPACE
    {
      end := end - 1;
    }
    TrimmedIs(s, end);
  }
}
