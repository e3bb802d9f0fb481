/** The bytes of a C string and the character classes the library applies to them.

    A NUL-terminated `const char*` is modelled by the sequence of its bytes before the
    terminator, and a pointer into a buffer by the bytes that are still ahead of it, so
    advancing the pointer drops a prefix and the terminator is the empty sequence. */
module Bytes {

  newtype byte = b: int | 0 <= b < 256

  type bytes = seq<byte>

  /** A `const char*`: the null pointer, the bytes from the pointer to the terminator, or a pointer
      that has run past the terminator. What the source does once it has such a pointer is undefined;
      in the model it is handed back at once, and nothing else is done any more. */
  datatype Ptr = Null | Wild | At(s: bytes) {

    /** The test `p && *p`. */
    predicate Live() {
      At? && s != []
    }

    /** Bytes left, with the null pointer below every pointer into the buffer. */
    function Left(): nat {
      if At? then |s| + 1 else 0
    }

    /** What is handed back when there is nothing to go on with. */
    function Lost(): Ptr {
      if Wild? then Wild else Null
    }
  }

  datatype Encoding = Unknown | Utf8 | Legacy

  const NUL: byte := 0
  const TAB: byte := 9
  const LF: byte := 10
  const CR: byte := 13
  const SPACE: byte := 32
  const BANG: byte := 33
  const QUOT: byte := 34
  const HASH: byte := 35
  const AMP: byte := 38
  const APOS: byte := 39
  const DASH: byte := 45
  const DOT: byte := 46
  const SLASH: byte := 47
  const COLON: byte := 58
  const SEMI: byte := 59
  const LT: byte := 60
  const EQUALS: byte := 61
  const GT: byte := 62
  const QMARK: byte := 63
  const OPEN_BRACKET: byte := 91
  const CLOSE_BRACKET: byte := 93
  const UNDERSCORE: byte := 95
  const LOWER_X: byte := 120

  /** `isspace` of the C locale. */
  predicate IsSpace(c: byte) {
    c == 32 || 9 <= c <= 13
  }

  predicate IsDigit(c: byte) {
    48 <= c <= 57
  }

  predicate IsAsciiLetter(c: byte) {
    65 <= c <= 90 || 97 <= c <= 122
  }

  predicate IsAlpha(c: byte) {
    IsAsciiLetter(c) || c >= 127
  }

  predicate IsAlphaNum(c: byte) {
    IsAlpha(c) || IsDigit(c)
  }

  predicate IsNameStart(c: byte) {
    IsAlpha(c) || c == UNDERSCORE
  }

  predicate IsNameByte(c: byte) {
    IsAlphaNum(c) || c == UNDERSCORE || c == DASH || c == DOT || c == COLON
  }

  function ToLower(c: byte): byte {
    if 65 <= c <= 90 then c + 32 else c
  }

  /** Every byte of s is white space: `TiXmlText::Blank`. */
  predicate Blank(s: bytes) {
    forall i :: 0 <= i < |s| ==> IsSpace(s[i])
  }

  predicate NulFree(s: bytes) {
    NUL !in s
  }

  lemma NulFreeConcat(s: bytes, t: bytes)
    ensures NulFree(s + t) <==> NulFree(s) && NulFree(t)
  {
  }

  /** What a reader of `s.c_str()` sees: the bytes before the first NUL. */
  function CStr(s: bytes): (r: bytes)
    ensures r <= s
    ensures NulFree(r)
    ensures |r| == |s| || s[|r|] == NUL
  {
    if s == [] || s[0] == NUL then [] else [s[0]] + CStr(s[1..])
  }

  lemma {:induction false} CStrKeepsExactlyNulFree(s: bytes)
    ensures CStr(s) == s <==> NulFree(s)
  {
    if s != [] && s[0] != NUL {
      CStrKeepsExactlyNulFree(s[1..]);
      assert s == [s[0]] + s[1..];
    }
  }

  lemma {:induction false} CutAtNul(v: bytes, w: bytes)
    requires NulFree(v)
    ensures CStr(v + ([NUL] + w)) == v
  {
    if v == [] {
    } else {
      var s := v + ([NUL] + w);
      CutAtNul(v[1..], w);
      assert s[1..] == v[1..] + ([NUL] + w) && s[0] == v[0];
      assert v == [v[0]] + v[1..];
    }
  }

  lemma Assoc<T>(a: seq<T>, b: seq<T>, c: seq<T>)
    ensures (a + b) + c == a + (b + c)
  {
  }

  lemma NothingInFront<T>(s: seq<T>)
    ensures [] + s == s
  {
  }

  lemma TakeDrop<T>(a: seq<T>, b: seq<T>)
    ensures a <= a + b
    ensures (a + b)[..|a|] == a
    ensures (a + b)[|a|..] == b
  {
  }

  /** pat occurs somewhere in s. */
  predicate Occurs(pat: bytes, s: bytes) {
    exists i :: 0 <= i <= |s| && pat <= s[i..]
  }

  /** Index of the first c at or after from, if any: `strchr(s + from, c)`. */
  function IndexFrom(s: bytes, from: nat, c: byte): (r: nat)
    requires from <= |s|
    ensures from <= r <= |s|
    ensures forall j :: from <= j < r ==> s[j] != c
    ensures r < |s| ==> s[r] == c
    decreases |s| - from
  {
    if from == |s| || s[from] == c then from else IndexFrom(s, from + 1, c)
  }

  lemma {:induction false} IndexFromIs(s: bytes, from: nat, c: byte, k: nat)
    requires from <= k < |s| && s[k] == c
    requires forall j :: from <= j < k ==> s[j] != c
    ensures IndexFrom(s, from, c) == k
    decreases k - from
  {
    if from < k {
      IndexFromIs(s, from + 1, c, k);
    }
  }

  /** `StringEqual(p, tag, true, encoding)`: tag is a prefix of s up to ASCII case. */
  predicate HasPrefixIgnoringCase(s: bytes, tag: bytes) {
    |tag| <= |s| && forall i :: 0 <= i < |tag| ==> ToLower(s[i]) == ToLower(tag[i])
  }
}
