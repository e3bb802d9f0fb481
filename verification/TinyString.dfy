/** TiXmlString: a string buffer that owns its representation, with one shared representation for
    all strings without capacity. */
module TinyString {
  import opened Bytes

  class Rep {
    var size: nat
    const capacity: nat
    const str: array<byte>

    constructor (capacity: nat, size: nat)
      requires size <= capacity
      ensures this.capacity == capacity && this.size == size && Valid() && fresh(str)
    {
      this.capacity, this.size := capacity, size;
      str := new byte[capacity + 1](_ => NUL);
    }

    ghost predicate Fits()
      reads this
    {
      str.Length == capacity + 1 && size <= capacity
    }

    /** The bytes fit and a terminator stands behind them. */
    ghost predicate Valid()
      reads this, str
    {
      Fits() && str[size] == NUL
    }
  }

  /** Length and capacity of a string, and the bytes its reallocations have copied so far. */
  datatype Extent = Extent(size: nat, capacity: nat, moved: nat)

  function Reserved(e: Extent, cap: nat): Extent {
    if cap > e.capacity then Extent(e.size, cap, e.moved + e.size) else e
  }

  function Appended(e: Extent, len: nat): Extent {
    var newsize := e.size + len;
    var r := if newsize > e.capacity then Reserved(e, newsize + e.capacity) else e;
    r.(size := newsize)
  }

  function AppendedAll(e: Extent, lens: seq<nat>): Extent
    decreases |lens|
  {
    if lens == [] then e else AppendedAll(Appended(e, lens[0]), lens[1..])
  }

  /** What appending keeps: all the copying is paid for by the capacity, and that by the length. */
  predicate Amortised(e: Extent) {
    e.size <= e.capacity && e.moved <= e.capacity <= 2 * e.size
  }

  /** An append that does not fit makes room for the old capacity besides the new length. */
  lemma TwoAppends(n: nat, m: nat)
    requires n > 0 && m > 0
    ensures AppendedAll(Extent(0, 0, 0), [n]) == Extent(n, n, 0)
    ensures AppendedAll(Extent(0, 0, 0), [n, m]) == Extent(n + m, 2 * n + m, n)
  {
    assert [n][1..] == [] && [n, m][1..] == [m] && [m][1..] == [];
    assert Appended(Extent(0, 0, 0), n) == Extent(n, n, 0);
    assert Appended(Extent(n, n, 0), m) == Extent(n + m, 2 * n + m, n);
    assert AppendedAll(Extent(n + m, 2 * n + m, n), []) == Extent(n + m, 2 * n + m, n);
    assert AppendedAll(Extent(n, n, 0), [m]) == Extent(n + m, 2 * n + m, n);
  }

  /** In every run of appends from the empty string, whatever the lengths, the bytes copied by
      reallocation stay within the capacity, and the capacity within twice the length. */
  lemma {:induction false} AppendsAreAmortised(e: Extent, lens: seq<nat>)
    requires Amortised(e)
    ensures Amortised(AppendedAll(e, lens))
    decreases |lens|
  {
    if lens == [] {
    } else {
      AppendsAreAmortised(Appended(e, lens[0]), lens[1..]);
    }
  }

  class TiXmlString {
    var rep: Rep
    const nullrep: Rep
    ghost var moved: nat

    ghost predicate Valid()
      reads this, rep, rep.str, nullrep, nullrep.str
    {
      Fits() && rep.str[rep.size] == NUL
    }

    /** All of Valid but the terminator. The shared representation stays empty. */
    ghost predicate Fits()
      reads this, rep, nullrep, nullrep.str
    {
      rep.Fits() && nullrep.Valid() && nullrep.capacity == 0 && (rep.capacity == 0 <==> rep == nullrep) &&
      (rep != nullrep ==> rep.str != nullrep.str)
    }

    ghost function Contents(): bytes
      requires Valid()
      reads this, rep, rep.str, nullrep, nullrep.str
    {
      rep.str[..rep.size]
    }

    ghost function GetExtent(): Extent
      reads this, rep
    {
      Extent(rep.size, rep.capacity, moved)
    }

    constructor (nullrep: Rep)
      requires nullrep.Valid() && nullrep.capacity == 0
      ensures Valid() && this.nullrep == nullrep && Contents() == [] && GetExtent() == Extent(0, 0, 0)
    {
      this.nullrep, rep, moved := nullrep, nullrep, 0;
    }

    /** `init`: the shared representation when there is no capacity. */
    method Init(sz: nat, cap: nat) returns (r: Rep)
      requires Valid() && sz <= cap
      ensures r.Valid() && r.size == sz && r.capacity == cap
      ensures if cap == 0 then r == nullrep else fresh(r) && fresh(r.str)
    {
      if cap == 0 {
        return nullrep;
      }
      r := new Rep(cap, sz);
    }

    /** `reserve`: a larger representation with the same bytes. */
    method Reserve(cap: nat)
      requires Valid()
      modifies this`rep, this`moved
      ensures Valid() && Contents() == old(Contents()) && GetExtent() == Reserved(old(GetExtent()), cap)
      ensures rep == old(rep) || (fresh(rep) && fresh(rep.str))
    {
      if cap > rep.capacity {
        var tmp := Init(rep.size, cap);
        forall i | 0 <= i < rep.size {
          tmp.str[i] := rep.str[i];
        }
        moved := moved + rep.size;
        rep := tmp;
      }
    }

    method SetSize(sz: nat)
      requires Fits() && sz <= rep.capacity
      modifies rep`size, rep.str
      ensures Valid() && rep.size == sz && rep.str[..sz] == old(rep.str[..sz])
    {
      rep.size := sz;
      rep.str[sz] := NUL;
    }

    /** `assign`: afterwards there is not much more room than the bytes need. */
    method Assign(s: bytes)
      requires Valid()
      modifies this`rep, rep`size, rep.str
      ensures Valid() && Contents() == s && rep.capacity <= 3 * (|s| + 8)
      ensures rep == old(rep) || rep == nullrep || (fresh(rep) && fresh(rep.str))
    {
      var cap := rep.capacity;
      if |s| > cap || cap > 3 * (|s| + 8) {
        rep := Init(|s|, |s|);
        forall i | 0 <= i < |s| {
          rep.str[i] := s[i];
        }
      } else {
        forall i | 0 <= i < |s| {
          rep.str[i] := s[i];
        }
        SetSize(|s|);
      }
      assert rep.str[..|s|] == s;
    }

    /** `append` of bytes that are not the string's own. */
    method Append(s: bytes)
      requires Valid()
      modifies this`rep, this`moved, rep`size, rep.str
      ensures Valid() && Contents() == old(Contents()) + s
      ensures GetExtent() == Appended(old(GetExtent()), |s|)
      ensures rep == old(rep) || (fresh(rep) && fresh(rep.str))
    {
      var n, newsize := rep.size, rep.size + |s|;
      if newsize > rep.capacity {
        Reserve(newsize + rep.capacity);
      }
      ghost var before := rep.str[..n];
      forall i | 0 <= i < |s| {
        rep.str[n + i] := s[i];
      }
      assert rep.str[..newsize] == before + s;
      SetSize(newsize);
    }
  }

  /** `operator +`: the room is reserved once, and nothing is copied twice. */
  method Concat(a: TiXmlString, b: TiXmlString) returns (tmp: TiXmlString)
    requires a.Valid() && b.Valid() && a.nullrep == b.nullrep
    modifies a.nullrep, a.nullrep.str
    ensures tmp.Valid() && fresh(tmp) && tmp.Contents() == old(a.Contents()) + old(b.Contents())
    ensures tmp.GetExtent() == Extent(|tmp.Contents()|, |tmp.Contents()|, 0)
    ensures a.Valid() && b.Valid() && a.Contents() == old(a.Contents()) && b.Contents() == old(b.Contents())
  {
    tmp := new TiXmlString(a.nullrep);
    tmp.Reserve(a.rep.size + b.rep.size);
    tmp.Append(a.rep.str[..a.rep.size]);
    tmp.Append(b.rep.str[..b.rep.size]);
  }

  // ----- comparison -----

  /** `operator ==`: the lengths, then the bytes up to the first NUL. */
  predicate Same(a: bytes, b: bytes) {
    |a| == |b| && CStr(a) == CStr(b)
  }

  /** For a string without NUL it is equality of the bytes. */
  lemma SameIsEqual(a: bytes, b: bytes)
    requires NulFree(a)
    ensures Same(a, b) <==> a == b
  {
    CStrKeepsExactlyNulFree(a);
  }

  /** Comparing with a string is equality exactly when it holds no NUL before its last byte. */
  lemma SameDecidesIff(a: bytes)
    ensures (forall b :: Same(a, b) <==> a == b) <==> a == [] || NUL !in a[..|a| - 1]
  {
    if a != [] {
      var last := |a| - 1;
      if NUL in a[..last] {
        var b := a[last := if a[last] == 0 then 1 else 0];
        SameFront(a, b, last);
        assert b[last] != a[last];
        assert Same(a, b) && a != b;
      } else {
        forall b | Same(a, b)
          ensures a == b
        {
          AllCompared(a, b);
        }
      }
    }
  }

  lemma {:induction false} SameFront(a: bytes, b: bytes, k: nat)
    requires k <= |a| == |b| && a[..k] == b[..k] && NUL in a[..k]
    ensures CStr(a) == CStr(b)
    decreases k
  {
    assert a[0] == a[..k][0] == b[..k][0] == b[0];
    if a[0] != NUL {
      assert a[1..][..k - 1] == a[..k][1..] && b[1..][..k - 1] == b[..k][1..];
      assert a[..k] == [a[0]] + a[..k][1..];
      SameFront(a[1..], b[1..], k - 1);
    }
  }

  lemma {:induction false} AllCompared(a: bytes, b: bytes)
    requires a != [] && NUL !in a[..|a| - 1] && Same(a, b)
    ensures a == b
  {
    assert |a| > 1 ==> a[..|a| - 1][0] == a[0];
    if a[0] != NUL && |a| > 1 {
      assert a[1..][..|a| - 2] == a[..|a| - 1][1..];
      AllCompared(a[1..], b[1..]);
      assert a == [a[0]] + a[1..] && b == [b[0]] + b[1..];
    }
  }

  /** Behind a NUL bytes are not compared. */
  lemma SameIsBlindBehindNul()
    ensures Same([NUL, 1], [NUL, 2])
  {
    assert CStr([NUL, 1]) == [] && CStr([NUL, 2]) == [];
  }
}
