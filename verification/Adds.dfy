/** The saturating sums of lib/adds.h on a 64-bit `long`. */
module Adds {
  const LONG_MAX: int := 0x7FFF_FFFF_FFFF_FFFF
  const LONG_MIN: int := -0x8000_0000_0000_0000

  type long = x: int | -0x8000_0000_0000_0000 <= x <= 0x7FFF_FFFF_FFFF_FFFF

  /** The values of `errno` these functions set or leave. */
  datatype Errno = Unset | Overflow | Domain | Other(code: int)

  function Clamp(x: int): long {
    if x > LONG_MAX then LONG_MAX else if x < LONG_MIN then LONG_MIN else x
  }

  function Sum(s: seq<long>): int {
    if s == [] then 0 else s[0] + Sum(s[1..])
  }

  /** `addsl2`: no intermediate result leaves the range of `long`. */
  method AddsL2(a: long, b: long, errno: Errno) returns (sum: long, errno': Errno)
    ensures sum == Clamp(a + b)
    ensures errno' == if LONG_MIN <= a + b <= LONG_MAX then errno else Overflow
  {
    if a > 0 && b > LONG_MAX - a {
      return LONG_MAX, Overflow;
    }
    if a < 0 && b < LONG_MIN - a {
      return LONG_MIN, Overflow;
    }
    return a + b, errno;
  }

  // ----- sorting the addends -----

  ghost predicate Ascending(s: seq<long>) {
    forall i, j :: 0 <= i < j < |s| ==> s[i] <= s[j]
  }

  function Insert(x: long, s: seq<long>): (t: seq<long>)
    requires Ascending(s)
    ensures Ascending(t) && |t| == |s| + 1
    ensures forall i :: 0 <= i < |t| ==> t[i] == x || t[i] in s
  {
    if s == [] then [x]
    else if x <= s[0] then [x] + s
    else [s[0]] + Insert(x, s[1..])
  }

  function SortedOf(s: seq<long>): (t: seq<long>)
    ensures Ascending(t) && |t| == |s|
  {
    if s == [] then [] else Insert(s[0], SortedOf(s[1..]))
  }

  lemma {:induction false} InsertAdds(x: long, s: seq<long>)
    requires Ascending(s)
    ensures Sum(Insert(x, s)) == x + Sum(s)
    ensures multiset(Insert(x, s)) == multiset(s) + multiset{x}
  {
    if s == [] {
    } else if x <= s[0] {
      assert ([x] + s)[1..] == s;
    } else {
      InsertAdds(x, s[1..]);
      assert s == [s[0]] + s[1..];
      assert Insert(x, s)[1..] == Insert(x, s[1..]);
    }
  }

  /** Sorting permutes, so it keeps the sum. */
  lemma {:induction false} SortedSame(s: seq<long>)
    ensures Sum(SortedOf(s)) == Sum(s)
    ensures multiset(SortedOf(s)) == multiset(s)
  {
    if s != [] {
      SortedSame(s[1..]);
      InsertAdds(s[0], SortedOf(s[1..]));
      assert s == [s[0]] + s[1..];
    }
  }

  /** `QSORT(long, addend, n)`: sorts the first `n` cells in place. */
  method Qsort(a: array<long>, n: nat)
    requires n <= a.Length
    modifies a
    ensures a[..n] == SortedOf(old(a[..n])) && a[n..] == old(a[n..])
  {
    ghost var rest := a[n..];
    var t := SortedOf(a[..n]);
    forall i | 0 <= i < n {
      a[i] := t[i];
    }
    assert a[..n] == t && a[n..] == rest;
  }

  // ----- the n-ary sum -----

  lemma {:induction false} SumSnoc(s: seq<long>, x: long)
    ensures Sum(s + [x]) == Sum(s) + x
  {
    if s == [] {
      assert [] + [x] == [x];
    } else {
      SumSnoc(s[1..], x);
      assert (s + [x])[1..] == s[1..] + [x];
    }
  }

  lemma {:induction false} SumOfPositive(s: seq<long>)
    requires forall i :: 0 <= i < |s| ==> s[i] >= 0
    ensures Sum(s) >= 0
  {
    if s != [] {
      SumOfPositive(s[1..]);
    }
  }

  lemma {:induction false} SumOfNegative(s: seq<long>)
    requires forall i :: 0 <= i < |s| ==> s[i] <= 0
    ensures Sum(s) <= 0
  {
    if s != [] {
      SumOfNegative(s[1..]);
    }
  }

  /** The sum is the smallest plus the largest plus what is between. */
  lemma {:induction false} SumEnds(s: seq<long>)
    requires |s| >= 2
    ensures Sum(s) == s[0] + s[|s| - 1] + Sum(s[1..|s| - 1])
  {
    var k := |s| - 1;
    assert s[1..] == s[1..k] + [s[k]];
    SumSnoc(s[1..k], s[k]);
  }

  /** Replacing the two ends by their sum keeps the total. */
  lemma {:induction false} FoldEnds(s: seq<long>, first: int, t: seq<long>)
    requires |s| >= 2 && first == (s[0] as int) + (s[|s| - 1] as int)
    requires |t| == |s| - 1 && t[0] == first && forall i :: 1 <= i < |t| ==> t[i] == s[i]
    ensures Sum(t) == Sum(s)
  {
    SumEnds(s);
    assert t[1..] == s[1..|s| - 1];
  }

  /** Adding smallest and largest overflows only if the whole sum does, on the same side. */
  lemma {:induction false} EndsOverflow(s: seq<long>)
    requires |s| >= 2 && Ascending(s)
    ensures s[0] + s[|s| - 1] > LONG_MAX ==> Sum(s) > LONG_MAX
    ensures s[0] + s[|s| - 1] < LONG_MIN ==> Sum(s) < LONG_MIN
  {
    var k := |s| - 1;
    SumEnds(s);
    if s[0] + s[k] > LONG_MAX {
      SumOfPositive(s[1..k]);
    }
    if s[0] + s[k] < LONG_MIN {
      SumOfNegative(s[1..k]);
    }
  }

  /** One turn of the loop: sort, then fold the largest addend into the smallest. */
  method Turn(a: array<long>, n: nat) returns (err: Errno)
    requires 2 <= n <= a.Length
    modifies a
    ensures var total := Sum(old(a[..n]));
            if err == Overflow then a[0] == Clamp(total) && !(LONG_MIN <= total <= LONG_MAX)
            else err == Unset && Sum(a[..n - 1]) == total
  {
    SortedSame(a[..n]);
    Qsort(a, n);
    ghost var s := a[..n];
    EndsOverflow(s);
    var first;
    first, err := AddsL2(a[0], a[n - 1], Unset);
    a[0] := first;
    if err != Overflow {
      FoldEnds(s, first, a[..n - 1]);
    }
  }

  /**
   `addslN`: the exact sum of the addends, clamped to `long`, whatever their
   order; `errno` is touched only by an empty list or an overflow.
   */
  method AddsLN(a: array<long>, size: nat, errno: Errno) returns (sum: long, errno': Errno)
    requires size <= a.Length
    modifies a
    ensures -0x8000_0000_0000_0000 <= Sum(old(a[..size])) <= 0x7FFF_FFFF_FFFF_FFFF ==> sum == Sum(old(a[..size]))
    ensures Sum(old(a[..size])) > 0x7FFF_FFFF_FFFF_FFFF ==> sum == 0x7FFF_FFFF_FFFF_FFFF
    ensures Sum(old(a[..size])) < -0x8000_0000_0000_0000 ==> sum == -0x8000_0000_0000_0000
    ensures errno' == if size == 0 then Domain
                      else if LONG_MIN <= Sum(old(a[..size])) <= LONG_MAX then errno
                      else Overflow
  {
    if size == 0 {
      return 0, Domain;
    }
    var n := size;
    var e := errno;
    ghost var total := Sum(a[..n]);
    while n > 1
      invariant 1 <= n <= size
      invariant Sum(a[..n]) == total
    {
      var err := Turn(a, n);
      n := n - 1;
      if err == Overflow {
        return a[0], Overflow;
      }
    }
    assert a[..1] == [a[0]];
    return a[0], e;
  }
}
