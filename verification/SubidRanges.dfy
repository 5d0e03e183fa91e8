/**
 The interval arithmetic of lib/subordinateio.c on plain values: the order used
 for sorting, the sweep for a free range, and the cut one entry suffers when a
 range is removed. `unsigned long` is 64 bits wide and wraps.
 */
module SubidRanges {
  import opened Words
  import opened Wrappers

  /** The value `-1` takes when it is returned as an `id_t`. */
  const NO_ID: id_t := ID_SPACE - 1

  /** Reduction of one sum or difference to `unsigned long`, and the reading of
      an `unsigned long` as `intmax_t`. */
  function U64(x: int): (r: ulong)
    requires -ULONG_SPACE <= x < 2 * ULONG_SPACE
  {
    if x < 0 then x + ULONG_SPACE else if x < ULONG_SPACE then x else x - ULONG_SPACE
  }

  function Signed(x: ulong): int {
    if x < ULONG_SPACE / 2 then x else x - ULONG_SPACE
  }

  datatype Range = Range(owner: string, start: ulong, count: ulong) {
    predicate Has(x: int) {
      start <= x < start + count
    }

    /** The last ID as the code computes it, wrapping when the range is empty at 0. */
    function Last(): ulong {
      U64(start + count - 1)
    }
  }

  /** What the parser accepts of the two number fields. */
  predicate Parses(r: Range) {
    r.start < ID_SPACE && r.count <= ID_SPACE - r.start && r.count < ID_SPACE
  }

  predicate Bounded(r: Range) {
    r.start + r.count <= ID_SPACE
  }

  predicate AllBounded(rs: seq<Range>) {
    forall i :: 0 <= i < |rs| ==> Bounded(rs[i])
  }

  // ----- the sort order -----

  /** `strcmp(a, b) <= 0` on byte strings. */
  predicate StrLeq(a: string, b: string) {
    if a == "" then true
    else if b == "" then false
    else if a[0] != b[0] then a[0] < b[0]
    else StrLeq(a[1..], b[1..])
  }

  /** `subordinate_range_cmp(a, b) <= 0` on two parsed entries. */
  predicate RangeLeq(a: Range, b: Range) {
    if a.start != b.start then a.start < b.start
    else if a.count != b.count then a.count < b.count
    else StrLeq(a.owner, b.owner)
  }

  lemma {:induction false} StrTotal(a: string, b: string)
    ensures StrLeq(a, b) || StrLeq(b, a)
    ensures StrLeq(a, b) && StrLeq(b, a) ==> a == b
  {
    if a != "" && b != "" && a[0] == b[0] {
      StrTotal(a[1..], b[1..]);
      assert a == [a[0]] + a[1..] && b == [b[0]] + b[1..];
    }
  }

  lemma {:induction false} StrTransitive(a: string, b: string, c: string)
    requires StrLeq(a, b) && StrLeq(b, c)
    ensures StrLeq(a, c)
  {
    if a != "" && a[0] == b[0] == c[0] {
      StrTransitive(a[1..], b[1..], c[1..]);
    }
  }

  /** The comparison is a total order, and ties only identical entries. */
  lemma {:induction false} RangeOrder(a: Range, b: Range, c: Range)
    ensures RangeLeq(a, b) || RangeLeq(b, a)
    ensures RangeLeq(a, b) && RangeLeq(b, a) ==> a == b
    ensures RangeLeq(a, b) && RangeLeq(b, c) ==> RangeLeq(a, c)
  {
    StrTotal(a.owner, b.owner);
    if RangeLeq(a, b) && RangeLeq(b, c) && a.start == c.start && a.count == c.count {
      StrTransitive(a.owner, b.owner, c.owner);
    }
  }

  /** A prefix comes first; else the first characters that differ decide. */
  ghost predicate ComesBefore(a: string, b: string) {
    a <= b || exists k: nat :: k < |a| && k < |b| && a[..k] == b[..k] && a[k] < b[k]
  }

  lemma {:induction false} StrByFirstDifference(a: string, b: string)
    ensures StrLeq(a, b) <==> ComesBefore(a, b)
  {
    if a != "" && b != "" {
      StrByFirstDifference(a[1..], b[1..]);
      if a[0] == b[0] {
        if k: nat :| k < |a[1..]| && k < |b[1..]| && a[1..][..k] == b[1..][..k] && a[1..][k] < b[1..][k] {
          assert a[..k + 1] == [a[0]] + a[1..][..k] && b[..k + 1] == [b[0]] + b[1..][..k];
          assert a[k + 1] < b[k + 1];
        }
        if k: nat :| k < |a| && k < |b| && a[..k] == b[..k] && a[k] < b[k] {
          assert a[1..][..k - 1] == a[..k][1..] && b[1..][..k - 1] == b[..k][1..];
          assert a[1..][k - 1] < b[1..][k - 1];
        }
      } else {
        assert a[0] < b[0] ==> a[..0] == b[..0];
        assert forall k: nat :: 0 < k < |a| && k < |b| ==> a[..k][0] != b[..k][0];
      }
    }
  }

  /** Ranges come by their start, then by their count, then by their owner. */
  lemma {:induction false} RangesByStart(a: Range, b: Range)
    ensures a.start < b.start ==> RangeLeq(a, b) && !RangeLeq(b, a)
    ensures a.start == b.start && a.count < b.count ==> RangeLeq(a, b) && !RangeLeq(b, a)
    ensures a.start == b.start && a.count == b.count ==> (RangeLeq(a, b) <==> ComesBefore(a.owner, b.owner))
  {
    StrByFirstDifference(a.owner, b.owner);
  }

  // ----- the sweep of find_free_range -----

  /** The low end of the next hole after a non-empty range. */
  function Above(r: Range, low: int): int {
    var last := Signed(U64(Signed(r.start) - 1 + r.count));
    if low < last + 1 then last + 1 else low
  }

  /** The hole in front of `r`, cut off after `max`, holds `n` IDs from `low` on. */
  predicate RoomBefore(r: Range, low: int, max: int, n: int) {
    var first := Signed(r.start);
    var high := if first > max + 1 then max + 1 else first;
    high > low && high - low >= n
  }

  /** The loop of `find_free_range` over the ranges in list order. */
  function Sweep(rs: seq<Range>, low: int, max: int, n: int): Option<int> {
    if rs == [] then
      if max - low >= n - 1 then Some(low) else None
    else if rs[0].count == 0 then Sweep(rs[1..], low, max, n)
    else if RoomBefore(rs[0], low, max, n) then Some(low)
    else
      var low' := Above(rs[0], low);
      if low' > max then None else Sweep(rs[1..], low', max, n)
  }

  predicate Free(rs: seq<Range>, x: int) {
    forall i :: 0 <= i < |rs| ==> !rs[i].Has(x)
  }

  /** `n` IDs from `s` on lie in the window and in no range. */
  ghost predicate Fits(rs: seq<Range>, s: int, n: int, min: int, max: int) {
    && min <= s && s + n - 1 <= max
    && forall x :: s <= x < s + n ==> Free(rs, x)
  }

  ghost predicate StartsSorted(rs: seq<Range>) {
    forall i, j :: 0 <= i < j < |rs| ==> rs[i].start <= rs[j].start
  }

  /** An out-of-order range only reaches below an earlier one inside IDs already passed. */
  ghost predicate SweepSafe(rs: seq<Range>) {
    forall i, j, x :: 0 <= i < j < |rs| && rs[i].count > 0 && rs[j].Has(x) && x < rs[i].start ==> !Free(rs[..i], x)
  }

  /** In any list order the sweep never passes a start that fits. */
  lemma {:induction false} SweepComplete(rs: seq<Range>, low: int, max: int, n: int, s: int)
    requires AllBounded(rs) && n >= 1 && 0 <= low && Fits(rs, s, n, low, max)
    ensures Sweep(rs, low, max, n).Some? && low <= Sweep(rs, low, max, n).value <= s
  {
    if rs != [] {
      var r := rs[0];
      assert forall x :: s <= x < s + n ==> !r.Has(x) by {
        forall x | s <= x < s + n ensures !r.Has(x) { assert Free(rs, x); }
      }
      assert forall x :: Free(rs, x) ==> Free(rs[1..], x);
      assert Bounded(r);
      if r.count == 0 {
        SweepComplete(rs[1..], low, max, n, s);
      } else if !RoomBefore(r, low, max, n) {
        assert r.Has(r.start) && !r.Has(s);
        SweepComplete(rs[1..], Above(r, low), max, n, s);
      }
    }
  }

  /** The sweep from position `k`, every range before it lying below `low`;
      a request for fewer than one ID still ends on a free one. */
  lemma {:induction false} SweepSoundAt(rs: seq<Range>, k: nat, low: int, max: int, n: int)
    requires AllBounded(rs) && SweepSafe(rs) && k <= |rs| && 0 <= low <= max
    requires forall i, x :: 0 <= i < k && rs[i].Has(x) ==> x < low
    requires Sweep(rs[k..], low, max, n).Some?
    ensures Fits(rs, Sweep(rs[k..], low, max, n).value, if n > 1 then n else 1, low, max)
    decreases |rs| - k
  {
    if k < |rs| {
      var r := rs[k];
      assert Bounded(r) && rs[k..][0] == r && rs[k..][1..] == rs[k + 1..];
      if r.count == 0 {
        SweepSoundAt(rs, k + 1, low, max, n);
      } else if RoomBefore(r, low, max, n) {
        forall x | low <= x < low + if n > 1 then n else 1
          ensures Free(rs, x)
        {
          assert Free(rs[..k], x);
        }
      } else {
        SweepSoundAt(rs, k + 1, Above(r, low), max, n);
      }
    }
  }

  /** Whatever is asked of it, the sweep answers soundly exactly when no range
      reaches back below an earlier one into IDs not yet passed. */
  lemma {:induction false} SweepSoundExactly(rs: seq<Range>)
    requires AllBounded(rs)
    ensures SweepSafe(rs) <==> SweepSound(rs)
  {
    if SweepSafe(rs) {
      forall min, max, n | 0 <= min <= max && n >= 1 && Sweep(rs, min, max, n).Some?
        ensures Fits(rs, Sweep(rs, min, max, n).value, n, min, max)
      {
        assert rs[0..] == rs;
        SweepSoundAt(rs, 0, min, max, n);
      }
    } else {
      var i, j, x :| 0 <= i < j < |rs| && rs[i].count > 0 && rs[j].Has(x) && x < rs[i].start && Free(rs[..i], x);
      SweepReaches(rs, i, x);
      assert !Free(rs, x);
      assert !Fits(rs, x, 1, x, x);
    }
  }

  ghost predicate SweepSound(rs: seq<Range>) {
    forall min, max, n :: 0 <= min <= max && n >= 1 && Sweep(rs, min, max, n).Some? ==>
      Fits(rs, Sweep(rs, min, max, n).value, n, min, max)
  }

  lemma {:induction false} SweepReaches(rs: seq<Range>, i: nat, x: int)
    requires AllBounded(rs) && i < |rs| && rs[i].count > 0 && 0 <= x < rs[i].start && Free(rs[..i], x)
    ensures Sweep(rs, x, x, 1) == Some(x)
  {
    if i > 0 {
      assert Bounded(rs[0]) && rs[..i][0] == rs[0] && !rs[0].Has(x);
      assert rs[1..][..i - 1] == rs[..i][1..];
      SweepReaches(rs[1..], i - 1, x);
    } else {
      assert Bounded(rs[0]);
    }
  }

  lemma {:induction false} SortedIsSafe(rs: seq<Range>)
    requires StartsSorted(rs)
    ensures SweepSafe(rs)
  {
  }

  /** On sorted ranges the sweep finds the least start that fits, and fails
      exactly when there is none. */
  lemma {:induction false} SweepFindsLeast(rs: seq<Range>, min: int, max: int, n: int)
    requires AllBounded(rs) && SweepSafe(rs) && 0 <= min <= max && n >= 1
    ensures match Sweep(rs, min, max, n)
            case Some(t) => Fits(rs, t, n, min, max) && forall s :: Fits(rs, s, n, min, max) ==> t <= s
            case None => forall s :: !Fits(rs, s, n, min, max)
  {
    SweepSoundExactly(rs);
    forall s | Fits(rs, s, n, min, max)
      ensures Sweep(rs, min, max, n).Some? && Sweep(rs, min, max, n).value <= s
    {
      SweepComplete(rs, min, max, n, s);
    }
  }

  // ----- the whole of find_free_range on a sorted list -----

  /** `find_free_range` once the list is sorted: guard, sweep, and the failure value. */
  function FreeStart(rs: seq<Range>, min: id_t, max: id_t, count: ulong): Option<int> {
    var n := Signed(count);
    if n == 0 || max < min || n > max - min + 1 then None else Sweep(rs, min, max, n)
  }

  /** A reported start really has `count` free IDs in the window exactly when
      `count` survives the conversion to `intmax_t`. */
  lemma {:induction false} FreeStartSoundExactly(rs: seq<Range>, min: id_t, max: id_t, count: ulong)
    requires AllBounded(rs) && SweepSafe(rs) && FreeStart(rs, min, max, count).Some?
    ensures Fits(rs, FreeStart(rs, min, max, count).value, count, min, max) <==> count < ULONG_SPACE / 2
  {
    if count < ULONG_SPACE / 2 {
      SweepFindsLeast(rs, min, max, count);
    } else {
      SweepLow(rs, min, max, Signed(count));
    }
  }

  lemma {:induction false} SweepForOne(rs: seq<Range>, low: int, max: int, n: int)
    requires n <= 1 && low <= max
    ensures Sweep(rs, low, max, n) == Sweep(rs, low, max, 1)
  {
    if rs != [] {
      SweepForOne(rs[1..], low, max, n);
      if Above(rs[0], low) <= max {
        SweepForOne(rs[1..], Above(rs[0], low), max, n);
      }
    }
  }

  /** No IDs are refused; a count from 2^63 on turns negative and is served as if it were 1. */
  lemma {:induction false} FreeStartOutside(rs: seq<Range>, min: id_t, max: id_t, count: ulong)
    requires count == 0 || count >= ULONG_SPACE / 2
    ensures count == 0 ==> FreeStart(rs, min, max, count) == None
    ensures count != 0 ==> FreeStart(rs, min, max, count) == FreeStart(rs, min, max, 1)
  {
    if count != 0 && min <= max {
      SweepForOne(rs, min, max, Signed(count));
    }
  }

  /** So such a start is reported though the count does not fit. */
  lemma {:induction false} HugeCountIsServed()
    ensures FreeStart([], 0, NO_ID, ULONG_SPACE / 2) == Some(0) && !Fits([], 0, ULONG_SPACE / 2, 0, NO_ID)
  {
    FreeStartSoundExactly([], 0, NO_ID, ULONG_SPACE / 2);
  }

  /** Whatever the count, a reported start is itself free. */
  lemma {:induction false} FreeStartIsFree(rs: seq<Range>, min: id_t, max: id_t, count: ulong)
    requires AllBounded(rs) && SweepSafe(rs) && FreeStart(rs, min, max, count).Some?
    ensures Free(rs, FreeStart(rs, min, max, count).value)
  {
    assert rs[0..] == rs;
    SweepSoundAt(rs, 0, min, max, Signed(count));
  }

  lemma {:induction false} SweepLow(rs: seq<Range>, low: int, max: int, n: int)
    requires AllBounded(rs) && 0 <= low
    ensures Sweep(rs, low, max, n).Some? ==> low <= Sweep(rs, low, max, n).value
  {
    if rs != [] {
      SweepLow(rs[1..], low, max, n);
      SweepLow(rs[1..], Above(rs[0], low), max, n);
    }
  }

  /** For a count that fits `intmax_t`: the least start, or none exists. */
  lemma {:induction false} FreeStartLeast(rs: seq<Range>, min: id_t, max: id_t, count: ulong)
    requires AllBounded(rs) && SweepSafe(rs) && 0 < count < ULONG_SPACE / 2
    ensures match FreeStart(rs, min, max, count)
            case Some(t) => Fits(rs, t, count, min, max) && forall s :: Fits(rs, s, count, min, max) ==> t <= s
            case None => forall s :: !Fits(rs, s, count, min, max)
  {
    if min <= max {
      SweepFindsLeast(rs, min, max, count);
    }
  }

  /** The failure value is also a real answer exactly when ID 2^32-1 alone is left to give. */
  lemma {:induction false} NoIdAmbiguous(rs: seq<Range>, min: id_t, max: id_t, count: ulong)
    requires AllBounded(rs) && SweepSafe(rs) && 0 < count < ULONG_SPACE / 2
    ensures FreeStart(rs, min, max, count) == Some(NO_ID) <==>
              count == 1 && max == NO_ID && Free(rs, NO_ID) && forall x :: min <= x < NO_ID ==> !Free(rs, x)
  {
    FreeStartLeast(rs, min, max, count);
    if FreeStart(rs, min, max, count) == Some(NO_ID) {
      assert Free(rs, NO_ID);
      forall x | min <= x < NO_ID
        ensures !Free(rs, x)
      {
        assert !Fits(rs, x, 1, min, max);
      }
    } else if count == 1 && max == NO_ID && Free(rs, NO_ID) {
      assert Fits(rs, NO_ID, 1, min, max);
      var t := FreeStart(rs, min, max, count).value;
      assert Free(rs, t);
    }
  }

  // ----- how often an ID is handed out -----

  /** The number of ranges that hold `x`. */
  function Times(rs: seq<Range>, x: int): nat {
    if rs == [] then 0 else (if rs[0].Has(x) then 1 else 0) + Times(rs[1..], x)
  }

  lemma {:induction false} TimesConcat(rs: seq<Range>, ts: seq<Range>, x: int)
    ensures Times(rs + ts, x) == Times(rs, x) + Times(ts, x)
  {
    if rs == [] {
      assert rs + ts == ts;
    } else {
      TimesConcat(rs[1..], ts, x);
      assert (rs + ts)[1..] == rs[1..] + ts;
    }
  }

  lemma {:induction false} TimesOne(r: Range, x: int)
    ensures Times([r], x) == if r.Has(x) then 1 else 0
  {
  }

  lemma {:induction false} TimesTwo(r: Range, t: Range, x: int)
    ensures Times([r, t], x) == (if r.Has(x) then 1 else 0) + if t.Has(x) then 1 else 0
  {
    TimesOne(t, x);
    assert [r, t][1..] == [t];
  }

  lemma {:induction false} TimesFree(rs: seq<Range>, x: int)
    ensures Times(rs, x) == 0 <==> Free(rs, x)
  {
    if rs != [] {
      TimesFree(rs[1..], x);
      assert Free(rs, x) <==> !rs[0].Has(x) && Free(rs[1..], x) by {
        assert forall i :: 1 <= i < |rs| ==> rs[i] == rs[1..][i - 1];
      }
    }
  }

  lemma {:induction false} TimesSplit(rs: seq<Range>, k: nat, x: int)
    requires k < |rs|
    ensures Times(rs, x) == Times(rs[..k] + rs[k + 1..], x) + if rs[k].Has(x) then 1 else 0
  {
    assert rs == rs[..k] + ([rs[k]] + rs[k + 1..]);
    TimesConcat(rs[..k], [rs[k]] + rs[k + 1..], x);
    TimesConcat(rs[..k], rs[k + 1..], x);
  }

  lemma {:induction false} TimesPermuted(rs: seq<Range>, ts: seq<Range>, x: int)
    requires multiset(rs) == multiset(ts)
    ensures Times(rs, x) == Times(ts, x)
  {
    if rs == [] {
      assert |multiset(ts)| == 0;
    } else {
      assert rs[0] in multiset(ts);
      var k :| 0 <= k < |ts| && ts[k] == rs[0];
      TimesSplit(ts, k, x);
      assert multiset(rs[1..]) == multiset(rs) - multiset{rs[0]} by {
        assert rs == [rs[0]] + rs[1..];
      }
      assert multiset(ts[..k] + ts[k + 1..]) == multiset(ts) - multiset{ts[k]} by {
        assert ts == ts[..k] + [ts[k]] + ts[k + 1..];
      }
      TimesPermuted(rs[1..], ts[..k] + ts[k + 1..], x);
    }
  }

  // ----- removing a range from one entry -----

  datatype Cut = Keep | Drop | Shrink(left: Range) | Split(left: Range, tail: Range)

  /** What the loop body of `remove_range` does to an entry of the right owner. */
  function CutOf(r: Range, start: ulong, end: ulong): Cut {
    var first, last := r.start, r.Last();
    if end < first || start > last then Keep
    else if start <= first then
      if end >= last then Drop
      else
        var s := U64(end + 1);
        Shrink(Range(r.owner, s, U64(last - s + 1)))
    else
      var left := Range(r.owner, first, U64(start - first));
      if end >= last then Shrink(left)
      else
        var s := U64(end + 1);
        Split(left, Range(r.owner, s, U64(last - s + 1)))
  }

  function Pieces(r: Range, c: Cut): seq<Range> {
    match c
    case Keep => [r]
    case Drop => []
    case Shrink(left) => [left]
    case Split(left, tail) => [left, tail]
  }

  /** The entry on which the wrapped last ID turns "empty" into "everything". */
  predicate EmptyAtZero(r: Range) {
    r.start == 0 && r.count == 0
  }

  /** `p` is a part of `r`, empty only if `r` is. */
  predicate Within(p: Range, r: Range) {
    p.owner == r.owner && r.start <= p.start && p.start + p.count <= r.start + r.count && (r.count > 0 ==> p.count > 0)
  }

  lemma {:induction false} PiecesTimes(r: Range, c: Cut, x: int)
    ensures c.Keep? ==> Times(Pieces(r, c), x) == if r.Has(x) then 1 else 0
    ensures c.Drop? ==> Times(Pieces(r, c), x) == 0
    ensures c.Shrink? ==> Times(Pieces(r, c), x) == if c.left.Has(x) then 1 else 0
    ensures c.Split? ==> Times(Pieces(r, c), x) == (if c.left.Has(x) then 1 else 0) + if c.tail.Has(x) then 1 else 0
  {
    match c
    case Keep => TimesOne(r, x);
    case Drop =>
    case Shrink(left) => TimesOne(left, x);
    case Split(left, tail) => TimesTwo(left, tail, x);
  }

  /** The pieces together hold each ID outside the removed range exactly as
      often as the entry did, and none inside it; no piece is empty unless the
      entry was, and each keeps the owner. */
  lemma {:induction false} CutExact(r: Range, start: ulong, count: ulong, x: int)
    requires Bounded(r) && !EmptyAtZero(r) && 0 < count && start + count <= ULONG_SPACE
    ensures var ps := Pieces(r, CutOf(r, start, U64(start + count - 1)));
            && Times(ps, x) == (if r.Has(x) && !(start <= x < start + count) then 1 else 0)
            && (forall i :: 0 <= i < |ps| ==> Within(ps[i], r))
  {
    assert U64(start + count - 1) == start + count - 1;
    PiecesTimes(r, CutOf(r, start, U64(start + count - 1)), x);
  }

  /** The ID an empty entry at 0 gains instead: the topmost one, or ID 0 if the
      removed range ends there. */
  function Phantom(start: ulong, count: ulong): (x: int)
    ensures 0 < count && start + count <= ULONG_SPACE ==> !(start <= x < start + count)
  {
    if start + count < ULONG_SPACE then ULONG_SPACE - 1 else 0
  }

  lemma {:induction false} CutPhantom(r: Range, start: ulong, count: ulong)
    requires EmptyAtZero(r) && 0 < count && start + count <= ULONG_SPACE
    ensures Times(Pieces(r, CutOf(r, start, U64(start + count - 1))), Phantom(start, count)) == 1
  {
    PiecesTimes(r, CutOf(r, start, U64(start + count - 1)), Phantom(start, count));
  }

  /** A tail piece lies beyond the removed range, so the loop, which reaches it
      later, leaves it alone. */
  lemma {:induction false} TailIsKept(r: Range, start: ulong, end: ulong)
    requires CutOf(r, start, end).Split?
    ensures CutOf(CutOf(r, start, end).tail, start, end) == Keep
  {
  }

  /** When the removed range wraps past the last `unsigned long`, a non-empty
      entry keeps all its IDs. */
  lemma {:induction false} CutWrapped(r: Range, start: ulong, count: ulong, x: int)
    requires Bounded(r) && r.count > 0 && start + count > ULONG_SPACE
    ensures Times(Pieces(r, CutOf(r, start, U64(start + count - 1))), x) > 0 <==> r.Has(x)
  {
    assert U64(start + count - 1) == start + count - 1 - ULONG_SPACE;
    PiecesTimes(r, CutOf(r, start, U64(start + count - 1)), x);
  }
}
