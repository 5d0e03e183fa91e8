/**
 `commonio_sort` and `commonio_sort_wrt` of lib/commonio.c: the two operations
 that relink a whole list.
 */
module CommonIOSort {
  import opened Wrappers
  import opened CommonIO

  // ----- what a sort promises -----

  ghost predicate TotalPreorder<T(!new)>(leq: (T, T) -> bool) {
    && (forall x, y :: leq(x, y) || leq(y, x))
    && (forall x, y, z :: leq(x, y) && leq(y, z) ==> leq(x, z))
  }

  /** The order on entries: records by `leq`, unparsed lines last. */
  predicate RecLeq<T>(leq: (T, T) -> bool, a: Option<T>, b: Option<T>) {
    b.None? || (a.Some? && leq(a.value, b.value))
  }

  ghost predicate Sorted<T>(leq: (T, T) -> bool, s: seq<Item<T>>) {
    forall i, j :: 0 <= i < j < |s| ==> RecLeq(leq, s[i].rec, s[j].rec)
  }

  /** Where the NIS lines begin; the entries before them are the ones sorted. */
  function FirstNisLine<T>(s: seq<Item<T>>, from: nat): (k: nat)
    requires from <= |s|
    ensures from <= k <= |s|
    ensures k < |s| ==> LineIsNis(s[k])
    ensures forall j :: from <= j < k ==> !LineIsNis(s[j])
    decreases |s| - from
  {
    if from == |s| || LineIsNis(s[from]) then from else FirstNisLine(s, from + 1)
  }

  ghost predicate Permuted<X>(s: seq<X>, t: seq<X>) {
    multiset(s) == multiset(t)
  }

  ghost predicate SortedPermutation<T>(leq: (T, T) -> bool, s: seq<Item<T>>, t: seq<Item<T>>) {
    Permuted(s, t) && Sorted(leq, t)
  }

  function Swapped<X>(s: seq<X>, i: nat, j: nat): (t: seq<X>)
    requires i < j < |s|
  {
    seq(|s|, k requires 0 <= k < |s| => if k == i then s[j] else if k == j then s[i] else s[k])
  }

  lemma {:induction false} SwappedPermutes<X>(s: seq<X>, i: nat, j: nat)
    requires i < j < |s|
    ensures Permuted(s, Swapped(s, i, j))
  {
    assert s == s[..i] + [s[i]] + s[i + 1..j] + [s[j]] + s[j + 1..];
    assert Swapped(s, i, j) == s[..i] + [s[j]] + s[i + 1..j] + [s[i]] + s[j + 1..];
  }

  lemma {:induction false} DistinctCount<X>(s: seq<X>, x: X)
    requires forall i, j :: 0 <= i < j < |s| ==> s[i] != s[j]
    ensures multiset(s)[x] <= 1
  {
    if |s| > 0 {
      var init := s[..|s| - 1];
      assert s == init + [s[|s| - 1]];
      DistinctCount(init, x);
      if x == s[|s| - 1] {
        assert x !in init;
      }
    }
  }

  lemma {:induction false} DistinctFromMultiset<T>(s: seq<Entry<T>>, t: seq<Entry<T>>)
    requires Distinct(s) && Permuted(s, t)
    ensures Distinct(t)
  {
    forall i, j | 0 <= i < j < |t|
      ensures t[i] != t[j]
    {
      DistinctCount(s, t[i]);
      assert t == t[..i] + [t[i]] + t[i + 1..j] + [t[j]] + t[j + 1..];
    }
  }

  // ----- qsort over the entry pointers -----

  /** The contract of libc `qsort` on the entry pointers, met by an insertion sort. */
  method Qsort<T(!new)>(entries: seq<Entry<T>>, leq: (T, T) -> bool, ghost vals: seq<Item<T>>)
      returns (es: seq<Entry<T>>, ghost sorted: seq<Item<T>>)
    requires TotalPreorder(leq) && Filled(entries, vals)
    ensures Permuted(entries, es) && |es| == |entries|
    ensures Filled(es, sorted) && SortedPermutation(leq, vals, sorted)
  {
    es, sorted := entries, vals;
    var i := 0;
    while i < |es|
      invariant 0 <= i <= |es| == |entries|
      invariant Permuted(entries, es) && Permuted(vals, sorted)
      invariant Filled(es, sorted)
      invariant Sorted(leq, sorted[..i])
    {
      es, sorted := SiftDown(es, leq, i, sorted);
      i := i + 1;
    }
    assert sorted[..i] == sorted;
  }

  /** `s[..i + 1]` is sorted but for the element at `j`, which is below all after it. */
  ghost predicate Sifting<T>(leq: (T, T) -> bool, s: seq<Item<T>>, j: nat, i: nat) {
    && j <= i < |s|
    && (forall p, q :: 0 <= p < q <= i && p != j && q != j ==> RecLeq(leq, s[p].rec, s[q].rec))
    && (forall q :: j < q <= i ==> RecLeq(leq, s[j].rec, s[q].rec))
  }

  lemma {:induction false} SiftStep<T(!new)>(leq: (T, T) -> bool, s: seq<Item<T>>, j: nat, i: nat)
    requires TotalPreorder(leq) && Sifting(leq, s, j, i)
    requires j > 0 && !RecLeq(leq, s[j - 1].rec, s[j].rec)
    ensures Sifting(leq, Swapped(s, j - 1, j), j - 1, i)
  {
    assert RecLeq(leq, s[j].rec, s[j - 1].rec);
  }

  lemma {:induction false} SiftDone<T(!new)>(leq: (T, T) -> bool, s: seq<Item<T>>, j: nat, i: nat)
    requires TotalPreorder(leq) && Sifting(leq, s, j, i)
    requires j > 0 ==> RecLeq(leq, s[j - 1].rec, s[j].rec)
    ensures Sorted(leq, s[..i + 1])
  {
    forall p | 0 <= p < j
      ensures RecLeq(leq, s[p].rec, s[j].rec)
    {
      assert p < j - 1 ==> RecLeq(leq, s[p].rec, s[j - 1].rec);
    }
  }

  lemma {:induction false} FilledSwapped<T>(ns: seq<Entry<T>>, s: seq<Item<T>>, i: nat, j: nat)
    requires Filled(ns, s) && i < j < |s|
    ensures Filled(Swapped(ns, i, j), Swapped(s, i, j))
  {
  }

  method SiftDown<T(!new)>(entries: seq<Entry<T>>, leq: (T, T) -> bool, i: nat, ghost vals: seq<Item<T>>)
      returns (es: seq<Entry<T>>, ghost out: seq<Item<T>>)
    requires TotalPreorder(leq) && Filled(entries, vals)
    requires i < |entries| && Sorted(leq, vals[..i])
    ensures Permuted(entries, es) && Permuted(vals, out) && |es| == |entries|
    ensures Filled(es, out) && Sorted(leq, out[..i + 1])
  {
    es, out := entries, vals;
    var j := i;
    assert Sifting(leq, out, j, i) by {
      assert forall p :: 0 <= p < i ==> vals[..i][p] == vals[p];
    }
    while j > 0 && !RecLeq(leq, es[j - 1].rec, es[j].rec)
      invariant 0 <= j <= i < |es| == |entries|
      invariant Permuted(entries, es) && Permuted(vals, out)
      invariant Filled(es, out)
      invariant Sifting(leq, out, j, i)
    {
      assert es[j - 1].rec == out[j - 1].rec && es[j].rec == out[j].rec;
      SiftStep(leq, out, j, i);
      FilledSwapped(es, out, j - 1, j);
      SwappedPermutes(es, j - 1, j);
      SwappedPermutes(out, j - 1, j);
      es, out := Swapped(es, j - 1, j), Swapped(out, j - 1, j);
      j := j - 1;
    }
    if j > 0 {
      assert es[j - 1].rec == out[j - 1].rec && es[j].rec == out[j].rec;
    }
    SiftDone(leq, out, j, i);
  }

  // ----- commonio_sort -----

  /** What `commonio_sort` makes of the entry values: the part before the first
      NIS line sorted, the rest untouched. */
  ghost predicate SortsPrefix<T>(leq: (T, T) -> bool, s: seq<Item<T>>, t: seq<Item<T>>) {
    var n := FirstNisLine(s, 0);
    |t| == |s| && SortedPermutation(leq, s[..n], t[..n]) && t[n..] == s[n..]
  }

  predicate SignedLine<T>(x: Item<T>) {
    x.line.Some? && x.line.value != "" && (x.line.value[0] == '+' || x.line.value[0] == '-')
  }

  /** Before the first line that starts with a sign stand the same entries, the parsed
      ones first and in order; from that line on nothing has moved. */
  lemma {:induction false} SortsExactly<T>(leq: (T, T) -> bool, s: seq<Item<T>>, t: seq<Item<T>>)
    requires SortsPrefix(leq, s, t)
    ensures |t| == |s|
    ensures exists n: nat :: n <= |s| && (n < |s| ==> SignedLine(s[n]))
                          && (forall i :: 0 <= i < n ==> !SignedLine(s[i]))
                          && multiset(t[..n]) == multiset(s[..n]) && t[n..] == s[n..]
                          && forall i, j :: 0 <= i < j < n && t[j].rec.Some? ==>
                               t[i].rec.Some? && leq(t[i].rec.value, t[j].rec.value)
  {
    var n := FirstNisLine(s, 0);
    assert forall i :: 0 <= i < n ==> !LineIsNis(s[i]);
    assert n < |s| ==> LineIsNis(s[n]);
    forall i | 0 <= i < |s|
      ensures LineIsNis(s[i]) <==> SignedLine(s[i])
    {
    }
    forall i, j | 0 <= i < j < n && t[j].rec.Some?
      ensures t[i].rec.Some? && leq(t[i].rec.value, t[j].rec.value)
    {
      assert RecLeq(leq, t[..n][i].rec, t[..n][j].rec);
    }
  }

  /** Among the first `n` entries, `p` is strictly above each other one. */
  ghost predicate IsTop<T>(leq: (T, T) -> bool, s: seq<Item<T>>, n: nat, p: nat)
    requires p < n <= |s|
  {
    forall i :: 0 <= i < n && i != p ==> !RecLeq(leq, s[p].rec, s[i].rec)
  }

  /** Among the first `n` entries, some one is strictly above `p`. */
  ghost predicate IsUnder<T>(leq: (T, T) -> bool, s: seq<Item<T>>, n: nat, p: nat)
    requires p < n <= |s|
  {
    exists i :: 0 <= i < n && !RecLeq(leq, s[i].rec, s[p].rec)
  }

  /** The back links of the entries from position `n` on. */
  ghost predicate LinkedFrom<T>(ns: seq<Entry<T>>, n: nat)
    reads ns`prev
  {
    forall i {:trigger ns[i].prev} :: n <= i < |ns| ==> ns[i].prev == At(ns, i - 1)
  }

  /** Which entry the sort puts last. */
  lemma {:induction false} LastAfterSort<T(!new)>(leq: (T, T) -> bool, ns: seq<Entry<T>>, s: seq<Item<T>>,
      ms: seq<Entry<T>>, t: seq<Item<T>>, p: nat)
    requires TotalPreorder(leq) && Distinct(ns) && Permuted(ns, ms) && Filled(ns, s) && Filled(ms, t) && Sorted(leq, t)
    requires p < |ns| == |ms|
    ensures IsTop(leq, s, |s|, p) ==> ms[|ms| - 1] == ns[p]
    ensures IsUnder(leq, s, |s|, p) ==> ms[|ms| - 1] != ns[p]
  {
    var last := |ms| - 1;
    var k, q := Place(ns, ms, p), Place(ms, ns, last);
    assert s[p].rec == t[k].rec && s[q].rec == t[last].rec;
    assert k < last ==> RecLeq(leq, t[k].rec, t[last].rec);
    if i :| 0 <= i < |s| && !RecLeq(leq, s[i].rec, s[p].rec) {
      var j := Place(ns, ms, i);
      assert s[i].rec == t[j].rec;
    }
  }

  /** Where an entry of one order stands in the other. */
  ghost function Place<X>(ns: seq<X>, ms: seq<X>, i: nat): (j: nat)
    requires i < |ns| && Permuted(ns, ms)
    ensures j < |ms| && ms[j] == ns[i]
  {
    assert ns[i] in multiset(ms);
    var j :| 0 <= j < |ms| && ms[j] == ns[i];
    j
  }

  /**
   Sorts the entries before the first NIS line. The list is again a correct chain
   with a correct tail. The back links up to that line are right; the line itself
   keeps the one it had. On a doubly linked list that link is still right if the
   entry in front of it was strictly the greatest, and wrong if a greater one stood
   before; between equal entries `qsort` may choose.
   */
  method Sort<T(!new)>(db: Database<T>, leq: (T, T) -> bool)
    requires db.Forward() && db.TailSet() && db.Sound() && TotalPreorder(leq)
    modifies db`head, db`tail, db`nodes, db`items, db`changed, db.nodes`prev, db.nodes`next
    ensures db.Forward() && db.TailSet() && db.Sound()
    ensures SortsPrefix(leq, old(db.items), db.items)
    ensures forall i :: 0 <= i < |db.nodes| ==> db.nodes[i] in old(db.nodes)
    ensures var n := FirstNisLine(old(db.items), 0);
            if n <= 1 then unchanged(db)
            else && db.changed
                 && (db.BackLinked() <==>
                       || n == |db.nodes|
                       || (old(LinkedFrom(db.nodes, n + 1)) && old(db.nodes[n].prev) == db.nodes[n - 1]))
                 && (old(db.BackLinked()) && n < |db.nodes| && IsTop(leq, old(db.items), n, n - 1) ==> db.BackLinked())
                 && (old(db.BackLinked()) && n < |db.nodes| && IsUnder(leq, old(db.items), n, n - 1) ==>
                     !db.BackLinked())
  {
    var entries, nis := Prefix(db);
    if |entries| <= 1 {
      SortedTrivially(leq, db.items);
      return;
    }
    ghost var nodes, n := db.nodes, |entries|;
    assert db.BackLinked() && n < |nodes| ==> LinkedFrom(nodes, n + 1) && nodes[n].prev == nodes[n - 1];
    assert n == FirstNisLine(old(db.items), 0);
    SortEntries(db, leq, entries, nis);
  }

  /** Two entries in the wrong order before an NIS line: its back link goes stale. */
  lemma {:induction false} SortLeavesStaleLink()
    ensures var s := [Item(Some("2"), Some(2), false), Item(Some("1"), Some(1), false), Item(Some("+"), None, false)];
            FirstNisLine(s, 0) == 2 && IsUnder((x: nat, y: nat) => x <= y, s, 2, 1)
  {
    var s: seq<Item<nat>> := [Item(Some("2"), Some(2), false), Item(Some("1"), Some(1), false),
                              Item(Some("+"), None, false)];
    assert LineIsNis(s[2]) && !LineIsNis(s[1]) && !LineIsNis(s[0]);
    assert !RecLeq((x: nat, y: nat) => x <= y, s[0].rec, s[1].rec);
  }

  /** `Qsort` seen from the whole list of values. */
  method QsortPrefix<T(!new)>(entries: seq<Entry<T>>, leq: (T, T) -> bool, ghost items: seq<Item<T>>)
      returns (es: seq<Entry<T>>, ghost sorted: seq<Item<T>>)
    requires TotalPreorder(leq) && Distinct(entries)
    requires 1 < |entries| == FirstNisLine(items, 0) && Filled(entries, items[..|entries|])
    ensures Permuted(entries, es) && |es| == |entries| && Filled(es, sorted)
    ensures SortsPrefix(leq, items, sorted + items[|es|..])
    ensures IsTop(leq, items, |es|, |es| - 1) ==> es[|es| - 1] == entries[|es| - 1]
    ensures IsUnder(leq, items, |es|, |es| - 1) ==> es[|es| - 1] != entries[|es| - 1]
  {
    ghost var n := |entries|;
    es, sorted := Qsort(entries, leq, items[..n]);
    LastAfterSort(leq, entries, items[..n], es, sorted, n - 1);
    PrefixSorted(leq, items, sorted);
    assert IsUnder(leq, items, n, n - 1) ==> IsUnder(leq, items[..n], n, n - 1) by {
      assert forall i :: 0 <= i < n ==> items[..n][i] == items[i];
    }
  }

  /** The part of `Sort` after counting: sort the pointers and relink them. */
  method SortEntries<T(!new)>(db: Database<T>, leq: (T, T) -> bool, entries: seq<Entry<T>>, nis: Entry?<T>)
    requires db.Forward() && db.TailSet() && db.Sound() && TotalPreorder(leq)
    requires 1 < |entries| == FirstNisLine(db.items, 0)
    requires entries == db.nodes[..|entries|] && nis == At(db.nodes, |entries|)
    requires Filled(entries, db.items[..|entries|])
    modifies db`head, db`tail, db`nodes, db`items, db`changed, db.nodes`prev, db.nodes`next
    ensures db.Forward() && db.TailSet() && db.Sound() && db.changed
    ensures SortsPrefix(leq, old(db.items), db.items)
    ensures forall i :: 0 <= i < |db.nodes| ==> db.nodes[i] in old(db.nodes)
    ensures var n := |entries|;
            db.BackLinked() <==>
              n == |db.nodes| || (old(LinkedFrom(db.nodes, n + 1)) && old(db.nodes[n].prev) == db.nodes[n - 1])
    ensures IsTop(leq, old(db.items), |entries|, |entries| - 1) ==>
              db.nodes[|entries| - 1] == old(db.nodes)[|entries| - 1]
    ensures IsUnder(leq, old(db.items), |entries|, |entries| - 1) ==>
              db.nodes[|entries| - 1] != old(db.nodes)[|entries| - 1]
  {
    ghost var items, nodes, n := db.items, db.nodes, |entries|;
    var es: seq<Entry<T>>;
    ghost var sorted;
    es, sorted := QsortPrefix(entries, leq, items);
    PermutedKeepsApart(nodes, n, es);
    FilledReplaced(nodes, items, n, es, sorted);
    Relink(db, es, nis, n, sorted + items[n..]);
  }

  /** The entries in front of the first NIS line, and that line's entry. */
  method Prefix<T>(db: Database<T>) returns (entries: seq<Entry<T>>, nis: Entry?<T>)
    requires db.Forward() && db.Sound()
    ensures var n := FirstNisLine(db.items, 0);
            n == |entries| && entries == db.nodes[..n] && nis == At(db.nodes, n)
    ensures Filled(entries, db.items[..|entries|])
  {
    ghost var items, nodes := db.items, db.nodes;
    entries := [];
    var ptr := db.head;
    while ptr != null && !(ptr.line.Some? && NameIsNis(ptr.line.value))
      invariant |entries| <= |nodes| && ptr == At(nodes, |entries|)
      invariant entries == nodes[..|entries|]
      invariant FirstNisLine(items, 0) == FirstNisLine(items, |entries|)
      decreases |nodes| - |entries|
    {
      assert items[|entries|].line == ptr.line;
      entries := entries + [ptr];
      ptr := ptr.next;
    }
    nis := ptr;
    assert |entries| < |items| ==> items[|entries|].line == nis.line;
  }

  lemma {:induction false} PermutedKeepsApart<T>(ns: seq<Entry<T>>, n: nat, es: seq<Entry<T>>)
    requires Distinct(ns) && n <= |ns| && Permuted(ns[..n], es)
    ensures Distinct(es)
    ensures forall i, j :: 0 <= i < |es| && n <= j < |ns| ==> es[i] != ns[j]
    ensures forall i :: 0 <= i < |es| ==> es[i] in ns
    ensures forall i :: 0 <= i < |es + ns[n..]| ==> (es + ns[n..])[i] in ns
    ensures forall e :: e in ns ==> e in es + ns[n..]
  {
    DistinctFromMultiset(ns[..n], es);
    forall i | 0 <= i < n
      ensures ns[i] in es
    {
      assert ns[..n][i] in multiset(ns[..n]);
    }
    forall i | 0 <= i < |es|
      ensures es[i] in ns[..n]
    {
      assert es[i] in multiset(es);
    }
  }

  lemma {:induction false} PrefixSorted<T>(leq: (T, T) -> bool, s: seq<Item<T>>, sorted: seq<Item<T>>)
    requires var n := FirstNisLine(s, 0); |sorted| == n && SortedPermutation(leq, s[..n], sorted)
    ensures SortsPrefix(leq, s, sorted + s[|sorted|..])
  {
    var n := |sorted|;
    assert (sorted + s[n..])[..n] == sorted && (sorted + s[n..])[n..] == s[n..];
  }

  lemma {:induction false} SortedTrivially<T>(leq: (T, T) -> bool, s: seq<Item<T>>)
    requires FirstNisLine(s, 0) <= 1
    ensures SortsPrefix(leq, s, s)
  {
  }

  lemma {:induction false} FilledReplaced<T>(ns: seq<Entry<T>>, s: seq<Item<T>>, n: nat, es: seq<Entry<T>>,
                                             vals: seq<Item<T>>)
    requires Filled(ns, s) && n <= |ns| && Filled(es, vals)
    ensures Filled(es + ns[n..], vals + s[n..])
  {
  }

  method Relink<T>(db: Database<T>, entries: seq<Entry<T>>, nis: Entry?<T>, ghost n: nat, ghost vals: seq<Item<T>>)
    requires db.Forward() && db.TailSet() && db.Sound()
    requires 1 < n <= |db.nodes| && n == |entries| && nis == At(db.nodes, n)
    requires Distinct(entries) && forall i, j :: 0 <= i < n <= j < |db.nodes| ==> entries[i] != db.nodes[j]
    requires forall i :: 0 <= i < |entries| ==> entries[i] in db.nodes
    requires forall e :: e in db.nodes ==> e in entries + db.nodes[n..]
    requires Filled(entries + db.nodes[n..], vals)
    modifies db`head, db`tail, db`nodes, db`items, db`changed, db.nodes`prev, db.nodes`next
    ensures db.Forward() && db.TailSet() && db.Sound()
    ensures db.nodes == entries + old(db.nodes)[n..] && db.items == vals && db.changed
    ensures db.BackLinked() <==>
              n == |db.nodes| || (old(LinkedFrom(db.nodes, n + 1)) && old(db.nodes[n].prev) == entries[n - 1])
  {
    ghost var nodes, linked := db.nodes, LinkedFrom(db.nodes, n + 1);
    RelinkPointers(db, entries, nis);
    db.changed := true;
    db.nodes, db.items := entries + nodes[n..], vals;
    assert LinkedFrom(nodes, n + 1) == linked;
    ForwardParts(db, entries, nodes, n);
    BackLinkedParts(db, nodes, n);
  }

  lemma {:induction false} ForwardParts<T>(db: Database<T>, entries: seq<Entry<T>>, nodes: seq<Entry<T>>, n: nat)
    requires 0 < n == |entries| <= |nodes| && Distinct(nodes) && db.nodes == entries + nodes[n..]
    requires Distinct(entries) && forall i, j :: 0 <= i < n <= j < |nodes| ==> entries[i] != nodes[j]
    requires db.head == entries[0]
    requires forall k {:trigger entries[k].next} :: 0 <= k < n ==>
               entries[k].next == if k + 1 < n then entries[k + 1] else At(nodes, n)
    requires forall k {:trigger nodes[k].next} :: n <= k < |nodes| ==> nodes[k].next == At(nodes, k + 1)
    ensures db.Forward()
  {
    forall k {:trigger db.nodes[k].next} | 0 <= k < |db.nodes|
      ensures db.nodes[k].next == At(db.nodes, k + 1)
    {
      if k < n {
        assert entries[k].next == if k + 1 < n then entries[k + 1] else At(nodes, n);
      } else {
        assert nodes[k].next == At(nodes, k + 1);
      }
    }
  }

  lemma {:induction false} BackLinkedParts<T>(db: Database<T>, nodes: seq<Entry<T>>, n: nat)
    requires 0 < n <= |nodes| == |db.nodes| && db.nodes[n..] == nodes[n..]
    requires forall k {:trigger db.nodes[k].prev} :: 0 <= k < n ==> db.nodes[k].prev == At(db.nodes, k - 1)
    ensures db.BackLinked() <==> n == |nodes| || (LinkedFrom(nodes, n + 1) && nodes[n].prev == db.nodes[n - 1])
  {
    assert forall k :: n <= k < |nodes| ==> db.nodes[k] == db.nodes[n..][k - n] == nodes[k];
    if n < |nodes| && LinkedFrom(nodes, n + 1) && nodes[n].prev == db.nodes[n - 1] {
      forall k {:trigger db.nodes[k].prev} | n <= k < |nodes|
        ensures db.nodes[k].prev == At(db.nodes, k - 1)
      {
        assert nodes[k].prev == db.nodes[k].prev;
      }
    }
    if db.BackLinked() && n < |nodes| {
      forall k {:trigger nodes[k].prev} | n + 1 <= k < |nodes|
        ensures nodes[k].prev == At(nodes, k - 1)
      {
        assert nodes[k].prev == db.nodes[k].prev;
      }
    }
  }

  method RelinkPointers<T>(db: Database<T>, entries: seq<Entry<T>>, nis: Entry?<T>)
    requires Distinct(entries) && |entries| > 1
    modifies db`head, db`tail, entries`prev, entries`next
    ensures db.head == entries[0] && db.tail == (if nis == null then entries[|entries| - 1] else old(db.tail))
    ensures forall k {:trigger entries[k].next} :: 0 <= k < |entries| ==>
              entries[k].next == if k + 1 < |entries| then entries[k + 1] else nis
    ensures forall k {:trigger entries[k].prev} :: 0 <= k < |entries| ==> entries[k].prev == At(entries, k - 1)
  {
    db.head := entries[0];
    var last := |entries| - 1;
    if nis == null {
      db.tail := entries[last];
    }
    db.head.prev := null;
    db.head.next := entries[1];
    entries[last].prev := entries[last - 1];
    entries[last].next := nis;
    LinkInner(entries, last);
  }

  /** Links every entry strictly between the first and the last to its neighbours. */
  method LinkInner<T>(entries: seq<Entry<T>>, last: nat)
    requires Distinct(entries) && last == |entries| - 1 && last > 0
    modifies entries`prev, entries`next
    ensures forall k {:trigger entries[k].next} :: 1 <= k < last ==> entries[k].next == entries[k + 1]
    ensures forall k {:trigger entries[k].prev} :: 1 <= k < last ==> entries[k].prev == entries[k - 1]
    ensures entries[0].prev == old(entries[0].prev) && entries[0].next == old(entries[0].next)
    ensures entries[last].prev == old(entries[last].prev) && entries[last].next == old(entries[last].next)
  {
    var i := 1;
    while i < last
      invariant 1 <= i <= last
      invariant forall k {:trigger entries[k].next} :: 1 <= k < i ==> entries[k].next == entries[k + 1]
      invariant forall k {:trigger entries[k].prev} :: 1 <= k < i ==> entries[k].prev == entries[k - 1]
      invariant entries[0].prev == old(entries[0].prev) && entries[0].next == old(entries[0].next)
      invariant entries[last].prev == old(entries[last].prev) && entries[last].next == old(entries[last].next)
    {
      entries[i].prev := entries[i - 1];
      entries[i].next := entries[i + 1];
      i := i + 1;
    }
  }
}
