/**
 What the hooks of lib/groupio.c do to the group file, on values: closing splits
 every changed group that has too many members, opening merges the entries of a
 split group again. Splitting and merging undo each other.
 */
module GroupSplit {
  import opened Words
  import opened Wrappers
  import opened CommonIO

  /** The value of a `struct group`. */
  datatype GroupRec = GroupRec(name: string, passwd: string, gid: id_t, members: seq<string>)

  type GroupItem = Item<GroupRec>

  predicate NoDup<X(==)>(s: seq<X>) {
    forall i, j :: 0 <= i < j < |s| ==> s[i] != s[j]
  }

  // ----- splitting -----

  predicate MustSplit(it: GroupItem, max: nat) {
    it.changed && it.rec.Some? && |it.rec.value.members| > max
  }

  /** The entry that keeps the first members, and the new entry behind it. */
  function Kept(it: GroupItem, max: nat): GroupItem
    requires MustSplit(it, max)
  {
    it.(rec := Some(it.rec.value.(members := it.rec.value.members[..max])))
  }

  function Overflow(it: GroupItem, max: nat): GroupItem
    requires MustSplit(it, max)
  {
    Item(None, Some(it.rec.value.(members := it.rec.value.members[max..])), true)
  }

  function Size(it: GroupItem): nat {
    if it.rec.Some? then |it.rec.value.members| else 0
  }

  /** The entries one entry is split into. */
  function Pieces(it: GroupItem, max: nat): (r: seq<GroupItem>)
    requires max >= 1
    ensures |r| >= 1
    decreases Size(it)
  {
    if MustSplit(it, max) then [Kept(it, max)] + Pieces(Overflow(it, max), max) else [it]
  }

  function SplitAll(s: seq<GroupItem>, max: nat): seq<GroupItem>
    requires max >= 1
  {
    if s == [] then [] else Pieces(s[0], max) + SplitAll(s[1..], max)
  }

  function Concat(s: seq<GroupItem>): seq<string> {
    if s == [] then []
    else (if s[0].rec.Some? then s[0].rec.value.members else []) + Concat(s[1..])
  }

  /** The entry says the same about its group as `it`, members aside. */
  predicate SameGroup(it: GroupItem, p: GroupItem) {
    && p.changed == it.changed && it.rec.Some? && p.rec.Some?
    && p.rec.value.name == it.rec.value.name
    && p.rec.value.passwd == it.rec.value.passwd
    && p.rec.value.gid == it.rec.value.gid
  }

  /** Splitting M > max members gives ceil(M / max) entries of the same group, none
      empty and none too large, whose members in order are the original ones. */
  lemma {:induction false} PiecesPartition(it: GroupItem, max: nat)
    requires max >= 1 && MustSplit(it, max)
    ensures var r := Pieces(it, max);
            && Concat(r) == it.rec.value.members
            && (forall i :: 0 <= i < |r| ==> SameGroup(it, r[i]) && 1 <= Size(r[i]) <= max)
            && (forall i :: 0 <= i < |r| - 1 ==> Size(r[i]) == max)
            && r[0].line == it.line && (forall i :: 1 <= i < |r| ==> r[i].line == None)
            && max * (|r| - 1) < Size(it) <= max * |r|
    decreases Size(it)
  {
    var o := Overflow(it, max);
    var r := Pieces(it, max);
    var rest := Pieces(o, max);
    assert r == [Kept(it, max)] + rest && r[1..] == rest;
    var ms := it.rec.value.members;
    assert ms[..max] + ms[max..] == ms;
    assert max * |r| == max * |rest| + max;
    if MustSplit(o, max) {
      PiecesPartition(o, max);
      assert max * (|r| - 1) == max * (|rest| - 1) + max;
    } else {
      assert rest == [o];
      assert Concat([o]) == ms[max..] + Concat([]) == ms[max..];
    }
    forall i | 0 <= i < |r|
      ensures SameGroup(it, r[i]) && 1 <= Size(r[i]) <= max
      ensures i < |r| - 1 ==> Size(r[i]) == max
      ensures i >= 1 ==> r[i].line == None
    {
      if i > 0 {
        assert r[i] == rest[i - 1];
      }
    }
  }

  // ----- merging -----

  predicate SameKey(a: GroupItem, b: GroupItem) {
    && a.rec.Some? && b.rec.Some?
    && a.rec.value.name == b.rec.value.name
    && a.rec.value.passwd == b.rec.value.passwd
    && a.rec.value.gid == b.rec.value.gid
  }

  /** `a` followed by the elements of `b` it does not hold yet. */
  function Union(a: seq<string>, b: seq<string>): seq<string>
    decreases |b|
  {
    if b == [] then a else Union(if b[0] in a then a else a + [b[0]], b[1..])
  }

  function LineOf(it: GroupItem): string {
    if it.line.Some? then it.line.value else ""
  }

  function Merged(a: GroupItem, b: GroupItem): (r: GroupItem)
    requires SameKey(a, b)
    ensures SameKey(a, r)
  {
    Item(Some(LineOf(a) + "\n" + LineOf(b)),
         Some(a.rec.value.(members := Union(a.rec.value.members, b.rec.value.members))), a.changed)
  }

  /** The inner loop of `group_open_hook`: entry `k` absorbs later ones of its key. */
  function Absorb(s: seq<GroupItem>, k: nat, n: nat): (r: seq<GroupItem>)
    requires k < n
    ensures n > |s| || (n <= |r| <= |s| && r[..k] == s[..k])
    decreases |s| - n
  {
    if n >= |s| then s
    else if SameKey(s[k], s[n]) then Absorb(Without(s[k := Merged(s[k], s[n])], n), k, n)
    else Absorb(s, k, n + 1)
  }

  /** The outer loop of `group_open_hook`. */
  function MergeFrom(s: seq<GroupItem>, k: nat): seq<GroupItem>
    decreases |s| - k
  {
    if k >= |s| then s else MergeFrom(Absorb(s, k, k + 1), k + 1)
  }

  function MergeAll(s: seq<GroupItem>): seq<GroupItem> {
    MergeFrom(s, 0)
  }

  // ----- what merging keeps and what it leaves -----

  /** The list after entry `k` has absorbed entry `n`. */
  function Joined(s: seq<GroupItem>, k: nat, n: nat): seq<GroupItem>
    requires k < n < |s| && SameKey(s[k], s[n])
  {
    Without(s[k := Merged(s[k], s[n])], n)
  }

  predicate NoneOf(a: GroupItem, s: seq<GroupItem>, from: nat) {
    forall i :: from <= i < |s| ==> !SameKey(a, s[i])
  }

  predicate UniqueKeys(s: seq<GroupItem>) {
    forall i :: 0 <= i < |s| ==> NoneOf(s[i], s, i + 1)
  }

  /** Some entry of the group that `a` belongs to lists `m`. */
  ghost predicate Lists(s: seq<GroupItem>, a: GroupItem, m: string) {
    exists i :: 0 <= i < |s| && SameKey(a, s[i]) && m in s[i].rec.value.members
  }

  lemma {:induction false} UnionHolds(a: seq<string>, b: seq<string>, m: string)
    ensures m in Union(a, b) <==> m in a || m in b
    decreases |b|
  {
    if b != [] {
      UnionHolds(if b[0] in a then a else a + [b[0]], b[1..], m);
      assert m in b <==> m == b[0] || m in b[1..];
    }
  }

  lemma {:induction false} UnionOfDistinct(a: seq<string>, b: seq<string>)
    requires NoDup(a + b)
    ensures Union(a, b) == a + b
    decreases |b|
  {
    if b == [] {
      assert a + b == a;
    } else {
      assert (a + b)[|a|] == b[0];
      assert b[0] !in a by {
        assert forall i :: 0 <= i < |a| ==> (a + b)[i] == a[i];
      }
      assert (a + [b[0]]) + b[1..] == a + b;
      UnionOfDistinct(a + [b[0]], b[1..]);
    }
  }

  lemma {:induction false} UnionKeepsNoDup(a: seq<string>, b: seq<string>)
    requires NoDup(a)
    ensures NoDup(Union(a, b)) && |a| <= |Union(a, b)| && Union(a, b)[..|a|] == a
    decreases |b|
  {
    if b != [] {
      UnionKeepsNoDup(if b[0] in a then a else a + [b[0]], b[1..]);
    }
  }

  lemma {:induction false} JoinedLists(s: seq<GroupItem>, k: nat, n: nat, a: GroupItem, m: string)
    requires k < n < |s| && SameKey(s[k], s[n])
    ensures Lists(Joined(s, k, n), a, m) <==> Lists(s, a, m)
  {
    var t := Joined(s, k, n);
    UnionHolds(s[k].rec.value.members, s[n].rec.value.members, m);
    assert t[k] == Merged(s[k], s[n]);
    if Lists(s, a, m) {
      var i :| 0 <= i < |s| && SameKey(a, s[i]) && m in s[i].rec.value.members;
      var j := if i == n then k else if i < n then i else i - 1;
      assert SameKey(a, t[j]) && m in t[j].rec.value.members;
    }
    if Lists(t, a, m) {
      var j :| 0 <= j < |t| && SameKey(a, t[j]) && m in t[j].rec.value.members;
      var i := if j == k then (if m in s[k].rec.value.members then k else n) else if j < n then j else j + 1;
      assert SameKey(a, s[i]) && m in s[i].rec.value.members;
    }
  }

  lemma {:induction false} AbsorbLists(s: seq<GroupItem>, k: nat, n: nat, a: GroupItem, m: string)
    requires k < n
    ensures Lists(Absorb(s, k, n), a, m) <==> Lists(s, a, m)
    decreases |s| - n
  {
    if n < |s| {
      if SameKey(s[k], s[n]) {
        JoinedLists(s, k, n, a, m);
        AbsorbLists(Joined(s, k, n), k, n, a, m);
      } else {
        AbsorbLists(s, k, n + 1, a, m);
      }
    }
  }

  /** No entry before `k` shares its group with a later one. */
  predicate Clean(s: seq<GroupItem>, k: nat) {
    forall i :: 0 <= i < k && i < |s| ==> NoneOf(s[i], s, i + 1)
  }

  lemma {:induction false} AbsorbCleans(s: seq<GroupItem>, k: nat, n: nat)
    requires k < n && k < |s| && Clean(s, k)
    requires forall j :: k < j < n && j < |s| ==> !SameKey(s[k], s[j])
    ensures Clean(Absorb(s, k, n), k + 1)
    decreases |s| - n
  {
    if n < |s| {
      if SameKey(s[k], s[n]) {
        var t := Joined(s, k, n);
        assert t[k] == Merged(s[k], s[n]);
        forall i, j | 0 <= i < k && i < j < |t|
          ensures !SameKey(t[i], t[j])
        {
          assert t[i] == s[i] && NoneOf(s[i], s, i + 1);
          assert !SameKey(s[i], s[k]) && !SameKey(s[i], s[if j < n then j else j + 1]);
        }
        AbsorbCleans(t, k, n);
      } else {
        AbsorbCleans(s, k, n + 1);
      }
    }
  }

  lemma {:induction false} MergeFromCleans(s: seq<GroupItem>, k: nat)
    requires Clean(s, k)
    ensures UniqueKeys(MergeFrom(s, k))
    decreases |s| - k
  {
    if k < |s| {
      AbsorbCleans(s, k, k + 1);
      MergeFromCleans(Absorb(s, k, k + 1), k + 1);
    }
  }

  lemma {:induction false} MergeFromLists(s: seq<GroupItem>, k: nat, a: GroupItem, m: string)
    ensures Lists(MergeFrom(s, k), a, m) <==> Lists(s, a, m)
    decreases |s| - k
  {
    if k < |s| {
      AbsorbLists(s, k, k + 1, a, m);
      MergeFromLists(Absorb(s, k, k + 1), k + 1, a, m);
    }
  }

  /** Opening leaves one entry for each group and loses or invents no member. */
  lemma {:induction false} MergeAllExact(s: seq<GroupItem>, a: GroupItem, m: string)
    ensures UniqueKeys(MergeAll(s))
    ensures Lists(MergeAll(s), a, m) <==> Lists(s, a, m)
  {
    MergeFromCleans(s, 0);
    MergeFromLists(s, 0, a, m);
  }

  lemma {:induction false} AbsorbNothing(s: seq<GroupItem>, k: nat, n: nat)
    requires k < n && (k < |s| ==> NoneOf(s[k], s, n))
    ensures Absorb(s, k, n) == s
    decreases |s| - n
  {
    if n < |s| {
      AbsorbNothing(s, k, n + 1);
    }
  }

  lemma {:induction false} MergeFromNothing(s: seq<GroupItem>, k: nat)
    requires UniqueKeys(s)
    ensures MergeFrom(s, k) == s
    decreases |s| - k
  {
    if k < |s| {
      AbsorbNothing(s, k, k + 1);
      MergeFromNothing(s, k + 1);
    }
  }

  /** Merging a second time changes nothing. */
  lemma {:induction false} MergeAllOnce(s: seq<GroupItem>)
    ensures MergeAll(MergeAll(s)) == MergeAll(s)
  {
    MergeFromCleans(s, 0);
    MergeFromNothing(MergeAll(s), 0);
  }

  // ----- merging blocks -----

  /** Consecutive entries of the group that the first one belongs to. */
  predicate IsBlock(b: seq<GroupItem>) {
    b != [] && forall i :: 1 <= i < |b| ==> SameKey(b[0], b[i])
  }

  /** `a` after absorbing the entries of `b` from the left. */
  function Folded(a: GroupItem, b: seq<GroupItem>): (r: GroupItem)
    requires forall i :: 0 <= i < |b| ==> SameKey(a, b[i])
    ensures r.changed == a.changed && (b == [] ==> r == a)
    ensures if a.rec.Some? then SameKey(a, r) else r == a
    decreases |b|
  {
    if b == [] then a
    else
      assert SameKey(a, b[0]);
      assert forall i :: 0 <= i < |b[1..]| ==> b[1..][i] == b[i + 1] && SameKey(a, b[i + 1]);
      Folded(Merged(a, b[0]), b[1..])
  }

  /** The one entry a block is merged into. */
  function Fold(b: seq<GroupItem>): GroupItem
    requires IsBlock(b)
  {
    Folded(b[0], b[1..])
  }

  lemma {:induction false} FoldSnoc(b: seq<GroupItem>, it: GroupItem)
    requires IsBlock(b) && SameKey(b[0], it)
    ensures IsBlock(b + [it]) && SameKey(Fold(b), it) && Fold(b + [it]) == Merged(Fold(b), it)
  {
    assert (b + [it])[0] == b[0] && (b + [it])[1..] == b[1..] + [it];
    FoldedSnoc(b[0], b[1..], it);
  }

  lemma {:induction false} FoldedSnoc(a: GroupItem, b: seq<GroupItem>, it: GroupItem)
    requires SameKey(a, it) && forall i :: 0 <= i < |b| ==> SameKey(a, b[i])
    ensures Folded(a, b + [it]) == Merged(Folded(a, b), it)
    decreases |b|
  {
    if b == [] {
      assert b + [it] == [it] && [it][1..] == [];
    } else {
      assert (b + [it])[0] == b[0] && (b + [it])[1..] == b[1..] + [it];
      FoldedSnoc(Merged(a, b[0]), b[1..], it);
    }
  }

  function Flat<X>(bs: seq<seq<X>>): seq<X> {
    if bs == [] then [] else bs[0] + Flat(bs[1..])
  }

  /** No two blocks are of the same group. */
  predicate Apart(bs: seq<seq<GroupItem>>) {
    && (forall i :: 0 <= i < |bs| ==> IsBlock(bs[i]))
    && (forall i, j :: 0 <= i < j < |bs| ==> !SameKey(bs[i][0], bs[j][0]))
  }

  function Folds(bs: seq<seq<GroupItem>>): (r: seq<GroupItem>)
    requires forall i :: 0 <= i < |bs| ==> IsBlock(bs[i])
    ensures |r| == |bs| && forall i :: 0 <= i < |bs| ==> r[i] == Fold(bs[i])
  {
    seq(|bs|, i requires 0 <= i < |bs| => Fold(bs[i]))
  }

  lemma {:induction false} NoneInFlat(a: GroupItem, bs: seq<seq<GroupItem>>)
    requires forall i :: 0 <= i < |bs| ==> IsBlock(bs[i]) && !SameKey(a, bs[i][0])
    ensures NoneOf(a, Flat(bs), 0)
  {
    if bs != [] {
      NoneInFlat(a, bs[1..]);
    }
  }

  /** The inner loop merges the block at `k` into one entry. */
  lemma {:induction false} AbsorbBlock(before: seq<GroupItem>, a: GroupItem, b: seq<GroupItem>, rest: seq<GroupItem>)
    requires (forall i :: 0 <= i < |b| ==> SameKey(a, b[i])) && NoneOf(a, rest, 0)
    ensures Absorb(before + [a] + b + rest, |before|, |before| + 1) == before + [Folded(a, b)] + rest
    decreases |b|
  {
    var k, t := |before|, before + [a] + b + rest;
    if b == [] {
      assert t == before + [a] + rest;
      AbsorbNothing(t, k, k + 1);
    } else {
      var m := Merged(a, b[0]);
      assert t[k] == a && t[k + 1] == b[0];
      assert Without(t[k := m], k + 1) == before + [m] + b[1..] + rest;
      AbsorbBlock(before, m, b[1..], rest);
    }
  }

  lemma {:induction false} HeadOut<X>(before: seq<X>, b: seq<X>, rest: seq<X>)
    requires b != []
    ensures before + (b + rest) == before + [b[0]] + b[1..] + rest
  {
  }

  lemma {:induction false} FirstBlock(before: seq<GroupItem>, b: seq<GroupItem>, rest: seq<GroupItem>)
    requires IsBlock(b) && NoneOf(b[0], rest, 0)
    ensures var s := before + (b + rest);
            |before| < |s| && Absorb(s, |before|, |before| + 1) == before + [Fold(b)] + rest
  {
    HeadOut(before, b, rest);
    AbsorbBlock(before, b[0], b[1..], rest);
  }

  /** Entries that come in blocks are merged into one entry for each block. */
  lemma {:induction false} MergeBlocks(before: seq<GroupItem>, bs: seq<seq<GroupItem>>)
    requires Apart(bs)
    ensures MergeFrom(before + Flat(bs), |before|) == before + Folds(bs)
    decreases |bs|
  {
    if bs == [] {
      assert before + Flat(bs) == before == before + Folds(bs);
    } else {
      var next, rest := before + [Fold(bs[0])], bs[1..];
      NoneInFlat(bs[0][0], rest);
      FirstBlock(before, bs[0], Flat(rest));
      MergeBlocks(next, rest);
      FoldsHead(bs);
      Associated(before, [Fold(bs[0])], Folds(rest));
    }
  }

  lemma {:induction false} Associated<X>(a: seq<X>, b: seq<X>, c: seq<X>)
    ensures (a + b) + c == a + (b + c)
  {
  }

  lemma {:induction false} FoldsHead(bs: seq<seq<GroupItem>>)
    requires bs != [] && forall i :: 0 <= i < |bs| ==> IsBlock(bs[i])
    ensures Folds(bs) == [Fold(bs[0])] + Folds(bs[1..])
  {
  }

  // ----- both hooks, told from the entries alone -----

  /** What the close hook makes of one entry: itself, or pieces of its list. */
  ghost predicate IsSplit(it: GroupItem, b: seq<GroupItem>, max: nat) {
    if it.changed && it.rec.Some? && |it.rec.value.members| > max then
      && b != [] && b[0].line == it.line && Concat(b) == it.rec.value.members
      && (forall i :: 1 <= i < |b| ==> b[i].line == None)
      && (forall i :: 0 <= i < |b| ==>
            && b[i].changed && b[i].rec.Some? && 1 <= |b[i].rec.value.members| <= max
            && b[i].rec.value.name == it.rec.value.name && b[i].rec.value.passwd == it.rec.value.passwd
            && b[i].rec.value.gid == it.rec.value.gid)
    else b == [it]
  }

  /** Exactly the changed entries with more members than the limit are split. */
  lemma {:induction false} SplitExactly(s: seq<GroupItem>, max: nat) returns (bs: seq<seq<GroupItem>>)
    requires max >= 1
    ensures |bs| == |s| && SplitAll(s, max) == Flat(bs)
    ensures forall j :: 0 <= j < |s| ==> IsSplit(s[j], bs[j], max)
  {
    if s == [] {
      bs := [];
    } else {
      var rest := SplitExactly(s[1..], max);
      bs := [Pieces(s[0], max)] + rest;
      if s[0].changed && s[0].rec.Some? && |s[0].rec.value.members| > max {
        PiecesPartition(s[0], max);
      }
      assert bs[1..] == rest;
      assert forall j :: 1 <= j < |s| ==> s[j] == s[1..][j - 1] && bs[j] == rest[j - 1];
    }
  }

  /** The entries are of one group: the same name, password and GID. */
  predicate OneGroup(a: GroupItem, b: GroupItem) {
    && a.rec.Some? && b.rec.Some?
    && a.rec.value.name == b.rec.value.name
    && a.rec.value.passwd == b.rec.value.passwd
    && a.rec.value.gid == b.rec.value.gid
  }

  /** No other entry is of the same group. */
  predicate Alone(s: seq<GroupItem>, i: nat) {
    i < |s| && forall j :: 0 <= j < |s| && j != i ==> !SameKey(s[i], s[j])
  }

  lemma {:induction false} JoinedKeepsAlone(s: seq<GroupItem>, k: nat, n: nat, i: nat)
    requires k < n < |s| && SameKey(s[k], s[n]) && Alone(s, i)
    ensures Alone(Joined(s, k, n), if i < n then i else i - 1) && Joined(s, k, n)[if i < n then i else i - 1] == s[i]
  {
    assert i != k && i != n;
    var t, p := Joined(s, k, n), if i < n then i else i - 1;
    forall j | 0 <= j < |t| && j != p
      ensures !SameKey(t[p], t[j])
    {
      var q := if j < n then j else j + 1;
      assert !SameKey(s[i], s[q]);
    }
  }

  lemma {:induction false} AbsorbKeepsAlone(s: seq<GroupItem>, k: nat, n: nat, i: nat) returns (p: nat)
    requires k < n && Alone(s, i)
    ensures Alone(Absorb(s, k, n), p) && Absorb(s, k, n)[p] == s[i]
    decreases |s| - n
  {
    if n >= |s| {
      p := i;
    } else if SameKey(s[k], s[n]) {
      JoinedKeepsAlone(s, k, n, i);
      p := AbsorbKeepsAlone(Joined(s, k, n), k, n, if i < n then i else i - 1);
    } else {
      p := AbsorbKeepsAlone(s, k, n + 1, i);
    }
  }

  lemma {:induction false} MergeKeepsAlone(s: seq<GroupItem>, k: nat, i: nat)
    requires Alone(s, i)
    ensures s[i] in MergeFrom(s, k)
    decreases |s| - k
  {
    if k < |s| {
      var p := AbsorbKeepsAlone(s, k, k + 1, i);
      MergeKeepsAlone(Absorb(s, k, k + 1), k + 1, p);
    }
  }

  /** Some entry of that name, password and GID lists `m`. */
  ghost predicate GroupLists(s: seq<GroupItem>, name: string, passwd: string, gid: int, m: string) {
    exists i :: 0 <= i < |s| && s[i].rec.Some? && s[i].rec.value.name == name && s[i].rec.value.passwd == passwd
                && s[i].rec.value.gid == gid && m in s[i].rec.value.members
  }

  /** Opening leaves no two entries of one name, password and GID, gives each such group
      exactly the members its entries listed, and leaves every other entry as it is:
      those without a record, and those alone of their name, password and GID. */
  lemma {:induction false} MergeExactly(s: seq<GroupItem>)
    ensures var t := MergeAll(s); forall i, j :: 0 <= i < j < |t| ==> !OneGroup(t[i], t[j])
    ensures forall name: string, passwd: string, gid: id_t, m: string ::
              GroupLists(MergeAll(s), name, passwd, gid, m) <==> GroupLists(s, name, passwd, gid, m)
    ensures forall i :: 0 <= i < |s| && (forall j :: 0 <= j < |s| && j != i ==> !OneGroup(s[i], s[j])) ==>
              s[i] in MergeAll(s)
  {
    var t := MergeAll(s);
    MergeFromCleans(s, 0);
    forall i, j | 0 <= i < j < |t|
      ensures !OneGroup(t[i], t[j])
    {
      assert NoneOf(t[i], t, i + 1);
      assert !SameKey(t[i], t[j]);
    }
    forall name: string, passwd: string, gid: id_t, m: string
      ensures GroupLists(t, name, passwd, gid, m) <==> GroupLists(s, name, passwd, gid, m)
    {
      var a := Item(None, Some(GroupRec(name, passwd, gid, [])), false);
      MergeFromLists(s, 0, a, m);
      KeyedLists(s, a, m);
      KeyedLists(t, a, m);
    }
    forall i | 0 <= i < |s| && (forall j :: 0 <= j < |s| && j != i ==> !OneGroup(s[i], s[j]))
      ensures s[i] in t
    {
      forall j | 0 <= j < |s| && j != i
        ensures !SameKey(s[i], s[j])
      {
        assert !OneGroup(s[i], s[j]);
      }
      MergeKeepsAlone(s, 0, i);
    }
  }

  lemma {:induction false} KeyedLists(s: seq<GroupItem>, a: GroupItem, m: string)
    requires a.rec.Some?
    ensures Lists(s, a, m) <==> GroupLists(s, a.rec.value.name, a.rec.value.passwd, a.rec.value.gid, m)
  {
    forall i | 0 <= i < |s|
      ensures SameKey(a, s[i]) <==> OneGroup(s[i], a)
    {
    }
  }

  // ----- the text of a list nobody changed -----

  /** The file that verbatim lines make up. */
  function FileText(s: seq<GroupItem>): string {
    if s == [] then "" else LineOf(s[0]) + "\n" + FileText(s[1..])
  }

  /** The merged entry is written as the lines of its block. */
  lemma {:induction false} FoldedText(a: GroupItem, b: seq<GroupItem>, rest: seq<GroupItem>)
    requires forall i :: 0 <= i < |b| ==> SameKey(a, b[i])
    ensures FileText([a] + b + rest) == LineOf(Folded(a, b)) + "\n" + FileText(rest)
    decreases |b|
  {
    var t := [a] + b + rest;
    if b == [] {
      assert t[1..] == rest;
    } else {
      var m := Merged(a, b[0]);
      assert t[1..] == [b[0]] + b[1..] + rest && t[1..][1..] == b[1..] + rest;
      assert ([m] + b[1..] + rest)[1..] == b[1..] + rest;
      var l, k, tail := LineOf(a), LineOf(b[0]), FileText(b[1..] + rest);
      assert (l + "\n" + k) + "\n" + tail == l + "\n" + (k + "\n" + tail);
      FoldedText(m, b[1..], rest);
    }
  }

  lemma {:induction false} FoldsText(bs: seq<seq<GroupItem>>)
    requires forall i :: 0 <= i < |bs| ==> IsBlock(bs[i])
    ensures FileText(Folds(bs)) == FileText(Flat(bs))
  {
    if bs != [] {
      assert bs[0] == [bs[0][0]] + bs[0][1..];
      assert Folds(bs)[1..] == Folds(bs[1..]);
      FoldsText(bs[1..]);
      FoldedText(bs[0][0], bs[0][1..], Flat(bs[1..]));
    }
  }
}
