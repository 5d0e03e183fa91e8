/**
 What a caller of lib/commonio.c sees of a list: which record a name finds and how
 often a name occurs. Updates and removals change that for their own name alone.
 */
module CommonIOLookup {
  import opened Wrappers
  import opened CommonIO

  /** The record `commonio_locate` delivers. */
  function Find<T>(s: seq<Item<T>>, name: string, getName: T -> string): Option<T> {
    if s == [] then None
    else if Named(s[0], name, getName) then s[0].rec
    else Find(s[1..], name, getName)
  }

  function Times<T>(s: seq<Item<T>>, name: string, getName: T -> string): nat {
    if s == [] then 0 else (if Named(s[0], name, getName) then 1 else 0) + Times(s[1..], name, getName)
  }

  ghost predicate Unique<T>(s: seq<Item<T>>, getName: T -> string) {
    forall name :: Times(s, name, getName) <= 1
  }

  lemma {:induction false} FindConcat<T>(s: seq<Item<T>>, t: seq<Item<T>>, name: string, getName: T -> string)
    ensures Find(s + t, name, getName)
              == (if Find(s, name, getName).Some? then Find(s, name, getName) else Find(t, name, getName))
    ensures Times(s + t, name, getName) == Times(s, name, getName) + Times(t, name, getName)
  {
    if s == [] {
      assert s + t == t;
    } else {
      assert (s + t)[0] == s[0] && (s + t)[1..] == s[1..] + t;
      FindConcat(s[1..], t, name, getName);
    }
  }

  /** Found exactly when it occurs, and then under its name. */
  lemma {:induction false} FindTimes<T>(s: seq<Item<T>>, name: string, getName: T -> string)
    ensures Find(s, name, getName).Some? <==> Times(s, name, getName) > 0
    ensures Find(s, name, getName).Some? ==> getName(Find(s, name, getName).value) == name
  {
    if s != [] {
      FindTimes(s[1..], name, getName);
    }
  }

  /** The pointer scan finds the same record. */
  lemma {:induction false} FindFrom<T>(s: seq<Item<T>>, from: nat, name: string, getName: T -> string)
    requires from <= |s|
    ensures var k := FirstNamed(s, from, name, getName);
            && Find(s[from..], name, getName) == (if k < |s| then s[k].rec else None)
            && Times(s[from..], name, getName) == if k < |s| then 1 + Times(s[k + 1..], name, getName) else 0
    decreases |s| - from
  {
    if from < |s| {
      assert s[from..][0] == s[from] && s[from..][1..] == s[from + 1..];
      if !Named(s[from], name, getName) {
        FindFrom(s, from + 1, name, getName);
      }
    }
  }

  /** Whether a second entry repeats the first one of that name. */
  lemma {:induction false} RepeatedTimes<T>(s: seq<Item<T>>, name: string, getName: T -> string)
    ensures var k := FirstNamed(s, 0, name, getName);
            && (k == |s| <==> Times(s, name, getName) == 0)
            && (k < |s| ==> (FirstNamed(s, k + 1, name, getName) < |s| <==> Times(s, name, getName) > 1))
            && Find(s, name, getName) == (if k < |s| then s[k].rec else None)
  {
    assert s[0..] == s;
    FindFrom(s, 0, name, getName);
    var k := FirstNamed(s, 0, name, getName);
    if k < |s| {
      FindFrom(s, k + 1, name, getName);
    }
  }

  lemma {:induction false} FindOne<T>(it: Item<T>, name: string, getName: T -> string)
    ensures Times([it], name, getName) == if Named(it, name, getName) then 1 else 0
    ensures Find([it], name, getName) == if Named(it, name, getName) then it.rec else None
  {
    assert [it][1..] == [];
  }

  /** What one entry contributes to the whole list. */
  lemma {:induction false} Around<T>(s: seq<Item<T>>, k: nat, it: Item<T>, name: string, getName: T -> string)
    requires k < |s|
    ensures Times(s[k := it], name, getName)
            == Times(s[..k], name, getName) + (if Named(it, name, getName) then 1 else 0)
               + Times(s[k + 1..], name, getName)
    ensures Find(s[k := it], name, getName)
            == if Find(s[..k], name, getName).Some? then Find(s[..k], name, getName)
               else if Named(it, name, getName) then it.rec else Find(s[k + 1..], name, getName)
  {
    assert s[k := it] == s[..k] + ([it] + s[k + 1..]);
    FindConcat(s[..k], [it] + s[k + 1..], name, getName);
    FindConcat([it], s[k + 1..], name, getName);
    FindOne(it, name, getName);
  }

  lemma {:induction false} FindReplaced<T>(s: seq<Item<T>>, k: nat, it: Item<T>, name: string, getName: T -> string)
    requires k < |s|
    ensures !Named(s[k], name, getName) && !Named(it, name, getName) ==>
              && Find(s[k := it], name, getName) == Find(s, name, getName)
              && Times(s[k := it], name, getName) == Times(s, name, getName)
    ensures Named(s[k], name, getName) && Named(it, name, getName) ==>
              && Times(s[k := it], name, getName) == Times(s, name, getName)
              && (Times(s, name, getName) == 1 ==> Find(s[k := it], name, getName) == it.rec)
  {
    assert s == s[k := s[k]];
    Around(s, k, s[k], name, getName);
    Around(s, k, it, name, getName);
    FindTimes(s[..k], name, getName);
  }

  lemma {:induction false} FindInserted<T>(s: seq<Item<T>>, k: nat, it: Item<T>, name: string, getName: T -> string)
    requires k <= |s|
    ensures Times(Inserted(s, k, it), name, getName)
              == Times(s, name, getName) + if Named(it, name, getName) then 1 else 0
    ensures !Named(it, name, getName) ==> Find(Inserted(s, k, it), name, getName) == Find(s, name, getName)
    ensures Named(it, name, getName) && Times(s, name, getName) == 0 ==>
              Find(Inserted(s, k, it), name, getName) == it.rec
  {
    var a, b := s[..k], s[k..];
    assert s == a + b && Inserted(s, k, it) == a + ([it] + b) && ([it] + b)[1..] == b;
    FindConcat(a, b, name, getName);
    FindConcat(a, [it] + b, name, getName);
    FindTimes(a, name, getName);
    FindTimes(s, name, getName);
  }

  lemma {:induction false} FindWithout<T>(s: seq<Item<T>>, k: nat, name: string, getName: T -> string)
    requires k < |s|
    ensures Times(Without(s, k), name, getName) == Times(s, name, getName) - if Named(s[k], name, getName) then 1 else 0
    ensures !Named(s[k], name, getName) ==> Find(Without(s, k), name, getName) == Find(s, name, getName)
  {
    assert s == s[k := s[k]];
    Around(s, k, s[k], name, getName);
    FindConcat(s[..k], s[k + 1..], name, getName);
  }

  /** An update succeeds unless its name is repeated; then its name finds the new
      record, once, and every other name is as before. */
  lemma {:induction false} UpdatedEffect<T>(s: seq<Item<T>>, r: T, name: string, getName: T -> string)
    ensures Updated(s, r, getName).Some? <==> Times(s, getName(r), getName) <= 1
    ensures Updated(s, r, getName).Some? ==>
              var t := Updated(s, r, getName).value;
              && Find(t, name, getName) == (if name == getName(r) then Some(r) else Find(s, name, getName))
              && Times(t, name, getName) == (if name == getName(r) then 1 else Times(s, name, getName))
  {
    var k := FirstNamed(s, 0, getName(r), getName);
    RepeatedTimes(s, getName(r), getName);
    if k == |s| {
      FindInserted(s, FirstNis(s, 0, getName), Item(None, Some(r), true), name, getName);
    } else if FirstNamed(s, k + 1, getName(r), getName) == |s| {
      FindReplaced(s, k, Item(s[k].line, Some(r), true), name, getName);
    }
  }

  /** The only entry of its name is replaced in place. */
  lemma {:induction false} UpdatedInPlace<T>(s: seq<Item<T>>, n: nat, r: T, getName: T -> string)
    requires n < |s| && Named(s[n], getName(r), getName) && Times(s, getName(r), getName) <= 1
    ensures FirstNamed(s, 0, getName(r), getName) == n
    ensures Updated(s, r, getName) == Some(s[n := Item(s[n].line, Some(r), true)])
    ensures forall name :: Times(s[n := Item(s[n].line, Some(r), true)], name, getName) == Times(s, name, getName)
    ensures Find(s[n + 1..], getName(r), getName).None?
  {
    RepeatedTimes(s, getName(r), getName);
    assert FirstNamed(s, 0, getName(r), getName) == n;
    FindFrom(s, n + 1, getName(r), getName);
    forall name
      ensures Times(s[n := Item(s[n].line, Some(r), true)], name, getName) == Times(s, name, getName)
    {
      FindReplaced(s, n, Item(s[n].line, Some(r), true), name, getName);
    }
  }

  /** A removal succeeds exactly for a name that occurs once, and removes that. */
  lemma {:induction false} RemovedEffect<T>(s: seq<Item<T>>, gone: string, name: string, getName: T -> string)
    ensures Removed(s, gone, getName).Some? <==> Times(s, gone, getName) == 1
    ensures Removed(s, gone, getName).Some? ==>
              var t := Removed(s, gone, getName).value;
              && |t| == |s| - 1
              && Find(t, name, getName) == (if name == gone then None else Find(s, name, getName))
              && Times(t, name, getName) == (if name == gone then 0 else Times(s, name, getName))
  {
    var k := FirstNamed(s, 0, gone, getName);
    RepeatedTimes(s, gone, getName);
    if k < |s| {
      FindWithout(s, k, name, getName);
      FindTimes(Without(s, k), name, getName);
    }
  }

  /** Between two records that are delivered in turn there is none. */
  lemma {:induction false} DeliveredGap<T>(s: seq<Item<T>>, a: nat, b: nat)
    requires a <= b < |s| && s[b].rec.Some? && |Delivered(s, a)| == 1 + |Delivered(s, b + 1)|
    ensures forall i :: a <= i < b ==> s[i].rec == None
    decreases b - a
  {
    if a < b {
      DeliveredShrinks(s, a + 1, b);
      DeliveredGap(s, a + 1, b);
    }
  }

  lemma {:induction false} DeliveredShrinks<T>(s: seq<Item<T>>, a: nat, b: nat)
    requires a <= b < |s| && s[b].rec.Some?
    ensures |Delivered(s, a)| >= 1 + |Delivered(s, b + 1)|
    decreases b - a
  {
    if a < b {
      DeliveredShrinks(s, a + 1, b);
    }
  }

  lemma {:induction false} NothingDelivered<T>(s: seq<Item<T>>, a: nat)
    requires Delivered(s, a) == []
    ensures forall i :: a <= i < |s| ==> s[i].rec == None
    decreases |s| - a
  {
    if a < |s| {
      NothingDelivered(s, a + 1);
    }
  }

  // ----- lines without a record -----

  /** The entries that hold a line alone. */
  function Raw<T>(s: seq<Item<T>>): seq<Item<T>> {
    if s == [] then [] else (if s[0].rec.None? then [s[0]] else []) + Raw(s[1..])
  }

  lemma {:induction false} RawConcat<T>(s: seq<Item<T>>, t: seq<Item<T>>)
    ensures Raw(s + t) == Raw(s) + Raw(t)
  {
    if s == [] {
      assert s + t == t;
    } else {
      assert (s + t)[0] == s[0] && (s + t)[1..] == s[1..] + t;
      RawConcat(s[1..], t);
      RegroupRaw(if s[0].rec.None? then [s[0]] else [], Raw(s[1..]), Raw(t));
    }
  }

  lemma {:induction false} RegroupRaw<T>(a: seq<Item<T>>, b: seq<Item<T>>, c: seq<Item<T>>)
    ensures a + (b + c) == (a + b) + c
  {
  }

  lemma {:induction false} RawParsed<T>(it: Item<T>, s: seq<Item<T>>)
    requires it.rec.Some?
    ensures Raw([it] + s) == Raw(s)
  {
    assert ([it] + s)[1..] == s;
  }

  lemma {:induction false} InsertedRaw<T>(s: seq<Item<T>>, n: nat, it: Item<T>)
    requires n <= |s| && it.rec.Some?
    ensures Raw(Inserted(s, n, it)) == Raw(s)
  {
    assert Inserted(s, n, it) == s[..n] + ([it] + s[n..]) && s == s[..n] + s[n..];
    RawConcat(s[..n], [it] + s[n..]);
    RawConcat(s[..n], s[n..]);
    RawParsed(it, s[n..]);
  }

  lemma {:induction false} ReplacedRaw<T>(s: seq<Item<T>>, k: nat, it: Item<T>)
    requires k < |s| && s[k].rec.Some? && it.rec.Some?
    ensures Raw(s[k := it]) == Raw(s)
  {
    assert s[k := it] == s[..k] + ([it] + s[k + 1..]) && s == s[..k] + ([s[k]] + s[k + 1..]);
    RawConcat(s[..k], [it] + s[k + 1..]);
    RawConcat(s[..k], [s[k]] + s[k + 1..]);
    RawParsed(it, s[k + 1..]);
    RawParsed(s[k], s[k + 1..]);
  }

  /** Updates and removals leave the lines without a record as they are. */
  lemma {:induction false} UpdatedKeepsRaw<T>(s: seq<Item<T>>, r: T, getName: T -> string)
    requires Updated(s, r, getName).Some?
    ensures Raw(Updated(s, r, getName).value) == Raw(s)
  {
    var k := FirstNamed(s, 0, getName(r), getName);
    if k == |s| {
      InsertedRaw(s, FirstNis(s, 0, getName), Item(None, Some(r), true));
    } else {
      ReplacedRaw(s, k, Item(s[k].line, Some(r), true));
    }
  }

  lemma {:induction false} RemovedKeepsRaw<T>(s: seq<Item<T>>, name: string, getName: T -> string)
    requires Removed(s, name, getName).Some?
    ensures Raw(Removed(s, name, getName).value) == Raw(s)
  {
    var k := FirstNamed(s, 0, name, getName);
    assert s == s[..k] + ([s[k]] + s[k + 1..]);
    RawConcat(s[..k], s[k + 1..]);
    RawConcat(s[..k], [s[k]] + s[k + 1..]);
    RawParsed(s[k], s[k + 1..]);
  }

  /** Two lists whose entries have the same names. */
  ghost predicate SameNames<T>(s: seq<Item<T>>, u: seq<Item<T>>, getName: T -> string) {
    && |s| == |u|
    && (forall i :: 0 <= i < |s| ==> s[i].rec.Some? == u[i].rec.Some?)
    && (forall i :: 0 <= i < |s| && s[i].rec.Some? && u[i].rec.Some? ==>
          getName(s[i].rec.value) == getName(u[i].rec.value))
  }

  lemma {:induction false} SameTimes<T>(s: seq<Item<T>>, u: seq<Item<T>>, name: string, getName: T -> string)
    requires SameNames(s, u, getName)
    ensures Times(s, name, getName) == Times(u, name, getName)
    ensures Find(s, name, getName).Some? <==> Find(u, name, getName).Some?
  {
    if s != [] {
      assert forall i :: 0 <= i < |s| - 1 ==> s[1..][i] == s[i + 1] && u[1..][i] == u[i + 1];
      SameTimes(s[1..], u[1..], name, getName);
    }
    FindTimes(s, name, getName);
    FindTimes(u, name, getName);
  }

  // ----- the same operations, told from the entries alone -----

  /** The text that decides whether an entry belongs to NIS: its name, or the line of an
      entry without a record. */
  function Label<T>(it: Item<T>, getName: T -> string): string {
    if it.rec.Some? then getName(it.rec.value) else if it.line.Some? then it.line.value else ""
  }

  predicate StartsWithSign(text: string) {
    text != "" && (text[0] == '+' || text[0] == '-')
  }

  /** An update rewrites the one entry of that name, keeping its line; two of them make
      it fail; without any the entry is put in front of the first NIS entry. */
  lemma {:induction false} UpdatedExactly<T>(s: seq<Item<T>>, r: T, getName: T -> string)
    ensures (exists i, j :: 0 <= i < j < |s| && s[i].rec.Some? && s[j].rec.Some?
                            && getName(s[i].rec.value) == getName(r) == getName(s[j].rec.value)) ==>
              Updated(s, r, getName) == None
    ensures forall k :: 0 <= k < |s| && s[k].rec.Some? && getName(s[k].rec.value) == getName(r)
                        && (forall i :: 0 <= i < |s| && i != k && s[i].rec.Some? ==>
                              getName(s[i].rec.value) != getName(r)) ==>
              Updated(s, r, getName) == Some(s[k := Item(s[k].line, Some(r), true)])
    ensures (forall i :: 0 <= i < |s| && s[i].rec.Some? ==> getName(s[i].rec.value) != getName(r)) ==>
              exists n :: 0 <= n <= |s| && Updated(s, r, getName) == Some(s[..n] + [Item(None, Some(r), true)] + s[n..])
                          && (forall i :: 0 <= i < n ==> !StartsWithSign(Label(s[i], getName)))
                          && (n < |s| ==> StartsWithSign(Label(s[n], getName)))
  {
    var name := getName(r);
    var k := FirstNamed(s, 0, name, getName);
    forall i | 0 <= i < |s|
      ensures Named(s[i], name, getName) <==> s[i].rec.Some? && getName(s[i].rec.value) == name
      ensures EntryIsNis(s[i], getName) <==> StartsWithSign(Label(s[i], getName))
    {
    }
    if k == |s| {
      var n := FirstNis(s, 0, getName);
      assert forall i :: 0 <= i < n ==> !EntryIsNis(s[i], getName);
    } else {
      var m := FirstNamed(s, k + 1, name, getName);
      assert m < |s| ==> Named(s[m], name, getName);
    }
  }

  /** A removal takes out the one entry of that name, and fails for none or several. */
  lemma {:induction false} RemovedExactly<T>(s: seq<Item<T>>, name: string, getName: T -> string)
    ensures forall k :: 0 <= k < |s| && s[k].rec.Some? && getName(s[k].rec.value) == name
                        && (forall i :: 0 <= i < |s| && i != k && s[i].rec.Some? ==>
                              getName(s[i].rec.value) != name) ==>
              Removed(s, name, getName) == Some(s[..k] + s[k + 1..])
    ensures (exists i, j :: 0 <= i < j < |s| && s[i].rec.Some? && s[j].rec.Some?
                            && getName(s[i].rec.value) == name == getName(s[j].rec.value)) ==>
              Removed(s, name, getName) == None
    ensures (forall i :: 0 <= i < |s| && s[i].rec.Some? ==> getName(s[i].rec.value) != name) ==>
              Removed(s, name, getName) == None
  {
    var k := FirstNamed(s, 0, name, getName);
    forall i | 0 <= i < |s|
      ensures Named(s[i], name, getName) <==> s[i].rec.Some? && getName(s[i].rec.value) == name
    {
    }
    if k < |s| {
      var m := FirstNamed(s, k + 1, name, getName);
      assert m < |s| ==> Named(s[m], name, getName);
    }
  }

  /** A lookup delivers the first record of that name. */
  lemma {:induction false} FindExactly<T>(s: seq<Item<T>>, k: nat, name: string, getName: T -> string)
    requires k < |s| && s[k].rec.Some? && getName(s[k].rec.value) == name
    requires forall i :: 0 <= i < k && s[i].rec.Some? ==> getName(s[i].rec.value) != name
    ensures Find(s, name, getName) == s[k].rec
  {
    if k > 0 {
      assert !Named(s[0], name, getName);
      FindExactly(s[1..], k - 1, name, getName);
    }
  }

  /** The entries of that name are counted. */
  lemma {:induction false} TimesExactly<T>(s: seq<Item<T>>, name: string, getName: T -> string)
    ensures Times(s, name, getName) == |set i | 0 <= i < |s| && s[i].rec.Some? && getName(s[i].rec.value) == name|
    decreases |s|
  {
    var all := set i | 0 <= i < |s| && s[i].rec.Some? && getName(s[i].rec.value) == name;
    if s == [] {
      assert all == {};
    } else {
      var init, last := s[..|s| - 1], s[|s| - 1];
      var before := set i | 0 <= i < |init| && init[i].rec.Some? && getName(init[i].rec.value) == name;
      TimesExactly(init, name, getName);
      assert s == init + [last];
      FindConcat(init, [last], name, getName);
      FindOne(last, name, getName);
      assert all == if Named(last, name, getName) then before + {|s| - 1} else before;
    }
  }
}
