/**
 `commonio_sort_wrt` of lib/commonio.c: order the shadow entries like the
 entries of another database.
 */
module CommonIOSortWrt {
  import opened Wrappers
  import opened CommonIO
  import opened CommonIOLookup
  import opened CommonIOSort

  // ----- specification -----

  function Names<P>(s: seq<Item<P>>, getName: P -> string): seq<string> {
    if s == [] then []
    else (if s[0].rec.Some? then [getName(s[0].rec.value)] else []) + Names(s[1..], getName)
  }

  /** The names are those of the records a traversal delivers, in that order. */
  lemma {:induction false} NamesOfRecords<P>(s: seq<Item<P>>, getName: P -> string)
    ensures |Names(s, getName)| == |Parsed(s)|
    ensures forall i :: 0 <= i < |Parsed(s)| ==> Names(s, getName)[i] == getName(Parsed(s)[i])
  {
    if s != [] {
      NamesOfRecords(s[1..], getName);
    }
  }

  /** For each name in turn, takes out the first remaining entry of that name. */
  function Picked<T>(s: seq<Item<T>>, names: seq<string>, getName: T -> string): seq<Item<T>> {
    if names == [] then []
    else
      var k := FirstNamed(s, 0, names[0], getName);
      if k == |s| then Picked(s, names[1..], getName)
      else [s[k]] + Picked(Without(s, k), names[1..], getName)
  }

  /** What is left after that, in its original order. */
  function Unpicked<T>(s: seq<Item<T>>, names: seq<string>, getName: T -> string): seq<Item<T>> {
    if names == [] then s
    else
      var k := FirstNamed(s, 0, names[0], getName);
      Unpicked(if k == |s| then s else Without(s, k), names[1..], getName)
  }

  // ----- what the arrangement promises -----

  ghost predicate Arranged<T>(s: seq<Item<T>>, t: seq<Item<T>>, names: seq<string>, getName: T -> string) {
    t == Picked(s, names, getName) + Unpicked(s, names, getName)
  }

  predicate NamedIn<T>(it: Item<T>, names: seq<string>, getName: T -> string) {
    it.rec.Some? && getName(it.rec.value) in names
  }

  /** The entries no name matches, in order. */
  function Keep<T>(s: seq<Item<T>>, names: seq<string>, getName: T -> string): seq<Item<T>> {
    if s == [] then []
    else (if NamedIn(s[0], names, getName) then [] else [s[0]]) + Keep(s[1..], names, getName)
  }

  /** The names that some entry carries, in the order of `names`. */
  function Carried<T>(names: seq<string>, s: seq<Item<T>>, getName: T -> string): seq<string> {
    if names == [] then []
    else (if FirstNamed(s, 0, names[0], getName) < |s| then [names[0]] else []) + Carried(names[1..], s, getName)
  }

  lemma {:induction false} ArrangedPermutes<T>(s: seq<Item<T>>, t: seq<Item<T>>, names: seq<string>,
                                               getName: T -> string)
    requires Arranged(s, t, names, getName)
    ensures Permuted(s, t)
  {
    if names != [] {
      var k := FirstNamed(s, 0, names[0], getName);
      if k == |s| {
        ArrangedPermutes(s, t, names[1..], getName);
      } else {
        ArrangedPermutes(Without(s, k), t[1..], names[1..], getName);
        assert s == s[..k] + [s[k]] + s[k + 1..];
        assert t == [s[k]] + t[1..];
      }
    }
  }

  lemma {:induction false} KeepSkipsOthers<T>(s: seq<Item<T>>, names: seq<string>, getName: T -> string)
    requires names != [] && forall i :: 0 <= i < |s| ==> !Named(s[i], names[0], getName)
    ensures Keep(s, names, getName) == Keep(s, names[1..], getName)
  {
    if s != [] {
      KeepSkipsOthers(s[1..], names, getName);
      assert names == [names[0]] + names[1..];
    }
  }

  lemma {:induction false} KeepDropsOne<T>(s: seq<Item<T>>, k: nat, names: seq<string>, getName: T -> string)
    requires names != [] && k < |s| && Named(s[k], names[0], getName)
    requires forall i :: 0 <= i < |s| && i != k ==> !Named(s[i], names[0], getName)
    ensures Keep(s, names, getName) == Keep(Without(s, k), names[1..], getName)
  {
    if k == 0 {
      KeepSkipsOthers(s[1..], names, getName);
      assert Without(s, 0) == s[1..];
    } else {
      KeepDropsOne(s[1..], k - 1, names, getName);
      assert Without(s, k) == [s[0]] + Without(s[1..], k - 1);
      assert names == [names[0]] + names[1..];
    }
  }

  /** With unique names, what is left unmatched is every entry whose name is not listed, in its original order. */
  lemma {:induction false} UnpickedIsTheRest<T>(s: seq<Item<T>>, names: seq<string>, getName: T -> string)
    requires Unique(s, getName)
    ensures Unpicked(s, names, getName) == Keep(s, names, getName)
  {
    if names == [] {
      KeepAll(s, getName);
    } else {
      var k := FirstNamed(s, 0, names[0], getName);
      if k == |s| {
        KeepSkipsOthers(s, names, getName);
        UnpickedIsTheRest(s, names[1..], getName);
      } else {
        assert Times(s, names[0], getName) <= 1;
        RepeatedTimes(s, names[0], getName);
        KeepDropsOne(s, k, names, getName);
        forall name
          ensures Times(Without(s, k), name, getName) <= 1
        {
          assert Times(s, name, getName) <= 1;
          FindWithout(s, k, name, getName);
        }
        UnpickedIsTheRest(Without(s, k), names[1..], getName);
      }
    }
  }

  lemma {:induction false} KeepAll<T>(s: seq<Item<T>>, getName: T -> string)
    ensures Keep(s, [], getName) == s
  {
    if s != [] {
      KeepAll(s[1..], getName);
    }
  }

  lemma {:induction false} CarriedWithout<T>(names: seq<string>, s: seq<Item<T>>, k: nat, getName: T -> string)
    requires k < |s| && s[k].rec.Some? && getName(s[k].rec.value) !in names
    ensures Carried(names, Without(s, k), getName) == Carried(names, s, getName)
  {
    if names != [] {
      CarriedWithout(names[1..], s, k, getName);
      var a, b := FirstNamed(s, 0, names[0], getName), FirstNamed(Without(s, k), 0, names[0], getName);
      if a < |s| {
        assert Without(s, k)[if a < k then a else a - 1] == s[a];
      }
      if b < |s| - 1 {
        assert s[if b < k then b else b + 1] == Without(s, k)[b];
      }
    }
  }

  /** With distinct names to match, the matched entries come in the order of those names. */
  lemma {:induction false} PickedInOrder<T>(s: seq<Item<T>>, names: seq<string>, getName: T -> string)
    requires forall i, j :: 0 <= i < j < |names| ==> names[i] != names[j]
    ensures Names(Picked(s, names, getName), getName) == Carried(names, s, getName)
  {
    if names != [] {
      var k := FirstNamed(s, 0, names[0], getName);
      if k == |s| {
        PickedInOrder(s, names[1..], getName);
      } else {
        PickedInOrder(Without(s, k), names[1..], getName);
        CarriedWithout(names[1..], s, k, getName);
        assert Picked(s, names, getName)[1..] == Picked(Without(s, k), names[1..], getName);
      }
    }
  }

  /** Some name of the first entry comes before some name of the second. */
  ghost predicate ListedBefore<T>(a: Item<T>, b: Item<T>, names: seq<string>, getName: T -> string) {
    && a.rec.Some? && b.rec.Some?
    && exists p, q :: 0 <= p < q < |names| && names[p] == getName(a.rec.value) && names[q] == getName(b.rec.value)
  }

  /** Where the entries from position `n` on stand that no name matches. */
  ghost function Others<T>(s: seq<Item<T>>, n: nat, names: seq<string>, getName: T -> string): (ps: seq<nat>)
    requires n <= |s|
    ensures forall k :: 0 <= k < |ps| ==> n <= ps[k] < |s|
    ensures forall j, k :: 0 <= j < k < |ps| ==> ps[j] < ps[k]
    decreases |s| - n
  {
    if n == |s| then [] else
    (if NamedIn(s[n], names, getName) then [] else [n]) + Others(s, n + 1, names, getName)
  }

  lemma {:induction false} KeepIsOthers<T>(s: seq<Item<T>>, n: nat, names: seq<string>, getName: T -> string)
    requires n <= |s|
    ensures var ps := Others(s, n, names, getName);
            && |ps| == |Keep(s[n..], names, getName)|
            && forall k :: 0 <= k < |ps| ==>
                 s[ps[k]] == Keep(s[n..], names, getName)[k] && !NamedIn(s[ps[k]], names, getName)
    decreases |s| - n
  {
    if n < |s| {
      assert s[n..][0] == s[n] && s[n..][1..] == s[n + 1..];
      KeepIsOthers(s, n + 1, names, getName);
    }
  }

  lemma {:induction false} PickedIsListed<T>(s: seq<Item<T>>, names: seq<string>, getName: T -> string)
    ensures forall i :: 0 <= i < |Picked(s, names, getName)| ==> NamedIn(Picked(s, names, getName)[i], names, getName)
    ensures forall i, j :: 0 <= i < j < |Picked(s, names, getName)| ==>
              ListedBefore(Picked(s, names, getName)[i], Picked(s, names, getName)[j], names, getName)
  {
    if names != [] {
      var k := FirstNamed(s, 0, names[0], getName);
      var rest := if k == |s| then s else Without(s, k);
      PickedIsListed(rest, names[1..], getName);
      var ts := Picked(rest, names[1..], getName);
      forall i | 0 <= i < |ts|
        ensures NamedIn(ts[i], names, getName)
        ensures k < |s| ==> ListedBefore(s[k], ts[i], names, getName)
      {
        var q :| 0 <= q < |names[1..]| && names[1..][q] == getName(ts[i].rec.value);
        assert names[q + 1] == getName(ts[i].rec.value);
      }
      forall i, j | 0 <= i < j < |ts|
        ensures ListedBefore(ts[i], ts[j], names, getName)
      {
        var p, q :| 0 <= p < q < |names[1..]| && names[1..][p] == getName(ts[i].rec.value)
                    && names[1..][q] == getName(ts[j].rec.value);
        assert names[p + 1] == getName(ts[i].rec.value) && names[q + 1] == getName(ts[j].rec.value);
      }
    }
  }

  lemma {:induction false} PartsExactly<T>(s: seq<Item<T>>, names: seq<string>, getName: T -> string)
      returns (m: nat, ps: seq<nat>)
    ensures var t := Picked(s, names, getName) + Keep(s, names, getName);
            && m + |ps| == |t|
            && (forall i :: 0 <= i < m ==> NamedIn(t[i], names, getName))
            && (forall i, j :: 0 <= i < j < m ==> ListedBefore(t[i], t[j], names, getName))
            && (forall k :: 0 <= k < |ps| ==> ps[k] < |s| && t[m + k] == s[ps[k]])
            && (forall j, k :: 0 <= j < k < |ps| ==> ps[j] < ps[k])
            && (forall i :: m <= i < |t| ==> !NamedIn(t[i], names, getName))
  {
    PickedIsListed(s, names, getName);
    assert s[0..] == s;
    m, ps := |Picked(s, names, getName)|, Others(s, 0, names, getName);
    KeepIsOthers(s, 0, names, getName);
  }

  /** The same entries; first those some name lists, in the order of the names, then the
      others in the order they had. */
  lemma {:induction false} ArrangedExactly<T>(s: seq<Item<T>>, t: seq<Item<T>>, names: seq<string>,
                                              getName: T -> string)
      returns (m: nat, ps: seq<nat>)
    requires Arranged(s, t, names, getName) && Unique(s, getName)
    ensures multiset(t) == multiset(s) && m + |ps| == |t|
    ensures forall i :: 0 <= i < m ==> t[i].rec.Some? && getName(t[i].rec.value) in names
    ensures forall i, j :: 0 <= i < j < m ==> ListedBefore(t[i], t[j], names, getName)
    ensures forall k :: 0 <= k < |ps| ==> ps[k] < |s| && t[m + k] == s[ps[k]]
    ensures forall j, k :: 0 <= j < k < |ps| ==> ps[j] < ps[k]
    ensures forall i :: m <= i < |t| && t[i].rec.Some? ==> getName(t[i].rec.value) !in names
  {
    ArrangedPermutes(s, t, names, getName);
    UnpickedIsTheRest(s, names, getName);
    m, ps := PartsExactly(s, names, getName);
    forall i | 0 <= i < |t|
      ensures NamedIn(t[i], names, getName) <==> t[i].rec.Some? && getName(t[i].rec.value) in names
    {
    }
  }

  // ----- the method -----

  ghost predicate Apart<S, P>(shadow: Database<S>, passwd: Database<P>)
    reads shadow`nodes, passwd`nodes
  {
    && shadow as object != passwd as object
    && forall i, j :: 0 <= i < |shadow.nodes| && 0 <= j < |passwd.nodes| ==>
         shadow.nodes[i] as object != passwd.nodes[j] as object
  }

  /** A local list of unlinked entries, chained through `next` from `top`. */
  ghost predicate Stack<T>(top: Entry?<T>, stack: seq<Entry<T>>, vals: seq<Item<T>>)
    reads stack`next, stack`line, stack`rec, stack`changed
  {
    && Distinct(stack) && top == At(stack, 0)
    && (forall i {:trigger stack[i].next} :: 0 <= i < |stack| ==> stack[i].next == At(stack, i + 1))
    && Filled(stack, vals)
  }

  function Reversed<X>(s: seq<X>): (t: seq<X>)
    ensures |t| == |s|
  {
    if s == [] then [] else Reversed(s[1..]) + [s[0]]
  }

  lemma {:induction false} StackTail<T>(top: Entry?<T>, stack: seq<Entry<T>>, vals: seq<Item<T>>)
    requires Stack(top, stack, vals) && stack != []
    ensures top == stack[0] && Stack(top.next, stack[1..], vals[1..])
  {
    assert stack[0].next == At(stack, 1);
  }

  lemma {:induction false} StackPush<T>(p: Entry<T>, v: Item<T>, stack: seq<Entry<T>>, vals: seq<Item<T>>)
    requires Stack(p.next, stack, vals) && p !in stack
    requires v == Item(p.line, p.rec, p.changed) && (v.rec.Some? || v.line.Some?)
    ensures Stack(p, [p] + stack, [v] + vals)
  {
  }

  /** Unlinks the first entry of that name and pushes it on the stack. */
  method Pull<T>(shadow: Database<T>, name: string, top: Entry?<T>, ghost stack: seq<Entry<T>>,
                 ghost vals: seq<Item<T>>)
      returns (newTop: Entry?<T>, ghost newStack: seq<Entry<T>>, ghost newVals: seq<Item<T>>)
    requires shadow.Valid() && Stack(top, stack, vals)
    requires forall i :: 0 <= i < |stack| ==> stack[i] !in shadow.nodes
    modifies shadow`head, shadow`tail, shadow`cursor, shadow`changed, shadow`nodes, shadow`items
    modifies shadow.nodes`prev, shadow.nodes`next
    ensures shadow.Valid() && Stack(newTop, newStack, newVals)
    ensures var k := FirstNamed(old(shadow.items), 0, name, shadow.ops.getName);
            if k == |old(shadow.items)| then
              && shadow.nodes == old(shadow.nodes) && shadow.items == old(shadow.items)
              && newStack == stack && newVals == vals
            else
              && shadow.nodes == Without(old(shadow.nodes), k) && shadow.items == Without(old(shadow.items), k)
              && newStack == [old(shadow.nodes)[k]] + stack && newVals == [old(shadow.items)[k]] + vals
    ensures forall i :: 0 <= i < |newStack| ==> newStack[i] !in shadow.nodes
    ensures forall i :: 0 <= i < |newStack| ==> newStack[i] in old(shadow.nodes) || newStack[i] in stack
    ensures forall i :: 0 <= i < |shadow.nodes| ==> shadow.nodes[i] in old(shadow.nodes)
  {
    newTop, newStack, newVals := top, stack, vals;
    var p := shadow.FindEntryByName(name);
    if p == null {
      return;
    }
    ghost var k := FirstNamed(shadow.items, 0, name, shadow.ops.getName);
    newTop, newStack, newVals := p, [shadow.nodes[k]] + stack, [shadow.items[k]] + vals;
    Move(shadow, p, k, top, stack, vals);
  }

  method Move<T>(shadow: Database<T>, p: Entry<T>, ghost k: nat, top: Entry?<T>, ghost stack: seq<Entry<T>>,
                 ghost vals: seq<Item<T>>)
    requires shadow.Valid() && Stack(top, stack, vals) && k < |shadow.nodes| && p == shadow.nodes[k]
    requires forall i :: 0 <= i < |stack| ==> stack[i] !in shadow.nodes
    modifies shadow`head, shadow`tail, shadow`cursor, shadow`changed, shadow`nodes, shadow`items
    modifies shadow.nodes`prev, shadow.nodes`next
    ensures shadow.Valid() && Stack(p, [p] + stack, [old(shadow.items)[k]] + vals)
    ensures shadow.nodes == Without(old(shadow.nodes), k) && shadow.items == Without(old(shadow.items), k)
  {
    ghost var v := shadow.items[k];
    assert v == Item(p.line, p.rec, p.changed);
    shadow.DelEntry(p, k);
    p.next := top;
    assert p !in shadow.nodes;
    StackPush(p, v, stack, vals);
  }

  /** A list whose back links are right, the first one aside. */
  ghost predicate BackLinkedAfterHead<T>(ns: seq<Entry<T>>)
    reads ns`prev
  {
    forall i {:trigger ns[i].prev} :: 1 <= i < |ns| ==> ns[i].prev == ns[i - 1]
  }

  method PushFront<T>(shadow: Database<T>, p: Entry<T>, ghost v: Item<T>)
    requires shadow.Forward() && shadow.Sound() && BackLinkedAfterHead(shadow.nodes) && p !in shadow.nodes
    requires v == Item(p.line, p.rec, p.changed) && (v.rec.Some? || v.line.Some?)
    modifies shadow`head, shadow`nodes, shadow`items, shadow.nodes`prev, p`next
    ensures shadow.Forward() && shadow.Sound() && BackLinkedAfterHead(shadow.nodes)
    ensures shadow.nodes == [p] + old(shadow.nodes) && shadow.items == [v] + old(shadow.items)
  {
    if shadow.head != null {
      shadow.head.prev := p;
    }
    p.next := shadow.head;
    shadow.head := p;
    shadow.nodes, shadow.items := [p] + shadow.nodes, [v] + shadow.items;
  }

  lemma {:induction false} ReversedMove<X>(s: seq<X>, t: seq<X>)
    requires s != []
    ensures Reversed(s) + t == Reversed(s[1..]) + ([s[0]] + t)
  {
  }

  /** One turn of the second loop: the top of the stack goes in front of the list. */
  method Pop<T>(shadow: Database<T>, p: Entry<T>, ghost st: seq<Entry<T>>, ghost vs: seq<Item<T>>)
      returns (rest: Entry?<T>)
    requires shadow.Forward() && shadow.Sound() && BackLinkedAfterHead(shadow.nodes)
    requires st != [] && Stack(p, st, vs) && forall i :: 0 <= i < |st| ==> st[i] !in shadow.nodes
    modifies shadow`head, shadow`nodes, shadow`items, shadow.nodes`prev, p`next
    ensures shadow.Forward() && shadow.Sound() && BackLinkedAfterHead(shadow.nodes)
    ensures Stack(rest, st[1..], vs[1..]) && forall i :: 0 <= i < |st[1..]| ==> st[1..][i] !in shadow.nodes
    ensures shadow.nodes == [p] + old(shadow.nodes) && p == st[0]
    ensures Reversed(st) + old(shadow.nodes) == Reversed(st[1..]) + shadow.nodes
    ensures Reversed(vs) + old(shadow.items) == Reversed(vs[1..]) + shadow.items
  {
    StackTail(p, st, vs);
    ReversedMove(st, shadow.nodes);
    ReversedMove(vs, shadow.items);
    rest := p.next;
    PushFront(shadow, p, vs[0]);
  }

  /** Puts the stacked entries back in front of the list; `all` bounds what is written. */
  method PushBack<T>(shadow: Database<T>, top: Entry?<T>, ghost stack: seq<Entry<T>>, ghost vals: seq<Item<T>>,
                     ghost all: set<Entry<T>>)
    requires shadow.Valid() && Stack(top, stack, vals)
    requires forall i :: 0 <= i < |stack| ==> stack[i] in all && stack[i] !in shadow.nodes
    requires forall i :: 0 <= i < |shadow.nodes| ==> shadow.nodes[i] in all
    requires |stack| + |shadow.nodes| > 0
    modifies shadow`head, shadow`nodes, shadow`items, shadow`changed, all`prev, all`next
    ensures shadow.Forward() && shadow.BackLinked() && shadow.Sound() && shadow.changed
    ensures shadow.nodes == Reversed(stack) + old(shadow.nodes)
    ensures shadow.items == Reversed(vals) + old(shadow.items)
  {
    var head := top;
    ghost var st, vs := stack, vals;
    while head != null
      invariant shadow.Forward() && shadow.Sound() && Stack(head, st, vs)
      invariant BackLinkedAfterHead(shadow.nodes)
      invariant forall i :: 0 <= i < |st| ==> st[i] in all && st[i] !in shadow.nodes
      invariant forall i :: 0 <= i < |shadow.nodes| ==> shadow.nodes[i] in all
      invariant Reversed(stack) + old(shadow.nodes) == Reversed(st) + shadow.nodes
      invariant Reversed(vals) + old(shadow.items) == Reversed(vs) + shadow.items
      invariant |st| + |shadow.nodes| > 0
      decreases |st|
    {
      head := Pop(shadow, head, st, vs);
      st, vs := st[1..], vs[1..];
    }
    Finish(shadow, shadow.head);
  }

  method Finish<T>(shadow: Database<T>, first: Entry<T>)
    requires shadow.Forward() && BackLinkedAfterHead(shadow.nodes) && first == shadow.head
    modifies shadow`changed, first`prev
    ensures shadow.BackLinked() && shadow.changed
  {
    first.prev := null;
    shadow.changed := true;
  }

  /**
   Orders `shadow` like `passwd`: the matched entries in the other database's
   order, then every unmatched entry in its own. Every link is repaired; the
   tail pointer is right exactly when some entry was left unmatched.
   */
  method SortWrt<S, P>(shadow: Database<S>, passwd: Database<P>)
    requires shadow.Valid() && passwd.Forward() && passwd.Sound() && Apart(shadow, passwd)
    modifies shadow`head, shadow`tail, shadow`cursor, shadow`changed, shadow`nodes, shadow`items
    modifies shadow.nodes`prev, shadow.nodes`next
    ensures shadow.Forward() && shadow.BackLinked() && shadow.Sound()
    ensures Arranged(old(shadow.items), shadow.items, Names(passwd.items, passwd.ops.getName), shadow.ops.getName)
    ensures shadow.TailSet() <==>
              Unpicked(old(shadow.items), Names(passwd.items, passwd.ops.getName), shadow.ops.getName) != [] ||
              shadow.nodes == []
    ensures if old(shadow.nodes) == [] then unchanged(shadow) else shadow.changed
  {
    var names := ReadNames(passwd);
    ArrangeByNames(shadow, names);
  }

  /** One shadow entry whose user is listed: none is left unmatched. */
  lemma {:induction false} AllMatchedLeaveNone(getName: string -> string)
    requires getName("a") == "a"
    ensures var s: seq<Item<string>> := [Item(Some("a:"), Some("a"), false)];
            Unpicked(s, ["a"], getName) == [] && Picked(s, ["a"], getName) == s
  {
    var s: seq<Item<string>> := [Item(Some("a:"), Some("a"), false)];
    assert FirstNamed(s, 0, "a", getName) == 0;
    assert Without(s, 0) == [] && ["a"][1..] == [];
    assert Unpicked(Without(s, 0), [], getName) == [] && Picked(Without(s, 0), [], getName) == [];
  }

  method ArrangeByNames<T>(shadow: Database<T>, names: seq<string>)
    requires shadow.Valid()
    modifies shadow`head, shadow`tail, shadow`cursor, shadow`changed, shadow`nodes, shadow`items
    modifies shadow.nodes`prev, shadow.nodes`next
    ensures shadow.Forward() && shadow.BackLinked() && shadow.Sound()
    ensures Arranged(old(shadow.items), shadow.items, names, shadow.ops.getName)
    ensures shadow.TailSet() <==> Unpicked(old(shadow.items), names, shadow.ops.getName) != [] || shadow.nodes == []
    ensures if old(shadow.nodes) == [] then unchanged(shadow) else shadow.changed
  {
    if shadow.head == null {
      NothingToPick<T>(names, shadow.ops.getName);
      return;
    }
    ArrangeNonEmpty(shadow, names);
  }

  method ArrangeNonEmpty<T>(shadow: Database<T>, names: seq<string>)
    requires shadow.Valid() && shadow.nodes != []
    modifies shadow`head, shadow`tail, shadow`cursor, shadow`changed, shadow`nodes, shadow`items
    modifies shadow.nodes`prev, shadow.nodes`next
    ensures shadow.Forward() && shadow.BackLinked() && shadow.Sound() && shadow.changed
    ensures Arranged(old(shadow.items), shadow.items, names, shadow.ops.getName)
    ensures shadow.TailSet() <==> Unpicked(old(shadow.items), names, shadow.ops.getName) != []
    ensures shadow.nodes != []
  {
    ghost var all := set e | e in shadow.nodes;
    var head, stack, vals := PullMatched(shadow, names, all);
    PickedUnpickedSizes(old(shadow.items), names, shadow.ops.getName);
    PushBack(shadow, head, stack, vals, all);
  }

  lemma {:induction false} NothingToPick<T>(names: seq<string>, getName: T -> string)
    ensures Picked<T>([], names, getName) == [] && Unpicked<T>([], names, getName) == []
  {
    if names != [] {
      NothingToPick<T>(names[1..], getName);
    }
  }

  lemma {:induction false} PickedUnpickedSizes<T>(s: seq<Item<T>>, names: seq<string>, getName: T -> string)
    ensures |Picked(s, names, getName)| + |Unpicked(s, names, getName)| == |s|
  {
    if names != [] {
      var k := FirstNamed(s, 0, names[0], getName);
      PickedUnpickedSizes(if k == |s| then s else Without(s, k), names[1..], getName);
    }
  }

  /** The names the outer loop meets. Reading them first changes nothing, since
      the two lists are apart. */
  method ReadNames<P>(passwd: Database<P>) returns (names: seq<string>)
    requires passwd.Forward() && passwd.Sound()
    ensures names == Names(passwd.items, passwd.ops.getName)
  {
    names := [];
    ghost var m, all, todo := 0, Names(passwd.items, passwd.ops.getName), Names(passwd.items, passwd.ops.getName);
    var p := passwd.head;
    while p != null
      invariant 0 <= m <= |passwd.nodes| && p == At(passwd.nodes, m)
      invariant all == names + todo && todo == Names(passwd.items[m..], passwd.ops.getName)
      decreases |passwd.nodes| - m
    {
      NamesStep(passwd.items, m, passwd.ops.getName);
      todo := Names(passwd.items[m + 1..], passwd.ops.getName);
      if p.rec.Some? {
        names := names + [passwd.ops.getName(p.rec.value)];
      }
      p := p.next;
      m := m + 1;
    }
  }

  /** The first loop: pulls the match of each name, in the order of the names. */
  method PullMatched<T>(shadow: Database<T>, names: seq<string>, ghost all: set<Entry<T>>)
      returns (head: Entry?<T>, ghost stack: seq<Entry<T>>, ghost vals: seq<Item<T>>)
    requires shadow.Valid() && forall i :: 0 <= i < |shadow.nodes| ==> shadow.nodes[i] in all
    modifies shadow`head, shadow`tail, shadow`cursor, shadow`changed, shadow`nodes, shadow`items, all`prev, all`next
    ensures shadow.Valid() && Stack(head, stack, vals)
    ensures forall i :: 0 <= i < |stack| ==> stack[i] in all && stack[i] !in shadow.nodes
    ensures forall i :: 0 <= i < |shadow.nodes| ==> shadow.nodes[i] in all
    ensures Reversed(vals) == Picked(old(shadow.items), names, shadow.ops.getName)
    ensures shadow.items == Unpicked(old(shadow.items), names, shadow.ops.getName)
  {
    head, stack, vals := null, [], [];
    var m := 0;
    ghost var rest := names;
    ghost var picked, unpicked := Picked(shadow.items, names, shadow.ops.getName),
                                  Unpicked(shadow.items, names, shadow.ops.getName);
    assert [] + picked == picked;
    while m < |names|
      invariant 0 <= m <= |names| && rest == names[m..]
      invariant shadow.Valid() && Stack(head, stack, vals)
      invariant forall i :: 0 <= i < |stack| ==> stack[i] in all && stack[i] !in shadow.nodes
      invariant forall i :: 0 <= i < |shadow.nodes| ==> shadow.nodes[i] in all
      invariant picked == Reversed(vals) + Picked(shadow.items, rest, shadow.ops.getName)
      invariant unpicked == Unpicked(shadow.items, rest, shadow.ops.getName)
    {
      head, stack, vals := PullNext(shadow, names[m], head, stack, vals, rest, all);
      rest := rest[1..];
      m := m + 1;
    }
  }

  /** One turn of that loop, for the name at the front of `rest`. */
  method PullNext<T>(shadow: Database<T>, name: string, top: Entry?<T>, ghost stack: seq<Entry<T>>,
                     ghost vals: seq<Item<T>>, ghost rest: seq<string>, ghost all: set<Entry<T>>)
      returns (newTop: Entry?<T>, ghost newStack: seq<Entry<T>>, ghost newVals: seq<Item<T>>)
    requires shadow.Valid() && Stack(top, stack, vals) && rest != [] && name == rest[0]
    requires forall i :: 0 <= i < |stack| ==> stack[i] in all && stack[i] !in shadow.nodes
    requires forall i :: 0 <= i < |shadow.nodes| ==> shadow.nodes[i] in all
    modifies shadow`head, shadow`tail, shadow`cursor, shadow`changed, shadow`nodes, shadow`items, all`prev, all`next
    ensures shadow.Valid() && Stack(newTop, newStack, newVals)
    ensures forall i :: 0 <= i < |newStack| ==> newStack[i] in all && newStack[i] !in shadow.nodes
    ensures forall i :: 0 <= i < |shadow.nodes| ==> shadow.nodes[i] in all
    ensures Reversed(vals) + Picked(old(shadow.items), rest, shadow.ops.getName)
         == Reversed(newVals) + Picked(shadow.items, rest[1..], shadow.ops.getName)
    ensures Unpicked(old(shadow.items), rest, shadow.ops.getName)
              == Unpicked(shadow.items, rest[1..], shadow.ops.getName)
  {
    newTop, newStack, newVals := Pull(shadow, name, top, stack, vals);
    PickedStep(old(shadow.items), rest, shadow.ops.getName, shadow.items, vals, newVals);
  }

  /** One name of the loop: the pulled entry moves from `s` to the stacked values. */
  lemma {:induction false} PickedStep<T>(s: seq<Item<T>>, names: seq<string>, getName: T -> string,
                      t: seq<Item<T>>, vals: seq<Item<T>>, newVals: seq<Item<T>>)
    requires names != []
    requires var k := FirstNamed(s, 0, names[0], getName);
             if k == |s| then t == s && newVals == vals
             else t == Without(s, k) && newVals == [s[k]] + vals
    ensures Reversed(vals) + Picked(s, names, getName) == Reversed(newVals) + Picked(t, names[1..], getName)
    ensures Unpicked(s, names, getName) == Unpicked(t, names[1..], getName)
  {
    var k := FirstNamed(s, 0, names[0], getName);
    if k < |s| {
      ReversedMove(newVals, Picked(t, names[1..], getName));
      assert newVals[1..] == vals;
    }
  }

  lemma {:induction false} NamesStep<P>(s: seq<Item<P>>, m: nat, getName: P -> string)
    requires m < |s|
    ensures Names(s[m..], getName)
         == (if s[m].rec.Some? then [getName(s[m].rec.value)] else []) + Names(s[m + 1..], getName)
  {
    assert s[m..][1..] == s[m + 1..];
  }
}
