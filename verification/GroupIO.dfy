/**
 The member arrays and the two hooks of lib/groupio.c. A group record points to a
 NULL-terminated array of member names, here an array of optional strings; the
 hooks edit those arrays and relink the list in place.
 */
module GroupIO {
  import opened Words
  import opened Wrappers
  import opened CommonIO
  import opened GroupSplit

  type Members = array<Option<string>>

  datatype Group = Group(name: string, passwd: string, gid: id_t, mem: Members)

  // ----- member arrays -----

  /** The names in front of the first NULL are `ms`. */
  ghost predicate Holds(mem: Members, ms: seq<string>)
    reads mem
  {
    && |ms| < mem.Length
    && (forall i :: 0 <= i < |ms| ==> mem[i] == Some(ms[i]))
    && mem[|ms|] == None
  }

  method Count(mem: Members, ghost ms: seq<string>) returns (n: nat)
    requires Holds(mem, ms)
    ensures n == |ms|
  {
    n := 0;
    while mem[n].Some?
      invariant n <= |ms|
      decreases |ms| - n
    {
      n := n + 1;
    }
  }

  method Contains(mem: Members, name: string, ghost ms: seq<string>) returns (found: bool)
    requires Holds(mem, ms)
    ensures found == (name in ms)
  {
    var p := 0;
    while mem[p].Some?
      invariant p <= |ms| && name !in ms[..p]
      decreases |ms| - p
    {
      if mem[p].value == name {
        return true;
      }
      p := p + 1;
    }
    assert ms[..p] == ms;
    return false;
  }

  /** The members of the copy that `group_dup` makes. */
  method Dup(mem: Members, ghost ms: seq<string>) returns (r: Members)
    requires Holds(mem, ms)
    ensures fresh(r) && Holds(r, ms)
  {
    var n := Count(mem, ms);
    r := new Option<string>[n + 1](_ => None);
    var i := 0;
    while mem[i].Some?
      invariant 0 <= i <= |ms|
      invariant forall j :: 0 <= j < i ==> r[j] == mem[j]
      invariant r[|ms|] == None
      decreases |ms| - i
    {
      r[i] := mem[i];
      i := i + 1;
    }
    r[i] := None;
  }

  /** Clears every member from position `max` on. */
  method Truncate(mem: Members, max: nat, ghost ms: seq<string>)
    requires Holds(mem, ms) && max <= |ms|
    modifies mem
    ensures Holds(mem, ms[..max])
  {
    var i := max;
    while mem[i].Some?
      invariant max <= i <= |ms|
      invariant forall j :: 0 <= j < max ==> mem[j] == Some(ms[j])
      invariant forall j :: max <= j < i ==> mem[j] == None
      invariant forall j :: i <= j <= |ms| ==> mem[j] == old(mem[j])
      decreases |ms| - i
    {
      mem[i] := None;
      i := i + 1;
    }
  }

  /** Moves the members from position `max` on to the front and clears the rest. */
  method Shift(mem: Members, max: nat, ghost ms: seq<string>)
    requires Holds(mem, ms) && 1 <= max < |ms|
    modifies mem
    ensures Holds(mem, ms[max..])
  {
    var i := 0;
    while mem[i + max].Some?
      invariant 0 <= i <= |ms| - max
      invariant forall j :: 0 <= j < i ==> mem[j] == Some(ms[max..][j])
      invariant forall j :: i <= j < max ==> mem[j].Some?
      invariant forall j :: i <= j < i + max && max <= j ==> mem[j] == None
      invariant forall j :: i + max <= j <= |ms| ==> mem[j] == old(mem[j])
      decreases |ms| - i
    {
      mem[i] := mem[i + max];
      mem[i + max] := None;
      i := i + 1;
    }
    while mem[i].Some?
      invariant |ms| - max <= i <= |ms|
      invariant forall j :: 0 <= j < |ms| - max ==> mem[j] == Some(ms[max..][j])
      invariant i > |ms| - max ==> mem[|ms| - max] == None
      invariant mem[|ms|] == None
      decreases |ms| - i
    {
      mem[i] := None;
      i := i + 1;
    }
  }

  /** How many of `b`, repeats included, are not in `a`. */
  function CountNew(a: seq<string>, b: seq<string>): nat {
    if b == [] then 0 else (if b[0] in a then 0 else 1) + CountNew(a, b[1..])
  }

  lemma {:induction false} CountNewTail(a: seq<string>, b: seq<string>, i: nat)
    requires i < |b|
    ensures CountNew(a, b[i..]) == (if b[i] in a then 0 else 1) + CountNew(a, b[i + 1..])
  {
    assert b[i..][1..] == b[i + 1..];
  }

  /** The number of array cells `merge_group_entries` needs. */
  method CountUnion(m1: Members, m2: Members, ghost a: seq<string>, ghost b: seq<string>) returns (members: nat)
    requires Holds(m1, a) && Holds(m2, b)
    ensures members == |a| + CountNew(a, b)
  {
    members := Count(m1, a);
    var i := 0;
    assert b[0..] == b;
    while m2[i].Some?
      invariant 0 <= i <= |b|
      invariant members + CountNew(a, b[i..]) == |a| + CountNew(a, b)
      decreases |b| - i
    {
      CountNewTail(a, b, i);
      var found := Contains(m1, m2[i].value, a);
      if !found {
        members := members + 1;
      }
      i := i + 1;
    }
  }

  lemma {:induction false} UnionTail(c: seq<string>, b: seq<string>, i: nat)
    requires i < |b|
    ensures Union(c, b[i..]) == Union(if b[i] in c then c else c + [b[i]], b[i + 1..])
  {
    assert b[i..][1..] == b[i + 1..];
  }

  /** The merged member list, in an array that is just large enough. */
  method MergeMembers(m1: Members, m2: Members, ghost a: seq<string>, ghost b: seq<string>) returns (r: Members)
    requires Holds(m1, a) && Holds(m2, b)
    ensures fresh(r) && Holds(r, Union(a, b))
  {
    var members := CountUnion(m1, m2, a, b);
    r := new Option<string>[members + 1](_ => None);
    var i := 0;
    while m1[i].Some?
      invariant 0 <= i <= |a|
      invariant forall j :: 0 <= j < i ==> r[j] == m1[j]
      invariant forall j :: i <= j < r.Length ==> r[j] == None
      decreases |a| - i
    {
      r[i] := m1[i];
      i := i + 1;
    }
    AddMissing(r, i, m2, a, b);
  }

  /** The second loop: appends to `r` the members of `m2` it does not hold. */
  method AddMissing(r: Members, from: nat, m2: Members, ghost a: seq<string>, ghost b: seq<string>)
    requires r != m2 && Holds(r, a) && Holds(m2, b)
    requires from == |a| && r.Length == |a| + CountNew(a, b) + 1
    modifies r
    ensures Holds(r, Union(a, b))
  {
    var members := from;
    var i := 0;
    ghost var c := a;
    assert b[0..] == b;
    while m2[i].Some?
      invariant 0 <= i <= |b| && members == |c|
      invariant Holds(r, c) && |c| + CountNew(a, b[i..]) < r.Length
      invariant forall x :: x in a ==> x in c
      invariant Union(c, b[i..]) == Union(a, b)
      decreases |b| - i
    {
      CountNewTail(a, b, i);
      UnionTail(c, b, i);
      var found := Contains(r, m2[i].value, c);
      if !found {
        r[members] := m2[i];
        members := members + 1;
        r[members] := None;
        c := c + [b[i]];
      }
      i := i + 1;
    }
  }

  // ----- the list of groups -----

  ghost function Arrays(s: seq<Item<Group>>): set<Members> {
    set i | 0 <= i < |s| && s[i].rec.Some? :: s[i].rec.value.mem
  }

  /** The value that an entry and its member array stand for. */
  ghost predicate Shows(it: Item<Group>, v: GroupItem)
    reads if it.rec.Some? then {it.rec.value.mem} else {}
  {
    && it.line == v.line && it.changed == v.changed
    && (it.rec.Some? <==> v.rec.Some?)
    && (it.rec.Some? ==>
          && it.rec.value.name == v.rec.value.name
          && it.rec.value.passwd == v.rec.value.passwd
          && it.rec.value.gid == v.rec.value.gid
          && Holds(it.rec.value.mem, v.rec.value.members))
  }

  ghost predicate Views(s: seq<Item<Group>>, vs: seq<GroupItem>)
    reads Arrays(s)
  {
    |s| == |vs| && forall i :: 0 <= i < |s| ==> Shows(s[i], vs[i])
  }

  /** No two entries share a member array. */
  ghost predicate Separate(s: seq<Item<Group>>) {
    forall i, j :: 0 <= i < j < |s| && s[i].rec.Some? && s[j].rec.Some? ==> s[i].rec.value.mem != s[j].rec.value.mem
  }

  // ----- split_groups -----

  /** Links `p` behind `q`, leaving `prev` of the next entry and `tail` alone. */
  method LinkAfter(db: Database<Group>, p: Entry<Group>, q: Entry<Group>, ghost n: nat)
    requires db.Forward() && p !in db.nodes && n < |db.nodes| && q == db.nodes[n]
    modifies db`nodes, q`next, p`prev, p`next
    ensures db.Forward() && db.nodes == Inserted(old(db.nodes), n + 1, p)
  {
    p.prev := q;
    p.next := q.next;
    q.next := p;
    db.nodes := Inserted(db.nodes, n + 1, p);
  }

  /** The array part of one turn of `split_groups`. */
  method CutMembers(g: Group, max: nat, ghost ms: seq<string>) returns (tail: Group)
    requires Holds(g.mem, ms) && 1 <= max < |ms|
    modifies g.mem
    ensures Holds(g.mem, ms[..max])
    ensures fresh(tail.mem) && Holds(tail.mem, ms[max..]) && tail == g.(mem := tail.mem)
  {
    var copy := Dup(g.mem, ms);
    tail := g.(mem := copy);
    Truncate(g.mem, max, ms);
    Shift(copy, max, ms);
  }

  lemma {:induction false} ViewsInserted(s: seq<Item<Group>>, vs: seq<GroupItem>, n: nat, it: Item<Group>, v: GroupItem)
    requires Views(s, vs) && Separate(s) && n <= |s| && Shows(it, v)
    requires it.rec.Some? ==> it.rec.value.mem !in Arrays(s)
    ensures Views(Inserted(s, n, it), Inserted(vs, n, v)) && Separate(Inserted(s, n, it))
  {
  }

  lemma {:induction false} ArraysInserted(s: seq<Item<Group>>, n: nat, it: Item<Group>)
    requires n <= |s| && it.rec.Some?
    ensures Arrays(Inserted(s, n, it)) <= Arrays(s) + {it.rec.value.mem}
  {
  }

  /** Cuts the members of the group at position `n`; the others are as before. */
  method CutEntry(ghost s: seq<Item<Group>>, g: Group, max: nat, ghost n: nat, ghost vs: seq<GroupItem>)
      returns (tail: Group)
    requires Views(s, vs) && Separate(s) && n < |s| && s[n].rec == Some(g)
    requires 1 <= max && MustSplit(vs[n], max)
    modifies g.mem
    ensures Views(s, vs[n := Kept(vs[n], max)])
    ensures fresh(tail.mem) && Shows(Item(None, Some(tail), true), Overflow(vs[n], max))
  {
    tail := CutMembers(g, max, vs[n].rec.value.members);
  }

  /** A new entry behind the one at position `n`. */
  method InsertBehind(db: Database<Group>, q: Entry<Group>, g: Group, ghost n: nat)
    requires db.Forward() && Filled(db.nodes, db.items) && n < |db.nodes| && q == db.nodes[n]
    modifies db`nodes, db`items, q`next
    ensures db.Forward() && Filled(db.nodes, db.items)
    ensures db.items == Inserted(old(db.items), n + 1, Item(None, Some(g), true))
    ensures |db.nodes| == |old(db.nodes)| + 1 && fresh(db.nodes[n + 1])
    ensures db.nodes == Inserted(old(db.nodes), n + 1, db.nodes[n + 1])
  {
    var e := new Entry<Group>(None, Some(g), true);
    LinkAfter(db, e, q, n);
    FilledInserted(old(db.nodes), db.items, n + 1, e);
    db.items := Inserted(db.items, n + 1, Item(None, Some(g), true));
  }

  /** The turn of `split_groups` that cuts the entry at position `n`. */
  method SplitTurn(db: Database<Group>, gr: Entry<Group>, g: Group, max: nat, ghost n: nat, ghost vs: seq<GroupItem>)
    requires db.Forward() && Filled(db.nodes, db.items) && Views(db.items, vs) && Separate(db.items)
    requires n < |db.nodes| && gr == db.nodes[n] && gr.rec == Some(g)
    requires 1 <= max && MustSplit(vs[n], max)
    modifies db`nodes, db`items, gr`next, g.mem
    ensures db.Forward() && Filled(db.nodes, db.items) && Separate(db.items)
    ensures Views(db.items, Inserted(vs[n := Kept(vs[n], max)], n + 1, Overflow(vs[n], max)))
    ensures |db.nodes| == |old(db.nodes)| + 1 && fresh(db.nodes[n + 1])
    ensures db.nodes == Inserted(old(db.nodes), n + 1, db.nodes[n + 1])
    ensures forall a :: a in Arrays(db.items) ==> a in old(Arrays(db.items)) || fresh(a)
  {
    assert db.items[n].rec == Some(g);
    ghost var s := db.items;
    var tail := CutEntry(s, g, max, n, vs);
    ViewsInserted(s, vs[n := Kept(vs[n], max)], n + 1, Item(None, Some(tail), true), Overflow(vs[n], max));
    ArraysInserted(s, n + 1, Item(None, Some(tail), true));
    InsertBehind(db, gr, tail, n);
  }

  /** What is left to visit from position `n` on; splitting an entry makes it less. */
  ghost function Load(vs: seq<GroupItem>, n: nat): nat
    decreases |vs| - n
  {
    if n >= |vs| then 0 else Size(vs[n]) + 1 + Load(vs, n + 1)
  }

  lemma {:induction false} LoadShifted(vs: seq<GroupItem>, ws: seq<GroupItem>, n: nat)
    requires n <= |vs| && |ws| == |vs| + 1 && ws[n + 1..] == vs[n..]
    ensures Load(ws, n + 1) == Load(vs, n)
    decreases |vs| - n
  {
    if n < |vs| {
      assert ws[n + 1] == ws[n + 1..][0] == vs[n..][0] == vs[n];
      assert ws[n + 2..] == ws[n + 1..][1..] == vs[n..][1..] == vs[n + 1..];
      LoadShifted(vs, ws, n + 1);
    }
  }

  /** The list after the entry at `n` was cut. */
  ghost function Cut(vs: seq<GroupItem>, n: nat, max: nat): seq<GroupItem>
    requires n < |vs| && MustSplit(vs[n], max)
  {
    Inserted(vs[n := Kept(vs[n], max)], n + 1, Overflow(vs[n], max))
  }

  ghost function Result(vs: seq<GroupItem>, n: nat, max: nat): seq<GroupItem>
    requires max >= 1 && n <= |vs|
  {
    vs[..n] + SplitAll(vs[n..], max)
  }

  /** Around the cut the list is what it was. */
  lemma {:induction false} CutParts(vs: seq<GroupItem>, n: nat, max: nat)
    requires n < |vs| && MustSplit(vs[n], max)
    ensures |Cut(vs, n, max)| == |vs| + 1
    ensures Cut(vs, n, max)[..n + 1] == vs[..n] + [Kept(vs[n], max)]
    ensures Cut(vs, n, max)[n + 1..] == [Overflow(vs[n], max)] + vs[n + 1..]
  {
  }

  lemma {:induction false} Regroup<T>(a: seq<T>, x: T, p: seq<T>, q: seq<T>)
    ensures (a + [x]) + (p + q) == a + (([x] + p) + q)
  {
  }

  lemma {:induction false} SplitAllFirst(v: GroupItem, rest: seq<GroupItem>, max: nat)
    requires max >= 1
    ensures SplitAll([v] + rest, max) == Pieces(v, max) + SplitAll(rest, max)
  {
    assert ([v] + rest)[1..] == rest;
  }

  lemma {:induction false} CutResult(vs: seq<GroupItem>, n: nat, max: nat)
    requires max >= 1 && n < |vs| && MustSplit(vs[n], max)
    ensures n + 1 <= |Cut(vs, n, max)|
    ensures Result(Cut(vs, n, max), n + 1, max) == Result(vs, n, max)
  {
    var k, o, rest := Kept(vs[n], max), Overflow(vs[n], max), vs[n + 1..];
    CutParts(vs, n, max);
    assert vs[n..] == [vs[n]] + rest;
    SplitAllFirst(vs[n], rest, max);
    SplitAllFirst(o, rest, max);
    Regroup(vs[..n], k, Pieces(o, max), SplitAll(rest, max));
  }

  lemma {:induction false} CutLoad(vs: seq<GroupItem>, n: nat, max: nat)
    requires max >= 1 && n < |vs| && MustSplit(vs[n], max)
    ensures Load(Cut(vs, n, max), n + 1) < Load(vs, n)
  {
    var ws := Cut(vs, n, max);
    CutParts(vs, n, max);
    assert ws[n + 1] == Overflow(vs[n], max);
    assert ws[n + 2..] == ws[n + 1..][1..] == vs[n + 1..];
    LoadShifted(vs, ws, n + 1);
  }

  lemma {:induction false} CutProgress(vs: seq<GroupItem>, n: nat, max: nat)
    requires max >= 1 && n < |vs| && MustSplit(vs[n], max)
    ensures n + 1 <= |Cut(vs, n, max)| && Result(Cut(vs, n, max), n + 1, max) == Result(vs, n, max)
    ensures Load(Cut(vs, n, max), n + 1) < Load(vs, n)
  {
    CutResult(vs, n, max);
    CutLoad(vs, n, max);
  }

  lemma {:induction false} SkipProgress(vs: seq<GroupItem>, n: nat, max: nat)
    requires max >= 1 && n < |vs| && !MustSplit(vs[n], max)
    ensures Result(vs, n + 1, max) == Result(vs, n, max) && Load(vs, n + 1) < Load(vs, n)
  {
    assert vs[n..] == [vs[n]] + vs[n + 1..] && vs[n..][1..] == vs[n + 1..];
    assert Pieces(vs[n], max) == [vs[n]];
    assert vs[..n + 1] + SplitAll(vs[n + 1..], max) == vs[..n] + ([vs[n]] + SplitAll(vs[n + 1..], max));
  }

  method SplitGroups(db: Database<Group>, max: nat, ghost vs: seq<GroupItem>)
    requires db.Forward() && Filled(db.nodes, db.items) && Views(db.items, vs) && Separate(db.items)
    requires max >= 1
    modifies db`nodes, db`items, db.nodes`next, Arrays(db.items)
    ensures db.Forward() && Filled(db.nodes, db.items) && Separate(db.items)
    ensures Views(db.items, SplitAll(vs, max))
  {
    ghost var n, ws := 0, vs;
    ghost var nodes0, arrays0 := db.nodes, Arrays(db.items);
    assert vs[..0] == [] && vs[0..] == vs;
    var gr := db.head;
    while gr != null
      invariant db.Forward() && Filled(db.nodes, db.items) && Separate(db.items)
      invariant n <= |db.nodes| && gr == At(db.nodes, n)
      invariant Views(db.items, ws) && Result(ws, n, max) == SplitAll(vs, max)
      invariant forall e :: e in db.nodes ==> e in nodes0 || fresh(e)
      invariant forall a :: a in Arrays(db.items) ==> a in arrays0 || fresh(a)
      decreases Load(ws, n)
    {
      assert db.items[n].rec == gr.rec && gr in db.nodes;
      assert gr.rec.Some? ==> gr.rec.value.mem in Arrays(db.items);
      n, ws := SplitOrSkip(db, gr, max, n, ws);
      gr := gr.next;
    }
    assert ws[..n] == ws && ws[n..] == [];
  }

  /** One turn of the loop, the pointer standing at position `n`. */
  method SplitOrSkip(db: Database<Group>, gr: Entry<Group>, max: nat, ghost n: nat, ghost vs: seq<GroupItem>)
      returns (ghost m: nat, ghost ws: seq<GroupItem>)
    requires db.Forward() && Filled(db.nodes, db.items) && Views(db.items, vs) && Separate(db.items)
    requires max >= 1 && n < |db.nodes| && gr == db.nodes[n]
    modifies db`nodes, db`items, gr`next, if gr.rec.Some? then {gr.rec.value.mem} else {}
    ensures db.Forward() && Filled(db.nodes, db.items) && Separate(db.items) && Views(db.items, ws)
    ensures m == n + 1 <= |db.nodes| && gr == db.nodes[n]
    ensures Result(ws, m, max) == Result(vs, n, max) && Load(ws, m) < Load(vs, n)
    ensures forall e :: e in db.nodes ==> e in old(db.nodes) || fresh(e)
    ensures forall a :: a in Arrays(db.items) ==> a in old(Arrays(db.items)) || fresh(a)
  {
    assert db.items[n].rec == gr.rec && db.items[n].changed == gr.changed && Shows(db.items[n], vs[n]);
    m, ws := n + 1, vs;
    if gr.changed && gr.rec.Some? {
      var members := Count(gr.rec.value.mem, vs[n].rec.value.members);
      if members > max {
        SplitTurn(db, gr, gr.rec.value, max, n, vs);
        CutProgress(vs, n, max);
        ws := Cut(vs, n, max);
        return;
      }
    }
    SkipProgress(vs, n, max);
  }

  /** `group_close_hook`: a limit of 0 means no limit. */
  method CloseHook(db: Database<Group>, maxMembers: nat, ghost vs: seq<GroupItem>)
    requires db.Forward() && Filled(db.nodes, db.items) && Views(db.items, vs) && Separate(db.items)
    modifies db`nodes, db`items, db.nodes`next, Arrays(db.items)
    ensures db.Forward() && Filled(db.nodes, db.items) && Separate(db.items)
    ensures Views(db.items, if maxMembers == 0 then vs else SplitAll(vs, maxMembers))
  {
    if maxMembers != 0 {
      SplitGroups(db, maxMembers, vs);
    }
  }
}
