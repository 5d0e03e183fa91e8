/**
 `group_open_hook` of lib/groupio.c: merges the entries of a split group after the
 file was read, unlinking the absorbed ones. The hook keeps the list well formed
 except for `tail`, which it never moves.
 */
module GroupOpen {
  import opened Wrappers
  import opened CommonIO
  import opened GroupSplit
  import opened GroupIO

  /** Unlinks the entry at position `n > 0` and leaves `tail` alone. */
  method UnlinkKeepingTail(db: Database<Group>, p: Entry<Group>, ghost n: nat)
    requires db.Forward() && db.BackLinked() && 0 < n < |db.nodes| && p == db.nodes[n]
    requires Filled(db.nodes, db.items)
    modifies db`nodes, db`items, db.nodes`next, db.nodes`prev
    ensures db.Forward() && db.BackLinked() && db.nodes == Without(old(db.nodes), n)
    ensures Filled(db.nodes, db.items) && db.items == Without(old(db.items), n)
    ensures p.next == At(db.nodes, n)
  {
    Unlink(db, p, n);
    FilledWithout(old(db.nodes), db.items, n);
    db.items := Without(db.items, n);
  }

  method Unlink(db: Database<Group>, p: Entry<Group>, ghost n: nat)
    requires db.Forward() && db.BackLinked() && 0 < n < |db.nodes| && p == db.nodes[n]
    modifies db`nodes, db.nodes`next, db.nodes`prev
    ensures db.Forward() && db.BackLinked() && db.nodes == Without(old(db.nodes), n)
    ensures p.next == At(db.nodes, n)
  {
    if p.next != null {
      p.next.prev := p.prev;
    }
    p.prev.next := p.next;
    db.nodes := Without(db.nodes, n);
  }

  /** `merge_group_entries`: entry `k` gets the lines and members of both. */
  method MergeEntries(db: Database<Group>, gr1: Entry<Group>, gr2: Entry<Group>, ghost k: nat, ghost n: nat,
                      ghost vs: seq<GroupItem>)
    requires db.Forward() && Filled(db.nodes, db.items) && Views(db.items, vs) && Separate(db.items)
    requires k < n < |db.nodes| && gr1 == db.nodes[k] && gr2 == db.nodes[n] && SameKey(vs[k], vs[n])
    requires vs[k].line.Some? && vs[n].line.Some?
    modifies db`items, gr1`line, gr1`rec
    ensures Filled(db.nodes, db.items) && Separate(db.items) && Views(db.items, vs[k := Merged(vs[k], vs[n])])
  {
    assert db.items[k].rec == gr1.rec && db.items[n].rec == gr2.rec;
    assert Shows(db.items[k], vs[k]) && Shows(db.items[n], vs[n]);
    var mem := MergeMembers(gr1.rec.value.mem, gr2.rec.value.mem, vs[k].rec.value.members, vs[n].rec.value.members);
    gr1.line := Some(gr1.line.value + "\n" + gr2.line.value);
    gr1.rec := Some(gr1.rec.value.(mem := mem));
    db.items := db.items[k := Item(gr1.line, gr1.rec, gr1.changed)];
  }

  lemma {:induction false} ViewsWithout(s: seq<Item<Group>>, vs: seq<GroupItem>, n: nat)
    requires Views(s, vs) && Separate(s) && n < |s|
    ensures Views(Without(s, n), Without(vs, n)) && Separate(Without(s, n))
  {
  }

  method MergeTurn(db: Database<Group>, gr1: Entry<Group>, gr2: Entry<Group>, ghost k: nat, ghost n: nat,
                   ghost vs: seq<GroupItem>)
    requires db.Forward() && db.BackLinked() && Filled(db.nodes, db.items) && Views(db.items, vs) && Separate(db.items)
    requires k < n < |db.nodes| && gr1 == db.nodes[k] && gr2 == db.nodes[n] && SameKey(vs[k], vs[n])
    requires vs[k].line.Some? && vs[n].line.Some?
    modifies db`nodes, db`items, db.nodes`next, db.nodes`prev, gr1`line, gr1`rec
    ensures db.Forward() && db.BackLinked() && Filled(db.nodes, db.items) && Separate(db.items)
    ensures Views(db.items, Joined(vs, k, n)) && db.nodes == Without(old(db.nodes), n) && gr2.next == At(db.nodes, n)
  {
    MergeEntries(db, gr1, gr2, k, n, vs);
    ViewsWithout(db.items, vs[k := Merged(vs[k], vs[n])], n);
    UnlinkKeepingTail(db, gr2, n);
  }

  // ----- what becomes of `tail` -----

  /** The last entry is not absorbed by an earlier one of its group. */
  predicate LastStays(vs: seq<GroupItem>) {
    forall i :: 0 <= i < |vs| - 1 ==> !SameKey(vs[i], vs[|vs| - 1])
  }

  /** `tail` is right as long as the last entry is still on the list. */
  ghost predicate TailFollows(db: Database<Group>, ws: seq<GroupItem>, vs: seq<GroupItem>)
    reads db`tail, db`nodes
  {
    if db.TailSet() then LastStays(ws) == LastStays(vs)
    else db.tail != null && db.tail !in db.nodes && !LastStays(vs)
  }

  lemma {:induction false} JoinedLast(vs: seq<GroupItem>, k: nat, n: nat)
    requires k < n < |vs| && SameKey(vs[k], vs[n])
    ensures n == |vs| - 1 ==> !LastStays(vs)
    ensures n < |vs| - 1 ==> LastStays(Joined(vs, k, n)) == LastStays(vs)
  {
    var ws, l := Joined(vs, k, n), vs[|vs| - 1];
    if n < |vs| - 1 {
      assert ws[k] == Merged(vs[k], vs[n]) && ws[|ws| - 1] == l;
      if LastStays(vs) {
        forall i | 0 <= i < |ws| - 1
          ensures !SameKey(ws[i], l)
        {
          assert !SameKey(vs[if i < n then i else i + 1], l) && !SameKey(vs[k], l);
        }
      } else {
        var i :| 0 <= i < |vs| - 1 && SameKey(vs[i], l);
        assert SameKey(ws[if i < n then i else if i == n then k else i - 1], l);
      }
    }
  }

  lemma {:induction false} TailAfterTurn(db: Database<Group>, before: seq<Entry<Group>>, k: nat, n: nat,
                                         ws: seq<GroupItem>, vs: seq<GroupItem>)
    requires k < n < |before| && |before| == |ws| && SameKey(ws[k], ws[n])
    requires Distinct(before) && db.nodes == Without(before, n)
    requires if db.tail == At(before, |before| - 1) then LastStays(ws) == LastStays(vs)
             else db.tail != null && db.tail !in before && !LastStays(vs)
    ensures TailFollows(db, Joined(ws, k, n), vs)
  {
    JoinedLast(ws, k, n);
  }

  // ----- the loops -----

  ghost predicate AllLines(vs: seq<GroupItem>) {
    forall i :: 0 <= i < |vs| ==> vs[i].line.Some?
  }

  /** The state of the list between two turns. */
  ghost predicate Consistent(db: Database<Group>, ws: seq<GroupItem>, vs: seq<GroupItem>)
    reads db`head, db`tail, db`nodes, db`items, db.nodes, Arrays(db.items)
  {
    && db.Forward() && db.BackLinked() && Filled(db.nodes, db.items)
    && Views(db.items, ws) && Separate(db.items) && AllLines(ws) && TailFollows(db, ws, vs)
  }

  ghost predicate Within(ns: seq<Entry<Group>>, all: set<Entry<Group>>) {
    forall i :: 0 <= i < |ns| ==> ns[i] in all
  }

  /** One turn of the inner loop. */
  method AbsorbOrSkip(db: Database<Group>, gr1: Entry<Group>, gr2: Entry<Group>, ghost k: nat, ghost n: nat,
                      ghost ws: seq<GroupItem>, ghost vs: seq<GroupItem>, ghost all: set<Entry<Group>>)
      returns (ghost m: nat, ghost us: seq<GroupItem>)
    requires Consistent(db, ws, vs)
    requires k < n < |db.nodes| && gr1 == db.nodes[k] && gr2 == db.nodes[n] && Within(db.nodes, all)
    modifies db`nodes, db`items, all`next, all`prev, all`line, all`rec
    ensures Consistent(db, us, vs)
    ensures k < m <= |us| && |us| - m < |ws| - n && db.nodes[k] == gr1 && gr2.next == At(db.nodes, m)
    ensures Absorb(us, k, m) == Absorb(ws, k, n)
    ensures Within(db.nodes, all)
  {
    assert db.items[k].rec == gr1.rec && db.items[n].rec == gr2.rec;
    assert Shows(db.items[k], ws[k]) && Shows(db.items[n], ws[n]);
    if gr1.rec.Some? && gr2.rec.Some? && gr1.rec.value.name == gr2.rec.value.name
       && gr1.rec.value.passwd == gr2.rec.value.passwd && gr1.rec.value.gid == gr2.rec.value.gid
    {
      MergeTurn(db, gr1, gr2, k, n, ws);
      TailAfterTurn(db, old(db.nodes), k, n, ws, vs);
      m, us := n, Joined(ws, k, n);
    } else {
      m, us := n + 1, ws;
    }
  }

  /** The inner loop. */
  method AbsorbLater(db: Database<Group>, gr1: Entry<Group>, ghost k: nat, ghost ws: seq<GroupItem>,
                     ghost vs: seq<GroupItem>, ghost all: set<Entry<Group>>)
      returns (ghost us: seq<GroupItem>)
    requires Consistent(db, ws, vs) && k < |db.nodes| && gr1 == db.nodes[k] && Within(db.nodes, all)
    modifies db`nodes, db`items, all`next, all`prev, all`line, all`rec
    ensures Consistent(db, us, vs) && k < |db.nodes| && gr1 == db.nodes[k]
    ensures us == Absorb(ws, k, k + 1)
    ensures Within(db.nodes, all)
  {
    ghost var n := k + 1;
    us := ws;
    var gr2 := gr1.next;
    while gr2 != null
      invariant Consistent(db, us, vs)
      invariant k < n <= |db.nodes| && gr1 == db.nodes[k] && gr2 == At(db.nodes, n)
      invariant Absorb(us, k, n) == Absorb(ws, k, k + 1)
      invariant Within(db.nodes, all)
      decreases |us| - n
    {
      n, us := AbsorbOrSkip(db, gr1, gr2, k, n, us, vs, all);
      gr2 := gr2.next;
    }
  }

  lemma {:induction false} MergeLeavesSome(ws: seq<GroupItem>, k: nat)
    ensures ws != [] ==> MergeFrom(ws, k) != []
    decreases |ws| - k
  {
    if k < |ws| {
      MergeLeavesSome(Absorb(ws, k, k + 1), k + 1);
    }
  }

  lemma {:induction false} CleanLast(ws: seq<GroupItem>)
    requires Clean(ws, |ws|)
    ensures LastStays(ws)
  {
    forall i | 0 <= i < |ws| - 1
      ensures !SameKey(ws[i], ws[|ws| - 1])
    {
      assert NoneOf(ws[i], ws, i + 1);
    }
  }

  /** The outer loop. */
  method MergeGroups(db: Database<Group>, ghost vs: seq<GroupItem>, ghost all: set<Entry<Group>>)
      returns (ghost ws: seq<GroupItem>)
    requires Consistent(db, vs, vs) && Within(db.nodes, all)
    modifies db`nodes, db`items, all`next, all`prev, all`line, all`rec
    ensures Consistent(db, ws, vs) && ws == MergeAll(vs) && Clean(ws, |ws|)
  {
    ghost var k := 0;
    ws := vs;
    var gr1 := db.head;
    while gr1 != null
      invariant Consistent(db, ws, vs)
      invariant k <= |db.nodes| == |ws| && gr1 == At(db.nodes, k)
      invariant MergeFrom(ws, k) == MergeAll(vs) && Clean(ws, k)
      invariant Within(db.nodes, all)
      decreases |ws| - k
    {
      AbsorbCleans(ws, k, k + 1);
      ws := AbsorbLater(db, gr1, k, ws, vs, all);
      k := k + 1;
      gr1 := gr1.next;
    }
  }

  /**
   The hook. The list then shows the merged groups and is doubly linked; `tail` is
   still its last entry if and only if that entry was not absorbed.
   */
  method OpenHook(db: Database<Group>, maxMembers: nat, ghost vs: seq<GroupItem>)
    requires db.Forward() && db.BackLinked() && db.TailSet() && Filled(db.nodes, db.items)
    requires Views(db.items, vs) && Separate(db.items) && AllLines(vs)
    modifies db`nodes, db`items, db.nodes`next, db.nodes`prev, db.nodes`line, db.nodes`rec
    ensures db.Forward() && db.BackLinked() && Filled(db.nodes, db.items) && Separate(db.items)
    ensures Views(db.items, if maxMembers == 0 then vs else MergeAll(vs))
    ensures db.TailSet() <==> maxMembers == 0 || LastStays(vs)
    ensures !db.TailSet() ==> Detached(db)
  {
    if maxMembers == 0 {
      return;
    }
    ghost var ws := MergeGroups(db, vs, set e | e in db.nodes);
    CleanLast(ws);
    MergeLeavesSome(vs, 0);
  }

  /** A group in two lines, the second one the last: it is absorbed. */
  lemma {:induction false} SplitGroupDetaches()
    ensures var a, b := GroupRec("g", "x", 1, ["a"]), GroupRec("g", "x", 1, ["b"]);
            !LastStays([Item(Some("g:x:1:a"), Some(a), false), Item(Some("g:x:1:b"), Some(b), false)])
  {
    var a, b := GroupRec("g", "x", 1, ["a"]), GroupRec("g", "x", 1, ["b"]);
    var vs := [Item(Some("g:x:1:a"), Some(a), false), Item(Some("g:x:1:b"), Some(b), false)];
    assert SameKey(vs[0], vs[|vs| - 1]);
  }

  // ----- what the next update does to such a list -----

  /** `tail` is an entry that the hook unlinked. */
  ghost predicate Detached(db: Database<Group>)
    reads db`tail, db`nodes
  {
    db.nodes != [] && db.tail != null && db.tail !in db.nodes
  }

  /** `add_one_entry` behind such a tail: the list from `head` is as before. */
  method AddBehindTail(db: Database<Group>, p: Entry<Group>)
    requires db.Forward() && Detached(db) && p !in db.nodes && p != db.tail
    modifies db`tail, db.tail`next, p`prev, p`next
    ensures db.Forward() && Detached(db) && db.tail == p && db.head == old(db.head)
  {
    p.next := null;
    p.prev := db.tail;
    assert db.head != null;
    db.tail.next := p;
    db.tail := p;
  }

  /** No entry has that name, and no NIS entry stands on the list. */
  ghost predicate IsLost<T>(s: seq<Item<T>>, name: string, getName: T -> string) {
    FirstNamed(s, 0, name, getName) == |s| && FirstNis(s, 0, getName) == |s|
  }

  method InsertAfterHook(db: Database<Group>, p: Entry<Group>, q: Entry<Group>, ghost n: nat)
    requires db.Forward() && db.BackLinked() && db.Sound() && Detached(db) && p !in db.nodes && p != db.tail
    requires n < |db.nodes| && q == db.nodes[n] && p.rec.Some?
    modifies db`head, db`nodes, db`items, db.nodes`prev, db.nodes`next, p`prev, p`next
    ensures db.Forward() && db.BackLinked() && db.Sound() && Detached(db)
    ensures db.items == Inserted(old(db.items), n, Item(p.line, p.rec, p.changed))
  {
    ghost var nodes := db.nodes;
    db.LinkBefore(p, q, n);
    FilledInserted(nodes, db.items, n, p);
    db.items := Inserted(db.items, n, Item(p.line, p.rec, p.changed));
  }

  /** The absent branch of `commonio_update` after the hook. */
  method AddNewAfterHook(db: Database<Group>, r: Group)
    requires db.Forward() && db.BackLinked() && db.Sound() && Detached(db)
    modifies db`head, db`tail, db`nodes, db`items, db`changed, db.nodes`prev, db.nodes`next, db.tail`next
    ensures db.Forward() && db.BackLinked() && db.Sound() && Detached(db) && db.changed
    ensures var n := FirstNis(old(db.items), 0, db.ops.getName);
            db.items == if n == |old(db.items)| then old(db.items)
                        else Inserted(old(db.items), n, Item(None, Some(r), true))
  {
    var p := new Entry<Group>(None, Some(r), true);
    var q := db.FindFirstNis();
    if q != null {
      InsertAfterHook(db, p, q, FirstNis(db.items, 0, db.ops.getName));
    } else {
      AddBehindTail(db, p);
    }
    db.changed := true;
  }

  /**
   `commonio_update` after the hook absorbed the last entry. It reports success as it
   does on a well-formed list, but the update is on the list if and only if the name
   was there or an NIS entry stands on the list.
   */
  method UpdateAfterHook(db: Database<Group>, r: Group) returns (ok: bool)
    requires db.Forward() && db.BackLinked() && db.Sound() && Detached(db)
    modifies db`head, db`tail, db`cursor, db`changed, db`nodes, db`items, db.nodes, db.tail`next
    ensures db.Forward() && db.BackLinked() && db.Sound() && Detached(db)
    ensures ok == (db.Writable() && Updated(old(db.items), r, db.ops.getName).Some?)
    ensures ok ==>
              db.changed && db.items == if IsLost(old(db.items), db.ops.getName(r), db.ops.getName) then old(db.items)
                                             else Updated(old(db.items), r, db.ops.getName).value
    ensures ok ==> (db.items == Updated(old(db.items), r, db.ops.getName).value <==>
                     !IsLost(old(db.items), db.ops.getName(r), db.ops.getName))
    ensures !ok ==> unchanged(db)
  {
    if !db.isOpen || db.readOnly {
      return false;
    }
    ghost var k := FirstNamed(db.items, 0, db.ops.getName(r), db.ops.getName);
    var p, repeated := db.FindUnique(db.ops.getName(r));
    if p == null {
      AddNewAfterHook(db, r);
      return true;
    }
    if repeated {
      return false;
    }
    db.Rewrite(p, r, k);
    return true;
  }
}
