/**
 The operations of lib/subordinateio.c on the linked list, each proved against
 the value-level description in SubidList.
 */
module Subordinate {
  import opened Words
  import opened Wrappers
  import opened CommonIO
  import opened Commit
  import opened CommonIOOpen
  import opened CommonIOSort
  import opened Fields
  import opened SubidRanges
  import opened SubidList
  import opened SubidText
  import opened SubidStore

  // ----- remove_range -----

  lemma {:induction false} ListStep(done: seq<Item<Range>>, todo: seq<Item<Range>>, here: seq<Item<Range>>,
                                    appended: seq<Item<Range>>)
    requires todo != []
    ensures var k := |done|;
            (done + todo)[..k] + here + (done + todo)[k + 1..] + appended == (done + here) + (todo[1..] + appended)
  {
  }

  /** The loop body for one entry, `done` behind it and `todo` from it on; fails
      when a tail piece cannot be appended. */
  method CutEntry(db: Database<Range>, ent: Entry<Range>, ghost done: seq<Item<Range>>, ghost todo: seq<Item<Range>>,
                  users: Users, owner: string, start: ulong, end: ulong)
      returns (ok: bool)
    requires db.Valid() && db.items == done + todo && todo != [] && ent == db.nodes[|done|]
    modifies db`head, db`tail, db`cursor, db`changed, db`nodes, db`items, db.nodes
    ensures var c := CutItem(todo[0], users, owner, start, end);
            && ok == (!c.Split? || old(db.Writable()))
            && (ok ==> && db.items == (done + InPlace(todo[0], c)) + (todo[1..] + Appended(c))
                       && ent.next == At(db.nodes, |done + InPlace(todo[0], c)|))
    ensures !db.changed ==> db.items == old(db.items) && !old(db.changed)
    ensures db.Valid() && (!ok ==> unchanged(db))
    ensures forall i :: 0 <= i < |db.nodes| ==> db.nodes[i] in old(db.nodes) || fresh(db.nodes[i])
  {
    ghost var k, it := |done|, todo[0];
    ListStep(done, todo, InPlace(it, CutItem(it, users, owner, start, end)),
             Appended(CutItem(it, users, owner, start, end)));
    assert db.items[k] == it;
    assert db.items[k].rec == ent.rec && db.items[k].line == ent.line;
    if ent.rec.None? || !SameUser(users, ent.rec.value.owner, owner) {
      return true;
    }
    var range := ent.rec.value;
    match CutOf(range, start, end)
    case Keep =>
      return true;
    case Drop =>
      db.DelEntry(ent, k);
      return true;
    case Shrink(left) =>
      Overwrite(db, ent, k, left);
      return true;
    case Split(left, tail) =>
      ok := db.Append(tail);
      if ok {
        Overwrite(db, ent, k, left);
      }
  }

  /** Stores a new record in an entry and marks entry and database changed. */
  method Overwrite(db: Database<Range>, ent: Entry<Range>, ghost k: nat, r: Range)
    requires db.Valid() && k < |db.nodes| && ent == db.nodes[k]
    modifies db`items, db`changed, ent`rec, ent`changed
    ensures db.Valid() && db.changed
    ensures db.items == old(db.items)[k := Item(old(db.items)[k].line, Some(r), true)]
  {
    ent.rec := Some(r);
    ent.changed := true;
    db.changed := true;
    db.items := db.items[k := Item(db.items[k].line, Some(r), true)];
  }

  /** Success and the final list, with `done` behind the walk and `todo` ahead of it. */
  ghost function Outcome(done: seq<Item<Range>>, todo: seq<Item<Range>>, writable: bool,
                         users: Users, owner: string, start: ulong, end: ulong): (bool, seq<Item<Range>>) {
    if writable || !NeedsSplit(todo, users, owner, start, end)
    then (true, done + (Kept(todo, users, owner, start, end) + Tails(todo, users, owner, start, end)))
    else (false, done + Stuck(todo, users, owner, start, end))
  }

  lemma {:induction false} OutcomeOfAll(s: seq<Item<Range>>, writable: bool, users: Users, owner: string, start: ulong,
                                        count: ulong)
    requires count > 0
    ensures var end := U64(start + count - 1);
            Outcome([], s, writable, users, owner, start, end)
              == if writable || !NeedsSplit(s, users, owner, start, end)
                 then (true, AfterRemove(s, users, owner, start, count))
                 else (false, Stuck(s, users, owner, start, end))
  {
    var end := U64(start + count - 1);
    assert [] + AfterRemove(s, users, owner, start, count) == AfterRemove(s, users, owner, start, count);
    assert [] + Stuck(s, users, owner, start, end) == Stuck(s, users, owner, start, end);
  }

  lemma {:induction false} NextTurn(todo: seq<Item<Range>>, users: Users, owner: string, start: ulong, end: ulong)
    requires todo != []
    ensures var c := CutItem(todo[0], users, owner, start, end);
            var rest := todo[1..] + Appended(c);
            && Kept(todo, users, owner, start, end) + Tails(todo, users, owner, start, end)
               == InPlace(todo[0], c) + (Kept(rest, users, owner, start, end) + Tails(rest, users, owner, start, end))
            && Work(rest, users, owner, start, end) < Work(todo, users, owner, start, end)
  {
    var c := CutItem(todo[0], users, owner, start, end);
    var kept, tails := Kept(todo[1..], users, owner, start, end), Tails(todo[1..], users, owner, start, end);
    if c.Split? {
      TailIsKept(todo[0].rec.value, start, end);
      VisitAppended(todo[1..], Item(None, Some(c.tail), true), users, owner, start, end);
    } else {
      assert todo[1..] + [] == todo[1..];
    }
    Regroup(InPlace(todo[0], c), kept, Appended(c), tails);
  }

  lemma {:induction false} Regroup<X>(a: seq<X>, b: seq<X>, c: seq<X>, d: seq<X>)
    ensures (a + b) + (c + d) == a + ((b + c) + d)
    ensures c == [] ==> b + c == b
  {
  }

  lemma {:induction false} NeedsSplitNext(todo: seq<Item<Range>>, users: Users, owner: string, start: ulong, end: ulong)
    requires todo != [] && !CutItem(todo[0], users, owner, start, end).Split?
    ensures NeedsSplit(todo[1..], users, owner, start, end) == NeedsSplit(todo, users, owner, start, end)
  {
    if i :| 0 <= i < |todo| && CutItem(todo[i], users, owner, start, end).Split? {
      assert todo[1..][i - 1] == todo[i];
    }
  }

  lemma {:induction false} OutcomeStep(done: seq<Item<Range>>, todo: seq<Item<Range>>, writable: bool,
                    users: Users, owner: string, start: ulong, end: ulong)
    requires todo != [] && (CutItem(todo[0], users, owner, start, end).Split? ==> writable)
    ensures var c := CutItem(todo[0], users, owner, start, end);
            Outcome(done, todo, writable, users, owner, start, end)
              == Outcome(done + InPlace(todo[0], c), todo[1..] + Appended(c), writable, users, owner, start, end)
  {
    var c := CutItem(todo[0], users, owner, start, end);
    var here := InPlace(todo[0], c);
    var rest := todo[1..] + Appended(c);
    NextTurn(todo, users, owner, start, end);
    Associate(done, here, Kept(rest, users, owner, start, end) + Tails(rest, users, owner, start, end));
    if !writable {
      assert rest == todo[1..];
      NeedsSplitNext(todo, users, owner, start, end);
      Associate(done, here, Stuck(rest, users, owner, start, end));
    }
  }

  /** One turn of the walk: settles `todo[0]` and keeps the outcome. */
  method Turn(db: Database<Range>, ent: Entry<Range>, ghost done: seq<Item<Range>>, ghost todo: seq<Item<Range>>,
              users: Users, owner: string, start: ulong, end: ulong)
      returns (ok: bool, ghost done': seq<Item<Range>>, ghost todo': seq<Item<Range>>)
    requires db.Valid() && db.items == done + todo && todo != [] && ent == db.nodes[|done|]
    modifies db`head, db`tail, db`cursor, db`changed, db`nodes, db`items, db.nodes
    ensures db.Valid()
    ensures ok ==>
              && db.items == done' + todo' && ent.next == At(db.nodes, |done'|)
              && Work(todo', users, owner, start, end) < Work(todo, users, owner, start, end)
              && Outcome(done', todo', old(db.Writable()), users, owner, start, end)
                 == Outcome(done, todo, old(db.Writable()), users, owner, start, end)
    ensures !ok ==> Outcome(done, todo, old(db.Writable()), users, owner, start, end) == (false, db.items)
    ensures !db.changed ==> db.items == old(db.items) && !old(db.changed)
    ensures forall i :: 0 <= i < |db.nodes| ==> db.nodes[i] in old(db.nodes) || fresh(db.nodes[i])
  {
    ghost var c := CutItem(todo[0], users, owner, start, end);
    done', todo' := done + InPlace(todo[0], c), todo[1..] + Appended(c);
    ok := CutEntry(db, ent, done, todo, users, owner, start, end);
    if ok {
      OutcomeStep(done, todo, old(db.Writable()), users, owner, start, end);
      NextTurn(todo, users, owner, start, end);
    }
  }

  /**
   Removes `[start, start + count)` from the owner's ranges. The walk follows
   `next` pointers while entries are unlinked behind it and tail pieces are
   appended in front of it, and still ends: `Work` counts the appended pieces. It
   fails exactly when an entry must be split and nothing can be appended, and then
   leaves that entry and all behind it alone.
   */
  method RemoveRange(db: Database<Range>, users: Users, owner: string, start: ulong, count: ulong) returns (ok: bool)
    requires db.Valid()
    modifies db`head, db`tail, db`cursor, db`changed, db`nodes, db`items, db.nodes
    ensures db.Valid()
    ensures ok <==>
              || count == 0 || old(db.Writable())
              || !NeedsSplit(old(db.items), users, owner, start, U64(start + count - 1))
    ensures ok ==> db.items == AfterRemove(old(db.items), users, owner, start, count)
    ensures !ok ==> count > 0 && db.items == Stuck(old(db.items), users, owner, start, U64(start + count - 1))
    ensures !db.changed ==> db.items == old(db.items)
  {
    if count == 0 {
      return true;
    }
    OutcomeOfAll(db.items, db.Writable(), users, owner, start, count);
    ok := Walk(db, users, owner, start, U64(start + count - 1));
  }

  method Walk(db: Database<Range>, users: Users, owner: string, start: ulong, end: ulong) returns (ok: bool)
    requires db.Valid()
    modifies db`head, db`tail, db`cursor, db`changed, db`nodes, db`items, db.nodes
    ensures db.Valid()
    ensures (ok, db.items) == Outcome([], old(db.items), old(db.Writable()), users, owner, start, end)
    ensures !db.changed ==> db.items == old(db.items)
  {
    ghost var done, todo, writable := [], db.items, db.Writable();
    ghost var result := Outcome(done, todo, writable, users, owner, start, end);
    var ent := db.head;
    while ent != null
      invariant db.Valid() && db.items == done + todo && ent == At(db.nodes, |done|)
      invariant forall i :: 0 <= i < |db.nodes| ==> db.nodes[i] in old(db.nodes) || fresh(db.nodes[i])
      invariant Outcome(done, todo, writable, users, owner, start, end) == result
      invariant !db.changed ==> db.items == old(db.items)
      decreases Work(todo, users, owner, start, end)
    {
      ok, done, todo := Turn(db, ent, done, todo, users, owner, start, end);
      if !ok {
        return false;
      }
      ent := ent.next;
    }
    NothingLeft(done, writable, users, owner, start, end);
    assert todo == [];
    return true;
  }

  lemma {:induction false} NothingLeft(done: seq<Item<Range>>, writable: bool, users: Users, owner: string,
                                       start: ulong, end: ulong)
    ensures Outcome(done, [], writable, users, owner, start, end) == (true, done)
    ensures done + [] == done
  {
    assert done + ([] + []) == done;
  }

  // ----- find_range and have_range -----

  ghost predicate Unwrapped(s: seq<Item<Range>>) {
    forall i :: 0 <= i < |s| && s[i].rec.Some? ==> s[i].rec.value.start + s[i].rec.value.count <= ULONG_SPACE
  }

  /** The test of both loops: the range is not empty and holds `val`. */
  predicate Reaches(r: Range, val: ulong) {
    r.count != 0 && r.start <= val <= r.Last()
  }

  /** The first loop of `find_range`: ranges recorded for the same string. */
  method FindByName(db: Database<Range>, owner: string, val: ulong) returns (r: Option<Range>)
    requires db.Forward() && db.Sound() && db.isOpen
    modifies db`cursor
    ensures db.Sound()
    ensures r.Some? ==> r.value in Parsed(db.items) && r.value.owner == owner && Reaches(r.value, val)
    ensures r.None? ==> forall q :: q in Parsed(db.items) ==> !(q.owner == owner && Reaches(q, val))
  {
    var _ := db.Rewind();
    ghost var rest := db.Ahead();
    r := db.Next();
    while r.Some?
      invariant db.Sound()
      invariant if r.Some? then rest != [] && r.value == rest[0] && db.Ahead() == rest[1..] else rest == []
      invariant forall q :: q in rest ==> q in Parsed(db.items)
      invariant forall q :: q in Parsed(db.items) && q.owner == owner && Reaches(q, val) ==> q in rest
      decreases |rest|
    {
      if r.value.owner == owner && Reaches(r.value, val) {
        return;
      }
      rest := db.Ahead();
      r := db.Next();
    }
  }

  /** The second loop, for the system files only: any name of the same user. */
  method FindByUser(db: Database<Range>, users: Users, owner: string, val: ulong) returns (r: Option<Range>)
    requires db.Forward() && db.Sound() && db.isOpen
    modifies db`cursor
    ensures db.Sound()
    ensures r.Some? ==> r.value in Parsed(db.items) && SameUser(users, r.value.owner, owner) && Reaches(r.value, val)
    ensures r.None? ==> forall q :: q in Parsed(db.items) ==> !(SameUser(users, q.owner, owner) && Reaches(q, val))
  {
    var _ := db.Rewind();
    ghost var rest := db.Ahead();
    r := db.Next();
    while r.Some?
      invariant db.Sound()
      invariant if r.Some? then rest != [] && r.value == rest[0] && db.Ahead() == rest[1..] else rest == []
      invariant forall q :: q in rest ==> q in Parsed(db.items)
      invariant forall q :: q in Parsed(db.items) && SameUser(users, q.owner, owner) && Reaches(q, val) ==> q in rest
      decreases |rest|
    {
      if Reaches(r.value, val) && SameUser(users, r.value.owner, owner) {
        return;
      }
      rest := db.Ahead();
      r := db.Next();
    }
  }

  method FindRange(db: Database<Range>, users: Users, system: bool, owner: string, val: ulong)
      returns (r: Option<Range>)
    requires db.Forward() && db.Sound() && db.isOpen
    modifies db`cursor
    ensures db.Sound()
    ensures r.Some? ==>
              r.value in Parsed(db.items) && Authorized(users, system, r.value.owner, owner) && Reaches(r.value, val)
    ensures r.None? ==>
              forall q :: q in Parsed(db.items) ==> !(Authorized(users, system, q.owner, owner) && Reaches(q, val))
    ensures Unwrapped(db.items) && r.Some? ==> r.value.Has(val) && r.value.start + r.value.count <= ULONG_SPACE
    ensures Unwrapped(db.items) && r.None? ==> !HoldsId(Parsed(db.items), users, system, owner, val)
    ensures Unwrapped(db.items) ==>
              (r.Some? <==> Covers(Parsed(db.items), users, system, owner, val))
              && (r.Some? ==> r.value in Parsed(db.items) && MayUse(r.value, users, system, owner))
  {
    CoversIsHeld(Parsed(db.items), users, system, owner, val);
    r := FindByName(db, owner, val);
    if r.None? && system {
      r := FindByUser(db, users, owner, val);
    }
    if Unwrapped(db.items) {
      ParsedUnwrapped(db.items);
    }
  }

  lemma {:induction false} ParsedUnwrapped(s: seq<Item<Range>>)
    requires Unwrapped(s)
    ensures forall r: Range, val: ulong :: r in Parsed(s) ==> (Reaches(r, val) <==> r.Has(val))
  {
    forall r: Range, val: ulong | r in Parsed(s)
      ensures Reaches(r, val) <==> r.Has(val)
    {
      ParsedHas(s, r);
    }
  }

  /**
   Decides whether the owner holds every ID of the range, hopping from one
   covering range to the next. When the range wraps past the last `unsigned
   long`, only its first ID is looked at.
   */
  method HaveRange(db: Database<Range>, users: Users, system: bool, owner: string, start: ulong, count: ulong)
      returns (ret: bool)
    requires db.Forward() && db.Sound() && db.isOpen && Unwrapped(db.items)
    modifies db`cursor
    ensures db.Sound()
    ensures ret == Have(Parsed(db.items), users, system, owner, start, count)
  {
    if count == 0 {
      return false;
    }
    ghost var rs := Parsed(db.items);
    var end := U64(start + count - 1);
    var from: ulong := start;
    var left: ulong := count;
    var range := FindRange(db, users, system, owner, from);
    while range.Some?
      invariant db.Sound() && Parsed(db.items) == rs
      invariant 0 < left && U64(from + left - 1) == end && start <= from
      invariant start + count > ULONG_SPACE ==> from == start && left == count
      invariant start + count <= ULONG_SPACE ==> from <= end
      invariant forall x :: start <= x < from ==> HoldsId(rs, users, system, owner, x)
      invariant range.Some? ==>
                  range.value in rs && Authorized(users, system, range.value.owner, owner) && range.value.Has(from)
      invariant range.Some? ==> range.value.start + range.value.count <= ULONG_SPACE
      invariant range.None? ==> !HoldsId(rs, users, system, owner, from)
      decreases ULONG_SPACE - from
    {
      var last := range.value.Last();
      if last >= U64(from + left - 1) {
        return true;
      }
      left := U64(end - last);
      from := U64(last + 1);
      range := FindRange(db, users, system, owner, from);
    }
    return false;
  }

  lemma {:induction false} LoadedUnwrapped(text: string, num: Reader)
    requires Lines(text).Some?
    ensures Unwrapped(Load(text, Parser(num)))
  {
    LoadIsStored(text, num);
  }

  /**
   `have_range` on a database that need not be open: a closed one is opened read-only
   for the test and closed again. A file that cannot be opened holds nothing.
   */
  method HaveRangeOpening(db: Database<Range>, users: Users, system: bool, owner: string, start: ulong, count: ulong,
                          content: Option<string>, trouble: Trouble, ghost num: Reader) returns (ret: bool)
    requires db.isOpen ==> db.Forward() && db.Sound() && Unwrapped(db.items)
    requires db.ops.parse == Parser(num)
    modifies db`head, db`tail, db`cursor, db`changed, db`isOpen, db`readOnly, db`nodes, db`items
    ensures db.isOpen == old(db.isOpen)
    ensures old(db.isOpen) ==> db.Sound() && db.items == old(db.items) && db.changed == old(db.changed)
                               && ret == Have(Parsed(db.items), users, system, owner, start, count)
    ensures !old(db.isOpen) ==>
              var l := OpenedList(content, false, trouble, db.ops.parse);
              ret == (l.Some? && Have(Parsed(l.value), users, system, owner, start, count))
  {
    if count == 0 {
      return false;
    }
    if db.isOpen {
      ret := HaveRange(db, users, system, owner, start, count);
      return;
    }
    var ready := Open(db, false, false, content, trouble);
    if !ready {
      return false;
    }
    LoadedUnwrapped(content.value, num);
    ret := HaveRange(db, users, system, owner, start, count);
    db.isOpen := false;
    FreeLinkedList(db);
  }

  // ----- find_free_range -----

  ghost predicate Refused(min: id_t, max: id_t, count: ulong) {
    Signed(count) == 0 || max < min || Signed(count) > max - min + 1
  }

  lemma {:induction false} RangeLeqIsOrder()
    ensures TotalPreorder(RangeLeq)
  {
    forall a, b, c
      ensures RangeLeq(a, b) || RangeLeq(b, a)
      ensures RangeLeq(a, b) && RangeLeq(b, c) ==> RangeLeq(a, c)
    {
      RangeOrder(a, b, c);
    }
  }

  /** `r` is the least start at which `count` IDs are free, or there is none but the
      failure value, `-1` as an `id_t`. */
  ghost predicate IsLeastFree(rs: seq<Range>, r: id_t, min: id_t, max: id_t, count: ulong) {
    && (r != NO_ID ==> Fits(rs, r, count, min, max))
    && forall x :: Fits(rs, x, count, min, max) ==> r <= x
  }

  /** Sorts the list and searches it. On a list without NIS lines, whatever ranges it
      holds, the start found is the least one that fits. */
  method FindFreeRange(db: Database<Range>, min: id_t, max: id_t, count: ulong) returns (r: id_t)
    requires db.Forward() && db.TailSet() && db.Sound() && db.isOpen && ListBounded(db.items)
    modifies db`head, db`tail, db`cursor, db`nodes, db`items, db`changed, db.nodes`prev, db.nodes`next
    ensures db.Forward() && db.TailSet() && db.Sound()
    ensures if Refused(min, max, count) then unchanged(db) else SortsPrefix(RangeLeq, old(db.items), db.items)
    ensures forall i :: 0 <= i < |db.nodes| ==> db.nodes[i] in old(db.nodes)
    ensures var f := FreeStart(Parsed(db.items), min, max, count);
            r == if f.Some? && 0 <= f.value < ID_SPACE then f.value else NO_ID
    ensures NoNisLine(old(db.items)) && 0 < count < ULONG_SPACE / 2 ==>
              IsLeastFree(Parsed(old(db.items)), r, min, max, count)
  {
    ghost var items := db.items;
    r := SortAndSweep(db, min, max, count);
    if NoNisLine(items) && 0 < count < ULONG_SPACE / 2 {
      FoundIsLeast(items, db.items, min, max, count, r);
    }
  }

  lemma {:induction false} FoundIsLeast(s: seq<Item<Range>>, mid: seq<Item<Range>>, min: id_t, max: id_t, count: ulong,
                                        r: id_t)
    requires ListBounded(s) && NoNisLine(s) && 0 < count < ULONG_SPACE / 2
    requires Refused(min, max, count) || SortsPrefix(RangeLeq, s, mid)
    requires var f := FreeStart(Parsed(mid), min, max, count);
             r == if f.Some? && 0 <= f.value < ID_SPACE then f.value else NO_ID
    ensures IsLeastFree(Parsed(s), r, min, max, count)
  {
    if !Refused(min, max, count) {
      SortedSearchIsLeast(s, mid, min, max, count);
    }
  }

  /** The body: the guard, the sort, and the sweep over the sorted list. */
  method SortAndSweep(db: Database<Range>, min: id_t, max: id_t, count: ulong) returns (r: id_t)
    requires db.Forward() && db.TailSet() && db.Sound() && db.isOpen && ListBounded(db.items)
    modifies db`head, db`tail, db`cursor, db`nodes, db`items, db`changed, db.nodes`prev, db.nodes`next
    ensures db.Forward() && db.TailSet() && db.Sound()
    ensures if Refused(min, max, count) then unchanged(db) else SortsPrefix(RangeLeq, old(db.items), db.items)
    ensures forall i :: 0 <= i < |db.nodes| ==> db.nodes[i] in old(db.nodes)
    ensures var f := FreeStart(Parsed(db.items), min, max, count);
            r == if f.Some? && 0 <= f.value < ID_SPACE then f.value else NO_ID
  {
    var n := Signed(count);
    if n == 0 || max < min || n > max - min + 1 {
      return NO_ID;
    }
    RangeLeqIsOrder();
    Sort(db, RangeLeq);
    SortedBounded(old(db.items), db.items);
    r := SweepList(db, min, max, n);
  }

  method SweepList(db: Database<Range>, min: id_t, max: id_t, n: int) returns (r: id_t)
    requires db.Forward() && db.Sound() && db.isOpen && AllBounded(Parsed(db.items)) && min <= max
    modifies db`cursor
    ensures db.Sound()
    ensures var f := Sweep(Parsed(db.items), min, max, n);
            r == if f.Some? && 0 <= f.value < ID_SPACE then f.value else NO_ID
  {
    ghost var rs := Parsed(db.items);
    var _ := db.Rewind();
    var low: int := min;
    ghost var rest := rs;
    var range := db.Next();
    while range.Some?
      invariant db.Sound() && min <= low <= max
      invariant if range.Some? then rest != [] && range.value == rest[0] && db.Ahead() == rest[1..] else rest == []
      invariant Sweep(rs, min, max, n) == Sweep(rest, low, max, n)
      decreases |rest|
    {
      var cur := range.value;
      rest := db.Ahead();
      range := db.Next();
      if cur.count == 0 {
        continue;
      }
      if RoomBefore(cur, low, max, n) {
        return low;
      }
      low := Above(cur, low);
      if low > max {
        return NO_ID;
      }
    }
    if max - low >= n - 1 {
      return low;
    }
    return NO_ID;
  }

  // ----- add_range, new_subid_range, release_subid_range -----

  /** Appends the range unless the owner already holds all of it. */
  method AddRange(db: Database<Range>, users: Users, system: bool, owner: string, start: ulong, count: ulong)
      returns (ok: bool)
    requires db.Forward() && db.TailSet() && db.Sound() && db.isOpen && Unwrapped(db.items)
    modifies db`head, db`tail, db`cursor, db`nodes, db`items, db`changed, db.nodes`next
    ensures db.Forward() && db.TailSet() && db.Sound()
    ensures var held := Have(Parsed(old(db.items)), users, system, owner, start, count);
            && ok == (held || db.Writable())
            && db.items == old(db.items) + if !held && ok then [NewEntry(owner, start, count)] else []
  {
    var held := HaveRange(db, users, system, owner, start, count);
    if held {
      return true;
    }
    ok := db.Append(Range(owner, start, count));
  }

  lemma {:induction false} SortedUnwrapped(t: seq<Item<Range>>)
    requires AllBounded(Parsed(t))
    ensures Unwrapped(t)
  {
    forall i | 0 <= i < |t| && t[i].rec.Some?
      ensures Bounded(t[i].rec.value)
    {
      ParsedHas(t, t[i].rec.value);
      var j :| 0 <= j < |Parsed(t)| && Parsed(t)[j] == t[i].rec.value;
    }
  }

  /** A recorded range that is handed out again instead of a new one. */
  predicate Reusable(r: Range, users: Users, owner: string, count: ulong) {
    SameUser(users, r.owner, owner) && r.count >= count
  }

  /** `r` is the first reusable record, or there is none. */
  ghost predicate IsFirstReusable(rs: seq<Range>, r: Option<Range>, users: Users, owner: string, count: ulong) {
    if r.Some? then exists i :: 0 <= i < |rs| && rs[i] == r.value && Reusable(rs[i], users, owner, count)
                                && forall j :: 0 <= j < i ==> !Reusable(rs[j], users, owner, count)
    else forall j :: 0 <= j < |rs| ==> !Reusable(rs[j], users, owner, count)
  }

  /** Told in UIDs: a range is handed out again exactly if the owner's UID has one, under
      whatever name, of at least `count` IDs, and it is the first of these. */
  lemma {:induction false} ReusedByUid(rs: seq<Range>, r: Option<Range>, users: Users, owner: string, count: ulong)
    requires IsFirstReusable(rs, r, users, owner, count)
    ensures r.Some? <==> owner in users && exists q :: q in rs && IsOf(users, q.owner, users[owner]) && q.count >= count
    ensures r.Some? ==> exists i ::
              && 0 <= i < |rs| && rs[i] == r.value && IsOf(users, rs[i].owner, users[owner]) && rs[i].count >= count
              && forall j :: 0 <= j < i ==> !(IsOf(users, rs[j].owner, users[owner]) && rs[j].count >= count)
  {
    forall i | 0 <= i < |rs|
      ensures Reusable(rs[i], users, owner, count) <==>
                owner in users && IsOf(users, rs[i].owner, users[owner]) && rs[i].count >= count
    {
    }
    if r.None? && owner in users {
      forall q | q in rs
        ensures !(IsOf(users, q.owner, users[owner]) && q.count >= count)
      {
        var i :| 0 <= i < |rs| && rs[i] == q;
        assert !Reusable(rs[i], users, owner, count);
      }
    }
  }

  ghost function Reuse(rs: seq<Range>, users: Users, owner: string, count: ulong): Option<Range> {
    if rs == [] then None else if Reusable(rs[0], users, owner, count) then Some(rs[0])
    else Reuse(rs[1..], users, owner, count)
  }

  lemma {:induction false} ReuseIsFirst(rs: seq<Range>, users: Users, owner: string, count: ulong)
    ensures IsFirstReusable(rs, Reuse(rs, users, owner, count), users, owner, count)
  {
    if rs != [] && !Reusable(rs[0], users, owner, count) {
      ReuseIsFirst(rs[1..], users, owner, count);
      if Reuse(rs, users, owner, count).Some? {
        var i :| 0 <= i < |rs[1..]| && rs[1..][i] == Reuse(rs, users, owner, count).value
                 && Reusable(rs[1..][i], users, owner, count)
                 && forall j :: 0 <= j < i ==> !Reusable(rs[1..][j], users, owner, count);
        assert rs[i + 1] == rs[1..][i];
        forall j | 0 <= j < i + 1
          ensures !Reusable(rs[j], users, owner, count)
        {
          assert j > 0 ==> rs[j] == rs[1..][j - 1];
        }
      } else {
        forall j | 0 <= j < |rs|
          ensures !Reusable(rs[j], users, owner, count)
        {
          assert j > 0 ==> rs[j] == rs[1..][j - 1];
        }
      }
    }
  }

  /** The reuse loop of `new_subid_range`. */
  method FindReusable(db: Database<Range>, users: Users, owner: string, count: ulong) returns (r: Option<Range>)
    requires db.Forward() && db.Sound() && db.isOpen
    modifies db`cursor
    ensures db.Sound() && IsFirstReusable(Parsed(db.items), r, users, owner, count)
  {
    ghost var rs := Parsed(db.items);
    ReuseIsFirst(rs, users, owner, count);
    var _ := db.Rewind();
    ghost var rest := db.Ahead();
    r := db.Next();
    while r.Some?
      invariant db.Sound()
      invariant if r.Some? then rest != [] && r.value == rest[0] && db.Ahead() == rest[1..] else rest == []
      invariant Reuse(rs, users, owner, count) == Reuse(rest, users, owner, count)
      decreases |rest|
    {
      if SameUser(users, r.value.owner, owner) && r.value.count >= count {
        return;
      }
      rest := db.Ahead();
      r := db.Next();
    }
  }

  /**
   The body of `new_subid_range` on the open, writable list. With `reuse` the first
   recorded range of the user that is large enough is handed out and the list stays.
   Otherwise the requested start is narrowed to `id_t`, and a found start equal to
   `(id_t) -1` counts as failure.
   */
  method NewSubidRange(db: Database<Range>, users: Users, system: bool, owner: string, from: ulong, count: ulong,
                       reuse: bool)
      returns (got: Option<int>, given: ulong, reused: bool, ghost mid: seq<Item<Range>>)
    requires db.Valid() && db.Writable() && ListBounded(db.items)
    modifies db`head, db`tail, db`cursor, db`nodes, db`items, db`changed, db.nodes`prev, db.nodes`next
    ensures db.Forward() && db.TailSet() && db.Sound()
    ensures reused ==> reuse && got.Some? && db.items == old(db.items) && db.changed == old(db.changed)
    ensures reused ==> exists r: Range ::
              && IsFirstReusable(Parsed(old(db.items)), Some(r), users, owner, count)
              && got == Some(r.start as int) && given == r.count
    ensures !reused ==> && (reuse ==> IsFirstReusable(Parsed(old(db.items)), None, users, owner, count))
                        && Granted(old(db.items), mid, db.items, users, system, owner, from % ID_SPACE, count, got)
                        && given == count
  {
    if reuse {
      var r := FindReusable(db, users, owner, count);
      if r.Some? {
        return Some(r.value.start), r.value.count, true, db.items;
      }
    }
    got, mid := GrantNew(db, users, system, owner, from, count);
    given, reused := count, false;
  }

  /** The search and the addition that follow. */
  method GrantNew(db: Database<Range>, users: Users, system: bool, owner: string, from: ulong, count: ulong)
      returns (got: Option<int>, ghost mid: seq<Item<Range>>)
    requires db.Valid() && db.Writable() && ListBounded(db.items)
    modifies db`head, db`tail, db`cursor, db`nodes, db`items, db`changed, db.nodes`prev, db.nodes`next
    ensures db.Forward() && db.TailSet() && db.Sound()
    ensures Granted(old(db.items), mid, db.items, users, system, owner, from % ID_SPACE, count, got)
  {
    var min: id_t := from % ID_SPACE;
    var start := FindFreeRange(db, min, NO_ID, count);
    mid := db.items;
    if start == NO_ID {
      return None, mid;
    }
    SortedBounded(old(db.items), db.items);
    SortedUnwrapped(db.items);
    var added := AddRange(db, users, system, owner, start, count);
    got := Some(start);
  }

  /** The body of `release_subid_range` on the open, writable list. */
  method ReleaseSubidRange(db: Database<Range>, users: Users, owner: string, start: ulong, count: ulong)
      returns (ok: bool)
    requires db.Valid() && db.Writable()
    modifies db`head, db`tail, db`cursor, db`changed, db`nodes, db`items, db.nodes
    ensures db.Valid() && ok
    ensures db.items == AfterRemove(old(db.items), users, owner, start, count)
  {
    ok := RemoveRange(db, users, owner, start, count);
  }
}
