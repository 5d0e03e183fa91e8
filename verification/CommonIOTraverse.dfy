/**
 Traversing a database of lib/commonio.c with its cursor while the records it
 delivers are rewritten: `commonio_rewind`, `commonio_next` and `commonio_update`
 together.
 */
module CommonIOTraverse {
  import opened Wrappers
  import opened CommonIO
  import opened CommonIOLookup

  /** Where the cursor stands after a call that delivered `r`, having been at `p`. */
  ghost predicate Reached<T>(db: Database<T>, p: int, r: Option<T>)
    reads db`nodes, db`items, db`cursor
  {
    -1 <= p && if r.Some? then
      && p < db.Pos() < |db.items| == |db.nodes| && db.items[db.Pos()].rec == r
      && forall i :: p < i < db.Pos() ==> db.items[i].rec == None
    else
      forall i :: p < i < |db.items| ==> db.items[i].rec == None
  }

  /** `commonio_next`, with what it skipped. */
  method Advance<T>(db: Database<T>) returns (r: Option<T>)
    requires db.Valid() && db.isOpen
    modifies db`cursor
    ensures db.Valid() && Reached(db, old(db.Pos()), r)
  {
    ghost var p, rest := db.Pos(), db.Ahead();
    r := db.Next();
    if r.Some? {
      DeliveredGap(db.items, p + 1, db.Pos());
    } else {
      NothingDelivered(db.items, p + 1);
    }
  }

  lemma {:induction false} ParsedFrom<T>(s: seq<Item<T>>, n: nat) returns (ps: seq<nat>)
    requires n <= |s|
    ensures |ps| == |Parsed(s[n..])| && (forall j, k :: 0 <= j < k < |ps| ==> ps[j] < ps[k])
    ensures forall k :: 0 <= k < |ps| ==> n <= ps[k] < |s| && s[ps[k]].rec == Some(Parsed(s[n..])[k])
    ensures forall i :: n <= i < |s| && s[i].rec.Some? ==> i in ps
    decreases |s| - n
  {
    if n == |s| {
      ps := [];
    } else {
      assert s[n..][0] == s[n] && s[n..][1..] == s[n + 1..];
      var rest := ParsedFrom(s, n + 1);
      ps := if s[n].rec.Some? then [n] + rest else rest;
    }
  }

  /** A traversal delivers the record of every parsed entry once, in list order. */
  lemma {:induction false} ParsedExactly<T>(s: seq<Item<T>>) returns (ps: seq<nat>)
    ensures |ps| == |Parsed(s)| && forall j, k :: 0 <= j < k < |ps| ==> ps[j] < ps[k]
    ensures forall k :: 0 <= k < |ps| ==> ps[k] < |s| && s[ps[k]].rec == Some(Parsed(s)[k])
    ensures forall i :: 0 <= i < |s| && s[i].rec.Some? ==> i in ps
  {
    assert s[0..] == s;
    ps := ParsedFrom(s, 0);
  }

  /** `commonio_rewind` and the first `commonio_next`. */
  method First<T>(db: Database<T>) returns (r: Option<T>)
    requires db.Valid() && db.isOpen
    modifies db`cursor
    ensures db.Valid() && Reached(db, -1, r)
  {
    var _ := db.Rewind();
    r := Advance(db);
  }

  ghost predicate Readable<T>(db: Database<T>)
    reads db, db.nodes
  {
    db.Forward() && db.Sound() && db.isOpen
  }

  method Lookup<T>(db: Database<T>, name: string) returns (r: Option<T>)
    requires Readable(db)
    modifies db`cursor
    ensures Readable(db) && r == Find(db.items, name, db.ops.getName)
  {
    RepeatedTimes(db.items, name, db.ops.getName);
    r := db.Locate(name);
  }

  /** The record at the cursor is rewritten under its name; the cursor stays on it. */
  method UpdateHere<T>(db: Database<T>, r: T) returns (ok: bool)
    requires db.Valid() && db.Writable()
    requires 0 <= db.Pos() < |db.items| && Named(db.items[db.Pos()], db.ops.getName(r), db.ops.getName)
    modifies db`head, db`tail, db`cursor, db`changed, db`nodes, db`items, db.nodes
    ensures db.Valid() && db.Writable()
    ensures ok == Updated(old(db.items), r, db.ops.getName).Some?
    ensures ok ==> db.items == Updated(old(db.items), r, db.ops.getName).value
    ensures ok ==> db.nodes == old(db.nodes) && db.Pos() == old(db.Pos()) && |db.items| == |old(db.items)|
    ensures !ok ==> unchanged(db)
  {
    var name := db.ops.getName(r);
    UpdatedEffect(db.items, r, name, db.ops.getName);
    if Times(db.items, name, db.ops.getName) <= 1 {
      UpdatedInPlace(db.items, db.Pos(), r, db.ops.getName);
    }
    ok := db.Update(r);
  }

  /** The next record after one was rewritten. */
  method UpdateAndAdvance<T>(db: Database<T>, r: T) returns (ok: bool, next: Option<T>)
    requires db.Valid() && db.Writable()
    requires 0 <= db.Pos() < |db.items| && Named(db.items[db.Pos()], db.ops.getName(r), db.ops.getName)
    modifies db`head, db`tail, db`cursor, db`changed, db`nodes, db`items, db.nodes
    ensures db.Valid() && db.Writable()
    ensures ok == Updated(old(db.items), r, db.ops.getName).Some?
    ensures ok ==> db.items == Updated(old(db.items), r, db.ops.getName).value
    ensures ok ==> db.nodes == old(db.nodes) && |db.items| == |old(db.items)| && Reached(db, old(db.Pos()), next)
  {
    next := None;
    ok := UpdateHere(db, r);
    if ok {
      next := Advance(db);
    }
  }

  // ----- rewriting records on the way -----

  /** The entry after `edit`, which may leave the record alone. An update of a name
      that the list repeats is refused. */
  function Rewritten<T>(s: seq<Item<T>>, it: Item<T>, edit: T -> Option<T>, getName: T -> string): Item<T> {
    if it.rec.Some? && edit(it.rec.value).Some? && Times(s, getName(it.rec.value), getName) <= 1
    then Item(it.line, edit(it.rec.value), true)
    else it
  }

  function RewrittenTo<T>(s: seq<Item<T>>, n: int, edit: T -> Option<T>, getName: T -> string): (r: seq<Item<T>>)
    ensures |r| == |s| && forall i :: 0 <= i < |s| ==> r[i] == if i < n then Rewritten(s, s[i], edit, getName) else s[i]
  {
    seq(|s|, i requires 0 <= i < |s| => if i < n then Rewritten(s, s[i], edit, getName) else s[i])
  }

  /** No record is given another name. */
  predicate KeepsName<T>(s: seq<Item<T>>, edit: T -> Option<T>, getName: T -> string) {
    forall i :: 0 <= i < |s| && s[i].rec.Some? && edit(s[i].rec.value).Some? ==>
      getName(edit(s[i].rec.value).value) == getName(s[i].rec.value)
  }

  /** Rewriting under the same names keeps how often each occurs. */
  lemma {:induction false} RewrittenTimes<T>(s: seq<Item<T>>, n: int, edit: T -> Option<T>, name: string,
                                             getName: T -> string)
    requires KeepsName(s, edit, getName)
    ensures Times(RewrittenTo(s, n, edit, getName), name, getName) == Times(s, name, getName)
  {
    SameTimes(s, RewrittenTo(s, n, edit, getName), name, getName);
  }

  /** What the update of the record in hand does to the list. */
  lemma {:induction false} RewriteStep<T>(s: seq<Item<T>>, p: nat, edit: T -> Option<T>, getName: T -> string)
    requires p < |s| && s[p].rec.Some? && edit(s[p].rec.value).Some? && KeepsName(s, edit, getName)
    ensures var now, r := RewrittenTo(s, p, edit, getName), edit(s[p].rec.value).value;
            && Named(now[p], getName(r), getName)
            && RewrittenTo(s, p + 1, edit, getName)
               == if Updated(now, r, getName).Some? then Updated(now, r, getName).value else now
  {
    var now, r := RewrittenTo(s, p, edit, getName), edit(s[p].rec.value).value;
    RewrittenTimes(s, p, edit, getName(r), getName);
    UpdatedEffect(now, r, getName(r), getName);
    if Times(s, getName(r), getName) <= 1 {
      UpdatedInPlace(now, p, r, getName);
    }
  }

  lemma {:induction false} RewriteNothing<T>(s: seq<Item<T>>, p: nat, edit: T -> Option<T>, getName: T -> string)
    requires p < |s| && s[p].rec.Some? && edit(s[p].rec.value).None?
    ensures RewrittenTo(s, p + 1, edit, getName) == RewrittenTo(s, p, edit, getName)
  {
  }

  /** The record in hand is rewritten, or not; the cursor stays on it. */
  method RewriteHere<T>(db: Database<T>, edit: T -> Option<T>, r: T, ghost s: seq<Item<T>>)
    requires db.Valid() && db.Writable() && 0 <= db.Pos() < |s| && s[db.Pos()].rec == Some(r)
    requires db.items == RewrittenTo(s, db.Pos(), edit, db.ops.getName) && KeepsName(s, edit, db.ops.getName)
    modifies db`head, db`tail, db`cursor, db`changed, db`nodes, db`items, db.nodes
    ensures db.Valid() && db.Writable() && db.nodes == old(db.nodes) && db.Pos() == old(db.Pos())
    ensures db.items == RewrittenTo(s, db.Pos() + 1, edit, db.ops.getName)
  {
    var e := edit(r);
    if e.Some? {
      RewriteStep(s, db.Pos(), edit, db.ops.getName);
      var ok := UpdateHere(db, e.value);
    } else {
      RewriteNothing(s, db.Pos(), edit, db.ops.getName);
    }
  }

  /** One turn: that, and the next record fetched. */
  method RewriteTurn<T>(db: Database<T>, edit: T -> Option<T>, r: T, ghost s: seq<Item<T>>) returns (next: Option<T>)
    requires db.Valid() && db.Writable() && 0 <= db.Pos() < |s| && s[db.Pos()].rec == Some(r)
    requires db.items == RewrittenTo(s, db.Pos(), edit, db.ops.getName) && KeepsName(s, edit, db.ops.getName)
    modifies db`head, db`tail, db`cursor, db`changed, db`nodes, db`items, db.nodes
    ensures db.Valid() && db.Writable() && db.nodes == old(db.nodes)
    ensures Reached(db, old(db.Pos()), next) && db.items == RewrittenTo(s, old(db.Pos()) + 1, edit, db.ops.getName)
  {
    RewriteHere(db, edit, r, s);
    next := Advance(db);
  }

  lemma {:induction false} RewrittenSkip<T>(s: seq<Item<T>>, a: int, b: int, edit: T -> Option<T>, getName: T -> string)
    requires a <= b && forall i :: a <= i < b && 0 <= i < |s| ==> s[i].rec == None
    ensures RewrittenTo(s, a, edit, getName) == RewrittenTo(s, b, edit, getName)
  {
  }

  lemma {:induction false} DeliveredSkip<T>(s: seq<Item<T>>, a: nat, b: nat)
    requires a <= b <= |s| && forall i :: a <= i < b ==> s[i].rec == None
    ensures Delivered(s, a) == Delivered(s, b)
    decreases b - a
  {
    if a < b {
      DeliveredSkip(s, a + 1, b);
    }
  }

  /** What a traversal still has to deliver, `r` being in hand. */
  ghost predicate Visiting<T>(db: Database<T>, s: seq<Item<T>>, edit: T -> Option<T>, r: Option<T>, seen: seq<T>)
    reads db`nodes, db`items, db`cursor
  {
    if r.Some? then
      && 0 <= db.Pos() < |s| && s[db.Pos()].rec == r && db.items == RewrittenTo(s, db.Pos(), edit, db.ops.getName)
      && seen + Delivered(s, db.Pos()) == Delivered(s, 0)
    else
      db.items == RewrittenTo(s, |s|, edit, db.ops.getName) && seen == Delivered(s, 0)
  }

  lemma {:induction false} VisitNext<T>(db: Database<T>, s: seq<Item<T>>, edit: T -> Option<T>, p: int, r: Option<T>,
                                        seen: seq<T>)
    requires -1 <= p < |s| && Reached(db, p, r) && db.items == RewrittenTo(s, p + 1, edit, db.ops.getName)
    requires seen + Delivered(s, p + 1) == Delivered(s, 0)
    ensures Visiting(db, s, edit, r, seen)
  {
    var q := if r.Some? then db.Pos() else |s|;
    forall i | p < i < q
      ensures s[i].rec == None
    {
      assert db.items[i] == s[i];
    }
    DeliveredSkip(s, p + 1, q);
    RewrittenSkip(s, p + 1, q, edit, db.ops.getName);
  }

  lemma {:induction false} SeenOne<T>(s: seq<Item<T>>, p: nat, r: T, seen: seq<T>)
    requires p < |s| && s[p].rec == Some(r) && seen + Delivered(s, p) == Delivered(s, 0)
    ensures (seen + [r]) + Delivered(s, p + 1) == Delivered(s, 0)
  {
    assert seen + ([r] + Delivered(s, p + 1)) == (seen + [r]) + Delivered(s, p + 1);
  }

  method VisitTurn<T>(db: Database<T>, edit: T -> Option<T>, r: T, ghost s: seq<Item<T>>, seen: seq<T>)
      returns (next: Option<T>, now: seq<T>)
    requires db.Valid() && db.Writable() && Visiting(db, s, edit, Some(r), seen)
    requires KeepsName(s, edit, db.ops.getName)
    modifies db`head, db`tail, db`cursor, db`changed, db`nodes, db`items, db.nodes
    ensures db.Valid() && db.Writable() && db.nodes == old(db.nodes)
    ensures Visiting(db, s, edit, next, now) && (next.Some? ==> db.Pos() > old(db.Pos()))
  {
    ghost var p := db.Pos();
    SeenOne(s, p, r, seen);
    next := RewriteTurn(db, edit, r, s);
    now := seen + [r];
    VisitNext(db, s, edit, p, next, now);
  }

  /**
   Rewinds and offers every record to `edit` as it is delivered; a record that it
   changes is updated. Each record is delivered exactly once and in order although
   the list changes under the cursor, and exactly the changed records whose name the
   list does not repeat are rewritten.
   */
  method UpdateEach<T>(db: Database<T>, edit: T -> Option<T>) returns (seen: seq<T>)
    requires db.Valid() && db.Writable() && KeepsName(db.items, edit, db.ops.getName)
    modifies db`head, db`tail, db`cursor, db`changed, db`nodes, db`items, db.nodes
    ensures db.Valid() && db.nodes == old(db.nodes)
    ensures seen == Parsed(old(db.items))
    ensures db.items == RewrittenTo(old(db.items), |old(db.items)|, edit, db.ops.getName)
  {
    ghost var s, ns := db.items, db.nodes;
    DeliveredIsParsed(s, 0);
    assert s[0..] == s && RewrittenTo(s, 0, edit, db.ops.getName) == s;
    seen := [];
    var r := First(db);
    VisitNext(db, s, edit, -1, r, seen);
    while r.Some?
      invariant db.Valid() && db.Writable() && db.nodes == ns
      invariant Visiting(db, s, edit, r, seen)
      decreases if r.Some? then |s| - db.Pos() else -1
    {
      r, seen := VisitTurn(db, edit, r.value, s, seen);
    }
  }
}
