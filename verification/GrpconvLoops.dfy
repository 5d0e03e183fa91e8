/**
 The database loops of src/grpconv.c and src/grpunconv.c over the linked lists of
 group and gshadow, their cursors moved by the very updates they make.
 */
module GrpconvLoops {
  import opened Wrappers
  import opened CommonIO
  import opened CommonIOLookup
  import opened CommonIOTraverse
  import opened GroupSplit
  import opened Grpconv

  // ----- the orphans -----

  lemma {:induction false} OrphanSkip(s: seq<SgrpItem>, g: seq<GroupItem>, a: nat, b: nat)
    requires a <= b <= |s| && forall i :: a <= i < b ==> !Orphan(s[i], g)
    ensures FirstOrphan(s, g, a) == FirstOrphan(s, g, b)
    decreases b - a
  {
    if a < b {
      OrphanSkip(s, g, a + 1, b);
    }
  }

  /** `sg` is the record at the cursor and no orphan stands before it. */
  ghost predicate Searching(sgr: Database<Sgrp>, sg: Option<Sgrp>, g: seq<GroupItem>)
    reads sgr`nodes, sgr`items, sgr`cursor
  {
    if sg.Some? then
      && 0 <= sgr.Pos() < |sgr.items| && sgr.items[sgr.Pos()].rec == sg
      && FirstOrphan(sgr.items, g, 0) == FirstOrphan(sgr.items, g, sgr.Pos())
    else
      FirstOrphan(sgr.items, g, 0) == |sgr.items|
  }

  lemma {:induction false} StillSearching(sgr: Database<Sgrp>, p: int, sg: Option<Sgrp>, g: seq<GroupItem>)
    requires Reached(sgr, p, sg) && p < |sgr.items|
    requires p >= 0 ==> !Orphan(sgr.items[p], g) && FirstOrphan(sgr.items, g, 0) == FirstOrphan(sgr.items, g, p)
    ensures Searching(sgr, sg, g)
  {
    OrphanSkip(sgr.items, g, if p < 0 then 0 else p, if sg.Some? then sgr.Pos() else |sgr.items|);
  }

  ghost predicate Within<T>(db: Database<T>, all: set<object>)
    reads db`nodes
  {
    db !in all && forall i :: 0 <= i < |db.nodes| ==> db.nodes[i] in all
  }

  ghost predicate Outside<T>(db: Database<T>, all: set<object>)
    reads db`nodes
  {
    db !in all && forall i :: 0 <= i < |db.nodes| ==> db.nodes[i] !in all
  }

  lemma {:induction false} TypesApart(gr: Database<GroupRec>, sgr: Database<Sgrp>)
    ensures Outside(gr, set e | e in sgr.nodes) && Outside(sgr, set e | e in gr.nodes)
  {
  }

  method Restart(sgr: Database<Sgrp>, ghost g: seq<GroupItem>) returns (sg: Option<Sgrp>)
    requires sgr.Valid() && sgr.isOpen
    modifies sgr`cursor
    ensures sgr.Valid() && Searching(sgr, sg, g)
  {
    sg := First(sgr);
    StillSearching(sgr, -1, sg, g);
  }

  method RemoveAndRestart(sgr: Database<Sgrp>, name: string, ghost g: seq<GroupItem>)
      returns (ok: bool, sg: Option<Sgrp>)
    requires sgr.Valid() && sgr.Writable() && sgr.ops.getName == SgrpName
    modifies sgr`head, sgr`tail, sgr`cursor, sgr`changed, sgr`nodes, sgr`items, sgr.nodes`prev, sgr.nodes`next
    ensures sgr.Valid() && ok == Removed(old(sgr.items), name, SgrpName).Some?
    ensures ok ==> sgr.items == Removed(old(sgr.items), name, SgrpName).value && Searching(sgr, sg, g)
    ensures forall i :: 0 <= i < |sgr.nodes| ==> sgr.nodes[i] in old(sgr.nodes)
  {
    sg := None;
    ok := sgr.Remove(name);
    if ok {
      sg := Restart(sgr, g);
    }
  }

  /** One turn: go on behind an entry with a group, or remove it and start again. */
  method OrphanTurn(sgr: Database<Sgrp>, sg: Sgrp, present: bool, ghost g: seq<GroupItem>, ghost all: set<object>)
      returns (ok: bool, next: Option<Sgrp>)
    requires sgr.Valid() && sgr.Writable() && sgr.ops.getName == SgrpName && Within(sgr, all)
    requires Searching(sgr, Some(sg), g) && present == Find(g, sg.name, GroupName).Some?
    modifies sgr`head, sgr`tail, sgr`cursor, sgr`changed, sgr`nodes, sgr`items, all
    ensures sgr.Valid() && Within(sgr, all)
    ensures ok == (present || Removed(old(sgr.items), sg.name, SgrpName).Some?)
    ensures ok ==> Searching(sgr, next, g) && RemoveOrphans(sgr.items, g) == RemoveOrphans(old(sgr.items), g)
    ensures ok ==> |sgr.items| < |old(sgr.items)|
                   || (|sgr.items| == |old(sgr.items)| && (next.Some? ==> sgr.Pos() > old(sgr.Pos())))
    ensures !ok ==> RemoveOrphans(old(sgr.items), g).None?
  {
    if present {
      next := Advance(sgr);
      StillSearching(sgr, old(sgr.Pos()), next, g);
      ok := true;
    } else {
      ok, next := RemoveAndRestart(sgr, sg.name, g);
    }
  }

  method LookupAndTurn(gr: Database<GroupRec>, sgr: Database<Sgrp>, sg: Sgrp, ghost all: set<object>)
      returns (ok: bool, next: Option<Sgrp>)
    requires Readable(gr) && gr.ops.getName == GroupName && Outside(gr, all)
    requires sgr.Valid() && sgr.Writable() && sgr.ops.getName == SgrpName && Within(sgr, all)
    requires Searching(sgr, Some(sg), gr.items)
    modifies gr`cursor, sgr`head, sgr`tail, sgr`cursor, sgr`changed, sgr`nodes, sgr`items, all
    ensures Readable(gr) && Outside(gr, all)
    ensures sgr.Valid() && Within(sgr, all)
    ensures ok ==> Searching(sgr, next, gr.items) &&
                   RemoveOrphans(sgr.items, gr.items) == RemoveOrphans(old(sgr.items), gr.items)
    ensures ok ==> |sgr.items| < |old(sgr.items)|
                   || (|sgr.items| == |old(sgr.items)| && (next.Some? ==> sgr.Pos() > old(sgr.Pos())))
    ensures !ok ==> RemoveOrphans(old(sgr.items), gr.items).None?
  {
    var p := Lookup(gr, sg.name);
    ok, next := OrphanTurn(sgr, sg, p.Some?, gr.items, all);
  }

  /** The first loop of `grpconv`, the cursor on its first record. */
  method OrphanLoop(gr: Database<GroupRec>, sgr: Database<Sgrp>, first: Option<Sgrp>, ghost all: set<object>)
      returns (ok: bool)
    requires Readable(gr) && gr.ops.getName == GroupName && Outside(gr, all)
    requires sgr.Valid() && sgr.Writable() && sgr.ops.getName == SgrpName && Within(sgr, all)
    requires Searching(sgr, first, gr.items)
    modifies gr`cursor, sgr`head, sgr`tail, sgr`cursor, sgr`changed, sgr`nodes, sgr`items, all
    ensures Readable(gr) && sgr.Valid() && Within(sgr, all)
    ensures ok == RemoveOrphans(old(sgr.items), gr.items).Some?
    ensures ok ==> sgr.items == RemoveOrphans(old(sgr.items), gr.items).value
  {
    ghost var goal := RemoveOrphans(sgr.items, gr.items);
    var sg := first;
    while sg.Some?
      invariant Readable(gr) && Outside(gr, all)
      invariant sgr.Valid() && sgr.Writable() && Within(sgr, all)
      invariant RemoveOrphans(sgr.items, gr.items) == goal
      invariant Searching(sgr, sg, gr.items)
      decreases |sgr.items|, if sg.Some? then |sgr.items| - sgr.Pos() else -1
    {
      ok, sg := LookupAndTurn(gr, sgr, sg.value, all);
      if !ok {
        return;
      }
    }
    return true;
  }

  method DropOrphans(gr: Database<GroupRec>, sgr: Database<Sgrp>, ghost all: set<object>) returns (ok: bool)
    requires Readable(gr) && gr.ops.getName == GroupName && Outside(gr, all)
    requires sgr.Valid() && sgr.Writable() && sgr.ops.getName == SgrpName && Within(sgr, all)
    modifies gr`cursor, sgr`head, sgr`tail, sgr`cursor, sgr`changed, sgr`nodes, sgr`items, all
    ensures Readable(gr) && sgr.Valid() && Within(sgr, all)
    ensures ok == RemoveOrphans(old(sgr.items), gr.items).Some?
    ensures ok ==> sgr.items == RemoveOrphans(old(sgr.items), gr.items).value
  {
    var sg := Restart(sgr, gr.items);
    ok := OrphanLoop(gr, sgr, sg, all);
  }

  // ----- the conversion -----

  /** The first half of a turn: the gshadow entry of the group. */
  method UpdateShadow(sgr: Database<Sgrp>, g: GroupRec) returns (ok: bool)
    requires sgr.Valid() && sgr.Writable() && sgr.ops.getName == SgrpName
    modifies sgr`head, sgr`tail, sgr`cursor, sgr`changed, sgr`nodes, sgr`items, sgr.nodes
    ensures sgr.Valid() && sgr.Writable()
    ensures ok == Updated(old(sgr.items), Shadow(old(sgr.items), g), SgrpName).Some?
    ensures ok ==> sgr.items == Updated(old(sgr.items), Shadow(old(sgr.items), g), SgrpName).value
    ensures forall i :: 0 <= i < |sgr.nodes| ==> sgr.nodes[i] in old(sgr.nodes) || fresh(sgr.nodes[i])
  {
    var sg := Lookup(sgr, g.name);
    var sgent;
    if sg.Some? {
      sgent := sg.value;
      if g.passwd != PLACEHOLDER {
        sgent := sgent.(passwd := g.passwd);
      }
    } else {
      sgent := Sgrp(g.name, g.passwd, [], []);
    }
    sgent := sgent.(mem := g.members);
    ok := sgr.Update(sgent);
    assert forall i :: 0 <= i < |sgr.nodes| ==> sgr.nodes[i] in sgr.nodes;
  }

  method ShadowKeepingGroups(gr: Database<GroupRec>, sgr: Database<Sgrp>, g: GroupRec) returns (ok: bool)
    requires gr.Valid() && Outside(gr, set e | e in sgr.nodes)
    requires sgr.Valid() && sgr.Writable() && sgr.ops.getName == SgrpName
    modifies sgr`head, sgr`tail, sgr`cursor, sgr`changed, sgr`nodes, sgr`items, sgr.nodes
    ensures gr.Valid() && sgr.Valid() && sgr.Writable()
    ensures ok == Updated(old(sgr.items), Shadow(old(sgr.items), g), SgrpName).Some?
    ensures ok ==> sgr.items == Updated(old(sgr.items), Shadow(old(sgr.items), g), SgrpName).value
    ensures forall i :: 0 <= i < |sgr.nodes| ==> sgr.nodes[i] in old(sgr.nodes) || fresh(sgr.nodes[i])
    ensures unchanged(gr)
  {
    ok := UpdateShadow(sgr, g);
  }

  method MaskKeepingShadow(gr: Database<GroupRec>, sgr: Database<Sgrp>, r: GroupRec)
      returns (ok: bool, next: Option<GroupRec>)
    requires sgr.Valid() && Outside(sgr, set e | e in gr.nodes)
    requires gr.Valid() && gr.Writable() && gr.ops.getName == GroupName
    requires 0 <= gr.Pos() < |gr.items| && Named(gr.items[gr.Pos()], r.name, GroupName)
    modifies gr`head, gr`tail, gr`cursor, gr`changed, gr`nodes, gr`items, gr.nodes
    ensures gr.Valid() && gr.Writable() && sgr.Valid()
    ensures ok == Updated(old(gr.items), r, GroupName).Some?
    ensures ok ==> gr.items == Updated(old(gr.items), r, GroupName).value
    ensures ok ==> gr.nodes == old(gr.nodes) && |gr.items| == |old(gr.items)| && Reached(gr, old(gr.Pos()), next)
    ensures unchanged(sgr)
  {
    ok, next := UpdateAndAdvance(gr, r);
  }

  ghost predicate Ready(gr: Database<GroupRec>, sgr: Database<Sgrp>)
    reads gr, gr.nodes, sgr, sgr.nodes
  {
    && gr.Valid() && gr.Writable() && gr.ops.getName == GroupName
    && sgr.Valid() && sgr.isOpen && sgr.ops.getName == SgrpName
  }

  lemma {:induction false} ConvertSkip(g: seq<GroupItem>, s: seq<SgrpItem>, a: nat, b: nat)
    requires a <= b <= |g| && forall i :: a <= i < b ==> g[i].rec == None
    ensures Convert(g, s, a) == Convert(g, s, b)
    decreases b - a
  {
    if a < b {
      ConvertSkip(g, s, a + 1, b);
    }
  }

  lemma {:induction false} ConvertOne(g: seq<GroupItem>, s: seq<SgrpItem>, p: nat, r: GroupRec, q: nat)
    requires p < q <= |g| && g[p].rec == Some(r)
    requires Updated(s, Shadow(s, r), SgrpName).Some? && Updated(g, Masked(r), GroupName).Some?
    requires var h := Updated(g, Masked(r), GroupName).value;
             |h| == |g| && forall i :: p < i < q ==> h[i].rec == None
    ensures Convert(g, s, p)
              == Convert(Updated(g, Masked(r), GroupName).value, Updated(s, Shadow(s, r), SgrpName).value, q)
  {
    ConvertSkip(Updated(g, Masked(r), GroupName).value, Updated(s, Shadow(s, r), SgrpName).value, p + 1, q);
  }

  /** The position of the record in hand, the end when there is none. */
  ghost function Here(gr: Database<GroupRec>, g: Option<GroupRec>): int
    reads gr`nodes, gr`items, gr`cursor
  {
    if g.Some? then gr.Pos() else |gr.items|
  }

  ghost predicate InHand(gr: Database<GroupRec>, g: Option<GroupRec>)
    reads gr`nodes, gr`items, gr`cursor
  {
    g.Some? ==> 0 <= gr.Pos() < |gr.items| && gr.items[gr.Pos()].rec == g
  }

  method ConvertTurn(gr: Database<GroupRec>, sgr: Database<Sgrp>, g: GroupRec)
      returns (ok: bool, next: Option<GroupRec>)
    requires Ready(gr, sgr) && sgr.Writable() && InHand(gr, Some(g))
    modifies gr`head, gr`tail, gr`cursor, gr`changed, gr`nodes, gr`items, gr.nodes
    modifies sgr`head, sgr`tail, sgr`cursor, sgr`changed, sgr`nodes, sgr`items, sgr.nodes
    ensures Ready(gr, sgr) && sgr.Writable()
    ensures !ok ==> Convert(old(gr.items), old(sgr.items), old(gr.Pos())).None?
    ensures ok ==> InHand(gr, next) && gr.nodes == old(gr.nodes) && |gr.items| == |old(gr.items)| &&
                   Here(gr, next) > old(gr.Pos())
    ensures ok ==> Convert(gr.items, sgr.items, Here(gr, next)) == Convert(old(gr.items), old(sgr.items), old(gr.Pos()))
    ensures forall i :: 0 <= i < |sgr.nodes| ==> sgr.nodes[i] in old(sgr.nodes) || fresh(sgr.nodes[i])
  {
    ghost var g0, s0, p := gr.items, sgr.items, gr.Pos();
    next := None;
    TypesApart(gr, sgr);
    ok := ShadowKeepingGroups(gr, sgr, g);
    if ok {
      TypesApart(gr, sgr);
      ok, next := MaskKeepingShadow(gr, sgr, Masked(g));
      if ok {
        ConvertOne(g0, s0, p, g, Here(gr, next));
      }
    }
  }

  /** The second loop of `grpconv`, `first` in hand. */
  method ConvertLoop(gr: Database<GroupRec>, sgr: Database<Sgrp>, first: Option<GroupRec>) returns (ok: bool)
    requires Ready(gr, sgr) && sgr.Writable() && InHand(gr, first)
    modifies gr`head, gr`tail, gr`cursor, gr`changed, gr`nodes, gr`items, gr.nodes
    modifies sgr`head, sgr`tail, sgr`cursor, sgr`changed, sgr`nodes, sgr`items, sgr.nodes
    ensures gr.Valid() && sgr.Valid()
    ensures ok == Convert(old(gr.items), old(sgr.items), old(Here(gr, first))).Some?
    ensures ok ==> (gr.items, sgr.items) == Convert(old(gr.items), old(sgr.items), old(Here(gr, first))).value
  {
    ghost var goal := Convert(gr.items, sgr.items, Here(gr, first));
    ghost var groups, shadows := gr.nodes, sgr.nodes;
    var g := first;
    while g.Some?
      invariant Ready(gr, sgr) && sgr.Writable() && InHand(gr, g)
      invariant gr.nodes == groups && forall i :: 0 <= i < |sgr.nodes| ==>
                  sgr.nodes[i] in shadows || fresh(sgr.nodes[i])
      invariant Convert(gr.items, sgr.items, Here(gr, g)) == goal
      decreases |groups| - Here(gr, g)
    {
      ok, g := ConvertTurn(gr, sgr, g.value);
      if !ok {
        return;
      }
    }
    return true;
  }

  // ----- grpconv and grpunconv -----

  method DropOrphansOutside(gr: Database<GroupRec>, sgr: Database<Sgrp>, ghost all: set<object>) returns (ok: bool)
    requires gr.Valid() && gr.isOpen && gr.ops.getName == GroupName && Outside(gr, all)
    requires sgr.Valid() && sgr.Writable() && sgr.ops.getName == SgrpName && Within(sgr, all)
    modifies gr`cursor, sgr`head, sgr`tail, sgr`cursor, sgr`changed, sgr`nodes, sgr`items, all
    ensures gr.Valid() && sgr.Valid() && Within(sgr, all)
    ensures ok == RemoveOrphans(old(sgr.items), gr.items).Some?
    ensures ok ==> sgr.items == RemoveOrphans(old(sgr.items), gr.items).value
  {
    ok := DropOrphans(gr, sgr, all);
  }

  method DropOrphansOnly(gr: Database<GroupRec>, sgr: Database<Sgrp>) returns (ok: bool)
    requires Ready(gr, sgr) && sgr.Writable()
    modifies gr`cursor, sgr`head, sgr`tail, sgr`cursor, sgr`changed, sgr`nodes, sgr`items, sgr.nodes
    ensures Ready(gr, sgr) && sgr.Writable()
    ensures ok == RemoveOrphans(old(sgr.items), gr.items).Some?
    ensures ok ==> sgr.items == RemoveOrphans(old(sgr.items), gr.items).value
    ensures forall i :: 0 <= i < |sgr.nodes| ==> sgr.nodes[i] in old(sgr.nodes)
  {
    TypesApart(gr, sgr);
    ok := DropOrphansOutside(gr, sgr, set e | e in sgr.nodes);
  }

  method ConvertAll(gr: Database<GroupRec>, sgr: Database<Sgrp>) returns (ok: bool)
    requires Ready(gr, sgr) && sgr.Writable()
    modifies gr`head, gr`tail, gr`cursor, gr`changed, gr`nodes, gr`items, gr.nodes
    modifies sgr`head, sgr`tail, sgr`cursor, sgr`changed, sgr`nodes, sgr`items, sgr.nodes
    ensures gr.Valid() && sgr.Valid()
    ensures ok == Convert(old(gr.items), old(sgr.items), 0).Some?
    ensures ok ==> (gr.items, sgr.items) == Convert(old(gr.items), old(sgr.items), 0).value
  {
    var g := First(gr);
    ConvertSkip(gr.items, sgr.items, 0, Here(gr, g));
    ok := ConvertLoop(gr, sgr, g);
  }

  /** What `grpconv` does between opening and closing the two files. */
  method RunGrpconv(gr: Database<GroupRec>, sgr: Database<Sgrp>) returns (ok: bool)
    requires Ready(gr, sgr) && sgr.Writable()
    modifies gr`head, gr`tail, gr`cursor, gr`changed, gr`nodes, gr`items, gr.nodes
    modifies sgr`head, sgr`tail, sgr`cursor, sgr`changed, sgr`nodes, sgr`items, sgr.nodes
    ensures gr.Valid() && sgr.Valid()
    ensures ok == Converted(old(gr.items), old(sgr.items)).Some?
    ensures ok ==> (gr.items, sgr.items) == Converted(old(gr.items), old(sgr.items)).value
  {
    ok := DropOrphansOnly(gr, sgr);
    if ok {
      ok := ConvertAll(gr, sgr);
    }
  }

  lemma {:induction false} UnconvertSkip(g: seq<GroupItem>, s: seq<SgrpItem>, a: nat, b: nat)
    requires a <= b <= |g| && forall i :: a <= i < b ==> g[i].rec == None
    ensures Unconvert(g, s, a) == Unconvert(g, s, b)
    decreases b - a
  {
    if a < b {
      UnconvertSkip(g, s, a + 1, b);
    }
  }

  /** The list after the turn for the record at `p`. */
  ghost function AfterTurn(g: seq<GroupItem>, s: seq<SgrpItem>, p: nat): Option<seq<GroupItem>>
    requires p < |g| && g[p].rec.Some?
  {
    if Restorable(g[p], s) then Updated(g, RestoredItem(g[p], s).rec.value, GroupName) else Some(g)
  }

  lemma {:induction false} UnconvertOne(g: seq<GroupItem>, s: seq<SgrpItem>, p: nat)
    requires p < |g| && g[p].rec.Some?
    ensures AfterTurn(g, s, p).None? ==> Unconvert(g, s, p).None?
    ensures AfterTurn(g, s, p).Some? ==>
              |AfterTurn(g, s, p).value| == |g| && Unconvert(AfterTurn(g, s, p).value, s, p + 1) == Unconvert(g, s, p)
  {
    assert Named(g[p], g[p].rec.value.name, GroupName);
  }

  /** One turn of `grpunconv`: `sg` is what gshadow has for the record in hand. */
  method RestoreAndAdvance(gr: Database<GroupRec>, g: GroupRec, sg: Option<Sgrp>, ghost s: seq<SgrpItem>)
      returns (ok: bool, next: Option<GroupRec>)
    requires gr.Valid() && gr.Writable() && gr.ops.getName == GroupName && InHand(gr, Some(g))
    requires sg == Find(s, g.name, SgrpName)
    modifies gr`head, gr`tail, gr`cursor, gr`changed, gr`nodes, gr`items, gr.nodes
    ensures gr.Valid() && gr.Writable()
    ensures ok == AfterTurn(old(gr.items), s, old(gr.Pos())).Some?
    ensures ok ==> gr.items == AfterTurn(old(gr.items), s, old(gr.Pos())).value
    ensures ok ==> gr.nodes == old(gr.nodes) && |gr.items| == |old(gr.items)| && Reached(gr, old(gr.Pos()), next)
  {
    if sg.Some? && g.passwd == PLACEHOLDER {
      ok, next := UpdateAndAdvance(gr, g.(passwd := sg.value.passwd));
    } else {
      ok := true;
      next := Advance(gr);
    }
  }

  method UnconvertTurn(gr: Database<GroupRec>, g: GroupRec, sg: Option<Sgrp>, ghost s: seq<SgrpItem>)
      returns (ok: bool, next: Option<GroupRec>)
    requires gr.Valid() && gr.Writable() && gr.ops.getName == GroupName && InHand(gr, Some(g))
    requires sg == Find(s, g.name, SgrpName)
    modifies gr`head, gr`tail, gr`cursor, gr`changed, gr`nodes, gr`items, gr.nodes
    ensures gr.Valid() && gr.Writable()
    ensures !ok ==> Unconvert(old(gr.items), s, old(gr.Pos())).None?
    ensures ok ==> InHand(gr, next) && gr.nodes == old(gr.nodes) && |gr.items| == |old(gr.items)| &&
                   Here(gr, next) > old(gr.Pos())
    ensures ok ==> Unconvert(gr.items, s, Here(gr, next)) == Unconvert(old(gr.items), s, old(gr.Pos()))
  {
    ghost var p := gr.Pos();
    UnconvertOne(gr.items, s, p);
    ok, next := RestoreAndAdvance(gr, g, sg, s);
    if ok {
      UnconvertSkip(gr.items, s, p + 1, Here(gr, next));
    }
  }

  method LookupOnly(gr: Database<GroupRec>, sgr: Database<Sgrp>, name: string) returns (sg: Option<Sgrp>)
    requires Ready(gr, sgr)
    modifies sgr`cursor
    ensures Ready(gr, sgr) && sg == Find(sgr.items, name, SgrpName)
    ensures unchanged(gr)
  {
    sg := Lookup(sgr, name);
  }

  method UnconvertNext(gr: Database<GroupRec>, sgr: Database<Sgrp>, g: GroupRec)
      returns (ok: bool, next: Option<GroupRec>)
    requires Ready(gr, sgr) && InHand(gr, Some(g))
    modifies gr`head, gr`tail, gr`cursor, gr`changed, gr`nodes, gr`items, gr.nodes, sgr`cursor
    ensures Ready(gr, sgr)
    ensures !ok ==> Unconvert(old(gr.items), sgr.items, old(gr.Pos())).None?
    ensures ok ==> InHand(gr, next) && gr.nodes == old(gr.nodes) && |gr.items| == |old(gr.items)| &&
                   Here(gr, next) > old(gr.Pos())
    ensures ok ==> Unconvert(gr.items, sgr.items, Here(gr, next)) == Unconvert(old(gr.items), sgr.items, old(gr.Pos()))
  {
    TypesApart(gr, sgr);
    var sg := LookupOnly(gr, sgr, g.name);
    ok, next := UnconvertTurn(gr, g, sg, sgr.items);
  }

  /** What `grpunconv` does between opening and closing the two files. */
  method RunGrpunconv(gr: Database<GroupRec>, sgr: Database<Sgrp>) returns (ok: bool)
    requires Ready(gr, sgr)
    modifies gr`head, gr`tail, gr`cursor, gr`changed, gr`nodes, gr`items, gr.nodes, sgr`cursor
    ensures gr.Valid()
    ensures ok == Unconvert(old(gr.items), sgr.items, 0).Some?
    ensures ok ==> Some(gr.items) == Unconvert(old(gr.items), sgr.items, 0)
  {
    ghost var goal, groups := Unconvert(gr.items, sgr.items, 0), gr.nodes;
    var g := First(gr);
    UnconvertSkip(gr.items, sgr.items, 0, Here(gr, g));
    while g.Some?
      invariant Ready(gr, sgr) && InHand(gr, g) && gr.nodes == groups
      invariant Unconvert(gr.items, sgr.items, Here(gr, g)) == goal
      decreases |groups| - Here(gr, g)
    {
      ok, g := UnconvertNext(gr, sgr, g.value);
      if !ok {
        return;
      }
    }
    return true;
  }
}
