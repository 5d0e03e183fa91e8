/**
 The passes of src/grpck.c over the linked lists of group and gshadow, and the
 member arrays they edit in place.
 */
module GrpckLoops {
  import opened Wrappers
  import opened CommonIO
  import opened CommonIOLookup
  import opened CommonIOTraverse
  import opened GroupSplit
  import opened GroupIO
  import opened Grpconv
  import opened GrpconvLoops
  import opened Grpck

  // ----- member arrays -----

  function DropFirst(ms: seq<string>, m: string): seq<string> {
    if ms == [] then [] else if ms[0] == m then ms[1..] else [ms[0]] + DropFirst(ms[1..], m)
  }

  lemma {:induction false} DropFirstAt(ms: seq<string>, k: nat, m: string)
    requires k <= |ms| && (forall i :: 0 <= i < k ==> ms[i] != m) && (k < |ms| ==> ms[k] == m)
    ensures DropFirst(ms, m) == if k < |ms| then ms[..k] + ms[k + 1..] else ms
  {
    if k > 0 {
      DropFirstAt(ms[1..], k - 1, m);
      assert k < |ms| ==> ms[1..][..k - 1] == ms[1..k] && ms[1..][k..] == ms[k + 1..];
      assert k < |ms| ==> [ms[0]] + (ms[1..k] + ms[k + 1..]) == ms[..k] + ms[k + 1..];
    }
  }

  /** Shifts the names behind the first `member` one place to the front. */
  method DeleteMember(list: Members, member: string, ghost ms: seq<string>)
    requires Holds(list, ms)
    modifies list
    ensures Holds(list, DropFirst(ms, member))
  {
    var i := 0;
    while list[i].Some?
      invariant 0 <= i <= |ms| && forall j :: 0 <= j < i ==> ms[j] != member
      decreases |ms| - i
    {
      if list[i].value == member {
        break;
      }
      i := i + 1;
    }
    ghost var k := i;
    DropFirstAt(ms, k, member);
    while list[i].Some?
      invariant k <= i <= |ms|
      invariant forall j :: 0 <= j < k ==> list[j] == old(list[j])
      invariant forall j :: k <= j < i ==> list[j] == old(list[j + 1])
      invariant forall j :: i <= j <= |ms| ==> list[j] == old(list[j])
      decreases |ms| - i
    {
      list[i] := list[i + 1];
      i := i + 1;
    }
  }

  lemma {:induction false} ExistingSkips(a: seq<string>, x: string, b: seq<string>, users: set<string>)
    requires x !in users
    ensures Existing(a + ([x] + b), users) == Existing(a + b, users)
  {
    if a == [] {
      assert a + ([x] + b) == [x] + b && a + b == b && ([x] + b)[1..] == b;
    } else {
      ExistingSkips(a[1..], x, b, users);
      assert (a + ([x] + b))[1..] == a[1..] + ([x] + b) && (a + b)[1..] == a[1..] + b;
    }
  }

  /** The member at `i` is the first of its name when all before it exist. */
  lemma {:induction false} DropsHere(ms: seq<string>, i: nat, users: set<string>)
    requires i < |ms| && AllExist(ms[..i], users) && ms[i] !in users
    ensures DropFirst(ms, ms[i]) == ms[..i] + ms[i + 1..]
    ensures DropFirst(ms, ms[i])[..i] == ms[..i]
    ensures Existing(DropFirst(ms, ms[i]), users) == Existing(ms, users)
  {
    assert forall j :: 0 <= j < i ==> ms[j] in ms[..i];
    DropFirstAt(ms, i, ms[i]);
    assert ms == ms[..i] + ([ms[i]] + ms[i + 1..]);
    ExistingSkips(ms[..i], ms[i], ms[i + 1..], users);
  }

  /** `check_members`: removes, one at a time, the members that no user is. */
  method CheckMembers(members: Members, users: set<string>, ghost ms: seq<string>) returns (changed: bool)
    requires Holds(members, ms)
    modifies members
    ensures Holds(members, Existing(ms, users))
    ensures changed <==> |Existing(ms, users)| < |ms|
  {
    changed := false;
    ghost var cur := ms;
    var i := 0;
    while members[i].Some?
      invariant 0 <= i <= |cur| <= |ms| && Holds(members, cur)
      invariant AllExist(cur[..i], users) && Existing(cur, users) == Existing(ms, users)
      invariant changed <==> |cur| < |ms|
      decreases |cur| - i
    {
      if members[i].value in users {
        assert cur[..i + 1] == cur[..i] + [cur[i]];
        i := i + 1;
        continue;
      }
      changed := true;
      DropsHere(cur, i, users);
      DeleteMember(members, members[i].value, cur);
      cur := DropFirst(cur, cur[i]);
    }
    assert cur[..i] == cur;
    ExistingAll(cur, users);
  }

  /** The array of a record, and back. */
  method ToArray(ms: seq<string>) returns (a: Members)
    ensures fresh(a) && Holds(a, ms)
  {
    a := new Option<string>[|ms| + 1](i => if 0 <= i < |ms| then Some(ms[i]) else None);
  }

  method FromArray(a: Members, ghost ms: seq<string>) returns (r: seq<string>)
    requires Holds(a, ms)
    ensures r == ms
  {
    r := [];
    var i := 0;
    while a[i].Some?
      invariant 0 <= i <= |ms| && r == ms[..i]
      decreases |ms| - i
    {
      r := r + [a[i].value];
      i := i + 1;
    }
  }

  method CheckList(ms: seq<string>, users: set<string>) returns (r: seq<string>, changed: bool)
    ensures r == Existing(ms, users) && (changed <==> |r| < |ms|)
  {
    var a := ToArray(ms);
    changed := CheckMembers(a, users, ms);
    r := FromArray(a, Existing(ms, users));
  }

  // ----- entries -----

  lemma {:induction false} OthersCount<T>(s: seq<Item<T>>, n: nat, getName: T -> string)
    requires n < |s| && s[n].rec.Some?
    ensures Times(s, getName(s[n].rec.value), getName) > 1 <==>
            exists i :: 0 <= i < |s| && i != n && Named(s[i], getName(s[n].rec.value), getName)
  {
    RepeatedTimes(s, getName(s[n].rec.value), getName);
  }

  /** The inner loop of both passes: another entry has the same name. */
  method HasOther<T>(db: Database<T>, e: Entry<T>, name: string, ghost n: nat) returns (found: bool)
    requires db.Valid() && n < |db.nodes| && e == db.nodes[n]
    requires e.rec.Some? && db.ops.getName(e.rec.value) == name
    ensures found == (Times(db.items, name, db.ops.getName) > 1)
  {
    assert db.items[n].rec == e.rec;
    OthersCount(db.items, n, db.ops.getName);
    ghost var m := 0;
    var t := db.head;
    while t != null
      invariant 0 <= m <= |db.nodes| && t == At(db.nodes, m)
      invariant forall i :: 0 <= i < m && i != n ==> !Named(db.items[i], name, db.ops.getName)
      decreases |db.nodes| - m
    {
      assert db.items[m].rec == t.rec && (t == e <==> m == n);
      if t != e && t.rec.Some? && db.ops.getName(t.rec.value) == name {
        return true;
      }
      t := t.next;
      m := m + 1;
    }
    return false;
  }

  /** An entry whose record was edited through its pointer. */
  method EditEntry<T>(db: Database<T>, e: Entry<T>, r: T, changed: bool, ghost n: nat)
    requires db.Valid() && n < |db.nodes| && e == db.nodes[n] && e.rec.Some?
    modifies db`changed, db`items, e`rec, e`changed
    ensures db.Valid() && db.items == old(db.items)[n := Item(old(e.line), Some(r), old(e.changed) || changed)]
    ensures db.changed == (old(db.changed) || changed)
  {
    e.rec := Some(r);
    if changed {
      e.changed := true;
      db.changed := true;
    }
    db.items := db.items[n := Item(e.line, e.rec, e.changed)];
  }

  /** What a turn of the group pass did to its entry. */
  datatype Step = Skipped | Deleted | Cleaned

  ghost predicate AtEntry<T>(db: Database<T>, e: Entry<T>, n: nat)
    reads db`nodes
  {
    n < |db.nodes| && e == db.nodes[n]
  }

  /** The part of a turn that rewrites the members. */
  method CleanGroupEntry(gr: Database<GroupRec>, gre: Entry<GroupRec>, users: set<string>, ghost n: nat)
    requires gr.Valid() && AtEntry(gr, gre, n) && gre.rec.Some?
    modifies gr`changed, gr`items, gre`rec, gre`changed
    ensures gr.Valid() && old(gr.items[n].rec.Some?)
    ensures gr.items == old(gr.items)[n := CleanGroupItem(old(gr.items[n]), users)]
  {
    assert gr.items[n].rec == gre.rec;
    var grp := gre.rec.value;
    if grp.members == [""] {
      grp := grp.(members := []);
    }
    var ms, changed := CheckList(grp.members, users);
    EditEntry(gr, gre, grp.(members := ms), changed, n);
  }

  /** A turn of the group pass as far as it touches group alone. */
  method GroupStep(gr: Database<GroupRec>, gre: Entry<GroupRec>, users: set<string>, ghost n: nat) returns (st: Step)
    requires gr.Valid() && gr.ops.getName == GroupName && AtEntry(gr, gre, n)
    modifies gr`head, gr`tail, gr`cursor, gr`changed, gr`nodes, gr`items, gr.nodes
    ensures gr.Valid()
    ensures st.Skipped? <==> LineIsNis(old(gr.items[n]))
    ensures st.Deleted? <==> !LineIsNis(old(gr.items[n])) && Superfluous(old(gr.items), old(gr.items[n]), GroupName)
    ensures st.Skipped? ==> gr.items == old(gr.items)
    ensures st.Deleted? ==> gr.items == Without(old(gr.items), n) && gr.nodes == Without(old(gr.nodes), n)
    ensures st.Cleaned? ==> gr.items == old(gr.items)[n := CleanGroupItem(old(gr.items[n]), users)]
    ensures !st.Deleted? ==> gr.nodes == old(gr.nodes)
    ensures gre.next == At(gr.nodes, if st.Deleted? then n else n + 1)
  {
    assert gr.items[n].rec == gre.rec && gr.items[n].line == gre.line;
    if gre.line.Some? && NameIsNis(gre.line.value) {
      return Skipped;
    }
    var delete := gre.rec.None?;
    if !delete {
      delete := HasOther(gr, gre, gre.rec.value.name, n);
    }
    if delete {
      gr.DelEntry(gre, n);
      return Deleted;
    }
    CleanGroupEntry(gr, gre, users, n);
    return Cleaned;
  }

  // ----- the pass over group -----

  method GroupStepOnly(gr: Database<GroupRec>, sgr: Database<Sgrp>, gre: Entry<GroupRec>, users: set<string>,
                       ghost n: nat)
      returns (st: Step)
    requires sgr.Valid() && Outside(sgr, set e | e in gr.nodes)
    requires gr.Valid() && gr.Writable() && gr.ops.getName == GroupName && AtEntry(gr, gre, n)
    modifies gr`head, gr`tail, gr`cursor, gr`changed, gr`nodes, gr`items, gr.nodes
    ensures gr.Valid() && gr.Writable() && sgr.Valid() && unchanged(sgr)
    ensures st.Skipped? <==> LineIsNis(old(gr.items[n]))
    ensures st.Deleted? <==> !LineIsNis(old(gr.items[n])) && Superfluous(old(gr.items), old(gr.items[n]), GroupName)
    ensures st.Skipped? ==> gr.items == old(gr.items)
    ensures st.Deleted? ==> gr.items == Without(old(gr.items), n) && gr.nodes == Without(old(gr.nodes), n)
    ensures st.Cleaned? ==> gr.items == old(gr.items)[n := CleanGroupItem(old(gr.items[n]), users)]
    ensures !st.Deleted? ==> gr.nodes == old(gr.nodes)
    ensures gre.next == At(gr.nodes, if st.Deleted? then n else n + 1)
  {
    st := GroupStep(gr, gre, users, n);
  }

  /** `commonio_update`, another database being open. */
  method UpdateOnly<T, U>(db: Database<T>, other: Database<U>, r: T) returns (ok: bool)
    requires db.Valid() && db.Writable() && other.Valid()
    requires db as object != other && Outside(other, set e | e in db.nodes)
    modifies db`head, db`tail, db`cursor, db`changed, db`nodes, db`items, db.nodes
    ensures db.Valid() && db.Writable() && other.Valid() && unchanged(other)
    ensures ok == Updated(old(db.items), r, db.ops.getName).Some?
    ensures ok ==> db.items == Updated(old(db.items), r, db.ops.getName).value
    ensures ok && FirstNamed(old(db.items), 0, db.ops.getName(r), db.ops.getName) < |old(db.items)| ==>
              db.nodes == old(db.nodes)
    ensures forall i :: 0 <= i < |db.nodes| ==> db.nodes[i] in old(db.nodes) || fresh(db.nodes[i])
  {
    ok := db.Update(r);
    assert forall i :: 0 <= i < |db.nodes| ==> db.nodes[i] in db.nodes;
  }

  /** The end of a turn: the gshadow entry of the group, unless there is one. */
  method AddMissing(gr: Database<GroupRec>, sgr: Database<Sgrp>, grp: GroupRec, ghost n: nat) returns (ok: bool)
    requires Ready(gr, sgr) && sgr.Writable() && n < |gr.items| && gr.items[n].rec == Some(grp)
    modifies gr`head, gr`tail, gr`cursor, gr`changed, gr`nodes, gr`items, gr.nodes
    modifies sgr`head, sgr`tail, sgr`cursor, sgr`changed, sgr`nodes, sgr`items, sgr.nodes
    ensures Ready(gr, sgr) && sgr.Writable()
    ensures ok == AddShadow(old(gr.items), old(sgr.items), n).Some?
    ensures ok ==>
              (gr.items, sgr.items) == AddShadow(old(gr.items), old(sgr.items), n).value && gr.nodes == old(gr.nodes)
    ensures forall i :: 0 <= i < |sgr.nodes| ==> sgr.nodes[i] in old(sgr.nodes) || fresh(sgr.nodes[i])
  {
    TypesApart(gr, sgr);
    var sg := LookupOnly(gr, sgr, grp.name);
    if sg.Some? {
      return true;
    }
    ok := MoveToShadow(gr, sgr, grp, n);
  }

  /** Both updates for a group without a gshadow entry. */
  method MoveToShadow(gr: Database<GroupRec>, sgr: Database<Sgrp>, grp: GroupRec, ghost n: nat) returns (ok: bool)
    requires Ready(gr, sgr) && sgr.Writable() && n < |gr.items| && gr.items[n].rec == Some(grp)
    modifies gr`head, gr`tail, gr`cursor, gr`changed, gr`nodes, gr`items, gr.nodes
    modifies sgr`head, sgr`tail, sgr`cursor, sgr`changed, sgr`nodes, sgr`items, sgr.nodes
    ensures Ready(gr, sgr) && sgr.Writable()
    ensures var t, h := Updated(old(sgr.items), Sgrp(grp.name, grp.passwd, [], grp.members), SgrpName),
                        Updated(old(gr.items), Masked(grp), GroupName);
            ok == (t.Some? && h.Some?) && (ok ==> (gr.items, sgr.items) == (h.value, t.value))
    ensures ok ==> gr.nodes == old(gr.nodes)
    ensures forall i :: 0 <= i < |sgr.nodes| ==> sgr.nodes[i] in old(sgr.nodes) || fresh(sgr.nodes[i])
  {
    TypesApart(gr, sgr);
    ok := UpdateOnly(sgr, gr, Sgrp(grp.name, grp.passwd, [], grp.members));
    if ok {
      TypesApart(gr, sgr);
      assert Named(gr.items[n], grp.name, GroupName);
      ok := UpdateOnly(gr, sgr, Masked(grp));
    }
  }

  /** One turn of the pass, for the entry at position `n`. */
  method GroupTurn(gr: Database<GroupRec>, sgr: Database<Sgrp>, gre: Entry<GroupRec>, users: set<string>, ghost n: nat)
      returns (ok: bool, ghost m: nat)
    requires Ready(gr, sgr) && sgr.Writable() && AtEntry(gr, gre, n)
    modifies gr`head, gr`tail, gr`cursor, gr`changed, gr`nodes, gr`items, gr.nodes
    modifies sgr`head, sgr`tail, sgr`cursor, sgr`changed, sgr`nodes, sgr`items, sgr.nodes
    ensures Ready(gr, sgr) && sgr.Writable()
    ensures !ok ==> GroupPass(old(gr.items), old(sgr.items), users, n).None?
    ensures ok ==> GroupPass(gr.items, sgr.items, users, m) == GroupPass(old(gr.items), old(sgr.items), users, n)
    ensures ok ==> m <= |gr.nodes| && |gr.nodes| - m < |old(gr.nodes)| - n && gre.next == At(gr.nodes, m)
    ensures ok ==> forall i :: 0 <= i < |gr.nodes| ==> gr.nodes[i] in old(gr.nodes)
    ensures forall i :: 0 <= i < |sgr.nodes| ==> sgr.nodes[i] in old(sgr.nodes) || fresh(sgr.nodes[i])
  {
    ghost var it := gr.items[n];
    TypesApart(gr, sgr);
    var st := GroupStepOnly(gr, sgr, gre, users, n);
    ok := true;
    m := if st.Deleted? then n else n + 1;
    if st.Cleaned? {
      assert gr.items[n].rec == gre.rec;
      ok := AddMissing(gr, sgr, gre.rec.value, n);
    }
  }

  /** `check_grp_file`. */
  method CheckGroupFile(gr: Database<GroupRec>, sgr: Database<Sgrp>, users: set<string>) returns (ok: bool)
    requires Ready(gr, sgr) && sgr.Writable()
    modifies gr`head, gr`tail, gr`cursor, gr`changed, gr`nodes, gr`items, gr.nodes
    modifies sgr`head, sgr`tail, sgr`cursor, sgr`changed, sgr`nodes, sgr`items, sgr.nodes
    ensures Ready(gr, sgr) && sgr.Writable()
    ensures ok == GroupPass(old(gr.items), old(sgr.items), users, 0).Some?
    ensures ok ==> Some((gr.items, sgr.items)) == GroupPass(old(gr.items), old(sgr.items), users, 0)
    ensures ok ==> forall i :: 0 <= i < |gr.nodes| ==> gr.nodes[i] in old(gr.nodes)
    ensures ok ==> forall i :: 0 <= i < |sgr.nodes| ==> sgr.nodes[i] in old(sgr.nodes) || fresh(sgr.nodes[i])
  {
    ghost var goal := GroupPass(gr.items, sgr.items, users, 0);
    ghost var n, groups, shadows := 0, gr.nodes, sgr.nodes;
    var gre := gr.head;
    while gre != null
      invariant Ready(gr, sgr) && sgr.Writable()
      invariant 0 <= n <= |gr.nodes| && gre == At(gr.nodes, n)
      invariant forall i :: 0 <= i < |gr.nodes| ==> gr.nodes[i] in groups
      invariant forall i :: 0 <= i < |sgr.nodes| ==> sgr.nodes[i] in shadows || fresh(sgr.nodes[i])
      invariant GroupPass(gr.items, sgr.items, users, n) == goal
      decreases |gr.nodes| - n
    {
      ok, n := GroupTurn(gr, sgr, gre, users, n);
      if !ok {
        return;
      }
      gre := gre.next;
    }
    return true;
  }

  // ----- the pass over gshadow -----

  method CleanSgrpEntry(sgr: Database<Sgrp>, sge: Entry<Sgrp>, users: set<string>, ghost n: nat)
    requires sgr.Valid() && AtEntry(sgr, sge, n) && sge.rec.Some?
    modifies sgr`changed, sgr`items, sge`rec, sge`changed
    ensures sgr.Valid() && old(sgr.items[n].rec.Some?)
    ensures sgr.items == old(sgr.items)[n := CleanSgrpItem(old(sgr.items[n]), users)]
  {
    assert sgr.items[n].rec == sge.rec;
    var sg := sge.rec.value;
    var adm, admChanged := CheckList(sg.adm, users);
    var mem, memChanged := CheckList(sg.mem, users);
    EditEntry(sgr, sge, sg.(adm := adm, mem := mem), admChanged || memChanged, n);
  }

  /** The edit that ends a turn of the gshadow pass. */
  method SgrpStep(gr: Database<GroupRec>, sgr: Database<Sgrp>, sge: Entry<Sgrp>, delete: bool, users: set<string>,
                  ghost n: nat)
    requires Readable(gr) && Outside(gr, set e | e in sgr.nodes)
    requires sgr.Valid() && AtEntry(sgr, sge, n) && (!delete ==> sge.rec.Some?)
    modifies sgr`head, sgr`tail, sgr`cursor, sgr`changed, sgr`nodes, sgr`items, sgr.nodes
    ensures Readable(gr) && sgr.Valid() && unchanged(gr)
    ensures delete ==> sgr.items == Without(old(sgr.items), n) && sgr.nodes == Without(old(sgr.nodes), n)
    ensures !delete ==> old(sgr.items[n].rec.Some?) && sgr.nodes == old(sgr.nodes)
                        && sgr.items == old(sgr.items)[n := CleanSgrpItem(old(sgr.items[n]), users)]
    ensures sge.next == At(sgr.nodes, if delete then n else n + 1)
  {
    if delete {
      sgr.DelEntry(sge, n);
    } else {
      CleanSgrpEntry(sgr, sge, users, n);
    }
  }

  /** The tests that begin it. */
  method MustDelete(gr: Database<GroupRec>, sgr: Database<Sgrp>, sge: Entry<Sgrp>, ghost n: nat) returns (delete: bool)
    requires Readable(gr) && gr.ops.getName == GroupName && Outside(gr, set e | e in sgr.nodes)
    requires sgr.Valid() && sgr.ops.getName == SgrpName && AtEntry(sgr, sge, n)
    modifies gr`cursor
    ensures Readable(gr) && sgr.Valid() && unchanged(sgr)
    ensures sgr.items[n].rec == sge.rec
    ensures delete == (Superfluous(sgr.items, sgr.items[n], SgrpName)
                       || Find(gr.items, sgr.items[n].rec.value.name, GroupName).None?)
  {
    assert sgr.items[n].rec == sge.rec;
    if sge.rec.None? {
      return true;
    }
    delete := HasOther(sgr, sge, sge.rec.value.name, n);
    if !delete {
      var grp := Lookup(gr, sge.rec.value.name);
      delete := grp.None?;
    }
  }

  method SgrpTurn(gr: Database<GroupRec>, sgr: Database<Sgrp>, sge: Entry<Sgrp>, users: set<string>, ghost n: nat)
      returns (ghost m: nat)
    requires Readable(gr) && gr.ops.getName == GroupName
    requires sgr.Valid() && sgr.ops.getName == SgrpName && AtEntry(sgr, sge, n)
    modifies gr`cursor, sgr`head, sgr`tail, sgr`cursor, sgr`changed, sgr`nodes, sgr`items, sgr.nodes
    ensures Readable(gr) && sgr.Valid()
    ensures SgrpPass(gr.items, sgr.items, users, m) == SgrpPass(gr.items, old(sgr.items), users, n)
    ensures m <= |sgr.nodes| && |sgr.nodes| - m < |old(sgr.nodes)| - n && sge.next == At(sgr.nodes, m)
    ensures forall i :: 0 <= i < |sgr.nodes| ==> sgr.nodes[i] in old(sgr.nodes)
  {
    TypesApart(gr, sgr);
    var delete := MustDelete(gr, sgr, sge, n);
    SgrpStep(gr, sgr, sge, delete, users, n);
    m := if delete then n else n + 1;
  }

  /** `check_sgr_file`. */
  method CheckSgrpFile(gr: Database<GroupRec>, sgr: Database<Sgrp>, users: set<string>)
    requires Readable(gr) && gr.ops.getName == GroupName && sgr.Valid() && sgr.ops.getName == SgrpName
    modifies gr`cursor, sgr`head, sgr`tail, sgr`cursor, sgr`changed, sgr`nodes, sgr`items, sgr.nodes
    ensures Readable(gr) && sgr.Valid()
    ensures sgr.items == SgrpPass(gr.items, old(sgr.items), users, 0)
  {
    ghost var goal := SgrpPass(gr.items, sgr.items, users, 0);
    ghost var n, shadows := 0, sgr.nodes;
    var sge := sgr.head;
    while sge != null
      invariant Readable(gr) && sgr.Valid()
      invariant 0 <= n <= |sgr.nodes| && sge == At(sgr.nodes, n)
      invariant forall i :: 0 <= i < |sgr.nodes| ==> sgr.nodes[i] in shadows
      invariant SgrpPass(gr.items, sgr.items, users, n) == goal
      decreases |sgr.nodes| - n
    {
      n := SgrpTurn(gr, sgr, sge, users, n);
      sge := sge.next;
    }
  }

  /** Both passes, as the program runs them. */
  method CheckFiles(gr: Database<GroupRec>, sgr: Database<Sgrp>, users: set<string>) returns (ok: bool)
    requires Ready(gr, sgr) && sgr.Writable()
    modifies gr`head, gr`tail, gr`cursor, gr`changed, gr`nodes, gr`items, gr.nodes
    modifies sgr`head, sgr`tail, sgr`cursor, sgr`changed, sgr`nodes, sgr`items, sgr.nodes
    ensures ok == Checked(old(gr.items), old(sgr.items), users).Some?
    ensures ok ==> Some((gr.items, sgr.items)) == Checked(old(gr.items), old(sgr.items), users)
  {
    ok := CheckGroupFile(gr, sgr, users);
    if ok {
      CheckSgrpFile(gr, sgr, users);
    }
  }
}
