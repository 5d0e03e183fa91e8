/**
 What a run of src/grpck.c does to group and gshadow when every question is
 answered with yes and gshadow exists: the two passes as functions of both lists,
 the state they reach, and why a second run finds nothing to do.
 */
module Grpck {
  import opened Wrappers
  import opened CommonIO
  import opened CommonIOLookup
  import opened GroupSplit
  import opened Grpconv

  // ----- members -----

  /** What `check_members` leaves of a list. */
  function Existing(ms: seq<string>, users: set<string>): (r: seq<string>)
    ensures |r| <= |ms|
    ensures forall m :: m in r <==> m in ms && m in users
    ensures |r| == |ms| ==> r == ms
  {
    if ms == [] then [] else (if ms[0] in users then [ms[0]] else []) + Existing(ms[1..], users)
  }

  predicate AllExist(ms: seq<string>, users: set<string>) {
    forall m :: m in ms ==> m in users
  }

  lemma {:induction false} ExistingAll(ms: seq<string>, users: set<string>)
    requires AllExist(ms, users)
    ensures Existing(ms, users) == ms
  {
    if ms != [] {
      assert forall m :: m in ms[1..] ==> m in ms;
      ExistingAll(ms[1..], users);
    }
  }

  // ----- the pass over group -----

  /** One empty name stands for no member. */
  function Listed(ms: seq<string>): seq<string> {
    if ms == [""] then [] else ms
  }

  function CleanGroup(r: GroupRec, users: set<string>): GroupRec {
    r.(members := Existing(Listed(r.members), users))
  }

  function CleanGroupItem(it: GroupItem, users: set<string>): GroupItem
    requires it.rec.Some?
  {
    var r := CleanGroup(it.rec.value, users);
    Item(it.line, Some(r), it.changed || |r.members| < |Listed(it.rec.value.members)|)
  }

  /** The entry is deleted: it has no record, or shares its name with another one. */
  predicate Superfluous<T>(s: seq<Item<T>>, it: Item<T>, getName: T -> string) {
    it.rec.None? || Times(s, getName(it.rec.value), getName) > 1
  }

  /** The last step for the group at `n`: a missing gshadow entry is added with the
      password, which then leaves group. */
  function AddShadow(g: seq<GroupItem>, s: seq<SgrpItem>, n: nat): (u: Option<(seq<GroupItem>, seq<SgrpItem>)>)
    requires n < |g| && g[n].rec.Some?
    ensures u.Some? ==> |u.value.0| == |g|
  {
    var r := g[n].rec.value;
    if Find(s, r.name, SgrpName).Some? then Some((g, s))
    else
      var t := Updated(s, Sgrp(r.name, r.passwd, [], r.members), SgrpName);
      var h := Updated(g, Masked(r), GroupName);
      assert Named(g[n], GroupName(Masked(r)), GroupName);
      if t.None? || h.None? then None else Some((h.value, t.value))
  }

  /** `check_grp_file` from position `n` on; `None` stands for its failure exits. */
  function GroupPass(g: seq<GroupItem>, s: seq<SgrpItem>, users: set<string>, n: nat):
    Option<(seq<GroupItem>, seq<SgrpItem>)>
    decreases |g| - n
  {
    if n >= |g| then Some((g, s))
    else if LineIsNis(g[n]) then GroupPass(g, s, users, n + 1)
    else if Superfluous(g, g[n], GroupName) then GroupPass(Without(g, n), s, users, n)
    else
      var u := AddShadow(g[n := CleanGroupItem(g[n], users)], s, n);
      if u.None? then None else GroupPass(u.value.0, u.value.1, users, n + 1)
  }

  // ----- the pass over gshadow -----

  function CleanSgrp(r: Sgrp, users: set<string>): Sgrp {
    r.(adm := Existing(r.adm, users), mem := Existing(r.mem, users))
  }

  function CleanSgrpItem(it: SgrpItem, users: set<string>): SgrpItem
    requires it.rec.Some?
  {
    var r := CleanSgrp(it.rec.value, users);
    Item(it.line, Some(r), it.changed || |r.adm| < |it.rec.value.adm| || |r.mem| < |it.rec.value.mem|)
  }

  /** `check_sgr_file` from position `n` on. */
  function SgrpPass(g: seq<GroupItem>, s: seq<SgrpItem>, users: set<string>, n: nat): seq<SgrpItem>
    decreases |s| - n
  {
    if n >= |s| then s
    else if Superfluous(s, s[n], SgrpName) || Find(g, s[n].rec.value.name, GroupName).None? then
      SgrpPass(g, Without(s, n), users, n)
    else SgrpPass(g, s[n := CleanSgrpItem(s[n], users)], users, n + 1)
  }

  /** Both passes. */
  function Checked(g: seq<GroupItem>, s: seq<SgrpItem>, users: set<string>): Option<(seq<GroupItem>, seq<SgrpItem>)> {
    var u := GroupPass(g, s, users, 0);
    if u.None? then None else Some((u.value.0, SgrpPass(u.value.0, u.value.1, users, 0)))
  }

  // ----- the state reached -----

  /** `commonio_open` gives a NIS line no record. */
  predicate WellRead(g: seq<GroupItem>) {
    forall i :: 0 <= i < |g| && LineIsNis(g[i]) ==> g[i].rec.None?
  }

  /** Nothing is left to do for this group entry. */
  predicate GroupDone(g: seq<GroupItem>, s: seq<SgrpItem>, users: set<string>, it: GroupItem) {
    LineIsNis(it) ||
    (&& it.rec.Some? && Times(g, it.rec.value.name, GroupName) == 1 && Find(s, it.rec.value.name, SgrpName).Some?
     && AllExist(it.rec.value.members, users))
  }

  predicate GroupsDone(g: seq<GroupItem>, s: seq<SgrpItem>, users: set<string>, n: nat) {
    forall i :: 0 <= i < n && i < |g| ==> GroupDone(g, s, users, g[i])
  }

  predicate SgrpDone(g: seq<GroupItem>, s: seq<SgrpItem>, users: set<string>, it: SgrpItem) {
    && it.rec.Some? && Times(s, it.rec.value.name, SgrpName) == 1 && Find(g, it.rec.value.name, GroupName).Some?
    && AllExist(it.rec.value.adm, users) && AllExist(it.rec.value.mem, users)
  }

  predicate SgrpsDone(g: seq<GroupItem>, s: seq<SgrpItem>, users: set<string>, n: nat) {
    forall i :: 0 <= i < n && i < |s| ==> SgrpDone(g, s, users, s[i])
  }

  lemma {:induction false} OccursOnce<T>(s: seq<Item<T>>, n: nat, getName: T -> string)
    requires n < |s| && s[n].rec.Some?
    ensures Times(s, getName(s[n].rec.value), getName) >= 1
    ensures Find(s, getName(s[n].rec.value), getName).Some?
  {
    RepeatedTimes(s, getName(s[n].rec.value), getName);
    FindTimes(s, getName(s[n].rec.value), getName);
  }

  /** Deleting a superfluous entry loses no name. */
  lemma {:induction false} WithoutSuperfluous<T>(s: seq<Item<T>>, n: nat, name: string, getName: T -> string)
    requires n < |s| && Superfluous(s, s[n], getName)
    ensures Find(Without(s, n), name, getName).Some? <==> Find(s, name, getName).Some?
    ensures Times(s, name, getName) == 1 ==> Times(Without(s, n), name, getName) == 1
    ensures Times(Without(s, n), name, getName) <= Times(s, name, getName)
  {
    FindWithout(s, n, name, getName);
    FindTimes(s, name, getName);
    FindTimes(Without(s, n), name, getName);
  }

  /** What a turn for a surviving group does to both lists. */
  lemma {:induction false} SurvivorTurn(g: seq<GroupItem>, s: seq<SgrpItem>, users: set<string>, n: nat)
    requires n < |g| && !LineIsNis(g[n]) && !Superfluous(g, g[n], GroupName)
    ensures var it := CleanGroupItem(g[n], users);
            var u := AddShadow(g[n := it], s, n);
            && u.Some?
            && (forall i :: 0 <= i < |g| && i != n ==> u.value.0[i] == g[i])
            && var listed := Find(s, g[n].rec.value.name, SgrpName).Some?;
            && u.value.0[n] == (if listed then it else Item(g[n].line, Some(Masked(it.rec.value)), true))
            && (listed ==> u.value.1 == s)
            && (!listed ==> Updated(s, Sgrp(it.rec.value.name, it.rec.value.passwd, [], it.rec.value.members), SgrpName)
                            == Some(u.value.1))
  {
    var it := CleanGroupItem(g[n], users);
    var h, r := g[n := it], it.rec.value;
    OccursOnce(g, n, GroupName);
    FindReplaced(g, n, it, r.name, GroupName);
    UpdatedInPlace(h, n, Masked(r), GroupName);
    FindTimes(s, r.name, SgrpName);
    UpdatedEffect(s, Sgrp(r.name, r.passwd, [], r.members), r.name, SgrpName);
  }

  /** The same turn as one name sees it. */
  lemma {:induction false} SurvivorNames(g: seq<GroupItem>, s: seq<SgrpItem>, users: set<string>, n: nat, name: string)
    requires n < |g| && !LineIsNis(g[n]) && !Superfluous(g, g[n], GroupName)
    ensures var u := AddShadow(g[n := CleanGroupItem(g[n], users)], s, n);
            && u.Some?
            && Times(u.value.0, name, GroupName) == Times(g, name, GroupName)
            && (name != g[n].rec.value.name ==> Find(u.value.0, name, GroupName) == Find(g, name, GroupName)
                                                && Find(u.value.1, name, SgrpName) == Find(s, name, SgrpName))
            && (name == g[n].rec.value.name ==> Find(u.value.1, name, SgrpName).Some?)
            && Times(u.value.1, name, SgrpName) <= if Times(s, name, SgrpName) == 0 then 1 else Times(s, name, SgrpName)
  {
    SurvivorTurn(g, s, users, n);
    var r := CleanGroupItem(g[n], users).rec.value;
    var w := AddShadow(g[n := CleanGroupItem(g[n], users)], s, n).value.0;
    assert w == g[n := w[n]];
    FindReplaced(g, n, w[n], name, GroupName);
    UpdatedEffect(s, Sgrp(r.name, r.passwd, [], r.members), name, SgrpName);
    FindTimes(s, r.name, SgrpName);
  }

  /** The pass over group never fails, keeps every group name and leaves nothing to
      do in group. */
  lemma {:induction false} GroupPassDone(g: seq<GroupItem>, s: seq<SgrpItem>, users: set<string>, n: nat)
    requires WellRead(g) && GroupsDone(g, s, users, n)
    ensures GroupPass(g, s, users, n).Some?
    ensures var (h, t) := GroupPass(g, s, users, n).value;
            && WellRead(h) && GroupsDone(h, t, users, |h|)
            && (forall name :: Find(h, name, GroupName).Some? <==> Find(g, name, GroupName).Some?)
    decreases |g| - n
  {
    if n < |g| {
      if LineIsNis(g[n]) {
        GroupPassDone(g, s, users, n + 1);
      } else if Superfluous(g, g[n], GroupName) {
        DeletionKeepsDone(g, s, users, n);
        GroupPassDone(Without(g, n), s, users, n);
      } else {
        SurvivorDone(g, s, users, n);
        var u := AddShadow(g[n := CleanGroupItem(g[n], users)], s, n).value;
        GroupPassDone(u.0, u.1, users, n + 1);
      }
    }
  }

  lemma {:induction false} DeletionKeepsDone(g: seq<GroupItem>, s: seq<SgrpItem>, users: set<string>, n: nat)
    requires n < |g| && WellRead(g) && GroupsDone(g, s, users, n) && Superfluous(g, g[n], GroupName)
    ensures WellRead(Without(g, n)) && GroupsDone(Without(g, n), s, users, n)
    ensures forall name :: Find(Without(g, n), name, GroupName).Some? <==> Find(g, name, GroupName).Some?
  {
    forall name
      ensures Find(Without(g, n), name, GroupName).Some? <==> Find(g, name, GroupName).Some?
      ensures Times(g, name, GroupName) == 1 ==> Times(Without(g, n), name, GroupName) == 1
    {
      WithoutSuperfluous(g, n, name, GroupName);
    }
  }

  lemma {:induction false} SurvivorDone(g: seq<GroupItem>, s: seq<SgrpItem>, users: set<string>, n: nat)
    requires n < |g| && WellRead(g) && GroupsDone(g, s, users, n)
    requires !LineIsNis(g[n]) && !Superfluous(g, g[n], GroupName)
    ensures var u := AddShadow(g[n := CleanGroupItem(g[n], users)], s, n);
            && u.Some? && WellRead(u.value.0) && GroupsDone(u.value.0, u.value.1, users, n + 1)
            && forall name :: Find(u.value.0, name, GroupName).Some? <==> Find(g, name, GroupName).Some?
  {
    SurvivorTurn(g, s, users, n);
    OccursOnce(g, n, GroupName);
    var u := AddShadow(g[n := CleanGroupItem(g[n], users)], s, n).value;
    forall name
      ensures Find(u.0, name, GroupName).Some? <==> Find(g, name, GroupName).Some?
      ensures Times(u.0, name, GroupName) == Times(g, name, GroupName)
      ensures Find(s, name, SgrpName).Some? || name == g[n].rec.value.name ==> Find(u.1, name, SgrpName).Some?
    {
      SurvivorNames(g, s, users, n, name);
      FindTimes(u.0, name, GroupName);
      FindTimes(g, name, GroupName);
    }
    assert GroupDone(u.0, u.1, users, u.0[n]);
    forall i | 0 <= i < n
      ensures GroupDone(u.0, u.1, users, u.0[i])
    {
      assert GroupDone(g, s, users, g[i]);
    }
  }

  /** The pass over gshadow leaves nothing to do there and keeps every group's entry. */
  lemma {:induction false} SgrpPassDone(g: seq<GroupItem>, s: seq<SgrpItem>, users: set<string>, n: nat)
    requires SgrpsDone(g, s, users, n)
    ensures var t := SgrpPass(g, s, users, n);
            && SgrpsDone(g, t, users, |t|)
            && forall name :: Find(g, name, GroupName).Some? ==>
                 (Find(t, name, SgrpName).Some? <==> Find(s, name, SgrpName).Some?)
    decreases |s| - n
  {
    if n < |s| {
      if Superfluous(s, s[n], SgrpName) || Find(g, s[n].rec.value.name, GroupName).None? {
        SgrpDeletion(g, s, users, n);
        SgrpPassDone(g, Without(s, n), users, n);
      } else {
        SgrpCleaning(g, s, users, n);
        SgrpPassDone(g, s[n := CleanSgrpItem(s[n], users)], users, n + 1);
      }
    }
  }

  lemma {:induction false} SgrpDeletion(g: seq<GroupItem>, s: seq<SgrpItem>, users: set<string>, n: nat)
    requires n < |s| && SgrpsDone(g, s, users, n)
    requires Superfluous(s, s[n], SgrpName) || Find(g, s[n].rec.value.name, GroupName).None?
    ensures SgrpsDone(g, Without(s, n), users, n)
    ensures forall name :: Find(g, name, GroupName).Some? ==>
              (Find(Without(s, n), name, SgrpName).Some? <==> Find(s, name, SgrpName).Some?)
  {
    forall name | Find(g, name, GroupName).Some?
      ensures Find(Without(s, n), name, SgrpName).Some? <==> Find(s, name, SgrpName).Some?
      ensures Times(s, name, SgrpName) == 1 ==> Times(Without(s, n), name, SgrpName) == 1
    {
      if Superfluous(s, s[n], SgrpName) {
        WithoutSuperfluous(s, n, name, SgrpName);
      } else {
        FindWithout(s, n, name, SgrpName);
      }
    }
  }

  lemma {:induction false} SgrpCleaning(g: seq<GroupItem>, s: seq<SgrpItem>, users: set<string>, n: nat)
    requires n < |s| && SgrpsDone(g, s, users, n)
    requires !Superfluous(s, s[n], SgrpName) && Find(g, s[n].rec.value.name, GroupName).Some?
    ensures var t := s[n := CleanSgrpItem(s[n], users)];
            && SgrpsDone(g, t, users, n + 1)
            && forall name :: Find(t, name, SgrpName).Some? <==> Find(s, name, SgrpName).Some?
  {
    var t := s[n := CleanSgrpItem(s[n], users)];
    OccursOnce(s, n, SgrpName);
    forall name
      ensures Times(t, name, SgrpName) == Times(s, name, SgrpName)
      ensures Find(t, name, SgrpName).Some? <==> Find(s, name, SgrpName).Some?
    {
      FindReplaced(s, n, CleanSgrpItem(s[n], users), name, SgrpName);
      FindTimes(s, name, SgrpName);
      FindTimes(t, name, SgrpName);
    }
  }

  // ----- both passes -----

  lemma {:induction false} DoneUnique(g: seq<GroupItem>, s: seq<SgrpItem>, users: set<string>, name: string)
    requires WellRead(g) && GroupsDone(g, s, users, |g|) && SgrpsDone(g, s, users, |s|)
    ensures Times(g, name, GroupName) <= 1 && Times(s, name, SgrpName) == Times(g, name, GroupName)
  {
    FindTimes(g, name, GroupName);
    FindTimes(s, name, SgrpName);
    if Times(g, name, GroupName) > 0 {
      var k := SomeNamed(g, name, GroupName);
      assert GroupDone(g, s, users, g[k]);
    }
    if Times(s, name, SgrpName) > 0 {
      var k := SomeNamed(s, name, SgrpName);
      assert SgrpDone(g, s, users, s[k]);
    }
  }

  /** The files are consistent: unique names, the same in both, nothing unparsed but
      NIS lines of group, and only existing members and administrators. */
  ghost predicate Consistent(g: seq<GroupItem>, s: seq<SgrpItem>, users: set<string>) {
    && Unique(g, GroupName) && Unique(s, SgrpName)
    && (forall name :: Find(g, name, GroupName).Some? <==> Find(s, name, SgrpName).Some?)
    && (forall i :: 0 <= i < |g| ==> if g[i].rec.Some?
          then AllExist(g[i].rec.value.members, users) else LineIsNis(g[i]))
    && (forall i :: 0 <= i < |s| ==>
          s[i].rec.Some? && AllExist(s[i].rec.value.adm, users) && AllExist(s[i].rec.value.mem, users))
  }

  lemma {:induction false} CheckedDone(g: seq<GroupItem>, s: seq<SgrpItem>, users: set<string>)
    requires WellRead(g)
    ensures Checked(g, s, users).Some?
    ensures var (h, t) := Checked(g, s, users).value;
            && WellRead(h) && GroupsDone(h, t, users, |h|) && SgrpsDone(h, t, users, |t|)
            && forall name :: Find(h, name, GroupName).Some? <==> Find(g, name, GroupName).Some?
  {
    GroupPassDone(g, s, users, 0);
    var u := GroupPass(g, s, users, 0).value;
    SgrpPassDone(u.0, u.1, users, 0);
    var t := SgrpPass(u.0, u.1, users, 0);
    forall i | 0 <= i < |u.0|
      ensures GroupDone(u.0, t, users, u.0[i])
    {
      assert GroupDone(u.0, u.1, users, u.0[i]);
      if u.0[i].rec.Some? {
        OccursOnce(u.0, i, GroupName);
      }
    }
  }

  /** A run never takes a failure exit, makes the files consistent and loses no group. */
  lemma {:induction false} CheckedConsistent(g: seq<GroupItem>, s: seq<SgrpItem>, users: set<string>)
    requires WellRead(g)
    ensures Checked(g, s, users).Some?
    ensures Consistent(Checked(g, s, users).value.0, Checked(g, s, users).value.1, users)
    ensures forall name :: Find(Checked(g, s, users).value.0, name, GroupName).Some? <==> Find(g, name, GroupName).Some?
  {
    CheckedDone(g, s, users);
    var (h, t) := Checked(g, s, users).value;
    forall name
      ensures Times(h, name, GroupName) <= 1 && Times(t, name, SgrpName) <= 1
      ensures Find(h, name, GroupName).Some? <==> Find(t, name, SgrpName).Some?
    {
      DoneUnique(h, t, users, name);
      FindTimes(h, name, GroupName);
      FindTimes(t, name, SgrpName);
    }
    assert forall i :: 0 <= i < |h| ==> GroupDone(h, t, users, h[i]);
    assert forall i :: 0 <= i < |t| ==> SgrpDone(h, t, users, t[i]);
  }

  // ----- running it again -----

  /** An entry as the pass leaves it when all its members exist. */
  function RelistedItem(it: GroupItem): GroupItem {
    if it.rec.Some? then it.(rec := Some(it.rec.value.(members := Listed(it.rec.value.members)))) else it
  }

  function RelistFrom(g: seq<GroupItem>, n: nat): (r: seq<GroupItem>)
    ensures |r| == |g| && forall i :: 0 <= i < |g| ==> r[i] == if i >= n then RelistedItem(g[i]) else g[i]
  {
    seq(|g|, i requires 0 <= i < |g| => if i >= n then RelistedItem(g[i]) else g[i])
  }

  /** Nothing in this entry will be marked. */
  predicate Quiet(g: seq<GroupItem>, s: seq<SgrpItem>, users: set<string>, it: GroupItem) {
    LineIsNis(it) ||
    (&& it.rec.Some? && Times(g, it.rec.value.name, GroupName) == 1 && Find(s, it.rec.value.name, SgrpName).Some?
     && (it.rec.value.members == [""] || AllExist(it.rec.value.members, users)))
  }

  lemma {:induction false} QuietTurn(g: seq<GroupItem>, s: seq<SgrpItem>, users: set<string>, n: nat)
    requires n < |g| && (forall i :: n <= i < |g| ==> Quiet(g, s, users, g[i])) && !LineIsNis(g[n])
    ensures g[n].rec.Some? && CleanGroupItem(g[n], users) == RelistedItem(g[n])
    ensures var h := g[n := RelistedItem(g[n])]; forall i :: n < i < |h| ==> Quiet(h, s, users, h[i])
  {
    assert Quiet(g, s, users, g[n]);
    ExistingAll(Listed(g[n].rec.value.members), users);
    var h := g[n := RelistedItem(g[n])];
    forall i | n < i < |h|
      ensures Quiet(h, s, users, h[i])
    {
      assert Quiet(g, s, users, g[i]);
      if !LineIsNis(g[i]) {
        FindReplaced(g, n, RelistedItem(g[n]), g[i].rec.value.name, GroupName);
      }
    }
  }

  lemma {:induction false} GroupPassAgain(g: seq<GroupItem>, s: seq<SgrpItem>, users: set<string>, n: nat)
    requires n <= |g| && forall i :: n <= i < |g| ==> Quiet(g, s, users, g[i])
    requires WellRead(g)
    ensures GroupPass(g, s, users, n) == Some((RelistFrom(g, n), s))
    decreases |g| - n
  {
    if n < |g| {
      assert Quiet(g, s, users, g[n]);
      if LineIsNis(g[n]) {
        GroupPassAgain(g, s, users, n + 1);
        assert RelistFrom(g, n + 1) == RelistFrom(g, n);
      } else {
        QuietTurn(g, s, users, n);
        var h := g[n := RelistedItem(g[n])];
        GroupPassAgain(h, s, users, n + 1);
        assert RelistFrom(h, n + 1) == RelistFrom(g, n);
      }
    } else {
      assert RelistFrom(g, n) == g;
    }
  }

  lemma {:induction false} SgrpPassAgain(g: seq<GroupItem>, s: seq<SgrpItem>, users: set<string>, n: nat)
    requires n <= |s| && SgrpsDone(g, s, users, |s|)
    ensures SgrpPass(g, s, users, n) == s
    decreases |s| - n
  {
    if n < |s| {
      assert SgrpDone(g, s, users, s[n]);
      ExistingAll(s[n].rec.value.adm, users);
      ExistingAll(s[n].rec.value.mem, users);
      assert s[n := CleanSgrpItem(s[n], users)] == s;
      SgrpPassAgain(g, s, users, n + 1);
    }
  }

  lemma {:induction false} RelistKeepsNames(g: seq<GroupItem>, name: string)
    ensures Times(RelistFrom(g, 0), name, GroupName) == Times(g, name, GroupName)
    ensures Find(RelistFrom(g, 0), name, GroupName).Some? <==> Find(g, name, GroupName).Some?
  {
    if g != [] {
      assert RelistFrom(g, 0)[1..] == RelistFrom(g[1..], 0);
      RelistKeepsNames(g[1..], name);
    }
  }

  /** A run on quiet lists changes no line, no flag and nothing in gshadow. */
  lemma {:induction false} QuietRun(g: seq<GroupItem>, s: seq<SgrpItem>, users: set<string>)
    requires WellRead(g) && SgrpsDone(g, s, users, |s|)
    requires forall i :: 0 <= i < |g| ==> Quiet(g, s, users, g[i])
    ensures Checked(g, s, users) == Some((RelistFrom(g, 0), s))
  {
    GroupPassAgain(g, s, users, 0);
    var h := RelistFrom(g, 0);
    forall i | 0 <= i < |s|
      ensures SgrpDone(h, s, users, s[i])
    {
      assert SgrpDone(g, s, users, s[i]);
      RelistKeepsNames(g, s[i].rec.value.name);
    }
    SgrpPassAgain(h, s, users, 0);
  }

  /** The last entry of its name, the one that is not deleted as a duplicate. */
  ghost predicate Survives(g: seq<GroupItem>, i: nat) {
    && i < |g| && g[i].rec.Some? && !LineIsNis(g[i])
    && forall j :: i < j < |g| ==> !Named(g[j], g[i].rec.value.name, GroupName)
  }

  lemma {:induction false} LaterTwin(g: seq<GroupItem>, s: seq<SgrpItem>, users: set<string>, n: nat)
    requires n < |g| && WellRead(g) && GroupsDone(g, s, users, n) && g[n].rec.Some?
    ensures Times(g, g[n].rec.value.name, GroupName) > 1 <==>
            exists j :: n < j < |g| && Named(g[j], g[n].rec.value.name, GroupName)
  {
    var name := g[n].rec.value.name;
    RepeatedTimes(g, name, GroupName);
    forall i | 0 <= i < n
      ensures !Named(g[i], name, GroupName)
    {
      assert GroupDone(g, s, users, g[i]);
      if Named(g[i], name, GroupName) {
        UpdatedInPlace(g, i, g[i].rec.value, GroupName);
        FindFrom(g, i + 1, name, GroupName);
      }
    }
    assert FirstNamed(g, 0, name, GroupName) == n;
  }

  // ----- no password is lost -----

  function PasswordOf(s: seq<SgrpItem>, name: string): Option<string> {
    var r := Find(s, name, SgrpName);
    if r.Some? then Some(r.value.passwd) else None
  }

  /** The password the group of that name goes by. */
  function GoesBy(g: seq<GroupItem>, s: seq<SgrpItem>, name: string): Option<string> {
    var r := Find(g, name, GroupName);
    if r.Some? then Some(Effective(r.value, s)) else None
  }

  lemma {:induction false} FoundHere<T>(s: seq<Item<T>>, n: nat, getName: T -> string)
    requires n < |s| && s[n].rec.Some? && Times(s, getName(s[n].rec.value), getName) == 1
    ensures Find(s, getName(s[n].rec.value), getName) == s[n].rec
  {
    FindReplaced(s, n, s[n], getName(s[n].rec.value), getName);
    assert s[n := s[n]] == s;
  }

  lemma {:induction false} SurvivorPassword(g: seq<GroupItem>, s: seq<SgrpItem>, users: set<string>, n: nat)
    requires n < |g| && !LineIsNis(g[n]) && !Superfluous(g, g[n], GroupName)
    ensures var u := AddShadow(g[n := CleanGroupItem(g[n], users)], s, n);
            u.Some? && GoesBy(u.value.0, u.value.1, g[n].rec.value.name) == GoesBy(g, s, g[n].rec.value.name)
  {
    var name := g[n].rec.value.name;
    SurvivorTurn(g, s, users, n);
    SurvivorNames(g, s, users, n, name);
    OccursOnce(g, n, GroupName);
    var u := AddShadow(g[n := CleanGroupItem(g[n], users)], s, n).value;
    FoundHere(g, n, GroupName);
    FoundHere(u.0, n, GroupName);
    var r := CleanGroup(g[n].rec.value, users);
    UpdatedEffect(s, Sgrp(r.name, r.passwd, [], r.members), name, SgrpName);
  }

  lemma {:induction false} GroupPassPassword(g: seq<GroupItem>, s: seq<SgrpItem>, users: set<string>, n: nat,
                                             name: string)
    requires GroupPass(g, s, users, n).Some? && Times(g, name, GroupName) == 1 && Times(s, name, SgrpName) <= 1
    ensures var (h, t) := GroupPass(g, s, users, n).value;
            && GoesBy(h, t, name) == GoesBy(g, s, name)
            && Times(h, name, GroupName) == 1 && Times(t, name, SgrpName) <= 1
    decreases |g| - n
  {
    if n < |g| {
      if LineIsNis(g[n]) {
        GroupPassPassword(g, s, users, n + 1, name);
      } else if Superfluous(g, g[n], GroupName) {
        FindWithout(g, n, name, GroupName);
        GroupPassPassword(Without(g, n), s, users, n, name);
      } else {
        SurvivorNames(g, s, users, n, name);
        if name == g[n].rec.value.name {
          SurvivorPassword(g, s, users, n);
        }
        FindTimes(g, name, GroupName);
        var u := AddShadow(g[n := CleanGroupItem(g[n], users)], s, n).value;
        GroupPassPassword(u.0, u.1, users, n + 1, name);
      }
    }
  }

  lemma {:induction false} SgrpPassPassword(g: seq<GroupItem>, s: seq<SgrpItem>, users: set<string>, n: nat,
                                            name: string)
    requires Find(g, name, GroupName).Some? && Times(s, name, SgrpName) <= 1
    ensures PasswordOf(SgrpPass(g, s, users, n), name) == PasswordOf(s, name)
    decreases |s| - n
  {
    if n < |s| {
      if Superfluous(s, s[n], SgrpName) || Find(g, s[n].rec.value.name, GroupName).None? {
        FindWithout(s, n, name, SgrpName);
        SgrpPassPassword(g, Without(s, n), users, n, name);
      } else {
        var it := CleanSgrpItem(s[n], users);
        FindReplaced(s, n, it, name, SgrpName);
        if Named(s[n], name, SgrpName) {
          OccursOnce(s, n, SgrpName);
          FoundHere(s, n, SgrpName);
        }
        SgrpPassPassword(g, s[n := it], users, n + 1, name);
      }
    }
  }

  /** A group that neither file repeats goes by the same password after the run. */
  lemma {:induction false} PasswordsKept(g: seq<GroupItem>, s: seq<SgrpItem>, users: set<string>, name: string)
    requires WellRead(g) && Times(g, name, GroupName) == 1 && Times(s, name, SgrpName) <= 1
    ensures Checked(g, s, users).Some?
    ensures GoesBy(Checked(g, s, users).value.0, Checked(g, s, users).value.1, name) == GoesBy(g, s, name)
  {
    CheckedDone(g, s, users);
    GroupPassPassword(g, s, users, 0, name);
    var (h, t) := GroupPass(g, s, users, 0).value;
    FindTimes(h, name, GroupName);
    SgrpPassPassword(h, t, users, 0, name);
  }
}
