/**
 What a run of src/grpck.c keeps and what it drops, told from the entries alone: which
 entries of both files survive, and what becomes of their members and administrators.
 */
module GrpckEffect {
  import opened Wrappers
  import opened CommonIO
  import opened CommonIOLookup
  import opened GroupSplit
  import opened Grpconv
  import opened Grpck

  // ----- what is kept of a list of names -----

  /** `new` holds the elements of `old` at the positions `ps`, in order. */
  ghost predicate Picks<X>(before: seq<X>, after: seq<X>, ps: seq<nat>) {
    && |ps| == |after|
    && (forall q :: 0 <= q < |ps| ==> ps[q] < |before| && after[q] == before[ps[q]])
    && (forall q, r :: 0 <= q < r < |ps| ==> ps[q] < ps[r])
  }

  /** Exactly the names of users are kept, in order and as often as they stood there. */
  ghost predicate KeepsUsers(before: seq<string>, after: seq<string>, users: set<string>) {
    exists ps :: Picks(before, after, ps) && forall p :: 0 <= p < |before| ==> (p in ps <==> before[p] in users)
  }

  /** A list of one empty name counts as none. */
  function Counted(ms: seq<string>): seq<string> {
    if |ms| == 1 && ms[0] == "" then [] else ms
  }

  lemma {:induction false} ExistingPicks(ms: seq<string>, users: set<string>) returns (ps: seq<nat>)
    ensures Picks(ms, Existing(ms, users), ps)
    ensures forall p :: 0 <= p < |ms| ==> (p in ps <==> ms[p] in users)
  {
    if ms == [] {
      ps := [];
    } else {
      var rest := ExistingPicks(ms[1..], users);
      if ms[0] in users {
        ps := [0] + Moved(rest);
        PicksMore(ms, Existing(ms[1..], users), rest);
      } else {
        ps := Moved(rest);
        PicksMore(ms, Existing(ms[1..], users), rest);
        assert [] + Existing(ms[1..], users) == Existing(ms[1..], users);
      }
      forall p | 0 <= p < |ms|
        ensures p in ps <==> ms[p] in users
      {
        MovedHas(rest, p - 1);
        assert p > 0 ==> ms[1..][p - 1] == ms[p];
      }
    }
  }

  lemma {:induction false} PicksMore<X>(ms: seq<X>, after: seq<X>, ps: seq<nat>)
    requires ms != [] && Picks(ms[1..], after, ps)
    ensures Picks(ms, after, Moved(ps)) && Picks(ms, [ms[0]] + after, [0] + Moved(ps))
  {
  }

  function Moved(ps: seq<nat>): (r: seq<nat>)
    ensures |r| == |ps| && forall q :: 0 <= q < |ps| ==> r[q] == ps[q] + 1
  {
    seq(|ps|, q requires 0 <= q < |ps| => ps[q] + 1)
  }

  lemma {:induction false} MovedHas(ps: seq<nat>, p: int)
    ensures p >= 0 ==> (p + 1 in Moved(ps) <==> p in ps)
    ensures 0 !in Moved(ps)
  {
    if p in ps {
      var q :| 0 <= q < |ps| && ps[q] == p;
      assert Moved(ps)[q] == p + 1;
    }
  }

  lemma {:induction false} ExistingKeeps(ms: seq<string>, users: set<string>)
    ensures KeepsUsers(ms, Existing(ms, users), users)
    ensures |Existing(ms, users)| < |ms| <==> exists m :: m in ms && m !in users
  {
    var ps := ExistingPicks(ms, users);
    if forall m :: m in ms ==> m in users {
      ExistingAll(ms, users);
    }
  }

  /** No name is lost or invented by keeping the users. */
  lemma {:induction false} KeptMembers(before: seq<string>, after: seq<string>, users: set<string>, m: string)
    requires KeepsUsers(before, after, users)
    ensures m in after <==> m in before && m in users
  {
    var ps :| Picks(before, after, ps) && forall p :: 0 <= p < |before| ==> (p in ps <==> before[p] in users);
    if m in after {
      var q :| 0 <= q < |after| && after[q] == m;
      assert ps[q] in ps;
    }
    if m in before && m in users {
      var p :| 0 <= p < |before| && before[p] == m;
      var q :| 0 <= q < |ps| && ps[q] == p;
      assert after[q] == m;
    }
  }

  // ----- what is kept of an entry -----

  /** `listed` says whether gshadow had an entry of that name; if not, the password
      moves there. */
  ghost predicate GroupKept(before: GroupItem, after: GroupItem, listed: bool, users: set<string>) {
    && before.rec.Some? && after.rec.Some? && after.line == before.line
    && after.rec.value.name == before.rec.value.name && after.rec.value.gid == before.rec.value.gid
    && after.rec.value.passwd == (if listed then before.rec.value.passwd else "x")
    && KeepsUsers(Counted(before.rec.value.members), after.rec.value.members, users)
    && (after.changed <==>
          || before.changed || !listed
          || exists m :: m in Counted(before.rec.value.members) && m !in users)
  }

  ghost predicate SgrpKept(before: SgrpItem, after: SgrpItem, users: set<string>) {
    && before.rec.Some? && after.rec.Some? && after.line == before.line
    && after.rec.value.name == before.rec.value.name && after.rec.value.passwd == before.rec.value.passwd
    && KeepsUsers(before.rec.value.adm, after.rec.value.adm, users)
    && KeepsUsers(before.rec.value.mem, after.rec.value.mem, users)
    && (after.changed <==>
          || before.changed
          || (exists m :: m in before.rec.value.adm && m !in users)
          || (exists m :: m in before.rec.value.mem && m !in users))
  }

  /** The gshadow entry of a group that had none. */
  ghost predicate SgrpAdded(gr: GroupRec, after: SgrpItem, users: set<string>) {
    && after.rec.Some? && after.line == None && after.changed
    && after.rec.value.name == gr.name && after.rec.value.passwd == gr.passwd && after.rec.value.adm == []
    && KeepsUsers(Counted(gr.members), after.rec.value.mem, users)
  }

  /** Some entry has a record of that name. */
  predicate HasName<T>(s: seq<Item<T>>, name: string, getName: T -> string) {
    exists k :: 0 <= k < |s| && s[k].rec.Some? && getName(s[k].rec.value) == name
  }

  /** The entry has a record, and none behind it has that name. */
  predicate IsLast<T>(s: seq<Item<T>>, i: nat, getName: T -> string) {
    && i < |s| && s[i].rec.Some?
    && forall j :: i < j < |s| && s[j].rec.Some? ==> getName(s[j].rec.value) != getName(s[i].rec.value)
  }

  lemma {:induction false} HasFind<T>(s: seq<Item<T>>, name: string, getName: T -> string)
    ensures HasName(s, name, getName) <==> Find(s, name, getName).Some?
  {
    RepeatedTimes(s, name, getName);
    FindTimes(s, name, getName);
    var k := FirstNamed(s, 0, name, getName);
    assert k < |s| ==> Named(s[k], name, getName);
    if i :| 0 <= i < |s| && s[i].rec.Some? && getName(s[i].rec.value) == name {
      assert Named(s[i], name, getName);
    }
  }

  // ----- the pass over group -----

  lemma {:induction false} CleanedIsKept(it: GroupItem, users: set<string>)
    requires it.rec.Some?
    ensures GroupKept(it, CleanGroupItem(it, users), true, users)
    ensures GroupKept(it, Item(it.line, Some(Masked(CleanGroupItem(it, users).rec.value)), true), false, users)
  {
    assert Counted(it.rec.value.members) == Listed(it.rec.value.members);
    ExistingKeeps(Listed(it.rec.value.members), users);
  }

  /** The entries that stay: NIS lines, and the last entry of each name. */
  predicate Stays(g: seq<GroupItem>, i: nat) {
    i < |g| && (LineIsNis(g[i]) || IsLast(g, i, GroupName))
  }

  /** What became of the entry at `i`. */
  ghost predicate Became(g: seq<GroupItem>, s: seq<SgrpItem>, users: set<string>, i: nat, after: GroupItem) {
    && i < |g|
    && if LineIsNis(g[i]) then after == g[i]
       else g[i].rec.Some? && GroupKept(g[i], after, HasName(s, g[i].rec.value.name, SgrpName), users)
  }

  /** From position `n` on, `h` holds what became of the entries at `ps`, in order, and
      these are the ones that stay. */
  ghost predicate PassPicks(g: seq<GroupItem>, s: seq<SgrpItem>, users: set<string>, n: nat, h: seq<GroupItem>,
                            ps: seq<nat>) {
    && |ps| == |h| && n <= |h|
    && (forall q :: 0 <= q < |ps| ==> ps[q] < |g|)
    && (forall q, r :: 0 <= q < r < |ps| ==> ps[q] < ps[r])
    && (forall q :: 0 <= q < n ==> ps[q] == q && h[q] == g[q])
    && (forall q :: n <= q < |ps| ==> Became(g, s, users, ps[q], h[q]))
    && (forall i :: n <= i < |g| ==> (i in ps <==> Stays(g, i)))
  }

  lemma {:induction false} GroupPassPicks(g: seq<GroupItem>, s: seq<SgrpItem>, users: set<string>, n: nat)
      returns (ps: seq<nat>)
    requires WellRead(g) && GroupsDone(g, s, users, n) && n <= |g|
    ensures GroupPass(g, s, users, n).Some? && PassPicks(g, s, users, n, GroupPass(g, s, users, n).value.0, ps)
    decreases |g| - n
  {
    if n == |g| {
      ps := seq(n, i => i);
    } else if LineIsNis(g[n]) {
      ps := GroupPassPicks(g, s, users, n + 1);
      SkippedPicks(g, s, users, n, GroupPass(g, s, users, n).value.0, ps);
    } else if Superfluous(g, g[n], GroupName) {
      DeletionKeepsDone(g, s, users, n);
      var rest := GroupPassPicks(Without(g, n), s, users, n);
      ps := Spread(rest, n);
      DeletionPicks(g, s, users, n, GroupPass(g, s, users, n).value.0, rest);
    } else {
      SurvivorDone(g, s, users, n);
      var u := AddShadow(g[n := CleanGroupItem(g[n], users)], s, n).value;
      ps := GroupPassPicks(u.0, u.1, users, n + 1);
      SurvivorPicks(g, s, users, n, GroupPass(g, s, users, n).value.0, ps);
    }
  }

  lemma {:induction false} SkippedPicks(g: seq<GroupItem>, s: seq<SgrpItem>, users: set<string>, n: nat,
                                        h: seq<GroupItem>, ps: seq<nat>)
    requires n < |g| && LineIsNis(g[n]) && PassPicks(g, s, users, n + 1, h, ps)
    ensures PassPicks(g, s, users, n, h, ps)
  {
    assert ps[n] == n && h[n] == g[n] && ps[n] in ps;
    assert Stays(g, n) && Became(g, s, users, n, h[n]);
    forall q | n <= q < |ps|
      ensures Became(g, s, users, ps[q], h[q])
    {
    }
    forall i | n <= i < |g|
      ensures i in ps <==> Stays(g, i)
    {
    }
  }

  /** Positions of the list without its element at `n`, in the list with it. */
  function Spread(ps: seq<nat>, n: nat): (r: seq<nat>)
    ensures |r| == |ps| && forall q :: 0 <= q < |ps| ==> r[q] == if ps[q] < n then ps[q] else ps[q] + 1
  {
    seq(|ps|, q requires 0 <= q < |ps| => if ps[q] < n then ps[q] else ps[q] + 1)
  }

  lemma {:induction false} SpreadHas(ps: seq<nat>, n: nat, i: nat)
    ensures n !in Spread(ps, n)
    ensures i != n ==> (i in Spread(ps, n) <==> (if i < n then i else i - 1) in ps)
  {
    var p := if i <= n then i else i - 1;
    if p in ps {
      var q :| 0 <= q < |ps| && ps[q] == p;
      assert Spread(ps, n)[q] == if p < n then p else p + 1;
    }
  }

  lemma {:induction false} DeletedGoes(g: seq<GroupItem>, s: seq<SgrpItem>, users: set<string>, n: nat)
    requires n < |g| && WellRead(g) && GroupsDone(g, s, users, n) && !LineIsNis(g[n]) && Superfluous(g, g[n], GroupName)
    ensures !Stays(g, n)
    ensures forall i :: n < i < |g| ==> (Stays(g, i) <==> Stays(Without(g, n), i - 1))
  {
    if g[n].rec.Some? {
      LaterTwin(g, s, users, n);
    }
    var h := Without(g, n);
    forall i | n < i < |g|
      ensures Stays(g, i) <==> Stays(h, i - 1)
    {
      assert forall j :: i < j < |g| ==> h[j - 1] == g[j];
      assert forall j :: i - 1 < j < |h| ==> h[j] == g[j + 1];
    }
  }

  lemma {:induction false} DeletionPicks(g: seq<GroupItem>, s: seq<SgrpItem>, users: set<string>, n: nat,
                                         h: seq<GroupItem>, rest: seq<nat>)
    requires n < |g| && WellRead(g) && GroupsDone(g, s, users, n) && !LineIsNis(g[n]) && Superfluous(g, g[n], GroupName)
    requires PassPicks(Without(g, n), s, users, n, h, rest)
    ensures PassPicks(g, s, users, n, h, Spread(rest, n))
  {
    DeletedGoes(g, s, users, n);
    forall i | n <= i < |g|
      ensures i in Spread(rest, n) <==> Stays(g, i)
    {
      SpreadHas(rest, n, i);
    }
    forall q | n <= q < |rest|
      ensures Became(g, s, users, Spread(rest, n)[q], h[q])
    {
      assert Became(Without(g, n), s, users, rest[q], h[q]);
    }
  }

  lemma {:induction false} SurvivorStays(g: seq<GroupItem>, s: seq<SgrpItem>, users: set<string>, n: nat)
    requires n < |g| && WellRead(g) && GroupsDone(g, s, users, n)
    requires !LineIsNis(g[n]) && !Superfluous(g, g[n], GroupName)
    ensures Stays(g, n) && AddShadow(g[n := CleanGroupItem(g[n], users)], s, n).Some?
    ensures var u := AddShadow(g[n := CleanGroupItem(g[n], users)], s, n).value;
            && Became(g, s, users, n, u.0[n])
            && (forall i :: n < i < |g| ==> u.0[i] == g[i] && (Stays(g, i) <==> Stays(u.0, i)))
            && (forall i :: n < i < |g| && g[i].rec.Some? ==>
                  (HasName(s, g[i].rec.value.name, SgrpName) <==> HasName(u.1, g[i].rec.value.name, SgrpName)))
  {
    SurvivorTurn(g, s, users, n);
    LaterTwin(g, s, users, n);
    CleanedIsKept(g[n], users);
    HasFind(s, g[n].rec.value.name, SgrpName);
    var u := AddShadow(g[n := CleanGroupItem(g[n], users)], s, n).value;
    forall i | n < i < |g|
      ensures u.0[i] == g[i] && (Stays(g, i) <==> Stays(u.0, i))
      ensures g[i].rec.Some? ==>
                (HasName(s, g[i].rec.value.name, SgrpName) <==> HasName(u.1, g[i].rec.value.name, SgrpName))
    {
      assert forall j :: i < j < |g| ==> u.0[j] == g[j];
      if g[i].rec.Some? {
        assert !Named(g[i], g[n].rec.value.name, GroupName);
        SurvivorNames(g, s, users, n, g[i].rec.value.name);
        HasFind(s, g[i].rec.value.name, SgrpName);
        HasFind(u.1, g[i].rec.value.name, SgrpName);
      }
    }
    assert forall j :: n < j < |g| && g[j].rec.Some? ==> !Named(g[j], g[n].rec.value.name, GroupName);
  }

  /** What becomes of the entries behind is not changed by this turn. */
  lemma {:induction false} SurvivorBecame(g: seq<GroupItem>, s: seq<SgrpItem>, users: set<string>, n: nat, i: nat,
                                          after: GroupItem)
    requires n < i && n < |g| && WellRead(g) && GroupsDone(g, s, users, n)
    requires !LineIsNis(g[n]) && !Superfluous(g, g[n], GroupName)
    requires AddShadow(g[n := CleanGroupItem(g[n], users)], s, n).Some?
    requires var u := AddShadow(g[n := CleanGroupItem(g[n], users)], s, n).value; Became(u.0, u.1, users, i, after)
    ensures Became(g, s, users, i, after)
  {
    SurvivorStays(g, s, users, n);
  }

  lemma {:induction false} SurvivorPicks(g: seq<GroupItem>, s: seq<SgrpItem>, users: set<string>, n: nat,
                                         h: seq<GroupItem>, ps: seq<nat>)
    requires n < |g| && WellRead(g) && GroupsDone(g, s, users, n)
    requires !LineIsNis(g[n]) && !Superfluous(g, g[n], GroupName)
    requires AddShadow(g[n := CleanGroupItem(g[n], users)], s, n).Some?
    requires var u := AddShadow(g[n := CleanGroupItem(g[n], users)], s, n).value;
             PassPicks(u.0, u.1, users, n + 1, h, ps)
    ensures PassPicks(g, s, users, n, h, ps)
  {
    var u := AddShadow(g[n := CleanGroupItem(g[n], users)], s, n).value;
    assert ps[n] == n && h[n] == u.0[n];
    forall q | n < q < |ps|
      ensures Became(g, s, users, ps[q], h[q])
    {
      assert ps[n] < ps[q];
      SurvivorBecame(g, s, users, n, ps[q], h[q]);
    }
    SurvivorStays(g, s, users, n);
    SurvivorTurn(g, s, users, n);
  }

  /**
   Of the group file exactly the NIS lines and the last entry of each name stay, in
   order; the lines are untouched, and each of the entries keeps its name, its GID and
   its existing members, and its password unless that moves to gshadow.
   */
  lemma {:induction false} GroupsKept(g: seq<GroupItem>, s: seq<SgrpItem>, users: set<string>) returns (ps: seq<nat>)
    requires WellRead(g)
    ensures Checked(g, s, users).Some?
    ensures var h := Checked(g, s, users).value.0;
            && |ps| == |h|
            && (forall q, r :: 0 <= q < r < |ps| ==> ps[q] < ps[r])
            && (forall i :: 0 <= i < |g| ==> (i in ps <==> LineIsNis(g[i]) || IsLast(g, i, GroupName)))
            && (forall q :: 0 <= q < |ps| ==> ps[q] < |g|)
            && (forall q :: 0 <= q < |ps| && LineIsNis(g[ps[q]]) ==> h[q] == g[ps[q]])
            && (forall q :: 0 <= q < |ps| && !LineIsNis(g[ps[q]]) ==>
                  g[ps[q]].rec.Some? && GroupKept(g[ps[q]], h[q], HasName(s, g[ps[q]].rec.value.name, SgrpName), users))
  {
    ps := GroupPassPicks(g, s, users, 0);
    CheckedDone(g, s, users);
    assert forall q :: 0 <= q < |ps| ==> Became(g, s, users, ps[q], Checked(g, s, users).value.0[q]);
  }

  // ----- what the pass over group does to gshadow -----

  lemma {:induction false} InsertedKeepsLast(s: seq<SgrpItem>, p: nat, it: SgrpItem, i: nat)
    requires p <= |s| && IsLast(s, i, SgrpName) && it.rec.Some? && it.rec.value.name != s[i].rec.value.name
    ensures IsLast(Inserted(s, p, it), if i < p then i else i + 1, SgrpName)
  {
    var t, k := Inserted(s, p, it), if i < p then i else i + 1;
    forall j | k < j < |t| && t[j].rec.Some?
      ensures t[j].rec.value.name != t[k].rec.value.name
    {
      if j != p {
        assert t[j] == s[if j < p then j else j - 1];
      }
    }
  }

  function NewSgrp(gr: GroupRec, users: set<string>): SgrpItem {
    Item(None, Some(Sgrp(gr.name, gr.passwd, [], Existing(Listed(gr.members), users))), true)
  }

  /** A turn for a surviving group: gshadow stays, or gains that group's entry. */
  lemma {:induction false} TurnShadow(g: seq<GroupItem>, s: seq<SgrpItem>, users: set<string>, n: nat) returns (p: nat)
    requires n < |g| && !LineIsNis(g[n]) && !Superfluous(g, g[n], GroupName)
    ensures AddShadow(g[n := CleanGroupItem(g[n], users)], s, n).Some?
    ensures var t := AddShadow(g[n := CleanGroupItem(g[n], users)], s, n).value.1;
            if HasName(s, g[n].rec.value.name, SgrpName) then t == s
            else && p <= |s| && t == Inserted(s, p, NewSgrp(g[n].rec.value, users))
                 && IsLast(t, p, SgrpName)
  {
    SurvivorTurn(g, s, users, n);
    var name := g[n].rec.value.name;
    HasFind(s, name, SgrpName);
    p := FirstNis(s, 0, SgrpName);
    if !HasName(s, name, SgrpName) {
      var t := Inserted(s, p, NewSgrp(g[n].rec.value, users));
      RepeatedTimes(s, name, SgrpName);
      FindTimes(s, name, SgrpName);
      forall j | p < j < |t| && t[j].rec.Some?
        ensures t[j].rec.value.name != name
      {
        assert t[j] == s[j - 1];
      }
    }
  }

  lemma {:induction false} GroupPassKeepsLast(g: seq<GroupItem>, s: seq<SgrpItem>, users: set<string>, n: nat, i: nat)
      returns (k: nat)
    requires WellRead(g) && GroupsDone(g, s, users, n) && IsLast(s, i, SgrpName)
    ensures GroupPass(g, s, users, n).Some?
    ensures var t := GroupPass(g, s, users, n).value.1; IsLast(t, k, SgrpName) && t[k] == s[i]
    decreases |g| - n
  {
    if n >= |g| {
      k := i;
    } else if LineIsNis(g[n]) {
      k := GroupPassKeepsLast(g, s, users, n + 1, i);
    } else if Superfluous(g, g[n], GroupName) {
      DeletionKeepsDone(g, s, users, n);
      k := GroupPassKeepsLast(Without(g, n), s, users, n, i);
    } else {
      SurvivorDone(g, s, users, n);
      var u := AddShadow(g[n := CleanGroupItem(g[n], users)], s, n).value;
      var p := TurnShadow(g, s, users, n);
      var j := i;
      if !HasName(s, g[n].rec.value.name, SgrpName) {
        assert s[i].rec.value.name != g[n].rec.value.name;
        InsertedKeepsLast(s, p, NewSgrp(g[n].rec.value, users), i);
        j := if i < p then i else i + 1;
      }
      k := GroupPassKeepsLast(u.0, u.1, users, n + 1, j);
    }
  }

  /** A group that stays and that gshadow lacks. */
  predicate Lacks(g: seq<GroupItem>, s: seq<SgrpItem>, i: nat) {
    i < |g| && !LineIsNis(g[i]) && IsLast(g, i, GroupName) && !HasName(s, g[i].rec.value.name, SgrpName)
  }

  lemma {:induction false} LacksAfterDeletion(g: seq<GroupItem>, s: seq<SgrpItem>, users: set<string>, n: nat, i: nat)
    requires n < |g| && WellRead(g) && GroupsDone(g, s, users, n) && !LineIsNis(g[n]) && Superfluous(g, g[n], GroupName)
    ensures !Lacks(g, s, n)
    ensures n < i < |g| ==> g[i] == Without(g, n)[i - 1] && (Lacks(g, s, i) <==> Lacks(Without(g, n), s, i - 1))
  {
    DeletedGoes(g, s, users, n);
    if n < i < |g| {
      assert Stays(g, i) <==> Stays(Without(g, n), i - 1);
    }
  }

  lemma {:induction false} LacksAfterTurn(g: seq<GroupItem>, s: seq<SgrpItem>, users: set<string>, n: nat, i: nat)
    requires n < i < |g| && WellRead(g) && GroupsDone(g, s, users, n)
    requires !LineIsNis(g[n]) && !Superfluous(g, g[n], GroupName)
    ensures AddShadow(g[n := CleanGroupItem(g[n], users)], s, n).Some?
    ensures var u := AddShadow(g[n := CleanGroupItem(g[n], users)], s, n).value;
            i < |u.0| && g[i] == u.0[i] && (Lacks(g, s, i) <==> Lacks(u.0, u.1, i))
  {
    SurvivorStays(g, s, users, n);
  }

  /** The entry made when the pass stands at such a group is kept to the end. */
  lemma {:induction false} TurnAdds(g: seq<GroupItem>, s: seq<SgrpItem>, users: set<string>, n: nat) returns (k: nat)
    requires WellRead(g) && GroupsDone(g, s, users, n) && Lacks(g, s, n) && !Superfluous(g, g[n], GroupName)
    ensures GroupPass(g, s, users, n).Some?
    ensures var t := GroupPass(g, s, users, n).value.1;
            IsLast(t, k, SgrpName) && t[k] == NewSgrp(g[n].rec.value, users)
  {
    SurvivorDone(g, s, users, n);
    var u := AddShadow(g[n := CleanGroupItem(g[n], users)], s, n).value;
    var p := TurnShadow(g, s, users, n);
    k := GroupPassKeepsLast(u.0, u.1, users, n + 1, p);
  }

  /** A group that stays and has no gshadow entry gets one. */
  lemma {:induction false} GroupPassAdds(g: seq<GroupItem>, s: seq<SgrpItem>, users: set<string>, n: nat, i: nat)
      returns (k: nat)
    requires WellRead(g) && GroupsDone(g, s, users, n) && n <= i && Lacks(g, s, i)
    ensures GroupPass(g, s, users, n).Some?
    ensures var t := GroupPass(g, s, users, n).value.1;
            IsLast(t, k, SgrpName) && t[k] == NewSgrp(g[i].rec.value, users)
    decreases |g| - n
  {
    if LineIsNis(g[n]) {
      k := GroupPassAdds(g, s, users, n + 1, i);
    } else if Superfluous(g, g[n], GroupName) {
      LacksAfterDeletion(g, s, users, n, i);
      DeletionKeepsDone(g, s, users, n);
      k := GroupPassAdds(Without(g, n), s, users, n, i - 1);
    } else if i == n {
      k := TurnAdds(g, s, users, n);
    } else {
      SurvivorDone(g, s, users, n);
      LacksAfterTurn(g, s, users, n, i);
      var u := AddShadow(g[n := CleanGroupItem(g[n], users)], s, n).value;
      k := GroupPassAdds(u.0, u.1, users, n + 1, i);
    }
  }

  /** Some group that gshadow lacks gives this entry. */
  ghost predicate IsAdded(g: seq<GroupItem>, s: seq<SgrpItem>, users: set<string>, n: nat, it: SgrpItem) {
    exists i: nat :: n <= i && Lacks(g, s, i) && it == NewSgrp(g[i].rec.value, users)
  }

  lemma {:induction false} GroupPassSource(g: seq<GroupItem>, s: seq<SgrpItem>, users: set<string>, n: nat,
                                           it: SgrpItem)
    requires WellRead(g) && GroupsDone(g, s, users, n) && GroupPass(g, s, users, n).Some?
    requires it in GroupPass(g, s, users, n).value.1
    ensures it in s || IsAdded(g, s, users, n, it)
    decreases |g| - n
  {
    if n < |g| {
      if LineIsNis(g[n]) {
        GroupPassSource(g, s, users, n + 1, it);
      } else if Superfluous(g, g[n], GroupName) {
        DeletionKeepsDone(g, s, users, n);
        GroupPassSource(Without(g, n), s, users, n, it);
        AddedAfterDeletion(g, s, users, n, it);
      } else {
        SurvivorDone(g, s, users, n);
        var u := AddShadow(g[n := CleanGroupItem(g[n], users)], s, n).value;
        GroupPassSource(u.0, u.1, users, n + 1, it);
        AddedAfterTurn(g, s, users, n, it);
      }
    }
  }

  lemma {:induction false} AddedAfterDeletion(g: seq<GroupItem>, s: seq<SgrpItem>, users: set<string>, n: nat,
                                              it: SgrpItem)
    requires n < |g| && WellRead(g) && GroupsDone(g, s, users, n) && !LineIsNis(g[n]) && Superfluous(g, g[n], GroupName)
    ensures IsAdded(Without(g, n), s, users, n, it) ==> IsAdded(g, s, users, n, it)
  {
    if i: nat :| n <= i && Lacks(Without(g, n), s, i) && it == NewSgrp(Without(g, n)[i].rec.value, users) {
      var t := Without(g, n);
      assert i < |t| && |t| == |g| - 1;
      LacksAfterDeletion(g, s, users, n, i + 1);
      assert Lacks(g, s, i + 1) && it == NewSgrp(g[i + 1].rec.value, users);
    }
  }

  lemma {:induction false} AddedAfterTurn(g: seq<GroupItem>, s: seq<SgrpItem>, users: set<string>, n: nat, it: SgrpItem)
    requires n < |g| && WellRead(g) && GroupsDone(g, s, users, n)
    requires !LineIsNis(g[n]) && !Superfluous(g, g[n], GroupName)
    ensures AddShadow(g[n := CleanGroupItem(g[n], users)], s, n).Some?
    ensures var u := AddShadow(g[n := CleanGroupItem(g[n], users)], s, n).value;
            it in u.1 || IsAdded(u.0, u.1, users, n + 1, it) ==> it in s || IsAdded(g, s, users, n, it)
  {
    SurvivorStays(g, s, users, n);
    var u := AddShadow(g[n := CleanGroupItem(g[n], users)], s, n).value;
    var p := TurnShadow(g, s, users, n);
    if it in u.1 {
      assert it in s || (it == NewSgrp(g[n].rec.value, users) && Lacks(g, s, n));
    } else if i: nat :| n + 1 <= i && Lacks(u.0, u.1, i) && it == NewSgrp(u.0[i].rec.value, users) {
      LacksAfterTurn(g, s, users, n, i);
    }
  }

  // ----- the pass over gshadow -----

  lemma {:induction false} SgrpPassPrefix(g: seq<GroupItem>, s: seq<SgrpItem>, users: set<string>, n: nat, j: nat)
    requires j < n <= |s|
    ensures j < |SgrpPass(g, s, users, n)| && SgrpPass(g, s, users, n)[j] == s[j]
    decreases |s| - n
  {
    if n < |s| {
      if Superfluous(s, s[n], SgrpName) || Find(g, s[n].rec.value.name, GroupName).None? {
        SgrpPassPrefix(g, Without(s, n), users, n, j);
      } else {
        SgrpPassPrefix(g, s[n := CleanSgrpItem(s[n], users)], users, n + 1, j);
      }
    }
  }

  /** The last entry of its name repeats no entry that is done. */
  lemma {:induction false} LastIsOnly(g: seq<GroupItem>, s: seq<SgrpItem>, users: set<string>, n: nat)
    requires n < |s| && SgrpsDone(g, s, users, n) && IsLast(s, n, SgrpName)
    ensures Times(s, s[n].rec.value.name, SgrpName) == 1
  {
    var name := s[n].rec.value.name;
    RepeatedTimes(s, name, SgrpName);
    var k := FirstNamed(s, 0, name, SgrpName);
    if k < n {
      assert SgrpDone(g, s, users, s[k]);
    } else {
      var m := FirstNamed(s, n + 1, name, SgrpName);
    }
    OccursOnce(s, n, SgrpName);
  }

  lemma {:induction false} SgrpPassKeepsLast(g: seq<GroupItem>, s: seq<SgrpItem>, users: set<string>, n: nat, i: nat)
    requires SgrpsDone(g, s, users, n) && n <= i && IsLast(s, i, SgrpName)
    requires Find(g, s[i].rec.value.name, GroupName).Some?
    ensures CleanSgrpItem(s[i], users) in SgrpPass(g, s, users, n)
    decreases |s| - n
  {
    if i == n {
      LastIsOnly(g, s, users, n);
      SgrpPassPrefix(g, s[n := CleanSgrpItem(s[n], users)], users, n + 1, n);
    } else if Superfluous(s, s[n], SgrpName) || Find(g, s[n].rec.value.name, GroupName).None? {
      SgrpDeletion(g, s, users, n);
      WithoutKeepsLast(s, n, i);
      SgrpPassKeepsLast(g, Without(s, n), users, n, i - 1);
    } else {
      SgrpCleaning(g, s, users, n);
      SgrpPassKeepsLast(g, s[n := CleanSgrpItem(s[n], users)], users, n + 1, i);
    }
  }

  lemma {:induction false} WithoutKeepsLast(s: seq<SgrpItem>, n: nat, i: nat)
    requires n < i < |s|
    ensures IsLast(s, i, SgrpName) <==> IsLast(Without(s, n), i - 1, SgrpName)
  {
    var t := Without(s, n);
    assert forall j :: i < j < |s| ==> t[j - 1] == s[j];
    assert forall j :: i - 1 < j < |t| ==> t[j] == s[j + 1];
  }

  /** The entry comes from the last one of its name, which is the name of a group. */
  ghost predicate IsCleaned(g: seq<GroupItem>, s: seq<SgrpItem>, users: set<string>, n: nat, it: SgrpItem) {
    exists i :: n <= i < |s| && IsLast(s, i, SgrpName) && Find(g, s[i].rec.value.name, GroupName).Some?
                && it == CleanSgrpItem(s[i], users)
  }

  lemma {:induction false} SgrpPassSource(g: seq<GroupItem>, s: seq<SgrpItem>, users: set<string>, n: nat, it: SgrpItem)
    requires SgrpsDone(g, s, users, n) && n <= |s| && it in SgrpPass(g, s, users, n)
    ensures it in s[..n] || IsCleaned(g, s, users, n, it)
    decreases |s| - n
  {
    if n < |s| {
      if Superfluous(s, s[n], SgrpName) || Find(g, s[n].rec.value.name, GroupName).None? {
        SgrpDeletion(g, s, users, n);
        SgrpPassSource(g, Without(s, n), users, n, it);
        assert Without(s, n)[..n] == s[..n];
        CleanedAfterDeletion(g, s, users, n, it);
      } else {
        CleanedSource(g, s, users, n, it);
      }
    } else {
      assert s[..n] == s;
    }
  }

  lemma {:induction false} CleanedAfterDeletion(g: seq<GroupItem>, s: seq<SgrpItem>, users: set<string>, n: nat,
                                                it: SgrpItem)
    requires n < |s|
    ensures IsCleaned(g, Without(s, n), users, n, it) ==> IsCleaned(g, s, users, n, it)
  {
    var t := Without(s, n);
    if i :| n <= i < |t| && IsLast(t, i, SgrpName) && Find(g, t[i].rec.value.name, GroupName).Some?
            && it == CleanSgrpItem(t[i], users) {
      WithoutKeepsLast(s, n, i + 1);
      assert s[i + 1] == t[i];
    }
  }

  lemma {:induction false} CleanedSource(g: seq<GroupItem>, s: seq<SgrpItem>, users: set<string>, n: nat, it: SgrpItem)
    requires n < |s| && SgrpsDone(g, s, users, n) && it in SgrpPass(g, s, users, n)
    requires !Superfluous(s, s[n], SgrpName) && Find(g, s[n].rec.value.name, GroupName).Some?
    ensures it in s[..n] || IsCleaned(g, s, users, n, it)
    decreases |s| - n, 0
  {
    var t := s[n := CleanSgrpItem(s[n], users)];
    SgrpCleaning(g, s, users, n);
    SgrpPassSource(g, t, users, n + 1, it);
    assert t[..n + 1] == s[..n] + [t[n]];
    if it == t[n] {
      OnlyIsLast(s, n);
    } else if it !in s[..n] {
      var i :| n + 1 <= i < |t| && IsLast(t, i, SgrpName) && Find(g, t[i].rec.value.name, GroupName).Some?
               && it == CleanSgrpItem(t[i], users);
      assert t[i] == s[i] && IsLast(s, i, SgrpName) by {
        assert forall j :: i <= j < |s| ==> t[j] == s[j];
      }
    }
  }

  lemma {:induction false} OnlyIsLast(s: seq<SgrpItem>, n: nat)
    requires n < |s| && !Superfluous(s, s[n], SgrpName)
    ensures IsLast(s, n, SgrpName)
  {
    var name := s[n].rec.value.name;
    OccursOnce(s, n, SgrpName);
    FoundHere(s, n, SgrpName);
    UpdatedInPlace(s, n, s[n].rec.value, SgrpName);
    FindFrom(s, n + 1, name, SgrpName);
    var k := FirstNamed(s, n + 1, name, SgrpName);
    assert k == |s|;
    forall j | n < j < |s| && s[j].rec.Some?
      ensures s[j].rec.value.name != name
    {
      assert !Named(s[j], name, SgrpName);
    }
  }

  // ----- gshadow after a run -----

  lemma {:induction false} CleanedSgrpIsKept(it: SgrpItem, users: set<string>)
    requires it.rec.Some?
    ensures SgrpKept(it, CleanSgrpItem(it, users), users)
  {
    ExistingKeeps(it.rec.value.adm, users);
    ExistingKeeps(it.rec.value.mem, users);
  }

  lemma {:induction false} NewIsAdded(gr: GroupRec, users: set<string>)
    ensures SgrpAdded(gr, CleanSgrpItem(NewSgrp(gr, users), users), users)
  {
    assert Counted(gr.members) == Listed(gr.members);
    ExistingKeeps(Listed(gr.members), users);
    ExistingAll(Existing(Listed(gr.members), users), users);
  }

  /** The last gshadow entry of a name that group has. */
  predicate SgrpStays(g: seq<GroupItem>, s: seq<SgrpItem>, i: nat) {
    IsLast(s, i, SgrpName) && HasName(g, s[i].rec.value.name, GroupName)
  }

  /**
   Of gshadow exactly the last entry of each name that group has stays, with its name,
   its password and its existing members and administrators; and each group it lacked
   has a new entry with the group's password and existing members.
   */
  lemma {:induction false} ShadowsKept(g: seq<GroupItem>, s: seq<SgrpItem>, users: set<string>)
    requires WellRead(g)
    ensures Checked(g, s, users).Some?
    ensures var t := Checked(g, s, users).value.1;
            && (forall i: nat :: SgrpStays(g, s, i) ==> exists it :: it in t && SgrpKept(s[i], it, users))
            && (forall i: nat :: Lacks(g, s, i) ==> exists it :: it in t && SgrpAdded(g[i].rec.value, it, users))
            && (forall it :: it in t ==> || (exists i: nat :: SgrpStays(g, s, i) && SgrpKept(s[i], it, users))
                                         || (exists i: nat :: Lacks(g, s, i) && SgrpAdded(g[i].rec.value, it, users)))
  {
    GroupPassDone(g, s, users, 0);
    var t := Checked(g, s, users).value.1;
    forall i: nat | SgrpStays(g, s, i)
      ensures exists it :: it in t && SgrpKept(s[i], it, users)
    {
      StaysInShadow(g, s, users, i);
    }
    forall i: nat | Lacks(g, s, i)
      ensures exists it :: it in t && SgrpAdded(g[i].rec.value, it, users)
    {
      AddedToShadow(g, s, users, i);
    }
    forall it | it in t
      ensures (exists i: nat :: SgrpStays(g, s, i) && SgrpKept(s[i], it, users))
              || (exists i: nat :: Lacks(g, s, i) && SgrpAdded(g[i].rec.value, it, users))
    {
      ShadowSource(g, s, users, it);
    }
  }

  lemma {:induction false} StaysInShadow(g: seq<GroupItem>, s: seq<SgrpItem>, users: set<string>, i: nat)
    requires WellRead(g) && SgrpStays(g, s, i)
    ensures Checked(g, s, users).Some?
    ensures CleanSgrpItem(s[i], users) in Checked(g, s, users).value.1
    ensures SgrpKept(s[i], CleanSgrpItem(s[i], users), users)
  {
    GroupPassDone(g, s, users, 0);
    var u := GroupPass(g, s, users, 0).value;
    var k := GroupPassKeepsLast(g, s, users, 0, i);
    HasFind(g, s[i].rec.value.name, GroupName);
    SgrpPassKeepsLast(u.0, u.1, users, 0, k);
    CleanedSgrpIsKept(s[i], users);
  }

  lemma {:induction false} AddedToShadow(g: seq<GroupItem>, s: seq<SgrpItem>, users: set<string>, i: nat)
    requires WellRead(g) && Lacks(g, s, i)
    ensures Checked(g, s, users).Some?
    ensures var it := CleanSgrpItem(NewSgrp(g[i].rec.value, users), users);
            it in Checked(g, s, users).value.1 && SgrpAdded(g[i].rec.value, it, users)
  {
    GroupPassDone(g, s, users, 0);
    var u := GroupPass(g, s, users, 0).value;
    var k := GroupPassAdds(g, s, users, 0, i);
    OccursOnce(g, i, GroupName);
    SgrpPassKeepsLast(u.0, u.1, users, 0, k);
    NewIsAdded(g[i].rec.value, users);
  }

  lemma {:induction false} ShadowSource(g: seq<GroupItem>, s: seq<SgrpItem>, users: set<string>, it: SgrpItem)
    requires WellRead(g) && Checked(g, s, users).Some? && it in Checked(g, s, users).value.1
    ensures (exists i: nat :: SgrpStays(g, s, i) && SgrpKept(s[i], it, users))
            || (exists i: nat :: Lacks(g, s, i) && SgrpAdded(g[i].rec.value, it, users))
  {
    GroupPassDone(g, s, users, 0);
    var u := GroupPass(g, s, users, 0).value;
    SgrpPassSource(u.0, u.1, users, 0, it);
    var k :| 0 <= k < |u.1| && IsLast(u.1, k, SgrpName) && Find(u.0, u.1[k].rec.value.name, GroupName).Some?
             && it == CleanSgrpItem(u.1[k], users);
    GroupPassSource(g, s, users, 0, u.1[k]);
    if u.1[k] in s {
      LastAgain(g, s, users, k);
      var i :| 0 <= i < |s| && IsLast(s, i, SgrpName) && s[i] == u.1[k];
      HasFind(g, s[i].rec.value.name, GroupName);
      CleanedSgrpIsKept(s[i], users);
      assert SgrpStays(g, s, i);
    } else {
      var i: nat :| Lacks(g, s, i) && u.1[k] == NewSgrp(g[i].rec.value, users);
      NewIsAdded(g[i].rec.value, users);
    }
  }

  /** The last entry of its name in a list, by recursion to the one behind it. */
  lemma {:induction false} SomeLast(s: seq<SgrpItem>, i: nat) returns (k: nat)
    requires i < |s| && s[i].rec.Some?
    ensures i <= k < |s| && IsLast(s, k, SgrpName) && s[k].rec.value.name == s[i].rec.value.name
    decreases |s| - i
  {
    if j :| i < j < |s| && s[j].rec.Some? && s[j].rec.value.name == s[i].rec.value.name {
      k := SomeLast(s, j);
    } else {
      k := i;
    }
  }

  /** An entry that is last after the pass over group was last before. */
  lemma {:induction false} LastAgain(g: seq<GroupItem>, s: seq<SgrpItem>, users: set<string>, k: nat)
    requires WellRead(g) && GroupPass(g, s, users, 0).Some?
    requires var t := GroupPass(g, s, users, 0).value.1; IsLast(t, k, SgrpName) && t[k] in s
    ensures exists i :: 0 <= i < |s| && IsLast(s, i, SgrpName) && s[i] == GroupPass(g, s, users, 0).value.1[k]
  {
    var t := GroupPass(g, s, users, 0).value.1;
    var i :| 0 <= i < |s| && s[i] == t[k];
    var l := SomeLast(s, i);
    var m := GroupPassKeepsLast(g, s, users, 0, l);
    assert m == k;
  }
}
