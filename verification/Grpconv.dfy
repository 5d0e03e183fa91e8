/**
 What src/grpconv.c and src/grpunconv.c do to the lists of group and gshadow, on
 values: the loops as functions of both lists, when they succeed, and what the
 two conversions mean together.
 */
module Grpconv {
  import opened Wrappers
  import opened CommonIO
  import opened CommonIOLookup
  import opened GroupSplit

  /** The value of a `struct sgrp`. */
  datatype Sgrp = Sgrp(name: string, passwd: string, adm: seq<string>, mem: seq<string>)

  type SgrpItem = Item<Sgrp>

  function GroupName(g: GroupRec): string { g.name }

  function SgrpName(g: Sgrp): string { g.name }

  // ----- removing gshadow entries without a group -----

  predicate Orphan(it: SgrpItem, g: seq<GroupItem>) {
    it.rec.Some? && Find(g, it.rec.value.name, GroupName).None?
  }

  function FirstOrphan(s: seq<SgrpItem>, g: seq<GroupItem>, from: nat): (k: nat)
    requires from <= |s|
    ensures from <= k <= |s|
    ensures k < |s| ==> Orphan(s[k], g)
    ensures forall j :: from <= j < k ==> !Orphan(s[j], g)
    decreases |s| - from
  {
    if from == |s| || Orphan(s[from], g) then from else FirstOrphan(s, g, from + 1)
  }

  /** The first loop of `grpconv`: it removes the first orphan and starts again. */
  function RemoveOrphans(s: seq<SgrpItem>, g: seq<GroupItem>): Option<seq<SgrpItem>>
    decreases |s|
  {
    var k := FirstOrphan(s, g, 0);
    if k == |s| then Some(s)
    else
      var t := Removed(s, s[k].rec.value.name, SgrpName);
      if t.None? then None else RemoveOrphans(t.value, g)
  }

  function NonOrphans(s: seq<SgrpItem>, g: seq<GroupItem>): seq<SgrpItem> {
    if s == [] then [] else (if Orphan(s[0], g) then [] else [s[0]]) + NonOrphans(s[1..], g)
  }

  lemma {:induction false} NonOrphansAll(s: seq<SgrpItem>, g: seq<GroupItem>)
    requires forall i :: 0 <= i < |s| ==> !Orphan(s[i], g)
    ensures NonOrphans(s, g) == s
  {
    if s != [] {
      assert forall i :: 0 <= i < |s[1..]| ==> s[1..][i] == s[i + 1];
      NonOrphansAll(s[1..], g);
    }
  }

  lemma {:induction false} NonOrphansWithout(s: seq<SgrpItem>, g: seq<GroupItem>, k: nat)
    requires k < |s| && Orphan(s[k], g)
    ensures NonOrphans(Without(s, k), g) == NonOrphans(s, g)
  {
    if k == 0 {
      assert Without(s, 0) == s[1..];
    } else {
      NonOrphansWithout(s[1..], g, k - 1);
      assert Without(s, k)[1..] == Without(s[1..], k - 1);
    }
  }

  lemma {:induction false} NonOrphansFind(s: seq<SgrpItem>, g: seq<GroupItem>, name: string)
    ensures Find(NonOrphans(s, g), name, SgrpName)
              == (if Find(g, name, GroupName).Some? then Find(s, name, SgrpName) else None)
    ensures Times(NonOrphans(s, g), name, SgrpName)
              == if Find(g, name, GroupName).Some? then Times(s, name, SgrpName) else 0
  {
    if s != [] {
      NonOrphansFind(s[1..], g, name);
      FindConcat([s[0]], NonOrphans(s[1..], g), name, SgrpName);
      FindOne(s[0], name, SgrpName);
      assert [] + NonOrphans(s[1..], g) == NonOrphans(s[1..], g);
      assert Orphan(s[0], g) && Find(g, name, GroupName).Some? ==> !Named(s[0], name, SgrpName);
    }
  }

  ghost predicate OrphansOnce(s: seq<SgrpItem>, g: seq<GroupItem>) {
    forall name :: Find(g, name, GroupName).None? ==> Times(s, name, SgrpName) <= 1
  }

  /** The loop ends, fails only on a repeated orphan, and otherwise drops exactly
      the orphans. */
  lemma {:induction false} OrphansExact(s: seq<SgrpItem>, g: seq<GroupItem>)
    ensures RemoveOrphans(s, g).Some? <==> OrphansOnce(s, g)
    ensures RemoveOrphans(s, g).Some? ==> RemoveOrphans(s, g).value == NonOrphans(s, g)
    decreases |s|
  {
    var k := FirstOrphan(s, g, 0);
    if k == |s| {
      NonOrphansAll(s, g);
      forall name | Find(g, name, GroupName).None?
        ensures Times(s, name, SgrpName) <= 1
      {
        NonOrphansFind(s, g, name);
      }
    } else {
      var name := s[k].rec.value.name;
      RemovedEffect(s, name, name, SgrpName);
      RepeatedTimes(s, name, SgrpName);
      assert FirstNamed(s, 0, name, SgrpName) == k;
      var t := Removed(s, name, SgrpName);
      if t.Some? {
        OrphansExact(t.value, g);
        NonOrphansWithout(s, g, k);
        OnceAfterRemoval(s, g, name);
      }
    }
  }

  lemma {:induction false} OnceAfterRemoval(s: seq<SgrpItem>, g: seq<GroupItem>, name: string)
    requires Removed(s, name, SgrpName).Some?
    ensures OrphansOnce(Removed(s, name, SgrpName).value, g) <==> OrphansOnce(s, g)
  {
    var t := Removed(s, name, SgrpName).value;
    RemovedEffect(s, name, name, SgrpName);
    forall other
      ensures other != name ==> Times(t, other, SgrpName) == Times(s, other, SgrpName)
    {
      RemovedEffect(s, name, other, SgrpName);
    }
  }

  // ----- moving the passwords -----

  const PLACEHOLDER := "x"

  /** The gshadow record that `grpconv` writes for a group. */
  function Shadow(s: seq<SgrpItem>, gr: GroupRec): Sgrp {
    match Find(s, gr.name, SgrpName)
    case Some(sg) => sg.(passwd := if gr.passwd != PLACEHOLDER then gr.passwd else sg.passwd, mem := gr.members)
    case None => Sgrp(gr.name, gr.passwd, [], gr.members)
  }

  function Masked(gr: GroupRec): GroupRec {
    gr.(passwd := PLACEHOLDER)
  }

  /** The second loop of `grpconv` from position `n` on. */
  function Convert(g: seq<GroupItem>, s: seq<SgrpItem>, n: nat): Option<(seq<GroupItem>, seq<SgrpItem>)>
    requires n <= |g|
    decreases |g| - n
  {
    if n == |g| then Some((g, s))
    else if g[n].rec.None? then Convert(g, s, n + 1)
    else
      var gr := g[n].rec.value;
      var t := Updated(s, Shadow(s, gr), SgrpName);
      var h := Updated(g, Masked(gr), GroupName);
      assert Named(g[n], GroupName(Masked(gr)), GroupName);
      if t.None? || h.None? then None else Convert(h.value, t.value, n + 1)
  }

  /** Every group from position `n` on has a name of its own in both files. */
  ghost predicate Convertible(g: seq<GroupItem>, s: seq<SgrpItem>, n: nat) {
    forall i :: n <= i < |g| && g[i].rec.Some? ==> Once(g, s, g[i].rec.value.name)
  }

  ghost predicate Once(g: seq<GroupItem>, s: seq<SgrpItem>, name: string) {
    Times(g, name, GroupName) <= 1 && Times(s, name, SgrpName) <= 1
  }

  function MaskedItem(it: GroupItem): GroupItem {
    if it.rec.Some? then Item(it.line, Some(Masked(it.rec.value)), true) else it
  }

  function MaskFrom(g: seq<GroupItem>, n: nat): (r: seq<GroupItem>)
    ensures |r| == |g| && forall i :: 0 <= i < |g| ==> r[i] == if i >= n then MaskedItem(g[i]) else g[i]
  {
    seq(|g|, i requires 0 <= i < |g| => if i >= n then MaskedItem(g[i]) else g[i])
  }

  lemma {:induction false} ConvertibleStep(g: seq<GroupItem>, s: seq<SgrpItem>, n: nat)
    requires n < |g| && g[n].rec.Some? && Once(g, s, g[n].rec.value.name)
    ensures var gr := g[n].rec.value;
            && Updated(g, Masked(gr), GroupName) == Some(g[n := MaskedItem(g[n])])
            && Updated(s, Shadow(s, gr), SgrpName).Some?
            && (Convertible(g, s, n) <==>
                  Convertible(g[n := MaskedItem(g[n])], Updated(s, Shadow(s, gr), SgrpName).value, n + 1))
  {
    var gr := g[n].rec.value;
    UpdatedInPlace(g, n, Masked(gr), GroupName);
    UpdatedEffect(s, Shadow(s, gr), gr.name, SgrpName);
    FindTimes(s, gr.name, SgrpName);
    var h, t := g[n := MaskedItem(g[n])], Updated(s, Shadow(s, gr), SgrpName).value;
    forall i | n < i < |g| && g[i].rec.Some?
      ensures h[i] == g[i] && (Once(h, t, g[i].rec.value.name) <==> Once(g, s, g[i].rec.value.name))
    {
      UpdatedEffect(s, Shadow(s, gr), g[i].rec.value.name, SgrpName);
    }
  }

  /** The loop succeeds exactly on unique names and then masks every password. */
  lemma {:induction false} ConvertExact(g: seq<GroupItem>, s: seq<SgrpItem>, n: nat)
    requires n <= |g|
    ensures Convert(g, s, n).Some? <==> Convertible(g, s, n)
    ensures Convert(g, s, n).Some? ==> Convert(g, s, n).value.0 == MaskFrom(g, n)
    decreases |g| - n
  {
    if n < |g| {
      if g[n].rec.None? {
        ConvertExact(g, s, n + 1);
      } else {
        var gr := g[n].rec.value;
        UpdatedEffect(g, Masked(gr), gr.name, GroupName);
        FindTimes(s, gr.name, SgrpName);
        UpdatedEffect(s, Shadow(s, gr), gr.name, SgrpName);
        if Once(g, s, gr.name) {
          ConvertibleStep(g, s, n);
          var h := g[n := MaskedItem(g[n])];
          ConvertExact(h, Updated(s, Shadow(s, gr), SgrpName).value, n + 1);
          assert MaskFrom(h, n + 1) == MaskFrom(g, n);
        }
      }
    } else {
      assert MaskFrom(g, n) == g;
    }
  }

  /** What each name finds in gshadow after the loop. */
  lemma {:induction false} ConvertFind(g: seq<GroupItem>, s: seq<SgrpItem>, n: nat, name: string)
    requires n <= |g| && Convertible(g, s, n)
    ensures Convert(g, s, n).Some?
    ensures var t := Convert(g, s, n).value.1;
            var gr := Find(g[n..], name, GroupName);
            && Find(t, name, SgrpName) == (if gr.Some? then Some(Shadow(s, gr.value)) else Find(s, name, SgrpName))
            && Times(t, name, SgrpName) == (if gr.Some? then 1 else Times(s, name, SgrpName))
            && Raw(t) == Raw(s)
    decreases |g| - n
  {
    if n < |g| {
      ConvertExact(g, s, n);
      assert g[n..][0] == g[n] && g[n..][1..] == g[n + 1..];
      if g[n].rec.None? {
        ConvertFind(g, s, n + 1, name);
      } else {
        var gr := g[n].rec.value;
        ConvertibleStep(g, s, n);
        UpdatedInPlace(g, n, Masked(gr), GroupName);
        var h, t := g[n := MaskedItem(g[n])], Updated(s, Shadow(s, gr), SgrpName).value;
        assert h[n + 1..] == g[n + 1..];
        UpdatedEffect(s, Shadow(s, gr), name, SgrpName);
        UpdatedKeepsRaw(s, Shadow(s, gr), SgrpName);
        FindTimes(s, gr.name, SgrpName);
        FindTimes(g[n + 1..], name, GroupName);
        ConvertFind(h, t, n + 1, name);
      }
    }
  }

  // ----- grpconv -----

  function Converted(g: seq<GroupItem>, s: seq<SgrpItem>): Option<(seq<GroupItem>, seq<SgrpItem>)> {
    var t := RemoveOrphans(s, g);
    if t.None? then None else Convert(g, t.value, 0)
  }

  lemma {:induction false} SomeNamed<T>(s: seq<Item<T>>, name: string, getName: T -> string) returns (k: nat)
    requires Times(s, name, getName) > 0
    ensures k < |s| && Named(s[k], name, getName)
  {
    RepeatedTimes(s, name, getName);
    k := FirstNamed(s, 0, name, getName);
  }

  /** `grpconv` succeeds if and only if no name is repeated in either file. */
  lemma {:induction false} GrpconvSucceeds(g: seq<GroupItem>, s: seq<SgrpItem>)
    ensures Converted(g, s).Some? <==> Unique(g, GroupName) && Unique(s, SgrpName)
  {
    OrphansExact(s, g);
    var t := NonOrphans(s, g);
    ConvertExact(g, t, 0);
    if OrphansOnce(s, g) && Convertible(g, t, 0) {
      forall name
        ensures Times(g, name, GroupName) <= 1 && Times(s, name, SgrpName) <= 1
      {
        NonOrphansFind(s, g, name);
        FindTimes(g, name, GroupName);
        if Times(g, name, GroupName) > 0 {
          var k := SomeNamed(g, name, GroupName);
          assert Once(g, t, g[k].rec.value.name);
        }
      }
    }
    if Unique(g, GroupName) && Unique(s, SgrpName) {
      forall i | 0 <= i < |g| && g[i].rec.Some?
        ensures Once(g, t, g[i].rec.value.name)
      {
        NonOrphansFind(s, g, g[i].rec.value.name);
      }
    }
  }

  /** After `grpconv` every group password is the placeholder, gshadow has exactly
      the names of group, and each entry holds the group's members and its
      password unless that was the placeholder already. */
  lemma {:induction false} GrpconvEffect(g: seq<GroupItem>, s: seq<SgrpItem>, name: string)
    requires Unique(g, GroupName) && Unique(s, SgrpName)
    ensures Converted(g, s).Some?
    ensures var (h, t) := Converted(g, s).value;
            var gr := Find(g, name, GroupName);
            && h == MaskFrom(g, 0)
            && Find(t, name, SgrpName) == (if gr.Some? then Some(Shadow(s, gr.value)) else None)
            && Times(t, name, SgrpName) == Times(g, name, GroupName)
            && Raw(t) == Raw(s)
  {
    GrpconvSucceeds(g, s);
    OrphansExact(s, g);
    OrphansKeepRaw(s, g);
    var u := NonOrphans(s, g);
    ConvertExact(g, u, 0);
    ConvertFind(g, u, 0, name);
    assert g[0..] == g;
    NonOrphansFind(s, g, name);
    FindTimes(g, name, GroupName);
  }

  /** Told in fields: what `grpconv` leaves of a group, and what it writes to gshadow
      for it. Administrators stay; a group password moves unless it is "x". */
  lemma {:induction false} GrpconvFields(g: seq<GroupItem>, s: seq<SgrpItem>, i: nat)
    requires Unique(g, GroupName) && Unique(s, SgrpName) && i < |g|
    ensures Converted(g, s).Some? && |Converted(g, s).value.0| == |g|
    ensures var it := Converted(g, s).value.0[i];
            if g[i].rec.None? then it == g[i]
            else && it.rec.Some? && it.line == g[i].line && it.changed
                 && it.rec.value.name == g[i].rec.value.name && it.rec.value.passwd == "x"
                 && it.rec.value.gid == g[i].rec.value.gid && it.rec.value.members == g[i].rec.value.members
    ensures g[i].rec.Some? ==>
              var (gr, t) := (g[i].rec.value, Converted(g, s).value.1);
              var sg := Find(s, gr.name, SgrpName);
              && Find(t, gr.name, SgrpName).Some?
              && var sh := Find(t, gr.name, SgrpName).value;
                 && sh.name == gr.name && sh.mem == gr.members
                 && sh.adm == (if sg.Some? then sg.value.adm else [])
                 && sh.passwd == if sg.Some? && gr.passwd == "x" then sg.value.passwd else gr.passwd
  {
    GrpconvEffect(g, s, "");
    if g[i].rec.Some? {
      var gr := g[i].rec.value;
      GrpconvEffect(g, s, gr.name);
      FoundAt(g, i, gr);
      FindTimes(s, gr.name, SgrpName);
    }
  }

  lemma {:induction false} OrphansKeepRaw(s: seq<SgrpItem>, g: seq<GroupItem>)
    ensures Raw(NonOrphans(s, g)) == Raw(s)
  {
    if s != [] {
      OrphansKeepRaw(s[1..], g);
      assert [] + NonOrphans(s[1..], g) == NonOrphans(s[1..], g);
      assert ([s[0]] + NonOrphans(s[1..], g))[1..] == NonOrphans(s[1..], g);
    }
  }

  // ----- grpunconv -----

  /** The loop of `grpunconv` from position `n` on. */
  function Unconvert(g: seq<GroupItem>, s: seq<SgrpItem>, n: nat): Option<seq<GroupItem>>
    requires n <= |g|
    decreases |g| - n
  {
    if n == |g| then Some(g)
    else if g[n].rec.None? then Unconvert(g, s, n + 1)
    else
      var gr := g[n].rec.value;
      var sg := Find(s, gr.name, SgrpName);
      if sg.Some? && gr.passwd == PLACEHOLDER then
        var h := Updated(g, gr.(passwd := sg.value.passwd), GroupName);
        assert Named(g[n], gr.name, GroupName);
        if h.None? then None else Unconvert(h.value, s, n + 1)
      else Unconvert(g, s, n + 1)
  }

  /** The password a group goes by: its own unless it is the placeholder and gshadow
      has one. */
  function Effective(gr: GroupRec, s: seq<SgrpItem>): string {
    var sg := Find(s, gr.name, SgrpName);
    if gr.passwd == PLACEHOLDER && sg.Some? then sg.value.passwd else gr.passwd
  }

  /** The loop gives this group the password that gshadow has. */
  predicate Restorable(it: GroupItem, s: seq<SgrpItem>) {
    it.rec.Some? && it.rec.value.passwd == PLACEHOLDER && Find(s, it.rec.value.name, SgrpName).Some?
  }

  /** No group that needs its password back shares its name with another one. */
  ghost predicate RestorableOnce(g: seq<GroupItem>, s: seq<SgrpItem>, n: nat) {
    forall i :: n <= i < |g| && Restorable(g[i], s) ==> Times(g, g[i].rec.value.name, GroupName) <= 1
  }

  function RestoredItem(it: GroupItem, s: seq<SgrpItem>): GroupItem {
    if Restorable(it, s) then Item(it.line, Some(it.rec.value.(passwd := Effective(it.rec.value, s))), true) else it
  }

  function RestoreFrom(g: seq<GroupItem>, s: seq<SgrpItem>, n: nat): (r: seq<GroupItem>)
    ensures |r| == |g| && forall i :: 0 <= i < |g| ==> r[i] == if i >= n then RestoredItem(g[i], s) else g[i]
  {
    seq(|g|, i requires 0 <= i < |g| => if i >= n then RestoredItem(g[i], s) else g[i])
  }

  /** `grpunconv` fails exactly when a group that needs its password back has a
      repeated name, and otherwise gives each its effective password in place. */
  lemma {:induction false} UnconvertExact(g: seq<GroupItem>, s: seq<SgrpItem>, n: nat)
    requires n <= |g|
    ensures Unconvert(g, s, n).Some? <==> RestorableOnce(g, s, n)
    ensures Unconvert(g, s, n).Some? ==> Unconvert(g, s, n).value == RestoreFrom(g, s, n)
    decreases |g| - n
  {
    if n == |g| {
      assert RestoreFrom(g, s, n) == g;
    } else if !Restorable(g[n], s) {
      UnconvertExact(g, s, n + 1);
      assert RestoreFrom(g, s, n + 1) == RestoreFrom(g, s, n);
    } else {
      var name := g[n].rec.value.name;
      UpdatedEffect(g, RestoredItem(g[n], s).rec.value, name, GroupName);
      if Times(g, name, GroupName) <= 1 {
        UnconvertTurn(g, s, n);
        var h := g[n := RestoredItem(g[n], s)];
        UnconvertExact(h, s, n + 1);
        assert RestoreFrom(h, s, n + 1) == RestoreFrom(g, s, n);
      }
    }
  }

  /** Told in fields: `grpunconv` gives each group whose password is "x" the one that
      gshadow has for it, and leaves every other entry as it is. */
  lemma {:induction false} UnconvertFields(g: seq<GroupItem>, s: seq<SgrpItem>)
    requires Unconvert(g, s, 0).Some?
    ensures var k := Unconvert(g, s, 0).value;
            && |k| == |g|
            && forall i :: 0 <= i < |g| ==>
                 if g[i].rec.Some? && g[i].rec.value.passwd == "x" && Find(s, g[i].rec.value.name, SgrpName).Some?
                 then && k[i].rec.Some? && k[i].line == g[i].line && k[i].changed
                      && k[i].rec.value.name == g[i].rec.value.name && k[i].rec.value.gid == g[i].rec.value.gid
                      && k[i].rec.value.members == g[i].rec.value.members
                      && k[i].rec.value.passwd == Find(s, g[i].rec.value.name, SgrpName).value.passwd
                 else k[i] == g[i]
  {
    UnconvertExact(g, s, 0);
  }

  lemma {:induction false} UnconvertTurn(g: seq<GroupItem>, s: seq<SgrpItem>, n: nat)
    requires n < |g| && Restorable(g[n], s) && Times(g, g[n].rec.value.name, GroupName) <= 1
    ensures var h := g[n := RestoredItem(g[n], s)];
            && Unconvert(g, s, n) == Unconvert(h, s, n + 1)
            && (RestorableOnce(g, s, n) <==> RestorableOnce(h, s, n + 1))
  {
    UpdatedInPlace(g, n, RestoredItem(g[n], s).rec.value, GroupName);
    var h := g[n := RestoredItem(g[n], s)];
    assert forall i :: n < i < |g| ==> h[i] == g[i];
  }

  // ----- both together -----

  /** Two lists that hold the same records. */
  predicate SameRecs<T(==)>(s: seq<Item<T>>, t: seq<Item<T>>) {
    |s| == |t| && forall i :: 0 <= i < |s| ==> s[i].rec == t[i].rec
  }

  lemma {:induction false} SameRecsFind<T>(s: seq<Item<T>>, t: seq<Item<T>>, name: string, getName: T -> string)
    requires SameRecs(s, t)
    ensures Find(s, name, getName) == Find(t, name, getName) && Times(s, name, getName) == Times(t, name, getName)
  {
    if s != [] {
      assert forall i :: 0 <= i < |s[1..]| ==> s[1..][i] == s[i + 1] && t[1..][i] == t[i + 1];
      SameRecsFind(s[1..], t[1..], name, getName);
    }
  }

  lemma {:induction false} MaskKeepsNames(g: seq<GroupItem>, name: string)
    ensures Times(MaskFrom(g, 0), name, GroupName) == Times(g, name, GroupName)
    ensures var gr := Find(g, name, GroupName);
            Find(MaskFrom(g, 0), name, GroupName) == if gr.Some? then Some(Masked(gr.value)) else None
  {
    if g != [] {
      assert MaskFrom(g, 0)[1..] == MaskFrom(g[1..], 0);
      MaskKeepsNames(g[1..], name);
    }
  }

  lemma {:induction false} FoundAt(g: seq<GroupItem>, i: nat, gr: GroupRec)
    requires Unique(g, GroupName) && i < |g| && g[i].rec == Some(gr)
    ensures Find(g, gr.name, GroupName) == Some(gr)
  {
    assert Times(g, gr.name, GroupName) <= 1;
    UpdatedInPlace(g, i, gr, GroupName);
    RepeatedTimes(g, gr.name, GroupName);
    assert FirstNamed(g, 0, gr.name, GroupName) == i;
  }

  /** The loop changes no record when every entry already is what it would write. */
  lemma {:induction false} ConvertStable(g: seq<GroupItem>, s: seq<SgrpItem>, n: nat)
    requires n <= |g| && Convertible(g, s, n)
    requires forall i :: n <= i < |g| && g[i].rec.Some? ==>
               Find(s, g[i].rec.value.name, SgrpName) == Some(Shadow(s, g[i].rec.value))
    ensures Convert(g, s, n).Some? && SameRecs(Convert(g, s, n).value.1, s)
    decreases |g| - n
  {
    if n < |g| {
      if g[n].rec.None? {
        ConvertStable(g, s, n + 1);
      } else {
        var gr := g[n].rec.value;
        ConvertibleStep(g, s, n);
        var h, t := g[n := MaskedItem(g[n])], Updated(s, Shadow(s, gr), SgrpName).value;
        RepeatedTimes(s, gr.name, SgrpName);
        assert SameRecs(t, s);
        forall i | n < i < |h| && h[i].rec.Some?
          ensures Find(t, h[i].rec.value.name, SgrpName) == Some(Shadow(t, h[i].rec.value))
        {
          SameRecsFind(t, s, h[i].rec.value.name, SgrpName);
        }
        ConvertStable(h, t, n + 1);
      }
    }
  }

  /** What a finished conversion looks like. */
  ghost predicate Settled(h: seq<GroupItem>, t: seq<SgrpItem>, name: string) {
    && Once(h, t, name)
    && (Find(t, name, SgrpName).Some? ==> Find(h, name, GroupName).Some?)
    && (Find(h, name, GroupName).Some? ==> Find(t, name, SgrpName) == Some(Shadow(t, Find(h, name, GroupName).value)))
  }

  lemma {:induction false} SettledStays(h: seq<GroupItem>, t: seq<SgrpItem>)
    requires forall name :: Settled(h, t, name)
    ensures Converted(h, t).Some?
    ensures Converted(h, t).value.0 == MaskFrom(h, 0) && SameRecs(Converted(h, t).value.1, t)
  {
    forall i | 0 <= i < |t|
      ensures !Orphan(t[i], h)
    {
      if t[i].rec.Some? {
        NotMissed(t, i);
        assert Settled(h, t, t[i].rec.value.name);
      }
    }
    assert RemoveOrphans(t, h) == Some(t);
    forall i | 0 <= i < |h| && h[i].rec.Some?
      ensures Find(h, h[i].rec.value.name, GroupName) == h[i].rec && Settled(h, t, h[i].rec.value.name)
    {
      assert Settled(h, t, h[i].rec.value.name);
      RepeatedTimes(h, h[i].rec.value.name, GroupName);
      UpdatedInPlace(h, i, h[i].rec.value, GroupName);
    }
    ConvertStable(h, t, 0);
    ConvertExact(h, t, 0);
  }

  lemma {:induction false} NotMissed(t: seq<SgrpItem>, i: nat)
    requires i < |t| && t[i].rec.Some?
    ensures Find(t, t[i].rec.value.name, SgrpName).Some?
  {
    RepeatedTimes(t, t[i].rec.value.name, SgrpName);
    FindTimes(t, t[i].rec.value.name, SgrpName);
  }
}
