/**
 src/grpck.c over the two files: it opens them, checks the lists, and commits what it
 marked. A second run, on the files that the first one left, finds nothing to do.
 */
module GrpckFiles {
  import opened Wrappers
  import opened CommonIO
  import opened Commit
  import opened CommonIOOpen
  import opened CommonIOLookup
  import opened Fields
  import opened GroupSplit
  import opened Grpconv
  import opened GroupText
  import opened GroupStore
  import opened GroupPieces
  import opened GroupFiles
  import opened Grpck

  /** A run that finds the files `a` and `b`, with at most `max` members on a line of
      group (0 for no limit), answers yes to every question, and leaves `c` and `d`. */
  ghost predicate Run(a: string, b: string, c: string, d: string, users: set<string>, max: nat, num: Reader) {
    && Lines(a).Some? && Lines(b).Some?
    && Checked(Opened(a, max, num), Load(b, ParseSgrp), users).Some?
    && var (h, t) := Checked(Opened(a, max, num), Load(b, ParseSgrp), users).value;
       Serialize(Closed(h, max), PutGroup) == Some(c) && Serialize(t, PutSgrp) == Some(d)
  }

  // ----- what the passes leave of the entries that were read -----

  /** Marked, or as opened except that a list of one empty name was dropped. */
  predicate GroupHeld(it: GroupItem, max: nat, num: Reader) {
    GroupMarked(it) ||
    (FromLines(it, max, num) && (it == BackOf(it, max, num) || it == RelistedItem(BackOf(it, max, num))))
  }

  ghost predicate BothHeld(g: seq<GroupItem>, s: seq<SgrpItem>, max: nat, num: Reader) {
    (forall i :: 0 <= i < |g| ==> GroupHeld(g[i], max, num)) && (forall i :: 0 <= i < |s| ==> SgrpHeld(s[i]))
  }

  lemma {:induction false} HeldName(it: GroupItem, max: nat, num: Reader)
    requires GroupHeld(it, max, num) && it.rec.Some?
    ensures !NameIsNis(it.rec.value.name)
  {
    if !it.changed {
      OpenedName(it, max, num);
    }
  }

  lemma {:induction false} RelistedIsHeld(it: GroupItem, max: nat, num: Reader)
    requires !it.changed && GroupHeld(it, max, num)
    ensures GroupHeld(RelistedItem(it), max, num)
  {
    var r := RelistedItem(it);
    assert LinesIn(r) == LinesIn(it) && BlockOf(r, max, num) == BlockOf(it, max, num);
    assert it.rec.Some? ==> Listed(Listed(it.rec.value.members)) == Listed(it.rec.value.members);
  }

  lemma {:induction false} CleanedIsHeld(it: GroupItem, users: set<string>, max: nat, num: Reader)
    requires GroupHeld(it, max, num) && it.rec.Some?
    ensures GroupHeld(CleanGroupItem(it, users), max, num)
  {
    HeldName(it, max, num);
    if !CleanGroupItem(it, users).changed {
      assert CleanGroupItem(it, users) == RelistedItem(it);
      RelistedIsHeld(it, max, num);
    }
  }

  lemma {:induction false} UpdatedIsHeld(s: seq<SgrpItem>, r: Sgrp)
    requires (forall i :: 0 <= i < |s| ==> SgrpHeld(s[i])) && !NameIsNis(r.name) && Updated(s, r, SgrpName).Some?
    ensures forall i :: 0 <= i < |Updated(s, r, SgrpName).value| ==> SgrpHeld(Updated(s, r, SgrpName).value[i])
  {
  }

  lemma {:induction false} TurnIsHeld(g: seq<GroupItem>, s: seq<SgrpItem>, users: set<string>, n: nat, max: nat,
                                      num: Reader)
    requires n < |g| && !LineIsNis(g[n]) && !Superfluous(g, g[n], GroupName) && BothHeld(g, s, max, num)
    ensures var u := AddShadow(g[n := CleanGroupItem(g[n], users)], s, n);
            u.Some? && BothHeld(u.value.0, u.value.1, max, num)
  {
    SurvivorTurn(g, s, users, n);
    CleanedIsHeld(g[n], users, max, num);
    HeldName(g[n], max, num);
    var r := CleanGroup(g[n].rec.value, users);
    if Find(s, r.name, SgrpName).None? {
      UpdatedIsHeld(s, Sgrp(r.name, r.passwd, [], r.members));
    }
  }

  lemma {:induction false} GroupPassHeld(g: seq<GroupItem>, s: seq<SgrpItem>, users: set<string>, n: nat, max: nat,
                                         num: Reader)
    requires BothHeld(g, s, max, num)
    ensures GroupPass(g, s, users, n).Some? ==>
              BothHeld(GroupPass(g, s, users, n).value.0, GroupPass(g, s, users, n).value.1, max, num)
    decreases |g| - n
  {
    if n < |g| {
      if LineIsNis(g[n]) {
        GroupPassHeld(g, s, users, n + 1, max, num);
      } else if Superfluous(g, g[n], GroupName) {
        GroupPassHeld(Without(g, n), s, users, n, max, num);
      } else {
        TurnIsHeld(g, s, users, n, max, num);
        var u := AddShadow(g[n := CleanGroupItem(g[n], users)], s, n).value;
        GroupPassHeld(u.0, u.1, users, n + 1, max, num);
      }
    }
  }

  lemma {:induction false} SgrpPassHeld(g: seq<GroupItem>, s: seq<SgrpItem>, users: set<string>, n: nat)
    requires forall i :: 0 <= i < |s| ==> SgrpHeld(s[i])
    ensures forall i :: 0 <= i < |SgrpPass(g, s, users, n)| ==> SgrpHeld(SgrpPass(g, s, users, n)[i])
    decreases |s| - n
  {
    if n < |s| {
      if Superfluous(s, s[n], SgrpName) || Find(g, s[n].rec.value.name, GroupName).None? {
        SgrpPassHeld(g, Without(s, n), users, n);
      } else {
        if !s[n].changed {
          SgrpAsReadName(s[n]);
        }
        SgrpPassHeld(g, s[n := CleanSgrpItem(s[n], users)], users, n + 1);
      }
    }
  }

  // ----- the lists that the next run opens -----

  /** The lists a run leaves, and what they are when they are opened again. */
  lemma {:induction false} RunLeaves(a: string, b: string, c: string, d: string, users: set<string>, max: nat,
                                     num: Reader)
      returns (h: seq<GroupItem>, t: seq<SgrpItem>)
    requires ReadsDecimals(num) && Run(a, b, c, d, users, max, num)
    ensures Checked(Opened(a, max, num), Load(b, ParseSgrp), users) == Some((h, t)) && BothHeld(h, t, max, num)
    ensures WellRead(h) && GroupsDone(h, t, users, |h|) && SgrpsDone(h, t, users, |t|)
    ensures Lines(c).Some? && |Opened(c, max, num)| == |h| && FileText(Opened(c, max, num)) == c
    ensures forall i :: 0 <= i < |h| ==> Opened(c, max, num)[i] == BackOf(h[i], max, num) && GroupWritable(h[i])
    ensures Lines(d).Some? && |Load(d, ParseSgrp)| == |t|
    ensures forall i :: 0 <= i < |t| ==> Load(d, ParseSgrp)[i] == SgrpBack(t[i])
  {
    var g, s := Opened(a, max, num), Load(b, ParseSgrp);
    OpenedIsHeld(a, b, max, num);
    CheckedDone(g, s, users);
    h, t := Checked(g, s, users).value.0, Checked(g, s, users).value.1;
    GroupPassHeld(g, s, users, 0, max, num);
    SgrpPassHeld(h, GroupPass(g, s, users, 0).value.1, users, 0);
    DoneKeys(h, t, users);
    HeldIsKeepable(h, t, max, num);
    Reopened(h, max, c, num);
    SgrpReread(t);
  }

  lemma {:induction false} OpenedIsHeld(a: string, b: string, max: nat, num: Reader)
    requires Lines(a).Some? && Lines(b).Some?
    ensures BothHeld(Opened(a, max, num), Load(b, ParseSgrp), max, num) && WellRead(Opened(a, max, num))
  {
    var g := Opened(a, max, num);
    OpenedEntries(a, max, num);
    SgrpLoaded(b);
    forall i | 0 <= i < |g|
      ensures GroupHeld(g[i], max, num) && (LineIsNis(g[i]) ==> g[i].rec.None?)
    {
      UnmarkedBack(g[i], max, num);
      if g[i].rec.Some? {
        OpenedName(g[i], max, num);
      }
    }
  }

  lemma {:induction false} HeldIsKeepable(h: seq<GroupItem>, t: seq<SgrpItem>, max: nat, num: Reader)
    requires BothHeld(h, t, max, num)
    ensures forall i :: 0 <= i < |h| ==> Keepable(h[i], max, num)
  {
    assert forall i :: 0 <= i < |h| ==> GroupHeld(h[i], max, num);
  }

  /** After the passes no two entries are of the same group. */
  lemma {:induction false} DoneKeys(h: seq<GroupItem>, t: seq<SgrpItem>, users: set<string>)
    requires WellRead(h) && GroupsDone(h, t, users, |h|)
    ensures UniqueKeys(h)
  {
    forall i, j | 0 <= i < j < |h|
      ensures !SameKey(h[i], h[j])
    {
      if SameKey(h[i], h[j]) {
        assert GroupDone(h, t, users, h[i]);
        LaterTwin(h, t, users, i);
        assert Named(h[j], h[i].rec.value.name, GroupName);
      }
    }
  }

  /** What comes back of one entry: its key, no new member, and no mark. */
  lemma {:induction false} BackFacts(it: GroupItem, max: nat, num: Reader)
    requires ReadsDecimals(num) && GroupHeld(it, max, num) && GroupWritable(it)
    ensures var u := BackOf(it, max, num);
            && !u.changed && u.line.Some? && u.rec.Some? == it.rec.Some? && (!it.changed ==> u.line == it.line)
            && (it.rec.Some? ==> u.rec.value.name == it.rec.value.name)
            && (it.rec.Some? && (it.changed || u.rec.value.members != [""]) ==>
                  forall m :: m in u.rec.value.members ==> m in it.rec.value.members)
  {
    if it.changed {
      MarkedBack(it, max, num);
      AgainAmong(it.rec.value.members, max);
    } else {
      UnmarkedBack(it, max, num);
    }
  }

  lemma {:induction false} BackKeepsNames(h: seq<GroupItem>, t: seq<SgrpItem>, g: seq<GroupItem>, s: seq<SgrpItem>,
                                          max: nat, num: Reader)
    requires ReadsDecimals(num) && BothHeld(h, t, max, num) && |g| == |h| && |s| == |t|
    requires forall i :: 0 <= i < |h| ==> g[i] == BackOf(h[i], max, num) && GroupWritable(h[i])
    requires forall i :: 0 <= i < |t| ==> s[i] == SgrpBack(t[i])
    ensures SameNames(h, g, GroupName) && SameNames(t, s, SgrpName)
  {
    forall i | 0 <= i < |h|
      ensures h[i].rec.Some? == g[i].rec.Some? && (h[i].rec.Some? ==> h[i].rec.value.name == g[i].rec.value.name)
    {
      BackFacts(h[i], max, num);
    }
    forall i | 0 <= i < |t|
      ensures t[i].rec.Some? == s[i].rec.Some? && (t[i].rec.Some? ==> t[i].rec.value.name == s[i].rec.value.name)
    {
      assert SgrpHeld(t[i]);
    }
  }

  /** An entry with nothing left to do comes back with nothing left to mark. */
  lemma {:induction false} BackIsQuiet(h: seq<GroupItem>, t: seq<SgrpItem>, g: seq<GroupItem>, s: seq<SgrpItem>,
                                       users: set<string>, max: nat, num: Reader, i: nat)
    requires ReadsDecimals(num) && SameNames(h, g, GroupName) && SameNames(t, s, SgrpName)
    requires i < |h| && g[i] == BackOf(h[i], max, num) && GroupHeld(h[i], max, num) && GroupWritable(h[i])
    requires WellRead(h) && GroupDone(h, t, users, h[i])
    ensures Quiet(g, s, users, g[i])
    ensures LineIsNis(h[i]) ==> LineIsNis(g[i]) && g[i].rec.None?
  {
    BackFacts(h[i], max, num);
    if h[i].rec.Some? {
      SameTimes(h, g, h[i].rec.value.name, GroupName);
      SameTimes(t, s, h[i].rec.value.name, SgrpName);
    }
  }

  lemma {:induction false} BackIsDone(h: seq<GroupItem>, t: seq<SgrpItem>, g: seq<GroupItem>, s: seq<SgrpItem>,
                                      users: set<string>, i: nat)
    requires SameNames(h, g, GroupName) && SameNames(t, s, SgrpName)
    requires i < |t| && s[i] == SgrpBack(t[i]) && SgrpHeld(t[i]) && SgrpDone(h, t, users, t[i])
    ensures SgrpDone(g, s, users, s[i])
  {
    SameTimes(h, g, t[i].rec.value.name, GroupName);
    SameTimes(t, s, t[i].rec.value.name, SgrpName);
  }

  /** The files a run leaves are quiet: whatever they hold, the next run marks nothing. */
  lemma {:induction false} LeftQuiet(a: string, b: string, c: string, d: string, users: set<string>, max: nat,
                                     num: Reader)
    requires ReadsDecimals(num) && Run(a, b, c, d, users, max, num)
    ensures Lines(c).Some? && Lines(d).Some?
    ensures var (g, s) := (Opened(c, max, num), Load(d, ParseSgrp));
            && WellRead(g) && SgrpsDone(g, s, users, |s|) && FileText(g) == c
            && forall i :: 0 <= i < |g| ==> Quiet(g, s, users, g[i]) && !g[i].changed && g[i].line.Some?
  {
    var h, t := RunLeaves(a, b, c, d, users, max, num);
    var g, s := Opened(c, max, num), Load(d, ParseSgrp);
    OpenedIsHeld(c, d, max, num);
    BackKeepsNames(h, t, g, s, max, num);
    forall i | 0 <= i < |g|
      ensures Quiet(g, s, users, g[i]) && !g[i].changed && g[i].line.Some?
    {
      BackIsQuiet(h, t, g, s, users, max, num, i);
      BackFacts(h[i], max, num);
    }
    forall i | 0 <= i < |s|
      ensures SgrpDone(g, s, users, s[i])
    {
      BackIsDone(h, t, g, s, users, i);
    }
  }

  /**
   The second run deletes no entry, adds none, marks none and does not touch gshadow,
   so that the files stay as the first run left them.
   */
  lemma {:induction false} SecondRunIdle(a: string, b: string, c: string, d: string, users: set<string>, max: nat,
                                         num: Reader)
    requires ReadsDecimals(num) && Run(a, b, c, d, users, max, num)
    ensures Lines(c).Some? && Lines(d).Some?
    ensures var (g, s) := (Opened(c, max, num), Load(d, ParseSgrp));
            && Checked(g, s, users).Some?
            && var (h, t) := Checked(g, s, users).value;
               t == s && |h| == |g| && forall i :: 0 <= i < |g| ==> h[i].line == g[i].line && !h[i].changed
    ensures forall e, f :: Run(c, d, e, f, users, max, num) <==> e == c && f == d
  {
    LeftQuiet(a, b, c, d, users, max, num);
    var g, s := Opened(c, max, num), Load(d, ParseSgrp);
    QuietRun(g, s, users);
    ClosedUnmarked(RelistFrom(g, 0), max);
    SerializeAlike(g, RelistFrom(g, 0), PutGroup);
    UnmarkedText(g);
    LoadThenSerialize(d, ParseSgrp, PutSgrp);
  }

  // ----- when a run can commit -----

  predicate SgrpWritable(it: SgrpItem) {
    it.changed ==> it.rec.Some? && SgrpPrintable(it.rec.value)
  }

  /** Both files can be written exactly when every marked entry passes the field checks
      of `group_put` and `gshadow_put`. */
  lemma {:induction false} CommitsIff(a: string, b: string, users: set<string>, max: nat, num: Reader)
    requires Lines(a).Some? && Lines(b).Some?
    ensures Checked(Opened(a, max, num), Load(b, ParseSgrp), users).Some?
    ensures var (h, t) := Checked(Opened(a, max, num), Load(b, ParseSgrp), users).value;
            (exists c, d :: Run(a, b, c, d, users, max, num)) <==>
              (forall i :: 0 <= i < |h| ==> GroupWritable(h[i])) && (forall i :: 0 <= i < |t| ==> SgrpWritable(t[i]))
  {
    var g, s := Opened(a, max, num), Load(b, ParseSgrp);
    OpenedIsHeld(a, b, max, num);
    CheckedDone(g, s, users);
    var (h, t) := Checked(g, s, users).value;
    GroupPassHeld(g, s, users, 0, max, num);
    SgrpPassHeld(h, GroupPass(g, s, users, 0).value.1, users, 0);
    ClosedWritable(h, max);
    SerializeEach(t, PutSgrp);
    assert forall i :: 0 <= i < |t| ==> SgrpHeld(t[i]) && (Text(t[i], PutSgrp).Some? <==> SgrpWritable(t[i]));
    var c, d := Serialize(Closed(h, max), PutGroup), Serialize(t, PutSgrp);
    if c.Some? && d.Some? {
      assert Run(a, b, c.value, d.value, users, max, num);
    }
  }

  // ----- when the files are consistent afterwards -----

  /** The lines list one empty name and no other. */
  predicate ListsNobody(it: GroupItem, num: Reader) {
    var b := LoadedAll(LinesIn(it), GroupParser(num));
    IsBlock(b) && Fold(b).rec.Some? && Fold(b).rec.value.members == [""]
  }

  /** The group at `i` will be kept, or for `i < n` was kept, with such a line. */
  ghost predicate LoneAt(g: seq<GroupItem>, s: seq<SgrpItem>, num: Reader, n: nat, i: nat) {
    && i < |g| && !g[i].changed && ListsNobody(g[i], num)
    && (i >= n ==> Survives(g, i) && Find(s, g[i].rec.value.name, SgrpName).Some?)
  }

  /** A group that is not deleted and has its gshadow entry lists one empty name. */
  ghost predicate Lone(g: seq<GroupItem>, s: seq<SgrpItem>, num: Reader, n: nat) {
    exists i: nat :: LoneAt(g, s, num, n, i)
  }

  /** The entries from `n` on are unmarked and as their lines say. */
  ghost predicate ReadFrom(g: seq<GroupItem>, n: nat, num: Reader) {
    forall i :: n <= i < |g| ==>
      var b := LoadedAll(LinesIn(g[i]), GroupParser(num)); !g[i].changed && IsBlock(b) && g[i] == Fold(b)
  }

  lemma {:induction false} LoneSkipped(g: seq<GroupItem>, s: seq<SgrpItem>, num: Reader, n: nat)
    requires n < |g| && LineIsNis(g[n]) && WellRead(g) && ReadFrom(g, n, num)
    ensures Lone(g, s, num, n + 1) <==> Lone(g, s, num, n)
  {
    assert !ListsNobody(g[n], num);
    LoneShift(g, s, num, n);
  }

  lemma {:induction false} LoneAtNext(g: seq<GroupItem>, s: seq<SgrpItem>, num: Reader, n: nat, i: nat)
    requires n < |g| && !ListsNobody(g[n], num)
    ensures LoneAt(g, s, num, n, i) <==> LoneAt(g, s, num, n + 1, i)
  {
  }

  lemma {:induction false} LoneShift(g: seq<GroupItem>, s: seq<SgrpItem>, num: Reader, n: nat)
    requires n < |g| && !ListsNobody(g[n], num)
    ensures Lone(g, s, num, n + 1) <==> Lone(g, s, num, n)
  {
    if Lone(g, s, num, n) {
      var i: nat :| LoneAt(g, s, num, n, i);
      LoneAtNext(g, s, num, n, i);
    }
    if Lone(g, s, num, n + 1) {
      var i: nat :| LoneAt(g, s, num, n + 1, i);
      LoneAtNext(g, s, num, n, i);
    }
  }

  lemma {:induction false} LoneMoved(g: seq<GroupItem>, s: seq<SgrpItem>, num: Reader, n: nat, i: nat)
    requires n < |g| && i < |g| && i != n && Superfluous(g, g[n], GroupName)
    requires g[n].rec.Some? ==> exists j :: n < j < |g| && Named(g[j], g[n].rec.value.name, GroupName)
    ensures LoneAt(g, s, num, n, i) <==> LoneAt(Without(g, n), s, num, n, if i < n then i else i - 1)
  {
    var h := Without(g, n);
    if i > n {
      assert forall j :: i < j < |g| ==> h[j - 1] == g[j];
      assert forall j :: i - 1 < j < |h| ==> h[j] == g[j + 1];
    }
  }

  lemma {:induction false} LoneDeleted(g: seq<GroupItem>, s: seq<SgrpItem>, users: set<string>, num: Reader, n: nat)
    requires n < |g| && WellRead(g) && GroupsDone(g, s, users, n)
    requires !LineIsNis(g[n]) && Superfluous(g, g[n], GroupName)
    ensures Lone(Without(g, n), s, num, n) <==> Lone(g, s, num, n)
  {
    if g[n].rec.Some? {
      LaterTwin(g, s, users, n);
    }
    assert !LoneAt(g, s, num, n, n);
    LoneWithout(g, s, num, n);
  }

  lemma {:induction false} LoneWithout(g: seq<GroupItem>, s: seq<SgrpItem>, num: Reader, n: nat)
    requires n < |g| && Superfluous(g, g[n], GroupName) && !LoneAt(g, s, num, n, n)
    requires g[n].rec.Some? ==> exists j :: n < j < |g| && Named(g[j], g[n].rec.value.name, GroupName)
    ensures Lone(Without(g, n), s, num, n) <==> Lone(g, s, num, n)
  {
    if Lone(g, s, num, n) {
      var i: nat :| LoneAt(g, s, num, n, i);
      LoneMoved(g, s, num, n, i);
    }
    if Lone(Without(g, n), s, num, n) {
      var k: nat :| LoneAt(Without(g, n), s, num, n, k);
      LoneMoved(g, s, num, n, if k < n then k else k + 1);
    }
  }

  lemma {:induction false} LoneTurn(g: seq<GroupItem>, s: seq<SgrpItem>, users: set<string>, num: Reader, n: nat,
                                    i: nat)
    requires n < |g| && WellRead(g) && GroupsDone(g, s, users, n) && ReadFrom(g, n, num)
    requires !LineIsNis(g[n]) && !Superfluous(g, g[n], GroupName)
    ensures var u := AddShadow(g[n := CleanGroupItem(g[n], users)], s, n);
            u.Some? && (LoneAt(u.value.0, u.value.1, num, n + 1, i) <==> LoneAt(g, s, num, n, i))
  {
    SurvivorTurn(g, s, users, n);
    LaterTwin(g, s, users, n);
    var (h, t) := AddShadow(g[n := CleanGroupItem(g[n], users)], s, n).value;
    if n < i < |g| && g[i].rec.Some? {
      assert !Named(g[i], g[n].rec.value.name, GroupName);
      SurvivorNames(g, s, users, n, g[i].rec.value.name);
      assert forall j :: i < j < |g| ==> h[j] == g[j];
    }
    assert LinesIn(h[n]) == LinesIn(g[n]);
  }

  lemma {:induction false} LoneCleaned(g: seq<GroupItem>, s: seq<SgrpItem>, users: set<string>, num: Reader, n: nat)
    requires n < |g| && WellRead(g) && GroupsDone(g, s, users, n) && ReadFrom(g, n, num)
    requires !LineIsNis(g[n]) && !Superfluous(g, g[n], GroupName)
    ensures var u := AddShadow(g[n := CleanGroupItem(g[n], users)], s, n);
            u.Some? && ReadFrom(u.value.0, n + 1, num)
            && (Lone(u.value.0, u.value.1, num, n + 1) <==> Lone(g, s, num, n))
  {
    SurvivorTurn(g, s, users, n);
    var (h, t) := AddShadow(g[n := CleanGroupItem(g[n], users)], s, n).value;
    if Lone(g, s, num, n) {
      var i: nat :| LoneAt(g, s, num, n, i);
      LoneTurn(g, s, users, num, n, i);
      assert LoneAt(h, t, num, n + 1, i);
    }
    if Lone(h, t, num, n + 1) {
      var i: nat :| LoneAt(h, t, num, n + 1, i);
      LoneTurn(g, s, users, num, n, i);
      assert LoneAt(g, s, num, n, i);
    }
  }

  lemma {:induction false} LoneAtEnd(g: seq<GroupItem>, s: seq<SgrpItem>, num: Reader, n: nat)
    requires n >= |g|
    ensures Lone(g, s, num, |g|) <==> Lone(g, s, num, n)
  {
    if Lone(g, s, num, n) {
      var i: nat :| LoneAt(g, s, num, n, i);
      assert LoneAt(g, s, num, |g|, i);
    }
    if Lone(g, s, num, |g|) {
      var i: nat :| LoneAt(g, s, num, |g|, i);
      assert LoneAt(g, s, num, n, i);
    }
  }

  lemma {:induction false} ReadAfterDeletion(g: seq<GroupItem>, num: Reader, n: nat)
    requires n < |g| && ReadFrom(g, n, num)
    ensures ReadFrom(Without(g, n), n, num)
  {
  }

  /** Whether such a line will be left can be told from the files before the run. */
  lemma {:induction false} LoneThroughPass(g: seq<GroupItem>, s: seq<SgrpItem>, users: set<string>, num: Reader, n: nat)
    requires WellRead(g) && GroupsDone(g, s, users, n) && ReadFrom(g, n, num)
    ensures GroupPass(g, s, users, n).Some?
    ensures var (h, t) := GroupPass(g, s, users, n).value; Lone(h, t, num, |h|) <==> Lone(g, s, num, n)
    decreases |g| - n
  {
    if n >= |g| {
      LoneAtEnd(g, s, num, n);
    } else if LineIsNis(g[n]) {
      LoneSkipped(g, s, num, n);
      LoneThroughPass(g, s, users, num, n + 1);
    } else if Superfluous(g, g[n], GroupName) {
      DeletionKeepsDone(g, s, users, n);
      LoneDeleted(g, s, users, num, n);
      ReadAfterDeletion(g, num, n);
      LoneThroughPass(Without(g, n), s, users, num, n);
    } else {
      SurvivorDone(g, s, users, n);
      LoneCleaned(g, s, users, num, n);
      var u := AddShadow(g[n := CleanGroupItem(g[n], users)], s, n).value;
      LoneThroughPass(u.0, u.1, users, num, n + 1);
    }
  }

  /** An entry with nothing to do comes back with a missing member only if its lines
      list one empty name, which is no user. */
  lemma {:induction false} BackExists(h: seq<GroupItem>, t: seq<SgrpItem>, users: set<string>, max: nat, num: Reader,
                                      i: nat)
    requires ReadsDecimals(num) && i < |h| && GroupHeld(h[i], max, num) && GroupWritable(h[i])
    requires GroupDone(h, t, users, h[i]) && WellRead(h)
    ensures var u := BackOf(h[i], max, num);
            (if u.rec.Some? then AllExist(u.rec.value.members, users) else LineIsNis(u))
              <==> "" in users || h[i].changed || !ListsNobody(h[i], num)
  {
    var u := BackOf(h[i], max, num);
    BackFacts(h[i], max, num);
    if !h[i].changed {
      UnmarkedBack(h[i], max, num);
      assert ListsNobody(h[i], num) <==> u.rec.Some? && u.rec.value.members == [""];
      assert [""][0] in [""];
    }
  }

  lemma {:induction false} AllExistOrLone(h: seq<GroupItem>, t: seq<SgrpItem>, g: seq<GroupItem>, users: set<string>,
                                          max: nat, num: Reader)
    requires ReadsDecimals(num) && |g| == |h|
    requires forall i :: 0 <= i < |h| ==>
               g[i] == BackOf(h[i], max, num) && GroupHeld(h[i], max, num) && GroupWritable(h[i])
    requires WellRead(h) && GroupsDone(h, t, users, |h|)
    ensures (forall i :: 0 <= i < |g| ==> if g[i].rec.Some?
               then AllExist(g[i].rec.value.members, users) else LineIsNis(g[i])) <==>
              "" in users || !Lone(h, t, num, |h|)
  {
    forall i: nat | i < |g|
      ensures (if g[i].rec.Some? then AllExist(g[i].rec.value.members, users) else LineIsNis(g[i]))
                <==> "" in users || !LoneAt(h, t, num, |h|, i)
    {
      assert GroupDone(h, t, users, h[i]);
      BackExists(h, t, users, max, num, i);
    }
  }

  /**
   The files that a run leaves are consistent if and only if some user has the empty
   name or no group with a gshadow entry survives whose line lists one empty member:
   the pass drops that list without marking the entry, so its line stays.
   */
  lemma {:induction false} ConsistentIff(a: string, b: string, c: string, d: string, users: set<string>, max: nat,
                                         num: Reader)
    requires ReadsDecimals(num) && Run(a, b, c, d, users, max, num)
    ensures Lines(c).Some? && Lines(d).Some?
    ensures Consistent(Opened(c, max, num), Load(d, ParseSgrp), users) <==>
              "" in users || !Lone(Opened(a, max, num), Load(b, ParseSgrp), num, 0)
  {
    var h, t := RunLeaves(a, b, c, d, users, max, num);
    var g, s := Opened(c, max, num), Load(d, ParseSgrp);
    LoneAfterRun(a, b, h, t, users, max, num);
    BackKeepsNames(h, t, g, s, max, num);
    LeftQuiet(a, b, c, d, users, max, num);
    LeftNames(h, t, g, s, users);
    AllExistOrLone(h, t, g, users, max, num);
    ConsistentParts(g, s, users);
  }

  lemma {:induction false} ConsistentParts(g: seq<GroupItem>, s: seq<SgrpItem>, users: set<string>)
    requires Unique(g, GroupName) && Unique(s, SgrpName) && SgrpsDone(g, s, users, |s|)
    requires forall name :: Find(g, name, GroupName).Some? <==> Find(s, name, SgrpName).Some?
    ensures Consistent(g, s, users) <==>
              forall i :: 0 <= i < |g| ==> if g[i].rec.Some?
                  then AllExist(g[i].rec.value.members, users) else LineIsNis(g[i])
  {
    assert forall i :: 0 <= i < |s| ==> SgrpDone(g, s, users, s[i]);
  }

  lemma {:induction false} LoneAfterRun(a: string, b: string, h: seq<GroupItem>, t: seq<SgrpItem>, users: set<string>,
                                        max: nat, num: Reader)
    requires Lines(a).Some? && Lines(b).Some?
    requires Checked(Opened(a, max, num), Load(b, ParseSgrp), users) == Some((h, t))
    ensures Lone(h, t, num, |h|) <==> Lone(Opened(a, max, num), Load(b, ParseSgrp), num, 0)
  {
    var g, s := Opened(a, max, num), Load(b, ParseSgrp);
    OpenedIsHeld(a, b, max, num);
    OpenedEntries(a, max, num);
    LoneThroughPass(g, s, users, num, 0);
    LoneEitherWay(h, GroupPass(g, s, users, 0).value.1, t, num);
  }

  /** Once the pass is over, gshadow plays no part in this. */
  lemma {:induction false} LoneEitherWay(h: seq<GroupItem>, s: seq<SgrpItem>, t: seq<SgrpItem>, num: Reader)
    ensures Lone(h, s, num, |h|) <==> Lone(h, t, num, |h|)
  {
    forall i: nat
      ensures LoneAt(h, s, num, |h|, i) <==> LoneAt(h, t, num, |h|, i)
    {
    }
  }

  lemma {:induction false} LeftNames(h: seq<GroupItem>, t: seq<SgrpItem>, g: seq<GroupItem>, s: seq<SgrpItem>,
                                     users: set<string>)
    requires SameNames(h, g, GroupName) && SameNames(t, s, SgrpName)
    requires WellRead(h) && GroupsDone(h, t, users, |h|) && SgrpsDone(h, t, users, |t|)
    ensures Unique(g, GroupName) && Unique(s, SgrpName)
    ensures forall name :: Find(g, name, GroupName).Some? <==> Find(s, name, SgrpName).Some?
  {
    forall name
      ensures Times(g, name, GroupName) <= 1 && Times(s, name, SgrpName) <= 1
      ensures Find(g, name, GroupName).Some? <==> Find(s, name, SgrpName).Some?
    {
      DoneUnique(h, t, users, name);
      FindTimes(h, name, GroupName);
      FindTimes(t, name, SgrpName);
      SameTimes(h, g, name, GroupName);
      SameTimes(t, s, name, SgrpName);
    }
  }

  lemma {:induction false} OpenedOne(r: GroupRec, max: nat, num: Reader)
    requires ReadsDecimals(num) && GroupPrintable(r) && !NameIsNis(r.name)
    ensures Lines(GroupLine(r) + "\n").Some?
    ensures Opened(GroupLine(r) + "\n", max, num) == [Item(Some(GroupLine(r)), Some(GroupAgain(r)), false)]
  {
    var g := [Loaded(GroupLine(r), GroupParser(num))];
    GroupReadsBack(r, num);
    JoinOne(GroupLine(r));
    JoinThenLines([GroupLine(r)]);
    assert Load(GroupLine(r) + "\n", GroupParser(num)) == g;
    assert MergeAll(g) == MergeFrom(Absorb(g, 0, 1), 1) == g;
  }

  lemma {:induction false} LoneGroup(r: GroupRec, q: Sgrp, max: nat, num: Reader)
    requires ReadsDecimals(num) && GroupPrintable(r) && SgrpPrintable(q) && !NameIsNis(r.name) && q.name == r.name
    requires Trim(r.members) == [""]
    ensures Lines(GroupLine(r) + "\n").Some? && Lines(SgrpLine(q) + "\n").Some?
    ensures Lone(Opened(GroupLine(r) + "\n", max, num), Load(SgrpLine(q) + "\n", ParseSgrp), num, 0)
  {
    OpenedOne(r, max, num);
    SgrpReadsBack(q);
    JoinOne(SgrpLine(q));
    JoinThenLines([SgrpLine(q)]);
    var g, s := Opened(GroupLine(r) + "\n", max, num), Load(SgrpLine(q) + "\n", ParseSgrp);
    OpenedEntries(GroupLine(r) + "\n", max, num);
    GroupLineStart(r);
    assert AsOpened(g[0], max, num) && Named(s[0], r.name, SgrpName);
    assert LoneAt(g, s, num, 0, 0);
  }

  lemma {:induction false} CommaLine(r: GroupRec)
    requires r.name == "a" && r.passwd == "x" && r.gid == 1 && r.members == ["", ""]
    ensures GroupLine(r) == "a:x:1:,"
  {
    FourFields(r.name, r.passwd, Decimal(r.gid), JoinBy(r.members, ','));
    assert Decimal(r.gid) == "1" && JoinBy(r.members, ',') == ",";
  }

  /** The exception occurs: the line "a:x:1:," with an entry for `a` in gshadow. */
  lemma {:induction false} LoneExample(r: GroupRec, q: Sgrp, max: nat, num: Reader)
    requires ReadsDecimals(num) && q.name == "a" && q.passwd == "!" && q.adm == [] && q.mem == []
    requires r.name == "a" && r.passwd == "x" && r.gid == 1 && r.members == ["", ""]
    ensures GroupLine(r) == "a:x:1:,"
    ensures Lines(GroupLine(r) + "\n").Some? && Lines(SgrpLine(q) + "\n").Some?
    ensures Lone(Opened(GroupLine(r) + "\n", max, num), Load(SgrpLine(q) + "\n", ParseSgrp), num, 0)
  {
    CommaLine(r);
    assert Trim(r.members) == [""];
    LoneGroup(r, q, max, num);
  }
}
