/**
 src/grpconv.c and src/grpunconv.c over the files: the next program reads what the
 last one printed. `max` is the limit on the members of a line of group, 0 for none.
 */
module GrpconvFiles {
  import opened Wrappers
  import opened CommonIO
  import opened Commit
  import opened CommonIOOpen
  import opened CommonIOLookup
  import opened Fields
  import opened GroupSplit
  import opened Grpconv
  import opened GroupText
  import opened GroupStore
  import opened GroupPieces
  import opened GroupFiles

  /** A run of `grpconv` on the files `a` and `b` that writes `c` and `d`. */
  ghost predicate RunConv(a: string, b: string, c: string, d: string, max: nat, num: Reader) {
    && Lines(a).Some? && Lines(b).Some?
    && Converted(Opened(a, max, num), Load(b, ParseSgrp)).Some?
    && var (h, t) := Converted(Opened(a, max, num), Load(b, ParseSgrp)).value;
       Serialize(Closed(h, max), PutGroup) == Some(c) && Serialize(t, PutSgrp) == Some(d)
  }

  /** A run of `grpunconv` on `c` and `d` that writes `e` and removes gshadow. */
  ghost predicate RunUnconv(c: string, d: string, e: string, max: nat, num: Reader) {
    && Lines(c).Some? && Lines(d).Some?
    && Unconvert(Opened(c, max, num), Load(d, ParseSgrp), 0).Some?
    && Serialize(Closed(Unconvert(Opened(c, max, num), Load(d, ParseSgrp), 0).value, max), PutGroup) == Some(e)
  }

  /** What is read of a group that was printed. */
  function AgainWith(max: nat): GroupRec -> GroupRec {
    r => AgainRec(r, max)
  }

  /** `u` holds the records of `s`, each as `f` changes it. */
  ghost predicate Mapped<T>(s: seq<Item<T>>, u: seq<Item<T>>, f: T -> T) {
    |s| == |u| && forall i :: 0 <= i < |s| ==> u[i].rec == if s[i].rec.Some? then Some(f(s[i].rec.value)) else None
  }

  lemma {:induction false} MappedFind<T(!new)>(s: seq<Item<T>>, u: seq<Item<T>>, f: T -> T, name: string,
      getName: T -> string)
    requires Mapped(s, u, f) && forall r :: getName(f(r)) == getName(r)
    ensures Times(u, name, getName) == Times(s, name, getName)
    ensures Find(u, name, getName)
              == if Find(s, name, getName).Some? then Some(f(Find(s, name, getName).value)) else None
  {
    if s != [] {
      assert forall i :: 0 <= i < |s| - 1 ==> s[1..][i] == s[i + 1] && u[1..][i] == u[i + 1];
      MappedFind(s[1..], u[1..], f, name, getName);
    }
  }

  // ----- every entry with a record is printed -----

  ghost predicate PlainNames(g: seq<GroupItem>) {
    forall i :: 0 <= i < |g| && g[i].rec.Some? ==> !NameIsNis(g[i].rec.value.name)
  }

  /** The entry is marked unless its name is none of the first `n` groups'. */
  predicate MarkedFor(it: SgrpItem, g: seq<GroupItem>, n: nat)
    requires n <= |g|
  {
    it.rec.Some? && !it.changed ==> forall j :: 0 <= j < n && g[j].rec.Some? ==>
      g[j].rec.value.name != it.rec.value.name
  }

  ghost predicate AllMarkedFor(s: seq<SgrpItem>, g: seq<GroupItem>, n: nat)
    requires n <= |g|
  {
    forall i :: 0 <= i < |s| ==> SgrpHeld(s[i]) && MarkedFor(s[i], g, n)
  }

  lemma {:induction false} UpdateMarks(g: seq<GroupItem>, s: seq<SgrpItem>, n: nat, r: Sgrp)
    requires n < |g| && AllMarkedFor(s, g, n) && g[n].rec.Some? && r.name == g[n].rec.value.name && !NameIsNis(r.name)
    requires Updated(s, r, SgrpName).Some?
    ensures AllMarkedFor(Updated(s, r, SgrpName).value, g, n + 1)
  {
    var k := FirstNamed(s, 0, r.name, SgrpName);
    forall i | 0 <= i < |s| && i != k && s[i].rec.Some?
      ensures s[i].rec.value.name != r.name
    {
      assert !Named(s[i], r.name, SgrpName);
    }
  }

  lemma {:induction false} MaskedMarks(g: seq<GroupItem>, k: nat, s: seq<SgrpItem>, n: nat)
    requires k < |g| && n <= |g|
    ensures AllMarkedFor(s, g[k := MaskedItem(g[k])], n) <==> AllMarkedFor(s, g, n)
  {
    var h := g[k := MaskedItem(g[k])];
    forall it: SgrpItem
      ensures MarkedFor(it, h, n) <==> MarkedFor(it, g, n)
    {
      assert forall j :: 0 <= j < |g| ==>
               g[j].rec.Some? == h[j].rec.Some? && (g[j].rec.Some? ==> g[j].rec.value.name == h[j].rec.value.name);
    }
  }

  lemma {:induction false} ConvertMarks(g: seq<GroupItem>, s: seq<SgrpItem>, n: nat)
    requires n <= |g| && Convertible(g, s, n) && PlainNames(g) && AllMarkedFor(s, g, n)
    ensures Convert(g, s, n).Some? && AllMarkedFor(Convert(g, s, n).value.1, g, |g|)
    decreases |g| - n
  {
    if n < |g| {
      if g[n].rec.None? {
        ConvertMarks(g, s, n + 1);
      } else {
        var gr := g[n].rec.value;
        ConvertibleStep(g, s, n);
        FindTimes(s, gr.name, SgrpName);
        UpdateMarks(g, s, n, Shadow(s, gr));
        var h, t := g[n := MaskedItem(g[n])], Updated(s, Shadow(s, gr), SgrpName).value;
        MaskedMarks(g, n, t, n + 1);
        ConvertMarks(h, t, n + 1);
        MaskedMarks(g, n, Convert(h, t, n + 1).value.1, |g|);
      }
    }
  }

  lemma {:induction false} NonOrphansHeld(s: seq<SgrpItem>, g: seq<GroupItem>)
    requires forall i :: 0 <= i < |s| ==> SgrpHeld(s[i])
    ensures forall i :: 0 <= i < |NonOrphans(s, g)| ==> SgrpHeld(NonOrphans(s, g)[i])
  {
    if s != [] {
      NonOrphansHeld(s[1..], g);
    }
  }

  lemma {:induction false} LoadedPlain(a: string, b: string, max: nat, num: Reader)
    requires Lines(a).Some? && Lines(b).Some?
    ensures PlainNames(Opened(a, max, num)) && forall i :: 0 <= i < |Load(b, ParseSgrp)| ==>
              SgrpHeld(Load(b, ParseSgrp)[i])
  {
    var g := Opened(a, max, num);
    OpenedEntries(a, max, num);
    SgrpLoaded(b);
    forall i | 0 <= i < |g| && g[i].rec.Some?
      ensures !NameIsNis(g[i].rec.value.name)
    {
      OpenedName(g[i], max, num);
    }
  }

  /** Every entry of gshadow that has a record was written by the conversion. */
  lemma {:induction false} ShadowMarked(g: seq<GroupItem>, s: seq<SgrpItem>)
    requires PlainNames(g) && (forall i :: 0 <= i < |s| ==> SgrpHeld(s[i])) && Converted(g, s).Some?
    ensures var t := Converted(g, s).value.1;
            forall i :: 0 <= i < |t| ==> SgrpHeld(t[i]) && (t[i].rec.Some? ==> SgrpMarked(t[i]))
  {
    GrpconvSucceeds(g, s);
    OrphansExact(s, g);
    NonOrphansHeld(s, g);
    ConvertExact(g, NonOrphans(s, g), 0);
    ConvertMarks(g, NonOrphans(s, g), 0);
    var t := Converted(g, s).value.1;
    forall i | 0 <= i < |t| && t[i].rec.Some?
      ensures SgrpMarked(t[i])
    {
      assert MarkedFor(t[i], g, |g|) && SgrpHeld(t[i]);
      NotMissed(t, i);
      GrpconvEffect(g, s, t[i].rec.value.name);
      FindTimes(g, t[i].rec.value.name, GroupName);
      var k := SomeNamed(g, t[i].rec.value.name, GroupName);
    }
  }

  // ----- the files read back -----

  lemma {:induction false} UniqueNamesKeys(g: seq<GroupItem>)
    requires Unique(g, GroupName)
    ensures UniqueKeys(g)
  {
    forall i, j | 0 <= i < j < |g|
      ensures !SameKey(g[i], g[j])
    {
      if SameKey(g[i], g[j]) {
        FoundAt(g, i, g[i].rec.value);
        FindWithout(g, i, g[i].rec.value.name, GroupName);
        OccursIn(Without(g, i), j - 1);
      }
    }
  }

  lemma {:induction false} OccursIn(g: seq<GroupItem>, i: nat)
    requires i < |g| && g[i].rec.Some?
    ensures Times(g, g[i].rec.value.name, GroupName) > 0
  {
    RepeatedTimes(g, g[i].rec.value.name, GroupName);
  }

  /** A list of marked groups and lines without a record, and what comes back of it. */
  lemma {:induction false} MarkedBackAll(h: seq<GroupItem>, max: nat, c: string, num: Reader)
    requires ReadsDecimals(num) && Unique(h, GroupName) && Serialize(Closed(h, max), PutGroup) == Some(c)
    requires forall i :: 0 <= i < |h| ==> GroupMarked(h[i]) || (h[i].rec.None? && AsOpened(h[i], max, num))
    ensures Lines(c).Some? && Mapped(h, Opened(c, max, num), AgainWith(max))
    ensures forall i :: 0 <= i < |h| ==> GroupWritable(h[i]) && (h[i].rec.None? ==> Opened(c, max, num)[i] == h[i])
  {
    UniqueNamesKeys(h);
    Reopened(h, max, c, num);
    forall i | 0 <= i < |h|
      ensures Opened(c, max, num)[i].rec == if h[i].rec.Some? then Some(AgainRec(h[i].rec.value, max)) else None
      ensures h[i].rec.None? ==> Opened(c, max, num)[i] == h[i]
    {
      if h[i].rec.Some? {
        MarkedBack(h[i], max, num);
      } else {
        UnmarkedBack(h[i], max, num);
      }
    }
  }

  /** The lists `grpconv` writes, and their records as the next program reads them. */
  lemma {:induction false} ConvLeaves(a: string, b: string, c: string, d: string, max: nat, num: Reader)
      returns (h: seq<GroupItem>, t: seq<SgrpItem>)
    requires ReadsDecimals(num) && RunConv(a, b, c, d, max, num)
    ensures Converted(Opened(a, max, num), Load(b, ParseSgrp)) == Some((h, t))
    ensures Lines(c).Some? && Mapped(h, Opened(c, max, num), AgainWith(max))
    ensures Lines(d).Some? && Mapped(t, Load(d, ParseSgrp), SgrpAgain)
    ensures forall i :: 0 <= i < |h| ==> GroupWritable(h[i]) && (h[i].rec.None? ==> Opened(c, max, num)[i] == h[i])
    ensures forall i :: 0 <= i < |t| && t[i].rec.Some? ==> SgrpMarked(t[i]) && SgrpPrintable(t[i].rec.value)
  {
    var g, s := Opened(a, max, num), Load(b, ParseSgrp);
    h, t := Converted(g, s).value.0, Converted(g, s).value.1;
    LoadedPlain(a, b, max, num);
    ShadowMarked(g, s);
    SgrpReread(t);
    SerializeEach(t, PutSgrp);
    assert forall i :: 0 <= i < |t| ==> Text(t[i], PutSgrp).Some?;
    MaskedUnique(g, s);
    MaskedHeld(a, max, num);
    MarkedBackAll(h, max, c, num);
  }

  lemma {:induction false} MaskedUnique(g: seq<GroupItem>, s: seq<SgrpItem>)
    requires Converted(g, s).Some?
    ensures Unique(g, GroupName) && Unique(s, SgrpName) && Converted(g, s).value.0 == MaskFrom(g, 0)
    ensures Unique(MaskFrom(g, 0), GroupName)
  {
    GrpconvSucceeds(g, s);
    GrpconvEffect(g, s, "");
    forall name
      ensures Times(MaskFrom(g, 0), name, GroupName) <= 1
    {
      MaskKeepsNames(g, name);
    }
  }

  lemma {:induction false} MaskedHeld(a: string, max: nat, num: Reader)
    requires Lines(a).Some?
    ensures var h := MaskFrom(Opened(a, max, num), 0);
            forall i :: 0 <= i < |h| ==> GroupMarked(h[i]) || (h[i].rec.None? && AsOpened(h[i], max, num))
  {
    var g := Opened(a, max, num);
    OpenedEntries(a, max, num);
    forall i | 0 <= i < |g|
      ensures GroupMarked(MaskedItem(g[i])) || (g[i].rec.None? && AsOpened(g[i], max, num))
    {
      if g[i].rec.Some? {
        OpenedName(g[i], max, num);
      }
    }
  }

  // ----- grpconv twice -----

  /** The group at `i` has, after its members were printed in pieces, those that were
      printed in gshadow. */
  predicate SameMembers(it: GroupItem, max: nat) {
    it.rec.Some? ==> Again(it.rec.value.members, max) == Trim(it.rec.value.members)
  }

  /**
   On the files that `grpconv` wrote, another run succeeds and changes no record of
   group. It changes none of gshadow either if and only if every group came back with
   the members that gshadow has, as is always so without a limit.
   */
  lemma {:induction false} GrpconvOnce(a: string, b: string, c: string, d: string, max: nat, num: Reader)
    requires ReadsDecimals(num) && RunConv(a, b, c, d, max, num)
    ensures Lines(c).Some? && Lines(d).Some?
    ensures var (g, s) := (Opened(c, max, num), Load(d, ParseSgrp));
            && Converted(g, s).Some? && SameRecs(Converted(g, s).value.0, g)
            && (SameRecs(Converted(g, s).value.1, s) <==>
                 forall i :: 0 <= i < |Opened(a, max, num)| ==> SameMembers(Opened(a, max, num)[i], max))
    ensures max == 0 ==> forall i :: 0 <= i < |Opened(a, max, num)| ==> SameMembers(Opened(a, max, num)[i], max)
  {
    var g, s := Opened(a, max, num), Load(b, ParseSgrp);
    var h, t := ConvLeaves(a, b, c, d, max, num);
    var k, u := Opened(c, max, num), Load(d, ParseSgrp);
    MaskedUnique(g, s);
    AgainUnique(g, s, h, t, k, u, max);
    GrpconvSucceeds(k, u);
    GrpconvEffect(k, u, "");
    forall i | 0 <= i < |k|
      ensures MaskFrom(k, 0)[i].rec == k[i].rec
    {
      assert h[i] == MaskedItem(g[i]);
    }
    if forall i :: 0 <= i < |g| ==> SameMembers(g[i], max) {
      AgainSettled(g, s, h, t, k, u, max);
      SettledStays(k, u);
    }
    if SameRecs(Converted(k, u).value.1, u) {
      forall i | 0 <= i < |g|
        ensures SameMembers(g[i], max)
      {
        AgainMembers(g, s, h, t, k, u, max, i);
      }
    }
  }

  lemma {:induction false} AgainUnique(g: seq<GroupItem>, s: seq<SgrpItem>, h: seq<GroupItem>, t: seq<SgrpItem>,
                                       k: seq<GroupItem>, u: seq<SgrpItem>, max: nat)
    requires Unique(g, GroupName) && Unique(s, SgrpName) && Converted(g, s) == Some((h, t))
    requires Mapped(h, k, AgainWith(max)) && Mapped(t, u, SgrpAgain)
    ensures Unique(k, GroupName) && Unique(u, SgrpName)
  {
    forall name
      ensures Times(k, name, GroupName) <= 1 && Times(u, name, SgrpName) <= 1
    {
      GrpconvEffect(g, s, name);
      MaskKeepsNames(g, name);
      MappedFind(h, k, AgainWith(max), name, GroupName);
      MappedFind(t, u, SgrpAgain, name, SgrpName);
    }
  }

  lemma {:induction false} AgainSettled(g: seq<GroupItem>, s: seq<SgrpItem>, h: seq<GroupItem>, t: seq<SgrpItem>,
                                        k: seq<GroupItem>, u: seq<SgrpItem>, max: nat)
    requires Unique(g, GroupName) && Unique(s, SgrpName) && Converted(g, s) == Some((h, t))
    requires Mapped(h, k, AgainWith(max)) && Mapped(t, u, SgrpAgain)
    requires forall i :: 0 <= i < |g| ==> SameMembers(g[i], max)
    ensures forall name :: Settled(k, u, name)
  {
    forall name
      ensures Settled(k, u, name)
    {
      if Find(g, name, GroupName).Some? {
        FindTimes(g, name, GroupName);
        var i := SomeNamed(g, name, GroupName);
        FoundAt(g, i, g[i].rec.value);
      }
      WrittenShadow(g, s, h, t, k, u, max, name);
    }
  }

  /** A gshadow record that the second run keeps has the members of the group. */
  lemma {:induction false} AgainMembers(g: seq<GroupItem>, s: seq<SgrpItem>, h: seq<GroupItem>, t: seq<SgrpItem>,
                                        k: seq<GroupItem>, u: seq<SgrpItem>, max: nat, i: nat)
    requires Unique(g, GroupName) && Unique(s, SgrpName) && Converted(g, s) == Some((h, t))
    requires Mapped(h, k, AgainWith(max)) && Mapped(t, u, SgrpAgain)
    requires Unique(k, GroupName) && Unique(u, SgrpName)
    requires Converted(k, u).Some? && SameRecs(Converted(k, u).value.1, u) && i < |g|
    ensures SameMembers(g[i], max)
  {
    if g[i].rec.Some? {
      var name := g[i].rec.value.name;
      FoundAt(g, i, g[i].rec.value);
      GrpconvEffect(g, s, name);
      MaskKeepsNames(g, name);
      MappedFind(h, k, AgainWith(max), name, GroupName);
      MappedFind(t, u, SgrpAgain, name, SgrpName);
      GrpconvEffect(k, u, name);
      SameRecsFind(Converted(k, u).value.1, u, name, SgrpName);
    }
  }

  lemma {:induction false} WrittenShadow(g: seq<GroupItem>, s: seq<SgrpItem>, h: seq<GroupItem>, t: seq<SgrpItem>,
                                         k: seq<GroupItem>, u: seq<SgrpItem>, max: nat, name: string)
    requires Unique(g, GroupName) && Unique(s, SgrpName) && Converted(g, s) == Some((h, t))
    requires Mapped(h, k, AgainWith(max)) && Mapped(t, u, SgrpAgain)
    requires var gr := Find(g, name, GroupName);
             gr.Some? ==> Again(gr.value.members, max) == Trim(gr.value.members)
    ensures Settled(k, u, name)
  {
    GrpconvEffect(g, s, name);
    MaskKeepsNames(g, name);
    MappedFind(h, k, AgainWith(max), name, GroupName);
    MappedFind(t, u, SgrpAgain, name, SgrpName);
    FindTimes(g, name, GroupName);
    FindTimes(t, name, SgrpName);
    FindTimes(s, name, SgrpName);
  }

  // ----- grpconv and back -----

  /** What is read of a group at the end: its effective password, and the members that
      come back after two printings. */
  function Returned(gr: GroupRec, s: seq<SgrpItem>, max: nat): GroupRec {
    gr.(passwd := Effective(gr, s), members := Again(Again(gr.members, max), max))
  }

  /** Those are all members, in order, exactly when no piece of the list that was
      printed ends with an empty name; a list that is split must not repeat a name. */
  lemma {:induction false} ReturnedIff(gr: GroupRec, s: seq<SgrpItem>, max: nat)
    requires 0 < max < |gr.members| ==> NoDup(gr.members)
    ensures Returned(gr, s, max) == gr.(passwd := Effective(gr, s)) <==> KeepsNames(gr.members, max)
  {
    AgainIff(gr.members, max);
    AgainSize(gr.members, max);
    AgainSize(Again(gr.members, max), max);
  }

  /** A masked group, read back, finds its effective password in the new gshadow. */
  lemma {:induction false} EffectiveMoves(g: seq<GroupItem>, s: seq<SgrpItem>, h: seq<GroupItem>, t: seq<SgrpItem>,
                                          u: seq<SgrpItem>, max: nat, i: nat)
    requires Unique(g, GroupName) && Unique(s, SgrpName) && Converted(g, s) == Some((h, t)) && Mapped(t, u, SgrpAgain)
    requires i < |g| && g[i].rec.Some?
    ensures Find(t, g[i].rec.value.name, SgrpName).Some? && Find(u, g[i].rec.value.name, SgrpName).Some?
    ensures Effective(AgainRec(Masked(g[i].rec.value), max), u) == Effective(g[i].rec.value, s)
    ensures Effective(g[i].rec.value, s) == Find(t, g[i].rec.value.name, SgrpName).value.passwd
  {
    var gr := g[i].rec.value;
    GrpconvEffect(g, s, gr.name);
    MappedFind(t, u, SgrpAgain, gr.name, SgrpName);
    FoundAt(g, i, gr);
  }

  /** The record that `grpunconv` stores for a group. */
  function Unmasked(gr: GroupRec, s: seq<SgrpItem>, max: nat): GroupRec {
    AgainRec(gr, max).(passwd := Effective(gr, s))
  }

  /** What `grpunconv` makes of the lists that `grpconv` left. */
  lemma {:induction false} BackAgain(g: seq<GroupItem>, s: seq<SgrpItem>, h: seq<GroupItem>, t: seq<SgrpItem>,
                                     k: seq<GroupItem>, u: seq<SgrpItem>, max: nat)
    requires Unique(g, GroupName) && Unique(s, SgrpName) && Converted(g, s) == Some((h, t))
    requires Mapped(h, k, AgainWith(max)) && Mapped(t, u, SgrpAgain)
    ensures Unconvert(k, u, 0) == Some(RestoreFrom(k, u, 0)) && |k| == |g|
    ensures forall i :: 0 <= i < |g| && g[i].rec.Some? ==>
              Restorable(k[i], u) && RestoreFrom(k, u, 0)[i].rec == Some(Unmasked(g[i].rec.value, s, max))
  {
    GrpconvEffect(g, s, "");
    AgainUnique(g, s, h, t, k, u, max);
    UnconvertExact(k, u, 0);
    forall i | 0 <= i < |g| && g[i].rec.Some?
      ensures Restorable(k[i], u) && Effective(k[i].rec.value, u) == Effective(g[i].rec.value, s)
    {
      assert h[i].rec == Some(Masked(g[i].rec.value)) && k[i].rec == Some(AgainRec(h[i].rec.value, max));
      EffectiveMoves(g, s, h, t, u, max, i);
    }
  }

  lemma {:induction false} PrintedPassword(t: seq<SgrpItem>, name: string)
    requires forall i :: 0 <= i < |t| && t[i].rec.Some? ==> SgrpMarked(t[i]) && SgrpPrintable(t[i].rec.value)
    requires Find(t, name, SgrpName).Some?
    ensures ValidField(Find(t, name, SgrpName).value.passwd, ":\n")
  {
    RepeatedTimes(t, name, SgrpName);
    FindTimes(t, name, SgrpName);
  }

  /** What was printed can be printed again with the password that gshadow holds. */
  lemma {:induction false} UnmaskedWritable(g: seq<GroupItem>, s: seq<SgrpItem>, h: seq<GroupItem>, t: seq<SgrpItem>,
                                            u: seq<SgrpItem>, max: nat, i: nat)
    requires Unique(g, GroupName) && Unique(s, SgrpName) && Converted(g, s) == Some((h, t)) && Mapped(t, u, SgrpAgain)
    requires i < |g| == |h| && g[i].rec.Some? && h[i] == MaskedItem(g[i]) && GroupWritable(h[i])
    requires forall j :: 0 <= j < |t| && t[j].rec.Some? ==> SgrpMarked(t[j]) && SgrpPrintable(t[j].rec.value)
    ensures GroupPrintable(Unmasked(g[i].rec.value, s, max))
  {
    EffectiveMoves(g, s, h, t, u, max, i);
    PrintedPassword(t, g[i].rec.value.name);
    AgainAmong(g[i].rec.value.members, max);
  }

  /** The list `grpunconv` writes: every group marked, every other line as it was. */
  lemma {:induction false} RestoredHeld(c: string, k: seq<GroupItem>, u: seq<SgrpItem>, max: nat, num: Reader)
    requires Lines(c).Some? && k == Opened(c, max, num) && Unique(k, GroupName)
    requires forall i :: 0 <= i < |k| && k[i].rec.Some? ==> Restorable(k[i], u)
    ensures var r := RestoreFrom(k, u, 0);
            && Unique(r, GroupName)
            && forall i :: 0 <= i < |r| ==>
                 GroupMarked(r[i]) || (r[i].rec.None? && AsOpened(r[i], max, num) && r[i] == k[i])
  {
    var r := RestoreFrom(k, u, 0);
    OpenedEntries(c, max, num);
    forall i | 0 <= i < |k|
      ensures GroupMarked(r[i]) || (r[i].rec.None? && AsOpened(r[i], max, num) && r[i] == k[i])
    {
      if k[i].rec.Some? {
        OpenedName(k[i], max, num);
      }
    }
    forall name
      ensures Times(r, name, GroupName) <= 1
    {
      SameTimes(k, r, name, GroupName);
    }
  }

  /** The group file at the end: every unparsed line as it was, every group as `Returned`. */
  ghost predicate ReturnsAll(g: seq<GroupItem>, s: seq<SgrpItem>, k: seq<GroupItem>, max: nat) {
    && |k| == |g|
    && forall i :: 0 <= i < |g| ==>
         if g[i].rec.None? then k[i] == g[i] else k[i].rec == Some(Returned(g[i].rec.value, s, max))
  }

  /**
   From `a` and `b` to gshadow and back: `grpunconv` succeeds on what `grpconv` wrote,
   the group file can be written, and it holds, in order, every unparsed line as it was
   and every group with its effective password and the members that come back.
   */
  lemma {:induction false} ThereAndBack(a: string, b: string, c: string, d: string, max: nat, num: Reader)
    requires ReadsDecimals(num) && RunConv(a, b, c, d, max, num)
    ensures exists e :: RunUnconv(c, d, e, max, num)
    ensures forall e :: RunUnconv(c, d, e, max, num) ==>
              Lines(e).Some? && ReturnsAll(Opened(a, max, num), Load(b, ParseSgrp), Opened(e, max, num), max)
  {
    var g, s := Opened(a, max, num), Load(b, ParseSgrp);
    var h, t := ConvLeaves(a, b, c, d, max, num);
    var k, u := Opened(c, max, num), Load(d, ParseSgrp);
    MaskedUnique(g, s);
    BackAgain(g, s, h, t, k, u, max);
    AgainUnique(g, s, h, t, k, u, max);
    RestoredHeld(c, k, u, max, num);
    RestoredWritten(g, s, h, t, k, u, max, num);
    var e := Serialize(Closed(RestoreFrom(k, u, 0), max), PutGroup);
    assert RunUnconv(c, d, e.value, max, num);
  }

  lemma {:induction false} RestoredWritten(g: seq<GroupItem>, s: seq<SgrpItem>, h: seq<GroupItem>, t: seq<SgrpItem>,
                                           k: seq<GroupItem>, u: seq<SgrpItem>, max: nat, num: Reader)
    requires ReadsDecimals(num) && Unique(g, GroupName) && Unique(s, SgrpName)
    requires Converted(g, s) == Some((h, t)) && h == MaskFrom(g, 0) && Mapped(t, u, SgrpAgain) && |k| == |g|
    requires forall i :: 0 <= i < |h| ==> GroupWritable(h[i]) && (h[i].rec.None? ==> k[i] == h[i])
    requires forall j :: 0 <= j < |t| && t[j].rec.Some? ==> SgrpMarked(t[j]) && SgrpPrintable(t[j].rec.value)
    requires var r := RestoreFrom(k, u, 0);
             && Unique(r, GroupName)
             && (forall i :: 0 <= i < |r| ==>
                   GroupMarked(r[i]) || (r[i].rec.None? && AsOpened(r[i], max, num) && r[i] == k[i]))
             && (forall i :: 0 <= i < |g| && g[i].rec.Some? ==> r[i].rec == Some(Unmasked(g[i].rec.value, s, max)))
    ensures var e := Serialize(Closed(RestoreFrom(k, u, 0), max), PutGroup);
            e.Some? && Lines(e.value).Some? && ReturnsAll(g, s, Opened(e.value, max, num), max)
  {
    var r := RestoreFrom(k, u, 0);
    forall i | 0 <= i < |r|
      ensures GroupWritable(r[i]) && (g[i].rec.None? ==> r[i] == g[i])
    {
      assert h[i] == MaskedItem(g[i]);
      if g[i].rec.Some? {
        UnmaskedWritable(g, s, h, t, u, max, i);
      }
    }
    ClosedWritable(r, max);
    MarkedBackAll(r, max, Serialize(Closed(r, max), PutGroup).value, num);
  }
}
