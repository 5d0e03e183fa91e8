/**
 What becomes of one grant once the file is written and opened again: it is found
 there exactly when its line can be read, it can be released, and if it is lost the
 same IDs are given away again.
 */
module SubidGrants {
  import opened Words
  import opened Wrappers
  import opened CommonIO
  import opened Commit
  import opened CommonIOOpen
  import opened CommonIOSort
  import opened Fields
  import opened SubidRanges
  import opened SubidList
  import opened SubidText
  import opened SubidStore
  import opened SubidRuns

  // ----- which grants are found in the file -----

  ghost predicate Unmarked(s: seq<Item<Range>>) {
    forall i :: 0 <= i < |s| ==> !s[i].changed
  }

  lemma {:induction false} GrantIsStored(s: seq<Item<Range>>, mid: seq<Item<Range>>, t: seq<Item<Range>>, users: Users,
                                         system: bool, owner: string, min: id_t, count: ulong, a: ulong, num: Reader)
    requires SubidInv(s) && Stored(s, num) && Unmarked(s)
    requires Granted(s, mid, t, users, system, owner, min, count, Some(a))
    ensures t == mid + [NewEntry(owner, a, count)] && Stored(mid, num) && Unmarked(mid) && SubidInv(mid)
    ensures Free(Parsed(s), a) && multiset(Parsed(mid)) == multiset(Parsed(s))
  {
    GrantAppends(s, mid, t, users, system, owner, min, count, Some(a));
    SortedMembers(s, mid);
    MidKeepsInv(s, mid);
    forall i | 0 <= i < |mid|
      ensures StoredItem(mid[i], num) && !mid[i].changed
    {
      var j :| 0 <= j < |s| && s[j] == mid[i];
      assert StoredItem(s[j], num);
    }
    GrantIsFree(s, mid, t, users, system, owner, min, count, a);
  }

  lemma {:induction false} AppendIsStored(mid: seq<Item<Range>>, t: seq<Item<Range>>, owner: string, a: ulong,
                                          count: ulong, num: Reader)
    requires Stored(mid, num) && Unmarked(mid) && t == mid + [NewEntry(owner, a, count)]
    ensures Stored(t, num) && (AllReadBack(t) <==> ReadsBack(Range(owner, a, count)))
  {
    assert t[|mid|] == NewEntry(owner, a, count);
    assert forall i :: 0 <= i < |mid| ==> t[i] == mid[i];
    assert forall i :: 0 <= i < |mid| ==> StoredItem(t[i], num);
  }

  lemma {:induction false} GrantIsFree(s: seq<Item<Range>>, mid: seq<Item<Range>>, t: seq<Item<Range>>, users: Users,
                                       system: bool, owner: string, min: id_t, count: ulong, a: ulong)
    requires SubidInv(s) && Granted(s, mid, t, users, system, owner, min, count, Some(a))
    ensures Free(Parsed(s), a) && multiset(Parsed(mid)) == multiset(Parsed(s))
  {
    MidKeepsInv(s, mid);
    SortKeepsInv(s, mid);
    FreeStartIsFree(Parsed(mid), min, NO_ID, count);
    TimesPermuted(Parsed(s), Parsed(mid), a);
    TimesFree(Parsed(s), a);
    TimesFree(Parsed(mid), a);
  }

  /** A lost entry is a last line without a record. */
  lemma {:induction false} LostLine(mid: seq<Item<Range>>, t: seq<Item<Range>>, owner: string, a: ulong, count: ulong,
                                    num: Reader)
    requires ReadsDecimals(num) && Stored(mid, num) && Unmarked(mid) && t == mid + [NewEntry(owner, a, count)]
    requires '\n' !in owner && !ReadsBack(Range(owner, a, count))
    ensures var lost := Loaded(Line(Range(owner, a, count)), Parser(num));
            Reread(t, num) == mid + [lost] && lost.rec == None && (LineIsNis(lost) <==> NameIsNis(owner))
  {
    var u, e := Reread(t, num), NewEntry(owner, a, count);
    AppendIsStored(mid, t, owner, a, count, num);
    FileIsRead(t);
    RereadEach(t, num);
    forall i | 0 <= i < |mid|
      ensures u[i] == mid[i]
    {
      assert t[i] == mid[i] && StoredItem(mid[i], num);
    }
    assert u[|mid|] == Loaded(TextLine(e), Parser(num));
    PrintThenParse(e.rec.value, num);
  }

  /** It leaves the ranges of the others. */
  lemma {:induction false} LostIsAbsent(mid: seq<Item<Range>>, t: seq<Item<Range>>, owner: string, a: ulong,
                                        count: ulong, num: Reader)
    requires ReadsDecimals(num) && Stored(mid, num) && Unmarked(mid) && t == mid + [NewEntry(owner, a, count)]
    requires '\n' !in owner && !ReadsBack(Range(owner, a, count))
    ensures Parsed(Reread(t, num)) == Parsed(mid)
    ensures SubidInv(mid) && !NameIsNis(owner) ==> SubidInv(Reread(t, num))
  {
    LostLine(mid, t, owner, a, count, num);
    var lost := Loaded(Line(Range(owner, a, count)), Parser(num));
    ParsedConcat(mid, [lost]);
    assert Parsed([lost]) == [];
    assert Parsed(mid) + [] == Parsed(mid);
  }

  /** The owner of a grant is found in the file to have its first ID exactly when the
      edit was written and its line can be read. */
  lemma {:induction false} GrantIsKeptIff(a: string, b: string, users: Users, system: bool, num: Reader, ev: Event)
    requires ReadsDecimals(num) && Lines(a).Some? && SubidInv(Load(a, Parser(num)))
    requires Session(a, b, users, system, num, ev) && ev.op.Grant? && ev.got.Some?
    ensures Lines(b).Some? && 0 <= ev.got.value < ID_SPACE
    ensures Records(Parsed(Load(b, Parser(num))), ev.op.owner, ev.got.value) <==>
              ev.committed && ReadsBack(Range(ev.op.owner, ev.got.value, ev.op.count))
  {
    var s := Load(a, Parser(num));
    LoadIsStored(a, num);
    var t :| && Edited(s, t, users, system, ev.op, ev.got)
             && if ev.committed then Serialize(t, Put) == Some(b) else b == a;
    var mid :| Granted(s, mid, t, users, system, ev.op.owner, ev.op.min % ID_SPACE, ev.op.count, ev.got);
    GrantAppends(s, mid, t, users, system, ev.op.owner, ev.op.min % ID_SPACE, ev.op.count, ev.got);
    GrantIsFree(s, mid, t, users, system, ev.op.owner, ev.op.min % ID_SPACE, ev.op.count, ev.got.value);
    if ev.committed {
      WrittenGrant(s, mid, t, b, users, system, ev.op.owner, ev.op.min % ID_SPACE, ev.op.count, ev.got.value, num);
    }
  }

  lemma {:induction false} WrittenGrant(s: seq<Item<Range>>, mid: seq<Item<Range>>, t: seq<Item<Range>>, b: string,
                                        users: Users, system: bool, owner: string, min: id_t, count: ulong, a: ulong,
                                        num: Reader)
    requires ReadsDecimals(num) && SubidInv(s) && Stored(s, num) && Unmarked(s) && count > 0
    requires Granted(s, mid, t, users, system, owner, min, count, Some(a)) && Serialize(t, Put) == Some(b)
    ensures Lines(b).Some?
    ensures Records(Parsed(Load(b, Parser(num))), owner, a) <==> ReadsBack(Range(owner, a, count))
  {
    GrantIsStored(s, mid, t, users, system, owner, min, count, a, num);
    AppendIsStored(mid, t, owner, a, count, num);
    FileIsSerialized(t, num);
    FileIsRead(t);
    StoredGrant(s, mid, t, owner, a, count, num);
  }

  lemma {:induction false} SameMembers(rs: seq<Range>, ts: seq<Range>, r: Range)
    requires multiset(rs) == multiset(ts)
    ensures r in rs <==> r in ts
  {
    assert r in rs <==> r in multiset(rs);
  }

  lemma {:induction false} StoredGrant(s: seq<Item<Range>>, mid: seq<Item<Range>>, t: seq<Item<Range>>, owner: string,
                                       a: ulong, count: ulong, num: Reader)
    requires ReadsDecimals(num) && Stored(mid, num) && Unmarked(mid)
    requires t == mid + [NewEntry(owner, a, count)] && count > 0
    requires Free(Parsed(s), a) && multiset(Parsed(mid)) == multiset(Parsed(s))
    ensures Records(Parsed(Reread(t, num)), owner, a) <==> ReadsBack(Range(owner, a, count))
  {
    AppendIsStored(mid, t, owner, a, count, num);
    CommitKeepsIff(t, num);
    if ReadsBack(Range(owner, a, count)) {
      AppendRecords(mid, owner, a, count, owner, a);
    } else if Records(Parsed(Reread(t, num)), owner, a) {
      var r :| r in Parsed(Reread(t, num)) && r.owner == owner && r.Has(a);
      ParsedHas(Reread(t, num), r);
      FileIsRead(t);
      LoadIsStored(FileOf(t), num);
      LostIsAbsent(mid, t, owner, a, count, num);
      SameMembers(Parsed(mid), Parsed(s), r);
    }
  }

  // ----- a grant, the commit, and the release of what was granted -----

  /** For an owner that resolves to a user, a later call releases what a call granted:
      the file again gives the user exactly the former IDs, and every other user the
      same entries. */
  lemma {:induction false} GrantThenRelease(a: string, b: string, c: string, users: Users, system: bool, num: Reader,
                                            ev: Event, back: Event, x: int)
    requires ReadsDecimals(num) && RunInv(a, num) && Sensible(ev.op) && ev.op.Grant? && ev.op.owner in users
    requires Session(a, b, users, system, num, ev) && ev.committed && ev.got.Some?
    requires 0 <= ev.got.value < ULONG_SPACE && back.op == Release(ev.op.owner, ev.got.value, ev.op.count)
    requires Session(b, c, users, system, num, back) && back.committed
    ensures RunInv(b, num) && RunInv(c, num)
    ensures OwnedTimes(Load(c, Parser(num)), users, ev.op.owner, x)
              == OwnedTimes(Load(a, Parser(num)), users, ev.op.owner, x)
    ensures multiset(Others(Parsed(Load(c, Parser(num))), users, ev.op.owner))
         == multiset(Others(Parsed(Load(a, Parser(num))), users, ev.op.owner))
  {
    var s := Load(a, Parser(num));
    var t := SessionEdits(a, b, users, system, num, ev);
    var mid :| Granted(s, mid, t, users, system, ev.op.owner, ev.op.min % ID_SPACE, ev.op.count, ev.got);
    GrantAppends(s, mid, t, users, system, ev.op.owner, ev.op.min % ID_SPACE, ev.op.count, ev.got);
    assert Sensible(back.op);
    var v := SessionEdits(b, c, users, system, num, back);
    var u := Load(b, Parser(num));
    SubidList.GrantThenRelease(s, mid, t, users, system, ev.op.owner, ev.op.min % ID_SPACE, ev.op.count,
                               ev.got.value, x);
    ReleasedAlike(t, u, users, ev.op.owner, ev.got.value, ev.op.count, x);
  }

  /** What a removal leaves depends on the parsed entries alone. */
  lemma {:induction false} ReleasedAlike(t: seq<Item<Range>>, u: seq<Item<Range>>, users: Users, owner: string,
                                         start: ulong, count: ulong, x: int)
    requires SubidInv(t) && SubidInv(u) && Parsed(t) == Parsed(u) && start + count <= ULONG_SPACE
    ensures OwnedTimes(AfterRemove(t, users, owner, start, count), users, owner, x)
         == OwnedTimes(AfterRemove(u, users, owner, start, count), users, owner, x)
    ensures Others(Parsed(AfterRemove(t, users, owner, start, count)), users, owner)
         == Others(Parsed(AfterRemove(u, users, owner, start, count)), users, owner)
  {
    GoodHasNoEmpty(t, users, owner);
    GoodHasNoEmpty(u, users, owner);
    RemoveExact(t, users, owner, start, count, x);
    RemoveExact(u, users, owner, start, count, x);
  }

  // ----- a grant that is not found in the file -----

  /** After a grant was written as a line that cannot be read, any other grant of as
      many IDs from the same bound, to whichever owner, gets the same start. */
  lemma {:induction false} LostIsGrantedAgain(s: seq<Item<Range>>, mid: seq<Item<Range>>, t: seq<Item<Range>>,
                                              users: Users, system: bool, owner: string, min: id_t, count: ulong,
                                              a: ulong, num: Reader, other: string, mid2: seq<Item<Range>>,
                                              t2: seq<Item<Range>>, got: Option<int>)
    requires ReadsDecimals(num) && SubidInv(s) && Stored(s, num) && Unmarked(s)
    requires Granted(s, mid, t, users, system, owner, min, count, Some(a)) && count < ULONG_SPACE / 2
    requires !ReadsBack(Range(owner, a, count)) && '\n' !in owner && !NameIsNis(owner)
    requires Granted(Reread(t, num), mid2, t2, users, system, other, min, count, got)
    ensures got == Some(a as int)
  {
    GrantIsStored(s, mid, t, users, system, owner, min, count, a, num);
    GrantAppends(s, mid, t, users, system, owner, min, count, Some(a));
    LostIsAbsent(mid, t, owner, a, count, num);
    var u := Reread(t, num);
    GrantsLeastStart(s, mid, t, users, system, owner, min, count, Some(a));
    GrantsLeastStart(u, mid2, t2, users, system, other, min, count, got);
    SameStart(Parsed(s), Parsed(u), min, count, a, got);
  }

  /** `got` is the least start at which `count` IDs are free. */
  ghost predicate IsLeastStart(rs: seq<Range>, min: id_t, count: ulong, got: Option<int>) {
    && (got.Some? ==> got.value != NO_ID && Fits(rs, got.value, count, min, NO_ID))
    && (forall x :: Fits(rs, x, count, min, NO_ID) && x != NO_ID ==> got.Some? && got.value <= x)
  }

  lemma {:induction false} GrantsLeastStart(s: seq<Item<Range>>, mid: seq<Item<Range>>, t: seq<Item<Range>>,
                                            users: Users, system: bool, owner: string, min: id_t, count: ulong,
                                            got: Option<int>)
    requires SubidInv(s) && 0 < count < ULONG_SPACE / 2 && Granted(s, mid, t, users, system, owner, min, count, got)
    ensures IsLeastStart(Parsed(s), min, count, got)
  {
    GrantIsLeast(s, mid, t, users, system, owner, min, count, got);
  }

  /** Lists of the same ranges give the same start. */
  lemma {:induction false} SameStart(rs: seq<Range>, ts: seq<Range>, min: id_t, count: ulong, a: ulong,
                                     got: Option<int>)
    requires multiset(rs) == multiset(ts)
    requires IsLeastStart(rs, min, count, Some(a)) && IsLeastStart(ts, min, count, got)
    ensures got == Some(a as int)
  {
    FitsPermuted(rs, ts, a, count, min, NO_ID);
    FitsPermuted(rs, ts, got.value, count, min, NO_ID);
  }

  lemma {:induction false} FirstGrant(s: seq<Item<Range>>, users: Users, system: bool, owner: string, min: id_t,
                                      count: ulong)
    requires Parsed(s) == [] && |s| <= 1 && min < NO_ID && 0 < count <= NO_ID - min + 1
    ensures Edited(s, s + [NewEntry(owner, min, count)], users, system, Grant(owner, min, count), Some(min))
  {
    SortedTrivially(RangeLeq, s);
    FreeIsNotHeld(Parsed(s), users, system, owner, min, count);
    assert min % ID_SPACE == min;
    assert Granted(s, s, s + [NewEntry(owner, min, count)], users, system, owner, min, count, Some(min));
  }

  lemma {:induction false} RunOfTwo(a: string, b: string, c: string, users: Users, system: bool, num: Reader, e1: Event,
                                    e2: Event)
    requires Session(a, b, users, system, num, e1) && Session(b, c, users, system, num, e2)
    ensures IsRun([a, b, c], [e1, e2], users, system, num)
  {
    var texts, evs := [a, b, c], [e1, e2];
    forall i | 0 <= i < |evs|
      ensures Session(texts[i], texts[i + 1], users, system, num, evs[i])
    {
      assert i == 0 || i == 1;
    }
  }

  lemma {:induction false} UnparsedLines(lines: seq<string>, num: Reader)
    requires |lines| <= 1 && (lines == [] || Loaded(lines[0], Parser(num)).rec.None?)
    ensures Parsed(LoadedAll(lines, Parser(num))) == []
  {
    var s := LoadedAll(lines, Parser(num));
    assert |s| == 1 ==> s[1..] == [];
  }

  /** A grant on a file whose only lines are unparsed copies of its own. */
  lemma {:induction false} LostSession(users: Users, system: bool, num: Reader, owner: string, min: id_t, count: ulong,
                                       lines: seq<string>)
    requires min < NO_ID && 0 < count <= NO_ID - min + 1 && |lines| <= 1 && Plain(lines)
    requires lines == [] || (Loaded(lines[0], Parser(num)).rec.None? && lines[0] == Line(Range(owner, min, count)))
    ensures Session(Join(lines), Join(lines + [Line(Range(owner, min, count))]), users, system, num,
                    Event(Grant(owner, min, count), Some(min), true))
  {
    var e, line, s := NewEntry(owner, min, count), Line(Range(owner, min, count)), LoadedAll(lines, Parser(num));
    JoinThenLines(lines);
    UnparsedLines(lines, num);
    FirstGrant(s, users, system, owner, min, count);
    assert Serialize(s + [e], Put) == Some(Join(lines + [line])) by {
      SerializeLines(s + [e], lines + [line], Put);
    }
  }

  /** The run that starts with an empty file and grants to `owner` twice. */
  lemma {:induction false} LostRun(users: Users, system: bool, num: Reader, owner: string, min: id_t, count: ulong)
    requires ReadsDecimals(num) && min < NO_ID && 0 < count <= NO_ID - min + 1
    requires '\n' !in owner && !ReadsBack(Range(owner, min, count))
    ensures var line, ev := Line(Range(owner, min, count)), Event(Grant(owner, min, count), Some(min), true);
            IsRun(["", Join([line]), Join([line, line])], [ev, ev], users, system, num)
  {
    var line, ev := Line(Range(owner, min, count)), Event(Grant(owner, min, count), Some(min), true);
    LineIs(Range(owner, min, count));
    PrintThenParse(Range(owner, min, count), num);
    LostSession(users, system, num, owner, min, count, []);
    LostSession(users, system, num, owner, min, count, [line]);
    assert [] + [line] == [line] && [line] + [line] == [line, line] && Join([]) == "";
    RunOfTwo("", Join([line]), Join([line, line]), users, system, num, ev, ev);
  }

  /** An owner the file cannot hold, and a range of all IDs, are granted twice. */
  lemma {:induction false} LostExamples(users: Users, system: bool, num: Reader, op: Request)
    requires ReadsDecimals(num)
    requires op == Grant("a:b", 100000, 65536) || op == Grant("", 100000, 65536) || op == Grant("o", 0, ID_SPACE)
    ensures IsGrantedTwice(users, system, num, op)
  {
    if op.owner != "" && op.count != ID_SPACE {
      assert op.owner[1] == ':';
    }
    GrantedTwice(users, system, num, op);
  }

  ghost predicate IsGrantedTwice(users: Users, system: bool, num: Reader, op: Request) {
    && op.Grant?
    && var ev := Event(op, Some(op.min as int), true);
       exists texts :: IsRun(texts, [ev, ev], users, system, num) && texts[0] == ""
  }

  lemma {:induction false} GrantedTwice(users: Users, system: bool, num: Reader, op: Request)
    requires ReadsDecimals(num) && op.Grant? && op.min < NO_ID && 0 < op.count <= NO_ID - op.min + 1
    requires '\n' !in op.owner && !ReadsBack(Range(op.owner, op.min, op.count))
    ensures IsGrantedTwice(users, system, num, op)
  {
    LostRun(users, system, num, op.owner, op.min, op.count);
  }

  lemma {:induction false} SessionGrants(a: string, b: string, users: Users, system: bool, num: Reader, ev: Event)
    requires Lines(a).Some? && SubidInv(Load(a, Parser(num))) && Session(a, b, users, system, num, ev)
    requires ev.op.Grant? && 0 < ev.op.count < ULONG_SPACE / 2 && (ev.committed || ev.got.Some?)
    ensures IsLeastStart(Parsed(Load(a, Parser(num))), ev.op.min % ID_SPACE, ev.op.count, ev.got)
  {
    var s := Load(a, Parser(num));
    var t :| Edited(s, t, users, system, ev.op, ev.got);
    var mid :| Granted(s, mid, t, users, system, ev.op.owner, ev.op.min % ID_SPACE, ev.op.count, ev.got);
    GrantsLeastStart(s, mid, t, users, system, ev.op.owner, ev.op.min % ID_SPACE, ev.op.count, ev.got);
  }

  /** `new_subid_range` reports success whether or not its commit worked. If it did not,
      every later grant of as many IDs from the same bound that is committed to the
      file, to whichever owner, gets the same start. */
  lemma {:induction false} UnwrittenIsGrantedAgain(a: string, b: string, c: string, users: Users, system: bool,
                                                   num: Reader, ev: Event, later: Event)
    requires Lines(a).Some? && SubidInv(Load(a, Parser(num)))
    requires Session(a, b, users, system, num, ev) && ev.op.Grant? && ev.got.Some? && !ev.committed
    requires Session(b, c, users, system, num, later) && later.op.Grant? && later.committed
    requires later.op.min == ev.op.min && later.op.count == ev.op.count && ev.op.count < ULONG_SPACE / 2
    ensures later.got == ev.got
  {
    if ev.op.count == 0 {
      NothingGranted(a, b, users, system, num, ev);
    } else {
      SessionGrants(a, b, users, system, num, ev);
      SessionGrants(b, c, users, system, num, later);
      SameStart(Parsed(Load(a, Parser(num))), Parsed(Load(a, Parser(num))), ev.op.min % ID_SPACE, ev.op.count,
                ev.got.value, later.got);
    }
  }

  lemma {:induction false} NothingGranted(a: string, b: string, users: Users, system: bool, num: Reader, ev: Event)
    requires Session(a, b, users, system, num, ev) && ev.op.Grant? && ev.op.count == 0
    ensures ev.got == None
  {
  }

  /** Such a pair of calls: the first one's commit fails. */
  lemma {:induction false} UnwrittenRun(a: string, b: string, users: Users, system: bool, num: Reader, ev: Event)
    requires Session(a, b, users, system, num, ev) && ev.op.Grant? && ev.got.Some? && ev.committed
    ensures IsRun([a, a, b], [ev.(committed := false), ev], users, system, num)
  {
    var t :| Edited(Load(a, Parser(num)), t, users, system, ev.op, ev.got) && Serialize(t, Put) == Some(b);
    RunOfTwo(a, a, b, users, system, num, ev.(committed := false), ev);
  }
}
