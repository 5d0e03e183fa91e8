/**
 Whole runs of `new_subid_range` and `release_subid_range` (lib/subordinateio.c):
 each call opens the file, edits the list, and writes the text that the next call
 opens. What was granted stays with its owner until it is released, and is not
 granted again before.
 */
module SubidRuns {
  import opened Words
  import opened Wrappers
  import opened CommonIO
  import opened Commit
  import opened CommonIOOpen
  import opened CommonIOSort
  import opened Fields
  import opened SubidRanges
  import opened SubidList
  import opened SubidText
  import opened SubidStore

  datatype Request =
    | Grant(owner: string, min: ulong, count: ulong)
    | Release(owner: string, start: ulong, count: ulong)

  /** A call: the start it reports, and whether its edit reached the file. */
  datatype Event = Event(op: Request, got: Option<int>, committed: bool)

  /** One edit of the open list. The lower bound of a grant is narrowed to `id_t`. */
  ghost predicate Edited(s: seq<Item<Range>>, t: seq<Item<Range>>, users: Users, system: bool, op: Request,
                         got: Option<int>) {
    match op
    case Grant(owner, min, count) =>
      exists mid :: Granted(s, mid, t, users, system, owner, min % ID_SPACE, count, got)
    case Release(owner, start, count) =>
      got == None && t == AfterRemove(s, users, owner, start, count)
  }

  /** One call on a file that holds `a` and then `b`. It may fail before the edit; a
      failed commit leaves the file alone, whatever the call reports. */
  ghost predicate Session(a: string, b: string, users: Users, system: bool, num: Reader, ev: Event) {
    || (b == a && ev.got == None && !ev.committed)
    || (&& Lines(a).Some?
        && exists t :: && Edited(Load(a, Parser(num)), t, users, system, ev.op, ev.got)
                       && if ev.committed then Serialize(t, Put) == Some(b) else b == a)
  }

  ghost predicate IsStep(texts: seq<string>, evs: seq<Event>, users: Users, system: bool, num: Reader, i: nat)
    requires |texts| == |evs| + 1 && i < |evs|
  {
    Session(texts[i], texts[i + 1], users, system, num, evs[i])
  }

  ghost predicate IsRun(texts: seq<string>, evs: seq<Event>, users: Users, system: bool, num: Reader) {
    && |texts| == |evs| + 1
    && forall i :: 0 <= i < |evs| ==> IsStep(texts, evs, users, system, num, i)
  }

  /** A count below 2^32, an owner the file can hold, no wrap-around. */
  predicate Sensible(op: Request) {
    match op
    case Grant(owner, _, count) => count < ID_SPACE && GoodOwner(owner) && ShortOwner(owner)
    case Release(_, start, count) => start + count <= ULONG_SPACE
  }

  /** Owners that stay readable whatever numbers stand behind them. */
  ghost predicate ClearOwners(s: seq<Item<Range>>) {
    forall i :: 0 <= i < |s| && s[i].rec.Some? ==> GoodOwner(s[i].rec.value.owner) && ShortOwner(s[i].rec.value.owner)
  }

  ghost predicate ListInv(s: seq<Item<Range>>, num: Reader) {
    SubidInv(s) && ClearOwners(s) && Stored(s, num)
  }

  /** The file can be read as pairwise disjoint non-empty ranges of clear owners. */
  ghost predicate RunInv(text: string, num: Reader) {
    && Lines(text).Some?
    && SubidInv(Load(text, Parser(num)))
    && ClearOwners(Load(text, Parser(num)))
  }

  // ----- edits keep a list that can be stored -----

  lemma {:induction false} RemoveKeepsStored(s: seq<Item<Range>>, users: Users, owner: string, start: ulong, end: ulong,
                                             num: Reader)
    requires ClearOwners(s) && Stored(s, num)
    ensures ClearOwners(Kept(s, users, owner, start, end)) && ClearOwners(Tails(s, users, owner, start, end))
    ensures Stored(Kept(s, users, owner, start, end), num) && Stored(Tails(s, users, owner, start, end), num)
  {
    if s != [] {
      RemoveKeepsStored(s[1..], users, owner, start, end, num);
      var c := CutItem(s[0], users, owner, start, end);
      assert ClearOwners(InPlace(s[0], c)) && ClearOwners(Appended(c));
      assert StoredItem(s[0], num);
      assert Stored(InPlace(s[0], c), num) && Stored(Appended(c), num);
    }
  }

  lemma {:induction false} SortedMembers(s: seq<Item<Range>>, mid: seq<Item<Range>>)
    requires mid == s || SortsPrefix(RangeLeq, s, mid)
    ensures forall i :: 0 <= i < |mid| ==> mid[i] in s
  {
    if mid != s {
      var n := FirstNisLine(s, 0);
      forall i | 0 <= i < |mid|
        ensures mid[i] in s
      {
        if i < n {
          assert mid[..n][i] in multiset(mid[..n]);
          assert mid[i] in s[..n];
        } else {
          assert mid[n..][i - n] == s[n..][i - n];
        }
      }
    }
  }

  lemma {:induction false} GrantKeepsInv(s: seq<Item<Range>>, mid: seq<Item<Range>>, t: seq<Item<Range>>, users: Users,
                                         system: bool, owner: string, min: id_t, count: ulong, got: Option<int>,
                                         num: Reader)
    requires ListInv(s, num) && count < ID_SPACE && GoodOwner(owner) && ShortOwner(owner)
    requires Granted(s, mid, t, users, system, owner, min, count, got)
    ensures ListInv(t, num)
  {
    GrantKeepsInvIff(s, mid, t, users, system, owner, min, count, got);
    SortedMembers(s, mid);
    if got.Some? {
      GrantAppends(s, mid, t, users, system, owner, min, count, got);
    }
    forall i | 0 <= i < |t|
      ensures StoredItem(t[i], num)
      ensures (t[i].rec.Some? ==> GoodOwner(t[i].rec.value.owner) && ShortOwner(t[i].rec.value.owner))
    {
      if i < |mid| {
        var j :| 0 <= j < |s| && s[j] == mid[i];
        assert StoredItem(s[j], num);
      }
    }
  }

  lemma {:induction false} EditKeepsInv(s: seq<Item<Range>>, t: seq<Item<Range>>, users: Users, system: bool,
                                        op: Request, got: Option<int>, num: Reader)
    requires ListInv(s, num) && Sensible(op) && Edited(s, t, users, system, op, got)
    ensures ListInv(t, num)
  {
    if op.Grant? {
      var mid :| Granted(s, mid, t, users, system, op.owner, op.min % ID_SPACE, op.count, got);
      GrantKeepsInv(s, mid, t, users, system, op.owner, op.min % ID_SPACE, op.count, got, num);
    } else {
      RemoveKeepsInv(s, users, op.owner, op.start, op.count);
      if op.count > 0 {
        RemoveKeepsStored(s, users, op.owner, op.start, U64(op.start + op.count - 1), num);
      }
    }
  }

  lemma {:induction false} InvReadsBack(t: seq<Item<Range>>, num: Reader)
    requires ListInv(t, num)
    ensures AllReadBack(t)
  {
    forall i | 0 <= i < |t| && t[i].changed && t[i].rec.Some?
      ensures ReadsBack(t[i].rec.value)
    {
      assert Good(t[i].rec.value);
      ShortReadsBack(t[i].rec.value);
    }
  }

  /** A good list is read back with the same ranges and is good again. */
  lemma {:induction false} CommitKeepsInv(t: seq<Item<Range>>, num: Reader)
    requires ListInv(t, num) && ReadsDecimals(num)
    ensures RunInv(FileOf(t), num) && Parsed(Reread(t, num)) == Parsed(t)
  {
    FileIsRead(t);
    InvReadsBack(t, num);
    CommitKeepsIff(t, num);
    RereadEach(t, num);
    var u := Reread(t, num);
    forall i | 0 <= i < |u|
      ensures u[i].rec == t[i].rec && !LineIsNis(u[i])
    {
      assert StoredItem(t[i], num) && !LineIsNis(t[i]);
      RereadRec(t[i], num);
      if t[i].changed {
        PrintThenParse(t[i].rec.value, num);
      }
    }
  }

  // ----- one call -----

  /** A call on a good file: either nothing was written, or the edited list was. */
  lemma {:induction false} SessionEdits(a: string, b: string, users: Users, system: bool, num: Reader, ev: Event)
      returns (t: seq<Item<Range>>)
    requires ReadsDecimals(num) && RunInv(a, num) && Sensible(ev.op)
    requires Session(a, b, users, system, num, ev) && ev.committed
    ensures ListInv(Load(a, Parser(num)), num)
    ensures Edited(Load(a, Parser(num)), t, users, system, ev.op, ev.got) && ListInv(t, num)
    ensures b == FileOf(t) && RunInv(b, num) && Parsed(Load(b, Parser(num))) == Parsed(t)
  {
    var s := Load(a, Parser(num));
    LoadIsStored(a, num);
    t :| Edited(s, t, users, system, ev.op, ev.got) && Serialize(t, Put) == Some(b);
    EditKeepsInv(s, t, users, system, ev.op, ev.got, num);
    FileIsSerialized(t, num);
    CommitKeepsInv(t, num);
  }

  lemma {:induction false} SessionKeepsInv(a: string, b: string, users: Users, system: bool, num: Reader, ev: Event)
    requires ReadsDecimals(num) && RunInv(a, num) && Sensible(ev.op) && Session(a, b, users, system, num, ev)
    ensures RunInv(b, num)
  {
    if ev.committed {
      var _ := SessionEdits(a, b, users, system, num, ev);
    }
  }

  /** Safety over whole runs: from a file of pairwise disjoint non-empty ranges inside
      the ID space, every file a run of sensible requests reaches is again one. */
  lemma {:induction false} RunsAreSafe(texts: seq<string>, evs: seq<Event>, users: Users, system: bool, num: Reader,
                                       k: nat)
    requires ReadsDecimals(num) && IsRun(texts, evs, users, system, num) && RunInv(texts[0], num)
    requires forall i :: 0 <= i < |evs| ==> Sensible(evs[i].op)
    requires k < |texts|
    ensures RunInv(texts[k], num)
  {
    if k > 0 {
      RunsAreSafe(texts, evs, users, system, num, k - 1);
      assert IsStep(texts, evs, users, system, num, k - 1);
      SessionKeepsInv(texts[k - 1], texts[k], users, system, num, evs[k - 1]);
    }
  }

  // ----- nothing granted is lost or granted twice -----

  /** The file records `x` for this owner. */
  ghost predicate Records(rs: seq<Range>, owner: string, x: int) {
    exists r :: r in rs && r.owner == owner && r.Has(x)
  }

  /** The call gave `x` away. */
  predicate Gives(ev: Event, x: int) {
    ev.committed && ev.op.Grant? && ev.got.Some? && ev.got.value <= x < ev.got.value + ev.op.count
  }

  /** The call took `x` from the user that `owner` names. */
  predicate Takes(ev: Event, users: Users, owner: string, x: int) {
    ev.committed && ev.op.Release? && SameUser(users, owner, ev.op.owner) &&
    ev.op.start <= x < ev.op.start + ev.op.count
  }

  lemma {:induction false} KeptPieces(s: seq<Item<Range>>, i: nat, users: Users, owner: string, start: ulong,
                                      end: ulong, it: Item<Range>)
    requires i < |s|
    requires var c := CutItem(s[i], users, owner, start, end); it in InPlace(s[i], c) || it in Appended(c)
    ensures it in Kept(s, users, owner, start, end) + Tails(s, users, owner, start, end)
  {
    if i > 0 {
      KeptPieces(s[1..], i - 1, users, owner, start, end, it);
    }
  }

  /** A removal leaves every recorded ID that it does not name, or whose user it does
      not name, with its owner. */
  lemma {:induction false} RemoveKeepsRecord(s: seq<Item<Range>>, users: Users, owner: string, start: ulong,
                                             count: ulong, name: string, x: int)
    requires SubidInv(s) && start + count <= ULONG_SPACE && Records(Parsed(s), name, x)
    requires !(SameUser(users, name, owner) && start <= x < start + count)
    ensures Records(Parsed(AfterRemove(s, users, owner, start, count)), name, x)
  {
    if count > 0 {
      var r :| r in Parsed(s) && r.owner == name && r.Has(x);
      ParsedHas(s, r);
      var i :| 0 <= i < |s| && s[i].rec == Some(r);
      var end := U64(start + count - 1);
      var t := AfterRemove(s, users, owner, start, count);
      var c := CutItem(s[i], users, owner, start, end);
      var it := PieceWith(s[i], r, users, owner, start, count, x);
      KeptPieces(s, i, users, owner, start, end, it);
      var k :| 0 <= k < |t| && t[k] == it;
      ParsedHas(t, it.rec.value);
    }
  }

  /** The piece of an entry that still holds `x`. */
  lemma {:induction false} PieceWith(e: Item<Range>, r: Range, users: Users, owner: string, start: ulong, count: ulong,
                                     x: int)
      returns (it: Item<Range>)
    requires e.rec == Some(r) && Good(r) && r.Has(x) && 0 < count && start + count <= ULONG_SPACE
    requires !(SameUser(users, r.owner, owner) && start <= x < start + count)
    ensures var c := CutItem(e, users, owner, start, U64(start + count - 1)); it in InPlace(e, c) || it in Appended(c)
    ensures it.rec.Some? && it.rec.value.owner == r.owner && it.rec.value.Has(x)
  {
    var c := CutItem(e, users, owner, start, U64(start + count - 1));
    if c.Keep? {
      it := e;
    } else {
      CutExact(r, start, count, x);
      PiecesTimes(r, c, x);
      if c.left.Has(x) {
        it := Item(e.line, Some(c.left), true);
      } else {
        it := Item(None, Some(c.tail), true);
      }
    }
  }

  lemma {:induction false} SameRecords(rs: seq<Range>, ts: seq<Range>, name: string, x: int)
    requires multiset(rs) == multiset(ts) && Records(rs, name, x)
    ensures Records(ts, name, x)
  {
    var r :| r in rs && r.owner == name && r.Has(x);
    assert r in multiset(rs);
  }

  /** A grant keeps every record, and adds what it gives. */
  lemma {:induction false} GrantRecords(s: seq<Item<Range>>, t: seq<Item<Range>>, users: Users, system: bool,
                                        owner: string, min: ulong, count: ulong, got: Option<int>, name: string, x: int)
    requires SubidInv(s) && count < ID_SPACE && Edited(s, t, users, system, Grant(owner, min, count), got)
    ensures Records(Parsed(s), name, x) ==> Records(Parsed(t), name, x)
    ensures got.Some? && got.value <= x < got.value + count ==> Records(Parsed(t), owner, x) && Free(Parsed(s), x)
  {
    var mid :| Granted(s, mid, t, users, system, owner, min % ID_SPACE, count, got);
    if mid != s {
      SortKeepsInv(s, mid);
    }
    if Records(Parsed(s), name, x) {
      SameRecords(Parsed(s), Parsed(mid), name, x);
    }
    if got.Some? {
      GrantAppends(s, mid, t, users, system, owner, min % ID_SPACE, count, got);
      GrantIsLeast(s, mid, t, users, system, owner, min % ID_SPACE, count, got);
      AppendRecords(mid, owner, got.value, count, name, x);
    }
  }

  lemma {:induction false} AppendRecords(mid: seq<Item<Range>>, owner: string, a: ulong, count: ulong, name: string,
                                         x: int)
    ensures var t := Parsed(mid + [NewEntry(owner, a, count)]);
            && (Records(Parsed(mid), name, x) ==> Records(t, name, x))
            && (a <= x < a + count ==> Records(t, owner, x))
  {
    var e := NewEntry(owner, a, count);
    ParsedConcat(mid, [e]);
    assert Parsed([e]) == [e.rec.value];
    assert e.rec.value in Parsed(mid + [e]);
    assert forall r :: r in Parsed(mid) ==> r in Parsed(mid + [e]);
  }

  /** One call keeps every recorded ID with its owner unless it takes it, and records
      what it gives, which no one had before. */
  lemma {:induction false} SessionRecords(a: string, b: string, users: Users, system: bool, num: Reader, ev: Event,
                                          name: string, x: int)
    requires ReadsDecimals(num) && RunInv(a, num) && Sensible(ev.op) && Session(a, b, users, system, num, ev)
    ensures RunInv(b, num)
    ensures Records(Parsed(Load(a, Parser(num))), name, x) && !Takes(ev, users, name, x) ==>
              Records(Parsed(Load(b, Parser(num))), name, x)
    ensures Gives(ev, x) ==>
              Records(Parsed(Load(b, Parser(num))), ev.op.owner, x) && Free(Parsed(Load(a, Parser(num))), x)
  {
    SessionKeepsInv(a, b, users, system, num, ev);
    if ev.committed {
      var s := Load(a, Parser(num));
      var t := SessionEdits(a, b, users, system, num, ev);
      if ev.op.Grant? {
        GrantRecords(s, t, users, system, ev.op.owner, ev.op.min, ev.op.count, ev.got, name, x);
      } else if Records(Parsed(s), name, x) && !Takes(ev, users, name, x) {
        RemoveKeepsRecord(s, users, ev.op.owner, ev.op.start, ev.op.count, name, x);
      }
    }
  }

  /** What a call gave stays recorded for its owner as long as no call takes it. */
  lemma {:induction false} GrantStays(texts: seq<string>, evs: seq<Event>, users: Users, system: bool, num: Reader,
                                      j: nat, k: nat, x: int)
    requires ReadsDecimals(num) && IsRun(texts, evs, users, system, num) && RunInv(texts[0], num)
    requires forall i :: 0 <= i < |evs| ==> Sensible(evs[i].op)
    requires j < k < |texts| && Gives(evs[j], x)
    requires forall i :: j < i < k ==> !Takes(evs[i], users, evs[j].op.owner, x)
    ensures RunInv(texts[k], num) && Records(Parsed(Load(texts[k], Parser(num))), evs[j].op.owner, x)
    decreases k
  {
    RunsAreSafe(texts, evs, users, system, num, k - 1);
    assert IsStep(texts, evs, users, system, num, k - 1);
    SessionRecords(texts[k - 1], texts[k], users, system, num, evs[k - 1], evs[j].op.owner, x);
    if j < k - 1 {
      GrantStays(texts, evs, users, system, num, j, k - 1, x);
    }
  }

  /** No ID is granted again before it was released by its owner's user. */
  lemma {:induction false} NeverGrantedTwice(texts: seq<string>, evs: seq<Event>, users: Users, system: bool,
                                             num: Reader, j: nat, k: nat, x: int)
    requires ReadsDecimals(num) && IsRun(texts, evs, users, system, num) && RunInv(texts[0], num)
    requires forall i :: 0 <= i < |evs| ==> Sensible(evs[i].op)
    requires j < k < |evs| && Gives(evs[j], x) && Gives(evs[k], x)
    ensures exists i :: j < i < k && Takes(evs[i], users, evs[j].op.owner, x)
  {
    if forall i :: j < i < k ==> !Takes(evs[i], users, evs[j].op.owner, x) {
      GrantStays(texts, evs, users, system, num, j, k, x);
      assert IsStep(texts, evs, users, system, num, k);
      SessionRecords(texts[k], texts[k + 1], users, system, num, evs[k], "", x);
    }
  }
}
