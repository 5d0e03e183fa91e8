/**
 What the operations of lib/subordinateio.c do to the list of entries, as
 functions and relations on values, and the theorems about them: exact removal,
 safe grants, and whole runs of grants and releases.
 */
module SubidList {
  import opened Words
  import opened Wrappers
  import opened CommonIO
  import opened CommonIOSort
  import opened SubidRanges

  /** What a name or a UID string resolves to; the lookup is fixed. */
  type Users = map<string, nat>

  predicate SameUser(users: Users, a: string, b: string) {
    a in users && b in users && users[a] == users[b]
  }

  lemma {:induction false} Associate<X>(a: seq<X>, b: seq<X>, c: seq<X>)
    ensures a + (b + c) == (a + b) + c
  {
  }

  // ----- the ranges of one owner and those of the others -----

  function Owned(rs: seq<Range>, users: Users, owner: string): seq<Range> {
    if rs == [] then []
    else (if SameUser(users, rs[0].owner, owner) then [rs[0]] else []) + Owned(rs[1..], users, owner)
  }

  function Others(rs: seq<Range>, users: Users, owner: string): seq<Range> {
    if rs == [] then []
    else (if SameUser(users, rs[0].owner, owner) then [] else [rs[0]]) + Others(rs[1..], users, owner)
  }

  lemma {:induction false} SplitConcat(rs: seq<Range>, ts: seq<Range>, users: Users, owner: string)
    ensures Owned(rs + ts, users, owner) == Owned(rs, users, owner) + Owned(ts, users, owner)
    ensures Others(rs + ts, users, owner) == Others(rs, users, owner) + Others(ts, users, owner)
  {
    if rs == [] {
      assert rs + ts == ts;
    } else {
      SplitConcat(rs[1..], ts, users, owner);
      assert (rs + ts)[1..] == rs[1..] + ts && (rs + ts)[0] == rs[0];
      var h := if SameUser(users, rs[0].owner, owner) then [rs[0]] else [];
      Associate(h, Owned(rs[1..], users, owner), Owned(ts, users, owner));
      var g := if SameUser(users, rs[0].owner, owner) then [] else [rs[0]];
      Associate(g, Others(rs[1..], users, owner), Others(ts, users, owner));
    }
  }

  lemma {:induction false} TimesOwnedOthers(rs: seq<Range>, users: Users, owner: string, x: int)
    ensures Times(rs, x) == Times(Owned(rs, users, owner), x) + Times(Others(rs, users, owner), x)
  {
    if rs != [] {
      TimesOwnedOthers(rs[1..], users, owner, x);
      TimesOne(rs[0], x);
      TimesConcat([rs[0]], Owned(rs[1..], users, owner), x);
      TimesConcat([rs[0]], Others(rs[1..], users, owner), x);
      assert [] + Owned(rs[1..], users, owner) == Owned(rs[1..], users, owner);
      assert [] + Others(rs[1..], users, owner) == Others(rs[1..], users, owner);
    }
  }

  lemma {:induction false} ParsedConcat<T>(s: seq<Item<T>>, t: seq<Item<T>>)
    ensures Parsed(s + t) == Parsed(s) + Parsed(t)
  {
    if s == [] {
      assert s + t == t;
    } else {
      ParsedConcat(s[1..], t);
      assert (s + t)[1..] == s[1..] + t && (s + t)[0] == s[0];
      Associate(if s[0].rec.Some? then [s[0].rec.value] else [], Parsed(s[1..]), Parsed(t));
    }
  }

  // ----- remove_range on the list -----

  /** What the loop does to one entry: unparsed lines and other users' entries are skipped. */
  function CutItem(it: Item<Range>, users: Users, owner: string, start: ulong, end: ulong): Cut {
    if it.rec.Some? && SameUser(users, it.rec.value.owner, owner) then CutOf(it.rec.value, start, end) else Keep
  }

  function InPlace(it: Item<Range>, c: Cut): seq<Item<Range>> {
    match c
    case Keep => [it]
    case Drop => []
    case Shrink(left) => [Item(it.line, Some(left), true)]
    case Split(left, _) => [Item(it.line, Some(left), true)]
  }

  function Appended(c: Cut): seq<Item<Range>> {
    if c.Split? then [Item(None, Some(c.tail), true)] else []
  }

  /** The entries left where they were, and the tail pieces gathered at the end. */
  function Kept(s: seq<Item<Range>>, users: Users, owner: string, start: ulong, end: ulong): seq<Item<Range>> {
    if s == [] then []
    else InPlace(s[0], CutItem(s[0], users, owner, start, end)) + Kept(s[1..], users, owner, start, end)
  }

  function Tails(s: seq<Item<Range>>, users: Users, owner: string, start: ulong, end: ulong): seq<Item<Range>> {
    if s == [] then []
    else Appended(CutItem(s[0], users, owner, start, end)) + Tails(s[1..], users, owner, start, end)
  }

  /** The list when the first split fails because nothing can be appended. */
  function Stuck(s: seq<Item<Range>>, users: Users, owner: string, start: ulong, end: ulong): seq<Item<Range>> {
    if s == [] || CutItem(s[0], users, owner, start, end).Split? then s
    else InPlace(s[0], CutItem(s[0], users, owner, start, end)) + Stuck(s[1..], users, owner, start, end)
  }

  predicate NeedsSplit(s: seq<Item<Range>>, users: Users, owner: string, start: ulong, end: ulong) {
    exists i :: 0 <= i < |s| && CutItem(s[i], users, owner, start, end).Split?
  }

  /** A bound on the turns left, counting the tail each split will append. */
  function Work(s: seq<Item<Range>>, users: Users, owner: string, start: ulong, end: ulong): nat {
    if s == [] then 0
    else 1 + |Appended(CutItem(s[0], users, owner, start, end))| + Work(s[1..], users, owner, start, end)
  }

  /** `remove_range` on a writable database. */
  function AfterRemove(s: seq<Item<Range>>, users: Users, owner: string, start: ulong, count: ulong): seq<Item<Range>> {
    if count == 0 then s
    else
      var end := U64(start + count - 1);
      Kept(s, users, owner, start, end) + Tails(s, users, owner, start, end)
  }

  /** A tail piece appended behind entries still to be visited stays as it is. */
  lemma {:induction false} VisitAppended(s: seq<Item<Range>>, it: Item<Range>, users: Users, owner: string,
                                         start: ulong, end: ulong)
    requires CutItem(it, users, owner, start, end) == Keep
    ensures Kept(s + [it], users, owner, start, end) == Kept(s, users, owner, start, end) + [it]
    ensures Tails(s + [it], users, owner, start, end) == Tails(s, users, owner, start, end)
    ensures Work(s + [it], users, owner, start, end) == Work(s, users, owner, start, end) + 1
  {
    if s == [] {
      assert s + [it] == [it];
    } else {
      VisitAppended(s[1..], it, users, owner, start, end);
      assert (s + [it])[1..] == s[1..] + [it] && (s + [it])[0] == s[0];
      Associate(InPlace(s[0], CutItem(s[0], users, owner, start, end)), Kept(s[1..], users, owner, start, end), [it]);
    }
  }

  // ----- removal is exact set difference -----

  /** How often the ranges of `owner` on the list hold `x`. */
  function OwnedTimes(s: seq<Item<Range>>, users: Users, owner: string, x: int): nat {
    Times(Owned(Parsed(s), users, owner), x)
  }

  ghost predicate ListBounded(s: seq<Item<Range>>) {
    forall i :: 0 <= i < |s| && s[i].rec.Some? ==> Bounded(s[i].rec.value)
  }

  /** Some entry of the user is empty at 0, where the wrapped last ID misleads the code. */
  ghost predicate HasEmptyAtZero(s: seq<Item<Range>>, users: Users, owner: string) {
    exists i :: 0 <= i < |s| && s[i].rec.Some? && SameUser(users, s[i].rec.value.owner, owner) &&
      EmptyAtZero(s[i].rec.value)
  }

  lemma {:induction false} OwnedTimesConcat(s: seq<Item<Range>>, t: seq<Item<Range>>, users: Users, owner: string,
                                            x: int)
    ensures OwnedTimes(s + t, users, owner, x) == OwnedTimes(s, users, owner, x) + OwnedTimes(t, users, owner, x)
    ensures Others(Parsed(s + t), users, owner) == Others(Parsed(s), users, owner) + Others(Parsed(t), users, owner)
  {
    ParsedConcat(s, t);
    SplitConcat(Parsed(s), Parsed(t), users, owner);
    TimesConcat(Owned(Parsed(s), users, owner), Owned(Parsed(t), users, owner), x);
  }

  lemma {:induction false} OwnedTimesOne(it: Item<Range>, users: Users, owner: string, x: int)
    ensures OwnedTimes([it], users, owner, x)
         == if it.rec.Some? && SameUser(users, it.rec.value.owner, owner) && it.rec.value.Has(x) then 1 else 0
    ensures Others(Parsed([it]), users, owner)
         == if it.rec.Some? && !SameUser(users, it.rec.value.owner, owner) then [it.rec.value] else []
  {
    assert Parsed([it]) == if it.rec.Some? then [it.rec.value] else [];
    if it.rec.Some? {
      TimesOne(it.rec.value, x);
      var same := SameUser(users, it.rec.value.owner, owner);
      assert Owned([it.rec.value], users, owner) == if same then [it.rec.value] else [];
      assert Others([it.rec.value], users, owner) == if same then [] else [it.rec.value];
    }
  }

  /** One entry: its pieces hold what it held outside the removed range. */
  lemma {:induction false} CutItemExact(it: Item<Range>, users: Users, owner: string, start: ulong, count: ulong,
                                        x: int)
    requires 0 < count && start + count <= ULONG_SPACE
    requires it.rec.Some? ==> Bounded(it.rec.value)
    requires it.rec.Some? && SameUser(users, it.rec.value.owner, owner) ==> !EmptyAtZero(it.rec.value)
    ensures var c := CutItem(it, users, owner, start, U64(start + count - 1));
            && OwnedTimes(InPlace(it, c), users, owner, x) + OwnedTimes(Appended(c), users, owner, x)
               == (if start <= x < start + count then 0 else OwnedTimes([it], users, owner, x))
            && Others(Parsed(InPlace(it, c)), users, owner) == Others(Parsed([it]), users, owner)
            && Others(Parsed(Appended(c)), users, owner) == []
  {
    var end := U64(start + count - 1);
    var c := CutItem(it, users, owner, start, end);
    OwnedTimesOne(it, users, owner, x);
    if it.rec.Some? && SameUser(users, it.rec.value.owner, owner) {
      CutExact(it.rec.value, start, count, x);
      PiecesTimes(it.rec.value, c, x);
      if c.Shrink? || c.Split? {
        OwnedTimesOne(Item(it.line, Some(c.left), true), users, owner, x);
      }
      if c.Split? {
        OwnedTimesOne(Item(None, Some(c.tail), true), users, owner, x);
      }
    }
  }

  lemma {:induction false} RemoveSums(s: seq<Item<Range>>, users: Users, owner: string, start: ulong, count: ulong,
                                      x: int)
    requires 0 < count && start + count <= ULONG_SPACE
    requires ListBounded(s) && !HasEmptyAtZero(s, users, owner)
    ensures var end := U64(start + count - 1);
            var kept, tails := Kept(s, users, owner, start, end), Tails(s, users, owner, start, end);
            && OwnedTimes(kept, users, owner, x) + OwnedTimes(tails, users, owner, x)
               == (if start <= x < start + count then 0 else OwnedTimes(s, users, owner, x))
            && Others(Parsed(kept), users, owner) == Others(Parsed(s), users, owner)
            && Others(Parsed(tails), users, owner) == []
  {
    if s != [] {
      var end := U64(start + count - 1);
      var c := CutItem(s[0], users, owner, start, end);
      RemoveSums(s[1..], users, owner, start, count, x);
      CutItemExact(s[0], users, owner, start, count, x);
      OwnedTimesConcat(InPlace(s[0], c), Kept(s[1..], users, owner, start, end), users, owner, x);
      OwnedTimesConcat(Appended(c), Tails(s[1..], users, owner, start, end), users, owner, x);
      OwnedTimesConcat([s[0]], s[1..], users, owner, x);
      assert s == [s[0]] + s[1..];
    }
  }

  /** Removal takes exactly `[start, start + count)` from the user's IDs, keeps
      the multiplicity of every other one, and leaves other users' entries alone. */
  lemma {:induction false} RemoveExact(s: seq<Item<Range>>, users: Users, owner: string, start: ulong, count: ulong,
                                       x: int)
    requires start + count <= ULONG_SPACE
    requires ListBounded(s) && !HasEmptyAtZero(s, users, owner)
    ensures OwnedTimes(AfterRemove(s, users, owner, start, count), users, owner, x)
         == if start <= x < start + count then 0 else OwnedTimes(s, users, owner, x)
    ensures Others(Parsed(AfterRemove(s, users, owner, start, count)), users, owner) == Others(Parsed(s), users, owner)
  {
    if count > 0 {
      var end := U64(start + count - 1);
      RemoveSums(s, users, owner, start, count, x);
      OwnedTimesConcat(Kept(s, users, owner, start, end), Tails(s, users, owner, start, end), users, owner, x);
    }
  }

  lemma {:induction false} PiecesOwned(it: Item<Range>, users: Users, owner: string, start: ulong, end: ulong, x: int)
    requires it.rec.Some? && SameUser(users, it.rec.value.owner, owner)
    ensures var c := CutItem(it, users, owner, start, end);
            OwnedTimes(InPlace(it, c), users, owner, x) + OwnedTimes(Appended(c), users, owner, x)
              == Times(Pieces(it.rec.value, c), x)
  {
    var c := CutItem(it, users, owner, start, end);
    PiecesTimes(it.rec.value, c, x);
    OwnedTimesOne(it, users, owner, x);
    if c.Shrink? || c.Split? {
      OwnedTimesOne(Item(it.line, Some(c.left), true), users, owner, x);
    }
    if c.Split? {
      OwnedTimesOne(Item(None, Some(c.tail), true), users, owner, x);
    }
  }

  /** The pieces of one of the user's entries are among those of the list. */
  lemma {:induction false} PiecesAmongAll(s: seq<Item<Range>>, i: nat, users: Users, owner: string, start: ulong,
                                          end: ulong, x: int)
    requires i < |s| && s[i].rec.Some? && SameUser(users, s[i].rec.value.owner, owner)
    ensures OwnedTimes(Kept(s, users, owner, start, end), users, owner, x)
        + OwnedTimes(Tails(s, users, owner, start, end), users, owner, x)
         >= Times(Pieces(s[i].rec.value, CutOf(s[i].rec.value, start, end)), x)
  {
    var c := CutItem(s[0], users, owner, start, end);
    OwnedTimesConcat(InPlace(s[0], c), Kept(s[1..], users, owner, start, end), users, owner, x);
    OwnedTimesConcat(Appended(c), Tails(s[1..], users, owner, start, end), users, owner, x);
    if i == 0 {
      PiecesOwned(s[0], users, owner, start, end, x);
    } else {
      PiecesAmongAll(s[1..], i - 1, users, owner, start, end, x);
    }
  }

  /** An entry keeps what lies outside the removed range; one empty at 0 gains an ID. */
  lemma {:induction false} CutItemGains(it: Item<Range>, users: Users, owner: string, start: ulong, count: ulong)
    requires 0 < count && start + count <= ULONG_SPACE
    requires it.rec.Some? ==> Bounded(it.rec.value)
    ensures var c, x := CutItem(it, users, owner, start, U64(start + count - 1)), Phantom(start, count);
            OwnedTimes(InPlace(it, c), users, owner, x) + OwnedTimes(Appended(c), users, owner, x)
              == OwnedTimes([it], users, owner, x) + if HasEmptyAtZero([it], users, owner) then 1 else 0
  {
    var x := Phantom(start, count);
    if it.rec.Some? && SameUser(users, it.rec.value.owner, owner) && EmptyAtZero(it.rec.value) {
      PiecesOwned(it, users, owner, start, U64(start + count - 1), x);
      CutPhantom(it.rec.value, start, count);
      OwnedTimesOne(it, users, owner, x);
      assert [it][0] == it;
    } else {
      CutItemExact(it, users, owner, start, count, x);
    }
  }

  lemma {:induction false} RemoveGains(s: seq<Item<Range>>, users: Users, owner: string, start: ulong, count: ulong)
    requires ListBounded(s) && 0 < count && start + count <= ULONG_SPACE
    ensures var end, x := U64(start + count - 1), Phantom(start, count);
            var sum := OwnedTimes(Kept(s, users, owner, start, end), users, owner, x)
              + OwnedTimes(Tails(s, users, owner, start, end), users, owner, x);
            sum >= OwnedTimes(s, users, owner, x) + if HasEmptyAtZero(s, users, owner) then 1 else 0
  {
    if s != [] {
      var end, x := U64(start + count - 1), Phantom(start, count);
      var c := CutItem(s[0], users, owner, start, end);
      RemoveGains(s[1..], users, owner, start, count);
      CutItemGains(s[0], users, owner, start, count);
      OwnedTimesConcat(InPlace(s[0], c), Kept(s[1..], users, owner, start, end), users, owner, x);
      OwnedTimesConcat(Appended(c), Tails(s[1..], users, owner, start, end), users, owner, x);
      OwnedTimesConcat([s[0]], s[1..], users, owner, x);
      assert s == [s[0]] + s[1..];
      EmptyAtZeroSplit(s, users, owner);
    }
  }

  lemma {:induction false} EmptyAtZeroSplit(s: seq<Item<Range>>, users: Users, owner: string)
    requires s != []
    ensures HasEmptyAtZero(s, users, owner) ==>
              HasEmptyAtZero([s[0]], users, owner) || HasEmptyAtZero(s[1..], users, owner)
  {
    if i :| 0 <= i < |s| && s[i].rec.Some? && SameUser(users, s[i].rec.value.owner, owner)
            && EmptyAtZero(s[i].rec.value) {
      assert if i == 0 then [s[0]][0] == s[i] else s[1..][i - 1] == s[i];
    }
  }

  /** On entries as the parser accepts them, a removal that does not wrap is exact for
      every ID exactly when no entry of that user is empty at 0. */
  lemma {:induction false} RemoveExactIff(s: seq<Item<Range>>, users: Users, owner: string, start: ulong, count: ulong)
    requires ListBounded(s) && 0 < count && start + count <= ULONG_SPACE
    ensures !HasEmptyAtZero(s, users, owner) <==>
              forall x :: OwnedTimes(AfterRemove(s, users, owner, start, count), users, owner, x)
                       == if start <= x < start + count then 0 else OwnedTimes(s, users, owner, x)
  {
    if HasEmptyAtZero(s, users, owner) {
      var end, x := U64(start + count - 1), Phantom(start, count);
      RemoveGains(s, users, owner, start, count);
      OwnedTimesConcat(Kept(s, users, owner, start, end), Tails(s, users, owner, start, end), users, owner, x);
      assert OwnedTimes(AfterRemove(s, users, owner, start, count), users, owner, x) > OwnedTimes(s, users, owner, x);
    } else {
      forall x {
        RemoveExact(s, users, owner, start, count, x);
      }
    }
  }

  /** An entry "u:0:0" from which ID 100 is removed ends up with the topmost ID. */
  lemma {:induction false} EmptyEntryGains()
    ensures var s, users := [Item(Some("u:0:0"), Some(Range("u", 0, 0)), false)], map["u" := 1000];
            && OwnedTimes(s, users, "u", ULONG_SPACE - 1) == 0
            && OwnedTimes(AfterRemove(s, users, "u", 100, 1), users, "u", ULONG_SPACE - 1) > 0
  {
    var s, users: Users := [Item(Some("u:0:0"), Some(Range("u", 0, 0)), false)], map["u" := 1000];
    var x, end := Phantom(100, 1), U64(100);
    assert s[0].rec.Some?;
    RemoveGains(s, users, "u", 100, 1);
    OwnedTimesOne(s[0], users, "u", x);
    OwnedTimesConcat(Kept(s, users, "u", 100, end), Tails(s, users, "u", 100, end), users, "u", x);
  }

  // ----- the invariant of a subordinate-ID list -----

  /** A range the parser accepts and that is not empty. */
  predicate Good(r: Range) {
    r.count > 0 && Parses(r)
  }

  ghost predicate ListGood(s: seq<Item<Range>>) {
    forall i :: 0 <= i < |s| && s[i].rec.Some? ==> Good(s[i].rec.value)
  }

  ghost predicate NoNisLine(s: seq<Item<Range>>) {
    forall i :: 0 <= i < |s| ==> !LineIsNis(s[i])
  }

  /** No ID is handed out twice. */
  ghost predicate PairwiseDisjoint(s: seq<Item<Range>>) {
    forall x :: Times(Parsed(s), x) <= 1
  }

  ghost predicate SubidInv(s: seq<Item<Range>>) {
    ListGood(s) && NoNisLine(s) && PairwiseDisjoint(s)
  }

  /** An entry a wrapped removal would hit. */
  predicate Hit(it: Item<Range>, users: Users, owner: string, start: ulong, end: ulong) {
    it.rec.Some? && SameUser(users, it.rec.value.owner, owner) && it.rec.value.start <= end &&
    start <= it.rec.value.Last()
  }

  lemma {:induction false} RemoveKeepsEntriesGood(s: seq<Item<Range>>, users: Users, owner: string, start: ulong,
                                                  end: ulong)
    requires ListGood(s) && NoNisLine(s)
    ensures ListGood(Kept(s, users, owner, start, end)) && NoNisLine(Kept(s, users, owner, start, end))
    ensures ListGood(Tails(s, users, owner, start, end)) && NoNisLine(Tails(s, users, owner, start, end))
  {
    if s != [] {
      RemoveKeepsEntriesGood(s[1..], users, owner, start, end);
      var c := CutItem(s[0], users, owner, start, end);
      assert ListGood(InPlace(s[0], c)) && NoNisLine(InPlace(s[0], c));
      assert ListGood(Appended(c)) && NoNisLine(Appended(c));
    }
  }

  lemma {:induction false} GoodHasNoEmpty(s: seq<Item<Range>>, users: Users, owner: string)
    requires ListGood(s)
    ensures ListBounded(s) && !HasEmptyAtZero(s, users, owner)
  {
  }

  /** Removing a range that does not wrap keeps the invariant. */
  lemma {:induction false} RemoveKeepsInv(s: seq<Item<Range>>, users: Users, owner: string, start: ulong, count: ulong)
    requires SubidInv(s) && start + count <= ULONG_SPACE
    ensures SubidInv(AfterRemove(s, users, owner, start, count))
  {
    if count > 0 {
      var end := U64(start + count - 1);
      var t := AfterRemove(s, users, owner, start, count);
      RemoveKeepsEntriesGood(s, users, owner, start, end);
      GoodHasNoEmpty(s, users, owner);
      forall x
        ensures Times(Parsed(t), x) <= 1
      {
        RemoveExact(s, users, owner, start, count, x);
        TimesOwnedOthers(Parsed(s), users, owner, x);
        TimesOwnedOthers(Parsed(t), users, owner, x);
      }
    }
  }

  lemma {:induction false} NothingHit(s: seq<Item<Range>>, users: Users, owner: string, start: ulong, end: ulong)
    requires forall i :: 0 <= i < |s| ==> !Hit(s[i], users, owner, start, end)
    ensures Kept(s, users, owner, start, end) == s && Tails(s, users, owner, start, end) == []
  {
    if s != [] {
      NothingHit(s[1..], users, owner, start, end);
      assert !Hit(s[0], users, owner, start, end);
      assert s == [s[0]] + s[1..];
    }
  }

  /** An entry hit by a removal that wraps is cut into two pieces that share an ID. */
  lemma {:induction false} WrappedCut(it: Item<Range>, users: Users, owner: string, start: ulong, count: ulong)
    requires it.rec.Some? && Good(it.rec.value) && start + count > ULONG_SPACE
    requires Hit(it, users, owner, start, U64(start + count - 1))
    ensures var end := U64(start + count - 1);
            Times(Pieces(it.rec.value, CutOf(it.rec.value, start, end)), end + 1) >= 2
  {
    var end := U64(start + count - 1);
    PiecesTimes(it.rec.value, CutOf(it.rec.value, start, end), end + 1);
  }

  lemma {:induction false} WrappedHitOverlaps(s: seq<Item<Range>>, users: Users, owner: string, start: ulong,
                                              count: ulong, i: nat)
    requires ListGood(s) && start + count > ULONG_SPACE
    requires i < |s| && Hit(s[i], users, owner, start, U64(start + count - 1))
    ensures Times(Parsed(AfterRemove(s, users, owner, start, count)), U64(start + count - 1) + 1) >= 2
  {
    var end := U64(start + count - 1);
    WrappedCut(s[i], users, owner, start, count);
    PiecesAmongAll(s, i, users, owner, start, end, end + 1);
    OwnedTimesConcat(Kept(s, users, owner, start, end), Tails(s, users, owner, start, end), users, owner, end + 1);
    TimesOwnedOthers(Parsed(AfterRemove(s, users, owner, start, count)), users, owner, end + 1);
  }

  /** A removal whose end wraps keeps the invariant exactly when it hits no entry. */
  lemma {:induction false} WrappedRemoveKeepsInvIff(s: seq<Item<Range>>, users: Users, owner: string, start: ulong,
                                                    count: ulong)
    requires SubidInv(s) && start + count > ULONG_SPACE
    ensures SubidInv(AfterRemove(s, users, owner, start, count)) <==>
              forall i :: 0 <= i < |s| ==> !Hit(s[i], users, owner, start, U64(start + count - 1))
  {
    var end := U64(start + count - 1);
    if i :| 0 <= i < |s| && Hit(s[i], users, owner, start, end) {
      WrappedHitOverlaps(s, users, owner, start, count, i);
    } else {
      NothingHit(s, users, owner, start, end);
      assert s + [] == s;
    }
  }

  /** Removing 2^64 - 1 IDs from 105 on leaves 100-104 and 104-109 of 100-109. */
  lemma {:induction false} WrappedRemoveOverlaps()
    ensures var s, users := [Item(Some("u:100:10"), Some(Range("u", 100, 10)), false)], map["u" := 1000];
            SubidInv(s) && !SubidInv(AfterRemove(s, users, "u", 105, ULONG_SPACE - 1))
  {
    var s, users: Users := [Item(Some("u:100:10"), Some(Range("u", 100, 10)), false)], map["u" := 1000];
    forall x
      ensures Times(Parsed(s), x) <= 1
    {
      assert Parsed(s) == [s[0].rec.value];
      TimesOne(s[0].rec.value, x);
    }
    WrappedRemoveKeepsInvIff(s, users, "u", 105, ULONG_SPACE - 1);
    assert Hit(s[0], users, "u", 105, U64(105 + (ULONG_SPACE - 1) - 1));
  }

  // ----- sorting the list -----

  lemma {:induction false} ParsedHas<T>(s: seq<Item<T>>, r: T)
    ensures r in Parsed(s) <==> exists i :: 0 <= i < |s| && s[i].rec == Some(r)
  {
    if s != [] {
      ParsedHas(s[1..], r);
      if i :| 0 <= i < |s| && s[i].rec == Some(r) {
        assert i > 0 ==> s[1..][i - 1].rec == Some(r);
      }
    }
  }

  lemma {:induction false} MultisetInsert<X>(a: seq<X>, r: seq<X>, b: seq<X>)
    ensures multiset(a + (r + b)) == multiset(r) + multiset(a + b)
  {
  }

  lemma {:induction false} WithoutOne<X>(t: seq<X>, k: nat)
    requires k < |t|
    ensures multiset(t) == multiset{t[k]} + multiset(Without(t, k))
  {
    var a, r, b := t[..k], [t[k]], t[k + 1..];
    assert t == a + (r + b) && Without(t, k) == a + b;
    MultisetInsert(a, r, b);
  }

  lemma {:induction false} PermutedTail<X>(s: seq<X>, t: seq<X>, k: nat)
    requires Permuted(s, t) && s != [] && k < |t| && t[k] == s[0]
    ensures Permuted(s[1..], Without(t, k))
  {
    WithoutOne(s, 0);
    WithoutOne(t, k);
    assert Without(s, 0) == s[1..];
    assert multiset(s[1..]) == multiset(s) - multiset{s[0]};
  }

  lemma {:induction false} ParsedWithout<T>(t: seq<Item<T>>, k: nat)
    requires k < |t|
    ensures multiset(Parsed(t)) == multiset(Parsed([t[k]])) + multiset(Parsed(Without(t, k)))
  {
    var a, r, b := t[..k], [t[k]], t[k + 1..];
    ParsedConcat(a, b);
    ParsedConcat(r, b);
    ParsedConcat(a, r + b);
    assert t == a + (r + b) && Without(t, k) == a + b;
    MultisetInsert(Parsed(a), Parsed(r), Parsed(b));
  }

  lemma {:induction false} ParsedPermuted<T>(s: seq<Item<T>>, t: seq<Item<T>>)
    requires Permuted(s, t)
    ensures multiset(Parsed(s)) == multiset(Parsed(t))
  {
    if s == [] {
      assert |multiset(t)| == 0;
    } else {
      assert s[0] in multiset(t);
      var k :| 0 <= k < |t| && t[k] == s[0];
      PermutedTail(s, t, k);
      ParsedPermuted(s[1..], Without(t, k));
      ParsedWithout(t, k);
      ParsedWithout(s, 0);
      assert Without(s, 0) == s[1..];
    }
  }

  lemma {:induction false} ParsedSorted(s: seq<Item<Range>>)
    requires Sorted(RangeLeq, s)
    ensures StartsSorted(Parsed(s))
  {
    if s != [] {
      ParsedSorted(s[1..]);
      if s[0].rec.Some? {
        forall j | 0 <= j < |Parsed(s[1..])|
          ensures s[0].rec.value.start <= Parsed(s[1..])[j].start
        {
          var r := Parsed(s[1..])[j];
          ParsedHas(s[1..], r);
          var i :| 0 <= i < |s[1..]| && s[1..][i].rec == Some(r);
          assert s[i + 1].rec == Some(r);
        }
      }
    }
  }

  lemma {:induction false} NoNisAllSorted(s: seq<Item<Range>>, mid: seq<Item<Range>>)
    requires NoNisLine(s) && SortsPrefix(RangeLeq, s, mid)
    ensures SortedPermutation(RangeLeq, s, mid)
  {
    assert FirstNisLine(s, 0) == |s|;
    assert s[..|s|] == s && mid[..|mid|] == mid;
  }

  /** Sorting keeps every entry; without NIS lines it makes the list fit to sweep. */
  lemma {:induction false} SortKeepsInv(s: seq<Item<Range>>, mid: seq<Item<Range>>)
    requires SubidInv(s) && SortsPrefix(RangeLeq, s, mid)
    ensures SubidInv(mid) && SweepSafe(Parsed(mid)) && multiset(Parsed(mid)) == multiset(Parsed(s))
  {
    NoNisAllSorted(s, mid);
    ParsedPermuted(s, mid);
    ParsedSorted(mid);
    SortedIsSafe(Parsed(mid));
    forall i | 0 <= i < |mid|
      ensures mid[i] in s
    {
      assert mid[i] in multiset(mid);
    }
    forall x
      ensures Times(Parsed(mid), x) <= 1
    {
      TimesPermuted(Parsed(s), Parsed(mid), x);
    }
  }

  lemma {:induction false} GoodParsedBounded(s: seq<Item<Range>>)
    requires ListGood(s)
    ensures AllBounded(Parsed(s))
  {
    forall i | 0 <= i < |Parsed(s)|
      ensures Bounded(Parsed(s)[i])
    {
      ParsedHas(s, Parsed(s)[i]);
    }
  }

  /** Whatever ranges the list holds, overlapping ones included: once it is sorted, the
      search delivers the least start at which `count` IDs are free, or none is. */
  lemma {:induction false} SortedSearchIsLeast(s: seq<Item<Range>>, mid: seq<Item<Range>>, min: id_t, max: id_t,
                                               count: ulong)
    requires ListBounded(s) && NoNisLine(s) && SortsPrefix(RangeLeq, s, mid) && 0 < count < ULONG_SPACE / 2
    ensures match FreeStart(Parsed(mid), min, max, count)
            case Some(a) =>
              Fits(Parsed(s), a, count, min, max) && forall x :: Fits(Parsed(s), x, count, min, max) ==> a <= x
            case None => forall x :: !Fits(Parsed(s), x, count, min, max)
  {
    NoNisAllSorted(s, mid);
    ParsedPermuted(s, mid);
    ParsedSorted(mid);
    SortedIsSafe(Parsed(mid));
    SortedBounded(s, mid);
    FreeStartLeast(Parsed(mid), min, max, count);
    forall x
      ensures Fits(Parsed(s), x, count, min, max) <==> Fits(Parsed(mid), x, count, min, max)
    {
      FitsPermuted(Parsed(s), Parsed(mid), x, count, min, max);
    }
  }

  lemma {:induction false} SortedBounded(s: seq<Item<Range>>, t: seq<Item<Range>>)
    requires ListBounded(s) && SortsPrefix(RangeLeq, s, t)
    ensures AllBounded(Parsed(t))
  {
    var n := FirstNisLine(s, 0);
    forall i | 0 <= i < |t|
      ensures t[i] in s
    {
      if i < n {
        assert t[..n][i] in multiset(s[..n]);
      } else {
        assert t[n..][i - n] == s[n..][i - n];
      }
    }
    forall i | 0 <= i < |Parsed(t)|
      ensures Bounded(Parsed(t)[i])
    {
      ParsedHas(t, Parsed(t)[i]);
    }
  }

  // ----- granting a range -----

  /** Whether the code lets `owner` use a range recorded for `name`: the same
      string, or in the system files the same user. */
  predicate Authorized(users: Users, system: bool, name: string, owner: string) {
    name == owner || (system && SameUser(users, name, owner))
  }

  ghost predicate HoldsId(rs: seq<Range>, users: Users, system: bool, owner: string, x: int) {
    exists i :: 0 <= i < |rs| && Authorized(users, system, rs[i].owner, owner) && rs[i].Has(x)
  }

  /** Every ID of the range is held. */
  ghost predicate HoldsAll(rs: seq<Range>, users: Users, system: bool, owner: string, start: int, count: int) {
    count > 0 && forall x :: start <= x < start + count ==> HoldsId(rs, users, system, owner, x)
  }

  /** The answer of `have_range`, which looks only at the first ID of a range
      that wraps past the last `unsigned long`. */
  ghost predicate Have(rs: seq<Range>, users: Users, system: bool, owner: string, start: int, count: int) {
    if start + count <= ULONG_SPACE then HoldsAll(rs, users, system, owner, start, count)
    else HoldsId(rs, users, system, owner, start)
  }

  function NewEntry(owner: string, start: ulong, count: ulong): Item<Range> {
    Item(None, Some(Range(owner, start, count)), true)
  }

  /** The body of `new_subid_range` without reuse, from the list `s` to the list
      `t`: sorted to `mid` unless the request is refused outright, then the
      range appended at the start found. */
  ghost predicate Granted(s: seq<Item<Range>>, mid: seq<Item<Range>>, t: seq<Item<Range>>, users: Users, system: bool,
                          owner: string, min: id_t, count: ulong, got: Option<int>) {
    && (mid == s || SortsPrefix(RangeLeq, s, mid))
    && (Signed(count) == 0 || Signed(count) > NO_ID - min + 1 || SortsPrefix(RangeLeq, s, mid))
    && var f := FreeStart(Parsed(mid), min, NO_ID, count);
       if f.Some? && f.value != NO_ID && 0 <= f.value < ID_SPACE then
         && got == f
         && t == if Have(Parsed(mid), users, system, owner, f.value, count) then mid
                 else mid + [NewEntry(owner, f.value, count)]
       else got == None && t == mid
  }

  lemma {:induction false} GrantedStart(rs: seq<Range>, min: id_t, count: ulong)
    requires AllBounded(rs) && FreeStart(rs, min, NO_ID, count).Some?
    ensures min <= FreeStart(rs, min, NO_ID, count).value < ID_SPACE
  {
    SweepLow(rs, min, NO_ID, Signed(count));
    SweepHigh(rs, min, NO_ID, Signed(count));
  }

  lemma {:induction false} SweepHigh(rs: seq<Range>, low: int, max: int, n: int)
    requires AllBounded(rs) && 0 <= low <= max && Sweep(rs, low, max, n).Some?
    ensures Sweep(rs, low, max, n).value <= max
  {
    if rs != [] {
      assert Bounded(rs[0]);
      if rs[0].count == 0 {
        SweepHigh(rs[1..], low, max, n);
      } else if !RoomBefore(rs[0], low, max, n) {
        SweepHigh(rs[1..], Above(rs[0], low), max, n);
      }
    }
  }

  /** A grant that fits `intmax_t`: the start is the least one from which `count`
      IDs are free, and the new range is appended for the owner. */
  lemma {:induction false} GrantIsLeast(s: seq<Item<Range>>, mid: seq<Item<Range>>, t: seq<Item<Range>>, users: Users,
                                        system: bool, owner: string, min: id_t, count: ulong, got: Option<int>)
    requires SubidInv(s) && Granted(s, mid, t, users, system, owner, min, count, got) && 0 < count < ULONG_SPACE / 2
    ensures got.Some? ==>
              && Fits(Parsed(s), got.value, count, min, NO_ID)
              && (forall a :: Fits(Parsed(s), a, count, min, NO_ID) ==> got.value <= a)
              && t == mid + [NewEntry(owner, got.value, count)]
    ensures got.None? ==> t == mid && forall a :: Fits(Parsed(s), a, count, min, NO_ID) ==> a == NO_ID
  {
    if mid != s || count <= NO_ID - min + 1 {
      SortKeepsInv(s, mid);
      GoodParsedBounded(mid);
      FreeStartLeast(Parsed(mid), min, NO_ID, count);
      forall a
        ensures Fits(Parsed(s), a, count, min, NO_ID) <==> Fits(Parsed(mid), a, count, min, NO_ID)
      {
        FitsPermuted(Parsed(s), Parsed(mid), a, count, min, NO_ID);
      }
      if got.Some? {
        assert Free(Parsed(mid), got.value);
        FreeIsNotHeld(Parsed(mid), users, system, owner, got.value, count);
      }
    }
  }

  lemma {:induction false} FitsPermuted(rs: seq<Range>, ts: seq<Range>, a: int, n: int, min: int, max: int)
    requires multiset(rs) == multiset(ts)
    ensures Fits(rs, a, n, min, max) <==> Fits(ts, a, n, min, max)
  {
    forall x
      ensures Free(rs, x) <==> Free(ts, x)
    {
      TimesPermuted(rs, ts, x);
      TimesFree(rs, x);
      TimesFree(ts, x);
    }
  }

  lemma {:induction false} MidKeepsInv(s: seq<Item<Range>>, mid: seq<Item<Range>>)
    requires SubidInv(s) && (mid == s || SortsPrefix(RangeLeq, s, mid))
    ensures SubidInv(mid) && AllBounded(Parsed(mid))
  {
    if mid != s {
      SortKeepsInv(s, mid);
    }
    GoodParsedBounded(mid);
  }

  /** Any successful grant, even for a count beyond `intmax_t`, appends its entry. */
  lemma {:induction false} GrantAppends(s: seq<Item<Range>>, mid: seq<Item<Range>>, t: seq<Item<Range>>, users: Users,
                                        system: bool, owner: string, min: id_t, count: ulong, got: Option<int>)
    requires SubidInv(s) && Granted(s, mid, t, users, system, owner, min, count, got) && got.Some?
    ensures min <= got.value < ID_SPACE && count > 0
    ensures t == mid + [NewEntry(owner, got.value, count)]
  {
    MidKeepsInv(s, mid);
    SortKeepsInv(s, mid);
    GrantedStart(Parsed(mid), min, count);
    FreeStartIsFree(Parsed(mid), min, NO_ID, count);
    FreeIsNotHeld(Parsed(mid), users, system, owner, got.value, count);
  }

  /** The list after a grant satisfies the invariant exactly when nothing was
      granted or the parser can read the new count back: 2^32 cannot be. */
  lemma {:induction false} GrantKeepsInvIff(s: seq<Item<Range>>, mid: seq<Item<Range>>, t: seq<Item<Range>>,
                                            users: Users, system: bool, owner: string, min: id_t, count: ulong,
                                            got: Option<int>)
    requires SubidInv(s) && Granted(s, mid, t, users, system, owner, min, count, got)
    ensures SubidInv(t) <==> got.None? || count < ID_SPACE
  {
    MidKeepsInv(s, mid);
    if got.Some? {
      GrantAppends(s, mid, t, users, system, owner, min, count, got);
      assert t[|mid|] == NewEntry(owner, got.value, count);
      if count < ID_SPACE {
        GrantIsLeast(s, mid, t, users, system, owner, min, count, got);
        FitsPermutedOrSame(s, mid, got.value, count, min);
        AppendKeepsDisjoint(mid, owner, got.value, count);
      }
    }
  }

  lemma {:induction false} AppendKeepsDisjoint(mid: seq<Item<Range>>, owner: string, a: ulong, count: ulong)
    requires PairwiseDisjoint(mid) && forall x :: a <= x < a + count ==> Free(Parsed(mid), x)
    ensures PairwiseDisjoint(mid + [NewEntry(owner, a, count)])
  {
    var e := NewEntry(owner, a, count);
    ParsedConcat(mid, [e]);
    assert Parsed([e]) == [e.rec.value];
    forall x
      ensures Times(Parsed(mid + [e]), x) <= 1
    {
      TimesConcat(Parsed(mid), [e.rec.value], x);
      TimesOne(e.rec.value, x);
      TimesFree(Parsed(mid), x);
    }
  }

  /** A start that is free is not held, so the grant is appended. */
  lemma {:induction false} FreeIsNotHeld(rs: seq<Range>, users: Users, system: bool, owner: string, a: int,
                                         count: ulong)
    requires Free(rs, a)
    ensures count > 0 ==> !Have(rs, users, system, owner, a, count)
  {
    assert !HoldsId(rs, users, system, owner, a);
  }

  lemma {:induction false} FitsPermutedOrSame(s: seq<Item<Range>>, mid: seq<Item<Range>>, a: int, n: int, min: int)
    requires SubidInv(s) && (mid == s || SortsPrefix(RangeLeq, s, mid)) && Fits(Parsed(s), a, n, min, NO_ID)
    ensures Fits(Parsed(mid), a, n, min, NO_ID)
  {
    if mid != s {
      SortKeepsInv(s, mid);
      FitsPermuted(Parsed(s), Parsed(mid), a, n, min, NO_ID);
    }
  }

  // ----- a grant followed by the release of what was granted -----

  lemma {:induction false} OwnedPermuted(rs: seq<Range>, ts: seq<Range>, users: Users, owner: string)
    requires multiset(rs) == multiset(ts)
    ensures multiset(Owned(rs, users, owner)) == multiset(Owned(ts, users, owner))
    ensures multiset(Others(rs, users, owner)) == multiset(Others(ts, users, owner))
  {
    if rs == [] {
      assert |multiset(ts)| == 0;
    } else {
      assert rs[0] in multiset(ts);
      var k :| 0 <= k < |ts| && ts[k] == rs[0];
      PermutedTail(rs, ts, k);
      OwnedPermuted(rs[1..], Without(ts, k), users, owner);
      OwnedWithout(ts, k, users, owner);
      OwnedWithout(rs, 0, users, owner);
      assert Without(rs, 0) == rs[1..];
    }
  }

  lemma {:induction false} OwnedWithout(ts: seq<Range>, k: nat, users: Users, owner: string)
    requires k < |ts|
    ensures multiset(Owned(ts, users, owner))
              == multiset(Owned([ts[k]], users, owner)) + multiset(Owned(Without(ts, k), users, owner))
    ensures multiset(Others(ts, users, owner))
              == multiset(Others([ts[k]], users, owner)) + multiset(Others(Without(ts, k), users, owner))
  {
    var a, r, b := ts[..k], [ts[k]], ts[k + 1..];
    SplitConcat(a, b, users, owner);
    SplitConcat(r, b, users, owner);
    SplitConcat(a, r + b, users, owner);
    assert ts == a + (r + b) && Without(ts, k) == a + b;
    MultisetInsert(Owned(a, users, owner), Owned(r, users, owner), Owned(b, users, owner));
    MultisetInsert(Others(a, users, owner), Others(r, users, owner), Others(b, users, owner));
  }

  /** For an owner that resolves to a user, release undoes the grant: the user
      holds exactly the former IDs, and the other users' entries are the same. */
  lemma {:induction false} GrantThenRelease(s: seq<Item<Range>>, mid: seq<Item<Range>>, t: seq<Item<Range>>,
                                            users: Users, system: bool, owner: string, min: id_t, count: ulong, a: id_t,
                                            x: int)
    requires SubidInv(s) && 0 < count < ID_SPACE && owner in users
    requires Granted(s, mid, t, users, system, owner, min, count, Some(a))
    ensures OwnedTimes(AfterRemove(t, users, owner, a, count), users, owner, x) == OwnedTimes(s, users, owner, x)
    ensures multiset(Others(Parsed(AfterRemove(t, users, owner, a, count)), users, owner))
         == multiset(Others(Parsed(s), users, owner))
  {
    GrantKeepsInvIff(s, mid, t, users, system, owner, min, count, Some(a));
    GrantIsLeast(s, mid, t, users, system, owner, min, count, Some(a));
    SortKeepsInv(s, mid);
    var e := NewEntry(owner, a, count);
    GoodHasNoEmpty(t, users, owner);
    RemoveExact(t, users, owner, a, count, x);
    OwnedTimesConcat(mid, [e], users, owner, x);
    OwnedTimesOne(e, users, owner, x);
    OwnedPermuted(Parsed(mid), Parsed(s), users, owner);
    TimesPermuted(Owned(Parsed(mid), users, owner), Owned(Parsed(s), users, owner), x);
    if a <= x < a + count {
      assert Free(Parsed(s), x);
      TimesFree(Parsed(s), x);
      TimesOwnedOthers(Parsed(s), users, owner, x);
    }
  }

  /** For any other owner release does nothing, so what was granted stays. */
  lemma {:induction false} ReleaseUnknownOwner(t: seq<Item<Range>>, users: Users, owner: string, start: ulong,
                                               count: ulong)
    requires owner !in users
    ensures AfterRemove(t, users, owner, start, count) == t
  {
    if count > 0 {
      var end := U64(start + count - 1);
      NothingHit(t, users, owner, start, end);
      assert t + [] == t;
    }
  }

  // ----- the same told in UIDs -----

  /** The name resolves to that UID. */
  predicate IsOf(users: Users, name: string, uid: nat) {
    name in users && users[name] == uid
  }

  /** How many of the ranges belong to the UID, under whatever name, and hold `x`. */
  function UidTimes(rs: seq<Range>, users: Users, uid: nat, x: int): nat {
    |set i | 0 <= i < |rs| && IsOf(users, rs[i].owner, uid) && rs[i].start <= x < rs[i].start + rs[i].count|
  }

  lemma {:induction false} UidTimesSnoc(rs: seq<Range>, r: Range, users: Users, uid: nat, x: int)
    ensures UidTimes(rs + [r], users, uid, x)
         == UidTimes(rs, users, uid, x) + if IsOf(users, r.owner, uid) && r.start <= x < r.start + r.count then 1 else 0
  {
    var ts := rs + [r];
    var a := set i | 0 <= i < |rs| && IsOf(users, rs[i].owner, uid) && rs[i].start <= x < rs[i].start + rs[i].count;
    var b := set i | 0 <= i < |ts| && IsOf(users, ts[i].owner, uid) && ts[i].start <= x < ts[i].start + ts[i].count;
    assert b == if IsOf(users, r.owner, uid) && r.start <= x < r.start + r.count then a + {|rs|} else a;
  }

  /** What one owner's ranges hold is what the ranges of his UID hold. */
  lemma {:induction false} OwnedIsUid(rs: seq<Range>, users: Users, owner: string, x: int)
    requires owner in users
    ensures Times(Owned(rs, users, owner), x) == UidTimes(rs, users, users[owner], x)
    decreases |rs|
  {
    if rs != [] {
      var init, r := rs[..|rs| - 1], rs[|rs| - 1];
      assert rs == init + [r];
      OwnedIsUid(init, users, owner, x);
      SplitConcat(init, [r], users, owner);
      TimesConcat(Owned(init, users, owner), Owned([r], users, owner), x);
      UidTimesSnoc(init, r, users, users[owner], x);
      OwnedOne(r, users, owner);
      TimesOne(r, x);
    }
  }

  lemma {:induction false} OwnedOne(r: Range, users: Users, owner: string)
    ensures Owned([r], users, owner) == if SameUser(users, r.owner, owner) then [r] else []
    ensures Others([r], users, owner) == if SameUser(users, r.owner, owner) then [] else [r]
  {
    assert [r][1..] == [];
  }

  /** The other ranges hold all that is of another UID. */
  lemma {:induction false} OthersKeepUid(rs: seq<Range>, users: Users, owner: string, uid: nat, x: int)
    requires !IsOf(users, owner, uid)
    ensures UidTimes(Others(rs, users, owner), users, uid, x) == UidTimes(rs, users, uid, x)
    decreases |rs|
  {
    if rs != [] {
      var init, r := rs[..|rs| - 1], rs[|rs| - 1];
      assert rs == init + [r];
      OthersKeepUid(init, users, owner, uid, x);
      SplitConcat(init, [r], users, owner);
      OwnedOne(r, users, owner);
      UidTimesSnoc(init, r, users, uid, x);
      UidTimesSnoc(Others(init, users, owner), r, users, uid, x);
      assert Others(init, users, owner) + [] == Others(init, users, owner);
    }
  }

  /** An entry that does not belong to the owner's UID, or has no record. */
  predicate IsForeign(it: Item<Range>, users: Users, owner: string) {
    it.rec.None? || owner !in users || !IsOf(users, it.rec.value.owner, users[owner])
  }

  lemma {:induction false} CountConcat<X>(a: seq<X>, b: seq<X>, x: X)
    ensures multiset(a + b)[x] == multiset(a)[x] + multiset(b)[x]
  {
  }

  lemma {:induction false} ForeignPieces(at: Item<Range>, users: Users, owner: string, start: ulong, end: ulong,
                                         it: Item<Range>)
    requires IsForeign(it, users, owner)
    ensures var c := CutItem(at, users, owner, start, end);
            multiset(InPlace(at, c))[it] == multiset([at])[it] && multiset(Appended(c))[it] == 0
  {
  }

  lemma {:induction false} ForeignStays(s: seq<Item<Range>>, users: Users, owner: string, start: ulong, end: ulong,
                                        it: Item<Range>)
    requires IsForeign(it, users, owner)
    ensures multiset(Kept(s, users, owner, start, end))[it] == multiset(s)[it]
    ensures multiset(Tails(s, users, owner, start, end))[it] == 0
  {
    if s != [] {
      var c := CutItem(s[0], users, owner, start, end);
      ForeignStays(s[1..], users, owner, start, end, it);
      ForeignPieces(s[0], users, owner, start, end, it);
      CountConcat(InPlace(s[0], c), Kept(s[1..], users, owner, start, end), it);
      CountConcat(Appended(c), Tails(s[1..], users, owner, start, end), it);
      CountConcat([s[0]], s[1..], it);
      assert s == [s[0]] + s[1..];
    }
  }

  /**
   Removal told in UIDs, whatever names the ranges are recorded under: the UID of the
   owner loses exactly `[start, start + count)`, with multiplicity, every other UID
   loses and gains nothing, and every entry of another UID, of no user, or without a
   record is on the list as often as before.
   */
  lemma {:induction false} RemoveByUid(s: seq<Item<Range>>, users: Users, owner: string, start: ulong, count: ulong,
                                       uid: nat, x: int)
    requires start + count <= ULONG_SPACE && ListBounded(s)
    requires forall i :: 0 <= i < |s| && s[i].rec.Some? && owner in users
                         && IsOf(users, s[i].rec.value.owner, users[owner]) ==>
               !(s[i].rec.value.start == 0 && s[i].rec.value.count == 0)
    ensures UidTimes(Parsed(AfterRemove(s, users, owner, start, count)), users, uid, x)
         == if IsOf(users, owner, uid) && start <= x < start + count then 0 else UidTimes(Parsed(s), users, uid, x)
    ensures forall it :: IsForeign(it, users, owner) ==>
              multiset(AfterRemove(s, users, owner, start, count))[it] == multiset(s)[it]
  {
    var t := AfterRemove(s, users, owner, start, count);
    assert !HasEmptyAtZero(s, users, owner);
    RemoveExact(s, users, owner, start, count, x);
    if IsOf(users, owner, uid) {
      OwnedIsUid(Parsed(s), users, owner, x);
      OwnedIsUid(Parsed(t), users, owner, x);
    } else {
      OthersKeepUid(Parsed(s), users, owner, uid, x);
      OthersKeepUid(Parsed(t), users, owner, uid, x);
    }
    forall it | IsForeign(it, users, owner)
      ensures multiset(t)[it] == multiset(s)[it]
    {
      if count > 0 {
        ForeignStays(s, users, owner, start, U64(start + count - 1), it);
      }
    }
  }

  /** A range that the owner may use: recorded for the same string, or in the system
      files for any name of the same UID. */
  ghost predicate MayUse(r: Range, users: Users, system: bool, owner: string) {
    r.owner == owner || (system && exists uid :: IsOf(users, r.owner, uid) && IsOf(users, owner, uid))
  }

  /** Some range that the owner may use holds `x`. */
  ghost predicate Covers(rs: seq<Range>, users: Users, system: bool, owner: string, x: int) {
    exists r :: r in rs && MayUse(r, users, system, owner) && r.start <= x < r.start + r.count
  }

  lemma {:induction false} CoversIsHeld(rs: seq<Range>, users: Users, system: bool, owner: string, x: int)
    ensures Covers(rs, users, system, owner, x) <==> HoldsId(rs, users, system, owner, x)
  {
    forall r: Range
      ensures MayUse(r, users, system, owner) <==> Authorized(users, system, r.owner, owner)
    {
      if system && SameUser(users, r.owner, owner) {
        assert IsOf(users, r.owner, users[owner]) && IsOf(users, owner, users[owner]);
      }
    }
    if r :| r in rs && MayUse(r, users, system, owner) && r.start <= x < r.start + r.count {
      var i :| 0 <= i < |rs| && rs[i] == r;
    }
    if i :| 0 <= i < |rs| && Authorized(users, system, rs[i].owner, owner) && rs[i].Has(x) {
      assert rs[i] in rs;
    }
  }

  /** The coverage test told in UIDs: each ID of the range lies in a range that the owner
      may use; of a range that wraps past the last `unsigned long`, the first one. */
  lemma {:induction false} HaveByUid(rs: seq<Range>, users: Users, system: bool, owner: string, start: ulong,
                                     count: ulong)
    ensures start + count <= ULONG_SPACE ==>
              (Have(rs, users, system, owner, start, count) <==>
                 count > 0 && forall x :: start <= x < start + count ==> Covers(rs, users, system, owner, x))
    ensures start + count > ULONG_SPACE ==>
              (Have(rs, users, system, owner, start, count) <==> Covers(rs, users, system, owner, start))
  {
    forall x
      ensures Covers(rs, users, system, owner, x) <==> HoldsId(rs, users, system, owner, x)
    {
      CoversIsHeld(rs, users, system, owner, x);
    }
  }
}
