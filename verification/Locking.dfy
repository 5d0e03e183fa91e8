/**
 The lock and open flags of lib/commonio.c: `commonio_lock`, `commonio_open`,
 `commonio_close`, `commonio_unlock` and the process-wide lock count, over any
 number of databases and any run of calls.
 */
module Locking {
  import opened Wrappers

  datatype Flags = Flags(locked: bool, isOpen: bool, readOnly: bool, changed: bool)

  /** `libcLocked` says whether the process holds the lock of `lckpwdf`; `commits`
      counts the commits that no cache flush has followed yet. */
  datatype State = State(dbs: seq<Flags>, lockCount: int, libcLocked: bool, needReload: bool, commits: nat)

  /** What the file gave `commonio_open`: an error, no such file, a file that was
      read, or one whose reading failed. */
  datatype Found = Refused | Missing | Read | Broken

  /** A call on the database `db`, with what the system answers. For a lock, `libc` is
      the answer of `lckpwdf`, `None` where it is not used: without it in the libc, or
      on a database with a name of its own. */
  datatype Event =
    | Lock(db: nat, root: bool, granted: seq<bool>, libc: Option<bool>)
    | Open(db: nat, write: bool, create: bool, found: Found)
    | Edit(db: nat)
    | Close(db: nat, committed: bool)
    | Unlock(db: nat)

  const LOCK_TRIES := 15

  predicate Applies(s: State, e: Event) {
    e.db < |s.dbs| && (e.Lock? ==> |e.granted| == LOCK_TRIES)
  }

  // ----- what each call does -----

  /** Whether the retries end with the lock: only root tries more than once. */
  predicate Obtained(root: bool, granted: seq<bool>, from: nat)
    decreases |granted| - from
  {
    from < |granted| && (granted[from] || (root && Obtained(root, granted, from + 1)))
  }

  function With(s: State, i: nat, f: Flags): State
    requires i < |s.dbs|
  {
    s.(dbs := s.dbs[i := f])
  }

  /** `dec_lock_count`: the last unlock flushes a pending reload and gives up the lock
      of `lckpwdf`. */
  function Released(s: State): State {
    if s.lockCount <= 0 then s
    else if s.lockCount > 1 then s.(lockCount := s.lockCount - 1)
    else s.(lockCount := 0, libcLocked := false, needReload := false, commits := if s.needReload then 0 else s.commits)
  }

  /** `commonio_lock_nowait`. */
  function Nowait(s: State, i: nat, granted: bool): (State, bool)
    requires i < |s.dbs|
  {
    if s.dbs[i].locked then (s, true)
    else if granted then (With(s, i, s.dbs[i].(locked := true)).(lockCount := s.lockCount + 1), true)
    else (s, false)
  }

  /** The part of `commonio_lock` that uses `lckpwdf`: a single try under its lock,
      which a failed try gives up. */
  function LockWithLibc(s: State, i: nat, granted: bool, libc: bool): (State, bool)
    requires i < |s.dbs|
  {
    if s.lockCount == 0 && !libc then (s, false)
    else
      var (t, ok) := Nowait(s.(libcLocked := s.libcLocked || s.lockCount == 0), i, granted);
      (if ok then t else t.(libcLocked := false), ok)
  }

  predicate Writes(f: Flags) {
    f.isOpen && f.changed && !f.readOnly
  }

  /** The state after the call and the value it returns. */
  function Step(s: State, e: Event): (State, bool)
    requires Applies(s, e)
  {
    var f := s.dbs[e.db];
    match e
    case Lock(i, root, granted, libc) =>
      if libc.Some? then LockWithLibc(s, i, granted[0], libc.value)
      else Nowait(s, i, Obtained(root, granted, 0))
    case Open(i, write, create, found) =>
      if f.isOpen then (s, false)
      else if write && !f.locked then (With(s, i, f.(readOnly := !write)), false)
      else
        var ok := found.Read? || (found.Missing? && create);
        (With(s, i, f.(readOnly := !write, changed := false, isOpen := ok)), ok)
    case Edit(i) =>
      (With(s, i, f.(changed := true)), true)
    case Close(i, committed) =>
      if !f.isOpen then (s, false)
      else
        var t := With(s, i, f.(isOpen := false));
        if !Writes(f) then (t, true)
        else if committed then (t.(needReload := true, commits := s.commits + 1), true)
        else (t, false)
    case Unlock(i) =>
      var t := if f.isOpen then With(s, i, f.(isOpen := false, readOnly := true)) else s;
      if f.locked then (Released(With(t, i, t.dbs[i].(locked := false))), true) else (t, false)
  }

  // ----- the calls themselves -----

  class Process {
    var dbs: seq<Flags>
    var lockCount: int
    var libcLocked: bool
    var needReload: bool
    ghost var commits: nat

    constructor (n: nat)
      ensures View() == Initial(n)
    {
      dbs := seq(n, _ => Flags(false, false, false, false));
      lockCount, libcLocked, needReload, commits := 0, false, false, 0;
    }

    ghost function View(): State
      reads this
    {
      State(dbs, lockCount, libcLocked, needReload, commits)
    }

    method LockNowait(i: nat, granted: bool) returns (ok: bool)
      requires i < |dbs|
      modifies this
      ensures (View(), ok) == Nowait(old(View()), i, granted)
    {
      if dbs[i].locked {
        return true;
      }
      if granted {
        dbs := dbs[i := dbs[i].(locked := true)];
        lockCount := lockCount + 1;
      }
      return granted;
    }

    /** `commonio_lock`: with `lckpwdf` one try, else root retries and another user
        does not. */
    method LockDb(i: nat, root: bool, granted: seq<bool>, libc: Option<bool>) returns (ok: bool)
      requires Applies(View(), Lock(i, root, granted, libc))
      modifies this
      ensures (View(), ok) == Step(old(View()), Lock(i, root, granted, libc))
    {
      if libc.Some? {
        ok := LockUnderLibc(i, granted[0], libc.value);
      } else {
        ok := LockWithRetries(i, root, granted);
      }
    }

    method LockUnderLibc(i: nat, granted: bool, libc: bool) returns (ok: bool)
      requires i < |dbs|
      modifies this
      ensures (View(), ok) == LockWithLibc(old(View()), i, granted, libc)
    {
      if lockCount == 0 {
        if !libc {
          return false;
        }
        libcLocked := true;
      }
      ok := LockNowait(i, granted);
      if !ok {
        libcLocked := false;
      }
    }

    method LockWithRetries(i: nat, root: bool, granted: seq<bool>) returns (ok: bool)
      requires i < |dbs| && |granted| == LOCK_TRIES
      modifies this
      ensures (View(), ok) == Nowait(old(View()), i, Obtained(root, granted, 0))
    {
      var k := 0;
      while k < LOCK_TRIES
        invariant 0 <= k <= LOCK_TRIES && View() == old(View())
        invariant k > 0 ==> !dbs[i].locked && root
        invariant Obtained(root, granted, 0) == Obtained(root, granted, k)
      {
        ok := LockNowait(i, granted[k]);
        if ok {
          return;
        }
        if !root {
          return false;
        }
        k := k + 1;
      }
      return false;
    }

    method OpenDb(i: nat, write: bool, create: bool, found: Found) returns (ok: bool)
      requires i < |dbs|
      modifies this
      ensures (View(), ok) == Step(old(View()), Open(i, write, create, found))
    {
      if dbs[i].isOpen {
        return false;
      }
      dbs := dbs[i := dbs[i].(readOnly := !write)];
      if !dbs[i].readOnly && !dbs[i].locked {
        return false;
      }
      dbs := dbs[i := dbs[i].(changed := false)];
      assert dbs == old(dbs)[i := dbs[i]];
      if !found.Read? && !(create && found.Missing?) {
        return false;
      }
      dbs := dbs[i := dbs[i].(isOpen := true)];
      assert dbs == old(dbs)[i := dbs[i]];
      return true;
    }

    method CloseDb(i: nat, committed: bool) returns (ok: bool)
      requires i < |dbs|
      modifies this
      ensures (View(), ok) == Step(old(View()), Close(i, committed))
    {
      if !dbs[i].isOpen {
        return false;
      }
      dbs := dbs[i := dbs[i].(isOpen := false)];
      if !dbs[i].changed || dbs[i].readOnly {
        return true;
      }
      if committed {
        needReload := true;
        commits := commits + 1;
      }
      return committed;
    }

    method DecLockCount()
      modifies this
      ensures View() == Released(old(View()))
    {
      if lockCount > 0 {
        lockCount := lockCount - 1;
        if lockCount == 0 {
          if needReload {
            needReload := false;
            commits := 0;
          }
          libcLocked := false;
        }
      }
    }

    /** `commonio_unlock`: it closes read-only first, which cannot fail, whatever
        committing would have done. */
    method UnlockDb(i: nat, committed: bool) returns (ok: bool)
      requires i < |dbs|
      modifies this
      ensures (View(), ok) == Step(old(View()), Unlock(i))
    {
      if dbs[i].isOpen {
        dbs := dbs[i := dbs[i].(readOnly := true)];
        var closed := CloseDb(i, committed);
        if !closed {
          assert false;
        }
      }
      if dbs[i].locked {
        dbs := dbs[i := dbs[i].(locked := false)];
        assert dbs == old(dbs)[i := dbs[i]] && Step(old(View()), Unlock(i)).0 == Released(View());
        DecLockCount();
        return true;
      }
      assert dbs == old(dbs)[i := dbs[i]];
      return false;
    }
  }

  // ----- every run -----

  function Initial(n: nat): State {
    State(seq(n, _ => Flags(false, false, false, false)), 0, false, false, 0)
  }

  function CountLocked(dbs: seq<Flags>): nat {
    if dbs == [] then 0 else (if dbs[0].locked then 1 else 0) + CountLocked(dbs[1..])
  }

  /** Open for writing implies locked, the count is the number of locked databases,
      a pending reload, which is there exactly after an unflushed commit, waits for a
      lock to be released, and the lock of `lckpwdf` is held only under some lock. */
  ghost predicate Inv(s: State) {
    && (forall i :: 0 <= i < |s.dbs| ==> s.dbs[i].isOpen && !s.dbs[i].readOnly ==> s.dbs[i].locked)
    && s.lockCount == CountLocked(s.dbs)
    && (s.needReload <==> s.commits > 0)
    && (s.needReload ==> s.lockCount > 0)
    && (s.libcLocked ==> s.lockCount > 0)
  }

  lemma {:induction false} CountUpdated(dbs: seq<Flags>, i: nat, f: Flags)
    requires i < |dbs|
    ensures CountLocked(dbs[i := f])
            == CountLocked(dbs) - (if dbs[i].locked then 1 else 0) + if f.locked then 1 else 0
    ensures dbs[i].locked ==> CountLocked(dbs) > 0
  {
    if i > 0 {
      CountUpdated(dbs[1..], i - 1, f);
      assert dbs[i := f][1..] == dbs[1..][i - 1 := f];
    } else {
      assert dbs[0 := f][1..] == dbs[1..];
    }
  }

  lemma {:induction false} CountInitial(n: nat)
    ensures CountLocked(Initial(n).dbs) == 0
  {
    if n > 0 {
      CountInitial(n - 1);
      assert Initial(n).dbs[1..] == Initial(n - 1).dbs;
    }
  }

  /** A call changes the flags of its own database only. */
  lemma {:induction false} StepShape(s: State, e: Event)
    requires Applies(s, e)
    ensures |Step(s, e).0.dbs| == |s.dbs|
    ensures Step(s, e).0.dbs == s.dbs[e.db := Step(s, e).0.dbs[e.db]]
  {
    match e
    case Lock(i, root, granted, libc) =>
    case Open(i, write, create, found) =>
    case Edit(i) =>
    case Close(i, committed) =>
    case Unlock(i) =>
  }

  lemma {:induction false} StepKeepsInv(s: State, e: Event)
    requires Inv(s) && Applies(s, e)
    ensures Inv(Step(s, e).0)
  {
    StepShape(s, e);
    CountUpdated(s.dbs, e.db, Step(s, e).0.dbs[e.db]);
    StepCounts(s, e);
    StepWaits(s, e);
    var t := Step(s, e).0;
    forall i | 0 <= i < |t.dbs| && t.dbs[i].isOpen && !t.dbs[i].readOnly
      ensures t.dbs[i].locked
    {
      assert i != e.db ==> t.dbs[i] == s.dbs[i];
    }
  }

  /** The counter moves with the lock of the database. */
  lemma {:induction false} StepCounts(s: State, e: Event)
    requires Inv(s) && Applies(s, e)
    ensures var (t, i) := (Step(s, e).0, e.db);
            && i < |t.dbs|
            && t.lockCount == s.lockCount - (if s.dbs[i].locked then 1 else 0) + (if t.dbs[i].locked then 1 else 0)
            && (t.dbs[i].isOpen && !t.dbs[i].readOnly ==> t.dbs[i].locked)
  {
    StepShape(s, e);
    CountUpdated(s.dbs, e.db, s.dbs[e.db]);
  }

  /** What waits for the last unlock does so under some lock. */
  lemma {:induction false} StepWaits(s: State, e: Event)
    requires Inv(s) && Applies(s, e)
    ensures var t := Step(s, e).0;
            && (t.needReload <==> t.commits > 0) && (t.needReload ==> t.lockCount > 0)
            && (t.libcLocked ==> t.lockCount > 0)
  {
    CountUpdated(s.dbs, e.db, s.dbs[e.db]);
  }

  /** A run: states and the calls between them. */
  ghost predicate IsRun(n: nat, states: seq<State>, events: seq<Event>) {
    && |states| == |events| + 1 && states[0] == Initial(n)
    && forall k :: 0 <= k < |events| ==> Applies(states[k], events[k]) && states[k + 1] == Step(states[k], events[k]).0
  }

  lemma {:induction false} RunKeepsInv(n: nat, states: seq<State>, events: seq<Event>, k: nat)
    requires IsRun(n, states, events) && k < |states|
    ensures Inv(states[k]) && |states[k].dbs| == n
  {
    if k == 0 {
      CountInitial(n);
    } else {
      RunKeepsInv(n, states, events, k - 1);
      StepKeepsInv(states[k - 1], events[k - 1]);
      StepShape(states[k - 1], events[k - 1]);
    }
  }

  predicate NoneLocked(dbs: seq<Flags>) {
    forall i :: 0 <= i < |dbs| ==> !dbs[i].locked
  }

  lemma {:induction false} CountZero(dbs: seq<Flags>)
    ensures CountLocked(dbs) == 0 <==> NoneLocked(dbs)
  {
    if dbs != [] {
      assert forall i :: 0 <= i < |dbs[1..]| ==> dbs[1..][i] == dbs[i + 1];
      assert forall i :: 1 <= i < |dbs| ==> dbs[i] == dbs[1..][i - 1];
      CountZero(dbs[1..]);
    }
  }

  /** In every run a commit happens only under the lock of its database, and when no
      lock is left every commit has been flushed to the caches. */
  lemma {:induction false} CommitsAreLockedAndFlushed(n: nat, states: seq<State>, events: seq<Event>, k: nat)
    requires IsRun(n, states, events) && k < |events|
    ensures states[k + 1].commits > states[k].commits ==>
              events[k].Close? && events[k].committed && states[k].dbs[events[k].db].locked &&
              Writes(states[k].dbs[events[k].db])
    ensures NoneLocked(states[k + 1].dbs) ==> states[k + 1].commits == 0 && states[k + 1].lockCount == 0
  {
    RunKeepsInv(n, states, events, k);
    RunKeepsInv(n, states, events, k + 1);
    CountZero(states[k + 1].dbs);
  }

  /** Unlocking without closing commits nothing: the database is closed and unlocked
      and no other one changes; it reports success exactly if it held the lock, and
      flushes earlier commits exactly if that was the last lock. */
  lemma {:induction false} UnlockDiscards(n: nat, states: seq<State>, events: seq<Event>, k: nat)
    requires IsRun(n, states, events) && k < |events| && events[k].Unlock?
    ensures var (s, t, i) := (states[k], states[k + 1], events[k].db);
            && |t.dbs| == |s.dbs| && !t.dbs[i].locked && !t.dbs[i].isOpen
            && (forall j :: 0 <= j < |s.dbs| && j != i ==> t.dbs[j] == s.dbs[j])
            && Step(s, events[k]).1 == s.dbs[i].locked
            && t.commits == (if NoneLocked(t.dbs) then 0 else s.commits)
  {
    var s, t := states[k], states[k + 1];
    RunKeepsInv(n, states, events, k);
    RunKeepsInv(n, states, events, k + 1);
    StepShape(s, events[k]);
    CountUpdated(s.dbs, events[k].db, t.dbs[events[k].db]);
    CountZero(t.dbs);
    CountZero(s.dbs);
  }

  // ----- when the calls succeed -----

  /** A lock without `lckpwdf` is obtained if it is held, at the first try, or for root
      at any try; with it, if it is held or granted at once, and libc's lock is there. */
  lemma {:induction false} LockExactly(s: State, i: nat, root: bool, granted: seq<bool>, libc: Option<bool>)
    requires Applies(s, Lock(i, root, granted, libc))
    ensures var (t, ok) := Step(s, Lock(i, root, granted, libc));
            && (libc == None ==>
                  (ok <==> s.dbs[i].locked || granted[0] || (root && exists k :: 0 <= k < LOCK_TRIES && granted[k])))
            && (libc.Some? ==> (ok <==> (s.lockCount != 0 || libc.value) && (s.dbs[i].locked || granted[0])))
            && |t.dbs| == |s.dbs| && (t.dbs[i].locked <==> ok || s.dbs[i].locked)
            && (ok && !s.dbs[i].locked ==> t.lockCount == s.lockCount + 1)
            && (libc.Some? && s.lockCount == 0 && ok ==> t.libcLocked)
            && (libc.Some? && (s.lockCount != 0 || libc.value) && !ok ==> !t.libcLocked)
  {
    ObtainedSome(root, granted, 0);
  }

  lemma {:induction false} ObtainedSome(root: bool, granted: seq<bool>, from: nat)
    requires from < |granted|
    ensures Obtained(root, granted, from) <==>
              granted[from] || (root && exists k :: from <= k < |granted| && granted[k])
    decreases |granted| - from
  {
    if from + 1 < |granted| {
      ObtainedSome(root, granted, from + 1);
    }
  }

  /** A closed database is opened if the file could be read, or is missing and may be
      created; for writing only under its lock. It is then unchanged, and writable as
      asked. */
  lemma {:induction false} OpenExactly(s: State, i: nat, write: bool, create: bool, found: Found)
    requires i < |s.dbs|
    ensures var (t, ok) := Step(s, Open(i, write, create, found));
            && (ok <==> && !s.dbs[i].isOpen && (write ==> s.dbs[i].locked)
                        && (found == Read || (found == Missing && create)))
            && |t.dbs| == |s.dbs| && (t.dbs[i].isOpen <==> ok || s.dbs[i].isOpen)
            && (ok ==> !t.dbs[i].changed && (t.dbs[i].readOnly <==> !write) && (t.dbs[i].locked <==> s.dbs[i].locked))
  {
  }

  /** A close succeeds on an open database unless it must commit and cannot; a commit
      counts, and asks for a reload. */
  lemma {:induction false} CloseExactly(s: State, i: nat, committed: bool)
    requires i < |s.dbs|
    ensures var (t, ok) := Step(s, Close(i, committed));
            var f := s.dbs[i];
            && (ok <==> f.isOpen && (f.changed && !f.readOnly ==> committed))
            && |t.dbs| == |s.dbs| && !t.dbs[i].isOpen && (t.dbs[i].locked <==> f.locked)
            && t.commits == s.commits + (if f.isOpen && f.changed && !f.readOnly && committed then 1 else 0)
            && (t.needReload <==> s.needReload || (f.isOpen && f.changed && !f.readOnly && committed))
            && t.lockCount == s.lockCount
  {
  }

  // ----- the lock of lckpwdf -----

  /** A try under `lckpwdf` fails while the process holds another lock. */
  predicate Drops(s: State, e: Event)
    requires Applies(s, e)
  {
    e.Lock? && e.libc.Some? && s.lockCount > 0 && !s.dbs[e.db].locked && !e.granted[0]
  }

  /** Whoever holds a lock holds that of `lckpwdf`. */
  predicate Covered(s: State) {
    s.lockCount > 0 ==> s.libcLocked
  }

  /** Where every lock goes through `lckpwdf`, a call keeps its lock until the last
      unlock if and only if it is no failed try while another lock is held. */
  lemma {:induction false} CoveredIff(s: State, e: Event)
    requires Inv(s) && Covered(s) && Applies(s, e) && (e.Lock? ==> e.libc.Some?)
    ensures Covered(Step(s, e).0) <==> !Drops(s, e)
  {
    CountUpdated(s.dbs, e.db, s.dbs[e.db]);
  }

  /** In every run without such a failure the process holds the lock of `lckpwdf`
      exactly as long as it holds some lock. */
  lemma {:induction false} RunIsCovered(n: nat, states: seq<State>, events: seq<Event>, k: nat)
    requires IsRun(n, states, events) && k < |states|
    requires forall j :: 0 <= j < k ==> (events[j].Lock? ==> events[j].libc.Some?) && !Drops(states[j], events[j])
    ensures states[k].libcLocked <==> !NoneLocked(states[k].dbs)
  {
    RunKeepsInv(n, states, events, k);
    CountZero(states[k].dbs);
    CoveredUpTo(n, states, events, k);
  }

  lemma {:induction false} CoveredUpTo(n: nat, states: seq<State>, events: seq<Event>, k: nat)
    requires IsRun(n, states, events) && k < |states|
    requires forall j :: 0 <= j < k ==> (events[j].Lock? ==> events[j].libc.Some?) && !Drops(states[j], events[j])
    ensures Covered(states[k])
  {
    if k > 0 {
      CoveredUpTo(n, states, events, k - 1);
      RunKeepsInv(n, states, events, k - 1);
      CoveredIff(states[k - 1], events[k - 1]);
    }
  }

  /** The failure occurs: the first of two databases is locked, the second is not
      granted, and the first one's lock is left without that of `lckpwdf`. */
  lemma {:induction false} DropExample(granted: seq<bool>, refused: seq<bool>)
    requires |granted| == |refused| == LOCK_TRIES && granted[0] && !refused[0]
    ensures var s := Step(Initial(2), Lock(0, true, granted, Some(true))).0;
            && Drops(s, Lock(1, true, refused, Some(true)))
            && var t := Step(s, Lock(1, true, refused, Some(true))).0;
               t.dbs[0].locked && !t.libcLocked
  {
  }
}
