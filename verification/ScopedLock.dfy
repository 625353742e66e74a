/**
  `RWMutexScopedLock`: a guard that takes a reader-writer lock when it is built, gives it back
  when it is destroyed and can trade a read lock for a write lock in between.

  Any number of threads share one lock and each has at most one guard on it at a time.  The
  lock may or may not hold readers back while a writer waits; everything is shown for both.
 */
module ScopedLocks {
  import opened Options
  import opened RwLocks

  datatype Pc =
    | NoGuard
    | Building(write: bool)     // in the constructor, before the lock call returns
    | Guarded(write: bool)      // the guard is usable
    | Upgrading(write: bool)    // in upgrade2writer, before the unlock
    | Relocking                 // in upgrade2writer, after the unlock
  {
    predicate Reads() {
      (Guarded? || Upgrading?) && !write
    }

    predicate Writes() {
      (Guarded? || Upgrading?) && write
    }

    predicate WaitsToWrite() {
      Relocking? || (Building? && write)
    }
  }

  /** `Build` and `CallUpgrade` start something; the other events bring it to its end. */
  datatype Event =
    | Build(t: Tid, write: bool)
    | Built(t: Tid)
    | CallUpgrade(t: Tid)
    | UpgradeUnlock(t: Tid)
    | UpgradeLock(t: Tid)
    | Destroy(t: Tid)
  {
    predicate Acquires() {
      Built? || UpgradeLock?
    }

    predicate Releases() {
      UpgradeUnlock? || Destroy?
    }

    predicate Finishes() {
      !Build? && !CallUpgrade?
    }
  }

  datatype State = State(lock: Lock, pc: seq<Pc>) {
    function Goto(t: Tid, lock': Lock, pc': Pc): State
      requires t < |pc|
    {
      State(lock', pc[t := pc'])
    }

    ghost predicate WriterWaits() {
      exists w :: 0 <= w < |pc| && pc[w].WaitsToWrite()
    }
  }

  function Init(threads: nat): State {
    State(FREE, seq(threads, _ => NoGuard))
  }

  ghost predicate MayRead(s: State, preferWriters: bool) {
    s.lock.CanRead() && (preferWriters ==> !s.WriterWaits())
  }

  ghost predicate Step(s: State, s': State, e: Event, preferWriters: bool) {
    && e.t < |s.pc|
    && var t := e.t;
       var pc := s.pc[t];
       match e
       case Build(_, w) => pc.NoGuard? && s' == s.Goto(t, s.lock, Building(w))
       case Built(_) =>
         pc.Building?
         && (if pc.write then s.lock.CanWrite() && s' == s.Goto(t, s.lock.Write(t), Guarded(true))
             else MayRead(s, preferWriters) && s' == s.Goto(t, s.lock.Read(t), Guarded(false)))
       case CallUpgrade(_) => pc.Guarded? && s' == s.Goto(t, s.lock, Upgrading(pc.write))
       case UpgradeUnlock(_) => pc.Upgrading? && s' == s.Goto(t, s.lock.Unlock(t), Relocking)
       case UpgradeLock(_) =>
         pc.Relocking? && s.lock.CanWrite() && s' == s.Goto(t, s.lock.Write(t), Guarded(true))
       case Destroy(_) => pc.Guarded? && s' == s.Goto(t, s.lock.Unlock(t), NoGuard)
  }

  ghost predicate Run(ss: seq<State>, es: seq<Event>, preferWriters: bool) {
    && |ss| == |es| + 1
    && forall i :: 0 <= i < |es| ==> Step(ss[i], ss[i + 1], es[i], preferWriters)
  }

  ghost predicate RunFromStart(ss: seq<State>, es: seq<Event>, threads: nat, preferWriters: bool) {
    Run(ss, es, preferWriters) && ss[0] == Init(threads)
  }

  // ----- the lock is held by exactly the threads whose guards say so

  ghost predicate ThreadOk(s: State, t: Tid)
    requires t < |s.pc|
  {
    && (s.lock.writer == Some(t) <==> s.pc[t].Writes())
    && s.lock.readers[t] == if s.pc[t].Reads() then 1 else 0
  }

  ghost predicate Invariant(s: State) {
    && s.lock.Exclusive()
    && (s.lock.writer.Some? ==> s.lock.writer.value < |s.pc|)
    && (forall t :: t in s.lock.readers ==> t < |s.pc|)
    && forall t: nat :: t < |s.pc| ==> ThreadOk(s, t)
  }

  lemma StepKeepsInvariant(s: State, s': State, e: Event, p: bool)
    requires Invariant(s) && Step(s, s', e, p)
    ensures Invariant(s')
  {
    assert ThreadOk(s, e.t);
    forall t: nat | t < |s'.pc|
      ensures ThreadOk(s', t)
    {
      assert ThreadOk(s, t);
    }
  }

  lemma {:induction false} RunKeepsInvariant(ss: seq<State>, es: seq<Event>, p: bool)
    requires Run(ss, es, p) && Invariant(ss[0])
    ensures forall i :: 0 <= i < |ss| ==> Invariant(ss[i])
  {
    if es != [] {
      var n := |es| - 1;
      RunKeepsInvariant(ss[..|es|], es[..n], p);
      assert ss[..|es|][n] == ss[n];
      StepKeepsInvariant(ss[n], ss[n + 1], es[n], p);
      forall i | 0 <= i < |ss|
        ensures Invariant(ss[i])
      {
        assert i < |es| ==> ss[..|es|][i] == ss[i];
      }
    }
  }

  /**
    Over every run a usable writing guard is alone: no other thread's guard is usable or still
    holds the lock on its way into an upgrade.
   */
  lemma WritersAreAlone(ss: seq<State>, es: seq<Event>, threads: nat, p: bool, i: nat, w: Tid, t: Tid)
    requires RunFromStart(ss, es, threads, p) && i < |ss|
    requires w < |ss[i].pc| && t < |ss[i].pc| && w != t
    requires ss[i].pc[w].Writes()
    ensures !ss[i].pc[t].Writes() && !ss[i].pc[t].Reads()
  {
    RunKeepsInvariant(ss, es, p);
    assert ThreadOk(ss[i], w) && ThreadOk(ss[i], t);
  }

  // ----- acquisitions and releases balance

  function Acquired(es: seq<Event>, t: Tid): nat {
    if es == [] then 0
    else
      var last := es[|es| - 1];
      Acquired(es[..|es| - 1], t) + if last.t == t && last.Acquires() then 1 else 0
  }

  function Released(es: seq<Event>, t: Tid): nat {
    if es == [] then 0
    else
      var last := es[|es| - 1];
      Released(es[..|es| - 1], t) + if last.t == t && last.Releases() then 1 else 0
  }

  predicate Holding(pc: Pc) {
    pc.Guarded? || pc.Upgrading?
  }

  /**
    A thread has acquired the lock once more than it released it exactly while its guard holds
    it, so between guards the two counts are equal, upgrades included.
   */
  lemma {:induction false} LockCallsBalance(ss: seq<State>, es: seq<Event>, threads: nat, p: bool, t: Tid)
    requires RunFromStart(ss, es, threads, p) && t < threads
    ensures |ss[|es|].pc| == threads
    ensures Acquired(es, t) == Released(es, t) + if Holding(ss[|es|].pc[t]) then 1 else 0
  {
    if es != [] {
      var n := |es| - 1;
      LockCallsBalance(ss[..|es|], es[..n], threads, p, t);
      assert ss[..|es|][n] == ss[n];
      assert Step(ss[n], ss[n + 1], es[n], p);
    }
  }

  /** The guard of `t` is the only holder of the lock. */
  ghost predicate WritesAlone(s: State, t: Tid) {
    t < |s.pc| && s.pc[t] == Guarded(true) && s.lock == Lock(Some(t), multiset{})
  }

  lemma WritesAloneStays(s: State, s': State, e: Event, p: bool, t: Tid)
    requires Invariant(s) && WritesAlone(s, t) && Step(s, s', e, p) && e.t != t
    ensures WritesAlone(s', t)
  {
    assert ThreadOk(s, t) && ThreadOk(s, e.t);
  }

  lemma UpgradeLockIsAlone(s: State, s': State, e: Event, p: bool)
    requires Step(s, s', e, p) && e.UpgradeLock?
    ensures WritesAlone(s', e.t)
  {
  }

  /**
    From the return of `upgrade2writer` until that thread's own next step its guard is the only
    holder of the lock, whatever mode it was built in and whatever the other threads do.
   */
  lemma {:induction false} UpgradeReturnsExclusive(
      ss: seq<State>, es: seq<Event>, threads: nat, p: bool, i: nat, k: nat)
    requires RunFromStart(ss, es, threads, p) && i < k <= |es| && es[i].UpgradeLock?
    requires forall m :: i < m < k ==> es[m].t != es[i].t
    ensures WritesAlone(ss[k], es[i].t)
    decreases k
  {
    var n := k - 1;
    assert Step(ss[n], ss[n + 1], es[n], p);
    if i == n {
      UpgradeLockIsAlone(ss[n], ss[k], es[n], p);
    } else {
      UpgradeReturnsExclusive(ss, es, threads, p, i, n);
      RunKeepsInvariant(ss, es, p);
      WritesAloneStays(ss[n], ss[k], es[n], p, es[i].t);
    }
  }

  // ----- no deadlock

  ghost predicate CanStep(s: State, e: Event, p: bool) {
    exists s' :: Step(s, s', e, p)
  }

  predicate AllDone(s: State) {
    forall t :: 0 <= t < |s.pc| ==> s.pc[t].NoGuard?
  }

  lemma HolderCanFinish(s: State, t: Tid, p: bool) returns (e: Event)
    requires t < |s.pc| && Holding(s.pc[t])
    ensures e.Finishes() && CanStep(s, e, p)
  {
    if s.pc[t].Guarded? {
      e := Destroy(t);
      assert Step(s, s.Goto(t, s.lock.Unlock(t), NoGuard), e, p);
    } else {
      e := UpgradeUnlock(t);
      assert Step(s, s.Goto(t, s.lock.Unlock(t), Relocking), e, p);
    }
  }

  lemma WaiterCanFinish(s: State, t: Tid, p: bool) returns (e: Event)
    requires s.lock == FREE && t < |s.pc|
    requires s.pc[t].WaitsToWrite() || (s.pc[t] == Building(false) && !s.WriterWaits())
    ensures e.Finishes() && CanStep(s, e, p)
  {
    if s.pc[t] == Building(false) {
      e := Built(t);
      assert Step(s, s.Goto(t, s.lock.Read(t), Guarded(false)), e, p);
    } else {
      e := if s.pc[t].Building? then Built(t) else UpgradeLock(t);
      assert Step(s, s.Goto(t, s.lock.Write(t), Guarded(true)), e, p);
    }
  }

  /**
    While any guard exists some thread can move towards its end, even with several readers
    upgrading at once: a thread that waits holds nothing.
   */
  lemma NoDeadlock(s: State, p: bool) returns (e: Event)
    requires Invariant(s) && !AllDone(s)
    ensures e.Finishes() && CanStep(s, e, p)
  {
    var t: nat :| t < |s.pc| && !s.pc[t].NoGuard?;
    if h: nat :| h < |s.pc| && Holding(s.pc[h]) {
      e := HolderCanFinish(s, h, p);
    } else {
      LockIsFree(s);
      if s.WriterWaits() {
        var w :| 0 <= w < |s.pc| && s.pc[w].WaitsToWrite();
        e := WaiterCanFinish(s, w, p);
      } else {
        e := WaiterCanFinish(s, t, p);
      }
    }
  }

  lemma LockIsFree(s: State)
    requires Invariant(s)
    requires forall t: nat :: t < |s.pc| ==> !Holding(s.pc[t])
    ensures s.lock == FREE
  {
    HoldersHaveGuards(s);
    assert s.lock.readers == multiset{};
  }

  lemma HoldersHaveGuards(s: State)
    requires Invariant(s)
    ensures s.lock.writer.Some? ==> s.lock.writer.value < |s.pc| && Holding(s.pc[s.lock.writer.value])
    ensures forall t :: t in s.lock.readers ==> t < |s.pc| && Holding(s.pc[t])
  {
    forall t: nat | t < |s.pc|
      ensures s.lock.Holds(t) ==> Holding(s.pc[t])
    {
      assert ThreadOk(s, t);
    }
  }

  // ----- and no livelock: finishing takes boundedly many steps

  function Rank(pc: Pc): nat {
    match pc
    case NoGuard => 0
    case Guarded(_) => 1
    case Building(_) => 2
    case Relocking => 2
    case Upgrading(_) => 3
  }

  function Work(pcs: seq<Pc>): nat {
    if pcs == [] then 0 else Rank(pcs[0]) + Work(pcs[1..])
  }

  lemma {:induction false} WorkAfterUpdate(pcs: seq<Pc>, t: nat, pc: Pc)
    requires t < |pcs|
    ensures Work(pcs[t := pc]) == Work(pcs) - Rank(pcs[t]) + Rank(pc)
  {
    if t > 0 {
      WorkAfterUpdate(pcs[1..], t - 1, pc);
      assert pcs[t := pc][1..] == pcs[1..][t - 1 := pc];
    } else {
      assert pcs[t := pc][1..] == pcs[1..];
    }
  }

  ghost predicate OnlyFinishes(es: seq<Event>) {
    forall i :: 0 <= i < |es| ==> es[i].Finishes()
  }

  /** Once no thread starts anything new, every schedule is at most as long as the work left. */
  lemma {:induction false} FinishingIsBounded(ss: seq<State>, es: seq<Event>, p: bool)
    requires Run(ss, es, p) && OnlyFinishes(es)
    ensures |es| + Work(ss[|es|].pc) <= Work(ss[0].pc)
  {
    if es != [] {
      var n := |es| - 1;
      FinishingIsBounded(ss[..|es|], es[..n], p);
      assert ss[..|es|][n] == ss[n];
      var t := es[n].t;
      assert Step(ss[n], ss[n + 1], es[n], p) && es[n].Finishes();
      WorkAfterUpdate(ss[n].pc, t, ss[n + 1].pc[t]);
    }
  }

  lemma StepBeforeRun(s: State, e: Event, ss: seq<State>, es: seq<Event>, p: bool)
    requires Run(ss, es, p) && Step(s, ss[0], e, p)
    ensures Run([s] + ss, [e] + es, p)
    ensures OnlyFinishes(es) && e.Finishes() ==> OnlyFinishes([e] + es)
  {
  }

  lemma FinishingStep(s: State, p: bool) returns (e: Event, s': State)
    requires Invariant(s) && !AllDone(s)
    ensures e.Finishes() && Step(s, s', e, p) && Invariant(s') && Work(s'.pc) < Work(s.pc)
  {
    e := NoDeadlock(s, p);
    s' :| Step(s, s', e, p);
    StepKeepsInvariant(s, s', e, p);
    WorkAfterUpdate(s.pc, e.t, s'.pc[e.t]);
  }

  /** From every reachable state all guards can be brought to their end, whoever waits for whom. */
  lemma {:induction false} EveryGuardCanEnd(s: State, p: bool) returns (ss: seq<State>, es: seq<Event>)
    requires Invariant(s)
    ensures Run(ss, es, p) && OnlyFinishes(es) && ss[0] == s
    ensures AllDone(ss[|es|]) && ss[|es|].lock == FREE
    decreases Work(s.pc)
  {
    if AllDone(s) {
      LockIsFree(s);
      ss, es := [s], [];
    } else {
      var e, s' := FinishingStep(s, p);
      var ss', es' := EveryGuardCanEnd(s', p);
      StepBeforeRun(s, e, ss', es', p);
      ss, es := [s] + ss', [e] + es';
    }
  }

  /**
    Whatever schedule the threads follow, it can only run dry when all guards have ended, and then
    the lock is free: with `FinishingIsBounded`, every schedule that is not cut short gets there.
   */
  lemma RunsDryOnlyWhenDone(ss: seq<State>, es: seq<Event>, threads: nat, p: bool)
    requires RunFromStart(ss, es, threads, p)
    ensures (forall e: Event :: e.Finishes() ==> !CanStep(ss[|es|], e, p)) <==> AllDone(ss[|es|])
    ensures AllDone(ss[|es|]) ==> ss[|es|].lock == FREE
  {
    RunKeepsInvariant(ss, es, p);
    if AllDone(ss[|es|]) {
      LockIsFree(ss[|es|]);
    } else {
      var e := NoDeadlock(ss[|es|], p);
    }
  }

  // ----- the guard itself, run by one thread among others

  class PosixRwLock {
    // Does a waiting writer hold readers back?
    const preferWriters: bool
    var state: Lock

    constructor (preferWriters: bool)
      ensures state == FREE && this.preferWriters == preferWriters
    {
      this.preferWriters := preferWriters;
      state := FREE;
    }

    ghost predicate Available(write: bool)
      reads this
    {
      if write then state.CanWrite() else state.CanRead()
    }

    /**
      Until the lock is granted the other threads go on using it; callers learn no more of that.
      A free lock is granted to a writer at once; a reader may have to wait behind a waiting writer.
     */
    method Wait(write: bool, t: Tid)
      requires state.Exclusive() && !state.Holds(t)
      modifies this
      ensures Available(write) && !state.Holds(t)
      ensures old(Available(write)) && (write || !preferWriters) ==> state == old(state)
    {
      if write {
        state := FREE;
      } else {
        state := state.(writer := None);
      }
    }

    method WrLock(t: Tid)
      requires state.Exclusive() && !state.Holds(t)
      modifies this
      ensures state == FREE.Write(t)
    {
      Wait(true, t);
      state := state.Write(t);
    }

    method RdLock(t: Tid)
      requires state.Exclusive() && !state.Holds(t)
      modifies this
      ensures state.writer == None && state.readers[t] == 1
      ensures old(Available(false)) && !preferWriters ==> state == old(state).Read(t)
    {
      Wait(false, t);
      state := state.Read(t);
    }

    method Unlock(t: Tid)
      requires state.Holds(t)
      modifies this
      ensures state == old(state).Unlock(t)
    {
      state := state.Unlock(t);
    }
  }

  /** `t` is the thread that owns the guard; `mLock` is null once the guard is destroyed. */
  class RWMutexScopedLock {
    var mLock: PosixRwLock?
    const t: Tid

    /** The guard's thread holds the lock, once. */
    ghost predicate Valid()
      reads this, mLock
    {
      mLock != null && mLock.state.Exclusive() && mLock.state.Holds(t) && mLock.state.readers[t] <= 1
    }

    constructor (lock: PosixRwLock, write: bool, t: Tid)
      requires lock.state.Exclusive() && !lock.state.Holds(t)
      modifies lock
      ensures Valid() && mLock == lock && this.t == t
      ensures if write then lock.state == FREE.Write(t) else t in lock.state.readers
      ensures !write && old(lock.Available(false)) && !lock.preferWriters ==>
                lock.state == old(lock.state).Read(t)
    {
      mLock := lock;
      this.t := t;
      new;
      if write {
        lock.WrLock(t);
      } else {
        lock.RdLock(t);
      }
    }

    method Destroy()
      requires Valid()
      modifies this, mLock
      ensures mLock == null && old(mLock).state == old(mLock.state).Unlock(t)
      ensures old(mLock).state.Exclusive() && !old(mLock).state.Holds(t)
    {
      mLock.Unlock(t);
      mLock := null;
    }

    /** Whoever else holds the lock when it is called, when it returns the guard is the one holder. */
    method Upgrade2Writer() returns (ok: bool)
      requires Valid()
      modifies mLock
      ensures Valid() && ok && mLock == old(mLock)
      ensures mLock.state == Lock(Some(t), multiset{})
    {
      mLock.Unlock(t);
      mLock.WrLock(t);
      return true;
    }
  }

  /**
    Once a guard was built and destroyed its thread holds nothing.  A guard that wrote leaves the
    lock free, and one that did not have to wait leaves it as it was.
   */
  method GuardGivesBack(lock: PosixRwLock, write: bool, upgrade: bool, t: Tid)
    requires lock.state.Exclusive() && !lock.state.Holds(t)
    modifies lock
    ensures lock.state.Exclusive() && !lock.state.Holds(t)
    ensures write || upgrade ==> lock.state == FREE
    ensures old(lock.Available(write || upgrade)) && (write || upgrade || !lock.preferWriters) ==>
              lock.state == old(lock.state)
  {
    var guard := new RWMutexScopedLock(lock, write, t);
    if upgrade {
      var _ := guard.Upgrade2Writer();
    }
    guard.Destroy();
  }
}
