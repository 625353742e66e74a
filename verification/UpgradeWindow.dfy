/**
  When `upgrade2writer` is atomic: it gives the lock up before it takes it back, and this is
  when another thread can own the lock for writing in between.
 */
module UpgradeWindows {
  import opened Options
  import opened RwLocks
  import opened ScopedLocks

  /** A thread that waits to read, and must go on waiting while one waits to write. */
  predicate Yields(s: State, u: Tid, p: bool)
    requires u < |s.pc|
  {
    p && s.pc[u] == Building(false)
  }

  /** Another thread that nothing keeps from owning the lock before `t` has upgraded. */
  predicate MayIntervene(s: State, t: Tid, u: Tid, p: bool)
    requires t < |s.pc| && s.pc[t].Upgrading?
  {
    u < |s.pc| && u != t && !(s.pc[t].write && Yields(s, u, p))
  }

  /** Event `i` unlocks for the upgrade of `t`, event `k` locks again, and another thread writes at state `j`. */
  ghost predicate Interrupted(ss: seq<State>, es: seq<Event>, t: Tid, i: nat, j: nat, k: nat) {
    && i < j <= k < |es| < |ss|
    && es[i] == UpgradeUnlock(t) && es[k] == UpgradeLock(t)
    && (forall m :: i < m < k ==> es[m].t != t)
    && ss[j].lock.writer.Some? && ss[j].lock.writer.value != t
  }

  ghost predicate Idles(es: seq<Event>, t: Tid, n: nat)
    requires n <= |es|
  {
    forall m :: 0 <= m < n ==> es[m].t != t
  }

  /** The upgrade that `t` has begun in `s` can be interrupted. */
  ghost predicate CanBeInterrupted(s: State, t: Tid, p: bool) {
    exists ss: seq<State>, es: seq<Event>, i: nat, j: nat, k: nat ::
      Run(ss, es, p) && ss[0] == s && Interrupted(ss, es, t, i, j, k) && Idles(es, t, i)
  }

  /** A thread of `threads` that builds a guard and upgrades it can be interrupted. */
  ghost predicate InterruptedFromStart(threads: nat, t: Tid, write: bool, p: bool) {
    exists ss: seq<State>, es: seq<Event>, i: nat, j: nat, k: nat ::
      RunFromStart(ss, es, threads, p) && Interrupted(ss, es, t, i, j, k)
      && t < |ss[i].pc| && ss[i].pc[t] == Upgrading(write)
  }

  // ----- runs in which one thread does nothing

  ghost predicate RunsTo(ss: seq<State>, es: seq<Event>, s: State, s': State, t: Tid, p: bool) {
    Run(ss, es, p) && ss[0] == s && ss[|es|] == s' && Idles(es, t, |es|)
  }

  ghost predicate Reaches(s: State, s': State, t: Tid, p: bool) {
    exists ss, es :: RunsTo(ss, es, s, s', t, p)
  }

  lemma Stays(s: State, t: Tid, p: bool)
    ensures Reaches(s, s, t, p)
  {
    assert RunsTo([s], [], s, s, t, p);
  }

  lemma StepsTo(s: State, s': State, e: Event, t: Tid, p: bool)
    requires Step(s, s', e, p) && e.t != t
    ensures Reaches(s, s', t, p)
  {
    assert RunsTo([s, s'], [e], s, s', t, p);
  }

  lemma StepAfterRun(ss: seq<State>, es: seq<Event>, p: bool, e: Event, s: State)
      returns (ss': seq<State>, es': seq<Event>)
    requires Run(ss, es, p) && Step(ss[|es|], s, e, p)
    ensures ss' == ss + [s] && es' == es + [e] && Run(ss', es', p)
  {
    ss', es' := ss + [s], es + [e];
  }

  lemma RunsJoin(ss: seq<State>, es: seq<Event>, ss': seq<State>, es': seq<Event>, p: bool)
    requires Run(ss, es, p) && Run(ss', es', p) && ss[|es|] == ss'[0]
    ensures Run(ss + ss'[1..], es + es', p)
    ensures forall m :: 0 <= m <= |es'| ==> (ss + ss'[1..])[|es| + m] == ss'[m]
  {
    var all, events := ss + ss'[1..], es + es';
    assert forall m :: 0 <= m <= |es'| ==> all[|es| + m] == ss'[m];
    forall i | 0 <= i < |events|
      ensures Step(all[i], all[i + 1], events[i], p)
    {
      if i < |es| {
        assert Step(ss[i], ss[i + 1], es[i], p);
      } else {
        var m := i - |es|;
        assert all[|es| + (m + 1)] == ss'[m + 1];
        assert Step(ss'[m], ss'[m + 1], es'[m], p);
      }
    }
  }

  lemma ReachesThen(s: State, s': State, s'': State, t: Tid, p: bool)
    requires Reaches(s, s', t, p) && Reaches(s', s'', t, p)
    ensures Reaches(s, s'', t, p)
  {
    var ss, es :| RunsTo(ss, es, s, s', t, p);
    var ss', es' :| RunsTo(ss', es', s', s'', t, p);
    RunsJoin(ss, es, ss', es', p);
    assert RunsTo(ss + ss'[1..], es + es', s, s'', t, p);
  }

  // ----- from the unlock on: the others leave, one of them writes and leaves too

  /** `s'` is `s` once every holder has let go. */
  ghost predicate Drained(s: State, s': State) {
    && s'.lock == FREE && |s'.pc| == |s.pc|
    && forall v :: 0 <= v < |s.pc| ==>
         if Holding(s.pc[v]) then s'.pc[v].NoGuard? || s'.pc[v].Relocking? else s'.pc[v] == s.pc[v]
  }

  lemma LetGo(s: State, h: Tid, p: bool) returns (s': State)
    requires Invariant(s) && h < |s.pc| && Holding(s.pc[h])
    ensures Invariant(s') && Work(s'.pc) < Work(s.pc)
    ensures |s'.pc| == |s.pc| && s'.pc == s.pc[h := s'.pc[h]] && (s'.pc[h].NoGuard? || s'.pc[h].Relocking?)
    ensures forall t: Tid :: t != h ==> Reaches(s, s', t, p)
  {
    var e := if s.pc[h].Guarded? then Destroy(h) else UpgradeUnlock(h);
    s' := s.Goto(h, s.lock.Unlock(h), if s.pc[h].Guarded? then NoGuard else Relocking);
    assert Step(s, s', e, p);
    StepKeepsInvariant(s, s', e, p);
    WorkAfterUpdate(s.pc, h, s'.pc[h]);
    forall t: Tid | t != h
      ensures Reaches(s, s', t, p)
    {
      StepsTo(s, s', e, t, p);
    }
  }

  lemma {:induction false} Drain(s: State, t: Tid, p: bool) returns (s': State)
    requires Invariant(s) && t < |s.pc| && s.pc[t] == Relocking
    ensures Reaches(s, s', t, p) && Drained(s, s')
    decreases Work(s.pc)
  {
    if h: nat :| h < |s.pc| && Holding(s.pc[h]) {
      var s1 := LetGo(s, h, p);
      s' := Drain(s1, t, p);
      ReachesThen(s, s1, s', t, p);
    } else {
      LockIsFree(s);
      Stays(s, t, p);
      s' := s;
    }
  }

  lemma BuildsWriter(s: State, t: Tid, u: Tid, p: bool) returns (s': State)
    requires s.lock == FREE && u < |s.pc| && u != t && s.pc[u].NoGuard?
    ensures Reaches(s, s', t, p) && s' == s.Goto(u, FREE.Write(u), Guarded(true))
  {
    var s1 := s.Goto(u, FREE, Building(true));
    s' := s.Goto(u, FREE.Write(u), Guarded(true));
    StepsTo(s, s1, Build(u, true), t, p);
    StepsTo(s1, s', Built(u), t, p);
    ReachesThen(s, s1, s', t, p);
  }

  /** A reader that is let in can come back as a writer. */
  lemma ReaderComesBack(s: State, t: Tid, u: Tid, p: bool) returns (s': State)
    requires s.lock == FREE && u < |s.pc| && u != t && s.pc[u] == Building(false) && !p
    ensures Reaches(s, s', t, p) && s' == s.Goto(u, FREE.Write(u), Guarded(true))
  {
    var s1 := s.Goto(u, FREE.Read(u), Guarded(false));
    var s2 := s.Goto(u, FREE, NoGuard);
    StepsTo(s, s1, Built(u), t, p);
    assert s1.lock.Unlock(u).readers == multiset{};
    StepsTo(s1, s2, Destroy(u), t, p);
    ReachesThen(s, s1, s2, t, p);
    s' := BuildsWriter(s2, t, u, p);
    ReachesThen(s, s2, s', t, p);
  }

  lemma BecomesWriter(s: State, t: Tid, u: Tid, p: bool) returns (s': State)
    requires s.lock == FREE && u < |s.pc| && u != t && !Holding(s.pc[u])
    requires !Yields(s, u, p)
    ensures Reaches(s, s', t, p) && s' == s.Goto(u, FREE.Write(u), Guarded(true))
  {
    if s.pc[u].NoGuard? {
      s' := BuildsWriter(s, t, u, p);
    } else if s.pc[u] == Building(false) {
      s' := ReaderComesBack(s, t, u, p);
    } else {
      s' := s.Goto(u, FREE.Write(u), Guarded(true));
      StepsTo(s, s', if s.pc[u].Relocking? then UpgradeLock(u) else Built(u), t, p);
    }
  }

  /** Another thread owns the lock in `mid`, and `t` can take it in `end`. */
  ghost predicate Window(s: State, mid: State, end: State, t: Tid, p: bool) {
    && Reaches(s, mid, t, p) && mid.lock.writer.Some? && mid.lock.writer.value != t
    && Reaches(mid, end, t, p) && t < |end.pc| && end.pc[t].Relocking? && end.lock.CanWrite()
  }

  lemma WindowOpens(s: State, t: Tid, u: Tid, p: bool) returns (mid: State, end: State)
    requires Invariant(s) && t < |s.pc| && s.pc[t] == Relocking
    requires u < |s.pc| && u != t && !Yields(s, u, p)
    ensures Window(s, mid, end, t, p)
  {
    var free := Drain(s, t, p);
    mid := BecomesWriter(free, t, u, p);
    ReachesThen(s, free, mid, t, p);
    end := free.Goto(u, FREE, NoGuard);
    assert mid.pc[u := NoGuard] == end.pc;
    StepsTo(mid, end, Destroy(u), t, p);
  }

  // ----- before the unlock: a waiting reader can still be let in while `t` reads

  lemma NoWriterAmongReaders(s: State, t: Tid, p: bool)
    requires Invariant(s) && t < |s.pc| && s.pc[t] == Upgrading(false)
    requires forall v: nat :: v < |s.pc| && v != t ==> Yields(s, v, p)
    ensures s.lock.CanRead() && !s.WriterWaits()
  {
    HoldersHaveGuards(s);
    assert ThreadOk(s, t);
    forall v: nat | v < |s.pc| && v != t
      ensures s.pc[v] == Building(false)
    {
      assert Yields(s, v, p);
    }
  }

  lemma OnlyReadersWait(s: State, t: Tid, u: Tid, p: bool) returns (s': State)
    requires Invariant(s) && t < |s.pc| && s.pc[t] == Upgrading(false) && u < |s.pc| && u != t
    requires forall v: nat :: v < |s.pc| && v != t ==> Yields(s, v, p)
    ensures Invariant(s') && Reaches(s, s', t, p) && |s'.pc| == |s.pc| && s'.pc[t] == s.pc[t]
    ensures s'.pc[u] == Guarded(false)
  {
    assert Yields(s, u, p);
    NoWriterAmongReaders(s, t, p);
    s' := s.Goto(u, s.lock.Read(u), Guarded(false));
    assert Step(s, s', Built(u), p);
    StepKeepsInvariant(s, s', Built(u), p);
    StepsTo(s, s', Built(u), t, p);
  }

  /** Some other thread gets to where it cannot be held back by `t`. */
  lemma Prepared(s: State, t: Tid, u: Tid, p: bool) returns (s': State, v: Tid)
    requires Invariant(s) && t < |s.pc| && s.pc[t].Upgrading? && MayIntervene(s, t, u, p)
    ensures Invariant(s') && Reaches(s, s', t, p) && |s'.pc| == |s.pc| && s'.pc[t] == s.pc[t]
    ensures v < |s'.pc| && v != t && !Yields(s', v, p)
  {
    if w: nat :| w < |s.pc| && w != t && !Yields(s, w, p) {
      Stays(s, t, p);
      s', v := s, w;
    } else {
      assert Yields(s, u, p);
      s' := OnlyReadersWait(s, t, u, p);
      v := u;
    }
  }

  function Unlocked(s: State, t: Tid): State
    requires t < |s.pc|
  {
    s.Goto(t, s.lock.Unlock(t), Relocking)
  }

  /** A run up to the unlock, continued through an open window, is interrupted. */
  lemma Splice(ss: seq<State>, es: seq<Event>, t: Tid, mid: State, end: State, p: bool)
      returns (ss': seq<State>, es': seq<Event>, j: nat, k: nat)
    requires Run(ss, es, p) && t < |ss[|es|].pc| && ss[|es|].pc[t].Upgrading?
    requires Window(Unlocked(ss[|es|], t), mid, end, t, p)
    ensures Run(ss', es', p) && ss <= ss' && es <= es' && Interrupted(ss', es', t, |es|, j, k)
  {
    var s0 := Unlocked(ss[|es|], t);
    var ss1, es1 := StepAfterRun(ss, es, p, UpgradeUnlock(t), s0);
    var ssm, esm :| RunsTo(ssm, esm, s0, mid, t, p);
    var sse, ese :| RunsTo(sse, ese, mid, end, t, p);
    RunsJoin(ss1, es1, ssm, esm, p);
    var ss2, es2 := ss1 + ssm[1..], es1 + esm;
    RunsJoin(ss2, es2, sse, ese, p);
    var ss3, es3 := ss2 + sse[1..], es2 + ese;
    assert ss2[|es1| + |esm|] == mid && ss3[|es2| + |ese|] == end;
    ss', es' := StepAfterRun(ss3, es3, p, UpgradeLock(t), end.Goto(t, end.lock.Write(t), Guarded(true)));
    j, k := |es2|, |es3|;
  }

  lemma OpensBeforeUnlock(s: State, t: Tid, u: Tid, p: bool) returns (s1: State, mid: State, end: State)
    requires Invariant(s) && t < |s.pc| && s.pc[t].Upgrading? && MayIntervene(s, t, u, p)
    ensures Reaches(s, s1, t, p) && |s1.pc| == |s.pc| && s1.pc[t] == s.pc[t]
    ensures Window(Unlocked(s1, t), mid, end, t, p)
  {
    var v;
    s1, v := Prepared(s, t, u, p);
    assert Step(s1, Unlocked(s1, t), UpgradeUnlock(t), p);
    StepKeepsInvariant(s1, Unlocked(s1, t), UpgradeUnlock(t), p);
    mid, end := WindowOpens(Unlocked(s1, t), t, v, p);
  }

  // ----- otherwise nobody else can move at all

  /** `v` is a reader that writer preference holds back, before the unlock of `t` and after it. */
  predicate HeldBack(s: State, t: Tid, v: Tid, p: bool)
    requires t < |s.pc| && v < |s.pc|
  {
    Yields(s, v, p) && (s.pc[t].Relocking? || s.lock.writer == Some(t))
  }

  ghost predicate Stuck(s: State, t: Tid, p: bool) {
    && t < |s.pc| && (s.pc[t].Upgrading? || s.pc[t].Relocking?)
    && (s.lock.writer.None? || s.lock.writer == Some(t))
    && forall v: nat :: v < |s.pc| && v != t ==> HeldBack(s, t, v, p)
  }

  lemma OthersAreHeldBack(s: State, t: Tid, p: bool)
    requires Stuck(s, t, p)
    ensures forall v: nat :: v < |s.pc| && v != t ==> s.pc[v] == Building(false) && !MayRead(s, p)
  {
    assert s.pc[t].Relocking? ==> s.WriterWaits();
    forall v: nat | v < |s.pc| && v != t
      ensures s.pc[v] == Building(false) && !MayRead(s, p)
    {
      assert HeldBack(s, t, v, p);
    }
  }

  lemma StuckStays(s: State, s': State, e: Event, t: Tid, p: bool)
    requires Stuck(s, t, p) && Step(s, s', e, p) && e != UpgradeLock(t)
    ensures Stuck(s', t, p) && e == UpgradeUnlock(t)
  {
    OthersAreHeldBack(s, t, p);
    forall v: nat | v < |s.pc| && v != t
      ensures HeldBack(s', t, v, p)
    {
      assert HeldBack(s, t, v, p);
    }
  }

  lemma {:induction false} StuckThroughout(ss: seq<State>, es: seq<Event>, t: Tid, p: bool, j: nat)
    requires Run(ss, es, p) && Stuck(ss[0], t, p) && j < |es|
    requires forall m :: 0 <= m < j ==> es[m] != UpgradeLock(t)
    ensures Stuck(ss[j], t, p)
  {
    if j > 0 {
      StuckThroughout(ss, es, t, p, j - 1);
      assert Step(ss[j - 1], ss[j], es[j - 1], p);
      StuckStays(ss[j - 1], ss[j], es[j - 1], t, p);
    }
  }

  lemma StuckIsAtomic(s: State, t: Tid, p: bool)
    requires Stuck(s, t, p)
    ensures !CanBeInterrupted(s, t, p)
  {
    if CanBeInterrupted(s, t, p) {
      var ss: seq<State>, es: seq<Event>, i: nat, j: nat, k: nat :|
        Run(ss, es, p) && ss[0] == s && Interrupted(ss, es, t, i, j, k) && Idles(es, t, i);
      forall m | 0 <= m < k
        ensures es[m] != UpgradeLock(t)
      {
        assert m == i || es[m].t != t;
      }
      StuckThroughout(ss, es, t, p, j);
    }
  }

  lemma NobodyMayIntervene(s: State, t: Tid, p: bool)
    requires Invariant(s) && t < |s.pc| && s.pc[t].Upgrading?
    requires forall u :: !MayIntervene(s, t, u, p)
    ensures Stuck(s, t, p)
  {
    assert ThreadOk(s, t);
    HoldersHaveGuards(s);
    forall v: nat | v < |s.pc| && v != t
      ensures HeldBack(s, t, v, p)
    {
      assert !MayIntervene(s, t, v, p);
    }
  }

  // ----- the two results

  /**
    From every reachable state in which a thread has called `upgrade2writer`, another thread can
    own the lock for writing before the upgrade does, exactly if there is another thread that is
    not a reader held back: under writer preference a waiting reader stays out when the upgrading
    guard was a writer already, since then nothing lets it in first.
   */
  lemma UpgradeIsAtomicIff(s: State, t: Tid, p: bool)
    requires Invariant(s) && t < |s.pc| && s.pc[t].Upgrading?
    ensures CanBeInterrupted(s, t, p) <==> exists u :: MayIntervene(s, t, u, p)
  {
    if u :| MayIntervene(s, t, u, p) {
      var s1, mid, end := OpensBeforeUnlock(s, t, u, p);
      var ss, es :| RunsTo(ss, es, s, s1, t, p);
      var ss', es', j, k := Splice(ss, es, t, mid, end, p);
      assert ss'[0] == s && Idles(es', t, |es|);
    } else {
      NobodyMayIntervene(s, t, p);
      StuckIsAtomic(s, t, p);
    }
  }

  lemma GuardUpgrades(threads: nat, t: Tid, write: bool, p: bool) returns (ss: seq<State>, es: seq<Event>)
    requires t < threads
    ensures RunFromStart(ss, es, threads, p)
    ensures |ss[|es|].pc| == threads && ss[|es|].pc[t] == Upgrading(write)
    ensures forall u: nat :: u < threads && u != t ==> ss[|es|].pc[u].NoGuard?
  {
    var s0 := Init(threads);
    var s1 := s0.Goto(t, FREE, Building(write));
    var lock := if write then FREE.Write(t) else FREE.Read(t);
    var s2 := s0.Goto(t, lock, Guarded(write));
    var s3 := s0.Goto(t, lock, Upgrading(write));
    assert s1.pc[t := Guarded(write)] == s2.pc && s2.pc[t := Upgrading(write)] == s3.pc;
    ss, es := StepAfterRun([s0], [], p, Build(t, write), s1);
    ss, es := StepAfterRun(ss, es, p, Built(t), s2);
    ss, es := StepAfterRun(ss, es, p, CallUpgrade(t), s3);
  }

  lemma TwoThreadsSuffice(threads: nat, t: Tid, u: Tid, write: bool, p: bool)
    requires t < threads && u < threads && t != u
    ensures InterruptedFromStart(threads, t, write, p)
  {
    var ss, es := GuardUpgrades(threads, t, write, p);
    RunKeepsInvariant(ss, es, p);
    var s := ss[|es|];
    assert MayIntervene(s, t, u, p);
    var s1, mid, end := OpensBeforeUnlock(s, t, u, p);
    var ss1, es1 := Continued(ss, es, s1, t, p);
    var ss', es', j, k := Splice(ss1, es1, t, mid, end, p);
    assert ss'[0] == ss1[0] == ss[0] && ss'[|es1|] == s1;
  }

  lemma Continued(ss: seq<State>, es: seq<Event>, s: State, t: Tid, p: bool)
      returns (ss': seq<State>, es': seq<Event>)
    requires Run(ss, es, p) && Reaches(ss[|es|], s, t, p)
    ensures Run(ss', es', p) && ss'[0] == ss[0] && ss'[|es'|] == s
  {
    var ss1, es1 :| RunsTo(ss1, es1, ss[|es|], s, t, p);
    RunsJoin(ss, es, ss1, es1, p);
    ss', es' := ss + ss1[1..], es + es1;
    assert ss'[|es| + |es1|] == s;
  }

  /**
    Whatever the mode the guard starts in and whether or not writers are preferred, some run lets
    another writer into the upgrade of a given thread exactly if there are at least two threads:
    the upgrade never promises that what was read before it still holds.
   */
  lemma UpgradeIsNotAtomic(threads: nat, t: Tid, write: bool, p: bool)
    requires t < threads
    ensures InterruptedFromStart(threads, t, write, p) <==> threads >= 2
  {
    if threads >= 2 {
      TwoThreadsSuffice(threads, t, if t == 0 then 1 else 0, write, p);
    }
    if InterruptedFromStart(threads, t, write, p) {
      var ss: seq<State>, es: seq<Event>, i: nat, j: nat, k: nat :|
        RunFromStart(ss, es, threads, p) && Interrupted(ss, es, t, i, j, k)
        && t < |ss[i].pc| && ss[i].pc[t] == Upgrading(write);
      RunKeepsInvariant(ss, es, p);
      LockCallsBalance(ss[..j + 1], es[..j], threads, p, t);
      assert ss[j].lock.writer.value < |ss[j].pc| == threads;
    }
  }
}
