/**
  `native_rw_*` on Windows: an SRWLOCK plus one unsynchronised flag that tells
  `native_rw_unlock` which of the two release calls to make.

  Threads are interleaved one shared-memory access at a time.  The machine for the other
  branch calls the POSIX lock directly.  Both machines take part in the same calls and
  returns, so they can be compared by what a caller sees.
 */
module NativeRwLocks {
  import opened Options
  import opened RwLocks

  datatype Op = RdLock | TryRdLock | WrLock | TryWrLock | Unlock
  datatype Code = Ok | Busy

  /** `Internal` steps are invisible to callers. */
  datatype Label =
    | Call(t: Tid, op: Op)
    | Return(t: Tid, op: Op, code: Code)
    | Internal(t: Tid)

  /** What callers see of a run. */
  function Trace(ls: seq<Label>): seq<Label> {
    if ls == [] then []
    else
      var front := Trace(ls[..|ls| - 1]);
      var last := ls[|ls| - 1];
      if last.Internal? then front else front + [last]
  }

  // ----- the pthread branch: every operation is one access to the lock

  datatype PosixPc = Idle | Pending(op: Op) | Done(op: Op, code: Code)

  datatype Posix = Posix(lock: Lock, pc: seq<PosixPc>) {
    function At(t: Tid, lock': Lock, pc': PosixPc): Posix
      requires t < |pc|
    {
      Posix(lock', pc[t := pc'])
    }

    ghost predicate WriterBlocked() {
      !lock.CanWrite() && exists w: nat :: w < |pc| && pc[w] == Pending(WrLock)
    }
  }

  function PosixInit(threads: nat): Posix {
    Posix(FREE, seq(threads, _ => Idle))
  }

  /** A try-lock for reading may also be refused because a writer is blocked on the lock. */
  ghost predicate PosixAccess(s: Posix, s': Posix, t: Tid)
    requires t < |s.pc| && s.pc[t].Pending?
  {
    var op := s.pc[t].op;
    match op
    case RdLock => s.lock.CanRead() && s' == s.At(t, s.lock.Read(t), Done(op, Ok))
    case TryRdLock =>
      || (s.lock.CanRead() && s' == s.At(t, s.lock.Read(t), Done(op, Ok)))
      || ((!s.lock.CanRead() || s.WriterBlocked()) && s' == s.At(t, s.lock, Done(op, Busy)))
    case WrLock => s.lock.CanWrite() && s' == s.At(t, s.lock.Write(t), Done(op, Ok))
    case TryWrLock =>
      if s.lock.CanWrite() then s' == s.At(t, s.lock.Write(t), Done(op, Ok))
      else s' == s.At(t, s.lock, Done(op, Busy))
    case Unlock => s' == s.At(t, s.lock.Unlock(t), Done(op, Ok))
  }

  /** Only holders call unlock. */
  ghost predicate PosixStep(s: Posix, s': Posix, l: Label) {
    && l.t < |s.pc|
    && match l
       case Call(t, op) =>
         s.pc[t].Idle? && (op.Unlock? ==> s.lock.Holds(t)) && s' == s.At(t, s.lock, Pending(op))
       case Return(t, op, code) => s.pc[t] == Done(op, code) && s' == s.At(t, s.lock, Idle)
       case Internal(t) => s.pc[t].Pending? && PosixAccess(s, s', t)
  }

  ghost predicate PosixRun(ss: seq<Posix>, ls: seq<Label>, threads: nat) {
    && |ss| == |ls| + 1
    && ss[0] == PosixInit(threads)
    && forall i :: 0 <= i < |ls| ==> PosixStep(ss[i], ss[i + 1], ls[i])
  }

  // ----- the Windows branch

  datatype Pc =
    | Outside
    | Entered(op: Op)      // before the first shared access of the operation
    | SetFlag(op: Op)      // exclusive lock taken, the flag not yet set
    | ClearFlag            // unlock read the flag as set
    | ReleaseExclusive     // flag cleared, lock still held
    | ReleaseShared        // unlock read the flag as clear
    | Returning(op: Op, code: Code)

  /** `misused` records a release call made by a thread that does not hold the lock that way. */
  datatype Native = Native(srw: Lock, haveExclusive: bool, misused: bool, pc: seq<Pc>) {
    function Goto(t: Tid, pc': Pc): Native
      requires t < |pc|
    {
      this.(pc := pc[t := pc'])
    }

    ghost predicate ExclusiveWaiter() {
      !srw.CanWrite() && exists w: nat :: w < |pc| && pc[w] == Entered(WrLock)
    }

    function ReleasedExclusive(t: Tid): Native {
      if srw.writer == Some(t) then this.(srw := srw.(writer := None)) else this.(misused := true)
    }

    function ReleasedShared(t: Tid): Native {
      if t in srw.readers then this.(srw := srw.(readers := srw.readers - multiset{t}))
      else this.(misused := true)
    }
  }

  function NativeInit(threads: nat): Native {
    Native(FREE, false, false, seq(threads, _ => Outside))
  }

  /** The first shared access of each operation. */
  ghost predicate FirstAccess(s: Native, s': Native, t: Tid)
    requires t < |s.pc| && s.pc[t].Entered?
  {
    var op := s.pc[t].op;
    match op
    case RdLock => s.srw.CanRead() && s' == s.(srw := s.srw.Read(t)).Goto(t, Returning(op, Ok))
    case TryRdLock =>
      || (s.srw.CanRead() && s' == s.(srw := s.srw.Read(t)).Goto(t, Returning(op, Ok)))
      || ((!s.srw.CanRead() || s.ExclusiveWaiter()) && s' == s.Goto(t, Returning(op, Busy)))
    case WrLock => s.srw.CanWrite() && s' == s.(srw := s.srw.Write(t)).Goto(t, SetFlag(op))
    case TryWrLock =>
      if s.srw.CanWrite() then s' == s.(srw := s.srw.Write(t)).Goto(t, SetFlag(op))
      else s' == s.Goto(t, Returning(op, Busy))
    case Unlock => s' == s.Goto(t, if s.haveExclusive then ClearFlag else ReleaseShared)
  }

  ghost predicate Access(s: Native, s': Native, t: Tid)
    requires t < |s.pc|
  {
    match s.pc[t]
    case Outside => false
    case Returning(_, _) => false
    case Entered(_) => FirstAccess(s, s', t)
    case SetFlag(op) => s' == s.(haveExclusive := true).Goto(t, Returning(op, Ok))
    case ClearFlag => s' == s.(haveExclusive := false).Goto(t, ReleaseExclusive)
    case ReleaseExclusive => s' == s.ReleasedExclusive(t).Goto(t, Returning(Unlock, Ok))
    case ReleaseShared => s' == s.ReleasedShared(t).Goto(t, Returning(Unlock, Ok))
  }

  ghost predicate NativeStep(s: Native, s': Native, l: Label) {
    && l.t < |s.pc|
    && match l
       case Call(t, op) =>
         s.pc[t].Outside? && (op.Unlock? ==> s.srw.Holds(t)) && s' == s.Goto(t, Entered(op))
       case Return(t, op, code) => s.pc[t] == Returning(op, code) && s' == s.Goto(t, Outside)
       case Internal(t) => Access(s, s', t)
  }

  ghost predicate NativeRun(ss: seq<Native>, ls: seq<Label>, threads: nat) {
    && |ss| == |ls| + 1
    && ss[0] == NativeInit(threads)
    && forall i :: 0 <= i < |ls| ==> NativeStep(ss[i], ss[i + 1], ls[i])
  }

  // ----- the flag is right whenever it is read

  /** The exclusive owner has the flag clear only just after taking and just before giving up the lock. */
  predicate OwnerHasFlagClear(pc: Pc) {
    pc.SetFlag? || pc.ReleaseExclusive?
  }

  ghost predicate ThreadOk(s: Native, t: Tid)
    requires t < |s.pc|
  {
    && (s.pc[t].SetFlag? || s.pc[t].ClearFlag? || s.pc[t].ReleaseExclusive? ==> s.srw.writer == Some(t))
    && (s.pc[t].ReleaseShared? ==> t in s.srw.readers)
    && (s.pc[t] == Entered(Unlock) ==> s.srw.Holds(t))
    && (s.srw.writer == Some(t) ==> s.haveExclusive == !OwnerHasFlagClear(s.pc[t]))
  }

  ghost predicate Invariant(s: Native) {
    && !s.misused
    && s.srw.Exclusive()
    && (s.srw.writer.None? ==> !s.haveExclusive)
    && (s.srw.writer.Some? ==> s.srw.writer.value < |s.pc|)
    && forall t: nat :: t < |s.pc| ==> ThreadOk(s, t)
  }

  /** A step of one thread keeps the others' conditions if it leaves what they rely on. */
  lemma OthersStayOk(s: Native, s': Native, t: Tid)
    requires Invariant(s) && t < |s.pc|
    requires |s'.pc| == |s.pc| && s'.pc == s.pc[t := s'.pc[t]] && ThreadOk(s', t)
    requires s.srw.writer.Some? && s.srw.writer != Some(t) ==>
               s'.srw == s.srw && s'.haveExclusive == s.haveExclusive
    requires s'.srw.writer.Some? ==> s'.srw.writer == s.srw.writer || s'.srw.writer == Some(t)
    requires forall u :: u in s.srw.readers && u != t ==> u in s'.srw.readers
    ensures forall u: nat :: u < |s'.pc| ==> ThreadOk(s', u)
  {
    forall u: nat | u < |s'.pc|
      ensures ThreadOk(s', u)
    {
      assert ThreadOk(s, u);
    }
  }

  lemma FirstAccessKeepsInvariant(s: Native, s': Native, t: Tid)
    requires Invariant(s) && t < |s.pc| && s.pc[t].Entered? && FirstAccess(s, s', t)
    ensures Invariant(s')
  {
    assert ThreadOk(s, t);
    OthersStayOk(s, s', t);
  }

  lemma AccessKeepsInvariant(s: Native, s': Native, t: Tid)
    requires Invariant(s) && t < |s.pc| && Access(s, s', t)
    ensures Invariant(s')
  {
    if s.pc[t].Entered? {
      FirstAccessKeepsInvariant(s, s', t);
    } else {
      assert ThreadOk(s, t);
      OthersStayOk(s, s', t);
    }
  }

  lemma StepKeepsInvariant(s: Native, s': Native, l: Label)
    requires Invariant(s) && NativeStep(s, s', l)
    ensures Invariant(s')
  {
    if l.Internal? {
      AccessKeepsInvariant(s, s', l.t);
    } else {
      assert ThreadOk(s, l.t);
      OthersStayOk(s, s', l.t);
    }
  }

  lemma {:induction false} RunKeepsInvariant(ss: seq<Native>, ls: seq<Label>, threads: nat)
    requires NativeRun(ss, ls, threads)
    ensures forall i :: 0 <= i < |ss| ==> Invariant(ss[i])
  {
    if ls != [] {
      var n := |ls| - 1;
      RunKeepsInvariant(ss[..|ls|], ls[..n], threads);
      assert ss[..|ls|][n] == ss[n];
      StepKeepsInvariant(ss[n], ss[n + 1], ls[n]);
      forall i | 0 <= i < |ss|
        ensures Invariant(ss[i])
      {
        assert i < |ls| ==> ss[..|ls|][i] == ss[i];
      }
    }
  }

  /**
    In every interleaving in which only holders unlock, the exclusive release is called by the
    exclusive owner, the shared release by a shared holder, and no writer ever shares the lock.
   */
  lemma EveryReleaseMatches(ss: seq<Native>, ls: seq<Label>, threads: nat, i: nat, t: Tid)
    requires NativeRun(ss, ls, threads) && i < |ss| && t < |ss[i].pc|
    ensures !ss[i].misused && ss[i].srw.Exclusive()
    ensures ss[i].pc[t].ReleaseExclusive? ==> ss[i].srw.writer == Some(t)
    ensures ss[i].pc[t].ReleaseShared? ==> t in ss[i].srw.readers && ss[i].srw.writer == None
  {
    RunKeepsInvariant(ss, ls, threads);
    assert ThreadOk(ss[i], t);
  }

  /** At the moment unlock reads it, the flag says exactly how the caller holds the lock. */
  lemma FlagTellsTheMode(s: Native, t: Tid)
    requires Invariant(s) && t < |s.pc| && s.pc[t] == Entered(Unlock)
    ensures s.haveExclusive <==> s.srw.writer == Some(t)
    ensures !s.haveExclusive <==> t in s.srw.readers
  {
    assert ThreadOk(s, t);
    if s.srw.writer.Some? {
      assert s.srw.writer == Some(t);
    }
  }

  /**
    The unsynchronised flag is free of races: while the next access of one thread sets or clears it,
    that of no other sets, clears or reads it.
   */
  lemma FlagIsRaceFree(ss: seq<Native>, ls: seq<Label>, threads: nat, i: nat, t: Tid, u: Tid)
    requires NativeRun(ss, ls, threads) && i < |ss|
    requires t < |ss[i].pc| && u < |ss[i].pc| && t != u
    ensures ss[i].pc[t].SetFlag? || ss[i].pc[t].ClearFlag? ==>
              !ss[i].pc[u].SetFlag? && !ss[i].pc[u].ClearFlag? && ss[i].pc[u] != Entered(Unlock)
  {
    RunKeepsInvariant(ss, ls, threads);
    assert ThreadOk(ss[i], t) && ThreadOk(ss[i], u);
  }

  // ----- the Windows branch refines the pthread branch

  function AbsPc(pc: Pc): PosixPc {
    match pc
    case Outside => Idle
    case Entered(op) => Pending(op)
    case SetFlag(op) => Done(op, Ok)
    case ClearFlag => Pending(Unlock)
    case ReleaseExclusive => Pending(Unlock)
    case ReleaseShared => Pending(Unlock)
    case Returning(op, code) => Done(op, code)
  }

  function Abs(s: Native): Posix {
    Posix(s.srw, seq(|s.pc|, i requires 0 <= i < |s.pc| => AbsPc(s.pc[i])))
  }

  lemma AbsGoto(s: Native, t: Tid, pc': Pc)
    requires t < |s.pc|
    ensures Abs(s.Goto(t, pc')) == Abs(s).At(t, s.srw, AbsPc(pc'))
  {
  }

  lemma FirstAccessRefines(s: Native, s': Native, t: Tid)
    requires Invariant(s) && t < |s.pc| && s.pc[t].Entered? && FirstAccess(s, s', t)
    ensures if s.pc[t].op.Unlock? then Abs(s) == Abs(s') else PosixAccess(Abs(s), Abs(s'), t)
  {
    AbsGoto(s.(srw := s'.srw), t, s'.pc[t]);
    if s.ExclusiveWaiter() {
      var w: nat :| w < |s.pc| && s.pc[w] == Entered(WrLock);
      assert Abs(s).pc[w] == Pending(WrLock);
    }
  }

  lemma LaterAccessRefines(s: Native, s': Native, t: Tid)
    requires Invariant(s) && t < |s.pc| && !s.pc[t].Entered? && Access(s, s', t)
    ensures if s.pc[t].ReleaseExclusive? || s.pc[t].ReleaseShared? then PosixAccess(Abs(s), Abs(s'), t)
            else Abs(s) == Abs(s')
  {
    assert ThreadOk(s, t);
    AbsGoto(s.(srw := s'.srw), t, s'.pc[t]);
  }

  /** Every step of the Windows branch is a step of the POSIX lock with the same label, or none at all. */
  lemma StepRefines(s: Native, s': Native, l: Label)
    requires Invariant(s) && NativeStep(s, s', l)
    ensures PosixStep(Abs(s), Abs(s'), l) || (l.Internal? && Abs(s) == Abs(s'))
  {
    if !l.Internal? {
      AbsGoto(s, l.t, s'.pc[l.t]);
    } else if s.pc[l.t].Entered? {
      FirstAccessRefines(s, s', l.t);
    } else {
      LaterAccessRefines(s, s', l.t);
    }
  }

  lemma {:induction false} NativeRunRefines(ss: seq<Native>, ls: seq<Label>, threads: nat)
      returns (ps: seq<Posix>, pls: seq<Label>)
    requires NativeRun(ss, ls, threads)
    ensures PosixRun(ps, pls, threads) && Trace(pls) == Trace(ls)
    ensures ps[|pls|] == Abs(ss[|ls|])
  {
    if ls == [] {
      ps, pls := [PosixInit(threads)], [];
      assert Abs(ss[0]).pc == PosixInit(threads).pc;
    } else {
      var n := |ls| - 1;
      ps, pls := NativeRunRefines(ss[..|ls|], ls[..n], threads);
      RunKeepsInvariant(ss, ls, threads);
      assert ss[..|ls|][n] == ss[n];
      StepRefines(ss[n], ss[n + 1], ls[n]);
      if PosixStep(Abs(ss[n]), Abs(ss[n + 1]), ls[n]) {
        ps, pls := ps + [Abs(ss[n + 1])], pls + [ls[n]];
        assert pls[..|pls| - 1] + [ls[n]] == pls;
      }
    }
  }

  // ----- and the pthread branch refines the Windows branch

  /** No thread is between two shared accesses of one operation. */
  predicate Quiet(s: Native) {
    forall t :: 0 <= t < |s.pc| ==> s.pc[t].Outside? || s.pc[t].Entered? || s.pc[t].Returning?
  }

  function Conc(pc: PosixPc): Pc {
    match pc
    case Idle => Outside
    case Pending(op) => Entered(op)
    case Done(op, code) => Returning(op, code)
  }

  /** Accesses of one thread, back to back. */
  ghost predicate Path(path: seq<Native>, t: Tid) {
    && path != []
    && forall i :: 0 <= i < |path| - 1 ==> NativeStep(path[i], path[i + 1], Internal(t))
  }

  lemma UnlockRealised(s: Native, a': Posix, t: Tid) returns (path: seq<Native>)
    requires Invariant(s) && Quiet(s) && t < |s.pc|
    requires s.pc[t] == Entered(Unlock) && PosixAccess(Abs(s), a', t)
    ensures Path(path, t) && path[0] == s && Quiet(path[|path| - 1]) && Abs(path[|path| - 1]) == a'
  {
    assert ThreadOk(s, t);
    var s1 := s.Goto(t, if s.haveExclusive then ClearFlag else ReleaseShared);
    assert NativeStep(s, s1, Internal(t));
    var s';
    if s.haveExclusive {
      var s2 := s1.(haveExclusive := false).Goto(t, ReleaseExclusive);
      assert NativeStep(s1, s2, Internal(t));
      s' := s2.ReleasedExclusive(t).Goto(t, Returning(Unlock, Ok));
      assert NativeStep(s2, s', Internal(t));
      path := [s, s1, s2, s'];
    } else {
      s' := s1.ReleasedShared(t).Goto(t, Returning(Unlock, Ok));
      assert NativeStep(s1, s', Internal(t));
      path := [s, s1, s'];
    }
    AbsGoto(s.(srw := s'.srw), t, s'.pc[t]);
  }

  lemma WriteRealised(s: Native, a': Posix, t: Tid) returns (path: seq<Native>)
    requires Invariant(s) && Quiet(s) && t < |s.pc|
    requires s.pc[t] == Entered(WrLock) || s.pc[t] == Entered(TryWrLock)
    requires s.srw.CanWrite() && PosixAccess(Abs(s), a', t)
    ensures Path(path, t) && path[0] == s && Quiet(path[|path| - 1]) && Abs(path[|path| - 1]) == a'
  {
    var op := s.pc[t].op;
    var s1 := s.(srw := s.srw.Write(t)).Goto(t, SetFlag(op));
    assert NativeStep(s, s1, Internal(t));
    var s' := s1.(haveExclusive := true).Goto(t, Returning(op, Ok));
    assert NativeStep(s1, s', Internal(t));
    path := [s, s1, s'];
    AbsGoto(s.(srw := s'.srw), t, s'.pc[t]);
  }

  /** A granted read lock and a refused try-lock are single accesses in both branches. */
  lemma SingleAccessRealised(s: Native, a': Posix, t: Tid) returns (path: seq<Native>)
    requires Invariant(s) && Quiet(s) && t < |s.pc|
    requires s.pc[t] == Entered(RdLock) || s.pc[t] == Entered(TryRdLock)
             || (s.pc[t] == Entered(TryWrLock) && !s.srw.CanWrite())
    requires PosixAccess(Abs(s), a', t)
    ensures Path(path, t) && path[0] == s && Quiet(path[|path| - 1]) && Abs(path[|path| - 1]) == a'
  {
    var s' := s.(srw := a'.lock).Goto(t, Conc(a'.pc[t]));
    if Abs(s).WriterBlocked() {
      var w: nat :| w < |s.pc| && Abs(s).pc[w] == Pending(WrLock);
      assert s.pc[w] == Entered(WrLock);
    }
    assert FirstAccess(s, s', t);
    path := [s, s'];
    AbsGoto(s.(srw := s'.srw), t, s'.pc[t]);
  }

  /** One step of the POSIX lock is matched by running the same operation's accesses back to back. */
  lemma StepRealised(s: Native, a': Posix, l: Label) returns (path: seq<Native>)
    requires Invariant(s) && Quiet(s) && PosixStep(Abs(s), a', l)
    ensures path != [] && path[0] == s && Quiet(path[|path| - 1]) && Abs(path[|path| - 1]) == a'
    ensures if l.Internal? then Path(path, l.t) else |path| == 2 && NativeStep(path[0], path[1], l)
  {
    if !l.Internal? {
      var s' := s.Goto(l.t, Conc(a'.pc[l.t]));
      AbsGoto(s, l.t, s'.pc[l.t]);
      path := [s, s'];
    } else if s.pc[l.t] == Entered(Unlock) {
      path := UnlockRealised(s, a', l.t);
    } else if (s.pc[l.t] == Entered(WrLock) || s.pc[l.t] == Entered(TryWrLock)) && s.srw.CanWrite() {
      path := WriteRealised(s, a', l.t);
    } else {
      path := SingleAccessRealised(s, a', l.t);
    }
  }

  lemma StepExtendsRun(ss: seq<Native>, ls: seq<Label>, threads: nat, s': Native, l: Label)
    requires NativeRun(ss, ls, threads) && NativeStep(ss[|ls|], s', l)
    ensures NativeRun(ss + [s'], ls + [l], threads)
    ensures Trace(ls + [l]) == if l.Internal? then Trace(ls) else Trace(ls) + [l]
  {
    assert (ls + [l])[..|ls|] == ls;
  }

  lemma {:induction false} PathExtendsRun(ss: seq<Native>, ls: seq<Label>, threads: nat, path: seq<Native>, t: Tid)
      returns (ss': seq<Native>, ls': seq<Label>)
    requires NativeRun(ss, ls, threads) && Path(path, t) && path[0] == ss[|ls|]
    ensures NativeRun(ss', ls', threads) && ss'[|ls'|] == path[|path| - 1]
    ensures Trace(ls') == Trace(ls)
    decreases |path|
  {
    if |path| == 1 {
      ss', ls' := ss, ls;
    } else {
      var l := Internal(t);
      StepExtendsRun(ss, ls, threads, path[1], l);
      ss', ls' := PathExtendsRun(ss + [path[1]], ls + [l], threads, path[1..], t);
    }
  }

  lemma {:induction false} PosixRunRealised(ps: seq<Posix>, pls: seq<Label>, threads: nat)
      returns (ss: seq<Native>, ls: seq<Label>)
    requires PosixRun(ps, pls, threads)
    ensures NativeRun(ss, ls, threads) && Trace(ls) == Trace(pls)
    ensures Quiet(ss[|ls|]) && Abs(ss[|ls|]) == ps[|pls|]
  {
    if pls == [] {
      ss, ls := [NativeInit(threads)], [];
      assert Abs(ss[0]).pc == ps[0].pc;
    } else {
      var n := |pls| - 1;
      ss, ls := PosixRunRealised(ps[..|pls|], pls[..n], threads);
      RunKeepsInvariant(ss, ls, threads);
      var path := StepRealised(ss[|ls|], ps[n + 1], pls[n]);
      if pls[n].Internal? {
        ss, ls := PathExtendsRun(ss, ls, threads, path, pls[n].t);
      } else {
        StepExtendsRun(ss, ls, threads, path[1], pls[n]);
        ss, ls := ss + [path[1]], ls + [pls[n]];
      }
    }
  }

  ghost predicate NativeTrace(tr: seq<Label>, threads: nat) {
    exists ss, ls :: NativeRun(ss, ls, threads) && Trace(ls) == tr
  }

  ghost predicate PosixTrace(tr: seq<Label>, threads: nat) {
    exists ss, ls :: PosixRun(ss, ls, threads) && Trace(ls) == tr
  }

  /**
    Callers cannot tell the two branches apart: the calls, returns and returned codes that the
    SRWLOCK with its flag can produce are exactly those of the POSIX lock.
   */
  lemma BranchesAreIndistinguishable(tr: seq<Label>, threads: nat)
    ensures NativeTrace(tr, threads) <==> PosixTrace(tr, threads)
  {
    if NativeTrace(tr, threads) {
      var ss, ls :| NativeRun(ss, ls, threads) && Trace(ls) == tr;
      var ps, pls := NativeRunRefines(ss, ls, threads);
    }
    if PosixTrace(tr, threads) {
      var ps, pls :| PosixRun(ps, pls, threads) && Trace(pls) == tr;
      var ss, ls := PosixRunRealised(ps, pls, threads);
    }
  }

  // ----- the functions themselves, run without interleaving

  /**
    The two fields and the operations in source order, one thread at a time.  A blocking
    operation is entered when it will not block, since otherwise it does not return.
   */
  class NativeRwLock {
    var srwlock: Lock
    var haveExclusiveSrwlock: bool

    ghost predicate Valid()
      reads this
    {
      srwlock.Exclusive() && haveExclusiveSrwlock == srwlock.writer.Some?
    }

    constructor ()
      ensures Valid() && srwlock == FREE
    {
      srwlock := FREE;
      haveExclusiveSrwlock := false;
    }

    method RdLock(t: Tid) returns (code: Code)
      requires Valid() && srwlock.CanRead()
      modifies this
      ensures Valid() && code == Ok && srwlock == old(srwlock).Read(t)
    {
      srwlock := srwlock.Read(t);
      return Ok;
    }

    method TryRdLock(t: Tid) returns (code: Code)
      requires Valid()
      modifies this
      ensures Valid() && (code == Ok <==> old(srwlock).CanRead())
      ensures srwlock == if code == Ok then old(srwlock).Read(t) else old(srwlock)
    {
      if !srwlock.CanRead() {
        return Busy;
      }
      srwlock := srwlock.Read(t);
      return Ok;
    }

    method WrLock(t: Tid) returns (code: Code)
      requires Valid() && srwlock.CanWrite()
      modifies this
      ensures Valid() && code == Ok && srwlock == old(srwlock).Write(t)
    {
      srwlock := srwlock.Write(t);
      haveExclusiveSrwlock := true;
      return Ok;
    }

    method TryWrLock(t: Tid) returns (code: Code)
      requires Valid()
      modifies this
      ensures Valid() && (code == Ok <==> old(srwlock).CanWrite())
      ensures srwlock == if code == Ok then old(srwlock).Write(t) else old(srwlock)
    {
      if !srwlock.CanWrite() {
        return Busy;
      }
      srwlock := srwlock.Write(t);
      haveExclusiveSrwlock := true;
      return Ok;
    }

    /** The flag picks the release call; the lock ends up as if its owner had been looked up. */
    method Unlock(t: Tid) returns (code: Code)
      requires Valid() && srwlock.Holds(t)
      modifies this
      ensures Valid() && code == Ok && srwlock == old(srwlock).Unlock(t)
      ensures srwlock.readers == if haveExclusiveSrwlock == old(haveExclusiveSrwlock)
                                 then old(srwlock.readers) - multiset{t} else multiset{}
    {
      if haveExclusiveSrwlock {
        haveExclusiveSrwlock := false;
        srwlock := srwlock.(writer := None);
      } else {
        srwlock := srwlock.(readers := srwlock.readers - multiset{t});
      }
      return Ok;
    }
  }
}
