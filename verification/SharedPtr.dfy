/**
  `shared_ptr` and `weak_ptr`: one object, its control block and any number of tasks that copy,
  destroy and lock pointers to it, interleaved one atomic access at a time.

  An id stands for one pointer, wherever it is stored: swapping pointers moves ids about, and
  assignment and `reset` are a copy, a swap and a destruction.  A destructor that runs calls of its
  own is more tasks.
 */
module SharedPtrs {
  type Id = nat
  type Task = nat

  // ----- 32-bit counters

  const MIN32: int := -0x8000_0000
  const MAX32: int := 0x7fff_ffff
  const RANGE: int := 0x1_0000_0000

  function Inc(x: int): int {
    if x == MAX32 then MIN32 else x + 1
  }

  function Dec(x: int): int {
    if x == MIN32 then MAX32 else x - 1
  }

  /** What a counter holds that should hold `n`. */
  function Signed(n: nat): int {
    if n <= MAX32 then n else n - RANGE
  }

  // ----- states and steps

  /** `Swapping` has read the reference count and is about to compare and swap. */
  datatype Pc =
    | Idle
    | DeletingObject
    | InDestructor
    | DroppingWeak
    | DeletingBlock
    | Loading(src: Id)
    | Swapping(src: Id, seen: int)

  /** `owners` and `observers` are the shared and the weak pointers that exist. */
  datatype State = State(refcount: int, weakCount: int, owners: set<Id>, observers: set<Id>,
                         objectDeletes: nat, blockDeletes: nat, pc: seq<Pc>)

  datatype Event =
    | CopyShared(src: Id, id: Id)
    | DropShared(t: Task, id: Id)
    | BeginDelete(t: Task)
    | EndDelete(t: Task)
    | DropLast(t: Task)
    | DeleteBlock(t: Task)
    | Observe(src: Id, id: Id)
    | CopyWeak(src: Id, id: Id)
    | DropWeak(t: Task, id: Id)
    | BeginLock(t: Task, src: Id)
    | Load(t: Task)
    | CompareAndSwap(t: Task, id: Id)

  /** A new shared pointer from a raw one. */
  function Init(tasks: nat): State {
    State(1, 1, {0}, {}, 0, 0, seq(tasks, _ => Idle))
  }

  predicate At(s: State, t: Task, pc: Pc) {
    t < |s.pc| && s.pc[t] == pc
  }

  predicate New(s: State, id: Id) {
    id !in s.owners && id !in s.observers
  }

  /** Is somebody locking through this weak pointer? */
  predicate InUse(s: State, id: Id) {
    exists t :: 0 <= t < |s.pc| && (s.pc[t].Loading? || s.pc[t].Swapping?) && s.pc[t].src == id
  }

  /**
    A task may use a pointer only while it exists, and nobody destroys one that is being used:
    that is all that is asked of callers.
   */
  predicate Enabled(s: State, e: Event) {
    match e
    case CopyShared(src, id) => src in s.owners && New(s, id)
    case DropShared(t, id) => At(s, t, Idle) && id in s.owners
    case BeginDelete(t) => At(s, t, DeletingObject)
    case EndDelete(t) => At(s, t, InDestructor)
    case DropLast(t) => At(s, t, DroppingWeak)
    case DeleteBlock(t) => At(s, t, DeletingBlock)
    case Observe(src, id) => src in s.owners && New(s, id)
    case CopyWeak(src, id) => src in s.observers && New(s, id)
    case DropWeak(t, id) => At(s, t, Idle) && id in s.observers && !InUse(s, id)
    case BeginLock(t, src) => At(s, t, Idle) && src in s.observers
    case Load(t) => t < |s.pc| && s.pc[t].Loading?
    case CompareAndSwap(t, id) => t < |s.pc| && s.pc[t].Swapping? && New(s, id)
  }

  function Step(s: State, e: Event): State
    requires Enabled(s, e)
  {
    match e
    case CopyShared(_, id) => s.(refcount := Inc(s.refcount), owners := s.owners + {id})
    case DropShared(t, id) =>
      var n := Dec(s.refcount);
      s.(refcount := n, owners := s.owners - {id}, pc := s.pc[t := if n == 0 then DeletingObject else Idle])
    case BeginDelete(t) => s.(objectDeletes := s.objectDeletes + 1, pc := s.pc[t := InDestructor])
    case EndDelete(t) => s.(pc := s.pc[t := DroppingWeak])
    case DropLast(t) => DecWeak(s, t)
    case DeleteBlock(t) => s.(blockDeletes := s.blockDeletes + 1, pc := s.pc[t := Idle])
    case Observe(_, id) => s.(weakCount := Inc(s.weakCount), observers := s.observers + {id})
    case CopyWeak(_, id) => s.(weakCount := Inc(s.weakCount), observers := s.observers + {id})
    case DropWeak(t, id) => DecWeak(s.(observers := s.observers - {id}), t)
    case BeginLock(t, src) => s.(pc := s.pc[t := Loading(src)])
    case Load(t) =>
      s.(pc := s.pc[t := if s.refcount == 0 then Idle else Swapping(s.pc[t].src, s.refcount)])
    case CompareAndSwap(t, id) =>
      var Swapping(src, seen) := s.pc[t];
      if s.refcount != seen then s.(pc := s.pc[t := Loading(src)])
      else s.(refcount := Inc(seen), owners := if seen > 0 then s.owners + {id} else s.owners, pc := s.pc[t := Idle])
  }

  function DecWeak(s: State, t: Task): State
    requires t < |s.pc|
  {
    var n := Dec(s.weakCount);
    s.(weakCount := n, pc := s.pc[t := if n == 0 then DeletingBlock else Idle])
  }

  ghost predicate Run(ss: seq<State>, es: seq<Event>, tasks: nat) {
    && |ss| == |es| + 1 && ss[0] == Init(tasks)
    && forall i :: 0 <= i < |es| ==> Enabled(ss[i], es[i]) && ss[i + 1] == Step(ss[i], es[i])
  }

  // ----- how far the counters reach

  predicate StillHolds(pc: Pc) {
    pc.DeletingObject? || pc.InDestructor? || pc.DroppingWeak?
  }

  /** The owners have their share in the weak count until the one that deleted the object gives it back. */
  ghost function PlusOne(s: State): nat {
    if s.owners != {} || exists t :: 0 <= t < |s.pc| && StillHolds(s.pc[t]) then 1 else 0
  }

  /**
    The copy does not wrap the count to zero, and nothing is locked that has 2^31 owners, when the
    count is negative and `lock` takes it for zero after it has incremented it.
   */
  ghost predicate Fits(s: State, e: Event) {
    match e
    case CopyShared(_, _) => |s.owners| + 1 < RANGE
    case Observe(_, _) => |s.observers| + PlusOne(s) + 1 < RANGE
    case CopyWeak(_, _) => |s.observers| + PlusOne(s) + 1 < RANGE
    case CompareAndSwap(t, _) =>
      t < |s.pc| && s.pc[t].Swapping? && s.pc[t].seen == s.refcount ==> |s.owners| <= MAX32
    case _ => true
  }

  ghost predicate AllFit(ss: seq<State>, es: seq<Event>) {
    |ss| == |es| + 1 && forall i :: 0 <= i < |es| ==> Fits(ss[i], es[i])
  }

  // ----- the invariant

  /** Tasks that still have to delete something. */
  predicate Ends(pc: Pc) {
    pc.DeletingObject? || pc.InDestructor? || pc.DroppingWeak? || pc.DeletingBlock?
  }

  /** The weak count holds the number of weak pointers plus `extra`, which the owners have together. */
  predicate Weak(s: State, extra: nat) {
    |s.observers| + extra < RANGE && s.weakCount == Signed(|s.observers| + extra)
  }

  ghost predicate TaskOk(s: State, pc: Pc) {
    match pc
    case Idle => true
    case DeletingObject => s.owners == {} && s.objectDeletes == 0 && s.blockDeletes == 0 && Weak(s, 1)
    case InDestructor => s.owners == {} && s.objectDeletes == 1 && s.blockDeletes == 0 && Weak(s, 1)
    case DroppingWeak => s.owners == {} && s.objectDeletes == 1 && s.blockDeletes == 0 && Weak(s, 1)
    case DeletingBlock =>
      s.owners == {} && s.observers == {} && s.objectDeletes == 1 && s.blockDeletes == 0 && Weak(s, 0)
    case Loading(src) => src in s.observers
    case Swapping(src, seen) => src in s.observers && seen != 0
  }

  ghost predicate NobodyEnds(s: State) {
    forall t :: 0 <= t < |s.pc| ==> !Ends(s.pc[t])
  }

  ghost predicate Invariant(s: State) {
    && |s.owners| < RANGE && s.refcount == Signed(|s.owners|)
    && (forall t :: 0 <= t < |s.pc| ==> TaskOk(s, s.pc[t]))
    && (forall t, u :: 0 <= t < |s.pc| && 0 <= u < |s.pc| && Ends(s.pc[t]) && Ends(s.pc[u]) ==> t == u)
    && (s.owners != {} ==> NobodyEnds(s) && s.objectDeletes == 0 && s.blockDeletes == 0 && Weak(s, 1))
    && (s.owners == {} && NobodyEnds(s) ==>
          s.objectDeletes == 1 && Weak(s, 0) && s.blockDeletes == if s.observers == {} then 1 else 0)
  }

  lemma InitIsOk(tasks: nat)
    ensures Invariant(Init(tasks))
  {
  }

  lemma CopyKeeps(s: State, e: Event)
    requires Invariant(s) && Enabled(s, e) && Fits(s, e)
    requires e.CopyShared? || e.Observe? || e.CopyWeak?
    ensures Invariant(Step(s, e))
  {
    var s' := Step(s, e);
    assert forall t :: 0 <= t < |s.pc| ==> TaskOk(s, s.pc[t]);
    forall t | 0 <= t < |s.pc|
      ensures TaskOk(s', s.pc[t])
    {
      assert TaskOk(s, s.pc[t]);
    }
  }

  lemma DropSharedKeeps(s: State, t: Task, id: Id)
    requires Invariant(s) && Enabled(s, DropShared(t, id))
    ensures Invariant(Step(s, DropShared(t, id)))
  {
    var s' := Step(s, DropShared(t, id));
    assert |s'.owners| == |s.owners| - 1;
    assert s'.refcount == 0 <==> s'.owners == {};
    forall u | 0 <= u < |s.pc|
      ensures TaskOk(s', s'.pc[u])
    {
      assert TaskOk(s, s.pc[u]);
    }
    if s'.owners == {} {
      assert Ends(s'.pc[t]);
    }
  }

  lemma DropWeakKeeps(s: State, t: Task, id: Id)
    requires Invariant(s) && Enabled(s, DropWeak(t, id))
    ensures Invariant(Step(s, DropWeak(t, id)))
  {
    var s' := Step(s, DropWeak(t, id));
    assert |s'.observers| == |s.observers| - 1;
    assert s.owners == {} && NobodyEnds(s) && s'.observers == {} ==> Ends(s'.pc[t]);
    forall u | 0 <= u < |s.pc|
      ensures TaskOk(s', s'.pc[u])
    {
      assert TaskOk(s, s.pc[u]);
    }
    if s.owners == {} && !NobodyEnds(s) {
      var u :| 0 <= u < |s.pc| && Ends(s.pc[u]);
      assert TaskOk(s, s.pc[u]) && s'.pc[u] == s.pc[u];
    }
  }

  lemma EndingKeeps(s: State, e: Event)
    requires Invariant(s) && Enabled(s, e)
    requires e.BeginDelete? || e.EndDelete? || e.DropLast? || e.DeleteBlock?
    ensures Invariant(Step(s, e))
  {
    var s' := Step(s, e);
    assert TaskOk(s, s.pc[e.t]) && Ends(s.pc[e.t]);
    forall u | 0 <= u < |s.pc|
      ensures TaskOk(s', s'.pc[u])
      ensures u != e.t ==> !Ends(s'.pc[u])
    {
      assert TaskOk(s, s.pc[u]);
    }
    if e.DropLast? && s.observers != {} {
      assert |s.observers| > 0;
    }
    assert Ends(s'.pc[e.t]) || NobodyEnds(s');
  }

  lemma LockingKeeps(s: State, e: Event)
    requires Invariant(s) && Enabled(s, e) && Fits(s, e)
    requires e.BeginLock? || e.Load? || e.CompareAndSwap?
    ensures Invariant(Step(s, e))
  {
    var s' := Step(s, e);
    assert TaskOk(s, s.pc[e.t]);
    forall u | 0 <= u < |s.pc|
      ensures TaskOk(s', s'.pc[u]) && Ends(s'.pc[u]) == Ends(s.pc[u])
    {
      assert TaskOk(s, s.pc[u]);
    }
  }

  lemma StepKeepsInvariant(s: State, e: Event)
    requires Invariant(s) && Enabled(s, e) && Fits(s, e)
    ensures Invariant(Step(s, e))
  {
    match e
    case CopyShared(_, _) => CopyKeeps(s, e);
    case Observe(_, _) => CopyKeeps(s, e);
    case CopyWeak(_, _) => CopyKeeps(s, e);
    case DropShared(t, id) => DropSharedKeeps(s, t, id);
    case DropWeak(t, id) => DropWeakKeeps(s, t, id);
    case BeginDelete(_) => EndingKeeps(s, e);
    case EndDelete(_) => EndingKeeps(s, e);
    case DropLast(_) => EndingKeeps(s, e);
    case DeleteBlock(_) => EndingKeeps(s, e);
    case _ => LockingKeeps(s, e);
  }

  lemma {:induction false} RunKeepsInvariant(ss: seq<State>, es: seq<Event>, tasks: nat)
    requires Run(ss, es, tasks) && AllFit(ss, es)
    ensures forall i :: 0 <= i < |ss| ==> Invariant(ss[i])
  {
    if es == [] {
      InitIsOk(tasks);
    } else {
      var n := |es| - 1;
      RunKeepsInvariant(ss[..|es|], es[..n], tasks);
      assert ss[..|es|][n] == ss[n];
      StepKeepsInvariant(ss[n], es[n]);
      forall i | 0 <= i < |ss|
        ensures Invariant(ss[i])
      {
        assert i < |es| ==> ss[..|es|][i] == ss[i];
      }
    }
  }

  // ----- what holds in every run

  /** Both counts are what they should be, and zero only when they should be. */
  ghost predicate CountsTell(s: State) {
    && s.refcount == Signed(|s.owners|) && (s.refcount == 0 <==> s.owners == {})
    && s.weakCount == Signed(|s.observers| + PlusOne(s))
    && (s.weakCount == 0 <==> s.observers == {} && PlusOne(s) == 0)
  }

  lemma PlusOneIs(s: State)
    requires Invariant(s)
    ensures Weak(s, PlusOne(s))
  {
    if s.owners == {} && !NobodyEnds(s) {
      var t :| 0 <= t < |s.pc| && Ends(s.pc[t]);
      assert TaskOk(s, s.pc[t]);
      if s.pc[t].DeletingBlock? {
        assert forall u :: 0 <= u < |s.pc| && StillHolds(s.pc[u]) ==> u == t;
      } else {
        assert StillHolds(s.pc[t]);
      }
    }
  }

  lemma InvariantTells(s: State)
    requires Invariant(s)
    ensures CountsTell(s)
  {
    PlusOneIs(s);
  }

  lemma MisfitLies(s: State, e: Event)
    requires Invariant(s) && Enabled(s, e) && !Fits(s, e)
    ensures !CountsTell(Step(s, e))
  {
    PlusOneIs(s);
    var s' := Step(s, e);
    if e.Observe? || e.CopyWeak? {
      assert s'.owners == s.owners && s'.pc == s.pc && |s'.observers| == |s.observers| + 1;
      assert PlusOne(s') == PlusOne(s);
    } else if e.CopyShared? {
      assert |s'.owners| == |s.owners| + 1;
    }
  }

  /**
    In every run the counts are right throughout exactly if each step fits: the weak count has
    one too many as long as there are owners, and until the last of them gives it back.
   */
  lemma {:induction false} CountsAreRightIff(ss: seq<State>, es: seq<Event>, tasks: nat)
    requires Run(ss, es, tasks)
    ensures AllFit(ss, es) <==> forall i :: 0 <= i < |ss| ==> CountsTell(ss[i])
  {
    if AllFit(ss, es) {
      RunKeepsInvariant(ss, es, tasks);
      forall i | 0 <= i < |ss|
        ensures CountsTell(ss[i])
      {
        InvariantTells(ss[i]);
      }
    } else {
      var i := FirstMisfit(ss, es);
      assert ss[..i + 1][i] == ss[i];
      assert Run(ss[..i + 1], es[..i], tasks);
      RunKeepsInvariant(ss[..i + 1], es[..i], tasks);
      assert Invariant(ss[i]) && Enabled(ss[i], es[i]) && ss[i + 1] == Step(ss[i], es[i]);
      MisfitLies(ss[i], es[i]);
      assert !CountsTell(ss[i + 1]);
    }
  }

  lemma {:induction false} FirstMisfit(ss: seq<State>, es: seq<Event>) returns (i: nat)
    requires |ss| == |es| + 1 && !AllFit(ss, es)
    ensures i < |es| && !Fits(ss[i], es[i]) && AllFit(ss[..i + 1], es[..i])
  {
    var n := |es| - 1;
    if AllFit(ss[..|es|], es[..n]) {
      i := n;
      assert ss[..|es|][n] == ss[n];
      assert forall k :: 0 <= k < n ==> Fits(ss[..|es|][k], es[..n][k]);
    } else {
      i := FirstMisfit(ss[..|es|], es[..n]);
      assert ss[..|es|][..i + 1] == ss[..i + 1] && es[..n][..i] == es[..i];
    }
  }

  /**
    In every interleaving the object is deleted once and the control block once: the object is
    gone exactly when no owner is left and nobody is about to delete it, the block exactly when
    nobody owns, observes or is still deleting.
   */
  lemma DeletedExactlyOnce(ss: seq<State>, es: seq<Event>, tasks: nat, i: nat)
    requires Run(ss, es, tasks) && AllFit(ss, es) && i < |ss|
    ensures ss[i].objectDeletes <= 1 && ss[i].blockDeletes <= 1
    ensures ss[i].objectDeletes == 1
            <==> ss[i].owners == {} && forall t :: 0 <= t < |ss[i].pc| ==> !ss[i].pc[t].DeletingObject?
    ensures ss[i].blockDeletes == 1 <==> ss[i].owners == {} && ss[i].observers == {} && NobodyEnds(ss[i])
  {
    RunKeepsInvariant(ss, es, tasks);
    var s := ss[i];
    assert Invariant(s);
    if s.owners == {} && !NobodyEnds(s) {
      var t :| 0 <= t < |s.pc| && Ends(s.pc[t]);
      assert TaskOk(s, s.pc[t]);
      assert forall u :: 0 <= u < |s.pc| && Ends(s.pc[u]) ==> u == t;
    }
  }

  /** Nobody touches a control block that is gone: after its deletion no step is possible at all. */
  lemma BlockIsThere(ss: seq<State>, es: seq<Event>, tasks: nat, i: nat, e: Event)
    requires Run(ss, es, tasks) && AllFit(ss, es) && i < |ss| && Enabled(ss[i], e)
    ensures ss[i].blockDeletes == 0
  {
    RunKeepsInvariant(ss, es, tasks);
    var s := ss[i];
    assert Invariant(s);
    match e
    case BeginDelete(t) => assert TaskOk(s, s.pc[t]);
    case EndDelete(t) => assert TaskOk(s, s.pc[t]);
    case DropLast(t) => assert TaskOk(s, s.pc[t]);
    case DeleteBlock(t) => assert TaskOk(s, s.pc[t]);
    case _ => ObservedBlockIsThere(s, e);
  }

  lemma ObservedBlockIsThere(s: State, e: Event)
    requires Invariant(s) && Enabled(s, e)
    requires !e.BeginDelete? && !e.EndDelete? && !e.DropLast? && !e.DeleteBlock?
    ensures s.blockDeletes == 0
  {
    if e.Load? || e.CompareAndSwap? {
      assert TaskOk(s, s.pc[e.t]);
    }
    assert s.owners != {} || s.observers != {};
    if s.owners == {} && !NobodyEnds(s) {
      var t :| 0 <= t < |s.pc| && Ends(s.pc[t]);
      assert TaskOk(s, s.pc[t]);
    }
  }

  /**
    `lock()` makes an owner exactly if it swaps successfully, and then the object is owned and its
    deletion has not begun; it gives up exactly if nobody owns the object at that moment.
   */
  lemma LockIsSafe(ss: seq<State>, es: seq<Event>, tasks: nat, i: nat)
    requires Run(ss, es, tasks) && AllFit(ss, es) && i < |es|
    ensures es[i].CompareAndSwap? ==>
              (ss[i].refcount == ss[i].pc[es[i].t].seen <==> es[i].id in ss[i + 1].owners)
    ensures es[i].CompareAndSwap? && es[i].id in ss[i + 1].owners ==>
              ss[i].owners != {} && ss[i].objectDeletes == 0 && ss[i + 1].objectDeletes == 0
    ensures es[i].Load? ==> (ss[i + 1].pc[es[i].t].Idle? <==> ss[i].owners == {})
  {
    RunKeepsInvariant(ss, es, tasks);
    assert Invariant(ss[i]) && Fits(ss[i], es[i]);
    if es[i].CompareAndSwap? {
      assert TaskOk(ss[i], ss[i].pc[es[i].t]);
    }
  }

  /** The task is inside `lock()` on the weak pointer `src`. */
  predicate InLock(pc: Pc, src: Id) {
    (pc.Loading? || pc.Swapping?) && pc.src == src
  }

  lemma LockEnds(s: State, e: Event, t: Task, src: Id)
    requires Invariant(s) && Enabled(s, e) && Fits(s, e) && t < |s.pc|
    ensures var s' := Step(s, e);
            && |s'.pc| == |s.pc| && (e == BeginLock(t, src) ==> InLock(s'.pc[t], src))
            && (InLock(s.pc[t], src) && !InLock(s'.pc[t], src) ==>
                  && s'.pc[t].Idle? && (e.Load? || e.CompareAndSwap?)
                  && (e.Load? ==> s.owners == {} && s' == s.(pc := s'.pc))
                  && (e.CompareAndSwap? ==> e.id !in s.owners && s'.owners == s.owners + {e.id}))
  {
    assert TaskOk(s, s.pc[t]);
  }

  /**
    A call of `lock()` that has begun on a weak pointer stays there, whatever the other tasks do,
    until it returns; it returns empty only if nobody owns the object then, and else with a new
    owner.
   */
  lemma LockReturns(ss: seq<State>, es: seq<Event>, tasks: nat, i: nat, t: Task, src: Id)
    requires Run(ss, es, tasks) && AllFit(ss, es) && i < |es| && t < |ss[i].pc|
    ensures t < |ss[i + 1].pc| && (es[i] == BeginLock(t, src) ==> InLock(ss[i + 1].pc[t], src))
    ensures InLock(ss[i].pc[t], src) && !InLock(ss[i + 1].pc[t], src) ==>
              && ss[i + 1].pc[t].Idle?
              && ((ss[i].owners == {} && ss[i + 1] == ss[i].(pc := ss[i + 1].pc))
                  || exists id :: id !in ss[i].owners && ss[i + 1].owners == ss[i].owners + {id})
  {
    RunKeepsInvariant(ss, es, tasks);
    assert Invariant(ss[i]) && Fits(ss[i], es[i]) && Enabled(ss[i], es[i]) && ss[i + 1] == Step(ss[i], es[i]);
    LockEnds(ss[i], es[i], t, src);
  }

  ghost predicate Steps(ss: seq<State>, es: seq<Event>) {
    |ss| == |es| + 1 && forall i :: 0 <= i < |es| ==> Enabled(ss[i], es[i]) && ss[i + 1] == Step(ss[i], es[i])
  }

  /**
    From wherever it stands, even after a failed swap, a call of `lock()` that is left alone ends
    within three accesses, with a new owner exactly if there is one.
   */
  lemma LockFinishes(s: State, t: Task, id: Id) returns (ss: seq<State>, es: seq<Event>)
    requires Invariant(s) && t < |s.pc| && (s.pc[t].Loading? || s.pc[t].Swapping?) && New(s, id) && |s.owners| <= MAX32
    ensures Steps(ss, es) && |es| <= 3 && ss[0] == s
    ensures forall i :: 0 <= i < |es| ==> es[i] in {Load(t), CompareAndSwap(t, id)}
    ensures var s' := ss[|es|];
            s'.pc == s.pc[t := Idle] && s'.owners == (if s.owners == {} then {} else s.owners + {id})
  {
    assert TaskOk(s, s.pc[t]);
    ss, es := [s], [];
    if s.pc[t].Swapping? {
      var v := Step(s, CompareAndSwap(t, id));
      ss, es := [s, v], [CompareAndSwap(t, id)];
      if s.refcount != s.pc[t].seen {
        var vs, more := LockFromLoading(v, t, id);
        ss, es := [s] + vs, es + more;
      }
    } else {
      ss, es := LockFromLoading(s, t, id);
    }
  }

  lemma LockFromLoading(s: State, t: Task, id: Id) returns (ss: seq<State>, es: seq<Event>)
    requires |s.owners| <= MAX32 && s.refcount == Signed(|s.owners|)
    requires t < |s.pc| && s.pc[t].Loading? && New(s, id)
    ensures Steps(ss, es) && |es| <= 2 && ss[0] == s
    ensures forall i :: 0 <= i < |es| ==> es[i] in {Load(t), CompareAndSwap(t, id)}
    ensures var s' := ss[|es|];
            s'.pc == s.pc[t := Idle] && s'.owners == (if s.owners == {} then {} else s.owners + {id})
  {
    var v := Step(s, Load(t));
    ss, es := [s, v], [Load(t)];
    if s.owners != {} {
      assert |s.owners| > 0;
      ss, es := [s, v, Step(v, CompareAndSwap(t, id))], [Load(t), CompareAndSwap(t, id)];
    }
  }

  /** How many steps a task still has to take to delete what it has to. */
  function StepsLeft(pc: Pc): nat {
    match pc
    case DeletingObject => 4
    case InDestructor => 3
    case DroppingWeak => 2
    case DeletingBlock => 1
    case _ => 0
  }

  /**
    The task that took away the last owner deletes the object, waits for its destructor, gives the
    owners' share of the weak count back, and deletes the block if that was the last: it can
    always take its next step, and no other is possible for it.
   */
  lemma DeletionGoesOn(ss: seq<State>, es: seq<Event>, tasks: nat, i: nat, t: Task)
    requires Run(ss, es, tasks) && AllFit(ss, es) && i < |ss| && t < |ss[i].pc| && StepsLeft(ss[i].pc[t]) > 0
    ensures exists e :: Enabled(ss[i], e) && StepsLeft(Step(ss[i], e).pc[t]) < StepsLeft(ss[i].pc[t])
    ensures i < |es| ==> t < |ss[i + 1].pc| && (ss[i + 1].pc[t] == ss[i].pc[t] || Follows(ss[i], ss[i + 1], t))
  {
    RunKeepsInvariant(ss, es, tasks);
    var s := ss[i];
    assert Invariant(s) && TaskOk(s, s.pc[t]);
    var e := NextOf(s.pc[t], t);
    assert Enabled(s, e) && StepsLeft(Step(s, e).pc[t]) < StepsLeft(s.pc[t]);
    if i < |es| {
      assert Enabled(s, es[i]) && ss[i + 1] == Step(s, es[i]);
    }
  }

  function NextOf(pc: Pc, t: Task): Event {
    match pc
    case DeletingObject => BeginDelete(t)
    case InDestructor => EndDelete(t)
    case DroppingWeak => DropLast(t)
    case _ => DeleteBlock(t)
  }

  /** The order of a deletion. */
  predicate Follows(s: State, s': State, t: Task)
    requires t < |s.pc| && t < |s'.pc|
  {
    match s.pc[t]
    case DeletingObject => s'.pc[t] == InDestructor && s'.objectDeletes == s.objectDeletes + 1
    case InDestructor => s'.pc[t] == DroppingWeak && s'.weakCount == s.weakCount
    case DroppingWeak => s'.pc[t] == if s.observers == {} then DeletingBlock else Idle
    case DeletingBlock => s'.pc[t] == Idle && s'.blockDeletes == s.blockDeletes + 1
    case _ => false
  }

  /** Undisturbed, a call of `lock()` takes three steps and returns an owner if there is one. */
  lemma LockUndisturbed(ss: seq<State>, es: seq<Event>, tasks: nat, i: nat, t: Task, src: Id, id: Id)
    requires Run(ss, es, tasks) && AllFit(ss, es) && i + 2 < |es| && ss[i].owners != {}
    requires es[i] == BeginLock(t, src) && es[i + 1] == Load(t) && es[i + 2] == CompareAndSwap(t, id)
    ensures ss[i + 3].owners == ss[i].owners + {id} && ss[i + 3].pc == ss[i].pc
  {
    RunKeepsInvariant(ss, es, tasks);
    assert Invariant(ss[i]) && Invariant(ss[i + 2]) && Fits(ss[i + 2], es[i + 2]);
    assert Enabled(ss[i], es[i]) && Enabled(ss[i + 1], es[i + 1]) && Enabled(ss[i + 2], es[i + 2]);
    assert ss[i + 1] == Step(ss[i], es[i]) && ss[i + 2] == Step(ss[i + 1], es[i + 1]);
    assert ss[i + 3] == Step(ss[i + 2], es[i + 2]);
  }

  /**
    Which pointers exist: those that were copied, observed or locked and not destroyed, each call
    making or destroying its own and no other; and no call moves another task.
   */
  lemma CallsConcernTheirOwn(ss: seq<State>, es: seq<Event>, tasks: nat, i: nat)
    requires Run(ss, es, tasks) && AllFit(ss, es) && i < |es|
    ensures var (s, s', e) := (ss[i], ss[i + 1], es[i]);
            && (e.CopyShared? ==> s'.owners == s.owners + {e.id} && e.id !in s.owners)
            && (e.DropShared? ==> s'.owners == s.owners - {e.id} && e.id in s.owners)
            && (e.Observe? || e.CopyWeak? ==> s'.observers == s.observers + {e.id} && e.id !in s.observers)
            && (e.DropWeak? ==> s'.observers == s.observers - {e.id} && e.id in s.observers)
            && (!e.CopyShared? && !e.DropShared? && !e.CompareAndSwap? ==> s'.owners == s.owners)
            && (!e.Observe? && !e.CopyWeak? && !e.DropWeak? ==> s'.observers == s.observers)
            && (e.CompareAndSwap? ==> s'.owners == s.owners || s'.owners == s.owners + {e.id})
    ensures var (s, s', e) := (ss[i], ss[i + 1], es[i]);
            && |s'.pc| == |s.pc|
            && forall u :: 0 <= u < |s.pc| && s'.pc[u] != s.pc[u] ==>
                 !e.CopyShared? && !e.Observe? && !e.CopyWeak? && e.t == u
  {
    assert Enabled(ss[i], es[i]) && ss[i + 1] == Step(ss[i], es[i]);
  }

  /** An object without an owner never gets one again. */
  lemma {:induction false} ExpiredForEver(ss: seq<State>, es: seq<Event>, tasks: nat, i: nat, j: nat)
    requires Run(ss, es, tasks) && AllFit(ss, es) && i <= j < |ss| && ss[i].owners == {}
    ensures ss[j].owners == {} && ss[j].refcount == 0
    decreases j
  {
    RunKeepsInvariant(ss, es, tasks);
    assert Invariant(ss[j]);
    if i < j {
      ExpiredForEver(ss, es, tasks, i, j - 1);
      assert Invariant(ss[j - 1]) && Enabled(ss[j - 1], es[j - 1]);
      if es[j - 1].CompareAndSwap? {
        assert TaskOk(ss[j - 1], ss[j - 1].pc[es[j - 1].t]);
      }
    }
  }

  // ----- lock() only retries when others got on

  predicate ChangesRefcount(s: State, e: Event)
    requires Enabled(s, e)
  {
    Step(s, e).refcount != s.refcount
  }

  /** A task that is about to swap did load the count that it has seen. */
  lemma {:induction false} SinceLoad(ss: seq<State>, es: seq<Event>, tasks: nat, i: nat, t: Task) returns (k: nat)
    requires Run(ss, es, tasks) && i < |ss| && t < |ss[i].pc| && ss[i].pc[t].Swapping?
    ensures k < i && es[k] == Load(t) && ss[k].refcount == ss[i].pc[t].seen
    decreases i
  {
    if i == 0 {
      assert false;
    }
    k := i - 1;
    assert Enabled(ss[k], es[k]) && ss[i] == Step(ss[k], es[k]);
    if es[k] != Load(t) {
      assert ss[k].pc[t] == ss[i].pc[t];
      k := SinceLoad(ss, es, tasks, k, t);
    }
  }

  lemma {:induction false} SomeStepChanges(ss: seq<State>, es: seq<Event>, k: nat, i: nat) returns (j: nat)
    requires |ss| == |es| + 1 && forall n :: 0 <= n < |es| ==> Enabled(ss[n], es[n]) && ss[n + 1] == Step(ss[n], es[n])
    requires k < i < |ss| && ss[k].refcount != ss[i].refcount
    ensures k <= j < i && Enabled(ss[j], es[j]) && ChangesRefcount(ss[j], es[j])
    decreases i - k
  {
    j := k;
    if ss[k + 1].refcount == ss[k].refcount {
      j := SomeStepChanges(ss, es, k + 1, i);
    } else {
      assert ss[k + 1] == Step(ss[k], es[k]);
    }
  }

  /** If a swap fails, some other pointer was copied, destroyed or locked since the count was read. */
  lemma RetryMeansProgress(ss: seq<State>, es: seq<Event>, tasks: nat, i: nat)
    requires Run(ss, es, tasks) && i < |es| && es[i].CompareAndSwap?
    requires ss[i].refcount != ss[i].pc[es[i].t].seen
    ensures exists k, j :: 0 <= k < j < i && es[k] == Load(es[i].t)
                           && (es[j].CopyShared? || es[j].DropShared? || es[j].CompareAndSwap?)
                           && ss[j + 1].refcount != ss[j].refcount
  {
    assert Enabled(ss[i], es[i]);
    var k := SinceLoad(ss, es, tasks, i, es[i].t);
    var j := SomeStepChanges(ss, es, k, i);
    assert ss[j + 1] == Step(ss[j], es[j]);
    assert Enabled(ss[k], es[k]) && j != k;
  }

  // ----- what a lock beyond the limit does

  ghost predicate RunTo(ss: seq<State>, es: seq<Event>, tasks: nat, s: State) {
    Run(ss, es, tasks) && ss[|es|] == s
  }

  lemma RunExtends(ss: seq<State>, es: seq<Event>, tasks: nat, s: State, e: Event)
      returns (ss': seq<State>, es': seq<Event>)
    requires RunTo(ss, es, tasks, s) && Enabled(s, e)
    ensures RunTo(ss', es', tasks, Step(s, e))
  {
    ss', es' := ss + [Step(s, e)], es + [e];
    forall i | 0 <= i < |es'|
      ensures Enabled(ss'[i], es'[i]) && ss'[i + 1] == Step(ss'[i], es'[i])
    {
      assert ss'[i] == ss[i];
      if i < |es| {
        assert es'[i] == es[i] && ss'[i + 1] == ss[i + 1];
      }
    }
  }

  function Upto(n: nat): (ids: set<Id>)
    ensures |ids| == n && forall k: Id :: k in ids <==> k < n
  {
    if n == 0 then {} else Upto(n - 1) + {n - 1}
  }

  /** One idle task, the owners 0 to n - 1 and as observers `weak`. */
  function Quiet(refcount: int, n: nat, weakCount: int, weak: set<Id>): State {
    State(refcount, weakCount, Upto(n), weak, 0, 0, [Idle])
  }

  lemma QuietStart() returns (ss: seq<State>, es: seq<Event>)
    ensures RunTo(ss, es, 1, Quiet(1, 1, 1, {}))
  {
    ss, es := [Init(1)], [];
    assert Upto(1) == Upto(0) + {0} == {0};
    assert Init(1) == Quiet(1, 1, 1, {});
  }

  lemma OneCopy(ss: seq<State>, es: seq<Event>, n: nat) returns (ss': seq<State>, es': seq<Event>)
    requires 1 <= n < RANGE - 1 && RunTo(ss, es, 1, Quiet(Signed(n), n, 1, {}))
    ensures RunTo(ss', es', 1, Quiet(Signed(n + 1), n + 1, 1, {}))
  {
    var s := Quiet(Signed(n), n, 1, {});
    assert Step(s, CopyShared(0, n)) == Quiet(Signed(n + 1), n + 1, 1, {});
    ss', es' := RunExtends(ss, es, 1, s, CopyShared(0, n));
  }

  lemma OneDrop(ss: seq<State>, es: seq<Event>, n: nat, weak: set<Id>) returns (ss': seq<State>, es': seq<Event>)
    requires n < RANGE - 2 && RunTo(ss, es, 1, Quiet(Signed(n + 2), n + 1, 2, weak))
    ensures RunTo(ss', es', 1, Quiet(Signed(n + 1), n, 2, weak))
  {
    var s := Quiet(Signed(n + 2), n + 1, 2, weak);
    assert Upto(n + 1) - {n} == Upto(n);
    assert Step(s, DropShared(0, n)) == Quiet(Signed(n + 1), n, 2, weak);
    ss', es' := RunExtends(ss, es, 1, s, DropShared(0, n));
  }

  lemma {:induction false} CopiesRun(n: nat) returns (ss: seq<State>, es: seq<Event>)
    requires 1 <= n < RANGE
    ensures RunTo(ss, es, 1, Quiet(Signed(n), n, 1, {}))
  {
    if n == 1 {
      ss, es := QuietStart();
    } else {
      ss, es := CopiesRun(n - 1);
      ss, es := OneCopy(ss, es, n - 1);
    }
  }

  /** The owners go one by one while the count is one too high. */
  lemma {:induction false} DropsRun(ss: seq<State>, es: seq<Event>, n: nat, weak: set<Id>)
      returns (ss': seq<State>, es': seq<Event>)
    requires n < RANGE - 1 && RunTo(ss, es, 1, Quiet(Signed(n + 1), n, 2, weak))
    ensures RunTo(ss', es', 1, Quiet(Signed(1), 0, 2, weak))
    decreases n
  {
    ss', es' := ss, es;
    if n > 0 {
      ss', es' := OneDrop(ss, es, n - 1, weak);
      ss', es' := DropsRun(ss', es', n - 1, weak);
    }
  }

  lemma QuietLock(n: nat)
    requires n == MAX32 + 1
    ensures var s := Quiet(Signed(n), n, 2, {n});
            && Enabled(s, BeginLock(0, n)) && Enabled(Step(s, BeginLock(0, n)), Load(0))
            && var s2 := Step(Step(s, BeginLock(0, n)), Load(0));
               Enabled(s2, CompareAndSwap(0, n + 1))
               && Step(s2, CompareAndSwap(0, n + 1)) == Quiet(Signed(n + 1), n, 2, {n})
  {
    var s := Quiet(Signed(n), n, 2, {n});
    assert Step(Step(s, BeginLock(0, n)), Load(0)) == s.(pc := [Swapping(n, Signed(n))]);
  }

  lemma LockRun(ss: seq<State>, es: seq<Event>, n: nat) returns (ss': seq<State>, es': seq<Event>)
    requires n == MAX32 + 1 && RunTo(ss, es, 1, Quiet(Signed(n), n, 2, {n}))
    ensures RunTo(ss', es', 1, Quiet(Signed(n + 1), n, 2, {n}))
  {
    var s := Quiet(Signed(n), n, 2, {n});
    QuietLock(n);
    ss', es' := RunExtends(ss, es, 1, s, BeginLock(0, n));
    var s1 := Step(s, BeginLock(0, n));
    ss', es' := RunExtends(ss', es', 1, s1, Load(0));
    ss', es' := RunExtends(ss', es', 1, Step(s1, Load(0)), CompareAndSwap(0, n + 1));
  }

  lemma QuietWeak(n: nat)
    requires n == MAX32 + 1
    ensures Step(Quiet(Signed(n), n, 1, {}), Observe(0, n)) == Quiet(Signed(n), n, 2, {n})
    ensures Step(Quiet(1, 0, 2, {n}), DropWeak(0, n)) == Quiet(1, 0, 1, {})
  {
    assert {n} - {n} == {};
  }

  /**
    With 2^31 owners `lock()` comes back empty although the object is there, and leaves the count
    one too high: when all pointers are gone the object is not deleted.
   */
  lemma LockCanLeak()
    ensures exists ss, es :: RunTo(ss, es, 1, Quiet(1, 0, 1, {}))
  {
    var n := MAX32 + 1;
    QuietWeak(n);
    var ss, es := CopiesRun(n);
    ss, es := RunExtends(ss, es, 1, Quiet(Signed(n), n, 1, {}), Observe(0, n));
    ss, es := LockRun(ss, es, n);
    ss, es := DropsRun(ss, es, n, {n});
    ss, es := RunExtends(ss, es, 1, Quiet(1, 0, 2, {n}), DropWeak(0, n));
  }
}
