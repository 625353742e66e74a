/**
  Runs of any number of string fields, arenas and callers over one memory, in any order that
  respects the ownership rules written beside the methods of `ArenaStringPtr`.
 */
module ArenaRuns {
  import opened Options
  import opened ArenaStrings

  /** The address of the shared default string. */
  const DEFAULT: Ptr := 0

  /** `home` is the arena of the field's message; a field is dead once its message is. */
  datatype Field = Field(ptr: Ptr, home: Option<nat>, alive: bool)

  /**
    `callers`: heap strings that user code must free or give away.
    `loose`: arena strings taken out by `UnsafeArenaRelease` and not put back.
    `handles`: addresses that user code was given and may write through.
   */
  datatype World = World(mem: Mem, arenas: seq<seq<Ptr>>, fields: seq<Field>,
                         callers: set<Ptr>, loose: set<Ptr>, handles: set<Ptr>)

  datatype Family = ArenaAware | NoArena

  datatype Op =
    | NewArena
    | Construct(home: Option<nat>)
    | On(i: nat, family: Family, op: FieldOp)
    | Swap(i: nat, j: nat)
    | CallerNew(text: string)
    | CallerDelete(p: Ptr)
    | WriteVia(p: Ptr, text: string)
    | Teardown(a: nat)

  function Init(defaultText: string): World {
    World(Mem(map[DEFAULT := defaultText], 1, multiset{}, {}), [], [], {}, {}, {})
  }

  // ----- which operations the rules allow

  predicate MayApply(w: World, f: Field, family: Family, op: FieldOp) {
    && (family.NoArena? ==> f.home.None? && HasNoArenaTwin(op))
    && match op
       case SetAllocated(Some(p)) => p in w.callers
       case ClearToEmpty => w.mem.Text(DEFAULT) == ""
       case UnsafeArenaSetAllocated(v) =>
         && f.home.Some? && f.home.value < |w.arenas|
         && (v.Some? ==> v.value in w.loose && v.value in w.arenas[f.home.value])
       case _ => true
  }

  predicate Allowed(w: World, op: Op) {
    match op
    case NewArena => true
    case Construct(home) => home.Some? ==> home.value < |w.arenas|
    case On(i, family, fop) => i < |w.fields| && w.fields[i].alive && MayApply(w, w.fields[i], family, fop)
    case Swap(i, j) =>
      && i < |w.fields| && j < |w.fields| && w.fields[i].alive && w.fields[j].alive
      && w.fields[i].home == w.fields[j].home
    case CallerNew(_) => true
    case CallerDelete(p) => p in w.callers
    case WriteVia(p, _) => p in w.handles && p in w.mem.text
    case Teardown(a) => a < |w.arenas|
  }

  // ----- what they do

  function SiteOf(w: World, f: Field): Site {
    Site(w.mem, f.ptr,
         if f.home.Some? && f.home.value < |w.arenas| then Some(w.arenas[f.home.value]) else None)
  }

  /** The field's state and the pointer handed out. */
  function Applied(w: World, f: Field, family: Family, op: FieldOp): (Site, Option<Ptr>)
    requires MayApply(w, f, family, op)
  {
    if family.NoArena? then SiteOf(w, f).ApplyNoArena(DEFAULT, op) else SiteOf(w, f).Apply(DEFAULT, op)
  }

  function Only(p: Option<Ptr>): set<Ptr> {
    if p.Some? then {p.value} else {}
  }

  function AfterOn(w: World, i: nat, family: Family, op: FieldOp): World
    requires i < |w.fields| && MayApply(w, w.fields[i], family, op)
  {
    var f := w.fields[i];
    var (s, out) := Applied(w, f, family, op);
    World(
      s.mem,
      if s.arena.Some? && f.home.Some? && f.home.value < |w.arenas| then w.arenas[f.home.value := s.arena.value]
      else w.arenas,
      w.fields[i := Field(s.ptr, f.home, !op.Destroy?)],
      match op
      case Release => w.callers + Only(out)
      case UnsafeArenaRelease => if f.home.None? then w.callers + Only(out) else w.callers
      case SetAllocated(p) => w.callers - Only(p)
      case _ => w.callers,
      match op
      case UnsafeArenaRelease => if f.home.None? then w.loose else w.loose + Only(out)
      case UnsafeArenaSetAllocated(p) => w.loose - Only(p)
      case _ => w.loose,
      w.handles + Only(out))
  }

  function After(w: World, op: Op): World
    requires Allowed(w, op)
  {
    match op
    case NewArena => w.(arenas := w.arenas + [[]])
    case Construct(home) => w.(fields := w.fields + [Field(DEFAULT, home, true)])
    case On(i, family, fop) => AfterOn(w, i, family, fop)
    case Swap(i, j) =>
      var (f, g) := (w.fields[i], w.fields[j]);
      w.(fields := w.fields[i := f.(ptr := g.ptr)][j := g.(ptr := f.ptr)])
    case CallerNew(text) =>
      w.(mem := w.mem.New(text), callers := w.callers + {w.mem.next}, handles := w.handles + {w.mem.next})
    case CallerDelete(p) => w.(mem := w.mem.Delete(p), callers := w.callers - {p})
    case WriteVia(p, text) => w.(mem := w.mem.Write(p, text))
    case Teardown(a) =>
      w.(mem := w.mem.DeleteAll(w.arenas[a]),
         arenas := w.arenas[a := []],
         fields := seq(|w.fields|, i requires 0 <= i < |w.fields| =>
           if w.fields[i].home == Some(a) then w.fields[i].(alive := false) else w.fields[i]),
         loose := w.loose - (set p | p in w.arenas[a]))
  }

  /** The pointer an operation hands to its caller, or null. */
  function Returned(w: World, op: Op): Option<Ptr>
    requires Allowed(w, op)
  {
    match op
    case On(i, family, fop) => Applied(w, w.fields[i], family, fop).1
    case CallerNew(_) => Some(w.mem.next)
    case _ => None
  }

  ghost predicate Steps(ws: seq<World>, ops: seq<Op>) {
    && |ws| == |ops| + 1
    && forall i :: 0 <= i < |ops| ==> Allowed(ws[i], ops[i]) && ws[i + 1] == After(ws[i], ops[i])
  }

  /** A disciplined run from a memory that holds nothing but the default string. */
  ghost predicate Run(ws: seq<World>, ops: seq<Op>, defaultText: string) {
    Steps(ws, ops) && ws[0] == Init(defaultText)
  }

  // ----- who owns what

  function OwnedBy(f: Field, p: Ptr): nat {
    if f.alive && f.home.None? && f.ptr == p && p != DEFAULT then 1 else 0
  }

  function FieldsOwn(fs: seq<Field>, p: Ptr): nat {
    if fs == [] then 0 else FieldsOwn(fs[..|fs| - 1], p) + OwnedBy(fs[|fs| - 1], p)
  }

  function Entries(ps: seq<Ptr>, p: Ptr): nat {
    if ps == [] then 0 else (if ps[0] == p then 1 else 0) + Entries(ps[1..], p)
  }

  function ArenasOwn(lists: seq<seq<Ptr>>, p: Ptr): nat {
    if lists == [] then 0 else ArenasOwn(lists[..|lists| - 1], p) + Entries(lists[|lists| - 1], p)
  }

  /** How many parties are going to free the string at `p`. */
  function Owners(w: World, p: Ptr): nat {
    FieldsOwn(w.fields, p) + ArenasOwn(w.arenas, p) + if p in w.callers then 1 else 0
  }

  /** Every string ever allocated has been freed once or is waiting for exactly one owner to do it. */
  ghost predicate Conserved(w: World) {
    forall p: Ptr :: Owners(w, p) + w.mem.freed[p] == if 0 < p < w.mem.next then 1 else 0
  }

  ghost predicate TextIsLive(w: World) {
    forall p: Ptr :: p in w.mem.text <==> p == DEFAULT || (p < w.mem.next && w.mem.freed[p] == 0)
  }

  ghost predicate Homed(w: World, f: Field) {
    f.alive && f.home.Some? ==>
      f.home.value < |w.arenas| && (f.ptr == DEFAULT || f.ptr in w.arenas[f.home.value])
  }

  ghost predicate NoSharing(w: World) {
    forall i, j :: 0 <= i < j < |w.fields| && w.fields[i].alive && w.fields[j].alive ==>
      w.fields[i].ptr != w.fields[j].ptr || w.fields[i].ptr == DEFAULT
  }

  ghost predicate LooseOk(w: World) {
    && (forall p: Ptr :: p in w.loose ==> ArenasOwn(w.arenas, p) > 0)
    && (forall p: Ptr, i :: p in w.loose && 0 <= i < |w.fields| && w.fields[i].alive ==> w.fields[i].ptr != p)
  }

  ghost predicate HandlesOk(w: World) {
    forall p: Ptr :: p in w.handles ==> 0 < p < w.mem.next
  }

  ghost predicate Invariant(w: World) {
    && 0 < w.mem.next
    && Conserved(w) && TextIsLive(w) && NoSharing(w) && LooseOk(w) && HandlesOk(w)
    && forall i :: 0 <= i < |w.fields| ==> Homed(w, w.fields[i])
  }

  // ----- ownership sums under single changes

  lemma {:induction false} FieldsOwnAfterUpdate(fs: seq<Field>, i: nat, f: Field, p: Ptr)
    requires i < |fs|
    ensures FieldsOwn(fs[i := f], p) + OwnedBy(fs[i], p) == FieldsOwn(fs, p) + OwnedBy(f, p)
  {
    var n := |fs| - 1;
    if i < n {
      FieldsOwnAfterUpdate(fs[..n], i, f, p);
      assert fs[i := f][..n] == fs[..n][i := f];
    } else {
      assert fs[i := f][..n] == fs[..n];
    }
  }

  lemma {:induction false} ArenasOwnAfterUpdate(lists: seq<seq<Ptr>>, a: nat, ps: seq<Ptr>, p: Ptr)
    requires a < |lists|
    ensures ArenasOwn(lists[a := ps], p) + Entries(lists[a], p) == ArenasOwn(lists, p) + Entries(ps, p)
  {
    var n := |lists| - 1;
    if a < n {
      ArenasOwnAfterUpdate(lists[..n], a, ps, p);
      assert lists[a := ps][..n] == lists[..n][a := ps];
    } else {
      assert lists[a := ps][..n] == lists[..n];
    }
  }

  lemma FieldOwnsItsString(fs: seq<Field>, i: nat, p: Ptr)
    requires i < |fs|
    ensures OwnedBy(fs[i], p) <= FieldsOwn(fs, p)
  {
    FieldsOwnAfterUpdate(fs, i, fs[i].(alive := false), p);
  }

  lemma {:induction false} EntriesCount(ps: seq<Ptr>, p: Ptr)
    ensures Entries(ps, p) > 0 <==> p in ps
  {
    if ps != [] {
      EntriesCount(ps[1..], p);
      assert ps == [ps[0]] + ps[1..];
    }
  }

  lemma ArenaOwnsItsStrings(lists: seq<seq<Ptr>>, a: nat, p: Ptr)
    requires a < |lists|
    ensures Entries(lists[a], p) <= ArenasOwn(lists, p)
    ensures p in lists[a] ==> ArenasOwn(lists, p) > 0
  {
    ArenasOwnAfterUpdate(lists, a, [], p);
    EntriesCount(lists[a], p);
  }

  // ----- the two families agree without an arena

  lemma TwinsAgree(w: World, f: Field, op: FieldOp)
    requires MayApply(w, f, NoArena, op)
    ensures MayApply(w, f, ArenaAware, op)
    ensures Applied(w, f, NoArena, op) == Applied(w, f, ArenaAware, op)
  {
    assert SiteOf(w, f).arena == None;
  }

  // ----- what the invariant says about single strings

  lemma FieldStringIsLive(w: World, i: nat)
    requires Invariant(w) && i < |w.fields| && w.fields[i].alive
    ensures w.fields[i].ptr in w.mem.text && w.fields[i].ptr < w.mem.next
    ensures w.fields[i].ptr !in w.callers
  {
    var f := w.fields[i];
    FieldOwnsItsString(w.fields, i, f.ptr);
    assert Owners(w, f.ptr) + w.mem.freed[f.ptr] == if 0 < f.ptr < w.mem.next then 1 else 0;
    if f.home.Some? && f.ptr != DEFAULT {
      ArenaOwnsItsStrings(w.arenas, f.home.value, f.ptr);
    }
  }

  lemma CallerStringIsLive(w: World, p: Ptr)
    requires Invariant(w) && p in w.callers
    ensures p in w.mem.text && 0 < p < w.mem.next && p !in w.loose
    ensures forall i :: 0 <= i < |w.fields| && w.fields[i].alive ==> w.fields[i].ptr != p
  {
    assert Owners(w, p) + w.mem.freed[p] == if 0 < p < w.mem.next then 1 else 0;
    forall i | 0 <= i < |w.fields| && w.fields[i].alive
      ensures w.fields[i].ptr != p
    {
      FieldStringIsLive(w, i);
    }
  }

  lemma LooseStringIsLive(w: World, p: Ptr)
    requires Invariant(w) && p in w.loose
    ensures p in w.mem.text && 0 < p < w.mem.next
  {
    assert Owners(w, p) + w.mem.freed[p] == if 0 < p < w.mem.next then 1 else 0;
  }

  // ----- every operation on a field keeps the invariant

  lemma HeapFieldConserves(w: World, i: nat, op: FieldOp, p: Ptr)
    requires Invariant(w) && Allowed(w, On(i, ArenaAware, op)) && w.fields[i].home.None?
    ensures var w' := AfterOn(w, i, ArenaAware, op);
            Owners(w', p) + w'.mem.freed[p] == if 0 < p < w'.mem.next then 1 else 0
  {
    var w' := AfterOn(w, i, ArenaAware, op);
    FieldsOwnAfterUpdate(w.fields, i, w'.fields[i], p);
    FieldStringIsLive(w, i);
    assert Owners(w, p) + w.mem.freed[p] == if 0 < p < w.mem.next then 1 else 0;
  }

  /** Does the operation register a string with the field's arena, and which? */
  function Registered(w: World, f: Field, op: FieldOp): Option<Ptr> {
    match op
    case Set(_) => if f.ptr == DEFAULT then Some(w.mem.next) else None
    case Mutable => if f.ptr == DEFAULT then Some(w.mem.next) else None
    case SetAllocated(p) => p
    case _ => None
  }

  lemma ArenaFieldRegisters(w: World, i: nat, op: FieldOp)
    requires Invariant(w) && Allowed(w, On(i, ArenaAware, op)) && w.fields[i].home.Some?
    ensures var a := w.fields[i].home.value;
            var r := Registered(w, w.fields[i], op);
            && a < |w.arenas|
            && AfterOn(w, i, ArenaAware, op).arenas
               == w.arenas[a := (if r.Some? then [r.value] else []) + w.arenas[a]]
    ensures AfterOn(w, i, ArenaAware, op).mem.freed == w.mem.freed
  {
    var a := w.fields[i].home.value;
    assert Homed(w, w.fields[i]);
    assert w.arenas[a := w.arenas[a]] == w.arenas;
    assert [] + w.arenas[a] == w.arenas[a];
  }

  lemma ArenaFieldConserves(w: World, i: nat, op: FieldOp, p: Ptr)
    requires Invariant(w) && Allowed(w, On(i, ArenaAware, op)) && w.fields[i].home.Some?
    ensures var w' := AfterOn(w, i, ArenaAware, op);
            Owners(w', p) + w'.mem.freed[p] == if 0 < p < w'.mem.next then 1 else 0
  {
    var w' := AfterOn(w, i, ArenaAware, op);
    var a := w.fields[i].home.value;
    ArenaFieldRegisters(w, i, op);
    FieldsOwnAfterUpdate(w.fields, i, w'.fields[i], p);
    ArenasOwnAfterUpdate(w.arenas, a, w'.arenas[a], p);
    assert Owners(w, p) + w.mem.freed[p] == if 0 < p < w.mem.next then 1 else 0;
  }

  lemma OnKeepsTextLive(w: World, i: nat, op: FieldOp)
    requires Invariant(w) && Allowed(w, On(i, ArenaAware, op))
    ensures TextIsLive(AfterOn(w, i, ArenaAware, op))
    ensures w.mem.next <= AfterOn(w, i, ArenaAware, op).mem.next
  {
    FieldStringIsLive(w, i);
    var n := w.mem.next;
    assert Owners(w, n) + w.mem.freed[n] == 0;
  }

  /** Where a field's pointer can come from. */
  lemma NewPointer(w: World, i: nat, op: FieldOp)
    requires Invariant(w) && Allowed(w, On(i, ArenaAware, op))
    ensures var p := AfterOn(w, i, ArenaAware, op).fields[i].ptr;
            || p == w.fields[i].ptr || p == DEFAULT || p == w.mem.next
            || (op == FieldOp.SetAllocated(Some(p)) && p in w.callers)
            || (op == FieldOp.UnsafeArenaSetAllocated(Some(p)) && p in w.loose)
  {
  }

  lemma OnKeepsFieldsApart(w: World, i: nat, op: FieldOp)
    requires Invariant(w) && Allowed(w, On(i, ArenaAware, op))
    ensures NoSharing(AfterOn(w, i, ArenaAware, op))
  {
    var w' := AfterOn(w, i, ArenaAware, op);
    var p := w'.fields[i].ptr;
    NewPointer(w, i, op);
    forall j | 0 <= j < |w.fields| && j != i && w.fields[j].alive
      ensures w.fields[j].ptr != p || p == DEFAULT
    {
      FieldStringIsLive(w, j);
      if p in w.callers {
        CallerStringIsLive(w, p);
      }
      assert w.fields[i].ptr == w.fields[j].ptr ==> w.fields[i].ptr == DEFAULT;
    }
  }

  lemma OnKeepsLoose(w: World, i: nat, op: FieldOp)
    requires Invariant(w) && Allowed(w, On(i, ArenaAware, op))
    ensures LooseOk(AfterOn(w, i, ArenaAware, op))
  {
    var w' := AfterOn(w, i, ArenaAware, op);
    var f := w.fields[i];
    NewPointer(w, i, op);
    forall p | p in w'.loose
      ensures ArenasOwn(w'.arenas, p) > 0
      ensures forall j :: 0 <= j < |w.fields| && w'.fields[j].alive ==> w'.fields[j].ptr != p
    {
      if f.home.Some? {
        assert Homed(w, f);
        ArenasOwnAfterUpdate(w.arenas, f.home.value, w'.arenas[f.home.value], p);
        ArenaOwnsItsStrings(w.arenas, f.home.value, p);
      }
      if p in w.loose {
        LooseStringIsLive(w, p);
        if p in w.callers {
          CallerStringIsLive(w, p);
        }
      }
    }
  }

  lemma OnKeepsHomes(w: World, i: nat, op: FieldOp, j: nat)
    requires Invariant(w) && Allowed(w, On(i, ArenaAware, op)) && j < |w.fields|
    ensures Homed(AfterOn(w, i, ArenaAware, op), AfterOn(w, i, ArenaAware, op).fields[j])
  {
    assert Homed(w, w.fields[i]) && Homed(w, w.fields[j]);
  }

  lemma OnKeepsHandles(w: World, i: nat, op: FieldOp)
    requires Invariant(w) && Allowed(w, On(i, ArenaAware, op))
    ensures HandlesOk(AfterOn(w, i, ArenaAware, op))
  {
    FieldStringIsLive(w, i);
  }

  lemma OnKeepsInvariant(w: World, i: nat, family: Family, op: FieldOp)
    requires Invariant(w) && Allowed(w, On(i, family, op))
    ensures Invariant(AfterOn(w, i, family, op))
  {
    if family.NoArena? {
      TwinsAgree(w, w.fields[i], op);
    }
    var w' := AfterOn(w, i, ArenaAware, op);
    assert w' == AfterOn(w, i, family, op);
    forall p: Ptr
      ensures Owners(w', p) + w'.mem.freed[p] == if 0 < p < w'.mem.next then 1 else 0
    {
      if w.fields[i].home.None? {
        HeapFieldConserves(w, i, op, p);
      } else {
        ArenaFieldConserves(w, i, op, p);
      }
    }
    OnKeepsTextLive(w, i, op);
    OnKeepsFieldsApart(w, i, op);
    OnKeepsLoose(w, i, op);
    OnKeepsHandles(w, i, op);
    forall j | 0 <= j < |w'.fields|
      ensures Homed(w', w'.fields[j])
    {
      OnKeepsHomes(w, i, op, j);
    }
  }

  // ----- so does every other operation

  lemma {:induction false} DeleteAllFrees(m: Mem, ps: seq<Ptr>, p: Ptr)
    ensures m.DeleteAll(ps).freed[p] == m.freed[p] + Entries(ps, p)
    ensures m.DeleteAll(ps).next == m.next
    ensures p in m.DeleteAll(ps).text <==> p in m.text && p !in ps
    ensures p in m.DeleteAll(ps).text ==> m.DeleteAll(ps).text[p] == m.text[p]
    ensures m.DeleteAll(ps).written == m.written
    decreases ps
  {
    if ps != [] {
      DeleteAllFrees(m.Delete(ps[0]), ps[1..], p);
      assert ps == [ps[0]] + ps[1..];
    }
  }

  lemma {:induction false} FieldsOwnSame(fs: seq<Field>, gs: seq<Field>, p: Ptr)
    requires |fs| == |gs|
    requires forall i :: 0 <= i < |fs| ==> OwnedBy(fs[i], p) == OwnedBy(gs[i], p)
    ensures FieldsOwn(fs, p) == FieldsOwn(gs, p)
  {
    if fs != [] {
      FieldsOwnSame(fs[..|fs| - 1], gs[..|gs| - 1], p);
    }
  }

  lemma TeardownSettles(w: World, a: nat, p: Ptr)
    requires Invariant(w) && a < |w.arenas|
    ensures var w' := After(w, Teardown(a));
            && w'.mem.next == w.mem.next
            && Owners(w', p) + w'.mem.freed[p] == (if 0 < p < w.mem.next then 1 else 0)
            && (p in w'.mem.text <==> p == DEFAULT || (p < w.mem.next && w'.mem.freed[p] == 0))
            && (p in w'.loose ==> ArenasOwn(w'.arenas, p) > 0)
  {
    var w' := After(w, Teardown(a));
    assert Owners(w, p) + w.mem.freed[p] == if 0 < p < w.mem.next then 1 else 0;
    DeleteAllFrees(w.mem, w.arenas[a], p);
    EntriesCount(w.arenas[a], p);
    ArenasOwnAfterUpdate(w.arenas, a, [], p);
    ArenaOwnsItsStrings(w.arenas, a, p);
    FieldsOwnSame(w.fields, w'.fields, p);
  }

  lemma TeardownKeepsInvariant(w: World, a: nat)
    requires Invariant(w) && a < |w.arenas|
    ensures Invariant(After(w, Teardown(a)))
  {
    var w' := After(w, Teardown(a));
    TeardownSettles(w, a, DEFAULT);
    forall p: Ptr
      ensures Owners(w', p) + w'.mem.freed[p] == if 0 < p < w'.mem.next then 1 else 0
      ensures p in w'.mem.text <==> p == DEFAULT || (p < w'.mem.next && w'.mem.freed[p] == 0)
      ensures p in w'.loose ==> ArenasOwn(w'.arenas, p) > 0
    {
      TeardownSettles(w, a, p);
    }
    forall i | 0 <= i < |w.fields|
      ensures Homed(w', w'.fields[i])
    {
      assert Homed(w, w.fields[i]);
    }
  }

  lemma SwapKeepsInvariant(w: World, i: nat, j: nat)
    requires Invariant(w) && Allowed(w, Swap(i, j))
    ensures Invariant(After(w, Swap(i, j)))
  {
    var w' := After(w, Swap(i, j));
    var (f, g) := (w.fields[i], w.fields[j]);
    forall p: Ptr
      ensures Owners(w', p) == Owners(w, p)
    {
      FieldsOwnAfterUpdate(w.fields, i, f.(ptr := g.ptr), p);
      FieldsOwnAfterUpdate(w.fields[i := f.(ptr := g.ptr)], j, g.(ptr := f.ptr), p);
    }
    assert Homed(w, f) && Homed(w, g);
    forall k | 0 <= k < |w.fields|
      ensures Homed(w', w'.fields[k])
    {
      assert Homed(w, w.fields[k]);
    }
  }

  lemma CallerNewKeepsInvariant(w: World, text: string)
    requires Invariant(w)
    ensures Invariant(After(w, CallerNew(text)))
  {
    var w' := After(w, CallerNew(text));
    forall p: Ptr
      ensures Owners(w', p) + w'.mem.freed[p] == if 0 < p < w'.mem.next then 1 else 0
    {
      assert Owners(w, p) + w.mem.freed[p] == if 0 < p < w.mem.next then 1 else 0;
    }
    forall k | 0 <= k < |w.fields|
      ensures Homed(w', w'.fields[k])
    {
      assert Homed(w, w.fields[k]);
    }
  }

  lemma CallerDeleteKeepsInvariant(w: World, q: Ptr)
    requires Invariant(w) && q in w.callers
    ensures Invariant(After(w, CallerDelete(q)))
  {
    var w' := After(w, CallerDelete(q));
    CallerStringIsLive(w, q);
    forall p: Ptr
      ensures Owners(w', p) + w'.mem.freed[p] == if 0 < p < w'.mem.next then 1 else 0
    {
      assert Owners(w, p) + w.mem.freed[p] == if 0 < p < w.mem.next then 1 else 0;
    }
    forall k | 0 <= k < |w.fields|
      ensures Homed(w', w'.fields[k])
    {
      assert Homed(w, w.fields[k]);
    }
  }

  lemma WriteViaKeepsInvariant(w: World, q: Ptr, text: string)
    requires Invariant(w) && Allowed(w, WriteVia(q, text))
    ensures Invariant(After(w, WriteVia(q, text)))
  {
    var w' := After(w, WriteVia(q, text));
    forall p: Ptr
      ensures Owners(w', p) == Owners(w, p)
    {
    }
    forall k | 0 <= k < |w.fields|
      ensures Homed(w', w'.fields[k])
    {
      assert Homed(w, w.fields[k]);
    }
  }

  lemma NewArenaOwnsNothing(lists: seq<seq<Ptr>>, p: Ptr)
    ensures ArenasOwn(lists + [[]], p) == ArenasOwn(lists, p)
  {
    assert (lists + [[]])[..|lists|] == lists;
  }

  lemma NewArenaKeepsInvariant(w: World)
    requires Invariant(w)
    ensures Invariant(After(w, NewArena))
  {
    var w' := After(w, NewArena);
    forall p: Ptr
      ensures Owners(w', p) == Owners(w, p) && ArenasOwn(w'.arenas, p) == ArenasOwn(w.arenas, p)
    {
      NewArenaOwnsNothing(w.arenas, p);
    }
    forall k | 0 <= k < |w.fields|
      ensures Homed(w', w.fields[k])
    {
      assert Homed(w, w.fields[k]);
    }
  }

  lemma NewFieldOwnsNothing(fs: seq<Field>, home: Option<nat>, p: Ptr)
    ensures FieldsOwn(fs + [Field(DEFAULT, home, true)], p) == FieldsOwn(fs, p)
  {
    assert (fs + [Field(DEFAULT, home, true)])[..|fs|] == fs;
  }

  lemma ConstructKeepsInvariant(w: World, home: Option<nat>)
    requires Invariant(w) && Allowed(w, Construct(home))
    ensures Invariant(After(w, Construct(home)))
  {
    var w' := After(w, Construct(home));
    forall p: Ptr
      ensures Owners(w', p) == Owners(w, p)
    {
      NewFieldOwnsNothing(w.fields, home, p);
    }
    assert DEFAULT !in w.loose by {
      if DEFAULT in w.loose {
        LooseStringIsLive(w, DEFAULT);
      }
    }
    forall k | 0 <= k < |w'.fields|
      ensures Homed(w', w'.fields[k])
    {
      assert k < |w.fields| ==> Homed(w, w.fields[k]);
    }
  }

  lemma StepKeepsInvariant(w: World, op: Op)
    requires Invariant(w) && Allowed(w, op)
    ensures Invariant(After(w, op))
  {
    match op
    case NewArena => NewArenaKeepsInvariant(w);
    case Construct(home) => ConstructKeepsInvariant(w, home);
    case On(i, family, fop) => OnKeepsInvariant(w, i, family, fop);
    case Swap(i, j) => SwapKeepsInvariant(w, i, j);
    case CallerNew(text) => CallerNewKeepsInvariant(w, text);
    case CallerDelete(p) => CallerDeleteKeepsInvariant(w, p);
    case WriteVia(p, text) => WriteViaKeepsInvariant(w, p, text);
    case Teardown(a) => TeardownKeepsInvariant(w, a);
  }

  lemma InitKeepsInvariant(text: string)
    ensures Invariant(Init(text))
  {
    var w := Init(text);
    forall p: Ptr
      ensures Owners(w, p) == 0 && ArenasOwn(w.arenas, p) == 0
    {
    }
  }

  lemma {:induction false} StepsKeepInvariant(ws: seq<World>, ops: seq<Op>)
    requires Steps(ws, ops) && Invariant(ws[0])
    ensures forall i :: 0 <= i < |ws| ==> Invariant(ws[i])
  {
    if ops != [] {
      var n := |ops| - 1;
      StepsKeepInvariant(ws[..|ops|], ops[..n]);
      assert ws[..|ops|][n] == ws[n];
      StepKeepsInvariant(ws[n], ops[n]);
      forall i | 0 <= i < |ws|
        ensures Invariant(ws[i])
      {
        assert i < |ops| ==> ws[..|ops|][i] == ws[i];
      }
    }
  }

  lemma RunKeepsInvariant(ws: seq<World>, ops: seq<Op>, d: string)
    requires Run(ws, ops, d)
    ensures forall i :: 0 <= i < |ws| ==> Invariant(ws[i])
  {
    InitKeepsInvariant(d);
    StepsKeepInvariant(ws, ops);
  }

  // ----- exactly-once freeing

  /** At no point has a string been freed twice, and one that was not freed has exactly one owner left. */
  lemma NeverTwiceNeverLost(ws: seq<World>, ops: seq<Op>, d: string, k: nat, p: Ptr)
    requires Run(ws, ops, d) && k < |ws| && 0 < p < ws[k].mem.next
    ensures ws[k].mem.freed[p] <= 1
    ensures ws[k].mem.freed[p] == 0 <==> Owners(ws[k], p) == 1
  {
    RunKeepsInvariant(ws, ops, d);
    assert Owners(ws[k], p) + ws[k].mem.freed[p] == 1;
  }

  /** Nothing is left to do: heap fields are destroyed, callers have freed theirs, arenas are gone. */
  ghost predicate Settled(w: World) {
    && (forall i :: 0 <= i < |w.fields| && w.fields[i].home.None? ==> !w.fields[i].alive)
    && (forall a :: 0 <= a < |w.arenas| ==> w.arenas[a] == [])
    && w.callers == {}
  }

  lemma {:induction false} NoFieldOwns(fs: seq<Field>, p: Ptr)
    requires forall i :: 0 <= i < |fs| && fs[i].home.None? ==> !fs[i].alive
    ensures FieldsOwn(fs, p) == 0
  {
    if fs != [] {
      NoFieldOwns(fs[..|fs| - 1], p);
    }
  }

  lemma {:induction false} NoArenaOwns(lists: seq<seq<Ptr>>, p: Ptr)
    requires forall a :: 0 <= a < |lists| ==> lists[a] == []
    ensures ArenasOwn(lists, p) == 0
  {
    if lists != [] {
      NoArenaOwns(lists[..|lists| - 1], p);
    }
  }

  /**
    However fields, callers and arenas passed the strings around, once all of them are done
    every string ever allocated has been freed exactly once, and the default string never.
   */
  lemma EveryStringIsFreedOnce(ws: seq<World>, ops: seq<Op>, d: string, p: Ptr)
    requires Run(ws, ops, d) && Settled(ws[|ops|])
    ensures ws[|ops|].mem.freed[p] == if 0 < p < ws[|ops|].mem.next then 1 else 0
  {
    var w := ws[|ops|];
    RunKeepsInvariant(ws, ops, d);
    NoFieldOwns(w.fields, p);
    NoArenaOwns(w.arenas, p);
    assert Owners(w, p) + w.mem.freed[p] == if 0 < p < w.mem.next then 1 else 0;
  }

  /** No method ever touches a string that is gone: what the methods of `ArenaStringPtr` require holds. */
  lemma FieldsAreReady(ws: seq<World>, ops: seq<Op>, d: string, k: nat, i: nat)
    requires Run(ws, ops, d) && k < |ws| && i < |ws[k].fields| && ws[k].fields[i].alive
    ensures ws[k].fields[i].ptr in ws[k].mem.text && DEFAULT in ws[k].mem.text
  {
    RunKeepsInvariant(ws, ops, d);
    FieldStringIsLive(ws[k], i);
  }

  lemma {:induction false} EntryTwice(ps: seq<Ptr>, i: nat, j: nat)
    requires i < j < |ps| && ps[i] == ps[j]
    ensures Entries(ps, ps[i]) >= 2
  {
    if i == 0 {
      EntriesCount(ps[1..], ps[j]);
      assert ps[j] == ps[1..][j - 1];
    } else {
      EntryTwice(ps[1..], i - 1, j - 1);
    }
  }

  lemma ListedStringIsLive(w: World, a: nat, i: nat)
    requires Invariant(w) && a < |w.arenas| && i < |w.arenas[a]|
    ensures w.arenas[a][i] in w.mem.text && Entries(w.arenas[a], w.arenas[a][i]) == 1
  {
    var p := w.arenas[a][i];
    ArenaOwnsItsStrings(w.arenas, a, p);
    EntriesCount(w.arenas[a], p);
    assert Owners(w, p) + w.mem.freed[p] == if 0 < p < w.mem.next then 1 else 0;
  }

  /**
    Likewise for tearing an arena down: every entry is live and no two are the same, which is
    what `Arena.CleanupList` requires of the list.
   */
  lemma ArenasAreReady(ws: seq<World>, ops: seq<Op>, d: string, k: nat, a: nat)
    requires Run(ws, ops, d) && k < |ws| && a < |ws[k].arenas|
    ensures forall i :: 0 <= i < |ws[k].arenas[a]| ==> ws[k].arenas[a][i] in ws[k].mem.text
    ensures forall i, j :: 0 <= i < j < |ws[k].arenas[a]| ==> ws[k].arenas[a][i] != ws[k].arenas[a][j]
  {
    var ps := ws[k].arenas[a];
    RunKeepsInvariant(ws, ops, d);
    forall i | 0 <= i < |ps|
      ensures ps[i] in ws[k].mem.text && Entries(ps, ps[i]) == 1
    {
      ListedStringIsLive(ws[k], a, i);
    }
    forall i, j | 0 <= i < j < |ps|
      ensures ps[i] != ps[j]
    {
      if ps[i] == ps[j] {
        EntryTwice(ps, i, j);
      }
    }
  }

  // ----- the default string

  lemma OnKeepsDefault(w: World, i: nat, op: FieldOp)
    requires Invariant(w) && Allowed(w, On(i, ArenaAware, op))
    ensures AfterOn(w, i, ArenaAware, op).mem.Text(DEFAULT) == w.mem.Text(DEFAULT)
    ensures DEFAULT in AfterOn(w, i, ArenaAware, op).mem.written ==> DEFAULT in w.mem.written
  {
  }

  lemma StepKeepsDefault(w: World, op: Op)
    requires Invariant(w) && Allowed(w, op)
    ensures After(w, op).mem.Text(DEFAULT) == w.mem.Text(DEFAULT)
    ensures DEFAULT in After(w, op).mem.written ==> DEFAULT in w.mem.written
  {
    if op.Teardown? {
      DeleteAllFrees(w.mem, w.arenas[op.a], DEFAULT);
      StepKeepsInvariant(w, op);
    }
    if op.CallerDelete? {
      CallerStringIsLive(w, op.p);
    }
    if op.On? {
      if op.family.NoArena? {
        TwinsAgree(w, w.fields[op.i], op.op);
      }
      OnKeepsDefault(w, op.i, op.op);
    }
  }

  /** The shared default string is never written, not even with its own text, never freed and never handed out. */
  lemma {:induction false} DefaultIsUntouched(ws: seq<World>, ops: seq<Op>, d: string)
    requires Run(ws, ops, d)
    ensures forall k :: 0 <= k < |ws| ==> ws[k].mem.text.Keys >= {DEFAULT} && ws[k].mem.text[DEFAULT] == d
    ensures forall k :: 0 <= k < |ws| ==> DEFAULT !in ws[k].mem.written && ws[k].mem.freed[DEFAULT] == 0
    ensures forall k :: 0 <= k < |ws| ==> DEFAULT !in ws[k].handles
  {
    RunKeepsInvariant(ws, ops, d);
    if ops != [] {
      var n := |ops| - 1;
      DefaultIsUntouched(ws[..|ops|], ops[..n], d);
      assert ws[..|ops|][n] == ws[n];
      StepKeepsDefault(ws[n], ops[n]);
      forall k | 0 <= k < |ws|
        ensures ws[k].mem.Text(DEFAULT) == d && DEFAULT !in ws[k].mem.written
      {
        assert k < |ops| ==> ws[..|ops|][k] == ws[k];
      }
    }
  }

  // ----- what readers and callers see

  /** The text a field reads after each call, in terms of what could be read before it. */
  function ReadAfter(w: World, f: Field, op: FieldOp): string {
    match op
    case Set(value) => value
    case Mutable => w.mem.Text(f.ptr)
    case Release => w.mem.Text(DEFAULT)
    case SetAllocated(p) => w.mem.Text(if p.Some? then p.value else DEFAULT)
    case Destroy => w.mem.Text(f.ptr)
    case ClearToEmpty => ""
    case ClearToDefault => w.mem.Text(DEFAULT)
    case UnsafeArenaRelease => w.mem.Text(DEFAULT)
    case UnsafeArenaSetAllocated(p) => w.mem.Text(if p.Some? then p.value else DEFAULT)
  }

  lemma FieldReads(w: World, i: nat, family: Family, op: FieldOp)
    requires Invariant(w) && Allowed(w, On(i, family, op)) && !op.Destroy?
    ensures var w' := AfterOn(w, i, family, op);
            w'.mem.Text(w'.fields[i].ptr) == ReadAfter(w, w.fields[i], op)
  {
    if family.NoArena? {
      TwinsAgree(w, w.fields[i], op);
    }
    FieldStringIsLive(w, i);
    match op
    case SetAllocated(Some(p)) => CallerStringIsLive(w, p);
    case UnsafeArenaSetAllocated(Some(p)) => LooseStringIsLive(w, p);
    case _ =>
  }

  /** Two fields that swap exchange their strings; nothing is copied, written or freed. */
  lemma SwapReads(w: World, i: nat, j: nat)
    requires Invariant(w) && Allowed(w, Swap(i, j))
    ensures var w' := After(w, Swap(i, j));
            && w'.fields[i].ptr == w.fields[j].ptr && w'.fields[j].ptr == w.fields[i].ptr && w'.mem == w.mem
            && w'.mem.Text(w'.fields[i].ptr) == w.mem.Text(w.fields[j].ptr)
            && w'.mem.Text(w'.fields[j].ptr) == w.mem.Text(w.fields[i].ptr)
            && w'.fields[i].alive && w'.fields[j].alive
            && w'.fields[i].home == w.fields[i].home && w'.fields[j].home == w.fields[j].home
  {
  }

  /** A new field reads the default and is another than all before; a new arena has nothing to free. */
  lemma NewOnesRead(w: World, home: Option<nat>)
    requires Invariant(w) && Allowed(w, Construct(home))
    ensures var (w', n) := (After(w, Construct(home)), |w.fields|);
            && |w'.fields| == n + 1 && w'.fields[..n] == w.fields && w'.mem == w.mem
            && w'.fields[n].alive && w'.fields[n].home == home && w'.mem.Text(w'.fields[n].ptr) == w.mem.Text(DEFAULT)
    ensures After(w, NewArena).arenas == w.arenas + [[]] && After(w, NewArena).mem == w.mem
  {
  }

  /** What callers do with strings of their own. */
  lemma CallersDo(w: World, op: Op)
    requires Invariant(w) && Allowed(w, op)
    ensures op.CallerNew? ==>
              var (w', out) := (After(w, op), Returned(w, op));
              && out.Some? && out.value in w'.callers && out.value !in w.callers && out.value in w'.handles
              && w'.mem.Text(out.value) == op.text && out.value !in w.mem.text && out.value !in w'.mem.freed
    ensures op.CallerDelete? ==>
              var w' := After(w, op);
              op.p !in w'.callers && op.p !in w'.mem.text && w'.mem.freed == w.mem.freed + multiset{op.p}
    ensures op.WriteVia? ==> After(w, op).mem.Text(op.p) == op.text && After(w, op).mem.freed == w.mem.freed
  {
    assert Owners(w, w.mem.next) + w.mem.freed[w.mem.next] == 0;
  }

  /** With an arena its fields end and all of its strings are freed, once; no other field ends. */
  lemma TeardownEnds(w: World, a: nat)
    requires Invariant(w) && Allowed(w, Teardown(a))
    ensures var w' := After(w, Teardown(a));
            && |w'.fields| == |w.fields| && w'.arenas == w.arenas[a := []] && w'.callers == w.callers
            && (forall p :: p in w.arenas[a] ==> p !in w'.mem.text && w'.mem.freed[p] == 1 && p !in w'.loose)
            && forall i :: 0 <= i < |w.fields| ==>
                 (w'.fields[i].alive <==> w.fields[i].alive && w.fields[i].home != Some(a))
  {
    forall p | p in w.arenas[a]
      ensures p !in After(w, Teardown(a)).mem.text && After(w, Teardown(a)).mem.freed[p] == 1
    {
      var i :| 0 <= i < |w.arenas[a]| && w.arenas[a][i] == p;
      ListedStringIsLive(w, a, i);
      DeleteAllFrees(w.mem, w.arenas[a], p);
      assert Owners(w, p) + w.mem.freed[p] == if 0 < p < w.mem.next then 1 else 0;
    }
  }

  /**
    A released string holds what the field read, belongs to the caller and to no arena; null
    comes back exactly when the field still was the default.
   */
  lemma ReleasedBelongsToCaller(w: World, i: nat, family: Family)
    requires Invariant(w) && Allowed(w, On(i, family, FieldOp.Release))
    ensures var op := On(i, family, FieldOp.Release);
            var (w', r) := (After(w, op), Returned(w, op));
            && (r.None? <==> w.fields[i].ptr == DEFAULT)
            && (r.Some? ==> r.value in w'.callers && r.value !in w.callers
                            && ArenasOwn(w'.arenas, r.value) == 0 && FieldsOwn(w'.fields, r.value) == 0
                            && w'.mem.Text(r.value) == w.mem.Text(w.fields[i].ptr))
  {
    var op := On(i, family, FieldOp.Release);
    if family.NoArena? {
      TwinsAgree(w, w.fields[i], op.op);
    }
    FieldStringIsLive(w, i);
    StepKeepsInvariant(w, op);
    var (w', r) := (After(w, op), Returned(w, op));
    assert Owners(w, w.mem.next) + w.mem.freed[w.mem.next] == 0;
    if r.Some? {
      assert Owners(w', r.value) + w'.mem.freed[r.value] == if 0 < r.value < w'.mem.next then 1 else 0;
    }
  }

  /**
    Which pointers are handed out: `Mutable` gives the field's own string, never the default;
    the two releases give the old string or null for the default, and leave the field at the
    default, but that `Release` gives a new copy on an arena; nothing else hands one out.
   */
  lemma HandedOut(w: World, i: nat, family: Family, op: FieldOp)
    requires Invariant(w) && Allowed(w, On(i, family, op))
    ensures var (w', out, p) := (AfterOn(w, i, family, op), Applied(w, w.fields[i], family, op).1, w.fields[i].ptr);
            && (op.Mutable? ==> out == Some(w'.fields[i].ptr) && w'.fields[i].ptr != DEFAULT
                                && (p != DEFAULT ==> out == Some(p)) && (p == DEFAULT ==> out == Some(w.mem.next)))
            && (op.UnsafeArenaRelease? || (op.Release? && w.fields[i].home.None?) ==>
                  out == if p == DEFAULT then None else Some(p))
            && (op.Release? && w.fields[i].home.Some? ==> out == if p == DEFAULT then None else Some(w.mem.next))
            && (op.UnsafeArenaRelease? || op.Release? ==> w'.fields[i].ptr == DEFAULT)
            && (op.UnsafeArenaRelease? ==> w'.mem == w.mem && w'.arenas == w.arenas)
            && (!op.Mutable? && !op.UnsafeArenaRelease? && !op.Release? ==> out == None)
  {
    if family.NoArena? {
      TwinsAgree(w, w.fields[i], op);
    }
    FieldStringIsLive(w, i);
    assert Homed(w, w.fields[i]);
    if op.UnsafeArenaRelease? && w.fields[i].home.Some? {
      assert w.arenas[w.fields[i].home.value := w.arenas[w.fields[i].home.value]] == w.arenas;
    }
  }

  /**
    A string taken out of a field by `UnsafeArenaRelease` is the caller's without an arena; on one
    it may be put into any field of the same arena, which then reads it.
   */
  lemma TakenOutAndPutBack(w: World, i: nat, j: nat)
    requires Invariant(w) && Allowed(w, On(i, ArenaAware, FieldOp.UnsafeArenaRelease)) && w.fields[i].ptr != DEFAULT
    requires j < |w.fields| && w.fields[j].alive && w.fields[j].home == w.fields[i].home
    ensures var p := w.fields[i].ptr;
            var w' := AfterOn(w, i, ArenaAware, FieldOp.UnsafeArenaRelease);
            var put := FieldOp.UnsafeArenaSetAllocated(Some(p));
            && (w.fields[i].home.None? ==> p in w'.callers)
            && (w.fields[i].home.Some? ==>
                  && Allowed(w', On(j, ArenaAware, put))
                  && var v := AfterOn(w', j, ArenaAware, put);
                     && v.fields[j].ptr == p && v.mem.Text(p) == w.mem.Text(p)
                     && v.arenas == w.arenas && v.loose == w.loose)
  {
    var p := w.fields[i].ptr;
    FieldStringIsLive(w, i);
    assert Homed(w, w.fields[i]);
    if w.fields[i].home.Some? {
      var a := w.fields[i].home.value;
      assert w.arenas[a := w.arenas[a]] == w.arenas;
      assert p !in w.loose;
      assert w.loose + {p} - {p} == w.loose;
    }
  }

  /** What is written through the handle of `Mutable` is what the field reads. */
  lemma WrittenThrough(w: World, i: nat, family: Family, text: string)
    requires Invariant(w) && Allowed(w, On(i, family, FieldOp.Mutable))
    ensures var op := FieldOp.Mutable;
            var (w', out) := (AfterOn(w, i, family, op), Applied(w, w.fields[i], family, op).1);
            && out.Some? && Allowed(w', WriteVia(out.value, text))
            && var v := After(w', WriteVia(out.value, text));
               v.mem.Text(v.fields[i].ptr) == text && v.mem.Text(DEFAULT) == w.mem.Text(DEFAULT)
  {
    HandedOut(w, i, family, FieldOp.Mutable);
    OnKeepsInvariant(w, i, family, FieldOp.Mutable);
    var w' := AfterOn(w, i, family, FieldOp.Mutable);
    FieldStringIsLive(w', i);
    StepKeepsDefault(w, On(i, family, FieldOp.Mutable));
  }

  // ----- the families can be mixed

  /** `op'` is `op`, or the same call made on an arena-less field through the other family. */
  ghost predicate Twin(w: World, op: Op, op': Op) {
    || op' == op
    || (op.On? && op'.On? && op'.i == op.i && op'.op == op.op && HasNoArenaTwin(op.op)
        && op.i < |w.fields| && w.fields[op.i].home.None?)
  }

  /**
    Without an arena the two method families are interchangeable call by call: replacing any
    of the calls of a run by their twins leaves every state and every returned pointer the same.
   */
  lemma {:induction false} FamiliesInterleave(ws: seq<World>, ops: seq<Op>, ops': seq<Op>, d: string)
    requires Run(ws, ops, d) && |ops'| == |ops|
    requires forall k :: 0 <= k < |ops| ==> Twin(ws[k], ops[k], ops'[k])
    ensures Run(ws, ops', d)
    ensures forall k :: 0 <= k < |ops| ==> Returned(ws[k], ops'[k]) == Returned(ws[k], ops[k])
  {
    forall k | 0 <= k < |ops|
      ensures Allowed(ws[k], ops'[k]) && After(ws[k], ops'[k]) == After(ws[k], ops[k])
      ensures Returned(ws[k], ops'[k]) == Returned(ws[k], ops[k])
    {
      if ops'[k] != ops[k] {
        TwinsAgree(ws[k], ws[k].fields[ops[k].i], ops[k].op);
      }
    }
  }

  // ----- fields do not interfere

  predicate Concerns(w: World, op: Op, j: nat)
    requires j < |w.fields|
  {
    match op
    case On(i, _, _) => i == j
    case Swap(i, k) => i == j || k == j
    case WriteVia(p, _) => p == w.fields[j].ptr
    case Teardown(a) => w.fields[j].home == Some(a)
    case _ => false
  }

  lemma OnLeavesOthers(w: World, i: nat, op: FieldOp, j: nat)
    requires Invariant(w) && Allowed(w, On(i, ArenaAware, op))
    requires j < |w.fields| && w.fields[j].alive && i != j
    ensures var w' := AfterOn(w, i, ArenaAware, op);
            w'.fields[j] == w.fields[j] && w'.mem.Text(w.fields[j].ptr) == w.mem.Text(w.fields[j].ptr)
            && (w.fields[j].ptr in w'.mem.written ==> w.fields[j].ptr in w.mem.written)
  {
    FieldStringIsLive(w, i);
    FieldStringIsLive(w, j);
    if i < j {
      assert w.fields[i].ptr != w.fields[j].ptr || w.fields[i].ptr == DEFAULT;
    } else {
      assert w.fields[j].ptr != w.fields[i].ptr || w.fields[j].ptr == DEFAULT;
    }
  }

  /** An operation that does not concern a field neither changes its pointer nor writes to its string. */
  lemma OthersAreUndisturbed(w: World, op: Op, j: nat)
    requires Invariant(w) && Allowed(w, op)
    requires j < |w.fields| && w.fields[j].alive && !Concerns(w, op, j)
    ensures |After(w, op).fields| >= |w.fields| && After(w, op).fields[j] == w.fields[j]
    ensures After(w, op).mem.Text(w.fields[j].ptr) == w.mem.Text(w.fields[j].ptr)
    ensures w.fields[j].ptr in After(w, op).mem.written ==> w.fields[j].ptr in w.mem.written
  {
    FieldStringIsLive(w, j);
    match op
    case On(i, family, fop) =>
      if family.NoArena? {
        TwinsAgree(w, w.fields[i], fop);
      }
      OnLeavesOthers(w, i, fop, j);
    case Teardown(a) =>
      DeleteAllFrees(w.mem, w.arenas[a], w.fields[j].ptr);
      StepKeepsInvariant(w, op);
      FieldStringIsLive(After(w, op), j);
    case CallerDelete(p) => CallerStringIsLive(w, p);
    case _ =>
  }

  /** Calls on one field, and whatever its caller does with the strings and handles it got. */
  predicate OneSided(op: Op, i: nat) {
    match op
    case On(k, _, _) => k == i
    case CallerNew(_) => true
    case CallerDelete(_) => true
    case WriteVia(_, _) => true
    case _ => false
  }

  lemma HandlesStayAway(w: World, op: Op, i: nat, j: nat)
    requires Invariant(w) && Allowed(w, op) && OneSided(op, i)
    requires i != j && j < |w.fields| && w.fields[j].alive && w.fields[j].ptr !in w.handles
    ensures w.fields[j].ptr !in After(w, op).handles
  {
    FieldStringIsLive(w, j);
    if op.On? {
      if op.family.NoArena? {
        TwinsAgree(w, w.fields[i], op.op);
      }
      FieldStringIsLive(w, i);
      StepKeepsInvariant(w, op);
      var w' := After(w, op);
      assert w.fields[i].ptr == w.fields[j].ptr ==> w.fields[j].ptr == DEFAULT;
      assert w'.fields[i].ptr == DEFAULT || w'.fields[i].ptr != w.fields[j].ptr || !w'.fields[i].alive by {
        OnLeavesOthers(w, i, op.op, j);
      }
    }
  }

  /**
    No sequence of setters, clears, releases or writes through handles on one field, in either
    family, writes to what another field reads, even while both start out as the same default.
   */
  lemma {:induction false} FieldsAreIndependent(ws: seq<World>, ops: seq<Op>, i: nat, j: nat)
    requires Steps(ws, ops) && Invariant(ws[0])
    requires forall k :: 0 <= k < |ops| ==> OneSided(ops[k], i)
    requires i != j && j < |ws[0].fields| && ws[0].fields[j].alive && ws[0].fields[j].ptr !in ws[0].handles
    ensures var (w, w') := (ws[0], ws[|ops|]);
            && j < |w'.fields| && w'.fields[j] == w.fields[j] && w'.fields[j].ptr !in w'.handles
            && w'.mem.Text(w'.fields[j].ptr) == w.mem.Text(w.fields[j].ptr)
            && (w.fields[j].ptr in w'.mem.written ==> w.fields[j].ptr in w.mem.written)
  {
    if ops != [] {
      var n := |ops| - 1;
      FieldsAreIndependent(ws[..|ops|], ops[..n], i, j);
      assert ws[..|ops|][n] == ws[n];
      StepsKeepInvariant(ws, ops);
      HandlesStayAway(ws[n], ops[n], i, j);
      OthersAreUndisturbed(ws[n], ops[n], j);
    }
  }
}
