/**
  `RepeatedPtrField<string>`: an array of pointers whose tail holds cleared strings that are kept
  for reuse.

  Memory and arenas are those of `ArenaStrings`.  How far `Reserve` grows the array is decided
  elsewhere; it is a parameter, `room`, wherever the array may grow.
 */
module RepeatedStrings {
  import opened ArenaStrings
  import opened Options

  // ----- one field, as a value

  /** `elems` are the allocated elements; the first `current` are visible, the others cleared. */
  datatype Rep = Rep(elems: seq<Ptr>, current: nat, total: nat) {
    predicate Ok() {
      current <= |elems| <= total
    }

    /** `Reserve`: at least `n` slots. */
    function Reserved(n: nat, room: nat): Rep {
      if n <= total then this else this.(total := room)
    }

    /** The new pointer goes to the end of the visible ones, and the cleared one there to the end of all. */
    function Inserted(p: Ptr): Rep
      requires current <= |elems|
    {
      Rep(if current < |elems| then elems[current := p] + [elems[current]] else elems + [p], current + 1, total)
    }

    /** The last allocated element takes the place of the removed one. */
    function WithoutLast(): Rep
      requires 0 < current <= |elems|
    {
      var last := |elems| - 1;
      Rep(elems[current - 1 := elems[last]][..last], current - 1, total)
    }
  }

  datatype RepOp =
    | Add
    | RemoveLast
    | Clear
    | AddAllocated(p: Ptr)
    | ReleaseLast
    | AddCleared(p: Ptr)
    | ReleaseCleared
    | MergeFrom(ps: seq<Ptr>)
    | SwapElements(i: nat, j: nat)
    | Destroy

  /** What the source demands of its callers. */
  predicate MayCall(r: Rep, onArena: bool, op: RepOp) {
    match op
    case RemoveLast => r.current > 0
    case ReleaseLast => r.current > 0
    case AddCleared(_) => !onArena
    case ReleaseCleared => !onArena && r.current < |r.elems|
    case SwapElements(i, j) => i < r.current && j < r.current
    case _ => true
  }

  /** The slots that a call needs. */
  function Needs(r: Rep, op: RepOp): nat {
    match op
    case Add => if r.current < |r.elems| then 0 else |r.elems| + 1
    case AddAllocated(_) => if r.current == r.total then r.total + 1 else 0
    case AddCleared(_) => |r.elems| + 1
    case MergeFrom(ps) => if ps == [] then 0 else r.current + |ps|
    case _ => 0
  }

  function Emptied(m: Mem, ps: seq<Ptr>): Mem
    decreases ps
  {
    if ps == [] then m else Emptied(m.Write(ps[0], ""), ps[1..])
  }

  /** The memory, the field and the cleanup list of its arena, if it has one. */
  datatype Place = Place(mem: Mem, rep: Rep, arena: Option<seq<Ptr>>) {
    /** A new empty string; an arena registers it. */
    function Created(): Place {
      Place(mem.New(""), rep, if arena.Some? then Some([mem.next] + arena.value) else None)
    }

    function Added(): Place
      requires rep.Ok()
    {
      if rep.current < |rep.elems| then this.(rep := rep.(current := rep.current + 1))
      else Created().(rep := Rep(rep.elems + [mem.next], rep.current + 1, rep.total))
    }

    /** One turn of `MergeFrom`: a cleared or a new string takes the text. */
    function Appended(text: string): Place
      requires rep.Ok()
    {
      var s := Added();
      s.(mem := s.mem.Write(s.rep.elems[rep.current], text))
    }

    function Merged(ps: seq<Ptr>): Place
      requires rep.Ok() && rep.current + |ps| <= rep.total
      decreases ps
    {
      if ps == [] then this
      else Appended(mem.Text(ps[0])).Merged(ps[1..])
    }

    /** With the array full of visible and cleared strings, a cleared one is deleted to make room. */
    function Accepted(p: Ptr): Place
      requires rep.current <= |rep.elems|
    {
      if rep.current < rep.total && |rep.elems| == rep.total then
        Place(if arena.None? then mem.Delete(rep.elems[rep.current]) else mem,
              Rep(rep.elems[rep.current := p], rep.current + 1, rep.total),
              arena)
      else this.(rep := rep.Inserted(p))
    }

    /** The field after a call, and the pointer handed out. */
    function Apply(op: RepOp, room: nat): (Place, Option<Ptr>)
      requires rep.Ok() && MayCall(rep, arena.Some?, op) && Needs(rep, op) <= room
    {
      var r := rep.Reserved(Needs(rep, op), room);
      var s := this.(rep := r);
      match op
      case Add => (s.Added(), Some(s.Added().rep.elems[r.current]))
      case RemoveLast =>
        (Place(mem.Write(r.elems[r.current - 1], ""), r.(current := r.current - 1), arena), None)
      case Clear => (Place(Emptied(mem, r.elems[..r.current]), r.(current := 0), arena), None)
      case AddAllocated(p) =>
        ((if arena.Some? then s.(arena := Some([p] + arena.value)) else s).Accepted(p), None)
      case ReleaseLast =>
        var p := r.elems[r.current - 1];
        if arena.None? then (s.(rep := r.WithoutLast()), Some(p))
        else (s.(rep := r.WithoutLast(), mem := mem.New(mem.Text(p))), Some(mem.next))
      case AddCleared(p) => (s.(rep := r.(elems := r.elems + [p])), None)
      case ReleaseCleared =>
        var last := |r.elems| - 1;
        (s.(rep := r.(elems := r.elems[..last])), Some(r.elems[last]))
      case MergeFrom(ps) => (s.Merged(ps), None)
      case SwapElements(i, j) => (s.(rep := r.(elems := r.elems[i := r.elems[j]][j := r.elems[i]])), None)
      case Destroy => (s.(mem := if arena.None? then mem.DeleteAll(r.elems) else mem), None)
    }
  }

  lemma MergedStep(s: Place, ps: seq<Ptr>, i: nat)
    requires s.rep.Ok() && i < |ps| && s.rep.current + |ps| - i <= s.rep.total
    ensures s.Merged(ps[i..]) == s.Appended(s.mem.Text(ps[i])).Merged(ps[i + 1..])
  {
    assert ps[i..][1..] == ps[i + 1..];
  }

  lemma {:induction false} MergedKeepsRep(s: Place, ps: seq<Ptr>)
    requires s.rep.Ok() && s.rep.current + |ps| <= s.rep.total
    ensures s.Merged(ps).rep.Ok() && s.Merged(ps).rep.current == s.rep.current + |ps|
    ensures s.Merged(ps).rep.total == s.rep.total && s.Merged(ps).arena.Some? == s.arena.Some?
    decreases ps
  {
    if ps != [] {
      MergedKeepsRep(s.Appended(s.mem.Text(ps[0])), ps[1..]);
    }
  }

  /** Every call leaves at most as many elements as there are slots. */
  lemma CallsKeepRep(s: Place, op: RepOp, room: nat)
    requires s.rep.Ok() && MayCall(s.rep, s.arena.Some?, op) && Needs(s.rep, op) <= room
    ensures s.Apply(op, room).0.rep.Ok() && s.Apply(op, room).0.arena.Some? == s.arena.Some?
  {
    if op.MergeFrom? {
      MergedKeepsRep(s.(rep := s.rep.Reserved(Needs(s.rep, op), room)), op.ps);
    }
  }

  /**
    When a call needs a larger array, told from the sizes: never while a slot or a cleared string is
    left, and then just enough slots for what the field holds afterwards.
   */
  predicate Grows(r: Rep, op: RepOp) {
    match op
    case Add => r.current == r.total
    case AddAllocated(_) => r.current == r.total
    case AddCleared(_) => |r.elems| == r.total
    case MergeFrom(ps) => r.current + |ps| > r.total
    case _ => false
  }

  lemma GrowsExactly(s: Place, op: RepOp, room: nat)
    requires s.rep.Ok() && MayCall(s.rep, s.arena.Some?, op) && Needs(s.rep, op) <= room
    ensures s.Apply(op, room).0.rep.total == if Grows(s.rep, op) then room else s.rep.total
    ensures Grows(s.rep, op) ==>
              var r := s.Apply(op, room).0.rep;
              Needs(s.rep, op) == if op.MergeFrom? then r.current else |r.elems|
  {
    if op.MergeFrom? {
      MergedKeepsRep(s.(rep := s.rep.Reserved(Needs(s.rep, op), room)), op.ps);
    }
  }

  /** A string is made exactly when `Add` finds no cleared one, or a copy is to be handed out. */
  lemma MakesStrings(s: Place, op: RepOp, room: nat)
    requires s.rep.Ok() && MayCall(s.rep, s.arena.Some?, op) && Needs(s.rep, op) <= room && !op.MergeFrom?
    ensures s.Apply(op, room).0.mem.next == s.mem.next +
              if (op.Add? && s.rep.current == |s.rep.elems|) || (op.ReleaseLast? && s.arena.Some?) then 1 else 0
  {
    match op
    case Clear => EmptiedNext(s.mem, s.rep.elems[..s.rep.current]);
    case Destroy => DeletedNext(s.mem, s.rep.elems);
    case _ =>
  }

  lemma {:induction false} EmptiedNext(m: Mem, ps: seq<Ptr>)
    ensures Emptied(m, ps).next == m.next
    decreases ps
  {
    if ps != [] {
      EmptiedNext(m.Write(ps[0], ""), ps[1..]);
    }
  }

  lemma {:induction false} DeletedNext(m: Mem, ps: seq<Ptr>)
    ensures m.DeleteAll(ps).next == m.next
    decreases ps
  {
    if ps != [] {
      DeletedNext(m.Delete(ps[0]), ps[1..]);
    }
  }

  // ----- the class

  class RepeatedPtrField {
    var currentSize: nat
    var totalSize: nat
    // rep_: the pointers, one slot for each up to totalSize, and how many of them are in use
    var allocatedSize: nat
    var elements: array<Ptr>

    ghost predicate Valid()
      reads this
    {
      currentSize <= allocatedSize <= totalSize == elements.Length
    }

    ghost function State(): Rep
      requires Valid()
      reads this, elements
    {
      Rep(elements[..allocatedSize], currentSize, totalSize)
    }

    ghost function At(heap: Heap, arena: Arena?): Place
      requires Valid()
      reads this, elements, heap, arena
    {
      Place(heap.m, State(), if arena == null then None else Some(arena.cleanup))
    }

    /** The strings of the field exist. */
    ghost predicate Ready(heap: Heap)
      requires Valid()
      reads this, elements, heap
    {
      forall i :: 0 <= i < allocatedSize ==> elements[i] in heap.m.text
    }

    constructor ()
      ensures Valid() && State() == Rep([], 0, 0) && fresh(elements)
    {
      currentSize, totalSize, allocatedSize := 0, 0, 0;
      elements := new Ptr[0];
    }

    /** Grows the array to `room` slots unless it has `n` already. */
    method Reserve(n: nat, room: nat)
      requires Valid() && n <= room
      modifies this
      ensures Valid() && State() == old(State()).Reserved(n, room)
      ensures elements == old(elements) || fresh(elements)
      ensures allocatedSize == old(allocatedSize) && currentSize == old(currentSize)
      ensures forall i :: 0 <= i < allocatedSize ==> elements[i] == old(elements[i])
    {
      if n > totalSize {
        var grown := new Ptr[room];
        forall i | 0 <= i < allocatedSize {
          grown[i] := elements[i];
        }
        elements, totalSize := grown, room;
      }
    }

    method Create(heap: Heap, arena: Arena?) returns (p: Ptr)
      modifies heap, arena
      ensures p == old(heap.m.next) && heap.m == old(heap.m).New("")
      ensures arena != null ==> arena.cleanup == [p] + old(arena.cleanup)
    {
      p := heap.New("");
      if arena != null {
        arena.Own(Some(p));
      }
    }

    method Add(heap: Heap, arena: Arena?, room: nat) returns (p: Ptr)
      requires Valid() && Needs(State(), RepOp.Add) <= room
      modifies this, elements, heap, arena
      ensures Valid() && (elements == old(elements) || fresh(elements))
      ensures (At(heap, arena), Some(p)) == old(At(heap, arena)).Apply(RepOp.Add, room)
      ensures currentSize == old(currentSize) + 1 && elements[currentSize - 1] == p
    {
      if currentSize < allocatedSize {
        currentSize := currentSize + 1;
        return elements[currentSize - 1];
      }
      if allocatedSize == totalSize {
        Reserve(totalSize + 1, room);
      }
      p := Create(heap, arena);
      elements[currentSize] := p;
      allocatedSize, currentSize := allocatedSize + 1, currentSize + 1;
      assert State().elems == old(State().elems) + [p];
    }

    method RemoveLast(heap: Heap, arena: Arena?)
      requires Valid() && Ready(heap) && currentSize > 0
      modifies this, heap
      ensures Valid() && elements == old(elements)
      ensures At(heap, arena) == old(At(heap, arena)).Apply(RepOp.RemoveLast, 0).0
    {
      currentSize := currentSize - 1;
      heap.Assign(elements[currentSize], "");
    }

    method Clear(heap: Heap, arena: Arena?)
      requires Valid() && Ready(heap)
      modifies this, heap
      ensures Valid() && elements == old(elements)
      ensures At(heap, arena) == old(At(heap, arena)).Apply(RepOp.Clear, 0).0
    {
      ghost var ps := State().elems[..currentSize];
      var i := 0;
      while i < currentSize
        invariant i <= currentSize
        invariant forall k :: 0 <= k < allocatedSize ==> elements[k] in heap.m.text
        invariant Emptied(heap.m, ps[i..]) == Emptied(old(heap.m), ps)
        modifies heap
      {
        heap.Assign(elements[i], "");
        i := i + 1;
      }
      currentSize := 0;
    }

    /** The slow path, for a field that is full or on an arena. */
    method UnsafeArenaAddAllocated(heap: Heap, arena: Arena?, p: Ptr, room: nat)
      requires Valid() && Ready(heap) && Needs(State(), RepOp.AddAllocated(p)) <= room
      modifies this, elements, heap
      ensures Valid() && (elements == old(elements) || fresh(elements))
      ensures var s := old(At(heap, arena));
              At(heap, arena) == s.(rep := s.rep.Reserved(Needs(s.rep, RepOp.AddAllocated(p)), room)).Accepted(p)
    {
      if currentSize == totalSize {
        Reserve(totalSize + 1, room);
        allocatedSize := allocatedSize + 1;
      } else if allocatedSize == totalSize {
        if arena == null {
          heap.Delete(elements[currentSize]);
        }
      } else if currentSize < allocatedSize {
        elements[allocatedSize] := elements[currentSize];
        allocatedSize := allocatedSize + 1;
      } else {
        allocatedSize := allocatedSize + 1;
      }
      elements[currentSize] := p;
      currentSize := currentSize + 1;
    }

    /** Strings are never on an arena themselves, so only a field off the arenas takes the fast path. */
    method AddAllocated(heap: Heap, arena: Arena?, p: Ptr, room: nat)
      requires Valid() && Ready(heap) && Needs(State(), RepOp.AddAllocated(p)) <= room
      modifies this, elements, heap, arena
      ensures Valid() && (elements == old(elements) || fresh(elements))
      ensures At(heap, arena) == old(At(heap, arena)).Apply(RepOp.AddAllocated(p), room).0
    {
      if arena == null && allocatedSize < totalSize {
        if currentSize < allocatedSize {
          elements[allocatedSize] := elements[currentSize];
        }
        elements[currentSize] := p;
        currentSize, allocatedSize := currentSize + 1, allocatedSize + 1;
      } else {
        if arena != null {
          arena.Own(Some(p));
        }
        UnsafeArenaAddAllocated(heap, arena, p, room);
      }
    }

    method UnsafeArenaReleaseLast() returns (p: Ptr)
      requires Valid() && currentSize > 0
      modifies this, elements
      ensures Valid() && elements == old(elements)
      ensures State() == old(State()).WithoutLast() && p == old(elements[currentSize - 1])
    {
      currentSize := currentSize - 1;
      p := elements[currentSize];
      allocatedSize := allocatedSize - 1;
      if currentSize < allocatedSize {
        elements[currentSize] := elements[allocatedSize];
      }
    }

    /** On an arena the caller gets a copy. */
    method ReleaseLast(heap: Heap, arena: Arena?) returns (p: Ptr)
      requires Valid() && Ready(heap) && currentSize > 0
      modifies this, elements, heap
      ensures Valid() && elements == old(elements)
      ensures (At(heap, arena), Some(p)) == old(At(heap, arena)).Apply(RepOp.ReleaseLast, 0)
    {
      p := UnsafeArenaReleaseLast();
      if arena != null {
        p := heap.New(heap.m.Text(p));
      }
    }

    method AddCleared(p: Ptr, room: nat)
      requires Valid() && Needs(State(), RepOp.AddCleared(p)) <= room
      modifies this, elements
      ensures Valid() && (elements == old(elements) || fresh(elements))
      ensures forall m: Mem ::
                Place(m, State(), None) == Place(m, old(State()), None).Apply(RepOp.AddCleared(p), room).0
    {
      if allocatedSize == totalSize {
        Reserve(totalSize + 1, room);
      }
      elements[allocatedSize] := p;
      allocatedSize := allocatedSize + 1;
    }

    method ReleaseCleared() returns (p: Ptr)
      requires Valid() && currentSize < allocatedSize
      modifies this
      ensures Valid() && elements == old(elements)
      ensures forall m: Mem ::
                (Place(m, State(), None), Some(p)) == Place(m, old(State()), None).Apply(RepOp.ReleaseCleared, 0)
    {
      allocatedSize := allocatedSize - 1;
      p := elements[allocatedSize];
      assert State().elems == old(State().elems)[..allocatedSize];
    }

    /** The state of a merge after `i` strings, when the sizes are not yet brought up to date. */
    ghost function Merging(heap: Heap, arena: Arena?, i: nat): Place
      requires Valid() && currentSize + i <= totalSize
      reads this, elements, heap, arena
    {
      var n := if allocatedSize < currentSize + i then currentSize + i else allocatedSize;
      Place(heap.m, Rep(elements[..n], currentSize + i, totalSize), if arena == null then None else Some(arena.cleanup))
    }

    /** One turn of the first loop: a cleared string takes the text. */
    method MergeIntoCleared(heap: Heap, arena: Arena?, i: nat, from: Ptr)
      requires Valid() && Ready(heap) && currentSize + i < allocatedSize
      modifies heap
      ensures Ready(heap) && currentSize + i < totalSize && old(heap.m.text.Keys) <= heap.m.text.Keys
      ensures Merging(heap, arena, i + 1) == old(Merging(heap, arena, i)).Appended(old(heap.m.Text(from)))
    {
      heap.Assign(elements[currentSize + i], heap.m.Text(from));
    }

    /** One turn of the second loop: a new string takes the text. */
    method MergeIntoNew(heap: Heap, arena: Arena?, i: nat, from: Ptr)
      requires Valid() && allocatedSize <= currentSize + i < totalSize
      modifies elements, heap, arena
      ensures old(heap.m.text.Keys) <= heap.m.text.Keys
      ensures Merging(heap, arena, i + 1) == old(Merging(heap, arena, i)).Appended(old(heap.m.Text(from)))
    {
      var text := heap.m.Text(from);
      var p := Create(heap, arena);
      heap.Assign(p, text);
      elements[currentSize + i] := p;
      assert elements[..currentSize + i + 1] == old(elements[..currentSize + i]) + [p];
    }

    /** The strings of `other` that are still to be merged lead to `goal`. */
    ghost predicate LeadsTo(heap: Heap, arena: Arena?, ps: seq<Ptr>, i: nat, goal: Place)
      reads this, elements, heap, arena
    {
      Valid() && i <= |ps| && currentSize + |ps| <= totalSize && Merging(heap, arena, i).Merged(ps[i..]) == goal
    }

    method MergeCleared(heap: Heap, arena: Arena?, i: nat, ghost ps: seq<Ptr>, ghost goal: Place, from: Ptr)
      requires LeadsTo(heap, arena, ps, i, goal) && Ready(heap) && i < |ps| && from == ps[i]
      requires currentSize + i < allocatedSize
      modifies heap
      ensures LeadsTo(heap, arena, ps, i + 1, goal) && Ready(heap)
    {
      MergedStep(Merging(heap, arena, i), ps, i);
      MergeIntoCleared(heap, arena, i, from);
    }

    method MergeNew(heap: Heap, arena: Arena?, i: nat, ghost ps: seq<Ptr>, ghost goal: Place, from: Ptr)
      requires LeadsTo(heap, arena, ps, i, goal) && i < |ps| && from == ps[i]
      requires allocatedSize <= currentSize + i
      modifies elements, heap, arena
      ensures LeadsTo(heap, arena, ps, i + 1, goal)
    {
      MergedStep(Merging(heap, arena, i), ps, i);
      MergeIntoNew(heap, arena, i, from);
    }

    /** The loop over cleared strings. */
    method MergeAllCleared(heap: Heap, arena: Arena?, other: RepeatedPtrField, ghost ps: seq<Ptr>, ghost goal: Place)
        returns (i: nat)
      requires Valid() && Ready(heap) && other.Valid() && other != this && other.elements != elements
      requires ps == other.State().elems[..other.currentSize] && LeadsTo(heap, arena, ps, 0, goal)
      modifies heap
      ensures i <= |ps| && (i < |ps| ==> allocatedSize <= currentSize + i)
      ensures LeadsTo(heap, arena, ps, i, goal)
    {
      i := 0;
      while i < allocatedSize - currentSize && i < other.currentSize
        invariant i <= allocatedSize - currentSize && i <= other.currentSize && Ready(heap)
        invariant LeadsTo(heap, arena, ps, i, goal)
        modifies heap
      {
        MergeCleared(heap, arena, i, ps, goal, other.elements[i]);
        i := i + 1;
      }
    }

    /** The loop over new strings. */
    method MergeAllNew(
        heap: Heap, arena: Arena?, other: RepeatedPtrField, start: nat, ghost ps: seq<Ptr>, ghost goal: Place)
      requires Valid() && other.Valid() && other != this && other.elements != elements
      requires ps == other.State().elems[..other.currentSize] && LeadsTo(heap, arena, ps, start, goal)
      requires start < |ps| ==> allocatedSize <= currentSize + start
      modifies elements, heap, arena
      ensures LeadsTo(heap, arena, ps, |ps|, goal)
    {
      var i := start;
      while i < other.currentSize
        invariant start <= i <= other.currentSize && ps == other.State().elems[..other.currentSize]
        invariant LeadsTo(heap, arena, ps, i, goal)
        modifies elements, heap, arena
      {
        MergeNew(heap, arena, i, ps, goal, other.elements[i]);
        i := i + 1;
      }
    }

    /** Appends the strings of another field, first into cleared strings, then into new ones. */
    method MergeFrom(heap: Heap, arena: Arena?, other: RepeatedPtrField, room: nat)
      requires Valid() && Ready(heap) && other.Valid() && other != this && other.elements != elements
      requires Needs(State(), RepOp.MergeFrom(other.State().elems[..other.currentSize])) <= room
      modifies this, elements, heap, arena
      ensures Valid() && (elements == old(elements) || fresh(elements))
      ensures At(heap, arena)
              == old(At(heap, arena)).Apply(RepOp.MergeFrom(old(other.State().elems[..other.currentSize])), room).0
    {
      if other.currentSize > 0 {
        Reserve(currentSize + other.currentSize, room);
        MergeFromInternal(heap, arena, other);
      }
    }

    method MergeFromInternal(heap: Heap, arena: Arena?, other: RepeatedPtrField)
      requires Valid() && Ready(heap) && other.Valid() && other != this && other.elements != elements
      requires currentSize + other.currentSize <= totalSize
      modifies this, elements, heap, arena
      ensures Valid() && elements == old(elements)
      ensures At(heap, arena) == old(At(heap, arena)).Merged(old(other.State().elems[..other.currentSize]))
    {
      ghost var ps := other.State().elems[..other.currentSize];
      ghost var goal := At(heap, arena).Merged(ps);
      assert ps[0..] == ps;
      var i := MergeAllCleared(heap, arena, other, ps, goal);
      MergeAllNew(heap, arena, other, i, ps, goal);
      Extend(heap, arena, other.currentSize, ps, goal);
    }

    /** Brings the sizes up to date once all strings are in place. */
    method Extend(ghost heap: Heap, ghost arena: Arena?, size: nat, ghost ps: seq<Ptr>, ghost goal: Place)
      requires LeadsTo(heap, arena, ps, |ps|, goal) && size == |ps|
      modifies `currentSize, `allocatedSize
      ensures Valid() && At(heap, arena) == goal
    {
      currentSize := currentSize + size;
      if allocatedSize < currentSize {
        allocatedSize := currentSize;
      }
    }

    method SwapElements(i: nat, j: nat)
      requires Valid() && i < currentSize && j < currentSize
      modifies elements
      ensures Valid()
      ensures State() == old(State()).(elems := old(State().elems)[i := old(elements[j])][j := old(elements[i])])
    {
      elements[i], elements[j] := elements[j], elements[i];
    }

    method Destroy(heap: Heap, arena: Arena?)
      requires Valid() && Ready(heap)
      requires forall i, j :: 0 <= i < j < allocatedSize ==> elements[i] != elements[j]
      modifies heap
      ensures At(heap, arena) == old(At(heap, arena)).Apply(RepOp.Destroy, 0).0
    {
      if arena == null {
        ghost var ps := elements[..allocatedSize];
        var i := 0;
        while i < allocatedSize
          invariant i <= allocatedSize
          invariant forall k :: i <= k < allocatedSize ==> elements[k] in heap.m.text
          invariant heap.m.DeleteAll(ps[i..]) == old(heap.m).DeleteAll(ps)
        {
          heap.Delete(elements[i]);
          i := i + 1;
        }
      }
    }
  }
}
