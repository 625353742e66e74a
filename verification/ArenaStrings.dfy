/**
  `ArenaStringPtr`: a pointer that is either the shared default string, owned by the field, or
  owned by an arena through its cleanup list.

  Memory is explicit: strings have addresses, several pointers may hold one address, and every
  `delete` is recorded, so freeing twice and never freeing are both visible.
 */
module ArenaStrings {
  import opened Options

  // ----- memory

  type Ptr = nat

  /**
    `text` holds the strings that exist; `freed` counts the calls of `delete` per address;
    `written` are the addresses whose strings were ever assigned to, be it the text they had.
   */
  datatype Mem = Mem(text: map<Ptr, string>, next: Ptr, freed: multiset<Ptr>, written: set<Ptr>) {
    /** Reading where no string exists is undefined; it never happens, see `ArenaRuns`. */
    function Text(p: Ptr): string {
      if p in text then text[p] else ""
    }

    /** The new string lives at `next`. */
    function New(s: string): Mem {
      Mem(text[next := s], next + 1, freed, written)
    }

    function Write(p: Ptr, s: string): (m: Mem)
      ensures p in m.written && m.Text(p) == s && m.next == next && m.freed == freed
      ensures forall q: Ptr :: q != p ==> m.Text(q) == Text(q) && (q in m.written <==> q in written)
    {
      this.(text := text[p := s], written := written + {p})
    }

    function Delete(p: Ptr): Mem {
      Mem(text - {p}, next, freed + multiset{p}, written)
    }

    /** The cleanup list is drained from its head. */
    function DeleteAll(ps: seq<Ptr>): Mem
      decreases ps
    {
      if ps == [] then this else Delete(ps[0]).DeleteAll(ps[1..])
    }
  }

  class Heap {
    var m: Mem

    constructor (m: Mem)
      ensures this.m == m
    {
      this.m := m;
    }

    method New(s: string) returns (p: Ptr)
      modifies this
      ensures p == old(m.next) && m == old(m).New(s)
    {
      p := m.next;
      m := m.New(s);
    }

    method Assign(p: Ptr, s: string)
      requires p in m.text
      modifies this
      ensures m == old(m).Write(p, s)
    {
      m := m.Write(p, s);
    }

    method Delete(p: Ptr)
      requires p in m.text
      modifies this
      ensures m == old(m).Delete(p)
    {
      m := m.Delete(p);
    }
  }

  class Arena {
    // cleanup_list_, head first; every entry deletes its string
    var cleanup: seq<Ptr>

    constructor ()
      ensures cleanup == []
    {
      cleanup := [];
    }

    /** Null pointers are not registered. */
    method Own(p: Option<Ptr>)
      modifies this
      ensures cleanup == (if p.Some? then [p.value] else []) + old(cleanup)
    {
      if p.Some? {
        cleanup := [p.value] + cleanup;
      }
    }

    /** Destroying or resetting the arena runs and drops every entry. */
    method CleanupList(heap: Heap)
      requires forall i :: 0 <= i < |cleanup| ==> cleanup[i] in heap.m.text
      requires forall i, j :: 0 <= i < j < |cleanup| ==> cleanup[i] != cleanup[j]
      modifies this, heap
      ensures cleanup == [] && heap.m == old(heap.m).DeleteAll(old(cleanup))
    {
      while cleanup != []
        invariant forall i :: 0 <= i < |cleanup| ==> cleanup[i] in heap.m.text
        invariant forall i, j :: 0 <= i < j < |cleanup| ==> cleanup[i] != cleanup[j]
        invariant heap.m.DeleteAll(cleanup) == old(heap.m).DeleteAll(old(cleanup))
        decreases |cleanup|
      {
        heap.Delete(cleanup[0]);
        cleanup := cleanup[1..];
      }
    }
  }

  // ----- what one field sees, and the effect of each method on it

  datatype FieldOp =
    | Set(value: string)
    | Mutable
    | Release
    | SetAllocated(p: Option<Ptr>)
    | Destroy
    | ClearToEmpty
    | ClearToDefault
    | UnsafeArenaRelease
    | UnsafeArenaSetAllocated(p: Option<Ptr>)

  /** The memory, the field's `ptr_` and the cleanup list of its arena, if it has one. */
  datatype Site = Site(mem: Mem, ptr: Ptr, arena: Option<seq<Ptr>>) {
    function CreateInstance(initial: string): Site {
      Site(mem.New(initial), mem.next, if arena.Some? then Some([mem.next] + arena.value) else None)
    }

    /** The new state, and the pointer handed to the caller if any. */
    function Apply(def: Ptr, op: FieldOp): (Site, Option<Ptr>) {
      match op
      case Set(value) =>
        if ptr == def then (CreateInstance(value), None) else (this.(mem := mem.Write(ptr, value)), None)
      case Mutable =>
        var s := if ptr == def then CreateInstance(mem.Text(def)) else this;
        (s, Some(s.ptr))
      case Release =>
        if ptr == def then (this, None)
        else if arena.Some? then (Site(mem.New(mem.Text(ptr)), def, arena), Some(mem.next))
        else (this.(ptr := def), Some(ptr))
      case SetAllocated(p) =>
        var m := if arena.None? && ptr != def then mem.Delete(ptr) else mem;
        if p.None? then (Site(m, def, arena), None)
        else (Site(m, p.value, if arena.Some? then Some([p.value] + arena.value) else None), None)
      case Destroy =>
        (this.(mem := if arena.None? && ptr != def then mem.Delete(ptr) else mem), None)
      case ClearToEmpty =>
        (if ptr == def then this else this.(mem := mem.Write(ptr, "")), None)
      case ClearToDefault =>
        (if ptr == def then this else this.(mem := mem.Write(ptr, mem.Text(def))), None)
      case UnsafeArenaRelease =>
        if ptr == def then (this, None) else (this.(ptr := def), Some(ptr))
      case UnsafeArenaSetAllocated(p) =>
        (this.(ptr := if p.Some? then p.value else def), None)
    }

    /** The NoArena twins, which never look for an arena. */
    function ApplyNoArena(def: Ptr, op: FieldOp): (Site, Option<Ptr>)
      requires HasNoArenaTwin(op)
    {
      match op
      case Set(value) =>
        if ptr == def then (this.(mem := mem.New(value), ptr := mem.next), None)
        else (this.(mem := mem.Write(ptr, value)), None)
      case Mutable =>
        if ptr == def then (this.(mem := mem.New(mem.Text(def)), ptr := mem.next), Some(mem.next))
        else (this, Some(ptr))
      case Release =>
        if ptr == def then (this, None) else (this.(ptr := def), Some(ptr))
      case SetAllocated(p) =>
        (this.(mem := if ptr != def then mem.Delete(ptr) else mem,
               ptr := if p.Some? then p.value else def), None)
      case Destroy =>
        (this.(mem := if ptr != def then mem.Delete(ptr) else mem), None)
      case ClearToEmpty =>
        (if ptr == def then this else this.(mem := mem.Write(ptr, "")), None)
      case ClearToDefault =>
        (if ptr == def then this else this.(mem := mem.Write(ptr, mem.Text(def))), None)
    }
  }

  predicate HasNoArenaTwin(op: FieldOp) {
    !op.UnsafeArenaRelease? && !op.UnsafeArenaSetAllocated?
  }

  // ----- the class

  class ArenaStringPtr {
    var ptr: Ptr

    ghost function At(heap: Heap, arena: Arena?): Site
      reads this, heap, arena
    {
      Site(heap.m, ptr, if arena == null then None else Some(arena.cleanup))
    }

    ghost predicate Ready(heap: Heap, def: Ptr)
      reads this, heap
    {
      ptr in heap.m.text && def in heap.m.text
    }

    /** Construction followed by `UnsafeSetDefault`. */
    constructor (def: Ptr)
      ensures ptr == def
    {
      ptr := def;
    }

    method UnsafeSetDefault(def: Ptr)
      modifies this
      ensures ptr == def
    {
      ptr := def;
    }

    method CreateInstance(heap: Heap, arena: Arena?, initial: string)
      modifies this, heap, arena
      ensures At(heap, arena) == old(At(heap, arena)).CreateInstance(initial)
    {
      ptr := heap.New(initial);
      if arena != null {
        arena.Own(Some(ptr));
      }
    }

    method Set(heap: Heap, def: Ptr, value: string, arena: Arena?)
      requires Ready(heap, def)
      modifies this, heap, arena
      ensures At(heap, arena) == old(At(heap, arena)).Apply(def, FieldOp.Set(value)).0
    {
      if ptr == def {
        CreateInstance(heap, arena, value);
      } else {
        heap.Assign(ptr, value);
      }
    }

    method Get(heap: Heap) returns (value: string)
      requires ptr in heap.m.text
      ensures value == heap.m.text[ptr]
    {
      value := heap.m.text[ptr];
    }

    method Mutable(heap: Heap, def: Ptr, arena: Arena?) returns (r: Ptr)
      requires Ready(heap, def)
      modifies this, heap, arena
      ensures (At(heap, arena), Some(r)) == old(At(heap, arena)).Apply(def, FieldOp.Mutable)
    {
      if ptr == def {
        CreateInstance(heap, arena, heap.m.text[def]);
      }
      return ptr;
    }

    method Release(heap: Heap, def: Ptr, arena: Arena?) returns (released: Option<Ptr>)
      requires Ready(heap, def)
      modifies this, heap, arena
      ensures (At(heap, arena), released) == old(At(heap, arena)).Apply(def, FieldOp.Release)
    {
      if ptr == def {
        return None;
      }
      if arena != null {
        var copy := heap.New(heap.m.text[ptr]);
        released := Some(copy);
      } else {
        released := Some(ptr);
      }
      ptr := def;
    }

    method UnsafeArenaRelease(heap: Heap, def: Ptr, arena: Arena?) returns (released: Option<Ptr>)
      requires Ready(heap, def)
      modifies this
      ensures (At(heap, arena), released) == old(At(heap, arena)).Apply(def, FieldOp.UnsafeArenaRelease)
    {
      if ptr == def {
        return None;
      }
      released := Some(ptr);
      ptr := def;
    }

    method SetAllocated(heap: Heap, def: Ptr, value: Option<Ptr>, arena: Arena?)
      requires Ready(heap, def)
      modifies this, heap, arena
      ensures At(heap, arena) == old(At(heap, arena)).Apply(def, FieldOp.SetAllocated(value)).0
    {
      if arena == null && ptr != def {
        Destroy(heap, def, arena);
      }
      if value.Some? {
        ptr := value.value;
        if arena != null {
          arena.Own(value);
        }
      } else {
        ptr := def;
      }
    }

    method UnsafeArenaSetAllocated(heap: Heap, def: Ptr, value: Option<Ptr>, arena: Arena)
      requires Ready(heap, def)
      modifies this
      ensures At(heap, arena) == old(At(heap, arena)).Apply(def, FieldOp.UnsafeArenaSetAllocated(value)).0
    {
      ptr := if value.Some? then value.value else def;
    }

    method Swap(other: ArenaStringPtr)
      modifies this, other
      ensures ptr == old(other.ptr) && other.ptr == old(ptr)
    {
      var p := ptr;
      ptr := other.ptr;
      other.ptr := p;
    }

    method Destroy(heap: Heap, def: Ptr, arena: Arena?)
      requires Ready(heap, def)
      modifies heap
      ensures At(heap, arena) == old(At(heap, arena)).Apply(def, FieldOp.Destroy).0
    {
      if arena == null && ptr != def {
        heap.Delete(ptr);
      }
    }

    method ClearToEmpty(heap: Heap, def: Ptr, arena: Arena?)
      requires Ready(heap, def)
      modifies heap
      ensures At(heap, arena) == old(At(heap, arena)).Apply(def, FieldOp.ClearToEmpty).0
    {
      if ptr != def {
        heap.Assign(ptr, "");
      }
    }

    method ClearToDefault(heap: Heap, def: Ptr, arena: Arena?)
      requires Ready(heap, def)
      modifies heap
      ensures At(heap, arena) == old(At(heap, arena)).Apply(def, FieldOp.ClearToDefault).0
    {
      if ptr != def {
        heap.Assign(ptr, heap.m.text[def]);
      }
    }

    method SetNoArena(heap: Heap, def: Ptr, value: string)
      requires Ready(heap, def)
      modifies this, heap
      ensures At(heap, null) == old(At(heap, null)).ApplyNoArena(def, FieldOp.Set(value)).0
    {
      if ptr == def {
        ptr := heap.New(value);
      } else {
        heap.Assign(ptr, value);
      }
    }

    method MutableNoArena(heap: Heap, def: Ptr) returns (r: Ptr)
      requires Ready(heap, def)
      modifies this, heap
      ensures (At(heap, null), Some(r)) == old(At(heap, null)).ApplyNoArena(def, FieldOp.Mutable)
    {
      if ptr == def {
        ptr := heap.New(heap.m.text[def]);
      }
      return ptr;
    }

    method ReleaseNoArena(heap: Heap, def: Ptr) returns (released: Option<Ptr>)
      requires Ready(heap, def)
      modifies this
      ensures (At(heap, null), released) == old(At(heap, null)).ApplyNoArena(def, FieldOp.Release)
    {
      if ptr == def {
        return None;
      }
      released := Some(ptr);
      ptr := def;
    }

    method SetAllocatedNoArena(heap: Heap, def: Ptr, value: Option<Ptr>)
      requires Ready(heap, def)
      modifies this, heap
      ensures At(heap, null) == old(At(heap, null)).ApplyNoArena(def, FieldOp.SetAllocated(value)).0
    {
      if ptr != def {
        heap.Delete(ptr);
      }
      ptr := if value.Some? then value.value else def;
    }

    method DestroyNoArena(heap: Heap, def: Ptr)
      requires Ready(heap, def)
      modifies heap
      ensures At(heap, null) == old(At(heap, null)).ApplyNoArena(def, FieldOp.Destroy).0
    {
      if ptr != def {
        heap.Delete(ptr);
      }
    }

    method ClearToEmptyNoArena(heap: Heap, def: Ptr)
      requires Ready(heap, def)
      modifies heap
      ensures At(heap, null) == old(At(heap, null)).ApplyNoArena(def, FieldOp.ClearToEmpty).0
    {
      if ptr != def {
        heap.Assign(ptr, "");
      }
    }

    method ClearToDefaultNoArena(heap: Heap, def: Ptr)
      requires Ready(heap, def)
      modifies heap
      ensures At(heap, null) == old(At(heap, null)).ApplyNoArena(def, FieldOp.ClearToDefault).0
    {
      if ptr != def {
        heap.Assign(ptr, heap.m.text[def]);
      }
    }
  }
}
