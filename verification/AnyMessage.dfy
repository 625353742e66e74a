/**
  The accessors of `google::protobuf::Any`: two string fields that start out as the same
  shared empty string and use the NoArena family throughout.

  The generated accessors of `type_url` and `value` are the same code on two fields, so each
  is one method here, told which field it is for.
 */
module AnyMessages {
  import opened Options
  import opened ArenaStrings

  datatype Which = TypeUrl | Value

  class Any {
    const heap: Heap
    const empty: Ptr
    const typeUrl: ArenaStringPtr
    const value: ArenaStringPtr

    function Field(f: Which): ArenaStringPtr {
      match f
      case TypeUrl => typeUrl
      case Value => value
    }

    function Other(f: Which): ArenaStringPtr {
      match f
      case TypeUrl => value
      case Value => typeUrl
    }

    /** Both fields are readable and share nothing but the empty string. */
    ghost predicate Valid()
      reads heap, typeUrl, value
    {
      && typeUrl != value
      && (forall p :: p in heap.m.text ==> p < heap.m.next)
      && empty in heap.m.text && heap.m.text[empty] == ""
      && typeUrl.ptr in heap.m.text && value.ptr in heap.m.text
      && (typeUrl.ptr != value.ptr || typeUrl.ptr == empty)
    }

    ghost function Text(f: Which): string
      reads heap, typeUrl, value
    {
      heap.m.Text(Field(f).ptr)
    }

    /** The string is not assigned to, not even its own text. */
    twostate predicate Unwritten(p: Ptr)
      reads heap
    {
      p in heap.m.written ==> old(p in heap.m.written)
    }

    /** The other field is left as it was, down to its pointer, and so is the empty string. */
    twostate predicate OtherUnchanged(f: Which)
      reads heap, typeUrl, value
    {
      && Other(f).ptr == old(Other(f).ptr) && heap.m.Text(Other(f).ptr) == old(heap.m.Text(Other(f).ptr))
      && Unwritten(Other(f).ptr) && Unwritten(empty)
    }

    constructor (heap: Heap, empty: Ptr)
      requires forall p :: p in heap.m.text ==> p < heap.m.next
      requires empty in heap.m.text && heap.m.text[empty] == ""
      ensures Valid() && fresh(typeUrl) && fresh(value) && this.heap == heap && this.empty == empty
      ensures Text(TypeUrl) == Text(Value) == "" && typeUrl.ptr == value.ptr == empty
    {
      this.heap := heap;
      this.empty := empty;
      typeUrl := new ArenaStringPtr(empty);
      value := new ArenaStringPtr(empty);
    }

    method Get(f: Which) returns (s: string)
      requires Valid()
      ensures s == Text(f)
    {
      s := Field(f).Get(heap);
    }

    method Set(f: Which, s: string)
      requires Valid()
      modifies heap, Field(f)
      ensures Valid() && Text(f) == s && OtherUnchanged(f)
    {
      Field(f).SetNoArena(heap, empty, s);
    }

    method Clear(f: Which)
      requires Valid()
      modifies heap
      ensures Valid() && Text(f) == "" && OtherUnchanged(f)
    {
      Field(f).ClearToEmptyNoArena(heap, empty);
    }

    /** The caller may write through `p` without touching the empty string or the other field. */
    method Mutable(f: Which) returns (p: Ptr)
      requires Valid()
      modifies heap, Field(f)
      ensures Valid() && Text(f) == old(Text(f)) && OtherUnchanged(f)
      ensures p == Field(f).ptr && p in heap.m.text && p != empty && p != Other(f).ptr
    {
      p := Field(f).MutableNoArena(heap, empty);
    }

    method Release(f: Which) returns (p: Option<Ptr>)
      requires Valid()
      modifies Field(f)
      ensures Valid() && Text(f) == "" && OtherUnchanged(f)
      ensures p.None? <==> old(Field(f).ptr) == empty
      ensures p.Some? ==> p.value in heap.m.text && heap.m.text[p.value] == old(Text(f))
                          && p.value != empty && p.value != Other(f).ptr
    {
      p := Field(f).ReleaseNoArena(heap, empty);
    }

    /** The given string must be the caller's own: not the empty string and not a field's. */
    method SetAllocated(f: Which, p: Option<Ptr>)
      requires Valid()
      requires p.Some? ==> p.value in heap.m.text && p.value !in {empty, typeUrl.ptr, value.ptr}
      modifies heap, Field(f)
      ensures Valid() && OtherUnchanged(f)
      ensures Text(f) == if p.Some? then old(heap.m.Text(p.value)) else ""
      ensures Field(f).ptr == if p.Some? then p.value else empty
      ensures heap.m.freed == old(heap.m.freed)
                              + if old(Field(f).ptr) == empty then multiset{} else multiset{old(Field(f).ptr)}
      ensures old(Field(f).ptr) != empty ==> old(Field(f).ptr) !in heap.m.text
    {
      Field(f).SetAllocatedNoArena(heap, empty, p);
    }
  }
}
