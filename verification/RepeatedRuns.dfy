/**
  Runs of any number of repeated string fields, arenas and callers over one memory: who frees
  which string, and what readers see.
 */
module RepeatedRuns {
  import opened ArenaStrings
  import opened Options
  import opened RepeatedStrings
  import ArenaRuns

  /** `home` is the arena of the field's message; a field is dead once its message is. */
  datatype Field = Field(rep: Rep, home: Option<nat>, alive: bool)

  /** `callers`: strings that user code must free or give away. */
  datatype World = World(mem: Mem, arenas: seq<seq<Ptr>>, fields: seq<Field>, callers: set<Ptr>)

  datatype Op =
    | NewArena
    | Construct(home: Option<nat>)
    | On(i: nat, op: RepOp, room: nat)
    | Merge(i: nat, j: nat, room: nat)
    | Swap(i: nat, j: nat)
    | WriteElement(i: nat, k: nat, text: string)
    | CallerNew(text: string)
    | CallerDelete(p: Ptr)
    | CallerWrite(p: Ptr, text: string)
    | Teardown(a: nat)

  const INIT := World(Mem(map[], 0, multiset{}, {}), [], [], {})

  // ----- what the rules allow, and what the calls do

  predicate Live(w: World, i: nat) {
    i < |w.fields| && w.fields[i].alive
  }

  /** A caller gives away only strings of its own, and to the cleared ones only empty strings. */
  predicate MayGive(w: World, op: RepOp) {
    match op
    case AddAllocated(p) => p in w.callers
    case AddCleared(p) => p in w.callers && w.mem.Text(p) == ""
    case MergeFrom(_) => false
    case _ => true
  }

  predicate Allowed(w: World, op: Op) {
    match op
    case NewArena => true
    case Construct(home) => home.Some? ==> home.value < |w.arenas|
    case On(i, rop, room) =>
      && Live(w, i) && w.fields[i].rep.Ok() && MayCall(w.fields[i].rep, w.fields[i].home.Some?, rop)
      && Needs(w.fields[i].rep, rop) <= room && MayGive(w, rop)
    case Merge(i, j, room) =>
      && Live(w, i) && Live(w, j) && i != j && w.fields[i].rep.Ok()
      && Needs(w.fields[i].rep, RepOp.MergeFrom(Shown(w.fields[j]))) <= room
    case Swap(i, j) => Live(w, i) && Live(w, j) && w.fields[i].home == w.fields[j].home
    case WriteElement(i, k, _) => Live(w, i) && k < w.fields[i].rep.current <= |w.fields[i].rep.elems|
    case CallerNew(_) => true
    case CallerDelete(p) => p in w.callers
    case CallerWrite(p, _) => p in w.callers
    case Teardown(a) => a < |w.arenas|
  }

  /** The visible pointers of a field. */
  function Shown(f: Field): seq<Ptr> {
    if f.rep.current <= |f.rep.elems| then f.rep.elems[..f.rep.current] else []
  }

  function PlaceOf(w: World, i: nat): Place
    requires i < |w.fields|
  {
    var f := w.fields[i];
    Place(w.mem, f.rep,
          if f.home.None? then None else Some(if f.home.value < |w.arenas| then w.arenas[f.home.value] else []))
  }

  function Put(w: World, i: nat, s: Place): World
    requires i < |w.fields|
  {
    var f := w.fields[i];
    w.(mem := s.mem,
       fields := w.fields[i := f.(rep := s.rep)],
       arenas :=
         if f.home.Some? && f.home.value < |w.arenas| && s.arena.Some? then w.arenas[f.home.value := s.arena.value]
         else w.arenas)
  }

  function Only(p: Option<Ptr>): set<Ptr> {
    if p.Some? then {p.value} else {}
  }

  function AfterOn(w: World, i: nat, op: RepOp, room: nat): World
    requires Allowed(w, On(i, op, room))
  {
    var (s, out) := PlaceOf(w, i).Apply(op, room);
    var w' := Put(w, i, s);
    match op
    case AddAllocated(p) => w'.(callers := w.callers - {p})
    case AddCleared(p) => w'.(callers := w.callers - {p})
    case ReleaseLast => w'.(callers := w.callers + Only(out))
    case ReleaseCleared => w'.(callers := w.callers + Only(out))
    case Destroy => w'.(fields := w.fields[i := w.fields[i].(alive := false)])
    case _ => w'
  }

  function After(w: World, op: Op): World
    requires Allowed(w, op)
  {
    match op
    case NewArena => w.(arenas := w.arenas + [[]])
    case Construct(home) => w.(fields := w.fields + [Field(Rep([], 0, 0), home, true)])
    case On(i, rop, room) => AfterOn(w, i, rop, room)
    case Merge(i, j, room) => Put(w, i, PlaceOf(w, i).Apply(RepOp.MergeFrom(Shown(w.fields[j])), room).0)
    case Swap(i, j) =>
      var (f, g) := (w.fields[i], w.fields[j]);
      w.(fields := w.fields[i := f.(rep := g.rep)][j := g.(rep := f.rep)])
    case WriteElement(i, k, text) => w.(mem := w.mem.Write(w.fields[i].rep.elems[k], text))
    case CallerNew(text) => w.(mem := w.mem.New(text), callers := w.callers + {w.mem.next})
    case CallerDelete(p) => w.(mem := w.mem.Delete(p), callers := w.callers - {p})
    case CallerWrite(p, text) => w.(mem := w.mem.Write(p, text))
    case Teardown(a) =>
      w.(mem := w.mem.DeleteAll(w.arenas[a]),
         arenas := w.arenas[a := []],
         fields := seq(|w.fields|, i requires 0 <= i < |w.fields| =>
           if w.fields[i].home == Some(a) then w.fields[i].(alive := false) else w.fields[i]))
  }

  ghost predicate Steps(ws: seq<World>, ops: seq<Op>) {
    && |ws| == |ops| + 1
    && forall i :: 0 <= i < |ops| ==> Allowed(ws[i], ops[i]) && ws[i + 1] == After(ws[i], ops[i])
  }

  ghost predicate Run(ws: seq<World>, ops: seq<Op>) {
    Steps(ws, ops) && ws[0] == INIT
  }

  // ----- who owns what

  /** How often a field lists the string; with `owns`, only if it is the one to free it. */
  function Listed(f: Field, p: Ptr, owns: bool): nat {
    if f.alive && (owns ==> f.home.None?) then multiset(f.rep.elems)[p] else 0
  }

  function Count(fs: seq<Field>, p: Ptr, owns: bool): nat {
    if fs == [] then 0 else Count(fs[..|fs| - 1], p, owns) + Listed(fs[|fs| - 1], p, owns)
  }

  function Owners(w: World, p: Ptr): nat {
    Count(w.fields, p, true) + ArenaRuns.ArenasOwn(w.arenas, p) + if p in w.callers then 1 else 0
  }

  ghost predicate Conserved(w: World, p: Ptr) {
    Owners(w, p) + w.mem.freed[p] == if p < w.mem.next then 1 else 0
  }

  ghost predicate Lives(w: World, p: Ptr) {
    p in w.mem.text <==> p < w.mem.next && w.mem.freed[p] == 0
  }

  /** No string is listed twice, and callers keep none that is listed. */
  ghost predicate Unshared(w: World, p: Ptr) {
    Count(w.fields, p, false) <= 1 && (Count(w.fields, p, false) == 1 ==> p in w.mem.text && p !in w.callers)
  }

  ghost predicate StringOk(w: World, p: Ptr) {
    Conserved(w, p) && Lives(w, p) && Unshared(w, p)
  }

  ghost predicate FieldOk(w: World, f: Field) {
    && f.rep.Ok()
    && (f.alive && f.home.Some? ==>
          f.home.value < |w.arenas| && forall p :: p in f.rep.elems ==> p in w.arenas[f.home.value])
    && (f.alive ==> forall k :: f.rep.current <= k < |f.rep.elems| ==> w.mem.Text(f.rep.elems[k]) == "")
  }

  ghost predicate Invariant(w: World) {
    && (forall p: Ptr :: StringOk(w, p))
    && forall i :: 0 <= i < |w.fields| ==> FieldOk(w, w.fields[i])
  }

  // ----- sums under single changes

  lemma {:induction false} CountAfterUpdate(fs: seq<Field>, i: nat, f: Field, p: Ptr, owns: bool)
    requires i < |fs|
    ensures Count(fs[i := f], p, owns) + Listed(fs[i], p, owns) == Count(fs, p, owns) + Listed(f, p, owns)
  {
    var n := |fs| - 1;
    if i < n {
      CountAfterUpdate(fs[..n], i, f, p, owns);
      assert fs[i := f][..n] == fs[..n][i := f];
    } else {
      assert fs[i := f][..n] == fs[..n];
    }
  }

  lemma ListedIsCounted(fs: seq<Field>, i: nat, p: Ptr, owns: bool)
    requires i < |fs|
    ensures Listed(fs[i], p, owns) <= Count(fs, p, owns)
  {
    CountAfterUpdate(fs, i, fs[i].(alive := false), p, owns);
  }

  lemma TwoListed(fs: seq<Field>, i: nat, j: nat, p: Ptr)
    requires i < |fs| && j < |fs| && i != j
    ensures Listed(fs[i], p, false) + Listed(fs[j], p, false) <= Count(fs, p, false)
  {
    var gs := fs[i := fs[i].(alive := false)];
    CountAfterUpdate(fs, i, fs[i].(alive := false), p, false);
    ListedIsCounted(gs, j, p, false);
  }

  lemma {:induction false} TwiceInSeq(s: seq<Ptr>, k: nat, l: nat)
    requires k < l < |s| && s[k] == s[l]
    ensures multiset(s)[s[k]] >= 2
  {
    assert s == s[..l] + s[l..];
    assert s[..l][k] == s[k] && s[l..][0] == s[l];
    assert s[k] in multiset(s[..l]) && s[k] in multiset(s[l..]);
  }

  /** Different slots hold different strings, in one field and in two. */
  lemma SlotsDiffer(w: World, i: nat, k: nat, j: nat, l: nat)
    requires Invariant(w) && Live(w, i) && Live(w, j)
    requires k < |w.fields[i].rep.elems| && l < |w.fields[j].rep.elems| && (i != j || k != l)
    ensures w.fields[i].rep.elems[k] != w.fields[j].rep.elems[l]
  {
    var p := w.fields[i].rep.elems[k];
    assert StringOk(w, p);
    assert p in multiset(w.fields[i].rep.elems);
    if i == j {
      ListedIsCounted(w.fields, i, p, false);
      if w.fields[j].rep.elems[l] == p {
        if k < l {
          TwiceInSeq(w.fields[i].rep.elems, k, l);
        } else {
          TwiceInSeq(w.fields[i].rep.elems, l, k);
        }
      }
    } else {
      TwoListed(w.fields, i, j, p);
    }
  }

  lemma SlotIsLive(w: World, i: nat, k: nat)
    requires Invariant(w) && Live(w, i) && k < |w.fields[i].rep.elems|
    ensures w.fields[i].rep.elems[k] in w.mem.text && w.fields[i].rep.elems[k] < w.mem.next
    ensures w.fields[i].rep.elems[k] !in w.callers
  {
    var p := w.fields[i].rep.elems[k];
    assert StringOk(w, p) && p in multiset(w.fields[i].rep.elems);
    ListedIsCounted(w.fields, i, p, false);
  }

  // ----- a call on one field

  lemma PutCounts(w: World, i: nat, s: Place, p: Ptr)
    requires Live(w, i) && FieldOk(w, w.fields[i]) && (s.arena.Some? <==> w.fields[i].home.Some?)
    ensures Count(Put(w, i, s).fields, p, false) + multiset(w.fields[i].rep.elems)[p]
            == Count(w.fields, p, false) + multiset(s.rep.elems)[p]
    ensures w.fields[i].home.None? ==>
              Owners(Put(w, i, s), p) + multiset(w.fields[i].rep.elems)[p] == Owners(w, p) + multiset(s.rep.elems)[p]
    ensures w.fields[i].home.Some? ==>
              var a := w.fields[i].home.value;
              Owners(Put(w, i, s), p) + ArenaRuns.Entries(w.arenas[a], p)
              == Owners(w, p) + ArenaRuns.Entries(s.arena.value, p)
  {
    var f := w.fields[i];
    CountAfterUpdate(w.fields, i, f.(rep := s.rep), p, false);
    CountAfterUpdate(w.fields, i, f.(rep := s.rep), p, true);
    if f.home.Some? {
      ArenaRuns.ArenasOwnAfterUpdate(w.arenas, f.home.value, s.arena.value, p);
    }
  }

  /** Fields other than `i` stay right if the texts of their strings do and arenas only grow. */
  ghost predicate OthersSee(w: World, w': World, i: nat) {
    && |w'.fields| == |w.fields| && |w'.arenas| == |w.arenas|
    && (forall j :: 0 <= j < |w.fields| && j != i ==> w'.fields[j] == w.fields[j])
    && (forall a, p :: 0 <= a < |w.arenas| && p in w.arenas[a] ==> p in w'.arenas[a])
    && (forall j: nat, k :: Live(w, j) && j != i && 0 <= k < |w.fields[j].rep.elems| ==>
          w'.mem.Text(w.fields[j].rep.elems[k]) == w.mem.Text(w.fields[j].rep.elems[k]))
  }

  lemma OthersStayOk(w: World, w': World, i: nat)
    requires Invariant(w) && OthersSee(w, w', i) && i < |w.fields| && FieldOk(w', w'.fields[i])
    ensures forall j :: 0 <= j < |w'.fields| ==> FieldOk(w', w'.fields[j])
  {
    forall j: nat | j < |w'.fields| && j != i
      ensures FieldOk(w', w'.fields[j])
    {
      assert FieldOk(w, w.fields[j]) && w'.fields[j] == w.fields[j];
      if w.fields[j].alive {
        assert Live(w, j);
      }
    }
  }

  /** What happened to one string: it came in, went out, was made or freed, all at once or not at all. */
  lemma StringStaysOk(w: World, w': World, p: Ptr)
    requires StringOk(w, p)
    requires Owners(w', p) == Owners(w, p) && Count(w'.fields, p, false) == Count(w.fields, p, false)
    requires w'.mem.freed[p] == w.mem.freed[p] && w'.callers == w.callers
    requires p < w'.mem.next <==> p < w.mem.next
    requires p in w'.mem.text <==> p in w.mem.text
    ensures StringOk(w', p)
  {
  }

  lemma ReserveKeeps(w: World, i: nat, total: nat)
    requires Invariant(w) && Live(w, i) && total >= w.fields[i].rep.total
    ensures Invariant(Put(w, i, PlaceOf(w, i).(rep := w.fields[i].rep.(total := total))))
  {
    var s := PlaceOf(w, i).(rep := w.fields[i].rep.(total := total));
    var w' := Put(w, i, s);
    assert FieldOk(w, w.fields[i]);
    forall p: Ptr
      ensures StringOk(w', p)
    {
      assert StringOk(w, p);
      PutCounts(w, i, s, p);
    }
    assert w.fields[i].home.Some? ==> w'.arenas == w.arenas;
    OthersStayOk(w, w', i);
  }

  /** A field takes one new empty string. */
  lemma CreateKeeps(w: World, i: nat)
    requires Invariant(w) && Live(w, i)
    requires w.fields[i].rep.current == |w.fields[i].rep.elems| < w.fields[i].rep.total
    ensures Invariant(Put(w, i, PlaceOf(w, i).Added()))
  {
    var s := PlaceOf(w, i).Added();
    var w' := Put(w, i, s);
    assert FieldOk(w, w.fields[i]);
    forall p: Ptr
      ensures StringOk(w', p)
    {
      assert StringOk(w, p);
      PutCounts(w, i, s, p);
    }
    NewIsUnused(w);
    OthersStayOk(w, w', i);
  }

  /** The next address is in no field. */
  lemma NewIsUnused(w: World)
    requires Invariant(w)
    ensures forall j: nat, k: nat :: Live(w, j) && k < |w.fields[j].rep.elems| ==>
              w.fields[j].rep.elems[k] != w.mem.next
  {
    forall j: nat, k: nat | Live(w, j) && k < |w.fields[j].rep.elems|
      ensures w.fields[j].rep.elems[k] != w.mem.next
    {
      SlotIsLive(w, j, k);
    }
  }

  lemma AddKeeps(w: World, i: nat)
    requires Invariant(w) && Live(w, i)
    requires w.fields[i].rep.current < |w.fields[i].rep.elems| || |w.fields[i].rep.elems| < w.fields[i].rep.total
    ensures Invariant(Put(w, i, PlaceOf(w, i).Added()))
  {
    if w.fields[i].rep.current < |w.fields[i].rep.elems| {
      ResizeKeeps(w, i, w.fields[i].rep.current + 1);
    } else {
      assert FieldOk(w, w.fields[i]);
      CreateKeeps(w, i);
    }
  }

  /** More, or fewer, of the allocated strings become visible; those that are hidden must be empty. */
  lemma ResizeKeeps(w: World, i: nat, current: nat)
    requires Invariant(w) && Live(w, i) && current <= |w.fields[i].rep.elems|
    requires forall k: nat :: current <= k < w.fields[i].rep.current <= |w.fields[i].rep.elems| ==>
               w.mem.Text(w.fields[i].rep.elems[k]) == ""
    ensures Invariant(Put(w, i, PlaceOf(w, i).(rep := w.fields[i].rep.(current := current))))
  {
    var s := PlaceOf(w, i).(rep := w.fields[i].rep.(current := current));
    var w' := Put(w, i, s);
    assert FieldOk(w, w.fields[i]);
    forall p: Ptr
      ensures StringOk(w', p)
    {
      assert StringOk(w, p);
      PutCounts(w, i, s, p);
    }
    assert w.fields[i].home.Some? ==> w'.arenas == w.arenas;
    OthersStayOk(w, w', i);
  }

  /** A visible string may hold anything. */
  lemma WriteKeeps(w: World, i: nat, k: nat, text: string)
    requires Invariant(w) && Live(w, i) && k < w.fields[i].rep.current
    requires FieldOk(w, w.fields[i])
    ensures Invariant(w.(mem := w.mem.Write(w.fields[i].rep.elems[k], text)))
  {
    var q := w.fields[i].rep.elems[k];
    var w' := w.(mem := w.mem.Write(q, text));
    SlotIsLive(w, i, k);
    forall p: Ptr
      ensures StringOk(w', p)
    {
      assert StringOk(w, p);
    }
    forall j: nat, l: nat | Live(w, j) && l < |w.fields[j].rep.elems| && (i != j || k != l)
      ensures w'.mem.Text(w.fields[j].rep.elems[l]) == w.mem.Text(w.fields[j].rep.elems[l])
    {
      SlotsDiffer(w, i, k, j, l);
    }
    OthersStayOk(w, w', i);
  }

  // ----- merging, clearing and removing, put together from these

  lemma PutTwice(w: World, i: nat, s: Place, t: Place)
    requires Live(w, i) && FieldOk(w, w.fields[i])
    requires s.arena.Some? <==> w.fields[i].home.Some?
    requires t.arena.Some? <==> w.fields[i].home.Some?
    ensures PlaceOf(Put(w, i, s), i) == s && Put(Put(w, i, s), i, t) == Put(w, i, t)
    ensures Live(Put(w, i, s), i)
  {
  }

  lemma AppendKeeps(w: World, i: nat, text: string)
    requires Invariant(w) && Live(w, i) && w.fields[i].rep.current < w.fields[i].rep.total
    ensures Invariant(Put(w, i, PlaceOf(w, i).Appended(text)))
  {
    assert FieldOk(w, w.fields[i]);
    var r, s := w.fields[i].rep, PlaceOf(w, i).Added();
    AddKeeps(w, i);
    var v := Put(w, i, s);
    PutTwice(w, i, s, s);
    assert FieldOk(v, v.fields[i]);
    WriteKeeps(v, i, r.current, text);
    assert Put(w, i, PlaceOf(w, i).Appended(text)) == v.(mem := v.mem.Write(v.fields[i].rep.elems[r.current], text));
  }

  lemma {:induction false} MergedKeeps(w: World, i: nat, ps: seq<Ptr>)
    requires Invariant(w) && Live(w, i) && w.fields[i].rep.Ok()
    requires w.fields[i].rep.current + |ps| <= w.fields[i].rep.total
    ensures Invariant(Put(w, i, PlaceOf(w, i).Merged(ps)))
    decreases ps
  {
    assert FieldOk(w, w.fields[i]);
    MergedKeepsRep(PlaceOf(w, i), ps);
    if ps == [] {
      assert Put(w, i, PlaceOf(w, i)) == w by {
        assert w.fields[i := w.fields[i]] == w.fields;
      }
    } else {
      var s := PlaceOf(w, i).Appended(w.mem.Text(ps[0]));
      AppendKeeps(w, i, w.mem.Text(ps[0]));
      PutTwice(w, i, s, s.Merged(ps[1..]));
      MergedKeepsRep(s, ps[1..]);
      MergedKeeps(Put(w, i, s), i, ps[1..]);
    }
  }

  lemma {:induction false} EmptiedText(m: Mem, ps: seq<Ptr>, p: Ptr)
    ensures Emptied(m, ps).Text(p) == if p in ps then "" else m.Text(p)
    decreases ps
  {
    if ps != [] {
      EmptiedText(m.Write(ps[0], ""), ps[1..], p);
      assert ps == [ps[0]] + ps[1..];
    }
  }

  /** The loop of `Clear` from its turn `k` on. */
  lemma {:induction false} EmptyingKeeps(w: World, i: nat, k: nat)
    requires Invariant(w) && Live(w, i) && w.fields[i].rep.Ok() && k <= w.fields[i].rep.current
    ensures Invariant(w.(mem := Emptied(w.mem, Shown(w.fields[i])[k..])))
    decreases w.fields[i].rep.current - k
  {
    var ps := Shown(w.fields[i]);
    if k < |ps| {
      var v := w.(mem := w.mem.Write(ps[k], ""));
      assert FieldOk(w, w.fields[i]);
      WriteKeeps(w, i, k, "");
      EmptyingKeeps(v, i, k + 1);
      assert ps[k..][1..] == ps[k + 1..] && Shown(v.fields[i]) == ps;
    }
  }

  lemma ClearKeeps(w: World, i: nat)
    requires Invariant(w) && Live(w, i) && w.fields[i].rep.Ok()
    ensures Invariant(Put(w, i, PlaceOf(w, i).Apply(RepOp.Clear, 0).0))
  {
    var ps := Shown(w.fields[i]);
    var v := w.(mem := Emptied(w.mem, ps));
    assert FieldOk(w, w.fields[i]);
    EmptyingKeeps(w, i, 0);
    assert ps[0..] == ps;
    forall k: nat | k < |ps|
      ensures v.mem.Text(v.fields[i].rep.elems[k]) == ""
    {
      EmptiedText(w.mem, ps, ps[k]);
    }
    ResizeKeeps(v, i, 0);
    assert Put(w, i, PlaceOf(w, i).Apply(RepOp.Clear, 0).0)
        == Put(v, i, PlaceOf(v, i).(rep := v.fields[i].rep.(current := 0)));
  }

  lemma RemoveLastKeeps(w: World, i: nat)
    requires Invariant(w) && Live(w, i) && w.fields[i].rep.Ok() && w.fields[i].rep.current > 0
    ensures Invariant(Put(w, i, PlaceOf(w, i).Apply(RepOp.RemoveLast, 0).0))
  {
    var r := w.fields[i].rep;
    var k := r.current - 1;
    var v := w.(mem := w.mem.Write(r.elems[k], ""));
    assert FieldOk(w, w.fields[i]);
    WriteKeeps(w, i, k, "");
    ResizeKeeps(v, i, k);
    assert Put(w, i, PlaceOf(w, i).Apply(RepOp.RemoveLast, 0).0) == Put(v, i, PlaceOf(v, i).(rep := r.(current := k)));
  }

  // ----- strings that change hands

  lemma GivenIsUnlisted(w: World, q: Ptr)
    requires Invariant(w) && q in w.callers
    ensures q in w.mem.text && q < w.mem.next && Count(w.fields, q, false) == 0
    ensures forall j: nat, k: nat :: Live(w, j) && k < |w.fields[j].rep.elems| ==> w.fields[j].rep.elems[k] != q
  {
    assert StringOk(w, q);
    forall j: nat, k: nat | Live(w, j) && k < |w.fields[j].rep.elems|
      ensures w.fields[j].rep.elems[k] != q
    {
      SlotIsLive(w, j, k);
    }
  }

  function Registered(s: Place, q: Ptr): Option<seq<Ptr>> {
    if s.arena.Some? then Some([q] + s.arena.value) else None
  }

  /** A caller's string goes into a free slot of the field. */
  function WithInserted(w: World, i: nat, q: Ptr): World
    requires Live(w, i) && w.fields[i].rep.Ok()
  {
    var s := PlaceOf(w, i);
    Put(w, i, Place(s.mem, s.rep.Inserted(q), Registered(s, q))).(callers := w.callers - {q})
  }

  lemma InsertKeepsString(w: World, i: nat, q: Ptr, p: Ptr)
    requires Invariant(w) && Live(w, i) && q in w.callers && w.fields[i].rep.Ok()
    ensures StringOk(WithInserted(w, i, q), p)
  {
    var s := PlaceOf(w, i);
    assert FieldOk(w, w.fields[i]);
    GivenIsUnlisted(w, q);
    assert StringOk(w, p);
    PutCounts(w, i, Place(s.mem, s.rep.Inserted(q), Registered(s, q)), p);
  }

  lemma InsertKeeps(w: World, i: nat, q: Ptr)
    requires Invariant(w) && Live(w, i) && q in w.callers
    requires w.fields[i].rep.Ok() && |w.fields[i].rep.elems| < w.fields[i].rep.total
    ensures Invariant(WithInserted(w, i, q))
  {
    assert FieldOk(w, w.fields[i]);
    forall p: Ptr
      ensures StringOk(WithInserted(w, i, q), p)
    {
      InsertKeepsString(w, i, q, p);
    }
    OthersStayOk(w, WithInserted(w, i, q), i);
  }

  /** With no slot free but those that hold cleared strings, one of these makes room. */
  function WithReplaced(w: World, i: nat, q: Ptr): World
    requires Live(w, i) && w.fields[i].rep.current < |w.fields[i].rep.elems|
  {
    var (s, r) := (PlaceOf(w, i), w.fields[i].rep);
    var m := if s.arena.Some? then s.mem else s.mem.Delete(r.elems[r.current]);
    var s' := Place(m, Rep(r.elems[r.current := q], r.current + 1, r.total), Registered(s, q));
    Put(w, i, s').(callers := w.callers - {q})
  }

  lemma ReplaceKeepsString(w: World, i: nat, q: Ptr, p: Ptr)
    requires Invariant(w) && Live(w, i) && q in w.callers
    requires w.fields[i].rep.Ok() && w.fields[i].rep.current < |w.fields[i].rep.elems|
    ensures StringOk(WithReplaced(w, i, q), p)
  {
    var s, r := PlaceOf(w, i), w.fields[i].rep;
    assert FieldOk(w, w.fields[i]);
    GivenIsUnlisted(w, q);
    SlotIsLive(w, i, r.current);
    assert StringOk(w, p);
    var m := if s.arena.Some? then s.mem else s.mem.Delete(r.elems[r.current]);
    PutCounts(w, i, Place(m, Rep(r.elems[r.current := q], r.current + 1, r.total), Registered(s, q)), p);
  }

  lemma ReplaceKeepsTexts(w: World, i: nat, q: Ptr, j: nat, l: nat)
    requires Invariant(w) && Live(w, i) && w.fields[i].rep.current < |w.fields[i].rep.elems|
    requires Live(w, j) && l < |w.fields[j].rep.elems| && (i != j || l != w.fields[i].rep.current)
    ensures WithReplaced(w, i, q).mem.Text(w.fields[j].rep.elems[l]) == w.mem.Text(w.fields[j].rep.elems[l])
  {
    SlotsDiffer(w, i, w.fields[i].rep.current, j, l);
  }

  lemma ReplaceKeeps(w: World, i: nat, q: Ptr)
    requires Invariant(w) && Live(w, i) && q in w.callers
    requires w.fields[i].rep.Ok() && w.fields[i].rep.current < |w.fields[i].rep.elems|
    ensures Invariant(WithReplaced(w, i, q))
  {
    var w' := WithReplaced(w, i, q);
    assert FieldOk(w, w.fields[i]);
    forall p: Ptr
      ensures StringOk(w', p)
    {
      ReplaceKeepsString(w, i, q, p);
    }
    forall j: nat, l: nat | Live(w, j) && l < |w.fields[j].rep.elems| && (i != j || l != w.fields[i].rep.current)
      ensures w'.mem.Text(w.fields[j].rep.elems[l]) == w.mem.Text(w.fields[j].rep.elems[l])
    {
      ReplaceKeepsTexts(w, i, q, j, l);
    }
    OthersStayOk(w, w', i);
  }

  /** After `Reserve`, giving a string to the field is one or the other. */
  lemma AddAllocatedKeeps(w: World, i: nat, q: Ptr, room: nat)
    requires Invariant(w) && Allowed(w, On(i, RepOp.AddAllocated(q), room))
    ensures Invariant(AfterOn(w, i, RepOp.AddAllocated(q), room))
  {
    var r := w.fields[i].rep.Reserved(Needs(w.fields[i].rep, RepOp.AddAllocated(q)), room);
    var t := PlaceOf(w, i).(rep := r);
    var v := Put(w, i, t);
    assert FieldOk(w, w.fields[i]);
    ReserveKeeps(w, i, r.total);
    PutTwice(w, i, t, PlaceOf(w, i).Apply(RepOp.AddAllocated(q), room).0);
    assert FieldOk(v, v.fields[i]);
    if r.current < r.total && |r.elems| == r.total {
      ReplaceKeeps(v, i, q);
      assert AfterOn(w, i, RepOp.AddAllocated(q), room) == WithReplaced(v, i, q);
    } else {
      InsertKeeps(v, i, q);
      assert AfterOn(w, i, RepOp.AddAllocated(q), room) == WithInserted(v, i, q);
    }
  }

  /** A caller's empty string joins the cleared ones. */
  lemma AddClearedKeeps(w: World, i: nat, q: Ptr, room: nat)
    requires Invariant(w) && Allowed(w, On(i, RepOp.AddCleared(q), room))
    ensures Invariant(AfterOn(w, i, RepOp.AddCleared(q), room))
  {
    var w' := AfterOn(w, i, RepOp.AddCleared(q), room);
    assert FieldOk(w, w.fields[i]);
    GivenIsUnlisted(w, q);
    forall p: Ptr
      ensures StringOk(w', p)
    {
      assert StringOk(w, p);
      PutCounts(w, i, PlaceOf(w, i).Apply(RepOp.AddCleared(q), room).0, p);
    }
    OthersStayOk(w, w', i);
  }

  /** The multiset loses the removed string and nothing else. */
  lemma MultisetWithoutLast(r: Rep, p: Ptr)
    requires r.Ok() && r.current > 0
    ensures multiset(r.WithoutLast().elems)[p] + (if p == r.elems[r.current - 1] then 1 else 0)
            == multiset(r.elems)[p]
  {
    var (last, k) := (|r.elems| - 1, r.current - 1);
    var (kept, gone) := (r.elems[..last], r.elems[last]);
    assert r.elems == kept + [gone];
    if k < last {
      assert r.WithoutLast().elems == kept[k := gone];
    } else {
      assert r.WithoutLast().elems == kept;
    }
  }

  lemma ReleaseLastOffArena(w: World, i: nat, p: Ptr)
    requires Invariant(w) && Allowed(w, On(i, RepOp.ReleaseLast, 0)) && w.fields[i].home.None?
    ensures StringOk(AfterOn(w, i, RepOp.ReleaseLast, 0), p)
  {
    var r := w.fields[i].rep;
    assert FieldOk(w, w.fields[i]);
    SlotIsLive(w, i, r.current - 1);
    assert StringOk(w, p);
    MultisetWithoutLast(r, p);
    PutCounts(w, i, PlaceOf(w, i).(rep := r.WithoutLast()), p);
  }

  lemma ReleaseLastOnArena(w: World, i: nat, p: Ptr)
    requires Invariant(w) && Allowed(w, On(i, RepOp.ReleaseLast, 0)) && w.fields[i].home.Some?
    ensures StringOk(AfterOn(w, i, RepOp.ReleaseLast, 0), p)
  {
    var (s, r) := (PlaceOf(w, i), w.fields[i].rep);
    assert FieldOk(w, w.fields[i]);
    assert StringOk(w, p);
    MultisetWithoutLast(r, p);
    PutCounts(w, i, s.(rep := r.WithoutLast(), mem := w.mem.New(w.mem.Text(r.elems[r.current - 1]))), p);
  }

  lemma ReleaseLastKeepsField(w: World, i: nat)
    requires Invariant(w) && Allowed(w, On(i, RepOp.ReleaseLast, 0))
    ensures var w' := AfterOn(w, i, RepOp.ReleaseLast, 0);
            FieldOk(w', w'.fields[i]) && w'.arenas == w.arenas
  {
    assert FieldOk(w, w.fields[i]);
    forall q | q in w.fields[i].rep.WithoutLast().elems
      ensures q in w.fields[i].rep.elems
    {
      MultisetWithoutLast(w.fields[i].rep, q);
      assert q in multiset(w.fields[i].rep.WithoutLast().elems);
    }
    NewIsUnused(w);
  }

  lemma ReleaseLastKeeps(w: World, i: nat)
    requires Invariant(w) && Allowed(w, On(i, RepOp.ReleaseLast, 0))
    ensures Invariant(AfterOn(w, i, RepOp.ReleaseLast, 0))
  {
    forall p: Ptr
      ensures StringOk(AfterOn(w, i, RepOp.ReleaseLast, 0), p)
    {
      if w.fields[i].home.None? {
        ReleaseLastOffArena(w, i, p);
      } else {
        ReleaseLastOnArena(w, i, p);
      }
    }
    ReleaseLastKeepsField(w, i);
    NewIsUnused(w);
    OthersStayOk(w, AfterOn(w, i, RepOp.ReleaseLast, 0), i);
  }

  lemma ReleaseClearedKeeps(w: World, i: nat)
    requires Invariant(w) && Allowed(w, On(i, RepOp.ReleaseCleared, 0))
    ensures Invariant(AfterOn(w, i, RepOp.ReleaseCleared, 0))
  {
    var w' := AfterOn(w, i, RepOp.ReleaseCleared, 0);
    var r := w.fields[i].rep;
    var last := |r.elems| - 1;
    assert FieldOk(w, w.fields[i]);
    SlotIsLive(w, i, last);
    assert r.elems == r.elems[..last] + [r.elems[last]];
    forall p: Ptr
      ensures StringOk(w', p)
    {
      assert StringOk(w, p);
      PutCounts(w, i, PlaceOf(w, i).Apply(RepOp.ReleaseCleared, 0).0, p);
    }
    OthersStayOk(w, w', i);
  }

  lemma MultisetSwapped(s: seq<Ptr>, k: nat, l: nat)
    requires k < |s| && l < |s|
    ensures multiset(s[k := s[l]][l := s[k]]) == multiset(s)
    ensures forall q :: q in s[k := s[l]][l := s[k]] ==> q in s
  {
    var t := s[k := s[l]][l := s[k]];
    forall q | q in t
      ensures q in s
    {
      assert q in multiset(t);
    }
  }

  lemma SwapElementsKeepsString(w: World, i: nat, k: nat, l: nat, room: nat, p: Ptr)
    requires Invariant(w) && Allowed(w, On(i, RepOp.SwapElements(k, l), room))
    ensures StringOk(AfterOn(w, i, RepOp.SwapElements(k, l), room), p)
  {
    var r := w.fields[i].rep;
    var t := PlaceOf(w, i).(rep := r.(elems := r.elems[k := r.elems[l]][l := r.elems[k]]));
    assert FieldOk(w, w.fields[i]) && StringOk(w, p);
    MultisetSwapped(r.elems, k, l);
    PutCounts(w, i, t, p);
    StringStaysOk(w, Put(w, i, t), p);
  }

  lemma SwapElementsKeepsField(w: World, i: nat, k: nat, l: nat, room: nat)
    requires Invariant(w) && Allowed(w, On(i, RepOp.SwapElements(k, l), room))
    ensures var w' := AfterOn(w, i, RepOp.SwapElements(k, l), room);
            w'.arenas == w.arenas && FieldOk(w', w'.fields[i])
  {
    assert FieldOk(w, w.fields[i]);
    MultisetSwapped(w.fields[i].rep.elems, k, l);
  }

  lemma SwapElementsKeeps(w: World, i: nat, k: nat, l: nat, room: nat)
    requires Invariant(w) && Allowed(w, On(i, RepOp.SwapElements(k, l), room))
    ensures Invariant(AfterOn(w, i, RepOp.SwapElements(k, l), room))
  {
    var w' := AfterOn(w, i, RepOp.SwapElements(k, l), room);
    forall p: Ptr
      ensures StringOk(w', p)
    {
      SwapElementsKeepsString(w, i, k, l, room, p);
    }
    SwapElementsKeepsField(w, i, k, l, room);
    OthersStayOk(w, w', i);
  }

  // ----- strings that end

  lemma {:induction false} DeletedAll(m: Mem, ps: seq<Ptr>, p: Ptr)
    ensures m.DeleteAll(ps).freed[p] == m.freed[p] + multiset(ps)[p]
    ensures m.DeleteAll(ps).next == m.next
    ensures p in m.DeleteAll(ps).text <==> p in m.text && p !in ps
    ensures p !in ps ==> m.DeleteAll(ps).Text(p) == m.Text(p)
    decreases ps
  {
    if ps != [] {
      DeletedAll(m.Delete(ps[0]), ps[1..], p);
      assert ps == [ps[0]] + ps[1..];
    }
  }

  lemma DestroyKeepsString(w: World, i: nat, p: Ptr)
    requires Invariant(w) && Allowed(w, On(i, RepOp.Destroy, 0))
    ensures StringOk(AfterOn(w, i, RepOp.Destroy, 0), p)
  {
    var f := w.fields[i];
    var gs := w.fields[i := f.(alive := false)];
    assert FieldOk(w, f) && StringOk(w, p);
    assert AfterOn(w, i, RepOp.Destroy, 0).arenas == w.arenas;
    CountAfterUpdate(w.fields, i, f.(alive := false), p, false);
    CountAfterUpdate(w.fields, i, f.(alive := false), p, true);
    assert Count(gs, p, true) == Count(w.fields, p, true) - Listed(f, p, true);
    assert Count(gs, p, false) == Count(w.fields, p, false) - Listed(f, p, false);
    DeletedAll(w.mem, f.rep.elems, p);
  }

  lemma DestroyKeeps(w: World, i: nat)
    requires Invariant(w) && Allowed(w, On(i, RepOp.Destroy, 0))
    ensures Invariant(AfterOn(w, i, RepOp.Destroy, 0))
  {
    var w' := AfterOn(w, i, RepOp.Destroy, 0);
    assert FieldOk(w, w.fields[i]);
    forall p: Ptr
      ensures StringOk(w', p)
    {
      DestroyKeepsString(w, i, p);
    }
    forall j: nat, l: nat | Live(w, j) && j != i && l < |w.fields[j].rep.elems|
      ensures w'.mem.Text(w.fields[j].rep.elems[l]) == w.mem.Text(w.fields[j].rep.elems[l])
    {
      var q := w.fields[j].rep.elems[l];
      assert q !in w.fields[i].rep.elems by {
        if q in w.fields[i].rep.elems {
          var k: nat :| k < |w.fields[i].rep.elems| && w.fields[i].rep.elems[k] == q;
          SlotsDiffer(w, i, k, j, l);
        }
      }
      DeletedAll(w.mem, w.fields[i].rep.elems, q);
    }
    assert w.fields[i].home.Some? ==> w'.arenas == w.arenas;
    OthersStayOk(w, w', i);
  }

  /** A string of a live field does not end with the arena of another. */
  lemma ListedSurvives(w: World, a: nat, i: nat, p: Ptr)
    requires Invariant(w) && a < |w.arenas| && Live(w, i) && w.fields[i].home != Some(a)
    requires p in w.fields[i].rep.elems
    ensures p !in w.arenas[a]
  {
    var f := w.fields[i];
    assert FieldOk(w, f) && StringOk(w, p);
    assert p in multiset(f.rep.elems);
    ArenaRuns.EntriesCount(w.arenas[a], p);
    if f.home.None? {
      ListedIsCounted(w.fields, i, p, true);
      ArenaRuns.ArenaOwnsItsStrings(w.arenas, a, p);
    } else {
      var lists := w.arenas[a := []];
      ArenaRuns.ArenasOwnAfterUpdate(w.arenas, a, [], p);
      ArenaRuns.ArenaOwnsItsStrings(lists, f.home.value, p);
    }
  }

  lemma {:induction false} CountedIsListed(fs: seq<Field>, p: Ptr)
    requires Count(fs, p, false) > 0
    ensures exists i: nat :: i < |fs| && fs[i].alive && p in fs[i].rep.elems
  {
    var n := |fs| - 1;
    if Listed(fs[n], p, false) == 0 {
      CountedIsListed(fs[..n], p);
      var i: nat :| i < n && fs[..n][i].alive && p in fs[..n][i].rep.elems;
      assert fs[i].alive && p in fs[i].rep.elems;
    } else {
      assert p in multiset(fs[n].rep.elems);
    }
  }

  lemma {:induction false} CountsShrink(fs: seq<Field>, gs: seq<Field>, p: Ptr)
    requires |gs| == |fs|
    requires forall i :: 0 <= i < |fs| ==> gs[i] == fs[i] || (gs[i] == fs[i].(alive := false) && fs[i].home.Some?)
    ensures Count(gs, p, true) == Count(fs, p, true) && Count(gs, p, false) <= Count(fs, p, false)
  {
    if fs != [] {
      CountsShrink(fs[..|fs| - 1], gs[..|gs| - 1], p);
    }
  }

  lemma EntriesAreMultiset(ps: seq<Ptr>, p: Ptr)
    ensures ArenaRuns.Entries(ps, p) == multiset(ps)[p]
  {
    if ps != [] {
      EntriesAreMultiset(ps[1..], p);
      assert ps == [ps[0]] + ps[1..];
    }
  }

  lemma TeardownKeepsString(w: World, a: nat, p: Ptr)
    requires Invariant(w) && a < |w.arenas|
    ensures StringOk(After(w, Teardown(a)), p)
  {
    var w' := After(w, Teardown(a));
    assert StringOk(w, p);
    DeletedAll(w.mem, w.arenas[a], p);
    EntriesAreMultiset(w.arenas[a], p);
    ArenaRuns.EntriesCount(w.arenas[a], p);
    ArenaRuns.ArenasOwnAfterUpdate(w.arenas, a, [], p);
    ArenaRuns.ArenaOwnsItsStrings(w.arenas, a, p);
    CountsShrink(w.fields, w'.fields, p);
    if Count(w'.fields, p, false) > 0 {
      CountedIsListed(w'.fields, p);
      var i: nat :| i < |w'.fields| && w'.fields[i].alive && p in w'.fields[i].rep.elems;
      assert w'.fields[i] == w.fields[i];
      ListedSurvives(w, a, i, p);
    }
  }

  lemma TeardownKeepsField(w: World, a: nat, i: nat)
    requires Invariant(w) && a < |w.arenas| && i < |w.fields|
    ensures FieldOk(After(w, Teardown(a)), After(w, Teardown(a)).fields[i])
  {
    var f := w.fields[i];
    assert FieldOk(w, f);
    if f.alive && f.home != Some(a) {
      forall k | 0 <= k < |f.rep.elems|
        ensures After(w, Teardown(a)).mem.Text(f.rep.elems[k]) == w.mem.Text(f.rep.elems[k])
      {
        ListedSurvives(w, a, i, f.rep.elems[k]);
        DeletedAll(w.mem, w.arenas[a], f.rep.elems[k]);
      }
    }
  }

  lemma TeardownKeeps(w: World, a: nat)
    requires Invariant(w) && a < |w.arenas|
    ensures Invariant(After(w, Teardown(a)))
  {
    var w' := After(w, Teardown(a));
    forall p: Ptr
      ensures StringOk(w', p)
    {
      TeardownKeepsString(w, a, p);
    }
    forall i: nat | i < |w'.fields|
      ensures FieldOk(w', w'.fields[i])
    {
      TeardownKeepsField(w, a, i);
    }
  }

  // ----- every operation

  lemma CallerNewKeeps(w: World, text: string)
    requires Invariant(w)
    ensures Invariant(After(w, CallerNew(text)))
  {
    var w' := After(w, CallerNew(text));
    assert StringOk(w, w.mem.next);
    forall p: Ptr
      ensures StringOk(w', p)
    {
      assert StringOk(w, p);
    }
    NewIsUnused(w);
    forall i: nat | i < |w'.fields|
      ensures FieldOk(w', w'.fields[i])
    {
      assert FieldOk(w, w.fields[i]) && (w.fields[i].alive ==> Live(w, i));
    }
  }

  /** A caller's own string is in no field, whatever the caller does with it. */
  lemma CallerKeeps(w: World, op: Op, q: Ptr)
    requires Invariant(w) && q in w.callers
    requires op.CallerDelete? || op.CallerWrite?
    requires op.p == q
    ensures Invariant(After(w, op))
  {
    var w' := After(w, op);
    GivenIsUnlisted(w, q);
    forall p: Ptr
      ensures StringOk(w', p)
    {
      assert StringOk(w, p);
    }
    forall i: nat | i < |w'.fields|
      ensures FieldOk(w', w'.fields[i])
    {
      assert FieldOk(w, w.fields[i]) && (w.fields[i].alive ==> Live(w, i));
    }
  }

  lemma NewArenaKeeps(w: World)
    requires Invariant(w)
    ensures Invariant(After(w, NewArena))
  {
    var w' := After(w, NewArena);
    forall p: Ptr
      ensures StringOk(w', p)
    {
      assert StringOk(w, p);
      ArenaRuns.NewArenaOwnsNothing(w.arenas, p);
    }
    forall i: nat | i < |w'.fields|
      ensures FieldOk(w', w'.fields[i])
    {
      assert FieldOk(w, w.fields[i]);
    }
  }

  lemma ConstructKeeps(w: World, home: Option<nat>)
    requires Invariant(w) && Allowed(w, Construct(home))
    ensures Invariant(After(w, Construct(home)))
  {
    var w' := After(w, Construct(home));
    assert w'.fields[..|w.fields|] == w.fields;
    forall p: Ptr
      ensures StringOk(w', p)
    {
      assert StringOk(w, p);
    }
    forall i: nat | i < |w'.fields|
      ensures FieldOk(w', w'.fields[i])
    {
      assert i < |w.fields| ==> FieldOk(w, w.fields[i]);
    }
  }

  lemma SwapKeeps(w: World, i: nat, j: nat)
    requires Invariant(w) && Allowed(w, Swap(i, j))
    ensures Invariant(After(w, Swap(i, j)))
  {
    var w' := After(w, Swap(i, j));
    var (f, g) := (w.fields[i], w.fields[j]);
    var gs := w.fields[i := f.(rep := g.rep)];
    forall p: Ptr
      ensures StringOk(w', p)
    {
      assert StringOk(w, p);
      CountAfterUpdate(w.fields, i, f.(rep := g.rep), p, true);
      CountAfterUpdate(w.fields, i, f.(rep := g.rep), p, false);
      CountAfterUpdate(gs, j, g.(rep := f.rep), p, true);
      CountAfterUpdate(gs, j, g.(rep := f.rep), p, false);
    }
    assert FieldOk(w, f) && FieldOk(w, g);
    forall k: nat | k < |w'.fields|
      ensures FieldOk(w', w'.fields[k])
    {
      assert FieldOk(w, w.fields[k]);
    }
  }

  lemma AddAfterReserveKeeps(w: World, i: nat, room: nat)
    requires Invariant(w) && Allowed(w, On(i, RepOp.Add, room))
    ensures Invariant(AfterOn(w, i, RepOp.Add, room))
  {
    var r := w.fields[i].rep.Reserved(Needs(w.fields[i].rep, RepOp.Add), room);
    var t := PlaceOf(w, i).(rep := r);
    assert FieldOk(w, w.fields[i]);
    ReserveKeeps(w, i, r.total);
    PutTwice(w, i, t, t.Added());
    AddKeeps(Put(w, i, t), i);
  }

  lemma MergeKeeps(w: World, i: nat, j: nat, room: nat)
    requires Invariant(w) && Allowed(w, Merge(i, j, room))
    ensures Invariant(After(w, Merge(i, j, room)))
  {
    var ps := Shown(w.fields[j]);
    var r := w.fields[i].rep.Reserved(Needs(w.fields[i].rep, RepOp.MergeFrom(ps)), room);
    var t := PlaceOf(w, i).(rep := r);
    assert FieldOk(w, w.fields[i]);
    ReserveKeeps(w, i, r.total);
    MergedKeepsRep(t, ps);
    PutTwice(w, i, t, t.Merged(ps));
    MergedKeeps(Put(w, i, t), i, ps);
  }

  /** Calls that never grow the array. */
  lemma RoomIsIdle(w: World, i: nat, op: RepOp, room: nat)
    requires Allowed(w, On(i, op, room)) && Needs(w.fields[i].rep, op) == 0
    ensures Allowed(w, On(i, op, 0)) && AfterOn(w, i, op, room) == AfterOn(w, i, op, 0)
  {
  }

  lemma OnKeeps(w: World, i: nat, op: RepOp, room: nat)
    requires Invariant(w) && Allowed(w, On(i, op, room))
    ensures Invariant(AfterOn(w, i, op, room))
  {
    match op
    case Add => AddAfterReserveKeeps(w, i, room);
    case AddAllocated(p) => AddAllocatedKeeps(w, i, p, room);
    case AddCleared(p) => AddClearedKeeps(w, i, p, room);
    case SwapElements(k, l) => SwapElementsKeeps(w, i, k, l, room);
    case RemoveLast => RoomIsIdle(w, i, op, room); RemoveLastKeeps(w, i);
    case Clear => RoomIsIdle(w, i, op, room); ClearKeeps(w, i);
    case ReleaseLast => RoomIsIdle(w, i, op, room); ReleaseLastKeeps(w, i);
    case ReleaseCleared => RoomIsIdle(w, i, op, room); ReleaseClearedKeeps(w, i);
    case Destroy => RoomIsIdle(w, i, op, room); DestroyKeeps(w, i);
    case MergeFrom(_) =>
  }

  lemma StepKeepsInvariant(w: World, op: Op)
    requires Invariant(w) && Allowed(w, op)
    ensures Invariant(After(w, op))
  {
    match op
    case NewArena => NewArenaKeeps(w);
    case Construct(home) => ConstructKeeps(w, home);
    case On(i, rop, room) => OnKeeps(w, i, rop, room);
    case Merge(i, j, room) => MergeKeeps(w, i, j, room);
    case Swap(i, j) => SwapKeeps(w, i, j);
    case WriteElement(i, k, text) => WriteKeeps(w, i, k, text);
    case CallerNew(text) => CallerNewKeeps(w, text);
    case CallerDelete(p) => CallerKeeps(w, op, p);
    case CallerWrite(p, text) => CallerKeeps(w, op, p);
    case Teardown(a) => TeardownKeeps(w, a);
  }

  // ----- runs

  lemma RunKeepsInvariant(ws: seq<World>, ops: seq<Op>)
    requires Run(ws, ops)
    ensures forall k :: 0 <= k < |ws| ==> Invariant(ws[k])
  {
    StepsKeepInvariant(ws, ops);
  }

  lemma {:induction false} StepsKeepInvariant(ws: seq<World>, ops: seq<Op>)
    requires Steps(ws, ops) && Invariant(ws[0])
    ensures forall k :: 0 <= k < |ws| ==> Invariant(ws[k])
  {
    if ops != [] {
      var n := |ops| - 1;
      StepsKeepInvariant(ws[..|ops|], ops[..n]);
      assert ws[..|ops|][n] == ws[n];
      StepKeepsInvariant(ws[n], ops[n]);
      forall k | 0 <= k < |ws|
        ensures Invariant(ws[k])
      {
        assert k < |ops| ==> ws[..|ops|][k] == ws[k];
      }
    }
  }

  /** A string is freed at most once, and while it is not, exactly one party is to free it. */
  lemma NeverTwiceNeverLost(ws: seq<World>, ops: seq<Op>, k: nat, p: Ptr)
    requires Run(ws, ops) && k < |ws| && p < ws[k].mem.next
    ensures ws[k].mem.freed[p] <= 1
    ensures ws[k].mem.freed[p] == 0 <==> Owners(ws[k], p) == 1
  {
    RunKeepsInvariant(ws, ops);
    assert StringOk(ws[k], p);
  }

  /** Fields off the arenas are destroyed, callers have freed theirs, arenas are gone. */
  ghost predicate Settled(w: World) {
    && (forall i :: 0 <= i < |w.fields| && w.fields[i].home.None? ==> !w.fields[i].alive)
    && (forall a :: 0 <= a < |w.arenas| ==> w.arenas[a] == [])
    && w.callers == {}
  }

  lemma {:induction false} NoFieldOwns(fs: seq<Field>, p: Ptr)
    requires forall i :: 0 <= i < |fs| && fs[i].home.None? ==> !fs[i].alive
    ensures Count(fs, p, true) == 0
  {
    if fs != [] {
      NoFieldOwns(fs[..|fs| - 1], p);
    }
  }

  /**
    Cleared strings, released ones, replaced ones and copies included, every string has been freed
    exactly once when all parties are done.
   */
  lemma EveryStringIsFreedOnce(ws: seq<World>, ops: seq<Op>, p: Ptr)
    requires Run(ws, ops) && Settled(ws[|ops|])
    ensures ws[|ops|].mem.freed[p] == if p < ws[|ops|].mem.next then 1 else 0
  {
    var w := ws[|ops|];
    RunKeepsInvariant(ws, ops);
    NoFieldOwns(w.fields, p);
    ArenaRuns.NoArenaOwns(w.arenas, p);
    assert StringOk(w, p);
  }

  /**
    What the methods of `RepeatedPtrField` require holds: the strings of a live field exist, no
    two slots hold the same one, and the cleared ones are empty.
   */
  lemma FieldsAreReady(ws: seq<World>, ops: seq<Op>, n: nat, i: nat)
    requires Run(ws, ops) && n < |ws| && Live(ws[n], i)
    ensures var (w, r) := (ws[n], ws[n].fields[i].rep);
            && r.Ok()
            && (forall k :: 0 <= k < |r.elems| ==> r.elems[k] in w.mem.text)
            && (forall k, l :: 0 <= k < l < |r.elems| ==> r.elems[k] != r.elems[l])
            && (forall k :: r.current <= k < |r.elems| ==> w.mem.Text(r.elems[k]) == "")
  {
    var w, r := ws[n], ws[n].fields[i].rep;
    RunKeepsInvariant(ws, ops);
    assert FieldOk(w, w.fields[i]);
    forall k: nat, l: nat | k < l < |r.elems|
      ensures r.elems[k] != r.elems[l]
    {
      SlotsDiffer(w, i, k, i, l);
    }
    forall k: nat | k < |r.elems|
      ensures r.elems[k] in w.mem.text
    {
      SlotIsLive(w, i, k);
    }
  }

  /** Likewise for the teardown of an arena, `Arena.CleanupList`. */
  lemma ArenasAreReady(ws: seq<World>, ops: seq<Op>, n: nat, a: nat)
    requires Run(ws, ops) && n < |ws| && a < |ws[n].arenas|
    ensures forall i :: 0 <= i < |ws[n].arenas[a]| ==> ws[n].arenas[a][i] in ws[n].mem.text
    ensures forall i, j :: 0 <= i < j < |ws[n].arenas[a]| ==> ws[n].arenas[a][i] != ws[n].arenas[a][j]
  {
    var ps := ws[n].arenas[a];
    RunKeepsInvariant(ws, ops);
    forall i: nat | i < |ps|
      ensures ps[i] in ws[n].mem.text && ArenaRuns.Entries(ps, ps[i]) == 1
    {
      assert StringOk(ws[n], ps[i]);
      ArenaRuns.EntriesCount(ps, ps[i]);
      ArenaRuns.ArenaOwnsItsStrings(ws[n].arenas, a, ps[i]);
    }
    forall i: nat, j: nat | i < j < |ps|
      ensures ps[i] != ps[j]
    {
      if ps[i] == ps[j] {
        ArenaRuns.EntryTwice(ps, i, j);
      }
    }
  }
}
