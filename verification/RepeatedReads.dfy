/**
  What readers of repeated string fields see: plain lists of strings, whatever strings are kept,
  moved and used again behind them; and how much room a field takes.
 */
module RepeatedReads {
  import opened ArenaStrings
  import opened Options
  import opened RepeatedStrings
  import opened RepeatedRuns
  import ArenaRuns

  function Texts(m: Mem, ps: seq<Ptr>): (ss: seq<string>)
    ensures |ss| == |ps| && forall k :: 0 <= k < |ps| ==> ss[k] == m.Text(ps[k])
  {
    if ps == [] then [] else Texts(m, ps[..|ps| - 1]) + [m.Text(ps[|ps| - 1])]
  }

  function Reads(w: World, i: nat): seq<string>
    requires i < |w.fields|
  {
    Texts(w.mem, Shown(w.fields[i]))
  }

  /** Which calls callers may make, in terms of what they can see and of the strings they own. */
  lemma CallsAllowed(w: World, i: nat, op: RepOp, room: nat)
    requires Invariant(w) && Live(w, i) && !op.MergeFrom? && w.fields[i].rep.total < room
    ensures var (n, cleared, heap) := (|Reads(w, i)|, |w.fields[i].rep.elems| - |Reads(w, i)|, w.fields[i].home.None?);
            Allowed(w, On(i, op, room)) <==>
              match op
              case RemoveLast => n >= 1
              case ReleaseLast => n >= 1
              case AddAllocated(p) => p in w.callers
              case AddCleared(p) => heap && p in w.callers && w.mem.Text(p) == ""
              case ReleaseCleared => heap && cleared >= 1
              case SwapElements(k, l) => k < n && l < n
              case _ => true
  {
    assert FieldOk(w, w.fields[i]);
  }

  /** A new field holds nothing and has no room yet. */
  lemma NewFieldIsEmpty(w: World, home: Option<nat>)
    requires Allowed(w, Construct(home))
    ensures var (w', n) := (After(w, Construct(home)), |w.fields|);
            && |w'.fields| == n + 1 && w'.fields[..n] == w.fields && Live(w', n) && w'.fields[n].home == home
            && Reads(w', n) == [] && w'.fields[n].rep.elems == [] && w'.fields[n].rep.total == 0
            && w'.mem == w.mem && w'.arenas == w.arenas && w'.callers == w.callers
  {
  }

  // ----- the reference: lists of strings

  /** A list after a call on its field; `given` is the text of the string that the call takes in. */
  function ListAfter(ss: seq<string>, op: RepOp, given: string): seq<string> {
    match op
    case Add => ss + [""]
    case RemoveLast => if ss == [] then [] else ss[..|ss| - 1]
    case Clear => []
    case AddAllocated(_) => ss + [given]
    case ReleaseLast => if ss == [] then [] else ss[..|ss| - 1]
    case SwapElements(k, l) => if k < |ss| && l < |ss| then ss[k := ss[l]][l := ss[k]] else ss
    case _ => ss
  }

  /** What a program sees: the list of each field, and the texts of the strings that callers own. */
  datatype Plain = Plain(lists: seq<seq<string>>, texts: map<Ptr, string>) {
    function Given(op: RepOp): string {
      if op.AddAllocated? && op.p in texts then texts[op.p] else ""
    }

    /** `out` is the pointer handed out, which only serves as a name. */
    function AfterCall(i: nat, op: RepOp, out: Option<Ptr>): Plain
      requires i < |lists|
    {
      var ss := lists[i];
      Plain(
        lists[i := ListAfter(ss, op, Given(op))],
        match op
        case AddAllocated(p) => texts - {p}
        case AddCleared(p) => texts - {p}
        case ReleaseLast => if out.Some? && ss != [] then texts[out.value := ss[|ss| - 1]] else texts
        case ReleaseCleared => if out.Some? then texts[out.value := ""] else texts
        case _ => texts)
    }

    function After(op: Op, out: Option<Ptr>): Plain {
      match op
      case Construct(_) => this.(lists := lists + [[]])
      case On(i, rop, _) => if i < |lists| then AfterCall(i, rop, out) else this
      case Merge(i, j, _) =>
        if i < |lists| && j < |lists| then this.(lists := lists[i := lists[i] + lists[j]]) else this
      case Swap(i, j) =>
        if i < |lists| && j < |lists| then this.(lists := lists[i := lists[j]][j := lists[i]]) else this
      case WriteElement(i, k, text) =>
        if i < |lists| && k < |lists[i]| then this.(lists := lists[i := lists[i][k := text]]) else this
      case CallerNew(text) => if out.Some? then this.(texts := texts[out.value := text]) else this
      case CallerDelete(p) => this.(texts := texts - {p})
      case CallerWrite(p, text) => this.(texts := texts[p := text])
      case _ => this
    }
  }

  /** The pointer that an operation hands out. */
  function Returned(w: World, op: Op): Option<Ptr>
    requires Allowed(w, op)
  {
    match op
    case On(i, rop, room) => Out(w, i, rop, room)
    case CallerNew(_) => Some(w.mem.next)
    case _ => None
  }

  function Out(w: World, i: nat, op: RepOp, room: nat): Option<Ptr>
    requires Allowed(w, On(i, op, room))
  {
    PlaceOf(w, i).Apply(op, room).1
  }

  ghost predicate TextsShown(w: World, texts: map<Ptr, string>) {
    texts.Keys == w.callers && forall p :: p in w.callers ==> texts[p] == w.mem.Text(p)
  }

  /** Every live field reads as its list, and callers' strings as their texts. */
  ghost predicate Shows(w: World, a: Plain) {
    && |a.lists| == |w.fields|
    && (forall j: nat :: Live(w, j) ==> a.lists[j] == Reads(w, j))
    && TextsShown(w, a.texts)
  }

  // ----- calls on one field

  lemma AddReads(w: World, i: nat)
    requires Invariant(w) && Live(w, i) && FieldOk(w, w.fields[i])
    requires w.fields[i].rep.current < |w.fields[i].rep.elems| || |w.fields[i].rep.elems| < w.fields[i].rep.total
    ensures Reads(Put(w, i, PlaceOf(w, i).Added()), i) == Reads(w, i) + [""]
  {
    var r := w.fields[i].rep;
    NewIsUnused(w);
    var w' := Put(w, i, PlaceOf(w, i).Added());
    forall k: nat | k < r.current
      ensures Reads(w', i)[k] == Reads(w, i)[k]
    {
      assert Shown(w'.fields[i])[k] == r.elems[k] != w.mem.next;
    }
  }

  lemma AddedReads(w: World, i: nat, room: nat)
    requires Invariant(w) && Allowed(w, On(i, RepOp.Add, room)) && FieldOk(w, w.fields[i])
    ensures Reads(AfterOn(w, i, RepOp.Add, room), i) == Reads(w, i) + [""]
  {
    var t := PlaceOf(w, i).(rep := w.fields[i].rep.Reserved(Needs(w.fields[i].rep, RepOp.Add), room));
    ReserveKeeps(w, i, t.rep.total);
    PutTwice(w, i, t, t.Added());
    var v := Put(w, i, t);
    assert FieldOk(v, v.fields[i]) && Shown(v.fields[i]) == Shown(w.fields[i]) && v.mem == w.mem;
    AddReads(v, i);
  }

  lemma AcceptedShows(w: World, i: nat, q: Ptr, room: nat)
    requires Allowed(w, On(i, RepOp.AddAllocated(q), room))
    ensures Shown(AfterOn(w, i, RepOp.AddAllocated(q), room).fields[i]) == Shown(w.fields[i]) + [q]
  {
  }

  lemma AcceptedReads(w: World, i: nat, q: Ptr, room: nat)
    requires Invariant(w) && Allowed(w, On(i, RepOp.AddAllocated(q), room))
    ensures Reads(AfterOn(w, i, RepOp.AddAllocated(q), room), i) == Reads(w, i) + [w.mem.Text(q)]
  {
    var w' := AfterOn(w, i, RepOp.AddAllocated(q), room);
    var r := w.fields[i].rep;
    AcceptedShows(w, i, q, room);
    GivenIsUnlisted(w, q);
    forall k: nat | k < r.current
      ensures w'.mem.Text(r.elems[k]) == w.mem.Text(r.elems[k])
    {
      if r.current < |r.elems| {
        SlotsDiffer(w, i, k, i, r.current);
      }
    }
    assert Reads(w', i) == Reads(w, i) + [w'.mem.Text(q)];
  }

  lemma EmptiedElsewhere(w: World, i: nat, k: nat)
    requires Invariant(w) && Live(w, i) && k < w.fields[i].rep.current <= |w.fields[i].rep.elems|
    ensures Texts(w.mem.Write(w.fields[i].rep.elems[k], ""), w.fields[i].rep.elems[..k]) == Reads(w, i)[..k]
  {
    forall l: nat | l < k
      ensures w.fields[i].rep.elems[l] != w.fields[i].rep.elems[k]
    {
      SlotsDiffer(w, i, l, i, k);
    }
  }

  lemma RemovedReads(w: World, i: nat, room: nat)
    requires Invariant(w) && Allowed(w, On(i, RepOp.RemoveLast, room))
    ensures Reads(AfterOn(w, i, RepOp.RemoveLast, room), i) == ListAfter(Reads(w, i), RepOp.RemoveLast, "")
  {
    EmptiedElsewhere(w, i, w.fields[i].rep.current - 1);
  }

  lemma ReleasedReads(w: World, i: nat, room: nat)
    requires Invariant(w) && Allowed(w, On(i, RepOp.ReleaseLast, room))
    ensures Reads(AfterOn(w, i, RepOp.ReleaseLast, room), i) == ListAfter(Reads(w, i), RepOp.ReleaseLast, "")
  {
    NewIsUnused(w);
  }

  lemma SwappedReads(w: World, i: nat, k: nat, l: nat, room: nat)
    requires Allowed(w, On(i, RepOp.SwapElements(k, l), room))
    ensures Reads(AfterOn(w, i, RepOp.SwapElements(k, l), room), i)
            == ListAfter(Reads(w, i), RepOp.SwapElements(k, l), "")
  {
  }

  lemma OnReads(w: World, i: nat, op: RepOp, room: nat)
    requires Invariant(w) && Allowed(w, On(i, op, room)) && !op.Destroy?
    ensures Reads(AfterOn(w, i, op, room), i)
            == ListAfter(Reads(w, i), op, if op.AddAllocated? then w.mem.Text(op.p) else "")
  {
    assert FieldOk(w, w.fields[i]);
    match op
    case Add => AddedReads(w, i, room);
    case AddAllocated(q) => AcceptedReads(w, i, q, room);
    case RemoveLast => RemovedReads(w, i, room);
    case ReleaseLast => ReleasedReads(w, i, room);
    case SwapElements(k, l) => SwappedReads(w, i, k, l, room);
    case _ =>
  }

  // ----- merging

  lemma AppendReads(w: World, i: nat, text: string)
    requires Invariant(w) && Live(w, i) && w.fields[i].rep.current < w.fields[i].rep.total && w.fields[i].rep.Ok()
    ensures Reads(Put(w, i, PlaceOf(w, i).Appended(text)), i) == Reads(w, i) + [text]
  {
    assert FieldOk(w, w.fields[i]);
    var (r, s) := (w.fields[i].rep, PlaceOf(w, i).Added());
    AddKeeps(w, i);
    AddReads(w, i);
    var v := Put(w, i, s);
    PutTwice(w, i, s, s);
    forall k: nat | k < r.current
      ensures v.fields[i].rep.elems[k] != v.fields[i].rep.elems[r.current]
    {
      SlotsDiffer(v, i, k, i, r.current);
    }
    var w' := Put(w, i, PlaceOf(w, i).Appended(text));
    assert Shown(w'.fields[i]) == Shown(v.fields[i]);
    forall k: nat | k <= r.current
      ensures Reads(w', i)[k] == if k < r.current then Reads(v, i)[k] else text
    {
    }
  }

  lemma AppendLeaves(w: World, i: nat, text: string, j: nat, l: nat)
    requires Invariant(w) && Live(w, i) && w.fields[i].rep.current < w.fields[i].rep.total && w.fields[i].rep.Ok()
    requires Live(w, j) && i != j && l < |w.fields[j].rep.elems|
    ensures PlaceOf(w, i).Appended(text).mem.Text(w.fields[j].rep.elems[l]) == w.mem.Text(w.fields[j].rep.elems[l])
  {
    NewIsUnused(w);
    if w.fields[i].rep.current < |w.fields[i].rep.elems| {
      SlotsDiffer(w, i, w.fields[i].rep.current, j, l);
    }
  }

  lemma AppendLeavesReads(w: World, i: nat, text: string, j: nat)
    requires Invariant(w) && Live(w, i) && w.fields[i].rep.current < w.fields[i].rep.total && w.fields[i].rep.Ok()
    requires Live(w, j) && i != j
    ensures Reads(Put(w, i, PlaceOf(w, i).Appended(text)), j) == Reads(w, j)
  {
    var v := Put(w, i, PlaceOf(w, i).Appended(text));
    forall l: nat | l < |Reads(w, j)|
      ensures Reads(v, j)[l] == Reads(w, j)[l]
    {
      AppendLeaves(w, i, text, j, l);
    }
  }

  /** The strings of field `j` from `k` on come out at the end of field `i`. */
  lemma {:induction false} MergedReads(w: World, i: nat, j: nat, k: nat)
    requires Invariant(w) && Live(w, i) && Live(w, j) && i != j && w.fields[i].rep.Ok()
    requires k <= |Shown(w.fields[j])| && w.fields[i].rep.current + |Shown(w.fields[j])| - k <= w.fields[i].rep.total
    ensures Reads(Put(w, i, PlaceOf(w, i).Merged(Shown(w.fields[j])[k..])), i) == Reads(w, i) + Reads(w, j)[k..]
    decreases |Shown(w.fields[j])| - k
  {
    var ps := Shown(w.fields[j]);
    assert FieldOk(w, w.fields[i]);
    if k < |ps| {
      MergedTurn(w, i, ps, k);
      MergedReadsTurn(w, i, j, k);
      MergedReads(Put(w, i, PlaceOf(w, i).Appended(w.mem.Text(ps[k]))), i, j, k + 1);
    } else {
      MergedNothing(w, i, ps, k);
      assert Reads(w, j)[k..] == [];
    }
  }

  lemma MergedNothing(w: World, i: nat, ps: seq<Ptr>, k: nat)
    requires Live(w, i) && FieldOk(w, w.fields[i]) && k == |ps|
    ensures Put(w, i, PlaceOf(w, i).Merged(ps[k..])) == w
  {
    assert ps[k..] == [] && w.fields[i := w.fields[i]] == w.fields;
  }

  /** One turn of the merge, and what is left to do after it. */
  lemma MergedTurn(w: World, i: nat, ps: seq<Ptr>, k: nat)
    requires Invariant(w) && Live(w, i) && w.fields[i].rep.Ok()
    requires k < |ps| && w.fields[i].rep.current + |ps| - k <= w.fields[i].rep.total
    ensures var v := Put(w, i, PlaceOf(w, i).Appended(w.mem.Text(ps[k])));
            && Live(v, i) && v.fields[i].rep.Ok() && v.fields[i].rep.current == w.fields[i].rep.current + 1
            && v.fields[i].rep.total == w.fields[i].rep.total
            && Put(v, i, PlaceOf(v, i).Merged(ps[k + 1..])) == Put(w, i, PlaceOf(w, i).Merged(ps[k..]))
  {
    var s := PlaceOf(w, i).Appended(w.mem.Text(ps[k]));
    assert FieldOk(w, w.fields[i]);
    MergedStep(PlaceOf(w, i), ps, k);
    MergedKeepsRep(s, ps[k + 1..]);
    PutTwice(w, i, s, s.Merged(ps[k + 1..]));
  }

  lemma MergedReadsTurn(w: World, i: nat, j: nat, k: nat)
    requires Invariant(w) && Live(w, i) && Live(w, j) && i != j && w.fields[i].rep.Ok()
    requires k < |Shown(w.fields[j])| && w.fields[i].rep.current < w.fields[i].rep.total
    ensures var v := Put(w, i, PlaceOf(w, i).Appended(w.mem.Text(Shown(w.fields[j])[k])));
            Invariant(v) && Reads(v, i) + Reads(v, j)[k + 1..] == Reads(w, i) + Reads(w, j)[k..]
  {
    var text := w.mem.Text(Shown(w.fields[j])[k]);
    AppendKeeps(w, i, text);
    AppendReads(w, i, text);
    AppendLeavesReads(w, i, text, j);
    ConcatTurn(Reads(w, i), Reads(w, j), k);
  }

  lemma ConcatTurn(ss: seq<string>, ts: seq<string>, k: nat)
    requires k < |ts|
    ensures (ss + [ts[k]]) + ts[k + 1..] == ss + ts[k..]
  {
  }

  lemma MergeReads(w: World, i: nat, j: nat, room: nat)
    requires Invariant(w) && Allowed(w, Merge(i, j, room))
    ensures Reads(After(w, Merge(i, j, room)), i) == Reads(w, i) + Reads(w, j)
  {
    var ps := Shown(w.fields[j]);
    var t := PlaceOf(w, i).(rep := w.fields[i].rep.Reserved(Needs(w.fields[i].rep, RepOp.MergeFrom(ps)), room));
    assert FieldOk(w, w.fields[i]);
    ReserveKeeps(w, i, t.rep.total);
    MergedKeepsRep(t, ps);
    PutTwice(w, i, t, t.Merged(ps));
    var v := Put(w, i, t);
    assert v.fields[j] == w.fields[j] && v.mem == w.mem && Shown(v.fields[i]) == Shown(w.fields[i]);
    MergedReads(v, i, j, 0);
    assert ps[0..] == ps && Reads(w, j)[0..] == Reads(w, j);
  }

  /** Merging writes to no string but the field's own and new ones. */
  lemma {:induction false} MergedLeaves(s: Place, ps: seq<Ptr>, p: Ptr)
    requires s.rep.Ok() && s.rep.current + |ps| <= s.rep.total && p < s.mem.next && p !in s.rep.elems
    ensures s.Merged(ps).mem.Text(p) == s.mem.Text(p)
    decreases ps
  {
    if ps != [] {
      MergedLeaves(s.Appended(s.mem.Text(ps[0])), ps[1..], p);
    }
  }

  // ----- everything else

  lemma OnLeaves(w: World, i: nat, op: RepOp, room: nat, j: nat, l: nat)
    requires Invariant(w) && Allowed(w, On(i, op, room))
    requires Live(w, j) && i != j && l < |w.fields[j].rep.elems|
    ensures AfterOn(w, i, op, room).mem.Text(w.fields[j].rep.elems[l]) == w.mem.Text(w.fields[j].rep.elems[l])
  {
    var (r, p) := (w.fields[i].rep, w.fields[j].rep.elems[l]);
    forall k: nat | k < |r.elems|
      ensures r.elems[k] != p
    {
      SlotsDiffer(w, i, k, j, l);
    }
    NewIsUnused(w);
    if op.Clear? {
      EmptiedText(w.mem, r.elems[..r.current], p);
    }
    if op.Destroy? {
      DeletedAll(w.mem, r.elems, p);
    }
  }

  lemma MergeLeaves(w: World, i: nat, k: nat, room: nat, j: nat, l: nat)
    requires Invariant(w) && Allowed(w, Merge(i, k, room))
    requires Live(w, j) && i != j && l < |w.fields[j].rep.elems|
    ensures After(w, Merge(i, k, room)).mem.Text(w.fields[j].rep.elems[l]) == w.mem.Text(w.fields[j].rep.elems[l])
  {
    var (r, p) := (w.fields[i].rep, w.fields[j].rep.elems[l]);
    forall h: nat | h < |r.elems|
      ensures r.elems[h] != p
    {
      SlotsDiffer(w, i, h, j, l);
    }
    SlotIsLive(w, j, l);
    var ps := Shown(w.fields[k]);
    MergedLeaves(PlaceOf(w, i).(rep := r.Reserved(Needs(r, RepOp.MergeFrom(ps)), room)), ps, p);
  }

  /** Operations that say nothing of a field leave its strings alone. */
  predicate Concerns(w: World, op: Op, j: nat)
    requires j < |w.fields|
  {
    match op
    case On(i, _, _) => i == j
    case Merge(i, _, _) => i == j
    case Swap(i, k) => i == j || k == j
    case WriteElement(i, _, _) => i == j
    case Teardown(a) => w.fields[j].home == Some(a)
    case _ => false
  }

  /** Neither the pointers of a field nor the texts of its strings, cleared ones included, change. */
  lemma OthersAreUndisturbed(w: World, op: Op, j: nat)
    requires Invariant(w) && Allowed(w, op) && Live(w, j) && !Concerns(w, op, j)
    ensures j < |After(w, op).fields| && After(w, op).fields[j] == w.fields[j]
    ensures forall l: nat :: l < |w.fields[j].rep.elems| ==>
              After(w, op).mem.Text(w.fields[j].rep.elems[l]) == w.mem.Text(w.fields[j].rep.elems[l])
  {
    forall l: nat | l < |w.fields[j].rep.elems|
      ensures After(w, op).mem.Text(w.fields[j].rep.elems[l]) == w.mem.Text(w.fields[j].rep.elems[l])
    {
      match op
      case On(i, rop, room) => OnLeaves(w, i, rop, room, j, l);
      case Merge(i, k, room) => MergeLeaves(w, i, k, room, j, l);
      case WriteElement(i, k, _) => SlotsDiffer(w, i, k, j, l);
      case CallerNew(_) => NewIsUnused(w);
      case CallerDelete(p) => GivenIsUnlisted(w, p);
      case CallerWrite(p, _) => GivenIsUnlisted(w, p);
      case Teardown(a) =>
        ListedSurvives(w, a, j, w.fields[j].rep.elems[l]);
        DeletedAll(w.mem, w.arenas[a], w.fields[j].rep.elems[l]);
      case _ =>
    }
  }

  lemma WriteReads(w: World, i: nat, k: nat, text: string)
    requires Invariant(w) && Allowed(w, WriteElement(i, k, text))
    ensures Reads(After(w, WriteElement(i, k, text)), i) == Reads(w, i)[k := text]
  {
    var r := w.fields[i].rep;
    forall l: nat | l < r.current && l != k
      ensures r.elems[l] != r.elems[k]
    {
      SlotsDiffer(w, i, l, i, k);
    }
  }

  lemma UndisturbedReads(w: World, op: Op, j: nat)
    requires Invariant(w) && Allowed(w, op) && Live(w, j) && !Concerns(w, op, j)
    ensures j < |After(w, op).fields| && Reads(After(w, op), j) == Reads(w, j)
  {
    OthersAreUndisturbed(w, op, j);
  }

  lemma SwapReads(w: World, i: nat, k: nat, j: nat)
    requires Allowed(w, Swap(i, k)) && (j == i || j == k)
    ensures Reads(After(w, Swap(i, k)), j) == Reads(w, if j == i then k else i)
  {
  }

  lemma PlainListStays(w: World, op: Op, a: Plain, j: nat)
    requires Allowed(w, op) && |a.lists| == |w.fields| && j < |w.fields| && !Concerns(w, op, j)
    ensures j < |a.After(op, Returned(w, op)).lists| && a.After(op, Returned(w, op)).lists[j] == a.lists[j]
  {
  }

  lemma CallShows(w: World, i: nat, op: RepOp, room: nat, a: Plain)
    requires Invariant(w) && Allowed(w, On(i, op, room)) && Shows(w, a) && !op.Destroy?
    ensures ListAfter(a.lists[i], op, a.Given(op)) == Reads(AfterOn(w, i, op, room), i)
  {
    OnReads(w, i, op, room);
  }

  lemma ExchangeShows(w: World, op: Op, a: Plain, j: nat)
    requires Invariant(w) && Allowed(w, op) && Shows(w, a) && Live(After(w, op), j) && j < |w.fields|
    requires Concerns(w, op, j) && !op.On?
    ensures a.After(op, None).lists[j] == Reads(After(w, op), j)
  {
    match op
    case Merge(i, k, room) => MergeReads(w, i, k, room);
    case Swap(i, k) => SwapReads(w, i, k, j);
    case WriteElement(i, k, text) => WriteReads(w, i, k, text);
    case _ =>
  }

  lemma FieldShows(w: World, op: Op, a: Plain, j: nat)
    requires Invariant(w) && Allowed(w, op) && Shows(w, a) && Live(After(w, op), j) && j < |w.fields|
    ensures j < |a.After(op, Returned(w, op)).lists|
    ensures a.After(op, Returned(w, op)).lists[j] == Reads(After(w, op), j)
  {
    assert Live(w, j);
    if !Concerns(w, op, j) {
      PlainListStays(w, op, a, j);
      UndisturbedReads(w, op, j);
    } else if op.On? {
      CallShows(w, op.i, op.op, op.room, a);
    } else {
      ExchangeShows(w, op, a, j);
    }
  }

  // ----- what is handed out

  /**
    The pointer that `Add` hands out is that of the new last element and of no other slot, so what
    is written through it is what the field reads there.
   */
  lemma AddedIsLast(w: World, i: nat, room: nat)
    requires Invariant(w) && Allowed(w, On(i, RepOp.Add, room))
    ensures var (w', out) := (AfterOn(w, i, RepOp.Add, room), Out(w, i, RepOp.Add, room));
            && Invariant(w') && out.Some? && Shown(w'.fields[i]) == Shown(w.fields[i]) + [out.value]
            && forall j: nat, l: nat ::
                 Live(w', j) && l < |w'.fields[j].rep.elems| && (j != i || l != w.fields[i].rep.current) ==>
                   w'.fields[j].rep.elems[l] != out.value
  {
    var w' := AfterOn(w, i, RepOp.Add, room);
    assert FieldOk(w, w.fields[i]);
    OnKeeps(w, i, RepOp.Add, room);
    AddedShows(w, i, room);
    forall j: nat, l: nat | Live(w', j) && l < |w'.fields[j].rep.elems| && (j != i || l != w.fields[i].rep.current)
      ensures w'.fields[j].rep.elems[l] != Out(w, i, RepOp.Add, room).value
    {
      SlotsDiffer(w', i, w.fields[i].rep.current, j, l);
    }
  }

  lemma AddedShows(w: World, i: nat, room: nat)
    requires Allowed(w, On(i, RepOp.Add, room))
    ensures var (w', out) := (AfterOn(w, i, RepOp.Add, room), Out(w, i, RepOp.Add, room));
            && out.Some? && w'.fields[i].alive == w.fields[i].alive
            && w.fields[i].rep.current < |w'.fields[i].rep.elems|
            && w'.fields[i].rep.elems[w.fields[i].rep.current] == out.value
            && Shown(w'.fields[i]) == Shown(w.fields[i]) + [out.value]
  {
  }

  /** The field after `Add`, and after an assignment through the pointer that it handed out. */
  function Assigned(w: World, i: nat, room: nat, text: string): World
    requires Allowed(w, On(i, RepOp.Add, room))
  {
    var v := AfterOn(w, i, RepOp.Add, room);
    var out := Out(w, i, RepOp.Add, room);
    if out.Some? then v.(mem := v.mem.Write(out.value, text)) else v
  }

  lemma AssignedIsWritten(w: World, i: nat, room: nat, text: string)
    requires Invariant(w) && Allowed(w, On(i, RepOp.Add, room))
    ensures var (v, op) := (AfterOn(w, i, RepOp.Add, room), WriteElement(i, w.fields[i].rep.current, text));
            && Invariant(v) && Allowed(v, op) && Assigned(w, i, room, text) == After(v, op)
  {
    assert FieldOk(w, w.fields[i]);
    AddedIsLast(w, i, room);
    AddedShows(w, i, room);
    assert FieldOk(AfterOn(w, i, RepOp.Add, room), AfterOn(w, i, RepOp.Add, room).fields[i]);
  }

  lemma AssignedLeaves(w: World, i: nat, room: nat, text: string, j: nat)
    requires Invariant(w) && Allowed(w, On(i, RepOp.Add, room)) && Live(w, j) && j != i
    ensures j < |Assigned(w, i, room, text).fields| && Assigned(w, i, room, text).fields[j] == w.fields[j]
    ensures Reads(Assigned(w, i, room, text), j) == Reads(w, j)
  {
    var (v, op) := (AfterOn(w, i, RepOp.Add, room), WriteElement(i, w.fields[i].rep.current, text));
    AssignedIsWritten(w, i, room, text);
    UndisturbedReads(w, On(i, RepOp.Add, room), j);
    OthersAreUndisturbed(w, On(i, RepOp.Add, room), j);
    UndisturbedReads(v, op, j);
  }

  /** `*field.Add() = text` appends the text, and no other field notices. */
  lemma AddAndAssign(w: World, i: nat, room: nat, text: string)
    requires Invariant(w) && Allowed(w, On(i, RepOp.Add, room))
    ensures i < |Assigned(w, i, room, text).fields| && Reads(Assigned(w, i, room, text), i) == Reads(w, i) + [text]
    ensures forall j: nat :: Live(w, j) && j != i ==>
              && j < |Assigned(w, i, room, text).fields| && Assigned(w, i, room, text).fields[j] == w.fields[j]
              && Reads(Assigned(w, i, room, text), j) == Reads(w, j)
  {
    AssignedIsWritten(w, i, room, text);
    OnReads(w, i, RepOp.Add, room);
    WriteReads(AfterOn(w, i, RepOp.Add, room), i, w.fields[i].rep.current, text);
    forall j: nat | Live(w, j) && j != i
      ensures j < |Assigned(w, i, room, text).fields| && Assigned(w, i, room, text).fields[j] == w.fields[j]
      ensures Reads(Assigned(w, i, room, text), j) == Reads(w, j)
    {
      AssignedLeaves(w, i, room, text, j);
    }
  }

  lemma ReleasedText(w: World, i: nat, op: RepOp, room: nat)
    requires Invariant(w) && Allowed(w, On(i, op, room)) && (op.ReleaseLast? || op.ReleaseCleared?)
    ensures var (w', out) := (AfterOn(w, i, op, room), Out(w, i, op, room));
            && out.Some? && out.value in w'.callers && out.value !in w.callers
            && w'.mem.Text(out.value) == if op.ReleaseLast? then Reads(w, i)[|Reads(w, i)| - 1] else ""
  {
    var r := w.fields[i].rep;
    assert FieldOk(w, w.fields[i]) && StringOk(w, w.mem.next);
    SlotIsLive(w, i, if op.ReleaseLast? then r.current - 1 else |r.elems| - 1);
  }

  /**
    A released string is the caller's alone, and holds what the field read last or, if it is a
    cleared one, nothing.
   */
  lemma ReleasedBelongsToCaller(w: World, i: nat, op: RepOp, room: nat)
    requires Invariant(w) && Allowed(w, On(i, op, room)) && (op.ReleaseLast? || op.ReleaseCleared?)
    ensures var (w', out) := (AfterOn(w, i, op, room), Out(w, i, op, room));
            && out.Some? && out.value in w'.callers && out.value !in w.callers
            && Count(w'.fields, out.value, false) == 0 && ArenaRuns.ArenasOwn(w'.arenas, out.value) == 0
            && out.value in w'.mem.text
            && w'.mem.Text(out.value) == if op.ReleaseLast? then Reads(w, i)[|Reads(w, i)| - 1] else ""
  {
    ReleasedText(w, i, op, room);
    OnKeeps(w, i, op, room);
    assert StringOk(AfterOn(w, i, op, room), Out(w, i, op, room).value);
  }

  /** What a caller owns keeps its text until the caller writes, frees or gives it. */
  lemma CallersKeepTexts(w: World, op: Op, p: Ptr)
    requires Invariant(w) && Allowed(w, op) && p in w.callers && p in After(w, op).callers && !op.CallerWrite?
    ensures After(w, op).mem.Text(p) == w.mem.Text(p)
  {
    GivenIsUnlisted(w, p);
    match op
    case On(i, rop, room) => OnLeavesCallers(w, i, rop, room, p);
    case Merge(i, k, room) =>
      var (r, ps) := (w.fields[i].rep, Shown(w.fields[k]));
      MergedLeaves(PlaceOf(w, i).(rep := r.Reserved(Needs(r, RepOp.MergeFrom(ps)), room)), ps, p);
    case Teardown(a) =>
      assert StringOk(w, p);
      ArenaRuns.ArenaOwnsItsStrings(w.arenas, a, p);
      DeletedAll(w.mem, w.arenas[a], p);
    case _ =>
  }

  lemma OnLeavesCallers(w: World, i: nat, op: RepOp, room: nat, p: Ptr)
    requires Invariant(w) && Allowed(w, On(i, op, room)) && p in w.callers
    ensures AfterOn(w, i, op, room).mem.Text(p) == w.mem.Text(p)
  {
    var r := w.fields[i].rep;
    GivenIsUnlisted(w, p);
    if op.Clear? {
      EmptiedText(w.mem, r.elems[..r.current], p);
    }
    if op.Destroy? {
      DeletedAll(w.mem, r.elems, p);
    }
  }

  lemma ReleaseShows(w: World, i: nat, op: RepOp, room: nat, a: Plain)
    requires Invariant(w) && Allowed(w, On(i, op, room)) && Shows(w, a) && (op.ReleaseLast? || op.ReleaseCleared?)
    ensures TextsShown(AfterOn(w, i, op, room), a.AfterCall(i, op, Out(w, i, op, room)).texts)
  {
    var (w', out) := (AfterOn(w, i, op, room), Out(w, i, op, room));
    ReleasedText(w, i, op, room);
    assert FieldOk(w, w.fields[i]) && w'.callers == w.callers + {out.value};
    forall p | p in w.callers
      ensures w'.mem.Text(p) == w.mem.Text(p)
    {
      CallersKeepTexts(w, On(i, op, room), p);
    }
  }

  lemma CallShowsTexts(w: World, i: nat, op: RepOp, room: nat, a: Plain)
    requires Invariant(w) && Allowed(w, On(i, op, room)) && Shows(w, a) && !op.ReleaseLast? && !op.ReleaseCleared?
    ensures TextsShown(AfterOn(w, i, op, room), a.AfterCall(i, op, Out(w, i, op, room)).texts)
  {
    var w' := AfterOn(w, i, op, room);
    forall p | p in w'.callers
      ensures w'.mem.Text(p) == w.mem.Text(p)
    {
      CallersKeepTexts(w, On(i, op, room), p);
    }
  }

  lemma OtherShowsTexts(w: World, op: Op, a: Plain)
    requires Invariant(w) && Allowed(w, op) && Shows(w, a) && !op.On?
    ensures TextsShown(After(w, op), a.After(op, Returned(w, op)).texts)
  {
    if !op.CallerWrite? {
      forall p | p in After(w, op).callers && p in w.callers
        ensures After(w, op).mem.Text(p) == w.mem.Text(p)
      {
        CallersKeepTexts(w, op, p);
      }
    }
  }

  lemma CallersShow(w: World, op: Op, a: Plain)
    requires Invariant(w) && Allowed(w, op) && Shows(w, a)
    ensures TextsShown(After(w, op), a.After(op, Returned(w, op)).texts)
  {
    if !op.On? {
      OtherShowsTexts(w, op, a);
    } else if op.op.ReleaseLast? || op.op.ReleaseCleared? {
      ReleaseShows(w, op.i, op.op, op.room, a);
    } else {
      CallShowsTexts(w, op.i, op.op, op.room, a);
    }
  }

  lemma StepShows(w: World, op: Op, a: Plain)
    requires Invariant(w) && Allowed(w, op) && Shows(w, a)
    ensures Shows(After(w, op), a.After(op, Returned(w, op)))
  {
    CallersShow(w, op, a);
    forall j: nat | Live(After(w, op), j)
      ensures a.After(op, Returned(w, op)).lists[j] == Reads(After(w, op), j)
    {
      if j < |w.fields| {
        FieldShows(w, op, a, j);
      }
    }
  }

  /** The same operations on plain lists, with the names that were handed out. */
  function Replayed(a: Plain, ops: seq<Op>, outs: seq<Option<Ptr>>): Plain
    requires |outs| == |ops|
    decreases |ops|
  {
    var n := |ops| - 1;
    if ops == [] then a else Replayed(a, ops[..n], outs[..n]).After(ops[n], outs[n])
  }

  lemma {:induction false} StepsShow(ws: seq<World>, ops: seq<Op>, outs: seq<Option<Ptr>>, a: Plain)
    requires Steps(ws, ops) && Invariant(ws[0]) && Shows(ws[0], a) && |outs| == |ops|
    requires forall k :: 0 <= k < |ops| ==> outs[k] == Returned(ws[k], ops[k])
    ensures Shows(ws[|ops|], Replayed(a, ops, outs))
  {
    if ops != [] {
      var n := |ops| - 1;
      StepsKeepInvariant(ws, ops);
      StepsShow(ws[..|ops|], ops[..n], outs[..n], a);
      assert ws[..|ops|][n] == ws[n];
      StepShows(ws[n], ops[n], Replayed(a, ops[..n], outs[..n]));
    }
  }

  /**
    In every run each live field reads as its plain list: no recycled, moved, deleted or copied
    string ever shows through, and released strings hold what the lists say.
   */
  lemma RunsAreLists(ws: seq<World>, ops: seq<Op>, outs: seq<Option<Ptr>>)
    requires Run(ws, ops) && |outs| == |ops|
    requires forall k :: 0 <= k < |ops| ==> outs[k] == Returned(ws[k], ops[k])
    ensures Shows(ws[|ops|], Replayed(Plain([], map[]), ops, outs))
  {
    RunKeepsInvariant(ws, ops);
    StepsShow(ws, ops, outs, Plain([], map[]));
  }

  // ----- room

  /** Apart from `AddCleared`, a call makes the array grow only if more strings than slots become visible. */
  lemma GrowsOnlyWhenFull(s: Place, op: RepOp, room: nat)
    requires s.rep.Ok() && MayCall(s.rep, s.arena.Some?, op) && Needs(s.rep, op) <= room && !op.AddCleared?
    ensures s.Apply(op, room).0.rep.current <= s.rep.total ==> s.Apply(op, room).0.rep.total == s.rep.total
  {
    if op.MergeFrom? {
      MergedKeepsRep(s.(rep := s.rep.Reserved(Needs(s.rep, op), room)), op.ps);
    }
  }

  /** New strings are made only when the cleared ones are used up. */
  lemma {:induction false} MergedAllocates(s: Place, ps: seq<Ptr>)
    requires s.rep.Ok() && s.rep.current + |ps| <= s.rep.total
    ensures var cleared := |s.rep.elems| - s.rep.current;
            s.Merged(ps).mem.next == s.mem.next + if |ps| <= cleared then 0 else |ps| - cleared
    decreases ps
  {
    if ps != [] {
      MergedAllocates(s.Appended(s.mem.Text(ps[0])), ps[1..]);
    }
  }

  /** Operations that neither add cleared strings to field `i` nor exchange it with another. */
  predicate LeavesRoom(op: Op, i: nat) {
    match op
    case On(j, rop, _) => j == i ==> !rop.AddCleared?
    case Swap(j, k) => j != i && k != i
    case _ => true
  }

  lemma StepLeavesRoom(w: World, op: Op, i: nat)
    requires Allowed(w, op) && LeavesRoom(op, i) && i < |w.fields| && w.fields[i].rep.Ok()
    requires i < |After(w, op).fields| && After(w, op).fields[i].rep.current <= w.fields[i].rep.total
    ensures After(w, op).fields[i].rep.total == w.fields[i].rep.total
    ensures After(w, op).fields[i].rep.Ok()
  {
    match op
    case On(j, rop, room) =>
      if j == i {
        GrowsOnlyWhenFull(PlaceOf(w, i), rop, room);
        CallsKeepRep(PlaceOf(w, i), rop, room);
      }
    case Merge(j, k, room) =>
      if j == i {
        GrowsOnlyWhenFull(PlaceOf(w, i), RepOp.MergeFrom(Shown(w.fields[k])), room);
        CallsKeepRep(PlaceOf(w, i), RepOp.MergeFrom(Shown(w.fields[k])), room);
      }
    case _ =>
  }

  /**
    Any loop of additions, merges, releases and clears that keeps a field's visible size within
    its array leaves the array as large as it was, and so the number of strings it holds bounded.
   */
  lemma {:induction false} LoopsDoNotGrow(ws: seq<World>, ops: seq<Op>, i: nat)
    requires Steps(ws, ops) && i < |ws[0].fields| && ws[0].fields[i].rep.Ok()
    requires forall k :: 0 <= k < |ops| ==> LeavesRoom(ops[k], i)
    requires forall k :: 0 <= k < |ws| && i < |ws[k].fields| ==>
               ws[k].fields[i].rep.current <= ws[0].fields[i].rep.total
    ensures var (w, w') := (ws[0], ws[|ops|]);
            && i < |w'.fields| && w'.fields[i].rep.total == w.fields[i].rep.total
            && |w'.fields[i].rep.elems| <= w.fields[i].rep.total && w'.fields[i].rep.Ok()
  {
    if ops != [] {
      var n := |ops| - 1;
      LoopsDoNotGrow(ws[..|ops|], ops[..n], i);
      assert ws[..|ops|][n] == ws[n];
      StepLeavesRoom(ws[n], ops[n], i);
    }
  }

  // ----- swapping fields of different arenas

  /** A segment of a run leaves alone every field that none of its operations concerns. */
  lemma {:induction false} SegmentLeaves(ws: seq<World>, ops: seq<Op>, j: nat)
    requires Steps(ws, ops) && Invariant(ws[0]) && Live(ws[0], j)
    requires forall k :: 0 <= k < |ops| && j < |ws[k].fields| ==> !Concerns(ws[k], ops[k], j)
    ensures j < |ws[|ops|].fields| && ws[|ops|].fields[j] == ws[0].fields[j]
    ensures forall l: nat :: l < |ws[0].fields[j].rep.elems| ==>
              ws[|ops|].mem.Text(ws[0].fields[j].rep.elems[l]) == ws[0].mem.Text(ws[0].fields[j].rep.elems[l])
  {
    if ops != [] {
      var n := |ops| - 1;
      StepsKeepInvariant(ws, ops);
      SegmentLeaves(ws[..|ops|], ops[..n], j);
      assert ws[..|ops|][n] == ws[n];
      OthersAreUndisturbed(ws[n], ops[n], j);
    }
  }

  /**
    `SwapFallback`: a temporary field on the arena of the other takes copies of the first, which
    takes copies of the other, which exchanges its strings with the temporary; that one ends.
   */
  function FallbackOps(w: World, i: nat, j: nat, roomT: nat, roomI: nat): seq<Op>
    requires i < |w.fields| && j < |w.fields|
  {
    var t := |w.fields|;
    [Construct(w.fields[j].home), Merge(t, i, roomT), On(i, RepOp.Clear, 0), Merge(i, j, roomI),
     On(j, RepOp.Clear, 0), Swap(j, t), On(t, RepOp.Destroy, 0)]
  }

  lemma {:induction false} MergedFrees(s: Place, ps: seq<Ptr>)
    requires s.rep.Ok() && s.rep.current + |ps| <= s.rep.total
    ensures s.Merged(ps).mem.freed == s.mem.freed
    decreases ps
  {
    if ps != [] {
      MergedFrees(s.Appended(s.mem.Text(ps[0])), ps[1..]);
    }
  }

  lemma {:induction false} EmptiedFrees(m: Mem, ps: seq<Ptr>)
    ensures Emptied(m, ps).freed == m.freed
    decreases ps
  {
    if ps != [] {
      EmptiedFrees(m.Write(ps[0], ""), ps[1..]);
    }
  }

  /** What a merge or a clear may do to the field it is called on, and to nothing else. */
  ghost predicate OnlyChanges(w: World, w': World, i: nat) {
    && |w'.fields| == |w.fields| && |w'.arenas| == |w.arenas| && i < |w.fields|
    && w'.fields[i].home == w.fields[i].home && w'.fields[i].alive == w.fields[i].alive
    && (forall k :: 0 <= k < |w.fields| && k != i ==> w'.fields[k] == w.fields[k])
    && w'.mem.freed == w.mem.freed && w'.callers == w.callers && Invariant(w')
  }

  lemma MergeOnlyChanges(w: World, i: nat, j: nat, room: nat)
    requires Invariant(w) && Live(w, i) && Live(w, j) && i != j
    requires w.fields[i].rep.current + |Shown(w.fields[j])| <= room
    ensures Allowed(w, Merge(i, j, room)) && OnlyChanges(w, After(w, Merge(i, j, room)), i)
  {
    var (r, ps) := (w.fields[i].rep, Shown(w.fields[j]));
    assert FieldOk(w, w.fields[i]);
    MergeKeeps(w, i, j, room);
    MergedFrees(PlaceOf(w, i).(rep := r.Reserved(Needs(r, RepOp.MergeFrom(ps)), room)), ps);
  }

  lemma ClearOnlyChanges(w: World, i: nat)
    requires Invariant(w) && Live(w, i)
    ensures var op := On(i, RepOp.Clear, 0);
            && Allowed(w, op) && OnlyChanges(w, After(w, op), i)
            && After(w, op).fields[i].rep == w.fields[i].rep.(current := 0)
  {
    assert FieldOk(w, w.fields[i]);
    OnKeeps(w, i, RepOp.Clear, 0);
    EmptiedFrees(w.mem, Shown(w.fields[i]));
  }

  /** The temporary field, once it holds what `j` held: its destruction is all that frees. */
  lemma LastStepFrees(w: World, t: nat)
    requires Invariant(w) && Live(w, t)
    ensures var op := On(t, RepOp.Destroy, 0);
            && Allowed(w, op) && Invariant(After(w, op)) && !Live(After(w, op), t)
            && |After(w, op).fields| == |w.fields|
            && (forall k :: 0 <= k < |w.fields| && k != t ==> After(w, op).fields[k] == w.fields[k])
            && After(w, op).mem.freed
               == w.mem.freed + if w.fields[t].home.None? then multiset(w.fields[t].rep.elems) else multiset{}
  {
    var (op, ps) := (On(t, RepOp.Destroy, 0), w.fields[t].rep.elems);
    assert FieldOk(w, w.fields[t]);
    OnKeeps(w, t, RepOp.Destroy, 0);
    forall p: Ptr
      ensures w.mem.DeleteAll(ps).freed[p] == (w.mem.freed + multiset(ps))[p]
    {
      DeletedAll(w.mem, ps, p);
    }
    assert w.mem.DeleteAll(ps).freed == w.mem.freed + multiset(ps);
  }

  /** Field `i` takes the strings of `j`, which then is empty. */
  lemma FirstTakes(w: World, i: nat, j: nat, roomI: nat) returns (ws: seq<World>)
    requires Invariant(w) && Live(w, i) && Live(w, j) && i != j
    requires w.fields[i].rep.current == 0 && |Shown(w.fields[j])| <= roomI
    ensures Steps(ws, [Merge(i, j, roomI), On(j, RepOp.Clear, 0)]) && ws[0] == w
    ensures Invariant(ws[2]) && |ws[2].fields| == |w.fields| && ws[2].mem.freed == w.mem.freed
    ensures Live(ws[2], i) && Live(ws[2], j) && ws[2].fields[j] == w.fields[j].(rep := ws[2].fields[j].rep)
    ensures ws[2].fields[j].rep == w.fields[j].rep.(current := 0) && ws[2].fields[i].home == w.fields[i].home
    ensures forall k :: 0 <= k < |w.fields| && k != i && k != j ==> ws[2].fields[k] == w.fields[k]
  {
    MergeOnlyChanges(w, i, j, roomI);
    var w1 := After(w, Merge(i, j, roomI));
    ClearOnlyChanges(w1, j);
    ws := [w, w1, After(w1, On(j, RepOp.Clear, 0))];
  }

  lemma StepsConcat(ws: seq<World>, ops: seq<Op>, ws': seq<World>, ops': seq<Op>)
    requires Steps(ws, ops) && Steps(ws', ops') && ws[|ops|] == ws'[0]
    ensures Steps(ws + ws'[1..], ops + ops')
  {
    var (vs, os) := (ws + ws'[1..], ops + ops');
    forall k | 0 <= k < |os|
      ensures Allowed(vs[k], os[k]) && vs[k + 1] == After(vs[k], os[k])
    {
      if k < |ops| {
        assert vs[k] == ws[k] && vs[k + 1] == ws[k + 1] && os[k] == ops[k];
      } else {
        assert vs[k] == ws'[k - |ops|] && vs[k + 1] == ws'[k - |ops| + 1] && os[k] == ops'[k - |ops|];
      }
    }
  }

  /** The temporary `t` takes the strings of `i`, which then is empty. */
  lemma TemporaryTakes(w: World, i: nat, j: nat, roomT: nat) returns (ws: seq<World>)
    requires Invariant(w) && Live(w, i) && Live(w, j) && i != j && |Shown(w.fields[i])| <= roomT
    ensures var t := |w.fields|;
            && Steps(ws, [Construct(w.fields[j].home)] + [Merge(t, i, roomT), On(i, RepOp.Clear, 0)]) && ws[0] == w
            && Invariant(ws[3]) && |ws[3].fields| == t + 1
            && Live(ws[3], i) && Live(ws[3], t) && ws[3].fields[j] == w.fields[j]
            && ws[3].fields[t].home == w.fields[j].home && ws[3].fields[i].rep.current == 0
            && ws[3].mem.freed == w.mem.freed
  {
    var (t, op) := (|w.fields|, Construct(w.fields[j].home));
    ConstructKeeps(w, w.fields[j].home);
    var w1 := After(w, op);
    var vs := FirstTakes(w1, t, i, roomT);
    StepsConcat([w, w1], [op], vs, [Merge(t, i, roomT), On(i, RepOp.Clear, 0)]);
    ws := [w, w1] + vs[1..];
  }

  /** Two fields of one home swap, and the second ends. */
  lemma TemporaryEnds(w: World, j: nat, t: nat) returns (ws: seq<World>)
    requires Invariant(w) && Live(w, j) && Live(w, t) && t != j && w.fields[t].home == w.fields[j].home
    ensures Steps(ws, [Swap(j, t), On(t, RepOp.Destroy, 0)]) && ws[0] == w
    ensures |ws[2].fields| == |w.fields| && Live(ws[2], j) && !Live(ws[2], t)
    ensures forall k :: 0 <= k < |w.fields| && k != j && k != t ==> ws[2].fields[k] == w.fields[k]
    ensures ws[2].mem.freed == w.mem.freed
                               + if w.fields[j].home.None? then multiset(w.fields[j].rep.elems) else multiset{}
  {
    SwapKeeps(w, j, t);
    var w1 := After(w, Swap(j, t));
    LastStepFrees(w1, t);
    ws := [w, w1, After(w1, On(t, RepOp.Destroy, 0))];
  }

  lemma FallbackIsInParts(w: World, i: nat, j: nat, roomT: nat, roomI: nat)
    requires i < |w.fields| && j < |w.fields|
    ensures var t := |w.fields|;
            FallbackOps(w, i, j, roomT, roomI)
            == ([Construct(w.fields[j].home)] + [Merge(t, i, roomT), On(i, RepOp.Clear, 0)])
               + [Merge(i, j, roomI), On(j, RepOp.Clear, 0)] + [Swap(j, t), On(t, RepOp.Destroy, 0)]
  {
  }

  /** The seven calls are always possible, and free the strings that `j` held off the arenas, each once. */
  lemma FallbackRuns(w: World, i: nat, j: nat, roomT: nat, roomI: nat) returns (ws: seq<World>)
    requires Invariant(w) && Live(w, i) && Live(w, j) && i != j
    requires |Shown(w.fields[i])| <= roomT && |Shown(w.fields[j])| <= roomI
    ensures Steps(ws, FallbackOps(w, i, j, roomT, roomI)) && ws[0] == w
    ensures Live(ws[7], i) && Live(ws[7], j) && !Live(ws[7], |w.fields|)
    ensures ws[7].mem.freed == w.mem.freed
                               + if w.fields[j].home.None? then multiset(w.fields[j].rep.elems) else multiset{}
  {
    var t := |w.fields|;
    var us := TemporaryTakes(w, i, j, roomT);
    var vs := FirstTakes(us[3], i, j, roomI);
    var xs := TemporaryEnds(vs[2], j, t);
    var ops := [Construct(w.fields[j].home)] + [Merge(t, i, roomT), On(i, RepOp.Clear, 0)];
    var ops' := [Merge(i, j, roomI), On(j, RepOp.Clear, 0)];
    StepsConcat(us, ops, vs, ops');
    StepsConcat(us + vs[1..], ops + ops', xs, [Swap(j, t), On(t, RepOp.Destroy, 0)]);
    FallbackIsInParts(w, i, j, roomT, roomI);
    ws := us + vs[1..] + xs[1..];
  }

  function PlainOf(w: World): Plain {
    Plain(seq(|w.fields|, j requires 0 <= j < |w.fields| => Reads(w, j)), map p | p in w.callers :: w.mem.Text(p))
  }

  lemma ReplayedOneMore(a: Plain, ops: seq<Op>, outs: seq<Option<Ptr>>, op: Op)
    requires |outs| == |ops|
    ensures Replayed(a, ops + [op], outs + [None]) == Replayed(a, ops, outs).After(op, None)
  {
    assert (ops + [op])[..|ops|] == ops && (outs + [None])[..|outs|] == outs;
  }

  function NoOuts(n: nat): seq<Option<Ptr>> {
    seq(n, _ => None)
  }

  lemma ReplayedThree(a: Plain, ops: seq<Op>, o1: Op, o2: Op, o3: Op)
    ensures Replayed(a, ops + [o1, o2, o3], NoOuts(|ops| + 3))
            == Replayed(a, ops, NoOuts(|ops|)).After(o1, None).After(o2, None).After(o3, None)
  {
    var outs := NoOuts(|ops|);
    ReplayedOneMore(a, ops, outs, o1);
    ReplayedOneMore(a, ops + [o1], outs + [None], o2);
    ReplayedOneMore(a, ops + [o1] + [o2], outs + [None] + [None], o3);
    assert ops + [o1, o2, o3] == ops + [o1] + [o2] + [o3];
    assert NoOuts(|ops| + 3) == outs + [None] + [None] + [None];
  }

  lemma InParts(ops: seq<Op>)
    requires |ops| == 7
    ensures ops[..3] == [] + [ops[0], ops[1], ops[2]] && ops[..6] == ops[..3] + [ops[3], ops[4], ops[5]]
    ensures ops == ops[..6] + [ops[6]] && NoOuts(7) == NoOuts(6) + [None]
  {
  }

  lemma PlainFallback(a: Plain, w: World, i: nat, j: nat, roomT: nat, roomI: nat)
    requires |a.lists| == |w.fields| && i < |w.fields| && j < |w.fields| && i != j
    ensures var a' := Replayed(a, FallbackOps(w, i, j, roomT, roomI), NoOuts(7));
            && |a'.lists| == |a.lists| + 1 && a'.lists[i] == a.lists[j] && a'.lists[j] == a.lists[i]
  {
    var ops := FallbackOps(w, i, j, roomT, roomI);
    ReplayedThree(a, [], ops[0], ops[1], ops[2]);
    ReplayedThree(a, ops[..3], ops[3], ops[4], ops[5]);
    ReplayedOneMore(a, ops[..6], NoOuts(6), ops[6]);
    InParts(ops);
    PlainFallbackLists(a, w, i, j, roomT, roomI);
  }

  lemma PlainFallbackLists(a: Plain, w: World, i: nat, j: nat, roomT: nat, roomI: nat)
    requires |a.lists| == |w.fields| && i < |w.fields| && j < |w.fields| && i != j
    ensures var ops := FallbackOps(w, i, j, roomT, roomI);
            var a3 := a.After(ops[0], None).After(ops[1], None).After(ops[2], None);
            var a' := a3.After(ops[3], None).After(ops[4], None).After(ops[5], None).After(ops[6], None);
            |a'.lists| == |a.lists| + 1 && a'.lists[i] == a.lists[j] && a'.lists[j] == a.lists[i]
  {
  }

  /**
    Swapping fields of different arenas exchanges what they read, leaves every other field alone
    and frees exactly the strings that the second field held off the arenas.
   */
  lemma FallbackSwaps(w: World, i: nat, j: nat, roomT: nat, roomI: nat) returns (ws: seq<World>)
    requires Invariant(w) && Live(w, i) && Live(w, j) && i != j
    requires |Shown(w.fields[i])| <= roomT && |Shown(w.fields[j])| <= roomI
    ensures Steps(ws, FallbackOps(w, i, j, roomT, roomI)) && ws[0] == w && Invariant(ws[7])
    ensures Live(ws[7], i) && Live(ws[7], j) && !Live(ws[7], |w.fields|)
    ensures Reads(ws[7], i) == Reads(w, j) && Reads(ws[7], j) == Reads(w, i)
    ensures forall h: nat :: Live(w, h) && h != i && h != j ==>
              Live(ws[7], h) && ws[7].fields[h] == w.fields[h] && Reads(ws[7], h) == Reads(w, h)
    ensures ws[7].mem.freed == w.mem.freed
                               + if w.fields[j].home.None? then multiset(w.fields[j].rep.elems) else multiset{}
  {
    ws := FallbackRuns(w, i, j, roomT, roomI);
    FallbackReads(ws, w, i, j, roomT, roomI);
    forall h: nat | Live(w, h) && h != i && h != j
      ensures Live(ws[7], h) && ws[7].fields[h] == w.fields[h] && Reads(ws[7], h) == Reads(w, h)
    {
      FallbackLeaves(ws, w, i, j, roomT, roomI, h);
    }
  }

  lemma NothingReturned(ws: seq<World>, w: World, i: nat, j: nat, roomT: nat, roomI: nat, k: nat)
    requires i < |w.fields| && j < |w.fields| && Steps(ws, FallbackOps(w, i, j, roomT, roomI)) && k < 7
    ensures Returned(ws[k], FallbackOps(w, i, j, roomT, roomI)[k]) == None
  {
  }

  lemma PlainShows(w: World)
    ensures Shows(w, PlainOf(w))
  {
  }

  lemma FallbackReads(ws: seq<World>, w: World, i: nat, j: nat, roomT: nat, roomI: nat)
    requires Invariant(w) && Live(w, i) && Live(w, j) && i != j
    requires Steps(ws, FallbackOps(w, i, j, roomT, roomI)) && ws[0] == w && Live(ws[7], i) && Live(ws[7], j)
    ensures Invariant(ws[7]) && Reads(ws[7], i) == Reads(w, j) && Reads(ws[7], j) == Reads(w, i)
  {
    var ops := FallbackOps(w, i, j, roomT, roomI);
    PlainShows(w);
    forall k | 0 <= k < 7
      ensures Returned(ws[k], ops[k]) == NoOuts(7)[k]
    {
      NothingReturned(ws, w, i, j, roomT, roomI, k);
    }
    StepsKeepInvariant(ws, ops);
    StepsShow(ws, ops, NoOuts(7), PlainOf(w));
    PlainFallback(PlainOf(w), w, i, j, roomT, roomI);
  }

  lemma FallbackLeaves(ws: seq<World>, w: World, i: nat, j: nat, roomT: nat, roomI: nat, h: nat)
    requires Invariant(w) && Live(w, i) && Live(w, j) && i != j && Live(w, h) && h != i && h != j
    requires Steps(ws, FallbackOps(w, i, j, roomT, roomI)) && ws[0] == w
    ensures Live(ws[7], h) && ws[7].fields[h] == w.fields[h] && Reads(ws[7], h) == Reads(w, h)
  {
    SegmentLeaves(ws, FallbackOps(w, i, j, roomT, roomI), h);
  }
}
