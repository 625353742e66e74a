/**
  The symbol half of `SimpleDescriptorDatabase::DescriptorIndex`.

  `Index` values (finite maps) are the reference: which names an index accepts and what it
  answers are stated by quantifying over all keys.  The class keeps the entries in key order,
  as `std::map` does, and looks at one or two neighbours only.
 */
module DescriptorIndices {
  import opened Options
  import opened SymbolNames

  // ----- the reference: maps and linear scans

  type Index<V> = map<string, V>

  /** No key is a parent of another. */
  ghost predicate PrefixFree<V>(m: Index<V>) {
    forall a, b :: a in m && b in m && IsSubSymbol(a, b) ==> a == b
  }

  ghost predicate Invariant<V>(m: Index<V>) {
    && PrefixFree(m)
    && forall k :: k in m ==> ValidateSymbolName(k)
  }

  /** The scan over all keys that `FindSymbol` must agree with. */
  ghost predicate Answers<V(!new)>(m: Index<V>, name: string, answer: Option<V>) {
    match answer
    case None => forall k :: k in m ==> !IsSubSymbol(name, k)
    case Some(v) => exists k :: k in m && IsSubSymbol(name, k) && m[k] == v
  }

  ghost predicate Accepts<V>(m: Index<V>, name: string) {
    && ValidateSymbolName(name)
    && forall k :: k in m ==> !Comparable(name, k)
  }

  ghost function Added<V>(m: Index<V>, name: string, value: V): Index<V> {
    if Accepts(m, name) then m[name := value] else m
  }

  datatype Addition<V> = Addition(name: string, value: V)

  /** The index after a sequence of `AddSymbol` calls on an empty one. */
  ghost function AfterAdditions<V>(calls: seq<Addition<V>>): Index<V> {
    if calls == [] then map[]
    else
      var last := calls[|calls| - 1];
      Added(AfterAdditions(calls[..|calls| - 1]), last.name, last.value)
  }

  // ----- what every sequence of additions keeps

  lemma {:induction false} AddedKeepsInvariant<V>(m: Index<V>, name: string, value: V)
    requires Invariant(m)
    ensures Invariant(Added(m, name, value))
  {
    if Accepts(m, name) {
      forall a, b | a in m[name := value] && b in m[name := value] && IsSubSymbol(a, b)
        ensures a == b
      {
        assert a in m ==> !Comparable(name, a);
        assert b in m ==> !Comparable(name, b);
      }
    }
  }

  lemma {:induction false} AdditionsKeepInvariant<V>(calls: seq<Addition<V>>)
    ensures Invariant(AfterAdditions(calls))
  {
    if calls != [] {
      var last := calls[|calls| - 1];
      AdditionsKeepInvariant(calls[..|calls| - 1]);
      AddedKeepsInvariant(AfterAdditions(calls[..|calls| - 1]), last.name, last.value);
    }
  }

  /** The first symbol is accepted exactly if it is a word over the alphabet, and is then found. */
  lemma FirstAddition<V(!new)>(name: string, value: V)
    ensures var m := AfterAdditions([Addition(name, value)]);
            if forall c :: c in name ==> c in ALPHABET then Answers(m, name, Some(value)) else m == map[]
  {
    ValidNamesAre(name);
    var calls := [Addition(name, value)];
    assert calls[..|calls| - 1] == [];
    assert AfterAdditions(calls[..|calls| - 1]) == map[];
    assert AfterAdditions(calls) == Added(map[], name, value);
    if Accepts(AfterAdditions<V>([]), name) {
      assert name in AfterAdditions(calls) && AfterAdditions(calls)[name] == value;
    }
  }

  /** An index never gives two answers, and always gives one. */
  lemma AnswerIsUnique<V(!new)>(m: Index<V>, name: string)
    requires Invariant(m)
    ensures exists a :: Answers(m, name, a)
    ensures forall a, b :: Answers(m, name, a) && Answers(m, name, b) ==> a == b
    ensures forall j, k :: j in m && k in m && IsSubSymbol(name, j) && IsSubSymbol(name, k) ==> j == k
  {
    forall j, k | j in m && k in m && IsSubSymbol(name, j) && IsSubSymbol(name, k)
      ensures j == k
    {
      ParentsAreComparable(name, j, k);
    }
    if k :| k in m && IsSubSymbol(name, k) {
      assert Answers(m, name, Some(m[k]));
    } else {
      assert Answers(m, name, None);
    }
  }

  lemma {:induction false} AdditionsOnlyGrow<V>(calls: seq<Addition<V>>, more: seq<Addition<V>>)
    ensures AfterAdditions(calls).Items <= AfterAdditions(calls + more).Items
  {
    if more == [] {
      assert calls + more == calls;
    } else {
      var all := calls + more;
      var front := more[..|more| - 1];
      AdditionsOnlyGrow(calls, front);
      assert all[..|all| - 1] == calls + front;
      var m := AfterAdditions(calls + front);
      var last := all[|all| - 1];
      if Accepts(m, last.name) {
        Reflexive(last.name);
        assert last.name !in m by {
          if last.name in m {
            assert Comparable(last.name, last.name);
          }
        }
      }
      assert m.Items <= AfterAdditions(all).Items;
    }
  }

  /**
    Once a name is answered, later additions can neither change nor shadow the answer: a
    second key matching the name would be comparable to the first.
   */
  lemma AnswersAreStable<V(!new)>(calls: seq<Addition<V>>, more: seq<Addition<V>>, name: string, v: V)
    requires Answers(AfterAdditions(calls), name, Some(v))
    ensures Answers(AfterAdditions(calls + more), name, Some(v))
    ensures forall w :: Answers(AfterAdditions(calls + more), name, w) ==> w == Some(v)
  {
    var m, n := AfterAdditions(calls), AfterAdditions(calls + more);
    AdditionsOnlyGrow(calls, more);
    var k :| k in m && IsSubSymbol(name, k) && m[k] == v;
    assert (k, v) in m.Items;
    assert (k, v) in n.Items;
    AdditionsKeepInvariant(calls + more);
    AnswerIsUnique(n, name);
  }

  /**
    A lookup may answer a name that was never added (a child of a key), but only when no
    later addition could define that name: the name, and everything below it, is refused
    for good.
   */
  lemma FalsePositivesAreHarmless<V(!new)>(
      calls: seq<Addition<V>>, more: seq<Addition<V>>, name: string, below: string, v: V)
    requires Answers(AfterAdditions(calls), name, Some(v))
    requires IsSubSymbol(below, name)
    ensures !Accepts(AfterAdditions(calls + more), below)
  {
    AnswersAreStable(calls, more, name, v);
    var k :| k in AfterAdditions(calls + more) && IsSubSymbol(name, k);
    SubSymbolTransitive(below, name, k);
  }

  /**
    The index is as large as it can be: whatever the order of the calls, every valid name
    that was ever offered ended up comparable to a key that was kept.
   */
  lemma {:induction false} AdditionsAreMaximal<V>(calls: seq<Addition<V>>, i: nat)
    requires i < |calls| && ValidateSymbolName(calls[i].name)
    ensures exists k :: k in AfterAdditions(calls) && Comparable(calls[i].name, k)
  {
    var before, at := calls[..i], calls[..i + 1];
    var m := AfterAdditions(before);
    assert at[..|at| - 1] == before;
    var name := calls[i].name;
    var k :| k in AfterAdditions(at) && Comparable(name, k) by {
      if Accepts(m, name) {
        assert name in AfterAdditions(at) && Comparable(name, name);
      } else {
        var k :| k in m && Comparable(name, k);
        assert k in AfterAdditions(at);
      }
    }
    assert calls == at + calls[i + 1..];
    AdditionsOnlyGrow(at, calls[i + 1..]);
    assert (k, AfterAdditions(at)[k]) in AfterAdditions(calls).Items;
  }

  // ----- the ordered table and its one-probe lookup

  datatype Entry<V> = Entry(key: string, value: V)

  ghost predicate Sorted<V>(t: seq<Entry<V>>) {
    forall i, j :: 0 <= i < j < |t| ==> Less(t[i].key, t[j].key)
  }

  ghost function MapOf<V>(t: seq<Entry<V>>): Index<V> {
    if t == [] then map[]
    else
      var last := t[|t| - 1];
      MapOf(t[..|t| - 1])[last.key := last.value]
  }

  lemma {:induction false} KeyIsInMap<V>(t: seq<Entry<V>>, i: nat)
    requires i < |t|
    ensures t[i].key in MapOf(t)
  {
    if i < |t| - 1 {
      KeyIsInMap(t[..|t| - 1], i);
    }
  }

  lemma {:induction false} EntryIsInMap<V>(t: seq<Entry<V>>, i: nat)
    requires Sorted(t) && i < |t|
    ensures t[i].key in MapOf(t) && MapOf(t)[t[i].key] == t[i].value
  {
    if i < |t| - 1 {
      EntryIsInMap(t[..|t| - 1], i);
    }
  }

  lemma {:induction false} KeyHasPosition<V>(t: seq<Entry<V>>, k: string) returns (i: nat)
    requires k in MapOf(t)
    ensures i < |t| && t[i].key == k
  {
    if k == t[|t| - 1].key {
      i := |t| - 1;
    } else {
      i := KeyHasPosition(t[..|t| - 1], k);
    }
  }

  /** `at` is the position just after the last key `<= name`. */
  ghost predicate SplitsAt<V>(t: seq<Entry<V>>, name: string, at: int) {
    0 <= at <= |t| && AllUpTo(t, at, name) && AllAbove(t, at, name)
  }

  ghost predicate AllUpTo<V>(t: seq<Entry<V>>, at: nat, name: string)
    requires at <= |t|
  {
    forall i :: 0 <= i < at ==> LessOrEqual(t[i].key, name)
  }

  ghost predicate AllAbove<V>(t: seq<Entry<V>>, at: nat, name: string)
    requires at <= |t|
  {
    forall i :: at <= i < |t| ==> Less(name, t[i].key)
  }

  lemma KeysAround<V>(t: seq<Entry<V>>, mid: nat, name: string)
    requires Sorted(t) && mid < |t|
    ensures if LessOrEqual(t[mid].key, name) then AllUpTo(t, mid + 1, name) else AllAbove(t, mid, name)
  {
    if LessOrEqual(t[mid].key, name) {
      forall i | 0 <= i < mid
        ensures LessOrEqual(t[i].key, name)
      {
        Transitive(t[i].key, t[mid].key, name);
      }
    } else {
      Total(t[mid].key, name);
      forall i | mid < i < |t|
        ensures Less(name, t[i].key)
      {
        LessTransitive(name, t[mid].key, t[i].key);
      }
    }
  }

  /** No key is a parent of a later one; nothing is said about their characters. */
  ghost predicate NoneBelow<V>(t: seq<Entry<V>>) {
    forall i, j :: 0 <= i < j < |t| ==> !IsSubSymbol(t[j].key, t[i].key)
  }

  /** The invariant, read off the table. */
  ghost predicate Unrelated<V>(t: seq<Entry<V>>) {
    (forall i :: 0 <= i < |t| ==> ValidateSymbolName(t[i].key)) && NoneBelow(t)
  }

  lemma InvariantIsUnrelated<V>(t: seq<Entry<V>>)
    requires Sorted(t) && Invariant(MapOf(t))
    ensures Unrelated(t)
  {
    forall i | 0 <= i < |t|
      ensures t[i].key in MapOf(t)
    {
      EntryIsInMap(t, i);
    }
    assert forall i, j :: 0 <= i < j < |t| ==> Less(t[i].key, t[j].key);
  }

  /**
    If any key matches the searched name then the last key not above it does: the header's
    nine-step argument.
   */
  lemma OnlyThePredecessorCanMatch<V>(t: seq<Entry<V>>, name: string, at: int, j: int)
    requires Sorted(t) && Unrelated(t) && SplitsAt(t, name, at)
    requires 0 <= j < |t| && IsSubSymbol(name, t[j].key)
    ensures j == at - 1
  {
    SubSymbolIsGreater(name, t[j].key);
    if at <= j {
      Antisymmetric(name, t[j].key);
    } else if j < at - 1 {
      assert Less(t[j].key, t[at - 1].key);
      BetweenIsSubSymbol(t[j].key, t[at - 1].key, name);
    }
  }

  /** Dually, if any key lies below a name that is not a key then the first key above it does. */
  lemma OnlyTheSuccessorCanBeBelow<V>(t: seq<Entry<V>>, name: string, at: int, j: int)
    requires Sorted(t) && Unrelated(t) && SplitsAt(t, name, at)
    requires 0 <= j < |t| && IsSubSymbol(t[j].key, name) && t[j].key != name
    ensures at <= j && IsSubSymbol(t[at].key, name)
  {
    SubSymbolIsGreater(t[j].key, name);
    if j < at {
      Antisymmetric(name, t[j].key);
    } else if at < j {
      BetweenIsSubSymbol(name, t[at].key, t[j].key);
    }
  }

  class DescriptorIndex<V(!new)> {
    // The entries of by_symbol_, in key order.
    var bySymbol: seq<Entry<V>>
    // Every AddSymbol call so far, refused ones included.
    ghost var calls: seq<Addition<V>>

    ghost predicate Valid()
      reads this
    {
      Sorted(bySymbol) && Invariant(MapOf(bySymbol)) && MapOf(bySymbol) == AfterAdditions(calls)
    }

    ghost function Contents(): Index<V>
      reads this
    {
      MapOf(bySymbol)
    }

    constructor ()
      ensures Valid() && Contents() == map[] && calls == []
    {
      bySymbol, calls := [], [];
    }

    /** The position of the last key `<= name`, or -1 when every key is greater. */
    method FindLastLessOrEqual(name: string) returns (at: int)
      requires Sorted(bySymbol)
      ensures SplitsAt(bySymbol, name, at + 1)
    {
      var lo, hi := 0, |bySymbol|;
      while lo < hi
        invariant 0 <= lo <= hi <= |bySymbol|
        invariant AllUpTo(bySymbol, lo, name) && AllAbove(bySymbol, hi, name)
      {
        var mid := (lo + hi) / 2;
        KeysAround(bySymbol, mid, name);
        if LessOrEqual(bySymbol[mid].key, name) {
          lo := mid + 1;
        } else {
          hi := mid;
        }
      }
      at := lo - 1;
    }

    /** One probe answers what a scan over all keys would. */
    method FindSymbol(name: string) returns (answer: Option<V>)
      requires Valid()
      ensures Answers(Contents(), name, answer)
    {
      var at := FindLastLessOrEqual(name);
      if at >= 0 && IsSubSymbol(name, bySymbol[at].key) {
        answer := Some(bySymbol[at].value);
        EntryIsInMap(bySymbol, at);
      } else {
        answer := None;
        InvariantIsUnrelated(bySymbol);
        forall k | k in Contents()
          ensures !IsSubSymbol(name, k)
        {
          var j := KeyHasPosition(bySymbol, k);
          if IsSubSymbol(name, k) {
            OnlyThePredecessorCanMatch(bySymbol, name, at + 1, j);
          }
        }
      }
    }

    /** Two neighbours decide whether the name is comparable to any key. */
    method MayAdd(name: string) returns (ok: bool, next: nat)
      requires Valid()
      ensures ok == Accepts(Contents(), name)
      ensures ok ==> SplitsAt(bySymbol, name, next)
    {
      if !ValidateSymbolName(name) {
        return false, 0;
      }
      var at := FindLastLessOrEqual(name);
      next := at + 1;
      ok := NeighboursAllow(bySymbol, name, next);
      NeighbourTestsAreExact(bySymbol, name, next);
    }

    /** Adds a symbol unless it is invalid or would break the invariant. */
    method AddSymbol(name: string, value: V) returns (ok: bool)
      requires Valid()
      modifies this
      ensures Valid() && calls == old(calls) + [Addition(name, value)]
      ensures ok == Accepts(old(Contents()), name)
      ensures ok ==> forall c :: c in name ==> c in ALPHABET
      ensures old(Contents()) == map[] ==> (ok <==> forall c :: c in name ==> c in ALPHABET)
      ensures Contents() == Added(old(Contents()), name, value)
    {
      ValidNamesAre(name);
      var next;
      ok, next := MayAdd(name);
      var table := bySymbol;
      ghost var m := MapOf(table);
      OneMoreCall(calls, Addition(name, value));
      if ok {
        table := Inserted(bySymbol, next, Entry(name, value));
        InsertedIsAdded(bySymbol, next, Entry(name, value));
      }
      assert MapOf(table) == Added(m, name, value);
      assert Sorted(table) && Invariant(MapOf(table));
      bySymbol := table;
      calls := calls + [Addition(name, value)];
    }

    /** What was the answer at some point of the object's life is the answer ever after. */
    lemma AnswersStand(before: seq<Addition<V>>, name: string, v: V)
      requires Valid() && before <= calls && Answers(AfterAdditions(before), name, Some(v))
      ensures forall a :: Answers(Contents(), name, a) <==> a == Some(v)
    {
      assert calls == before + calls[|before|..];
      AnswersAreStable(before, calls[|before|..], name, v);
    }
  }

  lemma OneMoreCall<V>(calls: seq<Addition<V>>, call: Addition<V>)
    ensures AfterAdditions(calls + [call]) == Added(AfterAdditions(calls), call.name, call.value)
  {
    assert (calls + [call])[..|calls|] == calls;
  }

  /** What the two neighbours of a name's place say about it. */
  predicate NeighboursAllow<V>(t: seq<Entry<V>>, name: string, at: nat)
    requires at <= |t|
  {
    && (at > 0 ==> !IsSubSymbol(name, t[at - 1].key))
    && (at < |t| ==> !IsSubSymbol(t[at].key, name))
  }

  /** If neither neighbour is comparable to the name then no key is. */
  lemma NeighboursDecide<V>(t: seq<Entry<V>>, name: string, at: int, j: nat)
    requires Sorted(t) && Unrelated(t) && SplitsAt(t, name, at) && j < |t|
    requires NeighboursAllow(t, name, at)
    ensures !Comparable(name, t[j].key)
  {
    if IsSubSymbol(name, t[j].key) {
      OnlyThePredecessorCanMatch(t, name, at, j);
    } else if IsSubSymbol(t[j].key, name) {
      OnlyTheSuccessorCanBeBelow(t, name, at, j);
    }
  }

  lemma NoConflict<V>(t: seq<Entry<V>>, name: string)
    requires ValidateSymbolName(name)
    requires forall j :: 0 <= j < |t| ==> !Comparable(name, t[j].key)
    ensures Accepts(MapOf(t), name)
  {
    forall k | k in MapOf(t)
      ensures !Comparable(name, k)
    {
      var j := KeyHasPosition(t, k);
    }
  }

  lemma AcceptedIsAllowed<V>(t: seq<Entry<V>>, name: string, at: nat)
    requires at <= |t| && Accepts(MapOf(t), name)
    ensures NeighboursAllow(t, name, at)
  {
    forall j | 0 <= j < |t|
      ensures !Comparable(name, t[j].key)
    {
      KeyIsInMap(t, j);
    }
  }

  lemma AllowedIsAccepted<V>(t: seq<Entry<V>>, name: string, at: nat)
    requires Sorted(t) && Unrelated(t) && SplitsAt(t, name, at) && ValidateSymbolName(name)
    requires NeighboursAllow(t, name, at)
    ensures Accepts(MapOf(t), name)
  {
    forall j | 0 <= j < |t|
      ensures !Comparable(name, t[j].key)
    {
      NeighboursDecide(t, name, at, j);
    }
    NoConflict(t, name);
  }

  /** A valid name is accepted exactly when neither neighbour of its place is related to it. */
  lemma NeighbourTestsAreExact<V>(t: seq<Entry<V>>, name: string, at: nat)
    requires Sorted(t) && Invariant(MapOf(t)) && SplitsAt(t, name, at) && ValidateSymbolName(name)
    ensures Accepts(MapOf(t), name) <==> NeighboursAllow(t, name, at)
  {
    if Accepts(MapOf(t), name) {
      AcceptedIsAllowed(t, name, at);
    }
    if NeighboursAllow(t, name, at) {
      InvariantIsUnrelated(t);
      AllowedIsAccepted(t, name, at);
    }
  }

  function Inserted<V>(t: seq<Entry<V>>, at: nat, e: Entry<V>): (u: seq<Entry<V>>)
    requires at <= |t|
    ensures |u| == |t| + 1
    ensures forall i :: 0 <= i < |u| ==> u[i] == if i < at then t[i] else if i == at then e else t[i - 1]
  {
    t[..at] + [e] + t[at..]
  }

  lemma InsertedIsSorted<V>(t: seq<Entry<V>>, at: nat, e: Entry<V>)
    requires Sorted(t) && SplitsAt(t, e.key, at) && e.key !in MapOf(t)
    ensures Sorted(Inserted(t, at, e))
  {
    forall i | 0 <= i < at
      ensures Less(t[i].key, e.key)
    {
      KeyIsInMap(t, i);
    }
  }

  lemma InsertedFront<V>(t: seq<Entry<V>>, at: nat, e: Entry<V>)
    requires at < |t|
    ensures Inserted(t, at, e)[..|t|] == Inserted(t[..|t| - 1], at, e)
    ensures Inserted(t, at, e)[|t|] == t[|t| - 1]
  {
  }

  lemma UpdatesCommute<V>(m: Index<V>, a: Entry<V>, b: Entry<V>)
    requires a.key != b.key
    ensures m[a.key := a.value][b.key := b.value] == m[b.key := b.value][a.key := a.value]
  {
  }

  lemma {:induction false} MapOfInserted<V>(t: seq<Entry<V>>, at: nat, e: Entry<V>)
    requires at <= |t| && e.key !in MapOf(t)
    ensures MapOf(Inserted(t, at, e)) == MapOf(t)[e.key := e.value]
  {
    var u := Inserted(t, at, e);
    if at == |t| {
      assert u[..|t|] == t;
    } else {
      var front, last := t[..|t| - 1], t[|t| - 1];
      InsertedFront(t, at, e);
      MapOfInserted(front, at, e);
      UpdatesCommute(MapOf(front), e, last);
    }
  }

  /** Inserting an accepted name at its place adds it to the index. */
  lemma InsertedIsAdded<V>(t: seq<Entry<V>>, at: nat, e: Entry<V>)
    requires Sorted(t) && Invariant(MapOf(t)) && SplitsAt(t, e.key, at)
    requires Accepts(MapOf(t), e.key)
    ensures Sorted(Inserted(t, at, e)) && Invariant(MapOf(Inserted(t, at, e)))
    ensures MapOf(Inserted(t, at, e)) == Added(MapOf(t), e.key, e.value)
  {
    assert Comparable(e.key, e.key);
    assert e.key !in MapOf(t);
    InsertedIsSorted(t, at, e);
    MapOfInserted(t, at, e);
    AddedKeepsInvariant(MapOf(t), e.key, e.value);
  }

  // ----- how much of validation the probe needs

  /** For every name, a key that matches it is the last key not above it. */
  ghost predicate ProbeIsRight<V>(t: seq<Entry<V>>) {
    forall name, at, j :: SplitsAt(t, name, at) && 0 <= j < |t| && IsSubSymbol(name, t[j].key) ==> j == at - 1
  }

  /** `long` continues `short` with a character that sorts below the period. */
  predicate ContinuesBelowDot(short: string, long: string) {
    short < long && long[|short|] < '.'
  }

  lemma {:induction false} DotSortsAbove(k: string, h: string)
    requires ContinuesBelowDot(k, h)
    ensures LessOrEqual(h, k + ".")
  {
    if k != [] {
      DotSortsAbove(k[1..], h[1..]);
      assert (k + ".")[1..] == k[1..] + ".";
    }
  }

  lemma {:induction false} SplitExists<V>(t: seq<Entry<V>>, name: string) returns (at: nat)
    requires Sorted(t)
    ensures SplitsAt(t, name, at)
  {
    if t == [] || LessOrEqual(t[|t| - 1].key, name) {
      at := |t|;
      if t != [] {
        KeysAround(t, |t| - 1, name);
      }
    } else {
      at := SplitExists(t[..|t| - 1], name);
      KeysAround(t, |t| - 1, name);
      assert forall i :: 0 <= i < |t| - 1 ==> t[..|t| - 1][i] == t[i];
    }
  }

  /** A key that continues another below the period hides it from a name it is a parent of. */
  lemma HiddenParent<V>(t: seq<Entry<V>>, i: nat, j: nat)
    requires Sorted(t) && i < |t| && j < |t| && ContinuesBelowDot(t[i].key, t[j].key)
    ensures !ProbeIsRight(t)
  {
    var (k, h) := (t[i].key, t[j].key);
    var name := k + ".";
    var at := SplitExists(t, name);
    DotSortsAbove(k, h);
    PrefixIsLessOrEqual(k, h);
    if j <= i {
      if j < i {
        assert Less(h, k);
      }
      Antisymmetric(h, k);
    }
    assert j < at by {
      if at <= j {
        assert Less(name, h);
        Antisymmetric(name, h);
      }
    }
    assert IsSubSymbol(name, t[i].key) && i != at - 1;
  }

  /** A key strictly between another key and a sub-symbol of it continues it below the period. */
  lemma HiddenByContinuation(k: string, h: string, name: string)
    requires IsSubSymbol(name, k) && Less(k, h) && LessOrEqual(h, name) && !IsSubSymbol(h, k)
    ensures ContinuesBelowDot(k, h)
  {
    if name == k {
      Antisymmetric(k, h);
    }
    BetweenExtendsPrefix(k, h, name);
    assert h[|k|..][0] == h[|k|] && name[|k|..][0] == '.';
  }

  /**
    The exact condition on the keys for one probe to be enough, valid or not: none may continue
    another with a character below the period.
   */
  lemma ProbeIsRightIff<V>(t: seq<Entry<V>>)
    requires Sorted(t) && NoneBelow(t)
    ensures ProbeIsRight(t) <==> forall i, j :: 0 <= i < |t| && 0 <= j < |t| ==> !ContinuesBelowDot(t[i].key, t[j].key)
  {
    forall i, j | 0 <= i < |t| && 0 <= j < |t| && ContinuesBelowDot(t[i].key, t[j].key)
      ensures !ProbeIsRight(t)
    {
      HiddenParent(t, i, j);
    }
    forall name, at, j | SplitsAt(t, name, at) && 0 <= j < |t| && IsSubSymbol(name, t[j].key) && j != at - 1
      ensures exists i :: 0 <= i < |t| && ContinuesBelowDot(t[j].key, t[i].key)
    {
      SubSymbolIsGreater(name, t[j].key);
      if at <= j {
        Antisymmetric(name, t[j].key);
      }
      HiddenByContinuation(t[j].key, t[at - 1].key, name);
    }
  }

  /** Validation is more than enough: '.' is the least character it lets through. */
  lemma ValidKeysSuffice<V>(t: seq<Entry<V>>)
    requires Sorted(t) && Unrelated(t)
    ensures ProbeIsRight(t)
  {
    forall i, j | 0 <= i < |t| && 0 <= j < |t|
      ensures !ContinuesBelowDot(t[i].key, t[j].key)
    {
      assert forall c :: IsSymbolChar(c) ==> c >= '.';
    }
    ProbeIsRightIff(t);
  }

  /** Without it two unrelated keys can fail: "foo-x" stands between "foo" and "foo.". */
  lemma UnvalidatedKeysFail(t: seq<Entry<int>>)
    requires t == [Entry("foo", 1), Entry("foo-x", 2)]
    ensures Sorted(t) && NoneBelow(t) && !ProbeIsRight(t)
  {
    PrefixIsLessOrEqual(t[0].key, t[1].key);
    assert t[1].key[|t[0].key|] == '-';
    HiddenParent(t, 0, 1);
  }
}
