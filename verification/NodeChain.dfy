/**
  What the entries of the table of `MapTables` are made of: pointers to nodes that are chained by
  `next`, and pointers to trees.  A node is named by its address, which takes the place of the
  value, so an `Item` is a key and the address of its node.
 */
module NodeChains {
  import opened MapTables
  import opened Options

  type Addr = nat

  datatype Node<K> = Node(key: K, next: Option<Addr>)

  datatype Ref = NoRef | NodeAt(a: Addr) | TreeAt(id: nat)

  type Nodes<K> = seq<Item<K, Addr>>

  /** A tree is an ordered set of pointers to the keys of its nodes. */
  datatype Store<K> = Store(nodes: map<Addr, Node<K>>, trees: map<nat, Nodes<K>>, nextTree: nat, heads: seq<Ref>)

  // ----- chains

  function HeadOf(r: Ref): Option<Addr> {
    if r.NodeAt? then Some(r.a) else None
  }

  function RefTo(head: Option<Addr>): Ref {
    if head.Some? then NodeAt(head.value) else NoRef
  }

  /** The chain that starts at `head` passes the nodes `s` and ends. */
  ghost predicate Linked<K>(nodes: map<Addr, Node<K>>, head: Option<Addr>, s: Nodes<K>)
    decreases s
  {
    if s == [] then head == None
    else
      && head == Some(s[0].value) && s[0].value in nodes && nodes[s[0].value].key == s[0].key
      && Linked(nodes, nodes[s[0].value].next, s[1..])
  }

  /** The nodes are there and have the keys. */
  ghost predicate Holds<K>(nodes: map<Addr, Node<K>>, s: Nodes<K>) {
    forall x :: x in s ==> x.value in nodes && nodes[x.value].key == x.key
  }

  lemma {:induction false} LinkedHolds<K(!new)>(nodes: map<Addr, Node<K>>, head: Option<Addr>, s: Nodes<K>)
    requires Linked(nodes, head, s)
    ensures Holds(nodes, s)
    decreases s
  {
    if s != [] {
      FirstAndRest(s);
      LinkedHolds(nodes, nodes[s[0].value].next, s[1..]);
    }
  }

  /** No node of `s` was touched. */
  ghost predicate SameNodes<K>(before: map<Addr, Node<K>>, after: map<Addr, Node<K>>, s: Nodes<K>) {
    forall x :: x in s && x.value in before ==> x.value in after && after[x.value] == before[x.value]
  }

  lemma {:induction false} ChainStays<K(!new)>(
      nodes: map<Addr, Node<K>>, nodes': map<Addr, Node<K>>, head: Option<Addr>, s: Nodes<K>)
    requires Linked(nodes, head, s) && SameNodes(nodes, nodes', s)
    ensures Linked(nodes', head, s)
    decreases s
  {
    if s != [] {
      FirstAndRest(s);
      ChainStays(nodes, nodes', nodes[s[0].value].next, s[1..]);
    }
  }

  // ----- the table that a store implements

  ghost predicate EntryIs<K>(s: Store<K>, t: Table<K, Addr>, b: nat)
    requires b < |t| == |s.heads| && |t| % 2 == 0
  {
    match t[b]
    case Null => s.heads[b] == NoRef
    case List(xs) => xs != [] && s.heads[b].NodeAt? && Linked(s.nodes, HeadOf(s.heads[b]), xs)
    case Tree(xs) =>
      && s.heads[b].TreeAt? && s.heads[b].id in s.trees && s.trees[s.heads[b].id] == xs
      && s.heads[Partner(b)] == s.heads[b] && t[Partner(b)] == t[b]
      && Holds(s.nodes, xs) && forall x :: x in xs ==> s.nodes[x.value].next == None
  }

  /** Different pairs of buckets have different trees, all of them made before. */
  ghost predicate TreesApart<K>(s: Store<K>) {
    && (forall id :: id in s.trees ==> id < s.nextTree)
    && (forall b: nat :: b < |s.heads| && s.heads[b].TreeAt? ==> s.heads[b].id < s.nextTree)
    && (forall b: nat, d: nat :: b < |s.heads| && d < |s.heads| && s.heads[b].TreeAt? && s.heads[d] == s.heads[b] ==>
          d / 2 == b / 2)
  }

  ghost predicate Implements<K>(s: Store<K>, t: Table<K, Addr>) {
    && |t| == |s.heads| && |t| % 2 == 0 && TreesApart(s)
    && forall b: nat :: b < |t| ==> EntryIs(s, t, b)
  }

  lemma EntryHolds<K(!new)>(s: Store<K>, t: Table<K, Addr>, b: nat)
    requires b < |t| == |s.heads| && |t| % 2 == 0 && EntryIs(s, t, b)
    ensures Holds(s.nodes, t[b].Nodes())
  {
    if t[b].List? {
      LinkedHolds(s.nodes, HeadOf(s.heads[b]), t[b].nodes);
    }
  }

  /** No node of the table is at the address. */
  ghost predicate Unused<K>(t: Table<K, Addr>, a: Addr) {
    forall b: nat, x {:trigger x in t[b].Nodes()} :: b < |t| && x in t[b].Nodes() ==> x.value != a
  }

  /** A node is in one list, or in the tree of one pair of buckets. */
  lemma NodesAreApart<K(!new)>(
      c: Keys<K>, s: Store<K>, t: Table<K, Addr>, b: nat, d: nat, x: Item<K, Addr>, y: Item<K, Addr>)
    requires Implements(s, t) && TableOk(c, t) && b < |t| && d < |t|
    requires x in t[b].Nodes() && y in t[d].Nodes()
    ensures x.value == y.value ==> x == y && b / 2 == d / 2 && (t[b].List? ==> b == d)
  {
    EntryHolds(s, t, b);
    EntryHolds(s, t, d);
    assert EntryOk(c, t, b) && EntryOk(c, t, d);
  }

  lemma NotElsewhere<K(!new)>(c: Keys<K>, s: Store<K>, t: Table<K, Addr>, b: nat, d: nat, y: Item<K, Addr>)
    requires Implements(s, t) && TableOk(c, t) && b < |t| && d < |t| && y in t[d].Nodes()
    requires d / 2 != b / 2 || (t[b].List? && d != b)
    ensures !Among(y.value, t[b].Nodes())
  {
    forall x | x in t[b].Nodes()
      ensures x.value != y.value
    {
      NodesAreApart(c, s, t, b, d, x, y);
    }
  }

  /** The tests on pointers do what the tests on entries do. */
  lemma PointerTestsAreRight<K(!new)>(c: Keys<K>, s: Store<K>, t: Table<K, Addr>, b: nat)
    requires Implements(s, t) && TableOk(c, t) && b < |t|
    ensures s.heads[b] == NoRef <==> t[b].Null?
    ensures s.heads[b] != NoRef && s.heads[b] != s.heads[Partner(b)] <==> t[b].List?
  {
    var p := Partner(b);
    assert EntryIs(s, t, b) && EntryIs(s, t, p);
    if t[b].List? && t[p].List? {
      assert t[b].nodes[0] in t[b].Nodes() && t[p].nodes[0] in t[p].Nodes();
      NodesAreApart(c, s, t, b, p, t[b].nodes[0], t[p].nodes[0]);
    }
  }

  // ----- what insertion does to pointers

  function PutInList<K>(s: Store<K>, b: nat, a: Addr): Store<K>
    requires b < |s.heads| && a in s.nodes
  {
    s.(nodes := s.nodes[a := Node(s.nodes[a].key, HeadOf(s.heads[b]))], heads := s.heads[b := NodeAt(a)])
  }

  ghost predicate SameTree<K>(s: Store<K>, s': Store<K>, r: Ref) {
    r.TreeAt? && r.id in s.trees ==> r.id in s'.trees && s'.trees[r.id] == s.trees[r.id]
  }

  lemma EntryStays<K(!new)>(s: Store<K>, s': Store<K>, t: Table<K, Addr>, u: Table<K, Addr>, b: nat)
    requires b < |t| == |s.heads| && |t| % 2 == 0 && EntryIs(s, t, b) && |u| == |t| && |s'.heads| == |s.heads|
    requires u[b] == t[b] && s'.heads[b] == s.heads[b]
    requires SameNodes(s.nodes, s'.nodes, t[b].Nodes())
    requires t[b].Tree? ==> u[Partner(b)] == t[Partner(b)] && s'.heads[Partner(b)] == s.heads[Partner(b)]
    requires SameTree(s, s', s.heads[b])
    ensures EntryIs(s', u, b)
  {
    EntryHolds(s, t, b);
    if t[b].List? {
      ChainStays(s.nodes, s'.nodes, HeadOf(s.heads[b]), t[b].nodes);
    }
  }

  lemma PutInListAt<K(!new)>(s: Store<K>, t: Table<K, Addr>, b: nat, x: Item<K, Addr>)
    requires Implements(s, t) && b < |t| && !t[b].Tree?
    requires x.value in s.nodes && s.nodes[x.value].key == x.key && Unused(t, x.value)
    ensures EntryIs(PutInList(s, b, x.value), AddedToList(t, b, x), b)
  {
    var s' := PutInList(s, b, x.value);
    var xs := t[b].Nodes();
    assert EntryIs(s, t, b);
    ChainStays(s.nodes, s'.nodes, HeadOf(s.heads[b]), xs);
    assert ([x] + xs)[1..] == xs;
  }

  lemma PutInListIs<K(!new)>(s: Store<K>, t: Table<K, Addr>, b: nat, x: Item<K, Addr>)
    requires Implements(s, t) && b < |t| && !t[b].Tree?
    requires x.value in s.nodes && s.nodes[x.value].key == x.key && Unused(t, x.value)
    ensures Implements(PutInList(s, b, x.value), AddedToList(t, b, x))
  {
    var (s', u) := (PutInList(s, b, x.value), AddedToList(t, b, x));
    assert EntryIs(s, t, b);
    forall d: nat | d < |t|
      ensures EntryIs(s', u, d)
    {
      if d == b {
        PutInListAt(s, t, b, x);
      } else {
        assert EntryIs(s, t, d);
        EntryStays(s, s', t, u, d);
      }
    }
  }

  function PutInTree<K>(c: Keys<K>, s: Store<K>, b: nat, a: Addr): Store<K>
    requires b < |s.heads| && a in s.nodes && s.heads[b].TreeAt? && s.heads[b].id in s.trees
  {
    var id := s.heads[b].id;
    s.(nodes := s.nodes[a := Node(s.nodes[a].key, None)],
       trees := s.trees[id := TreeInsert(c, s.trees[id], Item(s.nodes[a].key, a))])
  }

  lemma PutInTreeAt<K(!new)>(c: Keys<K>, s: Store<K>, t: Table<K, Addr>, b: nat, x: Item<K, Addr>, d: nat)
    requires Implements(s, t) && b < |t| && t[b].Tree? && EntryIs(s, t, b) && (d == b || d == Partner(b))
    requires x.value in s.nodes && s.nodes[x.value].key == x.key && Unused(t, x.value)
    ensures EntryIs(PutInTree(c, s, b, x.value), AddedToTree(c, t, b, x), d)
  {
    WithTreeAt(t, b, TreeInsert(c, t[b].nodes, x), d);
    WithTreeAt(t, b, TreeInsert(c, t[b].nodes, x), Partner(d));
    TreeInsertHas(c, t[b].nodes, x);
  }

  lemma PutInTreeIs<K(!new)>(c: Keys<K>, s: Store<K>, t: Table<K, Addr>, b: nat, x: Item<K, Addr>)
    requires Implements(s, t) && b < |t| && t[b].Tree? && EntryIs(s, t, b)
    requires x.value in s.nodes && s.nodes[x.value].key == x.key && Unused(t, x.value)
    ensures Implements(PutInTree(c, s, b, x.value), AddedToTree(c, t, b, x))
  {
    var (s', u) := (PutInTree(c, s, b, x.value), AddedToTree(c, t, b, x));
    forall d: nat | d < |t|
      ensures EntryIs(s', u, d)
    {
      if d == b || d == Partner(b) {
        PutInTreeAt(c, s, t, b, x, d);
      } else {
        WithTreeAt(t, b, TreeInsert(c, t[b].nodes, x), d);
        WithTreeAt(t, b, TreeInsert(c, t[b].nodes, x), Partner(d));
        EntryStays(s, s', t, u, d);
      }
    }
  }

  // ----- lists that become a tree

  /** The nodes of `xs` are taken out of their chain. */
  function Unchained<K>(nodes: map<Addr, Node<K>>, xs: Nodes<K>): (r: map<Addr, Node<K>>)
    ensures r.Keys == nodes.Keys
    decreases xs
  {
    if xs == [] || xs[0].value !in nodes then nodes
    else Unchained(nodes[xs[0].value := nodes[xs[0].value].(next := None)], xs[1..])
  }

  ghost predicate Among<K>(a: Addr, xs: Nodes<K>) {
    exists x :: x in xs && x.value == a
  }

  lemma {:induction false} UnchainedAt<K(!new)>(nodes: map<Addr, Node<K>>, xs: Nodes<K>, a: Addr)
    requires Holds(nodes, xs) && a in nodes
    ensures Unchained(nodes, xs)[a] == if Among(a, xs) then nodes[a].(next := None) else nodes[a]
    decreases xs
  {
    if xs != [] {
      FirstAndRest(xs);
      assert xs[0] in xs;
      UnchainedAt(nodes[xs[0].value := nodes[xs[0].value].(next := None)], xs[1..], a);
    }
  }

  /** Two lists of neighbouring buckets become one new tree. */
  function Converted<K>(c: Keys<K>, s: Store<K>, b: nat, xs: Nodes<K>, ys: Nodes<K>): Store<K>
    requires b < |s.heads| && |s.heads| % 2 == 0
  {
    Store(Unchained(Unchained(s.nodes, xs), ys),
          s.trees[s.nextTree := CopiedToTree(c, CopiedToTree(c, [], xs), ys)],
          s.nextTree + 1,
          s.heads[b := TreeAt(s.nextTree)][Partner(b) := TreeAt(s.nextTree)])
  }

  lemma ConvertedNodes<K(!new)>(c: Keys<K>, s: Store<K>, t: Table<K, Addr>, b: nat, a: Addr)
    requires Implements(s, t) && b < |t| && a in s.nodes
    ensures var (xs, ys) := (t[b].Nodes(), t[Partner(b)].Nodes());
            Converted(c, s, b, xs, ys).nodes[a]
            == if Among(a, xs) || Among(a, ys) then s.nodes[a].(next := None) else s.nodes[a]
  {
    var (xs, ys) := (t[b].Nodes(), t[Partner(b)].Nodes());
    EntryHolds(s, t, b);
    EntryHolds(s, t, Partner(b));
    UnchainedAt(s.nodes, xs, a);
    forall y | y in ys
      ensures y.value in Unchained(s.nodes, xs) && Unchained(s.nodes, xs)[y.value].key == y.key
    {
      UnchainedAt(s.nodes, xs, y.value);
    }
    UnchainedAt(Unchained(s.nodes, xs), ys, a);
  }

  lemma ConvertedAt<K(!new)>(c: Keys<K>, s: Store<K>, t: Table<K, Addr>, b: nat, d: nat)
    requires Implements(s, t) && b < |t| && (d == b || d == Partner(b))
    ensures EntryIs(Converted(c, s, b, t[b].Nodes(), t[Partner(b)].Nodes()), TreeConverted(c, t, b), d)
  {
    var (xs, ys) := (t[b].Nodes(), t[Partner(b)].Nodes());
    var tree := CopiedToTree(c, CopiedToTree(c, [], xs), ys);
    WithTreeAt(t, b, tree, d);
    WithTreeAt(t, b, tree, Partner(d));
    CopiedHas(c, [], xs);
    CopiedHas(c, CopiedToTree(c, [], xs), ys);
    EntryHolds(s, t, b);
    EntryHolds(s, t, Partner(b));
    forall x | x in tree
      ensures x.value in s.nodes && Converted(c, s, b, xs, ys).nodes[x.value] == Node(x.key, None)
    {
      ConvertedNodes(c, s, t, b, x.value);
    }
  }

  lemma ConvertedIs<K(!new)>(c: Keys<K>, s: Store<K>, t: Table<K, Addr>, b: nat)
    requires Implements(s, t) && TableOk(c, t) && b < |t| && t[b].List?
    ensures Implements(Converted(c, s, b, t[b].Nodes(), t[Partner(b)].Nodes()), TreeConverted(c, t, b))
  {
    var (xs, ys) := (t[b].Nodes(), t[Partner(b)].Nodes());
    var (s', u) := (Converted(c, s, b, xs, ys), TreeConverted(c, t, b));
    forall d: nat | d < |t|
      ensures EntryIs(s', u, d)
    {
      if d == b || d == Partner(b) {
        ConvertedAt(c, s, t, b, d);
      } else {
        ConvertedElsewhere(c, s, t, b, d);
      }
    }
  }

  lemma ConvertedElsewhere<K(!new)>(c: Keys<K>, s: Store<K>, t: Table<K, Addr>, b: nat, d: nat)
    requires Implements(s, t) && TableOk(c, t) && b < |t| && t[b].List? && d < |t| && d != b && d != Partner(b)
    ensures EntryIs(Converted(c, s, b, t[b].Nodes(), t[Partner(b)].Nodes()), TreeConverted(c, t, b), d)
  {
    var (xs, ys) := (t[b].Nodes(), t[Partner(b)].Nodes());
    var (s', u) := (Converted(c, s, b, xs, ys), TreeConverted(c, t, b));
    var tree := CopiedToTree(c, CopiedToTree(c, [], xs), ys);
    WithTreeAt(t, b, tree, d);
    WithTreeAt(t, b, tree, Partner(d));
    EntryHolds(s, t, d);
    forall x | x in t[d].Nodes()
      ensures s'.nodes[x.value] == s.nodes[x.value]
    {
      ConvertedNodes(c, s, t, b, x.value);
      NotElsewhere(c, s, t, b, d, x);
      NotElsewhere(c, s, t, Partner(b), d, x);
    }
    EntryStays(s, s', t, u, d);
  }

  // ----- erasing

  /** Only chains through `xs` changed, and no key. */
  ghost predicate Rechained<K>(before: map<Addr, Node<K>>, after: map<Addr, Node<K>>, xs: Nodes<K>) {
    && after.Keys == before.Keys
    && forall a :: a in before ==> after[a].key == before[a].key && (!Among(a, xs) ==> after[a] == before[a])
  }

  lemma ErasedFromListIs<K(!new)>(c: Keys<K>, s: Store<K>, s': Store<K>, t: Table<K, Addr>, b: nat, k: K)
    requires Implements(s, t) && TableOk(c, t) && b < |t| && t[b].List?
    requires s'.trees == s.trees && s'.nextTree == s.nextTree && Rechained(s.nodes, s'.nodes, t[b].nodes)
    requires |s'.heads| == |s.heads| && s'.heads[b].TreeAt? == false && s'.heads == s.heads[b := s'.heads[b]]
    requires Linked(s'.nodes, HeadOf(s'.heads[b]), Without(t[b].nodes, k))
    ensures Implements(s', Erased(t, b, k))
  {
    var u := Erased(t, b, k);
    forall d: nat | d < |t|
      ensures EntryIs(s', u, d)
    {
      if d != b {
        assert EntryIs(s, t, d);
        assert t[d].Tree? ==> t[Partner(d)] == t[d];
        forall x | x in t[d].Nodes() && x.value in s.nodes
          ensures s'.nodes[x.value] == s.nodes[x.value]
        {
          NotElsewhere(c, s, t, b, d, x);
        }
        EntryStays(s, s', t, u, d);
      }
    }
  }

  /** The tree without the key; an empty tree goes. */
  function TakenFromTree<K(==)>(s: Store<K>, b: nat, k: K): Store<K>
    requires b < |s.heads| && |s.heads| % 2 == 0 && s.heads[b].TreeAt? && s.heads[b].id in s.trees
  {
    var id := s.heads[b].id;
    var tree := Without(s.trees[id], k);
    if tree != [] then s.(trees := s.trees[id := tree])
    else s.(trees := s.trees - {id}, heads := s.heads[b := NoRef][Partner(b) := NoRef])
  }

  lemma TakenFromTreeIs<K(!new)>(c: Keys<K>, s: Store<K>, t: Table<K, Addr>, b: nat, k: K)
    requires Implements(s, t) && TableOk(c, t) && b < |t| && t[b].Tree? && EntryIs(s, t, b)
    ensures Implements(TakenFromTree(s, b, k), Erased(t, b, k))
  {
    var (s', u) := (TakenFromTree(s, b, k), Erased(t, b, k));
    assert EntryOk(c, t, b);
    WithoutHas(t[b].nodes, k);
    forall d: nat | d < |t|
      ensures EntryIs(s', u, d)
    {
      ErasedAt(c, t, b, k, d);
      ErasedAt(c, t, b, k, Partner(d));
      assert EntryIs(s, t, d);
      if d != b && d != Partner(b) {
        EntryStays(s, s', t, u, d);
      }
    }
  }

  lemma TakenFromTreeUses<K(!new)>(s: Store<K>, b: nat, k: K)
    requires b < |s.heads| && |s.heads| % 2 == 0 && s.heads[b].TreeAt? && s.heads[b].id in s.trees
    requires s.heads[Partner(b)] == s.heads[b]
    ensures TreesUsed(s.trees, s.heads) ==> TreesUsed(TakenFromTree(s, b, k).trees, TakenFromTree(s, b, k).heads)
  {
    var s' := TakenFromTree(s, b, k);
    if TreesUsed(s.trees, s.heads) {
      forall id | id in s'.trees
        ensures TreeAt(id) in s'.heads
      {
        var d: nat :| d < |s.heads| && s.heads[d] == TreeAt(id);
        assert s'.heads[d] == TreeAt(id);
      }
    }
  }

  /** A node that is in no bucket may be destroyed. */
  lemma DestroyedIs<K(!new)>(s: Store<K>, t: Table<K, Addr>, a: Addr)
    requires Implements(s, t) && Unused(t, a)
    ensures Implements(s.(nodes := s.nodes - {a}), t)
  {
    forall d: nat | d < |t|
      ensures EntryIs(s.(nodes := s.nodes - {a}), t, d)
    {
      assert EntryIs(s, t, d);
      EntryStays(s, s.(nodes := s.nodes - {a}), t, t, d);
    }
  }

  lemma ErasedIsUnused<K(!new)>(c: Keys<K>, s: Store<K>, t: Table<K, Addr>, b: nat, x: Item<K, Addr>)
    requires Implements(s, t) && TableOk(c, t) && b < |t| && x in t[b].Nodes()
    ensures Unused(Erased(t, b, x.key), x.value)
  {
    var u := Erased(t, b, x.key);
    assert EntryOk(c, t, b);
    WithoutHas(t[b].nodes, x.key);
    forall d: nat, y {:trigger y in u[d].Nodes()} | d < |u| && y in u[d].Nodes()
      ensures y.value != x.value
    {
      ErasedAt(c, t, b, x.key, d);
      assert EntryOk(c, t, d);
      NodesAreApart(c, s, t, b, d, x, y);
    }
  }

  // ----- stepping

  /** `next` leads to the node that follows in the list, and from a tree nowhere. */
  lemma {:induction false} NextInChain<K(!new)>(nodes: map<Addr, Node<K>>, head: Option<Addr>, s: Nodes<K>, i: nat)
    requires Linked(nodes, head, s) && i < |s|
    ensures s[i].value in nodes && nodes[s[i].value].next == if i + 1 < |s| then Some(s[i + 1].value) else None
    decreases s
  {
    if i > 0 {
      NextInChain(nodes, nodes[s[0].value].next, s[1..], i - 1);
    }
  }

  lemma NextIsRight<K(!new)>(s: Store<K>, t: Table<K, Addr>, b: nat, i: nat)
    requires Implements(s, t) && b < |t| && i < |t[b].Nodes()|
    ensures var xs := t[b].nodes;
            && xs[i].value in s.nodes
            && s.nodes[xs[i].value].next
               == if t[b].List? && i + 1 < |xs| then Some(xs[i + 1].value) else None
  {
    assert EntryIs(s, t, b);
    if t[b].List? {
      NextInChain(s.nodes, HeadOf(s.heads[b]), t[b].nodes, i);
    }
  }

  // ----- what insertions leave alone

  /** Every tree is the tree of a bucket: none is lost. */
  ghost predicate TreesUsed<K>(trees: map<nat, Nodes<K>>, heads: seq<Ref>) {
    forall id :: id in trees ==> TreeAt(id) in heads
  }

  /**
    Nodes that are neither in the table nor among `xs`, and trees of other tables, stay as they are;
    new trees are used, and those in use stay so.
   */
  ghost predicate Spares<K>(s: Store<K>, s': Store<K>, t: Table<K, Addr>, xs: Nodes<K>) {
    && s'.nodes.Keys == s.nodes.Keys && s.nextTree <= s'.nextTree && |s'.heads| == |s.heads|
    && (forall a :: a in s.nodes ==>
          s'.nodes[a].key == s.nodes[a].key && (Unused(t, a) && !Among(a, xs) ==> s'.nodes[a] == s.nodes[a]))
    && (forall id :: id in s.trees && TreeAt(id) !in s.heads ==>
          id in s'.trees && s'.trees[id] == s.trees[id] && TreeAt(id) !in s'.heads)
    && (forall id :: id in s'.trees ==> id in s.trees || TreeAt(id) in s'.heads)
    && (forall r :: r in s.heads && r.TreeAt? ==> r in s'.heads)
  }

  lemma TreesStayInUse(heads: seq<Ref>, b: nat, r: Ref)
    requires b < |heads| && !heads[b].TreeAt?
    ensures forall q :: q in heads && q.TreeAt? ==> q in heads[b := r]
  {
    forall q | q in heads && q.TreeAt?
      ensures q in heads[b := r]
    {
      var i :| 0 <= i < |heads| && heads[i] == q;
      assert heads[b := r][i] == q;
    }
  }

  lemma PutInListSpares<K(!new)>(s: Store<K>, t: Table<K, Addr>, b: nat, x: Item<K, Addr>)
    requires Implements(s, t) && b < |t| && x.value in s.nodes && s.nodes[x.value].key == x.key
    requires !s.heads[b].TreeAt?
    ensures Spares(s, PutInList(s, b, x.value), t, [x])
  {
    TreesStayInUse(s.heads, b, NodeAt(x.value));
  }

  lemma PutInTreeSpares<K(!new)>(c: Keys<K>, s: Store<K>, t: Table<K, Addr>, b: nat, x: Item<K, Addr>)
    requires Implements(s, t) && b < |t| && x.value in s.nodes && s.nodes[x.value].key == x.key
    requires s.heads[b].TreeAt? && s.heads[b].id in s.trees
    ensures Spares(s, PutInTree(c, s, b, x.value), t, [x])
  {
    assert s.heads[b] in s.heads;
  }

  lemma ConvertedSpares<K(!new)>(c: Keys<K>, s: Store<K>, t: Table<K, Addr>, b: nat)
    requires Implements(s, t) && b < |t| && !s.heads[b].TreeAt? && !s.heads[Partner(b)].TreeAt?
    ensures Spares(s, Converted(c, s, b, t[b].Nodes(), t[Partner(b)].Nodes()), t, [])
  {
    var r := TreeAt(s.nextTree);
    var heads := s.heads[Partner(b) := r];
    TreesStayInUse(s.heads, Partner(b), r);
    TreesStayInUse(heads, b, r);
    assert heads[b := r] == s.heads[b := r][Partner(b) := r] && heads[b := r][b] == r;
    forall a | a in s.nodes
      ensures var s' := Converted(c, s, b, t[b].Nodes(), t[Partner(b)].Nodes());
              s'.nodes[a].key == s.nodes[a].key && (Unused(t, a) ==> s'.nodes[a] == s.nodes[a])
    {
      ConvertedNodes(c, s, t, b, a);
    }
  }

  lemma ConvertedHas<K(!new)>(c: Keys<K>, t: Table<K, Addr>, b: nat, a: Addr)
    requires b < |t| && |t| % 2 == 0 && Unused(t, a)
    ensures Unused(TreeConverted(c, t, b), a)
  {
    var (xs, ys) := (t[b].Nodes(), t[Partner(b)].Nodes());
    CopiedHas(c, [], xs);
    CopiedHas(c, CopiedToTree(c, [], xs), ys);
    forall d: nat, y {:trigger y in TreeConverted(c, t, b)[d].Nodes()} |
      d < |t| && y in TreeConverted(c, t, b)[d].Nodes()
      ensures y.value != a
    {
      WithTreeAt(t, b, CopiedToTree(c, CopiedToTree(c, [], xs), ys), d);
    }
  }

  /** First converting, then putting in. */
  lemma SparesBoth<K(!new)>(
      s: Store<K>, s1: Store<K>, s2: Store<K>, t: Table<K, Addr>, u: Table<K, Addr>, xs: Nodes<K>, ys: Nodes<K>)
    requires Spares(s, s1, t, xs) && Spares(s1, s2, u, ys)
    requires forall a :: Unused(t, a) && !Among(a, xs) ==> Unused(u, a)
    ensures Spares(s, s2, t, xs + ys)
  {
    forall a | a in s.nodes
      ensures s2.nodes[a].key == s.nodes[a].key
      ensures Unused(t, a) && !Among(a, xs + ys) ==> s2.nodes[a] == s.nodes[a]
    {
      if !Among(a, xs + ys) {
        assert forall x :: x in xs || x in ys ==> x in xs + ys;
        assert !Among(a, xs) && !Among(a, ys);
      }
    }
  }

  // ----- a table that takes over the nodes of another

  /** All nodes of `u` were in `t` or among `xs`. */
  ghost predicate Covers<K>(t: Table<K, Addr>, xs: Nodes<K>, u: Table<K, Addr>) {
    forall a :: Unused(t, a) && !Among(a, xs) ==> Unused(u, a)
  }

  lemma InsertedCovers<K(!new)>(c: Keys<K>, t: Table<K, Addr>, b: nat, x: Item<K, Addr>)
    requires b < |t| && |t| % 2 == 0
    ensures Covers(t, [x], InsertedUnique(c, t, b, x))
  {
    ConvertedCovers(c, t, b);
    forall a | Unused(t, a) && !Among(a, [x])
      ensures Unused(InsertedUnique(c, t, b, x), a)
    {
      assert x in [x] && x.value != a;
      TreeInsertHas(c, t[b].Nodes(), x);
      TreeInsertHas(c, TreeConverted(c, t, b)[b].Nodes(), x);
      forall d: nat, y {:trigger y in InsertedUnique(c, t, b, x)[d].Nodes()} |
        d < |t| && y in InsertedUnique(c, t, b, x)[d].Nodes()
        ensures y.value != a
      {
        WithTreeAt(t, b, TreeInsert(c, t[b].Nodes(), x), d);
        WithTreeAt(TreeConverted(c, t, b), b, TreeInsert(c, TreeConverted(c, t, b)[b].Nodes(), x), d);
      }
    }
  }

  /** The table `u` holds `done`, and the nodes `rest` are still to come. */
  ghost predicate Taking<K(!new)>(c: Keys<K>, s: Store<K>, u: Table<K, Addr>, done: map<K, Addr>, rest: Nodes<K>) {
    && StrictOrder(c.less) && Implements(s, u) && TableOk(c, u) && Represents(c, u, done)
    && Holds(s.nodes, rest) && Distinct(rest) && NewKeys(rest, done)
  }

  function With<K>(m: map<K, Addr>, x: Item<K, Addr>): map<K, Addr> {
    m[x.key := x.value]
  }

  /** From `t`, the nodes `xs` but for `rest` have been moved into `u`; the rest leads to `goal`. */
  ghost predicate Moving<K(!new)>(
      c: Keys<K>, start: Store<K>, t: Table<K, Addr>, xs: Nodes<K>, goal: Table<K, Addr>,
      s: Store<K>, u: Table<K, Addr>, done: map<K, Addr>, rest: Nodes<K>)
  {
    && Taking(c, s, u, done, rest) && Reinserted(c, u, rest) == goal
    && Spares(start, s, t, xs) && Covers(t, xs, u) && forall x :: x in rest ==> x in xs
  }

  lemma RestIsUnused<K(!new)>(c: Keys<K>, s: Store<K>, u: Table<K, Addr>, done: map<K, Addr>, rest: Nodes<K>)
    requires Taking(c, s, u, done, rest)
    ensures forall y :: y in rest ==> Unused(u, y.value)
  {
    forall y, b: nat, x {:trigger y in rest, x in u[b].Nodes()} | y in rest && b < |u| && x in u[b].Nodes()
      ensures x.value != y.value
    {
      EntryHolds(s, u, b);
    }
  }

  lemma RestIsSpared<K(!new)>(
      c: Keys<K>, s: Store<K>, s': Store<K>, u: Table<K, Addr>, done: map<K, Addr>, rest: Nodes<K>)
    requires Taking(c, s, u, done, rest) && rest != [] && Spares(s, s', u, [rest[0]])
    ensures SameNodes(s.nodes, s'.nodes, rest[1..]) && Holds(s'.nodes, rest[1..])
  {
    RestIsUnused(c, s, u, done, rest);
    FirstAndRest(rest);
    forall y | y in rest[1..]
      ensures y.value in s'.nodes && s'.nodes[y.value] == s.nodes[y.value]
    {
      assert rest[0].value in s.nodes && s.nodes[rest[0].value].key == rest[0].key;
      assert !Among(y.value, [rest[0]]);
    }
  }

  lemma CoversBoth<K(!new)>(
      s: Store<K>, s1: Store<K>, s2: Store<K>, t: Table<K, Addr>, u: Table<K, Addr>, v: Table<K, Addr>,
      xs: Nodes<K>, x: Item<K, Addr>)
    requires Spares(s, s1, t, xs) && Covers(t, xs, u) && x in xs
    requires Spares(s1, s2, u, [x]) && Covers(u, [x], v)
    ensures Spares(s, s2, t, xs) && Covers(t, xs, v)
  {
    forall a | Unused(t, a) && !Among(a, xs)
      ensures Unused(v, a) && (a in s.nodes ==> s2.nodes[a] == s.nodes[a])
    {
      assert Unused(u, a) && !Among(a, [x]);
    }
  }

  // ----- rebuilding

  /** What does not change in an old table, however many of its nodes have been moved or destroyed. */
  ghost predicate Told<K>(t: Table<K, Addr>, heads: seq<Ref>) {
    && |heads| == |t| && |t| > 0 && |t| % 2 == 0
    && (forall b: nat :: b < |t| ==> (heads[b] == NoRef <==> t[b].Null?))
    && (forall b: nat :: b < |t| ==> (heads[b] != NoRef && heads[b] != heads[Partner(b)] <==> t[b].List?))
    && (forall b: nat, d: nat :: b < |t| && d < |t| && heads[b].TreeAt? && heads[d] == heads[b] ==> d / 2 == b / 2)
  }

  lemma StoreTells<K(!new)>(c: Keys<K>, s: Store<K>, t: Table<K, Addr>)
    requires Implements(s, t) && TableOk(c, t)
    ensures Told(t, s.heads)
  {
    forall b: nat | b < |t|
      ensures s.heads[b] == NoRef <==> t[b].Null?
      ensures s.heads[b] != NoRef && s.heads[b] != s.heads[Partner(b)] <==> t[b].List?
    {
      PointerTestsAreRight(c, s, t, b);
    }
  }

  /** From bucket `i` on, the old table is still as it was. */
  ghost predicate Left<K>(s: Store<K>, t: Table<K, Addr>, heads: seq<Ref>, i: nat)
    requires |heads| == |t| && |t| % 2 == 0
  {
    forall d: nat :: i <= d < |t| ==>
      EntryIs(s.(heads := heads), t, d) && (heads[d].TreeAt? ==> heads[d] !in s.heads)
  }

  /** The nodes of later buckets have other addresses than those of bucket `i`. */
  lemma LaterIsApart<K(!new)>(
      c: Keys<K>, s: Store<K>, t: Table<K, Addr>, heads: seq<Ref>, i: nat, d: nat, y: Item<K, Addr>)
    requires Told(t, heads) && TableOk(c, t) && i < |t| && Boundary(t, i) && Left(s, t, heads, i)
    requires NextBucket(t, i) <= d < |t| && y in t[d].Nodes()
    ensures y in OrderFrom(t, NextBucket(t, i)) && !Among(y.value, t[i].Nodes())
  {
    NextIsBoundary(c, t, i);
    OrderIsComplete(c, t, NextBucket(t, i), d, y);
    EntryHolds(s.(heads := heads), t, i);
    EntryHolds(s.(heads := heads), t, d);
    forall x | x in t[i].Nodes()
      ensures x.value != y.value
    {
      LaterKeysDiffer(c, t, i, d, x, y);
    }
  }

  lemma LaterKeysDiffer<K(!new)>(
      c: Keys<K>, t: Table<K, Addr>, i: nat, d: nat, x: Item<K, Addr>, y: Item<K, Addr>)
    requires TableOk(c, t) && i < |t| && Boundary(t, i) && NextBucket(t, i) <= d < |t|
    requires x in t[i].Nodes() && y in t[d].Nodes()
    ensures x.key != y.key
  {
    assert EntryOk(c, t, i) && EntryOk(c, t, d);
  }

  lemma LaterIsUnused<K(!new)>(
      c: Keys<K>, s: Store<K>, u: Table<K, Addr>, done: map<K, Addr>, t: Table<K, Addr>, i: nat, y: Item<K, Addr>)
    requires i < |t| && Taking(c, s, u, done, OrderFrom(t, i)) && y in OrderFrom(t, NextBucket(t, i))
    ensures Unused(u, y.value)
  {
    RestIsUnused(c, s, u, done, OrderFrom(t, i));
    assert y in t[i].Nodes() + OrderFrom(t, NextBucket(t, i));
  }

  lemma LeftStays<K(!new)>(
      c: Keys<K>, s: Store<K>, s': Store<K>, u: Table<K, Addr>, done: map<K, Addr>,
      t: Table<K, Addr>, heads: seq<Ref>, i: nat)
    requires Told(t, heads) && TableOk(c, t) && i < |t| && Boundary(t, i) && Left(s, t, heads, i)
    requires Taking(c, s, u, done, OrderFrom(t, i)) && Spares(s, s', u, t[i].Nodes())
    ensures Left(s', t, heads, NextBucket(t, i))
  {
    forall d: nat | NextBucket(t, i) <= d < |t|
      ensures EntryIs(s'.(heads := heads), t, d) && (heads[d].TreeAt? ==> heads[d] !in s'.heads)
    {
      forall y | y in t[d].Nodes() && y.value in s.nodes
        ensures s'.nodes[y.value] == s.nodes[y.value]
      {
        LaterIsApart(c, s, t, heads, i, d, y);
        LaterIsUnused(c, s, u, done, t, i, y);
      }
      EntryStays(s.(heads := heads), s'.(heads := heads), t, t, d);
    }
  }

  /** What is to come of the old table can be taken, once bucket `i` has been. */
  lemma NextIsTaken<K(!new)>(
      c: Keys<K>, s: Store<K>, s': Store<K>, u: Table<K, Addr>, done: map<K, Addr>,
      t: Table<K, Addr>, i: nat, m: map<K, Addr>)
    requires i < |t| && Taking(c, s, u, done, OrderFrom(t, i)) && Remaining(done, OrderFrom(t, i), m)
    requires Spares(s, s', u, t[i].Nodes()) && Implements(s', Reinserted(c, u, t[i].Nodes()))
    ensures var more := done + AsMap(t[i].Nodes());
            && Taking(c, s', Reinserted(c, u, t[i].Nodes()), more, OrderFrom(t, NextBucket(t, i)))
            && Remaining(more, OrderFrom(t, NextBucket(t, i)), m)
  {
    var (xs, rest) := (t[i].Nodes(), OrderFrom(t, NextBucket(t, i)));
    OneBucketTurn(done, xs, rest, m);
    ReinsertKeeps(c, u, done, xs);
    assert forall y :: y in rest ==> y in xs + rest;
  }

  lemma BucketIsTaken<K(!new)>(
      c: Keys<K>, s: Store<K>, u: Table<K, Addr>, done: map<K, Addr>, t: Table<K, Addr>, i: nat, m: map<K, Addr>)
    requires i < |t| && Taking(c, s, u, done, OrderFrom(t, i)) && Remaining(done, OrderFrom(t, i), m)
    ensures Taking(c, s, u, done, t[i].Nodes())
  {
    OneBucketTurn(done, t[i].Nodes(), OrderFrom(t, NextBucket(t, i)), m);
    assert forall y :: y in t[i].Nodes() ==> y in t[i].Nodes() + OrderFrom(t, NextBucket(t, i));
  }

  /** A tree that no bucket uses may be destroyed. */
  lemma TreeGoes<K(!new)>(s: Store<K>, u: Table<K, Addr>, id: nat)
    requires Implements(s, u) && TreeAt(id) !in s.heads
    ensures Implements(s.(trees := s.trees - {id}), u)
  {
    forall b: nat | b < |u|
      ensures EntryIs(s.(trees := s.trees - {id}), u, b)
    {
      assert EntryIs(s, u, b) && s.heads[b] in s.heads;
    }
  }

  lemma TreeGoesFromLeft<K(!new)>(s: Store<K>, t: Table<K, Addr>, heads: seq<Ref>, i: nat)
    requires Told(t, heads) && i < |t| && heads[i].TreeAt? && Boundary(t, i) && t[i].Tree?
    requires Left(s, t, heads, i + 2) && i % 2 == 0
    ensures Left(s.(trees := s.trees - {heads[i].id}), t, heads, i + 2)
  {
    var s' := s.(trees := s.trees - {heads[i].id});
    forall d: nat | i + 2 <= d < |t|
      ensures EntryIs(s'.(heads := heads), t, d) && (heads[d].TreeAt? ==> heads[d] !in s'.heads)
    {
      assert EntryIs(s.(heads := heads), t, d);
      EntryStays(s.(heads := heads), s'.(heads := heads), t, t, d);
    }
  }

  lemma EmptyStore<K(!new)>(s: Store<K>, t: Table<K, Addr>, n: nat)
    requires Implements(s, t) && n % 2 == 0
    ensures Implements(s.(heads := seq(n, _ => NoRef)), EmptyTable(n))
  {
  }

  lemma OrderHolds<K(!new)>(c: Keys<K>, s: Store<K>, t: Table<K, Addr>)
    requires Implements(s, t) && TableOk(c, t)
    ensures Holds(s.nodes, OrderFrom(t, 0))
  {
    OrderIsSound(c, t, 0);
    forall x | x in OrderFrom(t, 0)
      ensures x.value in s.nodes && s.nodes[x.value].key == x.key
    {
      EntryHolds(s, t, BucketOf(c, x.key, |t|));
    }
  }

  lemma NothingTakenYet<K(!new)>(c: Keys<K>, s: Store<K>, t: Table<K, Addr>, m: map<K, Addr>, n: nat)
    requires StrictOrder(c.less) && Implements(s, t) && TableOk(c, t) && Represents(c, t, m) && n > 0 && n % 2 == 0
    ensures var s' := s.(heads := seq(n, _ => NoRef));
            && Taking(c, s', EmptyTable(n), map[], OrderFrom(t, 0)) && Remaining(map[], OrderFrom(t, 0), m)
            && Left(s', t, s.heads, 0)
  {
    OrderIsMap(c, t, m);
    OrderHolds(c, s, t);
    EmptyStore(s, t, n);
    EmptyIsOk<K, Addr>(c, n);
    assert map[] + m == m;
    AllIsLeft(s, s.(heads := seq(n, _ => NoRef)), t);
  }

  lemma AllIsLeft<K(!new)>(s: Store<K>, s': Store<K>, t: Table<K, Addr>)
    requires Implements(s, t) && s'.nodes == s.nodes && s'.trees == s.trees
    requires forall r :: r in s'.heads ==> r == NoRef
    ensures Left(s', t, s.heads, 0)
  {
    forall d: nat | d < |t|
      ensures EntryIs(s'.(heads := s.heads), t, d)
    {
      assert EntryIs(s, t, d);
      EntryStays(s, s'.(heads := s.heads), t, t, d);
    }
  }

  /** Every tree is used by the new table or by what is left of the old one. */
  ghost predicate TreesKept<K>(trees: map<nat, Nodes<K>>, heads: seq<Ref>, oldHeads: seq<Ref>, i: nat) {
    forall id :: id in trees ==> TreeAt(id) in heads || exists d :: i <= d < |oldHeads| && oldHeads[d] == TreeAt(id)
  }

  lemma TreesKeptAfter<K(!new)>(
      s: Store<K>, s': Store<K>, u: Table<K, Addr>, t: Table<K, Addr>, oldHeads: seq<Ref>, i: nat)
    requires i < |t| == |oldHeads| && |t| % 2 == 0 && Boundary(t, i) && EntryIs(s.(heads := oldHeads), t, i)
    requires TreesKept(s.trees, s.heads, oldHeads, i) && Spares(s, s', u, t[i].Nodes())
    ensures !t[i].Tree? ==> TreesKept(s'.trees, s'.heads, oldHeads, i + 1)
    ensures t[i].Tree? ==> TreesKept(s'.trees - {oldHeads[i].id}, s'.heads, oldHeads, i + 2)
  {
    var next := NextBucket(t, i);
    forall id | id in s'.trees && !(t[i].Tree? && id == oldHeads[i].id)
      ensures TreeAt(id) in s'.heads || exists d :: next <= d < |oldHeads| && oldHeads[d] == TreeAt(id)
    {
      if TreeAt(id) !in s'.heads {
        var d :| i <= d < |oldHeads| && oldHeads[d] == TreeAt(id);
        assert d != i && (t[i].Tree? ==> d != i + 1);
      }
    }
  }

  lemma AllTreesKept<K(!new)>(
      trees: map<nat, Nodes<K>>, heads: seq<Ref>, t: Table<K, Addr>, oldHeads: seq<Ref>, f: nat)
    requires TreesUsed(trees, oldHeads) && Told(t, oldHeads) && FirstNonNull(t, f)
    ensures TreesKept(trees, heads, oldHeads, f)
  {
    forall id | id in trees
      ensures exists d :: f <= d < |oldHeads| && oldHeads[d] == TreeAt(id)
    {
      var d: nat :| d < |oldHeads| && oldHeads[d] == TreeAt(id);
    }
  }

  lemma BucketIsMoved<K(!new)>(
      c: Keys<K>, s: Store<K>, s': Store<K>, u: Table<K, Addr>, done: map<K, Addr>,
      t: Table<K, Addr>, oldHeads: seq<Ref>, i: nat, m: map<K, Addr>)
    requires Told(t, oldHeads) && TableOk(c, t) && i < |t| && Boundary(t, i) && Left(s, t, oldHeads, i)
    requires Taking(c, s, u, done, OrderFrom(t, i)) && Remaining(done, OrderFrom(t, i), m)
    requires TreesKept(s.trees, s.heads, oldHeads, i)
    requires Spares(s, s', u, t[i].Nodes()) && Implements(s', Reinserted(c, u, t[i].Nodes()))
    ensures var (next, more) := (NextBucket(t, i), done + AsMap(t[i].Nodes()));
            && Taking(c, s', Reinserted(c, u, t[i].Nodes()), more, OrderFrom(t, next))
            && Remaining(more, OrderFrom(t, next), m) && Left(s', t, oldHeads, next)
            && (t[i].Tree? ==> i % 2 == 0 && oldHeads[i].TreeAt? && oldHeads[i] !in s'.heads)
            && (!t[i].Tree? ==> TreesKept(s'.trees, s'.heads, oldHeads, next))
            && (t[i].Tree? ==> TreesKept(s'.trees - {oldHeads[i].id}, s'.heads, oldHeads, next))
  {
    assert EntryIs(s.(heads := oldHeads), t, i);
    LeftStays(c, s, s', u, done, t, oldHeads, i);
    NextIsTaken(c, s, s', u, done, t, i, m);
    TreesKeptAfter(s, s', u, t, oldHeads, i);
  }

  // ----- clearing

  /** The nodes `xs` are gone, the others as they were. */
  ghost predicate Removed<K>(before: map<Addr, Node<K>>, after: map<Addr, Node<K>>, xs: Nodes<K>) {
    && (forall a :: a in after <==> a in before && !Among(a, xs))
    && forall a :: a in after ==> after[a] == before[a]
  }

  lemma RemovedOne<K(!new)>(
      before: map<Addr, Node<K>>, nodes: map<Addr, Node<K>>, xs: Nodes<K>, rest: Nodes<K>)
    requires rest != [] && Distinct(rest) && Holds(nodes, rest)
    requires (forall a :: a in nodes <==> a in before && (Among(a, xs) ==> Among(a, rest)))
    requires (forall x :: x in rest ==> x in xs) && forall a :: a in nodes ==> nodes[a] == before[a]
    ensures Holds(nodes - {rest[0].value}, rest[1..]) && SameNodes(nodes, nodes - {rest[0].value}, rest[1..])
    ensures forall a :: a in nodes - {rest[0].value} <==> a in before && (Among(a, xs) ==> Among(a, rest[1..]))
    ensures forall x :: x in rest[1..] ==> x in xs
  {
    FirstAndRest(rest);
    assert rest[0] in xs && Among(rest[0].value, xs);
  }

  /** From bucket `i` on the nodes and trees are there, the earlier nodes are gone. */
  ghost predicate Cleared<K>(start: Store<K>, s: Store<K>, t: Table<K, Addr>, i: nat) {
    && (forall a :: a in s.nodes <==> a in start.nodes && (Unused(t, a) || Among(a, OrderFrom(t, i))))
    && (forall a :: a in s.nodes ==> s.nodes[a] == start.nodes[a])
    && s.nextTree == start.nextTree && s.trees.Keys <= start.trees.Keys
    && |s.heads| == |start.heads| && (forall d :: 0 <= d < i && d < |s.heads| ==> s.heads[d] == NoRef)
    && forall d: nat :: i <= d < |s.heads| ==> s.heads[d] == start.heads[d] && SameTree(start, s, s.heads[d])
  }

  lemma AmongTable<K(!new)>(c: Keys<K>, t: Table<K, Addr>, a: Addr)
    requires TableOk(c, t)
    ensures Among(a, OrderFrom(t, 0)) <==> !Unused(t, a)
  {
    OrderIsSound(c, t, 0);
    if !Unused(t, a) {
      var b: nat, x {:trigger x in t[b].Nodes()} :| b < |t| && x in t[b].Nodes() && x.value == a;
      OrderIsComplete(c, t, 0, b, x);
    }
  }

  lemma NothingClearedYet<K(!new)>(c: Keys<K>, s: Store<K>, t: Table<K, Addr>)
    requires Implements(s, t) && TableOk(c, t)
    ensures Cleared(s, s, t, 0)
  {
    forall a
      ensures Among(a, OrderFrom(t, 0)) <==> !Unused(t, a)
    {
      AmongTable(c, t, a);
    }
  }

  lemma BucketIsThere<K(!new)>(start: Store<K>, s: Store<K>, t: Table<K, Addr>, i: nat)
    requires Implements(start, t) && i < |t| && Cleared(start, s, t, i)
    ensures EntryIs(s.(heads := start.heads), t, i)
  {
    assert EntryIs(start, t, i);
    EntryHolds(start, t, i);
    forall x | x in t[i].Nodes()
      ensures x.value in s.nodes
    {
      assert x in t[i].Nodes() + OrderFrom(t, NextBucket(t, i));
    }
    EntryStays(start, s.(heads := start.heads), t, t, i);
  }

  lemma AmongBoth<K(!new)>(a: Addr, xs: Nodes<K>, ys: Nodes<K>)
    ensures Among(a, xs + ys) <==> Among(a, xs) || Among(a, ys)
  {
    assert forall x :: x in xs + ys <==> x in xs || x in ys;
  }

  /** A node of a later bucket is not one of bucket `i`. */
  lemma AmongLater<K(!new)>(c: Keys<K>, s: Store<K>, t: Table<K, Addr>, i: nat, a: Addr)
    requires Implements(s, t) && TableOk(c, t) && i < |t| && Boundary(t, i)
    requires Among(a, OrderFrom(t, NextBucket(t, i)))
    ensures !Among(a, t[i].Nodes())
  {
    var j := NextBucket(t, i);
    NextIsBoundary(c, t, i);
    OrderIsSound(c, t, j);
    var y :| y in OrderFrom(t, j) && y.value == a;
    var d := BucketOf(c, y.key, |t|);
    EntryHolds(s, t, i);
    EntryHolds(s, t, d);
    forall x | x in t[i].Nodes()
      ensures x.value != a
    {
      LaterKeysDiffer(c, t, i, d, x, y);
    }
  }

  lemma OneMoreCleared<K(!new)>(c: Keys<K>, start: Store<K>, s: Store<K>, s': Store<K>, t: Table<K, Addr>, i: nat)
    requires Implements(start, t) && TableOk(c, t) && i < |t| && Boundary(t, i) && Cleared(start, s, t, i)
    requires Removed(s.nodes, s'.nodes, t[i].Nodes())
    ensures forall a :: a in s'.nodes <==>
              a in start.nodes && (Unused(t, a) || Among(a, OrderFrom(t, NextBucket(t, i))))
    ensures forall a :: a in s'.nodes ==> s'.nodes[a] == start.nodes[a]
  {
    var rest := OrderFrom(t, NextBucket(t, i));
    forall a
      ensures a in s'.nodes <==> a in start.nodes && (Unused(t, a) || Among(a, rest))
    {
      AmongBoth(a, t[i].Nodes(), rest);
      if Among(a, rest) {
        AmongLater(c, start, t, i, a);
      }
    }
  }

  lemma ListIsCleared<K(!new)>(c: Keys<K>, start: Store<K>, s: Store<K>, s': Store<K>, t: Table<K, Addr>, i: nat)
    requires Implements(start, t) && TableOk(c, t) && i < |t| && Boundary(t, i) && Cleared(start, s, t, i)
    requires !t[i].Tree? && Removed(s.nodes, s'.nodes, t[i].Nodes())
    requires s'.trees == s.trees && s'.nextTree == s.nextTree && s'.heads == s.heads[i := NoRef]
    ensures Cleared(start, s', t, i + 1)
  {
    OneMoreCleared(c, start, s, s', t, i);
  }

  lemma NullIsCleared<K(!new)>(c: Keys<K>, start: Store<K>, s: Store<K>, t: Table<K, Addr>, i: nat)
    requires Implements(start, t) && TableOk(c, t) && i < |t| && Boundary(t, i) && Cleared(start, s, t, i)
    requires t[i].Null? && s.heads[i] == NoRef
    ensures Cleared(start, s, t, i + 1)
  {
    ListIsCleared(c, start, s, s, t, i);
  }

  lemma TreeIsCleared<K(!new)>(c: Keys<K>, start: Store<K>, s: Store<K>, s': Store<K>, t: Table<K, Addr>, i: nat)
    requires Implements(start, t) && TableOk(c, t) && Boundary(t, i) && Cleared(start, s, t, i) && i % 2 == 0
    requires i + 1 < |t| && t[i].Tree? && start.heads[i].TreeAt? && Removed(s.nodes, s'.nodes, t[i].Nodes())
    requires s'.trees == s.trees - {start.heads[i].id} && s'.nextTree == s.nextTree
    requires s'.heads == s.heads[i := NoRef][i + 1 := NoRef]
    ensures Cleared(start, s', t, i + 2)
  {
    OneMoreCleared(c, start, s, s', t, i);
    forall d: nat | i + 2 <= d < |s'.heads|
      ensures s'.heads[d] == start.heads[d] && SameTree(start, s', s'.heads[d])
    {
      LaterTreeStays(start, s, s', t, i, d);
    }
  }

  lemma ClearedUses<K(!new)>(start: Store<K>, s: Store<K>, s': Store<K>, t: Table<K, Addr>, b: nat)
    requires Cleared(start, s, t, b) && b + 1 < |s.heads| && start.heads[b].TreeAt? && s.heads[b] == s.heads[b + 1]
    requires s'.trees == s.trees - {start.heads[b].id} && s'.heads == s.heads[b := NoRef][b + 1 := NoRef]
    ensures TreesUsed(s.trees, s.heads) ==> TreesUsed(s'.trees, s'.heads)
  {
    if TreesUsed(s.trees, s.heads) {
      forall id | id in s'.trees
        ensures TreeAt(id) in s'.heads
      {
        var d: nat :| d < |s.heads| && s.heads[d] == TreeAt(id);
        assert s'.heads[d] == TreeAt(id);
      }
    }
  }

  lemma LaterTreeStays<K(!new)>(start: Store<K>, s: Store<K>, s': Store<K>, t: Table<K, Addr>, i: nat, d: nat)
    requires Implements(start, t) && Cleared(start, s, t, i) && i % 2 == 0 && i + 2 <= d < |t|
    requires start.heads[i].TreeAt? && s'.trees == s.trees - {start.heads[i].id}
    ensures s.heads[d] == start.heads[d] && SameTree(start, s', s.heads[d])
  {
    assert SameTree(start, s, s.heads[d]);
  }

  /** Half of a pair may be gone already; the tests on pointers are right all the same. */
  lemma ClearingTests<K(!new)>(c: Keys<K>, start: Store<K>, heads: seq<Ref>, t: Table<K, Addr>, b: nat)
    requires TableOk(c, t) && Told(t, start.heads) && b < |t| && EntryIs(start, t, b) && Boundary(t, b)
    requires |heads| == |t| && heads[b] == start.heads[b]
    requires heads[Partner(b)] == if Partner(b) < b then NoRef else start.heads[Partner(b)]
    ensures heads[b] == NoRef <==> t[b].Null?
    ensures heads[b] != NoRef && heads[b] != heads[Partner(b)] <==> t[b].List?
    ensures t[b].Tree? ==> b % 2 == 0 && b + 1 < |t| && heads[b].TreeAt?
    ensures t[b].List? ==> heads[b].NodeAt?
  {
  }

  // ----- the class

  class NodeTable<K(==, !new)> {
    const keys: Keys<K>
    var nodes: map<Addr, Node<K>>
    var trees: map<nat, Nodes<K>>
    var nextTree: nat
    var heads: array<Ref>

    ghost function At(): Store<K>
      reads this, heads
    {
      Store(nodes, trees, nextTree, heads[..])
    }

    method InsertUniqueInList(b: nat, a: Addr)
      requires b < heads.Length && a in nodes
      modifies `nodes, heads
      ensures At() == PutInList(old(At()), b, a)
    {
      nodes := nodes[a := Node(nodes[a].key, HeadOf(heads[b]))];
      heads[b] := NodeAt(a);
    }

    method InsertUniqueInTree(b: nat, a: Addr)
      requires b < heads.Length && a in nodes && heads[b].TreeAt? && heads[b].id in trees
      modifies `nodes, `trees
      ensures At() == PutInTree(keys, old(At()), b, a)
    {
      var k := nodes[a].key;
      nodes := nodes[a := Node(k, None)];
      trees := trees[heads[b].id := TreeInsert(keys, trees[heads[b].id], Item(k, a))];
    }

    /** Walks the list, and takes each node out of the chain once its `next` is saved. */
    method CopyListToTree(b: nat, tree: Nodes<K>, ghost xs: Nodes<K>) returns (copied: Nodes<K>)
      requires b < heads.Length && Linked(nodes, HeadOf(heads[b]), xs) && Distinct(xs)
      modifies `nodes
      ensures nodes == Unchained(old(nodes), xs) && copied == CopiedToTree(keys, tree, xs)
    {
      copied := tree;
      var node := HeadOf(heads[b]);
      ghost var rest := xs;
      while node.Some?
        invariant Linked(nodes, node, rest) && Distinct(rest)
        invariant Unchained(nodes, rest) == Unchained(old(nodes), xs)
        invariant CopiedToTree(keys, copied, rest) == CopiedToTree(keys, tree, xs)
        decreases rest
      {
        var n := nodes[node.value];
        copied := TreeInsert(keys, copied, Item(n.key, node.value));
        RestIsLinked(nodes, node, rest, n.(next := None));
        nodes := nodes[node.value := n.(next := None)];
        node := n.next;
        rest := rest[1..];
      }
    }

    method TreeConvert(b: nat, ghost t: Table<K, Addr>)
      requires Implements(At(), t) && TableOk(keys, t) && b < heads.Length && t[b].List?
      modifies `nodes, `trees, `nextTree, heads
      ensures At() == Converted(keys, old(At()), b, t[b].Nodes(), t[Partner(b)].Nodes())
    {
      ghost var (xs, ys) := (t[b].Nodes(), t[Partner(b)].Nodes());
      ListsToConvert(keys, At(), t, b);
      var half := CopyListToTree(b, [], xs);
      var tree := CopyListToTree(Partner(b), half, ys);
      trees := trees[nextTree := tree];
      heads[b], heads[Partner(b)] := TreeAt(nextTree), TreeAt(nextTree);
      nextTree := nextTree + 1;
    }

    method ListIsTooLong(b: nat, ghost xs: Nodes<K>) returns (tooLong: bool)
      requires b < heads.Length && Linked(nodes, HeadOf(heads[b]), xs)
      ensures tooLong == (|xs| >= MAX_LENGTH)
    {
      var node, count := HeadOf(heads[b]), 0;
      ghost var rest := xs;
      while node.Some?
        invariant Linked(nodes, node, rest) && count + |rest| == |xs|
        decreases rest
      {
        count := count + 1;
        node := nodes[node.value].next;
        rest := rest[1..];
      }
      tooLong := count >= MAX_LENGTH;
    }

    method InsertAfterConverting(b: nat, a: Addr, ghost t: Table<K, Addr>, ghost x: Item<K, Addr>)
      requires Implements(At(), t) && TableOk(keys, t) && b < heads.Length && t[b].List?
      requires Unused(t, a) && a in nodes && x == Item(nodes[a].key, a)
      modifies `nodes, `trees, `nextTree, heads
      ensures Implements(At(), AddedToTree(keys, TreeConverted(keys, t, b), b, x))
      ensures Spares(old(At()), At(), t, [x])
    {
      ghost var s := At();
      ghost var u := TreeConverted(keys, t, b);
      ConvertedIs(keys, s, t, b);
      assert EntryIs(s, t, b) && EntryIs(s, t, Partner(b));
      ConvertedSpares(keys, s, t, b);
      ConvertedHas(keys, t, b, a);
      TreeConvert(b, t);
      ghost var s1 := At();
      assert EntryIs(s1, u, b) && u[b].Tree?;
      PutInTreeIs(keys, s1, u, b, x);
      PutInTreeSpares(keys, s1, u, b, x);
      InsertUniqueInTree(b, a);
      ConvertedCovers(keys, t, b);
      SparesBoth(s, s1, At(), t, u, [], [x]);
    }

    method InsertUnique(b: nat, a: Addr, ghost t: Table<K, Addr>, ghost x: Item<K, Addr>)
      requires Implements(At(), t) && TableOk(keys, t) && b < heads.Length
      requires Unused(t, a) && a in nodes && x == Item(nodes[a].key, a)
      modifies `nodes, `trees, `nextTree, heads
      ensures Implements(At(), InsertedUnique(keys, t, b, x))
      ensures Spares(old(At()), At(), t, [x])
      ensures old(TreesUsed(trees, heads[..])) ==> TreesUsed(trees, heads[..])
    {
      PointerTestsAreRight(keys, At(), t, b);
      assert EntryIs(At(), t, b);
      if heads[b] == NoRef {
        PutInListIs(At(), t, b, x);
        PutInListSpares(At(), t, b, x);
        InsertUniqueInList(b, a);
      } else if heads[b] != heads[Partner(b)] {
        var tooLong := ListIsTooLong(b, t[b].nodes);
        if tooLong {
          InsertAfterConverting(b, a, t, x);
        } else {
          PutInListIs(At(), t, b, x);
          PutInListSpares(At(), t, b, x);
          InsertUniqueInList(b, a);
        }
      } else {
        PutInTreeIs(keys, At(), t, b, x);
        PutInTreeSpares(keys, At(), t, b, x);
        InsertUniqueInTree(b, a);
      }
    }

    /** Moves one node into this table, of which `rest` are still to come. */
    method TransferNode(a: Addr, ghost u: Table<K, Addr>, ghost done: map<K, Addr>, ghost rest: Nodes<K>)
        returns (ghost v: Table<K, Addr>)
      requires Taking(keys, At(), u, done, rest) && rest != [] && a == rest[0].value
      modifies `nodes, `trees, `nextTree, heads
      ensures v == InsertedUnique(keys, u, BucketOf(keys, rest[0].key, |u|), rest[0])
      ensures Taking(keys, At(), v, With(done, rest[0]), rest[1..])
      ensures Spares(old(At()), At(), u, [rest[0]]) && Covers(u, [rest[0]], v)
      ensures SameNodes(old(nodes), nodes, rest[1..])
    {
      ghost var s := At();
      RestIsUnused(keys, s, u, done, rest);
      FirstAndRest(rest);
      var b := BucketOf(keys, nodes[a].key, heads.Length);
      v := InsertedUnique(keys, u, b, rest[0]);
      InsertKeeps(keys, u, done, b, rest[0]);
      InsertedCovers(keys, u, b, rest[0]);
      InsertUnique(b, a, u, rest[0]);
      RestIsSpared(keys, s, At(), u, done, rest);
    }

    method TransferTurn(
        a: Addr, ghost start: Store<K>, ghost t: Table<K, Addr>, ghost xs: Nodes<K>, ghost goal: Table<K, Addr>,
        ghost u: Table<K, Addr>, ghost done: map<K, Addr>, ghost rest: Nodes<K>)
        returns (ghost v: Table<K, Addr>)
      requires Moving(keys, start, t, xs, goal, At(), u, done, rest) && rest != [] && a == rest[0].value
      modifies `nodes, `trees, `nextTree, heads
      ensures Moving(keys, start, t, xs, goal, At(), v, With(done, rest[0]), rest[1..])
      ensures SameNodes(old(nodes), nodes, rest[1..])
    {
      ghost var s := At();
      FirstAndRest(rest);
      v := TransferNode(a, u, done, rest);
      CoversBoth(start, s, At(), t, u, v, xs, rest[0]);
    }

    /** Saves `next` before the node gets another. */
    method TransferList(head: Addr, ghost t: Table<K, Addr>, ghost m: map<K, Addr>, ghost xs: Nodes<K>)
      requires Taking(keys, At(), t, m, xs) && Linked(nodes, Some(head), xs)
      modifies `nodes, `trees, `nextTree, heads
      ensures Implements(At(), Reinserted(keys, t, xs)) && Spares(old(At()), At(), t, xs)
    {
      var node := Some(head);
      ghost var start, goal := At(), Reinserted(keys, t, xs);
      ghost var u, done, rest := t, m, xs;
      while node.Some?
        invariant Moving(keys, start, t, xs, goal, At(), u, done, rest) && Linked(nodes, node, rest)
        decreases rest
      {
        ghost var n := nodes;
        var next := nodes[node.value].next;
        u := TransferTurn(node.value, start, t, xs, goal, u, done, rest);
        ChainStays(n, nodes, next, rest[1..]);
        node, done, rest := next, With(done, rest[0]), rest[1..];
      }
    }

    method TransferTree(id: nat, ghost t: Table<K, Addr>, ghost m: map<K, Addr>, ghost xs: Nodes<K>)
      requires Taking(keys, At(), t, m, xs) && id in trees && trees[id] == xs && TreeAt(id) !in heads[..]
      modifies `nodes, `trees, `nextTree, heads
      ensures Implements(At(), Reinserted(keys, t, xs)) && Spares(old(At()), At(), t, xs)
    {
      var tree := trees[id];
      ghost var start, goal := At(), Reinserted(keys, t, xs);
      ghost var u, done := t, m;
      while tree != []
        invariant Moving(keys, start, t, xs, goal, At(), u, done, tree)
        decreases tree
      {
        u := TransferTurn(tree[0].value, start, t, xs, goal, u, done, tree);
        done, tree := With(done, tree[0]), tree[1..];
      }
    }

    /** Tells lists from trees by pointers, and moves the nodes of either. */
    method MoveBucket(
        oldHeads: array<Ref>, i: nat, ghost t: Table<K, Addr>, ghost u: Table<K, Addr>, ghost done: map<K, Addr>)
        returns (next: nat)
      requires oldHeads != heads && Told(t, oldHeads[..]) && i < |t| && Left(At(), t, oldHeads[..], i)
      requires Taking(keys, At(), u, done, t[i].Nodes())
      modifies `nodes, `trees, `nextTree, heads
      ensures next == NextBucket(t, i)
      ensures Implements(At(), Reinserted(keys, u, t[i].Nodes())) && Spares(old(At()), At(), u, t[i].Nodes())
    {
      assert EntryIs(At().(heads := oldHeads[..]), t, i);
      next := i + 1;
      if oldHeads[i] == NoRef {
      } else if oldHeads[i] != oldHeads[Partner(i)] {
        TransferList(oldHeads[i].a, u, done, t[i].nodes);
      } else {
        TransferTree(oldHeads[i].id, u, done, t[i].nodes);
        next := i + 2;
      }
    }

    method DestroyOldTree(oldHeads: array<Ref>, i: nat, ghost t: Table<K, Addr>, ghost u: Table<K, Addr>)
      requires oldHeads != heads && Told(t, oldHeads[..]) && i < |t| && t[i].Tree? && i % 2 == 0 && oldHeads[i].TreeAt?
      requires Implements(At(), u) && Left(At(), t, oldHeads[..], i + 2) && oldHeads[i] !in heads[..]
      modifies `trees
      ensures Implements(At(), u) && Left(At(), t, oldHeads[..], i + 2) && trees == old(trees) - {oldHeads[i].id}
    {
      TreeGoes(At(), u, oldHeads[i].id);
      TreeGoesFromLeft(At(), t, oldHeads[..], i);
      trees := trees - {oldHeads[i].id};
    }

    /** One turn of the loop over the old buckets. */
    method TransferBucket(
        oldHeads: array<Ref>, i: nat, ghost t: Table<K, Addr>, ghost u: Table<K, Addr>,
        ghost done: map<K, Addr>, ghost m: map<K, Addr>)
        returns (next: nat)
      requires oldHeads != heads && Told(t, oldHeads[..]) && TableOk(keys, t) && i < |t| && Boundary(t, i)
      requires Taking(keys, At(), u, done, OrderFrom(t, i)) && Remaining(done, OrderFrom(t, i), m)
      requires Left(At(), t, oldHeads[..], i) && TreesKept(trees, heads[..], oldHeads[..], i)
      modifies `nodes, `trees, `nextTree, heads
      ensures next == NextBucket(t, i) && TreesKept(trees, heads[..], oldHeads[..], next)
      ensures Taking(keys, At(), Reinserted(keys, u, t[i].Nodes()), done + AsMap(t[i].Nodes()), OrderFrom(t, next))
      ensures Remaining(done + AsMap(t[i].Nodes()), OrderFrom(t, next), m)
      ensures Left(At(), t, oldHeads[..], next) && nodes.Keys == old(nodes).Keys
    {
      ghost var s := At();
      BucketIsTaken(keys, s, u, done, t, i, m);
      next := MoveBucket(oldHeads, i, t, u, done);
      BucketIsMoved(keys, s, At(), u, done, t, oldHeads[..], i, m);
      if next == i + 2 {
        DestroyOldTree(oldHeads, i, t, Reinserted(keys, u, t[i].Nodes()));
      }
    }

    /** The loop over the old buckets. */
    method TransferAll(oldHeads: array<Ref>, start: nat, ghost t: Table<K, Addr>, ghost m: map<K, Addr>)
      requires oldHeads != heads && heads.Length % 2 == 0 && heads.Length > 0 && Told(t, oldHeads[..])
      requires TableOk(keys, t) && Boundary(t, start)
      requires Taking(keys, At(), EmptyTable(heads.Length), map[], OrderFrom(t, start))
      requires Remaining(map[], OrderFrom(t, start), m) && Left(At(), t, oldHeads[..], start)
      requires TreesKept(trees, heads[..], oldHeads[..], start)
      modifies `nodes, `trees, `nextTree, heads
      ensures Implements(At(), Reinserted(keys, EmptyTable(heads.Length), OrderFrom(t, start)))
      ensures nodes.Keys == old(nodes).Keys && TreesUsed(trees, heads[..])
    {
      ghost var u, done := EmptyTable<K, Addr>(heads.Length), map[];
      ghost var goal := Reinserted(keys, u, OrderFrom(t, start));
      var i := start;
      while i < oldHeads.Length
        invariant Told(t, oldHeads[..]) && Boundary(t, i) && Left(At(), t, oldHeads[..], i)
        invariant Taking(keys, At(), u, done, OrderFrom(t, i)) && Remaining(done, OrderFrom(t, i), m)
        invariant Reinserted(keys, u, OrderFrom(t, i)) == goal
        invariant nodes.Keys == old(nodes).Keys && TreesKept(trees, heads[..], oldHeads[..], i)
        decreases oldHeads.Length - i
      {
        ghost var xs := t[i].Nodes();
        NextIsBoundary(keys, t, i);
        ReinsertedInTwo(keys, u, xs, OrderFrom(t, NextBucket(t, i)));
        i := TransferBucket(oldHeads, i, t, u, done, m);
        u, done := Reinserted(keys, u, xs), done + AsMap(xs);
      }
    }

    /**
      Rebuilds the table with the nodes it has: each keeps its address, and only `next` pointers,
      heads and trees are new.
     */
    method Resize(newNumBuckets: nat, firstNonNull: nat, ghost t: Table<K, Addr>, ghost m: map<K, Addr>)
      requires StrictOrder(keys.less) && Implements(At(), t) && TableOk(keys, t) && Represents(keys, t, m)
      requires FirstNonNull(t, firstNonNull)
      requires newNumBuckets > 0 && newNumBuckets % 2 == 0 && TreesUsed(trees, heads[..])
      modifies this
      ensures fresh(heads) && nodes.Keys == old(nodes).Keys && TreesUsed(trees, heads[..])
      ensures Implements(At(), Reinserted(keys, EmptyTable(newNumBuckets), OrderFrom(t, 0)))
    {
      StoreTells(keys, At(), t);
      NothingTakenYet(keys, At(), t, m, newNumBuckets);
      ghost var s := At();
      var oldHeads := heads;
      heads := new Ref[newNumBuckets](_ => NoRef);
      assert At() == s.(heads := seq(newNumBuckets, _ => NoRef));
      OrderFromFirst(keys, t, firstNonNull, 0);
      AllTreesKept(trees, heads[..], t, oldHeads[..], firstNonNull);
      TransferAll(oldHeads, firstNonNull, t, m);
    }

    // ----- erasing

    /** Unlinks the node and returns what the list then starts with. */
    method EraseFromLinkedList(item: Addr, head: Addr, ghost xs: Nodes<K>, ghost k: K) returns (r: Option<Addr>)
      requires Linked(nodes, Some(head), xs) && Distinct(xs)
      requires Item(k, item) in xs
      modifies `nodes
      ensures Linked(nodes, r, Without(xs, k)) && Rechained(old(nodes), nodes, xs)
      decreases xs
    {
      LinkedHolds(nodes, Some(head), xs);
      FirstAndRest(xs);
      if head == item {
        return nodes[head].next;
      }
      var next := nodes[head].next;
      assert xs[1..] != [];
      var rest := EraseFromLinkedList(item, next.value, xs[1..], k);
      Relinked(nodes, rest, xs, k);
      nodes := nodes[head := nodes[head].(next := rest)];
      return Some(head);
    }

    method DestroyNode(a: Addr)
      requires a in nodes
      modifies `nodes
      ensures nodes == old(nodes) - {a}
    {
      nodes := nodes - {a};
    }

    method TakeFromTree(b: nat, k: K)
      requires b < heads.Length && heads.Length % 2 == 0 && heads[b].TreeAt? && heads[b].id in trees
      modifies `trees, heads
      ensures At() == TakenFromTree(old(At()), b, k)
    {
      var id := heads[b].id;
      var tree := Without(trees[id], k);
      if tree == [] {
        trees := trees - {id};
        heads[b], heads[Partner(b)] := NoRef, NoRef;
      } else {
        trees := trees[id := tree];
      }
    }

    method TakeFromList(b: nat, a: Addr, ghost t: Table<K, Addr>, ghost x: Item<K, Addr>)
      requires Implements(At(), t) && TableOk(keys, t) && b < heads.Length && t[b].List?
      requires x in t[b].nodes && a == x.value
      modifies `nodes, heads
      ensures Implements(At(), Erased(t, b, x.key)) && nodes.Keys == old(nodes).Keys
      ensures trees == old(trees) && forall r :: r in old(heads[..]) && r.TreeAt? ==> r in heads[..]
    {
      ghost var s := At();
      assert EntryIs(s, t, b) && EntryOk(keys, t, b);
      var head := EraseFromLinkedList(a, heads[b].a, t[b].nodes, x.key);
      heads[b] := RefTo(head);
      TreesStayInUse(s.heads, b, RefTo(head));
      ErasedFromListIs(keys, s, At(), t, b, x.key);
    }

    /** Takes the node out of its list or tree, and destroys it. */
    method Erase(b: nat, a: Addr, ghost t: Table<K, Addr>, ghost x: Item<K, Addr>)
      requires Implements(At(), t) && TableOk(keys, t) && b < heads.Length
      requires x in t[b].Nodes() && a == x.value
      modifies `nodes, `trees, heads
      ensures Implements(At(), Erased(t, b, x.key)) && nodes.Keys == old(nodes).Keys - {a}
      ensures old(TreesUsed(trees, heads[..])) ==> TreesUsed(trees, heads[..])
    {
      PointerTestsAreRight(keys, At(), t, b);
      EntryHolds(At(), t, b);
      ErasedIsUnused(keys, At(), t, b, x);
      if heads[b] != heads[Partner(b)] {
        TakeFromList(b, a, t, x);
      } else {
        TakenFromTreeIs(keys, At(), t, b, x.key);
        TakenFromTreeUses(At(), b, x.key);
        TakeFromTree(b, nodes[a].key);
      }
      DestroyedIs(At(), Erased(t, b, x.key), a);
      DestroyNode(a);
    }

    /** Saves `next` before the node is destroyed. */
    method ClearList(head: Addr, ghost xs: Nodes<K>)
      requires Linked(nodes, Some(head), xs) && Distinct(xs)
      modifies `nodes
      ensures Removed(old(nodes), nodes, xs)
    {
      var node := Some(head);
      ghost var rest := xs;
      while node.Some?
        invariant Linked(nodes, node, rest) && Distinct(rest) && forall x :: x in rest ==> x in xs
        invariant forall a :: a in nodes <==> a in old(nodes) && (Among(a, xs) ==> Among(a, rest))
        invariant forall a :: a in nodes ==> nodes[a] == old(nodes)[a]
        decreases rest
      {
        var next := nodes[node.value].next;
        LinkedHolds(nodes, node, rest);
        RemovedOne(old(nodes), nodes, xs, rest);
        ChainStays(nodes, nodes - {node.value}, next, rest[1..]);
        DestroyNode(node.value);
        node, rest := next, rest[1..];
      }
    }

    /** Each node of the tree is destroyed, then the tree. */
    method ClearTree(id: nat)
      requires id in trees && Distinct(trees[id]) && Holds(nodes, trees[id])
      modifies `nodes, `trees
      ensures Removed(old(nodes), nodes, old(trees[id])) && trees == old(trees) - {id}
    {
      var tree := trees[id];
      ghost var xs := tree;
      while tree != []
        invariant Distinct(tree) && Holds(nodes, tree) && forall x :: x in tree ==> x in xs
        invariant forall a :: a in nodes <==> a in old(nodes) && (Among(a, xs) ==> Among(a, tree))
        invariant forall a :: a in nodes ==> nodes[a] == old(nodes)[a]
        invariant trees == old(trees)
        decreases tree
      {
        RemovedOne(old(nodes), nodes, xs, tree);
        DestroyNode(tree[0].value);
        tree := tree[1..];
      }
      trees := trees - {id};
    }

    method ClearListBucket(b: nat, ghost start: Store<K>, ghost t: Table<K, Addr>)
      requires Implements(start, t) && TableOk(keys, t) && b < |t| && t[b].List? && Boundary(t, b)
      requires Cleared(start, At(), t, b) && heads[b].NodeAt? && EntryIs(At().(heads := start.heads), t, b)
      modifies `nodes, heads
      ensures Cleared(start, At(), t, b + 1)
      ensures forall r :: r in old(heads[..]) && r.TreeAt? ==> r in heads[..]
    {
      ghost var s := At();
      assert EntryOk(keys, t, b);
      var head := heads[b].a;
      heads[b] := NoRef;
      TreesStayInUse(s.heads, b, NoRef);
      ClearList(head, t[b].nodes);
      ListIsCleared(keys, start, s, At(), t, b);
    }

    method ClearTreeBuckets(b: nat, ghost start: Store<K>, ghost t: Table<K, Addr>)
      requires Implements(start, t) && TableOk(keys, t)
      requires b + 1 < |t| && t[b].Tree? && b % 2 == 0 && Boundary(t, b)
      requires Cleared(start, At(), t, b) && heads[b].TreeAt? && EntryIs(At().(heads := start.heads), t, b)
      modifies `nodes, `trees, heads
      ensures Cleared(start, At(), t, b + 2)
      ensures old(TreesUsed(trees, heads[..])) ==> TreesUsed(trees, heads[..])
    {
      ghost var s := At();
      assert EntryOk(keys, t, b);
      var id := heads[b].id;
      heads[b], heads[b + 1] := NoRef, NoRef;
      ClearTree(id);
      TreeIsCleared(keys, start, s, At(), t, b);
      ClearedUses(start, s, At(), t, b);
    }

    method ClearBucket(b: nat, ghost start: Store<K>, ghost t: Table<K, Addr>) returns (next: nat)
      requires Implements(start, t) && TableOk(keys, t) && Told(t, start.heads)
      requires b < |t| && Boundary(t, b) && Cleared(start, At(), t, b)
      modifies `nodes, `trees, heads
      ensures next == NextBucket(t, b) && Cleared(start, At(), t, next)
      ensures old(TreesUsed(trees, heads[..])) ==> TreesUsed(trees, heads[..])
    {
      BucketIsThere(start, At(), t, b);
      ClearingTests(keys, start, heads[..], t, b);
      next := b + 1;
      if heads[b] == NoRef {
        NullIsCleared(keys, start, At(), t, b);
      } else if heads[b] != heads[Partner(b)] {
        ClearListBucket(b, start, t);
      } else {
        ClearTreeBuckets(b, start, t);
        next := b + 2;
      }
    }

    /** Destroys every node of the table once, and no other. */
    method Clear(ghost t: Table<K, Addr>)
      requires Implements(At(), t) && TableOk(keys, t)
      modifies `nodes, `trees, heads
      ensures forall a :: a in nodes <==> a in old(nodes) && Unused(t, a)
      ensures Implements(At(), EmptyTable(heads.Length))
      ensures old(TreesUsed(trees, heads[..])) ==> trees == map[]
    {
      ghost var start := At();
      StoreTells(keys, start, t);
      NothingClearedYet(keys, start, t);
      var b := 0;
      while b < heads.Length
        invariant Boundary(t, b) && Cleared(start, At(), t, b)
        invariant old(TreesUsed(trees, heads[..])) ==> TreesUsed(trees, heads[..])
        decreases heads.Length - b
      {
        NextIsBoundary(keys, t, b);
        b := ClearBucket(b, start, t);
      }
    }
  }

  /** The head goes back in front of what is left of the list. */
  lemma Relinked<K(!new)>(nodes: map<Addr, Node<K>>, rest: Option<Addr>, xs: Nodes<K>, k: K)
    requires xs != [] && Distinct(xs) && xs[0].key != k && Holds(nodes, xs) && Linked(nodes, rest, Without(xs[1..], k))
    ensures Linked(nodes[xs[0].value := nodes[xs[0].value].(next := rest)], Some(xs[0].value), Without(xs, k))
  {
    var n := nodes[xs[0].value].(next := rest);
    var ys := Without(xs[1..], k);
    FirstAndRest(xs);
    WithoutHas(xs[1..], k);
    ChainStays(nodes, nodes[xs[0].value := n], rest, ys);
    assert Without(xs, k)[1..] == ys;
  }

  lemma ConvertedCovers<K(!new)>(c: Keys<K>, t: Table<K, Addr>, b: nat)
    requires b < |t| && |t| % 2 == 0
    ensures forall a :: Unused(t, a) ==> Unused(TreeConverted(c, t, b), a)
  {
    forall a | Unused(t, a)
      ensures Unused(TreeConverted(c, t, b), a)
    {
      ConvertedHas(c, t, b, a);
    }
  }

  lemma RestIsLinked<K(!new)>(nodes: map<Addr, Node<K>>, head: Option<Addr>, xs: Nodes<K>, n: Node<K>)
    requires Linked(nodes, head, xs) && xs != [] && Distinct(xs)
    ensures Linked(nodes[xs[0].value := n], nodes[xs[0].value].next, xs[1..])
  {
    LinkedHolds(nodes, head, xs);
    FirstAndRest(xs);
    ChainStays(nodes, nodes[xs[0].value := n], nodes[xs[0].value].next, xs[1..]);
  }

  /** Both lists are chains still after the first of them has been taken apart. */
  lemma ListsToConvert<K(!new)>(c: Keys<K>, s: Store<K>, t: Table<K, Addr>, b: nat)
    requires Implements(s, t) && TableOk(c, t) && b < |t| && t[b].List?
    ensures Distinct(t[b].Nodes()) && Distinct(t[Partner(b)].Nodes())
    ensures Linked(s.nodes, HeadOf(s.heads[b]), t[b].Nodes())
    ensures Linked(Unchained(s.nodes, t[b].Nodes()), HeadOf(s.heads[Partner(b)]), t[Partner(b)].Nodes())
  {
    var p := Partner(b);
    assert EntryIs(s, t, b) && EntryIs(s, t, p) && EntryOk(c, t, b) && EntryOk(c, t, p);
    EntryHolds(s, t, b);
    EntryHolds(s, t, p);
    forall y | y in t[p].Nodes()
      ensures Unchained(s.nodes, t[b].Nodes())[y.value] == s.nodes[y.value]
    {
      UnchainedAt(s.nodes, t[b].Nodes(), y.value);
      NotElsewhere(c, s, t, b, p, y);
    }
    ChainStays(s.nodes, Unchained(s.nodes, t[b].Nodes()), HeadOf(s.heads[p]), t[p].Nodes());
  }
}
