/**
  The bucket table of `Map::InnerMap`: a chaining hash table whose overlong buckets are turned
  into ordered trees, two neighbouring buckets sharing one tree.

  A table entry is a pointer.  Here it is what the pointer leads to, so two entries are equal
  when their pointers are: no node is in two places, and a tree is one object in both of its
  buckets.  Nothing in an entry is used to tell a list from a tree but that equality.
 */
module MapTables {
  import opened Options

  /** A linked-list node: a key and a pointer to the value. */
  datatype Item<K, V> = Item(key: K, value: V)

  datatype Entry<K, V> = Null | List(nodes: seq<Item<K, V>>) | Tree(nodes: seq<Item<K, V>>)
  {
    function Nodes(): seq<Item<K, V>> {
      if Null? then [] else nodes
    }
  }

  /** How keys are hashed, the seed included, and ordered. */
  datatype Keys<!K> = Keys(hash: K -> nat, less: (K, K) -> bool)

  type Table<K, V> = seq<Entry<K, V>>

  /** No list is ever longer than this. */
  const MAX_LENGTH: nat := 8

  ghost predicate StrictOrder<K(!new)>(less: (K, K) -> bool) {
    && (forall a, b :: less(a, b) ==> !less(b, a))
    && (forall a, b, c :: less(a, b) && less(b, c) ==> less(a, c))
    && (forall a, b :: less(a, b) || a == b || less(b, a))
  }

  function BucketOf<K>(c: Keys<K>, k: K, n: nat): (b: nat)
    requires n > 0
    ensures b < n
  {
    c.hash(k) % n
  }

  /** `b ^ 1` */
  function Partner(b: nat): (p: nat)
    ensures p != b && p / 2 == b / 2
  {
    if b % 2 == 0 then b + 1 else b - 1
  }

  // ----- telling lists from trees, as the source does

  predicate EntryIsNonEmptyList<K(==), V(==)>(t: Table<K, V>, b: nat)
    requires b < |t| && |t| % 2 == 0
  {
    t[b] != Null && t[b] != t[Partner(b)]
  }

  predicate EntryIsTree<K(==), V(==)>(t: Table<K, V>, b: nat)
    requires b < |t| && |t| % 2 == 0
  {
    t[b] != Null && !EntryIsNonEmptyList(t, b)
  }

  // ----- the table invariant

  ghost predicate Lacks<K, V>(s: seq<Item<K, V>>, k: K) {
    forall x :: x in s ==> x.key != k
  }

  /** No key occurs twice. */
  ghost predicate Distinct<K, V>(s: seq<Item<K, V>>) {
    s == [] || (Lacks(s[1..], s[0].key) && Distinct(s[1..]))
  }

  ghost predicate AllAbove<K, V>(c: Keys<K>, k: K, s: seq<Item<K, V>>) {
    forall x :: x in s ==> c.less(k, x.key)
  }

  ghost predicate Sorted<K, V>(c: Keys<K>, s: seq<Item<K, V>>) {
    s == [] || (AllAbove(c, s[0].key, s[1..]) && Sorted(c, s[1..]))
  }

  /** Every node hashes to bucket `b`. */
  ghost predicate AllAt<K, V>(c: Keys<K>, s: seq<Item<K, V>>, n: nat, b: nat)
    requires n > 0
  {
    forall x :: x in s ==> BucketOf(c, x.key, n) == b
  }

  /** Every node hashes to bucket `b` or its partner. */
  ghost predicate AllNear<K, V>(c: Keys<K>, s: seq<Item<K, V>>, n: nat, b: nat)
    requires n > 0
  {
    forall x :: x in s ==> BucketOf(c, x.key, n) / 2 == b / 2
  }

  ghost predicate EntryOk<K, V>(c: Keys<K>, t: Table<K, V>, b: nat)
    requires b < |t| && |t| % 2 == 0
  {
    match t[b]
    case Null => true
    case List(s) => s != [] && |s| <= MAX_LENGTH && Distinct(s) && AllAt(c, s, |t|, b)
    case Tree(s) => s != [] && t[Partner(b)] == t[b] && Distinct(s) && Sorted(c, s) && AllNear(c, s, |t|, b)
  }

  ghost predicate TableOk<K, V>(c: Keys<K>, t: Table<K, V>) {
    && |t| > 0 && |t| % 2 == 0
    && forall b: nat :: b < |t| ==> EntryOk(c, t, b)
  }

  /** The nodes of the table are the entries of the map, each in the bucket where its key is looked for. */
  ghost predicate Represents<K, V>(c: Keys<K>, t: Table<K, V>, m: map<K, V>)
    requires |t| > 0
  {
    && (forall b: nat, x {:trigger x in t[b].Nodes()} ::
          b < |t| && x in t[b].Nodes() ==> x.key in m && m[x.key] == x.value)
    && (forall k :: k in m ==> Item(k, m[k]) in t[BucketOf(c, k, |t|)].Nodes())
  }

  /** Without a tag bit, comparing with the partner entry tells what an entry is. */
  lemma TestsAreRight<K(!new), V(!new)>(c: Keys<K>, t: Table<K, V>, b: nat)
    requires TableOk(c, t) && b < |t|
    ensures EntryIsNonEmptyList(t, b) <==> t[b].List?
    ensures EntryIsTree(t, b) <==> t[b].Tree?
  {
    assert EntryOk(c, t, b) && EntryOk(c, t, Partner(b));
    if t[b].List? {
      assert t[b].nodes[0] in t[b].nodes;
    }
  }

  // ----- trees: ordered sets of nodes

  function TreeInsert<K, V>(c: Keys<K>, s: seq<Item<K, V>>, x: Item<K, V>): seq<Item<K, V>> {
    if s == [] then [x]
    else if c.less(x.key, s[0].key) then [x] + s
    else [s[0]] + TreeInsert(c, s[1..], x)
  }

  /** The position of the first key that is not below `k`. */
  function LowerBound<K, V>(c: Keys<K>, s: seq<Item<K, V>>, k: K): (i: nat)
    ensures i <= |s|
  {
    if s == [] || !c.less(s[0].key, k) then 0 else 1 + LowerBound(c, s[1..], k)
  }

  function TreeFind<K, V>(c: Keys<K>, s: seq<Item<K, V>>, k: K): (i: nat)
    ensures i <= |s|
  {
    var i := LowerBound(c, s, k);
    if i < |s| && !c.less(k, s[i].key) then i else |s|
  }

  /** Searching by comparisons finds exactly the keys that are there. */
  lemma {:induction false} TreeFindIsExact<K(!new), V(!new)>(c: Keys<K>, s: seq<Item<K, V>>, k: K)
    requires StrictOrder(c.less) && Sorted(c, s)
    ensures if TreeFind(c, s, k) < |s| then s[TreeFind(c, s, k)].key == k else Lacks(s, k)
  {
    if s != [] {
      assert s == [s[0]] + s[1..];
      if c.less(s[0].key, k) {
        TreeFindIsExact(c, s[1..], k);
      } else if s[0].key != k {
        assert c.less(k, s[0].key);
      }
    }
  }

  lemma {:induction false} TreeInsertHas<K(!new), V(!new)>(c: Keys<K>, s: seq<Item<K, V>>, x: Item<K, V>)
    ensures forall y :: y in TreeInsert(c, s, x) <==> y == x || y in s
  {
    if s != [] && !c.less(x.key, s[0].key) {
      TreeInsertHas(c, s[1..], x);
      assert s == [s[0]] + s[1..];
    }
  }

  lemma {:induction false} TreeInsertKeepsTree<K(!new), V(!new)>(c: Keys<K>, s: seq<Item<K, V>>, x: Item<K, V>)
    requires StrictOrder(c.less) && Sorted(c, s) && Distinct(s) && Lacks(s, x.key)
    ensures Sorted(c, TreeInsert(c, s, x)) && Distinct(TreeInsert(c, s, x))
  {
    if s == [] {
    } else {
      assert s == [s[0]] + s[1..];
      if c.less(x.key, s[0].key) {
        assert ([x] + s)[1..] == s;
      } else {
        assert c.less(s[0].key, x.key);
        TreeInsertHas(c, s[1..], x);
        TreeInsertKeepsTree(c, s[1..], x);
        var r := TreeInsert(c, s[1..], x);
        assert ([s[0]] + r)[1..] == r;
      }
    }
  }

  /** The nodes of a list put into a tree one by one. */
  function CopiedToTree<K, V>(c: Keys<K>, tree: seq<Item<K, V>>, s: seq<Item<K, V>>): seq<Item<K, V>>
    decreases s
  {
    if s == [] then tree else CopiedToTree(c, TreeInsert(c, tree, s[0]), s[1..])
  }

  ghost predicate NoCommonKey<K, V>(a: seq<Item<K, V>>, b: seq<Item<K, V>>) {
    forall x :: x in b ==> Lacks(a, x.key)
  }

  lemma FirstAndRest<K(!new), V(!new)>(s: seq<Item<K, V>>)
    requires s != []
    ensures forall y :: y in s <==> y == s[0] || y in s[1..]
  {
    assert s == [s[0]] + s[1..];
  }

  lemma {:induction false} CopiedHas<K(!new), V(!new)>(c: Keys<K>, tree: seq<Item<K, V>>, s: seq<Item<K, V>>)
    ensures forall y :: y in CopiedToTree(c, tree, s) <==> y in tree || y in s
    decreases s
  {
    if s != [] {
      FirstAndRest(s);
      TreeInsertHas(c, tree, s[0]);
      CopiedHas(c, TreeInsert(c, tree, s[0]), s[1..]);
    }
  }

  lemma RestHasNoCommonKey<K(!new), V(!new)>(c: Keys<K>, tree: seq<Item<K, V>>, s: seq<Item<K, V>>)
    requires s != [] && Distinct(s) && NoCommonKey(tree, s)
    ensures Lacks(tree, s[0].key) && NoCommonKey(TreeInsert(c, tree, s[0]), s[1..])
  {
    FirstAndRest(s);
    TreeInsertHas(c, tree, s[0]);
    forall x | x in s[1..]
      ensures Lacks(TreeInsert(c, tree, s[0]), x.key)
    {
      assert x in s && Lacks(tree, x.key);
    }
  }

  lemma {:induction false} CopyKeepsTree<K(!new), V(!new)>(c: Keys<K>, tree: seq<Item<K, V>>, s: seq<Item<K, V>>)
    requires StrictOrder(c.less) && Sorted(c, tree) && Distinct(tree) && Distinct(s) && NoCommonKey(tree, s)
    ensures Sorted(c, CopiedToTree(c, tree, s)) && Distinct(CopiedToTree(c, tree, s))
    decreases s
  {
    if s != [] {
      RestHasNoCommonKey(c, tree, s);
      TreeInsertKeepsTree(c, tree, s[0]);
      CopyKeepsTree(c, TreeInsert(c, tree, s[0]), s[1..]);
    }
  }

  lemma CopyBoth<K(!new), V(!new)>(c: Keys<K>, a: seq<Item<K, V>>, b: seq<Item<K, V>>)
    requires StrictOrder(c.less) && Distinct(a) && Distinct(b) && NoCommonKey(a, b)
    ensures var s := CopiedToTree(c, CopiedToTree(c, [], a), b);
            Distinct(s) && Sorted(c, s) && forall y :: y in s <==> y in a || y in b
  {
    var first := CopiedToTree(c, [], a);
    CopiedHas(c, [], a);
    CopyKeepsTree(c, [], a);
    CopiedHas(c, first, b);
    forall x | x in b
      ensures Lacks(first, x.key)
    {
      assert Lacks(a, x.key);
    }
    CopyKeepsTree(c, first, b);
  }

  // ----- insertion

  function AddedToList<K, V>(t: Table<K, V>, b: nat, x: Item<K, V>): Table<K, V>
    requires b < |t|
  {
    t[b := List([x] + t[b].Nodes())]
  }

  /** The tree that `b` and its partner share, written into both. */
  function WithTree<K, V>(t: Table<K, V>, b: nat, nodes: seq<Item<K, V>>): Table<K, V>
    requires b < |t| && |t| % 2 == 0
  {
    t[b := Tree(nodes)][Partner(b) := Tree(nodes)]
  }

  lemma WithTreeAt<K(!new), V(!new)>(t: Table<K, V>, b: nat, nodes: seq<Item<K, V>>, d: nat)
    requires b < |t| && |t| % 2 == 0 && d < |t|
    ensures WithTree(t, b, nodes)[d] == if d == b || d == Partner(b) then Tree(nodes) else t[d]
    ensures d / 2 == b / 2 <==> d == b || d == Partner(b)
  {
  }

  function AddedToTree<K, V>(c: Keys<K>, t: Table<K, V>, b: nat, x: Item<K, V>): Table<K, V>
    requires b < |t| && |t| % 2 == 0
  {
    WithTree(t, b, TreeInsert(c, t[b].Nodes(), x))
  }

  /** Buckets `b` and `b ^ 1` are lists and become one tree. */
  function TreeConverted<K, V>(c: Keys<K>, t: Table<K, V>, b: nat): Table<K, V>
    requires b < |t| && |t| % 2 == 0
  {
    WithTree(t, b, CopiedToTree(c, CopiedToTree(c, [], t[b].Nodes()), t[Partner(b)].Nodes()))
  }

  function InsertedUnique<K, V>(c: Keys<K>, t: Table<K, V>, b: nat, x: Item<K, V>): (u: Table<K, V>)
    requires b < |t| && |t| % 2 == 0
    ensures |u| == |t|
  {
    match t[b]
    case Null => AddedToList(t, b, x)
    case List(s) =>
      if |s| >= MAX_LENGTH then AddedToTree(c, TreeConverted(c, t, b), b, x) else AddedToList(t, b, x)
    case Tree(_) => AddedToTree(c, t, b, x)
  }

  /**
    What a bucket looks like after an insertion: the new node heads its list, which has at most
    eight, and a list of eight becomes a tree that the partner bucket shares.
   */
  lemma InsertedIsHead<K(!new), V(!new)>(c: Keys<K>, t: Table<K, V>, b: nat, x: Item<K, V>)
    requires TableOk(c, t) && b < |t|
    ensures var u := InsertedUnique(c, t, b, x);
            && !u[b].Null? && (u[b].Tree? <==> t[b].Tree? || |t[b].Nodes()| == 8)
            && (u[b].List? ==> u[b].nodes == [x] + t[b].Nodes() && |u[b].nodes| <= 8)
            && (u[b].Tree? ==> u[Partner(b)] == u[b])
            && (u[b].Tree? ==> forall y :: y in u[b].nodes <==>
                  y == x || y in t[b].Nodes() || (t[b].List? && y in t[Partner(b)].Nodes()))
            && forall d: nat :: d < |t| && d != b && (d != Partner(b) || u[b].List?) ==> u[d] == t[d]
  {
    assert EntryOk(c, t, b);
    var (xs, ys) := (t[b].Nodes(), t[Partner(b)].Nodes());
    TreeInsertHas(c, xs, x);
    CopiedHas(c, [], xs);
    CopiedHas(c, CopiedToTree(c, [], xs), ys);
    TreeInsertHas(c, CopiedToTree(c, CopiedToTree(c, [], xs), ys), x);
  }

  /** Where a new key belongs: its bucket, or the partner if the two share a tree. */
  ghost predicate Belongs<K, V>(c: Keys<K>, t: Table<K, V>, b: nat, k: K)
    requires b < |t|
  {
    BucketOf(c, k, |t|) == b || (t[b].Tree? && BucketOf(c, k, |t|) / 2 == b / 2)
  }

  lemma OtherBucketsStayOk<K(!new), V(!new)>(c: Keys<K>, t: Table<K, V>, u: Table<K, V>, b: nat)
    requires TableOk(c, t) && b < |t| && |u| == |t|
    requires forall d: nat :: d < |t| && d / 2 != b / 2 ==> u[d] == t[d]
    requires EntryOk(c, u, b) && EntryOk(c, u, Partner(b))
    ensures TableOk(c, u)
  {
    forall d: nat | d < |u|
      ensures EntryOk(c, u, d)
    {
      assert EntryOk(c, t, d);
    }
  }

  /** Entry `b` gained `x`, or nothing. */
  ghost predicate Gains<K, V>(t: Table<K, V>, u: Table<K, V>, b: nat, x: Item<K, V>)
    requires b < |t| == |u|
  {
    && (forall y :: y in t[b].Nodes() ==> y in u[b].Nodes())
    && (forall y :: y in u[b].Nodes() ==> y == x || y in t[b].Nodes())
  }

  lemma GainAtKey<K(!new), V(!new)>(
      c: Keys<K>, t: Table<K, V>, u: Table<K, V>, m: map<K, V>, x: Item<K, V>, k: K)
    requires 0 < |t| == |u| && Represents(c, t, m) && x.key !in m
    requires Gains(t, u, BucketOf(c, k, |t|), x)
    requires x in u[BucketOf(c, x.key, |t|)].Nodes()
    ensures k in m ==> Item(k, m[k]) in u[BucketOf(c, k, |t|)].Nodes()
    ensures k == x.key ==> Item(k, x.value) in u[BucketOf(c, k, |t|)].Nodes()
  {
  }

  lemma GainIsInsertion<K(!new), V(!new)>(
      c: Keys<K>, t: Table<K, V>, u: Table<K, V>, m: map<K, V>, x: Item<K, V>)
    requires 0 < |t| == |u| && Represents(c, t, m) && x.key !in m
    requires forall b: nat :: b < |t| ==> Gains(t, u, b, x)
    requires x in u[BucketOf(c, x.key, |t|)].Nodes()
    ensures Represents(c, u, m[x.key := x.value])
  {
    var n := m[x.key := x.value];
    forall b: nat, y | b < |u| && y in u[b].Nodes()
      ensures y.key in n && n[y.key] == y.value
    {
      assert Gains(t, u, b, x);
    }
    forall k | k in n
      ensures Item(k, n[k]) in u[BucketOf(c, k, |u|)].Nodes()
    {
      GainAtKey(c, t, u, m, x, k);
    }
  }

  lemma NewKeyIsLacking<K(!new), V(!new)>(c: Keys<K>, t: Table<K, V>, m: map<K, V>, b: nat, k: K)
    requires 0 < |t| && Represents(c, t, m) && k !in m && b < |t|
    ensures Lacks(t[b].Nodes(), k)
  {
  }

  lemma ListInsertKeeps<K(!new), V(!new)>(c: Keys<K>, t: Table<K, V>, m: map<K, V>, b: nat, x: Item<K, V>)
    requires TableOk(c, t) && Represents(c, t, m) && x.key !in m && b == BucketOf(c, x.key, |t|)
    requires !t[b].Tree? && |t[b].Nodes()| < MAX_LENGTH
    ensures TableOk(c, AddedToList(t, b, x)) && Represents(c, AddedToList(t, b, x), m[x.key := x.value])
  {
    var u := AddedToList(t, b, x);
    NewKeyIsLacking(c, t, m, b, x.key);
    ListInsertIsOk(c, t, b, x);
    forall d: nat | d < |t|
      ensures Gains(t, u, d, x)
    {
    }
    assert u[b].nodes[0] == x;
    GainIsInsertion(c, t, u, m, x);
  }

  lemma ListInsertIsOk<K(!new), V(!new)>(c: Keys<K>, t: Table<K, V>, b: nat, x: Item<K, V>)
    requires TableOk(c, t) && b < |t| && b == BucketOf(c, x.key, |t|) && Lacks(t[b].Nodes(), x.key)
    requires !t[b].Tree? && |t[b].Nodes()| < MAX_LENGTH
    ensures TableOk(c, AddedToList(t, b, x))
  {
    var u := AddedToList(t, b, x);
    assert EntryOk(c, t, b) && EntryOk(c, t, Partner(b));
    assert u[b].nodes[1..] == t[b].Nodes();
    OtherBucketsStayOk(c, t, u, b);
  }

  /** A tree of all the right nodes can be put into a pair of buckets. */
  lemma WithTreeIsOk<K(!new), V(!new)>(c: Keys<K>, t: Table<K, V>, b: nat, s: seq<Item<K, V>>)
    requires TableOk(c, t) && b < |t|
    requires s != [] && Distinct(s) && Sorted(c, s) && AllNear(c, s, |t|, b)
    ensures TableOk(c, WithTree(t, b, s))
  {
    OtherBucketsStayOk(c, t, WithTree(t, b, s), b);
  }

  lemma TreeGains<K(!new), V(!new)>(t: Table<K, V>, b: nat, s: seq<Item<K, V>>, x: Item<K, V>)
    requires b < |t| && |t| % 2 == 0 && t[b].Tree? && t[Partner(b)] == t[b]
    requires forall y :: y in s <==> y == x || y in t[b].nodes
    ensures forall d: nat :: d < |t| ==> Gains(t, WithTree(t, b, s), d, x)
  {
    forall d: nat | d < |t|
      ensures Gains(t, WithTree(t, b, s), d, x)
    {
      WithTreeAt(t, b, s, d);
    }
  }

  lemma TreeInsertIsOk<K(!new), V(!new)>(c: Keys<K>, t: Table<K, V>, b: nat, x: Item<K, V>)
    requires StrictOrder(c.less) && TableOk(c, t) && b < |t| && t[b].Tree? && Lacks(t[b].nodes, x.key)
    requires BucketOf(c, x.key, |t|) / 2 == b / 2
    ensures TableOk(c, AddedToTree(c, t, b, x))
  {
    assert EntryOk(c, t, b);
    TreeInsertHas(c, t[b].nodes, x);
    TreeInsertKeepsTree(c, t[b].nodes, x);
    WithTreeIsOk(c, t, b, TreeInsert(c, t[b].nodes, x));
  }

  lemma TreeInsertKeeps<K(!new), V(!new)>(c: Keys<K>, t: Table<K, V>, m: map<K, V>, b: nat, x: Item<K, V>)
    requires StrictOrder(c.less)
    requires TableOk(c, t) && Represents(c, t, m) && x.key !in m
    requires b < |t| && t[b].Tree? && BucketOf(c, x.key, |t|) / 2 == b / 2
    ensures TableOk(c, AddedToTree(c, t, b, x)) && Represents(c, AddedToTree(c, t, b, x), m[x.key := x.value])
  {
    var s := TreeInsert(c, t[b].nodes, x);
    assert EntryOk(c, t, b);
    NewKeyIsLacking(c, t, m, b, x.key);
    assert t[b].Nodes() == t[b].nodes;
    TreeInsertIsOk(c, t, b, x);
    TreeInsertHas(c, t[b].nodes, x);
    TreeGains(t, b, s, x);
    WithTreeAt(t, b, s, BucketOf(c, x.key, |t|));
    GainIsInsertion(c, t, WithTree(t, b, s), m, x);
  }

  lemma PartnersHaveNoCommonKey<K(!new), V(!new)>(c: Keys<K>, t: Table<K, V>, b: nat)
    requires TableOk(c, t) && b < |t| && t[b].List?
    ensures NoCommonKey(t[b].nodes, t[Partner(b)].Nodes()) && !t[Partner(b)].Tree?
    ensures Distinct(t[b].nodes) && Distinct(t[Partner(b)].Nodes()) && t[b].nodes != []
    ensures AllNear(c, t[b].nodes, |t|, b) && AllNear(c, t[Partner(b)].Nodes(), |t|, b)
  {
    assert EntryOk(c, t, b) && EntryOk(c, t, Partner(b));
  }

  lemma ConvertedTree<K(!new), V(!new)>(c: Keys<K>, t: Table<K, V>, b: nat) returns (s: seq<Item<K, V>>)
    requires StrictOrder(c.less) && TableOk(c, t) && b < |t| && t[b].List?
    ensures TreeConverted(c, t, b) == WithTree(t, b, s)
    ensures Distinct(s) && Sorted(c, s)
    ensures forall y :: y in s <==> y in t[b].Nodes() || y in t[Partner(b)].Nodes()
  {
    PartnersHaveNoCommonKey(c, t, b);
    CopyBoth(c, t[b].nodes, t[Partner(b)].Nodes());
    s := CopiedToTree(c, CopiedToTree(c, [], t[b].nodes), t[Partner(b)].Nodes());
  }

  /** Converting a pair of buckets moves no key out of the pair. */
  lemma TreeConvertKeeps<K(!new), V(!new)>(c: Keys<K>, t: Table<K, V>, m: map<K, V>, b: nat)
    requires StrictOrder(c.less)
    requires TableOk(c, t) && Represents(c, t, m) && b < |t| && t[b].List?
    ensures TableOk(c, TreeConverted(c, t, b)) && Represents(c, TreeConverted(c, t, b), m)
    ensures TreeConverted(c, t, b)[b].Tree?
  {
    var s := ConvertedTree(c, t, b);
    PartnersHaveNoCommonKey(c, t, b);
    assert t[b].nodes[0] in s;
    WithTreeIsOk(c, t, b, s);
    PairKeepsMap(c, t, m, b, s);
  }

  lemma PairKeepsMap<K(!new), V(!new)>(c: Keys<K>, t: Table<K, V>, m: map<K, V>, b: nat, s: seq<Item<K, V>>)
    requires 0 < |t| && |t| % 2 == 0 && Represents(c, t, m) && b < |t|
    requires forall y :: y in s <==> y in t[b].Nodes() || y in t[Partner(b)].Nodes()
    ensures Represents(c, WithTree(t, b, s), m)
  {
    var u := WithTree(t, b, s);
    forall d: nat, x | d < |u| && x in u[d].Nodes()
      ensures x.key in m && m[x.key] == x.value
    {
      WithTreeAt(t, b, s, d);
    }
    forall k | k in m
      ensures Item(k, m[k]) in u[BucketOf(c, k, |u|)].Nodes()
    {
      WithTreeAt(t, b, s, BucketOf(c, k, |t|));
    }
  }

  /** Insertion in the bucket of a new key, whatever the bucket is, adds it to the map. */
  lemma InsertKeeps<K(!new), V(!new)>(c: Keys<K>, t: Table<K, V>, m: map<K, V>, b: nat, x: Item<K, V>)
    requires StrictOrder(c.less)
    requires TableOk(c, t) && Represents(c, t, m) && x.key !in m
    requires b < |t| && Belongs(c, t, b, x.key)
    ensures TableOk(c, InsertedUnique(c, t, b, x))
    ensures Represents(c, InsertedUnique(c, t, b, x), m[x.key := x.value])
  {
    match t[b]
    case Null => ListInsertKeeps(c, t, m, b, x);
    case List(s) =>
      if |s| >= MAX_LENGTH {
        TreeConvertKeeps(c, t, m, b);
        TreeInsertKeeps(c, TreeConverted(c, t, b), m, b, x);
      } else {
        ListInsertKeeps(c, t, m, b, x);
      }
    case Tree(_) => TreeInsertKeeps(c, t, m, b, x);
  }

  /** The bucket that an iterator at a node of entry `b` carries. */
  function Canonical<K, V>(t: Table<K, V>, b: nat): nat
    requires b < |t|
  {
    if t[b].Tree? then b - b % 2 else b
  }

  lemma TreeFindFinds<K(!new), V(!new)>(c: Keys<K>, s: seq<Item<K, V>>, x: Item<K, V>)
    requires StrictOrder(c.less) && Sorted(c, s) && Distinct(s) && x in s
    ensures TreeFind(c, s, x.key) < |s| && s[TreeFind(c, s, x.key)] == x
  {
    TreeFindIsExact(c, s, x.key);
    DistinctNodes(s, TreeFind(c, s, x.key), x);
  }

  lemma BelongsToEntry<K(!new), V(!new)>(c: Keys<K>, t: Table<K, V>, b: nat, k: K)
    requires TableOk(c, t) && b < |t| && Belongs(c, t, b, k)
    ensures t[BucketOf(c, k, |t|)] == t[b] == t[Canonical(t, b)]
    ensures t[b].Tree? ==> Sorted(c, t[b].nodes) && Distinct(t[b].nodes)
  {
    assert EntryOk(c, t, b);
  }

  /** Where the node of a key is found. */
  lemma NodeIsFound<K(!new), V(!new)>(c: Keys<K>, t: Table<K, V>, m: map<K, V>, b: nat, k: K)
    requires StrictOrder(c.less) && TableOk(c, t) && Represents(c, t, m)
    requires k in m && b < |t| && Belongs(c, t, b, k)
    ensures t[Canonical(t, b)] == t[b] && Item(k, m[k]) in t[b].Nodes()
    ensures t[b].Tree? ==> var i := TreeFind(c, t[b].nodes, k);
                           i < |t[b].nodes| && t[b].nodes[i] == Item(k, m[k])
  {
    BelongsToEntry(c, t, b, k);
    assert Item(k, m[k]) in t[BucketOf(c, k, |t|)].Nodes();
    if t[b].Tree? {
      TreeFindFinds(c, t[b].nodes, Item(k, m[k]));
    }
  }

  lemma StillBelongs<K(!new), V(!new)>(c: Keys<K>, t: Table<K, V>, b: nat, x: Item<K, V>)
    requires TableOk(c, t) && b < |t| && Belongs(c, t, b, x.key)
    ensures Belongs(c, InsertedUnique(c, t, b, x), b, x.key)
  {
    assert EntryOk(c, t, b);
  }

  lemma {:induction false} DistinctNodes<K(!new), V(!new)>(s: seq<Item<K, V>>, i: nat, x: Item<K, V>)
    requires Distinct(s) && i < |s| && x in s && s[i].key == x.key
    ensures s[i] == x
  {
    FirstAndRest(s);
    if i > 0 && x != s[0] {
      DistinctNodes(s[1..], i - 1, x);
    }
  }

  // ----- removal

  function Without<K(==), V>(s: seq<Item<K, V>>, k: K): seq<Item<K, V>> {
    if s == [] then []
    else if s[0].key == k then s[1..]
    else [s[0]] + Without(s[1..], k)
  }

  lemma {:induction false} WithoutHas<K(!new), V(!new)>(s: seq<Item<K, V>>, k: K)
    requires Distinct(s)
    ensures forall y :: y in Without(s, k) <==> y in s && y.key != k
  {
    if s != [] {
      FirstAndRest(s);
      if s[0].key != k {
        WithoutHas(s[1..], k);
      }
    }
  }

  lemma {:induction false} WithoutKeepsOrder<K(!new), V(!new)>(c: Keys<K>, s: seq<Item<K, V>>, k: K)
    requires Distinct(s)
    ensures Distinct(Without(s, k)) && (Sorted(c, s) ==> Sorted(c, Without(s, k)))
    ensures |Without(s, k)| <= |s|
  {
    if s != [] && s[0].key != k {
      var r := Without(s[1..], k);
      WithoutHas(s[1..], k);
      WithoutKeepsOrder(c, s[1..], k);
      assert ([s[0]] + r)[1..] == r;
    }
  }

  /** What is left of an entry; the last node takes the list or the tree with it. */
  function EntryWithout<K(==), V>(e: Entry<K, V>, k: K): Entry<K, V> {
    var s := Without(e.Nodes(), k);
    if s == [] then Null else if e.Tree? then Tree(s) else List(s)
  }

  function Erased<K(==), V>(t: Table<K, V>, b: nat, k: K): (u: Table<K, V>)
    requires b < |t| && |t| % 2 == 0
    ensures |u| == |t|
  {
    var e := EntryWithout(t[b], k);
    if t[b].Tree? then t[b := e][Partner(b) := e] else t[b := e]
  }

  lemma ErasedAt<K(!new), V(!new)>(c: Keys<K>, t: Table<K, V>, b: nat, k: K, d: nat)
    requires TableOk(c, t) && b < |t| && d < |t|
    ensures Erased(t, b, k)[d] == if d == b || (t[b].Tree? && d == Partner(b)) then EntryWithout(t[b], k) else t[d]
    ensures d / 2 == b / 2 <==> d == b || d == Partner(b)
  {
  }

  lemma EraseIsOk<K(!new), V(!new)>(c: Keys<K>, t: Table<K, V>, b: nat, k: K)
    requires TableOk(c, t) && b < |t| && !t[b].Null?
    ensures TableOk(c, Erased(t, b, k))
  {
    assert EntryOk(c, t, b) && EntryOk(c, t, Partner(b));
    WithoutHas(t[b].nodes, k);
    WithoutKeepsOrder(c, t[b].nodes, k);
    OtherBucketsStayOk(c, t, Erased(t, b, k), b);
  }

  /** Removal from the place of a key, list or tree, takes that key out of the map and no other. */
  lemma EraseKeeps<K(!new), V(!new)>(c: Keys<K>, t: Table<K, V>, m: map<K, V>, b: nat, k: K)
    requires TableOk(c, t) && Represents(c, t, m) && k in m && b < |t| && Belongs(c, t, b, k)
    ensures TableOk(c, Erased(t, b, k)) && Represents(c, Erased(t, b, k), m - {k})
  {
    var u := Erased(t, b, k);
    var home := BucketOf(c, k, |t|);
    ErasedAt(c, t, b, k, home);
    assert EntryOk(c, t, b) && EntryOk(c, t, home);
    assert Item(k, m[k]) in t[b].Nodes();
    EraseIsOk(c, t, b, k);
    WithoutHas(t[b].nodes, k);
    forall d: nat, x | d < |u| && x in u[d].Nodes()
      ensures x.key in m - {k} && m[x.key] == x.value
    {
      ErasedAt(c, t, b, k, d);
      if x.key == k {
        KeyIsAtHome(c, t, d, x);
      }
    }
    forall j | j in m - {k}
      ensures Item(j, m[j]) in u[BucketOf(c, j, |u|)].Nodes()
    {
      ErasedAt(c, t, b, k, BucketOf(c, j, |t|));
    }
  }

  lemma KeyIsAtHome<K(!new), V(!new)>(c: Keys<K>, t: Table<K, V>, d: nat, x: Item<K, V>)
    requires TableOk(c, t) && d < |t| && x in t[d].Nodes()
    ensures t[BucketOf(c, x.key, |t|)] == t[d]
    ensures d == BucketOf(c, x.key, |t|) || (t[d].Tree? && Partner(d) == BucketOf(c, x.key, |t|))
  {
    assert EntryOk(c, t, d);
  }

  /** Only one bucket has to be searched for a key. */
  lemma KeyIsInItsBucket<K(!new), V(!new)>(c: Keys<K>, t: Table<K, V>, m: map<K, V>, k: K)
    requires TableOk(c, t) && Represents(c, t, m)
    ensures var e := t[BucketOf(c, k, |t|)];
            && (k in m <==> !Lacks(e.Nodes(), k))
            && (forall x :: x in e.Nodes() && x.key == k ==> x == Item(k, m[k]))
            && (e.Tree? ==> Sorted(c, e.nodes) && t[Canonical(t, BucketOf(c, k, |t|))] == e)
  {
    assert EntryOk(c, t, BucketOf(c, k, |t|));
  }

  // ----- the order in which iterators pass the nodes

  /** A tree is passed once for both of its buckets. */
  function NextBucket<K, V>(t: Table<K, V>, b: nat): nat
    requires b < |t|
  {
    if t[b].Tree? then b + 2 else b + 1
  }

  ghost function OrderFrom<K, V>(t: Table<K, V>, b: nat): seq<Item<K, V>>
    decreases |t| - b
  {
    if b >= |t| then [] else t[b].Nodes() + OrderFrom(t, NextBucket(t, b))
  }

  /** `b` is not the second bucket of a tree. */
  ghost predicate Boundary<K, V>(t: Table<K, V>, b: nat) {
    b <= |t| && (b < |t| && b % 2 == 1 ==> !t[b].Tree?)
  }

  lemma NextIsBoundary<K(!new), V(!new)>(c: Keys<K>, t: Table<K, V>, b: nat)
    requires TableOk(c, t) && b < |t| && Boundary(t, b)
    ensures Boundary(t, NextBucket(t, b))
  {
    if b + 1 < |t| {
      assert EntryOk(c, t, b + 1);
    }
    if b + 2 < |t| {
      assert EntryOk(c, t, b + 2);
    }
  }

  lemma {:induction false} OrderIsSound<K(!new), V(!new)>(c: Keys<K>, t: Table<K, V>, b: nat)
    requires TableOk(c, t) && Boundary(t, b)
    ensures forall x :: x in OrderFrom(t, b) ==>
              BucketOf(c, x.key, |t|) >= b && x in t[BucketOf(c, x.key, |t|)].Nodes()
    decreases |t| - b
  {
    if b < |t| {
      NextIsBoundary(c, t, b);
      OrderIsSound(c, t, NextBucket(t, b));
      forall x | x in t[b].Nodes()
        ensures BucketOf(c, x.key, |t|) >= b && x in t[BucketOf(c, x.key, |t|)].Nodes()
      {
        KeyIsAtHome(c, t, b, x);
      }
    }
  }

  lemma {:induction false} OrderIsComplete<K(!new), V(!new)>(
      c: Keys<K>, t: Table<K, V>, b: nat, d: nat, x: Item<K, V>)
    requires TableOk(c, t) && Boundary(t, b) && b <= d < |t| && x in t[d].Nodes()
    ensures x in OrderFrom(t, b)
    decreases |t| - b
  {
    if b < d && !(t[b].Tree? && d == b + 1) {
      NextIsBoundary(c, t, b);
      OrderIsComplete(c, t, NextBucket(t, b), d, x);
    } else {
      assert EntryOk(c, t, b);
    }
  }

  lemma {:induction false} DistinctConcat<K(!new), V(!new)>(a: seq<Item<K, V>>, b: seq<Item<K, V>>)
    requires Distinct(a) && Distinct(b) && NoCommonKey(a, b)
    ensures Distinct(a + b)
  {
    if a == [] {
      assert a + b == b;
    } else {
      FirstAndRest(a);
      DistinctConcat(a[1..], b);
      assert (a + b)[1..] == a[1..] + b;
    }
  }

  lemma {:induction false} OrderIsDistinct<K(!new), V(!new)>(c: Keys<K>, t: Table<K, V>, b: nat)
    requires TableOk(c, t) && Boundary(t, b)
    ensures Distinct(OrderFrom(t, b))
    decreases |t| - b
  {
    if b < |t| {
      var next := NextBucket(t, b);
      NextIsBoundary(c, t, b);
      OrderIsDistinct(c, t, next);
      OrderIsSound(c, t, next);
      assert EntryOk(c, t, b);
      forall y | y in t[b].Nodes()
        ensures BucketOf(c, y.key, |t|) < next
      {
        KeyIsAtHome(c, t, b, y);
      }
      DistinctConcat(t[b].Nodes(), OrderFrom(t, next));
    }
  }

  function AsMap<K, V>(s: seq<Item<K, V>>): map<K, V> {
    if s == [] then map[] else AsMap(s[1..])[s[0].key := s[0].value]
  }

  /** The nodes `s` are exactly the entries of `m`. */
  ghost predicate Lists<K, V>(s: seq<Item<K, V>>, m: map<K, V>) {
    && (forall x :: x in s ==> x.key in m && m[x.key] == x.value)
    && (forall k :: k in m ==> Item(k, m[k]) in s)
  }

  lemma RestLists<K(!new), V(!new)>(s: seq<Item<K, V>>, m: map<K, V>)
    requires s != [] && Distinct(s) && Lists(s, m)
    ensures Lists(s[1..], m - {s[0].key})
  {
    FirstAndRest(s);
  }

  lemma {:induction false} AsMapIs<K(!new), V(!new)>(s: seq<Item<K, V>>, m: map<K, V>)
    requires Distinct(s) && Lists(s, m)
    ensures AsMap(s) == m && |s| == |m|
  {
    if s == [] {
      assert m == map[];
    } else {
      var k := s[0].key;
      assert s[0] in s;
      RestLists(s, m);
      AsMapIs(s[1..], m - {k});
      assert m == (m - {k})[k := m[k]];
    }
  }

  lemma OrderIsListed<K(!new), V(!new)>(c: Keys<K>, t: Table<K, V>, m: map<K, V>)
    requires TableOk(c, t) && Represents(c, t, m)
    ensures Lists(OrderFrom(t, 0), m)
  {
    OrderIsSound(c, t, 0);
    forall k | k in m
      ensures Item(k, m[k]) in OrderFrom(t, 0)
    {
      OrderIsComplete(c, t, 0, BucketOf(c, k, |t|), Item(k, m[k]));
    }
  }

  /** The iteration order lists every entry of the map exactly once. */
  lemma OrderIsMap<K(!new), V(!new)>(c: Keys<K>, t: Table<K, V>, m: map<K, V>)
    requires TableOk(c, t) && Represents(c, t, m)
    ensures Distinct(OrderFrom(t, 0)) && AsMap(OrderFrom(t, 0)) == m && |OrderFrom(t, 0)| == |m|
  {
    OrderIsListed(c, t, m);
    OrderIsDistinct(c, t, 0);
    AsMapIs(OrderFrom(t, 0), m);
  }

  /** `o` occurs in the iteration order after `d` other nodes. */
  ghost predicate SuffixAt<K, V>(all: seq<Item<K, V>>, d: nat, o: seq<Item<K, V>>) {
    d <= |all| && all[d..] == o
  }

  lemma NextStaysBelow<K(!new), V(!new)>(c: Keys<K>, t: Table<K, V>, b: nat, e: nat)
    requires TableOk(c, t) && Boundary(t, b) && Boundary(t, e) && b < e
    ensures NextBucket(t, b) <= e
  {
    assert EntryOk(c, t, b);
  }

  lemma LongerPrefix<K(!new), V(!new)>(s: seq<Item<K, V>>, all: seq<Item<K, V>>, d: nat, o: seq<Item<K, V>>)
    requires SuffixAt(all, d, o)
    ensures SuffixAt(s + all, |s| + d, o)
  {
  }

  lemma {:induction false} OrderSplits<K(!new), V(!new)>(c: Keys<K>, t: Table<K, V>, b: nat, e: nat) returns (d: nat)
    requires TableOk(c, t) && Boundary(t, b) && Boundary(t, e) && b <= e
    ensures SuffixAt(OrderFrom(t, b), d, OrderFrom(t, e))
    decreases e - b
  {
    if b == e {
      d := 0;
    } else {
      var next := NextBucket(t, b);
      NextIsBoundary(c, t, b);
      NextStaysBelow(c, t, b, e);
      d := OrderSplits(c, t, next, e);
      LongerPrefix(t[b].Nodes(), OrderFrom(t, next), d, OrderFrom(t, e));
      d := |t[b].Nodes()| + d;
    }
  }

  // ----- the first non-null entry

  ghost predicate FirstNonNull<K, V>(t: Table<K, V>, f: nat) {
    && f <= |t|
    && (forall b :: 0 <= b < f ==> t[b].Null?)
    && (f < |t| ==> !t[f].Null?)
  }

  lemma InsertedAt<K(!new), V(!new)>(c: Keys<K>, t: Table<K, V>, b: nat, x: Item<K, V>, d: nat)
    requires TableOk(c, t) && b < |t| && d < |t|
    ensures var u := InsertedUnique(c, t, b, x);
            && (d == b ==> !u[d].Null?)
            && (d == Partner(b) && u[b].Tree? ==> u[d] == u[b])
            && (d != b && !(d == Partner(b) && u[b].Tree?) ==> u[d] == t[d])
            && (u[b].Tree? && !t[b].Tree? ==> t[b].List? && |t[b].nodes| >= MAX_LENGTH)
  {
    assert EntryOk(c, t, b);
  }

  lemma InsertMovesFirst<K(!new), V(!new)>(c: Keys<K>, t: Table<K, V>, b: nat, x: Item<K, V>, f: nat)
    requires TableOk(c, t) && b < |t| && FirstNonNull(t, f)
    ensures var u := InsertedUnique(c, t, b, x);
            FirstNonNull(u, if Canonical(u, b) < f then Canonical(u, b) else f)
    ensures t[b].Tree? || (t[b].List? && |t[b].nodes| < MAX_LENGTH) ==>
              f <= Canonical(InsertedUnique(c, t, b, x), b)
  {
    assert EntryOk(c, t, b);
    forall d: nat | d < |t|
      ensures var u := InsertedUnique(c, t, b, x);
              d != b && !(d == Partner(b) && u[b].Tree?) ==> u[d] == t[d]
    {
      InsertedAt(c, t, b, x, d);
    }
    InsertedAt(c, t, b, x, b);
    InsertedAt(c, t, b, x, Partner(b));
    if f < |t| {
      InsertedAt(c, t, b, x, f);
    }
  }

  /** The first non-null entry only moves if it is the one erased from, and then only upwards. */
  lemma EraseMovesFirst<K(!new), V(!new)>(c: Keys<K>, t: Table<K, V>, b: nat, k: K, f: nat)
    requires TableOk(c, t) && b < |t| && !t[b].Null? && b == Canonical(t, b) && FirstNonNull(t, f)
    ensures var u := Erased(t, b, k);
            && f < |t| && (forall d :: 0 <= d < f ==> u[d].Null?)
            && (b != f ==> FirstNonNull(u, f))
  {
    assert EntryOk(c, t, b);
    forall d: nat | d <= f < |t|
      ensures d == b || Erased(t, b, k)[d] == t[d]
    {
      ErasedAt(c, t, b, k, d);
    }
  }

  // ----- a new table

  function EmptyTable<K, V>(n: nat): Table<K, V> {
    seq(n, _ => Null)
  }

  function Reinserted<K, V>(c: Keys<K>, t: Table<K, V>, s: seq<Item<K, V>>): (u: Table<K, V>)
    requires |t| > 0 && |t| % 2 == 0
    ensures |u| == |t|
    decreases s
  {
    if s == [] then t else Reinserted(c, InsertedUnique(c, t, BucketOf(c, s[0].key, |t|), s[0]), s[1..])
  }

  lemma ConcatParts<K(!new), V(!new)>(a: seq<Item<K, V>>, b: seq<Item<K, V>>)
    requires a != []
    ensures a + b != [] && (a + b)[0] == a[0] && (a + b)[1..] == a[1..] + b
  {
  }

  lemma {:induction false} ReinsertedInTwo<K(!new), V(!new)>(
      c: Keys<K>, t: Table<K, V>, a: seq<Item<K, V>>, b: seq<Item<K, V>>)
    requires |t| > 0 && |t| % 2 == 0
    ensures Reinserted(c, t, a + b) == Reinserted(c, Reinserted(c, t, a), b)
    decreases a
  {
    if a == [] {
      assert a + b == b;
    } else {
      ConcatParts(a, b);
      ReinsertedInTwo(c, InsertedUnique(c, t, BucketOf(c, a[0].key, |t|), a[0]), a[1..], b);
    }
  }

  ghost predicate NewKeys<K, V>(s: seq<Item<K, V>>, m: map<K, V>) {
    forall x :: x in s ==> x.key !in m
  }

  /** Putting nodes with new keys into a table one by one adds them all, in lists and trees alike. */
  lemma {:induction false} ReinsertKeeps<K(!new), V(!new)>(
      c: Keys<K>, t: Table<K, V>, m: map<K, V>, s: seq<Item<K, V>>)
    requires StrictOrder(c.less) && TableOk(c, t) && Represents(c, t, m)
    requires Distinct(s) && NewKeys(s, m)
    ensures TableOk(c, Reinserted(c, t, s)) && Represents(c, Reinserted(c, t, s), m + AsMap(s))
    decreases s
  {
    if s == [] {
      assert m + map[] == m;
    } else {
      FirstAndRest(s);
      var b := BucketOf(c, s[0].key, |t|);
      InsertKeeps(c, t, m, b, s[0]);
      ReinsertKeeps(c, InsertedUnique(c, t, b, s[0]), m[s[0].key := s[0].value], s[1..]);
      AddFirst(m, s);
    }
  }

  lemma {:induction false} AsMapKeys<K(!new), V(!new)>(s: seq<Item<K, V>>)
    ensures forall k :: k in AsMap(s) ==> exists x :: x in s && x.key == k
  {
    if s != [] {
      FirstAndRest(s);
      AsMapKeys(s[1..]);
    }
  }

  lemma AddFirst<K(!new), V(!new)>(m: map<K, V>, s: seq<Item<K, V>>)
    requires s != [] && Distinct(s)
    ensures m[s[0].key := s[0].value] + AsMap(s[1..]) == m + AsMap(s)
  {
    AsMapKeys(s[1..]);
    assert s[0].key !in AsMap(s[1..]);
  }

  lemma EmptyIsOk<K(!new), V(!new)>(c: Keys<K>, n: nat)
    requires n > 0 && n % 2 == 0
    ensures TableOk(c, EmptyTable<K, V>(n)) && Represents(c, EmptyTable<K, V>(n), map[])
  {
    var t := EmptyTable<K, V>(n);
    forall b: nat | b < n
      ensures EntryOk(c, t, b)
    {
      assert t[b] == Null;
    }
  }

  /** A table rebuilt in any size holds the same map. */
  lemma RebuiltKeepsMap<K(!new), V(!new)>(c: Keys<K>, t: Table<K, V>, m: map<K, V>, n: nat)
    requires StrictOrder(c.less) && TableOk(c, t) && Represents(c, t, m) && n > 0 && n % 2 == 0
    ensures TableOk(c, Reinserted(c, EmptyTable(n), OrderFrom(t, 0)))
    ensures Represents(c, Reinserted(c, EmptyTable(n), OrderFrom(t, 0)), m)
  {
    var s := OrderFrom(t, 0);
    OrderIsMap(c, t, m);
    EmptyIsOk<K, V>(c, n);
    assert map[] + m == m;
    ReinsertKeeps(c, EmptyTable(n), map[], s);
  }

  lemma {:induction false} OrderFromFirst<K(!new), V(!new)>(c: Keys<K>, t: Table<K, V>, f: nat, b: nat)
    requires TableOk(c, t) && FirstNonNull(t, f) && b <= f
    ensures OrderFrom(t, b) == OrderFrom(t, f) && Boundary(t, f)
    decreases f - b
  {
    if b < f {
      OrderFromFirst(c, t, f, b + 1);
    } else if 0 < f < |t| {
      assert EntryOk(c, t, f);
    }
  }

  // ----- the successor of a node

  function First<K, V>(s: seq<Item<K, V>>): Option<Item<K, V>> {
    if |s| == 0 then None else Some(s[0])
  }

  /** `x` is followed by `next` in `order`, or is its last node. */
  ghost predicate Follows<K, V>(order: seq<Item<K, V>>, x: Item<K, V>, next: Option<Item<K, V>>) {
    exists i :: 0 <= i < |order| && order[i] == x && next == First(order[i + 1..])
  }

  /** The node after `x` in a list. */
  function NextIn<K(==), V(==)>(s: seq<Item<K, V>>, x: Item<K, V>): Option<Item<K, V>> {
    if |s| <= 1 then None else if s[0] == x then Some(s[1]) else NextIn(s[1..], x)
  }

  lemma {:induction false} NextInFollows<K(!new), V(!new)>(s: seq<Item<K, V>>, x: Item<K, V>) returns (i: nat)
    requires x in s
    ensures i < |s| && s[i] == x && NextIn(s, x) == First(s[i + 1..])
  {
    if s[0] == x {
      i := 0;
    } else {
      FirstAndRest(s);
      i := NextInFollows(s[1..], x);
      i := i + 1;
      assert s[i + 1..] == s[1..][i..];
    }
  }

  lemma OrderStep<K(!new), V(!new)>(c: Keys<K>, t: Table<K, V>, b: nat, i: nat)
    requires TableOk(c, t) && b < |t| && Boundary(t, b) && i < |t[b].Nodes()|
    ensures var rest := t[b].Nodes()[i + 1..] + OrderFrom(t, NextBucket(t, b));
            Follows(OrderFrom(t, 0), t[b].Nodes()[i], First(rest))
  {
    var order, s := OrderFrom(t, 0), t[b].Nodes();
    var d := OrderSplits(c, t, 0, b);
    var from := OrderFrom(t, b);
    assert from[i] == s[i] && from[i + 1..] == s[i + 1..] + OrderFrom(t, NextBucket(t, b));
    assert order[d + i] == from[i] && order[d + i + 1..] == from[i + 1..];
  }

  lemma ListFollows<K(!new), V(!new)>(c: Keys<K>, t: Table<K, V>, b: nat, x: Item<K, V>)
    requires TableOk(c, t) && b < |t| && t[b].List? && x in t[b].nodes
    ensures var next := NextIn(t[b].nodes, x);
            Follows(OrderFrom(t, 0), x, if next.Some? then next else First(OrderFrom(t, b + 1)))
    ensures Boundary(t, b + 1)
  {
    var i := NextInFollows(t[b].nodes, x);
    NextIsBoundary(c, t, b);
    OrderStep(c, t, b, i);
  }

  lemma TreeFollows<K(!new), V(!new)>(c: Keys<K>, t: Table<K, V>, b: nat, i: nat)
    requires TableOk(c, t) && b < |t| && t[b].Tree? && b % 2 == 0 && i < |t[b].nodes|
    ensures Follows(OrderFrom(t, 0), t[b].nodes[i],
                    if i + 1 < |t[b].nodes| then Some(t[b].nodes[i + 1]) else First(OrderFrom(t, b + 2)))
    ensures Boundary(t, b + 2)
  {
    NextIsBoundary(c, t, b);
    OrderStep(c, t, b, i);
  }

  lemma RestLacksFirst<K(!new), V(!new)>(s: seq<Item<K, V>>, i: nat)
    requires Distinct(s) && 0 < i < |s|
    ensures s[i].key != s[0].key
  {
    assert s[1..][i - 1] in s[1..];
  }

  lemma {:induction false} DistinctAt<K(!new), V(!new)>(s: seq<Item<K, V>>, i: nat, j: nat)
    requires Distinct(s) && i < |s| && j < |s| && s[i] == s[j]
    ensures i == j
  {
    if i > 0 {
      RestLacksFirst(s, i);
    }
    if j > 0 {
      RestLacksFirst(s, j);
    }
    if i > 0 && j > 0 {
      DistinctAt(s[1..], i - 1, j - 1);
    }
  }

  /** A node has one place in the order, so one successor. */
  lemma FollowsAt<K(!new), V(!new)>(order: seq<Item<K, V>>, i: nat, x: Item<K, V>, next: Option<Item<K, V>>)
    requires Distinct(order) && i < |order| && order[i] == x && Follows(order, x, next)
    ensures next == First(order[i + 1..])
  {
    var j :| 0 <= j < |order| && order[j] == x && next == First(order[j + 1..]);
    DistinctAt(order, i, j);
  }

  /** Removing by position and removing by key are the same. */
  lemma {:induction false} RemovedIsWithout<K(!new), V(!new)>(s: seq<Item<K, V>>, i: nat)
    requires Distinct(s) && i < |s|
    ensures Without(s, s[i].key) == s[..i] + s[i + 1..]
  {
    if i > 0 {
      RestLacksFirst(s, i);
      RemovedIsWithout(s[1..], i - 1);
      assert s[..i] + s[i + 1..] == [s[0]] + (s[1..][..i - 1] + s[1..][i..]);
    }
  }

  lemma EntryOkAt<K(!new), V(!new)>(c: Keys<K>, t: Table<K, V>, b: nat)
    requires TableOk(c, t) && b < |t|
    ensures EntryOk(c, t, b)
  {
  }

  // ----- a table's nodes, bucket by bucket

  /** The nodes of the buckets that are left and the map of those that are done. */
  ghost predicate Remaining<K, V>(done: map<K, V>, rest: seq<Item<K, V>>, m: map<K, V>) {
    Distinct(rest) && NewKeys(rest, done) && done + AsMap(rest) == m
  }

  lemma OneLess<K(!new), V(!new)>(done: map<K, V>, rest: seq<Item<K, V>>, m: map<K, V>)
    requires rest != [] && Remaining(done, rest, m)
    ensures Remaining(done[rest[0].key := rest[0].value], rest[1..], m)
  {
    FirstAndRest(rest);
    AddFirst(done, rest);
  }

  lemma {:induction false} PartsAreDistinct<K(!new), V(!new)>(a: seq<Item<K, V>>, b: seq<Item<K, V>>)
    requires Distinct(a + b)
    ensures Distinct(a) && Distinct(b) && NoCommonKey(a, b)
  {
    if a == [] {
      assert a + b == b;
    } else {
      assert (a + b)[1..] == a[1..] + b;
      PartsAreDistinct(a[1..], b);
      FirstAndRest(a);
      assert forall x :: x in b ==> x in (a + b)[1..];
    }
  }

  lemma {:induction false} OneBucketLess<K(!new), V(!new)>(
      done: map<K, V>, a: seq<Item<K, V>>, b: seq<Item<K, V>>, m: map<K, V>)
    requires Remaining(done, a + b, m)
    ensures Remaining(done + AsMap(a), b, m)
    decreases a
  {
    if a == [] {
      assert a + b == b && done + map[] == done;
    } else {
      var all := a + b;
      assert all[1..] == a[1..] + b && all[0] == a[0];
      OneLess(done, all, m);
      OneBucketLess(done[a[0].key := a[0].value], a[1..], b, m);
      PartsAreDistinct(a, b);
      AddFirst(done, a);
    }
  }

  lemma OneBucketTurn<K(!new), V(!new)>(done: map<K, V>, a: seq<Item<K, V>>, b: seq<Item<K, V>>, m: map<K, V>)
    requires Remaining(done, a + b, m)
    ensures Remaining(done, a, done + AsMap(a)) && Remaining(done + AsMap(a), b, m)
    ensures a == [] ==> done + AsMap(a) == done
  {
    PartsAreDistinct(a, b);
    OneBucketLess(done, a, b, m);
  }

  // ----- clearing

  /** The table `t` while it is being cleared. */
  ghost predicate ClearedUpTo<K, V>(t: Table<K, V>, u: Table<K, V>, b: nat) {
    && |u| == |t|
    && (forall d :: 0 <= d < b && d < |u| ==> u[d].Null?)
    && (forall d :: b <= d < |u| ==> u[d] == t[d])
  }

  /** Half of a pair may be gone already; the tests are right all the same. */
  lemma ClearTests<K(!new), V(!new)>(c: Keys<K>, t: Table<K, V>, u: Table<K, V>, b: nat)
    requires TableOk(c, t) && b < |t| && Boundary(t, b) && ClearedUpTo(t, u, b)
    ensures EntryIsNonEmptyList(u, b) <==> t[b].List?
    ensures EntryIsTree(u, b) <==> t[b].Tree?
    ensures t[b].Tree? ==> b + 1 < |t|
  {
    TestsAreRight(c, t, b);
    assert EntryOk(c, t, b);
  }

  lemma ClearedIsEmpty<K(!new), V(!new)>(t: Table<K, V>, u: Table<K, V>)
    requires ClearedUpTo(t, u, |t|)
    ensures u == EmptyTable(|t|)
  {
  }

  // ----- removal leaves the order of the others alone

  lemma Prepended<K(!new), V(!new)>(x: Item<K, V>, r: seq<Item<K, V>>, b: seq<Item<K, V>>)
    ensures [x] + (r + b) == ([x] + r) + b
  {
  }

  lemma {:induction false} WithoutSkips<K(!new), V(!new)>(a: seq<Item<K, V>>, b: seq<Item<K, V>>, k: K)
    requires Lacks(a, k)
    ensures Without(a + b, k) == a + Without(b, k)
  {
    if a == [] {
      assert a + b == b;
    } else {
      FirstAndRest(a);
      ConcatParts(a, b);
      WithoutSkips(a[1..], b, k);
      Prepended(a[0], a[1..], Without(b, k));
      assert a == [a[0]] + a[1..];
    }
  }

  lemma {:induction false} WithoutInFront<K(!new), V(!new)>(a: seq<Item<K, V>>, b: seq<Item<K, V>>, k: K)
    requires !Lacks(a, k)
    ensures Without(a + b, k) == Without(a, k) + b
  {
    FirstAndRest(a);
    ConcatParts(a, b);
    if a[0].key != k {
      WithoutInFront(a[1..], b, k);
      Prepended(a[0], Without(a[1..], k), b);
    }
  }

  lemma {:induction false} SameOrder<K(!new), V(!new)>(t: Table<K, V>, u: Table<K, V>, i: nat)
    requires |u| == |t| && forall d :: i <= d < |t| ==> u[d] == t[d]
    ensures OrderFrom(u, i) == OrderFrom(t, i)
    decreases |t| - i
  {
    if i < |t| {
      SameOrder(t, u, NextBucket(t, i));
    }
  }

  lemma RestUnchanged<K(!new), V(!new)>(c: Keys<K>, t: Table<K, V>, b: nat, k: K)
    requires TableOk(c, t) && b < |t| && Boundary(t, b)
    ensures OrderFrom(Erased(t, b, k), NextBucket(t, b)) == OrderFrom(t, NextBucket(t, b))
    ensures Erased(t, b, k)[b] == EntryWithout(t[b], k)
    ensures t[b].Tree? ==> b + 1 < |t| && Erased(t, b, k)[b + 1] == EntryWithout(t[b], k)
  {
    assert EntryOk(c, t, b);
    var next := NextBucket(t, b);
    forall d | next <= d < |t|
      ensures Erased(t, b, k)[d] == t[d]
    {
      ErasedAt(c, t, b, k, d);
    }
    SameOrder(t, Erased(t, b, k), next);
  }

  lemma TurnOf<K(!new), V(!new)>(u: Table<K, V>, b: nat, tree: bool)
    requires b < |u| && (tree ==> b + 1 < |u| && u[b + 1] == u[b]) && (tree ==> !u[b].List?) && (!tree ==> !u[b].Tree?)
    ensures OrderFrom(u, b) == u[b].Nodes() + OrderFrom(u, if tree then b + 2 else b + 1)
  {
    if tree && u[b].Null? {
      assert OrderFrom(u, b + 1) == OrderFrom(u, b + 2);
    }
  }

  /** The turn of the order in which the erased node is passed. */
  lemma ErasedTurn<K(!new), V(!new)>(c: Keys<K>, t: Table<K, V>, b: nat, k: K)
    requires TableOk(c, t) && b < |t| && Boundary(t, b) && !Lacks(t[b].Nodes(), k)
    ensures OrderFrom(Erased(t, b, k), b) == Without(OrderFrom(t, b), k)
  {
    RestUnchanged(c, t, b, k);
    TurnOf(Erased(t, b, k), b, t[b].Tree?);
    WithoutInFront(t[b].Nodes(), OrderFrom(t, NextBucket(t, b)), k);
  }

  lemma {:induction false} EraseKeepsOrder<K(!new), V(!new)>(c: Keys<K>, t: Table<K, V>, b: nat, k: K, i: nat)
    requires TableOk(c, t) && b < |t| && Boundary(t, b) && Boundary(t, i) && i <= b
    requires !Lacks(t[b].Nodes(), k)
    ensures OrderFrom(Erased(t, b, k), i) == Without(OrderFrom(t, i), k)
    decreases b - i
  {
    if i == b {
      ErasedTurn(c, t, b, k);
    } else {
      var next := NextBucket(t, i);
      NextIsBoundary(c, t, i);
      NextStaysBelow(c, t, i, b);
      EraseKeepsOrder(c, t, b, k, next);
      ErasedAt(c, t, b, k, i);
      KeyIsElsewhere(c, t, b, k, i);
      WithoutSkips(t[i].Nodes(), OrderFrom(t, next), k);
    }
  }

  lemma KeyIsElsewhere<K(!new), V(!new)>(c: Keys<K>, t: Table<K, V>, b: nat, k: K, i: nat)
    requires TableOk(c, t) && b < |t| && i < b && NextBucket(t, i) <= b && !Lacks(t[b].Nodes(), k)
    requires Boundary(t, b) && Boundary(t, i)
    ensures Lacks(t[i].Nodes(), k) && i != b && !(t[b].Tree? && i == Partner(b))
  {
    var x :| x in t[b].Nodes() && x.key == k;
    KeyIsAtHome(c, t, b, x);
    forall y | y in t[i].Nodes()
      ensures y.key != k
    {
      KeyIsAtHome(c, t, i, y);
    }
  }

  // ----- cutting a range out of the order

  /** Where two suffixes of an order begin with the same node, or both end, they are one. */
  lemma SameFirst<K(!new), V(!new)>(order: seq<Item<K, V>>, k: nat, j: nat)
    requires Distinct(order) && k <= |order| && j <= |order|
    ensures First(order[k..]) == First(order[j..]) <==> k == j
  {
    if k < |order| && j < |order| && order[k] == order[j] {
      DistinctAt(order, k, j);
    }
  }

  lemma OneMoreVisited<K(!new), V(!new)>(order: seq<Item<K, V>>, k: nat)
    requires k <= |order| && First(order[k..]).Some?
    ensures k < |order| && First(order[k..]).value == order[k] && order[..k] + [order[k]] == order[..k + 1]
  {
  }

  /** The order without the nodes from `i` to `k`. */
  ghost function Cut<K, V>(order: seq<Item<K, V>>, i: nat, k: nat): seq<Item<K, V>>
    requires i <= k <= |order|
  {
    order[..i] + order[k..]
  }

  lemma CutNothing<K(!new), V(!new)>(order: seq<Item<K, V>>, i: nat)
    requires i <= |order|
    ensures Cut(order, i, i) == order
  {
  }

  lemma CutOneMore<K(!new), V(!new)>(order: seq<Item<K, V>>, i: nat, k: nat)
    requires i <= k < |order|
    ensures i < |Cut(order, i, k)| && Cut(order, i, k)[i] == order[k]
    ensures Cut(Cut(order, i, k), i, i + 1) == Cut(order, i, k + 1)
    ensures Cut(order, i, k)[i + 1..] == order[k + 1..]
  {
  }

  // ----- how many nodes and trees there are

  /** The trees from bucket `b` on, each counted at the first of its two buckets. */
  ghost function TreesFrom<K, V>(t: Table<K, V>, b: nat): nat
    decreases |t| - b
  {
    if b >= |t| then 0 else (if b % 2 == 0 && t[b].Tree? then 1 else 0) + TreesFrom(t, b + 1)
  }

  /** One turn of a loop over the buckets passes one tree or none. */
  lemma TreesPassed<K(!new), V(!new)>(c: Keys<K>, t: Table<K, V>, b: nat)
    requires TableOk(c, t) && b < |t| && Boundary(t, b)
    ensures TreesFrom(t, b) == (if t[b].Tree? then 1 else 0) + TreesFrom(t, NextBucket(t, b))
  {
    assert EntryOk(c, t, b);
  }

  lemma {:induction false} TreesFromFirst<K(!new), V(!new)>(t: Table<K, V>, f: nat, b: nat)
    requires FirstNonNull(t, f) && b <= f
    ensures TreesFrom(t, b) == TreesFrom(t, f)
    decreases f - b
  {
    if b < f {
      TreesFromFirst(t, f, b + 1);
    }
  }

  lemma {:induction false} NoTrees<K(!new), V(!new)>(n: nat, b: nat)
    ensures TreesFrom(EmptyTable<K, V>(n), b) == 0
    decreases n - b
  {
    if b < n {
      NoTrees<K, V>(n, b + 1);
    }
  }

  /** A change in one pair of buckets changes the number of trees by what it does to the pair. */
  lemma {:induction false} TreesChange<K(!new), V(!new)>(t: Table<K, V>, u: Table<K, V>, e: nat, b: nat)
    requires |u| == |t| && e < |t| && e % 2 == 0
    requires forall d: nat :: d < |t| && d % 2 == 0 && d != e ==> u[d].Tree? == t[d].Tree?
    ensures b <= e ==> TreesFrom(u, b) + (if t[e].Tree? then 1 else 0) == TreesFrom(t, b) + if u[e].Tree? then 1 else 0
    ensures b > e ==> TreesFrom(u, b) == TreesFrom(t, b)
    decreases |t| - b
  {
    if b < |t| {
      TreesChange(t, u, e, b + 1);
    }
  }

  /** The trees that an insertion in entry `b` makes. */
  function NewTrees<K, V>(t: Table<K, V>, b: nat): nat
    requires b < |t|
  {
    if t[b].List? && |t[b].nodes| >= MAX_LENGTH then 1 else 0
  }

  lemma InsertedKind<K(!new), V(!new)>(c: Keys<K>, t: Table<K, V>, b: nat, x: Item<K, V>)
    requires TableOk(c, t) && b < |t|
    ensures InsertedUnique(c, t, b, x)[b].Tree? <==> t[b].Tree? || NewTrees(t, b) == 1
  {
    assert EntryOk(c, t, b);
  }

  /** `u` differs from `t` in entry `b`, and in its partner only if that shares a tree with it. */
  ghost predicate ChangedAt<K, V>(t: Table<K, V>, u: Table<K, V>, b: nat, d: nat)
    requires b < |t| == |u| && d < |t|
  {
    && (d == Partner(b) && u[b].Tree? ==> u[d] == u[b])
    && (d != b && !(d == Partner(b) && u[b].Tree?) ==> u[d] == t[d])
  }

  lemma ChangeMakesTrees<K(!new), V(!new)>(c: Keys<K>, t: Table<K, V>, u: Table<K, V>, b: nat)
    requires TableOk(c, t) && b < |t| == |u|
    requires forall d: nat :: d < |t| ==> ChangedAt(t, u, b, d)
    requires u[b].Tree? <==> t[b].Tree? || NewTrees(t, b) == 1
    ensures TreesFrom(u, 0) == TreesFrom(t, 0) + NewTrees(t, b)
  {
    var e := b - b % 2;
    assert EntryOk(c, t, b) && EntryOk(c, t, e);
    assert ChangedAt(t, u, b, e);
    forall d: nat | d < |t| && d % 2 == 0 && d != e
      ensures u[d].Tree? == t[d].Tree?
    {
      assert ChangedAt(t, u, b, d);
    }
    TreesChange(t, u, e, 0);
  }

  lemma InsertMakesTrees<K(!new), V(!new)>(c: Keys<K>, t: Table<K, V>, b: nat, x: Item<K, V>)
    requires TableOk(c, t) && b < |t|
    ensures TreesFrom(InsertedUnique(c, t, b, x), 0) == TreesFrom(t, 0) + NewTrees(t, b)
  {
    var u := InsertedUnique(c, t, b, x);
    InsertedKind(c, t, b, x);
    forall d: nat | d < |t|
      ensures ChangedAt(t, u, b, d)
    {
      InsertedAt(c, t, b, x, d);
    }
    ChangeMakesTrees(c, t, u, b);
  }

  lemma EraseEndsTrees<K(!new), V(!new)>(c: Keys<K>, t: Table<K, V>, b: nat, k: K)
    requires TableOk(c, t) && b < |t| && !t[b].Null?
    ensures TreesFrom(Erased(t, b, k), 0) + (if t[b].Tree? && Erased(t, b, k)[b].Null? then 1 else 0) == TreesFrom(t, 0)
  {
    var u, e := Erased(t, b, k), b - b % 2;
    assert EntryOk(c, t, b) && EntryOk(c, t, Partner(b));
    ErasedAt(c, t, b, k, b);
    ErasedAt(c, t, b, k, e);
    forall d: nat | d < |t| && d % 2 == 0 && d != e
      ensures u[d].Tree? == t[d].Tree?
    {
      ErasedAt(c, t, b, k, d);
    }
    TreesChange(t, u, e, 0);
  }

  /** The nodes that the entries of a map take. */
  ghost function NodesOf<K, V>(m: map<K, V>): multiset<Item<K, V>> {
    multiset(set k | k in m :: Item(k, m[k]))
  }

  lemma NodesOfAdded<K(!new), V(!new)>(m: map<K, V>, x: Item<K, V>)
    requires x.key !in m
    ensures NodesOf(m[x.key := x.value]) == NodesOf(m) + multiset{x}
  {
    var n := m[x.key := x.value];
    var before := set k | k in m :: Item(k, m[k]);
    var after := set k | k in n :: Item(k, n[k]);
    assert x.key in n && Item(x.key, n[x.key]) == x;
    forall y | y in before
      ensures y in after && y != x
    {
      assert y.key in n && Item(y.key, n[y.key]) == y;
    }
    assert after == before + {x};
  }

  lemma NodesOfRemoved<K(!new), V(!new)>(m: map<K, V>, x: Item<K, V>)
    requires x.key in m && m[x.key] == x.value
    ensures NodesOf(m) == NodesOf(m - {x.key}) + multiset{x}
  {
    NodesOfAdded(m - {x.key}, x);
    assert m == (m - {x.key})[x.key := x.value];
  }

  lemma {:induction false} NodesListed<K(!new), V(!new)>(s: seq<Item<K, V>>, m: map<K, V>)
    requires Distinct(s) && Lists(s, m)
    ensures multiset(s) == NodesOf(m)
  {
    if s == [] {
      assert m == map[];
    } else {
      assert s[0] in s && s == [s[0]] + s[1..];
      RestLists(s, m);
      NodesListed(s[1..], m - {s[0].key});
      NodesOfRemoved(m, s[0]);
    }
  }

  /** The table has exactly one node for every entry of the map. */
  lemma OrderHasNodes<K(!new), V(!new)>(c: Keys<K>, t: Table<K, V>, m: map<K, V>)
    requires TableOk(c, t) && Represents(c, t, m)
    ensures multiset(OrderFrom(t, 0)) == NodesOf(m)
  {
    OrderIsListed(c, t, m);
    OrderIsDistinct(c, t, 0);
    NodesListed(OrderFrom(t, 0), m);
  }
}
