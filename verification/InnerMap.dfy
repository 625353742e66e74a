/**
  `Map::InnerMap`: the class over the table of `MapTables`, method by method.

  A linked-list node is named by its key and value: the node that an iterator points to is the
  one with that key, wherever other operations have moved it.
 */
module InnerMaps {
  import opened Bits
  import opened MapLoads
  import opened MapTables
  import opened Options

  lemma MaskIsMod(h: nat, n: nat)
    requires IsTableSize(n)
    ensures And(h, n - 1) == h % n < n
  {
    var j: nat :| n == Pow2(j);
    LowMaskTakesRemainder(h, j);
  }

  lemma TableSizeIsEven(n: nat)
    requires IsTableSize(n)
    ensures n % 2 == 0
  {
    var j: nat :| n == Pow2(j);
  }

  /** Walks a list up to the node with key `k`. */
  method SearchList<K(==, !new), V>(nodes: seq<Item<K, V>>, k: K) returns (i: nat)
    ensures i <= |nodes|
    ensures if i < |nodes| then nodes[i].key == k else Lacks(nodes, k)
  {
    i := 0;
    while i < |nodes|
      invariant i <= |nodes| && forall j :: 0 <= j < i ==> nodes[j].key != k
    {
      if nodes[i].key == k {
        return;
      }
      i := i + 1;
    }
  }

  datatype Iter<K, V> = End | At(node: Item<K, V>, bucket: nat, treeIt: nat)
  {
    function Node(): Option<Item<K, V>> {
      if At? then Some(node) else None
    }
  }

  class InnerMap<K(==,!new), V(==,!new)> {
    const keys: Keys<K>
    var numElements: nat
    var firstNonNull: nat
    var table: array<Entry<K, V>>
    ghost var contents: map<K, V>
    // What was allocated and destroyed so far.
    ghost var nodesMade: multiset<Item<K, V>>
    ghost var nodesDestroyed: multiset<Item<K, V>>
    ghost var treesMade: nat
    ghost var treesDestroyed: nat

    /** The table holds `m`, whatever `numElements` says. */
    ghost predicate Stores(m: map<K, V>)
      reads this, table
    {
      && StrictOrder(keys.less) && IsTableSize(table.Length) && table.Length % 2 == 0
      && TableOk(keys, table[..]) && Represents(keys, table[..], m) && FirstNonNull(table[..], firstNonNull)
    }

    /** The table holds the contents, however full it is. */
    ghost predicate Sound()
      reads this, table
    {
      Stores(contents) && numElements == |contents|
    }

    /** The trees that are neither in the table nor destroyed. */
    ghost function LostTrees(): int
      reads this, table
    {
      treesMade - treesDestroyed - TreesFrom(table[..], 0)
    }

    /** Every node and every tree ever made is in use or was destroyed, and destroyed only once. */
    ghost predicate Accounted()
      reads this, table
    {
      nodesMade == nodesDestroyed + NodesOf(contents) && LostTrees() == 0
    }

    ghost predicate Valid()
      reads this, table
    {
      Sound() && LoadOk(table.Length, numElements) && Accounted()
    }

    ghost predicate HasNode(x: Item<K, V>)
      reads this
    {
      x.key in contents && contents[x.key] == x.value
    }

    /** Every field of the iterator is right, not only the node. */
    ghost predicate StandsAt(it: Iter<K, V>)
      reads this, table
    {
      && it.At? && it.bucket < table.Length && it.node in table[it.bucket].Nodes()
      && (table[it.bucket].Tree? ==>
            it.bucket % 2 == 0 && it.treeIt < |table[it.bucket].nodes|
            && table[it.bucket].nodes[it.treeIt] == it.node)
    }

    constructor (keys: Keys<K>, n: nat)
      requires StrictOrder(keys.less) && (n < MIN_TABLE_SIZE || IsTableSize(n))
      ensures Valid() && contents == map[] && this.keys == keys && fresh(table)
    {
      var size := if n < MIN_TABLE_SIZE then MIN_TABLE_SIZE else n;
      this.keys := keys;
      numElements, firstNonNull := 0, size;
      table := new Entry[size](_ => Null);
      contents, nodesMade, nodesDestroyed := map[], multiset{}, multiset{};
      treesMade, treesDestroyed := 0, 0;
      new;
      NoTrees<K, V>(size, 0);
      assert MIN_TABLE_SIZE == Pow2(3);
      TableSizeIsEven(size);
      EmptyIsOk<K, V>(keys, size);
      assert table[..] == EmptyTable(size);
    }

    function BucketNumber(k: K): (b: nat)
      requires IsTableSize(table.Length)
      reads this, table
      ensures b == BucketOf(keys, k, table.Length) < table.Length
    {
      MaskIsMod(keys.hash(k), table.Length);
      And(keys.hash(k), table.Length - 1)
    }

    /** `it` is the node of `k` in entry `b`, or there is none and `b` is where it would be. */
    ghost predicate Located(k: K, it: Iter<K, V>, b: nat)
      reads this, table
    {
      && b < table.Length && Belongs(keys, table[..], b, k)
      && if k in contents then StandsAt(it) && it.node == Item(k, contents[k]) && it.bucket == b else it.End?
    }

    method FindInList(k: K, b: nat) returns (it: Iter<K, V>)
      requires Sound() && b < table.Length && b == BucketOf(keys, k, table.Length) && table[b].List?
      ensures Located(k, it, b)
    {
      KeyIsInItsBucket(keys, table[..], contents, k);
      var nodes := table[b].nodes;
      var i := SearchList(nodes, k);
      it := if i < |nodes| then At(nodes[i], b, 0) else End;
    }

    method FindInTree(k: K, b: nat) returns (it: Iter<K, V>)
      requires Sound() && b < table.Length && b == BucketOf(keys, k, table.Length) && table[b].Tree?
      ensures Located(k, it, b - b % 2)
    {
      KeyIsInItsBucket(keys, table[..], contents, k);
      var nodes := table[b].nodes;
      var i := TreeFind(keys, nodes, k);
      TreeFindIsExact(keys, nodes, k);
      it := if i < |nodes| then At(nodes[i], b - b % 2, i) else End;
    }

    /** The node with key `k` if there is one, and the bucket where it is or would have to be. */
    method FindHelper(k: K) returns (it: Iter<K, V>, b: nat)
      requires Sound()
      ensures b < table.Length && Belongs(keys, table[..], b, k)
      ensures if k in contents then StandsAt(it) && it.node == Item(k, contents[k]) && it.bucket == b else it.End?
    {
      b := BucketNumber(k);
      TestsAreRight(keys, table[..], b);
      if EntryIsNonEmptyList(table[..], b) {
        it := FindInList(k, b);
      } else if EntryIsTree(table[..], b) {
        it := FindInTree(k, b);
        b := b - b % 2;
      } else {
        KeyIsInItsBucket(keys, table[..], contents, k);
        it := End;
      }
    }

    /** In traditional style: finds the value of a key. */
    method Find(k: K) returns (it: Iter<K, V>)
      requires Valid()
      ensures if k in contents then StandsAt(it) && it.node == Item(k, contents[k]) else it.End?
    {
      var b;
      it, b := FindHelper(k);
    }

    // ----- insertion

    method InsertUniqueInList(b: nat, x: Item<K, V>) returns (result: Iter<K, V>)
      requires b < table.Length && !table[b].Tree?
      modifies table
      ensures table[..] == AddedToList(old(table[..]), b, x)
      ensures result == At(x, b, 0)
    {
      table[b] := List([x] + table[b].Nodes());
      return At(x, b, 0);
    }

    method InsertUniqueInTree(b: nat, x: Item<K, V>) returns (result: Iter<K, V>)
      requires table.Length % 2 == 0 && b < table.Length && table[b].Tree?
      modifies table
      ensures table[..] == AddedToTree(keys, old(table[..]), b, x)
      ensures result.At? && result.node == x && result.bucket == b - b % 2
      ensures result.treeIt == TreeFind(keys, table[b].nodes, x.key)
    {
      var nodes := TreeInsert(keys, table[b].nodes, x);
      table[b], table[Partner(b)] := Tree(nodes), Tree(nodes);
      return At(x, b - b % 2, TreeFind(keys, nodes, x.key));
    }

    method CopyListToTree(b: nat, tree: seq<Item<K, V>>) returns (copied: seq<Item<K, V>>, count: nat)
      requires b < table.Length
      ensures copied == CopiedToTree(keys, tree, table[b].Nodes()) && count == |table[b].Nodes()|
    {
      var node := table[b].Nodes();
      copied, count := tree, 0;
      while node != []
        invariant CopiedToTree(keys, copied, node) == CopiedToTree(keys, tree, table[b].Nodes())
        invariant count + |node| == |table[b].Nodes()|
        decreases |node|
      {
        copied := TreeInsert(keys, copied, node[0]);
        count := count + 1;
        node := node[1..];
      }
    }

    method TreeConvert(b: nat)
      requires table.Length % 2 == 0 && b < table.Length
      modifies table, `treesMade
      ensures table[..] == TreeConverted(keys, old(table[..]), b) && treesMade == old(treesMade) + 1
    {
      treesMade := treesMade + 1;
      var half, _ := CopyListToTree(b, []);
      var tree, _ := CopyListToTree(Partner(b), half);
      table[b], table[Partner(b)] := Tree(tree), Tree(tree);
    }

    method EntryIsTooLong(b: nat) returns (tooLong: bool)
      requires b < table.Length
      ensures tooLong == (|table[b].Nodes()| >= MAX_LENGTH)
    {
      var node, count := table[b].Nodes(), 0;
      while node != []
        invariant count + |node| == |table[b].Nodes()|
        decreases |node|
      {
        count := count + 1;
        node := node[1..];
      }
      tooLong := count >= MAX_LENGTH;
    }

    /** The entries after an insertion, as in `InsertedUnique`; the first non-null entry is not yet known. */
    method InsertInEntry(b: nat, x: Item<K, V>) returns (result: Iter<K, V>, firstMayMove: bool)
      requires table.Length % 2 == 0 && TableOk(keys, table[..]) && b < table.Length
      modifies table, `treesMade
      ensures table[..] == InsertedUnique(keys, old(table[..]), b, x)
      ensures treesMade == old(treesMade) + NewTrees(old(table[..]), b)
      ensures result.At? && result.node == x && result.bucket == Canonical(table[..], b)
      ensures table[b].Tree? ==> result.treeIt == TreeFind(keys, table[b].nodes, x.key)
      ensures firstMayMove == (old(table[b]).Null? || (old(table[b]).List? && |old(table[b]).nodes| >= MAX_LENGTH))
    {
      TestsAreRight(keys, table[..], b);
      firstMayMove := true;
      if table[b] == Null {
        result := InsertUniqueInList(b, x);
      } else if EntryIsNonEmptyList(table[..], b) {
        var tooLong := EntryIsTooLong(b);
        if tooLong {
          TreeConvert(b);
          result := InsertUniqueInTree(b, x);
        } else {
          result := InsertUniqueInList(b, x);
          firstMayMove := false;
        }
      } else {
        result := InsertUniqueInTree(b, x);
        firstMayMove := false;
      }
    }

    /** Adds a node whose key is not there yet to its bucket, turning an overlong list into a tree. */
    method InsertUnique(b: nat, x: Item<K, V>, ghost m: map<K, V>) returns (result: Iter<K, V>)
      requires Stores(m) && x.key !in m && b < table.Length && Belongs(keys, table[..], b, x.key)
      modifies `firstNonNull, `treesMade, table
      ensures LostTrees() == old(LostTrees())
      ensures Stores(m[x.key := x.value]) && StandsAt(result) && result.node == x
      ensures table[..] == InsertedUnique(keys, old(table[..]), b, x)
    {
      ghost var t := table[..];
      InsertKeeps(keys, t, m, b, x);
      InsertMovesFirst(keys, t, b, x, firstNonNull);
      InsertMakesTrees(keys, t, b, x);
      var firstMayMove;
      result, firstMayMove := InsertInEntry(b, x);
      if firstMayMove && result.bucket < firstNonNull {
        firstNonNull := result.bucket;
      }
      StillBelongs(keys, t, b, x);
      NodeIsFound(keys, table[..], m[x.key := x.value], b, x.key);
    }

    // ----- iteration

    ghost function Order(): seq<Item<K, V>>
      reads this, table
    {
      OrderFrom(table[..], 0)
    }

    /** Advances over empty entries to the first node from `start` on. */
    method SearchFrom(start: nat) returns (it: Iter<K, V>)
      requires Sound() && Boundary(table[..], start)
      ensures it.Node() == First(OrderFrom(table[..], start)) && (it.At? ==> StandsAt(it))
    {
      var b := start;
      while b < table.Length
        invariant Boundary(table[..], b) && OrderFrom(table[..], b) == OrderFrom(table[..], start)
      {
        TestsAreRight(keys, table[..], b);
        assert EntryOk(keys, table[..], b);
        if EntryIsNonEmptyList(table[..], b) {
          return At(table[b].nodes[0], b, 0);
        } else if EntryIsTree(table[..], b) {
          return At(table[b].nodes[0], b, 0);
        }
        NextIsBoundary(keys, table[..], b);
        b := b + 1;
      }
      return End;
    }

    method Begin() returns (it: Iter<K, V>)
      requires Sound()
      ensures it.Node() == First(Order()) && (it.At? ==> StandsAt(it))
    {
      OrderFromFirst(keys, table[..], firstNonNull, 0);
      it := SearchFrom(firstNonNull);
    }

    /** Reads the node's `next` pointer, which is null in the last node of a list and in every node of a tree. */
    method NodeNext(x: Item<K, V>) returns (next: Option<Item<K, V>>)
      requires Sound() && HasNode(x)
      ensures next.Some? ==> Follows(Order(), x, next)
      ensures next.None? ==> EndsItsList(x, BucketOf(keys, x.key, table.Length))
    {
      var b := BucketNumber(x.key);
      NodeIsFound(keys, table[..], contents, b, x.key);
      next := None;
      if table[b].List? {
        next := NextInList(x, b);
      }
    }

    method NextInList(x: Item<K, V>, b: nat) returns (next: Option<Item<K, V>>)
      requires Sound() && b < table.Length && table[b].List? && x in table[b].nodes
      ensures next.Some? ==> Follows(Order(), x, next)
      ensures next.None? ==> EndsItsList(x, b)
    {
      ListFollows(keys, table[..], b, x);
      next := NextIn(table[b].nodes, x);
    }

    /** If entry `b` is a list then `x` is its last node. */
    ghost predicate EndsItsList(x: Item<K, V>, b: nat)
      reads this, table
      requires b < table.Length
    {
      table[b].List? ==>
        Boundary(table[..], b + 1) && Follows(Order(), x, First(OrderFrom(table[..], b + 1)))
    }

    method IsInList(b: nat, x: Item<K, V>) returns (found: bool)
      requires Sound() && b < table.Length
      ensures found == (table[b].List? && x in table[b].nodes)
    {
      TestsAreRight(keys, table[..], b);
      found := EntryIsNonEmptyList(table[..], b) && x in table[b].nodes;
    }

    method ForcedInRange(bucket: nat) returns (b: nat)
      requires IsTableSize(table.Length)
      ensures b < table.Length && (bucket < table.Length ==> b == bucket)
    {
      MaskIsMod(bucket, table.Length);
      if bucket < table.Length {
        ModIsRemainder(bucket, table.Length, 0, bucket);
      }
      b := And(bucket, table.Length - 1);
    }

    /** Finds a node again by its key. */
    method Refind(x: Item<K, V>) returns (isList: bool, b: nat, treeIt: nat)
      requires Sound() && HasNode(x)
      ensures StandsAt(At(x, b, treeIt)) && isList == table[b].List?
      ensures Belongs(keys, table[..], b, x.key) && (isList ==> b == BucketOf(keys, x.key, table.Length))
    {
      var i, _ := FindHelper(x.key);
      b, treeIt := i.bucket, i.treeIt;
      TestsAreRight(keys, table[..], b);
      isList := !EntryIsTree(table[..], b);
    }

    /**
      The bucket and the tree position of the iterator may be stale after other operations; the
      node is right.  Finds out where it is now and whether that is a list.
     */
    method RevalidateIfNecessary(it: Iter<K, V>) returns (isList: bool, b: nat, treeIt: nat)
      requires Sound() && it.At? && HasNode(it.node)
      ensures StandsAt(At(it.node, b, treeIt)) && isList == table[b].List?
      ensures Belongs(keys, table[..], b, it.node.key)
      ensures isList ==> b == BucketOf(keys, it.node.key, table.Length)
    {
      b := ForcedInRange(it.bucket);
      treeIt := it.treeIt;
      isList := IsInList(b, it.node);
      if isList {
        KeyIsAtHome(keys, table[..], b, it.node);
      } else {
        isList, b, treeIt := Refind(it.node);
      }
    }

    /** The increment, from an iterator whose other fields may be stale. */
    method Next(it: Iter<K, V>) returns (next: Iter<K, V>)
      requires Sound() && it.At? && HasNode(it.node)
      ensures Follows(Order(), it.node, next.Node())
    {
      var n := NodeNext(it.node);
      if n.Some? {
        next := At(n.value, it.bucket, it.treeIt);
      } else {
        next := NextEntry(it);
      }
    }

    /** The increment at a node without a `next`. */
    method NextEntry(it: Iter<K, V>) returns (next: Iter<K, V>)
      requires Sound() && it.At? && HasNode(it.node)
      requires EndsItsList(it.node, BucketOf(keys, it.node.key, table.Length))
      ensures Follows(Order(), it.node, next.Node()) && (next.At? ==> StandsAt(next))
    {
      var isList, b, treeIt := RevalidateIfNecessary(it);
      if isList {
        next := NextAfterList(it.node, b);
      } else {
        next := NextInTree(b, treeIt);
      }
    }

    method NextAfterList(x: Item<K, V>, b: nat) returns (next: Iter<K, V>)
      requires Sound() && b < table.Length && table[b].List? && EndsItsList(x, b)
      ensures Follows(Order(), x, next.Node()) && (next.At? ==> StandsAt(next))
    {
      next := SearchFrom(b + 1);
    }

    method NextInTree(b: nat, treeIt: nat) returns (next: Iter<K, V>)
      requires Sound() && b < table.Length && table[b].Tree? && b % 2 == 0 && treeIt < |table[b].nodes|
      ensures Follows(Order(), table[b].nodes[treeIt], next.Node()) && (next.At? ==> StandsAt(next))
    {
      TreeFollows(keys, table[..], b, treeIt);
      if treeIt + 1 == |table[b].nodes| {
        next := SearchFrom(b + 2);
      } else {
        next := At(table[b].nodes[treeIt + 1], b, treeIt + 1);
      }
    }

    lemma OrderLists()
      requires Sound()
      ensures Distinct(Order()) && AsMap(Order()) == contents && |Order()| == numElements
    {
      OrderIsMap(keys, table[..], contents);
    }

    lemma NodeIsThere(x: Item<K, V>, i: nat)
      requires Sound() && i < |Order()| && Order()[i] == x
      ensures HasNode(x)
    {
      OrderIsSound(keys, table[..], 0);
    }

    /** The increment at a known place in the order. */
    method NextAt(it: Iter<K, V>, ghost i: nat) returns (next: Iter<K, V>)
      requires Sound() && it.At? && i < |Order()| && Order()[i] == it.node
      ensures next.Node() == First(Order()[i + 1..])
    {
      NodeIsThere(it.node, i);
      next := Next(it);
      OrderLists();
      FollowsAt(Order(), i, it.node, next.Node());
    }

    /** Walking from the beginning to the end visits every entry of the map exactly once. */
    method VisitAll() returns (visited: seq<Item<K, V>>)
      requires Valid()
      ensures Distinct(visited) && AsMap(visited) == contents && |visited| == numElements
    {
      ghost var order := Order();
      visited := [];
      var it := Begin();
      while it.At?
        invariant |visited| <= |order| && visited == order[..|visited|]
        invariant it.Node() == First(order[|visited|..])
        decreases |order| - |visited|
      {
        OneMoreVisited(order, |visited|);
        var node := it.node;
        it := NextAt(it, |visited|);
        visited := visited + [node];
      }
      assert visited == order;
      OrderLists();
    }

    // ----- removal

    method SkipNulls()
      requires firstNonNull <= table.Length && forall d :: 0 <= d < firstNonNull ==> table[d].Null?
      modifies `firstNonNull
      ensures FirstNonNull(table[..], firstNonNull)
    {
      while firstNonNull < table.Length && table[firstNonNull] == Null
        invariant firstNonNull <= table.Length
        invariant forall d :: 0 <= d < firstNonNull ==> table[d].Null?
      {
        firstNonNull := firstNonNull + 1;
      }
    }

    method MakeNode(x: Item<K, V>)
      modifies `nodesMade
      ensures nodesMade == old(nodesMade) + multiset{x}
    {
      nodesMade := nodesMade + multiset{x};
    }

    method DestroyNode(x: Item<K, V>)
      modifies `nodesDestroyed
      ensures nodesDestroyed == old(nodesDestroyed) + multiset{x}
    {
      nodesDestroyed := nodesDestroyed + multiset{x};
    }

    method DestroyTree()
      modifies `treesDestroyed
      ensures treesDestroyed == old(treesDestroyed) + 1
    {
      treesDestroyed := treesDestroyed + 1;
    }

    /** Takes the node out of the table. */
    method EraseNode(it: Iter<K, V>)
      requires Sound() && it.At? && HasNode(it.node)
      modifies `firstNonNull, `treesDestroyed, table
      ensures LostTrees() == old(LostTrees())
      ensures Stores(contents - {it.node.key})
      ensures Order() == Without(old(Order()), it.node.key)
    {
      var isList, b, treeIt := RevalidateIfNecessary(it);
      ghost var t := table[..];
      EraseKeeps(keys, t, contents, b, it.node.key);
      EraseMovesFirst(keys, t, b, it.node.key, firstNonNull);
      EraseEndsTrees(keys, t, b, it.node.key);
      EraseKeepsOrder(keys, t, b, it.node.key, 0);
      EraseFromEntry(isList, b, treeIt, it.node);
      if b == firstNonNull {
        SkipNulls();
      }
    }

    method EraseEntry(it: Iter<K, V>)
      requires Sound() && it.At? && HasNode(it.node)
      modifies `firstNonNull, `treesDestroyed, `contents, `numElements, table
      ensures Sound() && contents == old(contents) - {it.node.key} && numElements == old(numElements) - 1
      ensures Order() == Without(old(Order()), it.node.key)
      ensures LostTrees() == old(LostTrees())
    {
      EraseNode(it);
      numElements := numElements - 1;
      contents := contents - {it.node.key};
    }

    /** An iterator whose other fields are stale will do.  The other nodes are passed in the order as before. */
    method Erase(it: Iter<K, V>)
      requires Valid() && it.At? && HasNode(it.node)
      modifies this, table
      ensures Valid() && contents == old(contents) - {it.node.key} && table == old(table)
      ensures Order() == Without(old(Order()), it.node.key)
      ensures nodesDestroyed == old(nodesDestroyed) + multiset{it.node} && nodesMade == old(nodesMade)
      ensures numElements < old(numElements)
    {
      NodesOfRemoved(contents, it.node);
      EraseEntry(it);
      DestroyNode(it.node);
    }

    method EraseFromEntry(isList: bool, b: nat, treeIt: nat, x: Item<K, V>)
      requires Sound() && StandsAt(At(x, b, treeIt)) && isList == table[b].List?
      modifies table, `treesDestroyed
      ensures table[..] == Erased(old(table[..]), b, x.key)
      ensures treesDestroyed == old(treesDestroyed) + if old(table[b]).Tree? && table[b].Null? then 1 else 0
    {
      if isList {
        var head := Without(table[b].nodes, x.key);
        table[b] := if head == [] then Null else List(head);
      } else {
        EraseFromTree(b, treeIt, x);
      }
    }

    method EraseFromTree(b: nat, treeIt: nat, x: Item<K, V>)
      requires Sound() && StandsAt(At(x, b, treeIt)) && table[b].Tree?
      modifies table, `treesDestroyed
      ensures table[..] == Erased(old(table[..]), b, x.key)
      ensures treesDestroyed == old(treesDestroyed) + if table[b].Null? then 1 else 0
    {
      EntryOkAt(keys, table[..], b);
      var tree := table[b].nodes[..treeIt] + table[b].nodes[treeIt + 1..];
      RemovedIsWithout(table[b].nodes, treeIt);
      SetPair(b, if tree == [] then Null else Tree(tree));
      if tree == [] {
        DestroyTree();
      }
    }

    /** Two buckets share what is put there. */
    method SetPair(b: nat, e: Entry<K, V>)
      requires b + 1 < table.Length
      modifies table
      ensures table[..] == old(table[..])[b := e][b + 1 := e]
    {
      table[b], table[b + 1] := e, e;
    }

    // ----- resizing

    /** Moves the nodes of one old bucket into the new table, from a list or from a tree alike. */
    method Transfer(nodes: seq<Item<K, V>>, ghost done: map<K, V>, ghost m: map<K, V>)
      requires Stores(done) && Remaining(done, nodes, m)
      modifies `firstNonNull, `treesMade, table
      ensures LostTrees() == old(LostTrees())
      ensures Stores(m) && table[..] == Reinserted(keys, old(table[..]), nodes)
    {
      var rest := nodes;
      ghost var now, target := done, Reinserted(keys, table[..], nodes);
      while rest != []
        invariant LostTrees() == old(LostTrees())
        invariant Stores(now) && Remaining(now, rest, m)
        invariant Reinserted(keys, table[..], rest) == target
        decreases |rest|
      {
        OneLess(now, rest, m);
        var b := BucketNumber(rest[0].key);
        var _ := InsertUnique(b, rest[0], now);
        now := now[rest[0].key := rest[0].value];
        rest := rest[1..];
      }
      assert now + map[] == now;
    }

    /** One turn of the loop over the old buckets. */
    method TransferBucket(oldTable: array<Entry<K, V>>, i: nat, ghost done: map<K, V>, ghost m: map<K, V>)
        returns (next: nat)
      requires oldTable != table && TableOk(keys, oldTable[..]) && i < oldTable.Length && Boundary(oldTable[..], i)
      requires Stores(done) && Remaining(done, OrderFrom(oldTable[..], i), m)
      modifies `firstNonNull, `treesMade, `treesDestroyed, table
      ensures LostTrees() + TreesFrom(oldTable[..], i) == old(LostTrees()) + TreesFrom(oldTable[..], next)
      ensures next == NextBucket(oldTable[..], i) && Boundary(oldTable[..], next)
      ensures Stores(done + AsMap(oldTable[i].Nodes()))
      ensures Remaining(done + AsMap(oldTable[i].Nodes()), OrderFrom(oldTable[..], next), m)
      ensures Reinserted(keys, table[..], OrderFrom(oldTable[..], next))
              == Reinserted(keys, old(table[..]), OrderFrom(oldTable[..], i))
    {
      ghost var t := oldTable[..];
      ghost var nodes := t[i].Nodes();
      TestsAreRight(keys, t, i);
      NextIsBoundary(keys, t, i);
      TreesPassed(keys, t, i);
      OneBucketTurn(done, nodes, OrderFrom(t, NextBucket(t, i)), m);
      ReinsertedInTwo(keys, table[..], nodes, OrderFrom(t, NextBucket(t, i)));
      next := i + 1;
      if EntryIsNonEmptyList(oldTable[..], i) {
        Transfer(oldTable[i].nodes, done, done + AsMap(nodes));
      } else if EntryIsTree(oldTable[..], i) {
        Transfer(oldTable[i].nodes, done, done + AsMap(nodes));
        DestroyTree();
        next := i + 2;
      }
    }

    method TransferAll(oldTable: array<Entry<K, V>>, start: nat, ghost m: map<K, V>)
      requires oldTable != table && TableOk(keys, oldTable[..]) && Boundary(oldTable[..], start)
      requires Stores(map[]) && Remaining(map[], OrderFrom(oldTable[..], start), m)
      modifies `firstNonNull, `treesMade, `treesDestroyed, table
      ensures LostTrees() == old(LostTrees()) - TreesFrom(oldTable[..], start)
      ensures Stores(m)
      ensures table[..] == Reinserted(keys, old(table[..]), OrderFrom(oldTable[..], start))
    {
      ghost var t := oldTable[..];
      ghost var target, lost := Reinserted(keys, table[..], OrderFrom(t, start)), LostTrees() - TreesFrom(t, start);
      ghost var done: map<K, V> := map[];
      var i := start;
      while i < oldTable.Length
        invariant oldTable[..] == t && Boundary(t, i)
        invariant Stores(done) && Remaining(done, OrderFrom(t, i), m)
        invariant LostTrees() - TreesFrom(t, i) == lost
        invariant Reinserted(keys, table[..], OrderFrom(t, i)) == target
        decreases oldTable.Length - i
      {
        ghost var more := done + AsMap(t[i].Nodes());
        i := TransferBucket(oldTable, i, done, m);
        done := more;
      }
      assert done + map[] == done;
    }

    /** Rebuilds the table with another number of buckets. */
    method Resize(newNumBuckets: nat)
      requires Sound() && IsTableSize(newNumBuckets)
      modifies `table, `firstNonNull, `treesMade, `treesDestroyed
      ensures Sound() && LostTrees() == old(LostTrees())
      ensures fresh(table) && table.Length == newNumBuckets
      ensures table[..] == Reinserted(keys, EmptyTable(newNumBuckets), old(Order()))
    {
      var oldTable, start := table, firstNonNull;
      OrderFromFirst(keys, table[..], start, 0);
      TreesFromFirst(table[..], start, 0);
      NoTrees<K, V>(newNumBuckets, 0);
      OrderIsMap(keys, table[..], contents);
      assert map[] + contents == contents;
      StartEmpty(newNumBuckets);
      TransferAll(oldTable, start, contents);
    }

    method StartEmpty(n: nat)
      requires StrictOrder(keys.less) && IsTableSize(n)
      modifies `table, `firstNonNull
      ensures fresh(table) && table.Length == n && table[..] == EmptyTable(n) && Stores(map[])
    {
      table := new Entry[n](_ => Null);
      firstNonNull := n;
      TableSizeIsEven(n);
      EmptyIsOk<K, V>(keys, n);
      assert table[..] == EmptyTable(n);
    }

    /** Tells whether it did resize. */
    method ResizeIfLoadIsOutOfRange(newSize: nat) returns (resized: bool)
      requires Sound()
      modifies `table, `firstNonNull, `treesMade, `treesDestroyed
      ensures Sound() && LostTrees() == old(LostTrees())
      ensures table.Length == TargetSize(old(table.Length), newSize)
      ensures RebuiltBy(old(table.Length), newSize, table.Length)
      ensures if resized then fresh(table) else table == old(table)
    {
      TargetIsTableSize(table.Length, newSize);
      TargetIs(table.Length, newSize);
      if newSize >= HiCutoff(table.Length) {
        if table.Length <= MAX_SIZE / 2 {
          Resize(table.Length * 2);
          return true;
        }
      } else if newSize <= LoCutoff(table.Length) && table.Length > MIN_TABLE_SIZE {
        var newNumBuckets := ShrunkSize(table.Length, newSize);
        if newNumBuckets != table.Length {
          Resize(newNumBuckets);
          return true;
        }
      }
      return false;
    }

    // ----- what callers use

    /** Resizes if one more element is too many or the table too empty, and finds the place of the key again. */
    method MakeRoom(k: K, b: nat) returns (place: nat)
      requires Sound() && k !in contents && b < table.Length && Belongs(keys, table[..], b, k)
      modifies `table, `firstNonNull, `treesMade, `treesDestroyed
      ensures Sound() && LostTrees() == old(LostTrees())
      ensures table == old(table) || fresh(table)
      ensures table.Length == TargetSize(old(table.Length), old(numElements) + 1)
      ensures place < table.Length && Belongs(keys, table[..], place, k)
    {
      place := b;
      var resized := ResizeIfLoadIsOutOfRange(numElements + 1);
      if resized {
        var _, found := FindHelper(k);
        place := found;
      }
    }

    method AddMissing(x: Item<K, V>, b: nat) returns (it: Iter<K, V>)
      requires Sound() && x.key !in contents && b < table.Length && Belongs(keys, table[..], b, x.key)
      modifies `table, `firstNonNull, `treesMade, `treesDestroyed, `contents, `numElements, table
      ensures Sound() && contents == old(contents)[x.key := x.value] && numElements == old(numElements) + 1
      ensures StandsAt(it) && it.node == x
      ensures table == old(table) || fresh(table)
      ensures table.Length == TargetSize(old(table.Length), old(numElements) + 1)
      ensures LostTrees() == old(LostTrees())
    {
      var place := MakeRoom(x.key, b);
      it := InsertUnique(place, x, contents);
      numElements := numElements + 1;
      contents := contents[x.key := x.value];
    }

    /** The case of `Insert` in which the key is not there; `b` is where it would be. */
    method InsertMissing(x: Item<K, V>, b: nat) returns (it: Iter<K, V>)
      requires Valid() && x.key !in contents && b < table.Length && Belongs(keys, table[..], b, x.key)
      modifies `table, `firstNonNull, `treesMade, `treesDestroyed, `contents, `numElements, `nodesMade, table
      ensures Valid() && contents == old(contents)[x.key := x.value] && numElements == old(numElements) + 1
      ensures StandsAt(it) && it.node == x
      ensures table == old(table) || fresh(table)
      ensures table.Length == TargetSize(old(table.Length), old(numElements) + 1)
      ensures nodesMade == old(nodesMade) + multiset{x} && nodesDestroyed == old(nodesDestroyed)
    {
      ghost var n, size := table.Length, numElements;
      ghost var m := contents;
      MakeNode(x);
      it := AddMissing(x, b);
      StaysValid(n, size, m, x);
    }

    lemma StaysValid(n: nat, size: nat, m: map<K, V>, x: Item<K, V>)
      requires Sound() && table.Length == TargetSize(n, size + 1) && numElements == size + 1
      requires IsTableSize(n) && LoadOk(n, size)
      requires x.key !in m && contents == m[x.key := x.value] && LostTrees() == 0
      requires nodesMade == nodesDestroyed + NodesOf(m) + multiset{x}
      ensures Valid()
    {
      LoadStaysOk(n, size);
      NodesOfAdded(m, x);
    }

    method InsertItem(x: Item<K, V>) returns (it: Iter<K, V>, inserted: bool)
      requires Valid()
      modifies this, table
      ensures Valid() && inserted == (x.key !in old(contents))
      ensures contents == if inserted then old(contents)[x.key := x.value] else old(contents)
      ensures StandsAt(it) && it.node == Item(x.key, contents[x.key])
      ensures table == old(table) || fresh(table)
      ensures numElements == old(numElements) + (if inserted then 1 else 0)
      ensures inserted ==> table.Length == TargetSize(old(table.Length), old(numElements) + 1)
      ensures nodesMade == old(nodesMade) + (if inserted then multiset{x} else multiset{})
      ensures nodesDestroyed == old(nodesDestroyed)
      ensures !inserted ==> table == old(table) && table[..] == old(table[..])
    {
      var b;
      it, b := FindHelper(x.key);
      inserted := it.End?;
      if inserted {
        it := InsertMissing(x, b);
      }
    }

    /** Inserts if the key is not present, and tells whether it was not. */
    method Insert(x: Item<K, V>) returns (it: Iter<K, V>, inserted: bool)
      requires Valid()
      modifies this, table
      ensures Valid() && inserted == (x.key !in old(contents))
      ensures contents == if inserted then old(contents)[x.key := x.value] else old(contents)
      ensures StandsAt(it) && it.node == Item(x.key, contents[x.key])
      ensures table == old(table) || fresh(table)
      ensures numElements == old(numElements) + (if inserted then 1 else 0)
      ensures inserted ==> table.Length == TargetSize(old(table.Length), old(numElements) + 1)
      ensures inserted ==> (table.Length == 2 * old(table.Length) <==>
                              4 * numElements >= 3 * old(table.Length) && old(table.Length) <= 0x0800_0000_0000_0000)
      ensures inserted ==> (table.Length < old(table.Length) <==>
                              16 * numElements <= 3 * old(table.Length) && old(table.Length) > 8)
      ensures nodesMade == old(nodesMade) + (if inserted then multiset{x} else multiset{})
      ensures nodesDestroyed == old(nodesDestroyed)
      ensures !inserted ==> table == old(table) && table[..] == old(table[..])
    {
      ghost var n := table.Length;
      it, inserted := InsertItem(x);
      if inserted {
        LimitsAre(n, numElements, table.Length);
      }
    }

    method DestroyNodes(nodes: seq<Item<K, V>>)
      modifies `nodesDestroyed
      ensures nodesDestroyed == old(nodesDestroyed) + multiset(nodes)
    {
      var node := nodes;
      while node != []
        invariant nodesDestroyed + multiset(node) == old(nodesDestroyed) + multiset(nodes)
        decreases |node|
      {
        assert node == [node[0]] + node[1..];
        DestroyNode(node[0]);
        node := node[1..];
      }
    }

    /** One turn of the loop over the buckets of `t`, of which those before `b` are cleared. */
    method ClearBucket(b: nat, ghost t: Table<K, V>) returns (next: nat)
      requires TableOk(keys, t) && b < |t| && Boundary(t, b) && ClearedUpTo(t, table[..], b)
      modifies table, `nodesDestroyed, `treesDestroyed
      ensures next == NextBucket(t, b) && ClearedUpTo(t, table[..], next)
      ensures nodesDestroyed == old(nodesDestroyed) + multiset(t[b].Nodes())
      ensures treesDestroyed == old(treesDestroyed) + if t[b].Tree? then 1 else 0
    {
      ClearTests(keys, t, table[..], b);
      next := b + 1;
      if EntryIsNonEmptyList(table[..], b) {
        var nodes := table[b].nodes;
        table[b] := Null;
        DestroyNodes(nodes);
      } else if EntryIsTree(table[..], b) {
        var nodes := table[b].nodes;
        table[b], table[b + 1] := Null, Null;
        DestroyNodes(nodes);
        DestroyTree();
        next := b + 2;
      }
    }

    /** The loop over the buckets: every node of the table is destroyed once, and so is every tree. */
    method ClearTable()
      requires Sound()
      modifies table, `nodesDestroyed, `treesDestroyed
      ensures table[..] == EmptyTable(table.Length)
      ensures nodesDestroyed == old(nodesDestroyed) + multiset(old(Order()))
      ensures treesDestroyed == old(treesDestroyed) + TreesFrom(old(table[..]), 0)
    {
      ghost var t := table[..];
      ghost var nodes, trees := nodesDestroyed + multiset(OrderFrom(t, 0)), treesDestroyed + TreesFrom(t, 0);
      var b := 0;
      while b < table.Length
        invariant Boundary(t, b) && ClearedUpTo(t, table[..], b)
        invariant nodesDestroyed + multiset(OrderFrom(t, b)) == nodes
        invariant treesDestroyed + TreesFrom(t, b) == trees
      {
        NextIsBoundary(keys, t, b);
        TreesPassed(keys, t, b);
        b := ClearBucket(b, t);
      }
      ClearedIsEmpty(t, table[..]);
    }

    method ClearEntries()
      requires Sound()
      modifies `firstNonNull, `nodesDestroyed, `treesDestroyed, `contents, `numElements, table
      ensures Sound() && contents == map[] && numElements == 0 && TreesFrom(table[..], 0) == 0
      ensures nodesDestroyed == old(nodesDestroyed) + multiset(old(Order()))
      ensures treesDestroyed == old(treesDestroyed) + TreesFrom(old(table[..]), 0)
    {
      ClearTable();
      numElements, firstNonNull := 0, table.Length;
      contents := map[];
      SoundWhenEmpty();
    }

    lemma SoundWhenEmpty()
      requires StrictOrder(keys.less) && IsTableSize(table.Length) && table[..] == EmptyTable(table.Length)
      requires contents == map[] && numElements == 0 && firstNonNull == table.Length
      ensures Sound() && TreesFrom(table[..], 0) == 0
    {
      TableSizeIsEven(table.Length);
      EmptyIsOk<K, V>(keys, table.Length);
      NoTrees<K, V>(table.Length, 0);
    }

    /** Empties the table and keeps its size: every node and tree ever made has now been destroyed, and once. */
    method Clear()
      requires Valid()
      modifies this, table
      ensures Valid() && contents == map[] && table == old(table)
      ensures nodesDestroyed == nodesMade == old(nodesMade)
      ensures treesDestroyed == treesMade == old(treesMade)
    {
      OrderHasNodes(keys, table[..], contents);
      ClearEntries();
      assert NodesOf(contents) == multiset{};
    }
  }

  // ----- erasing while iterating, as `Map` does

  /** `Map::erase` steps on before the node goes, and returns where it stepped. */
  method EraseAndAdvance<K(==, !new), V(==, !new)>(m: InnerMap<K, V>, pos: Iter<K, V>, ghost i: nat)
      returns (next: Iter<K, V>)
    requires m.Valid() && pos.At? && i < |m.Order()| && m.Order()[i] == pos.node
    modifies m, m.table
    ensures m.Valid() && m.contents == old(m.contents) - {pos.node.key} && m.table == old(m.table)
    ensures m.Order() == Cut(old(m.Order()), i, i + 1) && next.Node() == First(old(m.Order()[i + 1..]))
  {
    m.OrderLists();
    m.NodeIsThere(pos.node, i);
    RemovedIsWithout(m.Order(), i);
    next := m.NextAt(pos, i);
    m.Erase(pos);
  }

  method EraseOne<K(==, !new), V(==, !new)>(
      m: InnerMap<K, V>, it: Iter<K, V>, ghost order: seq<Item<K, V>>, ghost i: nat, ghost k: nat)
      returns (next: Iter<K, V>)
    requires m.Valid() && i <= k < |order| && m.Order() == Cut(order, i, k) && it.Node() == First(order[k..])
    modifies m, m.table
    ensures m.Valid() && m.table == old(m.table)
    ensures m.Order() == Cut(order, i, k + 1) && next.Node() == First(order[k + 1..])
  {
    CutOneMore(order, i, k);
    next := EraseAndAdvance(m, it, i);
  }

  /** The rest of the loop of `Map::erase(first, last)`, once the nodes from `i` to `k` are gone. */
  method EraseUpTo<K(==, !new), V(==, !new)>(
      m: InnerMap<K, V>, it: Iter<K, V>, last: Iter<K, V>,
      ghost order: seq<Item<K, V>>, ghost i: nat, ghost k: nat, ghost j: nat)
    requires m.Valid() && i <= k <= j <= |order| && m.Order() == Cut(order, i, k) && Distinct(order)
    requires it.Node() == First(order[k..]) && last.Node() == First(order[j..])
    modifies m, m.table
    ensures m.Valid() && m.Order() == Cut(order, i, j) && m.table == old(m.table)
    decreases j - k
  {
    SameFirst(order, k, j);
    if it.Node() != last.Node() {
      var next := EraseOne(m, it, order, i, k);
      EraseUpTo(m, next, last, order, i, k + 1, j);
    }
  }

  /** Erases the nodes from one iterator up to another, and only them, whatever turns into what on the way. */
  method EraseRange<K(==, !new), V(==, !new)>(
      m: InnerMap<K, V>, first: Iter<K, V>, last: Iter<K, V>, ghost i: nat, ghost j: nat)
    requires m.Valid() && i <= j <= |m.Order()|
    requires first.Node() == First(m.Order()[i..]) && last.Node() == First(m.Order()[j..])
    modifies m, m.table
    ensures m.Valid() && m.Order() == old(m.Order()[..i] + m.Order()[j..]) && m.table == old(m.table)
    ensures m.contents == AsMap(m.Order())
  {
    m.OrderLists();
    CutNothing(m.Order(), i);
    EraseUpTo(m, first, last, m.Order(), i, i, j);
    m.OrderLists();
  }

  /** `Map::clear`: erases from the beginning to the end. */
  method EraseAll<K(==, !new), V(==, !new)>(m: InnerMap<K, V>)
    requires m.Valid()
    modifies m, m.table
    ensures m.Valid() && m.contents == map[] && m.table == old(m.table)
  {
    var it := m.Begin();
    while it.At?
      invariant m.Valid() && m.table == old(m.table) && it.Node() == First(m.Order())
      decreases m.numElements
    {
      it := EraseFirst(m, it);
    }
    m.OrderLists();
  }

  method EraseFirst<K(==, !new), V(==, !new)>(m: InnerMap<K, V>, it: Iter<K, V>) returns (next: Iter<K, V>)
    requires m.Valid() && it.At? && it.Node() == First(m.Order())
    modifies m, m.table
    ensures m.Valid() && m.table == old(m.table) && next.Node() == First(m.Order())
    ensures m.numElements < old(m.numElements)
  {
    ghost var order := m.Order();
    m.OrderLists();
    next := EraseAndAdvance(m, it, 0);
    assert Cut(order, 0, 1) == order[1..];
    m.OrderLists();
  }
}
