/** The bounded, key-indexed min-heap: node objects shared by a slice and a key map. */
module MinHeap {
  import opened Wrappers
  import opened Order
  import opened HeapOrder
  import opened TopK

  class Node {
    const key: string
    var count: uint32
    var index: int

    constructor (key: string, count: uint32)
      ensures this.key == key && this.count == count
    {
      this.key := key;
      this.count := count;
      this.index := 0;
    }
  }

  ghost function Records(ns: seq<Node>): (s: seq<Item>)
    reads ns
    ensures |s| == |ns|
    ensures forall i :: 0 <= i < |s| ==> s[i] == Item(ns[i].key, ns[i].count)
  {
    seq(|ns|, i requires 0 <= i < |ns| reads ns => Item(ns[i].key, ns[i].count))
  }

  /** `Nodes[i].index == i`, and `repr` is exactly the nodes of the slice. */
  ghost predicate Indexed(ns: seq<Node>, repr: set<Node>)
    reads repr`index
  {
    && (forall i :: 0 <= i < |ns| ==> ns[i] in repr)
    && (forall i {:trigger ns[i].index} :: 0 <= i < |ns| ==> ns[i].index == i)
    && (forall x {:trigger x.index} :: x in repr ==> 0 <= x.index < |ns| && ns[x.index] == x)
  }

  lemma DistinctNodes(ns: seq<Node>, repr: set<Node>)
    requires Indexed(ns, repr)
    ensures forall i, j :: 0 <= i < j < |ns| ==> ns[i] != ns[j]
    ensures forall i :: 0 <= i < |ns| ==> ns[i].index == i
  {
    forall i, j | 0 <= i < j < |ns|
      ensures ns[i] != ns[j]
    {
      assert ns[i].index == i && ns[j].index == j;
    }
    forall i | 0 <= i < |ns|
      ensures ns[i].index == i
    {
    }
  }

  /** The key map and the slice hold the same nodes, each key once. */
  ghost predicate Keyed(repr: set<Node>, byKey: map<string, Node>) {
    && (forall x {:trigger x.key} :: x in repr ==> x.key in byKey && byKey[x.key] == x)
    && (forall k :: k in byKey ==> byKey[k] in repr)
    && (forall k {:trigger byKey[k].key} :: k in byKey ==> byKey[k].key == k)
  }

  ghost predicate Tracked(repr: set<Node>, contents: HeatMap)
    reads repr`count
  {
    forall x :: x in repr ==> x.key in contents && contents[x.key] == x.count
  }

  class Heap {
    var nodes: seq<Node>
    const capacity: uint32
    var byKey: map<string, Node>
    ghost var Contents: HeatMap
    ghost var Repr: set<Node>

    ghost predicate Valid()
      reads this, Repr
    {
      && Indexed(nodes, Repr) && Keyed(Repr, byKey) && Tracked(Repr, Contents)
      && Contents.Keys == byKey.Keys && |Contents| == |nodes| <= capacity
      && Ordered(Records(nodes))
    }

    constructor (k: uint32)
      ensures Valid() && capacity == k && Contents == map[] && Repr == {}
    {
      nodes, capacity, byKey := [], k, map[];
      Contents, Repr := map[], {};
    }

    // ----- container/heap -----

    /** `Nodes.Swap`. */
    method Swap(i: nat, j: nat)
      requires i < |nodes| && j < |nodes| && Indexed(nodes, Repr)
      modifies `nodes, Repr`index
      ensures nodes == Exchange(old(nodes), i, j) && Indexed(nodes, Repr)
      ensures Records(nodes) == Exchange(old(Records(nodes)), i, j)
    {
      DistinctNodes(nodes, Repr);
      nodes := nodes[i := nodes[j]][j := nodes[i]];
      nodes[i].index := i;
      nodes[j].index := j;
    }

    /** `down`: reports whether the node at `start` moved. */
    method Down(start: nat, n: nat, ghost lo: nat) returns (moved: bool)
      requires n <= |nodes| && lo <= start <= n && Indexed(nodes, Repr)
      requires Pairs(Records(nodes), n, lo, start, start) && Grand(Records(nodes), n, lo, start)
      modifies `nodes, Repr`index
      ensures Indexed(nodes, Repr) && |nodes| == |old(nodes)|
      ensures nodes[n..] == old(nodes[n..])
      ensures moved ==> Pairs(Records(nodes), n, lo, n, 0)
      ensures !moved ==> nodes == old(nodes) && Pairs(Records(nodes), n, lo, n, start)
    {
      var i: nat := start;
      var more := true;
      while more
        invariant start <= i <= n <= |nodes|
        invariant i == start ==> nodes == old(nodes)
        invariant Indexed(nodes, Repr) && |nodes| == |old(nodes)| && nodes[n..] == old(nodes[n..])
        invariant more ==> Pairs(Records(nodes), n, lo, i, if i == start then start else 0)
        invariant more ==> Grand(Records(nodes), n, lo, i)
        invariant !more ==> Pairs(Records(nodes), n, lo, n, if i == start then start else 0)
        decreases more, n - i
      {
        i, more := DownOnce(start, i, n, lo);
      }
      return i > start;
    }

    /** One turn of the loop of `down`. */
    method DownOnce(ghost start: nat, i: nat, n: nat, ghost lo: nat) returns (j: nat, more: bool)
      requires n <= |nodes| && lo <= start <= i <= n && Indexed(nodes, Repr)
      requires Pairs(Records(nodes), n, lo, i, if i == start then start else 0) && Grand(Records(nodes), n, lo, i)
      modifies `nodes, Repr`index
      ensures Indexed(nodes, Repr) && |nodes| == |old(nodes)| && nodes[n..] == old(nodes[n..])
      ensures more ==> i < j < n && Pairs(Records(nodes), n, lo, j, 0) && Grand(Records(nodes), n, lo, j)
      ensures !more ==> j == i && nodes == old(nodes)
      ensures !more ==> Pairs(Records(nodes), n, lo, n, if i == start then start else 0)
    {
      if 2 * i + 1 >= n {
        return i, false;
      }
      j := Child(i, n);
      ghost var s := Records(nodes);
      if !NodeLess(j, i) {
        DownStops(s, n, lo, start, i, j);
        return i, false;
      }
      DownStep(s, n, lo, start, i, j);
      Swap(i, j);
      more := true;
    }

    /** The child `down` compares with: the right one only when it is strictly less. */
    method Child(i: nat, n: nat) returns (j: nat)
      requires 2 * i + 1 < n <= |nodes|
      ensures LesserChild(Records(nodes), n, i, j)
    {
      ghost var s := Records(nodes);
      j := 2 * i + 1;
      if 2 * i + 2 < n {
        LessTotal(s[j + 1], s[j]);
        if NodeLess(j + 1, j) {
          j := j + 1;
        }
      }
      LessTotal(s[j], s[j]);
    }

    /** `Nodes.Less`. */
    predicate NodeLess(i: nat, j: nat)
      reads this, nodes
      requires i < |nodes| && j < |nodes|
    {
      Less(Item(nodes[i].key, nodes[i].count), Item(nodes[j].key, nodes[j].count))
    }

    /** `up`, for a heap that is the first `n` nodes of the slice. */
    method Up(start: nat, ghost n: nat)
      requires start < n <= |nodes| && Indexed(nodes, Repr)
      requires Pairs(Records(nodes), n, 0, n, start) && Grand(Records(nodes), n, 0, start)
      modifies `nodes, Repr`index
      ensures Indexed(nodes, Repr) && |nodes| == |old(nodes)| && nodes[n..] == old(nodes[n..])
      ensures OrderedFrom(Records(nodes), n, 0)
    {
      var j: nat := start;
      while Parent(j) != j && NodeLess(j, Parent(j))
        invariant j < n <= |nodes|
        invariant Indexed(nodes, Repr) && |nodes| == |old(nodes)| && nodes[n..] == old(nodes[n..])
        invariant Pairs(Records(nodes), n, 0, n, j) && Grand(Records(nodes), n, 0, j)
        decreases j
      {
        UpStep(Records(nodes), n, j);
        Swap(Parent(j), j);
        j := Parent(j);
      }
    }

    /** `heap.Init`. */
    method Init()
      requires Indexed(nodes, Repr)
      modifies `nodes, Repr`index
      ensures Indexed(nodes, Repr) && |nodes| == |old(nodes)| && Ordered(Records(nodes))
    {
      var n := |nodes|;
      var i := n / 2;
      while i > 0
        invariant 0 <= i <= n == |nodes|
        invariant Indexed(nodes, Repr) && |nodes| == |old(nodes)|
        invariant OrderedFrom(Records(nodes), n, i)
      {
        i := i - 1;
        var _ := Down(i, n, i);
      }
    }

    /** `heap.Push`. */
    method Push(node: Node)
      requires Indexed(nodes, Repr) && Ordered(Records(nodes)) && node !in Repr
      modifies `nodes, `Repr, Repr`index, node`index
      ensures Indexed(nodes, Repr) && Ordered(Records(nodes))
      ensures |nodes| == |old(nodes)| + 1 && Repr == old(Repr) + {node}
    {
      node.index := |nodes|;
      nodes := nodes + [node];
      Repr := Repr + {node};
      Up(|nodes| - 1, |nodes|);
    }

    /** `Nodes.Pop`: cuts the last node off the slice. */
    method CutLast() returns (node: Node)
      requires nodes != [] && Indexed(nodes, Repr)
      modifies `nodes, `Repr, Repr`index
      ensures node == old(nodes)[|old(nodes)| - 1] && nodes == old(nodes)[..|old(nodes)| - 1]
      ensures Indexed(nodes, Repr) && Repr == old(Repr) - {node}
      ensures Records(nodes) == old(Records(nodes))[..|nodes|]
    {
      node := nodes[|nodes| - 1];
      nodes := nodes[..|nodes| - 1];
      node.index := -1;
      Repr := Repr - {node};
    }

    /** `heap.Remove`, and `heap.Pop` at the root: the node at `i` leaves, heap order stays. */
    method Extract(i: nat) returns (node: Node)
      requires i < |nodes| && Indexed(nodes, Repr) && Ordered(Records(nodes))
      modifies `nodes, `Repr, Repr`index
      ensures node == old(nodes)[i] && |nodes| == |old(nodes)| - 1
      ensures Indexed(nodes, Repr) && Repr == old(Repr) - {node} && Ordered(Records(nodes))
    {
      MoveLast(i);
      node := CutLast();
    }

    /** Brings the node at `i` to the end of the slice, the others staying a heap. */
    method MoveLast(i: nat)
      requires i < |nodes| && Indexed(nodes, Repr) && Ordered(Records(nodes))
      modifies `nodes, Repr`index
      ensures Indexed(nodes, Repr) && |nodes| == |old(nodes)| && nodes[|nodes| - 1] == old(nodes)[i]
      ensures OrderedFrom(Records(nodes), |nodes| - 1, 0)
    {
      var n := |nodes| - 1;
      if n != i {
        LoosenLast(Records(nodes), i);
        Swap(i, n);
        SettleAt(i, n);
        assert nodes[n..][0] == old(nodes)[i];
      }
    }

    /** `if !down(h, i, n) { up(h, i) }`, as both `heap.Fix` and `heap.Remove` do it. */
    method SettleAt(i: nat, n: nat)
      requires i < n <= |nodes| && Indexed(nodes, Repr)
      requires Pairs(Records(nodes), n, 0, i, i) && Grand(Records(nodes), n, 0, i)
      modifies `nodes, Repr`index
      ensures Indexed(nodes, Repr) && |nodes| == |old(nodes)| && nodes[n..] == old(nodes[n..])
      ensures OrderedFrom(Records(nodes), n, 0)
    {
      var moved := Down(i, n, 0);
      if !moved {
        Up(i, n);
      }
    }

    // ----- the key index -----

    /** The root holds the least record of the contents. */
    lemma RootIsLeastKey()
      requires Valid() && nodes != []
      ensures Contents != map[] && LeastKey(Contents) == nodes[0].key
      ensures Contents[nodes[0].key] == nodes[0].count
    {
      var s := Records(nodes);
      var root := nodes[0].key;
      assert nodes[0] in Repr;
      forall j | j in Contents
        ensures Le(ItemAt(Contents, root), ItemAt(Contents, j))
      {
        var i := byKey[j].index;
        RootIsLeast(s, i);
      }
      LeastUnique(Contents, root, LeastKey(Contents));
    }

    /** `Heap.Min`. */
    method Min() returns (count: uint32)
      requires Valid()
      ensures count == MinCount(Contents) && |nodes| == |Contents|
    {
      if |nodes| == 0 {
        return 0;
      }
      RootIsLeastKey();
      return nodes[0].count;
    }

    /** `Heap.Find`. */
    method Find(key: string) returns (index: int, found: bool)
      requires Valid()
      ensures found <==> key in Contents
      ensures found ==> 0 <= index < |nodes| && nodes[index].key == key
    {
      if key !in byKey {
        return 0, false;
      }
      return byKey[key].index, true;
    }

    /** `Heap.Fix`. */
    method Fix(idx: nat, count: uint32)
      requires Valid() && idx < |nodes|
      modifies this, Repr
      ensures Valid() && Repr == old(Repr)
      ensures Contents == old(Contents)[old(nodes)[idx].key := count]
    {
      Loosen(Records(nodes), idx, Item(nodes[idx].key, count));
      SetCount(idx, count);
      SettleAt(idx, |nodes|);
    }

    /** `h.Nodes[idx].Count = count`. */
    method SetCount(idx: nat, count: uint32)
      requires idx < |nodes| && Indexed(nodes, Repr) && Keyed(Repr, byKey) && Tracked(Repr, Contents)
      modifies `Contents, Repr`count
      ensures Keyed(Repr, byKey) && Tracked(Repr, Contents) && Contents == old(Contents)[nodes[idx].key := count]
      ensures Records(nodes) == old(Records(nodes))[idx := Item(nodes[idx].key, count)]
    {
      DistinctNodes(nodes, Repr);
      var node := nodes[idx];
      assert node in Repr;
      node.count := count;
      Contents := Contents[node.key := count];
    }

    /** `Heap.Pop`. */
    method Pop() returns (node: Node)
      requires Valid() && nodes != []
      modifies this, Repr
      ensures Valid() && Repr == old(Repr) - {node} && node in old(Repr)
      ensures node.key == LeastKey(old(Contents)) && node.count == old(Contents)[node.key]
      ensures Contents == old(Contents) - {node.key} && |nodes| == |old(nodes)| - 1
    {
      RootIsLeastKey();
      node := Extract(0);
      assert Repr + {node} == old(Repr);
      Forget(node);
    }

    /** `Heap.Remove`. */
    method Remove(key: string) returns (removed: bool)
      requires Valid()
      modifies this, Repr
      ensures Valid() && Repr <= old(Repr)
      ensures removed <==> key in old(Contents)
      ensures Contents == old(Contents) - {key}
    {
      if key !in byKey {
        return false;
      }
      var node := Extract(byKey[key].index);
      assert Repr + {node} == old(Repr);
      Forget(node);
      return true;
    }

    /** Deletes the key of a node that has left the slice. */
    method Forget(node: Node)
      requires node !in Repr && Keyed(Repr + {node}, byKey) && Tracked(Repr + {node}, Contents)
      requires Contents.Keys == byKey.Keys && |Contents| == |nodes| + 1
      modifies `byKey, `Contents
      ensures Keyed(Repr, byKey) && Tracked(Repr, Contents)
      ensures Contents == old(Contents) - {node.key} && Contents.Keys == byKey.Keys && |Contents| == |nodes|
      ensures Records(nodes) == old(Records(nodes))
    {
      assert node in Repr + {node};
      byKey := byKey - {node.key};
      Contents := Contents - {node.key};
    }

    /** Pushes a new node and records its key. */
    method Insert(key: string, count: uint32)
      requires Valid() && key !in Contents && |nodes| < capacity
      modifies this, Repr
      ensures Valid() && fresh(Repr - old(Repr))
      ensures Contents == old(Contents)[key := count]
    {
      var candidate := new Node(key, count);
      assert candidate !in Repr;
      Push(candidate);
      assert Repr - {candidate} == old(Repr);
      Remember(candidate);
    }

    /** `h.byKey[key] = candidate`. */
    method Remember(node: Node)
      requires node in Repr && Keyed(Repr - {node}, byKey) && Tracked(Repr - {node}, Contents) && node.key !in byKey
      requires Contents.Keys == byKey.Keys && |nodes| == |Contents| + 1
      modifies `byKey, `Contents
      ensures Keyed(Repr, byKey) && Tracked(Repr, Contents)
      ensures Contents == old(Contents)[node.key := node.count] && Contents.Keys == byKey.Keys && |Contents| == |nodes|
      ensures Records(nodes) == old(Records(nodes))
    {
      byKey := byKey[node.key := node];
      Contents := Contents[node.key := node.count];
    }

    /** `Heap.Upsert`: the map update, and the record expelled by it. */
    method Upsert(key: string, count: uint32) returns (expelled: Node?)
      requires Valid()
      modifies this, Repr
      ensures Valid() && fresh(Repr - old(Repr))
      ensures Contents == TopK.Upsert(old(Contents), capacity, key, count).heat
      ensures TopK.Upsert(old(Contents), capacity, key, count).expelled
              == if expelled == null then None else Some(Item(expelled.key, expelled.count))
    {
      var index, found := Find(key);
      if found {
        Fix(index, count);
        expelled := null;
      } else {
        expelled := Offer(key, count);
      }
    }

    /** `Heap.Upsert` of a key the heap does not hold. */
    method Offer(key: string, count: uint32) returns (expelled: Node?)
      requires Valid() && key !in Contents
      modifies this, Repr
      ensures Valid() && fresh(Repr - old(Repr))
      ensures Contents == TopK.Upsert(old(Contents), capacity, key, count).heat
      ensures TopK.Upsert(old(Contents), capacity, key, count).expelled
              == if expelled == null then None else Some(Item(expelled.key, expelled.count))
    {
      expelled := null;
      if capacity == 0 {
        expelled := new Node(key, count);
      } else if capacity > |nodes| {
        Insert(key, count);
      } else {
        RootIsLeastKey();
        if count > nodes[0].count {
          expelled := Replace(key, count);
        }
      }
    }

    /** Expels the least record to make room for a new one. */
    method Replace(key: string, count: uint32) returns (expelled: Node)
      requires Valid() && nodes != [] && key !in Contents
      modifies this, Repr
      ensures Valid() && fresh(Repr - old(Repr))
      ensures old(Contents) != map[] && Item(expelled.key, expelled.count) == ItemAt(old(Contents), LeastKey(old(Contents)))
      ensures Contents == (old(Contents) - {LeastKey(old(Contents))})[key := count]
    {
      RootIsLeastKey();
      expelled := Pop();
      Insert(key, count);
    }

    /** `Heap.ScaleDown`. */
    method ScaleDown()
      requires Valid()
      modifies this, Repr
      ensures Valid() && Repr <= old(Repr)
      ensures Contents == Halved(old(Contents))
    {
      HalveCounts();
      Init();
      DropZeros(old(Contents));
    }

    /** The halving loop of `ScaleDown`: every node's count, in place. */
    method HalveCounts()
      requires Indexed(nodes, Repr) && Keyed(Repr, byKey) && Tracked(Repr, Contents)
      modifies `Contents, Repr`count
      ensures Indexed(nodes, Repr) && Keyed(Repr, byKey) && Tracked(Repr, Contents)
      ensures Contents == HalfAll(old(Contents))
    {
      for i := 0 to |nodes|
        invariant Contents == old(Contents)
        invariant forall x :: x in Repr ==> x.count == if x.index < i then old(x.count) / 2 else old(x.count)
      {
        nodes[i].count := nodes[i].count / 2;
      }
      Contents := HalfAll(Contents);
    }

    /** The pruning loop of `ScaleDown`: pops while the root counts zero. */
    method DropZeros(ghost before: HeatMap)
      requires Valid() && Contents == HalfAll(before)
      modifies this, Repr
      ensures Valid() && Repr <= old(Repr)
      ensures Contents == Halved(before)
    {
      while |nodes| > 0 && nodes[0].count == 0
        invariant Valid() && Repr <= old(Repr)
        invariant Pruned(before, Contents)
        decreases |nodes|
      {
        PopZero(before);
      }
      if |nodes| > 0 {
        RootIsLeastKey();
      }
      PrunedAll(before, Contents);
    }

    method PopZero(ghost before: HeatMap)
      requires Valid() && nodes != [] && nodes[0].count == 0 && Pruned(before, Contents)
      modifies this, Repr
      ensures Valid() && Repr <= old(Repr) && Pruned(before, Contents)
      ensures |nodes| == |old(nodes)| - 1
    {
      RootIsLeastKey();
      var _ := Pop();
    }

    lemma DistinctKeys()
      requires Indexed(nodes, Repr) && Keyed(Repr, byKey)
      ensures forall i, j :: 0 <= i < j < |nodes| ==> nodes[i].key != nodes[j].key
    {
      DistinctNodes(nodes, Repr);
      forall i, j | 0 <= i < j < |nodes|
        ensures nodes[i].key != nodes[j].key
      {
        assert nodes[i] in Repr && nodes[j] in Repr;
      }
    }

    /** `Heap.Sorted`: the listing of the contents, whatever the layout; the heap is not touched. */
    method Sorted() returns (items: seq<Item>)
      requires Valid()
      ensures IsRanking(items, Contents)
      ensures forall i, j :: 0 <= i < j < |items| ==>
                items[i].count > items[j].count
                || (items[i].count == items[j].count && StrLess(items[i].key, items[j].key))
    {
      DistinctKeys();
      ghost var s := Records(nodes);
      items := [];
      for i := 0 to |nodes|
        invariant Descending(items)
        invariant forall x :: x in items <==> x in s[..i]
      {
        assert s[..i + 1] == s[..i] + [s[i]] && s[i] !in s[..i];
        items := InsertRanked(items, Item(nodes[i].key, nodes[i].count));
      }
      assert s[..|nodes|] == s;
      RecordsList(items);
      forall i, j | 0 <= i < j < |items|
        ensures items[i].count > items[j].count
                || (items[i].count == items[j].count && StrLess(items[i].key, items[j].key))
      {
        DescendingOrder(items, i, j);
      }
    }

    lemma RecordsList(items: seq<Item>)
      requires Valid() && forall x :: x in items <==> x in Records(nodes)
      ensures Lists(items, Contents)
    {
      var s := Records(nodes);
      forall i | 0 <= i < |items|
        ensures items[i].key in Contents && items[i].count == Contents[items[i].key]
      {
        assert items[i] in s;
        var j :| 0 <= j < |nodes| && s[j] == items[i];
        assert nodes[j] in Repr;
      }
      forall k | k in Contents
        ensures ItemAt(Contents, k) in items
      {
        var j := byKey[k].index;
        assert s[j] == ItemAt(Contents, k);
      }
    }
  }

  method InsertRanked(s: seq<Item>, x: Item) returns (t: seq<Item>)
    requires Descending(s) && x !in s
    ensures Descending(t) && forall y :: y in t <==> y in s || y == x
  {
    var p := 0;
    while p < |s| && Less(x, s[p])
      invariant 0 <= p <= |s|
      invariant forall i :: 0 <= i < p ==> Less(x, s[i])
    {
      p := p + 1;
    }
    forall i | p <= i < |s|
      ensures Less(s[i], x)
    {
      LessTotal(s[p], x);
      if i > p {
        LessTransitive(s[i], s[p], x);
      }
    }
    t := s[..p] + [x] + s[p..];
    assert s == s[..p] + s[p..];
  }
}
