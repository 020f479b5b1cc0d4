/**
 * The hot set as a plain map from key to count: the specification of the indexed min-heap,
 * and the ranking its `Sorted` listing has to produce.
 */
module TopK {
  import opened Wrappers
  import opened Order

  type HeatMap = map<string, uint32>

  ghost function ItemAt(m: HeatMap, k: string): Item
    requires k in m
  {
    Item(k, m[k])
  }

  ghost predicate IsLeast(m: HeatMap, k: string) {
    k in m && forall j {:trigger ItemAt(m, j)} :: j in m ==> Le(ItemAt(m, k), ItemAt(m, j))
  }

  lemma {:induction false} LeastExists(m: HeatMap)
    requires m != map[]
    ensures exists k :: IsLeast(m, k)
    decreases |m|
  {
    var x :| x in m;
    var rest := m - {x};
    LessTotal(ItemAt(m, x), ItemAt(m, x));
    if rest == map[] {
      assert forall j :: j in m ==> j == x || j in rest;
      assert IsLeast(m, x);
    } else {
      LeastExists(rest);
      var k :| IsLeast(rest, k);
      var best := if Less(ItemAt(m, x), ItemAt(m, k)) then x else k;
      forall j | j in m
        ensures Le(ItemAt(m, best), ItemAt(m, j))
      {
        LessTotal(ItemAt(m, x), ItemAt(m, k));
        if j == x {
        } else {
          assert j in rest && ItemAt(rest, j) == ItemAt(m, j) && ItemAt(rest, k) == ItemAt(m, k);
          if best == x {
            LeTransitive(ItemAt(m, x), ItemAt(m, k), ItemAt(m, j));
          }
        }
      }
      assert IsLeast(m, best);
    }
  }

  /** The least record is unique, so which one an eviction drops is determined. */
  lemma LeastUnique(m: HeatMap, j: string, k: string)
    requires IsLeast(m, j) && IsLeast(m, k)
    ensures j == k
  {
    LessTotal(ItemAt(m, j), ItemAt(m, k));
  }

  ghost function LeastKey(m: HeatMap): (k: string)
    requires m != map[]
    ensures IsLeast(m, k)
  {
    LeastExists(m);
    var k :| IsLeast(m, k);
    k
  }

  /** The least record has the least count, and among equal counts the largest key. */
  lemma LeastIsSmallest(m: HeatMap, j: string)
    requires j in m
    ensures var k := LeastKey(m);
            m[k] <= m[j] && (m[j] == m[k] && j != k ==> StrLess(j, k))
  {
    var k := LeastKey(m);
    assert Le(ItemAt(m, k), ItemAt(m, j));
    StrLessTotal(j, k);
  }

  /** `Heap.Min`. */
  ghost function MinCount(m: HeatMap): uint32 {
    if m == map[] then 0 else m[LeastKey(m)]
  }

  datatype Upserted = Upserted(heat: HeatMap, expelled: Option<Item>)

  /** `Heap.upsert` on the map. */
  ghost function Upsert(m: HeatMap, capacity: uint32, key: string, count: uint32): Upserted {
    if key in m then Upserted(m[key := count], None)
    else if capacity == 0 then Upserted(m, Some(Item(key, count)))
    else if |m| < capacity then Upserted(m[key := count], None)
    else if m != map[] && count > m[LeastKey(m)] then
      var least := LeastKey(m);
      Upserted((m - {least})[key := count], Some(ItemAt(m, least)))
    else Upserted(m, None)
  }

  ghost function HalfAll(m: HeatMap): (h: HeatMap)
    ensures h.Keys == m.Keys && |h| == |m|
    ensures forall k :: k in m ==> h[k] == m[k] / 2
  {
    var h: HeatMap := map k | k in m :: m[k] / 2;
    assert h.Keys == m.Keys && |h| == |h.Keys| && |m| == |m.Keys|;
    h
  }

  /** `Heap.ScaleDown` on the map: exactly the keys whose halved count is not zero stay. */
  ghost function Halved(m: HeatMap): (h: HeatMap)
    ensures forall k :: k in h <==> k in m && m[k] >= 2
    ensures forall k :: k in h ==> h[k] == m[k] / 2
    ensures |h| <= |m|
  {
    var h: HeatMap := map k | k in m && m[k] >= 2 :: m[k] / 2;
    assert h.Keys <= m.Keys;
    SubsetSize(h.Keys, m.Keys);
    h
  }

  /** `rest` is what is left of the halved counts after some zero counts were popped. */
  ghost predicate Pruned(m: HeatMap, rest: HeatMap) {
    && rest.Keys <= m.Keys
    && (forall k :: k in rest ==> rest[k] == m[k] / 2)
    && (forall k :: k in m && k !in rest ==> m[k] / 2 == 0)
  }

  /** Popping least records until the least is not zero leaves exactly the non-zero ones. */
  lemma PrunedAll(m: HeatMap, rest: HeatMap)
    requires Pruned(m, rest) && (rest != map[] ==> rest[LeastKey(rest)] > 0)
    ensures rest == Halved(m)
  {
    forall k | k in rest
      ensures rest[k] > 0
    {
      assert Le(ItemAt(rest, LeastKey(rest)), ItemAt(rest, k));
    }
  }

  lemma SubsetSize<T>(a: set<T>, b: set<T>)
    requires a <= b
    ensures |a| <= |b|
  {
    assert b == a + (b - a);
  }

  // ----- a stream of upserts keeps a true top-K -----

  ghost function Feed(capacity: uint32, stream: seq<Item>): HeatMap {
    if stream == [] then map[]
    else
      var last := stream[|stream| - 1];
      Upsert(Feed(capacity, stream[..|stream| - 1]), capacity, last.key, last.count).heat
  }

  /** The latest count given for each key. */
  ghost function Latest(stream: seq<Item>): HeatMap {
    if stream == [] then map[]
    else
      var last := stream[|stream| - 1];
      Latest(stream[..|stream| - 1])[last.key := last.count]
  }

  ghost predicate NeverDecreases(stream: seq<Item>) {
    forall i, j :: 0 <= i < j < |stream| && stream[i].key == stream[j].key ==> stream[i].count <= stream[j].count
  }

  /** Retained keys have their latest count; a key is left out only of a full heap, at or below its minimum. */
  ghost predicate IsTopK(capacity: uint32, heat: HeatMap, latest: HeatMap) {
    && heat.Keys <= latest.Keys
    && (forall k :: k in heat ==> heat[k] == latest[k])
    && |heat| <= capacity
    && (forall k :: k in latest && k !in heat ==> |heat| == capacity && (capacity > 0 ==> latest[k] <= MinCount(heat)))
  }

  lemma {:induction false} LatestOccurs(stream: seq<Item>, k: string)
    requires k in Latest(stream)
    ensures exists i :: 0 <= i < |stream| && stream[i] == Item(k, Latest(stream)[k])
  {
    var n := |stream| - 1;
    if stream[n].key != k {
      LatestOccurs(stream[..n], k);
      var i :| 0 <= i < |stream[..n]| && stream[..n][i] == Item(k, Latest(stream[..n])[k]);
      assert stream[i] == Item(k, Latest(stream)[k]);
    } else {
      assert stream[n] == Item(k, Latest(stream)[k]);
    }
  }

  lemma MinCountIsLeast(m: HeatMap, k: string)
    requires k in m
    ensures MinCount(m) <= m[k]
  {
    assert Le(ItemAt(m, LeastKey(m)), ItemAt(m, k));
  }

  /** An upsert of a count no smaller than before never lowers the minimum of a full heap. */
  lemma UpsertRaisesMin(capacity: uint32, heat: HeatMap, key: string, count: uint32)
    requires 0 < capacity == |heat| && (key in heat ==> heat[key] <= count)
    ensures var after := Upsert(heat, capacity, key, count).heat;
            |after| == capacity && MinCount(heat) <= MinCount(after)
  {
    var after := Upsert(heat, capacity, key, count).heat;
    assert |heat - {LeastKey(heat)}| == |heat| - 1;
    assert |after| == capacity;
    var k := LeastKey(after);
    if k in heat {
      MinCountIsLeast(heat, k);
    }
  }

  /** One upsert of a count no smaller than the key's latest keeps a true top-K. */
  lemma UpsertKeepsTopK(capacity: uint32, heat: HeatMap, latest: HeatMap, key: string, count: uint32)
    requires IsTopK(capacity, heat, latest)
    requires key in latest ==> latest[key] <= count
    ensures IsTopK(capacity, Upsert(heat, capacity, key, count).heat, latest[key := count])
  {
    if 0 < capacity == |heat| {
      UpsertRaisesMin(capacity, heat, key, count);
    }
  }

  /**
   * A stream in which no key's count decreases leaves the heap holding the latest count of
   * every retained key, and every key left out is at most every retained count.
   */
  lemma {:induction false} FeedIsTopK(capacity: uint32, stream: seq<Item>)
    requires NeverDecreases(stream)
    ensures IsTopK(capacity, Feed(capacity, stream), Latest(stream))
  {
    if stream != [] {
      var n := |stream| - 1;
      var before := stream[..n];
      var last := stream[n];
      FeedIsTopK(capacity, before);
      if last.key in Latest(before) {
        LatestOccurs(before, last.key);
      }
      UpsertKeepsTopK(capacity, Feed(capacity, before), Latest(before), last.key, last.count);
    }
  }

  // ----- the ranking -----

  /** Strictly descending in `Less`. */
  ghost predicate Descending(s: seq<Item>) {
    forall i, j :: 0 <= i < j < |s| ==> Less(s[j], s[i])
  }

  /** A descending listing: larger counts first, and among equal counts smaller keys first. */
  lemma DescendingOrder(s: seq<Item>, i: nat, j: nat)
    requires Descending(s) && i < j < |s|
    ensures s[i].count > s[j].count || (s[i].count == s[j].count && StrLess(s[i].key, s[j].key))
  {
    assert Less(s[j], s[i]);
  }

  /** An upsert expels a record of the least count, of these the one with the largest key, for a larger count only. */
  lemma ExpelledIsLeast(m: HeatMap, capacity: uint32, key: string, count: uint32, j: string)
    requires j in m && capacity > 0
    ensures var u := Upsert(m, capacity, key, count);
            u.expelled.Some? ==>
              && key !in m && |m| >= capacity
              && u.expelled.value.key in m && u.expelled.value.key !in u.heat
              && m[u.expelled.value.key] == u.expelled.value.count < count
              && u.expelled.value.count <= m[j]
              && (m[j] == u.expelled.value.count && j != u.expelled.value.key ==>
                    StrLess(j, u.expelled.value.key) && j in u.heat && u.heat[j] == m[j])
  {
    LeastIsSmallest(m, j);
  }

  ghost predicate Lists(s: seq<Item>, m: HeatMap) {
    && (forall i :: 0 <= i < |s| ==> s[i].key in m && s[i].count == m[s[i].key])
    && (forall k {:trigger ItemAt(m, k)} :: k in m ==> ItemAt(m, k) in s)
  }

  /** The listing of a hot set: a strictly ranked permutation of its records. */
  ghost predicate IsRanking(s: seq<Item>, m: HeatMap) {
    Descending(s) && Lists(s, m)
  }

  /** The least record comes last in a listing. */
  lemma LastIsLeast(s: seq<Item>, m: HeatMap)
    requires IsRanking(s, m) && m != map[]
    ensures s != [] && s[|s| - 1] == ItemAt(m, LeastKey(m))
  {
    var k := LeastKey(m);
    var n := |s| - 1;
    var i :| 0 <= i < |s| && s[i] == ItemAt(m, k);
    assert Le(ItemAt(m, k), ItemAt(m, s[n].key));
  }

  lemma LeastIsLast(s: seq<Item>, m: HeatMap)
    requires IsRanking(s, m) && m != map[]
    ensures s != [] && s == s[..|s| - 1] + [ItemAt(m, LeastKey(m))]
    ensures |m - {LeastKey(m)}| == |m| - 1
    ensures IsRanking(s[..|s| - 1], m - {LeastKey(m)})
  {
    LastIsLeast(s, m);
    ListsOneLess(s, m);
  }

  /** Without its last record a listing lists the other keys. */
  lemma ListsOneLess(s: seq<Item>, m: HeatMap)
    requires IsRanking(s, m) && s != []
    ensures Lists(s[..|s| - 1], m - {s[|s| - 1].key})
  {
    var n := |s| - 1;
    var t, rest := s[..n], m - {s[n].key};
    RankingKeysDiffer(s, m);
    forall j | j in rest
      ensures ItemAt(rest, j) in t
    {
      var i :| 0 <= i < |s| && s[i] == ItemAt(m, j);
      assert t[i] == ItemAt(rest, j);
    }
  }

  lemma ListedKey(s: seq<Item>, m: HeatMap)
    requires IsRanking(s, m) && s != []
    ensures s[0].key in m
  {
  }

  /** The listing depends only on the map, not on the layout it was made from. */
  lemma {:induction false} RankingUnique(s: seq<Item>, t: seq<Item>, m: HeatMap)
    requires IsRanking(s, m) && IsRanking(t, m)
    ensures s == t && |s| == |m|
    decreases |m|
  {
    if m == map[] {
      if s != [] {
        ListedKey(s, m);
        assert false;
      }
      if t != [] {
        ListedKey(t, m);
        assert false;
      }
    } else {
      LeastIsLast(s, m);
      LeastIsLast(t, m);
      RankingUnique(s[..|s| - 1], t[..|t| - 1], m - {LeastKey(m)});
    }
  }

  /** Appending the least record to the listing of the others lists them all. */
  lemma AppendLeast(front: seq<Item>, m: HeatMap, k: string)
    requires IsLeast(m, k) && IsRanking(front, m - {k})
    ensures IsRanking(front + [ItemAt(m, k)], m)
  {
    var s, rest := front + [ItemAt(m, k)], m - {k};
    forall i | 0 <= i < |front|
      ensures Less(ItemAt(m, k), s[i])
    {
      assert front[i].key in rest && Le(ItemAt(m, k), ItemAt(m, front[i].key));
      LessTotal(ItemAt(m, k), s[i]);
    }
    forall j | j in m
      ensures ItemAt(m, j) in s
    {
      if j == k {
        assert s[|front|] == ItemAt(m, k);
      } else {
        assert ItemAt(rest, j) in front;
      }
    }
  }

  /** The listing of a hot set. */
  ghost function Ranking(m: HeatMap): (s: seq<Item>)
    ensures IsRanking(s, m)
    decreases |m|
  {
    if m == map[] then []
    else
      var k := LeastKey(m);
      var front := Ranking(m - {k});
      AppendLeast(front, m, k);
      front + [ItemAt(m, k)]
  }

  lemma RankingKeysDiffer(s: seq<Item>, m: HeatMap)
    requires IsRanking(s, m)
    ensures forall i, j :: 0 <= i < j < |s| ==> s[i].key != s[j].key
  {
    forall i, j | 0 <= i < j < |s|
      ensures s[i].key != s[j].key
    {
      LessTotal(s[i], s[j]);
    }
  }
}
