/** The HeavyKeeper object: a bucket table updated in place beside the indexed min-heap. */
module HeavyKeeper {
  import opened Order
  import opened TopK
  import opened Sketch
  import SketchRuns
  import MinHeap

  /** The array holds the table. */
  ghost predicate Stores(buckets: array2<Bucket>, c: Config, rows: Table)
    reads buckets
  {
    && buckets.Length0 == c.depth && buckets.Length1 == c.width && Shaped(c, rows)
    && forall i, j :: 0 <= i < c.depth && 0 <= j < c.width ==> buckets[i, j] == rows[i][j]
  }

  ghost predicate Powers(lookup: array<real>, c: Config)
    reads lookup
  {
    lookup.Length == LOOKUP_TABLE && forall i :: 0 <= i < LOOKUP_TABLE ==> lookup[i] == c.power(i)
  }

  /** The decay loop of `add`: every table index is in range and no count falls below zero. */
  method ErodeLoop(buckets: array2<Bucket>, lookup: array<real>, c: Config, i: nat, j: nat, fp: uint32, incr: uint32,
                   draw: Draw) returns (seen: uint32)
    requires Powers(lookup, c) && i < buckets.Length0 && j < buckets.Length1
    requires buckets[i, j].count > 0 && buckets[i, j].fingerprint != fp
    modifies buckets
    ensures buckets[i, j] == Erode(c, old(buckets[i, j]), fp, incr, i, draw)
    ensures seen == Seen(buckets[i, j], fp)
    ensures forall r, k :: 0 <= r < buckets.Length0 && 0 <= k < buckets.Length1 && (r != i || k != j) ==>
              buckets[r, k] == old(buckets[r, k])
  {
    var left := incr;
    while left > 0
      invariant buckets[i, j].count > 0 && buckets[i, j].fingerprint != fp && 0 <= left <= incr
      invariant Erode(c, buckets[i, j], fp, left, i, draw) == Erode(c, old(buckets[i, j]), fp, incr, i, draw)
      invariant forall r, k :: 0 <= r < buckets.Length0 && 0 <= k < buckets.Length1 && (r != i || k != j) ==>
                  buckets[r, k] == old(buckets[r, k])
    {
      var count := buckets[i, j].count;
      var decay := lookup[if count < LOOKUP_TABLE then count else LOOKUP_TABLE - 1];
      if draw(i, left) < decay {
        buckets[i, j] := buckets[i, j].(count := count - 1);
        if buckets[i, j].count == 0 {
          buckets[i, j] := Bucket(fp, left);
          return left;
        }
      }
      left := left - 1;
    }
    return 0;
  }

  /** One row of `add`. */
  method TouchRow(buckets: array2<Bucket>, lookup: array<real>, c: Config, i: nat, key: string, incr: uint32, draw: Draw)
    returns (seen: uint32)
    requires Powers(lookup, c) && buckets.Length0 == c.depth && buckets.Length1 == c.width && i < c.depth
    modifies buckets
    ensures var j := Slot(c, i, key);
            && buckets[i, j] == Touch(c, old(buckets[i, j]), c.fingerprint(key), incr, i, draw)
            && seen == Seen(buckets[i, j], c.fingerprint(key))
            && forall r, k :: 0 <= r < c.depth && 0 <= k < c.width && (r != i || k != j) ==>
                 buckets[r, k] == old(buckets[r, k])
  {
    var fp := c.fingerprint(key);
    var j := Slot(c, i, key);
    var b := buckets[i, j];
    if b.count == 0 {
      buckets[i, j] := Bucket(fp, incr);
      return incr;
    } else if b.fingerprint == fp {
      buckets[i, j] := b.(count := (b.count + incr) % UINT32);
      return buckets[i, j].count;
    } else {
      seen := ErodeLoop(buckets, lookup, c, i, j, fp, incr, draw);
    }
  }

  /** The row loop of `add`. */
  method TouchAll(buckets: array2<Bucket>, lookup: array<real>, c: Config, ghost rows: Table, key: string, incr: uint32,
                  draw: Draw) returns (maxCount: uint32)
    requires Powers(lookup, c) && Stores(buckets, c, rows)
    modifies buckets
    ensures Stores(buckets, c, TouchRows(c, rows, key, incr, draw))
    ensures maxCount == Estimate(c, TouchRows(c, rows, key, incr, draw), key)
  {
    maxCount := 0;
    ghost var after := TouchRows(c, rows, key, incr, draw);
    for i := 0 to c.depth
      invariant forall r, k :: 0 <= r < c.depth && 0 <= k < c.width ==>
                  buckets[r, k] == if r < i then after[r][k] else rows[r][k]
      invariant Peak(c, after, key, i, maxCount)
    {
      var seen := TouchRow(buckets, lookup, c, i, key, incr, draw);
      PeakNext(c, after, key, i, maxCount);
      if seen > maxCount {
        maxCount := seen;
      }
    }
    PeakIsEstimate(c, after, key, maxCount);
  }

  /** The bucket loop of `Fading`. */
  method FadeAll(buckets: array2<Bucket>, c: Config, ghost rows: Table)
    requires Stores(buckets, c, rows)
    modifies buckets
    ensures Stores(buckets, c, Fade(c, rows))
  {
    ghost var after := Fade(c, rows);
    for i := 0 to c.depth
      invariant forall r, k :: 0 <= r < c.depth && 0 <= k < c.width ==>
                  buckets[r, k] == if r < i then after[r][k] else rows[r][k]
    {
      for j := 0 to c.width
        invariant forall r, k :: 0 <= r < c.depth && 0 <= k < c.width ==>
                    buckets[r, k] == if r < i || (r == i && k < j) then after[r][k] else rows[r][k]
      {
        buckets[i, j] := buckets[i, j].(count := buckets[i, j].count / 2);
      }
    }
  }

  /** The second half of `add`: promotion of the estimated key into the hot set. */
  method PromoteKey(heap: MinHeap.Heap, c: Config, key: string, maxCount: uint32) returns (expelled: string, ok: bool)
    requires heap.Valid() && heap.capacity == c.capacity
    modifies heap, heap.Repr
    ensures heap.Valid() && fresh(heap.Repr - old(heap.Repr))
    ensures Added(heap.Contents, expelled, ok) == Promote(c, old(heap.Contents), key, maxCount)
  {
    hide MinHeap.Heap.Valid, MinCount, TopK.Upsert;
    expelled, ok := "", false;
    if maxCount < c.minCount {
      return;
    }
    var least := heap.Min();
    if |heap.nodes| == c.capacity && maxCount < least {
      return;
    }
    ok := true;
    var index, found := heap.Find(key);
    if found {
      heap.Fix(index, maxCount);
    } else {
      var node := heap.Upsert(key, maxCount);
      if node != null {
        expelled := node.key;
      }
    }
  }

  lemma RestoreNothing(c: Config, items: seq<Item>, draws: nat -> Draw)
    ensures Run(c, SketchRuns.RestoreOps(items[..0], draws)) == Empty(c)
  {
    assert SketchRuns.RestoreOps(items[..0], draws) == [Op.Reset];
  }

  /** One more item of a restore. */
  lemma RestoreNext(c: Config, items: seq<Item>, draws: nat -> Draw, i: nat)
    requires i < |items|
    ensures var s, x := Run(c, SketchRuns.RestoreOps(items[..i], draws)), items[i];
            Run(c, SketchRuns.RestoreOps(items[..i + 1], draws))
            == if x.key == "" || x.count == 0 then s else AddTo(c, s, x.key, x.count, draws(i))
  {
    SketchRuns.RestoreOpsNext(items, draws, i);
  }

  class HeavyKeeper {
    const cfg: Config
    const lookupTable: array<real>
    const buckets: array2<Bucket>
    var minHeap: MinHeap.Heap
    var total: nat
    ghost var Model: Sketch

    ghost predicate Valid()
      reads this, lookupTable, buckets, minHeap, minHeap.Repr
    {
      && Powers(lookupTable, cfg) && Stores(buckets, cfg, Model.rows)
      && minHeap.Valid() && minHeap.capacity == cfg.capacity && minHeap.Contents == Model.heat
      && total == Model.total && WellFormed(cfg, Model)
    }

    lemma ModelIsWellFormed()
      requires Valid()
      ensures WellFormed(cfg, Model)
    {
    }

    /** `NewHeavyKeeper`. */
    constructor (c: Config)
      ensures Valid() && cfg == c && Model == Empty(c)
      ensures fresh(buckets) && fresh(lookupTable) && fresh(minHeap) && minHeap.Repr == {}
    {
      cfg := c;
      lookupTable := new real[LOOKUP_TABLE](i requires 0 <= i => c.power(i));
      buckets := new Bucket[c.depth, c.width]((i, j) => Bucket(0, 0));
      minHeap := new MinHeap.Heap(c.capacity);
      total := 0;
      Model := Empty(c);
    }

    /** The table half of `add`. */
    method TouchTable(key: string, incr: uint32, draw: Draw) returns (maxCount: uint32)
      requires Valid()
      modifies buckets
      ensures Stores(buckets, cfg, TouchRows(cfg, Model.rows, key, incr, draw))
      ensures maxCount == Estimate(cfg, TouchRows(cfg, Model.rows, key, incr, draw), key)
      ensures minHeap.Valid()
    {
      maxCount := TouchAll(buckets, lookupTable, cfg, Model.rows, key, incr, draw);
      assert minHeap.Valid() == old(minHeap.Valid());
    }

    /** `HeavyKeeper.Add`. */
    method Add(key: string, incr: uint32, draw: Draw) returns (expelled: string, ok: bool)
      requires Valid()
      modifies `total, `Model, buckets, minHeap, minHeap.Repr
      ensures Valid() && fresh(minHeap.Repr - old(minHeap.Repr))
      ensures Model == AddTo(cfg, old(Model), key, incr, draw)
      ensures Added(Model.heat, expelled, ok) == Outcome(cfg, old(Model), key, incr, draw)
    {
      hide MinHeap.Heap.Valid, Stores, Promote, Estimate, WellFormed, TouchRows;
      ghost var next := AddTo(cfg, Model, key, incr, draw);
      var maxCount := TouchTable(key, incr, draw);
      expelled, ok := PromoteKey(minHeap, cfg, key, maxCount);
      total := (total + incr) % UINT64;
      Model := next;
    }

    /** The heap's part of `Remove`; the table is not touched. */
    method RemoveHot(key: string, ghost rows: Table)
      requires minHeap.Valid() && Stores(buckets, cfg, rows) && Powers(lookupTable, cfg)
      modifies minHeap, minHeap.Repr
      ensures minHeap.Valid() && minHeap.Repr <= old(minHeap.Repr)
      ensures Stores(buckets, cfg, rows) && Powers(lookupTable, cfg)
      ensures minHeap.Contents == old(minHeap.Contents) - {key}
    {
      hide *;
      var _ := minHeap.Remove(key);
    }

    /** `HeavyKeeper.Remove`. */
    method Remove(key: string)
      requires Valid()
      modifies `Model, minHeap, minHeap.Repr
      ensures Valid() && minHeap.Repr <= old(minHeap.Repr)
      ensures Model == RemoveFrom(cfg, old(Model), key)
    {
      hide MinHeap.Heap.Valid, Powers, Stores, WellFormed;
      ghost var next := RemoveFrom(cfg, Model, key);
      RemoveHot(key, next.rows);
      Model := next;
    }

    /** The table half of `Fading`. */
    method FadeTable()
      requires Valid()
      modifies buckets
      ensures Stores(buckets, cfg, Fade(cfg, Model.rows)) && minHeap.Valid()
    {
      FadeAll(buckets, cfg, Model.rows);
      assert minHeap.Valid() == old(minHeap.Valid());
    }

    /** The heap half of `Fading`; the table is not touched. */
    method FadeHeap(ghost rows: Table)
      requires minHeap.Valid() && Stores(buckets, cfg, rows) && Powers(lookupTable, cfg)
      modifies minHeap, minHeap.Repr
      ensures minHeap.Valid() && minHeap.Repr <= old(minHeap.Repr)
      ensures Stores(buckets, cfg, rows) && Powers(lookupTable, cfg)
      ensures minHeap.Contents == Halved(old(minHeap.Contents))
    {
      hide *;
      minHeap.ScaleDown();
    }

    /** `HeavyKeeper.Fading`. */
    method Fading()
      requires Valid()
      modifies `total, `Model, buckets, minHeap, minHeap.Repr
      ensures Valid() && minHeap.Repr <= old(minHeap.Repr)
      ensures Model == FadeOf(cfg, old(Model))
    {
      hide MinHeap.Heap.Valid, Powers, Stores, WellFormed, Fade, Halved;
      ghost var next := FadeOf(cfg, Model);
      FadeTable();
      FadeHeap(next.rows);
      total := total / 2;
      Model := next;
    }

    /** `HeavyKeeper.Reset`. */
    method Reset()
      requires Valid()
      modifies `minHeap, `total, `Model, buckets
      ensures Valid() && fresh(minHeap) && minHeap.Repr == {}
      ensures Model == Empty(cfg)
    {
      hide MinHeap.Heap.Valid;
      forall i, j | 0 <= i < buckets.Length0 && 0 <= j < buckets.Length1 {
        buckets[i, j] := Bucket(0, 0);
      }
      minHeap := new MinHeap.Heap(cfg.capacity);
      total := 0;
      Model := Empty(cfg);
    }

    /** `HeavyKeeper.Restore`: a reset and one addition for each item with a key and a count. */
    method Restore(items: seq<Item>, draws: nat -> Draw)
      requires Valid()
      modifies `minHeap, `total, `Model, buckets
      ensures Valid() && fresh(minHeap) && fresh(minHeap.Repr)
      ensures Model == Run(cfg, SketchRuns.RestoreOps(items, draws))
    {
      hide *;
      Reset();
      RestoreNothing(cfg, items, draws);
      for i := 0 to |items|
        invariant Valid() && fresh(minHeap) && fresh(minHeap.Repr)
        invariant Model == Run(cfg, SketchRuns.RestoreOps(items[..i], draws))
      {
        var item := items[i];
        RestoreNext(cfg, items, draws, i);
        if item.key != "" && item.count != 0 {
          var _, _ := Add(item.key, item.count, draws(i));
        }
      }
      assert items[..|items|] == items;
    }

    /** `HeavyKeeper.List`: the ranked hot set, which the hot set alone determines. */
    method List() returns (items: seq<Item>)
      requires Valid()
      ensures items == Ranking(Model.heat)
    {
      items := minHeap.Sorted();
      RankingUnique(items, Ranking(Model.heat), Model.heat);
    }
  }
}
