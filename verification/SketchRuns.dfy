/** What holds of the sketch after every run: no over-estimation, row sums, exactness, restore. */
module SketchRuns {
  import opened Order
  import opened TopK
  import opened Sketch

  // ----- the reference counter -----

  /** All increments of one fingerprint, halved at each `Fading` and zeroed at each `Reset`. */
  ghost function Reference(c: Config, ops: seq<Op>, fp: uint32): nat {
    if ops == [] then 0
    else
      var before := Reference(c, ops[..|ops| - 1], fp);
      match ops[|ops| - 1]
      case Add(key, incr, _) => if c.fingerprint(key) == fp then before + incr else before
      case Fading => before / 2
      case Remove(_) => before
      case Reset => 0
  }

  ghost predicate Bounded(c: Config, ops: seq<Op>, s: Sketch)
    requires Shaped(c, s.rows)
  {
    && (forall i, j :: 0 <= i < c.depth && 0 <= j < c.width ==>
          s.rows[i][j].count <= Reference(c, ops, s.rows[i][j].fingerprint))
    && (forall k :: k in s.heat ==> s.heat[k] <= Reference(c, ops, c.fingerprint(k)))
  }

  /** A promotion changes the record of its own key only, apart from dropping records. */
  lemma PromoteFrame(c: Config, heat: HeatMap, key: string, estimate: uint32)
    ensures var after := Promote(c, heat, key, estimate).heat;
            forall k :: k in after ==> (k in heat && after[k] == heat[k]) || (k == key && after[k] == estimate)
  {
  }

  lemma TouchRowsBounded(c: Config, ops: seq<Op>, rows: Table)
    requires Shaped(c, rows) && ops != [] && ops[|ops| - 1].Add?
    requires forall i, j :: 0 <= i < c.depth && 0 <= j < c.width ==>
               rows[i][j].count <= Reference(c, ops[..|ops| - 1], rows[i][j].fingerprint)
    ensures var last := ops[|ops| - 1];
            var after: Table := TouchRows(c, rows, last.key, last.incr, last.draw);
            forall i, j :: 0 <= i < c.depth && 0 <= j < c.width ==>
              after[i][j].count <= Reference(c, ops, after[i][j].fingerprint)
  {
    var last := ops[|ops| - 1];
    var after: Table := TouchRows(c, rows, last.key, last.incr, last.draw);
    forall i, j | 0 <= i < c.depth && 0 <= j < c.width
      ensures after[i][j].count <= Reference(c, ops, after[i][j].fingerprint)
    {
      if j == Slot(c, i, last.key) {
        TouchBound(c, rows[i][j], c.fingerprint(last.key), last.incr, i, last.draw);
      }
    }
  }

  lemma EstimateBounded(c: Config, ops: seq<Op>, rows: Table, key: string)
    requires Shaped(c, rows)
    requires forall i, j :: 0 <= i < c.depth && 0 <= j < c.width ==>
               rows[i][j].count <= Reference(c, ops, rows[i][j].fingerprint)
    ensures Estimate(c, rows, key) <= Reference(c, ops, c.fingerprint(key))
  {
    var m := Estimate(c, rows, key);
    if m > 0 {
      var i :| 0 <= i < c.depth && SeenAt(c, rows, key, i) == m;
    }
  }

  lemma ApplyBounded(c: Config, ops: seq<Op>, s: Sketch)
    requires ops != [] && WellFormed(c, s) && Bounded(c, ops[..|ops| - 1], s)
    ensures Bounded(c, ops, Apply(c, s, ops[|ops| - 1]))
  {
    match ops[|ops| - 1]
    case Add(key, incr, draw) =>
      TouchRowsBounded(c, ops, s.rows);
      var rows := TouchRows(c, s.rows, key, incr, draw);
      EstimateBounded(c, ops, rows, key);
      PromoteFrame(c, s.heat, key, Estimate(c, rows, key));
    case Fading =>
    case Remove(_) =>
    case Reset =>
  }

  /**
   * No over-estimation: after every run and for all random draws, every bucket and every hot-set
   * record is at most the reference count of its fingerprint, even where a bucket wrapped around.
   */
  lemma {:induction false} NeverOverestimates(c: Config, ops: seq<Op>)
    ensures Bounded(c, ops, Run(c, ops))
  {
    if ops != [] {
      NeverOverestimates(c, ops[..|ops| - 1]);
      ApplyBounded(c, ops, Run(c, ops[..|ops| - 1]));
    }
  }

  // ----- row sums -----

  ghost function RowSum(row: seq<Bucket>): nat {
    if row == [] then 0 else RowSum(row[..|row| - 1]) + row[|row| - 1].count
  }

  /** All increments, halved at each `Fading` and zeroed at each `Reset`: `total` without wrap-around. */
  ghost function ReferenceTotal(ops: seq<Op>): nat {
    if ops == [] then 0
    else
      var before := ReferenceTotal(ops[..|ops| - 1]);
      match ops[|ops| - 1]
      case Add(_, incr, _) => before + incr
      case Fading => before / 2
      case Remove(_) => before
      case Reset => 0
  }

  lemma {:induction false} RowSumUpdate(row: seq<Bucket>, j: nat, b: Bucket)
    requires j < |row|
    ensures RowSum(row[j := b]) == RowSum(row) - row[j].count + b.count
  {
    var n := |row| - 1;
    if j < n {
      RowSumUpdate(row[..n], j, b);
      assert row[j := b][..n] == row[..n][j := b];
    } else {
      assert row[j := b][..n] == row[..n];
    }
  }

  lemma {:induction false} RowSumHalved(row: seq<Bucket>, half: seq<Bucket>)
    requires |half| == |row| && forall j :: 0 <= j < |row| ==> half[j].count == row[j].count / 2
    ensures 2 * RowSum(half) <= RowSum(row)
  {
    if row != [] {
      RowSumHalved(row[..|row| - 1], half[..|row| - 1]);
    }
  }

  lemma {:induction false} RowSumBlank(row: seq<Bucket>)
    requires forall j :: 0 <= j < |row| ==> row[j].count == 0
    ensures RowSum(row) == 0
  {
    if row != [] {
      RowSumBlank(row[..|row| - 1]);
    }
  }

  lemma ApplyRowSum(c: Config, s: Sketch, op: Op, i: nat)
    requires WellFormed(c, s) && i < c.depth
    ensures var sum := RowSum(Apply(c, s, op).rows[i]);
            match op
            case Add(_, incr, _) => sum <= RowSum(s.rows[i]) + incr
            case Fading => 2 * sum <= RowSum(s.rows[i])
            case Remove(_) => sum == RowSum(s.rows[i])
            case Reset => sum == 0
  {
    var after := Apply(c, s, op).rows;
    match op
    case Add(key, incr, draw) =>
      var j := Slot(c, i, key);
      TouchBound(c, s.rows[i][j], c.fingerprint(key), incr, i, draw);
      RowSumUpdate(s.rows[i], j, after[i][j]);
      assert after[i] == s.rows[i][j := after[i][j]];
    case Fading => RowSumHalved(s.rows[i], after[i]);
    case Remove(_) =>
    case Reset => RowSumBlank(after[i]);
  }

  /** After every run each row holds at most the reference total. */
  lemma {:induction false} RowsWithinTotal(c: Config, ops: seq<Op>, i: nat)
    requires i < c.depth
    ensures RowSum(Run(c, ops).rows[i]) <= ReferenceTotal(ops)
  {
    if ops == [] {
      RowSumBlank(Run(c, ops).rows[i]);
    } else {
      var n := |ops| - 1;
      RowsWithinTotal(c, ops[..n], i);
      ApplyRowSum(c, Run(c, ops[..n]), ops[n], i);
    }
  }

  ghost predicate TotalFits(ops: seq<Op>) {
    ReferenceTotal(ops) < UINT64 && (ops != [] ==> TotalFits(ops[..|ops| - 1]))
  }

  /** As long as the reference total never reached 2^64, `total` is exactly that reference. */
  lemma {:induction false} TotalIsExact(c: Config, ops: seq<Op>)
    requires TotalFits(ops)
    ensures Run(c, ops).total == ReferenceTotal(ops)
  {
    if ops != [] {
      var n := |ops| - 1;
      TotalIsExact(c, ops[..n]);
      ApplyTotal(c, Run(c, ops[..n]), ops[n]);
    }
  }

  lemma ApplyTotal(c: Config, s: Sketch, op: Op)
    requires WellFormed(c, s)
    ensures var total := Apply(c, s, op).total;
            match op
            case Add(_, incr, _) => s.total + incr < UINT64 ==> total == s.total + incr
            case Fading => total == s.total / 2
            case Remove(_) => total == s.total
            case Reset => total == 0
  {
    if op.Add? && s.total + op.incr < UINT64 {
      assert (s.total + op.incr) % UINT64 == s.total + op.incr;
    }
  }

  /** So each row sums to at most the stored `total`, provided that never wrapped around. */
  lemma RowsWithinStoredTotal(c: Config, ops: seq<Op>, i: nat)
    requires i < c.depth && TotalFits(ops)
    ensures RowSum(Run(c, ops).rows[i]) <= Run(c, ops).total
  {
    RowsWithinTotal(c, ops, i);
    TotalIsExact(c, ops);
  }

  // ----- one operation, bucket by bucket -----

  /**
   * An addition of one, after every run: in each row the key's bucket is taken if free, counted up if
   * its own, and otherwise weakened, taken over or kept as its draw decides; no other bucket changes.
   */
  lemma AddOneBucket(c: Config, ops: seq<Op>, key: string, draw: Draw, i: nat, j: nat)
    requires i < c.depth && j < c.width
    ensures var b, after := Run(c, ops).rows[i][j], Run(c, ops + [Add(key, 1, draw)]).rows[i][j];
            var limit := c.power(if b.count < 256 then b.count else 255);
            if j != Slot(c, i, key) then after == b
            else if b.count == 0 then after == Bucket(c.fingerprint(key), 1)
            else if b.fingerprint == c.fingerprint(key) then
              after.fingerprint == b.fingerprint && after.count == if b.count == 0xFFFF_FFFF then 0 else b.count + 1
            else if draw(i, 1) >= limit then after == b
            else if b.count > 1 then after == b.(count := b.count - 1)
            else after == Bucket(c.fingerprint(key), 1)
  {
    var b, fp := Run(c, ops).rows[i][j], c.fingerprint(key);
    assert (ops + [Add(key, 1, draw)])[..|ops|] == ops;
    if b.count == 0 || b.fingerprint == fp {
      TouchOwn(c, b, fp, 1, i, draw);
    } else {
      ErodeOne(c, b, fp, i, draw);
    }
  }

  /** Removal forgets its key in the hot set, and nothing else. */
  lemma RemoveForgets(c: Config, ops: seq<Op>, key: string)
    ensures var s, after := Run(c, ops), Run(c, ops + [Remove(key)]);
            && key !in after.heat && after.rows == s.rows && after.total == s.total
            && (forall k :: k != key ==> (k in after.heat <==> k in s.heat) && (k in s.heat ==> after.heat[k] == s.heat[k]))
  {
    assert (ops + [Remove(key)])[..|ops|] == ops;
  }

  /** A reset leaves nothing. */
  lemma ResetEmpties(c: Config, ops: seq<Op>, i: nat, j: nat)
    requires i < c.depth && j < c.width
    ensures var after := Run(c, ops + [Reset]);
            after.heat == map[] && after.total == 0 && after.rows[i][j] == Bucket(0, 0)
  {
    assert (ops + [Reset])[..|ops|] == ops;
  }

  /** An addition counts into the total, modulo 2^64. */
  lemma AddTotal(c: Config, ops: seq<Op>, key: string, incr: uint32, draw: Draw)
    ensures var sum := Run(c, ops).total + incr;
            Run(c, ops + [Add(key, incr, draw)]).total
            == if sum < 0x1_0000_0000_0000_0000 then sum else sum - 0x1_0000_0000_0000_0000
  {
    hide TouchRows, Outcome;
    assert (ops + [Add(key, incr, draw)])[..|ops|] == ops;
    Wrap64(Run(c, ops).total + incr);
  }

  lemma Wrap64(x: nat)
    requires x < 2 * 0x1_0000_0000_0000_0000
    ensures x % UINT64 == if x < 0x1_0000_0000_0000_0000 then x else x - 0x1_0000_0000_0000_0000
  {
  }

  /** The expelled key an addition reports is the one key that leaves the hot set, if any does. */
  lemma AddReports(c: Config, ops: seq<Op>, key: string, incr: uint32, draw: Draw)
    requires c.capacity > 0
    ensures var s := Run(c, ops);
            var a := Outcome(c, s, key, incr, draw);
            && (a.expelled != "" ==> a.ok && a.expelled in s.heat && a.expelled !in a.heat)
            && (forall k :: k in s.heat && k !in a.heat ==> k == a.expelled)
  {
  }

  // ----- exactness -----

  /** The true count of a key: its own increments, halved at each `Fading`, zeroed at each `Reset`. */
  ghost function Exact(ops: seq<Op>, key: string): nat {
    if ops == [] then 0
    else
      var before := Exact(ops[..|ops| - 1], key);
      match ops[|ops| - 1]
      case Add(k, incr, _) => if k == key then before + incr else before
      case Fading => before / 2
      case Remove(_) => before
      case Reset => 0
  }

  /** The true count never leaves uint32. */
  ghost predicate CountFits(ops: seq<Op>, key: string) {
    Exact(ops, key) < UINT32 && (ops != [] ==> CountFits(ops[..|ops| - 1], key))
  }

  /** No other key of the run has the fingerprint of `key`. */
  ghost predicate OwnFingerprint(c: Config, ops: seq<Op>, key: string) {
    forall i :: 0 <= i < |ops| && ops[i].Add? && ops[i].key != key ==> c.fingerprint(ops[i].key) != c.fingerprint(key)
  }

  /** No other key of the run lands in the bucket of `key` in row `r`. */
  ghost predicate OwnBucket(c: Config, ops: seq<Op>, key: string, r: nat) {
    r < c.depth && forall i :: 0 <= i < |ops| && ops[i].Add? && ops[i].key != key ==> Slot(c, r, ops[i].key) != Slot(c, r, key)
  }

  ghost predicate Holds(b: Bucket, fp: uint32, n: nat) {
    b.count == n && (n > 0 ==> b.fingerprint == fp)
  }

  lemma {:induction false} ReferenceIsExact(c: Config, ops: seq<Op>, key: string)
    requires OwnFingerprint(c, ops, key)
    ensures Reference(c, ops, c.fingerprint(key)) == Exact(ops, key)
  {
    if ops != [] {
      ReferenceIsExact(c, ops[..|ops| - 1], key);
    }
  }

  /** The unshared bucket of a key counts it exactly. */
  lemma {:induction false} OwnBucketIsExact(c: Config, ops: seq<Op>, key: string, r: nat)
    requires OwnBucket(c, ops, key, r) && CountFits(ops, key)
    ensures Holds(Run(c, ops).rows[r][Slot(c, r, key)], c.fingerprint(key), Exact(ops, key))
  {
    if ops != [] {
      var n := |ops| - 1;
      OwnBucketIsExact(c, ops[..n], key, r);
      ApplyOwnBucket(c, Run(c, ops[..n]), ops[n], key, r, Exact(ops[..n], key));
    }
  }

  lemma ApplyOwnBucket(c: Config, s: Sketch, op: Op, key: string, r: nat, n: nat)
    requires WellFormed(c, s) && r < c.depth && Holds(s.rows[r][Slot(c, r, key)], c.fingerprint(key), n)
    requires op.Add? && op.key != key ==> Slot(c, r, op.key) != Slot(c, r, key)
    requires op.Add? && op.key == key ==> n + op.incr < UINT32
    ensures var b := Apply(c, s, op).rows[r][Slot(c, r, key)];
            match op
            case Add(k, incr, _) => Holds(b, c.fingerprint(key), if k == key then n + incr else n)
            case Fading => Holds(b, c.fingerprint(key), n / 2)
            case Remove(_) => Holds(b, c.fingerprint(key), n)
            case Reset => Holds(b, c.fingerprint(key), 0)
  {
    if op.Add? && op.key == key {
      assert (n + op.incr) % UINT32 == n + op.incr;
    }
  }

  /** After every run the estimate of a key with its own fingerprint and an unshared bucket is its true count. */
  lemma EstimateIsExact(c: Config, ops: seq<Op>, key: string, r: nat)
    requires OwnFingerprint(c, ops, key) && OwnBucket(c, ops, key, r) && CountFits(ops, key)
    ensures Estimate(c, Run(c, ops).rows, key) == Exact(ops, key)
  {
    var rows := Run(c, ops).rows;
    OwnBucketIsExact(c, ops, key, r);
    ReferenceIsExact(c, ops, key);
    NeverOverestimates(c, ops);
    EstimateBounded(c, ops, rows, key);
    assert SeenAt(c, rows, key, r) == Exact(ops, key);
  }

  /** With a positive minimum count no hot-set record is ever zero: `Fading` drops the zeros. */
  lemma {:induction false} HotCountsPositive(c: Config, ops: seq<Op>)
    requires c.minCount > 0
    ensures forall k :: k in Run(c, ops).heat ==> Run(c, ops).heat[k] > 0
  {
    if ops != [] {
      var n := |ops| - 1;
      HotCountsPositive(c, ops[..n]);
      if ops[n].Add? {
        PromoteFrame(c, Run(c, ops[..n]).heat, ops[n].key, Estimate(c, Run(c, ops).rows, ops[n].key));
      }
    }
  }

  /** A hot record is never above the true count, and equals it once that reaches the minimum count. */
  ghost predicate Tracks(c: Config, hot: nat, exact: nat) {
    hot <= exact && (c.minCount <= exact ==> hot == exact)
  }

  /** A promotion with the true count leaves a record that tracks it. */
  lemma PromoteTracks(c: Config, heat: HeatMap, key: string, estimate: uint32)
    requires key in heat ==> heat[key] <= estimate
    ensures var after := Promote(c, heat, key, estimate).heat;
            key in after ==> Tracks(c, after[key], estimate)
  {
    if key in heat {
      MinCountIsLeast(heat, key);
    }
  }

  /**
   * For every minimum count, a key with its own fingerprint and, in some row, its own bucket is never
   * hot above its true count, and has exactly that count once it reaches the minimum, for every run
   * and all random draws.
   */
  lemma {:induction false} HotCountTracks(c: Config, ops: seq<Op>, key: string, r: nat)
    requires OwnFingerprint(c, ops, key) && OwnBucket(c, ops, key, r) && CountFits(ops, key)
    ensures key in Run(c, ops).heat ==> Tracks(c, Run(c, ops).heat[key], Exact(ops, key))
  {
    if ops != [] {
      var n := |ops| - 1;
      var before := Run(c, ops[..n]);
      HotCountTracks(c, ops[..n], key, r);
      match ops[n]
      case Add(k, incr, draw) =>
        var estimate := Estimate(c, Run(c, ops).rows, k);
        PromoteFrame(c, before.heat, k, estimate);
        if k == key {
          EstimateIsExact(c, ops, key, r);
          PromoteTracks(c, before.heat, key, estimate);
        }
      case Fading =>
      case Remove(_) =>
      case Reset =>
    }
  }

  /**
   * Exactness: with a minimum count of at most two, a key with its own fingerprint and, in some
   * row, its own bucket has exactly its true count whenever it is in the hot set, for every run
   * and all random draws.
   */
  lemma HotCountIsExact(c: Config, ops: seq<Op>, key: string, r: nat)
    requires c.minCount <= 2
    requires OwnFingerprint(c, ops, key) && OwnBucket(c, ops, key, r) && CountFits(ops, key)
    ensures key in Run(c, ops).heat ==> Run(c, ops).heat[key] == Exact(ops, key)
  {
    HotCountTracks(c, ops, key, r);
    if c.minCount > 0 {
      HotCountsPositive(c, ops);
    }
  }

  /** The run that a larger minimum count makes stale. */
  ghost function StaleRun(c: Config, key: string, draw: Draw): seq<Op> {
    [Add(key, c.minCount, draw), Fading, Add(key, 1, draw)]
  }

  /**
   * The bound of two is sharp: for every sketch with a larger minimum count, a run of one key
   * alone leaves that key in the hot set one below its true count.
   */
  lemma LargerMinimumIsStale(c: Config, key: string, draw: Draw)
    requires c.minCount > 2 && c.depth > 0 && c.capacity > 0
    ensures var ops := StaleRun(c, key, draw);
            && OwnFingerprint(c, ops, key) && OwnBucket(c, ops, key, 0) && CountFits(ops, key)
            && key in Run(c, ops).heat && Run(c, ops).heat[key] == Exact(ops, key) - 1
  {
    var ops := StaleRun(c, key, draw);
    SingleKeyOwns(c, ops, key);
    SingleKeyOwns(c, ops[..1], key);
    StaleCounts(c, key, draw);
    EstimateIsExact(c, ops[..1], key, 0);
    EstimateIsExact(c, ops, key, 0);
    StaleHeat(c, key, draw);
  }

  lemma SingleKeyOwns(c: Config, ops: seq<Op>, key: string)
    requires c.depth > 0 && forall i :: 0 <= i < |ops| && ops[i].Add? ==> ops[i].key == key
    ensures OwnFingerprint(c, ops, key) && OwnBucket(c, ops, key, 0)
  {
  }

  lemma StaleHeat(c: Config, key: string, draw: Draw)
    requires c.minCount > 2 && c.capacity > 0
    requires var ops := StaleRun(c, key, draw);
             && Estimate(c, Run(c, ops[..1]).rows, key) == c.minCount
             && Estimate(c, Run(c, ops).rows, key) == c.minCount / 2 + 1
    ensures Run(c, StaleRun(c, key, draw)).heat == map[key := c.minCount / 2]
  {
    var ops := StaleRun(c, key, draw);
    var one, two := ops[..1], ops[..2];
    hide Run, TouchRows, Estimate;
    assert one == [] + [ops[0]] && two == one + [Fading] && ops == two + [ops[2]];
    RunNothing(c);
    RunOneMore(c, [], ops[0]);
    PromoteWithRoom(c, map[], key, c.minCount);
    RunFading(c, one);
    assert Run(c, two).heat == map[key := c.minCount / 2];
    RunOneMore(c, two, ops[2]);
  }

  lemma RunNothing(c: Config)
    ensures Run(c, []).heat == map[]
  {
  }

  lemma StaleCounts(c: Config, key: string, draw: Draw)
    requires c.minCount > 2
    ensures var ops := StaleRun(c, key, draw);
            && Exact(ops[..1], key) == c.minCount && Exact(ops, key) == c.minCount / 2 + 1
            && CountFits(ops[..1], key) && CountFits(ops, key)
  {
    var ops := StaleRun(c, key, draw);
    var one, two := ops[..1], ops[..2];
    assert ops[..2][..1] == one && one[..0] == [] && ops[..|ops| - 1] == two && two[..|two| - 1] == one;
    assert Exact([], key) == 0 && Exact(one, key) == c.minCount && Exact(two, key) == c.minCount / 2;
    assert CountFits([], key) && CountFits(one, key) && CountFits(two, key);
  }

  lemma TieIsNotInserted(c: Config, heat: HeatMap, key: string, estimate: uint32)
    requires |heat| <= c.capacity
    ensures var a := Promote(c, heat, key, estimate);
            a.ok && key !in a.heat <==>
            && key !in heat && c.minCount <= estimate && |heat| == c.capacity
            && (c.capacity == 0 || estimate == MinCount(heat))
  {
    if c.capacity == 0 {
      assert heat == map[];
    }
  }

  /**
   * The success flag of `add` is not membership: after every run it is set without the key entering
   * the hot set exactly when a new key ties with the least record of a full hot set, or the capacity
   * is zero. `TieIsReached` below gives runs that come to this.
   */
  lemma OkIsNotMembership(c: Config, ops: seq<Op>, key: string, incr: uint32, draw: Draw)
    ensures var s := Run(c, ops);
            var a := Outcome(c, s, key, incr, draw);
            var estimate := Estimate(c, TouchRows(c, s.rows, key, incr, draw), key);
            a.ok && key !in a.heat <==>
            && key !in s.heat && c.minCount <= estimate && |s.heat| == c.capacity
            && (c.capacity == 0 || estimate == MinCount(s.heat))
  {
    var s := Run(c, ops);
    TieIsNotInserted(c, s.heat, key, Estimate(c, TouchRows(c, s.rows, key, incr, draw), key));
  }

  // ----- restore -----

  /** The additions `Restore` makes: items without a key or a count are skipped. */
  ghost function Adds(items: seq<Item>, draws: nat -> Draw): seq<Op> {
    if items == [] then []
    else
      var n := |items| - 1;
      var x := items[n];
      Adds(items[..n], draws) + if x.key == "" || x.count == 0 then [] else [Add(x.key, x.count, draws(n))]
  }

  ghost function RestoreOps(items: seq<Item>, draws: nat -> Draw): seq<Op> {
    [Reset] + Adds(items, draws)
  }

  /** How the additions of a restore grow with one more item. */
  lemma RestoreOpsNext(items: seq<Item>, draws: nat -> Draw, i: nat)
    requires i < |items|
    ensures var ops, next := RestoreOps(items[..i], draws), RestoreOps(items[..i + 1], draws);
            var x := items[i];
            if x.key == "" || x.count == 0 then next == ops
            else next == ops + [Add(x.key, x.count, draws(i))] && next[..|next| - 1] == ops
  {
    assert items[..i + 1][..i] == items[..i];
  }

  /** The records a restore is to bring back. */
  ghost function Restorable(c: Config, items: seq<Item>): HeatMap {
    if items == [] then map[]
    else
      var n := |items| - 1;
      var x := items[n];
      var before := Restorable(c, items[..n]);
      if x.key == "" || x.count == 0 || x.count < c.minCount then before else before[x.key := x.count]
  }

  ghost predicate DistinctItems(items: seq<Item>) {
    forall i, j :: 0 <= i < j < |items| ==> items[i].key != items[j].key
  }

  ghost function KeysOf(items: seq<Item>): set<string> {
    set i | 0 <= i < |items| :: items[i].key
  }

  /** Distinct fingerprints, and for every key a row where no other of the keys shares its bucket. */
  ghost predicate Separable(c: Config, keys: set<string>) {
    && (forall a, b :: a in keys && b in keys && a != b ==> c.fingerprint(a) != c.fingerprint(b))
    && (forall a :: a in keys ==> HasOwnBucket(c, keys, a))
  }

  ghost predicate HasOwnBucket(c: Config, keys: set<string>, a: string) {
    exists r: nat :: Separates(c, keys, a, r)
  }

  ghost predicate Separates(c: Config, keys: set<string>, a: string, r: nat) {
    r < c.depth && forall b :: b in keys && b != a ==> Slot(c, r, b) != Slot(c, r, a)
  }

  lemma SeparableSubset(c: Config, keys: set<string>, fewer: set<string>)
    requires Separable(c, keys) && fewer <= keys
    ensures Separable(c, fewer)
  {
    forall a | a in fewer
      ensures HasOwnBucket(c, fewer, a)
    {
      assert HasOwnBucket(c, keys, a);
      var r: nat :| Separates(c, keys, a, r);
      assert Separates(c, fewer, a, r);
    }
  }

  lemma {:induction false} AddsComeFromItems(items: seq<Item>, draws: nat -> Draw)
    ensures forall i :: 0 <= i < |Adds(items, draws)| ==>
              var op := Adds(items, draws)[i];
              op.Add? && exists j :: 0 <= j < |items| && items[j].key == op.key
  {
    if items != [] {
      AddsComeFromItems(items[..|items| - 1], draws);
    }
  }

  lemma {:induction false} AbsentCountsZero(ops: seq<Op>, key: string)
    requires forall i :: 0 <= i < |ops| && ops[i].Add? ==> ops[i].key != key
    ensures Exact(ops, key) == 0 && CountFits(ops, key)
  {
    if ops != [] {
      AbsentCountsZero(ops[..|ops| - 1], key);
    }
  }

  lemma {:induction false} RestorableFacts(c: Config, items: seq<Item>)
    ensures |Restorable(c, items)| <= |items|
    ensures forall k :: k in Restorable(c, items) ==> exists j :: 0 <= j < |items| && items[j].key == k
  {
    if items != [] {
      RestorableFacts(c, items[..|items| - 1]);
    }
  }

  /** Before its own turn, no addition of a restore touches the last key or its bucket. */
  lemma RestoreOwnsLast(c: Config, items: seq<Item>, draws: nat -> Draw) returns (r: nat)
    requires items != [] && DistinctItems(items) && Separable(c, KeysOf(items))
    ensures var ops := RestoreOps(items[..|items| - 1], draws);
            var key := items[|items| - 1].key;
            && OwnFingerprint(c, ops, key) && OwnBucket(c, ops, key, r)
            && (forall i :: 0 <= i < |ops| && ops[i].Add? ==> ops[i].key != key)
  {
    var n := |items| - 1;
    var front := items[..n];
    var ops := RestoreOps(front, draws);
    assert items[n].key in KeysOf(items);
    assert HasOwnBucket(c, KeysOf(items), items[n].key);
    r :| Separates(c, KeysOf(items), items[n].key, r);
    AddsComeFromItems(front, draws);
    forall i | 0 <= i < |ops| && ops[i].Add?
      ensures ops[i].key != items[n].key && ops[i].key in KeysOf(items)
    {
      assert ops[i] == Adds(front, draws)[i - 1];
      var j :| 0 <= j < |front| && front[j].key == ops[i].key;
      assert items[j].key == ops[i].key;
    }
  }

  /** Restoring one more item of a separable list estimates it exactly. */
  lemma RestoreEstimate(c: Config, items: seq<Item>, draws: nat -> Draw)
    requires items != [] && DistinctItems(items) && Separable(c, KeysOf(items))
    requires var x := items[|items| - 1]; x.key != "" && x.count > 0
    ensures var x := items[|items| - 1];
            Estimate(c, Run(c, RestoreOps(items, draws)).rows, x.key) == x.count
  {
    var n := |items| - 1;
    var x := items[n];
    var before, ops := RestoreOps(items[..n], draws), RestoreOps(items, draws);
    assert ops == before + [Add(x.key, x.count, draws(n))];
    assert ops[..|ops| - 1] == before;
    var r := RestoreOwnsLast(c, items, draws);
    AbsentCountsZero(before, x.key);
    EstimateIsExact(c, ops, x.key, r);
  }

  /** With room left, a promotion of a new key inserts it exactly when it reaches the minimum. */
  lemma PromoteWithRoom(c: Config, heat: HeatMap, key: string, estimate: uint32)
    requires |heat| < c.capacity && key !in heat
    ensures Promote(c, heat, key, estimate).heat == if estimate < c.minCount then heat else heat[key := estimate]
  {
  }

  /**
   * Restoring a list of at most `capacity` separable items gives back exactly its keys and counts,
   * for all random draws.
   */
  lemma {:induction false} RestoreGivesBack(c: Config, items: seq<Item>, draws: nat -> Draw)
    requires |items| <= c.capacity && DistinctItems(items) && Separable(c, KeysOf(items))
    ensures Run(c, RestoreOps(items, draws)).heat == Restorable(c, items)
  {
    hide Run, Separable, RestoreOps, Restorable;
    if items == [] {
      RestoreNothing(c, draws);
    } else {
      var n := |items| - 1;
      SeparableSubset(c, KeysOf(items), KeysOf(items[..n]));
      RestoreGivesBack(c, items[..n], draws);
      RestoreStep(c, items, draws);
    }
  }

  lemma RestoreNothing(c: Config, draws: nat -> Draw)
    ensures Run(c, RestoreOps([], draws)).heat == Restorable(c, [])
  {
    assert RestoreOps([], draws) == [Reset];
  }

  lemma RestoreStep(c: Config, items: seq<Item>, draws: nat -> Draw)
    requires items != [] && |items| <= c.capacity && DistinctItems(items) && Separable(c, KeysOf(items))
    requires Run(c, RestoreOps(items[..|items| - 1], draws)).heat == Restorable(c, items[..|items| - 1])
    ensures Run(c, RestoreOps(items, draws)).heat == Restorable(c, items)
  {
    hide Run, Estimate, TouchRows, Promote, Separable;
    var n := |items| - 1;
    var x, front := items[n], items[..n];
    var before, ops := RestoreOps(front, draws), RestoreOps(items, draws);
    if x.key == "" || x.count == 0 {
      assert ops == before;
    } else {
      var add := Add(x.key, x.count, draws(n));
      assert ops == before + [add];
      RestoreEstimate(c, items, draws);
      RestorableFacts(c, front);
      RunOneMore(c, before, add);
      PromoteWithRoom(c, Run(c, before).heat, x.key, x.count);
    }
  }

  lemma RunOneMore(c: Config, ops: seq<Op>, op: Op)
    requires op.Add?
    ensures var after := Run(c, ops + [op]);
            && after.rows == TouchRows(c, Run(c, ops).rows, op.key, op.incr, op.draw)
            && after.heat == Promote(c, Run(c, ops).heat, op.key, Estimate(c, after.rows, op.key)).heat
  {
    assert (ops + [op])[..|ops|] == ops;
  }

  lemma RunFading(c: Config, ops: seq<Op>)
    ensures Run(c, ops + [Fading]).heat == Halved(Run(c, ops).heat)
  {
    assert (ops + [Fading])[..|ops|] == ops;
  }

  /** `Restore` skips items without a key or a count, and the minimum count shuts out the small ones. */
  ghost predicate Returns(c: Config, key: string, count: uint32) {
    key != "" && 0 < count && c.minCount <= count
  }

  /** The part of a hot set that survives being saved and restored. */
  ghost function Returning(c: Config, heat: HeatMap): HeatMap {
    map k | k in heat && Returns(c, k, heat[k]) :: heat[k]
  }

  /** A restore is to bring back exactly the items that return. */
  lemma {:induction false} RestorableIsReturning(c: Config, items: seq<Item>, i: nat)
    requires DistinctItems(items) && i < |items|
    ensures var back := Restorable(c, items);
            && (items[i].key in back <==> Returns(c, items[i].key, items[i].count))
            && (items[i].key in back ==> back[items[i].key] == items[i].count)
  {
    var n := |items| - 1;
    if i < n {
      RestorableIsReturning(c, items[..n], i);
    } else {
      RestorableFacts(c, items[..n]);
    }
  }

  lemma {:induction false} RestorableSize(c: Config, items: seq<Item>)
    requires DistinctItems(items) && forall i :: 0 <= i < |items| ==> Returns(c, items[i].key, items[i].count)
    ensures |Restorable(c, items)| == |items|
  {
    if items != [] {
      RestorableSize(c, items[..|items| - 1]);
      RestorableFacts(c, items[..|items| - 1]);
    }
  }

  lemma ListingReturns(c: Config, items: seq<Item>, heat: HeatMap)
    requires DistinctItems(items) && Lists(items, heat)
    ensures Restorable(c, items) == Returning(c, heat)
  {
    hide Restorable;
    RestorableFacts(c, items);
    forall k | k in heat
      ensures k in Restorable(c, items) <==> Returns(c, k, heat[k])
      ensures k in Restorable(c, items) ==> Restorable(c, items)[k] == heat[k]
    {
      var i :| 0 <= i < |items| && items[i] == ItemAt(heat, k);
      RestorableIsReturning(c, items, i);
    }
  }

  /**
   * Saving the listing of a hot set and restoring it, for all random draws, brings back exactly its
   * records with a key and a count of at least the minimum; so all of it, if and only if no record
   * is below the minimum.
   */
  lemma SaveThenRestore(c: Config, heat: HeatMap, draws: nat -> Draw)
    requires |heat| <= c.capacity && Separable(c, heat.Keys)
    ensures var after := Run(c, RestoreOps(Ranking(heat), draws)).heat;
            after == Returning(c, heat) && (after == heat <==> forall k :: k in heat ==> Returns(c, k, heat[k]))
  {
    hide Run, Restorable, Separable, RestoreOps;
    var items := Ranking(heat);
    RankingUnique(items, items, heat);
    RankingKeysDiffer(items, heat);
    SeparableSubset(c, heat.Keys, KeysOf(items));
    RestoreGivesBack(c, items, draws);
    ListingReturns(c, items, heat);
  }

  /** With equal counts the hot set a restore fills has that count as its minimum. */
  lemma EqualCounts(c: Config, items: seq<Item>, count: uint32)
    requires DistinctItems(items)
    requires forall i :: 0 <= i < |items| ==> items[i].count == count && Returns(c, items[i].key, count)
    ensures |Restorable(c, items)| == |items| && (items != [] ==> MinCount(Restorable(c, items)) == count)
  {
    hide Restorable;
    RestorableSize(c, items);
    if items != [] {
      RestorableFacts(c, items);
      var k := LeastKey(Restorable(c, items));
      var i :| 0 <= i < |items| && items[i].key == k;
      RestorableIsReturning(c, items, i);
    }
  }

  /**
   * Ties happen: for every sketch and one key more than its capacity, all separable, adding the same
   * count to each answers ok for the last although it does not enter the hot set, for all draws.
   */
  lemma TieIsReached(c: Config, items: seq<Item>, count: uint32, draws: nat -> Draw)
    requires |items| == c.capacity + 1 && DistinctItems(items) && Separable(c, KeysOf(items))
    requires forall i :: 0 <= i < |items| ==> items[i].count == count && Returns(c, items[i].key, count)
    ensures var s, last := Run(c, RestoreOps(items[..c.capacity], draws)), items[c.capacity].key;
            var a := Outcome(c, s, last, count, draws(c.capacity));
            a.ok && last !in a.heat
  {
    hide Run, Restorable, Separable, Estimate, TouchRows, Outcome;
    var n := c.capacity;
    var front, last := items[..n], items[n].key;
    var before := RestoreOps(front, draws);
    SeparableSubset(c, KeysOf(items), KeysOf(front));
    RestoreGivesBack(c, front, draws);
    RestorableFacts(c, front);
    EqualCounts(c, front, count);
    RestoreEstimate(c, items, draws);
    assert RestoreOps(items, draws) == before + [Add(last, count, draws(n))];
    RunOneMore(c, before, Add(last, count, draws(n)));
    OkIsNotMembership(c, before, last, count, draws(n));
  }

  // ----- the hot set is a true top-K -----

  /** The keys a run adds. */
  ghost function AddedKeys(ops: seq<Op>): set<string> {
    set i | 0 <= i < |ops| && ops[i].Add? :: ops[i].key
  }

  /**
   * Every hot record tracks its true count, and a key whose true count reaches the minimum count is
   * left out only of a full hot set, at or below its least record.
   */
  ghost predicate IsHottest(c: Config, ops: seq<Op>, heat: HeatMap) {
    && (forall k :: k in heat ==> Tracks(c, heat[k], Exact(ops, k)))
    && (forall k :: k !in heat && Exact(ops, k) > 0 && Exact(ops, k) >= c.minCount ==>
          |heat| == c.capacity && (c.capacity > 0 ==> Exact(ops, k) <= MinCount(heat)))
  }

  /** What an addition leaves: the record of its key, the others, and a minimum that did not fall. */
  lemma PromoteCases(c: Config, heat: HeatMap, key: string, estimate: uint32)
    requires |heat| <= c.capacity && (key in heat ==> heat[key] <= estimate)
    ensures var after := Promote(c, heat, key, estimate).heat;
            && (forall k :: k in after && k != key ==> k in heat && after[k] == heat[k])
            && (key in after ==> Tracks(c, after[key], estimate))
            && (c.capacity == |heat| ==> |after| == c.capacity && MinCount(heat) <= MinCount(after))
            && (forall k :: k in heat && k !in after ==> |heat| == c.capacity && heat[k] <= MinCount(after))
            && (key !in after && c.minCount <= estimate ==>
                  |heat| == c.capacity && (c.capacity > 0 ==> estimate <= MinCount(after)))
  {
    if key in heat {
      MinCountIsLeast(heat, key);
    }
    if 0 < c.capacity == |heat| {
      UpsertRaisesMin(c.capacity, heat, key, estimate);
    } else if c.capacity == 0 {
      assert heat == map[];
    }
  }

  lemma AddKeepsHottest(c: Config, ops: seq<Op>, heat: HeatMap)
    requires ops != [] && ops[|ops| - 1].Add? && Exact(ops, ops[|ops| - 1].key) < UINT32
    requires |heat| <= c.capacity && IsHottest(c, ops[..|ops| - 1], heat)
    ensures var key := ops[|ops| - 1].key;
            IsHottest(c, ops, Promote(c, heat, key, Exact(ops, key)).heat)
  {
    hide Promote, MinCount, Exact;
    var key := ops[|ops| - 1].key;
    ExactAfterAdd(ops, key);
    PromoteCases(c, heat, key, Exact(ops, key));
    var after := Promote(c, heat, key, Exact(ops, key)).heat;
    forall k | k !in after && Exact(ops, k) > 0 && Exact(ops, k) >= c.minCount
      ensures |after| == c.capacity && (c.capacity > 0 ==> Exact(ops, k) <= MinCount(after))
    {
      ExactAfterAdd(ops, k);
    }
    forall k | k in after
      ensures Tracks(c, after[k], Exact(ops, k))
    {
      ExactAfterAdd(ops, k);
    }
  }

  lemma ExactAfterAdd(ops: seq<Op>, k: string)
    requires ops != [] && ops[|ops| - 1].Add?
    ensures var add, before := ops[|ops| - 1], Exact(ops[..|ops| - 1], k);
            Exact(ops, k) == if add.key == k then before + add.incr else before
  {
  }

  lemma FadingKeepsHottest(c: Config, ops: seq<Op>, heat: HeatMap)
    requires ops != [] && ops[|ops| - 1].Fading? && IsHottest(c, ops[..|ops| - 1], heat)
    ensures IsHottest(c, ops, Halved(heat))
  {
    var half := Halved(heat);
    forall k | k !in half && Exact(ops, k) > 0 && Exact(ops, k) >= c.minCount
      ensures |half| == c.capacity && (c.capacity > 0 ==> Exact(ops, k) <= MinCount(half))
    {
      assert k !in heat && Exact(ops[..|ops| - 1], k) >= 2;
      forall j | j in heat
        ensures heat[j] >= Exact(ops[..|ops| - 1], k)
      {
        MinCountIsLeast(heat, j);
      }
      assert half.Keys == heat.Keys;
      assert |half| == |half.Keys| && |heat| == |heat.Keys|;
    }
  }

  lemma SeparableOwns(c: Config, ops: seq<Op>, key: string) returns (r: nat)
    requires Separable(c, AddedKeys(ops)) && key in AddedKeys(ops)
    ensures OwnFingerprint(c, ops, key) && OwnBucket(c, ops, key, r)
  {
    assert HasOwnBucket(c, AddedKeys(ops), key);
    r :| Separates(c, AddedKeys(ops), key, r);
  }

  /** A run of additions, fadings and resets of separable keys whose counts fit. */
  ghost predicate Plain(c: Config, ops: seq<Op>) {
    && Separable(c, AddedKeys(ops))
    && (forall i :: 0 <= i < |ops| ==> !ops[i].Remove?)
    && (forall k :: k in AddedKeys(ops) ==> CountFits(ops, k))
  }

  lemma {:induction false} HotSetIsHottest(c: Config, ops: seq<Op>)
    requires Plain(c, ops)
    ensures IsHottest(c, ops, Run(c, ops).heat)
  {
    if ops != [] {
      var n := |ops| - 1;
      var before := ops[..n];
      assert AddedKeys(before) <= AddedKeys(ops);
      SeparableSubset(c, AddedKeys(ops), AddedKeys(before));
      HotSetIsHottest(c, before);
      assert ops == before + [ops[n]];
      match ops[n]
      case Add(key, _, _) =>
        var r := SeparableOwns(c, ops, key);
        EstimateIsExact(c, ops, key, r);
        RunOneMore(c, before, ops[n]);
        AddKeepsHottest(c, ops, Run(c, before).heat);
      case Fading =>
        RunFading(c, before);
        FadingKeepsHottest(c, ops, Run(c, before).heat);
      case Reset =>
    }
  }

  /**
   * The sketch keeps a true top-K: for every minimum count, in every run of additions, fadings and
   * resets of separable keys and for all draws, every hot record tracks its key's true count, and is
   * that count if the minimum is at most two; every key left out with at least the minimum count is
   * at most the least record of a full hot set.
   */
  lemma HotSetIsTopK(c: Config, ops: seq<Op>)
    requires Plain(c, ops)
    ensures var heat := Run(c, ops).heat;
            && IsHottest(c, ops, heat)
            && (c.minCount <= 2 ==> forall k :: k in heat ==> heat[k] == Exact(ops, k))
  {
    HotSetIsHottest(c, ops);
    if c.minCount > 0 {
      HotCountsPositive(c, ops);
    }
  }

  // ----- ties at every capacity -----

  /** A sketch that tells keys apart by their length. */
  ghost function ByLength(capacity: uint32): Config
    requires capacity < UINT32 - 2
  {
    Config(capacity, capacity + 2, 1, i => 0.0, 1, k => Length(k), (i, k) => Length(k))
  }

  function Length(k: string): uint32 {
    if |k| < UINT32 then |k| else 0
  }

  ghost function Stars(n: nat): (s: string)
    ensures |s| == n
  {
    seq(n, i => '*')
  }

  /** One item more than the capacity, with keys of different lengths and equal counts. */
  ghost function TiedItems(n: nat): (items: seq<Item>)
    ensures |items| == n && forall i :: 0 <= i < n ==> items[i] == Item(Stars(i + 1), 1)
  {
    seq(n, i requires 0 <= i => Item(Stars(i + 1), 1))
  }

  lemma TiedKey(n: nat, a: string)
    requires a in KeysOf(TiedItems(n))
    ensures 0 < |a| <= n && a == Stars(|a|)
  {
  }

  lemma SlotIsLength(capacity: uint32, a: string)
    requires capacity < UINT32 - 2 && |a| <= capacity + 1
    ensures Slot(ByLength(capacity), 0, a) == |a| && ByLength(capacity).fingerprint(a) == |a|
  {
    SmallRemainder(|a|, capacity + 2);
  }

  lemma SmallRemainder(x: nat, m: nat)
    requires x < m
    ensures x % m == x
  {
  }

  lemma LengthsSeparate(capacity: uint32)
    requires capacity < UINT32 - 2
    ensures Separable(ByLength(capacity), KeysOf(TiedItems(capacity + 1)))
  {
    assert ByLength(capacity).depth == 1;
    hide KeysOf, TiedItems, Stars, Slot, ByLength;
    var c, keys := ByLength(capacity), KeysOf(TiedItems(capacity + 1));
    forall a | a in keys
      ensures a == Stars(|a|) && c.fingerprint(a) == Slot(c, 0, a) == |a|
    {
      TiedKey(capacity + 1, a);
      SlotIsLength(capacity, a);
    }
    forall a | a in keys
      ensures HasOwnBucket(c, keys, a)
    {
      assert Separates(c, keys, a, 0);
    }
  }

  /** At every capacity below 2^32 - 2 some sketch and run come to a tie that is answered ok. */
  lemma TieExists(capacity: uint32, draws: nat -> Draw)
    requires capacity < UINT32 - 2
    ensures exists c: Config, ops, key :: c.capacity == capacity &&
              var a := Outcome(c, Run(c, ops), key, 1, draws(capacity)); a.ok && key !in a.heat
  {
    var c, items := ByLength(capacity), TiedItems(capacity + 1);
    LengthsSeparate(capacity);
    forall i, j | 0 <= i < j < |items|
      ensures items[i].key != items[j].key
    {
      assert |items[i].key| != |items[j].key|;
    }
    TieIsReached(c, items, 1, draws);
  }
}
