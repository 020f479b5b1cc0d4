/** The eviction policy: what `Validate` accepts, and the start/stop hysteresis of `nextEvicting`. */
module Policy {
  import opened Order

  /** A float64 without its rounding: a real number, an infinity or not-a-number. */
  datatype Float = Finite(v: real) | PosInf | NegInf | NaN

  /** IEEE `a < b`: false whenever a side is not-a-number. */
  predicate FloatLess(a: Float, b: Float) {
    match (a, b)
    case (Finite(x), Finite(y)) => x < y
    case (NegInf, Finite(_)) => true
    case (NegInf, PosInf) => true
    case (Finite(_), PosInf) => true
    case _ => false
  }

  /** IEEE `a <= b`. */
  predicate FloatLeq(a: Float, b: Float) {
    FloatLess(a, b) || (a == b && !a.NaN?)
  }

  /** `float64(part) / float64(whole) * 100`. */
  function Percent(part: int, whole: int): Float {
    if whole != 0 then Finite(part as real / whole as real * 100.0)
    else if part == 0 then NaN
    else if part > 0 then PosInf
    else NegInf
  }

  datatype EvictionPolicy = EvictionPolicy(
    diskCheckInterval: int,
    checkpointInterval: int,
    topKDecayInterval: int,
    minimumResidence: int,
    warmupDuration: int,
    minPercentBlocksFree: Float,
    evictUntilPercentBlocksFree: Float,
    maxCacheBytes: int,
    targetCacheBytes: int,
    minActionCacheBytes: int,
    cleanupBatchSize: int,
    topKCapacity: uint32,
    topKWidth: uint32,
    topKDepth: uint32,
    topKDecay: Float,
    topKMinCount: uint32,
    shadow: bool)

  datatype Verdict = Accepted | Rejected(reason: Reason)

  datatype Reason =
    | Intervals | Durations | Percents | PercentOrder | CacheTarget | ActionFloor | BatchSize | TopKSizes | TopKDecay

  predicate PercentOk(v: Float) {
    v.Finite? && 0.0 <= v.v <= 100.0
  }

  /** `EvictionPolicy.Validate`, reporting which rule failed first. */
  function Validate(p: EvictionPolicy): (r: Verdict)
    ensures r.Accepted? <==> Valid(p)
  {
    if p.diskCheckInterval <= 0 || p.checkpointInterval <= 0 || p.topKDecayInterval <= 0 then Rejected(Intervals)
    else if p.minimumResidence < 0 || p.warmupDuration < 0 then Rejected(Durations)
    else if !PercentOk(p.minPercentBlocksFree) || !PercentOk(p.evictUntilPercentBlocksFree) then Rejected(Percents)
    else if FloatLeq(p.evictUntilPercentBlocksFree, p.minPercentBlocksFree) then Rejected(PercentOrder)
    else if p.maxCacheBytes <= 0 || p.targetCacheBytes < 0 || p.targetCacheBytes >= p.maxCacheBytes then Rejected(CacheTarget)
    else if p.minActionCacheBytes < 0 || p.minActionCacheBytes > p.targetCacheBytes then Rejected(ActionFloor)
    else if p.cleanupBatchSize <= 0 then Rejected(BatchSize)
    else if p.topKCapacity == 0 || p.topKWidth == 0 || p.topKDepth == 0 || p.topKMinCount == 0 then Rejected(TopKSizes)
    else if !p.topKDecay.Finite? || p.topKDecay.v <= 0.0 || p.topKDecay.v >= 1.0 then Rejected(Reason.TopKDecay)
    else Accepted
  }

  /** The ordering constraints between the knobs of a policy. */
  ghost predicate Valid(p: EvictionPolicy) {
    && 0 < p.diskCheckInterval && 0 < p.checkpointInterval && 0 < p.topKDecayInterval
    && 0 <= p.minimumResidence && 0 <= p.warmupDuration
    && p.minPercentBlocksFree.Finite? && p.evictUntilPercentBlocksFree.Finite?
    && 0.0 <= p.minPercentBlocksFree.v < p.evictUntilPercentBlocksFree.v <= 100.0
    && 0 <= p.minActionCacheBytes <= p.targetCacheBytes < p.maxCacheBytes
    && 0 < p.cleanupBatchSize
    && 0 < p.topKCapacity && 0 < p.topKWidth && 0 < p.topKDepth && 0 < p.topKMinCount
    && p.topKDecay.Finite? && 0.0 < p.topKDecay.v < 1.0
  }

  datatype Snapshot = Snapshot(percentBlocksFree: Float, cacheBytes: int)

  /** A start threshold is met. */
  predicate Starts(p: EvictionPolicy, s: Snapshot) {
    FloatLeq(s.percentBlocksFree, p.minPercentBlocksFree) || s.cacheBytes >= p.maxCacheBytes
  }

  /** A stop target is still unmet. */
  predicate Unmet(p: EvictionPolicy, s: Snapshot) {
    FloatLess(s.percentBlocksFree, p.evictUntilPercentBlocksFree) || s.cacheBytes > p.targetCacheBytes
  }

  /** `nextEvicting`. */
  predicate NextEvicting(p: EvictionPolicy, current: bool, s: Snapshot) {
    if !current then Starts(p, s) else Unmet(p, s)
  }

  /** The flag after a sequence of snapshots, starting from not evicting. */
  ghost predicate Flag(p: EvictionPolicy, snapshots: seq<Snapshot>) {
    snapshots != [] &&
    NextEvicting(p, Flag(p, snapshots[..|snapshots| - 1]), snapshots[|snapshots| - 1])
  }

  /** From snapshot `i` on, pressure started and no snapshot met both stop targets. */
  ghost predicate PressureSince(p: EvictionPolicy, snapshots: seq<Snapshot>, i: nat) {
    i < |snapshots| && Starts(p, snapshots[i]) && forall j :: i <= j < |snapshots| ==> Unmet(p, snapshots[j])
  }

  lemma StartIsUnmet(p: EvictionPolicy, s: Snapshot)
    requires Valid(p) && Starts(p, s)
    ensures Unmet(p, s)
  {
  }

  /** Hysteresis: the flag is on exactly while pressure that once started has not been relieved. */
  lemma {:induction false} FlagIsPressure(p: EvictionPolicy, snapshots: seq<Snapshot>)
    requires Valid(p)
    ensures Flag(p, snapshots) <==> exists i: nat :: PressureSince(p, snapshots, i)
  {
    if snapshots != [] {
      var n := |snapshots| - 1;
      var before, last := snapshots[..n], snapshots[n];
      FlagIsPressure(p, before);
      if Flag(p, snapshots) {
        if Flag(p, before) {
          var i: nat :| PressureSince(p, before, i);
          assert PressureSince(p, snapshots, i);
        } else {
          StartIsUnmet(p, last);
          assert PressureSince(p, snapshots, n);
        }
      }
      if i: nat :| PressureSince(p, snapshots, i) {
        if i < n {
          assert PressureSince(p, before, i);
        }
      }
    }
  }

  /** Seeing the same snapshot again never flips the flag. */
  lemma RepeatKeepsFlag(p: EvictionPolicy, current: bool, s: Snapshot)
    requires Valid(p)
    ensures NextEvicting(p, NextEvicting(p, current, s), s) == NextEvicting(p, current, s)
  {
    if Starts(p, s) {
      StartIsUnmet(p, s);
    }
  }

  // ----- in plain numbers -----

  /** A percentage is the hundredfold part over the whole; without a whole it is not a number or infinite. */
  lemma PercentOf(part: int, whole: int)
    ensures whole != 0 ==> Percent(part, whole).Finite? && Percent(part, whole).v * whole as real == 100.0 * part as real
    ensures whole == 0 ==> (Percent(part, 0) == NaN <==> part == 0) && (Percent(part, 0) == PosInf <==> part > 0)
    ensures whole == 0 && part < 0 ==> Percent(part, 0) == NegInf
  {
    if whole != 0 {
      var ratio := part as real / whole as real;
      assert ratio * whole as real == part as real;
    }
  }

  /** Comparison of floats: of two numbers exactly one is less or both are equal, and not-a-number compares with none. */
  lemma FloatOrder(a: Float, b: Float)
    ensures a.Finite? && b.Finite? ==> (FloatLess(a, b) <==> a.v < b.v) && (FloatLeq(a, b) <==> a.v <= b.v)
    ensures a.NaN? || b.NaN? ==> !FloatLess(a, b) && !FloatLeq(a, b)
    ensures !a.NaN? && !b.NaN? ==> (FloatLeq(a, b) <==> !FloatLess(b, a)) && (FloatLess(a, b) || FloatLess(b, a) <==> a != b)
    ensures a.Finite? ==> FloatLess(NegInf, a) && FloatLess(a, PosInf) && FloatLess(NegInf, PosInf)
  {
  }

  /** One measurement: free and total space of the disk, and the bytes of the cache. */
  datatype Reading = Reading(free: int, total: int, cacheBytes: int)

  function Snapshots(readings: seq<Reading>): (snapshots: seq<Snapshot>)
    ensures |snapshots| == |readings|
    ensures forall i :: 0 <= i < |readings| ==>
              snapshots[i] == Snapshot(Percent(readings[i].free, readings[i].total), readings[i].cacheBytes)
  {
    seq(|readings|, i requires 0 <= i < |readings| =>
      Snapshot(Percent(readings[i].free, readings[i].total), readings[i].cacheBytes))
  }

  /** Free space is at most the start share, or the cache has reached its limit. */
  ghost predicate Pressed(p: EvictionPolicy, r: Reading)
    requires p.minPercentBlocksFree.Finite?
  {
    || 100.0 * r.free as real <= p.minPercentBlocksFree.v * r.total as real
    || r.cacheBytes >= p.maxCacheBytes
  }

  /** Free space is below the stop share, or the cache above its target. */
  ghost predicate Unrelieved(p: EvictionPolicy, r: Reading)
    requires p.evictUntilPercentBlocksFree.Finite?
  {
    || 100.0 * r.free as real < p.evictUntilPercentBlocksFree.v * r.total as real
    || r.cacheBytes > p.targetCacheBytes
  }

  ghost predicate PressedSince(p: EvictionPolicy, readings: seq<Reading>, i: nat)
    requires p.minPercentBlocksFree.Finite? && p.evictUntilPercentBlocksFree.Finite?
  {
    i < |readings| && Pressed(p, readings[i]) && forall j :: i <= j < |readings| ==> Unrelieved(p, readings[j])
  }

  lemma Ratio(part: int, whole: int, limit: real)
    requires whole > 0
    ensures Percent(part, whole).v <= limit <==> 100.0 * part as real <= limit * whole as real
    ensures Percent(part, whole).v < limit <==> 100.0 * part as real < limit * whole as real
  {
    PercentOf(part, whole);
    Scale(Percent(part, whole).v, limit, whole as real);
  }

  lemma Scale(a: real, b: real, w: real)
    requires w > 0.0
    ensures a <= b <==> a * w <= b * w
    ensures a < b <==> a * w < b * w
  {
    if a < b {
      assert (b - a) * w > 0.0;
    } else if b < a {
      assert (a - b) * w > 0.0;
    }
  }

  lemma ReadingMeets(p: EvictionPolicy, r: Reading)
    requires Valid(p) && r.total > 0
    ensures var s := Snapshot(Percent(r.free, r.total), r.cacheBytes);
            (Starts(p, s) <==> Pressed(p, r)) && (Unmet(p, s) <==> Unrelieved(p, r))
  {
    PercentOf(r.free, r.total);
    Ratio(r.free, r.total, p.minPercentBlocksFree.v);
    Ratio(r.free, r.total, p.evictUntilPercentBlocksFree.v);
  }

  /**
   * Hysteresis in numbers, for any readings under a valid policy: the flag is on exactly when at some
   * reading free space was at most the start share, or the cache at least its limit, and at every
   * reading since free space was below the stop share, or the cache above its target.
   */
  lemma FlagInNumbers(p: EvictionPolicy, readings: seq<Reading>)
    requires Valid(p) && forall i :: 0 <= i < |readings| ==> readings[i].total > 0
    ensures Flag(p, Snapshots(readings)) <==> exists i: nat :: PressedSince(p, readings, i)
  {
    FlagIsPressure(p, Snapshots(readings));
    forall i: nat
      ensures PressureSince(p, Snapshots(readings), i) <==> PressedSince(p, readings, i)
    {
      SinceAgrees(p, readings, i);
    }
  }

  lemma SinceAgrees(p: EvictionPolicy, readings: seq<Reading>, i: nat)
    requires Valid(p) && forall i :: 0 <= i < |readings| ==> readings[i].total > 0
    ensures PressureSince(p, Snapshots(readings), i) <==> PressedSince(p, readings, i)
  {
    hide Starts, Unmet, Percent, Pressed, Unrelieved;
    forall j | 0 <= j < |readings|
      ensures Starts(p, Snapshots(readings)[j]) <==> Pressed(p, readings[j])
      ensures Unmet(p, Snapshots(readings)[j]) <==> Unrelieved(p, readings[j])
    {
      ReadingMeets(p, readings[j]);
    }
  }
}
