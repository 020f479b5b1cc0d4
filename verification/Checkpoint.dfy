/** Heat over the life of a manager, the checkpoints it writes, and what its loader accepts. */
module Checkpoint {
  import opened Wrappers
  import opened Order
  import opened TopK
  import opened Sketch
  import opened SketchRuns
  import opened Policy
  import Victims
  import opened CacheKey

  const CHECKPOINT_VERSION := 1

  /** The decoded content of a checkpoint file. */
  datatype Stored = Stored(version: int, items: seq<Item>)

  ghost predicate Acceptable(stored: Stored, maxItems: uint32) {
    && stored.version == CHECKPOINT_VERSION && |stored.items| <= maxItems
    && forall i :: 0 <= i < |stored.items| ==> ParseKey(stored.items[i].key).Ok? && stored.items[i].count != 0
  }

  /** `loadCheckpoint` after decoding: the validating loop with its early return. */
  method Load(stored: Stored, maxItems: uint32) returns (items: Option<seq<Item>>)
    ensures items == if Acceptable(stored, maxItems) then Some(stored.items) else None
    ensures items.Some? <==>
              && stored.version == 1 && |stored.items| <= maxItems
              && forall i :: 0 <= i < |stored.items| ==> ParseKey(stored.items[i].key).Ok? && stored.items[i].count > 0
  {
    if stored.version != CHECKPOINT_VERSION || |stored.items| > maxItems {
      return None;
    }
    for i := 0 to |stored.items|
      invariant forall j :: 0 <= j < i ==> ParseKey(stored.items[j].key).Ok? && stored.items[j].count != 0
    {
      if ParseKey(stored.items[i].key).Err? || stored.items[i].count == 0 {
        return None;
      }
    }
    return Some(stored.items);
  }

  /** The record `saveCheckpoint` writes for a hot set. */
  ghost function Saved(heat: HeatMap): Stored {
    Stored(CHECKPOINT_VERSION, Ranking(heat))
  }

  // ----- events -----

  datatype Flag =
    | InOpen | InClose | InCreate | InDelete | InMovedFrom | InMovedTo
    | InDeleteSelf | InMoveSelf | InIgnored | InUnmount | InIsdir

  /** An inotify event for an absolute path. */
  datatype FsEvent = FsEvent(name: string, flags: set<Flag>)

  /** Watch coverage changed: the watched directory itself, or its watch, is gone. */
  predicate LosesCoverage(e: FsEvent) {
    InUnmount in e.flags || InIgnored in e.flags || InDeleteSelf in e.flags || InMoveSelf in e.flags
  }

  datatype Reaction = Rebuild | WalkDirectory | Heat(op: Op) | Nothing

  /** `handleEvent`. */
  function HandleEvent(at: Place, e: FsEvent, draw: Draw): Reaction {
    if LosesCoverage(e) then Rebuild
    else if InIsdir in e.flags then
      if InCreate in e.flags || InMovedTo in e.flags then WalkDirectory else Nothing
    else
      match KeyForPath(at, e.name)
      case Err => Nothing
      case Ok((key, _)) =>
        if InDelete in e.flags || InMovedFrom in e.flags then Heat(Remove(key))
        else if InOpen !in e.flags && InMovedTo !in e.flags then Nothing
        else Heat(Add(key, 1, draw))
  }

  /** An event on a file outside the stores, or with a name that is no key, leaves the heat alone. */
  lemma EventElsewhere(at: Place, e: FsEvent, draw: Draw)
    requires HandleEvent(at, e, draw).Heat?
    ensures InIsdir !in e.flags && AbsPath(at, e.name) == PathOf(at, HandleEvent(at, e, draw).op.key)
  {
    KeyForPathExactly(at, e.name, HandleEvent(at, e, draw).op.key);
  }

  /** A change of watch coverage asks for a rebuild, and a directory that appears for a walk, whatever else is flagged. */
  lemma EventKinds(at: Place, e: FsEvent, draw: Draw)
    ensures var r := HandleEvent(at, e, draw);
            && (r == Rebuild <==> exists f :: f in e.flags && f in {InUnmount, InIgnored, InDeleteSelf, InMoveSelf})
            && (r == WalkDirectory <==>
                  && e.flags !! {InUnmount, InIgnored, InDeleteSelf, InMoveSelf}
                  && InIsdir in e.flags && (InCreate in e.flags || InMovedTo in e.flags))
  {
    hide KeyForPath;
    if LosesCoverage(e) {
      var f := if InUnmount in e.flags then InUnmount else if InIgnored in e.flags then InIgnored
               else if InDeleteSelf in e.flags then InDeleteSelf else InMoveSelf;
      assert f in e.flags && f in {InUnmount, InIgnored, InDeleteSelf, InMoveSelf};
    }
  }

  /** One step in the life of the heat model. */
  datatype Step =
    | Observed(event: FsEvent, draw: Draw)
    | Seeded(path: string, present: bool, draw: Draw)         // a file met in a new directory
    | Decayed
    | Deleted(key: string)                                    // evicted by cleanup
    | Recovered                                               // watcher recovery resets the heat
    | Restored(stored: Stored, existing: string -> bool, draws: nat -> Draw)

  /** The items of a checkpoint whose files still exist. */
  function Existing(items: seq<Item>, existing: string -> bool): seq<Item> {
    if items == [] then []
    else
      var n := |items| - 1;
      Existing(items[..n], existing) + if existing(items[n].key) then [items[n]] else []
  }

  ghost function OpsOf(at: Place, capacity: uint32, step: Step): seq<Op> {
    match step
    case Observed(event, draw) =>
      var r := HandleEvent(at, event, draw);
      if r.Heat? then [r.op] else []
    case Seeded(path, present, draw) =>
      var key := KeyForPath(at, path);
      if key.Ok? && present then [Add(key.value.0, 1, draw)] else []
    case Decayed => [Fading]
    case Deleted(key) => [Remove(key)]
    case Recovered => [Reset]
    case Restored(stored, existing, draws) =>
      if Acceptable(stored, capacity) then RestoreOps(Existing(stored.items, existing), draws) else []
  }

  ghost function History(at: Place, capacity: uint32, steps: seq<Step>): seq<Op> {
    if steps == [] then []
    else History(at, capacity, steps[..|steps| - 1]) + OpsOf(at, capacity, steps[|steps| - 1])
  }

  /** The hot set after these steps. */
  ghost function HeatAfter(c: Config, at: Place, steps: seq<Step>): HeatMap {
    Run(c, History(at, c.capacity, steps)).heat
  }

  // ----- what a life of the manager counts -----

  /** A file is opened, or moved in, and not at the same time deleted or moved away. */
  predicate Accesses(e: FsEvent) {
    && !LosesCoverage(e) && InIsdir !in e.flags && InDelete !in e.flags && InMovedFrom !in e.flags
    && (InOpen in e.flags || InMovedTo in e.flags)
  }

  /** The path leads to the file of the key. */
  predicate LeadsTo(at: Place, path: string, key: string) {
    AbsPath(at, path) == PathOf(at, key)
  }

  ghost function SavedCount(items: seq<Item>, key: string): nat {
    if items == [] then 0
    else
      var n := |items| - 1;
      SavedCount(items[..n], key) + if items[n].key == key then items[n].count else 0
  }

  /**
   * The heat a key should have, from paths and files alone: one for each access to its file and each
   * time the file is met, halved by decay, forgotten by recovery, replaced by an accepted checkpoint.
   */
  ghost function Tally(at: Place, capacity: uint32, steps: seq<Step>, key: string): nat {
    if steps == [] then 0
    else TallyStep(at, capacity, steps[|steps| - 1], Tally(at, capacity, steps[..|steps| - 1], key), key)
  }

  ghost function TallyStep(at: Place, capacity: uint32, step: Step, before: nat, key: string): nat {
    match step
    case Observed(event, _) => before + if Accesses(event) && LeadsTo(at, event.name, key) then 1 else 0
    case Seeded(path, present, _) => before + if present && LeadsTo(at, path, key) then 1 else 0
    case Decayed => before / 2
    case Deleted(_) => before
    case Recovered => 0
    case Restored(stored, existing, _) =>
      if !Acceptable(stored, capacity) then before
      else if existing(key) then SavedCount(stored.items, key)
      else 0
  }

  lemma ExactOneMore(ops: seq<Op>, op: Op, key: string)
    ensures Exact(ops + [op], key)
            == match op
               case Add(k, incr, _) => Exact(ops, key) + (if k == key then incr else 0)
               case Fading => Exact(ops, key) / 2
               case Remove(_) => Exact(ops, key)
               case Reset => 0
  {
    assert (ops + [op])[..|ops|] == ops;
  }

  lemma {:induction false} ExactRestored(ops: seq<Op>, items: seq<Item>, draws: nat -> Draw, key: string)
    requires key != ""
    ensures Exact(ops + RestoreOps(items, draws), key) == SavedCount(items, key)
  {
    if items == [] {
      assert RestoreOps(items, draws) == [Reset];
      ExactOneMore(ops, Reset, key);
    } else {
      var n := |items| - 1;
      var before := ops + RestoreOps(items[..n], draws);
      ExactRestored(ops, items[..n], draws, key);
      RestoreOpsNext(items, draws, n);
      assert items[..n + 1] == items;
      if items[n].key != "" && items[n].count != 0 {
        var add := Add(items[n].key, items[n].count, draws(n));
        assert ops + RestoreOps(items, draws) == before + [add];
        ExactOneMore(before, add, key);
      }
    }
  }

  lemma {:induction false} SavedExisting(items: seq<Item>, existing: string -> bool, key: string)
    ensures SavedCount(Existing(items, existing), key) == if existing(key) then SavedCount(items, key) else 0
  {
    if items != [] {
      var n := |items| - 1;
      var front := Existing(items[..n], existing);
      SavedExisting(items[..n], existing, key);
      if existing(items[n].key) {
        assert Existing(items, existing)[..|front|] == front;
      } else {
        assert Existing(items, existing) == front;
      }
    }
  }

  lemma EventIsTallied(at: Place, capacity: uint32, ops: seq<Op>, step: Step, key: string)
    requires ParseKey(key).Ok? && step.Observed?
    ensures Exact(ops + OpsOf(at, capacity, step), key) == TallyStep(at, capacity, step, Exact(ops, key), key)
  {
    hide ParseKey, KeyForPath, AbsPath, PathOf, Exact;
    KeyForPathExactly(at, step.event.name, key);
    var r := HandleEvent(at, step.event, step.draw);
    if r.Heat? {
      ExactOneMore(ops, r.op, key);
    } else {
      assert ops + [] == ops;
    }
  }

  lemma SeedIsTallied(at: Place, capacity: uint32, ops: seq<Op>, step: Step, key: string)
    requires ParseKey(key).Ok? && step.Seeded?
    ensures Exact(ops + OpsOf(at, capacity, step), key) == TallyStep(at, capacity, step, Exact(ops, key), key)
  {
    hide ParseKey, KeyForPath, AbsPath, PathOf, Exact;
    KeyForPathExactly(at, step.path, key);
    var met := KeyForPath(at, step.path);
    if met.Ok? && step.present {
      ExactOneMore(ops, Add(met.value.0, 1, step.draw), key);
    } else {
      assert ops + [] == ops;
    }
  }

  /** The operations of one step change the true count exactly as the step changes the tally. */
  lemma StepIsTallied(at: Place, capacity: uint32, ops: seq<Op>, step: Step, key: string)
    requires ParseKey(key).Ok?
    ensures Exact(ops + OpsOf(at, capacity, step), key) == TallyStep(at, capacity, step, Exact(ops, key), key)
  {
    match step
    case Observed(_, _) => EventIsTallied(at, capacity, ops, step, key);
    case Seeded(_, _, _) => SeedIsTallied(at, capacity, ops, step, key);
    case Decayed => ExactOneMore(ops, Fading, key);
    case Deleted(k) => ExactOneMore(ops, Remove(k), key);
    case Recovered => ExactOneMore(ops, Reset, key);
    case Restored(stored, existing, draws) =>
      EmptyIsNoKey();
      ExactRestored(ops, Existing(stored.items, existing), draws, key);
      SavedExisting(stored.items, existing, key);
      assert ops + [] == ops;
  }

  /** In every life of a manager the true count of a valid key is the tally of its file. */
  lemma {:induction false} CountIsTally(at: Place, capacity: uint32, steps: seq<Step>, key: string)
    requires ParseKey(key).Ok?
    ensures Exact(History(at, capacity, steps), key) == Tally(at, capacity, steps, key)
  {
    if steps != [] {
      var n := |steps| - 1;
      CountIsTally(at, capacity, steps[..n], key);
      StepIsTallied(at, capacity, History(at, capacity, steps[..n]), steps[n], key);
    }
  }

  /**
   * So a hot key that has its own fingerprint and an unshared bucket is ranked by the accesses to its
   * own file, for all random draws: never by more, by exactly these once they reach the minimum count,
   * and always by exactly these if the minimum is at most two.
   */
  lemma HotCountIsTally(c: Config, at: Place, steps: seq<Step>, key: string, r: nat)
    requires ParseKey(key).Ok?
    requires var ops := History(at, c.capacity, steps);
             OwnFingerprint(c, ops, key) && OwnBucket(c, ops, key, r) && CountFits(ops, key)
    ensures var heat, tally := HeatAfter(c, at, steps), Tally(at, c.capacity, steps, key);
            key in heat ==> Tracks(c, heat[key], tally) && (c.minCount <= 2 ==> heat[key] == tally)
  {
    HotCountTracks(c, History(at, c.capacity, steps), key, r);
    if c.minCount <= 2 {
      HotCountIsExact(c, History(at, c.capacity, steps), key, r);
    }
    CountIsTally(at, c.capacity, steps, key);
  }

  /** The file of the key is deleted or moved away, as an event or by cleanup. */
  ghost predicate TakesAway(at: Place, step: Step, key: string) {
    match step
    case Observed(e, _) =>
      && e.flags !! {InUnmount, InIgnored, InDeleteSelf, InMoveSelf, InIsdir}
      && (InDelete in e.flags || InMovedFrom in e.flags) && LeadsTo(at, e.name, key)
    case Deleted(k) => k == key
    case _ => false
  }

  lemma TakenAwayOps(at: Place, capacity: uint32, step: Step, key: string)
    requires ParseKey(key).Ok? && TakesAway(at, step, key)
    ensures OpsOf(at, capacity, step) == [Remove(key)]
  {
    hide ParseKey, KeyForPath, AbsPath, PathOf;
    if step.Observed? {
      KeyForPathExactly(at, step.event.name, key);
    }
  }

  /** What is taken away is no longer hot; the heat of every other key stays. */
  lemma TakenAwayIsForgotten(c: Config, at: Place, steps: seq<Step>, step: Step, key: string)
    requires ParseKey(key).Ok? && TakesAway(at, step, key)
    ensures var heat, after := HeatAfter(c, at, steps), HeatAfter(c, at, steps + [step]);
            && key !in after
            && (forall k :: k != key ==> (k in after <==> k in heat) && (k in heat ==> after[k] == heat[k]))
  {
    hide ParseKey, Run, OpsOf, TakesAway;
    assert (steps + [step])[..|steps|] == steps;
    TakenAwayOps(at, c.capacity, step, key);
    RemoveForgets(c, History(at, c.capacity, steps), key);
  }

  /** A watcher recovery forgets all heat. */
  lemma RecoveryForgets(c: Config, at: Place, steps: seq<Step>)
    requires c.depth > 0
    ensures HeatAfter(c, at, steps + [Recovered]) == map[]
  {
    hide Run;
    assert (steps + [Recovered])[..|steps|] == steps;
    ResetEmpties(c, History(at, c.capacity, steps), 0, 0);
  }

  // ----- what is saved is accepted -----

  ghost predicate ValidAdds(ops: seq<Op>) {
    forall i :: 0 <= i < |ops| && ops[i].Add? ==> ParseKey(ops[i].key).Ok?
  }

  lemma {:induction false} ExistingIsPart(items: seq<Item>, existing: string -> bool)
    ensures forall i :: 0 <= i < |Existing(items, existing)| ==> Existing(items, existing)[i] in items
  {
    if items != [] {
      ExistingIsPart(items[..|items| - 1], existing);
    }
  }

  lemma OpsOfAreValid(at: Place, capacity: uint32, step: Step)
    ensures ValidAdds(OpsOf(at, capacity, step))
  {
    hide ParseKey, AbsParts, RelKey;
    if step.Restored? && Acceptable(step.stored, capacity) {
      var items := Existing(step.stored.items, step.existing);
      ExistingIsPart(step.stored.items, step.existing);
      AddsComeFromItems(items, step.draws);
      var ops := RestoreOps(items, step.draws);
      forall i | 0 <= i < |ops| && ops[i].Add?
        ensures ParseKey(ops[i].key).Ok?
      {
        assert ops[i] == Adds(items, step.draws)[i - 1];
        var j :| 0 <= j < |items| && items[j].key == ops[i].key;
        assert items[j] in step.stored.items;
      }
    }
  }

  /** Only valid cache keys are ever counted. */
  lemma {:induction false} HistoryIsValid(at: Place, capacity: uint32, steps: seq<Step>)
    ensures ValidAdds(History(at, capacity, steps))
  {
    if steps != [] {
      var n := |steps| - 1;
      HistoryIsValid(at, capacity, steps[..n]);
      OpsOfAreValid(at, capacity, steps[n]);
    }
  }

  lemma {:induction false} HotKeysAreValid(c: Config, ops: seq<Op>)
    requires ValidAdds(ops)
    ensures forall k :: k in Run(c, ops).heat ==> ParseKey(k).Ok?
  {
    if ops != [] {
      var n := |ops| - 1;
      HotKeysAreValid(c, ops[..n]);
      if ops[n].Add? {
        PromoteFrame(c, Run(c, ops[..n]).heat, ops[n].key, Estimate(c, Run(c, ops).rows, ops[n].key));
      }
    }
  }

  /** The sketch a manager builds from its policy. */
  predicate BuiltFrom(c: Config, p: EvictionPolicy) {
    c.capacity == p.topKCapacity && c.width == p.topKWidth && c.depth == p.topKDepth && c.minCount == p.topKMinCount
  }

  /** Every hot set a manager with an accepted policy can reach is written as a checkpoint its own loader accepts. */
  lemma EveryCheckpointIsAccepted(p: EvictionPolicy, c: Config, at: Place, steps: seq<Step>)
    requires Validate(p).Accepted? && BuiltFrom(c, p)
    ensures Acceptable(Saved(HeatAfter(c, at, steps)), p.topKCapacity)
  {
    var ops := History(at, c.capacity, steps);
    var heat := Run(c, ops).heat;
    HistoryIsValid(at, c.capacity, steps);
    HotKeysAreValid(c, ops);
    HotCountsPositive(c, ops);
    RankingUnique(Ranking(heat), Ranking(heat), heat);
  }

  lemma EmptyIsNoKey()
    ensures ParseKey("").Err?
  {
  }

  // ----- restarts -----

  /** The records whose files still exist. */
  ghost function Kept(heat: HeatMap, existing: string -> bool): HeatMap {
    map k | k in heat && existing(k) :: heat[k]
  }

  lemma {:induction false} ExistingItems(items: seq<Item>, existing: string -> bool)
    requires DistinctItems(items)
    ensures var left := Existing(items, existing);
            && |left| <= |items| && DistinctItems(left)
            && (forall i :: 0 <= i < |left| ==> left[i] in items && existing(left[i].key))
            && (forall x :: x in items && existing(x.key) ==> x in left)
  {
    if items != [] {
      ExistingItems(items[..|items| - 1], existing);
    }
  }

  lemma ExistingLists(items: seq<Item>, heat: HeatMap, existing: string -> bool)
    requires DistinctItems(items) && Lists(items, heat)
    ensures Lists(Existing(items, existing), Kept(heat, existing))
  {
    hide Existing;
    var left, kept := Existing(items, existing), Kept(heat, existing);
    ExistingItems(items, existing);
    forall k | k in kept
      ensures ItemAt(kept, k) in left
    {
      assert ItemAt(heat, k) in items;
    }
  }

  /** A restart from an accepted checkpoint performs exactly the additions of its existing items. */
  lemma RestartOps(at: Place, capacity: uint32, stored: Stored, existing: string -> bool, draws: nat -> Draw)
    requires Acceptable(stored, capacity)
    ensures History(at, capacity, [Restored(stored, existing, draws)])
            == RestoreOps(Existing(stored.items, existing), draws)
  {
    var step := Restored(stored, existing, draws);
    assert [step][..0] == [];
    assert OpsOf(at, capacity, step) == RestoreOps(Existing(stored.items, existing), draws);
  }

  /** Restoring what exists of a saved hot set brings back its records with at least the minimum count. */
  lemma RestoreExisting(c: Config, heat: HeatMap, existing: string -> bool, draws: nat -> Draw)
    requires |heat| <= c.capacity && Separable(c, heat.Keys)
    ensures Run(c, RestoreOps(Existing(Ranking(heat), existing), draws)).heat == Returning(c, Kept(heat, existing))
  {
    hide Run, Existing, Separable, Restorable;
    var items := Ranking(heat);
    RankingUnique(items, items, heat);
    RankingKeysDiffer(items, heat);
    ExistingItems(items, existing);
    ExistingLists(items, heat, existing);
    var left := Existing(items, existing);
    SeparableSubset(c, heat.Keys, KeysOf(left));
    RestoreGivesBack(c, left, draws);
    ListingReturns(c, left, Kept(heat, existing));
  }

  /** A restart from the checkpoint of a hot set of valid keys. */
  lemma RestartFrom(c: Config, at: Place, heat: HeatMap, existing: string -> bool, draws: nat -> Draw)
    requires Acceptable(Saved(heat), c.capacity) && |heat| <= c.capacity && Separable(c, heat.Keys)
    requires forall k :: k in heat ==> k != "" && heat[k] > 0
    ensures HeatAfter(c, at, [Restored(Saved(heat), existing, draws)])
            == (map k | k in heat && existing(k) && c.minCount <= heat[k] :: heat[k])
  {
    hide Acceptable, Run, History, Existing, Separable, RestoreOps;
    RestartOps(at, c.capacity, Saved(heat), existing, draws);
    RestoreExisting(c, heat, existing, draws);
  }

  lemma ReachedHeat(p: EvictionPolicy, c: Config, at: Place, steps: seq<Step>)
    requires Validate(p).Accepted? && BuiltFrom(c, p)
    ensures var heat := HeatAfter(c, at, steps);
            && Acceptable(Saved(heat), c.capacity) && |heat| <= c.capacity
            && forall k :: k in heat ==> k != "" && heat[k] > 0
  {
    hide ParseKey, Run, History, ValidAdds;
    var ops := History(at, c.capacity, steps);
    EveryCheckpointIsAccepted(p, c, at, steps);
    HotCountsPositive(c, ops);
    HistoryIsValid(at, c.capacity, steps);
    HotKeysAreValid(c, ops);
    EmptyIsNoKey();
  }

  /**
   * A restart, for every accepted policy and all random draws, brings back exactly the saved records
   * whose files exist and whose counts reach the minimum; so the whole hot set if and only if every
   * file exists and no saved count is below the minimum.
   */
  lemma RestartKeepsHotSet(
    p: EvictionPolicy, c: Config, at: Place, steps: seq<Step>, existing: string -> bool, draws: nat -> Draw)
    requires Validate(p).Accepted? && BuiltFrom(c, p) && Separable(c, HeatAfter(c, at, steps).Keys)
    ensures var heat := HeatAfter(c, at, steps);
            var after := HeatAfter(c, at, [Restored(Saved(heat), existing, draws)]);
            && after == (map k | k in heat && existing(k) && c.minCount <= heat[k] :: heat[k])
            && (after == heat <==> forall k :: k in heat ==> existing(k) && c.minCount <= heat[k])
  {
    hide HeatAfter, Acceptable, Separable;
    ReachedHeat(p, c, at, steps);
    RestartFrom(c, at, HeatAfter(c, at, steps), existing, draws);
  }

  // ----- a larger minimum forgets -----

  /** The file of a key is opened `n` times. */
  ghost function Opened(at: Place, key: string, draw: Draw, n: nat): seq<Step> {
    if n == 0 then [] else Opened(at, key, draw, n - 1) + [Observed(FsEvent(PathOf(at, key), {InOpen}), draw)]
  }

  ghost function AddedOnce(key: string, draw: Draw, n: nat): (ops: seq<Op>)
    ensures forall i :: 0 <= i < |ops| ==> ops[i] == Add(key, 1, draw)
  {
    if n == 0 then [] else AddedOnce(key, draw, n - 1) + [Add(key, 1, draw)]
  }

  lemma OpeningAdds(at: Place, capacity: uint32, key: string, draw: Draw)
    requires ParseKey(key).Ok?
    ensures OpsOf(at, capacity, Observed(FsEvent(PathOf(at, key), {InOpen}), draw)) == [Add(key, 1, draw)]
  {
    hide ParseKey, PathOf, KeyForPath;
    KeyForPathInverts(at, key);
  }

  lemma {:induction false} OpenedAdds(at: Place, capacity: uint32, key: string, draw: Draw, n: nat)
    requires ParseKey(key).Ok?
    ensures History(at, capacity, Opened(at, key, draw, n)) == AddedOnce(key, draw, n)
  {
    hide ParseKey, PathOf, OpsOf;
    if n > 0 {
      OpenedAdds(at, capacity, key, draw, n - 1);
      OpeningAdds(at, capacity, key, draw);
      var steps := Opened(at, key, draw, n);
      assert steps[..|steps| - 1] == Opened(at, key, draw, n - 1);
    }
  }

  lemma {:induction false} AddedOnceCounts(key: string, draw: Draw, n: uint32)
    ensures var ops := AddedOnce(key, draw, n); Exact(ops, key) == n && CountFits(ops, key)
  {
    if n > 0 {
      AddedOnceCounts(key, draw, n - 1);
      var ops := AddedOnce(key, draw, n);
      assert ops[..|ops| - 1] == AddedOnce(key, draw, n - 1);
    }
  }

  lemma {:induction false} AddedOnceHeat(c: Config, key: string, draw: Draw, n: uint32)
    requires n <= c.minCount && c.depth > 0 && c.capacity > 0
    ensures Run(c, AddedOnce(key, draw, n)).heat == if n < c.minCount || n == 0 then map[] else map[key := n]
  {
    hide Run, Estimate, Exact, CountFits, OwnBucket, OwnFingerprint;
    if n == 0 {
      RunNothing(c);
    } else {
      var before, ops := AddedOnce(key, draw, n - 1), AddedOnce(key, draw, n);
      AddedOnceHeat(c, key, draw, n - 1);
      AddedOnceCounts(key, draw, n);
      SingleKeyOwns(c, ops, key);
      EstimateIsExact(c, ops, key, 0);
      RunOneMore(c, before, Add(key, 1, draw));
      PromoteWithRoom(c, map[], key, n);
    }
  }

  /** The key is opened until it is hot, then decays once. */
  ghost function Cooled(c: Config, at: Place, key: string, draw: Draw): seq<Step> {
    Opened(at, key, draw, c.minCount) + [Decayed]
  }

  /**
   * For every accepted policy with a minimum count above one a restart can lose a key: opened until
   * it is hot and decayed once, it is saved, accepted by the loader, and not restored.
   */
  lemma LargerMinimumForgets(
    p: EvictionPolicy, c: Config, at: Place, key: string, draw: Draw, existing: string -> bool, draws: nat -> Draw)
    requires Validate(p).Accepted? && BuiltFrom(c, p) && c.minCount > 1 && ParseKey(key).Ok?
    ensures var heat := HeatAfter(c, at, Cooled(c, at, key, draw));
            && heat == map[key := c.minCount / 2] && Acceptable(Saved(heat), c.capacity)
            && HeatAfter(c, at, [Restored(Saved(heat), existing, draws)]) == map[]
  {
    assert c.depth > 0 && c.capacity > 0;
    hide *;
    CooledHeat(c, at, key, draw);
    OneKeyIsSeparable(c, key);
    assert HeatAfter(c, at, Cooled(c, at, key, draw)).Keys == {key};
    ReachedHeat(p, c, at, Cooled(c, at, key, draw));
    RestartKeepsHotSet(p, c, at, Cooled(c, at, key, draw), existing, draws);
  }

  lemma CooledHeat(c: Config, at: Place, key: string, draw: Draw)
    requires c.minCount > 1 && c.depth > 0 && c.capacity > 0 && ParseKey(key).Ok?
    ensures HeatAfter(c, at, Cooled(c, at, key, draw)) == map[key := c.minCount / 2]
  {
    hide ParseKey, Run;
    var hot, steps := Opened(at, key, draw, c.minCount), Cooled(c, at, key, draw);
    OpenedAdds(at, c.capacity, key, draw, c.minCount);
    AddedOnceHeat(c, key, draw, c.minCount);
    assert steps[..|steps| - 1] == hot;
    RunFading(c, History(at, c.capacity, hot));
  }

  lemma OneKeyIsSeparable(c: Config, key: string)
    requires c.depth > 0
    ensures Separable(c, {key})
  {
    assert Separates(c, {key}, key, 0);
  }
}
