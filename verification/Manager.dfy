/**
 * Whole runs of the manager beside Bazel clients: small steps of cleanup, recovery, locking and
 * file-system access, interleaved with the clock and with clients that write under the shared lease.
 */
module Manager {
  import opened Wrappers
  import opened Order
  import opened Policy
  import opened Victims
  import opened DiskCache
  import opened VictimRuns

  // ----- the state -----

  datatype Pc =
    | Idle
    | Surveying(now: int, entries: seq<Entry>)                 // the first listing
    | Judging(now: int, entries: seq<Entry>)                   // before the first usage query
    | Locking(now: int)                                        // before TryExclusive
    | Relisting(now: int, entries: seq<Entry>)                 // the second listing
    | Rejudging(now: int, entries: seq<Entry>)                 // before the second usage query
    | Sweeping(now: int, ranked: seq<Entry>, i: nat, cycle: Cycle, opening: Opening, met: seq<Met>)
    | Unlinking(now: int, ranked: seq<Entry>, i: nat, cycle: Cycle, opening: Opening, met: seq<Met>)
    | Reconciling(recovery: bool)
    | Halted

  /** What a sweep starts from: the pressure rechecked, the usage behind it, and the hot set that ranks. */
  datatype Opening = Opening(recheck: Snapshot, usage: Usage, heat: map<string, uint32>)

  /** What the disk answered at one entry of a sweep: was it deleted, and the usage queries after it. */
  datatype Met = Met(deletes: bool, refresh: Option<Usage>, confirm: Option<Usage>)

  /** A sweep that ended: its inputs with every answer it met, the ranking hot set, the log then, and why. */
  datatype Finished = Finished(input: Input, heat: map<string, uint32>, last: nat, why: End)

  /** One unlink and what held when it happened. */
  datatype Unlinked = Unlinked(
    entry: Entry, removed: Object, time: int, now: int, recheck: Snapshot,
    ready: bool, warmStart: Option<int>, exclusive: bool, shared: set<nat>,
    listed: seq<Entry>, left: Disk)

  datatype State = State(
    disk: Disk, clock: int,
    shared: set<nat>, exclusive: bool,
    ready: bool, warmUntil: Option<int>, warmStart: Option<int>, evicting: bool,
    heat: map<string, uint32>,
    seen: seq<Snapshot>,        // every snapshot the pressure rule was asked about
    pc: Pc, log: seq<Unlinked>, cycles: seq<Finished>)

  datatype Action =
    | Tick(delta: nat)
    | ClientLocks(client: nat)
    | ClientUnlocks(client: nat)
    | ClientWrites(client: nat, disk: Disk)
    | StartCleanup
    | ListOne(key: string)
    | ListDone
    | ListFails
    | Judge(usage: Usage)
    | UsageFails
    | TryLock
    | LockFails
    | Rejudge(usage: Usage, ranked: seq<Entry>)
    | SweepTurn
    | Unlink(works: bool, refresh: Option<Usage>, confirm: Option<Usage>)
    | SweepEnds
    | HeatChanges(heat: map<string, uint32>)    // events, decay, restore
    | LoseWatcher
    | Reconciled(restored: bool)
    | ReconcileFails
    | Shutdown

  ghost predicate Permutes(a: seq<Entry>, b: seq<Entry>) {
    && |a| == |b| && (forall e :: e in a <==> e in b)
  }

  /** The phases between taking and releasing the exclusive lease. */
  predicate UnderLease(pc: Pc) {
    pc.Relisting? || pc.Rejudging? || pc.Sweeping? || pc.Unlinking?
  }

  // ----- the steps -----

  ghost predicate Enabled(p: EvictionPolicy, s: State, a: Action) {
    match a
    case Tick(_) => true
    case ClientLocks(_) => !s.exclusive
    case ClientUnlocks(c) => c in s.shared
    case ClientWrites(c, _) => c in s.shared
    case StartCleanup => s.pc.Idle?
    case ListOne(key) =>
      (s.pc.Surveying? || s.pc.Relisting?) && Snap(s.disk, key).Some? && NotListed(s.pc.entries, key)
    case ListDone => s.pc.Surveying? || s.pc.Relisting?
    case ListFails => s.pc.Surveying? || s.pc.Relisting?
    case Judge(_) => s.pc.Judging?
    case UsageFails => s.pc.Judging? || s.pc.Rejudging?
    case TryLock => s.pc.Locking?
    case LockFails => s.pc.Locking?
    case Rejudge(_, ranked) =>
      s.pc.Rejudging? && Permutes(ranked, s.pc.entries) && DistinctKeys(ranked) && Ranked(s.heat, ranked)
    case SweepTurn => s.pc.Sweeping? && s.pc.i < |s.pc.ranked|
    case Unlink(_, _, _) => s.pc.Unlinking? && s.pc.i < |s.pc.ranked|
    case SweepEnds => s.pc.Sweeping? && s.pc.i >= |s.pc.ranked|
    case HeatChanges(_) => s.pc.Idle? || s.pc.Reconciling?
    case LoseWatcher => s.pc.Idle?
    case Reconciled(_) => s.pc.Reconciling?
    case ReconcileFails => s.pc.Reconciling?
    case Shutdown => s.pc.Idle?
  }

  /** Leaving `cleanup`: the deferred release drops the lease if it was taken. */
  function Leave(s: State): State {
    s.(pc := Idle, exclusive := if UnderLease(s.pc) then false else s.exclusive)
  }

  function Listed(pc: Pc, e: Entry): Pc
    requires pc.Surveying? || pc.Relisting?
  {
    if pc.Surveying? then Surveying(pc.now, pc.entries + [e]) else Relisting(pc.now, pc.entries + [e])
  }

  /** The pressure rule on a new snapshot. */
  function Measured(p: EvictionPolicy, s: State, snapshot: Snapshot): State {
    s.(evicting := NextEvicting(p, s.evicting, snapshot), seen := s.seen + [snapshot])
  }

  /** The guards of `cleanup` after the first usage query. */
  function Guarded(p: EvictionPolicy, s: State, usage: Usage): State
    requires s.pc.Judging?
  {
    var snapshot := Snapshot(usage.percent, TotalBytes(s.pc.entries));
    var next := Measured(p, s, snapshot);
    if !next.evicting || !s.ready || (s.warmUntil.Some? && s.pc.now < s.warmUntil.value) || p.shadow then Leave(next)
    else next.(pc := Locking(s.pc.now))
  }

  /** Pressure is checked again on the listing taken under the lease. */
  function Resumed(p: EvictionPolicy, s: State, usage: Usage, ranked: seq<Entry>): State
    requires s.pc.Rejudging?
  {
    var snapshot := Snapshot(usage.percent, TotalBytes(s.pc.entries));
    var next := Measured(p, s, snapshot);
    if !next.evicting then Leave(next)
    else
      var opening := Opening(snapshot, usage, s.heat);
      next.(pc := Sweeping(s.pc.now, ranked, 0, Start(ranked, usage.free, usage.used), opening, []))
  }

  /** The answers met so far, as the answers of a whole sweep. */
  function AnswersOf(met: seq<Met>): Answers {
    Answers((k: nat) => k < |met| && met[k].deletes,
            (k: nat) => if k < |met| then met[k].refresh else None,
            (k: nat) => if k < |met| then met[k].confirm else None)
  }

  /** The sweep at hand with its answers so far. */
  function InputOf(p: EvictionPolicy, pc: Pc, met: seq<Met>): Input
    requires pc.Sweeping? || pc.Unlinking?
  {
    Input(p, pc.ranked, pc.now, pc.opening.usage.free, pc.opening.usage.used, AnswersOf(met), true)
  }

  /** The turn for an entry that is not deleted; `deletes` is false if its deletion failed. */
  function Skip(s: State, deletes: bool): State
    requires s.pc.Sweeping? || s.pc.Unlinking?
  {
    s.(pc := Sweeping(s.pc.now, s.pc.ranked, s.pc.i + 1, s.pc.cycle, s.pc.opening,
                      s.pc.met + [Met(deletes, None, None)]))
  }

  /** Up to the identity check of the entry at hand. */
  function Turning(p: EvictionPolicy, root: Root, s: State): State
    requires s.pc.Sweeping? && s.pc.i < |s.pc.ranked|
  {
    var e := s.pc.ranked[s.pc.i];
    if !OldEnough(p, e, s.pc.now) || BreaksFloor(p, e, s.pc.cycle.actionBytes) then Skip(s, true)
    else if !Confirms(s.disk, root, e) then Skip(s, false)
    else s.(pc := Unlinking(s.pc.now, s.pc.ranked, s.pc.i, s.pc.cycle, s.pc.opening, s.pc.met))
  }

  /** What is logged about the unlink at hand. */
  ghost function Record(s: State): Unlinked
    requires s.pc.Unlinking? && s.pc.i < |s.pc.ranked| && PathParts(s.pc.ranked[s.pc.i].key) in s.disk
  {
    var e, path := s.pc.ranked[s.pc.i], PathParts(s.pc.ranked[s.pc.i].key);
    Unlinked(e, s.disk[path], s.clock, s.pc.now, s.pc.opening.recheck, s.ready, s.warmStart, s.exclusive, s.shared,
             s.pc.ranked, s.disk - {path})
  }

  /** The snapshot of the confirmation query, if the turn that took an entry comes to one that answers. */
  function Confirmation(p: EvictionPolicy, taken: Cycle, refresh: Option<Usage>, confirm: Option<Usage>)
    : seq<Snapshot>
  {
    var due := taken.pending >= p.cleanupBatchSize;
    if (due && refresh.None?) || confirm.None? then []
    else
      var percent := if due then refresh.value.percent else Simulated(taken);
      if NextEvicting(p, true, Snapshot(percent, taken.cacheBytes)) then []
      else [Snapshot(confirm.value.percent, taken.cacheBytes)]
  }

  /** The unlink of whatever the name now holds, unless a system call fails, and the rest of the turn. */
  ghost function Unlinks(p: EvictionPolicy, s: State, works: bool, refresh: Option<Usage>, confirm: Option<Usage>): State
    requires s.pc.Unlinking? && s.pc.i < |s.pc.ranked|
  {
    var e, path := s.pc.ranked[s.pc.i], PathParts(s.pc.ranked[s.pc.i].key);
    if !works || path !in s.disk || s.disk[path].Directory? then Skip(s, false)
    else
      var taken := Take(s.pc.cycle, e, s.pc.i, true);
      var gone := s.(disk := s.disk - {path}, heat := s.heat - {e.key}, log := s.log + [Record(s)],
                     seen := s.seen + Confirmation(p, taken, refresh, confirm));
      var met := s.pc.met + [Met(true, refresh, confirm)];
      match AfterTake(p, Answers(k => true, k => refresh, k => confirm), true, s.pc.i, taken)
      case Continue(c) => gone.(pc := Sweeping(s.pc.now, s.pc.ranked, s.pc.i + 1, c, s.pc.opening, met))
      case Stop(_, why) =>
        Leave(Ended(gone.(evicting := s.evicting && why != Reached), InputOf(p, s.pc, met), s.pc.opening.heat, why))
  }

  /** Notes the end of a sweep. */
  function Ended(s: State, input: Input, heat: map<string, uint32>, why: End): State {
    s.(cycles := s.cycles + [Finished(input, heat, |s.log|, why)])
  }

  function Reconcile(p: EvictionPolicy, s: State, restored: bool): State
    requires s.pc.Reconciling?
  {
    var ready := s.(ready := true, pc := Idle, heat := if s.pc.recovery then map[] else s.heat);
    if s.pc.recovery || !restored then
      ready.(warmUntil := Some(s.clock + p.warmupDuration), warmStart := Some(s.clock))
    else ready
  }

  ghost function Do(p: EvictionPolicy, root: Root, s: State, a: Action): State
    requires Enabled(p, s, a)
  {
    match a
    case Tick(delta) => s.(clock := s.clock + delta)
    case ClientLocks(c) => s.(shared := s.shared + {c})
    case ClientUnlocks(c) => s.(shared := s.shared - {c})
    case ClientWrites(_, disk) => s.(disk := disk)
    case StartCleanup => s.(pc := Surveying(s.clock, []))
    case ListOne(key) => s.(pc := Listed(s.pc, Snap(s.disk, key).value))
    case ListDone =>
      s.(pc := if s.pc.Surveying? then Judging(s.pc.now, s.pc.entries) else Rejudging(s.pc.now, s.pc.entries))
    case ListFails => Leave(s)
    case Judge(usage) => Guarded(p, s, usage)
    case UsageFails => Leave(s)
    case TryLock =>
      if s.shared == {} && !s.exclusive then s.(exclusive := true, pc := Relisting(s.pc.now, [])) else Leave(s)
    case LockFails => Leave(s)
    case Rejudge(usage, ranked) => Resumed(p, s, usage, ranked)
    case SweepTurn => Turning(p, root, s)
    case Unlink(works, refresh, confirm) => Unlinks(p, s, works, refresh, confirm)
    case SweepEnds => Leave(Ended(s, InputOf(p, s.pc, s.pc.met), s.pc.opening.heat, Exhausted))
    case HeatChanges(heat) => s.(heat := heat)
    case LoseWatcher => s.(ready := false, pc := Reconciling(true))
    case Reconciled(restored) => Reconcile(p, s, restored)
    case ReconcileFails => s.(pc := Halted)
    case Shutdown => s.(ready := false, pc := Halted)
  }

  /** Start-up: nothing held, not ready, the first reconciliation under way. */
  ghost predicate Initial(s: State) {
    !s.exclusive && !s.ready && s.warmUntil.None? && s.warmStart.None? && !s.evicting
    && s.pc == Reconciling(false) && s.seen == [] && s.log == [] && s.cycles == []
  }

  ghost predicate Runs(p: EvictionPolicy, root: Root, s: State, actions: seq<Action>)
    decreases |actions|, 0
  {
    actions != [] ==>
      && Runs(p, root, s, actions[..|actions| - 1])
      && Enabled(p, After(p, root, s, actions[..|actions| - 1]), actions[|actions| - 1])
  }

  ghost function After(p: EvictionPolicy, root: Root, s: State, actions: seq<Action>): State
    requires Runs(p, root, s, actions)
    decreases |actions|, 1
  {
    if actions == [] then s
    else Do(p, root, After(p, root, s, actions[..|actions| - 1]), actions[|actions| - 1])
  }
}
