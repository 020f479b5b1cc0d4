/** Safety of whole manager runs: when a file is unlinked, and which file it is. */
module ManagerRuns {
  import opened Wrappers
  import opened Policy
  import opened Victims
  import opened CacheKey
  import opened DiskCache
  import opened Manager

  // ----- the listing against the disk -----

  /** The bytes of the first `n` listed entries that are still on the disk as listed. */
  ghost function LiveBytes(disk: Disk, listed: seq<Entry>, n: nat): nat
    requires n <= |listed|
  {
    if n == 0 then 0 else LiveBytes(disk, listed, n - 1) + if Current(disk, listed[n - 1]) then listed[n - 1].size else 0
  }

  /** The action-cache part of them. */
  ghost function LiveActions(disk: Disk, listed: seq<Entry>, n: nat): nat
    requires n <= |listed|
  {
    if n == 0 then 0
    else
      var e := listed[n - 1];
      LiveActions(disk, listed, n - 1) + if Current(disk, e) && e.kind == ActionCache then e.size else 0
  }

  lemma {:induction false} AllLive(disk: Disk, listed: seq<Entry>, n: nat)
    requires n <= |listed| && AllCurrent(disk, listed, 0)
    ensures LiveBytes(disk, listed, n) == TotalBytes(listed[..n]) && LiveActions(disk, listed, n) == ActionBytes(listed[..n])
  {
    hide Current;
    if n > 0 {
      AllLive(disk, listed, n - 1);
      assert listed[..n][..n - 1] == listed[..n - 1];
    }
  }

  lemma CurrentAfterUnlink(disk: Disk, key: string, e: Entry)
    ensures Current(disk - {PathParts(key)}, e) <==> Current(disk, e) && e.key != key
  {
    if e.key != key {
      KeyPathsDiffer(key, e.key);
    }
  }

  /** Unlinking a listed file takes exactly its own bytes off the live total. */
  lemma {:induction false} LiveAfterUnlink(disk: Disk, listed: seq<Entry>, i: nat, n: nat)
    requires i < |listed| && n <= |listed| && DistinctKeys(listed) && Current(disk, listed[i])
    ensures var left := disk - {PathParts(listed[i].key)};
            && LiveBytes(left, listed, n) == LiveBytes(disk, listed, n) - (if i < n then listed[i].size else 0)
            && LiveActions(left, listed, n)
               == LiveActions(disk, listed, n) - (if i < n && listed[i].kind == ActionCache then listed[i].size else 0)
  {
    hide Current;
    if n > 0 {
      LiveAfterUnlink(disk, listed, i, n - 1);
      CurrentAfterUnlink(disk, listed[i].key, listed[n - 1]);
    }
  }

  /** The loop's running totals are the bytes really on the disk, and the floor is kept. */
  ghost predicate LedgerOk(p: EvictionPolicy, disk: Disk, ranked: seq<Entry>, c: Cycle) {
    && c.cacheBytes == LiveBytes(disk, ranked, |ranked|)
    && c.actionBytes == LiveActions(disk, ranked, |ranked|)
    && c.actionBytes >= Min(ActionBytes(ranked), p.minActionCacheBytes)
    && c.projected + c.cacheBytes == TotalBytes(ranked)
  }

  ghost predicate BooksOk(p: EvictionPolicy, s: State) {
    match s.pc
    case Sweeping(_, ranked, _, c, _, _) => LedgerOk(p, s.disk, ranked, c)
    case Unlinking(_, ranked, i, c, _, _) =>
      && LedgerOk(p, s.disk, ranked, c) && i < |ranked|
      && OldEnough(p, ranked[i], s.pc.now) && !BreaksFloor(p, ranked[i], c.actionBytes)
    case _ => true
  }

  /** Everything an unlink must have in front of it, and the identity of what it removed. */
  ghost predicate SafeUnlink(p: EvictionPolicy, l: Unlinked) {
    && !p.shadow && l.ready
    && l.exclusive && l.shared == {}
    && Unmet(p, l.recheck)
    && l.now <= l.time && l.entry.modTime <= l.now - p.minimumResidence
    && (l.warmStart.Some? ==> l.now >= l.warmStart.value + p.warmupDuration)
    && ParseKey(l.entry.key) == Ok(l.entry.kind)
    && l.removed == Regular(l.entry.device, l.entry.inode, l.entry.size, l.entry.modTime)
    && LiveActions(l.left, l.listed, |l.listed|) >= Min(ActionBytes(l.listed), p.minActionCacheBytes)
  }

  predicate HasNow(pc: Pc) {
    !pc.Idle? && !pc.Reconciling? && !pc.Halted?
  }

  /** The lease is held exactly in the phases that need it, and never beside a client. */
  ghost predicate LeaseOk(s: State) {
    (s.exclusive <==> UnderLease(s.pc)) && (s.exclusive ==> s.shared == {})
  }

  ghost predicate WarmOk(p: EvictionPolicy, s: State) {
    match s.warmStart
    case None => s.warmUntil.None?
    case Some(t) => s.warmUntil == Some(t + p.warmupDuration)
  }

  /** Past the guards they all still hold. */
  ghost predicate GuardsOk(p: EvictionPolicy, s: State) {
    && (HasNow(s.pc) ==> s.pc.now <= s.clock)
    && (s.pc.Locking? || UnderLease(s.pc) ==>
          && !p.shadow && s.ready && s.evicting
          && (s.warmStart.Some? ==> s.pc.now >= s.warmStart.value + p.warmupDuration))
    && (s.pc.Sweeping? || s.pc.Unlinking? ==> Unmet(p, s.pc.opening.recheck))
  }

  /** The snapshots listed under the lease and not yet dealt with. */
  ghost predicate AllCurrent(disk: Disk, entries: seq<Entry>, i: nat) {
    DistinctKeys(entries) && forall j :: i <= j < |entries| ==> Current(disk, entries[j])
  }

  ghost predicate SnapshotsOk(s: State) {
    match s.pc
    case Relisting(_, entries) => AllCurrent(s.disk, entries, 0)
    case Rejudging(_, entries) => AllCurrent(s.disk, entries, 0)
    case Sweeping(_, ranked, i, _, _, _) => AllCurrent(s.disk, ranked, i)
    case Unlinking(_, ranked, i, _, _, _) => i < |ranked| && AllCurrent(s.disk, ranked, i)
    case _ => true
  }

  ghost predicate Inv(p: EvictionPolicy, s: State) {
    && LeaseOk(s) && WarmOk(p, s) && GuardsOk(p, s) && SnapshotsOk(s) && BooksOk(p, s)
    && (forall k :: 0 <= k < |s.log| ==> SafeUnlink(p, s.log[k]))
  }

  /** While the lease is held only the manager's own unlink changes the disk. */
  lemma LeaseFreezesDisk(p: EvictionPolicy, root: Root, s: State, a: Action)
    requires Inv(p, s) && Enabled(p, s, a) && s.exclusive && !a.Unlink?
    ensures Do(p, root, s, a).disk == s.disk
  {
    hide SnapshotsOk, BooksOk, GuardsOk, WarmOk, SafeUnlink, Confirms, Snap, NextEvicting, Unlinks, Ranked, Permutes;
  }

  /** Removing one file leaves every snapshot of another key current. */
  lemma UnlinkKeepsOthers(disk: Disk, entries: seq<Entry>, i: nat)
    requires i < |entries| && AllCurrent(disk, entries, i)
    ensures AllCurrent(disk - {PathParts(entries[i].key)}, entries, i + 1)
  {
    forall j | i < j < |entries|
      ensures Current(disk - {PathParts(entries[i].key)}, entries[j])
    {
      CurrentAfterUnlink(disk, entries[i].key, entries[j]);
    }
  }

  lemma PermutationStaysCurrent(disk: Disk, ranked: seq<Entry>, entries: seq<Entry>)
    requires Permutes(ranked, entries) && DistinctKeys(ranked) && AllCurrent(disk, entries, 0)
    ensures AllCurrent(disk, ranked, 0)
  {
    forall j | 0 <= j < |ranked|
      ensures Current(disk, ranked[j])
    {
      assert ranked[j] in entries;
    }
  }

  lemma UnlinkKeepsLedger(p: EvictionPolicy, disk: Disk, ranked: seq<Entry>, i: nat, c: Cycle)
    requires i < |ranked| && AllCurrent(disk, ranked, i)
    requires LedgerOk(p, disk, ranked, c) && !BreaksFloor(p, ranked[i], c.actionBytes)
    ensures LedgerOk(p, disk - {PathParts(ranked[i].key)}, ranked, Take(c, ranked[i], i, true))
  {
    LiveAfterUnlink(disk, ranked, i, |ranked|);
  }

  lemma AfterTakeTotals(p: EvictionPolicy, a: Answers, i: nat, c: Cycle)
    ensures var t := AfterTake(p, a, true, i, c).cycle;
            t.cacheBytes == c.cacheBytes && t.actionBytes == c.actionBytes && t.projected == c.projected
  {
  }

  lemma UnlinkIsSafe(p: EvictionPolicy, s: State)
    requires Inv(p, s) && s.pc.Unlinking?
    ensures var path := PathParts(s.pc.ranked[s.pc.i].key);
            path in s.disk && s.disk[path].Regular? && SafeUnlink(p, Record(s))
  {
    assert Current(s.disk, s.pc.ranked[s.pc.i]);
    UnlinkKeepsLedger(p, s.disk, s.pc.ranked, s.pc.i, s.pc.cycle);
  }

  lemma UnlinkKeepsInv(p: EvictionPolicy, root: Root, s: State, a: Action)
    requires Inv(p, s) && a.Unlink? && Enabled(p, s, a)
    ensures Inv(p, Do(p, root, s, a))
  {
    hide Current, LiveBytes, LiveActions, ActionBytes, TotalBytes, AfterTake, SafeUnlink;
    UnlinkIsSafe(p, s);
    UnlinkKeepsOthers(s.disk, s.pc.ranked, s.pc.i);
    UnlinkKeepsLedger(p, s.disk, s.pc.ranked, s.pc.i, s.pc.cycle);
    var taken := Take(s.pc.cycle, s.pc.ranked[s.pc.i], s.pc.i, true);
    AfterTakeTotals(p, Answers(k => true, k => a.refresh, k => a.confirm), s.pc.i, taken);
    var t := Do(p, root, s, a);
    assert t.log == if a.works then s.log + [Record(s)] else s.log;
  }

  lemma ListKeepsInv(p: EvictionPolicy, root: Root, s: State, a: Action)
    requires Inv(p, s) && a.ListOne? && Enabled(p, s, a)
    ensures Inv(p, Do(p, root, s, a))
  {
    var e := Snap(s.disk, a.key).value;
    assert Current(s.disk, e);
  }

  lemma TurnKeepsInv(p: EvictionPolicy, root: Root, s: State)
    requires Inv(p, s) && Enabled(p, s, SweepTurn)
    ensures Inv(p, Do(p, root, s, SweepTurn))
  {
    hide Current, LedgerOk, SafeUnlink, Confirms;
  }

  lemma LockKeepsInv(p: EvictionPolicy, root: Root, s: State)
    requires Inv(p, s) && Enabled(p, s, TryLock)
    ensures Inv(p, Do(p, root, s, TryLock))
  {
    hide Current, SafeUnlink;
  }

  lemma RejudgeKeepsInv(p: EvictionPolicy, root: Root, s: State, a: Action)
    requires Inv(p, s) && a.Rejudge? && Enabled(p, s, a)
    ensures Inv(p, Do(p, root, s, a))
  {
    hide Current, SafeUnlink, Ranked;
    var ranked := a.ranked;
    PermutationStaysCurrent(s.disk, ranked, s.pc.entries);
    AllLive(s.disk, ranked, |ranked|);
    assert ranked[..|ranked|] == ranked;
  }

  lemma StepKeepsInv(p: EvictionPolicy, root: Root, s: State, a: Action)
    requires Inv(p, s) && Enabled(p, s, a)
    ensures Inv(p, Do(p, root, s, a))
  {
    hide Current, LedgerOk, AllCurrent, SafeUnlink, TotalBytes, Confirms, Snap, Unlinks, Ranked, Permutes;
    if s.exclusive && !a.Unlink? {
      LeaseFreezesDisk(p, root, s, a);
    }
    match a
    case Unlink(_, _, _) => UnlinkKeepsInv(p, root, s, a);
    case ListOne(_) => ListKeepsInv(p, root, s, a);
    case SweepTurn => TurnKeepsInv(p, root, s);
    case TryLock => LockKeepsInv(p, root, s);
    case Rejudge(_, _) => RejudgeKeepsInv(p, root, s, a);
    case _ =>
  }

  /** Every reachable state of every run keeps the invariant. */
  lemma {:induction false} RunKeepsInv(p: EvictionPolicy, root: Root, s: State, actions: seq<Action>)
    requires Initial(s) && Runs(p, root, s, actions)
    ensures Inv(p, After(p, root, s, actions))
  {
    if actions != [] {
      var n := |actions| - 1;
      RunKeepsInv(p, root, s, actions[..n]);
      StepKeepsInv(p, root, After(p, root, s, actions[..n]), actions[n]);
    }
  }

  /**
   * In every run a file is unlinked only with shadow mode off, the manager ready, the warm-up since
   * the last recovery elapsed, pressure rechecked and the exclusive lease held without any client;
   * what is unlinked is the regular file whose identity, size and time were recorded, and the
   * action-cache bytes then left on the disk are at least the floor, or all there were.
   */
  lemma EveryUnlinkIsSafe(p: EvictionPolicy, root: Root, s: State, actions: seq<Action>, k: nat)
    requires Initial(s) && Runs(p, root, s, actions) && k < |After(p, root, s, actions).log|
    ensures SafeUnlink(p, After(p, root, s, actions).log[k])
  {
    RunKeepsInv(p, root, s, actions);
  }

  /** The snapshots listed under the lease that are still to be dealt with. */
  function Outstanding(pc: Pc): seq<Entry> {
    match pc
    case Relisting(_, entries) => entries
    case Rejudging(_, entries) => entries
    case Sweeping(_, ranked, i, _, _, _) => if i <= |ranked| then ranked[i..] else []
    case Unlinking(_, ranked, i, _, _, _) => if i <= |ranked| then ranked[i..] else []
    case _ => []
  }

  /**
   * In every run, from the listing under the lease on, every listed snapshot not yet dealt with is
   * still the regular file on the disk, and during the sweep the loop's totals are the bytes really
   * there.
   */
  lemma SnapshotsStayCurrent(p: EvictionPolicy, root: Root, s: State, actions: seq<Action>)
    requires Initial(s) && Runs(p, root, s, actions)
    ensures var t := After(p, root, s, actions);
            && (forall e :: e in Outstanding(t.pc) ==> Current(t.disk, e))
            && (t.pc.Sweeping? || t.pc.Unlinking? ==>
                  && t.pc.cycle.cacheBytes == LiveBytes(t.disk, t.pc.ranked, |t.pc.ranked|)
                  && t.pc.cycle.actionBytes == LiveActions(t.disk, t.pc.ranked, |t.pc.ranked|))
  {
    RunKeepsInv(p, root, s, actions);
  }

  /** Outside a deletion cycle the lease is free: every exit of `cleanup` released it. */
  lemma LeaseIsReleased(p: EvictionPolicy, root: Root, s: State, actions: seq<Action>)
    requires Initial(s) && Runs(p, root, s, actions)
    requires After(p, root, s, actions).pc.Idle? || After(p, root, s, actions).pc.Halted?
    ensures !After(p, root, s, actions).exclusive
  {
    RunKeepsInv(p, root, s, actions);
  }

  /**
   * The lease discipline is needed: were another regular file written to the name between the
   * identity check and the unlink, the unlink would remove that file.
   */
  lemma UndisciplinedWriteIsUnlinked(p: EvictionPolicy, root: Root, s: State, a: Action, other: Object)
    requires Inv(p, s) && a.Unlink? && a.works && Enabled(p, s, a) && other.Regular?
    requires var e := s.pc.ranked[s.pc.i]; other != Regular(e.device, e.inode, e.size, e.modTime)
    ensures var written := s.(disk := s.disk[PathParts(s.pc.ranked[s.pc.i].key) := other]);
            && Enabled(p, written, a)
            && var log := Do(p, root, written, a).log;
               |log| == |s.log| + 1 && log[|s.log|].removed == other && !SafeUnlink(p, log[|s.log|])
  {
  }
}
