/**
 * The guards of every manager run read off its actions, clock and disk: when a cleanup goes ahead, what
 * it may remove, and how long a recovery keeps it from removing anything.
 */
module ManagerGuards {
  import opened Wrappers
  import opened Policy
  import opened Victims
  import opened DiskCache
  import opened Manager
  import opened ManagerRuns

  // ----- when a cleanup goes ahead -----

  /** After the first usage query, cleanup goes on to the lock exactly behind every guard. */
  lemma JudgeExactly(p: EvictionPolicy, root: Root, s: State, usage: Usage)
    requires s.pc.Judging?
    ensures var t, snapshot := Do(p, root, s, Judge(usage)), Snapshot(usage.percent, TotalBytes(s.pc.entries));
            && t.seen == s.seen + [snapshot] && t.evicting == NextEvicting(p, s.evicting, snapshot)
            && (t.pc == Locking(s.pc.now) <==>
                  && t.evicting && s.ready && !p.shadow
                  && (s.warmUntil.Some? ==> s.warmUntil.value <= s.pc.now))
            && (t.pc != Locking(s.pc.now) ==> t.pc == Idle)
  {
  }

  /** The lock is taken exactly when no client holds the shared lease and it is free. */
  lemma LockExactly(p: EvictionPolicy, root: Root, s: State)
    requires s.pc.Locking?
    ensures var t := Do(p, root, s, TryLock);
            if s.shared == {} && !s.exclusive then t.exclusive && t.pc == Relisting(s.pc.now, [])
            else t.pc == Idle && t.exclusive == s.exclusive
  {
  }

  /** Behind the lock, the sweep starts exactly when pressure still holds on the second listing. */
  lemma RejudgeExactly(p: EvictionPolicy, root: Root, s: State, usage: Usage, ranked: seq<Entry>)
    requires Enabled(p, s, Rejudge(usage, ranked))
    ensures var t := Do(p, root, s, Rejudge(usage, ranked));
            var snapshot := Snapshot(usage.percent, TotalBytes(s.pc.entries));
            && t.seen == s.seen + [snapshot] && t.evicting == NextEvicting(p, s.evicting, snapshot)
            && (if t.evicting then t.pc.Sweeping? && t.pc.ranked == ranked && t.pc.i == 0 && t.pc.opening.heat == s.heat
                else t.pc == Idle && !t.exclusive)
  {
  }

  /** A turn comes to the unlink exactly for an entry of the minimum age, above the floor, whose identity still matches. */
  lemma TurnExactly(p: EvictionPolicy, root: Root, s: State)
    requires Enabled(p, s, SweepTurn)
    ensures var t, e := Do(p, root, s, SweepTurn), s.pc.ranked[s.pc.i];
            var passed := || e.modTime > s.pc.now - p.minimumResidence
                          || (e.kind == ActionCache && s.pc.cycle.actionBytes - e.size < p.minActionCacheBytes);
            && (t.pc.Unlinking? <==> !passed && Confirms(s.disk, root, e))
            && (!t.pc.Unlinking? ==> t.pc.Sweeping? && t.pc.met == s.pc.met + [Met(passed, None, None)])
            && t.pc.i == (if t.pc.Unlinking? then s.pc.i else s.pc.i + 1) && t.disk == s.disk && t.log == s.log
  {
    hide Confirms;
  }

  /** The unlink goes through exactly when the system calls work and the name holds no directory. */
  lemma UnlinkExactly(p: EvictionPolicy, root: Root, s: State, a: Action)
    requires a.Unlink? && Enabled(p, s, a)
    ensures var t, path := Do(p, root, s, a), PathParts(s.pc.ranked[s.pc.i].key);
            if a.works && path in s.disk && !s.disk[path].Directory? then
              t.disk == s.disk - {path} && |t.log| == |s.log| + 1
            else
              && t.disk == s.disk && t.log == s.log && t.evicting == s.evicting
              && t.pc.Sweeping? && t.pc.met == s.pc.met + [Met(false, None, None)]
  {
    hide AfterTake, Confirmation, Take, Record, InputOf;
  }

  /** What is unlinked loses its heat, and nothing else does. */
  lemma UnlinkForgets(p: EvictionPolicy, root: Root, s: State, a: Action)
    requires a.Unlink? && Enabled(p, s, a)
    ensures var t, key := Do(p, root, s, a), s.pc.ranked[s.pc.i].key;
            if |t.log| > |s.log| then
              && key !in t.heat
              && (forall k :: k != key ==> (k in t.heat <==> k in s.heat) && (k in s.heat ==> t.heat[k] == s.heat[k]))
            else t.heat == s.heat && t.disk == s.disk
  {
    hide AfterTake, Confirmation, Take, Record, InputOf;
  }

  /** A finished recovery forgets all heat, makes the manager ready and starts the warm-up. */
  lemma RecoveryExactly(p: EvictionPolicy, root: Root, s: State, restored: bool)
    requires s.pc.Reconciling?
    ensures var t := Do(p, root, s, Reconciled(restored));
            && t.ready && t.pc == Idle
            && t.heat == (if s.pc.recovery then map[] else s.heat)
            && t.warmUntil == (if s.pc.recovery || !restored then Some(s.clock + p.warmupDuration) else s.warmUntil)
  {
  }

  // ----- what a run may remove -----

  /**
   * In every run, a step that changes the disk is a client's write under the shared lease, or removes
   * one file: then the manager is active, ready and evicting, holds the exclusive lease without any
   * client, and the file is the regular one its listed snapshot describes.
   */
  lemma EveryRemovalIsSafe(p: EvictionPolicy, root: Root, s: State, actions: seq<Action>, a: Action)
    requires Initial(s) && Runs(p, root, s, actions) && Enabled(p, After(p, root, s, actions), a)
    requires Do(p, root, After(p, root, s, actions), a).disk != After(p, root, s, actions).disk
    ensures var t := After(p, root, s, actions);
            var u := Do(p, root, t, a);
            || (a.ClientWrites? && a.client in t.shared && !t.exclusive)
            || (&& t.pc.Unlinking? && t.pc.i < |t.pc.ranked|
                && !p.shadow && t.ready && t.evicting && t.exclusive && t.shared == {}
                && var e := t.pc.ranked[t.pc.i];
                   && PathParts(e.key) in t.disk
                   && t.disk[PathParts(e.key)] == Regular(e.device, e.inode, e.size, e.modTime)
                   && u.disk == t.disk - {PathParts(e.key)}
                   && e.modTime <= t.pc.now - p.minimumResidence
                   && |u.log| == |t.log| + 1 && u.log[|t.log|].entry == e && u.log[|t.log|].now == t.pc.now)
  {
    RunKeepsInv(p, root, s, actions);
    var t := After(p, root, s, actions);
    hide Runs, After;
    RemovalIsSafe(p, root, t, a);
  }

  lemma RemovalIsSafe(p: EvictionPolicy, root: Root, t: State, a: Action)
    requires Inv(p, t) && Enabled(p, t, a) && Do(p, root, t, a).disk != t.disk
    ensures var u := Do(p, root, t, a);
            || (a.ClientWrites? && a.client in t.shared && !t.exclusive)
            || (&& t.pc.Unlinking? && t.pc.i < |t.pc.ranked|
                && !p.shadow && t.ready && t.evicting && t.exclusive && t.shared == {}
                && var e := t.pc.ranked[t.pc.i];
                   && PathParts(e.key) in t.disk
                   && t.disk[PathParts(e.key)] == Regular(e.device, e.inode, e.size, e.modTime)
                   && u.disk == t.disk - {PathParts(e.key)}
                   && e.modTime <= t.pc.now - p.minimumResidence
                   && |u.log| == |t.log| + 1 && u.log[|t.log|].entry == e && u.log[|t.log|].now == t.pc.now)
  {
    hide Unlinks, LedgerOk, SafeUnlink, AllCurrent, Confirms, Snap, NextEvicting;
    if a.Unlink? {
      UnlinkRemoves(p, t, a);
    } else if t.exclusive {
      LeaseFreezesDisk(p, root, t, a);
    }
  }

  lemma UnlinkRemoves(p: EvictionPolicy, t: State, a: Action)
    requires Inv(p, t) && a.Unlink? && Enabled(p, t, a)
    ensures var e, u := t.pc.ranked[t.pc.i], Unlinks(p, t, a.works, a.refresh, a.confirm);
            u.disk != t.disk ==>
              && PathParts(e.key) in t.disk
              && t.disk[PathParts(e.key)] == Regular(e.device, e.inode, e.size, e.modTime)
              && u.disk == t.disk - {PathParts(e.key)}
              && |u.log| == |t.log| + 1 && u.log[|t.log|].entry == e && u.log[|t.log|].now == t.pc.now
  {
    hide AfterTake, Confirmation, Take, LedgerOk, SafeUnlink;
    assert Current(t.disk, t.pc.ranked[t.pc.i]);
  }

  // ----- warm-up, from actions and clock -----

  /** Nothing was unlinked, or is about to be, by a cleanup that started before `until`; `first` is the log then. */
  ghost predicate HeldBack(s: State, until: int, first: nat) {
    && s.warmUntil.Some? && s.warmUntil.value >= until
    && (s.pc.Locking? || UnderLease(s.pc) ==> s.pc.now >= until)
    && first <= |s.log| && (forall m :: first <= m < |s.log| ==> s.log[m].now >= until)
  }

  lemma StepKeepsHeldBack(p: EvictionPolicy, root: Root, s: State, a: Action, since: int, first: nat)
    requires HeldBack(s, since + p.warmupDuration, first) && since <= s.clock && Enabled(p, s, a)
    ensures HeldBack(Do(p, root, s, a), since + p.warmupDuration, first) && since <= Do(p, root, s, a).clock
  {
    hide HeldBack, Unlinks, Turning, Resumed, Guarded, Snap, Ranked, Permutes;
    match a
    case Unlink(_, _, _) => UnlinkKeepsHeldBack(p, root, s, a, since, first);
    case Judge(usage) => JudgeKeepsHeldBack(p, root, s, usage, since, first);
    case Reconciled(restored) => RecoveryKeepsHeldBack(p, root, s, restored, since, first);
    case SweepTurn => TurnKeepsHeldBack(p, root, s, since, first);
    case Rejudge(_, _) => RejudgeKeepsHeldBack(p, root, s, a, since, first);
    case _ => ElsewhereKeepsHeldBack(s, Do(p, root, s, a), since + p.warmupDuration, first);
  }

  lemma ElsewhereKeepsHeldBack(s: State, t: State, until: int, first: nat)
    requires HeldBack(s, until, first) && t.log == s.log && t.warmUntil == s.warmUntil
    requires t.pc.Locking? || UnderLease(t.pc) ==> (s.pc.Locking? || UnderLease(s.pc)) && t.pc.now == s.pc.now
    ensures HeldBack(t, until, first)
  {
  }

  lemma JudgeKeepsHeldBack(p: EvictionPolicy, root: Root, s: State, usage: Usage, since: int, first: nat)
    requires HeldBack(s, since + p.warmupDuration, first) && s.pc.Judging?
    ensures HeldBack(Do(p, root, s, Judge(usage)), since + p.warmupDuration, first)
    ensures Do(p, root, s, Judge(usage)).clock == s.clock
  {
    hide NextEvicting, TotalBytes;
  }

  lemma RejudgeKeepsHeldBack(p: EvictionPolicy, root: Root, s: State, a: Action, since: int, first: nat)
    requires HeldBack(s, since + p.warmupDuration, first) && a.Rejudge? && Enabled(p, s, a)
    ensures HeldBack(Do(p, root, s, a), since + p.warmupDuration, first) && Do(p, root, s, a).clock == s.clock
  {
    hide NextEvicting, TotalBytes, Ranked, Permutes, Start;
  }

  lemma TurnKeepsHeldBack(p: EvictionPolicy, root: Root, s: State, since: int, first: nat)
    requires HeldBack(s, since + p.warmupDuration, first) && Enabled(p, s, SweepTurn)
    ensures HeldBack(Do(p, root, s, SweepTurn), since + p.warmupDuration, first)
    ensures Do(p, root, s, SweepTurn).clock == s.clock
  {
    hide Confirms;
  }

  lemma RecoveryKeepsHeldBack(p: EvictionPolicy, root: Root, s: State, restored: bool, since: int, first: nat)
    requires HeldBack(s, since + p.warmupDuration, first) && since <= s.clock && s.pc.Reconciling?
    ensures HeldBack(Do(p, root, s, Reconciled(restored)), since + p.warmupDuration, first)
  {
  }

  lemma UnlinkKeepsHeldBack(p: EvictionPolicy, root: Root, s: State, a: Action, since: int, first: nat)
    requires HeldBack(s, since + p.warmupDuration, first) && since <= s.clock && a.Unlink? && Enabled(p, s, a)
    ensures HeldBack(Do(p, root, s, a), since + p.warmupDuration, first) && since <= Do(p, root, s, a).clock
  {
    hide AfterTake, Confirmation, Take;
  }

  lemma {:induction false} RunKeepsHeldBack(
    p: EvictionPolicy, root: Root, s: State, actions: seq<Action>, k: nat, since: int, first: nat)
    requires Runs(p, root, s, actions) && k <= |actions| && Runs(p, root, s, actions[..k])
    requires HeldBack(After(p, root, s, actions[..k]), since + p.warmupDuration, first)
    requires since <= After(p, root, s, actions[..k]).clock
    ensures HeldBack(After(p, root, s, actions), since + p.warmupDuration, first)
    ensures since <= After(p, root, s, actions).clock
    decreases |actions|
  {
    hide HeldBack;
    if k == |actions| {
      assert actions[..k] == actions;
    } else {
      var n := |actions| - 1;
      assert actions[..n][..k] == actions[..k];
      RunKeepsHeldBack(p, root, s, actions[..n], k, since, first);
      StepKeepsHeldBack(p, root, After(p, root, s, actions[..n]), actions[n], since, first);
    }
  }

  lemma {:induction false} PrefixRuns(p: EvictionPolicy, root: Root, s: State, actions: seq<Action>, k: nat)
    requires Runs(p, root, s, actions) && k <= |actions|
    ensures Runs(p, root, s, actions[..k])
    ensures k < |actions| ==> Enabled(p, After(p, root, s, actions[..k]), actions[k])
    decreases |actions|
  {
    if k == |actions| {
      assert actions[..k] == actions;
    } else {
      var n := |actions| - 1;
      PrefixRuns(p, root, s, actions[..n], k);
      assert actions[..n][..k] == actions[..k];
    }
  }

  /**
   * Warm-up in every run: once a recovery is over, or a start without a checkpoint, no cleanup that
   * started before the warm-up has elapsed since then unlinks anything.
   */
  lemma WarmupIsKept(p: EvictionPolicy, root: Root, s: State, actions: seq<Action>, k: nat, m: nat)
    requires Initial(s) && Runs(p, root, s, actions) && k < |actions| && actions[k].Reconciled?
    requires Runs(p, root, s, actions[..k]) && After(p, root, s, actions[..k]).pc.Reconciling?
    requires After(p, root, s, actions[..k]).pc.recovery || !actions[k].restored
    requires |After(p, root, s, actions[..k]).log| <= m < |After(p, root, s, actions).log|
    ensures After(p, root, s, actions).log[m].now >= After(p, root, s, actions[..k]).clock + p.warmupDuration
  {
    var before := After(p, root, s, actions[..k]);
    PrefixRuns(p, root, s, actions, k + 1);
    assert actions[..k + 1][..k] == actions[..k];
    var done := After(p, root, s, actions[..k + 1]);
    assert done == Do(p, root, before, actions[k]);
    assert HeldBack(done, before.clock + p.warmupDuration, |before.log|);
    RunKeepsHeldBack(p, root, s, actions, k + 1, before.clock, |before.log|);
  }

  // ----- readiness -----

  /** The last reconciliation succeeded, and neither a lost watcher nor a shutdown came after it. */
  ghost predicate Established(actions: seq<Action>) {
    actions != [] &&
    match actions[|actions| - 1]
    case Reconciled(_) => true
    case LoseWatcher => false
    case ReconcileFails => false
    case Shutdown => false
    case _ => Established(actions[..|actions| - 1])
  }

  lemma ReadyStep(p: EvictionPolicy, root: Root, s: State, a: Action)
    requires Enabled(p, s, a) && (s.pc.Reconciling? ==> !s.ready)
    ensures var t := Do(p, root, s, a);
            && (t.pc.Reconciling? ==> !t.ready)
            && t.ready == match a
                          case Reconciled(_) => true
                          case LoseWatcher => false
                          case ReconcileFails => false
                          case Shutdown => false
                          case _ => s.ready
  {
    hide Unlinks, Turning, Guarded, Resumed, Snap, Ranked, Permutes;
    match a
    case Unlink(_, _, _) => UnlinkKeepsReady(p, s, a);
    case Judge(_) => CleanupKeepsReady(p, root, s, a);
    case Rejudge(_, _) => CleanupKeepsReady(p, root, s, a);
    case SweepTurn => CleanupKeepsReady(p, root, s, a);
    case _ =>
  }

  lemma CleanupKeepsReady(p: EvictionPolicy, root: Root, s: State, a: Action)
    requires Enabled(p, s, a) && (a.Judge? || a.Rejudge? || a.SweepTurn?)
    ensures Do(p, root, s, a).ready == s.ready && !Do(p, root, s, a).pc.Reconciling?
  {
    hide Confirms, NextEvicting, Ranked, Permutes, TotalBytes, Start;
  }

  lemma UnlinkKeepsReady(p: EvictionPolicy, s: State, a: Action)
    requires Enabled(p, s, a) && a.Unlink?
    ensures var t := Unlinks(p, s, a.works, a.refresh, a.confirm); t.ready == s.ready && !t.pc.Reconciling?
  {
    hide AfterTake, Confirmation, Take, Record, InputOf;
  }

  /** In every run the manager is ready exactly while its last reconciliation stands. */
  lemma {:induction false} ReadyIsEstablished(p: EvictionPolicy, root: Root, s: State, actions: seq<Action>)
    requires Initial(s) && Runs(p, root, s, actions)
    ensures var t := After(p, root, s, actions); t.ready == Established(actions) && (t.pc.Reconciling? ==> !t.ready)
  {
    if actions != [] {
      var n := |actions| - 1;
      ReadyIsEstablished(p, root, s, actions[..n]);
      ReadyStep(p, root, After(p, root, s, actions[..n]), actions[n]);
    }
  }

  // ----- the time of a cleanup -----

  /** The clock when the last cleanup started. */
  ghost function StartedAt(p: EvictionPolicy, root: Root, s: State, actions: seq<Action>): Option<int>
    requires Runs(p, root, s, actions)
  {
    if actions == [] then None
    else
      var n := |actions| - 1;
      if actions[n].StartCleanup? then Some(After(p, root, s, actions[..n]).clock) else StartedAt(p, root, s, actions[..n])
  }

  /** During a cleanup the time it judges ages and warm-up by is the clock at its start. */
  lemma {:induction false} NowIsStart(p: EvictionPolicy, root: Root, s: State, actions: seq<Action>)
    requires Initial(s) && Runs(p, root, s, actions)
    ensures var t := After(p, root, s, actions); HasNow(t.pc) ==> StartedAt(p, root, s, actions) == Some(t.pc.now)
  {
    if actions != [] {
      var n := |actions| - 1;
      NowIsStart(p, root, s, actions[..n]);
      NowStays(p, root, After(p, root, s, actions[..n]), actions[n]);
    }
  }

  lemma NowStays(p: EvictionPolicy, root: Root, s: State, a: Action)
    requires Enabled(p, s, a)
    ensures var t := Do(p, root, s, a);
            if a.StartCleanup? then HasNow(t.pc) && t.pc.now == s.clock
            else HasNow(t.pc) ==> HasNow(s.pc) && t.pc.now == s.pc.now
  {
    hide AfterTake, Confirmation, Confirms, Snap, NextEvicting, Ranked, Permutes, TotalBytes;
  }
}
