/**
 * Every deletion cycle of every manager run is one sweep of the victim loop over the answers it met,
 * so what is proved of sweeps holds of the files really unlinked.
 */
module ManagerCycles {
  import opened Wrappers
  import opened Order
  import opened Policy
  import opened Victims
  import opened VictimRuns
  import opened DiskCache
  import opened Manager
  import ManagerRuns

  // ----- a sweep known up to an entry -----

  /** The loop variables at a turn do not depend on later answers. */
  lemma {:induction false} HeadForgetsFuture(p: EvictionPolicy, pc: Pc, met: seq<Met>, m: Met, i: nat)
    requires (pc.Sweeping? || pc.Unlinking?) && i <= |met| && i <= |pc.ranked|
    ensures Head(InputOf(p, pc, met + [m]), i) == Head(InputOf(p, pc, met), i)
  {
    if i > 0 {
      HeadForgetsFuture(p, pc, met, m, i - 1);
    }
  }

  lemma {:induction false} FinalFromHead(x: Input, i: nat)
    requires i <= |x.entries| && Head(x, i).Some?
    ensures Final(x) == Select(x.p, x.entries, x.now, x.a, x.active, i, Head(x, i).value)
  {
    if i > 0 {
      FinalFromHead(x, i - 1);
    }
  }

  // ----- the log, cycle by cycle -----

  /** Where the log stood when the first `n` cycles had ended. */
  ghost function LogAt(cycles: seq<Finished>, n: nat): nat
    requires n <= |cycles|
  {
    if n == 0 then 0 else cycles[n - 1].last
  }

  /** From `first` on the log holds exactly these victims, in order. */
  ghost predicate Logged(log: seq<Unlinked>, first: nat, entries: seq<Entry>, victims: seq<nat>) {
    && first + |victims| <= |log|
    && forall k :: 0 <= k < |victims| ==> victims[k] < |entries| && log[first + k].entry == entries[victims[k]]
  }

  /** A finished cycle, ranked by heat, unlinked exactly the victims of its sweep and ended as the sweep ends. */
  ghost predicate IsSweep(p: EvictionPolicy, log: seq<Unlinked>, first: nat, f: Finished) {
    && f.input.p == p && f.input.active && Ranked(f.heat, f.input.entries) && Final(f.input).why == f.why
    && f.last == first + |Final(f.input).cycle.victims|
    && Logged(log, first, f.input.entries, Final(f.input).cycle.victims)
  }

  /** The cycle at hand has come this far, and has unlinked its victims so far. */
  ghost predicate UnderWay(p: EvictionPolicy, s: State) {
    s.pc.Sweeping? || s.pc.Unlinking? ==>
      && s.pc.i == |s.pc.met| <= |s.pc.ranked| && Ranked(s.pc.opening.heat, s.pc.ranked)
      && Head(InputOf(p, s.pc, s.pc.met), s.pc.i) == Some(s.pc.cycle)
      && Logged(s.log, LogAt(s.cycles, |s.cycles|), s.pc.ranked, s.pc.cycle.victims)
      && |s.log| == LogAt(s.cycles, |s.cycles|) + |s.pc.cycle.victims|
  }

  /** The entry about to be unlinked is taken by this turn of the sweep. */
  ghost predicate AtHand(p: EvictionPolicy, s: State) {
    s.pc.Unlinking? ==>
      && s.pc.i < |s.pc.ranked| && OldEnough(p, s.pc.ranked[s.pc.i], s.pc.now)
      && !BreaksFloor(p, s.pc.ranked[s.pc.i], s.pc.cycle.actionBytes)
  }

  /** The finished cycles and the one under way divide the log among them. */
  ghost predicate CyclesOk(p: EvictionPolicy, s: State) {
    && (forall n :: 0 <= n < |s.cycles| ==> IsSweep(p, s.log, LogAt(s.cycles, n), s.cycles[n]))
    && (!s.pc.Sweeping? && !s.pc.Unlinking? ==> |s.log| == LogAt(s.cycles, |s.cycles|))
    && UnderWay(p, s) && AtHand(p, s)
  }

  lemma LoggedStays(log: seq<Unlinked>, more: seq<Unlinked>, first: nat, entries: seq<Entry>, victims: seq<nat>)
    requires Logged(log, first, entries, victims)
    ensures Logged(log + more, first, entries, victims)
  {
  }

  lemma SweepsStay(p: EvictionPolicy, log: seq<Unlinked>, more: seq<Unlinked>, cycles: seq<Finished>)
    requires forall n :: 0 <= n < |cycles| ==> IsSweep(p, log, LogAt(cycles, n), cycles[n])
    ensures forall n :: 0 <= n < |cycles| ==> IsSweep(p, log + more, LogAt(cycles, n), cycles[n])
  {
    forall n | 0 <= n < |cycles|
      ensures IsSweep(p, log + more, LogAt(cycles, n), cycles[n])
    {
      LoggedStays(log, more, LogAt(cycles, n), cycles[n].input.entries, Final(cycles[n].input).cycle.victims);
    }
  }

  lemma OneMoreCycle(p: EvictionPolicy, log: seq<Unlinked>, cycles: seq<Finished>, f: Finished)
    requires forall n :: 0 <= n < |cycles| ==> IsSweep(p, log, LogAt(cycles, n), cycles[n])
    requires IsSweep(p, log, LogAt(cycles, |cycles|), f)
    ensures forall n :: 0 <= n < |cycles + [f]| ==> IsSweep(p, log, LogAt(cycles + [f], n), (cycles + [f])[n])
  {
    hide IsSweep;
    forall n | 0 <= n < |cycles + [f]|
      ensures IsSweep(p, log, LogAt(cycles + [f], n), (cycles + [f])[n])
    {
      assert LogAt(cycles + [f], n) == LogAt(cycles, n);
    }
  }

  // ----- steps -----

  lemma SkipKeepsCycles(p: EvictionPolicy, s: State, deletes: bool)
    requires CyclesOk(p, s) && (s.pc.Sweeping? || s.pc.Unlinking?) && s.pc.i < |s.pc.ranked|
    requires var e := s.pc.ranked[s.pc.i];
             !deletes || !OldEnough(p, e, s.pc.now) || BreaksFloor(p, e, s.pc.cycle.actionBytes)
    ensures CyclesOk(p, Skip(s, deletes))
  {
    hide IsSweep, Logged;
    var m := Met(deletes, None, None);
    HeadForgetsFuture(p, s.pc, s.pc.met, m, s.pc.i);
    var x := InputOf(p, s.pc, s.pc.met + [m]);
    TurnCases(x, s.pc.i, s.pc.cycle);
  }

  /** The rest of an unlinking turn is the turn of the sweep with the answers met. */
  lemma UnlinkIsTurn(p: EvictionPolicy, s: State, refresh: Option<Usage>, confirm: Option<Usage>)
    requires s.pc.Unlinking? && UnderWay(p, s) && AtHand(p, s)
    ensures var x := InputOf(p, s.pc, s.pc.met + [Met(true, refresh, confirm)]);
            var taken := Take(s.pc.cycle, s.pc.ranked[s.pc.i], s.pc.i, true);
            && Head(x, s.pc.i) == Some(s.pc.cycle)
            && Turned(x, s.pc.i, s.pc.cycle)
               == AfterTake(p, Answers(k => true, k => refresh, k => confirm), true, s.pc.i, taken)
  {
    HeadForgetsFuture(p, s.pc, s.pc.met, Met(true, refresh, confirm), s.pc.i);
  }

  /** Unlinking adds its entry to the log and to the victims. */
  lemma UnlinkIsLogged(p: EvictionPolicy, s: State, x: Input)
    requires s.pc.Unlinking? && UnderWay(p, s) && AtHand(p, s) && PathParts(s.pc.ranked[s.pc.i].key) in s.disk
    requires x.entries == s.pc.ranked && x.active && Takes(x, s.pc.i, s.pc.cycle)
    ensures var victims := Turned(x, s.pc.i, s.pc.cycle).cycle.victims;
            && |victims| == |s.pc.cycle.victims| + 1
            && Logged(s.log + [Record(s)], LogAt(s.cycles, |s.cycles|), s.pc.ranked, victims)
  {
    TurnCases(x, s.pc.i, s.pc.cycle);
  }

  /** A sweep that goes on after an unlink. */
  lemma ContinueKeepsCycles(p: EvictionPolicy, s: State, t: State, m: Met)
    requires CyclesOk(p, s) && s.pc.Unlinking? && PathParts(s.pc.ranked[s.pc.i].key) in s.disk
    requires t.log == s.log + [Record(s)] && t.cycles == s.cycles && m.deletes
    requires var x := InputOf(p, s.pc, s.pc.met + [m]);
             && Head(x, s.pc.i) == Some(s.pc.cycle) && Turned(x, s.pc.i, s.pc.cycle).Continue?
             && t.pc == Sweeping(s.pc.now, s.pc.ranked, s.pc.i + 1, Turned(x, s.pc.i, s.pc.cycle).cycle,
                                 s.pc.opening, s.pc.met + [m])
    ensures CyclesOk(p, t)
  {
    hide IsSweep, Logged, OneTurn;
    var x := InputOf(p, s.pc, s.pc.met + [m]);
    assert InputOf(p, t.pc, t.pc.met) == x;
    UnlinkIsLogged(p, s, x);
    SweepsStay(p, s.log, [Record(s)], s.cycles);
  }

  /** A sweep that ends with an unlink. */
  lemma StopKeepsCycles(p: EvictionPolicy, s: State, t: State, m: Met)
    requires CyclesOk(p, s) && s.pc.Unlinking? && PathParts(s.pc.ranked[s.pc.i].key) in s.disk
    requires t.log == s.log + [Record(s)] && m.deletes && t.pc.Idle?
    requires var x := InputOf(p, s.pc, s.pc.met + [m]);
             && Head(x, s.pc.i) == Some(s.pc.cycle) && Turned(x, s.pc.i, s.pc.cycle).Stop?
             && t.cycles == s.cycles + [Finished(x, s.pc.opening.heat, |t.log|, Turned(x, s.pc.i, s.pc.cycle).why)]
    ensures CyclesOk(p, t)
  {
    hide IsSweep, Logged, OneTurn;
    var x := InputOf(p, s.pc, s.pc.met + [m]);
    UnlinkIsLogged(p, s, x);
    SweepsStay(p, s.log, [Record(s)], s.cycles);
    StopIsFinal(x, s.pc.i);
    FinishKeepsCycles(p, t.log, s.cycles, x, s.pc.opening.heat, Final(x));
  }

  lemma UnlinkKeepsCycles(p: EvictionPolicy, root: Root, s: State, a: Action)
    requires CyclesOk(p, s) && a.Unlink? && Enabled(p, s, a)
    ensures CyclesOk(p, Do(p, root, s, a))
  {
    hide IsSweep, Logged, AfterTake, OneTurn, Head, Record;
    var path := PathParts(s.pc.ranked[s.pc.i].key);
    if !a.works || path !in s.disk || s.disk[path].Directory? {
      SkipKeepsCycles(p, s, false);
    } else {
      var m := Met(true, a.refresh, a.confirm);
      var x := InputOf(p, s.pc, s.pc.met + [m]);
      UnlinkIsTurn(p, s, a.refresh, a.confirm);
      var t := Do(p, root, s, a);
      assert t.log == s.log + [Record(s)];
      if Turned(x, s.pc.i, s.pc.cycle).Stop? {
        StopKeepsCycles(p, s, t, m);
      } else {
        ContinueKeepsCycles(p, s, t, m);
      }
    }
  }

  lemma StopIsFinal(x: Input, i: nat)
    requires i < |x.entries| && Head(x, i).Some? && Turned(x, i, Head(x, i).value).Stop?
    ensures Final(x) == Turned(x, i, Head(x, i).value)
  {
    FinalFromHead(x, i);
  }

  lemma FinishKeepsCycles(
    p: EvictionPolicy, log: seq<Unlinked>, cycles: seq<Finished>, x: Input, heat: map<string, uint32>, t: Turn)
    requires forall n :: 0 <= n < |cycles| ==> IsSweep(p, log, LogAt(cycles, n), cycles[n])
    requires x.p == p && x.active && t.Stop? && Final(x) == t && Ranked(heat, x.entries)
    requires Logged(log, LogAt(cycles, |cycles|), x.entries, t.cycle.victims)
    requires |log| == LogAt(cycles, |cycles|) + |t.cycle.victims|
    ensures var all := cycles + [Finished(x, heat, |log|, t.why)];
            && (forall n :: 0 <= n < |all| ==> IsSweep(p, log, LogAt(all, n), all[n]))
            && LogAt(all, |all|) == |log|
  {
    OneMoreCycle(p, log, cycles, Finished(x, heat, |log|, t.why));
  }

  lemma EndKeepsCycles(p: EvictionPolicy, root: Root, s: State)
    requires CyclesOk(p, s) && Enabled(p, s, SweepEnds)
    ensures CyclesOk(p, Do(p, root, s, SweepEnds))
  {
    var x := InputOf(p, s.pc, s.pc.met);
    FinalFromHead(x, s.pc.i);
    FinishKeepsCycles(p, s.log, s.cycles, x, s.pc.opening.heat, Stop(s.pc.cycle, Exhausted));
  }

  lemma TurnKeepsCycles(p: EvictionPolicy, root: Root, s: State)
    requires CyclesOk(p, s) && Enabled(p, s, SweepTurn)
    ensures CyclesOk(p, Do(p, root, s, SweepTurn))
  {
    hide IsSweep, Logged, Head, Confirms, Ranked;
    var e := s.pc.ranked[s.pc.i];
    if !OldEnough(p, e, s.pc.now) || BreaksFloor(p, e, s.pc.cycle.actionBytes) {
      SkipKeepsCycles(p, s, true);
    } else if !Confirms(s.disk, root, e) {
      SkipKeepsCycles(p, s, false);
    }
  }

  predicate InSweep(pc: Pc) {
    pc.Sweeping? || pc.Unlinking?
  }

  /** A step outside the sweep, or one that does not concern it. */
  lemma ElsewhereKeepsCycles(p: EvictionPolicy, s: State, t: State)
    requires CyclesOk(p, s) && t.log == s.log && t.cycles == s.cycles
    requires t.pc == s.pc || (!InSweep(s.pc) && !InSweep(t.pc))
    ensures CyclesOk(p, t)
  {
    hide IsSweep, Logged, Head;
  }

  /** A sweep that starts. */
  lemma StartKeepsCycles(p: EvictionPolicy, s: State, t: State)
    requires CyclesOk(p, s) && !InSweep(s.pc) && t.log == s.log && t.cycles == s.cycles
    requires t.pc.Sweeping? && t.pc.i == 0 && t.pc.met == [] && Ranked(t.pc.opening.heat, t.pc.ranked)
    requires t.pc.cycle == Start(t.pc.ranked, t.pc.opening.usage.free, t.pc.opening.usage.used)
    ensures CyclesOk(p, t)
  {
    hide IsSweep, Ranked, TotalBytes, ActionBytes;
  }

  lemma RejudgeKeepsCycles(p: EvictionPolicy, root: Root, s: State, a: Action)
    requires CyclesOk(p, s) && a.Rejudge? && Enabled(p, s, a)
    ensures CyclesOk(p, Do(p, root, s, a))
  {
    hide CyclesOk, Ranked, Permutes, NextEvicting, TotalBytes, Start;
    var t := Do(p, root, s, a);
    if t.pc.Sweeping? {
      StartKeepsCycles(p, s, t);
    } else {
      ElsewhereKeepsCycles(p, s, t);
    }
  }

  lemma StepKeepsCycles(p: EvictionPolicy, root: Root, s: State, a: Action)
    requires CyclesOk(p, s) && Enabled(p, s, a)
    ensures CyclesOk(p, Do(p, root, s, a))
  {
    hide CyclesOk, Snap, NextEvicting, Unlinks, Turning, Ended;
    match a
    case Unlink(_, _, _) => UnlinkKeepsCycles(p, root, s, a);
    case SweepEnds => EndKeepsCycles(p, root, s);
    case SweepTurn => TurnKeepsCycles(p, root, s);
    case Rejudge(_, _) => RejudgeKeepsCycles(p, root, s, a);
    case _ => ElsewhereKeepsCycles(p, s, Do(p, root, s, a));
  }

  lemma {:induction false} RunKeepsCycles(p: EvictionPolicy, root: Root, s: State, actions: seq<Action>)
    requires Initial(s) && Runs(p, root, s, actions)
    ensures CyclesOk(p, After(p, root, s, actions))
  {
    if actions != [] {
      var n := |actions| - 1;
      RunKeepsCycles(p, root, s, actions[..n]);
      StepKeepsCycles(p, root, After(p, root, s, actions[..n]), actions[n]);
    }
  }

  // ----- whole runs -----

  /**
   * In every run each finished cycle unlinked exactly the victims of the sweep over the answers it
   * met, in that order, and ended as that sweep ends; when no cycle is under way, the finished cycles
   * account for the whole log.
   */
  lemma EveryCycleIsSweep(p: EvictionPolicy, root: Root, s: State, actions: seq<Action>)
    requires Initial(s) && Runs(p, root, s, actions)
    ensures var t := After(p, root, s, actions);
            && (forall n :: 0 <= n < |t.cycles| ==> IsSweep(p, t.log, LogAt(t.cycles, n), t.cycles[n]))
            && (!t.pc.Sweeping? && !t.pc.Unlinking? ==> LogAt(t.cycles, |t.cycles|) == |t.log|)
  {
    RunKeepsCycles(p, root, s, actions);
  }

  lemma SweepFollowsOrder(p: EvictionPolicy, log: seq<Unlinked>, first: nat, f: Finished, v: nat, j: nat)
    requires IsSweep(p, log, first, f) && p.cleanupBatchSize > 0
    requires v in Final(f.input).cycle.victims && j < v < |f.input.entries|
    requires OldEnough(p, f.input.entries[j], f.input.now)
    ensures || (exists k :: first <= k < f.last <= |log| && log[k].entry == f.input.entries[j])
            || !f.input.a.deletes(j)
            || BreaksFloor(p, f.input.entries[j], Final(f.input).cycle.actionBytes)
  {
    hide Final;
    var victims := Final(f.input).cycle.victims;
    VictimOrder(f.input, v, j);
    if j in victims {
      var k :| 0 <= k < |victims| && victims[k] == j;
      assert log[first + k].entry == f.input.entries[j];
    }
  }

  /**
   * Victim order on the files themselves: if a finished cycle unlinked the entry at position `v`, it
   * also unlinked every old-enough entry ranked before it, or failed to delete it, or that entry would
   * have breached the action-cache floor even at the end.
   */
  lemma UnlinksFollowOrder(p: EvictionPolicy, root: Root, s: State, actions: seq<Action>, n: nat, v: nat, j: nat)
    requires Initial(s) && Runs(p, root, s, actions) && p.cleanupBatchSize > 0
    requires n < |After(p, root, s, actions).cycles|
    requires var x := After(p, root, s, actions).cycles[n].input;
             v in Final(x).cycle.victims && j < v && v < |x.entries| && OldEnough(p, x.entries[j], x.now)
    ensures var t := After(p, root, s, actions);
            var x := t.cycles[n].input;
            || (exists k :: LogAt(t.cycles, n) <= k < t.cycles[n].last <= |t.log| && t.log[k].entry == x.entries[j])
            || !x.a.deletes(j)
            || BreaksFloor(p, x.entries[j], Final(x).cycle.actionBytes)
  {
    hide Runs, After, IsSweep, Final;
    EveryCycleIsSweep(p, root, s, actions);
    var t := After(p, root, s, actions);
    SweepFollowsOrder(p, t.log, LogAt(t.cycles, n), t.cycles[n], v, j);
  }

  /**
   * The coldest go first, in every run: an entry with less heat than an unlinked one, by the hot set
   * at the time of the sort, or as much and older, or as old and larger, was unlinked in the same
   * cycle, or is too young, or failed to delete, or is protected by the action-cache floor even at
   * the end.
   */
  lemma ColdestAreUnlinkedFirst(
    p: EvictionPolicy, root: Root, s: State, actions: seq<Action>, n: nat, v: nat, j: nat)
    requires Initial(s) && Runs(p, root, s, actions) && p.cleanupBatchSize > 0
    requires n < |After(p, root, s, actions).cycles|
    requires var f := After(p, root, s, actions).cycles[n];
             && v in Final(f.input).cycle.victims && v < |f.input.entries| && j < |f.input.entries|
             && var e, u := f.input.entries[j], f.input.entries[v];
                var he := if e.key in f.heat then f.heat[e.key] else 0;
                var hu := if u.key in f.heat then f.heat[u.key] else 0;
                || he < hu || (he == hu && e.modTime < u.modTime)
                || (he == hu && e.modTime == u.modTime && e.size > u.size)
    ensures var t := After(p, root, s, actions);
            var x := t.cycles[n].input;
            || (exists k :: LogAt(t.cycles, n) <= k < t.cycles[n].last <= |t.log| && t.log[k].entry == x.entries[j])
            || x.entries[j].modTime > x.now - p.minimumResidence
            || !x.a.deletes(j)
            || (x.entries[j].kind == ActionCache
                && Final(x).cycle.actionBytes - x.entries[j].size < p.minActionCacheBytes)
  {
    hide Runs, After, Final;
    EveryCycleIsSweep(p, root, s, actions);
    var t := After(p, root, s, actions);
    var f := t.cycles[n];
    assert IsSweep(p, t.log, LogAt(t.cycles, n), f);
    if v < j {
      RankedRises(f.heat, f.input.entries, v, j);
    }
    assert j < v;
    if OldEnough(p, f.input.entries[j], f.input.now) {
      SweepFollowsOrder(p, t.log, LogAt(t.cycles, n), f, v, j);
    }
  }

  /** A cycle that ends as reached unlinked something, and a query after its last unlink met both targets. */
  lemma ReachedCycleIsConfirmed(p: EvictionPolicy, root: Root, s: State, actions: seq<Action>, n: nat)
    returns (i: nat)
    requires Initial(s) && Runs(p, root, s, actions)
    requires n < |After(p, root, s, actions).cycles| && After(p, root, s, actions).cycles[n].why == Reached
    ensures var t := After(p, root, s, actions);
            var x := t.cycles[n].input;
            && 0 < t.cycles[n].last <= |t.log| && i < |x.entries| && t.log[t.cycles[n].last - 1].entry == x.entries[i]
            && x.a.confirm(i).Some?
            && !Unmet(p, Snapshot(x.a.confirm(i).value.percent, Final(x).cycle.cacheBytes))
  {
    hide Runs, After, Final;
    EveryCycleIsSweep(p, root, s, actions);
    var t := After(p, root, s, actions);
    assert IsSweep(p, t.log, LogAt(t.cycles, n), t.cycles[n]);
    i := ReachedIsConfirmed(t.cycles[n].input);
  }

  /**
   * A cycle that runs out, with all entries old enough and no failed deletion, leaves action-cache
   * entries only, in total less than the floor, hence the target, plus any one of them.
   */
  lemma ExhaustedCycleIsBounded(p: EvictionPolicy, root: Root, s: State, actions: seq<Action>, n: nat, j: nat)
    requires Initial(s) && Runs(p, root, s, actions) && Valid(p)
    requires n < |After(p, root, s, actions).cycles| && After(p, root, s, actions).cycles[n].why == Exhausted
    requires var x := After(p, root, s, actions).cycles[n].input;
             && j < |x.entries| && j !in Final(x).cycle.victims
             && forall k :: 0 <= k < |x.entries| ==> OldEnough(p, x.entries[k], x.now) && x.a.deletes(k)
    ensures var x := After(p, root, s, actions).cycles[n].input;
            && x.entries[j].kind == ActionCache
            && Final(x).cycle.cacheBytes < p.minActionCacheBytes + x.entries[j].size
            && Final(x).cycle.cacheBytes < p.targetCacheBytes + x.entries[j].size
  {
    hide Runs, After, Final;
    EveryCycleIsSweep(p, root, s, actions);
    var t := After(p, root, s, actions);
    assert IsSweep(p, t.log, LogAt(t.cycles, n), t.cycles[n]);
    ExhaustionBound(t.cycles[n].input, j);
  }

  // ----- hysteresis -----

  lemma FlagOneMore(p: EvictionPolicy, seen: seq<Snapshot>, snapshot: Snapshot)
    ensures Flag(p, seen + [snapshot]) == NextEvicting(p, Flag(p, seen), snapshot)
  {
    assert (seen + [snapshot])[..|seen|] == seen;
  }

  /** A sweep ends as reached exactly when its confirmation query meets both targets. */
  lemma ReachedByConfirmation(
    p: EvictionPolicy, refresh: Option<Usage>, confirm: Option<Usage>, i: nat, taken: Cycle)
    ensures var t := AfterTake(p, Answers(k => true, k => refresh, k => confirm), true, i, taken);
            var asked := Confirmation(p, taken, refresh, confirm);
            && |asked| <= 1
            && ((t.Stop? && t.why == Reached) <==> |asked| == 1 && !NextEvicting(p, true, asked[0]))
  {
  }

  lemma UnlinkFollowsFlag(p: EvictionPolicy, root: Root, s: State, a: Action)
    requires Enabled(p, s, a) && a.Unlink? && s.evicting && Flag(p, s.seen)
    ensures Do(p, root, s, a).evicting == Flag(p, Do(p, root, s, a).seen)
  {
    hide Flag, AfterTake, Confirmation, Record;
    var taken := Take(s.pc.cycle, s.pc.ranked[s.pc.i], s.pc.i, true);
    ReachedByConfirmation(p, a.refresh, a.confirm, s.pc.i, taken);
    var asked := Confirmation(p, taken, a.refresh, a.confirm);
    if |asked| == 1 {
      assert asked == [asked[0]];
      FlagOneMore(p, s.seen, asked[0]);
    } else {
      assert s.seen + asked == s.seen;
    }
  }

  lemma StepFollowsFlag(p: EvictionPolicy, root: Root, s: State, a: Action)
    requires Enabled(p, s, a) && s.evicting == Flag(p, s.seen) && (s.pc.Unlinking? ==> s.evicting)
    ensures Do(p, root, s, a).evicting == Flag(p, Do(p, root, s, a).seen)
  {
    hide Flag, NextEvicting, Unlinks, Snap, TotalBytes, Confirms, Ranked;
    match a
    case Judge(usage) => FlagOneMore(p, s.seen, Snapshot(usage.percent, TotalBytes(s.pc.entries)));
    case Rejudge(usage, _) => FlagOneMore(p, s.seen, Snapshot(usage.percent, TotalBytes(s.pc.entries)));
    case Unlink(_, _, _) => UnlinkFollowsFlag(p, root, s, a);
    case _ =>
  }

  lemma {:induction false} RunFollowsFlag(p: EvictionPolicy, root: Root, s: State, actions: seq<Action>)
    requires Initial(s) && Runs(p, root, s, actions)
    ensures var t := After(p, root, s, actions); t.evicting == Flag(p, t.seen)
  {
    if actions != [] {
      var n := |actions| - 1;
      RunFollowsFlag(p, root, s, actions[..n]);
      ManagerRuns.RunKeepsInv(p, root, s, actions[..n]);
      StepFollowsFlag(p, root, After(p, root, s, actions[..n]), actions[n]);
    }
  }

  /**
   * Hysteresis in every run of a valid policy: the manager is evicting exactly when, among all the
   * snapshots it measured, some one met a start threshold and every one since left a target unmet.
   */
  lemma EvictingIsPressure(p: EvictionPolicy, root: Root, s: State, actions: seq<Action>)
    requires Initial(s) && Runs(p, root, s, actions) && Valid(p)
    ensures var t := After(p, root, s, actions);
            t.evicting <==> exists i: nat :: PressureSince(p, t.seen, i)
  {
    RunFollowsFlag(p, root, s, actions);
    FlagIsPressure(p, After(p, root, s, actions).seen);
  }
}
