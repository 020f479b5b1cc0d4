/**
 * Why a watcher is rebuilt: a broken watcher has a cause that the step and the queues show, and while
 * directories only appear and nothing is lost no watcher ever breaks.
 */
module WatchCauses {
  import opened Watch
  import opened WatchRuns
  import opened WatchRecovery

  /**
   * A step breaks a working watcher exactly when it is a failing walk, an overflow report, the delivery
   * of a loss, or a walk step at a directory that is gone; it is to be rebuilt exactly if it served.
   */
  lemma BreakHasCause(s: State, a: Action)
    requires Enabled(s, a) && !s.phase.Broken?
    ensures Do(s, a).phase.Broken? <==>
              || a.WalkFails?
              || a.DeliverOverflow?
              || (a.Deliver? && s.channel[0].Loss?)
              || (a.ScanNext? && s.walk[0].path !in s.tree)
              || (a.VisitNext? && s.walk[0].path !in s.tree
                  && (s.walk[0].path == [] || s.walk[0].path[0] == "ac" || s.walk[0].path[0] == "cas"))
    ensures Do(s, a).phase.Broken? ==> Do(s, a).phase.rebuilds == s.phase.Serving?
  {
  }

  /** Delivering anything but a loss takes the message, and starts a walk for a new directory in scope only. */
  lemma DeliveryIsQuiet(s: State, p: Path)
    requires Enabled(s, Deliver) && !s.channel[0].Loss?
    ensures var t := Do(s, Deliver);
            && t == s.(channel := s.channel[1..], walk := t.walk)
            && (t.walk == [Visit(p)] <==>
                  s.channel[0] == NewDir(p) && (p == [] || p[0] == "ac" || p[0] == "cas"))
            && |t.walk| <= 1
  {
    if t: Task :| Do(s, Deliver).walk == [t] {
      assert t == Do(s, Deliver).walk[0];
    }
  }

  /** Serving follows draining, draining building, and building only a rebuild that forgets everything queued. */
  lemma PhaseOrder(s: State, a: Action)
    requires Enabled(s, a) && Do(s, a).phase != s.phase && !Do(s, a).phase.Broken?
    ensures match Do(s, a).phase
            case Serving => s.phase.Draining? && a.Advance? && s.walk == []
            case Draining => s.phase.Building? && a.Advance? && s.walk == []
            case Building => s.phase == Broken(true) && a.Rebuild? && Do(s, a) == Fresh(s.tree)
            case Broken(_) => false
  {
  }

  // ----- runs without a cause -----

  /** Directories appear, nothing is lost or removed, and reading and walking do not fail. */
  ghost predicate Calm(s: State, a: Action) {
    match a
    case Mkdir(_, _, lost) => !lost
    case MoveIn(_, _, lost) => !lost
    case Noise(_, lost) => !lost
    case Detach(_, _, _) => false
    case WalkFails => false
    case ScanNext(children) => forall i :: 0 <= i < |children| ==> children[i] in s.tree
    case _ => true
  }

  ghost predicate CalmRun(s: State, actions: seq<Action>) {
    && Runs(s, actions)
    && (actions != [] ==>
          && CalmRun(s, actions[..|actions| - 1])
          && Calm(After(s, actions[..|actions| - 1]), actions[|actions| - 1]))
  }

  /** Nothing broke, is lost, or is out of date. */
  ghost predicate Untroubled(s: State) {
    Inv(s) && !LossPending(s) && !Outdated(s)
  }

  /** A directory that appears is announced under its own path. */
  lemma AppearedIsCurrent(s: State, p: Path)
    requires Untroubled(s) && p != [] && Up(p) in s.tree && s.tree[Up(p)] in s.watched
    ensures var i := s.tree[Up(p)]; i in s.names && s.names[i] + [Base(p)] == p
  {
    assert s.names[s.tree[Up(p)]] == Up(p);
    assert Up(p) + [Base(p)] == p;
  }

  /** The environment adds directories and events. */
  ghost predicate Grows(s: State, t: State, raws: seq<Raw>) {
    && t == s.(tree := t.tree, kernel := s.kernel + raws)
    && (forall p :: p in s.tree ==> p in t.tree)
  }

  lemma GrowthIsHarmless(s: State, t: State, raws: seq<Raw>)
    requires !LossPending(s) && !Outdated(s) && Grows(s, t, raws)
    requires forall i :: 0 <= i < |raws| ==> !Reports(t, raws[i]) && !StaleRaw(t, raws[i])
    ensures !LossPending(t) && !Outdated(t)
  {
    forall i | 0 <= i < |t.kernel|
      ensures !Reports(t, t.kernel[i]) && !StaleRaw(t, t.kernel[i])
    {
      if i < |s.kernel| {
        assert t.kernel[i] == s.kernel[i] && !Reports(s, s.kernel[i]) && !StaleRaw(s, s.kernel[i]);
      } else {
        assert t.kernel[i] == raws[i - |s.kernel|];
      }
    }
    forall i | 0 <= i < |t.walk|
      ensures !Fails(t.tree, t.walk[i])
    {
      assert !Fails(s.tree, s.walk[i]);
    }
    forall i | 0 <= i < |t.channel| && t.channel[i].NewDir?
      ensures !Stale(t.tree, t.channel[i].path)
    {
      assert !Stale(s.tree, s.channel[i].path);
    }
  }

  lemma AppearanceIsHarmless(s: State, a: Action)
    requires Untroubled(s) && Enabled(s, a) && Calm(s, a) && (a.Mkdir? || a.MoveIn?)
    ensures !LossPending(Do(s, a)) && !Outdated(Do(s, a))
  {
    hide Inv, LossPending, Outdated, Grows, Reports, StaleRaw;
    AppearanceGrows(s, a);
    GrowthIsHarmless(s, Do(s, a), Appeared(s, a.path));
  }

  lemma AppearanceGrows(s: State, a: Action)
    requires Untroubled(s) && Enabled(s, a) && Calm(s, a) && (a.Mkdir? || a.MoveIn?)
    ensures var t, raws := Do(s, a), Appeared(s, a.path);
            Grows(s, t, raws) && forall i :: 0 <= i < |raws| ==> !Reports(t, raws[i]) && !StaleRaw(t, raws[i])
  {
    hide Inv, LossPending, Outdated;
    if Appeared(s, a.path) != [] {
      AppearedIsCurrent(s, a.path);
    }
  }

  lemma NoiseIsHarmless(s: State, a: Action)
    requires Untroubled(s) && Enabled(s, a) && Calm(s, a) && a.Noise?
    ensures !LossPending(Do(s, a)) && !Outdated(Do(s, a))
  {
    hide Inv, LossPending, Outdated;
    GrowthIsHarmless(s, Do(s, a), [RawOther(a.wd)]);
  }

  /** An own step of an untroubled watcher meets no cause. */
  lemma OwnStepIsHarmless(s: State, a: Action)
    requires Untroubled(s) && Truthful(s, a)
    ensures !LossPending(Do(s, a)) && !Outdated(Do(s, a))
  {
    assert !s.phase.Broken? && !s.overflow;
    BreakHasCause(s, a);
    assert !Do(s, a).phase.Broken? by {
      if a.Deliver? {
        assert !s.channel[0].Loss?;
      } else if a.VisitNext? || a.ScanNext? {
        assert !Fails(s.tree, s.walk[0]);
      }
    }
    NoLossAppears(s, a);
    NothingGoesStale(s, a);
  }

  lemma {:induction false} CalmStaysUntroubled(tree: map<Path, Inode>, actions: seq<Action>)
    requires TreeOk(tree) && CalmRun(Fresh(tree), actions)
    ensures Untroubled(After(Fresh(tree), actions))
  {
    RunKeepsInv(tree, actions);
    if actions != [] {
      var n := |actions| - 1;
      var before, a := After(Fresh(tree), actions[..n]), actions[n];
      CalmStaysUntroubled(tree, actions[..n]);
      if a.Mkdir? || a.MoveIn? {
        AppearanceIsHarmless(before, a);
      } else if a.Noise? {
        NoiseIsHarmless(before, a);
      } else {
        OwnStepIsHarmless(before, a);
      }
    }
  }

  /**
   * No rebuild without a cause: in every run in which directories only appear, no event is lost, and
   * no walk fails or reads a directory that is not there, the watcher never breaks, whatever else
   * happens in the watched directories.
   */
  lemma CalmRunsNeverBreak(tree: map<Path, Inode>, actions: seq<Action>)
    requires TreeOk(tree) && CalmRun(Fresh(tree), actions)
    ensures !After(Fresh(tree), actions).phase.Broken? && !Enabled(After(Fresh(tree), actions), Rebuild)
  {
    hide Untroubled, Runs, After;
    CalmStaysUntroubled(tree, actions);
    UntroubledWorks(After(Fresh(tree), actions));
  }

  lemma UntroubledWorks(s: State)
    requires Untroubled(s)
    ensures !s.phase.Broken?
  {
    hide Inv, Outdated;
  }

  /** A step names a watch only by visiting a directory in the stores. */
  lemma NamesComeFromVisits(s: State, a: Action, i: Inode)
    requires Enabled(s, a) && i in Do(s, a).names
    ensures var p := Do(s, a).names[i];
            (i in s.names && s.names[i] == p) || p == [] || p[0] == "ac" || p[0] == "cas"
  {
  }

  /** Only the root and what is below `ac` and `cas` is ever watched. */
  lemma {:induction false} OnlyStoresAreWatched(tree: map<Path, Inode>, actions: seq<Action>, i: Inode)
    requires Runs(Fresh(tree), actions) && i in After(Fresh(tree), actions).names
    ensures var p := After(Fresh(tree), actions).names[i]; p == [] || p[0] == "ac" || p[0] == "cas"
    decreases |actions|
  {
    hide Do, Enabled;
    if actions != [] {
      var n := |actions| - 1;
      var before := After(Fresh(tree), actions[..n]);
      NamesComeFromVisits(before, actions[n], i);
      if i in before.names {
        OnlyStoresAreWatched(tree, actions[..n], i);
      }
    }
  }
}
