/** What every interleaving keeps: coverage of every real directory, and no forgotten loss of it. */
module WatchRuns {
  import opened Watch

  // ----- losses -----

  /** The raw event reports a loss the reader will pass on. */
  ghost predicate Reports(s: State, raw: Raw) {
    raw.RawOverflow? || (raw.RawLoss? && raw.wd in s.names)
  }

  /** Some loss of coverage is on its way to the event loop, or has reached it. */
  ghost predicate LossPending(s: State) {
    || s.phase.Broken?
    || s.overflow
    || (exists i :: 0 <= i < |s.kernel| && Reports(s, s.kernel[i]))
    || (exists i :: 0 <= i < |s.channel| && s.channel[i].Loss?)
  }

  /** A pending loss stays pending until the watcher is rebuilt. */
  lemma LossIsSticky(s: State, a: Action)
    requires Enabled(s, a) && LossPending(s) && !a.Rebuild?
    ensures LossPending(Do(s, a))
  {
    var t := Do(s, a);
    if !t.phase.Broken? && !t.overflow {
      assert !s.phase.Broken? && !s.overflow;
      if i :| 0 <= i < |s.kernel| && Reports(s, s.kernel[i]) {
        if a.Read? {
          if i == 0 {
            assert t.channel[|s.channel|].Loss?;
          } else {
            assert t.kernel[i - 1] == s.kernel[i];
            assert Reports(t, t.kernel[i - 1]);
          }
        } else {
          assert t.kernel[i] == s.kernel[i];
          assert Reports(t, t.kernel[i]);
        }
      } else {
        var j :| 0 <= j < |s.channel| && s.channel[j].Loss?;
        if a.Deliver? {
          assert t.channel[j - 1] == s.channel[j];
        } else {
          assert t.channel[j] == s.channel[j];
        }
      }
    }
  }

  // ----- coverage -----

  ghost predicate IsWatched(s: State, p: Path) {
    p in s.tree && s.tree[p] in s.watched
  }

  /** A task of the walk will come by `p`. */
  ghost predicate Reaches(t: Task, p: Path) {
    t.path <= p && (t.Scan? ==> t.path != p)
  }

  ghost predicate Ahead(s: State, p: Path) {
    exists i :: 0 <= i < |s.walk| && Reaches(s.walk[i], p)
  }

  /** An undelivered event announces `p` or an ancestor of it. */
  ghost predicate Announces(s: State, raw: Raw, p: Path) {
    raw.RawDir? && raw.wd in s.names && s.names[raw.wd] + [raw.name] <= p
  }

  ghost predicate Pending(s: State, p: Path) {
    || (exists i :: 0 <= i < |s.channel| && s.channel[i].NewDir? && s.channel[i].path <= p)
    || (exists i :: 0 <= i < |s.kernel| && Announces(s, s.kernel[i], p))
  }

  ghost predicate Covered(s: State, p: Path) {
    IsWatched(s, p) || Ahead(s, p) || Pending(s, p)
  }

  /** Every real directory in scope is watched, ahead of the walk, or announced. */
  ghost predicate Coverage(s: State) {
    forall p :: p in s.tree && InScope(p) ==> Covered(s, p)
  }

  /** The kernel's watches, the watcher's two maps and the tree agree, and watches are closed upwards. */
  ghost predicate Linked(s: State) {
    && (forall i :: i in s.watched ==> i in s.names && s.names[i] in s.tree && s.tree[s.names[i]] == i)
    && (forall p :: p in s.known ==> IsWatched(s, p))
    && (forall p :: IsWatched(s, p) && p != [] ==> IsWatched(s, Up(p)))
  }

  /** What is scheduled or announced lies directly below a watched directory. */
  ghost predicate Anchored(s: State) {
    && (forall i :: 0 <= i < |s.walk| ==>
          match s.walk[i]
          case Visit(p) => p != [] ==> IsWatched(s, Up(p))
          case Scan(p) => IsWatched(s, p))
    && (forall i :: 0 <= i < |s.channel| && s.channel[i].NewDir? ==>
          s.channel[i].path != [] && IsWatched(s, Up(s.channel[i].path)))
    && (forall i :: 0 <= i < |s.kernel| && !s.kernel[i].RawOverflow? ==> s.kernel[i].wd in s.watched)
  }

  ghost predicate Inv(s: State) {
    TreeOk(s.tree) && (!LossPending(s) ==> Linked(s) && Anchored(s) && Coverage(s))
  }

  // ----- helpers about paths -----

  lemma {:induction false} PrefixInTree(tree: map<Path, Inode>, q: Path, n: nat)
    requires TreeOk(tree) && q in tree && n <= |q|
    ensures q[..n] in tree
    decreases |q|
  {
    if n < |q| {
      PrefixInTree(tree, Up(q), n);
      assert Up(q)[..n] == q[..n];
    } else {
      assert q[..n] == q;
    }
  }

  lemma {:induction false} WatchedUpwards(s: State, p: Path, q: Path)
    requires Linked(s) && IsWatched(s, q) && p <= q
    ensures IsWatched(s, p)
    decreases |q|
  {
    if p != q {
      assert p <= Up(q);
      WatchedUpwards(s, p, Up(q));
    }
  }

  lemma ScopeBelow(p: Path, q: Path)
    requires p != [] && p <= q
    ensures InScope(p) == InScope(q) && (InScope(p) ==> InScope(Up(p)))
  {
    assert p[0] == q[0];
  }

  /** Coverage passes from a directory to whatever is below it, as long as it is not its own watch. */
  lemma CoveredBelow(s: State, p: Path, q: Path)
    requires p <= q && Covered(s, p) && !IsWatched(s, p)
    ensures Covered(s, q)
  {
    if i :| 0 <= i < |s.walk| && Reaches(s.walk[i], p) {
      assert Reaches(s.walk[i], q);
    } else if i :| 0 <= i < |s.channel| && s.channel[i].NewDir? && s.channel[i].path <= p {
      assert s.channel[i].path <= q;
    } else {
      var i :| 0 <= i < |s.kernel| && Announces(s, s.kernel[i], p);
      assert Announces(s, s.kernel[i], q);
    }
  }

  /** The coverage of `p` survives a step that keeps watches, names and tasks and only adds events. */
  lemma CoveredGrows(s: State, t: State, p: Path)
    requires Covered(s, p) && s.kernel <= t.kernel && s.channel <= t.channel && t.walk == s.walk && t.names == s.names
    requires IsWatched(s, p) ==> IsWatched(t, p)
    ensures Covered(t, p)
  {
    if i :| 0 <= i < |s.walk| && Reaches(s.walk[i], p) {
      assert Reaches(t.walk[i], p);
    } else if i :| 0 <= i < |s.channel| && s.channel[i].NewDir? && s.channel[i].path <= p {
      assert t.channel[i] == s.channel[i];
    } else if !IsWatched(s, p) {
      var i :| 0 <= i < |s.kernel| && Announces(s, s.kernel[i], p);
      assert Announces(t, t.kernel[i], p);
    }
  }

  // ----- each step -----

  /** Nothing is lost so far, and nothing is lost by the step. */
  ghost predicate Calm(s: State, a: Action) {
    Inv(s) && Enabled(s, a) && !LossPending(s) && !LossPending(Do(s, a))
  }

  lemma MoveInKeeps(s: State, a: Action)
    requires a.MoveIn? && Calm(s, a)
    ensures Linked(Do(s, a)) && Anchored(Do(s, a)) && Coverage(Do(s, a))
  {
    var t, p := Do(s, a), a.path;
    if a.lost {
      assert Reports(t, t.kernel[|s.kernel|]);
      assert false;
    }
    assert forall q :: IsWatched(t, q) <==> IsWatched(s, q);
    forall q | q in t.tree && InScope(q)
      ensures Covered(t, q)
    {
      if q in a.sub {
        ScopeBelow(p, q);
        if IsWatched(s, Up(p)) {
          assert s.names[s.tree[Up(p)]] + [Base(p)] == p;
          assert Announces(t, t.kernel[|s.kernel|], q);
        } else {
          CoveredBelow(s, Up(p), q);
          CoveredGrows(s, t, q);
        }
      } else {
        CoveredGrows(s, t, q);
      }
    }
  }

  lemma GraftKeepsTree(tree: map<Path, Inode>, p: Path, sub: map<Path, Inode>)
    requires TreeOk(tree) && p != [] && Up(p) in tree && Graft(tree, p, sub)
    ensures TreeOk(tree + sub)
  {
  }

  lemma MkdirIsMoveIn(s: State, a: Action)
    requires a.Mkdir? && Enabled(s, a)
    ensures var b := MoveIn(a.path, map[a.path := a.inode], a.lost); Enabled(s, b) && Do(s, a) == Do(s, b)
  {
    assert s.tree[a.path := a.inode] == s.tree + map[a.path := a.inode];
  }

  lemma OutsideKeepsTree(tree: map<Path, Inode>, p: Path)
    requires TreeOk(tree) && p != []
    ensures TreeOk(Outside(tree, p))
  {
    forall q | q in Outside(tree, p) && q != []
      ensures Up(q) in Outside(tree, p)
    {
      assert p <= Up(q) ==> p <= q;
    }
  }

  lemma DetachKeeps(s: State, a: Action)
    requires a.Detach? && Calm(s, a)
    ensures Linked(Do(s, a)) && Anchored(Do(s, a)) && Coverage(Do(s, a))
  {
    var t, p := Do(s, a), a.path;
    if a.lost || IsWatched(s, p) {
      assert Reports(t, t.kernel[|s.kernel|]);
      assert false;
    }
    assert t.kernel == s.kernel && t.watched == s.watched;
    forall q
      ensures IsWatched(t, q) <==> IsWatched(s, q)
    {
      if IsWatched(s, q) && p <= q {
        WatchedUpwards(s, p, q);
        assert false;
      }
    }
    forall i | i in t.watched
      ensures t.names[i] in t.tree
    {
      assert IsWatched(s, s.names[i]);
    }
    forall q | q in t.tree && InScope(q)
      ensures Covered(t, q)
    {
      CoveredGrows(s, t, q);
    }
  }

  lemma NoiseKeeps(s: State, a: Action)
    requires a.Noise? && Calm(s, a)
    ensures Linked(Do(s, a)) && Anchored(Do(s, a)) && Coverage(Do(s, a))
  {
    var t := Do(s, a);
    if a.lost {
      assert Reports(t, t.kernel[|s.kernel|]);
      assert false;
    }
    assert forall q :: IsWatched(t, q) <==> IsWatched(s, q);
    forall q | q in t.tree && InScope(q)
      ensures Covered(t, q)
    {
      CoveredGrows(s, t, q);
    }
  }

  lemma ReadKeeps(s: State, a: Action)
    requires a.Read? && Calm(s, a)
    ensures Linked(Do(s, a)) && Anchored(Do(s, a)) && Coverage(Do(s, a))
  {
    var t, raw := Do(s, a), s.kernel[0];
    assert !Reports(s, raw);
    assert raw.wd in s.watched;
    assert forall q :: IsWatched(t, q) <==> IsWatched(s, q);
    if raw.RawDir? {
      assert Up(s.names[raw.wd] + [raw.name]) == s.names[raw.wd];
    }
    forall q | q in t.tree && InScope(q)
      ensures Covered(t, q)
    {
      if i :| 0 <= i < |s.kernel| && Announces(s, s.kernel[i], q) {
        if i == 0 {
          assert t.channel[|s.channel|] == NewDir(s.names[raw.wd] + [raw.name]);
        } else {
          assert Announces(t, t.kernel[i - 1], q);
        }
      } else if i :| 0 <= i < |s.channel| && s.channel[i].NewDir? && s.channel[i].path <= q {
        assert t.channel[i] == s.channel[i];
      } else if i :| 0 <= i < |s.walk| && Reaches(s.walk[i], q) {
        assert Reaches(t.walk[i], q);
      }
    }
  }

  lemma VisitKeeps(s: State, a: Action)
    requires a.VisitNext? && Calm(s, a)
    ensures Linked(Do(s, a)) && Anchored(Do(s, a)) && Coverage(Do(s, a))
  {
    var t, p := Do(s, a), s.walk[0].path;
    if InScope(p) {
      VisitAddsWatch(s, a);
    } else {
      forall q | q in t.tree && InScope(q)
        ensures Covered(t, q)
      {
        if p <= q {
          ScopeBelow(p, q);
          assert false;
        }
        DropTask(s, t, q);
      }
    }
  }

  /** A task that does not reach `q` can be dropped. */
  lemma DropTask(s: State, t: State, q: Path)
    requires s.walk != [] && t == s.(walk := s.walk[1..]) && !Reaches(s.walk[0], q) && Covered(s, q)
    ensures Covered(t, q)
  {
    if i :| 0 <= i < |s.walk| && Reaches(s.walk[i], q) {
      assert Reaches(t.walk[i - 1], q);
    } else if i :| 0 <= i < |s.kernel| && Announces(s, s.kernel[i], q) {
      assert Announces(t, t.kernel[i], q);
    }
  }

  /** Adding the watch keeps what was watched and announced, and watches the visited directory. */
  lemma AddWatchLinks(s: State, p: Path)
    requires Inv(s) && !LossPending(s) && p in s.tree && (p != [] ==> IsWatched(s, Up(p)))
    ensures var t := AddWatch(s, p);
            && Linked(t) && IsWatched(t, p)
            && (forall q :: IsWatched(t, q) <==> IsWatched(s, q) || q == p)
            && (forall i :: i in s.watched ==> t.names[i] == s.names[i])
  {
    var t := AddWatch(s, p);
    assert forall q :: IsWatched(t, q) <==> IsWatched(s, q) || q == p;
  }

  lemma VisitAddsWatch(s: State, a: Action)
    requires a.VisitNext? && Calm(s, a) && InScope(s.walk[0].path)
    ensures Linked(Do(s, a)) && Anchored(Do(s, a)) && Coverage(Do(s, a))
  {
    var t, p := Do(s, a), s.walk[0].path;
    assert p in s.tree;
    AddWatchLinks(s, p);
    assert Linked(t) by {
      assert forall q :: IsWatched(t, q) <==> IsWatched(AddWatch(s, p), q);
    }
    forall q | q in t.tree && InScope(q)
      ensures Covered(t, q)
    {
      VisitKeepsCovered(s, t, p, q);
    }
  }

  lemma VisitKeepsCovered(s: State, t: State, p: Path, q: Path)
    requires s.walk != [] && s.walk[0] == Visit(p) && Covered(s, q) && Anchored(s) && IsWatched(t, p)
    requires t.walk == [Scan(p)] + s.walk[1..] && t.kernel == s.kernel && t.channel == s.channel
    requires IsWatched(s, q) ==> IsWatched(t, q)
    requires forall i :: i in s.watched ==> i in t.names && i in s.names && t.names[i] == s.names[i]
    ensures Covered(t, q)
  {
    if i :| 0 <= i < |s.walk| && Reaches(s.walk[i], q) {
      if q != p {
        assert Reaches(t.walk[i], q);
      }
    } else if i :| 0 <= i < |s.kernel| && Announces(s, s.kernel[i], q) {
      assert Announces(t, t.kernel[i], q);
    }
  }

  lemma ScanKeeps(s: State, a: Action)
    requires a.ScanNext? && Calm(s, a)
    ensures Linked(Do(s, a)) && Anchored(Do(s, a)) && Coverage(Do(s, a))
  {
    var t, p := Do(s, a), s.walk[0].path;
    assert forall q :: IsWatched(t, q) <==> IsWatched(s, q);
    forall q | q in t.tree && InScope(q)
      ensures Covered(t, q)
    {
      if p <= q && p != q {
        ScanReaches(s, a, q);
      } else {
        ScanKeepsOthers(s, a, q);
      }
    }
  }

  /** Whatever lies below the directory just read lies below one of its children. */
  lemma ScanReaches(s: State, a: Action, q: Path)
    requires TreeOk(s.tree) && a.ScanNext? && Enabled(s, a) && s.walk[0].path in s.tree && q in s.tree
    requires s.walk[0].path <= q && s.walk[0].path != q
    ensures Ahead(Do(s, a), q)
  {
    var p := s.walk[0].path;
    var child := q[..|p| + 1];
    PrefixInTree(s.tree, q, |p| + 1);
    assert Up(child) == p;
    var k :| 0 <= k < |a.children| && a.children[k] == child;
    assert Reaches(Do(s, a).walk[k], q);
  }

  lemma ScanKeepsOthers(s: State, a: Action, q: Path)
    requires a.ScanNext? && Enabled(s, a) && s.walk[0].path in s.tree && Covered(s, q) && !Reaches(s.walk[0], q)
    ensures Covered(Do(s, a), q)
  {
    var t := Do(s, a);
    if i :| 0 <= i < |s.walk| && Reaches(s.walk[i], q) {
      assert t.walk[|a.children| + i - 1] == s.walk[i];
    } else if i :| 0 <= i < |s.kernel| && Announces(s, s.kernel[i], q) {
      assert Announces(t, t.kernel[i], q);
    }
  }

  lemma DeliverKeeps(s: State, a: Action)
    requires a.Deliver? && Calm(s, a)
    ensures Linked(Do(s, a)) && Anchored(Do(s, a)) && Coverage(Do(s, a))
  {
    var t, m := Do(s, a), s.channel[0];
    assert !m.Loss?;
    assert forall q :: IsWatched(t, q) <==> IsWatched(s, q);
    forall q | q in t.tree && InScope(q)
      ensures Covered(t, q)
    {
      if i :| 0 <= i < |s.channel| && s.channel[i].NewDir? && s.channel[i].path <= q {
        if i == 0 {
          ScopeBelow(m.path, q);
          assert Reaches(t.walk[0], q);
        } else {
          assert t.channel[i - 1] == s.channel[i];
        }
      } else if i :| 0 <= i < |s.kernel| && Announces(s, s.kernel[i], q) {
        assert Announces(t, t.kernel[i], q);
      }
    }
  }

  lemma AdvanceKeeps(s: State, a: Action)
    requires a.Advance? && Calm(s, a)
    ensures Linked(Do(s, a)) && Anchored(Do(s, a)) && Coverage(Do(s, a))
  {
    var t := Do(s, a);
    assert forall q :: IsWatched(t, q) <==> IsWatched(s, q);
    forall q | q in t.tree && InScope(q)
      ensures Covered(t, q)
    {
      CoveredGrows(s, t, q);
    }
  }

  lemma FreshIsCovered(tree: map<Path, Inode>)
    requires TreeOk(tree)
    ensures Inv(Fresh(tree)) && !LossPending(Fresh(tree))
  {
    var t := Fresh(tree);
    forall q | q in t.tree
      ensures Covered(t, q)
    {
      assert Reaches(t.walk[0], q);
    }
  }

  /** Every step keeps the invariant. */
  lemma StepKeepsInv(s: State, a: Action)
    requires Inv(s) && Enabled(s, a)
    ensures Inv(Do(s, a))
  {
    if a.Rebuild? {
      FreshIsCovered(s.tree);
    } else if a.Mkdir? {
      MkdirIsMoveIn(s, a);
      MoveInStep(s, MoveIn(a.path, map[a.path := a.inode], a.lost));
    } else if a.MoveIn? {
      MoveInStep(s, a);
    } else {
      if a.Detach? {
        OutsideKeepsTree(s.tree, a.path);
      }
      if !LossPending(Do(s, a)) {
        if LossPending(s) {
          LossIsSticky(s, a);
          assert false;
        }
        CalmStep(s, a);
      }
    }
  }

  lemma MoveInStep(s: State, a: Action)
    requires a.MoveIn? && Inv(s) && Enabled(s, a)
    ensures Inv(Do(s, a))
  {
    GraftKeepsTree(s.tree, a.path, a.sub);
    if !LossPending(Do(s, a)) {
      if LossPending(s) {
        LossIsSticky(s, a);
        assert false;
      }
      MoveInKeeps(s, a);
    }
  }

  lemma CalmStep(s: State, a: Action)
    requires Calm(s, a) && !a.Mkdir? && !a.MoveIn? && !a.Rebuild?
    ensures Linked(Do(s, a)) && Anchored(Do(s, a)) && Coverage(Do(s, a))
  {
    match a
    case Detach(_, _, _) => DetachKeeps(s, a);
    case Noise(_, _) => NoiseKeeps(s, a);
    case Read => ReadKeeps(s, a);
    case VisitNext => VisitKeeps(s, a);
    case ScanNext(_) => ScanKeeps(s, a);
    case Deliver => DeliverKeeps(s, a);
    case Advance => AdvanceKeeps(s, a);
    case WalkFails =>
    case DeliverOverflow =>
  }

  // ----- whole runs -----

  /**
   * In every interleaving, as long as no loss of coverage is pending, each real directory in scope
   * is watched, ahead of the walk, or announced by an undelivered event.
   */
  lemma {:induction false} RunKeepsInv(tree: map<Path, Inode>, actions: seq<Action>)
    requires TreeOk(tree) && Runs(Fresh(tree), actions)
    ensures Inv(After(Fresh(tree), actions))
  {
    if actions == [] {
      FreshIsCovered(tree);
    } else {
      var n := |actions| - 1;
      RunKeepsInv(tree, actions[..n]);
      StepKeepsInv(After(Fresh(tree), actions[..n]), actions[n]);
    }
  }

  /** With the walk done and the queues empty, coverage is complete: every directory reports under its own path. */
  lemma QuietIsComplete(tree: map<Path, Inode>, actions: seq<Action>, p: Path)
    requires TreeOk(tree) && Runs(Fresh(tree), actions)
    requires var s := After(Fresh(tree), actions);
             !LossPending(s) && s.walk == [] && s.kernel == [] && s.channel == []
    requires p in After(Fresh(tree), actions).tree && (p == [] || p[0] == "ac" || p[0] == "cas")
    ensures var s := After(Fresh(tree), actions);
            s.tree[p] in s.watched && s.tree[p] in s.names && s.names[s.tree[p]] == p
  {
    RunKeepsInv(tree, actions);
    var s := After(Fresh(tree), actions);
    assert Covered(s, p);
  }
}
