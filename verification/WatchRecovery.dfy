/**
 * Recovery: once the directories stand still, every schedule of the watcher's own steps is short, and
 * the only states it can stop in are serving ones with empty queues and complete coverage.
 */
module WatchRecovery {
  import opened Watch
  import opened WatchRuns
  import TopK

  /** Steps of the reader, the walk and the event loop, not of the environment. */
  predicate OwnStep(a: Action) {
    a.Read? || a.VisitNext? || a.ScanNext? || a.Deliver? || a.DeliverOverflow? || a.Advance? || a.Rebuild?
  }

  ghost predicate Distinct(paths: seq<Path>) {
    forall i, j :: 0 <= i < j < |paths| ==> paths[i] != paths[j]
  }

  /** An own step in which a directory that is read lists existing children only. */
  ghost predicate Truthful(s: State, a: Action) {
    && OwnStep(a) && Enabled(s, a)
    && (a.ScanNext? && s.walk[0].path in s.tree ==> forall i :: 0 <= i < |a.children| ==> a.children[i] in s.tree)
  }

  /** And each of them once. */
  ghost predicate Exact(s: State, a: Action) {
    Truthful(s, a) && (a.ScanNext? && s.walk[0].path in s.tree ==> Distinct(a.children))
  }

  /** Any order of own steps, whoever the scheduler and the channel selection favour. */
  ghost predicate Schedule(s: State, actions: seq<Action>) {
    && Runs(s, actions)
    && (actions != [] ==>
          && Schedule(s, actions[..|actions| - 1])
          && Exact(After(s, actions[..|actions| - 1]), actions[|actions| - 1]))
  }

  // ----- the work a walk has left -----

  ghost function Below(tree: map<Path, Inode>, p: Path): set<Path> {
    set q | q in tree && p <= q
  }

  /** The steps a task may still cost: three for each directory below it, and never none. */
  ghost function Work(tree: map<Path, Inode>, t: Task): (w: nat)
    ensures w > 0
  {
    var n := |Below(tree, t.path)|;
    if n == 0 then 1 else if t.Visit? then 3 * n else 3 * n - 1
  }

  ghost function Load(tree: map<Path, Inode>, walk: seq<Task>): nat {
    if walk == [] then 0 else Work(tree, walk[0]) + Load(tree, walk[1..])
  }

  lemma {:induction false} LoadJoins(tree: map<Path, Inode>, a: seq<Task>, b: seq<Task>)
    ensures Load(tree, a + b) == Load(tree, a) + Load(tree, b)
  {
    if a == [] {
      assert a + b == b;
    } else {
      LoadJoins(tree, a[1..], b);
      assert (a + b)[1..] == a[1..] + b;
    }
  }

  lemma LoadOne(tree: map<Path, Inode>, t: Task)
    ensures Load(tree, [t]) == Work(tree, t)
  {
    assert [t][1..] == [];
  }

  lemma SiblingsApart(tree: map<Path, Inode>, p: Path, c: Path, d: Path)
    requires c != [] && d != [] && Up(c) == p == Up(d) && c != d
    ensures Below(tree, c) !! Below(tree, d)
  {
    var n := |p| + 1;
    assert forall q :: q in Below(tree, c) ==> n <= |q| && q[..n] == c;
    assert forall q :: q in Below(tree, d) ==> n <= |q| && q[..n] == d;
  }

  lemma FirstChildFits(tree: map<Path, Inode>, children: seq<Path>, room: set<Path>)
    requires children != [] && children[0] in tree && Below(tree, children[0]) <= room
    ensures Load(tree, Visits(children))
            == 3 * (|room| - |room - Below(tree, children[0])|) + Load(tree, Visits(children[1..]))
  {
    var c := children[0];
    assert Visits(children)[1..] == Visits(children[1..]);
    assert c in Below(tree, c);
    assert room == Below(tree, c) + (room - Below(tree, c));
  }

  /** Directory trees below distinct children of `p` are disjoint parts of what is below `p`. */
  lemma {:induction false} ChildrenFit(tree: map<Path, Inode>, p: Path, children: seq<Path>, room: set<Path>)
    requires Distinct(children)
    requires forall i :: 0 <= i < |children| ==>
               && children[i] in tree && children[i] != [] && Up(children[i]) == p
               && Below(tree, children[i]) <= room
    ensures Load(tree, Visits(children)) <= 3 * |room|
    decreases |children|
  {
    hide Below, Visits;
    if children != [] {
      var c, rest := children[0], children[1..];
      var left := room - Below(tree, c);
      forall i | 0 <= i < |rest|
        ensures rest[i] == children[i + 1] && Below(tree, rest[i]) <= left
      {
        SiblingsApart(tree, p, c, rest[i]);
      }
      ChildrenFit(tree, p, rest, left);
      FirstChildFits(tree, children, room);
    }
  }

  /** Visiting the children of a directory is less work than reading it. */
  lemma ScanShrinks(tree: map<Path, Inode>, p: Path, children: seq<Path>)
    requires p in tree && Distinct(children)
    requires forall i :: 0 <= i < |children| ==> children[i] in tree && children[i] != [] && Up(children[i]) == p
    ensures Load(tree, Visits(children)) < Work(tree, Scan(p))
  {
    var room := Below(tree, p) - {p};
    assert p in Below(tree, p);
    assert Below(tree, p) == room + {p};
    ChildrenFit(tree, p, children, room);
  }

  /** Every step of a walk lessens its load, whatever order the children are read in, or breaks it off. */
  lemma WalkStepLessens(s: State, a: Action)
    requires Exact(s, a) && (a.VisitNext? || a.ScanNext?)
    ensures Load(s.tree, Do(s, a).walk) < Load(s.tree, s.walk)
  {
    var p, rest := s.walk[0].path, s.walk[1..];
    if p in s.tree {
      assert p in Below(s.tree, p);
      if a.ScanNext? {
        ScanShrinks(s.tree, p, a.children);
        LoadJoins(s.tree, Visits(a.children), rest);
      } else {
        assert ([Scan(p)] + rest)[1..] == rest;
      }
    }
  }

  // ----- the steps a whole recovery has left -----

  /** Nothing is queued and nothing is left to walk. */
  ghost predicate Quiet(s: State) {
    s.phase.Serving? && s.walk == [] && s.kernel == [] && s.channel == [] && !s.overflow
  }

  ghost predicate Rebuilding(s: State) {
    s.phase.Building? || s.phase.Draining?
  }

  /** A reconciliation that failed: the event loop returns its error. */
  ghost predicate GaveUp(s: State) {
    s.phase == Broken(false)
  }

  /** Nothing is scheduled once the watcher broke. */
  ghost predicate Tidy(s: State) {
    s.phase.Broken? ==> s.walk == []
  }

  /** Every directory the walk still has to deal with exists. */
  ghost predicate AllThere(s: State) {
    forall i :: 0 <= i < |s.walk| ==> s.walk[i].path in s.tree
  }

  /** A rebuild that met no event and whose directories all exist. */
  ghost predicate Undisturbed(s: State) {
    Rebuilding(s) && AllThere(s) && s.kernel == [] && s.channel == [] && !s.overflow
  }

  /** No walk costs more than one of the whole tree. */
  ghost function WholeWalk(tree: map<Path, Inode>): nat {
    3 * |tree| + 1
  }

  /** A disturbed rebuild comes before serving, serving before a loss, and that before a rebuild of its own. */
  ghost function StageLeft(s: State): nat {
    if Quiet(s) || GaveUp(s) then 0
    else
      match s.phase
      case Draining => if Undisturbed(s) then 1 else WholeWalk(s.tree) + 5
      case Building => if Undisturbed(s) then 2 else WholeWalk(s.tree) + 6
      case Broken(_) => WholeWalk(s.tree) + 3
      case Serving => WholeWalk(s.tree) + 4
  }

  /** A bound on the own steps left: one walk for each queued event, and one rebuild. */
  ghost function StepsLeft(s: State): nat {
    Load(s.tree, s.walk) + |s.channel| * (WholeWalk(s.tree) + 1) + |s.kernel| * (WholeWalk(s.tree) + 2) + StageLeft(s)
  }

  lemma VisitWithinWhole(tree: map<Path, Inode>, p: Path)
    ensures Load(tree, [Visit(p)]) <= WholeWalk(tree)
  {
    LoadOne(tree, Visit(p));
    assert Below(tree, p) <= tree.Keys;
    TopK.SubsetSize(Below(tree, p), tree.Keys);
  }

  lemma WalkStaysThere(s: State, a: Action)
    requires Exact(s, a) && (a.VisitNext? || a.ScanNext?) && AllThere(s)
    ensures AllThere(Do(s, a)) && Do(s, a).phase == s.phase
  {
    assert s.walk[0].path in s.tree;
  }

  lemma StepKeepsTidy(s: State, a: Action)
    requires Tidy(s) && Exact(s, a)
    ensures Tidy(Do(s, a)) && Do(s, a).tree == s.tree
  {
  }

  /** An undisturbed rebuild stays undisturbed up to its quiet end. */
  lemma StaysUndisturbed(s: State, a: Action)
    requires Undisturbed(s) && Exact(s, a)
    ensures Undisturbed(Do(s, a)) || Quiet(Do(s, a))
  {
    if a.VisitNext? || a.ScanNext? {
      WalkStaysThere(s, a);
    }
  }

  /** Every own step uses up some of the steps left. */
  lemma StepLessens(s: State, a: Action)
    requires TreeOk(s.tree) && Tidy(s) && Exact(s, a)
    ensures StepsLeft(Do(s, a)) < StepsLeft(s)
  {
    hide Load, WholeWalk, TreeOk, AllThere;
    if Undisturbed(s) {
      StaysUndisturbed(s, a);
    }
    match a
    case Read => ReadLessens(s);
    case VisitNext => WalkStepLessens(s, a);
    case ScanNext(_) => WalkStepLessens(s, a);
    case Deliver => DeliverLessens(s);
    case DeliverOverflow =>
    case Advance =>
    case Rebuild => RebuildLessens(s);
  }

  lemma RebuildLessens(s: State)
    requires TreeOk(s.tree) && Enabled(s, Rebuild)
    ensures StepsLeft(Do(s, Rebuild)) < StepsLeft(s)
  {
    VisitWithinWhole(s.tree, []);
    assert Undisturbed(Do(s, Rebuild));
  }

  lemma ReadStage(s: State)
    requires s.kernel != []
    ensures StageLeft(Do(s, Read)) <= StageLeft(s)
  {
  }

  /** Reading takes one raw event off the queue and adds at most one message. */
  lemma ReadBill(w: nat, kernel: nat, channel: nat, after: nat)
    requires kernel > 0 && after <= channel + 1
    ensures after * (w + 1) + (kernel - 1) * (w + 2) < channel * (w + 1) + kernel * (w + 2)
  {
    assert after * (w + 1) <= (channel + 1) * (w + 1);
    assert (kernel - 1) * (w + 2) == kernel * (w + 2) - (w + 2);
  }

  lemma ReadLessens(s: State)
    requires s.kernel != []
    ensures StepsLeft(Do(s, Read)) < StepsLeft(s)
  {
    hide StageLeft, WholeWalk, Load, Translate;
    var t := Do(s, Read);
    ReadStage(s);
    TranslatesOne(s, s.kernel[0]);
    ReadBill(WholeWalk(s.tree), |s.kernel|, |s.channel|, |t.channel|);
  }

  lemma TranslatesOne(s: State, raw: Raw)
    ensures |Translate(s, raw)| <= 1
  {
  }

  lemma DeliverStage(s: State)
    requires Enabled(s, Deliver)
    ensures StageLeft(Do(s, Deliver)) <= StageLeft(s)
  {
  }

  /** Delivering takes one message off the channel and starts at most one walk. */
  lemma DeliverBill(w: nat, channel: nat, load: nat)
    requires channel > 0 && load <= w
    ensures load + (channel - 1) * (w + 1) < channel * (w + 1)
  {
    assert (channel - 1) * (w + 1) == channel * (w + 1) - (w + 1);
  }

  lemma DeliveredLoad(s: State)
    requires Enabled(s, Deliver)
    ensures Load(s.tree, Do(s, Deliver).walk) <= WholeWalk(s.tree) && Load(s.tree, s.walk) == 0
  {
    if Do(s, Deliver).walk != [] {
      VisitWithinWhole(s.tree, s.channel[0].path);
    }
  }

  lemma DeliverLessens(s: State)
    requires Enabled(s, Deliver)
    ensures StepsLeft(Do(s, Deliver)) < StepsLeft(s)
  {
    hide StageLeft, WholeWalk, Load;
    DeliverStage(s);
    DeliveredLoad(s);
    DeliverBill(WholeWalk(s.tree), |s.channel|, Load(s.tree, Do(s, Deliver).walk));
  }

  // ----- nothing else to stop at -----

  lemma {:induction false} ListOf(s: set<Path>) returns (list: seq<Path>)
    ensures forall q :: q in s <==> q in list
    ensures Distinct(list)
  {
    if s == {} {
      list := [];
    } else {
      var x :| x in s;
      var rest := ListOf(s - {x});
      list := [x] + rest;
    }
  }

  /** The children of a directory, each once. */
  lemma ChildrenList(tree: map<Path, Inode>, p: Path) returns (children: seq<Path>)
    ensures ChildrenOf(tree, p, children) && Distinct(children)
    ensures forall i :: 0 <= i < |children| ==> children[i] in tree
  {
    var all := set q | q in tree && q != [] && Up(q) == p;
    children := ListOf(all);
    forall i | 0 <= i < |children|
      ensures children[i] in all
    {
      assert children[i] in children;
    }
  }

  /** The walk, if it is not over, can take a step. */
  lemma SomeWalkStep(s: State) returns (a: Action)
    requires s.walk != [] && !s.phase.Broken?
    ensures Exact(s, a) && (a.VisitNext? || a.ScanNext?)
  {
    if s.walk[0].Visit? {
      a := VisitNext;
    } else {
      var children := ChildrenList(s.tree, s.walk[0].path);
      a := ScanNext(children);
    }
  }

  /** Where nothing is left to do: a quiet state, or a reconciliation given up. */
  ghost predicate AtEnd(s: State) {
    Quiet(s) || (GaveUp(s) && s.kernel == [])
  }

  /** Short of an end some own step can be taken. */
  lemma SomeStep(s: State) returns (a: Action)
    requires Tidy(s) && !AtEnd(s)
    ensures Exact(s, a)
  {
    if s.walk != [] {
      a := SomeWalkStep(s);
    } else if s.kernel != [] {
      a := Read;
    } else if s.phase.Broken? {
      a := Rebuild;
    } else if !s.phase.Serving? {
      a := Advance;
    } else if s.overflow {
      a := DeliverOverflow;
    } else {
      a := Deliver;
    }
  }

  ghost predicate Stuck(s: State) {
    forall a :: !Exact(s, a)
  }

  lemma StuckIsAtEnd(s: State)
    requires Tidy(s)
    ensures Stuck(s) <==> AtEnd(s)
  {
    if !AtEnd(s) {
      var a := SomeStep(s);
    }
  }

  // ----- when a rebuild can be given up -----

  /** The task fails when its turn comes. */
  ghost predicate Fails(tree: map<Path, Inode>, t: Task) {
    t.path !in tree && (t.Scan? || InScope(t.path))
  }

  /** The announced directory is gone again. */
  ghost predicate Stale(tree: map<Path, Inode>, p: Path) {
    p !in tree && InScope(p)
  }

  ghost predicate StaleRaw(s: State, raw: Raw) {
    raw.RawDir? && raw.wd in s.names && Stale(s.tree, s.names[raw.wd] + [raw.name])
  }

  ghost predicate WalkOutdated(s: State) {
    exists i :: 0 <= i < |s.walk| && Fails(s.tree, s.walk[i])
  }

  ghost predicate ChannelOutdated(s: State) {
    exists i :: 0 <= i < |s.channel| && s.channel[i].NewDir? && Stale(s.tree, s.channel[i].path)
  }

  ghost predicate KernelOutdated(s: State) {
    exists i :: 0 <= i < |s.kernel| && StaleRaw(s, s.kernel[i])
  }

  /** Something scheduled or announced no longer exists. */
  ghost predicate Outdated(s: State) {
    WalkOutdated(s) || ChannelOutdated(s) || KernelOutdated(s)
  }

  /** A rebuild that a loss, or a directory gone again, is on its way to. */
  ghost predicate Doomed(s: State) {
    Rebuilding(s) && (LossPending(s) || Outdated(s))
  }

  /** While no loss is pending, what the watcher knows of the queued events' watches does not change. */
  lemma NamesStay(s: State, a: Action)
    requires Inv(s) && !LossPending(s) && Truthful(s, a) && !a.Rebuild?
    ensures var t := Do(s, a);
            && (forall i :: i in s.names ==> i in t.names)
            && (forall i :: i in s.watched ==> t.names[i] == s.names[i])
  {
    if a.VisitNext? {
      var p := s.walk[0].path;
      if InScope(p) && p in s.tree && s.tree[p] in s.watched {
        assert s.names[s.tree[p]] == p;
      }
    }
  }

  /** A rebuild that is not doomed does not become so. */
  lemma StaysUndoomed(s: State, a: Action)
    requires Inv(s) && Tidy(s) && Rebuilding(s) && !Doomed(s) && Truthful(s, a)
    ensures Do(s, a).phase != Broken(false) && (Rebuilding(Do(s, a)) ==> !Doomed(Do(s, a)))
  {
    var t := Do(s, a);
    NamesStay(s, a);
    StepKeepsInv(s, a);
    assert !t.phase.Broken? by {
      if a.Deliver? {
        assert !s.channel[0].Loss?;
      } else if a.VisitNext? || a.ScanNext? {
        assert !Fails(s.tree, s.walk[0]);
      }
    }
    if Rebuilding(t) {
      NoLossAppears(s, a);
      NothingGoesStale(s, a);
    }
  }

  /** What a queued event means to the watcher stays the same. */
  lemma RawStays(s: State, a: Action, i: nat)
    requires Inv(s) && !LossPending(s) && Truthful(s, a) && !a.Rebuild? && i < |s.kernel|
    ensures StaleRaw(Do(s, a), s.kernel[i]) == StaleRaw(s, s.kernel[i])
    ensures Reports(Do(s, a), s.kernel[i]) == Reports(s, s.kernel[i])
  {
    NamesStay(s, a);
    assert !Reports(s, s.kernel[i]);
    assert s.kernel[i].wd in s.watched;
  }

  lemma NoLossAppears(s: State, a: Action)
    requires Inv(s) && !LossPending(s) && Truthful(s, a) && !a.Rebuild? && !Do(s, a).phase.Broken?
    ensures !LossPending(Do(s, a))
  {
    hide Inv;
    var t := Do(s, a);
    forall i | 0 <= i < |t.kernel|
      ensures !Reports(t, t.kernel[i])
    {
      var j := if a.Read? then i + 1 else i;
      RawStays(s, a, j);
      assert t.kernel[i] == s.kernel[j] && !Reports(s, s.kernel[j]);
    }
    forall i | 0 <= i < |t.channel|
      ensures !t.channel[i].Loss?
    {
      if a.Read? && i >= |s.channel| {
        assert !Reports(s, s.kernel[0]);
      } else {
        assert t.channel[i] == s.channel[if a.Deliver? then i + 1 else i];
      }
    }
  }

  lemma WalkStaysCurrent(s: State, a: Action)
    requires !Outdated(s) && Truthful(s, a) && !a.Rebuild? && !Do(s, a).phase.Broken?
    ensures !WalkOutdated(Do(s, a))
  {
    var t := Do(s, a);
    forall i | 0 <= i < |t.walk|
      ensures !Fails(t.tree, t.walk[i])
    {
      if a.Deliver? {
        assert s.channel[0].NewDir? && !Stale(s.tree, s.channel[0].path);
      } else if a.ScanNext? {
        if i >= |a.children| {
          assert t.walk[i] == s.walk[i - |a.children| + 1];
        }
      } else if a.VisitNext? {
        if |t.walk| < |s.walk| {
          assert t.walk[i] == s.walk[i + 1];
        } else if i > 0 {
          assert t.walk[i] == s.walk[i];
        }
      } else {
        assert t.walk[i] == s.walk[i];
      }
    }
  }

  lemma ChannelStaysCurrent(s: State, a: Action)
    requires !Outdated(s) && Truthful(s, a) && !a.Rebuild?
    ensures !ChannelOutdated(Do(s, a))
  {
    var t := Do(s, a);
    forall i | 0 <= i < |t.channel| && t.channel[i].NewDir?
      ensures !Stale(t.tree, t.channel[i].path)
    {
      if a.Read? && i >= |s.channel| {
        assert !StaleRaw(s, s.kernel[0]);
      } else {
        assert t.channel[i] == s.channel[if a.Deliver? then i + 1 else i];
      }
    }
  }

  lemma NothingGoesStale(s: State, a: Action)
    requires Inv(s) && !LossPending(s) && !Outdated(s) && Truthful(s, a) && !a.Rebuild? && !Do(s, a).phase.Broken?
    ensures !Outdated(Do(s, a))
  {
    hide Inv, LossPending, WalkOutdated, ChannelOutdated;
    var t := Do(s, a);
    WalkStaysCurrent(s, a);
    ChannelStaysCurrent(s, a);
    forall i | 0 <= i < |t.kernel|
      ensures !StaleRaw(t, t.kernel[i])
    {
      var j := if a.Read? then i + 1 else i;
      RawStays(s, a, j);
      assert t.kernel[i] == s.kernel[j] && !StaleRaw(s, s.kernel[j]);
    }
  }

  // ----- recovery -----

  /** Every directory in scope is watched and reports under its own path. */
  ghost predicate Complete(s: State) {
    forall p :: p in s.tree && InScope(p) ==>
      s.tree[p] in s.watched && s.tree[p] in s.names && s.names[s.tree[p]] == p
  }

  lemma CoverageIsComplete(s: State)
    requires Inv(s) && Quiet(s)
    ensures !LossPending(s) && Complete(s)
  {
    assert !LossPending(s);
    forall p | p in s.tree && InScope(p)
      ensures IsWatched(s, p)
    {
      assert Covered(s, p);
    }
  }

  /** No schedule from here ends with the reconciliation given up. */
  ghost predicate Safe(s: State) {
    !GaveUp(s) && !Doomed(s)
  }

  lemma StepKeepsSafe(s: State, a: Action)
    requires Inv(s) && Tidy(s) && Safe(s) && Exact(s, a)
    ensures Safe(Do(s, a))
  {
    if Rebuilding(s) {
      StaysUndoomed(s, a);
    } else if a.Rebuild? {
      FreshIsUndoomed(s.tree);
    }
  }

  lemma FreshIsUndoomed(tree: map<Path, Inode>)
    requires TreeOk(tree)
    ensures Safe(Fresh(tree))
  {
  }

  lemma {:induction false} ScheduleKeeps(s: State, actions: seq<Action>)
    requires Inv(s) && Tidy(s) && Schedule(s, actions)
    ensures var t := After(s, actions);
            && Inv(t) && Tidy(t) && t.tree == s.tree && |actions| + StepsLeft(t) <= StepsLeft(s)
            && (Safe(s) ==> Safe(t))
  {
    if actions != [] {
      var n := |actions| - 1;
      var before := After(s, actions[..n]);
      ScheduleKeeps(s, actions[..n]);
      StepKeepsInv(before, actions[n]);
      StepKeepsTidy(before, actions[n]);
      StepLessens(before, actions[n]);
      if Safe(before) {
        StepKeepsSafe(before, actions[n]);
      }
    }
  }

  /**
   * Recovery is inevitable: whatever is queued, scheduled or lost, in every phase, every schedule of
   * own steps is at most `StepsLeft` long; it can stop exactly in quiet states, where every directory
   * in scope is watched, and where a reconciliation was given up, which only a doomed rebuild can be.
   */
  lemma EveryScheduleRecovers(s: State, actions: seq<Action>)
    requires Inv(s) && Tidy(s) && Schedule(s, actions)
    ensures |actions| <= StepsLeft(s)
    ensures var t := After(s, actions);
            && t.tree == s.tree && (Stuck(t) <==> AtEnd(t))
            && (Quiet(t) ==> !LossPending(t) && Complete(t))
            && (Safe(s) ==> !GaveUp(t))
  {
    var t := After(s, actions);
    ScheduleKeeps(s, actions);
    StuckIsAtEnd(t);
    if Quiet(t) {
      CoverageIsComplete(t);
    }
  }

  lemma {:induction false} RunStaysTidy(tree: map<Path, Inode>, actions: seq<Action>)
    requires Runs(Fresh(tree), actions)
    ensures Tidy(After(Fresh(tree), actions))
  {
    if actions != [] {
      RunStaysTidy(tree, actions[..|actions| - 1]);
    }
  }

  /** The same after any interleaving with the environment, overflow and failing walks included. */
  lemma EveryRunRecovers(tree: map<Path, Inode>, past: seq<Action>, actions: seq<Action>)
    requires TreeOk(tree) && Runs(Fresh(tree), past) && Schedule(After(Fresh(tree), past), actions)
    ensures var s := After(Fresh(tree), past);
            var t := After(s, actions);
            && |actions| <= StepsLeft(s)
            && (Stuck(t) ==> (Quiet(t) && Complete(t)) || GaveUp(t))
            && (Stuck(t) && Safe(s) ==> Quiet(t) && Complete(t))
  {
    RunKeepsInv(tree, past);
    RunStaysTidy(tree, past);
    EveryScheduleRecovers(After(Fresh(tree), past), actions);
  }

  /** Every schedule can be carried on to an end, so unless the rebuild is doomed recovery also happens. */
  lemma {:induction false} CoverageIsRegained(s: State, sofar: seq<Action>) returns (actions: seq<Action>)
    requires Inv(s) && Tidy(s) && Schedule(s, sofar)
    ensures Schedule(s, actions) && sofar <= actions
    ensures var t := After(s, actions); t.tree == s.tree && AtEnd(t) && (Safe(s) ==> Quiet(t) && Complete(t))
    decreases StepsLeft(s) - |sofar|
  {
    EveryScheduleRecovers(s, sofar);
    var t := After(s, sofar);
    if AtEnd(t) {
      actions := sofar;
    } else {
      ScheduleKeeps(s, sofar);
      var a := SomeStep(t);
      var more := sofar + [a];
      assert more[..|more| - 1] == sofar;
      EveryScheduleRecovers(s, more);
      actions := CoverageIsRegained(s, more);
    }
  }

  /** A doomed rebuild has a step that leaves it doomed or gives it up. */
  lemma DoomedStep(s: State) returns (a: Action)
    requires Inv(s) && Tidy(s) && Doomed(s)
    ensures Exact(s, a) && (Doomed(Do(s, a)) || GaveUp(Do(s, a)))
  {
    if s.walk != [] {
      a := SomeWalkStep(s);
    } else if s.phase.Building? {
      a := Advance;
    } else if s.overflow {
      a := DeliverOverflow;
    } else if s.channel != [] {
      a := Deliver;
    } else {
      a := Read;
    }
    if LossPending(s) {
      LossIsSticky(s, a);
    } else {
      OutdatedIsSticky(s, a);
    }
  }

  lemma WalkIsSticky(s: State, a: Action)
    requires WalkOutdated(s) && Exact(s, a) && !a.Rebuild? && !Do(s, a).phase.Broken?
    ensures WalkOutdated(Do(s, a))
  {
    var t := Do(s, a);
    var i :| 0 <= i < |s.walk| && Fails(s.tree, s.walk[i]);
    var j := if a.ScanNext? then i - 1 + |a.children| else i + |t.walk| - |s.walk|;
    assert t.walk[j] == s.walk[i];
  }

  lemma ChannelIsSticky(s: State, a: Action)
    requires ChannelOutdated(s) && Exact(s, a) && !a.Rebuild? && !Do(s, a).phase.Broken?
    ensures Outdated(Do(s, a))
  {
    var t := Do(s, a);
    var i :| 0 <= i < |s.channel| && s.channel[i].NewDir? && Stale(s.tree, s.channel[i].path);
    if a.Deliver? && i == 0 {
      assert Fails(t.tree, t.walk[0]);
    } else {
      assert t.channel[if a.Deliver? then i - 1 else i] == s.channel[i];
    }
  }

  lemma KernelIsSticky(s: State, a: Action)
    requires Inv(s) && !LossPending(s) && KernelOutdated(s) && Exact(s, a) && !a.Rebuild?
    ensures ChannelOutdated(Do(s, a)) || KernelOutdated(Do(s, a))
  {
    hide Inv, LossPending;
    var t := Do(s, a);
    var i :| 0 <= i < |s.kernel| && StaleRaw(s, s.kernel[i]);
    if a.Read? && i == 0 {
      assert t.channel[|s.channel|] == NewDir(s.names[s.kernel[0].wd] + [s.kernel[0].name]);
    } else {
      RawStays(s, a, i);
      assert t.kernel[if a.Read? then i - 1 else i] == s.kernel[i];
    }
  }

  lemma OutdatedIsSticky(s: State, a: Action)
    requires Inv(s) && !LossPending(s) && Outdated(s) && Exact(s, a) && !a.Rebuild?
    ensures Outdated(Do(s, a)) || Do(s, a).phase.Broken?
  {
    hide Inv, LossPending, WalkOutdated, ChannelOutdated, KernelOutdated;
    if !Do(s, a).phase.Broken? {
      if WalkOutdated(s) {
        WalkIsSticky(s, a);
      } else if ChannelOutdated(s) {
        ChannelIsSticky(s, a);
      } else {
        KernelIsSticky(s, a);
      }
    }
  }

  /**
   * The condition is exact: from every doomed rebuild some schedule gives the reconciliation up, so a
   * state is safe from that if and only if it is neither given up already nor a doomed rebuild.
   */
  lemma {:induction false} DoomedCanGiveUp(s: State, sofar: seq<Action>) returns (actions: seq<Action>)
    requires Inv(s) && Tidy(s) && Schedule(s, sofar) && (Doomed(After(s, sofar)) || GaveUp(After(s, sofar)))
    ensures Schedule(s, actions) && sofar <= actions && GaveUp(After(s, actions))
    decreases StepsLeft(s) - |sofar|
  {
    EveryScheduleRecovers(s, sofar);
    if GaveUp(After(s, sofar)) {
      actions := sofar;
    } else {
      ScheduleKeeps(s, sofar);
      var a := DoomedStep(After(s, sofar));
      var more := sofar + [a];
      assert more[..|more| - 1] == sofar;
      EveryScheduleRecovers(s, more);
      actions := DoomedCanGiveUp(s, more);
    }
  }
}
