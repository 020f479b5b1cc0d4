/**
 * Watch coverage as interleaved steps: directories come and go while the walk adds watches, the
 * reader translates raw inotify events, and the event loop handles them or rebuilds the watcher.
 */
module Watch {

  type Path = seq<string>

  /** A directory inode; a watch descriptor names the inode it was added for. */
  type Inode = nat

  datatype Raw =
    | RawDir(wd: Inode, name: string)   // a directory created in, or moved into, a watched one
    | RawLoss(wd: Inode)                // the watched directory itself was deleted, moved or unmounted
    | RawOther(wd: Inode)               // anything else a watched directory reports
    | RawOverflow

  datatype Message = NewDir(path: Path) | Loss(path: Path) | Other

  /** The rest of a `filepath.WalkDir`: directories to visit, and visited ones still to be read. */
  datatype Task = Visit(path: Path) | Scan(path: Path)

  datatype Phase = Building | Draining | Serving | Broken(rebuilds: bool)

  datatype State = State(
    tree: map<Path, Inode>,     // the real directories under the cache root
    watched: set<Inode>,        // kernel watches of the current instance
    names: map<Inode, Path>,    // the watcher's `paths`
    known: set<Path>,           // the keys of the watcher's `watches`
    kernel: seq<Raw>,
    channel: seq<Message>,
    overflow: bool,
    walk: seq<Task>,
    phase: Phase)

  datatype Action =
    | Mkdir(path: Path, inode: Inode, lost: bool)
    | MoveIn(path: Path, sub: map<Path, Inode>, lost: bool)
    | Detach(path: Path, destroyed: bool, lost: bool)
    | Noise(wd: Inode, lost: bool)
    | Read
    | VisitNext
    | ScanNext(children: seq<Path>)
    | WalkFails
    | Deliver
    | DeliverOverflow
    | Advance
    | Rebuild

  predicate InScope(p: Path) {
    p == [] || p[0] == "ac" || p[0] == "cas"
  }

  function Up(p: Path): Path
    requires p != []
  {
    p[..|p| - 1]
  }

  function Base(p: Path): string
    requires p != []
  {
    p[|p| - 1]
  }

  ghost predicate TreeOk(tree: map<Path, Inode>) {
    && [] in tree
    && (forall p :: p in tree && p != [] ==> Up(p) in tree)
    && (forall p, q :: p in tree && q in tree && tree[p] == tree[q] ==> p == q)
  }

  // ----- steps -----

  /** What the kernel queues: the events, or an overflow mark in their place. */
  function Queue(s: State, raws: seq<Raw>, lost: bool): seq<Raw> {
    s.kernel + if lost then [RawOverflow] else raws
  }

  function Outside(tree: map<Path, Inode>, p: Path): map<Path, Inode> {
    map q | q in tree && !(p <= q) :: tree[q]
  }

  /** The event a directory's parent reports when it appears at `p`. */
  function Appeared(s: State, p: Path): seq<Raw>
    requires p != [] && Up(p) in s.tree
  {
    if s.tree[Up(p)] in s.watched then [RawDir(s.tree[Up(p)], Base(p))] else []
  }

  /** A moved-in subtree: rooted at `p`, closed, and made of directories the cache did not hold. */
  ghost predicate Graft(tree: map<Path, Inode>, p: Path, sub: map<Path, Inode>) {
    && p in sub
    && (forall q :: q in sub ==> p <= q && q !in tree && sub[q] !in tree.Values)
    && (forall q :: q in sub && q != p ==> Up(q) in sub)
    && (forall q, r :: q in sub && r in sub && sub[q] == sub[r] ==> q == r)
  }

  ghost predicate ChildrenOf(tree: map<Path, Inode>, p: Path, children: seq<Path>) {
    && (forall i :: 0 <= i < |children| ==> children[i] != [] && Up(children[i]) == p)
    && (forall q :: q in tree && q != [] && Up(q) == p ==> q in children)
  }

  ghost predicate Enabled(s: State, a: Action) {
    match a
    case Mkdir(p, inode, _) =>
      p != [] && p !in s.tree && Up(p) in s.tree && inode !in s.tree.Values && inode !in s.watched && inode !in s.names
    case MoveIn(p, sub, _) => p != [] && Up(p) in s.tree && Graft(s.tree, p, sub)
    case Detach(p, destroyed, _) =>
      p != [] && p in s.tree && (destroyed ==> forall q :: q in s.tree && p <= q ==> q == p)
    case Noise(wd, _) => wd in s.watched
    case Read => s.kernel != []
    case VisitNext => s.walk != [] && s.walk[0].Visit? && !s.phase.Broken?
    case ScanNext(children) =>
      s.walk != [] && s.walk[0].Scan? && !s.phase.Broken? &&
      (s.walk[0].path in s.tree ==> ChildrenOf(s.tree, s.walk[0].path, children))
    case WalkFails => s.walk != [] && !s.phase.Broken?
    case Deliver => s.walk == [] && s.channel != [] && (s.phase.Draining? || s.phase.Serving?)
    case DeliverOverflow => s.walk == [] && s.overflow && (s.phase.Draining? || s.phase.Serving?)
    case Advance => s.walk == [] && (s.phase.Building? || s.phase.Draining?)
    case Rebuild => s.phase == Broken(true)
  }

  /** A failing walk or handler: the serving loop rebuilds, an unfinished reconciliation gives up. */
  function Break(s: State): State {
    s.(phase := Broken(s.phase.Serving? || s.phase == Broken(true)), walk := [])
  }

  /** `AddWatch`: a path already known keeps its first descriptor in `paths`. */
  function AddWatch(s: State, p: Path): State
    requires p in s.tree
  {
    if p in s.known then s.(watched := s.watched + {s.tree[p]})
    else s.(watched := s.watched + {s.tree[p]}, known := s.known + {p}, names := s.names[s.tree[p] := p])
  }

  function Visits(children: seq<Path>): (ts: seq<Task>)
    ensures |ts| == |children| && forall i :: 0 <= i < |ts| ==> ts[i] == Visit(children[i])
  {
    seq(|children|, i requires 0 <= i < |children| => Visit(children[i]))
  }

  /** The watcher built from nothing, its walk about to visit the root. */
  function Fresh(tree: map<Path, Inode>): State {
    State(tree, {}, map[], {}, [], [], false, [Visit([])], Building)
  }

  /** `readEvents` for one raw event: an event without a recorded path is dropped. */
  function Translate(s: State, raw: Raw): seq<Message> {
    if raw.RawOverflow? || raw.wd !in s.names then []
    else
      match raw
      case RawDir(wd, name) => [NewDir(s.names[wd] + [name])]
      case RawLoss(wd) => [Loss(s.names[wd])]
      case RawOther(_) => [Other]
  }

  function Handle(s: State, m: Message): State {
    match m
    case NewDir(p) => if InScope(p) then s.(walk := [Visit(p)]) else s
    case Loss(_) => Break(s)
    case Other => s
  }

  ghost function Do(s: State, a: Action): State
    requires Enabled(s, a)
  {
    match a
    case Mkdir(p, inode, lost) => s.(tree := s.tree[p := inode], kernel := Queue(s, Appeared(s, p), lost))
    case MoveIn(p, sub, lost) => s.(tree := s.tree + sub, kernel := Queue(s, Appeared(s, p), lost))
    case Detach(p, destroyed, lost) =>
      var loss := if s.tree[p] in s.watched then [RawLoss(s.tree[p])] else [];
      s.(tree := Outside(s.tree, p),
         watched := if destroyed then s.watched - {s.tree[p]} else s.watched,
         kernel := Queue(s, loss, lost))
    case Noise(wd, lost) => s.(kernel := Queue(s, [RawOther(wd)], lost))
    case Read =>
      s.(kernel := s.kernel[1..], channel := s.channel + Translate(s, s.kernel[0]),
         overflow := s.overflow || s.kernel[0].RawOverflow?)
    case VisitNext =>
      var p := s.walk[0].path;
      if !InScope(p) then s.(walk := s.walk[1..])
      else if p !in s.tree then Break(s)
      else AddWatch(s, p).(walk := [Scan(p)] + s.walk[1..])
    case ScanNext(children) =>
      if s.walk[0].path !in s.tree then Break(s) else s.(walk := Visits(children) + s.walk[1..])
    case WalkFails => Break(s)
    case Deliver => Handle(s.(channel := s.channel[1..]), s.channel[0])
    case DeliverOverflow => Break(s.(overflow := false))
    case Advance => s.(phase := if s.phase.Building? then Draining else Serving)
    case Rebuild => Fresh(s.tree)
  }

  ghost predicate Runs(s: State, actions: seq<Action>)
    decreases |actions|, 0
  {
    actions != [] ==>
      && Runs(s, actions[..|actions| - 1])
      && Enabled(After(s, actions[..|actions| - 1]), actions[|actions| - 1])
  }

  ghost function After(s: State, actions: seq<Action>): State
    requires Runs(s, actions)
    decreases |actions|, 1
  {
    if actions == [] then s else Do(After(s, actions[..|actions| - 1]), actions[|actions| - 1])
  }
}
