/** The cache directory: snapshots of its entries, their listing, and deletion guarded by identity. */
module DiskCache {
  import opened Wrappers
  import opened Victims
  import opened CacheKey

  // ----- the disk -----

  type Path = seq<string>

  datatype Object =
    | Directory(device: nat, inode: nat)
    | Regular(device: nat, inode: nat, size: nat, mtime: int)
    | Special                                       // symbolic links, sockets and the like

  type Disk = map<Path, Object>

  /** The identity of the cache root recorded at start. */
  datatype Root = Root(device: nat, inode: nat)

  function PathParts(key: string): Path {
    Split(key)
  }

  /** `Snapshot`: the record of a regular file at a valid key. */
  function Snap(disk: Disk, key: string): Option<Entry> {
    if ParseKey(key).Err? || PathParts(key) !in disk || !disk[PathParts(key)].Regular? then None
    else
      var o := disk[PathParts(key)];
      Some(Entry(key, ParseKey(key).value, o.size, o.mtime, o.device, o.inode))
  }

  /** The snapshot describes the file that is there now. */
  ghost predicate Current(disk: Disk, e: Entry) {
    Snap(disk, e.key) == Some(e)
  }

  /** The checks of `deleteSnapshot` before its unlink: root identity, real parents, and the file itself. */
  predicate Confirms(disk: Disk, root: Root, e: Entry) {
    && ParseKey(e.key) == Ok(e.kind)
    && var parts := PathParts(e.key);
       && [] in disk && disk[[]] == Directory(root.device, root.inode)
       && parts[..1] in disk && disk[parts[..1]].Directory?
       && (|parts| >= 2 && parts[..2] in disk && disk[parts[..2]].Directory?)
       && parts in disk && disk[parts] == Regular(e.device, e.inode, e.size, e.modTime)
  }

  ghost predicate DistinctKeys(s: seq<Entry>) {
    forall i, j :: 0 <= i < j < |s| ==> s[i].key != s[j].key
  }

  ghost predicate NotListed(entries: seq<Entry>, key: string) {
    forall i :: 0 <= i < |entries| ==> entries[i].key != key
  }

  lemma KeyPathsDiffer(a: string, b: string)
    requires a != b
    ensures PathParts(a) != PathParts(b)
  {
    JoinSplit(a);
    JoinSplit(b);
  }

  /** A deletion goes through exactly when the snapshot is current below real directories of the recorded root. */
  lemma ConfirmsIsCurrent(disk: Disk, root: Root, e: Entry)
    requires ParseKey(e.key).Ok?
    ensures Confirms(disk, root, e) <==>
              && Current(disk, e) && [] in disk && disk[[]] == Directory(root.device, root.inode)
              && (forall n :: 1 <= n <= 2 ==> PathParts(e.key)[..n] in disk && disk[PathParts(e.key)[..n]].Directory?)
  {
    var digest := ParseAcceptsOnly(e.key);
    ParseAccepts(ParseKey(e.key).value, digest);
    assert |PathParts(e.key)| == 3;
  }

  // ----- the walk -----

  /** File names hold no slash. */
  ghost predicate SlashFreeNames(disk: Disk) {
    forall p :: p in disk ==> forall i :: 0 <= i < |p| ==> SlashFree(p[i])
  }

  function Children(disk: Disk, p: Path): set<Path> {
    set q | q in disk && |q| == |p| + 1 && q[..|p|] == p
  }

  /** A walk of the stores comes by: every element before the last is a real directory. */
  ghost predicate Walkable(disk: Disk, p: Path) {
    && p != [] && p in disk && p[0] in ["ac", "cas"]
    && forall n :: 1 <= n < |p| ==> p[..n] in disk && disk[p[..n]].Directory?
  }

  /** What was met and what waits: all of it walkable, and all children of directories met are among it. */
  ghost predicate Walked(disk: Disk, done: set<Path>, pending: set<Path>) {
    && done !! pending
    && (forall p :: p in done + pending ==> Walkable(disk, p) && (|p| > 1 ==> p[..|p| - 1] in done))
    && (forall p :: p in [["ac"], ["cas"]] && p in disk ==> p in done + pending)
    && (forall p, q :: p in done && disk[p].Directory? && q in Children(disk, p) ==> q in done + pending)
  }

  /** The entries among what was met. */
  ghost predicate ListsDone(disk: Disk, done: set<Path>, entries: seq<Entry>) {
    && DistinctKeys(entries)
    && (forall i :: 0 <= i < |entries| ==> Current(disk, entries[i]) && PathParts(entries[i].key) in done)
    && (forall e :: Current(disk, e) && PathParts(e.key) in done ==> e in entries)
  }

  lemma ChildIsWalkable(disk: Disk, p: Path, q: Path)
    requires Walkable(disk, p) && disk[p].Directory? && q in Children(disk, p)
    ensures Walkable(disk, q) && q[..|q| - 1] == p
  {
    forall n | 1 <= n < |q|
      ensures q[..n] in disk && disk[q[..n]].Directory?
    {
      assert q[..n] == if n == |p| then p else p[..n];
    }
    assert q[0] == p[0];
  }

  lemma WalkOn(disk: Disk, done: set<Path>, pending: set<Path>, p: Path)
    requires Walked(disk, done, pending) && p in pending
    ensures p in disk && p != [] && p !in done
    ensures var below := if disk[p].Directory? then Children(disk, p) else {};
            Walked(disk, done + {p}, pending - {p} + below)
  {
    if disk[p].Directory? {
      forall q | q in Children(disk, p)
        ensures Walkable(disk, q) && q[..|q| - 1] == p && q !in done && q != p
      {
        ChildIsWalkable(disk, p, q);
      }
    }
  }

  /** The snapshot under a path's key is the one entry at that path. */
  lemma SnapAt(disk: Disk, p: Path, e: Entry)
    requires SlashFreeNames(disk) && p in disk && p != []
    ensures Snap(disk, Join(p)) == Some(e) <==> Current(disk, e) && PathParts(e.key) == p
  {
    SplitJoin(p);
    JoinSplit(e.key);
  }

  lemma ListOn(disk: Disk, done: set<Path>, entries: seq<Entry>, p: Path)
    requires SlashFreeNames(disk) && ListsDone(disk, done, entries) && p in disk && p != [] && p !in done
    ensures var snapshot := Snap(disk, Join(p));
            ListsDone(disk, done + {p}, if snapshot.Some? then entries + [snapshot.value] else entries)
  {
    hide Snap, Current, PathParts, Join, SlashFreeNames;
    var snapshot := Snap(disk, Join(p));
    var all := if snapshot.Some? then entries + [snapshot.value] else entries;
    if snapshot.Some? {
      SnapAt(disk, p, snapshot.value);
      assert all[|entries|] == snapshot.value;
    }
    forall e | Current(disk, e) && PathParts(e.key) in done + {p}
      ensures e in all
    {
      if PathParts(e.key) == p {
        SnapAt(disk, p, e);
      } else {
        assert e in entries;
      }
    }
  }

  /** When nothing waits, everything walkable was met. */
  lemma {:induction false} AllWalkableDone(disk: Disk, done: set<Path>, p: Path)
    requires Walked(disk, done, {}) && Walkable(disk, p)
    ensures p in done
    decreases |p|
  {
    if |p| == 1 {
      assert p == [p[0]];
    } else {
      var up := p[..|p| - 1];
      assert forall n :: 1 <= n < |up| ==> up[..n] == p[..n];
      AllWalkableDone(disk, done, up);
      assert p in Children(disk, up);
    }
  }

  lemma WalkReachesAll(disk: Disk, done: set<Path>, entries: seq<Entry>)
    requires Walked(disk, done, {}) && ListsDone(disk, done, entries)
    ensures forall e :: e in entries <==> Current(disk, e) && BelowDirectories(disk, PathParts(e.key))
  {
    forall e | Current(disk, e)
      ensures e in entries <==> BelowDirectories(disk, PathParts(e.key))
    {
      KeyIsWalkable(disk, e);
      if Walkable(disk, PathParts(e.key)) {
        AllWalkableDone(disk, done, PathParts(e.key));
      }
    }
  }

  /** The store and the shard of the path are real directories. */
  ghost predicate BelowDirectories(disk: Disk, p: Path) {
    && |p| >= 2
    && p[..1] in disk && disk[p[..1]].Directory? && p[..2] in disk && disk[p[..2]].Directory?
  }

  /** A walk of the stores comes by an entry exactly if its store and shard are real directories. */
  lemma KeyIsWalkable(disk: Disk, e: Entry)
    requires Current(disk, e)
    ensures Walkable(disk, PathParts(e.key)) <==> BelowDirectories(disk, PathParts(e.key))
  {
    var digest := ParseAcceptsOnly(e.key);
    ParseAccepts(ParseKey(e.key).value, digest);
    assert |PathParts(e.key)| == 3;
    assert KindName(ActionCache) in ["ac", "cas"] && KindName(ContentCAS) in ["ac", "cas"];
  }

  // ----- the cache -----

  /** The system calls of a deletion. */
  datatype Call = OpenRoot | StatRoot | OpenStore | OpenShard | StatFile | UnlinkFile

  datatype DeleteError =
    InvalidEntry | RootUnavailable | EntryChanged | ParentUnavailable | StatFailed | UnlinkFailed

  class Cache {
    var disk: Disk
    const root: Root

    constructor (disk: Disk, root: Root)
      ensures this.disk == disk && this.root == root
    {
      this.disk, this.root := disk, root;
    }

    /**
     * `GetEntries`: the walk of both stores with nothing moving lists exactly the entries below real
     * directories, each once and as it is now. Which of the waiting paths comes next is left open.
     */
    method GetEntries() returns (entries: seq<Entry>)
      requires SlashFreeNames(disk)
      ensures DistinctKeys(entries)
      ensures forall e :: e in entries <==>
                && Current(disk, e) && |PathParts(e.key)| >= 2
                && PathParts(e.key)[..1] in disk && disk[PathParts(e.key)[..1]].Directory?
                && PathParts(e.key)[..2] in disk && disk[PathParts(e.key)[..2]].Directory?
    {
      entries := [];
      var pending := set p | p in [["ac"], ["cas"]] && p in disk;
      ghost var done: set<Path> := {};
      hide Snap;
      while pending != {}
        invariant Walked(disk, done, pending) && ListsDone(disk, done, entries)
        decreases disk.Keys - done
      {
        var p :| p in pending;
        var below := if disk[p].Directory? then Children(disk, p) else {};
        var snapshot := Snap(disk, Join(p));
        WalkOn(disk, done, pending, p);
        ListOn(disk, done, entries, p);
        if snapshot.Some? {
          entries := entries + [snapshot.value];
        }
        pending, done := pending - {p} + below, done + {p};
      }
      WalkReachesAll(disk, done, entries);
    }

    /**
     * `deleteSnapshot`, step by step: the file goes exactly when every identity still matches and
     * every system call works, and nothing else on the disk changes.
     */
    method DeleteSnapshot(e: Entry, works: Call -> bool) returns (error: Option<DeleteError>)
      modifies this
      ensures error.None? <==> Confirms(old(disk), root, e) && forall call: Call :: works(call)
      ensures error.None? ==> disk == old(disk) - {PathParts(e.key)}
      ensures error.Some? ==> disk == old(disk)
      ensures error == Some(EntryChanged) ==> ParseKey(e.key).Ok? && !Confirms(old(disk), root, e)
    {
      if ParseKey(e.key) != Ok(e.kind) {
        return Some(InvalidEntry);
      }
      ghost var digest := ParseAcceptsOnly(e.key);
      ParseAccepts(e.kind, digest);
      var parts := PathParts(e.key);
      if !works(OpenRoot) || [] !in disk || !disk[[]].Directory? {
        return Some(RootUnavailable);
      }
      if !works(StatRoot) {
        return Some(RootUnavailable);
      }
      if disk[[]] != Directory(root.device, root.inode) {
        return Some(EntryChanged);
      }
      if !works(OpenStore) || parts[..1] !in disk || !disk[parts[..1]].Directory? {
        return Some(ParentUnavailable);
      }
      if !works(OpenShard) || parts[..2] !in disk || !disk[parts[..2]].Directory? {
        return Some(ParentUnavailable);
      }
      if !works(StatFile) || parts !in disk {
        return Some(StatFailed);
      }
      if disk[parts] != Regular(e.device, e.inode, e.size, e.modTime) {
        return Some(EntryChanged);
      }
      if !works(UnlinkFile) {
        return Some(UnlinkFailed);
      }
      forall call: Call
        ensures works(call)
      {
        match call
        case OpenRoot | StatRoot | OpenStore =>
        case OpenShard | StatFile | UnlinkFile =>
      }
      disk := disk - {parts};
      return None;
    }
  }
}
