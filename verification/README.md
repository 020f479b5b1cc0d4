# Hoshino: a verified model

Hoshino watches a Bazel disk cache with inotify, keeps an approximate hot set with a HeavyKeeper
sketch, and deletes cold entries under watermark, floor and lease rules. This project models its five
stateful parts and proves what each keeps over every input, every run and every random draw.

| part | files |
|---|---|
| ranked hot set and indexed min-heap | `Wrappers`, `Order`, `HeapOrder`, `TopK`, `MinHeap` |
| HeavyKeeper sketch, its runs and its object | `Sketch`, `SketchRuns`, `HeavyKeeper` |
| policy, victim selection, cleanup object | `Policy`, `Victims`, `VictimRuns`, `Notify` |
| watch coverage and the inotify reader | `Watch`, `WatchRuns`, `WatchRecovery`, `WatchCauses`, `Inotify` |
| cache keys, guarded deletion, whole runs, checkpoints | `CacheKey`, `DiskCache`, `Manager`, `ManagerRuns`, `ManagerGuards`, `ManagerCycles`, `Checkpoint` |

`dafny verify dfyconfig.toml` checks everything.

How the outside world enters the model:

- Random draws, hash functions and the powers of the decay base are parameters, so results hold for
  all of them. Counts are unsigned 32-bit and wrap where the code wraps.
- `getDiskUsage`, `Delete`, directory listings and lock attempts are answers supplied from outside:
  functions of the loop position in `Victims`, action parameters in `Manager`.
- A `float64` is a real number, an infinity or not-a-number; rounding is not modelled.
- Concurrency is a state machine: directory changes, the event reader, the walk and the event loop
  interleave in `Watch`; Bazel clients, the clock and the manager interleave in `Manager`.
- Keys compare as Go strings do; characters stand for bytes, which order the same way in UTF-8.

Three findings on the code itself:

- Exactness of hot-set counts does not need a minimum count of one: it holds for every run exactly up
  to a minimum count of two (`HotCountIsExact`), and for every larger minimum a three-step run leaves a
  key one below its true count (`LargerMinimumIsStale`). For every minimum a hot count is never too
  high, and exact once the true count reaches the minimum (`HotCountTracks`).
- The flag `add` returns is documented as membership in the heap; it is set without membership exactly
  on a tie with the least record of a full heap, or at capacity zero (`OkIsNotMembership`). Runs
  reach such ties whenever one separable key more than the capacity gets the same count
  (`TieIsReached`), and at every capacity below 2^32 - 2 there is such a sketch (`TieExists`).
- A restart keeps a hot set of separable keys exactly when no saved count is below the minimum count
  and every file still exists (`RestartKeepsHotSet`); a larger minimum than one, which `Validate`
  accepts, can lose a key that decayed after it became hot (`LargerMinimumForgets`).

## Model

| member | source | states |
|---|---|---|
| `Order.LessTotal` | eviction/internal/minheap/minheap.go:139-141 | `Nodes.Less` (count ascending, key descending) is a strict total order: distinct records are comparable, never both ways |
| `Order.LeTransitive` | eviction/internal/minheap/minheap.go:139-141 | its reflexive form is transitive, which sifting relies on |
| `Order.StrLessIsLexical` | eviction/internal/minheap/minheap.go:139-141 | keys compare at their first difference, a proper prefix being smaller |
| `HeapOrder.DownStep` | eviction/internal/minheap/minheap.go:67-70 | one swap of `down` moves the only place where heap order may fail to the child |
| `HeapOrder.UpStep` | eviction/internal/minheap/minheap.go:67-70 | one swap of `up` moves the only loose node to its parent |
| `HeapOrder.RootIsLeast` | eviction/internal/minheap/minheap.go:72-77 | in an ordered heap the root ranks at or below every node |
| `TopK.LeastUnique` | eviction/internal/minheap/minheap.go:46-55 | the record an eviction drops is unique, ties in count included |
| `TopK.LeastIsSmallest` | eviction/internal/minheap/minheap.go:72-77 | the record `Pop` returns has the least count, and every other record of that count a smaller key |
| `TopK.ExpelledIsLeast` | eviction/internal/minheap/minheap.go:46-55 | an upsert expels, for a strictly larger count only, a record of the least count, of these the one with the largest key; the tied ones stay |
| `TopK.UpsertKeepsTopK` | eviction/internal/minheap/minheap.go:25-58 | one upsert of a count no smaller than the key's latest keeps a true top-K |
| `TopK.FeedIsTopK` | eviction/internal/minheap/minheap.go:25-58 | after any stream in which no key's count decreases, retained keys have their latest count and keys are left out only of a full heap, at or below its minimum |
| `TopK.PrunedAll` | eviction/internal/minheap/minheap.go:98-106 | popping least records until the least is not zero leaves exactly the records whose old count was at least two, halved |
| `TopK.RankingUnique` | eviction/internal/minheap/minheap.go:116-125 | a strictly descending listing is determined by the key-count map alone and has its size |
| `TopK.Ranking` | eviction/internal/minheap/minheap.go:116-125 | every hot set has a strictly descending listing of exactly its records |
| `TopK.DescendingOrder` | eviction/internal/minheap/minheap.go:116-125 | a listing has larger counts first and, among equal counts, smaller keys first |
| `MinHeap.Heap.Swap` | eviction/internal/minheap/minheap.go:143-147 | exchanges two nodes and keeps `Nodes[i].index == i` |
| `MinHeap.Heap.Down` | eviction/internal/minheap/minheap.go:60-70 | `down` restores order below its start and reports whether the node moved; if not, nothing changed |
| `MinHeap.Heap.Up` | eviction/internal/minheap/minheap.go:29-58 | `up` restores order of a heap with one loose node |
| `MinHeap.Heap.Init` | eviction/internal/minheap/minheap.go:98-102 | orders any indexed slice, as `ScaleDown` needs after halving created ties |
| `MinHeap.Heap.Push` | eviction/internal/minheap/minheap.go:149-153 | adds one node, keeping order and indices |
| `MinHeap.Heap.Extract` | eviction/internal/minheap/minheap.go:88-96 | removes the node at an index (`heap.Pop` is the root case), keeping order and indices of the rest |
| `MinHeap.Heap.Min` | eviction/internal/minheap/minheap.go:72-77 | the least count of the contents, zero when empty |
| `MinHeap.Heap.Find` | eviction/internal/minheap/minheap.go:108-114 | finds a key exactly when it is held, at its own index |
| `MinHeap.Heap.Fix` | eviction/internal/minheap/minheap.go:67-70 | sets the count of one key, up or down, and changes no other record |
| `MinHeap.Heap.Pop` | eviction/internal/minheap/minheap.go:60-65 | removes exactly the least record from slice, index and key map |
| `MinHeap.Heap.Remove` | eviction/internal/minheap/minheap.go:88-96 | removes exactly the key, and reports whether it was there |
| `MinHeap.Heap.Upsert` | eviction/internal/minheap/minheap.go:25-58 | refines the map update: replaces a held key's count, inserts with room, expels exactly the least record for a strictly larger count, and otherwise changes nothing |
| `MinHeap.Heap.ScaleDown` | eviction/internal/minheap/minheap.go:98-106 | the contents become exactly the keys with old count at least two, halved, with order and indices restored |
| `MinHeap.Heap.Sorted` | eviction/internal/minheap/minheap.go:116-125 | returns the contents with larger counts first and, among equal counts, smaller keys first, and leaves the heap untouched |
| `Sketch.ErodeCases` | eviction/internal/heavykeeper/heavykeeper.go:114-134 | for all draws the decay loop leaves a positive count: the holder's, not larger, or the newcomer's, at most the remaining increment |
| `Sketch.ErodeFollowsTrace` | eviction/internal/heavykeeper/heavykeeper.go:114-134 | the decay loop for all draws: a draw below the power for the current count takes one off; at the draw that empties the bucket the newcomer takes it over with the increments left |
| `Sketch.ErodeAllHit` | eviction/internal/heavykeeper/heavykeeper.go:114-134 | if every draw hits, the holder loses the increment, or the newcomer keeps what is left of it |
| `Sketch.ErodeNoHit` | eviction/internal/heavykeeper/heavykeeper.go:114-134 | if no draw hits, the bucket stays |
| `Sketch.ErodeOne` | eviction/internal/heavykeeper/heavykeeper.go:114-134 | for one increment, the bucket after either outcome of its draw |
| `Sketch.TouchBound` | eviction/internal/heavykeeper/heavykeeper.go:99-135 | one row of `add` credits at most the increment, only to the touching fingerprint, wrap-around included |
| `Sketch.TouchOwn` | eviction/internal/heavykeeper/heavykeeper.go:101-113 | a free or own bucket takes the increment modulo 2^32 |
| `SketchRuns.NeverOverestimates` | eviction/internal/heavykeeper/heavykeeper.go:93-228 | after every run of Add, Fading, Remove and Reset and for all draws, every bucket and every hot count is at most the reference count of its fingerprint |
| `SketchRuns.RowsWithinTotal` | eviction/internal/heavykeeper/heavykeeper.go:99-136 | after every run each row sums to at most all increments, halved at each Fading and zeroed at each Reset |
| `SketchRuns.TotalIsExact` | eviction/internal/heavykeeper/heavykeeper.go:136-216 | `total` is exactly that sum as long as it never reached 2^64 |
| `SketchRuns.RowsWithinStoredTotal` | eviction/internal/heavykeeper/heavykeeper.go:99-216 | so each row sums to at most the stored `total`, provided that never overflowed |
| `SketchRuns.AddOneBucket` | eviction/internal/heavykeeper/heavykeeper.go:99-135 | after every run, what an addition of one does to each bucket of each row, by its holder and its draw |
| `SketchRuns.AddTotal` | eviction/internal/heavykeeper/heavykeeper.go:136 | an addition counts into the total modulo 2^64 |
| `SketchRuns.AddReports` | eviction/internal/heavykeeper/heavykeeper.go:137-157 | the expelled key an addition reports is the one key that leaves the hot set |
| `SketchRuns.RemoveForgets` | eviction/internal/heavykeeper/heavykeeper.go:79-83 | removal takes exactly its key out of the hot set, and touches no bucket and no total |
| `SketchRuns.ResetEmpties` | eviction/internal/heavykeeper/heavykeeper.go:203-216 | a reset leaves no heat, no count and no total |
| `SketchRuns.OwnBucketIsExact` | eviction/internal/heavykeeper/heavykeeper.go:99-135 | a bucket no other key of the run shares counts its key exactly, for all draws |
| `SketchRuns.EstimateIsExact` | eviction/internal/heavykeeper/heavykeeper.go:93-136 | with its own fingerprint and one unshared bucket, a key's estimate is its true count |
| `SketchRuns.HotCountsPositive` | eviction/internal/heavykeeper/heavykeeper.go:137-195 | with a positive minimum count no hot-set record is ever zero |
| `SketchRuns.HotCountTracks` | eviction/internal/heavykeeper/heavykeeper.go:93-195 | for every minimum count, every run and all draws, a hot key with its own fingerprint and one unshared bucket is never above its true count, and equals it once that reaches the minimum |
| `SketchRuns.HotCountIsExact` | eviction/internal/heavykeeper/heavykeeper.go:93-195 | exactness: with a minimum count of at most two such a key has exactly its true count whenever it is in the hot set, for every run and all draws |
| `SketchRuns.LargerMinimumIsStale` | eviction/internal/heavykeeper/heavykeeper.go:137-148 | for every sketch with a larger minimum count, a run of one key leaves it one below its true count |
| `SketchRuns.OkIsNotMembership` | eviction/internal/heavykeeper/heavykeeper.go:137-157 | after every run, exactly when `add` returns true without the key being in the hot set: a tie of a new key with the least record of a full hot set, or capacity zero |
| `SketchRuns.TieIsReached` | eviction/internal/heavykeeper/heavykeeper.go:137-157 | for every sketch and all draws, the same count added to one separable key more than fits is answered true for the last, which stays out |
| `SketchRuns.TieExists` | eviction/internal/heavykeeper/heavykeeper.go:137-157 | at every capacity below 2^32 - 2 there are such a sketch, run and key |
| `SketchRuns.RestoreGivesBack` | eviction/internal/heavykeeper/heavykeeper.go:218-228 | restoring at most `k` distinct separable items brings back exactly those with a key and a count of at least the minimum, for all draws |
| `SketchRuns.SaveThenRestore` | eviction/internal/heavykeeper/heavykeeper.go:56-65 | restoring the listing of a hot set gives back exactly its records of at least the minimum count, for all draws; so the same hot set if and only if none is below it |
| `SketchRuns.HotSetIsTopK` | eviction/internal/heavykeeper/heavykeeper.go:93-195 | true top-K of the sketch, for every minimum count: in every run of Add, Fading and Reset over separable keys and for all draws, every hot record tracks its true count (and is it, up to a minimum of two), and every key left out with at least the minimum count is at most the least of a full hot set |
| `HeavyKeeper.ErodeLoop` | eviction/internal/heavykeeper/heavykeeper.go:115-133 | the loop computes the decay for all draws, with every table index in range and no count below zero |
| `HeavyKeeper.TouchRow` | eviction/internal/heavykeeper/heavykeeper.go:99-135 | one row: the key's bucket is touched, every other bucket of the table is unchanged |
| `HeavyKeeper.TouchAll` | eviction/internal/heavykeeper/heavykeeper.go:99-135 | all rows are touched and the maximum over the rows is returned |
| `HeavyKeeper.FadeAll` | eviction/internal/heavykeeper/heavykeeper.go:188-192 | every bucket count is halved in place |
| `HeavyKeeper.PromoteKey` | eviction/internal/heavykeeper/heavykeeper.go:137-157 | the heap object follows the promotion rule, including what is expelled and answered |
| `HeavyKeeper.HeavyKeeper.constructor` | eviction/internal/heavykeeper/heavykeeper.go:33-54 | the new object is the empty sketch |
| `HeavyKeeper.HeavyKeeper.Add` | eviction/internal/heavykeeper/heavykeeper.go:87-157 | table, hot set, total and answer become those of the value model |
| `HeavyKeeper.HeavyKeeper.Remove` | eviction/internal/heavykeeper/heavykeeper.go:79-83 | only the hot set forgets the key; buckets and total stay |
| `HeavyKeeper.HeavyKeeper.Fading` | eviction/internal/heavykeeper/heavykeeper.go:185-195 | buckets, hot set and total are halved together |
| `HeavyKeeper.HeavyKeeper.Reset` | eviction/internal/heavykeeper/heavykeeper.go:203-216 | back to the empty sketch with a fresh heap |
| `HeavyKeeper.HeavyKeeper.Restore` | eviction/internal/heavykeeper/heavykeeper.go:218-228 | a reset followed by one addition for each item with a key and a count |
| `HeavyKeeper.HeavyKeeper.List` | eviction/internal/heavykeeper/heavykeeper.go:56-65 | the ranked listing determined by the hot set |
| `Policy.Validate` | eviction/policy.go:34-83 | accepts exactly the policies whose knobs satisfy all ordering constraints, not-a-number and infinities excluded |
| `Policy.FlagIsPressure` | eviction/policy.go:85-90 | over any snapshots the flag is on exactly when some snapshot met a start threshold and every one from it to now left a stop target unmet |
| `Policy.RepeatKeepsFlag` | eviction/policy.go:85-90 | repeating a snapshot never flips the flag |
| `Policy.PercentOf` | eviction/notify.go:513-514 | a percentage times the whole is the hundredfold part; without a whole it is not a number or infinite |
| `Policy.FlagInNumbers` | eviction/policy.go:85-90 | hysteresis on the measured bytes: on exactly when at some reading free space was at most the start share or the cache at its limit, and at every reading since free space was below the stop share or the cache above its target |
| `VictimRuns.HeadKeepsBooks` | eviction/notify.go:484-547 | at every loop head: returned plus remaining bytes are the initial total, action-cache bytes are at least the floor or the initial amount, free space is the value of the refresh made at the victim just before the pending ones (or the initial value with every victim pending), `since` is the bytes of the pending ones, and they are fewer than a batch |
| `VictimRuns.FinalKeepsBooks` | eviction/notify.go:484-547 | the same identities at every end of the cycle, and every old-enough entry passed over is justified |
| `VictimRuns.TurnEnds` | eviction/notify.go:489-546 | each turn as a whole: what is passed over, when a query failure ends the cycle, when it goes on, and when it ends as reached, by age, floor, batch size, free share and cache bytes |
| `VictimRuns.VictimOrder` | eviction/notify.go:489-506 | before a victim, every entry of the minimum age is a victim, failed to delete, or is an action-cache entry whose loss would breach the floor even at the end |
| `VictimRuns.ReachedIsConfirmed` | eviction/notify.go:526-545 | active mode ends as reached only when a query made after the last deletion confirms both targets |
| `VictimRuns.ExhaustionBound` | eviction/notify.go:484-547 | a cycle that runs out with all old and deletable leaves action-cache entries only, in total less than the floor, hence the target, plus any one of them |
| `VictimRuns.ShadowStopsAtShortest` | eviction/notify.go:507-546 | shadow mode stops at the first prefix of its victims that meets both targets, or runs out with none meeting them |
| `VictimRuns.CleanupStartsUnrelieved` | eviction/notify.go:413-428 | behind the pressure check of `cleanup` the empty prefix does not meet both targets |
| `VictimRuns.ShadowPredictsActive` | eviction/notify.go:467-548 | if deletions succeed and the disk reports exactly the freed bytes, active mode deletes the sequence shadow mode selects, with the same total and end, for every batch size |
| `Notify.Rank` | eviction/notify.go:472-482 | a permutation rising in heat, then in modification time, and falling in size among equals |
| `Notify.SumBytes` | eviction/notify.go:550-566 | the total and action-cache bytes of a listing |
| `Notify.HeatTable` | eviction/notify.go:468-471 | the lookup built from the listing is the hot set |
| `Notify.ForgottenExactly` | eviction/notify.go:503 | exactly the victims lose their heat; every other record, bucket and the total stay |
| `VictimRuns.ColdestGoFirst` | eviction/notify.go:472-506 | an entry with less heat than a victim, or as much and older, or as old and larger, was taken too, or is too young, undeletable or protected by the floor |
| `Notify.Settle` | eviction/notify.go:513-545 | batch refresh, stop rule and confirmation follow the turn function |
| `Notify.SweepLoop` | eviction/notify.go:484-548 | the loop returns the bytes, victims and end of the sweep |
| `Notify.ActivityLease.TryExclusive` | eviction/lease.go:22-39 | the lock is held exactly when acquisition is reported; a blocked attempt is not an error |
| `Notify.ActivityLease.Release` | eviction/lease.go:34-38 | the lock is dropped even when unlocking fails, because the file is closed |
| `Notify.Notify.SelectVictims` | eviction/notify.go:467-548 | ranks by the hot set, sweeps, forgets the heat of what was deleted, and clears `evicting` only on a confirmed active stop |
| `Notify.Notify.Cleanup` | eviction/notify.go:400-465 | entries are deleted only behind pressure, readiness, warm-up, active mode, the lock and the recheck; the lease is free on every exit; the flag, the error answer and the projected bytes, of shadow mode too, are determined on every path |
| `WatchRuns.LossIsSticky` | eviction/notify.go:125-150 | a pending loss of coverage stays pending through every step until the watcher is rebuilt |
| `WatchRuns.AddWatchLinks` | eviction/internal/inotify/inotify_linux.go:81-108 | adding a watch keeps kernel watches, both maps and the tree in agreement |
| `WatchRuns.MoveInKeeps` | eviction/notify.go:334-352 | a subtree appearing at any moment stays covered by its announcement, the walk ahead, or an ancestor's announcement |
| `WatchRuns.DetachKeeps` | eviction/notify.go:338-341 | removal or move-out either queues a loss or touches nothing watched |
| `WatchRuns.VisitKeeps` | eviction/notify.go:289-319 | visiting a directory watches it and leaves what is below ahead of the walk |
| `WatchRuns.ScanKeeps` | eviction/notify.go:285-320 | reading a watched directory hands everything below it to its children |
| `WatchRuns.ReadKeeps` | eviction/internal/inotify/inotify_linux.go:172-204 | translating a raw event loses no announcement |
| `WatchRuns.DeliverKeeps` | eviction/notify.go:342-352 | delivering an announcement starts a walk that covers what it announced |
| `WatchRuns.StepKeepsInv` | eviction/notify.go:188-352 | every step of the environment, reader, walk, loop and rebuild keeps the invariant |
| `WatchRuns.RunKeepsInv` | eviction/notify.go:188-352 | in every interleaving, while no loss is pending, each real directory in scope is watched, ahead of the walk, or announced with an ancestor by an undelivered event |
| `WatchRuns.QuietIsComplete` | eviction/notify.go:188-352 | with the walk done and the queues empty every such directory is watched and reports under its own path |
| `WatchCauses.BreakHasCause` | eviction/notify.go:125-150 | a working watcher breaks exactly on a failing walk, an overflow report, a delivered loss, or a walk step at a directory that is gone, and is rebuilt exactly if it served |
| `WatchCauses.DeliveryIsQuiet` | eviction/notify.go:342-376 | any other event is taken and changes nothing, except that a new directory in scope starts a walk |
| `WatchCauses.PhaseOrder` | eviction/notify.go:188-283 | serving follows draining, draining building, and building only a rebuild with everything queued forgotten |
| `WatchCauses.CalmRunsNeverBreak` | eviction/notify.go:116-161 | no rebuild without a cause: in every run in which directories only appear and nothing is lost or fails, the watcher never breaks |
| `WatchCauses.OnlyStoresAreWatched` | eviction/notify.go:322-332 | in every run only the root and directories below `ac` and `cas` are watched |
| `WatchRecovery.WalkStepLessens` | eviction/notify.go:285-320 | every step of every walk, in whatever order children are read, lessens its remaining work |
| `WatchRecovery.StepLessens` | eviction/notify.go:116-161 | in every phase, disturbed rebuilds included, every step of reader, walk, loop and rebuild uses up some of a bounded number of steps left |
| `WatchRecovery.StuckIsAtEnd` | eviction/notify.go:116-161 | the watcher can stop taking steps exactly when it serves with nothing queued and nothing scheduled, or after a reconciliation was given up |
| `WatchRecovery.EveryScheduleRecovers` | eviction/notify.go:188-352 | recovery is inevitable while the directories stand still: from every state that keeps the invariant, in every phase, every order of the watcher's own steps is bounded and stops with each directory in scope watched under its own path, or with the reconciliation given up, which only a doomed rebuild can be |
| `WatchRecovery.DoomedCanGiveUp` | eviction/notify.go:188-283 | the condition is exact: from every rebuild that a loss, or an announced or scheduled directory gone again, is on its way to, some schedule gives up |
| `WatchRecovery.EveryRunRecovers` | eviction/notify.go:93-163 | the same after any run with the environment, overflow and lost watches included |
| `WatchRecovery.CoverageIsRegained` | eviction/notify.go:188-352 | every such schedule can be carried on to an end, from safe states one with complete coverage |
| `Inotify.LittleRoundTrip` | eviction/internal/inotify/inotify_linux.go:174-178 | the header words are decoded as encoded |
| `Inotify.WordIsLittleEndian` | eviction/internal/inotify/inotify_linux.go:174-178 | header words are little-endian |
| `Inotify.TrimPadding` | eviction/internal/inotify/inotify_linux.go:192-197 | a padded name is recovered exactly |
| `Inotify.EventOfRecord` | eviction/internal/inotify/inotify_linux.go:172-204 | a record with a padded name becomes the event of that name in its watched directory, with mask and cookie; an overflow mark or unknown descriptor becomes none |
| `Inotify.EventsInOrder` | eviction/internal/inotify/inotify_linux.go:169-204 | events come in the order of their records |
| `Inotify.OverflowsCounted` | eviction/internal/inotify/inotify_linux.go:179-182 | every overflow mark is reported once |
| `Inotify.OverflowBit` | eviction/internal/inotify/inotify_linux.go:179-182 | the overflow mark is bit 14 of the mask |
| `Inotify.DescriptorIsSigned` | eviction/internal/inotify/inotify_linux.go:188 | descriptors are signed 32-bit numbers |
| `Inotify.NextRecord` | eviction/internal/inotify/inotify_linux.go:169-204 | at a record boundary with a header left, the whole next record is inside the bytes read |
| `Inotify.Watcher.AddWatch` | eviction/internal/inotify/inotify_linux.go:81-108 | both maps after every outcome: closed, known path, kernel refusal, new watch |
| `Inotify.Watcher.ParseRecords` | eviction/internal/inotify/inotify_linux.go:169-204 | decodes any kernel buffer into exactly the events of its records with a known descriptor, and counts its overflow marks |
| `CacheKey.JoinSplit` | diskutil/cache.go:76 | splitting a path and joining it gives it back |
| `CacheKey.SplitJoin` | diskutil/cache.go:76 | joining slash-free elements and splitting gives them back |
| `CacheKey.ResolveOrdinary` | diskutil/cache.go:72-75 | cleaning leaves a path of ordinary elements alone |
| `CacheKey.ResolveRules` | diskutil/cache.go:71-75 | cleaning drops empty elements and dots, and an ordinary element with the `..` behind it; leading `..` stay in relative paths and vanish in rooted ones |
| `CacheKey.CleanIsIdempotent` | diskutil/cache.go:71-75 | cleaning a cleaned path, rooted or relative, changes nothing, so the test `clean == key` is met by every cleaned path |
| `CacheKey.CleaningKeepsPlace` | diskutil/cache.go:102-110 | from every directory a cleaned relative path leads where the original leads, `..` included |
| `CacheKey.AbsPartsLead` | diskutil/cache.go:102-106 | the absolute form of a path has ordinary elements only and is the same whether or not the path was cleaned first |
| `CacheKey.ParseAccepts` | diskutil/cache.go:71-91 | every store, shard and lower-case SHA-256 digest key is accepted with its store |
| `CacheKey.KeySpelling` | diskutil/cache.go:76-91 | a key is the store, the first two digits and the digest, joined by slashes |
| `CacheKey.ParseAcceptsOnly` | diskutil/cache.go:71-100 | nothing else is accepted |
| `CacheKey.KeyForPathInverts` | diskutil/cache.go:102-124 | the path of a valid key leads back to the key and its store |
| `CacheKey.KeyForPathExactly` | diskutil/cache.go:102-117 | a path, absolute or relative, yields a key exactly when the key is valid and the path leads to that key's own path below the root |
| `DiskCache.ConfirmsIsCurrent` | diskutil/delete_linux.go:12-47 | the checks before the unlink hold exactly for a current snapshot below real directories of the recorded root |
| `DiskCache.Cache.GetEntries` | diskutil/cache.go:147-186 | the walk of both stores lists exactly the current entries below real directories, each once |
| `DiskCache.Cache.DeleteSnapshot` | diskutil/delete_linux.go:12-52 | removes exactly the file, exactly when every identity still matches and every system call works; otherwise the disk is unchanged |
| `ManagerRuns.LeaseFreezesDisk` | eviction/notify.go:433-463 | while the exclusive lease is held only the manager's unlink changes the disk |
| `ManagerRuns.UnlinkKeepsOthers` | eviction/notify.go:489-506 | an unlink leaves every other listed snapshot current |
| `ManagerRuns.LiveAfterUnlink` | eviction/notify.go:507-512 | an unlink takes exactly its file's bytes off the listed bytes still on the disk |
| `ManagerRuns.UnlinkKeepsInv` | eviction/notify.go:496-512 | after an unlink the loop's totals are still the bytes really on the disk and the floor holds |
| `ManagerRuns.StepKeepsInv` | eviction/notify.go:93-163 | every step of manager, clients and clock keeps lease, guard, snapshot and ledger invariants |
| `ManagerRuns.RunKeepsInv` | eviction/notify.go:93-163 | so does every run |
| `ManagerRuns.EveryUnlinkIsSafe` | eviction/notify.go:400-465 | in every run a file is unlinked only with shadow off, ready, warm-up elapsed, its minimum age reached, pressure rechecked and the lease held without clients; it is the recorded regular file, and the action-cache floor holds on the disk afterwards |
| `ManagerRuns.SnapshotsStayCurrent` | eviction/notify.go:447-463 | in every run each snapshot listed under the lease and not yet dealt with, from the listing on, is still that file on the disk, and the loop's totals are the bytes really there |
| `ManagerRuns.LeaseIsReleased` | eviction/lease.go:22-39 | outside a deletion cycle the lease is free |
| `ManagerRuns.UndisciplinedWriteIsUnlinked` | diskutil/delete_linux.go:41-50 | a write that ignores the lease between check and unlink would be unlinked, so the discipline is needed |
| `ManagerGuards.WarmupIsKept` | eviction/notify.go:93-100 | read off actions and clock: after a finished recovery, or a start without a checkpoint, nothing is unlinked by a cleanup that started before the warm-up elapsed |
| `ManagerGuards.EveryRemovalIsSafe` | diskutil/delete_linux.go:12-52 | read off the disk: whatever step of a run changes it is a client's write under the shared lease, or removes one current, old-enough regular file while the manager is active, ready, evicting and alone under the lease |
| `ManagerGuards.ReadyIsEstablished` | eviction/notify.go:188-217 | in every run the manager is ready exactly when its last reconciliation succeeded and no lost watcher or shutdown came after it |
| `ManagerGuards.NowIsStart` | eviction/notify.go:151-154 | the time a cleanup judges by is the clock at its start |
| `ManagerGuards.JudgeExactly` | eviction/notify.go:411-432 | cleanup goes on to the lock exactly behind pressure, readiness, warm-up and active mode |
| `ManagerGuards.LockExactly` | eviction/notify.go:433-440 | and past it exactly when no client holds the lease |
| `ManagerGuards.RejudgeExactly` | eviction/notify.go:447-462 | and sweeps exactly when pressure still holds on the second listing |
| `ManagerGuards.TurnExactly` | eviction/notify.go:489-502 | a turn comes to the unlink exactly for an entry of the minimum age, above the floor, whose identity still matches |
| `ManagerGuards.UnlinkExactly` | diskutil/delete_linux.go:47-50 | the unlink goes through exactly when the system calls work and the name holds no directory; else nothing changes and the entry counts as failed |
| `ManagerGuards.RecoveryExactly` | eviction/notify.go:208-214 | a finished recovery forgets all heat and restarts the warm-up; a restored start does not |
| `ManagerGuards.UnlinkForgets` | eviction/notify.go:503 | an unlink forgets exactly the heat of its key |
| `ManagerCycles.EveryCycleIsSweep` | eviction/notify.go:447-548 | in every run each finished cycle unlinked exactly the victims of the sweep over the answers it met, in order, and ended as that sweep does; together the cycles account for every unlink |
| `ManagerCycles.UnlinksFollowOrder` | eviction/notify.go:489-506 | victim order by position in the ranked listing, on the files really unlinked, in every run |
| `ManagerCycles.ColdestAreUnlinkedFirst` | eviction/notify.go:472-506 | in every run an entry with less heat than an unlinked one, or as much and older, or as old and larger, was unlinked in the same cycle, or is too young, undeletable or protected by the floor |
| `ManagerCycles.ReachedCycleIsConfirmed` | eviction/notify.go:526-545 | in every run a cycle ends as reached only if a query after its last unlink met both targets |
| `ManagerCycles.ExhaustedCycleIsBounded` | eviction/notify.go:484-547 | the exhaustion bound for every cycle of every run |
| `ManagerCycles.EvictingIsPressure` | eviction/policy.go:85-90 | hysteresis in every run of a valid policy: the manager is evicting exactly when some snapshot measured by a check, a recheck or a confirmation met a start threshold and every one since left a target unmet |
| `Checkpoint.Load` | eviction/checkpoint.go:42-50 | accepts exactly records of version one with at most the capacity of items, each a valid key with a positive count |
| `Checkpoint.EventKinds` | eviction/notify.go:338-352 | a rebuild exactly on a change of watch coverage, a walk exactly for a directory created or moved in without one |
| `Checkpoint.EventElsewhere` | eviction/notify.go:354-357 | an event changes the heat only if its path leads to the path of that key below the root |
| `Checkpoint.CountIsTally` | eviction/notify.go:165-398 | over every life of a manager the true count of a key is the tally of its file: one per access or meeting of a path that leads to it, halved by decay, forgotten by recovery, replaced by an accepted checkpoint |
| `Checkpoint.HotCountIsTally` | eviction/notify.go:334-398 | so a separable hot key is ranked by that tally, for all draws: never above it, exactly by it once it reaches the minimum count, and always if the minimum is at most two |
| `Checkpoint.TakenAwayIsForgotten` | eviction/notify.go:359-362 | over every life, a deletion, move-out or eviction takes exactly that key out of the hot set |
| `Checkpoint.RecoveryForgets` | eviction/notify.go:211-214 | a recovery leaves no heat |
| `Checkpoint.OpsOfAreValid` | eviction/notify.go:165-182 | every event, seed and restore counts valid cache keys only |
| `Checkpoint.HotKeysAreValid` | eviction/notify.go:334-398 | so the hot set only ever holds valid keys |
| `Checkpoint.EveryCheckpointIsAccepted` | eviction/notify.go:184-186 | with a policy `Validate` accepts, every checkpoint any life of the manager can write is accepted by its own loader |
| `Checkpoint.RestartKeepsHotSet` | eviction/notify.go:165-182 | for every accepted policy and all draws a restart brings back exactly the saved records whose files exist and whose counts reach the minimum; so the whole hot set if and only if all files exist and no saved count is below the minimum |
| `Checkpoint.LargerMinimumForgets` | eviction/notify.go:165-186 | for every accepted policy with a minimum above one, a key opened until hot and decayed once is saved, accepted and not restored |

## Left out

- main.go, prometheus.go and eviction/observer.go: flags, servers and metrics carry no hard property.
- JSON, fsync, rename and the size limit of checkpoint files: encoding is taken to be faithful.
- Rounding of `float64` percentages; overflow of 64-bit byte totals other than the sketch's `total`.
- murmur3, `math.Pow` and the quality of the random source: parameters, no probabilistic bounds.
- `HeavyKeeper.mu`, `Watcher.Close`, `RemoveWatch` and blocked sends: each public operation is one step.
- Dropped error reports: an overflow mark read from the kernel always reaches the event loop.
- Removal of the cache root itself: the tree in `Watch` always has its root.
- `Heap.Add` with a caller's node: only `Upsert` is used by the sketch.
- MinHeap.Heap.Sorted: returns record values, not copies of nodes; the sorting algorithm is an insertion sort, which uniqueness of the result makes immaterial.
- Notify.Notify.SelectVictims: removes the heat of deleted entries after the loop, not within it; the loop does not read the hot set, so the final state is the same.
- DiskCache.Cache.GetEntries: for a disk that stands still and names without a slash; the order of the walk is left open, and errors of the walk are the failing listings of `Manager`.
- Failing working-directory lookups in `filepath.Abs`: the working directory is a parameter.
- WatchRecovery.EveryScheduleRecovers: a walk that fails although its directory exists, as when the kernel refuses a watch, is a step of the environment there.
- Inotify.Watcher.ParseRecords: for buffers of whole records with name fields of at most PATH_MAX bytes, which is what the kernel fills in; a longer field would panic in Go.
- Timers and channel selection in `Run`: any order of steps is allowed instead.
