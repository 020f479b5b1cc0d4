/** The cleanup side of the manager object: ranking, victim selection and the guarded cleanup cycle. */
module Notify {
  import opened Wrappers
  import opened Order
  import opened TopK
  import opened Policy
  import opened Victims
  import opened Sketch
  import HeavyKeeper
  import VictimRuns

  // ----- ranking -----

  lemma NotBeforeTransitive(heat: map<string, uint32>, a: Entry, b: Entry, c: Entry)
    requires !Before(heat, b, a) && !Before(heat, c, b)
    ensures !Before(heat, c, a)
  {
  }

  /** Inserting `x` where everything after it comes after it keeps the ranking. */
  lemma InsertKeepsRanked(heat: map<string, uint32>, s: seq<Entry>, x: Entry, p: nat)
    requires p <= |s| && Ranked(heat, s) && (p > 0 ==> !Before(heat, x, s[p - 1]))
    requires forall i :: p <= i < |s| ==> !Before(heat, s[i], x)
    ensures Ranked(heat, s[..p] + [x] + s[p..])
  {
    forall i | 0 <= i < p
      ensures !Before(heat, x, s[i])
    {
      if i < p - 1 {
        NotBeforeTransitive(heat, s[i], s[p - 1], x);
      }
    }
    var t := s[..p] + [x] + s[p..];
    forall i, j | 0 <= i < j < |t|
      ensures !Before(heat, t[j], t[i])
    {
      var x := if i < p then s[i] else if i == p then t[p] else s[i - 1];
      var y := if j < p then s[j] else if j == p then t[p] else s[j - 1];
      assert t[i] == x && t[j] == y;
    }
  }

  method InsertEntry(heat: map<string, uint32>, s: seq<Entry>, x: Entry) returns (t: seq<Entry>)
    requires Ranked(heat, s)
    ensures Ranked(heat, t) && multiset(t) == multiset(s) + multiset{x}
  {
    var p := |s|;
    while p > 0 && Before(heat, x, s[p - 1])
      invariant 0 <= p <= |s|
      invariant forall i :: p <= i < |s| ==> !Before(heat, s[i], x)
    {
      p := p - 1;
    }
    InsertKeepsRanked(heat, s, x, p);
    t := s[..p] + [x] + s[p..];
    assert s == s[..p] + s[p..];
  }

  /** `sort.Slice` with that comparison: a ranked permutation. */
  method Rank(heat: map<string, uint32>, entries: seq<Entry>) returns (s: seq<Entry>)
    ensures Ranked(heat, s) && multiset(s) == multiset(entries)
    ensures forall i, j :: 0 <= i < j < |s| ==>
              var hi := if s[i].key in heat then heat[s[i].key] else 0;
              var hj := if s[j].key in heat then heat[s[j].key] else 0;
              && hi <= hj && (hi == hj ==> s[i].modTime <= s[j].modTime)
              && (hi == hj && s[i].modTime == s[j].modTime ==> s[i].size >= s[j].size)
  {
    s := [];
    for i := 0 to |entries|
      invariant Ranked(heat, s) && multiset(s) == multiset(entries[..i])
    {
      s := InsertEntry(heat, s, entries[i]);
      assert entries[..i + 1] == entries[..i] + [entries[i]];
    }
    assert entries[..|entries|] == entries;
  }

  /** `totalBytes` and `bytesByKind` as the loops they are. */
  method SumBytes(entries: seq<Entry>) returns (total: nat, actions: nat)
    ensures total == TotalBytes(entries) && actions == ActionBytes(entries)
  {
    total, actions := 0, 0;
    for i := 0 to |entries|
      invariant total == TotalBytes(entries[..i]) && actions == ActionBytes(entries[..i])
    {
      assert entries[..i + 1][..i] == entries[..i];
      total := total + entries[i].size;
      if entries[i].kind == ActionCache {
        actions := actions + entries[i].size;
      }
    }
    assert entries[..|entries|] == entries;
  }

  /** The heat lookup `selectVictims` builds from the listing: the hot set again. */
  method HeatTable(items: seq<Item>, ghost hot: HeatMap) returns (heat: HeatMap)
    requires IsRanking(items, hot)
    ensures heat == hot
  {
    heat := map[];
    for n := 0 to |items|
      invariant forall k :: k in heat ==> k in hot && heat[k] == hot[k]
      invariant forall i :: 0 <= i < n ==> items[i].key in heat
    {
      heat := heat[items[n].key := items[n].count];
    }
    forall k | k in hot
      ensures k in heat
    {
      assert ItemAt(hot, k) in items;
    }
  }

  /** The sketch after the keys of the first `n` victims were removed from its hot set, in order. */
  ghost function ForgottenFirst(c: Config, s: Sketch, entries: seq<Entry>, vs: seq<nat>, n: nat): (after: Sketch)
    requires WellFormed(c, s) && n <= |vs| && forall k :: 0 <= k < |vs| ==> vs[k] < |entries|
    ensures WellFormed(c, after)
  {
    if n == 0 then s else RemoveFrom(c, ForgottenFirst(c, s, entries, vs, n - 1), entries[vs[n - 1]].key)
  }

  ghost function Forgotten(c: Config, s: Sketch, entries: seq<Entry>, vs: seq<nat>): (after: Sketch)
    requires WellFormed(c, s) && forall k :: 0 <= k < |vs| ==> vs[k] < |entries|
    ensures WellFormed(c, after)
  {
    ForgottenFirst(c, s, entries, vs, |vs|)
  }

  /** None of the first `n` victims has this key. */
  ghost predicate Spared(entries: seq<Entry>, vs: seq<nat>, n: nat, key: string)
    requires n <= |vs| && forall i :: 0 <= i < |vs| ==> vs[i] < |entries|
  {
    forall i :: 0 <= i < n ==> entries[vs[i]].key != key
  }

  lemma RemovedHeat(c: Config, s: Sketch, key: string, k: string)
    requires WellFormed(c, s)
    ensures var after := RemoveFrom(c, s, key);
            && after.rows == s.rows && after.total == s.total
            && (k in after.heat <==> k in s.heat && k != key) && (k in after.heat ==> after.heat[k] == s.heat[k])
  {
  }

  /** Exactly the first `n` victims lose their heat; the buckets and the total stay. */
  lemma {:induction false} ForgottenExactly(c: Config, s: Sketch, entries: seq<Entry>, vs: seq<nat>, n: nat, k: string)
    requires WellFormed(c, s) && n <= |vs| && forall i :: 0 <= i < |vs| ==> vs[i] < |entries|
    ensures var after := ForgottenFirst(c, s, entries, vs, n);
            && after.rows == s.rows && after.total == s.total
            && (k in after.heat <==> k in s.heat && Spared(entries, vs, n, k))
            && (k in after.heat ==> after.heat[k] == s.heat[k])
  {
    hide WellFormed, RemoveFrom;
    if n > 0 {
      ForgottenExactly(c, s, entries, vs, n - 1, k);
      RemovedHeat(c, ForgottenFirst(c, s, entries, vs, n - 1), entries[vs[n - 1]].key, k);
    }
  }

  lemma ForgottenEnds(c: Config, s: Sketch, entries: seq<Entry>, vs: seq<nat>)
    requires WellFormed(c, s) && forall k :: 0 <= k < |vs| ==> vs[k] < |entries|
    ensures ForgottenFirst(c, s, entries, vs, 0) == s
    ensures ForgottenFirst(c, s, entries, vs, |vs|) == Forgotten(c, s, entries, vs)
  {
  }

  // ----- the loop -----

  /**
   * The end of a turn that deleted, or would delete, an entry: a full batch refreshes the usage,
   * and a simulated stop in active mode is confirmed by one more query.
   */
  method Settle(
    policy: EvictionPolicy, ghost taken: Cycle, bytesFree: int, bytesUsed: int, bytesSinceCheck: int,
    deletedSinceCheck: nat, cacheBytes: int, i: nat, a: Answers, active: bool)
    returns (free: int, used: int, since: int, pending: nat, ghost refreshedAt: Option<nat>, end: Option<End>)
    requires taken.free == bytesFree && taken.used == bytesUsed && taken.since == bytesSinceCheck
    requires taken.pending == deletedSinceCheck && taken.cacheBytes == cacheBytes
    ensures var c := taken.(free := free, used := used, since := since, pending := pending, refreshedAt := refreshedAt);
            AfterTake(policy, a, active, i, taken) == if end.Some? then Stop(c, end.value) else Continue(c)
  {
    free, used, since, pending := bytesFree, bytesUsed, bytesSinceCheck, deletedSinceCheck;
    refreshedAt, end := taken.refreshedAt, None;
    var percentFree := Percent(free + since, free + used);
    if active && pending >= policy.cleanupBatchSize {
      if a.refresh(i).None? {
        end := Some(QueryFailed);
        return;
      }
      var u := a.refresh(i).value;
      free, used, percentFree := u.free, u.used, u.percent;
      since, pending, refreshedAt := 0, 0, Some(i);
    }
    if !NextEvicting(policy, true, Snapshot(percentFree, cacheBytes)) {
      if active {
        if a.confirm(i).None? {
          end := Some(QueryFailed);
          return;
        }
        if NextEvicting(policy, true, Snapshot(a.confirm(i).value.percent, cacheBytes)) {
          return;
        }
      }
      end := Some(Reached);
    }
  }

  /** The loop of `selectVictims` over the ranked list computes the sweep of `Victims`. */
  method SweepLoop(
    policy: EvictionPolicy, s: seq<Entry>, now: int, bytesFree: int, bytesUsed: int, a: Answers, active: bool)
    returns (projected: int, victims: seq<nat>, end: End)
    ensures var t := Sweep(policy, s, now, bytesFree, bytesUsed, a, active);
            projected == t.cycle.projected && victims == t.cycle.victims && end == t.why
    ensures forall k :: 0 <= k < |victims| ==> victims[k] < |s|
  {
    hide AfterTake, TotalBytes, ActionBytes;
    var cacheBytes: int, actionCacheBytes: int := SumBytes(s);
    projected, victims := 0, [];
    var free, used := bytesFree, bytesUsed;
    var bytesSinceCheck := 0;
    var deletedSinceCheck: nat := 0;
    ghost var refreshedAt: Option<nat> := None;
    for i := 0 to |s|
      invariant forall k :: 0 <= k < |victims| ==> victims[k] < |s|
      invariant Sweep(policy, s, now, bytesFree, bytesUsed, a, active) == Select(policy, s, now, a, active, i,
          Cycle(free, used, bytesSinceCheck, deletedSinceCheck, cacheBytes, actionCacheBytes, projected, victims, refreshedAt))
    {
      var e := s[i];
      if e.modTime > now - policy.minimumResidence {
        continue;
      }
      if e.kind == ActionCache && actionCacheBytes - e.size < policy.minActionCacheBytes {
        continue;
      }
      if active {
        if !a.deletes(i) {
          continue;
        }
        deletedSinceCheck := deletedSinceCheck + 1;
      }
      victims := victims + [i];
      projected := projected + e.size;
      bytesSinceCheck := bytesSinceCheck + e.size;
      cacheBytes := cacheBytes - e.size;
      if e.kind == ActionCache {
        actionCacheBytes := actionCacheBytes - e.size;
      }
      ghost var taken := Cycle(free, used, bytesSinceCheck, deletedSinceCheck, cacheBytes, actionCacheBytes, projected,
                               victims, refreshedAt);
      var ended;
      free, used, bytesSinceCheck, deletedSinceCheck, refreshedAt, ended :=
        Settle(policy, taken, free, used, bytesSinceCheck, deletedSinceCheck, cacheBytes, i, a, active);
      if ended.Some? {
        return projected, victims, ended.value;
      }
    }
    end := Exhausted;
  }

  // ----- the lease -----

  datatype LockAnswer = Failed | WouldBlock | Locked

  /** The manager's side of the activity lock file. */
  class ActivityLease {
    var held: bool

    constructor ()
      ensures !held
    {
      held := false;
    }

    /** `TryExclusive`: the lock is held exactly when `acquired` is returned. */
    method TryExclusive(answer: LockAnswer) returns (acquired: bool, failed: bool)
      requires !held
      modifies this
      ensures held == acquired == (answer == Locked) && failed == (answer == Failed)
    {
      held := answer == Locked;
      return held, answer == Failed;
    }

    /** The release closure: unlocking may fail, closing the file drops the lock all the same. */
    method Release(unlocked: bool) returns (ok: bool)
      modifies this
      ensures !held && ok == unlocked
    {
      held := false;
      ok := unlocked;
    }
  }

  // ----- the manager -----

  /** What the file system answers during one cleanup. */
  datatype World = World(
    listing: Option<seq<Entry>>, usage: Option<Usage>, lock: LockAnswer,
    relisting: Option<seq<Entry>>, reusage: Option<Usage>, answers: Answers)

  class Notify {
    const policy: EvictionPolicy
    const topk: HeavyKeeper.HeavyKeeper
    const lease: ActivityLease
    var ready: bool
    var warmUntil: int
    var evicting: bool

    constructor (policy: EvictionPolicy, topk: HeavyKeeper.HeavyKeeper, lease: ActivityLease)
      ensures this.policy == policy && this.topk == topk && this.lease == lease && !ready && !evicting
    {
      this.policy, this.topk, this.lease := policy, topk, lease;
      ready, warmUntil, evicting := false, 0, false;
    }

    /** Removes the heat of the next deleted entry. */
    method ForgetOne(s: seq<Entry>, victims: seq<nat>, n: nat, ghost was: Sketch)
      requires topk.Valid() && n < |victims| && forall k :: 0 <= k < |victims| ==> victims[k] < |s|
      requires WellFormed(topk.cfg, was) && topk.Model == ForgottenFirst(topk.cfg, was, s, victims, n)
      modifies topk`Model, topk.minHeap, topk.minHeap.Repr
      ensures topk.Valid() && topk.minHeap.Repr <= old(topk.minHeap.Repr)
      ensures topk.Model == ForgottenFirst(topk.cfg, was, s, victims, n + 1)
    {
      hide HeavyKeeper.HeavyKeeper.Valid;
      topk.Remove(s[victims[n]].key);
    }

    /** Removes the heat of the deleted entries, in order. */
    method ForgetVictims(s: seq<Entry>, victims: seq<nat>)
      requires topk.Valid() && forall k :: 0 <= k < |victims| ==> victims[k] < |s|
      modifies topk`Model, topk.minHeap, topk.minHeap.Repr
      ensures topk.Valid() && topk.Model == Forgotten(topk.cfg, old(topk.Model), s, victims)
    {
      hide *;
      ghost var was := topk.Model;
      topk.ModelIsWellFormed();
      ForgottenEnds(topk.cfg, was, s, victims);
      for n := 0 to |victims|
        invariant topk.Valid() && topk.minHeap.Repr <= old(topk.minHeap.Repr)
        invariant topk.Model == ForgottenFirst(topk.cfg, was, s, victims, n)
      {
        ForgetOne(s, victims, n, was);
      }
    }

    /**
     * `selectVictims`: ranks by the hot set, sweeps, forgets the heat of what it deleted, and
     * clears `evicting` only on a confirmed stop in active mode.
     */
    method SelectVictims(entries: seq<Entry>, now: int, bytesFree: int, bytesUsed: int, a: Answers, active: bool)
      returns (projected: int, ranked: seq<Entry>, victims: seq<nat>)
      requires topk.Valid()
      modifies `evicting, topk`Model, topk.minHeap, topk.minHeap.Repr
      ensures topk.Valid()
      ensures Ranked(old(topk.Model.heat), ranked) && multiset(ranked) == multiset(entries)
      ensures forall k :: 0 <= k < |victims| ==> victims[k] < |ranked|
      ensures var t := Sweep(policy, ranked, now, bytesFree, bytesUsed, a, active);
              && projected == t.cycle.projected && victims == t.cycle.victims
              && evicting == (old(evicting) && !(active && t.why == Reached))
      ensures topk.Model == if active then Forgotten(topk.cfg, old(topk.Model), ranked, victims) else old(topk.Model)
    {
      hide HeavyKeeper.HeavyKeeper.Valid;
      var items := topk.List();
      var heat := HeatTable(items, topk.Model.heat);
      ranked := Rank(heat, entries);
      var end;
      projected, victims, end := SweepLoop(policy, ranked, now, bytesFree, bytesUsed, a, active);
      if active {
        ForgetVictims(ranked, victims);
        if end == Reached {
          evicting := false;
        }
      }
    }

    /** The pressure flag after the first look at the disk. */
    ghost predicate Pressed(was: bool, w: World) {
      w.listing.Some? && w.usage.Some? && NextEvicting(policy, was, Snapshot(w.usage.value.percent, TotalBytes(w.listing.value)))
    }

    /** Pressure, readiness and warm-up allow a cycle, be it shadow or active. */
    ghost predicate Due(was: bool, now: int, w: World)
      reads this
    {
      Pressed(was, w) && ready && now >= warmUntil
    }

    /** Every guard in front of the deletion cycle holds. */
    ghost predicate Armed(was: bool, now: int, w: World)
      reads this
    {
      Due(was, now, w) && !policy.shadow && w.lock == Locked
    }

    /** Pressure still holds on the listing and usage taken under the exclusive lease. */
    ghost predicate Rechecked(w: World) {
      w.relisting.Some? && w.reusage.Some? &&
      NextEvicting(policy, true, Snapshot(w.reusage.value.percent, TotalBytes(w.relisting.value)))
    }

    /**
     * `cleanup`: entries are deleted only behind every guard and the recheck, the lease is released
     * on every exit, and the deleted entries are the victims of the listing taken under the lease.
     * It fails exactly when a listing, a usage query or the lock does; shadow mode projects the bytes
     * of its own sweep and deletes nothing.
     */
    method Cleanup(now: int, w: World) returns (failed: bool, projected: int, ranked: seq<Entry>, victims: seq<nat>)
      requires topk.Valid() && !lease.held
      modifies `evicting, lease, topk`Model, topk.minHeap, topk.minHeap.Repr
      ensures topk.Valid() && !lease.held
      ensures victims != [] ==> Armed(old(evicting), now, w) && Rechecked(w)
      ensures victims != [] ==>
                && !policy.shadow && ready && now >= warmUntil && w.lock == Locked
                && w.listing.Some? && w.usage.Some? && w.relisting.Some? && w.reusage.Some?
                && NextEvicting(policy, old(evicting), Snapshot(w.usage.value.percent, TotalBytes(w.listing.value)))
                && Unmet(policy, Snapshot(w.reusage.value.percent, TotalBytes(w.relisting.value)))
      ensures && w.listing.Some? && w.usage.Some? && w.relisting.Some? && w.reusage.Some?
              && NextEvicting(policy, old(evicting), Snapshot(w.usage.value.percent, TotalBytes(w.listing.value)))
              && !policy.shadow && ready && now >= warmUntil && w.lock == Locked
              && Unmet(policy, Snapshot(w.reusage.value.percent, TotalBytes(w.relisting.value))) ==>
                && !failed && multiset(ranked) == multiset(w.relisting.value)
                && victims
                   == Sweep(policy, ranked, now, w.reusage.value.free, w.reusage.value.used, w.answers, true).cycle.victims
      ensures !(Armed(old(evicting), now, w) && Rechecked(w)) ==> topk.Model == old(topk.Model)
      ensures Armed(old(evicting), now, w) && Rechecked(w) ==>
                && Ranked(old(topk.Model.heat), ranked) && multiset(ranked) == multiset(w.relisting.value)
                && var t := Sweep(policy, ranked, now, w.reusage.value.free, w.reusage.value.used, w.answers, true);
                   && projected == t.cycle.projected && victims == t.cycle.victims && evicting == (t.why != Reached)
                   && (forall k :: 0 <= k < |victims| ==> victims[k] < |ranked|)
                   && topk.Model == Forgotten(topk.cfg, old(topk.Model), ranked, victims)
      ensures && w.listing.Some? && w.usage.Some? && policy.shadow && ready && now >= warmUntil
              && NextEvicting(policy, old(evicting), Snapshot(w.usage.value.percent, TotalBytes(w.listing.value))) ==>
                !failed && multiset(ranked) == multiset(w.listing.value)
      ensures Due(old(evicting), now, w) && policy.shadow ==>
                && Ranked(old(topk.Model.heat), ranked) && multiset(ranked) == multiset(w.listing.value)
                && projected
                   == Sweep(policy, ranked, now, w.usage.value.free, w.usage.value.used, w.answers, false).cycle.projected
      ensures !(Armed(old(evicting), now, w) && Rechecked(w)) && !(Due(old(evicting), now, w) && policy.shadow) ==>
                projected == 0
      ensures failed <==>
                || w.listing.None? || w.usage.None?
                || (Due(old(evicting), now, w) && !policy.shadow && w.lock == Failed)
                || (Armed(old(evicting), now, w) && (w.relisting.None? || w.reusage.None?))
      ensures w.listing.None? || w.usage.None? ==> evicting == old(evicting)
      ensures w.listing.Some? && w.usage.Some? && !Armed(old(evicting), now, w) ==> evicting == Pressed(old(evicting), w)
      ensures Armed(old(evicting), now, w) && !Rechecked(w) ==> evicting == (w.relisting.None? || w.reusage.None?)
    {
      hide HeavyKeeper.HeavyKeeper.Valid;
      failed, projected, ranked, victims := false, 0, [], [];
      if w.listing.None? || w.usage.None? {
        failed := true;
        return;
      }
      var cacheBytes, _ := SumBytes(w.listing.value);
      evicting := NextEvicting(policy, evicting, Snapshot(w.usage.value.percent, cacheBytes));
      if !evicting || !ready || now < warmUntil {
        return;
      }
      if policy.shadow {
        var chosen;
        projected, ranked, chosen :=
          SelectVictims(w.listing.value, now, w.usage.value.free, w.usage.value.used, w.answers, false);
        return;
      }
      var acquired;
      acquired, failed := lease.TryExclusive(w.lock);
      if !acquired {
        return;
      }
      failed, projected, ranked, victims := CleanupLocked(now, w);
      var _ := lease.Release(true);
    }

    /** The part of `cleanup` that runs under the exclusive lease. */
    method CleanupLocked(now: int, w: World) returns (failed: bool, projected: int, ranked: seq<Entry>, victims: seq<nat>)
      requires topk.Valid() && evicting
      modifies `evicting, topk`Model, topk.minHeap, topk.minHeap.Repr
      ensures topk.Valid()
      ensures failed <==> w.relisting.None? || w.reusage.None?
      ensures !Rechecked(w) ==> projected == 0 && victims == [] && topk.Model == old(topk.Model)
      ensures !Rechecked(w) ==> evicting == (w.relisting.None? || w.reusage.None?)
      ensures Rechecked(w) ==>
                && Ranked(old(topk.Model.heat), ranked) && multiset(ranked) == multiset(w.relisting.value)
                && var t := Sweep(policy, ranked, now, w.reusage.value.free, w.reusage.value.used, w.answers, true);
                   && projected == t.cycle.projected && victims == t.cycle.victims && evicting == (t.why != Reached)
                   && (forall k :: 0 <= k < |victims| ==> victims[k] < |ranked|)
                   && topk.Model == Forgotten(topk.cfg, old(topk.Model), ranked, victims)
    {
      hide HeavyKeeper.HeavyKeeper.Valid;
      failed, projected, ranked, victims := false, 0, [], [];
      if w.relisting.None? || w.reusage.None? {
        failed := true;
        return;
      }
      var cacheBytes, _ := SumBytes(w.relisting.value);
      evicting := NextEvicting(policy, evicting, Snapshot(w.reusage.value.percent, cacheBytes));
      if !evicting {
        return;
      }
      projected, ranked, victims :=
        SelectVictims(w.relisting.value, now, w.reusage.value.free, w.reusage.value.used, w.answers, true);
    }
  }
}
