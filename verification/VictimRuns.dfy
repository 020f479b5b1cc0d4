/** What every cleanup cycle keeps: its books, the victim order, the exhaustion bound, shadow against active. */
module VictimRuns {
  import opened Wrappers
  import opened Order
  import opened Policy
  import opened Victims

  /** Strictly increasing positions below `n`. */
  ghost predicate Increasing(vs: seq<nat>, n: nat) {
    && (forall k :: 0 <= k < |vs| ==> vs[k] < n)
    && (forall j, k :: 0 <= j < k < |vs| ==> vs[j] < vs[k])
  }

  ghost function SizeOf(entries: seq<Entry>, vs: seq<nat>): nat
    requires forall k :: 0 <= k < |vs| ==> vs[k] < |entries|
  {
    if vs == [] then 0 else SizeOf(entries, vs[..|vs| - 1]) + entries[vs[|vs| - 1]].size
  }

  ghost function ActionSizeOf(entries: seq<Entry>, vs: seq<nat>): nat
    requires forall k :: 0 <= k < |vs| ==> vs[k] < |entries|
  {
    if vs == [] then 0
    else
      var e := entries[vs[|vs| - 1]];
      ActionSizeOf(entries, vs[..|vs| - 1]) + if e.kind == ActionCache then e.size else 0
  }

  datatype Input = Input(p: EvictionPolicy, entries: seq<Entry>, now: int, free: int, used: int, a: Answers, active: bool)

  /** The loop variables at the head of turn `i`, if the loop gets there. */
  ghost function Head(x: Input, i: nat): Option<Cycle>
    requires i <= |x.entries|
  {
    if i == 0 then Some(Start(x.entries, x.free, x.used))
    else
      match Head(x, i - 1)
      case None => None
      case Some(c) =>
        var t := Turned(x, i - 1, c);
        if t.Continue? then Some(t.cycle) else None
  }

  ghost function Final(x: Input): Turn {
    Sweep(x.p, x.entries, x.now, x.free, x.used, x.a, x.active)
  }

  /** The victims since the last usage refresh; in shadow mode there is none. */
  ghost function Unchecked(x: Input, c: Cycle): seq<nat>
    requires c.pending <= |c.victims|
  {
    if x.active then c.victims[|c.victims| - c.pending..] else c.victims
  }

  /**
   * The accounting identities of the loop, after the first `i` entries. The last refresh was made at
   * the victim just before the unchecked ones, or there was none and every victim is unchecked.
   */
  ghost predicate Books(x: Input, i: nat, c: Cycle)
    requires i <= |x.entries|
  {
    && Increasing(c.victims, i)
    && c.projected == SizeOf(x.entries, c.victims)
    && c.projected + c.cacheBytes == TotalBytes(x.entries)
    && c.actionBytes == ActionBytes(x.entries) - ActionSizeOf(x.entries, c.victims)
    && c.actionBytes >= Min(ActionBytes(x.entries), x.p.minActionCacheBytes)
    && c.pending <= |c.victims| && (!x.active ==> c.pending == 0)
    && c.since == SizeOf(x.entries, Unchecked(x, c))
    && (match c.refreshedAt
        case None => c.free == x.free && c.used == x.used && (x.active ==> c.pending == |c.victims|)
        case Some(j) =>
          && x.active && c.pending < |c.victims| && c.victims[|c.victims| - 1 - c.pending] == j
          && x.a.refresh(j).Some?
          && c.free == x.a.refresh(j).value.free && c.used == x.a.refresh(j).value.used)
  }

  /** Every old-enough entry passed over either failed to delete or would still break the floor. */
  ghost predicate Justified(x: Input, i: nat, c: Cycle)
    requires i <= |x.entries|
  {
    forall j :: 0 <= j < i && j !in c.victims && OldEnough(x.p, x.entries[j], x.now) ==>
      (x.active && !x.a.deletes(j)) || BreaksFloor(x.p, x.entries[j], c.actionBytes)
  }

  lemma SizeOfOneMore(entries: seq<Entry>, vs: seq<nat>, i: nat)
    requires i < |entries| && forall k :: 0 <= k < |vs| ==> vs[k] < |entries|
    ensures SizeOf(entries, vs + [i]) == SizeOf(entries, vs) + entries[i].size
    ensures ActionSizeOf(entries, vs + [i])
            == ActionSizeOf(entries, vs) + if entries[i].kind == ActionCache then entries[i].size else 0
  {
    assert (vs + [i])[..|vs|] == vs;
  }

  lemma TakeKeepsBooks(x: Input, i: nat, c: Cycle)
    requires i < |x.entries| && Books(x, i, c) && !BreaksFloor(x.p, x.entries[i], c.actionBytes)
    ensures Books(x, i + 1, Take(c, x.entries[i], i, x.active))
  {
    hide SizeOf, ActionSizeOf, TotalBytes, ActionBytes;
    SizeOfOneMore(x.entries, c.victims, i);
    SizeOfOneMore(x.entries, Unchecked(x, c), i);
    var t := Take(c, x.entries[i], i, x.active);
    assert Unchecked(x, t) == Unchecked(x, c) + [i];
  }

  lemma RefreshKeepsBooks(x: Input, i: nat, c: Cycle)
    requires i < |x.entries| && Books(x, i + 1, c) && x.active && x.a.refresh(i).Some?
    requires c.pending > 0 && c.victims[|c.victims| - 1] == i
    ensures Books(x, i + 1, Refreshed(c, x.a.refresh(i).value, i))
  {
  }

  /** The entry is taken in this turn. */
  ghost predicate Takes(x: Input, i: nat, c: Cycle)
    requires i < |x.entries|
  {
    OldEnough(x.p, x.entries[i], x.now) && !BreaksFloor(x.p, x.entries[i], c.actionBytes) && (x.active ==> x.a.deletes(i))
  }

  ghost function Turned(x: Input, i: nat, c: Cycle): Turn
    requires i < |x.entries|
  {
    OneTurn(x.p, x.entries, x.now, x.a, x.active, i, c)
  }

  /** The loop variables after a usage refresh at entry `i`. */
  ghost function Refreshed(c: Cycle, u: Usage, i: nat): Cycle {
    c.(free := u.free, used := u.used, since := 0, pending := 0, refreshedAt := Some(i))
  }

  /** A turn either leaves everything alone, or takes the entry and at most refreshes the usage. */
  lemma TurnCases(x: Input, i: nat, c: Cycle)
    requires i < |x.entries|
    ensures var t := Turned(x, i, c);
            var taken := Take(c, x.entries[i], i, x.active);
            if !Takes(x, i, c) then t == Continue(c)
            else if x.active && taken.pending >= x.p.cleanupBatchSize && x.a.refresh(i).Some? then
              t.cycle == Refreshed(taken, x.a.refresh(i).value, i)
            else t.cycle == taken && (t.Continue? && x.active ==> taken.pending < x.p.cleanupBatchSize)
    ensures Turned(x, i, c).Stop? ==> Turned(x, i, c).why != Exhausted
  {
  }

  /** Both stop targets are met. */
  ghost predicate MeetsTargets(p: EvictionPolicy, percent: Float, cacheBytes: int) {
    !FloatLess(percent, p.evictUntilPercentBlocksFree) && cacheBytes <= p.targetCacheBytes
  }

  /**
   * One turn of the loop as a whole. An entry too young, floor-protected or failing to delete changes
   * nothing. Otherwise a failing refresh of a full batch ends the cycle; short of both targets, by the
   * refreshed or else the simulated free space, it goes on; in shadow mode it then ends as reached; in
   * active mode the confirmation decides, and a failing one ends the cycle as failed.
   */
  lemma TurnEnds(x: Input, i: nat, c: Cycle)
    requires i < |x.entries|
    ensures var t, e, p := Turned(x, i, c), x.entries[i], x.p;
            var refresh, confirm := x.a.refresh(i), x.a.confirm(i);
            var due, cacheBytes := x.active && c.pending + 1 >= p.cleanupBatchSize, c.cacheBytes - e.size;
            var simulated := Percent(c.free + c.since + e.size, c.free + c.used);
            if || e.modTime > x.now - p.minimumResidence
               || (e.kind == ActionCache && c.actionBytes - e.size < p.minActionCacheBytes)
               || (x.active && !x.a.deletes(i)) then t == Continue(c)
            else if due && refresh.None? then t.Stop? && t.why == QueryFailed
            else if !MeetsTargets(p, if due then refresh.value.percent else simulated, cacheBytes) then t.Continue?
            else if !x.active then t.Stop? && t.why == Reached
            else if confirm.None? then t.Stop? && t.why == QueryFailed
            else if MeetsTargets(p, confirm.value.percent, cacheBytes) then t.Stop? && t.why == Reached
            else t.Continue?
  {
  }

  lemma SkipKeepsBooks(x: Input, i: nat, c: Cycle)
    requires i < |x.entries| && Books(x, i, c)
    ensures Books(x, i + 1, c)
  {
    hide SizeOf, ActionSizeOf, TotalBytes, ActionBytes;
  }

  lemma TurnKeepsBooks(x: Input, i: nat, c: Cycle)
    requires i < |x.entries| && Books(x, i, c)
    ensures Books(x, i + 1, Turned(x, i, c).cycle)
  {
    hide Books, OneTurn;
    TurnCases(x, i, c);
    if Takes(x, i, c) {
      TakeKeepsBooks(x, i, c);
      var taken := Take(c, x.entries[i], i, x.active);
      if x.active && taken.pending >= x.p.cleanupBatchSize && x.a.refresh(i).Some? {
        RefreshKeepsBooks(x, i, taken);
      }
    } else {
      SkipKeepsBooks(x, i, c);
    }
  }

  lemma TurnJustifies(x: Input, i: nat, c: Cycle)
    requires i < |x.entries| && Justified(x, i, c)
    ensures Justified(x, i + 1, Turned(x, i, c).cycle)
  {
    TurnCases(x, i, c);
    if Takes(x, i, c) {
      var next := Turned(x, i, c).cycle;
      assert next.victims == c.victims + [i] && next.actionBytes <= c.actionBytes;
      assert forall j :: j in c.victims ==> j in next.victims;
      assert i == next.victims[|c.victims|];
    }
  }

  /** What holds at the head of a turn. */
  ghost predicate Balanced(x: Input, i: nat, c: Cycle)
    requires i <= |x.entries|
  {
    Books(x, i, c) && Justified(x, i, c) && c.pending < x.p.cleanupBatchSize
  }

  lemma StartIsBalanced(x: Input)
    requires x.p.cleanupBatchSize > 0
    ensures Balanced(x, 0, Start(x.entries, x.free, x.used))
  {
    assert Unchecked(x, Start(x.entries, x.free, x.used)) == [];
  }

  lemma TurnKeepsBalance(x: Input, i: nat, c: Cycle)
    requires i < |x.entries| && Balanced(x, i, c) && Turned(x, i, c).Continue? && x.p.cleanupBatchSize > 0
    ensures Balanced(x, i + 1, Turned(x, i, c).cycle)
  {
    TurnKeepsBooks(x, i, c);
    TurnJustifies(x, i, c);
    TurnCases(x, i, c);
  }

  /** Loop accounting: at the head of every turn the books balance and fewer than a batch is pending. */
  lemma {:induction false} HeadKeepsBooks(x: Input, i: nat)
    requires i <= |x.entries| && Head(x, i).Some? && x.p.cleanupBatchSize > 0
    ensures Balanced(x, i, Head(x, i).value)
  {
    if i == 0 {
      StartIsBalanced(x);
    } else {
      HeadKeepsBooks(x, i - 1);
      TurnKeepsBalance(x, i - 1, Head(x, i - 1).value);
    }
  }

  /** The cycle ends at the head of a turn that runs out of entries, or in a turn that stops. */
  ghost predicate EndsAt(x: Input, i: nat) {
    && i <= |x.entries| && Head(x, i).Some?
    && var c := Head(x, i).value;
       if i == |x.entries| then Final(x) == Stop(c, Exhausted)
       else Turned(x, i, c) == Final(x)
  }

  lemma {:induction false} FinalFrom(x: Input, i: nat) returns (n: nat)
    requires i <= |x.entries| && Head(x, i).Some?
    requires Final(x) == Select(x.p, x.entries, x.now, x.a, x.active, i, Head(x, i).value)
    ensures EndsAt(x, n)
    decreases |x.entries| - i
  {
    if i == |x.entries| || Turned(x, i, Head(x, i).value).Stop? {
      n := i;
    } else {
      n := FinalFrom(x, i + 1);
    }
  }

  /** At the end of every cycle the books balance and everything passed over is justified. */
  lemma FinalKeepsBooks(x: Input) returns (n: nat)
    requires x.p.cleanupBatchSize > 0
    ensures n <= |x.entries| && Books(x, n, Final(x).cycle) && Justified(x, n, Final(x).cycle)
    ensures Final(x).why == Exhausted ==> n == |x.entries|
  {
    hide Books, Justified, OneTurn;
    var m := FinalFrom(x, 0);
    HeadKeepsBooks(x, m);
    if m == |x.entries| {
      n := m;
    } else {
      TurnKeepsBooks(x, m, Head(x, m).value);
      TurnJustifies(x, m, Head(x, m).value);
      TurnCases(x, m, Head(x, m).value);
      n := m + 1;
    }
  }

  /**
   * Victim order: when an entry is chosen, every old-enough entry ranked before it was chosen too,
   * or its deletion failed, or removing it would breach the action-cache floor even at the end.
   */
  lemma VictimOrder(x: Input, v: nat, j: nat)
    requires x.p.cleanupBatchSize > 0
    requires v in Final(x).cycle.victims && j < v
    ensures v < |x.entries|
    ensures var e := x.entries[j];
            e.modTime <= x.now - x.p.minimumResidence && j !in Final(x).cycle.victims ==>
              || (x.active && !x.a.deletes(j))
              || (e.kind == ActionCache && Final(x).cycle.actionBytes - e.size < x.p.minActionCacheBytes)
  {
    var n := FinalKeepsBooks(x);
  }

  /** A ranked list rises in heat, then in modification time, and falls in size among equals. */
  lemma RankedRises(heat: map<string, uint32>, s: seq<Entry>, i: nat, j: nat)
    requires Ranked(heat, s) && i < j < |s|
    ensures var hi := if s[i].key in heat then heat[s[i].key] else 0;
            var hj := if s[j].key in heat then heat[s[j].key] else 0;
            && hi <= hj && (hi == hj ==> s[i].modTime <= s[j].modTime)
            && (hi == hj && s[i].modTime == s[j].modTime ==> s[i].size >= s[j].size)
  {
  }

  /**
   * The coldest go first: an entry with less heat than a victim, or as much and older, or as old and
   * larger, was a victim too, or is too young, or could not be deleted, or is an action-cache entry
   * the floor still protects at the end.
   */
  lemma ColdestGoFirst(x: Input, heat: map<string, uint32>, v: nat, j: nat)
    requires x.p.cleanupBatchSize > 0 && Ranked(heat, x.entries)
    requires v in Final(x).cycle.victims && v < |x.entries| && j < |x.entries|
    requires var e, f := x.entries[j], x.entries[v];
             var he := if e.key in heat then heat[e.key] else 0;
             var hf := if f.key in heat then heat[f.key] else 0;
             || he < hf || (he == hf && e.modTime < f.modTime)
             || (he == hf && e.modTime == f.modTime && e.size > f.size)
    ensures var e := x.entries[j];
            || j in Final(x).cycle.victims
            || e.modTime > x.now - x.p.minimumResidence
            || (x.active && !x.a.deletes(j))
            || (e.kind == ActionCache && Final(x).cycle.actionBytes - e.size < x.p.minActionCacheBytes)
  {
    if v < j {
      RankedRises(heat, x.entries, v, j);
    }
    assert j < v;
    VictimOrder(x, v, j);
  }

  /**
   * Active mode reports its targets reached, the only end that clears `evicting`, just when a usage
   * query made after the last deletion confirms both targets.
   */
  lemma ReachedIsConfirmed(x: Input) returns (i: nat)
    requires x.active && Final(x).why == Reached
    ensures var c := Final(x).cycle;
            && c.victims != [] && c.victims[|c.victims| - 1] == i && i < |x.entries|
            && x.a.confirm(i).Some? && !Unmet(x.p, Snapshot(x.a.confirm(i).value.percent, c.cacheBytes))
  {
    i := FinalFrom(x, 0);
    TurnCases(x, i, Head(x, i).value);
  }

  // ----- exhaustion -----

  /** With every content entry gone, the bytes left are action-cache bytes. */
  lemma {:induction false} OnlyActionsLeft(entries: seq<Entry>, n: nat, vs: seq<nat>)
    requires n <= |entries| && Increasing(vs, n)
    requires forall j :: 0 <= j < n && j !in vs ==> entries[j].kind == ActionCache
    ensures TotalBytes(entries[..n]) - SizeOf(entries, vs) == ActionBytes(entries[..n]) - ActionSizeOf(entries, vs)
  {
    if n > 0 {
      var m := n - 1;
      assert entries[..n][..m] == entries[..m];
      if vs != [] && vs[|vs| - 1] == m {
        var front := vs[..|vs| - 1];
        forall j | 0 <= j < m && j !in front
          ensures entries[j].kind == ActionCache
        {
          assert j !in vs;
        }
        OnlyActionsLeft(entries, m, front);
      } else {
        assert m !in vs;
        OnlyActionsLeft(entries, m, vs);
      }
    }
  }

  /**
   * Exhaustion bound: a cycle that runs out with all entries old enough and every deletion
   * succeeding leaves action-cache entries only, and less than the floor plus any one of them.
   */
  lemma ExhaustionBound(x: Input, j: nat)
    requires Valid(x.p) && Final(x).why == Exhausted && j < |x.entries| && j !in Final(x).cycle.victims
    requires forall k :: 0 <= k < |x.entries| ==> OldEnough(x.p, x.entries[k], x.now) && (x.active ==> x.a.deletes(k))
    ensures x.entries[j].kind == ActionCache
    ensures Final(x).cycle.cacheBytes < x.p.minActionCacheBytes + x.entries[j].size
    ensures Final(x).cycle.cacheBytes < x.p.targetCacheBytes + x.entries[j].size
  {
    var n := FinalKeepsBooks(x);
    var c := Final(x).cycle;
    assert x.entries[..n] == x.entries;
    OnlyActionsLeft(x.entries, n, c.victims);
  }

  // ----- shadow mode -----

  /** With these victims gone both stop targets are met. */
  ghost predicate Relieved(x: Input, vs: seq<nat>)
    requires forall k :: 0 <= k < |vs| ==> vs[k] < |x.entries|
  {
    var size := SizeOf(x.entries, vs);
    !Unmet(x.p, Snapshot(Percent(x.free + size, x.free + x.used), TotalBytes(x.entries) - size))
  }

  /** No non-empty prefix of the victims meets both targets. */
  ghost predicate NotYetRelieved(x: Input, vs: seq<nat>)
    requires forall k :: 0 <= k < |vs| ==> vs[k] < |x.entries|
  {
    forall n :: 0 < n <= |vs| ==> !Relieved(x, vs[..n])
  }

  lemma OneMoreNotRelieved(x: Input, vs: seq<nat>, i: nat)
    requires i < |x.entries| && forall k :: 0 <= k < |vs| ==> vs[k] < |x.entries|
    requires NotYetRelieved(x, vs) && !Relieved(x, vs + [i])
    ensures NotYetRelieved(x, vs + [i])
  {
    var all := vs + [i];
    forall n | 0 < n <= |all|
      ensures !Relieved(x, all[..n])
    {
      assert all[..n] == if n == |all| then all else vs[..n];
    }
  }

  /** What holds in shadow mode at the head of a turn. */
  ghost predicate Shadowing(x: Input, i: nat, c: Cycle)
    requires i <= |x.entries|
  {
    Books(x, i, c) && c.refreshedAt.None? && NotYetRelieved(x, c.victims)
  }

  /** In shadow mode a turn that takes its entry stops exactly when both targets are then met. */
  lemma ShadowJudges(x: Input, i: nat, c: Cycle)
    requires i < |x.entries| && !x.active && Books(x, i, c) && c.refreshedAt.None? && Takes(x, i, c)
    ensures var t, vs := Turned(x, i, c), c.victims + [i];
            && t.cycle == Take(c, x.entries[i], i, false) && t.cycle.victims == vs
            && t == if Relieved(x, vs) then Stop(t.cycle, Reached) else Continue(t.cycle)
  {
    SizeOfOneMore(x.entries, c.victims, i);
  }

  lemma ShadowTurn(x: Input, i: nat, c: Cycle)
    requires i < |x.entries| && !x.active && Shadowing(x, i, c)
    ensures var t := Turned(x, i, c);
            && (t.Continue? ==> Shadowing(x, i + 1, t.cycle))
            && (t.Stop? ==> t.why == Reached && t.cycle.victims == c.victims + [i] && Relieved(x, t.cycle.victims))
  {
    if Takes(x, i, c) {
      ShadowJudges(x, i, c);
      TakeKeepsBooks(x, i, c);
      if !Relieved(x, c.victims + [i]) {
        OneMoreNotRelieved(x, c.victims, i);
      }
    } else {
      TurnCases(x, i, c);
    }
  }

  lemma ShadowStart(x: Input)
    requires x.p.cleanupBatchSize > 0
    ensures Shadowing(x, 0, Start(x.entries, x.free, x.used))
  {
    hide Books;
    StartIsBalanced(x);
  }

  lemma {:induction false} ShadowHead(x: Input, i: nat)
    requires i <= |x.entries| && !x.active && Head(x, i).Some? && x.p.cleanupBatchSize > 0
    ensures Shadowing(x, i, Head(x, i).value)
  {
    hide Books, NotYetRelieved, OneTurn;
    if i == 0 {
      ShadowStart(x);
    } else {
      ShadowHead(x, i - 1);
      ShadowTurn(x, i - 1, Head(x, i - 1).value);
    }
  }

  /** No proper non-empty prefix of the victims meets both targets. */
  ghost predicate NoShorterRelief(x: Input, vs: seq<nat>)
    requires forall k :: 0 <= k < |vs| ==> vs[k] < |x.entries|
  {
    forall n :: 0 < n < |vs| ==> !Relieved(x, vs[..n])
  }

  lemma LastOneRelieves(x: Input, vs: seq<nat>, i: nat)
    requires i < |x.entries| && (forall k :: 0 <= k < |vs| ==> vs[k] < |x.entries|) && NotYetRelieved(x, vs)
    ensures NoShorterRelief(x, vs + [i])
  {
    forall n | 0 < n < |vs + [i]|
      ensures !Relieved(x, (vs + [i])[..n])
    {
      assert (vs + [i])[..n] == vs[..n];
    }
  }

  /**
   * Shadow mode stops at the first taken entry whose loss meets both targets: if it stops there it
   * does meet them and no shorter non-empty prefix does; if it runs out no prefix does.
   */
  lemma ShadowStopsAtShortest(x: Input)
    requires !x.active && x.p.cleanupBatchSize > 0
    ensures var vs := Final(x).cycle.victims;
            && Increasing(vs, |x.entries|)
            && (Final(x).why == Reached ==> vs != [] && Relieved(x, vs) && NoShorterRelief(x, vs))
            && (Final(x).why != Reached ==> Final(x).why == Exhausted && NotYetRelieved(x, vs))
  {
    var m := FinalFrom(x, 0);
    ShadowHead(x, m);
    if m < |x.entries| {
      var c := Head(x, m).value;
      ShadowTurn(x, m, c);
      LastOneRelieves(x, c.victims, m);
    }
  }

  /**
   * Called behind the pressure check of `cleanup`, whichever side of the hysteresis raised it, a
   * sweep starts with a target unmet, so the shortest relieving prefix is never the empty one.
   */
  lemma CleanupStartsUnrelieved(x: Input, was: bool, usage: Usage)
    requires Valid(x.p) && usage.free == x.free && usage.used == x.used && usage.percent == Percent(x.free, x.free + x.used)
    requires NextEvicting(x.p, was, Snapshot(usage.percent, TotalBytes(x.entries)))
    ensures !Relieved(x, [])
  {
    if !was {
      StartIsUnmet(x.p, Snapshot(usage.percent, TotalBytes(x.entries)));
    }
  }

  // ----- shadow against active -----

  /** The loop would take entry `i` with this many action-cache bytes left, were no deletion to fail. */
  ghost predicate Eligible(x: Input, i: nat, actionBytes: int)
    requires i < |x.entries|
  {
    OldEnough(x.p, x.entries[i], x.now) && !BreaksFloor(x.p, x.entries[i], actionBytes)
  }

  /** The action-cache bytes left when the first `n` entries were swept without a stop. */
  ghost function ActionsLeft(x: Input, n: nat): int
    requires n <= |x.entries|
  {
    if n == 0 then ActionBytes(x.entries)
    else
      var before := ActionsLeft(x, n - 1);
      if Eligible(x, n - 1, before) && x.entries[n - 1].kind == ActionCache then before - x.entries[n - 1].size else before
  }

  /** The bytes deleted by then. */
  ghost function Freed(x: Input, n: nat): nat
    requires n <= |x.entries|
  {
    if n == 0 then 0
    else Freed(x, n - 1) + if Eligible(x, n - 1, ActionsLeft(x, n - 1)) then x.entries[n - 1].size else 0
  }

  /** A disk of constant size that has exactly the deleted bytes more free. */
  ghost function Report(x: Input, n: nat): Usage
    requires n <= |x.entries|
  {
    Usage(Percent(x.free + Freed(x, n), x.free + x.used), x.free + Freed(x, n), x.used - Freed(x, n))
  }

  /** Every deletion succeeds and every usage query reports the bytes deleted so far. */
  ghost predicate Honest(x: Input) {
    forall i :: 0 <= i < |x.entries| ==>
      x.a.deletes(i) && x.a.refresh(i) == Some(Report(x, i + 1)) && x.a.confirm(i) == Some(Report(x, i + 1))
  }

  ghost function Shadowed(x: Input): Input {
    x.(active := false)
  }

  /** The two modes have chosen the same entries and see the same free space. */
  ghost predicate Twins(x: Input, i: nat, c: Cycle, s: Cycle)
    requires i <= |x.entries|
  {
    && c.victims == s.victims && c.projected == s.projected == Freed(x, i)
    && c.cacheBytes == s.cacheBytes && c.actionBytes == s.actionBytes == ActionsLeft(x, i)
    && c.free + c.since == x.free + c.projected && c.free + c.used == x.free + x.used
    && s.free == x.free && s.used == x.used && s.since == s.projected
  }

  /** Both modes judge the same simulated, refreshed or confirmed free space. */
  lemma TwinsJudge(x: Input, i: nat, c: Cycle, s: Cycle)
    requires i < |x.entries| && x.active && Honest(x) && Twins(x, i, c, s) && Eligible(x, i, c.actionBytes)
    ensures var t, u := Turned(x, i, c), Turned(Shadowed(x), i, s);
            && Twins(x, i + 1, t.cycle, u.cycle) && t.Continue? == u.Continue?
            && (t.Stop? ==> t.why == u.why == Reached)
  {
    var taken, shadow := Take(c, x.entries[i], i, true), Take(s, x.entries[i], i, false);
    var r := Report(x, i + 1);
    assert Twins(x, i + 1, taken, shadow);
    assert Simulated(taken) == r.percent && Simulated(shadow) == r.percent;
    assert Twins(x, i + 1, Refreshed(taken, r, i), shadow);
    assert Turned(Shadowed(x), i, s) == Judge(x.p, shadow, r.percent, x.a.confirm(i), false);
    var settled := if taken.pending >= x.p.cleanupBatchSize then Refreshed(taken, r, i) else taken;
    assert Turned(x, i, c) == Judge(x.p, settled, r.percent, Some(r), true);
  }

  lemma TwinsTurn(x: Input, i: nat, c: Cycle, s: Cycle)
    requires i < |x.entries| && x.active && Honest(x) && Twins(x, i, c, s)
    ensures var t, u := Turned(x, i, c), Turned(Shadowed(x), i, s);
            && Twins(x, i + 1, t.cycle, u.cycle) && t.Continue? == u.Continue?
            && (t.Stop? ==> t.why == u.why == Reached)
  {
    if Eligible(x, i, c.actionBytes) {
      TwinsJudge(x, i, c, s);
    }
  }

  lemma {:induction false} TwinsSelect(x: Input, i: nat, c: Cycle, s: Cycle)
    requires i <= |x.entries| && x.active && Honest(x) && Twins(x, i, c, s)
    ensures var t := Select(x.p, x.entries, x.now, x.a, true, i, c);
            var u := Select(x.p, x.entries, x.now, x.a, false, i, s);
            t.cycle.victims == u.cycle.victims && t.cycle.projected == u.cycle.projected && t.why == u.why
    decreases |x.entries| - i
  {
    if i < |x.entries| {
      TwinsTurn(x, i, c, s);
      var t, u := Turned(x, i, c), Turned(Shadowed(x), i, s);
      if t.Continue? {
        TwinsSelect(x, i + 1, t.cycle, u.cycle);
      }
    }
  }

  /**
   * Shadow predicts active: when every deletion succeeds and the disk reports exactly the freed
   * bytes, active mode deletes the very sequence shadow mode selects, for every batch size.
   */
  lemma ShadowPredictsActive(x: Input)
    requires x.active && Honest(x)
    ensures Final(x).cycle.victims == Final(Shadowed(x)).cycle.victims
    ensures Final(x).cycle.projected == Final(Shadowed(x)).cycle.projected
    ensures Final(x).why == Final(Shadowed(x)).why
  {
    var start := Start(x.entries, x.free, x.used);
    TwinsSelect(x, 0, start, start);
  }
}
