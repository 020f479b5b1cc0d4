/**
 * Victim selection as a function of its inputs: one turn of the loop of `selectVictims` for each
 * ranked entry, with the answers of `Delete` and `getDiskUsage` supplied for every entry.
 */
module Victims {
  import opened Wrappers
  import opened Order
  import opened Policy

  datatype Kind = ActionCache | ContentCAS

  datatype Entry = Entry(key: string, kind: Kind, size: nat, modTime: int, device: nat, inode: nat)

  /** One answer of `getDiskUsage`. */
  datatype Usage = Usage(percent: Float, free: int, used: int)

  /** What the disk answers at each entry: does its deletion succeed, and the two usage queries. */
  datatype Answers = Answers(deletes: nat -> bool, refresh: nat -> Option<Usage>, confirm: nat -> Option<Usage>)

  /** The loop variables, the victims so far, and where the last usage refresh happened. */
  datatype Cycle = Cycle(
    free: int, used: int, since: int, pending: nat,
    cacheBytes: int, actionBytes: int, projected: int,
    victims: seq<nat>, refreshedAt: Option<nat>)

  datatype Turn = Continue(cycle: Cycle) | Stop(cycle: Cycle, why: End)

  datatype End = Exhausted | Reached | QueryFailed

  function HeatOf(heat: map<string, uint32>, e: Entry): uint32 {
    if e.key in heat then heat[e.key] else 0
  }

  /** The comparison of `sort.Slice`: colder, then older, then larger first. */
  predicate Before(heat: map<string, uint32>, a: Entry, b: Entry) {
    if HeatOf(heat, a) != HeatOf(heat, b) then HeatOf(heat, a) < HeatOf(heat, b)
    else if a.modTime != b.modTime then a.modTime < b.modTime
    else a.size > b.size
  }

  ghost predicate Ranked(heat: map<string, uint32>, s: seq<Entry>) {
    forall i, j :: 0 <= i < j < |s| ==> !Before(heat, s[j], s[i])
  }

  predicate OldEnough(p: EvictionPolicy, e: Entry, now: int) {
    e.modTime <= now - p.minimumResidence
  }

  /** Deleting the entry would take the action cache below its floor. */
  predicate BreaksFloor(p: EvictionPolicy, e: Entry, actionBytes: int) {
    e.kind == ActionCache && actionBytes - e.size < p.minActionCacheBytes
  }

  function Simulated(c: Cycle): Float {
    Percent(c.free + c.since, c.free + c.used)
  }

  /** The bookkeeping for an entry that was, or would be, deleted. */
  function Take(c: Cycle, e: Entry, i: nat, active: bool): Cycle {
    c.(projected := c.projected + e.size,
       since := c.since + e.size,
       cacheBytes := c.cacheBytes - e.size,
       actionBytes := if e.kind == ActionCache then c.actionBytes - e.size else c.actionBytes,
       pending := if active then c.pending + 1 else c.pending,
       victims := c.victims + [i])
  }

  /** The stop rule, and in active mode its confirmation by a fresh query. */
  function Judge(p: EvictionPolicy, c: Cycle, percent: Float, confirm: Option<Usage>, active: bool): Turn {
    if NextEvicting(p, true, Snapshot(percent, c.cacheBytes)) then Continue(c)
    else if !active then Stop(c, Reached)
    else if confirm.None? then Stop(c, QueryFailed)
    else if NextEvicting(p, true, Snapshot(confirm.value.percent, c.cacheBytes)) then Continue(c)
    else Stop(c, Reached)
  }

  /** What follows the bookkeeping of a taken entry: a due usage refresh, then the stop rule. */
  function AfterTake(p: EvictionPolicy, a: Answers, active: bool, i: nat, taken: Cycle): Turn {
    if active && taken.pending >= p.cleanupBatchSize then
      if a.refresh(i).None? then Stop(taken, QueryFailed)
      else
        var u := a.refresh(i).value;
        var refreshed := taken.(free := u.free, used := u.used, since := 0, pending := 0, refreshedAt := Some(i));
        Judge(p, refreshed, u.percent, a.confirm(i), active)
    else Judge(p, taken, Simulated(taken), a.confirm(i), active)
  }

  /** One turn of the loop. */
  function OneTurn(p: EvictionPolicy, entries: seq<Entry>, now: int, a: Answers, active: bool, i: nat, c: Cycle): Turn
    requires i < |entries|
  {
    var e := entries[i];
    if !OldEnough(p, e, now) || BreaksFloor(p, e, c.actionBytes) || (active && !a.deletes(i)) then Continue(c)
    else AfterTake(p, a, active, i, Take(c, e, i, active))
  }

  /** The loop from entry `i` on. */
  function Select(p: EvictionPolicy, entries: seq<Entry>, now: int, a: Answers, active: bool, i: nat, c: Cycle): (t: Turn)
    requires i <= |entries|
    ensures t.Stop?
    decreases |entries| - i
  {
    if i == |entries| then Stop(c, Exhausted)
    else
      match OneTurn(p, entries, now, a, active, i, c)
      case Continue(next) => Select(p, entries, now, a, active, i + 1, next)
      case Stop(last, why) => Stop(last, why)
  }

  /** `totalBytes`. */
  function TotalBytes(entries: seq<Entry>): nat {
    if entries == [] then 0 else TotalBytes(entries[..|entries| - 1]) + entries[|entries| - 1].size
  }

  /** `bytesByKind(entries, ActionCache)`. */
  function ActionBytes(entries: seq<Entry>): nat {
    if entries == [] then 0
    else
      var last := entries[|entries| - 1];
      ActionBytes(entries[..|entries| - 1]) + if last.kind == ActionCache then last.size else 0
  }

  function Min(a: int, b: int): int {
    if a < b then a else b
  }

  function Start(entries: seq<Entry>, free: int, used: int): Cycle {
    Cycle(free, used, 0, 0, TotalBytes(entries), ActionBytes(entries), 0, [], None)
  }

  /** The whole cycle of `selectVictims` over a ranked list. */
  function Sweep(p: EvictionPolicy, entries: seq<Entry>, now: int, free: int, used: int, a: Answers, active: bool): (t: Turn)
    ensures t.Stop?
  {
    Select(p, entries, now, a, active, 0, Start(entries, free, used))
  }
}
