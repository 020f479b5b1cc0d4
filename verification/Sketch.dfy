/**
 * The HeavyKeeper sketch on values: what each operation does to the bucket table, the hot set
 * and the running total, and what holds after every run of operations and every random draw.
 */
module Sketch {
  import opened Wrappers
  import opened Order
  import opened TopK

  datatype Bucket = Bucket(fingerprint: uint32, count: uint32)

  const LOOKUP_TABLE := 256
  const UINT32 := 0x1_0000_0000
  const UINT64 := 0x1_0000_0000_0000_0000

  /** The hash functions and the powers of the decay base are parameters: nothing is assumed about them. */
  datatype RawConfig = Config(
    capacity: uint32,
    width: uint32,
    depth: uint32,
    power: nat -> real,
    minCount: uint32,
    fingerprint: string -> uint32,
    hash: (nat, string) -> uint32)

  type Config = c: RawConfig | c.width > 0 witness Config(0, 1, 0, i => 0.0, 0, k => 0, (i, k) => 0)

  /** The random number drawn for a row when `left` increments remain. */
  type Draw = (nat, nat) -> real

  /** The decay probability the lookup table gives for a count. */
  function DecayAt(c: Config, count: uint32): real {
    c.power(if count < LOOKUP_TABLE then count else LOOKUP_TABLE - 1)
  }

  /** The bucket of a key in a row: its hash modulo the width. */
  function Slot(c: Config, row: nat, key: string): (j: nat)
    ensures j < c.width && exists q: nat :: c.hash(row, key) == q * c.width + j
  {
    assert c.hash(row, key) == c.hash(row, key) / c.width * c.width + c.hash(row, key) % c.width;
    c.hash(row, key) % c.width
  }

  // ----- one bucket -----

  /** The decay loop on a bucket another fingerprint holds. */
  function Erode(c: Config, b: Bucket, fp: uint32, left: uint32, row: nat, draw: Draw): Bucket
    requires b.count > 0
    decreases left
  {
    if left == 0 then b
    else if draw(row, left) < DecayAt(c, b.count) then
      if b.count == 1 then Bucket(fp, left)
      else Erode(c, b.(count := b.count - 1), fp, left - 1, row, draw)
    else Erode(c, b, fp, left - 1, row, draw)
  }

  function Touch(c: Config, b: Bucket, fp: uint32, incr: uint32, row: nat, draw: Draw): Bucket {
    if b.count == 0 then Bucket(fp, incr)
    else if b.fingerprint == fp then b.(count := (b.count + incr) % UINT32)
    else Erode(c, b, fp, incr, row, draw)
  }

  /** What the touched bucket of a row contributes to the estimate. */
  function Seen(b: Bucket, fp: uint32): uint32 {
    if b.fingerprint == fp then b.count else 0
  }

  /** The decay loop never empties a bucket: it weakens it, or hands it over with at most `left`. */
  lemma {:induction false} ErodeCases(c: Config, b: Bucket, fp: uint32, left: uint32, row: nat, draw: Draw)
    requires b.count > 0
    ensures var r := Erode(c, b, fp, left, row, draw);
            0 < r.count && ((r.fingerprint == b.fingerprint && r.count <= b.count) || (r.fingerprint == fp && r.count <= left))
    decreases left
  {
    if left > 0 {
      if draw(row, left) < DecayAt(c, b.count) {
        if b.count > 1 {
          ErodeCases(c, b.(count := b.count - 1), fp, left - 1, row, draw);
        }
      } else {
        ErodeCases(c, b, fp, left - 1, row, draw);
      }
    }
  }

  /** The draw with `left` increments remaining falls below the power for the count; the table holds 256. */
  ghost predicate Hits(c: Config, count: nat, row: nat, left: nat, draw: Draw) {
    draw(row, left) < c.power(if count < 256 then count else 255)
  }

  /** The counts a contested bucket goes through: each draw that hits takes one off. */
  ghost predicate Trace(c: Config, counts: seq<nat>, incr: nat, row: nat, draw: Draw) {
    && 0 < |counts| <= incr + 1
    && forall i :: 0 <= i < |counts| - 1 ==>
         && counts[i] > 0
         && counts[i + 1] == counts[i] - if Hits(c, counts[i], row, incr - i, draw) then 1 else 0
  }

  /**
   * The decay loop, for all draws: the holder keeps what its counts come down to, or at the draw that
   * empties the bucket the newcomer takes it over with the increments left at that draw.
   */
  lemma {:induction false} ErodeFollowsTrace(
    c: Config, b: Bucket, fp: uint32, incr: uint32, row: nat, draw: Draw, counts: seq<nat>)
    requires Trace(c, counts, incr, row, draw) && counts[0] == b.count > 0
    requires |counts| == incr + 1 || counts[|counts| - 1] == 0
    ensures var last := counts[|counts| - 1];
            && last <= b.count
            && Erode(c, b, fp, incr, row, draw)
               == if last == 0 then Bucket(fp, incr + 2 - |counts|) else b.(count := last)
    decreases incr
  {
    if incr > 0 && counts[1] > 0 {
      var next := b.(count := counts[1]);
      assert counts[1..][|counts| - 2] == counts[|counts| - 1];
      assert Trace(c, counts[1..], incr - 1, row, draw);
      ErodeFollowsTrace(c, next, fp, incr - 1, row, draw, counts[1..]);
    }
  }

  /** If every draw hits, the holder loses the increment, or all of its count and the bucket. */
  lemma {:induction false} ErodeAllHit(c: Config, b: Bucket, fp: uint32, incr: uint32, row: nat, draw: Draw)
    requires b.count > 0
    requires forall left: nat, count: nat :: 0 < left <= incr && 0 < count <= b.count ==>
               Hits(c, count, row, left, draw)
    ensures Erode(c, b, fp, incr, row, draw)
            == if incr < b.count then b.(count := b.count - incr) else Bucket(fp, incr - b.count + 1)
    decreases incr
  {
    assert incr > 0 ==> Hits(c, b.count, row, incr, draw);
    if incr > 0 && b.count > 1 {
      ErodeAllHit(c, b.(count := b.count - 1), fp, incr - 1, row, draw);
    }
  }

  /** If no draw hits, the bucket stays as it is. */
  lemma {:induction false} ErodeNoHit(c: Config, b: Bucket, fp: uint32, incr: uint32, row: nat, draw: Draw)
    requires b.count > 0
    requires forall left: nat :: 0 < left <= incr ==> !Hits(c, b.count, row, left, draw)
    ensures Erode(c, b, fp, incr, row, draw) == b
    decreases incr
  {
    if incr > 0 {
      assert !Hits(c, b.count, row, incr, draw);
      ErodeNoHit(c, b, fp, incr - 1, row, draw);
    }
  }

  /** One increment: the draw decides between the holder weakened, the bucket handed over, and nothing. */
  lemma ErodeOne(c: Config, b: Bucket, fp: uint32, row: nat, draw: Draw)
    requires b.count > 0
    ensures var limit := c.power(if b.count < 256 then b.count else 255);
            && (draw(row, 1) >= limit ==> Erode(c, b, fp, 1, row, draw) == b)
            && (draw(row, 1) < limit && b.count > 1 ==> Erode(c, b, fp, 1, row, draw) == b.(count := b.count - 1))
            && (draw(row, 1) < limit && b.count == 1 ==> Erode(c, b, fp, 1, row, draw) == Bucket(fp, 1))
  {
    if draw(row, 1) < c.power(if b.count < 256 then b.count else 255) && b.count > 1 {
      var next := b.(count := b.count - 1);
      assert Erode(c, next, fp, 0, row, draw) == next;
    } else {
      assert Erode(c, b, fp, 0, row, draw) == b;
    }
  }

  /** A bucket that is free or its own takes the increment, modulo 2^32. */
  lemma TouchOwn(c: Config, b: Bucket, fp: uint32, incr: uint32, row: nat, draw: Draw)
    requires b.count == 0 || b.fingerprint == fp
    ensures var r, sum := Touch(c, b, fp, incr, row, draw), b.count + incr;
            r.fingerprint == fp && r.count == if sum < 0x1_0000_0000 then sum else sum - 0x1_0000_0000
  {
  }

  /** A touch credits at most `incr` to the bucket, and only to the touching fingerprint. */
  lemma TouchBound(c: Config, b: Bucket, fp: uint32, incr: uint32, row: nat, draw: Draw)
    ensures var r := Touch(c, b, fp, incr, row, draw);
            && r.count <= b.count + incr
            && (r.fingerprint != fp ==> r.fingerprint == b.fingerprint && r.count <= b.count)
            && (r.fingerprint == fp ==> r.count <= Seen(b, fp) + incr)
  {
    if b.count != 0 && b.fingerprint != fp {
      ErodeCases(c, b, fp, incr, row, draw);
    }
  }

  // ----- the state -----

  type Table = seq<seq<Bucket>>

  datatype Sketch = Sketch(rows: Table, heat: HeatMap, total: nat)

  ghost predicate Shaped(c: Config, rows: Table) {
    |rows| == c.depth && forall i :: 0 <= i < |rows| ==> |rows[i]| == c.width
  }

  ghost predicate WellFormed(c: Config, s: Sketch) {
    Shaped(c, s.rows) && |s.heat| <= c.capacity && s.total < UINT64
  }

  ghost function Blank(c: Config): (rows: Table)
    ensures Shaped(c, rows)
    ensures forall i, j :: 0 <= i < c.depth && 0 <= j < c.width ==> rows[i][j] == Bucket(0, 0)
  {
    seq(c.depth, i => seq(c.width, j => Bucket(0, 0)))
  }

  ghost function Empty(c: Config): (s: Sketch)
    ensures WellFormed(c, s)
  {
    Sketch(Blank(c), map[], 0)
  }

  ghost function TouchRows(c: Config, rows: Table, key: string, incr: uint32, draw: Draw): (after: Table)
    requires Shaped(c, rows)
    ensures Shaped(c, after)
    ensures forall i, j :: 0 <= i < c.depth && 0 <= j < c.width ==>
              after[i][j] == if j == Slot(c, i, key) then Touch(c, rows[i][j], c.fingerprint(key), incr, i, draw) else rows[i][j]
  {
    seq(c.depth, i requires 0 <= i < c.depth =>
      var j := Slot(c, i, key);
      rows[i][j := Touch(c, rows[i][j], c.fingerprint(key), incr, i, draw)])
  }

  /** What row `i` holds for the key. */
  ghost function SeenAt(c: Config, rows: Table, key: string, i: nat): uint32
    requires Shaped(c, rows) && i < c.depth
  {
    Seen(rows[i][Slot(c, i, key)], c.fingerprint(key))
  }

  /** `m` is the largest count the first `n` rows hold for the key, or zero. */
  ghost predicate Peak(c: Config, rows: Table, key: string, n: nat, m: uint32)
    requires Shaped(c, rows) && n <= c.depth
  {
    && (forall i :: 0 <= i < n ==> SeenAt(c, rows, key, i) <= m)
    && (m == 0 || exists i :: 0 <= i < n && SeenAt(c, rows, key, i) == m)
  }

  lemma {:induction false} PeakExists(c: Config, rows: Table, key: string, n: nat) returns (m: uint32)
    requires Shaped(c, rows) && n <= c.depth
    ensures Peak(c, rows, key, n, m)
  {
    if n == 0 {
      m := 0;
    } else {
      m := PeakExists(c, rows, key, n - 1);
      m := if SeenAt(c, rows, key, n - 1) > m then SeenAt(c, rows, key, n - 1) else m;
    }
  }

  /** The estimate of a key: the largest count a row holds for it. */
  ghost function Estimate(c: Config, rows: Table, key: string): (m: uint32)
    requires Shaped(c, rows)
    ensures Peak(c, rows, key, c.depth, m)
  {
    assert exists m :: Peak(c, rows, key, c.depth, m) by {
      var m := PeakExists(c, rows, key, c.depth);
    }
    var m :| Peak(c, rows, key, c.depth, m);
    m
  }

  lemma PeakNext(c: Config, rows: Table, key: string, n: nat, m: uint32)
    requires Shaped(c, rows) && n < c.depth && Peak(c, rows, key, n, m)
    ensures var seen := SeenAt(c, rows, key, n); Peak(c, rows, key, n + 1, if seen > m then seen else m)
  {
  }

  lemma PeakIsEstimate(c: Config, rows: Table, key: string, m: uint32)
    requires Shaped(c, rows) && Peak(c, rows, key, c.depth, m)
    ensures m == Estimate(c, rows, key)
  {
  }

  ghost function Fade(c: Config, rows: Table): (after: Table)
    requires Shaped(c, rows)
    ensures Shaped(c, after)
    ensures forall i, j :: 0 <= i < c.depth && 0 <= j < c.width ==>
              after[i][j] == rows[i][j].(count := rows[i][j].count / 2)
  {
    seq(c.depth, i requires 0 <= i < c.depth =>
      seq(c.width, j requires 0 <= j < c.width => rows[i][j].(count := rows[i][j].count / 2)))
  }

  // ----- the operations -----

  datatype Added = Added(heat: HeatMap, expelled: string, ok: bool)

  /** What `add` does to the hot set once the estimate is known. */
  ghost function Promote(c: Config, heat: HeatMap, key: string, estimate: uint32): Added {
    if estimate < c.minCount then Added(heat, "", false)
    else if |heat| == c.capacity && estimate < MinCount(heat) then Added(heat, "", false)
    else if key in heat then Added(heat[key := estimate], "", true)
    else
      var u := Upsert(heat, c.capacity, key, estimate);
      Added(u.heat, if u.expelled.Some? then u.expelled.value.key else "", true)
  }

  /** What `add` answers and leaves in the hot set. */
  ghost function Outcome(c: Config, s: Sketch, key: string, incr: uint32, draw: Draw): (a: Added)
    requires WellFormed(c, s)
    ensures |a.heat| <= c.capacity
  {
    var estimate := Estimate(c, TouchRows(c, s.rows, key, incr, draw), key);
    PromoteSize(c, s.heat, key, estimate);
    Promote(c, s.heat, key, estimate)
  }

  datatype Op =
    | Add(key: string, incr: uint32, draw: Draw)
    | Fading
    | Remove(key: string)
    | Reset

  /** `HeavyKeeper.Add`. */
  ghost function AddTo(c: Config, s: Sketch, key: string, incr: uint32, draw: Draw): (after: Sketch)
    requires WellFormed(c, s)
    ensures WellFormed(c, after)
  {
    Sketch(TouchRows(c, s.rows, key, incr, draw), Outcome(c, s, key, incr, draw).heat, (s.total + incr) % UINT64)
  }

  /** `HeavyKeeper.Fading`. */
  ghost function FadeOf(c: Config, s: Sketch): (after: Sketch)
    requires WellFormed(c, s)
    ensures WellFormed(c, after)
  {
    Sketch(Fade(c, s.rows), Halved(s.heat), s.total / 2)
  }

  /** `HeavyKeeper.Remove`: only the hot set forgets the key. */
  ghost function RemoveFrom(c: Config, s: Sketch, key: string): (after: Sketch)
    requires WellFormed(c, s)
    ensures WellFormed(c, after)
  {
    SubsetSize((s.heat - {key}).Keys, s.heat.Keys);
    s.(heat := s.heat - {key})
  }

  ghost function Apply(c: Config, s: Sketch, op: Op): (after: Sketch)
    requires WellFormed(c, s)
    ensures WellFormed(c, after)
  {
    match op
    case Add(key, incr, draw) => AddTo(c, s, key, incr, draw)
    case Fading => FadeOf(c, s)
    case Remove(key) => RemoveFrom(c, s, key)
    case Reset => Empty(c)
  }

  lemma PromoteSize(c: Config, heat: HeatMap, key: string, estimate: uint32)
    requires |heat| <= c.capacity
    ensures |Promote(c, heat, key, estimate).heat| <= c.capacity
  {
    if |heat| == c.capacity && heat != map[] {
      assert |heat - {LeastKey(heat)}| == |heat| - 1;
    }
  }

  ghost function Run(c: Config, ops: seq<Op>): (s: Sketch)
    ensures WellFormed(c, s)
  {
    if ops == [] then Empty(c)
    else Apply(c, Run(c, ops[..|ops| - 1]), ops[|ops| - 1])
  }
}
