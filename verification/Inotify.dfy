/** The inotify watcher: its two maps under `AddWatch`, and the record loop of `readEvents`. */
module Inotify {
  import opened Wrappers
  import opened Order

  type byte = x: int | 0 <= x < 256
  type Bytes = seq<byte>

  const HEADER := 16          // syscall.SizeofInotifyEvent
  const BUFFER := 65536       // the read buffer, HEADER * 4096 bytes
  const PATH_MAX := 4096      // a name is sliced from an array of this length
  const Q_OVERFLOW := 0x4000  // IN_Q_OVERFLOW
  const MASK_ADD: bv32 := 0x2000_0000
  const SLASH: byte := 47

  // ----- the wire format -----

  /** One kernel record; `field` is the name with its padding of zero bytes. */
  datatype Record = Record(wd: uint32, mask: uint32, cookie: uint32, field: Bytes)

  datatype Event = Event(mask: uint32, cookie: uint32, name: Bytes)

  function Little(n: uint32): (b: Bytes)
    ensures |b| == 4
  {
    [n % 256, n / 0x100 % 256, n / 0x1_0000 % 256, n / 0x100_0000]
  }

  function FromLittle(b: Bytes): uint32
    requires |b| == 4
  {
    b[0] as int + 0x100 * (b[1] as int) + 0x1_0000 * (b[2] as int) + 0x100_0000 * (b[3] as int)
  }

  lemma LittleRoundTrip(n: uint32)
    ensures FromLittle(Little(n)) == n
  {
    assert n == n % 256 + 256 * (n / 256);
    assert n / 0x100 == n / 0x100 % 256 + 256 * (n / 0x1_0000);
    assert n / 0x1_0000 == n / 0x1_0000 % 256 + 256 * (n / 0x100_0000);
  }

  ghost function Encode(r: Record): (b: Bytes)
    requires |r.field| <= PATH_MAX
    ensures |b| == HEADER + |r.field|
  {
    Little(r.wd) + Little(r.mask) + Little(r.cookie) + Little(|r.field|) + r.field
  }

  ghost predicate Fits(rs: seq<Record>) {
    forall i :: 0 <= i < |rs| ==> |rs[i].field| <= PATH_MAX
  }

  ghost function EncodeAll(rs: seq<Record>): Bytes
    requires Fits(rs)
  {
    if rs == [] then [] else Encode(rs[0]) + EncodeAll(rs[1..])
  }

  // ----- what the records mean -----

  /** `int(raw.Wd)` of the signed 32-bit descriptor. */
  function Descriptor(wd: uint32): int {
    if wd < 0x8000_0000 then wd else wd - 0x1_0000_0000
  }

  predicate Overflowed(mask: uint32) {
    mask / Q_OVERFLOW % 2 == 1
  }

  /** The name without its trailing zero bytes. */
  function Trim(b: Bytes): Bytes {
    if b == [] || b[|b| - 1] != 0 then b else Trim(b[..|b| - 1])
  }

  function NameOf(path: Bytes, field: Bytes): Bytes {
    if field == [] then path else path + [SLASH] + Trim(field)
  }

  /** The event a record becomes: none for an overflow mark or an unknown descriptor. */
  function Events(paths: map<int, Bytes>, r: Record): seq<Event> {
    if Overflowed(r.mask) || Descriptor(r.wd) !in paths then []
    else [Event(r.mask, r.cookie, NameOf(paths[Descriptor(r.wd)], r.field))]
  }

  ghost function AllEvents(paths: map<int, Bytes>, rs: seq<Record>): seq<Event> {
    if rs == [] then [] else AllEvents(paths, rs[..|rs| - 1]) + Events(paths, rs[|rs| - 1])
  }

  ghost function Overflows(rs: seq<Record>): nat {
    if rs == [] then 0 else Overflows(rs[..|rs| - 1]) + if Overflowed(rs[|rs| - 1].mask) then 1 else 0
  }

  /** A padded name is recovered exactly, whatever the padding. */
  lemma {:induction false} TrimPadding(name: Bytes, padding: Bytes)
    requires name != [] && name[|name| - 1] != 0
    requires forall i :: 0 <= i < |padding| ==> padding[i] == 0
    ensures Trim(name + padding) == name
    decreases |padding|
  {
    if padding == [] {
      assert name + padding == name;
    } else {
      var n := |padding| - 1;
      TrimPadding(name, padding[..n]);
      assert (name + padding)[..|name + padding| - 1] == name + padding[..n];
    }
  }

  /** Header words are little-endian. */
  lemma WordIsLittleEndian(b: Bytes)
    requires |b| == 4
    ensures FromLittle(b) == b[0] as int + 256 * (b[1] as int + 256 * (b[2] as int + 256 * (b[3] as int)))
  {
  }

  /** A descriptor is read as a signed 32-bit number. */
  lemma DescriptorIsSigned(d: int)
    requires -0x8000_0000 <= d < 0x8000_0000
    ensures Descriptor(if d < 0 then d + 0x1_0000_0000 else d) == d
  {
  }

  /** The overflow mark is bit 14 of the mask. */
  lemma OverflowBit(high: nat, bit: bool, low: nat)
    requires high < 0x2_0000 && low < 0x4000
    ensures Overflowed(0x8000 * high + (if bit then 0x4000 else 0) + low) == bit
  {
    var mask := 0x8000 * high + (if bit then 0x4000 else 0) + low;
    assert mask / 0x4000 == 2 * high + if bit then 1 else 0;
  }

  /**
   * A record with a padded name becomes the event of that name in its watched directory; one without a
   * name is the directory's own; an overflow mark or an unknown descriptor becomes none.
   */
  lemma EventOfRecord(paths: map<int, Bytes>, r: Record, name: Bytes, padding: Bytes)
    requires r.field == name + padding && (name == [] ==> padding == [])
    requires name != [] ==> name[|name| - 1] != 0
    requires forall i :: 0 <= i < |padding| ==> padding[i] == 0
    ensures Overflowed(r.mask) || Descriptor(r.wd) !in paths ==> Events(paths, r) == []
    ensures !Overflowed(r.mask) && Descriptor(r.wd) in paths ==>
              && |Events(paths, r)| == 1 && Events(paths, r)[0].mask == r.mask && Events(paths, r)[0].cookie == r.cookie
              && Events(paths, r)[0].name == paths[Descriptor(r.wd)] + if name == [] then [] else [47] + name
  {
    if name != [] {
      TrimPadding(name, padding);
    }
  }

  /** Events come in the order of their records. */
  lemma {:induction false} EventsInOrder(paths: map<int, Bytes>, rs: seq<Record>, i: nat)
    requires i < |rs|
    requires forall j :: 0 <= j < |rs| ==> !Overflowed(rs[j].mask) && Descriptor(rs[j].wd) in paths
    ensures |AllEvents(paths, rs)| == |rs| && [AllEvents(paths, rs)[i]] == Events(paths, rs[i])
  {
    var n := |rs| - 1;
    if i < n {
      EventsInOrder(paths, rs[..n], i);
    } else if n > 0 {
      EventsInOrder(paths, rs[..n], n - 1);
    }
  }

  /** Every overflow mark is counted once. */
  lemma {:induction false} OverflowsCounted(rs: seq<Record>)
    ensures Overflows(rs) == |set i | 0 <= i < |rs| && Overflowed(rs[i].mask)|
  {
    if rs != [] {
      var n := |rs| - 1;
      OverflowsCounted(rs[..n]);
      var before := set i | 0 <= i < n && Overflowed(rs[..n][i].mask);
      var all := set i | 0 <= i < |rs| && Overflowed(rs[i].mask);
      assert all == before + if Overflowed(rs[n].mask) then {n} else {};
    }
  }

  lemma {:induction false} EncodedLength(rs: seq<Record>)
    requires Fits(rs)
    ensures |EncodeAll(rs)| >= HEADER * |rs|
  {
    if rs != [] {
      EncodedLength(rs[1..]);
    }
  }

  lemma HeaderFields(r: Record, rest: Bytes)
    requires |r.field| <= PATH_MAX
    ensures var b := Encode(r) + rest;
            && FromLittle(b[0..4]) == r.wd && FromLittle(b[4..8]) == r.mask && FromLittle(b[8..12]) == r.cookie
            && FromLittle(b[12..16]) == |r.field| && b[16..16 + |r.field|] == r.field && b[16 + |r.field|..] == rest
  {
    var b := Encode(r) + rest;
    assert b[0..4] == Little(r.wd) && b[4..8] == Little(r.mask) && b[8..12] == Little(r.cookie);
    assert b[12..16] == Little(|r.field|);
    LittleRoundTrip(r.wd);
    LittleRoundTrip(r.mask);
    LittleRoundTrip(r.cookie);
    LittleRoundTrip(|r.field|);
  }

  /** At a record boundary with a header's worth of bytes left, the next record is all there. */
  lemma NextRecord(all: Bytes, offset: nat, rs: seq<Record>, k: nat)
    requires Fits(rs) && k <= |rs| && offset + HEADER <= |all| && all[offset..] == EncodeAll(rs[k..])
    ensures k < |rs| && offset + HEADER + |rs[k].field| <= |all|
    ensures FromLittle(all[offset..offset + 4]) == rs[k].wd
    ensures FromLittle(all[offset + 4..offset + 8]) == rs[k].mask
    ensures FromLittle(all[offset + 8..offset + 12]) == rs[k].cookie
    ensures FromLittle(all[offset + 12..offset + 16]) == |rs[k].field|
    ensures all[offset + HEADER..offset + HEADER + |rs[k].field|] == rs[k].field
    ensures all[offset + HEADER + |rs[k].field|..] == EncodeAll(rs[k + 1..])
  {
    var tail := all[offset..];
    assert |tail| >= HEADER;
    var r := rs[k];
    var rest := EncodeAll(rs[k + 1..]);
    assert rs[k..][0] == r && rs[k..][1..] == rs[k + 1..];
    assert tail == Encode(r) + rest;
    HeaderFields(r, rest);
    assert all[offset..offset + 4] == tail[0..4] && all[offset + 4..offset + 8] == tail[4..8];
    assert all[offset + 8..offset + 12] == tail[8..12] && all[offset + 12..offset + 16] == tail[12..16];
    assert all[offset + HEADER..offset + HEADER + |r.field|] == tail[16..16 + |r.field|];
    assert all[offset + HEADER + |r.field|..] == tail[16 + |r.field|..];
  }

  lemma OneMoreRecord(paths: map<int, Bytes>, rs: seq<Record>, k: nat)
    requires k < |rs|
    ensures AllEvents(paths, rs[..k + 1]) == AllEvents(paths, rs[..k]) + Events(paths, rs[k])
    ensures Overflows(rs[..k + 1]) == Overflows(rs[..k]) + if Overflowed(rs[k].mask) then 1 else 0
  {
    assert rs[..k + 1][..k] == rs[..k];
  }

  // ----- the watcher -----

  datatype Entry = Entry(wd: int, flags: bv32)

  class Watcher {
    var watches: map<Bytes, Entry>
    var paths: map<int, Bytes>
    var isClosed: bool

    constructor ()
      ensures watches == map[] && paths == map[] && !isClosed
    {
      watches, paths, isClosed := map[], map[], false;
    }

    /**
     * `AddWatch`, given the kernel's answer. A known path keeps its descriptor and only collects
     * flags, even when the kernel then refuses; a new one enters both maps if the kernel agrees.
     */
    method AddWatch(path: Bytes, flags: bv32, answer: Option<int>) returns (ok: bool, sent: bv32)
      modifies this
      ensures isClosed == old(isClosed)
      ensures ok <==> !old(isClosed) && answer.Some?
      ensures old(isClosed) ==> watches == old(watches) && paths == old(paths)
      ensures !old(isClosed) && path in old(watches) ==>
                && paths == old(paths) && sent == flags | 0x2000_0000
                && watches == old(watches)[path := old(watches)[path].(flags := old(watches)[path].flags | flags)]
      ensures !old(isClosed) && path !in old(watches) ==>
                && sent == flags
                && watches == (if ok then old(watches)[path := Entry(answer.value, flags)] else old(watches))
                && paths == (if ok then old(paths)[answer.value := path] else old(paths))
    {
      sent := flags;
      if isClosed {
        return false, sent;
      }
      var found := path in watches;
      if found {
        watches := watches[path := watches[path].(flags := watches[path].flags | flags)];
        sent := flags | MASK_ADD;
      }
      if answer.None? {
        return false, sent;
      }
      if !found {
        watches := watches[path := Entry(answer.value, sent)];
        paths := paths[answer.value := path];
      }
      return true, sent;
    }

    /**
     * The record loop of `readEvents` over `n` bytes the kernel filled with whole records: every
     * record is found, none is read past the end, and each yields exactly its event or overflow.
     */
    method ParseRecords(buf: array<byte>, n: nat, ghost rs: seq<Record>) returns (events: seq<Event>, overflows: nat)
      requires HEADER <= n <= buf.Length && buf.Length == BUFFER
      requires Fits(rs) && buf[..n] == EncodeAll(rs)
      ensures events == AllEvents(paths, rs) && overflows == Overflows(rs)
    {
      events, overflows := [], 0;
      var offset := 0;
      ghost var all, k := buf[..n], 0;
      assert rs[0..] == rs && all[0..] == all;
      assert AllEvents(paths, rs[..0]) == [] && Overflows(rs[..0]) == 0;
      hide EncodeAll, AllEvents, Overflows, Events, Overflowed;
      while offset <= n - HEADER
        invariant 0 <= k <= |rs| && 0 <= offset <= n
        invariant all[offset..] == EncodeAll(rs[k..])
        invariant events == AllEvents(paths, rs[..k]) && overflows == Overflows(rs[..k])
        decreases n - offset
      {
        var r := TakeRecord(buf, offset, n, rs, k);
        OneMoreRecord(paths, rs, k);
        if Overflowed(r.mask) {
          overflows := overflows + 1;
        }
        events := events + Events(paths, r);
        offset := offset + HEADER + |r.field|;
        k := k + 1;
      }
      EncodedLength(rs[k..]);
      assert rs[..|rs|] == rs;
    }
  }

  /** Reads the next record at a boundary; the rest of the bytes hold the rest of the records. */
  method TakeRecord(buf: array<byte>, offset: nat, n: nat, ghost rs: seq<Record>, ghost k: nat) returns (r: Record)
    requires n <= buf.Length && Fits(rs) && k <= |rs| && offset + HEADER <= n
    requires buf[..n][offset..] == EncodeAll(rs[k..])
    ensures k < |rs| && r == rs[k] && offset + HEADER + |r.field| <= n
    ensures buf[..n][offset + HEADER + |r.field|..] == EncodeAll(rs[k + 1..])
  {
    NextRecord(buf[..n], offset, rs, k);
    r := ReadRecord(buf, offset, n, rs[k]);
  }

  /** Reads the record the bytes at `offset` hold. */
  method ReadRecord(buf: array<byte>, offset: nat, n: nat, ghost r: Record) returns (record: Record)
    requires n <= buf.Length && offset + HEADER + |r.field| <= n
    requires FromLittle(buf[..n][offset..offset + 4]) == r.wd
    requires FromLittle(buf[..n][offset + 4..offset + 8]) == r.mask
    requires FromLittle(buf[..n][offset + 8..offset + 12]) == r.cookie
    requires FromLittle(buf[..n][offset + 12..offset + 16]) == |r.field|
    requires buf[..n][offset + HEADER..offset + HEADER + |r.field|] == r.field
    ensures record == r
  {
    var nameLen := Word(buf, offset + 12, n);
    var bytes := buf[offset + HEADER..offset + HEADER + nameLen];
    assert bytes == buf[..n][offset + HEADER..offset + HEADER + nameLen];
    record := Record(Word(buf, offset, n), Word(buf, offset + 4, n), Word(buf, offset + 8, n), bytes);
  }

  function Word(buf: array<byte>, at: nat, n: nat): uint32
    reads buf
    requires at + 4 <= n <= buf.Length
    ensures Word(buf, at, n) == FromLittle(buf[..n][at..at + 4])
  {
    assert buf[at..at + 4] == buf[..n][at..at + 4];
    FromLittle(buf[at..at + 4])
  }
}
