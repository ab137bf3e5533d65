/** Block drivers with 512-byte blocks: a memory disk, and partitions stacked on another driver to any depth. */
module BlockDevice {
  import opened Flat

  const BLOCK: nat := 512

  /** A disk of bytes. When not `reliable`, any single-block request may fail and then changes nothing. */
  class RamDisk {
    const reliable: bool
    var data: seq<byte>

    constructor (data: seq<byte>, reliable: bool)
      ensures this.data == data && this.reliable == reliable
    {
      this.data, this.reliable := data, reliable;
    }

    method ReadBlock(id: nat, len: nat) returns (r: Option<seq<byte>>)
      ensures r.Some? ==> len == BLOCK && (id + 1) * BLOCK <= |data|
      ensures r.Some? ==> r.value == data[id * BLOCK..(id + 1) * BLOCK]
      ensures reliable && len == BLOCK && (id + 1) * BLOCK <= |data| ==> r.Some?
    {
      var fails: bool := *;
      if len != BLOCK || (fails && !reliable) {
        return None;
      }
      var offset := id * BLOCK;
      if offset + BLOCK > |data| {
        return None;
      }
      return Some(data[offset..offset + BLOCK]);
    }

    method WriteBlock(id: nat, buf: seq<byte>) returns (ok: bool)
      modifies this
      ensures ok ==> |buf| == BLOCK && (id + 1) * BLOCK <= |old(data)|
      ensures data == if ok then Splice(old(data), id * BLOCK, buf) else old(data)
      ensures reliable && |buf| == BLOCK && (id + 1) * BLOCK <= |old(data)| ==> ok
    {
      var fails: bool := *;
      if |buf| != BLOCK || (fails && !reliable) {
        return false;
      }
      var offset := id * BLOCK;
      if offset + BLOCK > |data| {
        return false;
      }
      data := data[..offset] + buf + data[offset + BLOCK..];
      return true;
    }
  }

  /** A driver over a disk: the disk itself, or a contiguous range of blocks of another driver. */
  datatype Driver = Whole | Partition(inner: Driver, start: nat, count: nat)

  /** Where the driver's first byte lies on the disk at the bottom. */
  function Origin(d: Driver): nat {
    match d
    case Whole => 0
    case Partition(inner, start, _) => Origin(inner) + start * BLOCK
  }

  /** How many bytes the driver covers of a disk of `total` bytes. */
  function Size(d: Driver, total: nat): nat {
    match d
    case Whole => total
    case Partition(_, _, count) => count * BLOCK
  }

  function TotalBlocks(d: Driver, total: nat): nat {
    Size(d, total) / BLOCK
  }

  /** Every partition of the stack lies inside the device under it. */
  predicate Fits(d: Driver, total: nat) {
    match d
    case Whole => true
    case Partition(inner, start, count) => Fits(inner, total) && (start + count) * BLOCK <= Size(inner, total)
  }

  /** A fitting driver's range lies on the disk. */
  lemma {:induction false} RangeOnDisk(d: Driver, total: nat)
    requires Fits(d, total)
    ensures Origin(d) + Size(d, total) <= total
  {
    match d
    case Whole =>
    case Partition(inner, _, _) => RangeOnDisk(inner, total);
  }

  /** Partitions of one device with separate block ranges have separate bytes, and both lie inside the device's. */
  lemma PartitionsAreSeparate(inner: Driver, total: nat, a: nat, m: nat, b: nat, n: nat)
    requires Fits(Partition(inner, a, m), total) && Fits(Partition(inner, b, n), total) && a + m <= b
    ensures var first, second := Partition(inner, a, m), Partition(inner, b, n);
            && Origin(inner) <= Origin(first) && Origin(first) + Size(first, total) <= Origin(second)
            && Origin(second) + Size(second, total) <= Origin(inner) + Size(inner, total)
            && (a + m == b ==> Origin(first) + Size(first, total) == Origin(second))
  {
  }

  /** A block of a partition is the block of the device under it that lies `start` further on. */
  lemma BlockUnderneath(inner: Driver, start: nat, count: nat, data: seq<byte>, id: nat, bytes: seq<byte>)
    requires Fits(Partition(inner, start, count), |data|) && id < count && |bytes| == BLOCK
    ensures InWindow(Partition(inner, start, count), data, id * BLOCK, bytes)
       <==> InWindow(inner, data, (start + id) * BLOCK, bytes)
  {
    RangeOnDisk(inner, |data|);
    assert (start + id) * BLOCK == start * BLOCK + id * BLOCK;
  }

  /** The driver's bytes from `off` on are `bytes`. */
  ghost predicate InWindow(d: Driver, data: seq<byte>, off: nat, bytes: seq<byte>) {
    && off + |bytes| <= Size(d, |data|)
    && Origin(d) + off + |bytes| <= |data|
    && forall i | 0 <= i < |bytes| :: bytes[i] == data[Origin(d) + off + i]
  }

  /** Outside `[off, off + |d|)` nothing changed, and each byte inside is the old one or the new one. */
  ghost predicate Torn(before: seq<byte>, after: seq<byte>, off: nat, d: seq<byte>) {
    && |after| == |before|
    && forall i | 0 <= i < |before| ::
         after[i] == before[i] || (off <= i < off + |d| && after[i] == d[i - off])
  }

  /** Creates a partition when the range is not empty and fits the inner device. */
  method NewPartition(disk: RamDisk, inner: Driver, start: nat, count: nat) returns (r: Option<Driver>)
    requires Fits(inner, |disk.data|)
    ensures r.Some? <==> count > 0 && (start + count) * BLOCK <= Size(inner, |disk.data|)
    ensures r.Some? ==> r.value == Partition(inner, start, count) && Fits(r.value, |disk.data|)
  {
    if count == 0 || start + count > TotalBlocks(inner, |disk.data|) {
      return None;
    }
    return Some(Partition(inner, start, count));
  }

  /** Reads one block of the driver; a partition shifts the block number and forwards. */
  method ReadBlock(disk: RamDisk, d: Driver, id: nat, len: nat) returns (r: Option<seq<byte>>)
    requires Fits(d, |disk.data|)
    ensures r.Some? ==> len == BLOCK && (id + 1) * BLOCK <= Size(d, |disk.data|)
    ensures r.Some? ==> |r.value| == BLOCK && InWindow(d, disk.data, id * BLOCK, r.value)
    ensures disk.reliable && len == BLOCK && (id + 1) * BLOCK <= Size(d, |disk.data|) ==> r.Some?
    decreases d
  {
    match d
    case Whole =>
      r := disk.ReadBlock(id, len);
    case Partition(inner, start, count) =>
      if id >= count {
        return None;
      }
      r := ReadBlock(disk, inner, start + id, len);
  }

  /** Writes one block: exactly that block of the disk changes, or nothing does. */
  method WriteBlock(disk: RamDisk, d: Driver, id: nat, buf: seq<byte>) returns (ok: bool)
    requires Fits(d, |disk.data|)
    modifies disk
    ensures |disk.data| == |old(disk.data)|
    ensures ok ==> |buf| == BLOCK && (id + 1) * BLOCK <= Size(d, |disk.data|)
    ensures ok ==> Origin(d) + (id + 1) * BLOCK <= |old(disk.data)|
    ensures disk.data == if ok then Splice(old(disk.data), Origin(d) + id * BLOCK, buf) else old(disk.data)
    ensures disk.reliable && |buf| == BLOCK && (id + 1) * BLOCK <= Size(d, |disk.data|) ==> ok
    decreases d
  {
    match d
    case Whole =>
      ok := disk.WriteBlock(id, buf);
    case Partition(inner, start, count) =>
      if id >= count {
        return false;
      }
      ok := WriteBlock(disk, inner, start + id, buf);
  }

  /** Reads consecutive blocks; the disk loops over single blocks, a partition checks its range and forwards. */
  method ReadBlocks(disk: RamDisk, d: Driver, start: nat, len: nat) returns (r: Option<seq<byte>>)
    requires Fits(d, |disk.data|)
    ensures r.Some? ==> |r.value| == len
    ensures r.Some? && len > 0 ==> start * BLOCK + len <= Size(d, |disk.data|)
    ensures r.Some? && len > 0 ==> InWindow(d, disk.data, start * BLOCK, r.value)
    ensures disk.reliable && len % BLOCK == 0 && start * BLOCK + len <= Size(d, |disk.data|) ==> r.Some?
    decreases d
  {
    if len % BLOCK != 0 {
      return None;
    }
    var n := len / BLOCK;
    match d
    case Whole =>
      var buf := [];
      var i := 0;
      while i < n
        invariant 0 <= i <= n && |buf| == i * BLOCK
        invariant i > 0 ==> (start + i) * BLOCK <= |disk.data| && buf == disk.data[start * BLOCK..(start + i) * BLOCK]
      {
        var block := disk.ReadBlock(start + i, BLOCK);
        if block.None? {
          return None;
        }
        buf := buf + block.value;
        i := i + 1;
      }
      r := Some(buf);
    case Partition(inner, first, count) =>
      if start + n > count {
        return None;
      }
      r := ReadBlocks(disk, inner, first + start, len);
  }

  /** The first `done` bytes of `buf` are written and nothing else is. */
  ghost predicate WrittenSoFar(before: seq<byte>, now: seq<byte>, at: nat, buf: seq<byte>, done: nat)
    requires done <= |buf|
  {
    if done == 0 then now == before else at + done <= |before| && now == Splice(before, at, buf[..done])
  }

  lemma WrittenOneMore(before: seq<byte>, now: seq<byte>, at: nat, buf: seq<byte>, done: nat, to: nat)
    requires done < to <= |buf| && WrittenSoFar(before, now, at, buf, done) && at + to <= |now|
    ensures WrittenSoFar(before, Splice(now, at + done, buf[done..to]), at, buf, to)
  {
    assert Splice(now, at + done, buf[done..to]) == Splice(before, at, buf[..to]);
  }

  lemma WrittenIsTorn(before: seq<byte>, now: seq<byte>, at: nat, buf: seq<byte>, done: nat)
    requires done <= |buf| && WrittenSoFar(before, now, at, buf, done)
    ensures Torn(before, now, at, buf)
    ensures done == |buf| > 0 ==> at + |buf| <= |before| && now == Splice(before, at, buf)
  {
    assert buf[..|buf|] == buf;
  }

  /** The default loop: one single-block write after another, stopping at the first failure. */
  method WriteEach(disk: RamDisk, start: nat, buf: seq<byte>) returns (ok: bool)
    requires |buf| % BLOCK == 0
    modifies disk
    ensures Torn(old(disk.data), disk.data, start * BLOCK, buf)
    ensures ok && buf != [] ==>
              && start * BLOCK + |buf| <= |disk.data|
              && disk.data == Splice(old(disk.data), start * BLOCK, buf)
    ensures disk.reliable && start * BLOCK + |buf| <= |disk.data| ==> ok
  {
    var n := |buf| / BLOCK;
    var i := 0;
    while i < n
      invariant 0 <= i <= n && WrittenSoFar(old(disk.data), disk.data, start * BLOCK, buf, i * BLOCK)
    {
      WrittenIsTorn(old(disk.data), disk.data, start * BLOCK, buf, i * BLOCK);
      var from, to := i * BLOCK, (i + 1) * BLOCK;
      ghost var now := disk.data;
      var wrote := disk.WriteBlock(start + i, buf[from..to]);
      if !wrote {
        return false;
      }
      WrittenOneMore(old(disk.data), now, start * BLOCK, buf, from, to);
      i := i + 1;
    }
    WrittenIsTorn(old(disk.data), disk.data, start * BLOCK, buf, |buf|);
    return true;
  }

  /**
   Writes consecutive blocks. On success exactly those bytes of the disk are replaced;
   on failure a part of them may have been. Bytes outside the driver's range never change.
   */
  method WriteBlocks(disk: RamDisk, d: Driver, start: nat, buf: seq<byte>) returns (ok: bool)
    requires Fits(d, |disk.data|)
    modifies disk
    ensures |disk.data| == |old(disk.data)|
    ensures Torn(old(disk.data), disk.data, Origin(d) + start * BLOCK, buf)
    ensures OnlyInRange(d, old(disk.data), disk.data)
    ensures ok && buf != [] ==>
              && start * BLOCK + |buf| <= Size(d, |disk.data|)
              && Origin(d) + start * BLOCK + |buf| <= |disk.data|
              && disk.data == Splice(old(disk.data), Origin(d) + start * BLOCK, buf)
    ensures disk.reliable && |buf| % BLOCK == 0 && start * BLOCK + |buf| <= Size(d, |disk.data|) ==> ok
    decreases d
  {
    if |buf| % BLOCK != 0 {
      return false;
    }
    var n := |buf| / BLOCK;
    match d
    case Whole =>
      ok := WriteEach(disk, start, buf);
    case Partition(inner, first, count) =>
      if start + n > count {
        return false;
      }
      RangeOnDisk(d, |disk.data|);
      ok := WriteBlocks(disk, inner, first + start, buf);
  }

  /** No byte of the disk outside the driver's range differs. */
  ghost predicate OnlyInRange(d: Driver, before: seq<byte>, after: seq<byte>)
    requires |before| == |after|
  {
    forall i | 0 <= i < |before| && !(Origin(d) <= i < Origin(d) + Size(d, |before|)) :: after[i] == before[i]
  }

  const GPT_ENTRY_PREFIX: nat := 56

  /** Reads the first 56 bytes of a GPT entry, wherever it lies across blocks. */
  method ReadGptEntryPrefix(disk: RamDisk, d: Driver, entriesLba: nat, entrySize: nat, index: nat)
    returns (r: Option<seq<byte>>)
    requires Fits(d, |disk.data|)
    ensures r.Some? ==>
              |r.value| == GPT_ENTRY_PREFIX && InWindow(d, disk.data, entriesLba * BLOCK + entrySize * index, r.value)
    ensures var end := entriesLba * BLOCK + entrySize * index + GPT_ENTRY_PREFIX;
            disk.reliable && end <= TotalBlocks(d, |disk.data|) * BLOCK ==> r.Some?
  {
    r := ReadEntryBytes(disk, d, entriesLba, entrySize * index);
  }

  method ReadEntryBytes(disk: RamDisk, d: Driver, entriesLba: nat, entryOffset: nat) returns (r: Option<seq<byte>>)
    requires Fits(d, |disk.data|)
    ensures r.Some? ==>
              |r.value| == GPT_ENTRY_PREFIX && InWindow(d, disk.data, entriesLba * BLOCK + entryOffset, r.value)
    ensures var end := entriesLba * BLOCK + entryOffset + GPT_ENTRY_PREFIX;
            disk.reliable && end <= TotalBlocks(d, |disk.data|) * BLOCK ==> r.Some?
  {
    ghost var from := entriesLba * BLOCK + entryOffset;
    var out := [];
    while |out| < GPT_ENTRY_PREFIX
      invariant |out| <= GPT_ENTRY_PREFIX
      invariant out != [] ==> InWindow(d, disk.data, from, out)
      decreases GPT_ENTRY_PREFIX - |out|
    {
      var at := entryOffset + |out|;
      var lba := entriesLba + at / BLOCK;
      var inBlock := at % BLOCK;
      assert lba * BLOCK + inBlock == from + |out|;
      if lba >= TotalBlocks(d, |disk.data|) {
        return None;
      }
      var n := Min(GPT_ENTRY_PREFIX - |out|, BLOCK - inBlock);
      var sector := ReadBlock(disk, d, lba, BLOCK);
      if sector.None? {
        return None;
      }
      InsideRead(d, disk.data, lba * BLOCK, sector.value, inBlock, n);
      AppendRead(d, disk.data, from, out, sector.value[inBlock..inBlock + n]);
      out := out + sector.value[inBlock..inBlock + n];
    }
    r := Some(out);
  }

  /** A part of what was read is what is there. */
  lemma InsideRead(d: Driver, data: seq<byte>, off: nat, bytes: seq<byte>, skip: nat, n: nat)
    requires InWindow(d, data, off, bytes) && skip + n <= |bytes|
    ensures InWindow(d, data, off + skip, bytes[skip..skip + n])
  {
  }

  /** Two adjacent reads join. */
  lemma AppendRead(d: Driver, data: seq<byte>, off: nat, a: seq<byte>, b: seq<byte>)
    requires a != [] ==> InWindow(d, data, off, a)
    requires InWindow(d, data, off + |a|, b)
    ensures InWindow(d, data, off, a + b)
  {
  }
}
