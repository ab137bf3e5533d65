/** The adapter between ext4 blocks at byte offsets and a driver's 512-byte sectors, with its read cache. */
module BlockAdapter {
  import opened Flat
  import opened BlockDevice
  import Lru

  const READ_CACHE_BLOCKS: nat := 1024

  datatype CacheEntry = CacheEntry(data: seq<byte>, lastUsed: nat)

  /** Recently read blocks by their byte offset. */
  class BlockReadCache {
    var entries: map<nat, CacheEntry>
    var clock: nat
    ghost var history: seq<Option<nat>>

    function Ages(): map<nat, nat>
      reads this
    {
      map o | o in entries :: entries[o].lastUsed
    }

    ghost predicate Valid()
      reads this
    {
      |entries| <= READ_CACHE_BLOCKS && Lru.Clocked(Ages(), clock, history)
    }

    constructor ()
      ensures Valid() && entries == map[] && history == []
    {
      entries, clock, history := map[], 0, [];
    }

    /** Finds a block and refreshes its stamp. */
    method Get(offset: nat) returns (r: Option<seq<byte>>)
      requires Valid()
      modifies this
      ensures Valid() && entries.Keys == old(entries.Keys)
      ensures forall o | o in entries :: entries[o].data == old(entries[o].data)
      ensures r == if offset in entries then Some(entries[offset].data) else None
      ensures history == old(history) + [if offset in entries then Some(offset) else None]
    {
      ghost var ages, was := Ages(), clock;
      clock := Lru.Tick(clock);
      if offset !in entries {
        Lru.MissKeepsStamps(ages, was, history);
        history := history + [None];
        return None;
      }
      Lru.TouchKeepsStamps(ages, was, history, offset);
      history := history + [Some(offset)];
      entries := entries[offset := entries[offset].(lastUsed := clock)];
      assert Ages() == ages[offset := clock];
      assert entries.Keys == old(entries.Keys);
      assert |entries| == |entries.Keys|;
      return Some(entries[offset].data);
    }

    /** Stores a block; a full cache first drops its least recently used block. */
    method Insert(offset: nat, data: seq<byte>)
      requires Valid()
      modifies this
      ensures Valid()
      ensures offset in entries && entries[offset].data == data
      ensures forall o | o in entries && o != offset :: o in old(entries) && entries[o] == old(entries[o])
      ensures history == old(history) + [Some(offset)]
      ensures |history| < Lru.U64_RANGE ==>
                Lru.DroppedLeastRecent(old(entries.Keys) - {offset}, entries.Keys - {offset}, old(history))
      ensures offset in old(entries) || old(|entries|) < READ_CACHE_BLOCKS ==>
                entries.Keys == old(entries.Keys) + {offset}
    {
      ghost var was := clock;
      clock := Lru.Tick(clock);
      if |entries| >= READ_CACHE_BLOCKS && offset !in entries {
        EvictOldest(was);
      }
      ghost var ages, kept := Ages(), entries.Keys;
      assert |entries| == |kept|;
      Lru.TouchKeepsStamps(ages, was, history, offset);
      history := history + [Some(offset)];
      entries := entries[offset := CacheEntry(data, clock)];
      assert Ages() == ages[offset := clock];
      assert entries.Keys == kept + {offset};
      assert |entries| == |entries.Keys|;
    }

    /** Drops the block that was used longest ago. */
    method EvictOldest(ghost was: nat)
      requires entries != map[] && Lru.Clocked(Ages(), was, history)
      modifies this`entries
      ensures entries.Keys < old(entries.Keys) && |entries| == old(|entries|) - 1
      ensures forall o | o in entries :: entries[o] == old(entries[o])
      ensures Lru.Clocked(Ages(), was, history)
      ensures |history| < Lru.U64_RANGE ==> Lru.DroppedLeastRecent(old(entries.Keys), entries.Keys, history)
    {
      ghost var before, ages := entries.Keys, Ages();
      assert |entries| == |before|;
      assert ages.Keys == before != {};
      var victim := Lru.Oldest(Ages());
      if |history| < Lru.U64_RANGE {
        forall kept | kept in before - {victim} ensures Lru.LastUse(history, victim) < Lru.LastUse(history, kept) {
          Lru.OldestIsLeastRecent(ages, history, victim, kept);
        }
      }
      entries := entries - {victim};
      assert entries.Keys == before - {victim};
      assert |entries| == |entries.Keys|;
      Lru.ForgetKeepsStamps(ages, Ages(), was, history);
    }

    /** Drops every block that shares a byte with `[start, end)`. */
    method InvalidateRange(start: nat, end: nat, blockSize: nat)
      requires Valid() && end <= USIZE_MAX
      modifies this
      ensures Valid()
      ensures forall o | o in entries :: o in old(entries) && entries[o] == old(entries[o])
      ensures forall o | o in old(entries) :: o in entries <==> !(start < end && o < end && start < o + blockSize)
    {
      if start >= end {
        return;
      }
      ghost var before, ages := entries.Keys, Ages();
      assert |entries| == |before|;
      var stale := set o | o in entries && o < end && start < SaturatingAdd(o, blockSize);
      entries := entries - stale;
      assert entries.Keys == before - stale;
      assert |entries| == |entries.Keys|;
      SubsetSize(before - stale, before);
      Lru.ForgetKeepsStamps(ages, Ages(), clock, history);
    }
  }

  class BlockDeviceAdapter {
    const disk: RamDisk
    const inner: Driver
    const blockSize: nat
    const cache: BlockReadCache

    constructor (disk: RamDisk, inner: Driver, blockSize: nat)
      requires Fits(inner, |disk.data|) && blockSize > 0 && blockSize % BLOCK == 0
      ensures Valid() && fresh(cache)
      ensures this.disk == disk && this.inner == inner && this.blockSize == blockSize
    {
      this.disk, this.inner, this.blockSize := disk, inner, blockSize;
      cache := new BlockReadCache();
    }

    /** The cached blocks are the blocks of the device. */
    ghost predicate Coherent()
      reads disk, cache
    {
      forall o | o in cache.entries ::
        o % BLOCK == 0 && |cache.entries[o].data| == blockSize && InWindow(inner, disk.data, o, cache.entries[o].data)
    }

    ghost predicate Valid()
      reads disk, cache
    {
      && blockSize > 0 && blockSize % BLOCK == 0
      && Fits(inner, |disk.data|)
      && cache.Valid()
      && Coherent()
    }

    /** The sectors under the block at `offset` all lie on the device. */
    predicate Readable(offset: nat)
      reads disk
    {
      offset + blockSize <= TotalBlocks(inner, |disk.data|) * BLOCK
    }

    /** The current bytes of the device, or zeros when the device could not be read. */
    method ReadOffset(offset: nat) returns (r: seq<byte>)
      requires Valid()
      modifies cache
      ensures Valid()
      ensures |r| == blockSize
      ensures InWindow(inner, disk.data, offset, r) || (r == Zeros(blockSize) && !(disk.reliable && Readable(offset)))
    {
      if offset % BLOCK == 0 {
        var cached := cache.Get(offset);
        if cached.Some? {
          return cached.value;
        }
      }
      var block := ReadSectors(disk, inner, offset, blockSize);
      if block.None? {
        return Zeros(blockSize);
      }
      if offset % BLOCK == 0 {
        cache.Insert(offset, block.value);
      }
      return block.value;
    }

    /**
     Splices `data` into the device. Even when requests fail, no other byte of the disk changes,
     each byte under the write is the old or the new one, and the cache stays coherent.
     */
    method WriteOffset(offset: nat, data: seq<byte>)
      requires Valid()
      modifies cache, disk
      ensures Valid()
      ensures Torn(old(disk.data), disk.data, Origin(inner) + offset, data)
      ensures OnlyInRange(inner, old(disk.data), disk.data)
      ensures disk.reliable && offset + |data| <= USIZE_MAX
              && offset + |data| <= TotalBlocks(inner, |disk.data|) * BLOCK ==>
                SplicedInto(old(disk.data), disk.data, Origin(inner) + offset, data)
    {
      if data == [] {
        assert SplicedInto(disk.data, disk.data, Origin(inner) + offset, []) || Origin(inner) + offset > |disk.data|;
        RangeOnDisk(inner, |disk.data|);
        return;
      }
      var writeEnd := offset + |data|;
      if writeEnd > USIZE_MAX {
        return;
      }
      cache.InvalidateRange(offset, writeEnd, blockSize);
      ghost var before := disk.data;
      WriteThrough(disk, inner, offset, data);
      StillCoherent(before, offset, data);
    }

    /** A torn write under which no block is cached leaves the cache coherent. */
    lemma StillCoherent(before: seq<byte>, offset: nat, data: seq<byte>)
      requires Torn(before, disk.data, Origin(inner) + offset, data)
      requires forall o | o in cache.entries ::
                 && o % BLOCK == 0 && |cache.entries[o].data| == blockSize
                 && InWindow(inner, before, o, cache.entries[o].data)
                 && (offset + |data| <= o || o + blockSize <= offset)
      ensures Coherent()
    {
    }
  }

  /** Reads all the sectors under a block in one request and cuts the block out. */
  method ReadSectors(disk: RamDisk, inner: Driver, offset: nat, blockSize: nat) returns (r: Option<seq<byte>>)
    requires Fits(inner, |disk.data|) && blockSize > 0 && blockSize % BLOCK == 0
    ensures r.Some? ==> |r.value| == blockSize && InWindow(inner, disk.data, offset, r.value)
    ensures disk.reliable && offset + blockSize <= TotalBlocks(inner, |disk.data|) * BLOCK ==> r.Some?
  {
    var startSector := offset / BLOCK;
    var sectorOffset := offset % BLOCK;
    var sectorsNeeded := (sectorOffset + blockSize + BLOCK - 1) / BLOCK;
    SectorSpan(offset, blockSize);
    SectorInside(offset, blockSize, startSector + sectorsNeeded - 1, Size(inner, |disk.data|));
    var buffer := ReadBlocks(disk, inner, startSector, sectorsNeeded * BLOCK);
    if buffer.None? {
      return None;
    }
    InsideRead(inner, disk.data, startSector * BLOCK, buffer.value, sectorOffset, blockSize);
    return Some(buffer.value[sectorOffset..sectorOffset + blockSize]);
  }

  /** Aligned data goes out in one request, other data sector by sector. */
  method WriteThrough(disk: RamDisk, inner: Driver, offset: nat, data: seq<byte>)
    requires Fits(inner, |disk.data|) && data != []
    modifies disk
    ensures Torn(old(disk.data), disk.data, Origin(inner) + offset, data)
    ensures OnlyInRange(inner, old(disk.data), disk.data)
    ensures disk.reliable && offset + |data| <= TotalBlocks(inner, |disk.data|) * BLOCK ==>
              SplicedInto(old(disk.data), disk.data, Origin(inner) + offset, data)
  {
    if offset % BLOCK == 0 && |data| % BLOCK == 0 {
      var _ := WriteBlocks(disk, inner, offset / BLOCK, data);
    } else {
      WriteSectors(disk, inner, offset, data);
    }
  }

  /** The sector loop of an unaligned write: whole sectors are written, partial ones read, patched and written. */
  method WriteSectors(disk: RamDisk, inner: Driver, offset: nat, data: seq<byte>)
    requires Fits(inner, |disk.data|) && data != []
    modifies disk
    ensures Torn(old(disk.data), disk.data, Origin(inner) + offset, data)
    ensures OnlyInRange(inner, old(disk.data), disk.data)
    ensures disk.reliable && offset + |data| <= TotalBlocks(inner, |disk.data|) * BLOCK ==>
              SplicedInto(old(disk.data), disk.data, Origin(inner) + offset, data)
  {
    RangeOnDisk(inner, |disk.data|);
    SectorSpan(offset, |data|);
    var startSector := offset / BLOCK;
    var sectorsNeeded := (offset % BLOCK + |data| + BLOCK - 1) / BLOCK;
    ghost var before, fits := disk.data, disk.reliable && offset + |data| <= TotalBlocks(inner, |disk.data|) * BLOCK;
    if fits {
      SectorInside(offset, |data|, startSector + sectorsNeeded - 1, Size(inner, |disk.data|));
    }
    ghost var reached := WriteSectorRange(disk, inner, offset, data, startSector, startSector + sectorsNeeded, fits);
    if fits {
      SoFarEnd(inner, before, disk.data, offset, data, reached, fits);
    }
  }

  /** The sectors from `first` to before `end`, which are those under the write. */
  method WriteSectorRange(disk: RamDisk, inner: Driver, offset: nat, data: seq<byte>, first: nat, end: nat,
                          ghost fits: bool)
    returns (ghost reached: nat)
    requires Fits(inner, |disk.data|) && data != [] && first < end
    requires first * BLOCK <= offset < (first + 1) * BLOCK && (end - 1) * BLOCK < offset + |data| <= end * BLOCK
    requires fits ==> disk.reliable && end * BLOCK <= Size(inner, |disk.data|)
    requires fits ==> Origin(inner) + offset + |data| <= |disk.data|
    modifies disk
    ensures SoFar(inner, old(disk.data), disk.data, offset, data, reached, fits) && (fits ==> reached == end)
  {
    ghost var before := disk.data;
    var sector := first;
    SoFarStart(inner, before, offset, data, first, fits);
    while sector < end
      invariant first <= sector <= end
      invariant |disk.data| == |before|
      invariant SoFar(inner, before, disk.data, offset, data, sector, fits)
    {
      assert offset < (sector + 1) * BLOCK && sector * BLOCK < offset + |data|;
      var ok := WriteSector(disk, inner, offset, data, sector, before, fits);
      sector := sector + 1;
      if !ok {
        return sector;
      }
    }
    reached := sector;
  }

  /** The state of the sector loop before sector `sector`; `fits` when no request can fail. */
  ghost predicate SoFar(inner: Driver, before: seq<byte>, now: seq<byte>, offset: nat, data: seq<byte>, sector: nat,
                        fits: bool) {
    && Torn(before, now, Origin(inner) + offset, data)
    && OnlyInRange(inner, before, now)
    && (fits ==> Written(before, now, Origin(inner) + offset, data, Done(offset, data, sector)))
  }

  lemma SoFarStart(inner: Driver, before: seq<byte>, offset: nat, data: seq<byte>, sector: nat, fits: bool)
    requires sector * BLOCK <= offset
    requires fits ==> Origin(inner) + offset + |data| <= |before|
    ensures SoFar(inner, before, before, offset, data, sector, fits)
  {
    if fits {
      assert Splice(before, Origin(inner) + offset, []) == before;
      assert data[..0] == [];
    }
  }

  lemma SoFarMore(inner: Driver, before: seq<byte>, was: seq<byte>, now: seq<byte>, offset: nat, data: seq<byte>,
                  sector: nat, fits: bool)
    requires SoFar(inner, before, was, offset, data, sector, fits)
    requires Torn(was, now, Origin(inner) + offset, data) && OnlyInRange(inner, was, now)
    requires fits ==> SectorDone(was, now, Origin(inner), offset, data, sector)
    ensures SoFar(inner, before, now, offset, data, sector + 1, fits)
  {
    TornTwice(before, was, now, Origin(inner) + offset, data);
    RangeTwice(inner, before, was, now);
    if fits {
      WrittenMore(before, was, now, offset, Origin(inner), data, sector);
    }
  }

  lemma RangeTwice(inner: Driver, a: seq<byte>, b: seq<byte>, c: seq<byte>)
    requires |a| == |b| == |c| && OnlyInRange(inner, a, b) && OnlyInRange(inner, b, c)
    ensures OnlyInRange(inner, a, c)
  {
  }

  lemma SoFarEnd(inner: Driver, before: seq<byte>, now: seq<byte>, offset: nat, data: seq<byte>, sector: nat,
                 fits: bool)
    requires SoFar(inner, before, now, offset, data, sector, fits) && offset + |data| <= sector * BLOCK
    ensures Torn(before, now, Origin(inner) + offset, data) && OnlyInRange(inner, before, now)
    ensures fits ==> SplicedInto(before, now, Origin(inner) + offset, data)
  {
    assert Done(offset, data, sector) == |data|;
    assert data[..|data|] == data;
  }

  /** The sectors from the one holding `offset` on that are needed for `n` bytes. */
  lemma SectorSpan(offset: nat, n: nat)
    requires n > 0
    ensures var first, count := offset / BLOCK, (offset % BLOCK + n + BLOCK - 1) / BLOCK;
            && (first + count - 1) * BLOCK < offset + n <= (first + count) * BLOCK
            && first * BLOCK + offset % BLOCK == offset
            && (offset % BLOCK == 0 && n % BLOCK == 0 ==> count * BLOCK == n)
  {
  }

  lemma SectorInside(offset: nat, n: nat, sector: nat, size: nat)
    requires n > 0 && offset / BLOCK <= sector < offset / BLOCK + (offset % BLOCK + n + BLOCK - 1) / BLOCK
    ensures offset < (sector + 1) * BLOCK && sector * BLOCK < offset + n
    ensures offset + n <= size / BLOCK * BLOCK ==> (sector + 1) * BLOCK <= size
  {
    SectorSpan(offset, n);
  }

  /** How many bytes of `data` lie before sector `sector`. */
  function Done(offset: nat, data: seq<byte>, sector: nat): nat {
    Max(0, Min(|data|, sector * BLOCK - offset))
  }

  /** The first `done` bytes of `data` have arrived and nothing else changed. */
  ghost predicate Written(before: seq<byte>, after: seq<byte>, off: nat, data: seq<byte>, done: nat) {
    && done <= |data| && off + |data| <= |before| == |after|
    && after == Splice(before, off, data[..done])
  }

  ghost predicate SplicedInto(before: seq<byte>, after: seq<byte>, off: nat, data: seq<byte>) {
    off + |data| <= |before| && after == Splice(before, off, data)
  }

  lemma TornTwice(a: seq<byte>, b: seq<byte>, c: seq<byte>, off: nat, d: seq<byte>)
    requires Torn(a, b, off, d) && Torn(b, c, off, d)
    ensures Torn(a, c, off, d)
  {
  }

  lemma WrittenMore(before: seq<byte>, was: seq<byte>, now: seq<byte>, offset: nat, origin: nat, data: seq<byte>,
                    sector: nat)
    requires Written(before, was, origin + offset, data, Done(offset, data, sector))
    requires SectorDone(was, now, origin, offset, data, sector)
    ensures Written(before, now, origin + offset, data, Done(offset, data, sector + 1))
  {
  }

  /** Exactly the bytes of `data` that lie in sector `sector` have arrived. */
  ghost predicate SectorDone(was: seq<byte>, now: seq<byte>, origin: nat, offset: nat, data: seq<byte>, sector: nat) {
    && |now| == |was|
    && forall k | 0 <= k < |was| ::
         now[k] == if origin + Max(offset, sector * BLOCK) <= k < origin + Min(offset + |data|, (sector + 1) * BLOCK)
                   then data[k - origin - offset] else was[k]
  }

  /** One turn of the sector loop; false when the loop has to stop. */
  method WriteSector(disk: RamDisk, inner: Driver, offset: nat, data: seq<byte>, sector: nat, ghost before: seq<byte>,
                     ghost fits: bool)
    returns (ok: bool)
    requires Fits(inner, |disk.data|)
    requires offset < (sector + 1) * BLOCK && sector * BLOCK < offset + |data|
    requires fits ==> disk.reliable && (sector + 1) * BLOCK <= Size(inner, |disk.data|)
    requires SoFar(inner, before, disk.data, offset, data, sector, fits)
    modifies disk
    ensures |disk.data| == |old(disk.data)|
    ensures SoFar(inner, before, disk.data, offset, data, sector + 1, fits)
    ensures fits ==> ok
  {
    ghost var was := disk.data;
    var sectorStart := sector * BLOCK;
    var sectorEnd := sectorStart + BLOCK;
    var overlapStart := Max(offset, sectorStart);
    var overlapEnd := Min(offset + |data|, sectorEnd);
    if overlapStart == sectorStart && overlapEnd == sectorEnd {
      WriteWholeSector(disk, inner, offset, data, sector);
      ok := true;
    } else {
      ok := PatchSector(disk, inner, offset, data, sector, overlapStart, overlapEnd);
    }
    SoFarMore(inner, before, was, disk.data, offset, data, sector, fits);
  }

  method WriteWholeSector(disk: RamDisk, inner: Driver, offset: nat, data: seq<byte>, sector: nat)
    requires Fits(inner, |disk.data|)
    requires offset <= sector * BLOCK && (sector + 1) * BLOCK <= offset + |data|
    modifies disk
    ensures Torn(old(disk.data), disk.data, Origin(inner) + offset, data)
    ensures OnlyInRange(inner, old(disk.data), disk.data)
    ensures disk.reliable && (sector + 1) * BLOCK <= Size(inner, |disk.data|) ==>
              SectorDone(old(disk.data), disk.data, Origin(inner), offset, data, sector)
  {
    ghost var before := disk.data;
    var lo, hi := sector * BLOCK - offset, (sector + 1) * BLOCK - offset;
    assert Origin(inner) + sector * BLOCK == Origin(inner) + offset + lo;
    var wrote := WriteBlocks(disk, inner, sector, data[lo..hi]);
    TornPiece(before, disk.data, Origin(inner) + offset, data, lo, hi);
    if wrote {
      PieceDone(before, disk.data, Origin(inner), offset, data, sector, sector * BLOCK, (sector + 1) * BLOCK);
    }
  }

  method PatchSector(disk: RamDisk, inner: Driver, offset: nat, data: seq<byte>, sector: nat, from: nat, to: nat)
    returns (ok: bool)
    requires Fits(inner, |disk.data|)
    requires offset < (sector + 1) * BLOCK && sector * BLOCK < offset + |data|
    requires from == Max(offset, sector * BLOCK) && to == Min(offset + |data|, (sector + 1) * BLOCK)
    modifies disk
    ensures Torn(old(disk.data), disk.data, Origin(inner) + offset, data)
    ensures OnlyInRange(inner, old(disk.data), disk.data)
    ensures disk.reliable && (sector + 1) * BLOCK <= Size(inner, |disk.data|) ==>
              ok && SectorDone(old(disk.data), disk.data, Origin(inner), offset, data, sector)
  {
    ghost var before := disk.data;
    var lo := from - sector * BLOCK;
    var wrote;
    ok, wrote := RewriteBlock(disk, inner, sector, lo, data[from - offset..to - offset]);
    assert Origin(inner) + sector * BLOCK + lo == Origin(inner) + from;
    if wrote {
      PieceWritten(before, disk.data, Origin(inner), offset, data, sector, from, to);
    } else {
      Untouched(inner, disk.data, Origin(inner) + offset, data);
    }
  }

  /** Reads a block, patches it and writes it back. */
  method RewriteBlock(disk: RamDisk, inner: Driver, sector: nat, lo: nat, piece: seq<byte>)
    returns (read: bool, wrote: bool)
    requires Fits(inner, |disk.data|) && lo + |piece| <= BLOCK
    modifies disk
    ensures !wrote ==> disk.data == old(disk.data)
    ensures wrote ==>
              && SplicedInto(old(disk.data), disk.data, Origin(inner) + sector * BLOCK + lo, piece)
              && OnlyInRange(inner, old(disk.data), disk.data)
    ensures disk.reliable && (sector + 1) * BLOCK <= Size(inner, |disk.data|) ==> read && wrote
  {
    var buf := ReadBlock(disk, inner, sector, BLOCK);
    if buf.None? {
      return false, false;
    }
    read := true;
    wrote := WriteBack(disk, inner, sector, buf.value, lo, piece);
  }

  /** Writes a block back with a patch. */
  method WriteBack(disk: RamDisk, inner: Driver, sector: nat, buf: seq<byte>, lo: nat, piece: seq<byte>)
    returns (wrote: bool)
    requires Fits(inner, |disk.data|) && |buf| == BLOCK && lo + |piece| <= BLOCK
    requires InWindow(inner, disk.data, sector * BLOCK, buf)
    modifies disk
    ensures !wrote ==> disk.data == old(disk.data)
    ensures wrote ==>
              && SplicedInto(old(disk.data), disk.data, Origin(inner) + sector * BLOCK + lo, piece)
              && OnlyInRange(inner, old(disk.data), disk.data)
    ensures disk.reliable && (sector + 1) * BLOCK <= Size(inner, |disk.data|) ==> wrote
  {
    ghost var before := disk.data;
    wrote := WriteBlock(disk, inner, sector, Splice(buf, lo, piece));
    if wrote {
      Rewritten(inner, before, disk.data, sector * BLOCK, buf, lo, piece);
    }
  }

  lemma WindowIs(inner: Driver, disk: seq<byte>, off: nat, bytes: seq<byte>)
    requires InWindow(inner, disk, off, bytes)
    ensures var start := Origin(inner) + off;
            && start + |bytes| <= |disk| && start + |bytes| <= Origin(inner) + Size(inner, |disk|)
            && forall m | 0 <= m < |bytes| :: bytes[m] == disk[start + m]
  {
  }

  /** Writing back a block that was read and patched replaces exactly the patch. */
  lemma PatchBack(before: seq<byte>, start: nat, buf: seq<byte>, lo: nat, piece: seq<byte>)
    requires start + |buf| <= |before| && lo + |piece| <= |buf|
    requires forall m | 0 <= m < |buf| :: buf[m] == before[start + m]
    ensures Splice(before, start, Splice(buf, lo, piece)) == Splice(before, start + lo, piece)
  {
    var patched := Splice(buf, lo, piece);
    forall k | 0 <= k < |before|
      ensures Splice(before, start, patched)[k] == Splice(before, start + lo, piece)[k]
    {
      if start <= k < start + |buf| {
        assert Splice(before, start, patched)[k] == patched[k - start];
        assert buf[k - start] == before[k];
      }
    }
  }

  lemma Rewritten(inner: Driver, before: seq<byte>, after: seq<byte>, off: nat, buf: seq<byte>, lo: nat,
                  piece: seq<byte>)
    requires |buf| == BLOCK && lo + |piece| <= BLOCK && InWindow(inner, before, off, buf)
    requires after == Splice(before, Origin(inner) + off, Splice(buf, lo, piece))
    ensures SplicedInto(before, after, Origin(inner) + off + lo, piece) && OnlyInRange(inner, before, after)
  {
    var start := Origin(inner) + off;
    WindowIs(inner, before, off, buf);
    PatchBack(before, start, buf, lo, piece);
    SpliceInRange(inner, before, start, Splice(buf, lo, piece));
  }

  /** A splice inside the device's range changes nothing outside of it. */
  lemma SpliceInRange(inner: Driver, before: seq<byte>, at: nat, d: seq<byte>)
    requires Origin(inner) <= at && at + |d| <= Origin(inner) + Size(inner, |before|) && at + |d| <= |before|
    ensures OnlyInRange(inner, before, Splice(before, at, d))
  {
  }

  /** Splicing in the part of `data` that lies in one sector does that sector. */
  lemma PieceDone(before: seq<byte>, after: seq<byte>, origin: nat, offset: nat, data: seq<byte>, sector: nat,
                  from: nat, to: nat)
    requires from == Max(offset, sector * BLOCK) && to == Min(offset + |data|, (sector + 1) * BLOCK) && from <= to
    requires origin + to <= |before| && after == Splice(before, origin + from, data[from - offset..to - offset])
    ensures SectorDone(before, after, origin, offset, data, sector)
  {
  }

  lemma PieceWritten(before: seq<byte>, after: seq<byte>, origin: nat, offset: nat, data: seq<byte>, sector: nat,
                     from: nat, to: nat)
    requires from == Max(offset, sector * BLOCK) && to == Min(offset + |data|, (sector + 1) * BLOCK) && from <= to
    requires SplicedInto(before, after, origin + from, data[from - offset..to - offset])
    ensures SectorDone(before, after, origin, offset, data, sector) && Torn(before, after, origin + offset, data)
  {
    PieceDone(before, after, origin, offset, data, sector, from, to);
    TornPiece(before, after, origin + offset, data, from - offset, to - offset);
  }

  lemma Untouched(inner: Driver, disk: seq<byte>, at: nat, data: seq<byte>)
    ensures Torn(disk, disk, at, data) && OnlyInRange(inner, disk, disk)
  {
  }

  /** A torn write of a part of `data` is a torn write of `data`. */
  lemma TornPiece(before: seq<byte>, after: seq<byte>, at: nat, data: seq<byte>, lo: nat, hi: nat)
    requires lo <= hi <= |data| && Torn(before, after, at + lo, data[lo..hi])
    ensures Torn(before, after, at, data)
  {
  }

  // --- Whole runs ---

  datatype Op = ReadOp(offset: nat) | WriteOp(offset: nat, data: seq<byte>)

  /** The operation lies on the whole sectors of a device that covers `total` bytes of the disk. */
  predicate Inside(op: Op, inner: Driver, blockSize: nat, total: nat) {
    var size := TotalBlocks(inner, total) * BLOCK;
    match op
    case ReadOp(offset) => offset + blockSize <= size
    case WriteOp(offset, data) => offset + |data| <= size && offset + |data| <= USIZE_MAX
  }

  /** One operation on a flat disk: a write on it replaces its bytes. */
  function FlatStep(data: seq<byte>, inner: Driver, op: Op): (r: seq<byte>)
    ensures |r| == |data|
  {
    if op.WriteOp? && Origin(inner) + op.offset + |op.data| <= |data| then
      Splice(data, Origin(inner) + op.offset, op.data)
    else data
  }

  function FlatDisk(data: seq<byte>, inner: Driver, ops: seq<Op>): (r: seq<byte>)
    ensures |r| == |data|
  {
    if ops == [] then data else FlatStep(FlatDisk(data, inner, ops[..|ops| - 1]), inner, ops[|ops| - 1])
  }

  lemma FlatDiskMore(data: seq<byte>, inner: Driver, ops: seq<Op>, k: nat)
    requires k < |ops|
    ensures FlatDisk(data, inner, ops[..k + 1]) == FlatStep(FlatDisk(data, inner, ops[..k]), inner, ops[k])
  {
    assert ops[..k + 1][..k] == ops[..k];
  }

  /** An answer that is the flat disk's block. */
  ghost predicate FlatAnswer(data: seq<byte>, inner: Driver, ops: seq<Op>, k: nat, answer: seq<byte>)
    requires k < |ops|
  {
    ops[k].ReadOp? ==> InWindow(inner, FlatDisk(data, inner, ops[..k]), ops[k].offset, answer)
  }

  /** One operation on an adapter over a disk that does not fail is one step of the flat disk. */
  method StepReliable(a: BlockDeviceAdapter, op: Op) returns (answer: seq<byte>)
    requires a.Valid() && a.disk.reliable && Inside(op, a.inner, a.blockSize, |a.disk.data|)
    modifies a.cache, a.disk
    ensures a.Valid() && a.disk.data == FlatStep(old(a.disk.data), a.inner, op)
    ensures op.ReadOp? ==> |answer| == a.blockSize && InWindow(a.inner, old(a.disk.data), op.offset, answer)
  {
    answer := [];
    match op
    case ReadOp(offset) => answer := a.ReadOffset(offset);
    case WriteOp(offset, d) => a.WriteOffset(offset, d);
  }

  /**
   Any run of block reads and byte-range writes on a disk that does not fail: every read answers the flat disk,
   whatever is cached, and at the end the disk is the flat disk.
   */
  method RunReliable(a: BlockDeviceAdapter, ops: seq<Op>) returns (answers: seq<seq<byte>>)
    requires a.Valid() && a.disk.reliable
    requires forall i | 0 <= i < |ops| :: Inside(ops[i], a.inner, a.blockSize, |a.disk.data|)
    modifies a.cache, a.disk
    ensures a.Valid() && |answers| == |ops|
    ensures a.disk.data == FlatDisk(old(a.disk.data), a.inner, ops)
    ensures forall k | 0 <= k < |ops| :: FlatAnswer(old(a.disk.data), a.inner, ops, k, answers[k])
  {
    answers := [];
    ghost var data := a.disk.data;
    for k := 0 to |ops|
      invariant a.Valid() && |answers| == k
      invariant a.disk.data == FlatDisk(data, a.inner, ops[..k])
      invariant forall i | 0 <= i < k :: FlatAnswer(data, a.inner, ops, i, answers[i])
    {
      FlatDiskMore(data, a.inner, ops, k);
      var answer := StepReliable(a, ops[k]);
      answers := answers + [answer];
    }
    assert ops[..|ops|] == ops;
  }

  /** What one operation may do on a disk whose requests can fail: only a write changes it, and only its own bytes. */
  ghost predicate TornStep(before: seq<byte>, after: seq<byte>, inner: Driver, op: Op) {
    match op
    case ReadOp(_) => after == before
    case WriteOp(offset, d) => Torn(before, after, Origin(inner) + offset, d)
  }

  /** An answer on a disk whose requests can fail: the device's bytes as they stand, or zeros. */
  ghost predicate TornAnswer(disk: seq<byte>, inner: Driver, blockSize: nat, op: Op, answer: seq<byte>) {
    op.ReadOp? ==> |answer| == blockSize && (InWindow(inner, disk, op.offset, answer) || answer == Zeros(blockSize))
  }

  method Step(a: BlockDeviceAdapter, op: Op) returns (answer: seq<byte>)
    requires a.Valid()
    modifies a.cache, a.disk
    ensures a.Valid() && |a.disk.data| == |old(a.disk.data)|
    ensures TornStep(old(a.disk.data), a.disk.data, a.inner, op) && OnlyInRange(a.inner, old(a.disk.data), a.disk.data)
    ensures TornAnswer(old(a.disk.data), a.inner, a.blockSize, op, answer)
  {
    answer := [];
    match op
    case ReadOp(offset) =>
      answer := a.ReadOffset(offset);
      Untouched(a.inner, a.disk.data, 0, []);
    case WriteOp(offset, d) => a.WriteOffset(offset, d);
  }

  /**
   Any run, failing requests included. `disks` are the contents of the disk between the operations: each operation
   changes at most its own bytes, every read answers the device as it stands or zeros, the cache stays coherent and no
   byte outside the device's range ever changes.
   */
  method Run(a: BlockDeviceAdapter, ops: seq<Op>) returns (answers: seq<seq<byte>>, ghost disks: seq<seq<byte>>)
    requires a.Valid()
    modifies a.cache, a.disk
    ensures a.Valid() && |answers| == |ops| && |disks| == |ops| + 1
    ensures disks[0] == old(a.disk.data) && disks[|ops|] == a.disk.data
    ensures forall k | 0 <= k < |ops| :: TornStep(disks[k], disks[k + 1], a.inner, ops[k])
    ensures forall k | 0 <= k < |ops| :: TornAnswer(disks[k], a.inner, a.blockSize, ops[k], answers[k])
    ensures |a.disk.data| == |old(a.disk.data)| && OnlyInRange(a.inner, old(a.disk.data), a.disk.data)
  {
    answers, disks := [], [a.disk.data];
    Untouched(a.inner, a.disk.data, 0, []);
    for k := 0 to |ops|
      invariant a.Valid() && |answers| == k && |disks| == k + 1
      invariant disks[0] == old(a.disk.data) && disks[k] == a.disk.data
      invariant forall i | 0 <= i < k :: TornStep(disks[i], disks[i + 1], a.inner, ops[i])
      invariant forall i | 0 <= i < k :: TornAnswer(disks[i], a.inner, a.blockSize, ops[i], answers[i])
      invariant |a.disk.data| == |old(a.disk.data)| && OnlyInRange(a.inner, old(a.disk.data), a.disk.data)
    {
      ghost var before := a.disk.data;
      var answer := Step(a, ops[k]);
      RangeTwice(a.inner, old(a.disk.data), before, a.disk.data);
      answers, disks := answers + [answer], disks + [a.disk.data];
    }
  }
}
