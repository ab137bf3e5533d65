/** The clean file page cache shared by the file systems. */
module PageCache {
  import opened Flat
  import Lru

  datatype FsError = IsDirectory | IoError | NoMemory

  datatype Result<+T> = Ok(value: T) | Err(error: FsError)

  datatype ObjectId = ObjectId(fsId: nat, inodeNo: nat)

  datatype Key = Key(obj: ObjectId, index: nat)

  datatype Entry = Entry(data: seq<byte>, age: nat)

  datatype Stats = Stats(hits: nat, misses: nat, inserts: nat, evicts: nat, invalidates: nat, fillErrors: nat)

  /** Page `index` of a file: one page of its bytes, shorter at the end of the file. */
  function PageOf(file: seq<byte>, index: nat): (page: seq<byte>)
    ensures |page| <= PAGE_SIZE
  {
    Read(file, index * PAGE_SIZE, PAGE_SIZE)
  }

  /** Page `index` shares a byte with `[off, off + len)`. */
  predicate Intersects(index: nat, off: nat, len: nat) {
    len > 0 && index * PAGE_SIZE < off + len && off < (index + 1) * PAGE_SIZE
  }

  /** How far to go from `at` within one page when `left` bytes remain. */
  function ChunkAt(at: nat, left: nat): (n: nat)
    requires left > 0
    ensures 0 < n <= left && n <= PAGE_SIZE - at % PAGE_SIZE
    ensures n < left ==> (at + n) % PAGE_SIZE == 0
  {
    Min(PAGE_SIZE - at % PAGE_SIZE, left)
  }

  /** The pages left once every page of `obj` that shares a byte with the range is gone. */
  function Without(pages: map<Key, seq<byte>>, obj: ObjectId, off: nat, len: nat): map<Key, seq<byte>> {
    map k | k in pages && !(k.obj == obj && Intersects(k.index, off, len)) :: pages[k]
  }

  function Restrict(pages: map<Key, seq<byte>>, kept: set<Key>): map<Key, seq<byte>> {
    map k | k in pages && k in kept :: pages[k]
  }

  /** What is cached, without the stamps. */
  function DataOf(pages: map<Key, Entry>): map<Key, seq<byte>> {
    map k | k in pages :: pages[k].data
  }

  function AgesOf(pages: map<Key, Entry>): map<Key, nat> {
    map k | k in pages :: pages[k].age
  }

  function Kept(pages: map<Key, Entry>, kept: set<Key>): map<Key, Entry> {
    map k | k in pages && k in kept :: pages[k]
  }

  /** Keeping some pages keeps their data and ages, and there are no more of them. */
  lemma KeptPages(pages: map<Key, Entry>, kept: set<Key>)
    requires kept <= pages.Keys
    ensures var left := Kept(pages, kept);
            && left.Keys == kept && |left| == |kept| <= |pages| && DataOf(left) == Restrict(DataOf(pages), kept)
            && forall k | k in AgesOf(left) :: k in AgesOf(pages) && AgesOf(left)[k] == AgesOf(pages)[k]
  {
    var left := Kept(pages, kept);
    assert left.Keys == kept;
    assert |left| == |left.Keys| && |pages| == |pages.Keys|;
    SubsetSize(kept, pages.Keys);
  }

  /** Restamping a page changes its age only. */
  lemma Restamped(pages: map<Key, Entry>, key: Key, age: nat)
    requires key in pages
    ensures var now := pages[key := pages[key].(age := age)];
            && now.Keys == pages.Keys && |now| == |pages|
            && DataOf(now) == DataOf(pages) && AgesOf(now) == AgesOf(pages)[key := age]
  {
    var now := pages[key := pages[key].(age := age)];
    assert now.Keys == pages.Keys;
    assert |now| == |now.Keys| && |pages| == |pages.Keys|;
  }

  /** A capacity of `maxPages` pages; `framesPlenty` says that the frame allocator never runs dry. */
  class PageCache {
    const maxPages: nat
    const framesPlenty: bool
    var pages: map<Key, Entry>
    var clock: nat
    var stats: Stats
    ghost var history: seq<Option<Key>>

    /** What is cached, without the stamps. */
    ghost function Data(): map<Key, seq<byte>>
      reads this
    {
      DataOf(pages)
    }

    function Ages(): map<Key, nat>
      reads this
    {
      AgesOf(pages)
    }

    ghost predicate Valid()
      reads this
    {
      && |pages| <= maxPages
      && (forall k | k in pages :: 0 < |pages[k].data| <= PAGE_SIZE)
      && stats.inserts == |pages| + stats.evicts + stats.invalidates
      && Lru.Clocked(Ages(), clock, history)
    }

    constructor (maxPages: nat, framesPlenty: bool)
      ensures Valid() && this.maxPages == maxPages && this.framesPlenty == framesPlenty
      ensures pages == map[] && history == []
    {
      this.maxPages, this.framesPlenty := maxPages, framesPlenty;
      pages, clock, stats, history := map[], 0, Stats(0, 0, 0, 0, 0, 0), [];
    }

    /** Finds a page and refreshes its stamp; a hit or a miss is counted. */
    method Lookup(key: Key) returns (page: Option<seq<byte>>)
      requires Valid()
      modifies this
      ensures Valid() && Data() == old(Data()) && pages.Keys == old(pages.Keys)
      ensures page == if key in Data() then Some(Data()[key]) else None
      ensures history == old(history) + [if key in pages then Some(key) else None]
      ensures stats == if key in pages then old(stats).(hits := old(stats.hits) + 1)
                       else old(stats).(misses := old(stats.misses) + 1)
    {
      if key in pages {
        page := Some(pages[key].data);
        Touch(key);
      } else {
        Lru.MissKeepsStamps(Ages(), clock, history);
        clock := Lru.Tick(clock);
        history := history + [None];
        stats := stats.(misses := stats.misses + 1);
        page := None;
      }
    }

    /** A hit: the page gets the newest stamp. */
    method Touch(key: Key)
      requires Valid() && key in pages
      modifies this
      ensures Valid() && Data() == old(Data()) && pages.Keys == old(pages.Keys)
      ensures history == old(history) + [Some(key)] && stats == old(stats).(hits := old(stats.hits) + 1)
    {
      Lru.TouchKeepsStamps(Ages(), clock, history, key);
      clock := Lru.Tick(clock);
      Restamped(pages, key, clock);
      pages := pages[key := pages[key].(age := clock)];
      history := history + [Some(key)];
      stats := stats.(hits := stats.hits + 1);
    }

    /** Copies out the cached bytes at `off`, at most `len` of them and none past the page. */
    method ReadHit(obj: ObjectId, off: nat, len: nat) returns (r: Option<seq<byte>>)
      requires Valid()
      modifies this
      ensures Valid() && Data() == old(Data())
      ensures var key := Key(obj, off / PAGE_SIZE);
              r == if key in Data() then Some(Read(Data()[key], off % PAGE_SIZE, len)) else None
    {
      var page := Lookup(Key(obj, off / PAGE_SIZE));
      if page.None? {
        return None;
      }
      var pageOffset := off % PAGE_SIZE;
      if pageOffset >= |page.value| {
        return Some([]);
      }
      var n := Min(|page.value| - pageOffset, len);
      return Some(page.value[pageOffset..pageOffset + n]);
    }

    /** Drops oldest pages until one more fits. */
    method EvictUntilSpace()
      requires |pages| <= maxPages && maxPages > 0
      requires Lru.Clocked(Ages(), clock, history)
      requires stats.inserts == |pages| + stats.evicts + stats.invalidates
      modifies this
      ensures |pages| == Min(old(|pages|), maxPages - 1)
      ensures forall k | k in pages :: k in old(pages) && pages[k] == old(pages[k])
      ensures Lru.Clocked(Ages(), clock, history)
      ensures |history| < Lru.U64_RANGE ==> Lru.DroppedLeastRecent(old(pages.Keys), pages.Keys, history)
      ensures stats.inserts == |pages| + stats.evicts + stats.invalidates
      ensures stats.invalidates == old(stats.invalidates) && stats.inserts == old(stats.inserts)
      ensures clock == old(clock) && history == old(history)
    {
      while |pages| >= maxPages
        invariant |pages| >= Min(old(|pages|), maxPages - 1)
        invariant |pages| <= old(|pages|)
        invariant forall k | k in pages :: k in old(pages) && pages[k] == old(pages[k])
        invariant Lru.Clocked(Ages(), clock, history)
        invariant |history| < Lru.U64_RANGE ==> Lru.DroppedLeastRecent(old(pages.Keys), pages.Keys, history)
        invariant stats.inserts == |pages| + stats.evicts + stats.invalidates
        invariant stats.invalidates == old(stats.invalidates) && stats.inserts == old(stats.inserts)
        invariant clock == old(clock) && history == old(history)
        decreases |pages|
      {
        ghost var before := pages.Keys;
        EvictOne();
        if |history| < Lru.U64_RANGE {
          Lru.DroppedTwice(old(pages.Keys), before, pages.Keys, history);
        }
      }
    }

    /** Drops the oldest page. */
    method EvictOne()
      requires pages != map[] && Lru.Clocked(Ages(), clock, history)
      modifies this`pages, this`stats
      ensures |pages| == old(|pages|) - 1
      ensures forall k | k in pages :: k in old(pages) && pages[k] == old(pages[k])
      ensures Lru.Clocked(Ages(), clock, history)
      ensures |history| < Lru.U64_RANGE ==> Lru.DroppedLeastRecent(old(pages.Keys), pages.Keys, history)
      ensures stats == old(stats).(evicts := old(stats.evicts) + 1)
    {
      ghost var before, ages := pages, Ages();
      assert ages.Keys == pages.Keys != {};
      var victim := Lru.Oldest(Ages());
      if |history| < Lru.U64_RANGE {
        forall kept | kept in before.Keys - {victim} ensures Lru.LastUse(history, victim) < Lru.LastUse(history, kept) {
          Lru.OldestIsLeastRecent(ages, history, victim, kept);
        }
      }
      pages := Kept(pages, pages.Keys - {victim});
      KeptPages(before, before.Keys - {victim});
      assert |before| == |before.Keys|;
      Lru.ForgetKeepsStamps(ages, Ages(), clock, history);
      stats := stats.(evicts := stats.evicts + 1);
    }

    /**
     Returns the cached page, or the page the fill produced, cached when that is possible.
     `fill` is what the fill closure answers if it is asked: the bytes it put into the page buffer.
     */
    method GetOrInsertCleanPage(obj: ObjectId, index: nat, fill: Result<seq<byte>>) returns (r: Result<seq<byte>>)
      requires Valid()
      requires fill.Ok? ==> |fill.value| <= PAGE_SIZE
      modifies this
      ensures Valid()
      ensures forall k | k in Data() ::
                (k in old(Data()) && Data()[k] == old(Data())[k]) || (k == Key(obj, index) && fill == Ok(Data()[k]))
      ensures Key(obj, index) in old(Data()) ==> r == Ok(old(Data())[Key(obj, index)]) && Data() == old(Data())
      ensures Key(obj, index) !in old(Data()) ==> r == fill || (r == Err(NoMemory) && !framesPlenty && maxPages > 0)
      ensures Key(obj, index) !in old(Data()) && r.Ok? && |fill.value| > 0 && maxPages > 0 ==> Key(obj, index) in Data()
      ensures Key(obj, index) !in Data() ==> Data() == old(Data())
      ensures Key(obj, index) !in old(Data()) && |history| < Lru.U64_RANGE ==>
                Lru.DroppedLeastRecent(old(pages.Keys), pages.Keys - {Key(obj, index)}, old(history))
      ensures history == old(history) + (if Key(obj, index) in old(Data()) then [Some(Key(obj, index))]
                                         else if Key(obj, index) in Data() then [None, Some(Key(obj, index))]
                                           else [None])
    {
      var key := Key(obj, index);
      var hit := Lookup(key);
      if hit.Some? {
        return Ok(hit.value);
      }
      if maxPages == 0 {
        if fill.Err? {
          stats := stats.(fillErrors := stats.fillErrors + 1);
        }
        return fill;
      }
      if !framesPlenty {
        var outOfFrames: bool := *;
        if outOfFrames {
          return Err(NoMemory);
        }
      }
      if fill.Err? {
        stats := stats.(fillErrors := stats.fillErrors + 1);
        return fill;
      }
      if fill.value == [] {
        return fill;
      }
      InsertNew(key, fill.value);
      assert old(history) + [None] + [Some(key)] == old(history) + [None, Some(key)];
      if |history| < Lru.U64_RANGE {
        Lru.MissKeepsOrder(old(pages.Keys), pages.Keys - {key}, old(history));
      }
      return fill;
    }

    /** Stamps and stores a page that is not cached yet. */
    method InsertNew(key: Key, data: seq<byte>)
      requires Valid() && maxPages > 0 && key !in pages && 0 < |data| <= PAGE_SIZE
      modifies this
      ensures Valid()
      ensures key in Data() && Data()[key] == data
      ensures forall k | k in Data() && k != key :: k in old(Data()) && Data()[k] == old(Data())[k]
      ensures history == old(history) + [Some(key)]
      ensures |history| < Lru.U64_RANGE ==> Lru.DroppedLeastRecent(old(pages.Keys), pages.Keys - {key}, old(history))
      ensures old(|pages|) < maxPages ==> |pages| == old(|pages|) + 1
    {
      EvictUntilSpace();
      StampAndStore(key, data);
    }

    /** Stores a page for which there is room. */
    method StampAndStore(key: Key, data: seq<byte>)
      requires Valid() && |pages| < maxPages && key !in pages && 0 < |data| <= PAGE_SIZE
      modifies this
      ensures Valid()
      ensures pages == old(pages)[key := Entry(data, clock)]
      ensures pages.Keys - {key} == old(pages.Keys) && |pages| == old(|pages|) + 1
      ensures history == old(history) + [Some(key)]
    {
      ghost var kept := pages.Keys;
      assert |pages| == |kept|;
      ghost var ages := Ages();
      Lru.TouchKeepsStamps(ages, clock, history, key);
      clock := Lru.Tick(clock);
      pages := pages[key := Entry(data, clock)];
      history := history + [Some(key)];
      stats := stats.(inserts := stats.inserts + 1);
      assert pages.Keys == kept + {key};
      assert |pages| == |pages.Keys|;
      assert Ages() == ages[key := clock];
    }

    /** Drops the pages of `obj` that share a byte with `[off, off + len)`. */
    method InvalidateRange(obj: ObjectId, off: nat, len: nat)
      requires Valid()
      modifies this
      ensures Valid() && Data() == Without(old(Data()), obj, off, len)
    {
      if len == 0 {
        return;
      }
      var start := off / PAGE_SIZE;
      var end := (off + len - 1) / PAGE_SIZE + 1;
      var kept := set k | k in pages && (k.obj != obj || k.index < start || k.index >= end);
      RangeKept(Data(), obj, off, len, kept);
      Keep(kept);
    }

    /** Drops every page of one file. */
    method InvalidateInode(obj: ObjectId)
      requires Valid()
      modifies this
      ensures Valid() && Data() == map k | k in old(Data()) && k.obj != obj :: old(Data())[k]
    {
      Keep(set k | k in pages && k.obj != obj);
    }

    /** Keeps only the pages in `kept` and counts the rest as invalidated. */
    method Keep(kept: set<Key>)
      requires Valid() && kept <= pages.Keys
      modifies this
      ensures Valid() && pages.Keys == kept
      ensures forall k | k in kept :: pages[k] == old(pages[k])
      ensures Data() == Restrict(old(Data()), kept)
      ensures history == old(history) && clock == old(clock)
      ensures stats == old(stats).(invalidates := stats.invalidates)
    {
      var before := |pages|;
      ghost var ages := Ages();
      KeptPages(pages, kept);
      pages := Kept(pages, kept);
      Lru.ForgetKeepsStamps(ages, Ages(), clock, history);
      stats := stats.(invalidates := stats.invalidates + (before - |pages|));
    }

    /** Drops one page; answers how many pages that was. */
    method RemoveCachedPage(obj: ObjectId, index: nat) returns (removed: nat)
      requires Valid()
      modifies this
      ensures Valid() && Data() == old(Data()) - {Key(obj, index)}
      ensures removed == (if Key(obj, index) in old(pages) then 1 else 0) == old(|pages|) - |pages|
    {
      var key := Key(obj, index);
      if key !in pages {
        return 0;
      }
      assert |pages| == |pages.Keys|;
      assert |pages.Keys - {key}| == |pages| - 1;
      Keep(pages.Keys - {key});
      assert |pages| == |pages.Keys|;
      return 1;
    }

    /** Walks the pages under a written range and drops each; answers how many were cached. */
    method RefreshCleanRange(obj: ObjectId, off: nat, len: nat) returns (invalidated: nat)
      requires Valid()
      modifies this
      ensures Valid() && Data() == Without(old(Data()), obj, off, len)
      ensures invalidated == old(|pages|) - |pages|
    {
      invalidated := 0;
      var copied := 0;
      while copied < len
        invariant copied <= len
        invariant copied > 0 && copied < len ==> (off + copied) % PAGE_SIZE == 0
        invariant Valid() && Data() == Without(old(Data()), obj, off, copied)
        invariant invalidated == old(|pages|) - |pages|
      {
        var index := (off + copied) / PAGE_SIZE;
        var chunk := ChunkAt(off + copied, len - copied);
        var removed := RemoveCachedPage(obj, index);
        invalidated := invalidated + removed;
        WithoutChunk(old(Data()), obj, off, copied, chunk);
        copied := copied + chunk;
      }
    }
  }

  /** The pages from the first to the last byte of a range are the ones that share a byte with it. */
  lemma PagesOfRange(off: nat, len: nat, i: nat)
    requires len > 0
    ensures off / PAGE_SIZE <= i < (off + len - 1) / PAGE_SIZE + 1 <==> Intersects(i, off, len)
  {
  }

  lemma RangeKept(data: map<Key, seq<byte>>, obj: ObjectId, off: nat, len: nat, kept: set<Key>)
    requires len > 0
    requires forall k | k in data ::
               k in kept <==> k.obj != obj || k.index < off / PAGE_SIZE || k.index >= (off + len - 1) / PAGE_SIZE + 1
    ensures Restrict(data, kept) == Without(data, obj, off, len)
  {
    forall k | k in data
      ensures k in kept <==> !(k.obj == obj && Intersects(k.index, off, len))
    {
      PagesOfRange(off, len, k.index);
    }
  }

  /** One more chunk of a range adds exactly the page it lies in. */
  lemma ChunkIsOnePage(off: nat, copied: nat, chunk: nat, i: nat)
    requires copied > 0 ==> (off + copied) % PAGE_SIZE == 0
    requires 0 < chunk <= PAGE_SIZE - (off + copied) % PAGE_SIZE
    ensures Intersects(i, off, copied + chunk) <==> Intersects(i, off, copied) || i == (off + copied) / PAGE_SIZE
  {
    var page := (off + copied) / PAGE_SIZE;
    assert off + copied == page * PAGE_SIZE + (off + copied) % PAGE_SIZE;
  }

  lemma WithoutChunk(pages: map<Key, seq<byte>>, obj: ObjectId, off: nat, copied: nat, chunk: nat)
    requires copied > 0 ==> (off + copied) % PAGE_SIZE == 0
    requires 0 < chunk <= PAGE_SIZE - (off + copied) % PAGE_SIZE
    ensures Without(pages, obj, off, copied + chunk)
         == Without(pages, obj, off, copied) - {Key(obj, (off + copied) / PAGE_SIZE)}
  {
    forall k | k in pages
      ensures Intersects(k.index, off, copied + chunk)
         <==> Intersects(k.index, off, copied) || k.index == (off + copied) / PAGE_SIZE
    {
      ChunkIsOnePage(off, copied, chunk, k.index);
    }
  }
}
