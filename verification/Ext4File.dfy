/**
 Regular-file reads, writes and truncation of an ext4 inode through the page cache.

 `BackingFs` stands for the foreign ext4 library: it stores plain byte sequences, a failing call
 changes nothing, and a write may be cut short. When `reliable`, no call fails or is cut short.
 */
module Ext4File {
  import opened Flat
  import opened PageCache

  datatype Node = Dir | File(bytes: seq<byte>)

  type Files = map<ObjectId, Node>

  class BackingFs {
    const reliable: bool
    var files: Files
    ghost var shortWrite: bool  // the last write took fewer bytes than it was given

    constructor (reliable: bool, files: Files)
      ensures this.reliable == reliable && this.files == files
    {
      this.reliable, this.files, shortWrite := reliable, files, false;
    }

    method Read(ino: ObjectId, off: nat, len: nat) returns (r: Result<seq<byte>>)
      requires ino in files && files[ino].File?
      ensures r == Ok(Flat.Read(files[ino].bytes, off, len)) || (r == Err(IoError) && !reliable)
    {
      var fails: bool := *;
      if fails && !reliable {
        return Err(IoError);
      }
      return Ok(Flat.Read(files[ino].bytes, off, len));
    }

    method Write(ino: ObjectId, off: nat, data: seq<byte>) returns (r: Result<nat>)
      requires ino in files && files[ino].File?
      modifies this
      ensures r.Ok? ==> r.value <= |data|
      ensures files == if r.Ok? then old(files)[ino := File(Flat.Write(old(files[ino].bytes), off, data[..r.value]))]
                       else old(files)
      ensures r == Ok(|data|) || (!reliable && (r.Ok? || r == Err(IoError)))
      ensures shortWrite == (r.Ok? && r.value < |data|)
    {
      shortWrite := false;
      var fails: bool := *;
      if fails && !reliable {
        return Err(IoError);
      }
      var n := |data|;
      if !reliable {
        n :| 0 <= n <= |data|;
      }
      files := files[ino := File(Flat.Write(files[ino].bytes, off, data[..n]))];
      shortWrite := n < |data|;
      return Ok(n);
    }

    /** Shrinking only; the library asserts that it is never asked to grow. */
    method Shrink(ino: ObjectId, size: nat) returns (r: Result<()>)
      requires ino in files && files[ino].File? && size <= |files[ino].bytes|
      modifies this
      ensures files == if r.Ok? then old(files)[ino := File(old(files[ino].bytes)[..size])] else old(files)
      ensures r == Ok(()) || (r == Err(IoError) && !reliable)
    {
      var fails: bool := *;
      if fails && !reliable {
        return Err(IoError);
      }
      files := files[ino := File(files[ino].bytes[..size])];
      return Ok(());
    }

    /** A new inode. The number is the library's choice and may have been in use before. */
    method Create(ino: ObjectId, node: Node) returns (r: Result<()>)
      modifies this
      ensures files == if r.Ok? then old(files)[ino := node] else old(files)
      ensures r == Ok(()) || (r == Err(IoError) && !reliable)
    {
      var fails: bool := *;
      if fails && !reliable {
        return Err(IoError);
      }
      files := files[ino := node];
      return Ok(());
    }

    /** The number of an inode is free again; whether the inode can still be read is the library's choice. */
    method Free(ino: ObjectId) returns (r: Result<()>)
      requires ino in files
      modifies this
      ensures files == old(files) || (r.Ok? && files == old(files) - {ino})
      ensures r == Ok(()) || (r == Err(IoError) && !reliable)
    {
      var fails: bool, gone: bool := *, *;
      if fails && !reliable {
        return Err(IoError);
      }
      if gone {
        files := files - {ino};
      }
      return Ok(());
    }
  }

  /** Every cached page is the current page of a regular file, whole up to the end of that file. */
  ghost predicate Coherent(pages: map<Key, seq<byte>>, files: Files) {
    forall k {:trigger Matches(pages, files, k)} | k in pages :: Matches(pages, files, k)
  }

  ghost predicate Matches(pages: map<Key, seq<byte>>, files: Files, k: Key)
    requires k in pages
  {
    && k.obj in files && files[k.obj].File?
    && pages[k] == PageOf(files[k.obj].bytes, k.index) && pages[k] != []
  }

  /** Pages may leave the cache, and the current page of a file may enter it. */
  lemma FillKeepsCoherence(pages: map<Key, seq<byte>>, kept: map<Key, seq<byte>>, files: Files, key: Key,
                           page: seq<byte>)
    requires Coherent(pages, files) && key !in pages
    requires forall k | k in kept :: (k in pages && kept[k] == pages[k]) || (k == key && kept[k] == page)
    requires key in kept ==>
               key.obj in files && files[key.obj].File? && page == PageOf(files[key.obj].bytes, key.index) && page != []
    ensures Coherent(kept, files)
  {
    forall k | k in kept
      ensures Matches(kept, files, k)
    {
      if k in pages {
        assert Matches(pages, files, k);
      }
    }
  }

  /** A change to one file is harmless to the cache when the pages that survive still match. */
  lemma ChangeOneFile(pages: map<Key, seq<byte>>, kept: map<Key, seq<byte>>, files: Files, ino: ObjectId,
                      now: seq<byte>)
    requires Coherent(pages, files) && ino in files && files[ino].File?
    requires forall k | k in kept :: k in pages && kept[k] == pages[k]
    requires forall k | k in kept && k.obj == ino :: PageOf(files[ino].bytes, k.index) == PageOf(now, k.index)
    ensures Coherent(kept, files[ino := File(now)])
  {
    forall k | k in kept
      ensures Matches(kept, files[ino := File(now)], k)
    {
      assert Matches(pages, files, k);
    }
  }

  /** The pages of all other files. */
  function OfOthers(pages: map<Key, seq<byte>>, ino: ObjectId): map<Key, seq<byte>> {
    map k | k in pages && k.obj != ino :: pages[k]
  }

  /** Once its pages are dropped, an inode number may be freed or stand for something else. */
  lemma ReuseKeepsCoherence(pages: map<Key, seq<byte>>, files: Files, now: Files, ino: ObjectId)
    requires Coherent(pages, files) && forall i | i in files && i != ino :: i in now && now[i] == files[i]
    ensures Coherent(OfOthers(pages, ino), now)
  {
    forall k | k in OfOthers(pages, ino)
      ensures Matches(OfOthers(pages, ino), now, k)
    {
      assert Matches(pages, files, k);
    }
  }

  /** Without that, a cached page of the old file makes the new one read wrong: exactly when there is one. */
  lemma ReuseNeedsDrop(pages: map<Key, seq<byte>>, files: Files, ino: ObjectId)
    requires Coherent(pages, files)
    ensures Coherent(pages, files[ino := File([])]) <==> forall k | k in pages :: k.obj != ino
  {
    var now := files[ino := File([])];
    if forall k | k in pages :: k.obj != ino {
      ReuseKeepsCoherence(pages, files, now, ino);
      assert OfOthers(pages, ino) == pages;
    } else {
      var k :| k in pages && k.obj == ino;
      assert PageOf([], k.index) == [];
      assert !Matches(pages, now, k);
    }
  }

  /** Makes a file or a directory: whatever is cached under its number goes. */
  method Create(fs: BackingFs, cache: PageCache, ino: ObjectId, isDir: bool) returns (r: Result<()>)
    requires cache.Valid() && Coherent(cache.Data(), fs.files)
    modifies fs, cache
    ensures cache.Valid() && Coherent(cache.Data(), fs.files)
    ensures fs.files == if r.Ok? then old(fs.files)[ino := if isDir then Dir else File([])] else old(fs.files)
    ensures r == Ok(()) || (r == Err(IoError) && !fs.reliable)
  {
    ghost var pages, files := cache.Data(), fs.files;
    r := fs.Create(ino, if isDir then Dir else File([]));
    if r.Ok? {
      ReuseKeepsCoherence(pages, files, fs.files, ino);
      cache.InvalidateInode(ino);
    }
  }

  /** Removes a name: whatever is cached of the inode goes. */
  method Unlink(fs: BackingFs, cache: PageCache, ino: ObjectId) returns (r: Result<()>)
    requires cache.Valid() && Coherent(cache.Data(), fs.files) && ino in fs.files
    modifies fs, cache
    ensures cache.Valid() && Coherent(cache.Data(), fs.files)
    ensures fs.files == old(fs.files) || (r.Ok? && fs.files == old(fs.files) - {ino})
    ensures r == Ok(()) || (r == Err(IoError) && !fs.reliable)
  {
    ghost var pages, files := cache.Data(), fs.files;
    r := fs.Free(ino);
    if r.Ok? {
      ReuseKeepsCoherence(pages, files, fs.files, ino);
      cache.InvalidateInode(ino);
    }
  }

  /** Dropping the pages under a write, and under the gap it zero-fills, keeps the cache coherent. */
  lemma WriteKeepsCoherence(pages: map<Key, seq<byte>>, files: Files, ino: ObjectId, off: nat, d: seq<byte>)
    requires Coherent(pages, files) && ino in files && files[ino].File? && d != []
    ensures var f := files[ino].bytes;
            var gapless := if off > |f| then Without(pages, ino, |f|, off - |f|) else pages;
            Coherent(Without(gapless, ino, off, |d|), files[ino := File(Write(f, off, d))])
  {
    var f := files[ino].bytes;
    var gapless := if off > |f| then Without(pages, ino, |f|, off - |f|) else pages;
    var kept := Without(gapless, ino, off, |d|);
    var now := Write(f, off, d);
    forall k | k in kept && k.obj == ino ensures PageOf(f, k.index) == PageOf(now, k.index) {
      assert Matches(pages, files, k);
      assert |PageOf(f, k.index)| == |PageOf(now, k.index)|;
    }
    ChangeOneFile(pages, kept, files, ino, now);
  }

  /** Dropping the pages from the cut on keeps the cache coherent. */
  lemma ShrinkKeepsCoherence(pages: map<Key, seq<byte>>, files: Files, ino: ObjectId, size: nat)
    requires Coherent(pages, files) && ino in files && files[ino].File? && size < |files[ino].bytes|
    ensures var f := files[ino].bytes;
            var start := size / PAGE_SIZE * PAGE_SIZE;
            Coherent(Without(pages, ino, start, |f| - start), files[ino := File(f[..size])])
  {
    var f := files[ino].bytes;
    var start := size / PAGE_SIZE * PAGE_SIZE;
    var kept := Without(pages, ino, start, |f| - start);
    forall k | k in kept && k.obj == ino ensures PageOf(f, k.index) == PageOf(f[..size], k.index) {
      assert Matches(pages, files, k);
    }
    ChangeOneFile(pages, kept, files, ino, f[..size]);
  }

  /** Dropping the pages under the new zeros keeps the cache coherent. */
  lemma ExtendKeepsCoherence(pages: map<Key, seq<byte>>, files: Files, ino: ObjectId, size: nat, n: nat)
    requires Coherent(pages, files) && ino in files && files[ino].File?
    requires |files[ino].bytes| <= n <= size && |files[ino].bytes| < size
    ensures var f := files[ino].bytes;
            Coherent(Without(pages, ino, |f|, size - |f|), files[ino := File(Truncate(f, n))])
  {
    var f := files[ino].bytes;
    var kept := Without(pages, ino, |f|, size - |f|);
    forall k | k in kept && k.obj == ino ensures PageOf(f, k.index) == PageOf(Truncate(f, n), k.index) {
      assert Matches(pages, files, k);
    }
    ChangeOneFile(pages, kept, files, ino, Truncate(f, n));
  }

  /**
   An extension that stops half-way leaves the cache untouched; the cache then still matches the
   file exactly when nothing was written or the page holding the old end is not cached.
   */
  lemma HalfExtendedCoherence(pages: map<Key, seq<byte>>, files: Files, ino: ObjectId, n: nat)
    requires Coherent(pages, files) && ino in files && files[ino].File? && n >= |files[ino].bytes|
    ensures var f := files[ino].bytes;
            (Coherent(pages, files[ino := File(Truncate(f, n))])
             <==> (n == |f| || Key(ino, |f| / PAGE_SIZE) !in pages))
  {
    var f := files[ino].bytes;
    var tail := Key(ino, |f| / PAGE_SIZE);
    var now := Truncate(f, n);
    if n > |f| && tail in pages {
      assert Matches(pages, files, tail);
      assert !Matches(pages, files[ino := File(now)], tail);
      assert |PageOf(now, tail.index)| > |PageOf(f, tail.index)|;
    } else {
      forall k | k in pages && k.obj == ino ensures PageOf(f, k.index) == PageOf(now, k.index) {
        assert Matches(pages, files, k);
        assert n > |f| ==> k.index != tail.index;
      }
      ChangeOneFile(pages, pages, files, ino, now);
    }
  }

  /** Such a case: a one-byte file whose page is cached, extended by one byte before the extension fails. */
  lemma HalfExtendedMismatch(ino: ObjectId, b: byte)
    ensures var files := map[ino := File([b])];
            var pages := map[Key(ino, 0) := [b]];
            Coherent(pages, files) && !Coherent(pages, files[ino := File(Truncate([b], 2))])
  {
    var files := map[ino := File([b])];
    var pages := map[Key(ino, 0) := [b]];
    assert PageOf([b], 0) == [b];
    assert Matches(pages, files, Key(ino, 0));
    HalfExtendedCoherence(pages, files, ino, 2);
  }

  /** Dropping a range and then its next chunk is dropping the longer range. */
  lemma WithoutTwice(pages: map<Key, seq<byte>>, ino: ObjectId, off: nat, done: nat, chunk: nat)
    requires done > 0 ==> (off + done) % PAGE_SIZE == 0
    requires 0 < chunk <= PAGE_SIZE - (off + done) % PAGE_SIZE
    ensures Without(Without(pages, ino, off, done), ino, off + done, chunk) == Without(pages, ino, off, done + chunk)
  {
    WithoutChunk(pages, ino, off, done, chunk);
    var first := Without(pages, ino, off, done);
    WithoutChunk(first, ino, off + done, 0, chunk);
    assert Without(first, ino, off + done, 0) == first;
  }

  /** `now` are the pages of `before` that share no byte with the range. */
  ghost predicate Dropped(before: map<Key, seq<byte>>, now: map<Key, seq<byte>>, ino: ObjectId, off: nat, len: nat) {
    now == Without(before, ino, off, len)
  }

  lemma DropNothing(pages: map<Key, seq<byte>>, ino: ObjectId, off: nat)
    ensures Dropped(pages, pages, ino, off, 0)
  {
  }

  lemma DropMore(before: map<Key, seq<byte>>, now: map<Key, seq<byte>>, ino: ObjectId, off: nat, done: nat, chunk: nat)
    requires Dropped(before, now, ino, off, done)
    requires done > 0 ==> (off + done) % PAGE_SIZE == 0
    requires 0 < chunk <= PAGE_SIZE - (off + done) % PAGE_SIZE
    ensures Dropped(before, Without(now, ino, off + done, chunk), ino, off, done + chunk)
  {
    WithoutTwice(before, ino, off, done, chunk);
  }

  /** One ext4 inode over the shared cache and the mounted file system. */
  class Ext4Inode {
    const fs: BackingFs
    const cache: PageCache
    const ino: ObjectId

    constructor (fs: BackingFs, cache: PageCache, ino: ObjectId)
      ensures this.fs == fs && this.cache == cache && this.ino == ino
    {
      this.fs, this.cache, this.ino := fs, cache, ino;
    }

    ghost predicate Valid()
      reads fs, cache
    {
      cache.Valid() && ino in fs.files
    }

    /** The bytes answered are the flat file's, whatever is cached and whatever gets evicted on the way. */
    method ReadAt(off: nat, len: nat) returns (r: Result<seq<byte>>)
      requires Valid() && Coherent(cache.Data(), fs.files)
      modifies cache
      ensures Valid() && Coherent(cache.Data(), fs.files)
      ensures r.Ok? && len > 0 ==> fs.files[ino].File? && r.value == Read(fs.files[ino].bytes, off, len)
      ensures len == 0 ==> r == Ok([])
      ensures fs.files[ino].Dir? && len > 0 ==> r == Err(IsDirectory)
      ensures fs.files[ino].File? && fs.reliable && cache.framesPlenty ==> r.Ok?
    {
      if len == 0 {
        return Ok([]);
      }
      if fs.files[ino].Dir? {
        return Err(IsDirectory);
      }
      var size := |fs.files[ino].bytes|;
      if off >= size {
        return Ok([]);
      }
      var target := Min(len, size - off);
      var buf: seq<byte> := [];
      while |buf| < target
        invariant Valid() && Coherent(cache.Data(), fs.files)
        invariant |buf| <= target && buf == fs.files[ino].bytes[off..off + |buf|]
        decreases target - |buf|
      {
        var at := off + |buf|;
        var chunk := ChunkAt(at, target - |buf|);
        var piece := ReadChunk(size, at, chunk);
        if piece.Err? {
          return piece;
        }
        buf := buf + piece.value;
        if piece.value == [] {
          break;
        }
      }
      return Ok(buf);
    }

    /** One turn of the read loop: the part of one page, from the cache or through it. */
    method ReadChunk(size: nat, at: nat, chunk: nat) returns (r: Result<seq<byte>>)
      requires Valid() && Coherent(cache.Data(), fs.files)
      requires fs.files[ino].File? && size == |fs.files[ino].bytes|
      requires 0 < chunk <= PAGE_SIZE - at % PAGE_SIZE && at + chunk <= size
      modifies cache
      ensures Valid() && Coherent(cache.Data(), fs.files)
      ensures r.Ok? ==> r.value == fs.files[ino].bytes[at..at + chunk]
      ensures fs.reliable && cache.framesPlenty ==> r.Ok?
    {
      var index := at / PAGE_SIZE;
      var pageOffset := at % PAGE_SIZE;
      ghost var key, pages := Key(ino, index), cache.Data();
      ChunkOfPage(fs.files[ino].bytes, at, chunk);
      assert key in pages ==> Matches(pages, fs.files, key);
      var hit := cache.ReadHit(ino, at, chunk);
      if hit.Some? {
        return Ok(hit.value);
      }
      var pageStart := index * PAGE_SIZE;
      var pageLen := Min(PAGE_SIZE, size - pageStart);
      var fill := fs.Read(ino, pageStart, pageLen);
      var page := cache.GetOrInsertCleanPage(ino, index, fill);
      FillKeepsCoherence(pages, cache.Data(), fs.files, key, if fill.Ok? then fill.value else []);
      if page.Err? {
        return page;
      }
      if pageOffset >= |page.value| {
        return Ok([]);
      }
      var n := Min(|page.value| - pageOffset, chunk);
      return Ok(page.value[pageOffset..pageOffset + n]);
    }

    /** One page of the zeroed range leaves the cache. */
    method RefreshChunk(ghost before: map<Key, seq<byte>>, off: nat, done: nat, chunk: nat)
      requires cache.Valid() && Dropped(before, cache.Data(), ino, off, done)
      requires done > 0 ==> (off + done) % PAGE_SIZE == 0
      requires 0 < chunk <= PAGE_SIZE - (off + done) % PAGE_SIZE
      modifies cache
      ensures cache.Valid() && Dropped(before, cache.Data(), ino, off, done + chunk)
    {
      ghost var now := cache.Data();
      DropMore(before, now, ino, off, done, chunk);
      var _ := cache.RefreshCleanRange(ino, off + done, chunk);
    }

    /** The pages under the zeroed range leave the cache, one page at a time. */
    method RefreshZeroCacheRange(off: nat, len: nat)
      requires cache.Valid()
      modifies cache
      ensures cache.Valid() && Dropped(old(cache.Data()), cache.Data(), ino, off, len)
    {
      DropNothing(cache.Data(), ino, off);
      if len == 0 {
        return;
      }
      var refreshed := 0;
      while refreshed < len
        invariant refreshed <= len
        invariant refreshed > 0 && refreshed < len ==> (off + refreshed) % PAGE_SIZE == 0
        invariant cache.Valid() && Dropped(old(cache.Data()), cache.Data(), ino, off, refreshed)
      {
        var chunk := ChunkAt(off + refreshed, len - refreshed);
        RefreshChunk(old(cache.Data()), off, refreshed, chunk);
        refreshed := refreshed + chunk;
      }
    }

    /** What the library accepted is written to the flat file and no stale page survives. */
    method WriteAt(off: nat, buf: seq<byte>) returns (r: Result<nat>)
      requires Valid() && Coherent(cache.Data(), fs.files)
      modifies cache, fs
      ensures Valid() && Coherent(cache.Data(), fs.files)
      ensures r.Ok? ==> old(fs.files[ino]).File? && r.value <= |buf|
      ensures fs.files == if r.Ok? then old(fs.files)[ino := File(Write(old(fs.files[ino].bytes), off, buf[..r.value]))]
                          else old(fs.files)
      ensures old(fs.files[ino]).Dir? ==> r == Err(IsDirectory)
      ensures old(fs.files[ino]).File? && fs.reliable ==> r == Ok(|buf|)
    {
      if fs.files[ino].Dir? {
        return Err(IsDirectory);
      }
      var size := |fs.files[ino].bytes|;
      ghost var files, pages := fs.files, cache.Data();
      r := fs.Write(ino, off, buf);
      if r.Err? {
        return;
      }
      var written := r.value;
      if written > 0 {
        WriteKeepsCoherence(pages, files, ino, off, buf[..written]);
        if off > size {
          RefreshZeroCacheRange(size, off - size);
        }
        var _ := cache.RefreshCleanRange(ino, off, written);
      } else {
        assert fs.files == files;
      }
    }

    /**
     A truncation that reports success cuts the flat file, or zero-extends it exactly if the last library write took all
     its bytes. A failed extension may stop at any size in between, and then the cache is as it was.
     */
    method Truncate(size: nat) returns (r: Result<()>)
      requires Valid() && Coherent(cache.Data(), fs.files) && fs.files[ino].File?
      modifies cache, fs
      ensures Valid()
      ensures r.Ok? || size <= old(|fs.files[ino].bytes|) ==> Coherent(cache.Data(), fs.files)
      ensures exists n: nat :: fs.files == old(fs.files)[ino := File(Flat.Truncate(old(fs.files[ino].bytes), n))]
                && (r.Ok? && fs.reliable ==> n == size)
                && (size <= old(|fs.files[ino].bytes|) ==> n == if r.Ok? then size else old(|fs.files[ino].bytes|))
                && (size > old(|fs.files[ino].bytes|) ==> old(|fs.files[ino].bytes|) <= n <= size)
      ensures r.Err? ==> r == Err(IoError) && cache.Data() == old(cache.Data())
      ensures fs.reliable ==> r.Ok?
      ensures r.Ok? && size > old(|fs.files[ino].bytes|) ==>
                (fs.files == old(fs.files)[ino := File(Flat.Truncate(old(fs.files[ino].bytes), size))]
                 <==> !fs.shortWrite)
    {
      ghost var files, pages := fs.files, cache.Data();
      ghost var f := fs.files[ino].bytes;
      var oldSize := |fs.files[ino].bytes|;
      if size == oldSize {
        assert Flat.Truncate(f, size) == f;
        assert fs.files == files[ino := File(Flat.Truncate(f, size))];
        return Ok(());
      }
      if size < oldSize {
        r := fs.Shrink(ino, size);
        assert Flat.Truncate(f, oldSize) == f && Flat.Truncate(f, size) == f[..size];
        if r.Err? {
          assert fs.files == files[ino := File(Flat.Truncate(f, oldSize))];
          return;
        }
        var start := size / PAGE_SIZE * PAGE_SIZE;
        ShrinkKeepsCoherence(pages, files, ino, size);
        cache.InvalidateRange(ino, start, oldSize - start);
        return;
      }
      r := ExtendWithZeros(oldSize, size);
      if r.Err? {
        return;
      }
      ExtendKeepsCoherence(pages, files, ino, size, |fs.files[ino].bytes|);
      RefreshZeroCacheRange(oldSize, size - oldSize);
    }

    /** Appends zeros in chunks of at most one page; the count each write reports is ignored. */
    method ExtendWithZeros(oldSize: nat, size: nat) returns (r: Result<()>)
      requires ino in fs.files && fs.files[ino].File? && |fs.files[ino].bytes| == oldSize < size
      modifies fs
      ensures ino in fs.files && fs.files[ino].File?
      ensures var n := |fs.files[ino].bytes|;
              oldSize <= n <= size && fs.files == old(fs.files)[ino := File(Flat.Truncate(old(fs.files[ino].bytes), n))]
      ensures r == Ok(()) || (r == Err(IoError) && !fs.reliable)
      ensures fs.reliable ==> |fs.files[ino].bytes| == size
      ensures r.Ok? ==> (|fs.files[ino].bytes| == size <==> !fs.shortWrite)
    {
      ghost var files := fs.files;
      ghost var f := fs.files[ino].bytes;
      var extend := size - oldSize;
      var zeroBuf := Zeros(Min(extend, PAGE_SIZE));
      var written := 0;
      assert Flat.Truncate(f, oldSize) == f;
      while written < extend
        invariant 0 <= written <= extend
        invariant ino in fs.files && fs.files[ino].File?
        invariant oldSize <= |fs.files[ino].bytes| <= oldSize + written
        invariant fs.files == files[ino := File(Flat.Truncate(f, |fs.files[ino].bytes|))]
        invariant fs.reliable ==> |fs.files[ino].bytes| == oldSize + written
        invariant written > 0 ==> (|fs.files[ino].bytes| == oldSize + written <==> !fs.shortWrite)
      {
        var toWrite := Min(extend - written, |zeroBuf|);
        ghost var now := fs.files[ino].bytes;
        var w := fs.Write(ino, oldSize + written, zeroBuf[..toWrite]);
        if w.Err? {
          return Err(IoError);
        }
        assert fs.files[ino].bytes == Flat.Truncate(f, |fs.files[ino].bytes|);
        written := written + toWrite;
      }
      return Ok(());
    }
  }

  /** Only the last write of an extension matters: a short one before it leaves a gap that the last one zero-fills. */
  lemma ShortWriteIsFilled(f: seq<byte>, size: nat, k: nat)
    requires k < PAGE_SIZE && |f| + PAGE_SIZE < size
    ensures Write(Write(f, |f|, Zeros(k)), |f| + PAGE_SIZE, Zeros(size - |f| - PAGE_SIZE)) == Truncate(f, size)
  {
    var short := Write(f, |f|, Zeros(k));
    assert |short| == |f| + k && forall i | 0 <= i < |short| :: short[i] == if i < |f| then f[i] else 0;
  }

  /** The bytes of a chunk inside one page are found at the same place in that page. */
  lemma ChunkOfPage(f: seq<byte>, at: nat, chunk: nat)
    requires at + chunk <= |f| && chunk <= PAGE_SIZE - at % PAGE_SIZE
    ensures Read(PageOf(f, at / PAGE_SIZE), at % PAGE_SIZE, chunk) == f[at..at + chunk]
    ensures chunk > 0 ==> |PageOf(f, at / PAGE_SIZE)| >= at % PAGE_SIZE + chunk
    ensures PageOf(f, at / PAGE_SIZE)
            == Read(f, at / PAGE_SIZE * PAGE_SIZE, Min(PAGE_SIZE, |f| - at / PAGE_SIZE * PAGE_SIZE))
  {
    assert at == at / PAGE_SIZE * PAGE_SIZE + at % PAGE_SIZE;
  }
}
