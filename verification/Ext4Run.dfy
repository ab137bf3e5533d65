/** Whole runs of ext4 file operations, answered as a flat file system would answer them. */
module Ext4Run {
  import opened Flat
  import opened PageCache
  import opened Ext4File

  datatype Op =
    | ReadOp(ino: ObjectId, off: nat, len: nat)
    | WriteOp(ino: ObjectId, off: nat, buf: seq<byte>)
    | TruncateOp(ino: ObjectId, size: nat)
    | CreateOp(ino: ObjectId, isDir: bool)
    | UnlinkOp(ino: ObjectId)
    | EvictOp(keys: set<Key>)

  datatype Outcome =
    | Bytes(bytes: seq<byte>)
    | Wrote(n: nat)
    | Sized(size: nat)
    | Done
    | Skipped
    | Failed(error: FsError)

  /** The operation addresses a known inode, and truncation a regular file. */
  predicate Addressed(op: Op, files: Files) {
    match op
    case ReadOp(ino, _, _) => ino in files
    case WriteOp(ino, _, _) => ino in files
    case TruncateOp(ino, _) => ino in files && files[ino].File?
    case CreateOp(_, _) => true
    case UnlinkOp(ino) => ino in files
    case EvictOp(_) => true
  }

  /** What a cacheless store of byte sequences may answer, and what it stores afterwards. */
  ghost predicate FlatStep(files: Files, op: Op, out: Outcome, after: Files, reliable: bool) {
    if !Addressed(op, files) then after == files && out == Skipped
    else match op
    case ReadOp(ino, off, len) =>
      && after == files
      && (if len == 0 then out == Bytes([])
          else if files[ino].Dir? then out == Failed(IsDirectory)
          else out == Bytes(Read(files[ino].bytes, off, len)) || (out.Failed? && !reliable))
    case WriteOp(ino, off, buf) =>
      if files[ino].Dir? then after == files && out == Failed(IsDirectory)
      else if out.Failed? then after == files && !reliable
      else
        && out.Wrote? && out.n <= |buf| && (reliable ==> out.n == |buf|)
        && after == files[ino := File(Write(files[ino].bytes, off, buf[..out.n]))]
    case TruncateOp(ino, size) =>
      if out.Failed? then after == files && !reliable
      else
        && out.Sized? && (reliable || size <= |files[ino].bytes| ==> out.size == size)
        && after == files[ino := File(Truncate(files[ino].bytes, out.size))]
    case CreateOp(ino, isDir) =>
      if out.Failed? then after == files && !reliable
      else out == Done && after == files[ino := if isDir then Dir else File([])]
    case UnlinkOp(ino) =>
      if out.Failed? then after == files && !reliable
      else out == Done && (after == files || after == files - {ino})
    case EvictOp(_) => after == files && out == Done
  }

  /** The operation is an extension that failed; it may have stopped at any size in between. */
  predicate StoppedHalfWay(files: Files, op: Op, out: Outcome) {
    Addressed(op, files) && op.TruncateOp? && out.Failed? && op.size > |files[op.ino].bytes|
  }

  /** The outcomes are those of a flat run that ends in `after`. */
  ghost predicate FlatRun(files: Files, ops: seq<Op>, outs: seq<Outcome>, after: Files, reliable: bool)
    requires |outs| == |ops|
    decreases |ops|
  {
    if ops == [] then after == files
    else
      var last := |ops| - 1;
      exists mid :: FlatRun(files, ops[..last], outs[..last], mid, reliable)
                    && FlatStep(mid, ops[last], outs[last], after, reliable)
  }

  lemma OneMore(files: Files, ops: seq<Op>, outs: seq<Outcome>, mid: Files, out: Outcome, after: Files, reliable: bool)
    requires |outs| < |ops| && FlatRun(files, ops[..|outs|], outs, mid, reliable)
    requires FlatStep(mid, ops[|outs|], out, after, reliable)
    ensures FlatRun(files, ops[..|outs| + 1], outs + [out], after, reliable)
  {
    assert (outs + [out])[..|outs|] == outs && ops[..|outs| + 1][..|outs|] == ops[..|outs|];
  }

  /** Some flat run gives these outcomes. */
  ghost predicate AnswersFlat(files: Files, ops: seq<Op>, outs: seq<Outcome>, reliable: bool)
    requires |outs| == |ops|
  {
    exists after :: FlatRun(files, ops, outs, after, reliable)
  }

  /** One operation on a file's contents through the cache. */
  method StepFile(fs: BackingFs, cache: PageCache, op: Op) returns (out: Outcome)
    requires cache.Valid() && Coherent(cache.Data(), fs.files) && Addressed(op, fs.files)
    requires op.ReadOp? || op.WriteOp? || op.TruncateOp?
    modifies fs, cache
    ensures cache.Valid()
    ensures !StoppedHalfWay(old(fs.files), op, out) ==>
              && Coherent(cache.Data(), fs.files)
              && FlatStep(old(fs.files), op, out, fs.files, fs.reliable && cache.framesPlenty)
    ensures fs.reliable ==> !StoppedHalfWay(old(fs.files), op, out)
  {
    var inode := new Ext4Inode(fs, cache, op.ino);
    match op
    case ReadOp(_, off, len) =>
      var r := inode.ReadAt(off, len);
      out := if r.Ok? then Bytes(r.value) else Failed(r.error);
    case WriteOp(_, off, buf) =>
      var r := inode.WriteAt(off, buf);
      out := if r.Ok? then Wrote(r.value) else Failed(r.error);
    case TruncateOp(ino, size) =>
      ghost var f := fs.files[ino].bytes;
      var r := inode.Truncate(size);
      assert Truncate(f, |f|) == f;
      out := if r.Ok? then Sized(|fs.files[ino].bytes|) else Failed(r.error);
  }

  /** One operation that makes or frees an inode, or takes pages out of the cache. */
  method StepInode(fs: BackingFs, cache: PageCache, op: Op) returns (out: Outcome)
    requires cache.Valid() && Coherent(cache.Data(), fs.files) && Addressed(op, fs.files)
    requires op.CreateOp? || op.UnlinkOp? || op.EvictOp?
    modifies fs, cache
    ensures cache.Valid() && Coherent(cache.Data(), fs.files)
    ensures FlatStep(old(fs.files), op, out, fs.files, fs.reliable && cache.framesPlenty)
  {
    match op
    case CreateOp(ino, isDir) =>
      var r := Create(fs, cache, ino, isDir);
      out := if r.Ok? then Done else Failed(r.error);
    case UnlinkOp(ino) =>
      var r := Unlink(fs, cache, ino);
      out := if r.Ok? then Done else Failed(r.error);
    case EvictOp(keys) =>
      ghost var pages := cache.Data();
      cache.Keep(cache.pages.Keys - keys);
      assert forall k | k in cache.Data() :: k in pages && cache.Data()[k] == pages[k] && Matches(pages, fs.files, k);
      assert forall k | k in cache.Data() :: Matches(cache.Data(), fs.files, k);
      out := Done;
  }

  /** One operation through the cache: the flat answer, with the cache coherent again. */
  method Step(fs: BackingFs, cache: PageCache, op: Op) returns (out: Outcome)
    requires cache.Valid() && Coherent(cache.Data(), fs.files)
    modifies fs, cache
    ensures cache.Valid()
    ensures !StoppedHalfWay(old(fs.files), op, out) ==>
              && Coherent(cache.Data(), fs.files)
              && FlatStep(old(fs.files), op, out, fs.files, fs.reliable && cache.framesPlenty)
    ensures fs.reliable ==> !StoppedHalfWay(old(fs.files), op, out)
  {
    if !Addressed(op, fs.files) {
      out := Skipped;
    } else if op.ReadOp? || op.WriteOp? || op.TruncateOp? {
      out := StepFile(fs, cache, op);
    } else {
      out := StepInode(fs, cache, op);
    }
  }

  /** The next operation of a run; None at an extension that stops half-way. */
  method RunOne(fs: BackingFs, cache: PageCache, ops: seq<Op>, outs: seq<Outcome>, ghost files: Files)
    returns (out: Option<Outcome>)
    requires cache.Valid() && Coherent(cache.Data(), fs.files) && |outs| < |ops|
    requires FlatRun(files, ops[..|outs|], outs, fs.files, fs.reliable && cache.framesPlenty)
    modifies fs, cache
    ensures cache.Valid() && (fs.reliable ==> out.Some?)
    ensures out.Some? ==>
              && Coherent(cache.Data(), fs.files)
              && FlatRun(files, ops[..|outs| + 1], outs + [out.value], fs.files, fs.reliable && cache.framesPlenty)
  {
    ghost var mid := fs.files;
    var op := ops[|outs|];
    var grows := op.TruncateOp? && Addressed(op, fs.files) && op.size > |fs.files[op.ino].bytes|;
    var r := Step(fs, cache, op);
    if grows && r.Failed? {
      return None;
    }
    OneMore(files, ops, outs, mid, r, fs.files, fs.reliable && cache.framesPlenty);
    return Some(r);
  }

  /**
   Any sequence of reads, writes, truncations, creations, removals and evictions, with inode numbers used again, is
   answered as by a flat store. The run ends early only at an extension that fails half-way, which a reliable library
   never does.
   */
  method Run(fs: BackingFs, cache: PageCache, ops: seq<Op>) returns (outs: seq<Outcome>)
    requires cache.Valid() && Coherent(cache.Data(), fs.files)
    modifies fs, cache
    ensures |outs| <= |ops|
    ensures cache.Valid() && cache.maxPages >= |cache.pages|
    ensures |outs| == |ops| ==> Coherent(cache.Data(), fs.files)
    ensures |outs| == |ops| ==> FlatRun(old(fs.files), ops, outs, fs.files, fs.reliable && cache.framesPlenty)
    ensures AnswersFlat(old(fs.files), ops[..|outs|], outs, fs.reliable && cache.framesPlenty)
    ensures fs.reliable ==> |outs| == |ops|
  {
    outs := [];
    ghost var files := fs.files;
    ghost var calm := fs.reliable && cache.framesPlenty;
    assert FlatRun(files, ops[..0], [], files, calm);
    while |outs| < |ops|
      invariant |outs| <= |ops|
      invariant cache.Valid() && Coherent(cache.Data(), fs.files)
      invariant FlatRun(files, ops[..|outs|], outs, fs.files, calm)
    {
      var out := RunOne(fs, cache, ops, outs, files);
      if out.None? {
        return;
      }
      outs := outs + [out.value];
    }
    assert ops[..|ops|] == ops;
  }
}
