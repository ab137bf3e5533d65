/** The image format shared by the packing script and the kernel: little-endian headers, padded names and data. */
module SimpleFsImage {
  import opened Flat
  import opened BlockDevice

  const U32: nat := 0x1_0000_0000
  const FILE_MAGIC: nat := 0x46494C45
  const MAGIC: seq<byte> := [82, 65, 77, 68, 73, 83, 75, 0]
  const HEADER: nat := 32
  const FIRST_ENTRY: nat := 16

  /** One file or directory of an image. */
  datatype Record = Record(name: seq<byte>, isDir: bool, mode: nat, data: seq<byte>)

  function Le32(n: nat): (b: seq<byte>)
    requires n < U32
    ensures |b| == 4
  {
    [n % 256, n / 256 % 256, n / 65536 % 256, n / 16777216]
  }

  function FromLe32(b: seq<byte>): nat
    requires |b| == 4
  {
    var b0: int, b1: int, b2: int, b3: int := b[0], b[1], b[2], b[3];
    b0 + 256 * b1 + 65536 * b2 + 16777216 * b3
  }

  lemma Le32RoundTrip(n: nat)
    requires n < U32
    ensures FromLe32(Le32(n)) == n
  {
    assert n == n % 256 + 256 * (n / 256);
    assert n / 256 == n / 256 % 256 + 256 * (n / 65536);
    assert n / 65536 == n / 65536 % 256 + 256 * (n / 16777216);
  }

  /** A size rounded up to whole words. */
  function Words(n: nat): (r: nat)
    ensures n <= r < n + 4 && r % 4 == 0
  {
    (n + 3) / 4 * 4
  }

  /** A size rounded up to whole blocks. */
  function Blocks(n: nat): (r: nat)
    ensures n <= r < n + BLOCK && r % BLOCK == 0 && (n > 0 ==> r >= BLOCK)
  {
    n + (BLOCK - n % BLOCK) % BLOCK
  }

  function Padded(s: seq<byte>, size: nat): (p: seq<byte>)
    requires |s| <= size
    ensures |p| == size && p[..|s|] == s
  {
    s + Zeros(size - |s|)
  }

  // --- Packing ---

  /** What the 32-bit header fields can hold; packing anything else fails. */
  predicate Encodable(e: Record) {
    && |e.name| < U32 && |e.data| < U32 && e.mode < U32
  }

  predicate AllEncodable(es: seq<Record>) {
    forall i | 0 <= i < |es| :: Encodable(es[i])
  }

  function Header(e: Record): (h: seq<byte>)
    requires Encodable(e)
    ensures |h| == HEADER
  {
    Le32(FILE_MAGIC) + Le32(|e.name|) + Le32(|e.data|) + Le32(if e.isDir then 1 else 0) + Le32(e.mode) + Zeros(12)
  }

  function PackEntry(e: Record): seq<byte>
    requires Encodable(e)
  {
    Header(e) + Padded(e.name, Words(|e.name|)) + Padded(e.data, Blocks(|e.data|))
  }

  function PackEntries(es: seq<Record>): seq<byte>
    requires AllEncodable(es)
  {
    if es == [] then [] else PackEntry(es[0]) + PackEntries(es[1..])
  }

  /** The header and the records, not yet padded. */
  function Body(es: seq<Record>): (r: seq<byte>)
    requires |es| < U32 && AllEncodable(es)
    ensures |r| >= FIRST_ENTRY
  {
    MAGIC + Le32(|es|) + Le32(0) + PackEntries(es)
  }

  /** The image of the records, padded to whole blocks; None where a field does not fit its 32 bits. */
  function Pack(es: seq<Record>): (r: Option<seq<byte>>)
    ensures r.Some? <==> |es| < U32 && AllEncodable(es)
    ensures r.Some? ==> |r.value| % BLOCK == 0
  {
    if |es| < U32 && AllEncodable(es) then Some(Padded(Body(es), Blocks(|Body(es)|))) else None
  }

  // --- Reading back ---

  /** Reading works block by block, so only whole blocks of the image can be read. */
  function ReadAt(img: seq<byte>, off: nat, len: nat): Option<seq<byte>> {
    if len == 0 then Some([])
    else if off + len <= |img| / BLOCK * BLOCK then Some(img[off..off + len])
    else None
  }

  datatype Fields = Fields(magic: nat, nameLen: nat, dataLen: nat, kind: nat, mode: nat)

  function ParseHeader(h: seq<byte>): Fields
    requires |h| == HEADER
  {
    Fields(FromLe32(h[0..4]), FromLe32(h[4..8]), FromLe32(h[8..12]), FromLe32(h[12..16]), FromLe32(h[16..20]))
  }

  /** The record behind a header at an offset, and the offset after it. */
  function ParseBody(img: seq<byte>, off: nat, f: Fields): (r: Option<(Record, nat)>)
    ensures r.Some? ==> r.value.0.isDir == (f.kind != 0) && (f.kind != 0 ==> r.value.0.data == [])
    ensures r.Some? ==> off + HEADER <= r.value.1
  {
    var name := ReadAt(img, off + HEADER, Words(f.nameLen));
    var data := ReadAt(img, off + HEADER + Words(f.nameLen), f.dataLen);
    if name.None? || data.None? then None
    else
      Some((Record(name.value[..f.nameLen], f.kind != 0, f.mode % 0x1_0000, if f.kind != 0 then [] else data.value),
            off + HEADER + Words(f.nameLen) + Blocks(f.dataLen)))
  }

  function ParseEntry(img: seq<byte>, off: nat): (r: Option<(Record, nat)>)
    ensures r.Some? ==> off + HEADER <= |img| && FromLe32(img[off..off + 4]) == FILE_MAGIC
    ensures r.Some? && r.value.0.isDir ==> r.value.0.data == []
  {
    var h := ReadAt(img, off, HEADER);
    if h.None? || ParseHeader(h.value).magic != FILE_MAGIC then None
    else ParseBody(img, off, ParseHeader(h.value))
  }

  /** What stands at each offset of an image: a record with the offset behind it, or none. */
  function RecordsOf(img: seq<byte>): nat -> Option<(Record, nat)> {
    (off: nat) => ParseEntry(img, off)
  }

  /** Records read so far followed by the rest, if that can be read. */
  function Then(done: seq<Record>, rest: Option<seq<Record>>): Option<seq<Record>> {
    if rest.None? then None else Some(done + rest.value)
  }

  /** `count` records one after the other. */
  function Chain(at: nat -> Option<(Record, nat)>, off: nat, count: nat): Option<seq<Record>>
    decreases count
  {
    if count == 0 then Some([])
    else if at(off).None? then None
    else Then([at(off).value.0], Chain(at, at(off).value.1, count - 1))
  }

  function ParseEntries(img: seq<byte>, off: nat, count: nat): Option<seq<Record>> {
    Chain(RecordsOf(img), off, count)
  }

  /** Where the records lie: `recs[i]` stands at `offs[i]`; when they are fewer than `count`, what follows is none. */
  ghost predicate Layout(at: nat -> Option<(Record, nat)>, count: nat, offs: seq<nat>, recs: seq<Record>) {
    && |recs| <= count && |offs| == |recs| + 1
    && forall i {:trigger at(offs[i])} | 0 <= i <= |recs| && i < count ::
         at(offs[i]) == if i < |recs| then Some((recs[i], offs[i + 1])) else None
  }

  ghost function AllOrNone(count: nat, recs: seq<Record>): Option<seq<Record>> {
    if |recs| == count then Some(recs) else None
  }

  /** Records that lie so are read in order, all or none. */
  lemma {:induction false} LayoutReads(at: nat -> Option<(Record, nat)>, count: nat, offs: seq<nat>, recs: seq<Record>)
    requires Layout(at, count, offs, recs)
    ensures Chain(at, offs[0], count) == AllOrNone(count, recs)
    decreases count
  {
    if count > 0 {
      assert at(offs[0]) == if 0 < |recs| then Some((recs[0], offs[1])) else None;
    }
    if recs != [] {
      var offs', recs' := offs[1..], recs[1..];
      forall i | 0 <= i <= |recs'| && i < count - 1
        ensures at(offs'[i]) == if i < |recs'| then Some((recs'[i], offs'[i + 1])) else None
      {
        assert at(offs[i + 1]) == if i + 1 < |recs| then Some((recs[i + 1], offs[i + 2])) else None;
      }
      LayoutReads(at, count - 1, offs', recs');
      assert [recs[0]] + recs' == recs;
    }
  }

  function ParseImage(img: seq<byte>): Option<seq<Record>> {
    if |img| < BLOCK || img[..8] != MAGIC then None
    else ParseEntries(img, FIRST_ENTRY, FromLe32(img[8..12]))
  }

  // --- The round trip ---

  /** `bytes` stand in the image at `off`. */
  predicate At(img: seq<byte>, off: nat, bytes: seq<byte>) {
    off + |bytes| <= |img| && img[off..off + |bytes|] == bytes
  }

  lemma AtSplit(img: seq<byte>, off: nat, a: seq<byte>, b: seq<byte>)
    requires At(img, off, a + b)
    ensures At(img, off, a) && At(img, off + |a|, b)
  {
    assert (a + b)[..|a|] == a && (a + b)[|a|..] == b;
    assert img[off..off + |a|] == img[off..off + |a + b|][..|a|];
    assert img[off + |a|..off + |a| + |b|] == img[off..off + |a + b|][|a|..];
  }

  /** What stands at an offset of an image of whole blocks is what is read there. */
  lemma AtRead(img: seq<byte>, off: nat, bytes: seq<byte>, len: nat)
    requires |img| % BLOCK == 0 && At(img, off, bytes) && len <= |bytes|
    ensures ReadAt(img, off, len) == Some(bytes[..len])
  {
    assert img[off..off + len] == img[off..off + |bytes|][..len];
  }

  lemma HeaderFields(e: Record)
    requires Encodable(e)
    ensures ParseHeader(Header(e)) == Fields(FILE_MAGIC, |e.name|, |e.data|, if e.isDir then 1 else 0, e.mode)
  {
    var h := Header(e);
    assert h[0..4] == Le32(FILE_MAGIC) && h[4..8] == Le32(|e.name|) && h[8..12] == Le32(|e.data|);
    assert h[12..16] == Le32(if e.isDir then 1 else 0) && h[16..20] == Le32(e.mode);
    Le32RoundTrip(FILE_MAGIC);
    Le32RoundTrip(|e.name|);
    Le32RoundTrip(|e.data|);
    Le32RoundTrip(if e.isDir then 1 else 0);
    Le32RoundTrip(e.mode);
  }

  /** Records as the packer makes them: mode bits of a file mode, and no data in a directory. */
  predicate Packable(e: Record) {
    Encodable(e) && e.mode < 0x1_0000 && (e.isDir ==> e.data == [])
  }

  predicate AllPackable(es: seq<Record>) {
    forall i | 0 <= i < |es| :: Packable(es[i])
  }

  lemma ReadPadded(img: seq<byte>, off: nat, bytes: seq<byte>, len: nat)
    requires |img| % BLOCK == 0 && |bytes| <= len && At(img, off, Padded(bytes, len))
    ensures ReadAt(img, off, len) == Some(Padded(bytes, len)) && ReadAt(img, off, |bytes|) == Some(bytes)
  {
    AtRead(img, off, Padded(bytes, len), len);
    AtRead(img, off, Padded(bytes, len), |bytes|);
    assert Padded(bytes, len)[..len] == Padded(bytes, len);
  }

  lemma ParsePackedBody(img: seq<byte>, off: nat, e: Record)
    requires |img| % BLOCK == 0 && Packable(e)
    requires At(img, off + HEADER, Padded(e.name, Words(|e.name|)))
    requires At(img, off + HEADER + Words(|e.name|), Padded(e.data, Blocks(|e.data|)))
    ensures ParseBody(img, off, Fields(FILE_MAGIC, |e.name|, |e.data|, if e.isDir then 1 else 0, e.mode))
         == Some((e, off + HEADER + Words(|e.name|) + Blocks(|e.data|)))
  {
    ReadPadded(img, off + HEADER, e.name, Words(|e.name|));
    ReadPadded(img, off + HEADER + Words(|e.name|), e.data, Blocks(|e.data|));
    assert Padded(e.name, Words(|e.name|))[..|e.name|] == e.name;
    assert e.mode % 0x1_0000 == e.mode;
  }

  /** Reading where a packed record stands gives the record and the offset behind it. */
  lemma ParsePackedEntry(img: seq<byte>, off: nat, e: Record)
    requires |img| % BLOCK == 0 && Packable(e) && At(img, off, PackEntry(e))
    ensures ParseEntry(img, off) == Some((e, off + |PackEntry(e)|))
  {
    var name, data := Padded(e.name, Words(|e.name|)), Padded(e.data, Blocks(|e.data|));
    AtSplit(img, off, Header(e) + name, data);
    AtSplit(img, off, Header(e), name);
    assert off + |Header(e) + name| == off + HEADER + |name|;
    ParsePackedBody(img, off, e);
    AtRead(img, off, Header(e), HEADER);
    assert Header(e)[..HEADER] == Header(e);
    HeaderFields(e);
  }

  /** The packed record stands at `off`, and `next` is the offset behind it. */
  ghost predicate Packed(img: seq<byte>, off: nat, e: Record, next: nat) {
    Packable(e) && At(img, off, PackEntry(e)) && next == off + |PackEntry(e)|
  }

  /** Packed records stand one behind the other. */
  lemma {:induction false} Positions(img: seq<byte>, off: nat, es: seq<Record>) returns (offs: seq<nat>)
    requires AllPackable(es) && AllEncodable(es) && At(img, off, PackEntries(es))
    ensures |offs| == |es| + 1 && offs[0] == off
    ensures forall i | 0 <= i < |es| :: Packed(img, offs[i], es[i], offs[i + 1])
    decreases |es|
  {
    offs := [off];
    if es != [] {
      AtSplit(img, off, PackEntry(es[0]), PackEntries(es[1..]));
      var offs' := Positions(img, off + |PackEntry(es[0])|, es[1..]);
      offs := [off] + offs';
      forall i | 0 <= i < |es| ensures Packed(img, offs[i], es[i], offs[i + 1]) {
        if i > 0 {
          assert Packed(img, offs'[i - 1], es[1..][i - 1], offs'[i]);
        }
      }
    }
  }

  /** `at` answers what stands in the image. */
  ghost predicate Answers(at: nat -> Option<(Record, nat)>, img: seq<byte>) {
    forall off: nat {:trigger ParseEntry(img, off)} :: at(off) == ParseEntry(img, off)
  }

  lemma PackedIsRead(at: nat -> Option<(Record, nat)>, img: seq<byte>, off: nat, e: Record, next: nat)
    requires Answers(at, img) && |img| % BLOCK == 0 && Packed(img, off, e, next)
    ensures at(off) == Some((e, next))
  {
    ParsePackedEntry(img, off, e);
  }

  lemma PackedLayout(at: nat -> Option<(Record, nat)>, img: seq<byte>, offs: seq<nat>, es: seq<Record>)
    requires Answers(at, img) && |img| % BLOCK == 0 && |offs| == |es| + 1
    requires forall i | 0 <= i < |es| :: Packed(img, offs[i], es[i], offs[i + 1])
    ensures Layout(at, |es|, offs, es)
  {
    forall i | 0 <= i < |es| ensures at(offs[i]) == Some((es[i], offs[i + 1])) {
      PackedIsRead(at, img, offs[i], es[i], offs[i + 1]);
    }
  }

  /** Where packed records stand they are read, one after the other. */
  lemma ParsePackedEntries(at: nat -> Option<(Record, nat)>, img: seq<byte>, off: nat, es: seq<Record>)
    requires Answers(at, img) && |img| % BLOCK == 0 && AllPackable(es) && AllEncodable(es)
    requires At(img, off, PackEntries(es))
    ensures Chain(at, off, |es|) == Some(es)
  {
    var offs := Positions(img, off, es);
    PackedLayout(at, img, offs, es);
    LayoutReads(at, |es|, offs, es);
  }

  lemma PackedHead(img: seq<byte>, count: nat)
    requires count < U32 && At(img, 0, MAGIC + Le32(count) + Le32(0))
    ensures img[..8] == MAGIC && FromLe32(img[8..12]) == count
  {
    AtSplit(img, 0, MAGIC + Le32(count), Le32(0));
    AtSplit(img, 0, MAGIC, Le32(count));
    Le32RoundTrip(count);
  }

  /** The kernel reads back exactly the records the script packed, in order. */
  lemma PackParseRoundTrip(es: seq<Record>)
    requires |es| < U32 && AllPackable(es)
    ensures Pack(es).Some? && ParseImage(Pack(es).value) == Some(es)
  {
    var img := Pack(es).value;
    assert At(img, 0, Body(es)) by {
      assert img[..|Body(es)|] == Body(es);
    }
    AtSplit(img, 0, MAGIC + Le32(|es|) + Le32(0), PackEntries(es));
    PackedHead(img, |es|);
    ParsePackedEntries(RecordsOf(img), img, FIRST_ENTRY, es);
  }

  /** The bare header that is written when there is nothing to pack is shorter than a block and is refused. */
  lemma BareHeaderRefused()
    ensures ParseImage(MAGIC + Le32(0) + Le32(0)) == None
    ensures Pack([]).Some? && ParseImage(Pack([]).value) == Some([])
  {
    PackParseRoundTrip([]);
  }

  // --- The block-wise reader ---

  /** Reads any range by whole blocks; on a disk that does not fail it is the range, or None past the last block. */
  method ReadAtOffset(disk: RamDisk, off: nat, len: nat) returns (r: Option<seq<byte>>)
    ensures r.Some? ==> r == ReadAt(disk.data, off, len)
    ensures disk.reliable ==> r == ReadAt(disk.data, off, len)
  {
    var buf := [];
    while |buf| < len
      invariant |buf| <= len
      invariant buf != [] ==> off + |buf| <= |disk.data| / BLOCK * BLOCK && buf == disk.data[off..off + |buf|]
      decreases len - |buf|
    {
      var current := off + |buf|;
      var blockNum, blockOffset := current / BLOCK, current % BLOCK;
      var block := disk.ReadBlock(blockNum, BLOCK);
      if block.None? {
        return None;
      }
      var n := Min(BLOCK - blockOffset, len - |buf|);
      AppendPiece(disk.data, off, buf, block.value, blockNum, blockOffset, n);
      buf := buf + block.value[blockOffset..blockOffset + n];
    }
    r := Some(buf);
  }

  /** A part of a part is a part. */
  lemma PartOfPart(data: seq<byte>, lo: nat, hi: nat, skip: nat, n: nat)
    requires lo <= hi <= |data| && skip + n <= hi - lo
    ensures data[lo..hi][skip..skip + n] == data[lo + skip..lo + skip + n]
  {
    var part, whole := data[lo..hi][skip..skip + n], data[lo + skip..lo + skip + n];
    assert |part| == |whole| == n;
    forall i | 0 <= i < n
      ensures part[i] == whole[i]
    {
      assert data[lo..hi][skip + i] == data[lo + skip + i];
    }
  }

  /** Two adjacent parts make one. */
  lemma PartsJoin(data: seq<byte>, lo: nat, mid: nat, hi: nat)
    requires lo <= mid <= hi <= |data|
    ensures data[lo..mid] + data[mid..hi] == data[lo..hi]
  {
  }

  lemma AppendPiece(data: seq<byte>, off: nat, buf: seq<byte>, block: seq<byte>, num: nat, skip: nat, n: nat)
    requires (num + 1) * BLOCK <= |data| && block == data[num * BLOCK..(num + 1) * BLOCK]
    requires num * BLOCK + skip == off + |buf| && skip + n <= BLOCK
    requires buf != [] ==> off + |buf| <= |data| && buf == data[off..off + |buf|]
    ensures off + |buf| + n <= |data| / BLOCK * BLOCK
    ensures buf + block[skip..skip + n] == data[off..off + |buf| + n]
  {
    var at := off + |buf|;
    PartOfPart(data, num * BLOCK, (num + 1) * BLOCK, skip, n);
    PartsJoin(data, off, at, at + n);
    WholeBlocks(|data|, num);
  }

  /** What ends inside a whole block ends inside the whole blocks of the disk. */
  lemma WholeBlocks(size: nat, num: nat)
    requires (num + 1) * BLOCK <= size
    ensures (num + 1) * BLOCK <= size / BLOCK * BLOCK
  {
  }
}
