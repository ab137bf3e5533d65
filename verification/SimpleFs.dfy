/** Mounting an image: reading its records from the device and building the tree. */
module SimpleFs {
  import opened Flat
  import opened Pieces
  import opened BlockDevice
  import opened SimpleFsImage
  import opened SimpleFsTree

  const SLASH: byte := 47
  const FILE_MODE: nat := 420

  function ToEntry(e: Record): Entry {
    Entry(Split(e.name, SLASH), Attr(e.isDir, e.mode, e.data))
  }

  function ToEntries(es: seq<Record>): (r: seq<Entry>)
    ensures |r| == |es| && forall i | 0 <= i < |es| :: r[i] == ToEntry(es[i])
  {
    seq(|es|, i requires 0 <= i < |es| => ToEntry(es[i]))
  }

  /** The tree of the records read: None when they could not all be read or one of them has no name. */
  function Grown(records: Option<seq<Record>>): Option<Node> {
    if records.None? || !AllNamed(ToEntries(records.value)) then None else Some(Build(ToEntries(records.value)))
  }

  /** Mounting as a function of the image. */
  function Mount(img: seq<byte>): Option<Node> {
    Grown(ParseImage(img))
  }

  /** Reads the name and the data behind a header. */
  method ReadBody(disk: RamDisk, off: nat, f: Fields) returns (r: Option<(Record, nat)>)
    ensures r.Some? || disk.reliable ==> r == ParseBody(disk.data, off, f)
  {
    var name := ReadAtOffset(disk, off + HEADER, Words(f.nameLen));
    if name.None? {
      return None;
    }
    var data := ReadAtOffset(disk, off + HEADER + Words(f.nameLen), f.dataLen);
    if data.None? {
      return None;
    }
    var isDir := f.kind != 0;
    var record := Record(name.value[..f.nameLen], isDir, f.mode % 0x1_0000, if isDir then [] else data.value);
    return Some((record, off + HEADER + Words(f.nameLen) + Blocks(f.dataLen)));
  }

  /** Reads one record from the device. */
  method ParseFileEntry(disk: RamDisk, off: nat) returns (r: Option<(Record, nat)>)
    ensures r.Some? || disk.reliable ==> r == ParseEntry(disk.data, off)
  {
    var h := ReadAtOffset(disk, off, HEADER);
    if h.None? {
      return None;
    }
    var f := ParseHeader(h.value);
    if f.magic != FILE_MAGIC {
      return None;
    }
    r := ReadBody(disk, off, f);
  }

  lemma GrowOne(root: Node, done: seq<Record>, e: Record)
    requires Grown(Some(done)) == Some(root) && ToEntry(e).path != []
    ensures Grown(Some(done + [e])) == Some(Insert(root, ToEntry(e).path, ToEntry(e).attr))
  {
    var more := ToEntries(done + [e]);
    assert more[|done|] == ToEntry(e) && more[..|done|] == ToEntries(done);
  }

  /** One record in front of the others. */
  lemma LayoutInFront(at: nat -> Option<(Record, nat)>, first: nat, e: Record, count: nat, offs: seq<nat>,
                      recs: seq<Record>)
    requires Layout(at, count, offs, recs) && at(first) == Some((e, offs[0]))
    ensures Layout(at, count + 1, [first] + offs, [e] + recs)
  {
    var offs', recs' := [first] + offs, [e] + recs;
    forall i | 0 <= i <= |recs'| && i < count + 1
      ensures at(offs'[i]) == if i < |recs'| then Some((recs'[i], offs'[i + 1])) else None
    {
      if i > 0 {
        assert at(offs[i - 1]) == if i - 1 < |recs| then Some((recs[i - 1], offs[i])) else None;
      }
    }
  }

  lemma {:induction false} LayoutOf(at: nat -> Option<(Record, nat)>, first: nat, count: nat)
    returns (offs: seq<nat>, recs: seq<Record>)
    ensures Layout(at, count, offs, recs) && offs[0] == first && Chain(at, first, count) == AllOrNone(count, recs)
    decreases count
  {
    offs, recs := [first], [];
    if count > 0 && at(first).Some? {
      var (e, next) := at(first).value;
      offs, recs := LayoutOf(at, next, count - 1);
      LayoutInFront(at, first, e, count - 1, offs, recs);
      offs, recs := [first] + offs, [e] + recs;
    }
  }

  lemma Unnamed(count: nat, recs: seq<Record>, i: nat)
    requires i < |recs| && ToEntry(recs[i]).path == []
    ensures Grown(AllOrNone(count, recs)) == None
  {
    assert ToEntries(recs)[i].path == [];
  }

  /** Reads record `i`. */
  method ReadEntry(disk: RamDisk, off: nat, ghost count: nat, ghost offs: seq<nat>, ghost recs: seq<Record>,
                   ghost i: nat)
    returns (next: Option<(Record, nat)>)
    requires Layout(RecordsOf(disk.data), count, offs, recs) && i < count && i <= |recs| && off == offs[i]
    ensures next.Some? ==> i < |recs| && next.value == (recs[i], offs[i + 1])
    ensures disk.reliable && next.None? ==> i == |recs|
  {
    next := ParseFileEntry(disk, off);
    assert RecordsOf(disk.data)(offs[i]) == ParseEntry(disk.data, off);
  }

  /** Reads record `i` and puts it into the tree; not ok when it cannot be read or has no name. */
  method AddEntry(disk: RamDisk, off: nat, root: Node, ghost count: nat, ghost offs: seq<nat>, ghost recs: seq<Record>,
                  ghost i: nat)
    returns (ok: bool, root': Node, off': nat)
    requires Layout(RecordsOf(disk.data), count, offs, recs) && i < count && i <= |recs|
    requires off == offs[i] && Grown(Some(recs[..i])) == Some(root)
    ensures ok ==> i < |recs| && off' == offs[i + 1] && Grown(Some(recs[..i + 1])) == Some(root')
    ensures disk.reliable && !ok ==> Grown(AllOrNone(count, recs)) == None
  {
    ok, root', off' := false, root, off;
    var next := ReadEntry(disk, off, count, offs, recs, i);
    if next.Some? {
      var (record, after) := next.value;
      var entry := ToEntry(record);
      if entry.path == [] {
        Unnamed(count, recs, i);
      } else {
        GrowOne(root, recs[..i], record);
        assert recs[..i + 1] == recs[..i] + [record];
        ok, root', off' := true, Insert(root, entry.path, entry.attr), after;
      }
    }
  }

  /** The record loop: `count` records, each into the tree. */
  method ReadEntries(disk: RamDisk, first: nat, count: nat, ghost offs: seq<nat>, ghost recs: seq<Record>)
    returns (r: Option<Node>)
    requires Layout(RecordsOf(disk.data), count, offs, recs) && offs[0] == first
    ensures r.Some? || disk.reliable ==> r == Grown(AllOrNone(count, recs))
  {
    var root, off := Node(NewDir(), map[]), first;
    for i := 0 to count
      invariant Layout(RecordsOf(disk.data), count, offs, recs) && i <= |recs| && off == offs[i]
      invariant Grown(Some(recs[..i])) == Some(root)
    {
      var ok;
      ok, root, off := AddEntry(disk, off, root, count, offs, recs, i);
      if !ok {
        return None;
      }
    }
    assert recs[..count] == recs;
    r := Some(root);
  }

  /** Mounts the image on a device: header, then one record after the other into the tree. */
  method FromRamdisk(disk: RamDisk) returns (r: Option<Node>)
    ensures r.Some? ==> r == Mount(disk.data)
    ensures disk.reliable ==> r == Mount(disk.data)
  {
    var header := disk.ReadBlock(0, BLOCK);
    if header.None? {
      return None;
    }
    assert header.value[..8] == disk.data[..8] && header.value[8..12] == disk.data[8..12];
    if header.value[..8] != MAGIC {
      return None;
    }
    var count := FromLe32(header.value[8..12]);
    ghost var offs, recs := LayoutOf(RecordsOf(disk.data), FIRST_ENTRY, count);
    r := ReadEntries(disk, FIRST_ENTRY, count, offs, recs);
  }

  // --- From the packer's directory to the mounted tree ---

  /** A file or directory found by the packer, under its path in the packed directory. */
  datatype Item = Item(path: Path, isDir: bool, data: seq<byte>)

  predicate ValidItem(i: Item) {
    i.path != [] && (forall p | p in i.path :: IsPiece(p, SLASH)) && (i.isDir ==> i.data == [])
  }

  function ModeOf(isDir: bool): nat {
    if isDir then DIR_MODE else FILE_MODE
  }

  function ToRecord(i: Item): Record {
    Record(Join(i.path, SLASH), i.isDir, ModeOf(i.isDir), i.data)
  }

  function ItemEntry(i: Item): Entry {
    Entry(i.path, Attr(i.isDir, ModeOf(i.isDir), i.data))
  }

  function Records(items: seq<Item>): (r: seq<Record>)
    ensures |r| == |items| && forall i | 0 <= i < |items| :: r[i] == ToRecord(items[i])
  {
    seq(|items|, i requires 0 <= i < |items| => ToRecord(items[i]))
  }

  function ItemEntries(items: seq<Item>): (r: seq<Entry>)
    ensures |r| == |items| && forall i | 0 <= i < |items| :: r[i] == ItemEntry(items[i])
  {
    seq(|items|, i requires 0 <= i < |items| => ItemEntry(items[i]))
  }

  /** Mounting the packed items builds the tree of exactly these items. */
  lemma MountPacked(items: seq<Item>)
    requires forall i | 0 <= i < |items| :: ValidItem(items[i])
    requires Pack(Records(items)).Some?
    ensures AllNamed(ItemEntries(items))
    ensures Mount(Pack(Records(items)).value) == Some(Build(ItemEntries(items)))
  {
    var rs := Records(items);
    forall i | 0 <= i < |items|
      ensures Packable(rs[i]) && ToEntry(rs[i]) == ItemEntry(items[i])
    {
      assert Encodable(rs[i]);
      SplitJoin(items[i].path, SLASH);
    }
    PackParseRoundTrip(rs);
    assert ToEntries(rs) == ItemEntries(items);
  }

  /** Pack the directories and files the packer collects, mount the image, and every one is found as it was. */
  lemma PackedItemsAreFound(dirs: seq<Item>, files: seq<Item>, k: nat)
    requires forall i | 0 <= i < |dirs + files| :: ValidItem((dirs + files)[i])
    requires Collected(ItemEntries(dirs), ItemEntries(files))
    requires Pack(Records(dirs + files)).Some? && k < |dirs + files|
    ensures var item := (dirs + files)[k];
            var mounted := Mount(Pack(Records(dirs + files)).value);
            && mounted.Some?
            && Lookup(mounted.value, item.path)
               == Some(Attr(item.isDir, if item.isDir then DIR_MODE else FILE_MODE, item.data))
  {
    var es := ItemEntries(dirs + files);
    assert es == ItemEntries(dirs) + ItemEntries(files);
    MountPacked(dirs + files);
    CollectedInOrder(ItemEntries(dirs), ItemEntries(files));
    LookupListed(es, k);
  }

  /** And nothing else is found: only the root, the items and the directories above them. */
  lemma OnlyPackedItemsAreFound(dirs: seq<Item>, files: seq<Item>, q: Path)
    requires forall i | 0 <= i < |dirs + files| :: ValidItem((dirs + files)[i])
    requires Collected(ItemEntries(dirs), ItemEntries(files))
    requires Pack(Records(dirs + files)).Some?
    ensures var mounted := Mount(Pack(Records(dirs + files)).value);
            && mounted.Some?
            && (Lookup(mounted.value, q).Some? <==> Covered(ItemEntries(dirs + files), q))
  {
    assert ItemEntries(dirs + files) == ItemEntries(dirs) + ItemEntries(files);
    MountPacked(dirs + files);
    CollectedInOrder(ItemEntries(dirs), ItemEntries(files));
    LookupInOrder(ItemEntries(dirs + files), q);
  }

  /** Packed the other way round, a file is lost: the directory's record replaces what was made for the file. */
  lemma ParentAfterChildLosesIt(d: Name, f: Name, data: seq<byte>)
    requires IsPiece(d, SLASH) && IsPiece(f, SLASH) && |d| + |f| + 1 < U32 && |data| < U32
    ensures var image := Pack(Records([Item([d, f], false, data), Item([d], true, [])]));
            && image.Some? && Mount(image.value).Some?
            && Lookup(Mount(image.value).value, [d, f]) == None
  {
    var items := [Item([d, f], false, data), Item([d], true, [])];
    assert ValidItem(items[0]) && ValidItem(items[1]);
    var rs := Records(items);
    assert Join([d, f], SLASH) == d + [SLASH] + f && Join([d], SLASH) == d;
    assert Encodable(rs[0]) && Encodable(rs[1]);
    assert AllEncodable(rs);
    MountPacked(items);
    assert ItemEntries(items)[1].path < [d, f];
    LaterAncestorErases(ItemEntries(items), 1, [d, f]);
  }
}
