/** Runs in which a tmpfs goes wrong: names in removed directories, and pages of files without a name. */
module TmpfsRemoved {
  import opened Flat
  import opened TmpfsData
  import opened TmpfsTree
  import opened TmpfsMoves
  import opened TmpfsRename
  import opened TmpfsFs

  /** A file system with a directory that has been removed. */
  method MakeAndRemove(name: string) returns (fs: Tmpfs, dir: nat)
    ensures fresh(fs) && fs.Valid() && fs.names == map[]
    ensures dir in fs.nodes && dir != fs.root && IsDir(fs.S(), dir) && !Live(fs.S(), dir) && Live(fs.S(), fs.root)
  {
    fs := new Tmpfs(0, true);
    var made := fs.Make(fs.root, name, Directory);
    dir := made.value;
    var removed := fs.Rmdir(fs.root, name);
  }

  /** A file can be made in a removed directory, and then the names are no tree. */
  method MakeInRemoved(name: string, file: string) returns (fs: Tmpfs, r: Result<nat>)
    ensures r.Ok? && !fs.Valid()
  {
    var dir;
    fs, dir := MakeAndRemove(name);
    r := fs.Make(dir, file, File);
  }

  /** A file can be renamed into a removed directory, and then the names are no tree. */
  method RenameIntoRemoved(name: string, file: string) returns (fs: Tmpfs, r: Result<()>)
    requires !BadName(file)
    ensures r.Ok? && !fs.Valid()
  {
    var dir;
    fs, dir := MakeAndRemove(name);
    var made := fs.Make(fs.root, file, File);
    r := fs.Rename(fs.root, file, dir, file);
  }

  /** No quota, frames enough, and the root there. */
  ghost predicate Roomy(fs: Tmpfs)
    reads fs
  {
    fs.Valid() && fs.maxPages == 0 && fs.framesPlenty && IsDir(fs.S(), fs.root) && Live(fs.S(), fs.root)
  }

  /** A new empty file under a free name. */
  method AddEmpty(fs: Tmpfs, name: string) returns (ino: nat)
    requires Roomy(fs) && (fs.root, name) !in fs.names
    modifies fs
    ensures Roomy(fs) && fs.usedPages == old(fs.usedPages) && fs.names == old(fs.names)[(fs.root, name) := ino]
    ensures ino in fs.nodes && fs.nodes[ino].kind == File && fs.nodes[ino].nlinks == 1
    ensures fs.nodes[ino].data == EMPTY_FILE
  {
    var made := fs.Make(fs.root, name, File);
    ino := made.value;
  }

  /** The one page of a file goes when the file is cut to nothing. */
  lemma CutToNothing(f: FileData)
    requires f.size > 0 && NoSpare(f)
    ensures Shrinks(f, 0) && PagesCut(f, 0) == Present(f.pages)
  {
    LostIsSpare(f, 0);
    CutPresent(f.pages, 0, EndPage(f));
  }

  /** A new file with one page under a free name. */
  method AddFile(fs: Tmpfs, name: string, buf: seq<byte>) returns (ino: nat)
    requires Roomy(fs) && (fs.root, name) !in fs.names && 0 < |buf| <= PAGE_SIZE
    modifies fs
    ensures Roomy(fs) && fs.usedPages == old(fs.usedPages) + 1 && fs.names == old(fs.names)[(fs.root, name) := ino]
    ensures ino in fs.nodes && fs.nodes[ino].kind == File && fs.nodes[ino].nlinks == 1
    ensures Shrinks(fs.nodes[ino].data, 0) && PagesCut(fs.nodes[ino].data, 0) == Present(fs.nodes[ino].data.pages) == 1
  {
    ino := AddEmpty(fs, name);
    assert PagesNeeded(EMPTY_FILE, 0, |buf|) == 1;
    var wrote := fs.WriteAt(ino, 0, buf);
    assert fs.nodes[ino].data.size == |Contents(fs.nodes[ino].data)| == |buf|;
    CutToNothing(fs.nodes[ino].data);
  }

  /** A page written to a file without a name is counted although no file with a name has a page. */
  method WriteAfterUnlink(name: string, buf: seq<byte>) returns (fs: Tmpfs)
    requires 0 < |buf| <= PAGE_SIZE
    ensures fs.usedPages == 1 && Total(fs.nodes, fs.nextIno) == 0
  {
    fs := new Tmpfs(0, true);
    var ino := AddEmpty(fs, name);
    var unlinked := fs.Unlink(fs.root, name);
    ghost var before := fs.nodes;
    assert PagesNeeded(EMPTY_FILE, 0, |buf|) == 1;
    var wrote := fs.WriteAt(ino, 0, buf);
    TotalSame(before, fs.nodes, fs.nextIno);
  }

  /** A file with one page that gets a name again after its last one went has a page that is not counted. */
  method LinkAfterUnlink(name: string, buf: seq<byte>) returns (fs: Tmpfs, r: Result<()>)
    requires 0 < |buf| <= PAGE_SIZE
    ensures r.Ok? && fs.usedPages == 0 && !fs.Valid()
  {
    fs := new Tmpfs(0, true);
    var ino := AddFile(fs, name, buf);
    var unlinked := fs.Unlink(fs.root, name);
    r := fs.Link(fs.root, name, ino);
  }

  /** Cutting a file without a name gives its page back a second time: none is counted, and another file has one. */
  method TruncateAfterUnlink(first: string, second: string, buf: seq<byte>) returns (fs: Tmpfs, r: TruncateResult)
    requires first != second && 0 < |buf| <= PAGE_SIZE
    ensures r == Done && fs.usedPages == 0 && Total(fs.nodes, fs.nextIno) == 1
  {
    fs := new Tmpfs(0, true);
    var other := AddFile(fs, first, buf);
    var ino := AddFile(fs, second, buf);
    var unlinked := fs.Unlink(fs.root, second);
    ghost var before := fs.nodes;
    r := fs.Truncate(ino, 0);
    TotalSame(before, fs.nodes, fs.nextIno);
  }
}
