/** A mounted tmpfs: directory operations, file operations and the page accounting they share. */
module TmpfsFs {
  import opened Flat
  import opened TmpfsData
  import opened TmpfsTree
  import opened TmpfsMoves
  import opened TmpfsRename

  datatype TruncateResult = Done | Refused(error: Error) | Panicked

  /** A quota of `maxPages` pages, none when it is zero. When `framesPlenty`, a frame can always be had. */
  class Tmpfs {
    const root: nat
    const maxPages: nat
    const framesPlenty: bool
    var nodes: map<nat, Node>
    var names: map<Slot, nat>
    var usedPages: nat
    var nextIno: nat

    function S(): Space
      reads this
    {
      Space(nodes, names)
    }

    /** The directories are a tree, link counts are right, and the page counter is the number of pages in use. */
    ghost predicate Valid()
      reads this
    {
      && Tree(S(), root)
      && DataValid(nodes, nextIno)
      && usedPages == Total(nodes, nextIno)
      && (maxPages != 0 ==> usedPages <= maxPages)
    }

    constructor (maxPages: nat, framesPlenty: bool)
      ensures Valid() && this.maxPages == maxPages && this.framesPlenty == framesPlenty
      ensures names == map[] && nodes == map[root := Node(Directory, 2, None, EMPTY_FILE)]
      ensures usedPages == 0 && nextIno == root + 1
    {
      root, this.maxPages, this.framesPlenty := 1, maxPages, framesPlenty;
      nodes := map[1 := Node(Directory, 2, None, EMPTY_FILE)];
      names := map[];
      usedPages, nextIno := 0, 2;
      new;
      assert Climbs(S(), 1, 1, 0);
      forall n ensures CountedAt(S(), 1, n) {
        assert Subdirs(S(), n) == {};
      }
      assert Total(nodes, 1) == 0;
      assert Total(nodes, 2) == 0;
    }

    /** Makes an empty file, a directory or a special file; in a removed directory this spoils the tree. */
    method Make(dir: nat, name: string, kind: Kind) returns (r: Result<nat>)
      requires Valid() && dir in nodes
      modifies this
      ensures Valid() <==> r.Err? || old(Live(S(), dir))
      ensures r == if !IsDir(old(S()), dir) then Err(NotDirectory)
                   else if (dir, name) in old(names) then Err(AlreadyExists) else Ok(old(nextIno))
      ensures S() == if r.Ok? then AddNew(old(S()), (dir, name), r.value, kind) else old(S())
      ensures usedPages == old(usedPages) && nextIno == if r.Ok? then old(nextIno) + 1 else old(nextIno)
    {
      if nodes[dir].kind != Directory {
        return Err(NotDirectory);
      }
      if (dir, name) in names {
        return Err(AlreadyExists);
      }
      var ino := nextIno;
      AddNewExactly(S(), root, (dir, name), ino, kind);
      AddNewData(S(), (dir, name), ino, kind);
      nextIno := nextIno + 1;
      Attach(dir, name, ino, kind);
      return Ok(ino);
    }

    method Attach(dir: nat, name: string, ino: nat, kind: Kind)
      requires dir in nodes
      modifies this`names, this`nodes
      ensures S() == AddNew(old(S()), (dir, name), ino, kind)
    {
      nodes := nodes[ino := Node(kind, if kind == Directory then 2 else 1, Some(dir), EMPTY_FILE)];
      names := names[(dir, name) := ino];
      if kind == Directory {
        nodes := nodes[dir := nodes[dir].(nlinks := nodes[dir].nlinks + 1)];
      }
    }

    /** Gives a file one more name; a file that had none left comes back without its pages being counted. */
    method Link(dir: nat, name: string, target: nat) returns (r: Result<()>)
      requires Valid() && dir in nodes && target in nodes
      modifies this
      ensures Valid() <==>
                || r.Err?
                || (old(Live(S(), dir)) && (old(Live(S(), target)) || old(Present(nodes[target].data.pages)) == 0))
      ensures r == if !IsDir(old(S()), dir) then Err(NotDirectory)
                   else if (dir, name) in old(names) then Err(AlreadyExists)
                   else if IsDir(old(S()), target) then Err(PermissionDenied) else Ok(())
      ensures S() == if r.Ok? then AddLink(old(S()), (dir, name), target) else old(S())
      ensures usedPages == old(usedPages) && nextIno == old(nextIno)
    {
      if nodes[dir].kind != Directory {
        return Err(NotDirectory);
      }
      if (dir, name) in names {
        return Err(AlreadyExists);
      }
      if nodes[target].kind == Directory {
        return Err(PermissionDenied);
      }
      ghost var s := S();
      AddLinkExactly(s, root, (dir, name), target);
      AttachLink(dir, name, target);
      TotalChange(s.nodes, nodes, target, nextIno);
      return Ok(());
    }

    method AttachLink(dir: nat, name: string, target: nat)
      requires target in nodes
      modifies this`names, this`nodes
      ensures S() == AddLink(old(S()), (dir, name), target)
    {
      nodes := nodes[target := nodes[target].(nlinks := nodes[target].nlinks + 1)];
      names := names[(dir, name) := target];
    }

    /** Takes one link off `child`, whose name in `dir` is already gone; the last one frees its pages. */
    method RemoveLinkFromChild(dir: nat, child: nat)
      requires dir in nodes && child in nodes
      modifies this`nodes, this`usedPages
      ensures nodes == (if old(nodes[child].kind) == Directory then FewerLinks(WithLinks(old(S()), child, 0), dir)
                        else FewerLinks(old(S()), child)).nodes
      ensures usedPages == if old(nodes[child].kind != Directory && nodes[child].nlinks <= 1)
                           then Max(0, old(usedPages) - Present(old(nodes[child].data.pages))) else old(usedPages)
    {
      var isDir := nodes[child].kind == Directory;
      var freesData := false;
      if isDir {
        nodes := nodes[child := nodes[child].(nlinks := 0)];
      } else {
        nodes := nodes[child := nodes[child].(nlinks := Max(0, nodes[child].nlinks - 1))];
        freesData := nodes[child].nlinks == 0;
      }
      if isDir {
        nodes := nodes[dir := nodes[dir].(nlinks := Max(0, nodes[dir].nlinks - 1))];
      }
      if freesData {
        usedPages := Max(0, usedPages - Present(nodes[child].data.pages));
      }
    }

    /** Drops the name of something that may go. */
    method DropName(dir: nat, name: string)
      requires Valid() && Removable(S(), (dir, name))
      modifies this
      ensures Valid() && nextIno == old(nextIno)
      ensures S() == Remove(old(S()), (dir, name))
      ensures usedPages == old(usedPages) - FreedBy(old(S()), (dir, name))
    {
      ghost var s := S();
      NamedIsLive(s, root, (dir, name));
      RemoveKeepsTree(s, root, (dir, name));
      RemoveTotal(s, root, (dir, name), nextIno);
      var child := names[(dir, name)];
      names := names - {(dir, name)};
      RemoveLinkFromChild(dir, child);
      assert S() == Remove(s, (dir, name));
    }

    /** Removes the name of a file. */
    method Unlink(dir: nat, name: string) returns (r: Result<()>)
      requires Valid() && dir in nodes
      modifies this
      ensures Valid()
      ensures r == if !IsDir(old(S()), dir) then Err(NotDirectory)
                   else if (dir, name) !in old(names) then Err(NotFound)
                   else if IsDir(old(S()), old(names)[(dir, name)]) then Err(IsDirectory) else Ok(())
      ensures S() == if r.Ok? then Remove(old(S()), (dir, name)) else old(S())
      ensures usedPages == old(usedPages) - if r.Ok? then FreedBy(old(S()), (dir, name)) else 0
      ensures nextIno == old(nextIno)
    {
      if nodes[dir].kind != Directory {
        return Err(NotDirectory);
      }
      if (dir, name) !in names {
        return Err(NotFound);
      }
      if nodes[names[(dir, name)]].kind == Directory {
        return Err(IsDirectory);
      }
      DropName(dir, name);
      return Ok(());
    }

    /** Removes an empty directory. */
    method Rmdir(dir: nat, name: string) returns (r: Result<()>)
      requires Valid() && dir in nodes
      modifies this
      ensures Valid()
      ensures r == if !IsDir(old(S()), dir) then Err(NotDirectory)
                   else if (dir, name) !in old(names) then Err(NotFound)
                   else if !IsDir(old(S()), old(names)[(dir, name)]) then Err(NotDirectory)
                   else if !IsEmptyDir(old(S()), old(names)[(dir, name)]) then Err(DirectoryNotEmpty) else Ok(())
      ensures S() == if r.Ok? then Remove(old(S()), (dir, name)) else old(S())
      ensures usedPages == old(usedPages)
      ensures nextIno == old(nextIno)
    {
      if nodes[dir].kind != Directory {
        return Err(NotDirectory);
      }
      if (dir, name) !in names {
        return Err(NotFound);
      }
      var child := names[(dir, name)];
      if nodes[child].kind != Directory {
        return Err(NotDirectory);
      }
      if !IsEmptyDir(S(), child) {
        return Err(DirectoryNotEmpty);
      }
      DropName(dir, name);
      return Ok(());
    }

    /** Puts the inode named `from` under the free name `to`. */
    method MoveName(from: Slot, to: Slot)
      requires Valid() && from in names && IsDir(S(), to.0) && to !in names
      requires Live(S(), to.0) ==> CanMove(S(), root, from, to)
      modifies this
      ensures Valid() <==> old(Live(S(), to.0))
      ensures nextIno == old(nextIno) && usedPages == old(usedPages) && S() == Move(old(S()), from, to)
    {
      if Live(S(), to.0) {
        MoveKeepsTree(S(), root, from, to);
        MoveTotal(S(), root, from, to, nextIno);
        MoveKeepsData(S(), from, to, nextIno);
      } else {
        MoveIntoRemoved(S(), root, from, to);
      }
      Relink(from, to);
    }

    method Relink(from: Slot, to: Slot)
      requires from in names && names[from] in nodes && from.0 in nodes && to.0 in nodes
      modifies this`names, this`nodes
      ensures S() == Move(old(S()), from, to)
    {
      var child := names[from];
      names := names - {from};
      names := names[to := child];
      if nodes[child].kind == Directory && from.0 != to.0 {
        nodes := nodes[child := nodes[child].(parent := Some(to.0))];
        nodes := nodes[from.0 := nodes[from.0].(nlinks := Max(0, nodes[from.0].nlinks - 1))];
        nodes := nodes[to.0 := nodes[to.0].(nlinks := nodes[to.0].nlinks + 1)];
      }
    }

    /**
     * Renames within a directory or across two, replacing a compatible target. A removed new parent spoils the tree,
     * and the walk up from it may miss that it lies inside the moved directory.
     */
    method Rename(dir: nat, oldName: string, newDir: nat, newName: string) returns (r: Result<()>)
      requires Valid() && dir in nodes && newDir in nodes
      modifies this
      ensures Valid() <==>
                r.Err? || RenameIsNoop(old(S()), dir, oldName, newDir, newName) || old(Live(S(), newDir))
      ensures r == RenameResult(old(S()), dir, oldName, newDir, newName)
           || (r == Ok(()) && WalkMayMiss(old(S()), dir, oldName, newDir, newName))
      ensures S() == if r.Ok? && !RenameIsNoop(old(S()), dir, oldName, newDir, newName)
                     then Renamed(old(S()), (dir, oldName), (newDir, newName)) else old(S())
      ensures nextIno == old(nextIno)
    {
      if oldName == "" || newName == "" || oldName == "." || oldName == ".." || newName == "." || newName == ".." {
        return Err(InvalidArgument);
      }
      if nodes[dir].kind != Directory || nodes[newDir].kind != Directory {
        return Err(NotDirectory);
      }
      if dir == newDir && oldName == newName {
        return Ok(());
      }
      var from, to := (dir, oldName), (newDir, newName);
      if from !in names {
        return Err(NotFound);
      }
      var child := names[from];
      if nodes[child].kind == Directory {
        var inside := IsDescendantOrSelf(S(), root, newDir, child);
        if inside {
          return Err(InvalidArgument);
        }
      }
      if to in names {
        var target := names[to];
        var refusal := ReplaceError(S(), child, target);
        if refusal.Some? {
          return Err(refusal.value);
        }
        if child == target {
          return Ok(());
        }
        ghost var s := S();
        RenameKeepsTree(s, root, from, to);
        CanStillMove(s, root, from, to);
        DropName(newDir, newName);
      }
      MoveName(from, to);
      return Ok(());
    }

    /** Reads a file as the flat byte sequence it stands for. */
    method ReadAt(ino: nat, off: nat, len: nat) returns (r: Result<seq<byte>>)
      requires Valid() && ino in nodes
      ensures r == if nodes[ino].kind != File then Err(IsDirectory) else Ok(Read(Contents(nodes[ino].data), off, len))
    {
      if nodes[ino].kind != File {
        return Err(IsDirectory);
      }
      var buf := ReadData(nodes[ino].data, off, len);
      return Ok(buf);
    }

    /**
     * Writes a file; a write that would exceed the quota is refused and changes no byte, and so is one that runs out of
     * frames. The pages that a file takes after its last name is gone stay counted for good.
     */
    method WriteAt(ino: nat, off: nat, buf: seq<byte>) returns (r: Result<nat>)
      requires Valid() && ino in nodes
      modifies this
      ensures Valid() <==> old(Live(S(), ino)) || usedPages == old(usedPages)
      ensures old(usedPages) <= usedPages <= old(usedPages + PagesNeeded(nodes[ino].data, off, |buf|))
      ensures r.Ok? ==> usedPages == old(usedPages + PagesNeeded(nodes[ino].data, off, |buf|))
      ensures r.Err? && framesPlenty ==> usedPages == old(usedPages)
      ensures names == old(names) && nodes.Keys == old(nodes.Keys) && nextIno == old(nextIno)
      ensures forall n | n in nodes && n != ino :: nodes[n] == old(nodes[n])
      ensures nodes[ino] == old(nodes[ino]).(data := nodes[ino].data)
      ensures Present(nodes[ino].data.pages) == old(Present(nodes[ino].data.pages)) + (usedPages - old(usedPages))
      ensures r.Ok? && old(NoSpare(nodes[ino].data)) ==> NoSpare(nodes[ino].data)
      ensures var fits := maxPages == 0 || old(usedPages + PagesNeeded(nodes[ino].data, off, |buf|)) <= maxPages;
              if old(nodes[ino].kind) != File then r == Err(IsDirectory)
              else (r == Ok(|buf|) && fits) || (r == Err(NoSpace) && (!fits || !framesPlenty))
      ensures r.Ok? && buf != [] ==> Contents(nodes[ino].data) == Write(old(Contents(nodes[ino].data)), off, buf)
      ensures r.Ok? && buf == [] ==>
                Contents(nodes[ino].data)
                  == Flat.Truncate(old(Contents(nodes[ino].data)), Max(old(nodes[ino].data.size), off))
      ensures r.Err? ==> Contents(nodes[ino].data) == old(Contents(nodes[ino].data))
    {
      if nodes[ino].kind != File {
        return Err(IsDirectory);
      }
      var budget := if maxPages == 0 then None else Some(maxPages - usedPages);
      var frames: Option<nat> := *;
      var ok, data, taken := WriteData(nodes[ino].data, off, buf, budget, if framesPlenty then None else frames);
      SetData(ino, data, usedPages + taken);
      return if ok then Ok(|buf|) else Err(NoSpace);
    }

    /**
     * Stores new data for a file together with a page count, which is right when it follows the pages of a live file.
     */
    method SetData(ino: nat, data: FileData, pages: nat)
      requires Valid() && ino in nodes && nodes[ino].kind == File && Clean(data)
      requires maxPages != 0 ==> pages <= maxPages
      modifies this
      ensures Valid() <==>
                pages == if !old(Live(S(), ino)) then old(usedPages)
                         else old(usedPages - Present(nodes[ino].data.pages)) + Present(data.pages)
      ensures names == old(names) && usedPages == pages && nextIno == old(nextIno)
      ensures nodes == old(nodes)[ino := old(nodes[ino]).(data := data)]
    {
      ghost var s := S();
      nodes := nodes[ino := nodes[ino].(data := data)];
      usedPages := pages;
      TotalChange(s.nodes, nodes, ino, nextIno);
      DataKeepsTree(s, S(), root);
    }

    /**
     * Cuts or grows a file. The shrink that slices past the page vector stops the kernel, the pages cut from a file
     * whose last name is gone are given back a second time, and pages past the end are not given back.
     */
    method Truncate(ino: nat, size: nat) returns (r: TruncateResult)
      requires Valid() && ino in nodes
      modifies this
      ensures Valid() <==> r != Done || if old(Live(S(), ino)) then old(PagesLost(nodes[ino].data, size)) == 0
                                        else old(PagesCut(nodes[ino].data, size)) == 0 || old(usedPages) == 0
      ensures usedPages == if r != Done then old(usedPages)
                           else Max(0, old(usedPages - PagesCut(nodes[ino].data, size)))
      ensures names == old(names) && nodes.Keys == old(nodes.Keys) && nextIno == old(nextIno)
      ensures forall n | n in nodes && n != ino :: nodes[n] == old(nodes[n])
      ensures nodes[ino] == old(nodes[ino]).(data := nodes[ino].data)
      ensures r == if old(nodes[ino].kind) != File then Refused(IsDirectory)
                   else if ShrinkPanics(old(nodes[ino].data), size) then Panicked else Done
      ensures Contents(nodes[ino].data) == if r == Done then Flat.Truncate(old(Contents(nodes[ino].data)), size)
                                           else old(Contents(nodes[ino].data))
    {
      if nodes[ino].kind != File {
        return Refused(IsDirectory);
      }
      var panics, data, freed := TruncateData(nodes[ino].data, size);
      if panics {
        return Panicked;
      }
      TotalChange(nodes, nodes, ino, nextIno);
      SetData(ino, data, Max(0, usedPages - freed));
      return Done;
    }
  }

  /** The tree does not look at file data. */
  lemma DataKeepsTree(s: Space, t: Space, root: nat)
    requires Tree(s, root) && t.names == s.names && t.nodes.Keys == s.nodes.Keys
    requires forall n | n in s.nodes :: t.nodes[n] == s.nodes[n].(data := t.nodes[n].data)
    ensures Tree(t, root)
  {
    forall a, b | SameDir(t, a, b) ensures a == b {
      assert SameDir(s, a, b);
    }
    SameClimbs(s, t, root);
    forall n ensures CountedAt(t, root, n) {
      assert CountedAt(s, root, n);
      assert Names(t, n) == Names(s, n) && Subdirs(t, n) == Subdirs(s, n);
    }
  }

  predicate BadName(name: string) {
    name == "" || name == "." || name == ".."
  }

  /** Both names are the same, or refer to the same inode. */
  predicate RenameIsNoop(s: Space, dir: nat, oldName: string, newDir: nat, newName: string) {
    var from, to := (dir, oldName), (newDir, newName);
    from == to || (from in s.names && to in s.names && s.names[from] == s.names[to])
  }

  /** The walk up from a removed new parent should meet the moved directory, and may end before it does. */
  ghost predicate WalkMayMiss(s: Space, dir: nat, oldName: string, newDir: nat, newName: string) {
    var from, to := (dir, oldName), (newDir, newName);
    && !BadName(oldName) && !BadName(newName) && IsDir(s, dir) && IsDir(s, newDir) && !Live(s, newDir)
    && from in s.names && IsDir(s, s.names[from]) && SeemsInside(s, newDir, s.names[from])
  }

  /** What renaming answers. */
  ghost function RenameResult(s: Space, dir: nat, oldName: string, newDir: nat, newName: string): Result<()>
  {
    var from, to := (dir, oldName), (newDir, newName);
    if BadName(oldName) || BadName(newName) then Err(InvalidArgument)
    else if !IsDir(s, dir) || !IsDir(s, newDir) then Err(NotDirectory)
    else if from == to then Ok(())
    else if from !in s.names then Err(NotFound)
    else if IsDir(s, s.names[from]) && SeemsInside(s, newDir, s.names[from]) then Err(InvalidArgument)
    else if to in s.names && ReplaceError(s, s.names[from], s.names[to]).Some?
    then Err(ReplaceError(s, s.names[from], s.names[to]).value)
    else Ok(())
  }
}
