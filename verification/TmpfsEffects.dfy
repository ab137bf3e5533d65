/** What the tmpfs operations on names answer and do, said case by case, and which of them undo one another. */
module TmpfsEffects {
  import opened Flat
  import opened TmpfsData
  import opened TmpfsTree
  import opened TmpfsMoves
  import opened TmpfsRename
  import opened TmpfsFs

  /** No inode comes or goes, and none changes its kind or its data. */
  ghost predicate SameFiles(s: Space, t: Space) {
    && t.nodes.Keys == s.nodes.Keys
    && forall n | n in s.nodes :: t.nodes[n].kind == s.nodes[n].kind && t.nodes[n].data == s.nodes[n].data
  }

  /** Both names are there, refer to different inodes, and the climb does not refuse. */
  ghost predicate Replaces(s: Space, dir: nat, oldName: string, newDir: nat, newName: string) {
    var from, to := (dir, oldName), (newDir, newName);
    && IsDir(s, dir) && IsDir(s, newDir) && from in s.names && to in s.names && s.names[from] != s.names[to]
    && oldName !in {"", ".", ".."} && newName !in {"", ".", ".."}
    && !(IsDir(s, s.names[from]) && SeemsInside(s, newDir, s.names[from]))
  }

  /**
   * A rename over another inode succeeds exactly when both are directories or neither is, and a directory in the way is
   * empty; each refusal comes exactly in its case.
   */
  lemma RenameOverExactly(s: Space, dir: nat, oldName: string, newDir: nat, newName: string)
    requires Replaces(s, dir, oldName, newDir, newName)
    ensures var child, target := s.names[(dir, oldName)], s.names[(newDir, newName)];
            var r, full := RenameResult(s, dir, oldName, newDir, newName), exists e | e in s.names :: e.0 == target;
            && (r == Ok(()) <==> (IsDir(s, child) <==> IsDir(s, target)) && (IsDir(s, target) ==> !full))
            && (r == Err(NotDirectory) <==> IsDir(s, child) && !IsDir(s, target))
            && (r == Err(IsDirectory) <==> !IsDir(s, child) && IsDir(s, target))
            && (r == Err(DirectoryNotEmpty) <==> IsDir(s, child) && IsDir(s, target) && full)
  {
  }

  /** The other answers: bad names, then parents that are no directories, the same place, a missing name, the climb. */
  lemma RenameOtherwise(s: Space, dir: nat, oldName: string, newDir: nat, newName: string)
    requires !Replaces(s, dir, oldName, newDir, newName)
    ensures var from, to, r := (dir, oldName), (newDir, newName), RenameResult(s, dir, oldName, newDir, newName);
            if oldName in {"", ".", ".."} || newName in {"", ".", ".."} then r == Err(InvalidArgument)
            else if !(IsDir(s, dir) && IsDir(s, newDir)) then r == Err(NotDirectory)
            else if from == to then r == Ok(())
            else if from !in s.names then r == Err(NotFound)
            else r == if IsDir(s, s.names[from]) && SeemsInside(s, newDir, s.names[from]) then Err(InvalidArgument)
                      else Ok(())
  {
  }

  lemma MovedNames(s: Space, from: Slot, to: Slot)
    requires from in s.names && s.names[from] in s.nodes && from.0 in s.nodes && to.0 in s.nodes
    ensures Move(s, from, to).names == (s.names - {from})[to := s.names[from]]
    ensures SameFiles(s, Move(s, from, to))
  {
  }

  lemma RemovedNames(s: Space, e: Slot)
    requires e in s.names && s.names[e] in s.nodes && e.0 in s.nodes
    ensures Remove(s, e).names == s.names - {e} && SameFiles(s, Remove(s, e))
  {
  }

  /** A successful rename: the new name refers to what had the old one, which is gone, and all other names stay. */
  lemma RenamedNames(s: Space, from: Slot, to: Slot)
    requires from in s.names && s.names[from] in s.nodes && from.0 in s.nodes && to.0 in s.nodes && from != to
    requires to in s.names ==> s.names[to] in s.nodes
    ensures Renamed(s, from, to).names == (s.names - {from})[to := s.names[from]]
    ensures SameFiles(s, Renamed(s, from, to))
  {
    if to in s.names {
      RemovedNames(s, to);
      var t := Remove(s, to);
      MovedNames(t, from, to);
      assert (s.names - {to} - {from})[to := s.names[from]] == (s.names - {from})[to := s.names[from]];
    } else {
      MovedNames(s, from, to);
    }
  }

  /** An accepted rename does nothing for one name or one inode, and else gives the new name to what had the old one. */
  lemma RenameDoes(s: Space, root: nat, dir: nat, oldName: string, newDir: nat, newName: string)
    requires Tree(s, root) && RenameResult(s, dir, oldName, newDir, newName).Ok?
    ensures var from, to := (dir, oldName), (newDir, newName);
            var t := if RenameIsNoop(s, dir, oldName, newDir, newName) then s else Renamed(s, from, to);
            && SameFiles(s, t)
            && t.names == if from == to || (to in s.names && s.names[to] == s.names[from]) then s.names
                          else (s.names - {from})[to := s.names[from]]
  {
    var from, to := (dir, oldName), (newDir, newName);
    if !RenameIsNoop(s, dir, oldName, newDir, newName) {
      RenamedNames(s, from, to);
    }
  }

  /** A move to a free name can be undone. */
  lemma MoveAndBack(s: Space, root: nat, from: Slot, to: Slot)
    requires Tree(s, root) && CanMove(s, root, from, to)
    ensures Move(Move(s, from, to), to, from) == s
  {
    MoveNotSelf(s, root, from, to);
    assert CountedAt(s, root, from.0);
    var t := Move(s, from, to);
    assert (t.names - {to})[from := s.names[from]] == s.names;
  }

  /** What making and linking do to names and files. */
  lemma AddedNames(s: Space, e: Slot, n: nat, kind: Kind)
    requires e.0 in s.nodes
    ensures n !in s.nodes ==>
              && AddNew(s, e, n, kind).names == s.names[e := n]
              && AddNew(s, e, n, kind).nodes.Keys == s.nodes.Keys + {n}
              && AddNew(s, e, n, kind).nodes[n] == Node(kind, if kind == Directory then 2 else 1, Some(e.0), EMPTY_FILE)
    ensures n in s.nodes ==> AddLink(s, e, n).names == s.names[e := n] && SameFiles(s, AddLink(s, e, n))
  {
  }

  /** What is made or linked under a free name can be removed again, and then names and links are as before. */
  lemma MakeThenRemove(s: Space, root: nat, e: Slot, n: nat, kind: Kind)
    requires Tree(s, root) && IsDir(s, e.0) && Live(s, e.0) && e !in s.names
    ensures n !in s.nodes ==>
              var t := Remove(AddNew(s, e, n, kind), e);
              && t.names == s.names && t.nodes[n].nlinks == 0 && t.nodes == s.nodes[n := t.nodes[n]]
    ensures n in s.nodes && !IsDir(s, n) ==> Remove(AddLink(s, e, n), e) == s
  {
    assert CountedAt(s, root, e.0);
    assert s.names[e := n] - {e} == s.names;
  }
}
