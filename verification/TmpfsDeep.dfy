/** A chain of directories of any depth beside another directory, and what renaming that one into the chain answers. */
module TmpfsDeep {
  import opened Flat
  import opened TmpfsData
  import opened TmpfsTree
  import opened TmpfsMoves
  import opened TmpfsRename
  import opened TmpfsFs

  /** The directory at the bottom of the chain. */
  function Bottom(k: nat): nat {
    if k == 0 then 0 else k + 1
  }

  /** The root 0 with a directory "o", which is 1, and a chain of `k` directories named "d". */
  function Deep(k: nat): (s: Space)
    ensures Bottom(k) in s.nodes
  {
    if k == 0 then AddNew(Space(map[0 := Node(Directory, 2, None, EMPTY_FILE)], map[]), (0, "o"), 1, Directory)
    else AddNew(Deep(k - 1), (Bottom(k - 1), "d"), k + 1, Directory)
  }

  lemma RootIsTree()
    ensures Tree(Space(map[0 := Node(Directory, 2, None, EMPTY_FILE)], map[]), 0)
  {
    var s := Space(map[0 := Node(Directory, 2, None, EMPTY_FILE)], map[]);
    assert Climbs(s, 0, 0, 0) && UnderRoot(s, 0, 0);
    assert Names(s, 0) == {} && Subdirs(s, 0) == {};
    forall n
      ensures CountedAt(s, 0, n)
    {
    }
  }

  /** Every inode and name of the chain is below the next inode number, and the bottom has no "d" yet. */
  ghost predicate Bounded(s: Space, k: nat) {
    && (forall n | n in s.nodes :: n <= k + 1)
    && (forall e | e in s.names :: e.0 <= k + 1 && e != (Bottom(k), "d"))
    && (0, "o") in s.names && s.names[(0, "o")] == 1 && IsDir(s, 1)
  }

  /** The bottom is a live directory `k` levels down and outside of "o". */
  ghost predicate BottomOk(s: Space, k: nat) {
    IsDir(s, Bottom(k)) && Live(s, Bottom(k)) && Climbs(s, 0, Bottom(k), k) && Avoids(s, 0, Bottom(k), 1, k)
  }

  lemma TopIsTree()
    ensures Tree(Deep(0), 0) && Bounded(Deep(0), 0) && BottomOk(Deep(0), 0)
  {
    RootIsTree();
    AddNewKeepsTree(Space(map[0 := Node(Directory, 2, None, EMPTY_FILE)], map[]), 0, (0, "o"), 1, Directory);
  }

  lemma OneDeeper(s: Space, t: Space, k: nat)
    requires k > 0 && Bounded(s, k - 1) && BottomOk(s, k - 1)
    requires t == AddNew(s, (Bottom(k - 1), "d"), k + 1, Directory)
    ensures Bounded(t, k)
    ensures BottomOk(t, k)
  {
    assert forall m | m in s.nodes :: m in t.nodes && t.nodes[m].parent == s.nodes[m].parent;
    SameClimb(s, t, 0, Bottom(k - 1), k - 1);
    SameAvoids(s, t, 0, Bottom(k - 1), 1, k - 1);
    assert t.nodes[k + 1].parent == Some(Bottom(k - 1));
  }

  /** The chain is a tree, its bottom lies `k` levels down, and outside of "o". */
  lemma {:induction false} DeepIsTree(k: nat)
    ensures Tree(Deep(k), 0) && Bounded(Deep(k), k) && BottomOk(Deep(k), k)
  {
    if k == 0 {
      TopIsTree();
    } else {
      var s := Deep(k - 1);
      DeepIsTree(k - 1);
      assert Free(s, (Bottom(k - 1), "d")) && k + 1 !in s.nodes;
      AddNewKeepsTree(s, 0, (Bottom(k - 1), "d"), k + 1, Directory);
      OneDeeper(s, Deep(k), k);
    }
  }

  /** Moving "o" to the bottom of the chain closes no cycle at any depth, and is refused exactly from 1023 levels on. */
  lemma DeepMoveRefused(k: nat)
    ensures Tree(Deep(k), 0) && Outside(Deep(k), 0, Bottom(k), 1)
    ensures RenameResult(Deep(k), 0, "o", Bottom(k), "x") == if k >= 1023 then Err(InvalidArgument) else Ok(())
  {
    DeepIsTree(k);
    SeemsInsideExactly(Deep(k), 0, Bottom(k), 1, k);
    NoX(k);
  }

  lemma {:induction false} NoX(k: nat)
    ensures forall e | e in Deep(k).names :: e.1 != "x"
  {
    if k > 0 {
      NoX(k - 1);
    }
  }
}
