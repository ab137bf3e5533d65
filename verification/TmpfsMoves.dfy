/** Every move on the tmpfs name space keeps it a tree with right link counts. */
module TmpfsMoves {
  import opened Flat
  import opened TmpfsTree

  /** The name can be made: its directory is live and does not have it yet. */
  ghost predicate Free(s: Space, e: Slot) {
    IsDir(s, e.0) && Live(s, e.0) && e !in s.names
  }

  /** Where all parent pointers are as before, so is every climb. */
  lemma {:induction false} SameClimb(s: Space, t: Space, root: nat, n: nat, k: nat)
    requires forall m | m in s.nodes :: m in t.nodes && t.nodes[m].parent == s.nodes[m].parent
    requires Climbs(s, root, n, k)
    ensures Climbs(t, root, n, k)
    decreases k
  {
    if k > 0 {
      SameClimb(s, t, root, s.nodes[n].parent.value, k - 1);
    }
  }

  lemma SameClimbs(s: Space, t: Space, root: nat)
    requires NoCycle(s, root)
    requires forall m | m in s.nodes :: m in t.nodes && t.nodes[m].parent == s.nodes[m].parent
    ensures forall n {:trigger UnderRoot(t, root, n)} | IsDir(s, n) && Live(s, n) :: UnderRoot(t, root, n)
  {
    forall n | IsDir(s, n) && Live(s, n) ensures UnderRoot(t, root, n) {
      assert UnderRoot(s, root, n);
      var k: nat :| Climbs(s, root, n, k);
      SameClimb(s, t, root, n, k);
    }
  }

  // --- A new inode ---

  lemma AddNewKeepsTree(s: Space, root: nat, e: Slot, id: nat, kind: Kind)
    requires Tree(s, root) && Free(s, e) && id !in s.nodes
    ensures Tree(AddNew(s, e, id, kind), root)
  {
    var t := AddNew(s, e, id, kind);
    AddNewClosed(s, root, e, id, kind);
    AddNewOneParent(s, root, e, id, kind);
    AddNewNoCycle(s, root, e, id, kind);
    forall m ensures CountedAt(t, root, m) {
      AddNewCount(s, root, e, id, kind, m);
    }
  }

  lemma AddNewClosed(s: Space, root: nat, e: Slot, id: nat, kind: Kind)
    requires Closed(s, root) && OneParent(s) && Free(s, e) && id !in s.nodes
    ensures Closed(AddNew(s, e, id, kind), root)
  {
    var t := AddNew(s, e, id, kind);
    forall x | x in t.names ensures t.names[x] in t.nodes && t.names[x] != root && IsDir(t, x.0) && Live(t, x.0) {
      assert x != e ==> x in s.names && s.names[x] == t.names[x];
    }
  }

  lemma AddNewOneParent(s: Space, root: nat, e: Slot, id: nat, kind: Kind)
    requires Closed(s, root) && OneParent(s) && Free(s, e) && id !in s.nodes
    ensures OneParent(AddNew(s, e, id, kind))
  {
    var t := AddNew(s, e, id, kind);
    assert forall m | m in s.nodes :: t.nodes[m].kind == s.nodes[m].kind && t.nodes[m].parent == s.nodes[m].parent;
    forall a, b | SameDir(t, a, b) ensures a == b {
      assert a != e && b != e ==> SameDir(s, a, b);
    }
  }

  lemma AddNewNoCycle(s: Space, root: nat, e: Slot, id: nat, kind: Kind)
    requires Tree(s, root) && Free(s, e) && id !in s.nodes
    ensures NoCycle(AddNew(s, e, id, kind), root)
  {
    var t := AddNew(s, e, id, kind);
    SameClimbs(s, t, root);
    assert UnderRoot(t, root, e.0);
    var k: nat :| Climbs(t, root, e.0, k);
    assert Climbs(t, root, id, k + 1);
    assert UnderRoot(t, root, id);
  }

  lemma AddNewCount(s: Space, root: nat, e: Slot, id: nat, kind: Kind, m: nat)
    requires Tree(s, root) && Free(s, e) && id !in s.nodes
    ensures CountedAt(AddNew(s, e, id, kind), root, m)
  {
    var t := AddNew(s, e, id, kind);
    assert CountedAt(s, root, m);
    NameAdded(s, t, e, id, m);
    SubdirAdded(s, t, e, id, m);
    if m == id {
      assert Names(s, id) == {};
      assert Subdirs(s, id) == {};
    }
  }

  /** Nothing refers to a removed directory, so it should have no links. */
  lemma RemovedCount(s: Space, t: Space, root: nat, d: nat)
    requires Tree(s, root) && IsDir(s, d) && !Live(s, d) && IsDir(t, d)
    requires forall e | e in t.names && t.names[e] == d :: e in s.names && s.names[e] == d
    ensures d != root && LinkCount(t, root, d) == 0
  {
    LiveIffLinked(s, root, d);
    assert Names(s, d) == {};
    assert forall e | e in t.names :: t.names[e] == d ==> e in Names(s, d);
    assert Names(t, d) == {};
  }

  /** A name in a removed directory spoils the tree; in any other directory a free name is fine. */
  lemma AddNewExactly(s: Space, root: nat, e: Slot, id: nat, kind: Kind)
    requires Tree(s, root) && IsDir(s, e.0) && e !in s.names && id !in s.nodes
    ensures Tree(AddNew(s, e, id, kind), root) <==> Live(s, e.0)
  {
    var t := AddNew(s, e, id, kind);
    if Live(s, e.0) {
      AddNewKeepsTree(s, root, e, id, kind);
    } else {
      RemovedCount(s, t, root, e.0);
      assert e in t.names;
      assert CountedAt(t, root, e.0) ==> !Live(t, e.0);
    }
  }

  // --- One more name ---

  lemma AddLinkExactly(s: Space, root: nat, e: Slot, n: nat)
    requires Tree(s, root) && IsDir(s, e.0) && e !in s.names && n in s.nodes && !IsDir(s, n)
    ensures Tree(AddLink(s, e, n), root) <==> Live(s, e.0)
  {
    if Live(s, e.0) {
      AddLinkKeepsTree(s, root, e, n);
    } else {
      assert e in AddLink(s, e, n).names;
    }
  }

  lemma AddLinkKeepsTree(s: Space, root: nat, e: Slot, n: nat)
    requires Tree(s, root) && Free(s, e) && n in s.nodes && !IsDir(s, n)
    ensures Tree(AddLink(s, e, n), root)
  {
    var t := AddLink(s, e, n);
    forall a, b | SameDir(t, a, b) ensures a == b {
      assert SameDir(s, a, b);
    }
    SameClimbs(s, t, root);
    forall m ensures CountedAt(t, root, m) {
      assert CountedAt(s, root, m);
      NameAdded(s, t, e, n, m);
      SubdirAdded(s, t, e, n, m);
    }
  }

  // --- One name less ---

  /** The name refers to something that may be removed. */
  ghost predicate Removable(s: Space, e: Slot) {
    e in s.names && (IsDir(s, s.names[e]) ==> IsEmptyDir(s, s.names[e]))
  }

  lemma RemoveKeepsTree(s: Space, root: nat, e: Slot)
    requires Tree(s, root) && Removable(s, e)
    ensures Tree(Remove(s, e), root)
  {
    var t := Remove(s, e);
    assert CountedAt(s, root, e.0);
    RemoveClosed(s, root, e);
    SameClimbs(s, t, root);
    forall m ensures CountedAt(t, root, m) {
      RemoveCount(s, root, e, m);
    }
  }

  lemma RemoveClosed(s: Space, root: nat, e: Slot)
    requires Closed(s, root) && OneParent(s) && Removable(s, e) && s.nodes[e.0].nlinks > 1
    ensures Closed(Remove(s, e), root) && OneParent(Remove(s, e))
  {
    forall a, b | SameDir(Remove(s, e), a, b) ensures a == b {
      assert SameDir(s, a, b);
    }
  }

  lemma RemoveCount(s: Space, root: nat, e: Slot, m: nat)
    requires Tree(s, root) && Removable(s, e)
    ensures CountedAt(Remove(s, e), root, m)
  {
    var n := s.names[e];
    var t := Remove(s, e);
    assert CountedAt(s, root, m);
    NameRemoved(s, t, e, n, m);
    SubdirRemoved(s, t, e, n, m);
    NamedOnce(s, e);
  }

  // --- A new place ---

  /** Going up from `m` to the root never meets `n`. */
  ghost predicate Avoids(s: Space, root: nat, m: nat, n: nat, k: nat)
    decreases k
  {
    m != n &&
    if k == 0 then m == root
    else m != root && m in s.nodes && s.nodes[m].parent.Some? && Avoids(s, root, s.nodes[m].parent.value, n, k - 1)
  }

  /** The directory `m` is not inside the directory `n`, and is not `n` itself. */
  ghost predicate Outside(s: Space, root: nat, m: nat, n: nat) {
    exists k: nat :: Avoids(s, root, m, n, k)
  }

  /** No directory is its own parent. */
  lemma {:induction false} NotOwnParent(s: Space, root: nat, n: nat, k: nat)
    requires Climbs(s, root, n, k) && n in s.nodes
    ensures n == root || s.nodes[n].parent != Some(n)
    decreases k
  {
    if k > 0 && s.nodes[n].parent == Some(n) {
      NotOwnParent(s, root, n, k - 1);
    }
  }

  /** A climb that avoids `n` is not affected by a new parent of `n`. */
  lemma {:induction false} AvoidingClimb(s: Space, t: Space, root: nat, m: nat, n: nat, k: nat)
    requires forall x | x in s.nodes && x != n :: x in t.nodes && t.nodes[x].parent == s.nodes[x].parent
    requires Avoids(s, root, m, n, k)
    ensures Climbs(t, root, m, k)
    decreases k
  {
    if k > 0 {
      AvoidingClimb(s, t, root, s.nodes[m].parent.value, n, k - 1);
    }
  }

  /** After `n` moved under `q`, which lies outside `n`, everything still hangs under the root. */
  lemma {:induction false} ClimbAfterMove(s: Space, t: Space, root: nat, m: nat, n: nat, q: nat, k: nat)
    requires forall x | x in s.nodes && x != n :: x in t.nodes && t.nodes[x].parent == s.nodes[x].parent
    requires n in t.nodes && n != root && t.nodes[n].parent == Some(q)
    requires Outside(s, root, q, n) && Climbs(s, root, m, k)
    ensures UnderRoot(t, root, m)
    decreases k
  {
    if m == n {
      var j: nat :| Avoids(s, root, q, n, j);
      AvoidingClimb(s, t, root, q, n, j);
      assert Climbs(t, root, n, j + 1);
    } else if k == 0 {
      assert Climbs(t, root, m, 0);
    } else {
      ClimbAfterMove(s, t, root, s.nodes[m].parent.value, n, q, k - 1);
      var j: nat :| Climbs(t, root, s.nodes[m].parent.value, j);
      assert Climbs(t, root, m, j + 1);
    }
  }

  /** The inode named `from` may take the free name `to`. */
  ghost predicate CanMove(s: Space, root: nat, from: Slot, to: Slot) {
    && Free(s, to) && from in s.names
    && (s.names[from] in s.nodes && IsDir(s, s.names[from]) ==> Outside(s, root, to.0, s.names[from]))
  }

  lemma MoveKeepsTree(s: Space, root: nat, from: Slot, to: Slot)
    requires Tree(s, root) && CanMove(s, root, from, to)
    ensures Tree(Move(s, from, to), root)
  {
    var t := Move(s, from, to);
    MoveNotSelf(s, root, from, to);
    MoveSameLive(s, root, from, to);
    MoveMoves(s, from, to);
    MoveClosed(s, t, root, from, to);
    MoveNoCycle(s, root, from, to);
    forall m ensures CountedAt(t, root, m) {
      MoveCount(s, root, from, to, m);
    }
  }

  /** What a move does to each inode. */
  ghost predicate Moved(s: Space, t: Space, from: Slot, to: Slot)
    requires from in s.names
  {
    var n := s.names[from];
    && t.names == (s.names - {from})[to := n]
    && t.nodes.Keys == s.nodes.Keys
    && forall m | m in s.nodes ::
         && t.nodes[m].kind == s.nodes[m].kind
         && t.nodes[m].parent == if m == n && IsDir(s, n) then Some(to.0) else s.nodes[m].parent
  }

  lemma MoveMoves(s: Space, from: Slot, to: Slot)
    requires from in s.names && s.names[from] in s.nodes && from.0 in s.nodes && to.0 in s.nodes
    requires IsDir(s, s.names[from]) ==> s.nodes[s.names[from]].parent == Some(from.0)
    ensures Moved(s, Move(s, from, to), from, to)
  {
  }

  lemma MoveClosed(s: Space, t: Space, root: nat, from: Slot, to: Slot)
    requires Closed(s, root) && OneParent(s) && Free(s, to) && from in s.names && Moved(s, t, from, to)
    requires forall m | m in s.nodes :: Live(t, m) <==> Live(s, m)
    ensures Closed(t, root) && OneParent(t)
  {
    forall a, b | SameDir(t, a, b) ensures a == b {
      assert SameDir(s, if a == to then from else a, if b == to then from else b);
    }
    forall e | e in t.names && IsDir(t, t.names[e]) ensures t.nodes[t.names[e]].parent == Some(e.0) {
      if e != to && t.names[e] == s.names[from] {
        assert SameDir(s, e, from);
      }
    }
  }

  /** A directory on the move is neither its old nor its new parent. */
  lemma MoveNotSelf(s: Space, root: nat, from: Slot, to: Slot)
    requires Tree(s, root) && CanMove(s, root, from, to)
    ensures s.names[from] != to.0 && s.names[from] != from.0
  {
    var n := s.names[from];
    if IsDir(s, n) {
      var j: nat :| Avoids(s, root, to.0, n, j);
      NamedIsLive(s, root, from);
      assert UnderRoot(s, root, n);
      var k: nat :| Climbs(s, root, n, k);
      NotOwnParent(s, root, n, k);
    }
  }

  /** A move brings no inode to life and kills none. */
  lemma MoveSameLive(s: Space, root: nat, from: Slot, to: Slot)
    requires Tree(s, root) && CanMove(s, root, from, to)
    ensures forall m | m in s.nodes :: Live(Move(s, from, to), m) <==> Live(s, m)
  {
    assert CountedAt(s, root, from.0);
  }

  lemma MoveNoCycle(s: Space, root: nat, from: Slot, to: Slot)
    requires Tree(s, root) && CanMove(s, root, from, to)
    ensures NoCycle(Move(s, from, to), root)
  {
    var n := s.names[from];
    var t := Move(s, from, to);
    MoveSameLive(s, root, from, to);
    if IsDir(s, n) && from.0 != to.0 {
      MoveNotSelf(s, root, from, to);
      forall m | IsDir(t, m) && Live(t, m) ensures UnderRoot(t, root, m) {
        assert UnderRoot(s, root, m);
        var k: nat :| Climbs(s, root, m, k);
        ClimbAfterMove(s, t, root, m, n, to.0, k);
      }
    } else {
      SameClimbs(s, t, root);
    }
  }

  /** A move changes no number of names. */
  lemma MoveNames(s: Space, root: nat, from: Slot, to: Slot, m: nat)
    requires Closed(s, root) && CanMove(s, root, from, to)
    ensures |Names(Move(s, from, to), m)| == |Names(s, m)|
  {
    var n := s.names[from];
    var mid := s.(names := s.names - {from});
    NameRemoved(s, mid, from, n, m);
    NameAdded(mid, Move(s, from, to), to, n, m);
  }

  /** A move changes the numbers of subdirectories of the two parents. */
  lemma MoveSubdirs(s: Space, root: nat, from: Slot, to: Slot, m: nat)
    requires Closed(s, root) && CanMove(s, root, from, to)
    ensures var n := s.names[from];
            |Subdirs(Move(s, from, to), m)|
            == |Subdirs(s, m)| + (if m == to.0 && IsDir(s, n) then 1 else 0)
               - (if m == from.0 && IsDir(s, n) then 1 else 0)
  {
    var n := s.names[from];
    var mid := s.(names := s.names - {from});
    SubdirRemoved(s, mid, from, n, m);
    SubdirAdded(mid, Move(s, from, to), to, n, m);
  }

  lemma MoveCount(s: Space, root: nat, from: Slot, to: Slot, m: nat)
    requires Tree(s, root) && CanMove(s, root, from, to)
    ensures CountedAt(Move(s, from, to), root, m)
  {
    MoveNotSelf(s, root, from, to);
    assert CountedAt(s, root, m);
    MoveNames(s, root, from, to, m);
    MoveSubdirs(s, root, from, to, m);
    NamedOnce(s, from);
  }

  /** A name moved into a removed directory spoils the tree. */
  lemma MoveIntoRemoved(s: Space, root: nat, from: Slot, to: Slot)
    requires Tree(s, root) && from in s.names && IsDir(s, to.0) && !Live(s, to.0) && to !in s.names
    ensures !Tree(Move(s, from, to), root)
  {
    var t := Move(s, from, to);
    NamedIsLive(s, root, from);
    RemovedCount(s, t, root, to.0);
    assert to in t.names;
    assert CountedAt(t, root, to.0) ==> !Live(t, to.0);
  }
}
