/** Renaming in the tmpfs tree, the walk that guards it, and the page total of all live files. */
module TmpfsRename {
  import opened Flat
  import opened TmpfsData
  import opened TmpfsTree
  import opened TmpfsMoves

  datatype Error =
    | NotDirectory | IsDirectory | AlreadyExists | NotFound | DirectoryNotEmpty
    | PermissionDenied | InvalidArgument | NoSpace

  datatype Result<+T> = Ok(value: T) | Err(error: Error)

  const MAX_CLIMB: nat := 1024

  /** The present pages of a live inode. */
  function PagesOf(nodes: map<nat, Node>, n: nat): nat {
    if n in nodes && nodes[n].nlinks > 0 then Present(nodes[n].data.pages) else 0
  }

  /** The present pages of all live inodes below `bound`. */
  function Total(nodes: map<nat, Node>, bound: nat): nat {
    if bound == 0 then 0 else Total(nodes, bound - 1) + PagesOf(nodes, bound - 1)
  }

  lemma {:induction false} TotalSame(a: map<nat, Node>, b: map<nat, Node>, bound: nat)
    requires forall n | 0 <= n < bound :: PagesOf(a, n) == PagesOf(b, n)
    ensures Total(a, bound) == Total(b, bound)
  {
    if bound > 0 {
      TotalSame(a, b, bound - 1);
    }
  }

  /** When one inode changes, the total changes by as much. */
  lemma {:induction false} TotalChange(a: map<nat, Node>, b: map<nat, Node>, n: nat, bound: nat)
    requires n < bound && forall m | 0 <= m < bound && m != n :: PagesOf(a, m) == PagesOf(b, m)
    ensures Total(b, bound) == Total(a, bound) - PagesOf(a, n) + PagesOf(b, n)
    ensures Total(a, bound) >= PagesOf(a, n)
  {
    if n == bound - 1 {
      TotalSame(a, b, bound - 1);
    } else {
      TotalChange(a, b, n, bound - 1);
    }
  }

  /** The `k`-th ancestor of `n`, itself for 0. */
  function Ancestor(s: Space, n: nat, k: nat): Option<nat> {
    if k == 0 then Some(n)
    else
      var below := Ancestor(s, n, k - 1);
      if below.Some? && below.value in s.nodes then s.nodes[below.value].parent else None
  }

  lemma {:induction false} AncestorOfParent(s: Space, n: nat, k: nat)
    requires n in s.nodes && s.nodes[n].parent.Some?
    ensures Ancestor(s, n, k + 1) == Ancestor(s, s.nodes[n].parent.value, k)
  {
    if k > 0 {
      AncestorOfParent(s, n, k - 1);
    }
  }

  /** A climb to the root that never met `other` shows that the directory lies outside `other`. */
  lemma {:induction false} MetNowhere(s: Space, root: nat, n: nat, other: nat, k: nat)
    requires Climbs(s, root, n, k)
    requires forall j: nat | j <= k :: Ancestor(s, n, j) != Some(other)
    ensures Avoids(s, root, n, other, k)
    decreases k
  {
    assert Ancestor(s, n, 0) == Some(n);
    if k > 0 {
      var p := s.nodes[n].parent.value;
      forall j: nat | j <= k - 1 ensures Ancestor(s, p, j) != Some(other) {
        AncestorOfParent(s, n, j);
      }
      MetNowhere(s, root, p, other, k - 1);
    }
  }

  /** The climb ends at the root, and there is nothing above it. */
  lemma {:induction false} AncestorsEnd(s: Space, root: nat, n: nat, k: nat)
    requires Climbs(s, root, n, k) && root in s.nodes && s.nodes[root].parent == None
    ensures Ancestor(s, n, k) == Some(root) && Ancestor(s, n, k + 1) == None
    decreases k
  {
    if k > 0 {
      AncestorsEnd(s, root, s.nodes[n].parent.value, k - 1);
      AncestorOfParent(s, n, k - 1);
      AncestorOfParent(s, n, k);
    }
  }

  lemma {:induction false} NothingAboveNone(s: Space, n: nat, k: nat, more: nat)
    requires Ancestor(s, n, k) == None && k <= more
    ensures Ancestor(s, n, more) == None
    decreases more
  {
    if k < more {
      NothingAboveNone(s, n, k, more - 1);
    }
  }

  /** When the walk up from `n` ran out before it met `other`, `n` lies outside `other`. */
  lemma RanOut(s: Space, root: nat, n: nat, other: nat, m: nat)
    requires Closed(s, root) && UnderRoot(s, root, n)
    requires Ancestor(s, n, m) == None && forall j: nat | j < m :: Ancestor(s, n, j) != Some(other)
    ensures Outside(s, root, n, other)
  {
    var k: nat :| Climbs(s, root, n, k);
    AncestorsEnd(s, root, n, k);
    if m <= k {
      NothingAboveNone(s, n, m, k);
    }
    MetNowhere(s, root, n, other, k);
  }

  /** The climb that guards against moving a directory into itself: met within 1024 steps, or too long. */
  ghost predicate SeemsInside(s: Space, n: nat, other: nat) {
    || (exists k: nat | k < MAX_CLIMB :: Ancestor(s, n, k) == Some(other))
    || Ancestor(s, n, MAX_CLIMB - 1).Some?
  }

  lemma {:induction false} AvoidsMeetsNowhere(s: Space, root: nat, m: nat, n: nat, k: nat, j: nat)
    requires Avoids(s, root, m, n, k)
    ensures Climbs(s, root, m, k) && (j <= k ==> Ancestor(s, m, j) != Some(n))
    decreases k
  {
    if k > 0 {
      var parent := s.nodes[m].parent.value;
      AvoidsMeetsNowhere(s, root, parent, n, k - 1, if j > 0 then j - 1 else 0);
      if j > 0 {
        AncestorOfParent(s, m, j - 1);
      }
    }
  }

  /** A directory outside `other` never meets it going up. */
  lemma OutsideMeetsNowhere(s: Space, root: nat, n: nat, other: nat, j: nat)
    requires Closed(s, root) && Outside(s, root, n, other)
    ensures Ancestor(s, n, j) != Some(other)
  {
    var k: nat :| Avoids(s, root, n, other, k);
    AvoidsMeetsNowhere(s, root, n, other, k, j);
    AncestorsEnd(s, root, n, k);
    if j > k {
      NothingAboveNone(s, n, k + 1, j);
    }
  }

  /**
   * A directory `k` levels down is taken to be inside `other` exactly when it is, or when it lies 1023 levels or more
   * down.
   */
  lemma SeemsInsideExactly(s: Space, root: nat, n: nat, other: nat, k: nat)
    requires Closed(s, root) && Climbs(s, root, n, k)
    ensures SeemsInside(s, n, other) <==> !Outside(s, root, n, other) || k >= MAX_CLIMB - 1
  {
    AncestorsEnd(s, root, n, k);
    if k >= MAX_CLIMB - 1 {
      if Ancestor(s, n, MAX_CLIMB - 1).None? {
        NothingAboveNone(s, n, MAX_CLIMB - 1, k);
      }
    } else {
      NothingAboveNone(s, n, k + 1, MAX_CLIMB - 1);
      if Outside(s, root, n, other) {
        forall j: nat
          ensures Ancestor(s, n, j) != Some(other)
        {
          OutsideMeetsNowhere(s, root, n, other, j);
        }
      } else if forall j: nat | j <= k :: Ancestor(s, n, j) != Some(other) {
        MetNowhere(s, root, n, other, k);
        assert false;
      }
    }
  }

  /** Above a directory that still has its name are only such directories. */
  lemma LiveParent(s: Space, root: nat, n: nat)
    requires Tree(s, root) && IsDir(s, n) && Live(s, n) && n != root
    ensures s.nodes[n].parent.Some? && IsDir(s, s.nodes[n].parent.value) && Live(s, s.nodes[n].parent.value)
  {
    LiveIffLinked(s, root, n);
    var e :| e in Names(s, n);
  }

  /**
   Walks up from `candidate` looking for `ancestor`. True when it was met, and also when the walk is longer than 1024
   steps. From a removed directory the walk may end early, at a removed directory that nothing holds any more.
   */
  method IsDescendantOrSelf(s: Space, root: nat, candidate: nat, ancestor: nat) returns (r: bool)
    requires Tree(s, root) && IsDir(s, candidate)
    ensures r ==> SeemsInside(s, candidate, ancestor)
    ensures Live(s, candidate) ==> (r <==> SeemsInside(s, candidate, ancestor))
    ensures Live(s, candidate) && !r ==> Outside(s, root, candidate, ancestor)
  {
    var current := Some(candidate);
    var i := 0;
    while i < MAX_CLIMB
      invariant 0 <= i <= MAX_CLIMB
      invariant current.Some? || Live(s, candidate) ==> current == Ancestor(s, candidate, i)
      invariant current.Some? && Live(s, candidate) ==> IsDir(s, current.value) && Live(s, current.value)
      invariant i > 0 ==> Ancestor(s, candidate, i - 1).Some?
      invariant forall j: nat | j < i :: Ancestor(s, candidate, j) != Some(ancestor)
    {
      if current.None? {
        if Live(s, candidate) {
          NotMet(s, root, candidate, ancestor, i);
        }
        return false;
      }
      if current.value == ancestor {
        return true;
      }
      if Live(s, candidate) && current.value != root {
        LiveParent(s, root, current.value);
      }
      var parent := if current.value in s.nodes then s.nodes[current.value].parent else None;
      var gone: bool := *;
      current := if gone && parent.Some? && !Live(s, parent.value) then None else parent;
      i := i + 1;
    }
    return true;
  }

  /** A walk that ran out within its bound did not meet `ancestor`, and would not. */
  lemma NotMet(s: Space, root: nat, candidate: nat, ancestor: nat, i: nat)
    requires Tree(s, root) && IsDir(s, candidate) && Live(s, candidate) && i < MAX_CLIMB
    requires Ancestor(s, candidate, i) == None && forall j: nat | j < i :: Ancestor(s, candidate, j) != Some(ancestor)
    ensures !SeemsInside(s, candidate, ancestor) && Outside(s, root, candidate, ancestor)
  {
    assert UnderRoot(s, root, candidate);
    NothingAboveNone(s, candidate, i, MAX_CLIMB - 1);
    forall k: nat | k < MAX_CLIMB ensures Ancestor(s, candidate, k) != Some(ancestor) {
      if k >= i {
        NothingAboveNone(s, candidate, i, k);
      }
    }
    RanOut(s, root, candidate, ancestor, i);
  }

  /** Renaming: whatever had the new name loses it first. */
  function Renamed(s: Space, from: Slot, to: Slot): Space
    requires from in s.names && s.names[from] in s.nodes && from.0 in s.nodes && to.0 in s.nodes && from != to
    requires to in s.names ==> s.names[to] in s.nodes
  {
    if to in s.names then Move(Remove(s, to), from, to) else Move(s, from, to)
  }

  /** What `validate_rename_target` accepts: a file over a file, a directory over an empty directory. */
  function ReplaceError(s: Space, child: nat, target: nat): Option<Error> {
    if child == target then None
    else if IsDir(s, child) then
      (if !IsDir(s, target) then Some(NotDirectory)
       else if IsEmptyDir(s, target) then None else Some(DirectoryNotEmpty))
    else (if IsDir(s, target) then Some(IsDirectory) else None)
  }

  ghost predicate CanRename(s: Space, root: nat, from: Slot, to: Slot) {
    && from in s.names && IsDir(s, to.0) && Live(s, to.0)
    && (IsDir(s, s.names[from]) ==> Outside(s, root, to.0, s.names[from]))
    && (to in s.names ==> s.names[to] != s.names[from] && ReplaceError(s, s.names[from], s.names[to]) == None)
  }

  lemma {:induction false} SameAvoids(s: Space, t: Space, root: nat, m: nat, n: nat, k: nat)
    requires forall x | x in s.nodes :: x in t.nodes && t.nodes[x].parent == s.nodes[x].parent
    requires Avoids(s, root, m, n, k)
    ensures Avoids(t, root, m, n, k)
    decreases k
  {
    if k > 0 {
      SameAvoids(s, t, root, s.nodes[m].parent.value, n, k - 1);
    }
  }

  /** After the target lost its name, the move is possible. */
  lemma CanStillMove(s: Space, root: nat, from: Slot, to: Slot)
    requires Tree(s, root) && CanRename(s, root, from, to) && from != to && to in s.names
    ensures CanMove(Remove(s, to), root, from, to)
  {
    assert CountedAt(s, root, to.0);
    if IsDir(s, s.names[from]) {
      var k: nat :| Avoids(s, root, to.0, s.names[from], k);
      SameAvoids(s, Remove(s, to), root, to.0, s.names[from], k);
    }
  }

  lemma RenameKeepsTree(s: Space, root: nat, from: Slot, to: Slot)
    requires Tree(s, root) && CanRename(s, root, from, to) && from != to
    ensures Tree(Renamed(s, from, to), root)
  {
    if to in s.names {
      RemoveKeepsTree(s, root, to);
      CanStillMove(s, root, from, to);
      MoveKeepsTree(Remove(s, to), root, from, to);
    } else {
      MoveKeepsTree(s, root, from, to);
    }
  }

  // --- What the moves do to the page total ---

  /** Each inode's own data is in order, and its number is below `bound`. */
  ghost predicate DataValid(nodes: map<nat, Node>, bound: nat) {
    forall n | n in nodes ::
      n < bound && Clean(nodes[n].data) && (nodes[n].kind != File ==> nodes[n].data == EMPTY_FILE)
  }

  /** The moves on names leave kinds and data alone. */
  lemma MoveKeepsData(s: Space, from: Slot, to: Slot, bound: nat)
    requires from in s.names && s.names[from] in s.nodes && from.0 in s.nodes && to.0 in s.nodes
    requires DataValid(s.nodes, bound)
    ensures DataValid(Move(s, from, to).nodes, bound)
  {
  }

  lemma AddNewData(s: Space, e: Slot, id: nat, kind: Kind)
    requires e.0 in s.nodes && DataValid(s.nodes, id)
    ensures DataValid(AddNew(s, e, id, kind).nodes, id + 1)
    ensures Total(AddNew(s, e, id, kind).nodes, id + 1) == Total(s.nodes, id)
      || s.nodes[e.0].nlinks == 0
  {
    var t := AddNew(s, e, id, kind);
    if s.nodes[e.0].nlinks > 0 {
      TotalSame(s.nodes, t.nodes, id);
    }
  }

  /** The pages that go with the name `e`: those of a file that has no other name. */
  function FreedBy(s: Space, e: Slot): nat
    requires e in s.names && s.names[e] in s.nodes
  {
    var n := s.names[e];
    if s.nodes[n].kind != Directory && s.nodes[n].nlinks == 1 then Present(s.nodes[n].data.pages) else 0
  }

  lemma RemoveTotal(s: Space, root: nat, e: Slot, bound: nat)
    requires Tree(s, root) && Removable(s, e) && DataValid(s.nodes, bound)
    ensures Total(Remove(s, e).nodes, bound) == Total(s.nodes, bound) - FreedBy(s, e)
    ensures FreedBy(s, e) <= Total(s.nodes, bound)
  {
    var n := s.names[e];
    var t := Remove(s, e);
    NamedIsLive(s, root, e);
    assert CountedAt(s, root, e.0) && CountedAt(s, root, n);
    TotalChange(s.nodes, t.nodes, n, bound);
  }

  lemma MoveTotal(s: Space, root: nat, from: Slot, to: Slot, bound: nat)
    requires Tree(s, root) && CanMove(s, root, from, to)
    ensures Total(Move(s, from, to).nodes, bound) == Total(s.nodes, bound)
  {
    var t := Move(s, from, to);
    MoveSameLive(s, root, from, to);
    assert forall m | m in s.nodes :: t.nodes[m].data == s.nodes[m].data;
    TotalSame(s.nodes, t.nodes, bound);
  }
}
