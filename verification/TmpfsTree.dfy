/**
 The tmpfs name space as a value: inodes, the names that refer to them, and the moves on it.
 The children maps of all directories are one map from (directory, name) to inode.
 */
module TmpfsTree {
  import opened Flat
  import opened TmpfsData

  datatype Kind = File | Directory | Special

  datatype Node = Node(kind: Kind, nlinks: nat, parent: Option<nat>, data: FileData)

  /** A directory and a name in it. */
  type Slot = (nat, string)

  datatype Space = Space(nodes: map<nat, Node>, names: map<Slot, nat>)

  /** The names that refer to `n`. */
  function Names(s: Space, n: nat): set<Slot> {
    set e | e in s.names && s.names[e] == n
  }

  predicate IsDir(s: Space, n: nat) {
    n in s.nodes && s.nodes[n].kind == Directory
  }

  /** The names in `d` that refer to directories. */
  function Subdirs(s: Space, d: nat): set<Slot> {
    set e | e in s.names && e.0 == d && IsDir(s, s.names[e])
  }

  predicate IsEmptyDir(s: Space, d: nat) {
    forall e | e in s.names :: e.0 != d
  }

  /** The root, or some name refers to it. */
  predicate Linked(s: Space, root: nat, n: nat) {
    n == root || |Names(s, n)| > 0
  }

  predicate Live(s: Space, n: nat) {
    n in s.nodes && s.nodes[n].nlinks > 0
  }

  /** Going up `k` parents from `n` ends at the root. */
  ghost predicate Climbs(s: Space, root: nat, n: nat, k: nat)
    decreases k
  {
    if k == 0 then n == root
    else n != root && n in s.nodes && s.nodes[n].parent.Some? && Climbs(s, root, s.nodes[n].parent.value, k - 1)
  }

  /** Names refer to inodes other than the root, and only live directories hold names. */
  ghost predicate Closed(s: Space, root: nat) {
    && IsDir(s, root) && s.nodes[root].parent == None
    && forall e | e in s.names :: s.names[e] in s.nodes && s.names[e] != root && IsDir(s, e.0) && Live(s, e.0)
  }

  /** Both names refer to the same directory. */
  predicate SameDir(s: Space, e: Slot, f: Slot) {
    e in s.names && f in s.names && s.names[e] == s.names[f] && IsDir(s, s.names[e])
  }

  /** A directory has one name only, and its parent pointer is the directory that holds it. */
  ghost predicate OneParent(s: Space) {
    && (forall e | e in s.names && IsDir(s, s.names[e]) :: s.nodes[s.names[e]].parent == Some(e.0))
    && (forall e, f {:trigger SameDir(s, e, f)} | SameDir(s, e, f) :: e == f)
  }

  ghost predicate UnderRoot(s: Space, root: nat, n: nat) {
    exists k: nat :: Climbs(s, root, n, k)
  }

  /** Every live directory hangs under the root. */
  ghost predicate NoCycle(s: Space, root: nat) {
    forall n {:trigger UnderRoot(s, root, n)} | IsDir(s, n) && Live(s, n) :: UnderRoot(s, root, n)
  }

  /** The link count an inode should have. */
  function LinkCount(s: Space, root: nat, n: nat): nat
    requires n in s.nodes
  {
    if s.nodes[n].kind == Directory then (if Linked(s, root, n) then 2 + |Subdirs(s, n)| else 0)
    else |Names(s, n)|
  }

  predicate CountedAt(s: Space, root: nat, n: nat) {
    n in s.nodes ==> s.nodes[n].nlinks == LinkCount(s, root, n)
  }

  ghost predicate Counted(s: Space, root: nat) {
    forall n {:trigger CountedAt(s, root, n)} :: CountedAt(s, root, n)
  }

  /** The linked directories form a tree and every link count is right. */
  ghost predicate Tree(s: Space, root: nat) {
    Closed(s, root) && OneParent(s) && NoCycle(s, root) && Counted(s, root)
  }

  /** Exactly the linked inodes are live. */
  lemma LiveIffLinked(s: Space, root: nat, n: nat)
    requires Tree(s, root) && n in s.nodes
    ensures Live(s, n) <==> Linked(s, root, n)
  {
    assert CountedAt(s, root, n);
  }

  lemma NamedOnce(s: Space, e: Slot)
    requires OneParent(s) && e in s.names
    ensures |Names(s, s.names[e])| > 0
    ensures IsDir(s, s.names[e]) ==> |Names(s, s.names[e])| == 1
  {
    assert e in Names(s, s.names[e]);
    if IsDir(s, s.names[e]) {
      assert forall f | f in Names(s, s.names[e]) :: SameDir(s, e, f);
      assert Names(s, s.names[e]) == {e};
    }
  }

  /** Whatever has a name is live. */
  lemma NamedIsLive(s: Space, root: nat, e: Slot)
    requires Tree(s, root) && e in s.names
    ensures Live(s, s.names[e])
  {
    NamedOnce(s, e);
    LiveIffLinked(s, root, s.names[e]);
  }

  // --- The moves ---

  function WithLinks(s: Space, n: nat, nlinks: nat): Space
    requires n in s.nodes
  {
    s.(nodes := s.nodes[n := s.nodes[n].(nlinks := nlinks)])
  }

  function MoreLinks(s: Space, n: nat): Space
    requires n in s.nodes
  {
    WithLinks(s, n, s.nodes[n].nlinks + 1)
  }

  function FewerLinks(s: Space, n: nat): Space
    requires n in s.nodes
  {
    WithLinks(s, n, Max(0, s.nodes[n].nlinks - 1))
  }

  /** A new inode `id` under the name `e`. */
  function AddNew(s: Space, e: Slot, id: nat, kind: Kind): Space
    requires e.0 in s.nodes
  {
    var node := Node(kind, if kind == Directory then 2 else 1, Some(e.0), EMPTY_FILE);
    var t := s.(nodes := s.nodes[id := node], names := s.names[e := id]);
    if kind == Directory then MoreLinks(t, e.0) else t
  }

  /** One more name `e` for the inode `n`. */
  function AddLink(s: Space, e: Slot, n: nat): Space
    requires n in s.nodes
  {
    MoreLinks(s, n).(names := s.names[e := n])
  }

  /** The name `e` goes, and with it one link of its inode; a directory dies at once. */
  function Remove(s: Space, e: Slot): Space
    requires e in s.names && s.names[e] in s.nodes && e.0 in s.nodes
  {
    var n := s.names[e];
    var t := s.(names := s.names - {e});
    if IsDir(s, n) then FewerLinks(WithLinks(t, n, 0), e.0) else FewerLinks(t, n)
  }

  /** The inode named `from` is now named `to`. */
  function Move(s: Space, from: Slot, to: Slot): Space
    requires from in s.names && s.names[from] in s.nodes && from.0 in s.nodes && to.0 in s.nodes
  {
    var n := s.names[from];
    var t := s.(names := (s.names - {from})[to := n]);
    if IsDir(s, n) && from.0 != to.0 then
      var u := t.(nodes := t.nodes[n := t.nodes[n].(parent := Some(to.0))]);
      MoreLinks(FewerLinks(u, from.0), to.0)
    else t
  }

  // --- How names and subdirectories change ---

  /** Old inodes keep their kind. */
  ghost predicate KeepsKinds(s: Space, t: Space) {
    forall n | n in s.nodes :: n in t.nodes && t.nodes[n].kind == s.nodes[n].kind
  }

  lemma NameAdded(s: Space, t: Space, e: Slot, n: nat, m: nat)
    requires e !in s.names && t.names == s.names[e := n]
    ensures |Names(t, m)| == |Names(s, m)| + if m == n then 1 else 0
  {
    assert Names(t, m) == if m == n then Names(s, m) + {e} else Names(s, m);
  }

  lemma NameRemoved(s: Space, t: Space, e: Slot, n: nat, m: nat)
    requires e in s.names && s.names[e] == n && t.names == s.names - {e}
    ensures |Names(t, m)| == |Names(s, m)| - if m == n then 1 else 0
  {
    assert Names(t, m) == if m == n then Names(s, m) - {e} else Names(s, m);
    assert m == n ==> e in Names(s, m);
  }

  lemma SubdirAdded(s: Space, t: Space, e: Slot, n: nat, d: nat)
    requires e !in s.names && t.names == s.names[e := n] && KeepsKinds(s, t)
    requires forall x | x in s.names :: s.names[x] in s.nodes
    ensures |Subdirs(t, d)| == |Subdirs(s, d)| + if d == e.0 && IsDir(t, n) then 1 else 0
  {
    assert t.names[e] == n;
    forall x | x in s.names
      ensures x != e && t.names[x] == s.names[x] && IsDir(t, t.names[x]) == IsDir(s, s.names[x])
    {
      assert s.names[x] in s.nodes;
    }
    if d == e.0 && IsDir(t, n) {
      assert Subdirs(t, d) == Subdirs(s, d) + {e};
    } else {
      assert e !in Subdirs(t, d);
      assert Subdirs(t, d) == Subdirs(s, d);
    }
  }

  lemma SubdirRemoved(s: Space, t: Space, e: Slot, n: nat, d: nat)
    requires e in s.names && s.names[e] == n && t.names == s.names - {e} && KeepsKinds(s, t)
    requires forall x | x in s.names :: s.names[x] in s.nodes
    ensures |Subdirs(t, d)| == |Subdirs(s, d)| - if d == e.0 && IsDir(t, n) then 1 else 0
  {
    if d == e.0 && IsDir(t, n) {
      assert e in Subdirs(s, d);
      assert Subdirs(t, d) == Subdirs(s, d) - {e};
    } else {
      assert e !in Subdirs(s, d);
      assert Subdirs(t, d) == Subdirs(s, d);
    }
  }
}
