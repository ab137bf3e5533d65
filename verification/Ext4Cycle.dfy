/** What an ext4 rename does to the way up: the only test against cycles is for a directory moved into itself. */
module Ext4Cycle {
  import opened Flat
  import opened LookupCache

  /** The directory that ".." names. */
  function Up(t: Tree, d: nat): nat {
    if Place(d, "..") in t then t[Place(d, "..")] else d
  }

  /** The directory `k` times ".." up from `d`. */
  function Above(t: Tree, d: nat, k: nat): nat {
    if k == 0 then d else Up(t, Above(t, d, k - 1))
  }

  lemma {:induction false} AboveUp(t: Tree, d: nat, k: nat)
    ensures Above(t, d, k + 1) == Above(t, Up(t, d), k)
  {
    if k > 0 {
      AboveUp(t, d, k - 1);
    }
  }

  /** Going up from `d` leads to `c`. */
  ghost predicate Inside(t: Tree, d: nat, c: nat) {
    exists k: nat :: Above(t, d, k) == c
  }

  lemma ReachesByUp(t: Tree, root: nat, d: nat)
    requires Inside(t, Up(t, d), root)
    ensures Inside(t, d, root)
  {
    var k: nat :| Above(t, Up(t, d), k) == root;
    AboveUp(t, d, k);
  }

  /** From every directory ".." leads to the root. */
  ghost predicate AllReach(t: Tree, root: nat) {
    forall d | IsDir(t, d) :: Inside(t, d, root)
  }

  /** The directory that ".." names is one, and holds a name of this one. */
  ghost predicate HeldBy(t: Tree, d: nat, n: Name) {
    IsDir(t, Up(t, d)) && !IsDot(n) && OnDisk(t, Up(t, d), n) == Some(d)
  }

  ghost predicate Held(t: Tree, d: nat) {
    exists n: Name :: HeldBy(t, d, n)
  }

  /** Both places name the same directory. */
  predicate SameDir(t: Tree, x: Place, y: Place) {
    x in t && y in t && !IsDot(x.name) && !IsDot(y.name) && t[x] == t[y] && IsDir(t, t[x])
  }

  /** A directory tree: the root is above itself and has no name, every other directory has one, where its ".." says. */
  ghost predicate WellFormed(t: Tree, root: nat) {
    && IsDir(t, root) && Up(t, root) == root && BothDots(t)
    && (forall x | x in t && !IsDot(x.name) :: t[x] != root)
    && (forall d | IsDir(t, d) && d != root :: Held(t, d))
    && (forall x, y {:trigger SameDir(t, x, y)} | SameDir(t, x, y) :: x == y)
  }

  /** The one name of a directory is in the directory above it. */
  lemma NamedAbove(t: Tree, root: nat, p: nat, n: Name)
    requires WellFormed(t, root) && Place(p, n) in t && !IsDot(n) && IsDir(t, t[Place(p, n)])
    ensures Up(t, t[Place(p, n)]) == p && t[Place(p, n)] != root
  {
    var d := t[Place(p, n)];
    assert Held(t, d);
    var m: Name :| HeldBy(t, d, m);
    assert SameDir(t, Place(p, n), Place(Up(t, d), m));
  }

  /** Nothing is below an empty directory. */
  lemma NotBelowEmpty(t: Tree, root: nat, d: nat, e: nat)
    requires WellFormed(t, root) && IsDir(t, d) && e != root && !HasEntry(t, e)
    ensures Up(t, d) != e
  {
    if d != root {
      assert Held(t, d);
      var n: Name :| HeldBy(t, d, n);
      assert Place(Up(t, d), n) in t;
    }
  }

  lemma UpIsDir(t: Tree, root: nat, d: nat)
    requires WellFormed(t, root) && IsDir(t, d)
    ensures IsDir(t, Up(t, d))
  {
    if d != root {
      assert Held(t, d);
    }
  }

  /** What is above the root is the root. */
  lemma {:induction false} AboveRoot(t: Tree, root: nat, k: nat)
    requires Up(t, root) == root
    ensures Above(t, root, k) == root
  {
    if k > 0 {
      AboveRoot(t, root, k - 1);
    }
  }

  lemma {:induction false} AboveSum(t: Tree, d: nat, j: nat, k: nat)
    ensures Above(t, d, j + k) == Above(t, Above(t, d, j), k)
  {
    if k > 0 {
      AboveSum(t, d, j, k - 1);
    }
  }

  /** A directory that reaches the root is not on a way that comes back to it. */
  lemma {:induction false} NoWayBack(t: Tree, root: nat, d: nat, k: nat, round: nat)
    requires Up(t, root) == root && d != root && Above(t, d, k) == root
    requires Above(t, d, round + 1) == d
    ensures false
    decreases k
  {
    if k <= round + 1 {
      AboveSum(t, d, k, round + 1 - k);
      AboveRoot(t, root, round + 1 - k);
    } else {
      AboveSum(t, d, round + 1, k - (round + 1));
      NoWayBack(t, root, d, k - (round + 1), round);
    }
  }

  /** The parent of a directory does not lie inside it. */
  lemma ParentOutside(t: Tree, root: nat, d: nat)
    requires Up(t, root) == root && d != root && Inside(t, d, root)
    ensures !Inside(t, Up(t, d), d)
  {
    if Inside(t, Up(t, d), d) {
      var k: nat :| Above(t, d, k) == root;
      var round: nat :| Above(t, Up(t, d), round) == d;
      AboveUp(t, d, round);
      NoWayBack(t, root, d, k, round);
    }
  }

  // --- An accepted rename ---

  /** What a rename does to the way up: only the moved directory gets a new one, and what was replaced is gone. */
  ghost predicate MovesUp(t: Tree, u: Tree, gone: Option<nat>, child: nat, q: nat) {
    && (forall d: nat :: IsDir(u, d) <==> IsDir(t, d) && gone != Some(d))
    && (forall d: nat | IsDir(u, d) && d != child :: Up(u, d) == Up(t, d))
    && (IsDir(u, child) ==> Up(u, child) == q)
  }

  /** The directory that an accepted rename replaces. */
  function Replaced(t: Tree, q: nat, m: Name): Option<nat> {
    if Place(q, m) in t && IsDir(t, t[Place(q, m)]) then Some(t[Place(q, m)]) else None
  }

  /** The dots of one directory after an accepted rename of a directory. */
  lemma DotsAfter(t: Tree, p: nat, n: Name, q: nat, m: Name, d: nat)
    requires Place(p, n) in t && !IsDot(n) && !IsDot(m) && IsDir(t, t[Place(p, n)])
    requires Replaced(t, q, m) == Some(t[Place(p, n)]) ==> p == q
    ensures var u, child := Renamed(t, p, n, q, m), t[Place(p, n)];
            && OnDisk(u, d, ".") == (if Replaced(t, q, m) == Some(d) then None else OnDisk(t, d, "."))
            && OnDisk(u, d, "..") == (if Replaced(t, q, m) == Some(d) then None
                                      else if d == child && p != q then Some(q) else OnDisk(t, d, ".."))
  {
  }

  lemma RenameMovesUp(t: Tree, root: nat, p: nat, n: Name, q: nat, m: Name)
    requires WellFormed(t, root) && RenameAnswer(t, p, n, q, m).Ok? && !IsDot(n) && !IsDot(m)
    requires IsDir(t, t[Place(p, n)])
    ensures MovesUp(t, Renamed(t, p, n, q, m), Replaced(t, q, m), t[Place(p, n)], q)
  {
    var u, child, gone := Renamed(t, p, n, q, m), t[Place(p, n)], Replaced(t, q, m);
    NamedAbove(t, root, p, n);
    if gone == Some(child) {
      assert SameDir(t, Place(p, n), Place(q, m));
    }
    forall d: nat
      ensures IsDir(u, d) <==> IsDir(t, d) && gone != Some(d)
      ensures IsDir(u, d) ==> Up(u, d) == if d == child then q else Up(t, d)
    {
      DotsAfter(t, p, n, q, m, d);
    }
  }

  /** What is replaced is an empty directory other than the root, so no way up leads through it. */
  ghost predicate Harmless(t: Tree, root: nat, gone: Option<nat>, q: nat) {
    gone.Some? ==> gone.value != root && gone.value != q && !HasEntry(t, gone.value)
  }

  lemma ReplacedIsHarmless(t: Tree, root: nat, p: nat, n: Name, q: nat, m: Name)
    requires WellFormed(t, root) && RenameAnswer(t, p, n, q, m).Ok? && !IsDot(m)
    ensures Harmless(t, root, Replaced(t, q, m), q)
  {
  }

  /** One step up from any other directory is as before. */
  lemma OneUp(t: Tree, u: Tree, root: nat, gone: Option<nat>, child: nat, q: nat, d: nat)
    requires WellFormed(t, root) && Harmless(t, root, gone, q) && MovesUp(t, u, gone, child, q) && IsDir(u, d)
    requires d != child
    ensures Up(u, d) == Up(t, d) && IsDir(u, Up(t, d))
  {
    UpIsDir(t, root, d);
    if gone.Some? {
      NotBelowEmpty(t, root, d, gone.value);
    }
  }

  /** A way up that does not meet the moved directory is as before. */
  lemma {:induction false} SameWay(t: Tree, u: Tree, root: nat, gone: Option<nat>, child: nat, q: nat, d: nat, k: nat)
    requires WellFormed(t, root) && Harmless(t, root, gone, q) && MovesUp(t, u, gone, child, q) && IsDir(u, d)
    requires forall j: nat | j < k :: Above(t, d, j) != child
    ensures Above(u, d, k) == Above(t, d, k) && IsDir(u, Above(t, d, k))
  {
    if k > 0 {
      SameWay(t, u, root, gone, child, q, d, k - 1);
      OneUp(t, u, root, gone, child, q, Above(t, d, k - 1));
    }
  }

  /** When the new parent lies outside, the moved directory reaches the root by it. */
  lemma ChildReaches(t: Tree, u: Tree, root: nat, gone: Option<nat>, child: nat, q: nat)
    requires WellFormed(t, root) && Harmless(t, root, gone, q) && MovesUp(t, u, gone, child, q)
    requires AllReach(t, root) && IsDir(t, q) && !Inside(t, q, child) && IsDir(u, child)
    ensures Inside(u, child, root)
  {
    assert Inside(t, q, root);
    var j: nat :| Above(t, q, j) == root;
    SameWay(t, u, root, gone, child, q, q, j);
    assert Inside(u, q, root);
    ReachesByUp(u, root, child);
  }

  /** When the new parent lies outside, every directory still finds its way: as before, or by the new parent. */
  lemma {:induction false} StillReaches(t: Tree, u: Tree, root: nat, gone: Option<nat>, child: nat, q: nat, d: nat,
                                        k: nat)
    requires WellFormed(t, root) && Harmless(t, root, gone, q) && MovesUp(t, u, gone, child, q)
    requires AllReach(t, root) && IsDir(t, q) && !Inside(t, q, child) && child != root
    requires IsDir(u, d) && Above(t, d, k) == root
    ensures Inside(u, d, root)
    decreases k
  {
    if d == child {
      ChildReaches(t, u, root, gone, child, q);
    } else if k == 0 {
      assert Above(u, d, 0) == root;
    } else {
      AboveUp(t, d, k - 1);
      OneUp(t, u, root, gone, child, q, d);
      StillReaches(t, u, root, gone, child, q, Up(t, d), k - 1);
      ReachesByUp(u, root, d);
    }
  }

  lemma RootIsLast(t: Tree, root: nat, q: nat, j: nat, round: nat)
    requires Up(t, root) == root && j <= round && Above(t, q, j) == root
    ensures Above(t, q, round) == root
  {
    AboveSum(t, q, j, round - j);
    AboveRoot(t, root, round - j);
  }

  /** On the way up from `q` that leads to the moved directory. */
  ghost predicate OnRound(t: Tree, q: nat, round: nat, e: nat) {
    exists j: nat :: j <= round && Above(t, q, j) == e
  }

  lemma RoundAvoidsRoot(t: Tree, root: nat, q: nat, round: nat, e: nat)
    requires Up(t, root) == root && Above(t, q, round) != root && OnRound(t, q, round, e)
    ensures e != root
  {
    var j: nat :| j <= round && Above(t, q, j) == e;
    if e == root {
      RootIsLast(t, root, q, j, round);
    }
  }

  lemma RoundGoesOn(t: Tree, q: nat, round: nat, e: nat)
    requires OnRound(t, q, round, e) && e != Above(t, q, round)
    ensures OnRound(t, q, round, Up(t, e))
  {
    var j: nat :| j <= round && Above(t, q, j) == e;
    assert Above(t, q, j + 1) == Up(t, e);
  }

  /** When the new parent lies inside, the way up from the moved directory goes round and round. */
  lemma {:induction false} GoesRound(t: Tree, u: Tree, root: nat, gone: Option<nat>, child: nat, q: nat, round: nat,
                                     i: nat)
    requires WellFormed(t, root) && Harmless(t, root, gone, q) && MovesUp(t, u, gone, child, q)
    requires IsDir(t, q) && IsDir(u, child) && Above(t, q, round) == child
    ensures OnRound(t, q, round, Above(u, child, i)) && IsDir(u, Above(u, child, i))
  {
    if i > 0 {
      GoesRound(t, u, root, gone, child, q, round, i - 1);
      var e := Above(u, child, i - 1);
      if e == child {
        assert Above(t, q, 0) == q;
      } else {
        OneUp(t, u, root, gone, child, q, e);
        RoundGoesOn(t, q, round, e);
      }
    }
  }

  /** After an accepted move of a directory every directory reaches the root exactly unless it went below itself. */
  lemma MoveReaches(t: Tree, u: Tree, root: nat, gone: Option<nat>, child: nat, q: nat)
    requires WellFormed(t, root) && AllReach(t, root) && Harmless(t, root, gone, q) && MovesUp(t, u, gone, child, q)
    requires IsDir(t, q) && IsDir(u, child) && child != root
    ensures AllReach(u, root) <==> !Inside(t, q, child)
  {
    if Inside(t, q, child) {
      var round: nat :| Above(t, q, round) == child;
      if Inside(u, child, root) {
        var i: nat :| Above(u, child, i) == root;
        GoesRound(t, u, root, gone, child, q, round, i);
        RoundAvoidsRoot(t, root, q, round, root);
      }
    } else {
      forall d | IsDir(u, d) ensures Inside(u, d, root) {
        assert Inside(t, d, root);
        var k: nat :| Above(t, d, k) == root;
        StillReaches(t, u, root, gone, child, q, d, k);
      }
    }
  }

  /**
   * After an accepted rename every directory still reaches the root by "..", exactly unless a directory was moved to
   * a new parent inside it.
   */
  lemma RenameReaches(t: Tree, root: nat, p: nat, n: Name, q: nat, m: Name)
    requires WellFormed(t, root) && AllReach(t, root)
    requires RenameAnswer(t, p, n, q, m).Ok? && !IsDot(n) && !IsDot(m)
    ensures var child := t[Place(p, n)];
            AllReach(Renamed(t, p, n, q, m), root) <==> !(IsDir(t, child) && Inside(t, q, child))
  {
    var u, child, gone := Renamed(t, p, n, q, m), t[Place(p, n)], Replaced(t, q, m);
    ReplacedIsHarmless(t, root, p, n, q, m);
    if !IsDir(t, child) {
      FileMoves(t, root, p, n, q, m);
    } else {
      RenameMovesUp(t, root, p, n, q, m);
      NamedAbove(t, root, p, n);
      if gone == Some(child) {
        assert SameDir(t, Place(p, n), Place(q, m));
        assert Inside(t, child, root);
        ParentOutside(t, root, child);
        OthersReach(t, u, root, gone, child, q);
      } else {
        MoveReaches(t, u, root, gone, child, q);
      }
    }
  }

  /** A rename of what is no directory changes no dot. */
  lemma FileMoves(t: Tree, root: nat, p: nat, n: Name, q: nat, m: Name)
    requires AllReach(t, root) && RenameAnswer(t, p, n, q, m).Ok? && !IsDot(n) && !IsDot(m)
    requires !IsDir(t, t[Place(p, n)])
    ensures AllReach(Renamed(t, p, n, q, m), root)
  {
    var u := Renamed(t, p, n, q, m);
    assert forall d: nat :: OnDisk(u, d, ".") == OnDisk(t, d, ".") && OnDisk(u, d, "..") == OnDisk(t, d, "..");
    forall d | IsDir(u, d) ensures Inside(u, d, root) {
      assert Inside(t, d, root);
      var k: nat :| Above(t, d, k) == root;
      SameUps(t, u, d, k);
    }
  }

  lemma {:induction false} SameUps(t: Tree, u: Tree, d: nat, k: nat)
    requires forall e: nat :: Up(u, e) == Up(t, e)
    ensures Above(u, d, k) == Above(t, d, k)
  {
    if k > 0 {
      SameUps(t, u, d, k - 1);
    }
  }

  /** An empty directory renamed to its own place is lost; all others reach the root as before. */
  lemma OthersReach(t: Tree, u: Tree, root: nat, gone: Option<nat>, child: nat, q: nat)
    requires WellFormed(t, root) && AllReach(t, root) && Harmless(t, root, gone, q) && MovesUp(t, u, gone, child, q)
    requires gone == Some(child)
    ensures AllReach(u, root)
  {
    forall d | IsDir(u, d) ensures Inside(u, d, root) {
      assert Inside(t, d, root);
      var k: nat :| Above(t, d, k) == root;
      AvoidsLost(t, u, root, gone, child, q, d, k);
    }
  }

  lemma {:induction false} AvoidsLost(t: Tree, u: Tree, root: nat, gone: Option<nat>, child: nat, q: nat, d: nat,
                                      k: nat)
    requires WellFormed(t, root) && Harmless(t, root, gone, q) && MovesUp(t, u, gone, child, q)
    requires gone == Some(child) && IsDir(u, d)
    ensures Above(u, d, k) == Above(t, d, k) && IsDir(u, Above(t, d, k))
  {
    if k > 0 {
      AvoidsLost(t, u, root, gone, child, q, d, k - 1);
      OneUp(t, u, root, gone, child, q, Above(t, d, k - 1));
    }
  }

  /** The root 0 with a directory 1 in it, in which is a directory 2. */
  function TwoDeep(a: Name, b: Name): Tree {
    map[Place(0, ".") := 0, Place(0, "..") := 0, Place(0, a) := 1,
        Place(1, ".") := 1, Place(1, "..") := 0, Place(1, b) := 2,
        Place(2, ".") := 2, Place(2, "..") := 1]
  }

  lemma TwoDeepNames(a: Name, b: Name, x: Place)
    requires !IsDot(a) && !IsDot(b)
    ensures x in TwoDeep(a, b) && !IsDot(x.name) ==>
              (x == Place(0, a) && TwoDeep(a, b)[x] == 1) || (x == Place(1, b) && TwoDeep(a, b)[x] == 2)
  {
  }

  lemma TwoDeepDirs(a: Name, b: Name, d: nat)
    requires !IsDot(a) && !IsDot(b)
    ensures IsDir(TwoDeep(a, b), d) ==> d <= 2 && Place(d, "..") in TwoDeep(a, b) && (d == 0 || Held(TwoDeep(a, b), d))
  {
    var t := TwoDeep(a, b);
    assert HeldBy(t, 1, a) && HeldBy(t, 2, b);
  }

  lemma TwoDeepIsTree(a: Name, b: Name)
    requires !IsDot(a) && !IsDot(b)
    ensures WellFormed(TwoDeep(a, b), 0)
  {
    var t := TwoDeep(a, b);
    forall x | x in t && !IsDot(x.name) ensures t[x] != 0 {
      TwoDeepNames(a, b, x);
    }
    forall d | IsDir(t, d) ensures Place(d, "..") in t && (d == 0 || Held(t, d)) {
      TwoDeepDirs(a, b, d);
    }
    forall x, y | SameDir(t, x, y) ensures x == y {
      TwoDeepNames(a, b, x);
      TwoDeepNames(a, b, y);
    }
  }

  lemma TwoDeepReaches(a: Name, b: Name)
    requires !IsDot(a) && !IsDot(b)
    ensures AllReach(TwoDeep(a, b), 0) && Inside(TwoDeep(a, b), 2, 1)
  {
    var t := TwoDeep(a, b);
    assert Above(t, 0, 0) == 0 && Above(t, 1, 1) == 0 && Above(t, 2, 1) == 1;
    assert Above(t, 2, 2) == 0;
  }

  /** Such a case: the outer directory is renamed into the inner one, and neither reaches the root any more. */
  lemma CycleIsMade(a: Name, b: Name, c: Name)
    requires !IsDot(a) && !IsDot(b) && !IsDot(c)
    ensures var t := TwoDeep(a, b);
            && WellFormed(t, 0) && AllReach(t, 0) && RenameAnswer(t, 0, a, 2, c) == Ok(())
            && !AllReach(Renamed(t, 0, a, 2, c), 0)
  {
    TwoDeepIsTree(a, b);
    TwoDeepReaches(a, b);
    RenameReaches(TwoDeep(a, b), 0, 0, a, 2, c);
  }
}
