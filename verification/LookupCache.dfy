/**
 * The ext4 name cache in front of an abstract directory tree: a bounded two-level map of directory and name to inode.
 */
module LookupCache {
  import opened Flat

  const MAX_ENTRIES: nat := 4096

  type Name = string
  datatype Place = Place(dir: nat, name: Name)
  type Entries = map<nat, map<Name, nat>>

  /** All cached places. */
  function Places(e: Entries): set<Place> {
    set p, n | p in e && n in e[p] :: Place(p, n)
  }

  function Find(e: Entries, p: nat, n: Name): Option<nat> {
    if p in e && n in e[p] then Some(e[p][n]) else None
  }

  /** Setting one name in its directory's map, which is made if it is missing. */
  function Put(e: Entries, p: nat, n: Name, ino: nat): Entries {
    e[p := (if p in e then e[p] else map[])[n := ino]]
  }

  /** Dropping one name, and its directory's map when that becomes empty. */
  function Cut(e: Entries, p: nat, n: Name): Entries {
    if p !in e then e
    else if e[p] - {n} == map[] then e - {p}
    else e[p := e[p] - {n}]
  }

  predicate NoEmptyMaps(e: Entries) {
    forall p | p in e :: e[p] != map[]
  }

  lemma PlacesAreFound(e: Entries, x: Place)
    ensures x in Places(e) <==> Find(e, x.dir, x.name).Some?
  {
  }

  lemma PutFinds(e: Entries, p: nat, n: Name, ino: nat, q: nat, m: Name)
    ensures Find(Put(e, p, n, ino), q, m) == if q == p && m == n then Some(ino) else Find(e, q, m)
  {
  }

  lemma PutPlaces(e: Entries, p: nat, n: Name, ino: nat)
    ensures |Places(Put(e, p, n, ino))| == |Places(e)| + if Find(e, p, n).None? then 1 else 0
  {
    var f := Put(e, p, n, ino);
    forall x: Place
      ensures x in Places(f) <==> x in Places(e) + {Place(p, n)}
    {
      PutFinds(e, p, n, ino, x.dir, x.name);
      PlacesAreFound(e, x);
      PlacesAreFound(f, x);
    }
    assert Places(f) == Places(e) + {Place(p, n)};
    PlacesAreFound(e, Place(p, n));
  }

  lemma CutFinds(e: Entries, p: nat, n: Name, q: nat, m: Name)
    ensures Find(Cut(e, p, n), q, m) == if q == p && m == n then None else Find(e, q, m)
  {
    if p in e && q == p && m in e[p] && m != n {
      assert m in e[p] - {n};
    }
  }

  lemma CutPlaces(e: Entries, p: nat, n: Name)
    ensures |Places(Cut(e, p, n))| == |Places(e)| - if Find(e, p, n).Some? then 1 else 0
  {
    var f := Cut(e, p, n);
    forall x: Place
      ensures x in Places(f) <==> x in Places(e) - {Place(p, n)}
    {
      CutFinds(e, p, n, x.dir, x.name);
      PlacesAreFound(e, x);
      PlacesAreFound(f, x);
    }
    assert Places(f) == Places(e) - {Place(p, n)};
    PlacesAreFound(e, Place(p, n));
  }

  /** Every place found in `f` is found alike in `e`. */
  ghost predicate Within(f: Entries, e: Entries) {
    forall q: nat, m: Name :: Find(f, q, m).Some? ==> Find(f, q, m) == Find(e, q, m)
  }

  lemma CutIsWithin(e: Entries, p: nat, n: Name)
    ensures Within(Cut(e, p, n), e)
  {
    forall q: nat, m: Name
      ensures Find(Cut(e, p, n), q, m).Some? ==> Find(Cut(e, p, n), q, m) == Find(e, q, m)
    {
      CutFinds(e, p, n, q, m);
    }
  }

  /** A non-empty two-level map has a first directory, which has a first name. */
  lemma SomePlace(e: Entries)
    requires |Places(e)| > 0
    ensures e != map[]
  {
  }

  /** The order of names in the inner maps. */
  predicate NameBefore(a: Name, b: Name) {
    if b == "" then false
    else a == "" || a[0] < b[0] || (a[0] == b[0] && NameBefore(a[1..], b[1..]))
  }

  lemma {:induction false} NamesCompare(a: Name, b: Name)
    ensures a == b || NameBefore(a, b) || NameBefore(b, a)
    decreases |a|
  {
    if a != "" && b != "" && a[0] == b[0] {
      NamesCompare(a[1..], b[1..]);
      assert a == [a[0]] + a[1..] && b == [b[0]] + b[1..];
    }
  }

  lemma {:induction false} NamesChain(a: Name, b: Name, c: Name)
    requires NameBefore(a, b) && NameBefore(b, c)
    ensures NameBefore(a, c)
    decreases |b|
  {
    if a != "" && a[0] == b[0] == c[0] {
      NamesChain(a[1..], b[1..], c[1..]);
    }
  }

  /** Directories in the order of their numbers, and in each its names in order. */
  predicate PlaceBefore(x: Place, y: Place) {
    x.dir < y.dir || (x.dir == y.dir && NameBefore(x.name, y.name))
  }

  lemma {:induction false} FirstDir(s: set<nat>) returns (p: nat)
    requires s != {}
    ensures p in s && forall q | q in s :: p <= q
    decreases |s|
  {
    var some :| some in s;
    p := some;
    if s != {some} {
      var first := FirstDir(s - {some});
      assert forall q | q in s :: q == some || q in s - {some};
      p := if first < some then first else some;
    }
  }

  lemma {:induction false} FirstName(s: set<Name>) returns (n: Name)
    requires s != {}
    ensures n in s && forall m | m in s :: m == n || NameBefore(n, m)
    decreases |s|
  {
    n :| n in s;
    if s != {n} {
      var first := FirstName(s - {n});
      NamesCompare(n, first);
      if NameBefore(first, n) {
        n := first;
      } else {
        forall m | m in s && m != n ensures NameBefore(n, m) {
          if m != first {
            NamesChain(n, first, m);
          }
        }
      }
    }
  }

  /** What has been dropped comes before all that is left. */
  ghost predicate DroppedFirst(before: Entries, after: Entries) {
    forall x, y | x in Places(before) && x !in Places(after) && y in Places(after) :: PlaceBefore(x, y)
  }

  lemma DropFirst(before: Entries, e: Entries, p: nat, n: Name)
    requires DroppedFirst(before, e) && p in e && n in e[p]
    requires (forall q | q in e :: p <= q) && forall m | m in e[p] :: m == n || NameBefore(n, m)
    ensures DroppedFirst(before, Cut(e, p, n))
  {
    forall x, y | x in Places(before) && x !in Places(Cut(e, p, n)) && y in Places(Cut(e, p, n))
      ensures PlaceBefore(x, y)
    {
      PlacesAreFound(e, y);
      PlacesAreFound(e, x);
      PlacesAreFound(Cut(e, p, n), x);
      PlacesAreFound(Cut(e, p, n), y);
      CutFinds(e, p, n, x.dir, x.name);
      CutFinds(e, p, n, y.dir, y.name);
    }
  }

  class LookupCache {
    var entries: Entries
    var len: nat

    constructor ()
      ensures Valid() && entries == map[]
    {
      entries, len := map[], 0;
    }

    /** The length is the number of names, no directory has an empty map, and the bound holds. */
    ghost predicate Valid()
      reads this
    {
      Counted() && len <= MAX_ENTRIES
    }

    ghost predicate Counted()
      reads this
    {
      len == |Places(entries)| && NoEmptyMaps(entries)
    }

    method Get(p: nat, n: Name) returns (r: Option<nat>)
      ensures r == Find(entries, p, n)
    {
      r := if p in entries && n in entries[p] then Some(entries[p][n]) else None;
    }

    /** Adds a name and then drops first entries until the bound holds again; the new one may be among them. */
    method Insert(p: nat, n: Name, ino: nat)
      requires Valid()
      modifies this
      ensures Valid()
      ensures Within(entries, Put(old(entries), p, n, ino))
      ensures |Places(Put(old(entries), p, n, ino))| <= MAX_ENTRIES ==> entries == Put(old(entries), p, n, ino)
    {
      PutPlaces(entries, p, n, ino);
      if p !in entries || n !in entries[p] {
        len := len + 1;
      }
      entries := Put(entries, p, n, ino);
      assert n in entries[p];
      EvictIfNeeded();
    }

    method Remove(p: nat, n: Name)
      requires Valid()
      modifies this
      ensures Valid() && entries == Cut(old(entries), p, n)
    {
      CutPlaces(entries, p, n);
      if p !in entries {
        return;
      }
      if n in entries[p] {
        len := len - 1;
      }
      var rest := entries[p] - {n};
      if rest == map[] {
        entries := entries - {p};
      } else {
        entries := entries[p := rest];
      }
    }

    /** Drops the first name of the first directory, and the directory's map when that becomes empty. */
    method EvictFirst(ghost before: Entries)
      requires Counted() && len > 0 && Within(entries, before) && DroppedFirst(before, entries)
      modifies this
      ensures Counted() && len == old(len) - 1 && Within(entries, before) && DroppedFirst(before, entries)
    {
      SomePlace(entries);
      ghost var first := FirstDir(entries.Keys);
      var p :| p in entries && forall q | q in entries :: p <= q;
      ghost var name := FirstName(entries[p].Keys);
      var n :| n in entries[p] && forall m | m in entries[p] :: m == n || NameBefore(n, m);
      DropFirst(before, entries, p, n);
      CutPlaces(entries, p, n);
      CutIsWithin(entries, p, n);
      var rest := entries[p] - {n};
      len := len - 1;
      if rest == map[] {
        entries := entries - {p};
      } else {
        entries := entries[p := rest];
      }
    }

    /** Drops the first name of the first directory until the bound holds. */
    method EvictIfNeeded()
      requires Counted()
      modifies this
      ensures Valid()
      ensures Within(entries, old(entries)) && DroppedFirst(old(entries), entries)
      ensures old(len) <= MAX_ENTRIES ==> entries == old(entries)
      ensures old(len) > MAX_ENTRIES ==> len == MAX_ENTRIES
    {
      while len > MAX_ENTRIES
        invariant Counted() && (old(len) > MAX_ENTRIES ==> len >= MAX_ENTRIES)
        invariant Within(entries, old(entries)) && DroppedFirst(old(entries), entries)
        invariant old(len) <= MAX_ENTRIES ==> entries == old(entries)
      {
        EvictFirst(old(entries));
      }
    }
  }

  // --- The directory operations in front of which the cache stands ---

  /** The directories on disk: every name, with "." and ".." among them. */
  type Tree = map<Place, nat>

  predicate IsDot(n: Name) {
    n == "." || n == ".."
  }

  function OnDisk(t: Tree, p: nat, n: Name): Option<nat> {
    if Place(p, n) in t then Some(t[Place(p, n)]) else None
  }

  /** Directories are the inodes that hold a "." entry. */
  predicate IsDir(t: Tree, ino: nat) {
    Place(ino, ".") in t
  }

  /** Every directory also holds "..". */
  ghost predicate BothDots(t: Tree) {
    forall d | IsDir(t, d) :: Place(d, "..") in t
  }

  /** A directory holds a name other than its dots. */
  predicate HasEntry(t: Tree, d: nat) {
    exists x | x in t :: x.dir == d && !IsDot(x.name)
  }

  datatype Error = NotDirectory | NotFound | AlreadyExists | IsDirectory | DirectoryNotEmpty | InvalidArgument | IoError

  datatype Result<+T> = Ok(value: T) | Err(error: Error)

  /** Every cached name other than the dots is what the directory says. */
  ghost predicate Agrees(e: Entries, t: Tree) {
    forall p: nat, n: Name :: !IsDot(n) && Find(e, p, n).Some? ==> Find(e, p, n) == OnDisk(t, p, n)
  }

  /** Changing one name on disk and dropping it from the cache keeps the two in agreement. */
  lemma DropKeepsAgreement(e: Entries, t: Tree, u: Tree, p: nat, n: Name)
    requires Agrees(e, t)
    requires forall q: nat, m: Name :: !IsDot(m) && !(q == p && m == n) ==> OnDisk(u, q, m) == OnDisk(t, q, m)
    ensures Agrees(Cut(e, p, n), u)
  {
    forall q: nat, m: Name | !IsDot(m) && Find(Cut(e, p, n), q, m).Some?
      ensures Find(Cut(e, p, n), q, m) == OnDisk(u, q, m)
    {
      CutFinds(e, p, n, q, m);
    }
  }

  class Directories {
    const cache: LookupCache
    var tree: Tree

    constructor (tree: Tree)
      requires BothDots(tree)
      ensures Valid() && this.tree == tree && fresh(cache)
    {
      cache := new LookupCache();
      this.tree := tree;
    }

    ghost predicate Valid()
      reads this, cache
    {
      cache.Valid() && Agrees(cache.entries, tree) && BothDots(tree)
    }

    /** A name's inode, from the cache or else from the directory, which is then remembered. */
    method Lookup(p: nat, n: Name) returns (r: Result<nat>)
      requires Valid()
      modifies cache
      ensures Valid()
      ensures !IsDir(tree, p) ==> r == Err(NotDirectory)
      ensures IsDir(tree, p) && !IsDot(n) ==> r == if Place(p, n) in tree then Ok(tree[Place(p, n)]) else Err(NotFound)
      ensures IsDir(tree, p) && IsDot(n) ==> r.Ok?
    {
      if !IsDir(tree, p) {
        return Err(NotDirectory);
      }
      var hit := cache.Get(p, n);
      if hit.Some? {
        return Ok(hit.value);
      }
      if Place(p, n) !in tree {
        return Err(NotFound);
      }
      var ino := tree[Place(p, n)];
      ghost var with := Put(cache.entries, p, n, ino);
      forall q: nat, m: Name | !IsDot(m) && Find(with, q, m).Some?
        ensures Find(with, q, m) == OnDisk(tree, q, m)
      {
        PutFinds(cache.entries, p, n, ino, q, m);
      }
      cache.Insert(p, n, ino);
      r := Ok(ino);
    }

    /** A new file or hard link under a free name. */
    method Add(p: nat, n: Name, ino: nat) returns (r: Result<()>)
      requires Valid()
      modifies this, cache
      ensures Valid()
      ensures r == if !IsDir(old(tree), p) then Err(NotDirectory)
                   else if Place(p, n) in old(tree) then Err(AlreadyExists) else Ok(())
      ensures tree == if r.Ok? then old(tree)[Place(p, n) := ino] else old(tree)
    {
      var there := Lookup(p, n);
      if !IsDir(tree, p) {
        return Err(NotDirectory);
      }
      if there.Ok? {
        return Err(AlreadyExists);
      }
      DropKeepsAgreement(cache.entries, tree, tree[Place(p, n) := ino], p, n);
      tree := tree[Place(p, n) := ino];
      cache.Remove(p, n);
      r := Ok(());
    }

    /** A new directory, with its two dots. */
    method Mkdir(p: nat, n: Name, ino: nat) returns (r: Result<()>)
      requires Valid()
      modifies this, cache
      ensures Valid()
      ensures r == if !IsDir(old(tree), p) then Err(NotDirectory)
                   else if Place(p, n) in old(tree) then Err(AlreadyExists) else Ok(())
      ensures tree == if r.Err? then old(tree)
                      else old(tree)[Place(p, n) := ino][Place(ino, ".") := ino][Place(ino, "..") := p]
    {
      var there := Lookup(p, n);
      if !IsDir(tree, p) {
        return Err(NotDirectory);
      }
      if there.Ok? {
        return Err(AlreadyExists);
      }
      ghost var after := tree[Place(p, n) := ino][Place(ino, ".") := ino][Place(ino, "..") := p];
      DropKeepsAgreement(cache.entries, tree, after, p, n);
      tree := tree[Place(p, n) := ino][Place(ino, ".") := ino][Place(ino, "..") := p];
      cache.Remove(p, n);
      r := Ok(());
    }

    /** Removes a file's name, or an empty directory with its dots. */
    method Unlink(p: nat, n: Name) returns (r: Result<()>)
      requires Valid() && !IsDot(n)
      modifies this, cache
      ensures Valid()
      ensures r == if !IsDir(old(tree), p) then Err(NotDirectory)
                   else if Place(p, n) !in old(tree) then Err(NotFound)
                   else if IsDir(old(tree), old(tree)[Place(p, n)]) && HasEntry(old(tree), old(tree)[Place(p, n)]) then
                     Err(IoError)
                   else Ok(())
      ensures tree == if r.Ok? then Removed(old(tree), p, n) else old(tree)
      ensures r.Ok? ==> Gone(old(tree), tree, p, n)
    {
      var child := Lookup(p, n);
      if child.Err? {
        return Err(child.error);
      }
      if IsDir(tree, child.value) && HasEntry(tree, child.value) {
        return Err(IoError);
      }
      Drop(p, n);
      r := Ok(());
    }

    /** Removes an empty directory; asked of a file it trips over an assertion of the library. */
    method Rmdir(p: nat, n: Name) returns (r: RmdirAnswer)
      requires Valid() && !IsDot(n)
      modifies this, cache
      ensures Valid()
      ensures r == if !IsDir(old(tree), p) then Refused(NotDirectory)
                   else if Place(p, n) !in old(tree) then Refused(NotFound)
                   else if !IsDir(old(tree), old(tree)[Place(p, n)]) then Panics
                   else if HasEntry(old(tree), old(tree)[Place(p, n)]) then Refused(NotFound)
                   else Done
      ensures tree == if r == Done then Removed(old(tree), p, n) else old(tree)
      ensures r == Done ==> Gone(old(tree), tree, p, n)
    {
      if !IsDir(tree, p) {
        return Refused(NotDirectory);
      }
      if Place(p, n) !in tree {
        return Refused(NotFound);
      }
      if !IsDir(tree, tree[Place(p, n)]) {
        return Panics;
      }
      if HasEntry(tree, tree[Place(p, n)]) {
        return Refused(NotFound);
      }
      Drop(p, n);
      r := Done;
    }

    /** Takes a name off the disk and out of the cache. */
    method Drop(p: nat, n: Name)
      requires Valid() && !IsDot(n) && Place(p, n) in tree
      modifies this, cache
      ensures Valid() && tree == Removed(old(tree), p, n) && Gone(old(tree), tree, p, n)
    {
      var ino := tree[Place(p, n)];
      RemovedIsGone(tree, p, n);
      DropKeepsAgreement(cache.entries, tree, Removed(tree, p, n), p, n);
      tree := if IsDir(tree, ino) then tree - {Place(p, n), Place(ino, "."), Place(ino, "..")}
              else tree - {Place(p, n)};
      cache.Remove(p, n);
    }

    /** Renames by removing what is in the way, adding the new name, removing the old one and moving "..". */
    method Rename(p: nat, n: Name, q: nat, m: Name) returns (r: Result<()>)
      requires Valid() && !IsDot(n) && !IsDot(m)
      modifies this, cache
      ensures Valid() && r == RenameAnswer(old(tree), p, n, q, m)
      ensures tree == if r.Ok? then Renamed(old(tree), p, n, q, m) else old(tree)
      ensures r.Ok? ==> Relocated(old(tree), tree, p, n, q, m)
    {
      if RenameAnswer(tree, p, n, q, m).Ok? {
        RenameMoves(tree, p, n, q, m);
      }
      var found := Lookup(p, n);
      if found.Err? {
        return Err(found.error);
      }
      var child := found.value;
      var childIsDir := IsDir(tree, child);
      if !IsDir(tree, q) {
        return Err(NotDirectory);
      }
      if childIsDir && child == q {
        return Err(InvalidArgument);
      }
      ghost var before := tree;
      RenameKeepsAgreement(cache.entries, tree, p, n, q, m);
      RenameKeepsDots(tree, p, n, q, m);
      if Place(q, m) in tree {
        var target := tree[Place(q, m)];
        var targetIsDir := IsDir(tree, target);
        if childIsDir && !targetIsDir {
          return Err(NotDirectory);
        }
        if !childIsDir && targetIsDir {
          return Err(IsDirectory);
        }
        if targetIsDir {
          if HasEntry(tree, target) {
            return Err(DirectoryNotEmpty);
          }
          tree := tree - {Place(q, m), Place(target, "."), Place(target, "..")};
        } else {
          tree := tree - {Place(q, m)};
        }
      }
      tree := tree[Place(q, m) := child];
      tree := tree - {Place(p, n)};
      if childIsDir && p != q {
        tree := tree[Place(child, "..") := q];
      }
      assert tree == Renamed(before, p, n, q, m);
      cache.Remove(p, n);
      cache.Remove(q, m);
      r := Ok(());
    }

    /**
     * Renaming a name to itself: the name is lost exactly for a file or an empty directory. A directory with entries is
     * refused, and then nothing changes.
     */
    method RenameOntoItself(p: nat, n: Name) returns (r: Result<()>)
      requires Valid() && !IsDot(n) && IsDir(tree, p) && Place(p, n) in tree
      modifies this, cache
      ensures Valid()
      ensures var ino := old(tree)[Place(p, n)];
              Place(p, n) !in tree <==> !(IsDir(old(tree), ino) && HasEntry(old(tree), ino))
      ensures Place(p, n) !in tree <==> r.Ok?
      ensures r.Err? ==> tree == old(tree)
    {
      RenameToSamePlace(tree, p, n);
      r := Rename(p, n, p, n);
    }
  }

  datatype RmdirAnswer = Done | Refused(error: Error) | Panics

  function AddAnswer(t: Tree, p: nat, n: Name): Result<()> {
    if !IsDir(t, p) then Err(NotDirectory) else if Place(p, n) in t then Err(AlreadyExists) else Ok(())
  }

  /** The directories without one name, and without the dots of a directory that had it. */
  function Removed(t: Tree, p: nat, n: Name): Tree
    requires Place(p, n) in t
  {
    var ino := t[Place(p, n)];
    if IsDir(t, ino) then t - {Place(p, n), Place(ino, "."), Place(ino, "..")} else t - {Place(p, n)}
  }

  /** Every name other than the dots is as before, but for those in two places. */
  ghost predicate OthersStay(t: Tree, u: Tree, x: Place, y: Place) {
    forall r: nat, k: Name | !IsDot(k) && Place(r, k) != x && Place(r, k) != y :: OnDisk(u, r, k) == OnDisk(t, r, k)
  }

  /** The name is gone and with it the directory it named, and every other name and directory is as before. */
  ghost predicate Gone(t: Tree, u: Tree, p: nat, n: Name) {
    && OnDisk(u, p, n) == None && OthersStay(t, u, Place(p, n), Place(p, n))
    && forall d: nat :: IsDir(u, d) <==> IsDir(t, d) && OnDisk(t, p, n) != Some(d)
  }

  lemma RemovedIsGone(t: Tree, p: nat, n: Name)
    requires Place(p, n) in t && !IsDot(n)
    ensures Gone(t, Removed(t, p, n), p, n)
  {
  }

  /** The old name is gone, the new one refers to what had it, unless both are the same, and all others stay. */
  ghost predicate Relocated(t: Tree, u: Tree, p: nat, n: Name, q: nat, m: Name) {
    && OnDisk(u, p, n) == None && OthersStay(t, u, Place(p, n), Place(q, m))
    && (Place(p, n) != Place(q, m) ==> OnDisk(u, q, m) == OnDisk(t, p, n))
  }

  /** What renaming answers: the checks on both parents, on the kinds and on a directory in the way. */
  function RenameAnswer(t: Tree, p: nat, n: Name, q: nat, m: Name): Result<()> {
    if !IsDir(t, p) then Err(NotDirectory)
    else if Place(p, n) !in t then Err(NotFound)
    else
      var child := t[Place(p, n)];
      if !IsDir(t, q) then Err(NotDirectory)
      else if IsDir(t, child) && child == q then Err(InvalidArgument)
      else if Place(q, m) !in t then Ok(())
      else
        var target := t[Place(q, m)];
        if IsDir(t, child) && !IsDir(t, target) then Err(NotDirectory)
        else if !IsDir(t, child) && IsDir(t, target) then Err(IsDirectory)
        else if IsDir(t, target) && HasEntry(t, target) then Err(DirectoryNotEmpty)
        else Ok(())
  }

  /** The directories after a successful rename. */
  function Renamed(t: Tree, p: nat, n: Name, q: nat, m: Name): Tree
    requires Place(p, n) in t
  {
    var ino := t[Place(p, n)];
    var cleared := if Place(q, m) in t then Removed(t, q, m) else t;
    var moved := cleared[Place(q, m) := ino] - {Place(p, n)};
    if IsDir(t, ino) && p != q then moved[Place(ino, "..") := q] else moved
  }

  lemma RenameKeepsDots(t: Tree, p: nat, n: Name, q: nat, m: Name)
    requires BothDots(t) && Place(p, n) in t && !IsDot(n) && !IsDot(m)
    ensures BothDots(Renamed(t, p, n, q, m))
  {
    var u := Renamed(t, p, n, q, m);
    forall d | IsDir(u, d) ensures Place(d, "..") in u {
      assert IsDir(t, d);
    }
  }

  lemma RenameKeepsAgreement(e: Entries, t: Tree, p: nat, n: Name, q: nat, m: Name)
    requires Agrees(e, t) && Place(p, n) in t
    ensures Agrees(Cut(Cut(e, p, n), q, m), Renamed(t, p, n, q, m))
  {
    var u := t - {Place(p, n)};
    DropKeepsAgreement(e, t, u, p, n);
    DropKeepsAgreement(Cut(e, p, n), u, Renamed(t, p, n, q, m), q, m);
  }

  /** After a rename the file is under its new name and not under the old one, except when both are the same place. */
  lemma RenameMoves(t: Tree, p: nat, n: Name, q: nat, m: Name)
    requires Place(p, n) in t && !IsDot(n) && !IsDot(m)
    ensures OnDisk(Renamed(t, p, n, q, m), q, m) == Some(t[Place(p, n)]) <==> Place(p, n) != Place(q, m)
    ensures Relocated(t, Renamed(t, p, n, q, m), p, n, q, m)
  {
  }

  /**
   * The answer of a rename whose two parents are directories and whose old name is there: refused exactly for a
   * directory moved into itself, a mismatch of kinds with what is in the way, and a directory in the way that has
   * entries.
   */
  lemma RenameAnswersExactly(t: Tree, p: nat, n: Name, q: nat, m: Name)
    requires IsDir(t, p) && IsDir(t, q) && Place(p, n) in t
    ensures var child, inWay, r := t[Place(p, n)], Place(q, m) in t, RenameAnswer(t, p, n, q, m);
            var target := if inWay then t[Place(q, m)] else child;
            && (r == Err(InvalidArgument) <==> child == q)
            && (r == Err(NotDirectory) <==> child != q && inWay && IsDir(t, child) && !IsDir(t, target))
            && (r == Err(IsDirectory) <==> child != q && inWay && !IsDir(t, child) && IsDir(t, target))
            && (r == Err(DirectoryNotEmpty) <==>
                  child != q && inWay && IsDir(t, child) && IsDir(t, target) && HasEntry(t, target))
            && (r.Ok? <==> child != q && (inWay ==> (IsDir(t, child) <==> IsDir(t, target))
                                                    && !(IsDir(t, target) && HasEntry(t, target))))
  {
  }

  /** A missing parent or name, in the order they are looked at. */
  lemma RenameNeedsBoth(t: Tree, p: nat, n: Name, q: nat, m: Name)
    ensures var r := RenameAnswer(t, p, n, q, m);
            && (!IsDir(t, p) ==> r == Err(NotDirectory))
            && (IsDir(t, p) && Place(p, n) !in t ==> r == Err(NotFound))
            && (IsDir(t, p) && Place(p, n) in t && !IsDir(t, q) ==> r == Err(NotDirectory))
  {
  }

  /** A rename to the same place is refused exactly for a directory that holds entries. */
  lemma RenameToSamePlace(t: Tree, p: nat, n: Name)
    requires IsDir(t, p) && Place(p, n) in t && !IsDot(n)
    ensures RenameAnswer(t, p, n, p, n).Ok? <==> !(IsDir(t, t[Place(p, n)]) && HasEntry(t, t[Place(p, n)]))
    ensures OnDisk(Renamed(t, p, n, p, n), p, n) == None
  {
    var ino := t[Place(p, n)];
    if ino == p {
      assert Place(p, n).dir == ino && !IsDot(Place(p, n).name);
      assert HasEntry(t, ino);
    }
    RenameMoves(t, p, n, p, n);
  }

  /** The dots are outside the agreement for a reason: moving a directory leaves its cached ".." as it was. */
  lemma MovedDirectoryKeepsOldParent(t: Tree, p: nat, n: Name, q: nat, m: Name)
    requires RenameAnswer(t, p, n, q, m).Ok? && IsDir(t, t[Place(p, n)]) && !IsDot(n) && !IsDot(m) && p != q
    ensures var d := t[Place(p, n)];
            var e := Put(map[], d, "..", p);
            && Find(Cut(Cut(e, p, n), q, m), d, "..") == Some(p)
            && OnDisk(Renamed(t, p, n, q, m), d, "..") == Some(q)
  {
    var d := t[Place(p, n)];
    var e := Put(map[], d, "..", p);
    PutFinds(map[], d, "..", p, d, "..");
    CutFinds(e, p, n, d, "..");
    CutFinds(Cut(e, p, n), q, m, d, "..");
  }

  datatype Op =
    | LookupOp(p: nat, n: Name)
    | AddOp(p: nat, n: Name, ino: nat)
    | MkdirOp(p: nat, n: Name, ino: nat)
    | UnlinkOp(p: nat, n: Name)
    | RmdirOp(p: nat, n: Name)
    | RenameOp(p: nat, n: Name, q: nat, m: Name)

  /** What a lookup should answer. */
  function LookupAnswer(t: Tree, p: nat, n: Name): Result<nat> {
    if !IsDir(t, p) then Err(NotDirectory) else if Place(p, n) in t then Ok(t[Place(p, n)]) else Err(NotFound)
  }

  /** A name may be removed: it is there, and a directory under it is empty. */
  predicate Removable(t: Tree, p: nat, n: Name) {
    IsDir(t, p) && Place(p, n) in t && !(IsDir(t, t[Place(p, n)]) && HasEntry(t, t[Place(p, n)]))
  }

  /** One operation on the directories alone. */
  function TreeStep(t: Tree, op: Op): Tree {
    match op
    case LookupOp(_, _) => t
    case AddOp(p, n, ino) => if AddAnswer(t, p, n).Ok? then t[Place(p, n) := ino] else t
    case MkdirOp(p, n, ino) =>
      if AddAnswer(t, p, n).Ok? then t[Place(p, n) := ino][Place(ino, ".") := ino][Place(ino, "..") := p] else t
    case UnlinkOp(p, n) => if Removable(t, p, n) then Removed(t, p, n) else t
    case RmdirOp(p, n) => if Removable(t, p, n) && IsDir(t, t[Place(p, n)]) then Removed(t, p, n) else t
    case RenameOp(p, n, q, m) => if RenameAnswer(t, p, n, q, m).Ok? then Renamed(t, p, n, q, m) else t
  }

  /** What one operation of a run does to the names, each said without the step itself. */
  lemma StepNames(t: Tree, op: Op)
    requires NoDots(op)
    ensures var u := TreeStep(t, op);
            match op
            case LookupOp(_, _) => u == t
            case AddOp(p, n, ino) =>
              if IsDir(t, p) && OnDisk(t, p, n) == None then
                && OnDisk(u, p, n) == Some(ino)
                && forall x | x != Place(p, n) :: OnDisk(u, x.dir, x.name) == OnDisk(t, x.dir, x.name)
              else u == t
            case MkdirOp(p, n, ino) =>
              if IsDir(t, p) && OnDisk(t, p, n) == None then
                && IsDir(u, ino) && OnDisk(u, ino, "..") == Some(p) && (!IsDot(n) ==> OnDisk(u, p, n) == Some(ino))
                && OthersStay(t, u, Place(p, n), Place(p, n))
              else u == t
            case UnlinkOp(p, n) => if Removable(t, p, n) then Gone(t, u, p, n) else u == t
            case RmdirOp(p, n) =>
              if Removable(t, p, n) && IsDir(t, t[Place(p, n)]) then Gone(t, u, p, n) else u == t
            case RenameOp(p, n, q, m) =>
              if RenameAnswer(t, p, n, q, m).Ok? then Relocated(t, u, p, n, q, m) else u == t
  {
    match op
    case UnlinkOp(p, n) => if Removable(t, p, n) { RemovedIsGone(t, p, n); }
    case RmdirOp(p, n) => if Removable(t, p, n) { RemovedIsGone(t, p, n); }
    case RenameOp(p, n, q, m) => if RenameAnswer(t, p, n, q, m).Ok? { RenameMoves(t, p, n, q, m); }
    case _ =>
  }

  /** What is made can be removed again, and then all is as before. */
  lemma MakeThenRemove(t: Tree, p: nat, n: Name, ino: nat)
    requires IsDir(t, p) && Place(p, n) !in t && !IsDot(n) && forall x | x in t :: x.dir != ino
    ensures TreeStep(TreeStep(t, AddOp(p, n, ino)), UnlinkOp(p, n)) == t
    ensures TreeStep(TreeStep(t, MkdirOp(p, n, ino)), RmdirOp(p, n)) == t
    ensures TreeStep(TreeStep(t, MkdirOp(p, n, ino)), UnlinkOp(p, n)) == t
  {
    var u := TreeStep(t, MkdirOp(p, n, ino));
    assert !HasEntry(u, ino) && IsDir(u, ino) && u[Place(p, n)] == ino;
  }

  /** A rename to a free name can be undone. */
  lemma RenameAndBack(t: Tree, p: nat, n: Name, q: nat, m: Name)
    requires IsDir(t, p) && IsDir(t, q) && Place(p, n) in t && Place(q, m) !in t && !IsDot(n) && !IsDot(m)
    requires t[Place(p, n)] != p && t[Place(p, n)] != q
    requires IsDir(t, t[Place(p, n)]) ==> OnDisk(t, t[Place(p, n)], "..") == Some(p)
    ensures TreeStep(TreeStep(t, RenameOp(p, n, q, m)), RenameOp(q, m, p, n)) == t
  {
  }

  function TreeAfter(t: Tree, ops: seq<Op>): Tree {
    if ops == [] then t else TreeStep(TreeAfter(t, ops[..|ops| - 1]), ops[|ops| - 1])
  }

  predicate NoDots(op: Op) {
    op.LookupOp? || op.AddOp? || op.MkdirOp? || (!IsDot(op.n) && (op.RenameOp? ==> !IsDot(op.m)))
  }

  /** One operation through the cache does to the directories what it does without one. */
  method Step(d: Directories, op: Op) returns (found: Result<nat>)
    requires d.Valid() && NoDots(op)
    modifies d, d.cache
    ensures d.Valid() && d.tree == TreeStep(old(d.tree), op)
    ensures op.LookupOp? && !IsDot(op.n) ==> found == LookupAnswer(d.tree, op.p, op.n)
  {
    found := Err(NotFound);
    match op
    case LookupOp(p, n) => found := d.Lookup(p, n);
    case AddOp(p, n, ino) => var _ := d.Add(p, n, ino);
    case MkdirOp(p, n, ino) => var _ := d.Mkdir(p, n, ino);
    case UnlinkOp(p, n) => var _ := d.Unlink(p, n);
    case RmdirOp(p, n) => var _ := d.Rmdir(p, n);
    case RenameOp(p, n, q, m) => var _ := d.Rename(p, n, q, m);
  }

  /** What the lookup at `k` of a run should answer, if it is one for a name other than the dots. */
  ghost predicate AnsweredAt(tree: Tree, ops: seq<Op>, k: int, found: Result<nat>)
    requires 0 <= k < |ops|
  {
    ops[k].LookupOp? && !IsDot(ops[k].n) ==> found == LookupAnswer(TreeAfter(tree, ops[..k]), ops[k].p, ops[k].n)
  }

  method RunOne(d: Directories, tree: Tree, ops: seq<Op>, i: nat) returns (found: Result<nat>)
    requires d.Valid() && i < |ops| && NoDots(ops[i]) && d.tree == TreeAfter(tree, ops[..i])
    modifies d, d.cache
    ensures d.Valid() && d.tree == TreeAfter(tree, ops[..i + 1]) && AnsweredAt(tree, ops, i, found)
  {
    assert ops[..i + 1][..i] == ops[..i];
    found := Step(d, ops[i]);
  }

  /**
   * Any run of directory operations: the directories change as without the cache, every lookup of a name other than the
   * dots is answered as the directories stood, and the cache agrees and stays within its bound.
   */
  method Run(tree: Tree, ops: seq<Op>) returns (d: Directories, found: seq<Result<nat>>)
    requires BothDots(tree) && forall i | 0 <= i < |ops| :: NoDots(ops[i])
    ensures d.tree == TreeAfter(tree, ops) && |found| == |ops|
    ensures forall k | 0 <= k < |ops| :: AnsweredAt(tree, ops, k, found[k])
    ensures Agrees(d.cache.entries, d.tree) && |Places(d.cache.entries)| == d.cache.len <= MAX_ENTRIES
  {
    d := new Directories(tree);
    found := [];
    for i := 0 to |ops|
      invariant fresh(d) && fresh(d.cache) && d.Valid() && d.tree == TreeAfter(tree, ops[..i]) && |found| == i
      invariant forall k | 0 <= k < i :: AnsweredAt(tree, ops, k, found[k])
    {
      var r := RunOne(d, tree, ops, i);
      found := found + [r];
    }
    assert ops[..|ops|] == ops;
  }
}
