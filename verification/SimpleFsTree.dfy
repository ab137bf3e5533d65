/** The tree the kernel builds from an image, entry by entry, against a flat table of paths. */
module SimpleFsTree {
  import opened Flat

  type Name = seq<byte>
  type Path = seq<Name>

  const DIR_MODE: nat := 493

  datatype Attr = Attr(isDir: bool, mode: nat, data: seq<byte>)

  datatype Node = Node(attr: Attr, children: map<Name, Node>)

  /** What is stored under a path. */
  datatype Entry = Entry(path: Path, attr: Attr)

  function NewDir(): Attr {
    Attr(true, DIR_MODE, [])
  }

  /** Puts a fresh node at a path: missing directories on the way are made, an old node there is replaced. */
  function Insert(t: Node, p: Path, a: Attr): Node
    requires p != []
    decreases |p|
  {
    if |p| == 1 then t.(children := t.children[p[0] := Node(a, map[])])
    else
      var child := if p[0] in t.children then t.children[p[0]] else Node(NewDir(), map[]);
      t.(children := t.children[p[0] := Insert(child, p[1..], a)])
  }

  /** The node under a path, whatever the nodes on the way are. */
  function Find(t: Node, q: Path): Option<Attr>
    decreases |q|
  {
    if q == [] then Some(t.attr)
    else if q[0] in t.children then Find(t.children[q[0]], q[1..])
    else None
  }

  /** Lookup name by name, which a file on the way refuses. */
  function Lookup(t: Node, q: Path): Option<Attr>
    decreases |q|
  {
    if q == [] then Some(t.attr)
    else if t.attr.isDir && q[0] in t.children then Lookup(t.children[q[0]], q[1..])
    else None
  }

  function Build(es: seq<Entry>): Node
    requires AllNamed(es)
  {
    if es == [] then Node(NewDir(), map[])
    else Insert(Build(es[..|es| - 1]), es[|es| - 1].path, es[|es| - 1].attr)
  }

  predicate AllNamed(es: seq<Entry>) {
    forall i | 0 <= i < |es| :: es[i].path != []
  }

  // --- The flat table ---

  /** One insertion, seen from one path: it sets its own path, clears all below and fills in all above. */
  function After(before: Option<Attr>, p: Path, a: Attr, q: Path): Option<Attr> {
    if q == p then Some(a)
    else if p <= q then None
    else if q <= p then (if before.Some? then before else Some(NewDir()))
    else before
  }

  function Table(es: seq<Entry>, q: Path): Option<Attr> {
    if es == [] then (if q == [] then Some(NewDir()) else None)
    else After(Table(es[..|es| - 1], q), es[|es| - 1].path, es[|es| - 1].attr, q)
  }

  lemma {:induction false} FindInsert(t: Node, p: Path, a: Attr, q: Path)
    requires p != []
    ensures Find(Insert(t, p, a), q) == After(Find(t, q), p, a, q)
    decreases |p|
  {
    if q != [] && q[0] == p[0] {
      assert p == [p[0]] + p[1..] && q == [q[0]] + q[1..];
      if |p| > 1 {
        var child := if p[0] in t.children then t.children[p[0]] else Node(NewDir(), map[]);
        FindInsert(child, p[1..], a, q[1..]);
      }
    }
  }

  /** The tree holds under every path exactly what the flat table says. */
  lemma {:induction false} TreeIsTable(es: seq<Entry>, q: Path)
    requires AllNamed(es)
    ensures Find(Build(es), q) == Table(es, q)
  {
    if es != [] {
      var last := |es| - 1;
      TreeIsTable(es[..last], q);
      FindInsert(Build(es[..last]), es[last].path, es[last].attr, q);
    }
  }

  /** Lookup finds what is there exactly when everything on the way is a directory. */
  lemma {:induction false} LookupIsFind(t: Node, q: Path)
    ensures Lookup(t, q) == if forall i | 0 <= i < |q| :: IsDirAt(t, q[..i]) then Find(t, q) else None
    decreases |q|
  {
    if q != [] {
      assert q[..0] == [];
      if q[0] in t.children {
        var child := t.children[q[0]];
        LookupIsFind(child, q[1..]);
        assert forall i | 0 <= i < |q| - 1 :: IsDirAt(child, q[1..][..i]) <==> IsDirAt(t, q[..i + 1]) by {
          forall i | 0 <= i < |q| - 1
            ensures IsDirAt(child, q[1..][..i]) <==> IsDirAt(t, q[..i + 1])
          {
            assert q[..i + 1][1..] == q[1..][..i];
          }
        }
        if t.attr.isDir && forall i | 0 <= i < |q| - 1 :: IsDirAt(child, q[1..][..i]) {
          forall i | 0 <= i < |q|
            ensures IsDirAt(t, q[..i])
          {
            assert i > 0 ==> IsDirAt(child, q[1..][..i - 1]);
          }
        }
      }
    }
  }

  predicate IsDirAt(t: Node, q: Path) {
    Find(t, q).Some? && Find(t, q).value.isDir
  }

  // --- When every entry survives ---

  /** No later path is above or at an earlier one, and only directories have anything below them. */
  ghost predicate InOrder(es: seq<Entry>) {
    && (forall i, j {:trigger NotAbove(es, i, j)} | 0 <= i < j < |es| :: NotAbove(es, i, j))
    && (forall i, k {:trigger DirAbove(es, i, k)} | 0 <= i < |es| && 0 <= k < |es| :: DirAbove(es, i, k))
  }

  predicate NotAbove(es: seq<Entry>, i: int, j: int)
    requires 0 <= i < |es| && 0 <= j < |es|
  {
    !(es[j].path <= es[i].path)
  }

  predicate DirAbove(es: seq<Entry>, i: int, k: int)
    requires 0 <= i < |es| && 0 <= k < |es|
  {
    es[i].path < es[k].path ==> es[i].attr.isDir
  }

  predicate Covered(es: seq<Entry>, q: Path) {
    q == [] || exists k | 0 <= k < |es| :: q <= es[k].path
  }

  predicate Listed(es: seq<Entry>, q: Path) {
    exists k | 0 <= k < |es| :: q == es[k].path
  }

  lemma CoveredBefore(es: seq<Entry>, q: Path)
    requires es != [] && InOrder(es)
    ensures InOrder(es[..|es| - 1])
    ensures es[|es| - 1].path < q ==> !Covered(es[..|es| - 1], q)
  {
    var last := |es| - 1;
    var init := es[..last];
    forall i, j | 0 <= i < last && 0 <= j < last
      ensures DirAbove(init, i, j) && (i < j ==> NotAbove(init, i, j))
    {
      assert DirAbove(es, i, j) && (i < j ==> NotAbove(es, i, j));
    }
    forall k | 0 <= k < last
      ensures es[last].path < q ==> !(q <= init[k].path)
    {
      assert NotAbove(es, k, last);
    }
  }

  /** In order, the table holds something under exactly the covered paths. */
  lemma {:induction false} TableCovers(es: seq<Entry>, q: Path)
    requires AllNamed(es) && InOrder(es)
    ensures Table(es, q).Some? <==> Covered(es, q)
  {
    if es != [] {
      var last := |es| - 1;
      CoveredBefore(es, q);
      TableCovers(es[..last], q);
      CoveredMore(es[..last], es[last], q);
      assert es == es[..last] + [es[last]];
    }
  }

  /** In order, a listed path has the listed attributes. */
  lemma {:induction false} TableLists(es: seq<Entry>, k: nat)
    requires AllNamed(es) && InOrder(es) && k < |es|
    ensures Table(es, es[k].path) == Some(es[k].attr)
    decreases |es|
  {
    var last := |es| - 1;
    if k < last {
      CoveredBefore(es, es[k].path);
      TableLists(es[..last], k);
      assert es[..last][k] == es[k];
      assert NotAbove(es, k, last);
    }
  }

  /** A path that is not listed can only be a directory. */
  lemma {:induction false} TableUnlisted(es: seq<Entry>, q: Path)
    requires AllNamed(es) && !Listed(es, q) && Table(es, q).Some?
    ensures Table(es, q).value.isDir
  {
    if es != [] {
      var last := |es| - 1;
      assert es == es[..last] + [es[last]];
      ListedMore(es[..last], es[last], q);
      if Table(es[..last], q).Some? {
        TableUnlisted(es[..last], q);
      }
    }
  }

  lemma CoveredMore(es: seq<Entry>, e: Entry, q: Path)
    ensures Covered(es + [e], q) <==> Covered(es, q) || q <= e.path
  {
    var more := es + [e];
    assert forall k | 0 <= k < |es| :: more[k] == es[k];
    assert more[|es|] == e;
  }

  lemma ListedMore(es: seq<Entry>, e: Entry, q: Path)
    ensures Listed(es + [e], q) <==> Listed(es, q) || q == e.path
  {
    var more := es + [e];
    assert forall k | 0 <= k < |es| :: more[k] == es[k];
    assert more[|es|] == e;
  }

  lemma DirsAbove(es: seq<Entry>, q: Path, i: nat)
    requires AllNamed(es) && InOrder(es) && Covered(es, q) && i < |q|
    ensures IsDirAt(Build(es), q[..i])
  {
    var above := q[..i];
    var k :| 0 <= k < |es| && q <= es[k].path;
    assert above < es[k].path && Covered(es, above);
    TreeIsTable(es, above);
    TableCovers(es, above);
    if Listed(es, above) {
      var j :| 0 <= j < |es| && above == es[j].path;
      TableLists(es, j);
      assert DirAbove(es, j, k);
    } else {
      TableUnlisted(es, above);
    }
  }

  /** In order, looking up a path succeeds exactly for the root, the listed paths and the directories above them. */
  lemma LookupInOrder(es: seq<Entry>, q: Path)
    requires AllNamed(es) && InOrder(es)
    ensures Lookup(Build(es), q).Some? <==> Covered(es, q)
  {
    TreeIsTable(es, q);
    TableCovers(es, q);
    LookupIsFind(Build(es), q);
    if Covered(es, q) {
      forall i | 0 <= i < |q|
        ensures IsDirAt(Build(es), q[..i])
      {
        DirsAbove(es, q, i);
      }
    }
  }

  /** In order, looking up a listed path gives its entry. */
  lemma LookupListed(es: seq<Entry>, k: nat)
    requires AllNamed(es) && InOrder(es) && k < |es|
    ensures Lookup(Build(es), es[k].path) == Some(es[k].attr)
  {
    var q := es[k].path;
    LookupInOrder(es, q);
    assert Covered(es, q);
    LookupIsFind(Build(es), q);
    TreeIsTable(es, q);
    TableLists(es, k);
  }

  // --- When an entry is lost ---

  /** Inserting a node above an earlier path erases it unless something brings it back later. */
  lemma {:induction false} LaterAncestorErases(es: seq<Entry>, j: nat, q: Path)
    requires AllNamed(es) && j < |es| && es[j].path < q
    requires forall i | j < i < |es| :: !(q <= es[i].path)
    ensures Lookup(Build(es), q) == None
  {
    TreeIsTable(es, q);
    LookupIsFind(Build(es), q);
    ErasedInTable(es, j, q);
  }

  lemma {:induction false} ErasedInTable(es: seq<Entry>, j: nat, q: Path)
    requires j < |es| && es[j].path < q
    requires forall i | j < i < |es| :: !(q <= es[i].path)
    ensures Table(es, q) == None
  {
    if j < |es| - 1 {
      ErasedInTable(es[..|es| - 1], j, q);
    }
  }

  // --- The order the packer lists ---

  predicate NameLess(a: Name, b: Name) {
    if b == [] then false
    else if a == [] then true
    else if a[0] == b[0] then NameLess(a[1..], b[1..])
    else a[0] < b[0]
  }

  /** Paths compare name by name. */
  predicate PathLess(a: Path, b: Path)
    decreases |a|
  {
    if b == [] then false
    else if a == [] then true
    else if a[0] == b[0] then PathLess(a[1..], b[1..])
    else NameLess(a[0], b[0])
  }

  /** Of two different names exactly one comes first. */
  lemma {:induction false} NamesAreOrdered(a: Name, b: Name)
    ensures NameLess(a, b) <==> a != b && !NameLess(b, a)
    decreases |a|
  {
    if a != [] && b != [] && a[0] == b[0] {
      NamesAreOrdered(a[1..], b[1..]);
      assert a == [a[0]] + a[1..] && b == [b[0]] + b[1..];
    }
  }

  /** Of two different paths exactly one comes first. */
  lemma {:induction false} PathsAreOrdered(a: Path, b: Path)
    ensures PathLess(a, b) <==> a != b && !PathLess(b, a)
    decreases |a|
  {
    if a != [] && b != [] {
      if a[0] == b[0] {
        PathsAreOrdered(a[1..], b[1..]);
        assert a == [a[0]] + a[1..] && b == [b[0]] + b[1..];
      } else {
        NamesAreOrdered(a[0], b[0]);
      }
    }
  }

  lemma {:induction false} LessNotPrefix(a: Path, b: Path)
    requires PathLess(a, b)
    ensures !(b <= a)
    decreases |a|
  {
    if a != [] && a[0] == b[0] {
      LessNotPrefix(a[1..], b[1..]);
      assert b == [b[0]] + b[1..] && a == [a[0]] + a[1..];
    }
  }

  predicate Sorted(es: seq<Entry>) {
    forall i, j | 0 <= i < j < |es| :: PathLess(es[i].path, es[j].path)
  }

  /** First the directories, sorted, then the files, sorted; paths are distinct and files have nothing below them. */
  predicate Collected(dirs: seq<Entry>, files: seq<Entry>) {
    && Sorted(dirs) && Sorted(files)
    && (forall i | 0 <= i < |dirs| :: dirs[i].attr.isDir)
    && (forall i | 0 <= i < |files| :: !files[i].attr.isDir)
    && (forall i, k | 0 <= i < |files| && 0 <= k < |dirs| :: !(files[i].path <= dirs[k].path))
    && (forall i, k | 0 <= i < |files| && 0 <= k < |files| :: !(files[i].path < files[k].path))
  }

  /** The packer's order is one in which every entry survives. */
  lemma CollectedInOrder(dirs: seq<Entry>, files: seq<Entry>)
    requires Collected(dirs, files)
    ensures InOrder(dirs + files)
  {
    var es, n := dirs + files, |dirs|;
    forall i, j | 0 <= i < j < |es|
      ensures NotAbove(es, i, j)
    {
      if j < n {
        LessNotPrefix(dirs[i].path, dirs[j].path);
      } else if i >= n {
        LessNotPrefix(files[i - n].path, files[j - n].path);
      } else {
        assert es[j] == files[j - n] && es[i] == dirs[i];
      }
    }
    forall i, k | 0 <= i < |es| && 0 <= k < |es|
      ensures DirAbove(es, i, k)
    {
      assert i < n ==> es[i] == dirs[i];
      assert i >= n ==> es[i] == files[i - n];
      assert k < n ==> es[k] == dirs[k];
      assert k >= n ==> es[k] == files[k - n];
    }
  }
}
