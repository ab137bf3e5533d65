/** Resolving a path component by component, following symbolic links. */
module PathWalk {
  import opened Pieces
  import opened Path

  const MAX_SYMLINK_DEPTH := 8

  /** A directory entry: a chain of names up to the root, each with the inode it names. */
  datatype Dentry = RootOf(ino: nat) | Child(parent: Dentry, name: string, ino: nat)

  datatype Inode = Directory(entries: map<string, nat>) | File | Symlink(target: string)

  datatype Namespace = Namespace(root: nat, inodes: map<nat, Inode>)

  datatype Error = NotFound | NotDirectory | TooManySymlinks

  datatype Walked = Found(dentry: Dentry) | Failed(error: Error)

  function Top(ns: Namespace): Dentry {
    RootOf(ns.root)
  }

  predicate IsLink(ns: Namespace, d: Dentry) {
    d.ino in ns.inodes && ns.inodes[d.ino].Symlink?
  }

  predicate NoLinks(ns: Namespace) {
    forall i | i in ns.inodes :: !ns.inodes[i].Symlink?
  }

  function LookupIn(ns: Namespace, d: Dentry, name: string): Walked {
    if d.ino !in ns.inodes then Failed(NotFound)
    else match ns.inodes[d.ino]
      case Directory(entries) => if name in entries then Found(Child(d, name, entries[name])) else Failed(NotFound)
      case _ => Failed(NotDirectory)
  }

  function ResolveComponent(ns: Namespace, base: Dentry, c: Component): Walked {
    match c
    case Root => Found(Top(ns))
    case Current => Found(base)
    case Parent => Found(if base.Child? then base.parent else base)
    case Normal(name) => LookupIn(ns, base, name)
  }

  /** Where a link's target is resolved from. */
  function LinkStart(ns: Namespace, link: Dentry, target: string): Dentry {
    if IsAbsolute(target) || !link.Child? then Top(ns) else link.parent
  }

  /** What a walk answers, with at most `budget` links still to follow. */
  function Walk(ns: Namespace, at: Dentry, cs: seq<Component>, followLast: bool, budget: nat): Walked
    decreases budget, |cs|
  {
    if cs == [] then Found(at)
    else
      var next := ResolveComponent(ns, at, cs[0]);
      if next.Failed? then next
      else if IsLink(ns, next.dentry) && (followLast || |cs| > 1) then
        if budget == 0 then Failed(TooManySymlinks)
        else
          var target := ns.inodes[next.dentry.ino].target;
          Walk(ns, LinkStart(ns, next.dentry, target), Parse(target) + cs[1..], followLast, budget - 1)
      else Walk(ns, next.dentry, cs[1..], followLast, budget)
  }

  /** The link limit only cuts walks off: any other answer stays the same with a larger limit. */
  lemma {:induction false} LimitOnlyCuts(ns: Namespace, at: Dentry, cs: seq<Component>, followLast: bool, budget: nat,
                                         more: nat)
    requires budget <= more && Walk(ns, at, cs, followLast, budget) != Failed(TooManySymlinks)
    ensures Walk(ns, at, cs, followLast, more) == Walk(ns, at, cs, followLast, budget)
    decreases budget, |cs|
  {
    if cs != [] {
      var next := ResolveComponent(ns, at, cs[0]);
      if next.Found? {
        if IsLink(ns, next.dentry) && (followLast || |cs| > 1) {
          var target := ns.inodes[next.dentry.ino].target;
          var start := LinkStart(ns, next.dentry, target);
          LimitOnlyCuts(ns, start, Parse(target) + cs[1..], followLast, budget - 1, more - 1);
        } else {
          LimitOnlyCuts(ns, next.dentry, cs[1..], followLast, budget, more);
        }
      }
    }
  }

  /** Where the last part is not to be followed, all links before it are, and the last part is answered as it is. */
  lemma {:induction false} LastIsNotFollowed(ns: Namespace, at: Dentry, cs: seq<Component>, c: Component, budget: nat)
    ensures Walk(ns, at, cs + [c], false, budget)
         == var before := Walk(ns, at, cs, true, budget);
            if before.Failed? then before else ResolveComponent(ns, before.dentry, c)
    decreases budget, |cs|
  {
    if cs == [] {
      assert [] + [c] == [c] && [c][1..] == [];
    } else {
      assert (cs + [c])[0] == cs[0] && (cs + [c])[1..] == cs[1..] + [c];
      var next := ResolveComponent(ns, at, cs[0]);
      if next.Found? {
        if !IsLink(ns, next.dentry) {
          LastIsNotFollowed(ns, next.dentry, cs[1..], c, budget);
        } else if budget > 0 {
          var target := ns.inodes[next.dentry.ino].target;
          var spliced := Parse(target) + cs[1..];
          assert Parse(target) + (cs[1..] + [c]) == spliced + [c];
          LastIsNotFollowed(ns, LinkStart(ns, next.dentry, target), spliced, c, budget - 1);
        }
      }
    }
  }

  /** A link stands for its target: from the directory it is in, or from the top for an absolute one. */
  lemma LinkStandsForTarget(ns: Namespace, at: Dentry, name: string, ino: nat, target: string, rest: seq<Component>,
                            budget: nat)
    requires LookupIn(ns, at, name) == Found(Child(at, name, ino)) && ino in ns.inodes
    requires ns.inodes[ino] == Symlink(target)
    ensures Walk(ns, at, [Normal(name)] + rest, true, budget + 1)
         == Walk(ns, if IsAbsolute(target) then Top(ns) else at, Parse(target) + rest, true, budget)
  {
    assert ([Normal(name)] + rest)[1..] == rest;
  }

  /** A link to its own name is given up on, whatever the limit. */
  lemma {:induction false} SelfLinkIsReported(ns: Namespace, at: Dentry, name: string, rest: seq<Component>,
                                              budget: nat)
    requires LookupIn(ns, at, name).Found? && IsLink(ns, LookupIn(ns, at, name).dentry)
    requires var target := ns.inodes[LookupIn(ns, at, name).dentry.ino].target;
             !IsAbsolute(target) && Parse(target) == [Normal(name)]
    ensures Walk(ns, at, [Normal(name)] + rest, true, budget) == Failed(TooManySymlinks)
    decreases budget
  {
    assert ([Normal(name)] + rest)[1..] == rest;
    if budget > 0 {
      SelfLinkIsReported(ns, at, name, rest, budget - 1);
    }
  }

  // --- Walking without links, and lexical normalization ---

  /** The names on the way down to an entry. */
  function Names(d: Dentry): seq<string> {
    match d
    case RootOf(_) => []
    case Child(parent, name, _) => Names(parent) + [name]
  }

  /** An entry each of whose steps the namespace still confirms. */
  predicate Confirmed(ns: Namespace, d: Dentry) {
    match d
    case RootOf(_) => d == Top(ns)
    case Child(parent, name, _) => Confirmed(ns, parent) && LookupIn(ns, parent, name) == Found(d)
  }

  /** A walk that meets no link. */
  function Direct(ns: Namespace, at: Dentry, cs: seq<Component>): Walked
    decreases |cs|
  {
    if cs == [] then Found(at)
    else
      var next := ResolveComponent(ns, at, cs[0]);
      if next.Failed? then next
      else if IsLink(ns, next.dentry) then Failed(TooManySymlinks)
      else Direct(ns, next.dentry, cs[1..])
  }

  lemma {:induction false} DirectAppend(ns: Namespace, at: Dentry, cs: seq<Component>, c: Component)
    ensures Direct(ns, at, cs + [c])
         == var before := Direct(ns, at, cs);
            if before.Failed? then before else Direct(ns, before.dentry, [c])
    decreases |cs|
  {
    if cs == [] {
      assert [] + [c] == [c];
    } else {
      assert (cs + [c])[0] == cs[0] && (cs + [c])[1..] == cs[1..] + [c];
      var next := ResolveComponent(ns, at, cs[0]);
      if next.Found? && !IsLink(ns, next.dentry) {
        DirectAppend(ns, next.dentry, cs[1..], c);
      }
    }
  }

  /** A walk that can be done without meeting a link is done so. */
  lemma {:induction false} WalkIsDirect(ns: Namespace, at: Dentry, cs: seq<Component>, budget: nat)
    requires Direct(ns, at, cs) != Failed(TooManySymlinks)
    ensures Walk(ns, at, cs, true, budget) == Direct(ns, at, cs)
    decreases |cs|
  {
    if cs != [] && ResolveComponent(ns, at, cs[0]).Found? {
      WalkIsDirect(ns, ResolveComponent(ns, at, cs[0]).dentry, cs[1..], budget);
    }
  }

  /** One part leads from a confirmed entry to a confirmed one whose names have that part applied. */
  lemma ResolveReduces(ns: Namespace, at: Dentry, part: string)
    requires Confirmed(ns, at) && IsPiece(part, '/')
    ensures var r := ResolveComponent(ns, at, ToComponent(part));
            r.Found? ==> Confirmed(ns, r.dentry) && Names(r.dentry) == Apply(true, Names(at), part)
  {
  }

  /** A walk that meets no link ends at a confirmed entry whose names are the reduced parts. */
  lemma {:induction false} DirectReduces(ns: Namespace, parts: seq<string>)
    requires forall p | p in parts :: IsPiece(p, '/')
    ensures var r := Direct(ns, Top(ns), ToComponents(parts));
            r.Found? ==> Confirmed(ns, r.dentry) && Names(r.dentry) == Reduce(true, parts)
    decreases |parts|
  {
    if parts != [] {
      var last := |parts| - 1;
      var c := ToComponent(parts[last]);
      assert ToComponents(parts) == ToComponents(parts[..last]) + [c];
      DirectReduces(ns, parts[..last]);
      DirectAppend(ns, Top(ns), ToComponents(parts[..last]), c);
      var before := Direct(ns, Top(ns), ToComponents(parts[..last]));
      if before.Found? {
        ResolveReduces(ns, before.dentry, parts[last]);
        assert [c][1..] == [];
      }
    }
  }

  lemma {:induction false} NoLinkToMeet(ns: Namespace, at: Dentry, cs: seq<Component>)
    requires NoLinks(ns)
    ensures Direct(ns, at, cs) != Failed(TooManySymlinks)
    decreases |cs|
  {
    if cs != [] && ResolveComponent(ns, at, cs[0]).Found? {
      NoLinkToMeet(ns, ResolveComponent(ns, at, cs[0]).dentry, cs[1..]);
    }
  }

  /** Without links a successful walk of raw parts ends at a confirmed entry whose names are the reduced parts. */
  lemma WalkReduces(ns: Namespace, parts: seq<string>, budget: nat)
    requires NoLinks(ns) && forall p | p in parts :: IsPiece(p, '/')
    ensures var r := Walk(ns, Top(ns), ToComponents(parts), true, budget);
            r.Found? ==> Confirmed(ns, r.dentry) && Names(r.dentry) == Reduce(true, parts)
  {
    NoLinkToMeet(ns, Top(ns), ToComponents(parts));
    WalkIsDirect(ns, Top(ns), ToComponents(parts), budget);
    DirectReduces(ns, parts);
  }

  /** The names of a confirmed entry lead to exactly that entry, through directories only. */
  lemma {:induction false} NamesLeadTo(ns: Namespace, d: Dentry)
    requires Confirmed(ns, d) && Canonical(true, Names(d)) && !IsLink(ns, d)
    ensures Direct(ns, Top(ns), ToComponents(Names(d))) == Found(d)
    decreases d
  {
    match d
    case RootOf(_) =>
    case Child(parent, name, ino) =>
      var names := Names(parent);
      assert Names(d)[|names|] == name && Names(d)[..|names|] == names;
      assert Canonical(true, names) by {
        assert forall i | 0 <= i < |names| :: names[i] == Names(d)[i];
      }
      NamesLeadTo(ns, parent);
      assert ToComponents(Names(d)) == ToComponents(names) + [Normal(name)];
      DirectAppend(ns, Top(ns), ToComponents(names), Normal(name));
  }

  /** Where the reduced parts lead directly, parts without ".." lead too. */
  lemma {:induction false} DotsDoNotMatter(ns: Namespace, parts: seq<string>)
    requires ".." !in parts && Direct(ns, Top(ns), ToComponents(Reduce(true, parts))).Found?
    requires !IsLink(ns, Top(ns))
    ensures Direct(ns, Top(ns), ToComponents(parts)) == Direct(ns, Top(ns), ToComponents(Reduce(true, parts)))
    ensures !IsLink(ns, Direct(ns, Top(ns), ToComponents(parts)).dentry)
    decreases |parts|
  {
    if parts != [] {
      var last := |parts| - 1;
      var before := parts[..last];
      var c := ToComponent(parts[last]);
      assert ToComponents(parts) == ToComponents(before) + [c];
      DirectAppend(ns, Top(ns), ToComponents(before), c);
      if parts[last] != "." {
        var kept := Reduce(true, before);
        assert ToComponents(kept + [parts[last]]) == ToComponents(kept) + [c];
        DirectAppend(ns, Top(ns), ToComponents(kept), c);
      }
      DotsDoNotMatter(ns, before);
    }
  }

  /** Walking an absolute path from the top ignores its root component. */
  lemma RootFirst(ns: Namespace, path: string, budget: nat)
    requires !IsLink(ns, Top(ns)) && IsAbsolute(path)
    ensures Walk(ns, Top(ns), Parse(path), true, budget)
         == Walk(ns, Top(ns), ToComponents(Split(path, '/')), true, budget)
  {
    assert Parse(path)[1..] == ToComponents(Split(path, '/'));
  }

  /** Without links, whatever the raw walk of an absolute path finds, the walk of its normal form finds too. */
  lemma NormalFormFindsTheSame(ns: Namespace, path: string, budget: nat)
    requires NoLinks(ns) && IsAbsolute(path)
    ensures var r := Walk(ns, Top(ns), Parse(path), true, budget);
            r.Found? ==> Walk(ns, Top(ns), Parse(Normalize(path)), true, budget) == r
                         && Names(r.dentry) == Split(Normalize(path), '/')
  {
    var r := Walk(ns, Top(ns), Parse(path), true, budget);
    if r.Found? {
      var parts := Split(path, '/');
      RootFirst(ns, path, budget);
      WalkReduces(ns, parts, budget);
      ReduceIsCanonical(true, parts);
      NamesLeadTo(ns, r.dentry);
      WalkIsDirect(ns, Top(ns), ToComponents(Names(r.dentry)), budget);
      RenderParts(true, Reduce(true, parts));
      RootFirst(ns, Normalize(path), budget);
    }
  }

  // --- The cache in front of the walk ---

  /** Every cached entry is confirmed and stored under its own full path. */
  predicate CacheSound(ns: Namespace, cache: map<string, Dentry>) {
    forall p | p in cache ::
      Confirmed(ns, cache[p]) && p == Render(true, Names(cache[p])) && Canonical(true, Names(cache[p]))
  }

  /** Lookup of a path with the current directory `cwd`. */
  function VfsLookup(ns: Namespace, cache: map<string, Dentry>, cwd: Dentry, path: string): Walked {
    var normalized := Normalize(path);
    if IsAbsolute(path) && normalized in cache && !IsLink(ns, cache[normalized]) then Found(cache[normalized])
    else Walk(ns, if IsAbsolute(path) then Top(ns) else cwd, Parse(path), true, MAX_SYMLINK_DEPTH)
  }

  /** A cached entry is what walking its own path finds. */
  lemma CachedIsWalked(ns: Namespace, cache: map<string, Dentry>, n: string, budget: nat)
    requires CacheSound(ns, cache) && n in cache && !IsLink(ns, cache[n])
    ensures IsAbsolute(n) && Split(n, '/') == Names(cache[n])
    ensures Direct(ns, Top(ns), ToComponents(Split(n, '/'))) == Found(cache[n])
    ensures Walk(ns, Top(ns), ToComponents(Split(n, '/')), true, budget) == Found(cache[n])
  {
    RenderParts(true, Names(cache[n]));
    NamesLeadTo(ns, cache[n]);
    WalkIsDirect(ns, Top(ns), ToComponents(Split(n, '/')), budget);
  }

  /** A sound cache changes no answer for a path without "..", links or not. */
  lemma CacheAgreesWithoutParents(ns: Namespace, cache: map<string, Dentry>, cwd: Dentry, path: string)
    requires CacheSound(ns, cache) && !IsLink(ns, Top(ns)) && ".." !in Split(path, '/')
    ensures VfsLookup(ns, cache, cwd, path) == VfsLookup(ns, map[], cwd, path)
  {
    var n := Normalize(path);
    if IsAbsolute(path) && n in cache && !IsLink(ns, cache[n]) {
      var parts := Split(path, '/');
      CachedIsWalked(ns, cache, n, MAX_SYMLINK_DEPTH);
      ReduceIsCanonical(true, parts);
      RenderParts(true, Reduce(true, parts));
      DotsDoNotMatter(ns, parts);
      WalkIsDirect(ns, Top(ns), ToComponents(parts), MAX_SYMLINK_DEPTH);
      RootFirst(ns, path, MAX_SYMLINK_DEPTH);
    }
  }

  /** The cache answers by itself. */
  predicate Hits(ns: Namespace, cache: map<string, Dentry>, path: string) {
    IsAbsolute(path) && Normalize(path) in cache && !IsLink(ns, cache[Normalize(path)])
  }

  /** Without links a sound cache changes an answer exactly when it answers by itself where the walk fails. */
  lemma CacheAgreesWithoutLinks(ns: Namespace, cache: map<string, Dentry>, cwd: Dentry, path: string)
    requires NoLinks(ns) && CacheSound(ns, cache)
    ensures var r := VfsLookup(ns, map[], cwd, path);
            VfsLookup(ns, cache, cwd, path) == r <==> r.Found? || !Hits(ns, cache, path)
  {
    var r := VfsLookup(ns, map[], cwd, path);
    var n := Normalize(path);
    if r.Found? && IsAbsolute(path) && n in cache {
      NormalFormFindsTheSame(ns, path, MAX_SYMLINK_DEPTH);
      CachedIsWalked(ns, cache, n, MAX_SYMLINK_DEPTH);
      RootFirst(ns, n, MAX_SYMLINK_DEPTH);
    }
  }

  /** A direct beginning of a walk can be skipped. */
  lemma {:induction false} DirectThenWalk(ns: Namespace, at: Dentry, cs: seq<Component>, ds: seq<Component>,
                                          budget: nat)
    requires Direct(ns, at, cs).Found?
    ensures Walk(ns, at, cs + ds, true, budget) == Walk(ns, Direct(ns, at, cs).dentry, ds, true, budget)
    decreases |cs|
  {
    if cs == [] {
      assert cs + ds == ds;
    } else {
      assert (cs + ds)[0] == cs[0] && (cs + ds)[1..] == cs[1..] + ds;
      DirectThenWalk(ns, ResolveComponent(ns, at, cs[0]).dentry, cs[1..], ds, budget);
    }
  }

  /** A link l at the top leads directly to `target`, and x can be found beside that target. */
  predicate LinkAtTop(ns: Namespace, l: string, x: string, target: Dentry) {
    && !IsLink(ns, Top(ns)) && LookupIn(ns, Top(ns), l).Found?
    && var link := LookupIn(ns, Top(ns), l).dentry;
    && IsLink(ns, link) && IsAbsolute(ns.inodes[link.ino].target)
    && Direct(ns, Top(ns), Parse(ns.inodes[link.ino].target)) == Found(target)
    && target.Child? && !IsLink(ns, target.parent)
    && LookupIn(ns, target.parent, x).Found? && !IsLink(ns, LookupIn(ns, target.parent, x).dentry)
  }

  /** Through a link at the top, ".." leads to the parent of the link's target. */
  lemma ParentOfTarget(ns: Namespace, l: string, x: string, target: Dentry)
    requires LinkAtTop(ns, l, x, target)
    ensures Walk(ns, Top(ns), [Normal(l), Parent, Normal(x)], true, MAX_SYMLINK_DEPTH) == LookupIn(ns, target.parent, x)
  {
    var link := LookupIn(ns, Top(ns), l).dentry;
    var rest := [Parent, Normal(x)];
    DirectThenWalk(ns, Top(ns), Parse(ns.inodes[link.ino].target), rest, MAX_SYMLINK_DEPTH - 1);
    assert [Normal(l), Parent, Normal(x)][1..] == rest && rest[1..] == [Normal(x)] && [Normal(x)][1..] == [];
    assert Walk(ns, target.parent, [Normal(x)], true, MAX_SYMLINK_DEPTH - 1) == LookupIn(ns, target.parent, x);
  }

  /** Lexically the same path names x at the top. */
  lemma ParentUndoesName(l: string, x: string)
    requires Canonical(true, [l, x])
    ensures Split("/" + Join([l, "..", x], '/'), '/') == [l, "..", x]
    ensures ToComponents([l, "..", x]) == [Normal(l), Parent, Normal(x)]
    ensures Normalize("/" + Join([l, "..", x], '/')) == Render(true, [x])
  {
    var parts := [l, "..", x];
    assert [l, x][0] == l && [l, x][1] == x;
    SplitJoin(parts, '/');
    assert ("/" + Join(parts, '/'))[1..] == Join(parts, '/');
    assert parts[..2] == [l, ".."] && [l, ".."][..1] == [l] && [l][..0] == [];
    assert Reduce(true, [l]) == [l];
    assert Reduce(true, [l, ".."]) == [];
    assert Reduce(true, parts) == [x];
  }

  // --- Exactly when the cache changes an answer ---

  lemma ResolveConfirms(ns: Namespace, at: Dentry, c: Component)
    requires Confirmed(ns, at) && ResolveComponent(ns, at, c).Found?
    ensures Confirmed(ns, ResolveComponent(ns, at, c).dentry)
  {
  }

  /** Whatever a walk finds, links or not, is an entry the namespace confirms. */
  lemma {:induction false} WalkConfirms(ns: Namespace, at: Dentry, cs: seq<Component>, followLast: bool, budget: nat)
    requires Confirmed(ns, at) && Walk(ns, at, cs, followLast, budget).Found?
    ensures Confirmed(ns, Walk(ns, at, cs, followLast, budget).dentry)
    decreases budget, |cs|
  {
    if cs != [] {
      ResolveConfirms(ns, at, cs[0]);
      var next := ResolveComponent(ns, at, cs[0]).dentry;
      if IsLink(ns, next) && (followLast || |cs| > 1) {
        var target := ns.inodes[next.ino].target;
        WalkConfirms(ns, LinkStart(ns, next, target), Parse(target) + cs[1..], followLast, budget - 1);
      } else {
        WalkConfirms(ns, next, cs[1..], followLast, budget);
      }
    }
  }

  /** Confirmed entries with the same names are the same. */
  lemma {:induction false} NamesDecide(ns: Namespace, d: Dentry, e: Dentry)
    requires Confirmed(ns, d) && Confirmed(ns, e) && Names(d) == Names(e)
    ensures d == e
    decreases d
  {
    if d.Child? {
      assert e.Child? by {
        assert |Names(d)| > 0;
      }
      assert Names(d)[|Names(d.parent)|] == d.name && Names(d)[..|Names(d.parent)|] == Names(d.parent);
      assert Names(e)[|Names(e.parent)|] == e.name && Names(e)[..|Names(e.parent)|] == Names(e.parent);
      NamesDecide(ns, d.parent, e.parent);
    } else {
      assert e.RootOf? by {
        assert |Names(d)| == 0;
      }
    }
  }

  // --- Relative paths ---

  lemma {:induction false} DirectConcat(ns: Namespace, at: Dentry, cs: seq<Component>, ds: seq<Component>)
    requires Direct(ns, at, cs).Found?
    ensures Direct(ns, at, cs + ds) == Direct(ns, Direct(ns, at, cs).dentry, ds)
    decreases |cs|
  {
    if cs == [] {
      assert cs + ds == ds;
    } else {
      assert (cs + ds)[0] == cs[0] && (cs + ds)[1..] == cs[1..] + ds;
      DirectConcat(ns, ResolveComponent(ns, at, cs[0]).dentry, cs[1..], ds);
    }
  }

  /** Going up from a confirmed entry leads to a directory. */
  lemma ParentIsNoLink(ns: Namespace, at: Dentry)
    requires Confirmed(ns, at) && at.Child?
    ensures Confirmed(ns, at.parent) && !IsLink(ns, at.parent)
  {
  }

  lemma ParentNames(at: Dentry)
    ensures at.Child? && Canonical(true, Names(at)) ==>
              Canonical(true, Names(at.parent)) && Reduce(true, Names(at) + [".."]) == Names(at.parent)
    ensures at.RootOf? ==> Reduce(true, Names(at) + [".."]) == Names(at)
  {
    var up := Names(at) + [".."];
    assert up[..|Names(at)|] == Names(at);
    if at.Child? && Canonical(true, Names(at)) {
      assert forall i | 0 <= i < |Names(at.parent)| :: Names(at.parent)[i] == Names(at)[i];
      ReduceCanonical(true, Names(at));
      assert Names(at)[..|Names(at)| - 1] == Names(at.parent);
    }
  }

  /** A directory, not reached through a link in its place, whose names a full path can hold. */
  predicate Settled(ns: Namespace, at: Dentry) {
    Confirmed(ns, at) && Canonical(true, Names(at)) && !IsLink(ns, at)
  }

  /** What lies behind the names of a directory is what lies behind the directory. */
  lemma DirectBehind(ns: Namespace, at: Dentry, parts: seq<string>)
    requires Settled(ns, at)
    ensures Direct(ns, Top(ns), ToComponents(Names(at) + parts)) == Direct(ns, at, ToComponents(parts))
  {
    NamesLeadTo(ns, at);
    assert ToComponents(Names(at) + parts) == ToComponents(Names(at)) + ToComponents(parts);
    DirectConcat(ns, Top(ns), ToComponents(Names(at)), ToComponents(parts));
  }

  /** Plain names lead down from a directory. */
  lemma LeadsDown(ns: Namespace, at: Dentry, stack: seq<string>, d: Dentry)
    requires Settled(ns, at) && Canonical(true, stack)
    requires Confirmed(ns, d) && !IsLink(ns, d) && Names(d) == Names(at) + stack
    ensures Direct(ns, at, ToComponents(stack)) == Found(d)
  {
    NamesLeadTo(ns, d);
    DirectBehind(ns, at, stack);
  }

  /** One step up, with what is left to do afterwards. */
  lemma LeadsUp(ns: Namespace, at: Dentry, rest: seq<string>)
    requires Settled(ns, at)
    ensures var up := if at.Child? then at.parent else at;
            && Settled(ns, up) && Reduce(true, Names(at) + ([".."] + rest)) == Reduce(true, Names(up) + rest)
            && Direct(ns, at, [Parent] + ToComponents(rest)) == Direct(ns, up, ToComponents(rest))
  {
    var up := if at.Child? then at.parent else at;
    ParentNames(at);
    if at.Child? {
      ParentIsNoLink(ns, at);
    }
    NamesUp(Names(at), Names(up), rest);
    StepUp(ns, at, ToComponents(rest));
  }

  lemma NamesUp(names: seq<string>, up: seq<string>, rest: seq<string>)
    requires Canonical(true, up) && Reduce(true, names + [".."]) == up
    ensures Reduce(true, names + ([".."] + rest)) == Reduce(true, up + rest)
  {
    ReduceCanonical(true, up);
    ReduceAfter(names + [".."], up, rest);
    assert names + [".."] + rest == names + ([".."] + rest);
  }

  lemma StepUp(ns: Namespace, at: Dentry, cs: seq<Component>)
    requires !IsLink(ns, if at.Child? then at.parent else at)
    ensures Direct(ns, at, [Parent] + cs) == Direct(ns, if at.Child? then at.parent else at, cs)
  {
    assert ([Parent] + cs)[1..] == cs;
  }

  lemma CanonicalDown(stack: seq<string>)
    requires Canonical(false, stack) && (stack == [] || stack[0] != "..")
    ensures Canonical(true, stack)
  {
    assert forall i | 0 < i < |stack| :: stack[i] == ".." ==> stack[0] == "..";
  }

  lemma UpFirst(stack: seq<string>)
    requires Canonical(false, stack) && stack != [] && stack[0] == ".."
    ensures Canonical(false, stack[1..]) && stack == [".."] + stack[1..]
    ensures ToComponents(stack) == [Parent] + ToComponents(stack[1..])
  {
    assert forall i | 0 <= i < |stack[1..]| :: stack[1..][i] == stack[i + 1];
  }

  lemma DownNames(names: seq<string>, stack: seq<string>)
    requires Canonical(true, names) && Canonical(true, stack)
    ensures Reduce(true, names + stack) == names + stack
  {
    ReduceCanonical(true, names + stack);
  }

  /** From a directory, names in normal form lead to the entry with the names they come to, if there is one. */
  lemma {:induction false} NormalLeadsTo(ns: Namespace, at: Dentry, stack: seq<string>, d: Dentry)
    requires Settled(ns, at) && Canonical(false, stack)
    requires Confirmed(ns, d) && !IsLink(ns, d) && Names(d) == Reduce(true, Names(at) + stack)
    ensures Direct(ns, at, ToComponents(stack)) == Found(d)
    decreases |stack|
  {
    if stack != [] && stack[0] == ".." {
      UpFirst(stack);
      LeadsUp(ns, at, stack[1..]);
      NormalLeadsTo(ns, if at.Child? then at.parent else at, stack[1..], d);
    } else {
      CanonicalDown(stack);
      DownNames(Names(at), stack);
      LeadsDown(ns, at, stack, d);
    }
  }

  /** The names of what relative parts lead to. */
  lemma DirectNames(ns: Namespace, at: Dentry, parts: seq<string>)
    requires Settled(ns, at) && forall p | p in parts :: IsPiece(p, '/')
    requires Direct(ns, at, ToComponents(parts)).Found?
    ensures var d := Direct(ns, at, ToComponents(parts)).dentry;
            Confirmed(ns, d) && !IsLink(ns, d) && Names(d) == Reduce(true, Names(at) + parts)
  {
    DirectBehind(ns, at, parts);
    CanonicalPieces(true, Names(at));
    DirectReduces(ns, Names(at) + parts);
    DirectEndsNoLink(ns, at, ToComponents(parts));
  }

  /** Relative parts that lead somewhere without meeting a link lead there in normal form too. */
  lemma DirectOfNormal(ns: Namespace, at: Dentry, parts: seq<string>)
    requires Settled(ns, at) && forall p | p in parts :: IsPiece(p, '/')
    requires Direct(ns, at, ToComponents(parts)).Found?
    ensures Direct(ns, at, ToComponents(Reduce(false, parts))) == Direct(ns, at, ToComponents(parts))
  {
    DirectNames(ns, at, parts);
    RelativeReduce(Names(at), parts);
    ReduceIsCanonical(false, parts);
    NormalLeadsTo(ns, at, Reduce(false, parts), Direct(ns, at, ToComponents(parts)).dentry);
  }

  lemma {:induction false} DirectEndsNoLink(ns: Namespace, at: Dentry, cs: seq<Component>)
    requires !IsLink(ns, at) && Direct(ns, at, cs).Found?
    ensures !IsLink(ns, Direct(ns, at, cs).dentry)
    decreases |cs|
  {
    if cs != [] {
      DirectEndsNoLink(ns, ResolveComponent(ns, at, cs[0]).dentry, cs[1..]);
    }
  }

  lemma ParseRelative(path: string)
    requires !IsAbsolute(path)
    ensures Parse(path) == ToComponents(Split(path, '/'))
  {
  }

  lemma NormalComponents(path: string)
    requires !IsAbsolute(path)
    ensures var stack := Reduce(false, Split(path, '/'));
            Parse(path) == ToComponents(Split(path, '/'))
            && Parse(Normalize(path)) == if stack == [] then [Current] else ToComponents(stack)
  {
    ParseRelative(path);
    ReduceIsCanonical(false, Split(path, '/'));
    RenderParts(false, Reduce(false, Split(path, '/')));
    ParseRelative(Normalize(path));
  }

  /** A relative path and its normal form lead from any directory to the same entry, when no link is on the way. */
  lemma RelativeNormalFindsTheSame(ns: Namespace, at: Dentry, path: string, budget: nat)
    requires Settled(ns, at) && !IsAbsolute(path)
    requires Direct(ns, at, Parse(path)).Found?
    ensures Walk(ns, at, Parse(path), true, budget) == Direct(ns, at, Parse(path))
    ensures Walk(ns, at, Parse(Normalize(path)), true, budget) == Direct(ns, at, Parse(path))
  {
    NormalComponents(path);
    DirectOfNormal(ns, at, Split(path, '/'));
    assert Direct(ns, at, [Current]) == Direct(ns, at, []);
    WalkIsDirect(ns, at, Parse(path), budget);
    WalkIsDirect(ns, at, Parse(Normalize(path)), budget);
  }

  /** The parts of a path behind the full path of an entry. */
  lemma PartsBehind(names: seq<string>, path: string)
    requires Canonical(true, names)
    ensures IsAbsolute(Render(true, names) + "/" + path)
    ensures Split(Render(true, names) + "/" + path, '/') == names + Split(path, '/')
  {
    var full := Render(true, names);
    RenderParts(true, names);
    SplitConcat(full, path, '/');
    assert (full + "/" + path)[0] == full[0];
  }

  /** Walking behind the names of an entry is walking from the entry. */
  lemma WalkBehind(ns: Namespace, cwd: Dentry, parts: seq<string>, budget: nat)
    requires Settled(ns, cwd)
    ensures Walk(ns, Top(ns), ToComponents(Names(cwd) + parts), true, budget)
         == Walk(ns, cwd, ToComponents(parts), true, budget)
  {
    NamesLeadTo(ns, cwd);
    assert ToComponents(Names(cwd) + parts) == ToComponents(Names(cwd)) + ToComponents(parts);
    DirectThenWalk(ns, Top(ns), ToComponents(Names(cwd)), ToComponents(parts), budget);
  }

  /** Behind a file there is nothing to look up, and behind a directory only what it holds. */
  lemma WhereWalksFail(ns: Namespace, at: Dentry, cs: seq<Component>, x: string, rest: seq<Component>, budget: nat)
    requires Direct(ns, at, cs).Found?
    ensures var d, r := Direct(ns, at, cs).dentry, Walk(ns, at, cs + ([Normal(x)] + rest), true, budget);
            d.ino in ns.inodes ==>
              && (ns.inodes[d.ino].File? ==> r == Failed(NotDirectory))
              && (ns.inodes[d.ino].Directory? && x !in ns.inodes[d.ino].entries ==> r == Failed(NotFound))
  {
    DirectThenWalk(ns, at, cs, [Normal(x)] + rest, budget);
  }

  /** It does not matter where the walk of an absolute path starts. */
  lemma AbsoluteIgnoresStart(ns: Namespace, at: Dentry, other: Dentry, path: string, followLast: bool, budget: nat)
    requires IsAbsolute(path)
    ensures Walk(ns, at, Parse(path), followLast, budget) == Walk(ns, other, Parse(path), followLast, budget)
  {
    assert Parse(path)[0] == Root;
  }

  /** A relative path is the path behind the full path of the current directory, links or not. */
  lemma RelativeStartsAtCwd(ns: Namespace, cwd: Dentry, other: Dentry, path: string)
    requires Settled(ns, cwd) && !IsLink(ns, Top(ns)) && !IsAbsolute(path)
    ensures VfsLookup(ns, map[], cwd, path) == VfsLookup(ns, map[], other, Render(true, Names(cwd)) + "/" + path)
  {
    var whole := Render(true, Names(cwd)) + "/" + path;
    PartsBehind(Names(cwd), path);
    RootFirst(ns, whole, MAX_SYMLINK_DEPTH);
    WalkBehind(ns, cwd, Split(path, '/'), MAX_SYMLINK_DEPTH);
    assert Parse(path) == ToComponents(Split(path, '/'));
  }

  /** On a hit, cache and walk agree exactly when the walk ends at the entry whose own path is the normal form. */
  lemma HitAgreesExactly(ns: Namespace, cache: map<string, Dentry>, cwd: Dentry, path: string)
    requires CacheSound(ns, cache) && IsAbsolute(path)
    requires Normalize(path) in cache && !IsLink(ns, cache[Normalize(path)])
    ensures var r := VfsLookup(ns, map[], cwd, path);
            VfsLookup(ns, cache, cwd, path) == r <==> r.Found? && Names(r.dentry) == Split(Normalize(path), '/')
  {
    var n := Normalize(path);
    var r := VfsLookup(ns, map[], cwd, path);
    CachedIsWalked(ns, cache, n, MAX_SYMLINK_DEPTH);
    if r.Found? {
      WalkConfirms(ns, Top(ns), Parse(path), true, MAX_SYMLINK_DEPTH);
    }
    if r.Found? && Names(r.dentry) == Split(n, '/') {
      NamesDecide(ns, r.dentry, cache[n]);
    }
  }

  /** For a path that meets no link that is: exactly when every part of it, as written, can be resolved. */
  lemma HitAgreesWhenResolvable(ns: Namespace, cache: map<string, Dentry>, cwd: Dentry, path: string)
    requires CacheSound(ns, cache) && IsAbsolute(path) && !IsLink(ns, Top(ns))
    requires Normalize(path) in cache && !IsLink(ns, cache[Normalize(path)])
    requires Direct(ns, Top(ns), ToComponents(Split(path, '/'))) != Failed(TooManySymlinks)
    ensures VfsLookup(ns, cache, cwd, path) == VfsLookup(ns, map[], cwd, path)
            <==> Direct(ns, Top(ns), ToComponents(Split(path, '/'))).Found?
  {
    var parts := Split(path, '/');
    HitAgreesExactly(ns, cache, cwd, path);
    RootFirst(ns, path, MAX_SYMLINK_DEPTH);
    WalkIsDirect(ns, Top(ns), ToComponents(parts), MAX_SYMLINK_DEPTH);
    DirectReduces(ns, parts);
    ReduceIsCanonical(true, parts);
    RenderParts(true, Reduce(true, parts));
  }

  /** Without any link: a missing name before ".." makes the walk fail where the cache answers. */
  lemma MissingNameDisagrees(a: string, x: string)
    requires Canonical(true, [a, x]) && a != x
    ensures var ns := Namespace(0, map[0 := Directory(map[x := 1]), 1 := File]);
            var cache := map[Render(true, [x]) := Child(RootOf(0), x, 1)];
            var path := "/" + Join([a, "..", x], '/');
            && NoLinks(ns) && CacheSound(ns, cache)
            && VfsLookup(ns, cache, Top(ns), path) == Found(Child(RootOf(0), x, 1))
            && VfsLookup(ns, map[], Top(ns), path) == Failed(NotFound)
  {
    var ns := Namespace(0, map[0 := Directory(map[x := 1]), 1 := File]);
    var d := Child(RootOf(0), x, 1);
    var path := "/" + Join([a, "..", x], '/');
    ParentUndoesName(a, x);
    assert [a, x][1] == x && Names(d) == [x];
    assert Confirmed(ns, RootOf(0)) && Confirmed(ns, d);
    OneCached(ns, d, x);
    RootFirst(ns, path, MAX_SYMLINK_DEPTH);
    assert LookupIn(ns, Top(ns), a) == Failed(NotFound);
  }

  /** For /l/../x with x cached, cache and walk agree exactly when the link's target lies at the top. */
  lemma LinkAndParent(ns: Namespace, cache: map<string, Dentry>, l: string, x: string, target: Dentry)
    requires Canonical(true, [l, x]) && LinkAtTop(ns, l, x, target)
    requires CacheSound(ns, cache) && Render(true, [x]) in cache && !IsLink(ns, cache[Render(true, [x])])
    ensures var path := "/" + Join([l, "..", x], '/');
            VfsLookup(ns, cache, Top(ns), path) == VfsLookup(ns, map[], Top(ns), path) <==> target.parent == Top(ns)
  {
    var path := "/" + Join([l, "..", x], '/');
    var n := Render(true, [x]);
    ParentUndoesName(l, x);
    ParentOfTarget(ns, l, x, target);
    RootFirst(ns, path, MAX_SYMLINK_DEPTH);
    assert [l, x][1] == x;
    CachedAtTop(ns, cache, x);
  }

  lemma CachedAtTop(ns: Namespace, cache: map<string, Dentry>, x: string)
    requires IsPiece(x, '/') && x != "." && x != ".."
    requires CacheSound(ns, cache) && Render(true, [x]) in cache
    ensures LookupIn(ns, Top(ns), x) == Found(cache[Render(true, [x])])
  {
    var d := cache[Render(true, [x])];
    RenderParts(true, [x]);
    RenderParts(true, Names(d));
    assert Names(d) == [x];
    assert d.Child? && Names(d)[|Names(d.parent)|] == d.name;
    assert |Names(d.parent)| == 0 && d.parent.RootOf?;
    assert Confirmed(ns, d) && Confirmed(ns, d.parent);
    assert d.name == x;
  }

  /** A cache of one confirmed entry at the top. */
  lemma OneCached(ns: Namespace, d: Dentry, x: string)
    requires Confirmed(ns, d) && Names(d) == [x] && IsPiece(x, '/') && x != "." && x != ".."
    ensures CacheSound(ns, map[Render(true, [x]) := d])
  {
  }

  /** At the top a link l to /b/l, a file x and a directory b with files l and x. */
  function LinkedSpace(l: string, x: string, b: string): Namespace {
    Namespace(0, map[0 := Directory(map[l := 1, x := 2, b := 3]), 1 := Symlink(Render(true, [b, l])), 2 := File,
                     3 := Directory(map[l := 4, x := 5]), 4 := File, 5 := File])
  }

  /** The link leads to the file l in b. */
  lemma LinkedTarget(l: string, x: string, b: string)
    requires Canonical(true, [b, l]) && l != x && x != b && b != l
    ensures Direct(LinkedSpace(l, x, b), RootOf(0), Parse(Render(true, [b, l])))
            == Found(Child(Child(RootOf(0), b, 3), l, 4))
    ensures IsAbsolute(Render(true, [b, l]))
  {
    var ns := LinkedSpace(l, x, b);
    var to := Render(true, [b, l]);
    RenderParts(true, [b, l]);
    assert [b, l][0] == b && [b, l][1] == l;
    assert Parse(to) == [Root, Normal(b), Normal(l)];
    var bDir := Child(RootOf(0), b, 3);
    assert [Root, Normal(b), Normal(l)][1..] == [Normal(b), Normal(l)] && [Normal(b), Normal(l)][1..] == [Normal(l)];
    assert Direct(ns, bDir, [Normal(l)]) == Found(Child(bDir, l, 4));
    assert Direct(ns, RootOf(0), [Normal(b), Normal(l)]) == Found(Child(bDir, l, 4));
  }

  /** For any three names there is such a namespace where cache and walk disagree. */
  lemma LinkAndParentDisagree(l: string, x: string, b: string)
    requires Canonical(true, [b, l]) && Canonical(true, [l, x]) && l != x && x != b && b != l
    ensures var ns := LinkedSpace(l, x, b);
            var cache := map[Render(true, [x]) := Child(RootOf(0), x, 2)];
            var path := "/" + Join([l, "..", x], '/');
            CacheSound(ns, cache) && VfsLookup(ns, cache, Top(ns), path) != VfsLookup(ns, map[], Top(ns), path)
  {
    var ns := LinkedSpace(l, x, b);
    var xTop := Child(RootOf(0), x, 2);
    LinkedTarget(l, x, b);
    assert LinkAtTop(ns, l, x, Child(Child(RootOf(0), b, 3), l, 4));
    assert [l, x][1] == x && Names(xTop) == [x];
    assert Confirmed(ns, RootOf(0)) && Confirmed(ns, xTop);
    OneCached(ns, xTop, x);
    LinkAndParent(ns, map[Render(true, [x]) := xTop], l, x, Child(Child(RootOf(0), b, 3), l, 4));
  }
}
