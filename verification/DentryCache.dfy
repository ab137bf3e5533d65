/** The entries that lookups remember: children under their directories, and every entry under its full path. */
module DentryCache {
  import opened Pieces
  import opened Path
  import opened PathWalk

  /** An entry the namespace confirms, with names that a full path can hold. */
  predicate Proper(ns: Namespace, d: Dentry) {
    Confirmed(ns, d) && Canonical(true, Names(d))
  }

  /** A component as parsing makes it: a name is neither empty nor a dot and has no slash. */
  predicate Sensible(c: Component) {
    c.Normal? ==> IsPiece(c.name, '/') && c.name != "." && c.name != ".."
  }

  predicate AllSensible(cs: seq<Component>) {
    forall i | 0 <= i < |cs| :: Sensible(cs[i])
  }

  lemma ParseIsSensible(path: string)
    ensures AllSensible(Parse(path))
  {
    var parts := Split(path, '/');
    assert forall i | 0 <= i < |parts| :: parts[i] in parts;
  }

  lemma ChildIsProper(ns: Namespace, base: Dentry, name: string)
    requires Proper(ns, base) && Sensible(Normal(name)) && LookupIn(ns, base, name).Found?
    ensures Proper(ns, LookupIn(ns, base, name).dentry)
  {
  }

  lemma ParentIsProper(ns: Namespace, d: Dentry)
    requires Proper(ns, d) && d.Child?
    ensures Proper(ns, d.parent)
  {
    assert forall i | 0 <= i < |Names(d.parent)| :: Names(d.parent)[i] == Names(d)[i];
  }

  /** The full path of an entry, collected name by name up to the root. */
  method FullPath(d: Dentry) returns (path: string)
    ensures path == Render(true, Names(d))
  {
    var components, current := [], d;
    while current.Child?
      invariant Names(current) + components == Names(d)
      decreases current
    {
      components := [current.name] + components;
      current := current.parent;
    }
    assert [] + components == components;
    path := if components == [] then "/" else "/" + Join(components, '/');
  }

  /** The path itself or one below it. */
  predicate AtOrBelow(cached: string, path: string) {
    path == "/" || cached == path || (|cached| > |path| && cached[..|path|] == path && cached[|path|] == '/')
  }

  /** Of full paths: one is at or below another exactly when its names begin with the other's. */
  lemma BelowIsPrefix(a: seq<string>, b: seq<string>)
    requires Canonical(true, a) && Canonical(true, b)
    ensures AtOrBelow(Render(true, b), Render(true, a)) <==> a <= b
  {
    RenderParts(true, a);
    RenderParts(true, b);
    if a != [] {
      if a <= b {
        PrefixIsBelow(a, b);
      } else if b != [] && AtOrBelow(Render(true, b), Render(true, a)) {
        BelowHasPrefix(a, b);
      }
    } else {
      assert Render(true, a) == "/";
    }
  }

  lemma PrefixIsBelow(a: seq<string>, b: seq<string>)
    requires a != [] && a <= b
    ensures AtOrBelow(Render(true, b), Render(true, a))
  {
    if a != b {
      var rest := b[|a|..];
      assert b == a + rest;
      JoinConcat(a, rest, '/');
      var path := Render(true, a);
      assert Render(true, b) == path + "/" + Join(rest, '/');
    } else {
      assert Render(true, b) == Render(true, a);
    }
  }

  lemma BelowHasRest(p: string, q: string) returns (rest: string)
    requires AtOrBelow(q, p) && p != "/" && p != q
    ensures q == p + "/" + rest
  {
    rest := q[|p| + 1..];
  }

  lemma BelowHasPrefix(a: seq<string>, b: seq<string>)
    requires Canonical(true, a) && Canonical(true, b) && a != []
    requires AtOrBelow(Render(true, b), Render(true, a)) && Render(true, a) != "/"
    ensures a <= b
  {
    var p, q := Render(true, a), Render(true, b);
    RenderParts(true, a);
    RenderParts(true, b);
    if p != q {
      var rest := BelowHasRest(p, q);
      SplitConcat(p, rest, '/');
    }
  }

  /** One turn of the walking loop, in terms of the components still to come. */
  lemma WalkOn(ns: Namespace, at: Dentry, components: seq<Component>, i: nat, followLast: bool, budget: nat)
    requires i < |components|
    ensures var next := ResolveComponent(ns, at, components[i]);
            var rest := components[i + 1..];
            Walk(ns, at, components[i..], followLast, budget) ==
            if next.Failed? then next
            else if !IsLink(ns, next.dentry) || (!followLast && i + 1 == |components|) then
              Walk(ns, next.dentry, rest, followLast, budget)
            else if budget == 0 then Failed(TooManySymlinks)
            else
              var target := ns.inodes[next.dentry.ino].target;
              Walk(ns, LinkStart(ns, next.dentry, target), Parse(target) + rest, followLast, budget - 1)
  {
    assert components[i..][0] == components[i] && components[i..][1..] == components[i + 1..];
  }

  class Dentries {
    const ns: Namespace
    var cache: map<string, Dentry>
    var children: map<(Dentry, string), Dentry>

    constructor (ns: Namespace)
      ensures Valid() && this.ns == ns && cache == map[]
    {
      this.ns, cache, children := ns, map[], map[];
    }

    /** Entries are under their own full paths, and children are what their directories hold. */
    ghost predicate Valid()
      reads this
    {
      CacheSound(ns, cache) && forall e | e in children :: LookupIn(ns, e.0, e.1) == Found(children[e])
    }

    /** Remembers an entry under its full path. */
    method Insert(d: Dentry)
      requires Valid() && Proper(ns, d)
      modifies this`cache
      ensures Valid() && cache == old(cache)[Render(true, Names(d)) := d]
    {
      var path := FullPath(d);
      cache := cache[path := d];
    }

    /** Forgets a path and all below it. */
    method RemoveTree(path: string)
      requires Valid()
      modifies this`cache
      ensures Valid() && cache == map p | p in old(cache) && !AtOrBelow(p, path) :: old(cache)[p]
      ensures forall names | path == Render(true, names) && Canonical(true, names) ::
                forall p | p in old(cache) :: p in cache <==> !(names <= Names(old(cache)[p]))
    {
      forall names, p | path == Render(true, names) && Canonical(true, names) && p in cache
        ensures AtOrBelow(p, path) <==> names <= Names(cache[p])
      {
        BelowIsPrefix(names, Names(cache[p]));
      }
      cache := map p | p in cache && !AtOrBelow(p, path) :: cache[p];
    }

    /** One component, from the children already known or else from the directory, which is then remembered. */
    method ResolveNext(base: Dentry, c: Component) returns (r: Walked)
      requires Valid() && Proper(ns, base) && Sensible(c)
      modifies this
      ensures Valid() && r == ResolveComponent(ns, base, c) && (r.Found? ==> Proper(ns, r.dentry))
    {
      match c
      case Root => r := Found(Top(ns));
      case Current => r := Found(base);
      case Parent =>
        if base.Child? {
          ParentIsProper(ns, base);
        }
        r := Found(if base.Child? then base.parent else base);
      case Normal(name) =>
        if (base, name) in children {
          ChildIsProper(ns, base, name);
          return Found(children[(base, name)]);
        }
        r := LookupIn(ns, base, name);
        if r.Found? {
          ChildIsProper(ns, base, name);
          var cacheable: bool := *;
          if cacheable {
            children := children[(base, name) := r.dentry];
            Insert(r.dentry);
          }
        }
    }

    /** Puts the target of a link in place of it. */
    method Follow(link: Dentry, rest: seq<Component>) returns (start: Dentry, components: seq<Component>)
      requires Proper(ns, link) && IsLink(ns, link) && AllSensible(rest)
      ensures var target := ns.inodes[link.ino].target;
              start == LinkStart(ns, link, target) && components == Parse(target) + rest
      ensures Proper(ns, start) && AllSensible(components)
    {
      var target := ns.inodes[link.ino].target;
      if link.Child? {
        ParentIsProper(ns, link);
      }
      ParseIsSensible(target);
      var targetComponents := ParsePath(target);
      start, components := LinkStart(ns, link, target), targetComponents + rest;
    }

    /** One turn of the walking loop: it fails, goes on to the next component, or follows a link. */
    method Turn(at: Dentry, components: seq<Component>, i: nat, followLast: bool, followed: nat)
      returns (next: Walked, path: seq<Component>, k: nat, links: nat)
      requires Valid() && Proper(ns, at) && AllSensible(components) && i < |components|
      requires followed <= MAX_SYMLINK_DEPTH
      modifies this
      ensures Valid() && (next.Found? ==> Proper(ns, next.dentry))
      ensures AllSensible(path) && k <= |path| && links <= MAX_SYMLINK_DEPTH
      ensures Walk(ns, at, components[i..], followLast, MAX_SYMLINK_DEPTH - followed) ==
              if next.Failed? then next else Walk(ns, next.dentry, path[k..], followLast, MAX_SYMLINK_DEPTH - links)
      ensures next == Failed(TooManySymlinks) ==> followed == MAX_SYMLINK_DEPTH
      ensures (path == components && k == i + 1 && links == followed) || (links == followed + 1 && !NoLinks(ns))
    {
      WalkOn(ns, at, components, i, followLast, MAX_SYMLINK_DEPTH - followed);
      path, k, links := components, i + 1, followed;
      next := ResolveNext(at, components[i]);
      if next.Found? && IsLink(ns, next.dentry) && (followLast || i + 1 < |components|) {
        if followed >= MAX_SYMLINK_DEPTH {
          next := Failed(TooManySymlinks);
          return;
        }
        var start;
        links, k := followed + 1, 0;
        start, path := Follow(next.dentry, components[i + 1..]);
        next := Found(start);
        assert path[0..] == path;
      }
    }

    /** The walking loop: it ends on every namespace, follows at most eight links and keeps what it remembers sound. */
    method VfsWalk(start: Dentry, path: seq<Component>, followLast: bool) returns (r: Walked, followed: nat)
      requires Valid() && Proper(ns, start) && AllSensible(path)
      modifies this
      ensures Valid() && (r.Found? ==> Proper(ns, r.dentry))
      ensures r == Walk(ns, start, path, followLast, MAX_SYMLINK_DEPTH)
      ensures followed <= MAX_SYMLINK_DEPTH
      ensures r == Failed(TooManySymlinks) ==> followed == MAX_SYMLINK_DEPTH
      ensures NoLinks(ns) ==> followed == 0
    {
      var current, components, i := start, path, 0;
      ghost var answer := Walk(ns, start, path, followLast, MAX_SYMLINK_DEPTH);
      followed := 0;
      assert components[0..] == components;
      while i < |components|
        invariant Valid() && Proper(ns, current) && 0 <= i <= |components| && AllSensible(components)
        invariant followed <= MAX_SYMLINK_DEPTH && (NoLinks(ns) ==> followed == 0)
        invariant answer == Walk(ns, current, components[i..], followLast, MAX_SYMLINK_DEPTH - followed)
        decreases MAX_SYMLINK_DEPTH - followed, |components| - i
      {
        var next, links;
        next, components, i, links := Turn(current, components, i, followLast, followed);
        if next.Failed? {
          return next, followed;
        }
        current, followed := next.dentry, links;
      }
      r := Found(current);
    }

    /** A lookup: by the full path for an absolute one, and else, or when that is a link, by walking. */
    method Lookup(cwd: Dentry, path: string) returns (r: Walked)
      requires Valid() && Proper(ns, cwd)
      modifies this
      ensures Valid() && (r.Found? ==> Proper(ns, r.dentry)) && r == VfsLookup(ns, old(cache), cwd, path)
    {
      if IsAbsolute(path) {
        var normalized := NormalizePath(path);
        if normalized in cache && !IsLink(ns, cache[normalized]) {
          return Found(cache[normalized]);
        }
      }
      ParseIsSensible(path);
      var components := ParsePath(path);
      var followed;
      r, followed := VfsWalk(if IsAbsolute(path) then Top(ns) else cwd, components, true);
    }
  }

  // --- Runs ---

  datatype Op = LookupOp(path: string) | ChdirOp(path: string) | RemoveTreeOp(path: string)

  datatype Answer = Looked(walked: Walked) | Removed

  predicate IsDirectory(ns: Namespace, d: Dentry) {
    d.ino in ns.inodes && ns.inodes[d.ino].Directory?
  }

  /** The current directory after an answer of an operation in it. */
  function CwdBehind(ns: Namespace, cwd: Dentry, op: Op, answer: Answer): Dentry {
    if op.ChdirOp? && answer.Looked? && answer.walked.Found? && IsDirectory(ns, answer.walked.dentry)
    then answer.walked.dentry else cwd
  }

  /** The current directory after some answers: what the last successful change of it found. */
  function CwdAfter(ns: Namespace, ops: seq<Op>, answers: seq<Answer>): Dentry
    requires |answers| == |ops|
  {
    if ops == [] then Top(ns)
    else
      var last := |ops| - 1;
      CwdBehind(ns, CwdAfter(ns, ops[..last], answers[..last]), ops[last], answers[last])
  }

  /** The answer of a walk without any cache: of the path itself, or, where it has "..", of its normal form. */
  predicate Walks(ns: Namespace, cwd: Dentry, path: string, r: Walked) {
    || r == VfsLookup(ns, map[], cwd, path)
    || (IsAbsolute(path) && ".." in Split(path, '/') && r.Found? && r == VfsLookup(ns, map[], cwd, Normalize(path)))
  }

  /** Whatever a sound cache holds, a lookup answers a walk. */
  lemma LookupWalks(ns: Namespace, cache: map<string, Dentry>, cwd: Dentry, path: string)
    requires CacheSound(ns, cache) && !IsLink(ns, Top(ns))
    ensures Walks(ns, cwd, path, VfsLookup(ns, cache, cwd, path))
  {
    var n := Normalize(path);
    if ".." !in Split(path, '/') {
      CacheAgreesWithoutParents(ns, cache, cwd, path);
    } else if IsAbsolute(path) && n in cache && !IsLink(ns, cache[n]) {
      CachedIsWalked(ns, cache, n, MAX_SYMLINK_DEPTH);
      RootFirst(ns, n, MAX_SYMLINK_DEPTH);
    }
  }

  predicate Answered(ns: Namespace, cwd: Dentry, op: Op, answer: Answer) {
    if op.RemoveTreeOp? then answer == Removed else answer.Looked? && Walks(ns, cwd, op.path, answer.walked)
  }

  /** Every answer of a run is a walk from the directory that was current then. */
  predicate AllAnswered(ns: Namespace, ops: seq<Op>, answers: seq<Answer>)
    requires |answers| == |ops|
  {
    if ops == [] then true
    else
      var last := |ops| - 1;
      && AllAnswered(ns, ops[..last], answers[..last])
      && Answered(ns, CwdAfter(ns, ops[..last], answers[..last]), ops[last], answers[last])
  }

  lemma AnsweredMore(ns: Namespace, ops: seq<Op>, i: nat, answers: seq<Answer>, answer: Answer)
    requires |answers| == i < |ops| && AllAnswered(ns, ops[..i], answers)
    requires Answered(ns, CwdAfter(ns, ops[..i], answers), ops[i], answer)
    ensures AllAnswered(ns, ops[..i + 1], answers + [answer])
    ensures CwdAfter(ns, ops[..i + 1], answers + [answer]) ==
            CwdBehind(ns, CwdAfter(ns, ops[..i], answers), ops[i], answer)
  {
    assert (answers + [answer])[..i] == answers && ops[..i + 1][..i] == ops[..i];
  }

  /** One operation of a run. */
  method Step(d: Dentries, cwd: Dentry, op: Op) returns (answer: Answer, cwd': Dentry)
    requires d.Valid() && Proper(d.ns, cwd) && !IsLink(d.ns, Top(d.ns))
    modifies d
    ensures d.Valid() && Proper(d.ns, cwd')
    ensures Answered(d.ns, cwd, op, answer)
    ensures cwd' == CwdBehind(d.ns, cwd, op, answer)
  {
    cwd' := cwd;
    if op.RemoveTreeOp? {
      d.RemoveTree(op.path);
      answer := Removed;
    } else {
      LookupWalks(d.ns, d.cache, cwd, op.path);
      var r := d.Lookup(cwd, op.path);
      if op.ChdirOp? && r.Found? && IsDirectory(d.ns, r.dentry) {
        cwd' := r.dentry;
      }
      answer := Looked(r);
    }
  }

  /**
   * Any run of lookups and changes of the current directory from an empty cache: everything remembered stays sound, and
   * every answer is that of a walk without a cache.
   */
  method Run(ns: Namespace, ops: seq<Op>) returns (d: Dentries, answers: seq<Answer>)
    requires !IsLink(ns, Top(ns))
    ensures d.Valid() && d.ns == ns && |answers| == |ops|
    ensures AllAnswered(ns, ops, answers)
  {
    d := new Dentries(ns);
    answers := [];
    var cwd := Top(ns);
    for i := 0 to |ops|
      invariant fresh(d) && d.Valid() && d.ns == ns && Proper(ns, cwd) && |answers| == i
      invariant cwd == CwdAfter(ns, ops[..i], answers) && AllAnswered(ns, ops[..i], answers)
    {
      var answer;
      answer, cwd := Step(d, cwd, ops[i]);
      AnsweredMore(ns, ops, i, answers, answer);
      answers := answers + [answer];
    }
    assert ops[..|ops|] == ops;
  }
}
