/** Path strings: parsing, lexical normalization and splitting off the last name. */
module Path {
  import opened Pieces

  datatype Component = Root | Current | Parent | Normal(name: string)

  datatype Result<+T> = Ok(value: T) | InvalidArgument

  predicate IsAbsolute(path: string) {
    path != "" && path[0] == '/'
  }

  function ToComponent(part: string): Component {
    if part == "." then Current else if part == ".." then Parent else Normal(part)
  }

  function ToComponents(parts: seq<string>): (cs: seq<Component>)
    ensures |cs| == |parts| && forall i | 0 <= i < |cs| :: cs[i] == ToComponent(parts[i])
  {
    seq(|parts|, i requires 0 <= i < |parts| => ToComponent(parts[i]))
  }

  /** The components of a path: a leading root for an absolute one, then its non-empty parts. */
  function Parse(path: string): seq<Component> {
    (if IsAbsolute(path) then [Root] else []) + ToComponents(Split(path, '/'))
  }

  method ParsePath(path: string) returns (components: seq<Component>)
    ensures components == Parse(path)
  {
    components := [];
    if IsAbsolute(path) {
      components := components + [Root];
    }
    ghost var head := components;
    var parts := Split(path, '/');
    for i := 0 to |parts|
      invariant components == head + ToComponents(parts[..i])
    {
      components := components + [ToComponent(parts[i])];
    }
    assert parts[..|parts|] == parts;
  }

  // --- Normalization ---

  /** One part applied to the stack of names kept so far. */
  function Apply(absolute: bool, stack: seq<string>, part: string): seq<string> {
    if part == "." then stack
    else if part == ".." then
      if absolute then (if stack == [] then [] else stack[..|stack| - 1])
      else if stack == [] || stack[|stack| - 1] == ".." then stack + [".."]
      else stack[..|stack| - 1]
    else stack + [part]
  }

  /** The names left when all parts are applied, from the left. */
  function Reduce(absolute: bool, parts: seq<string>): seq<string> {
    if parts == [] then [] else Apply(absolute, Reduce(absolute, parts[..|parts| - 1]), parts[|parts| - 1])
  }

  function Render(absolute: bool, stack: seq<string>): string {
    if stack == [] then (if absolute then "/" else ".")
    else if absolute then "/" + Join(stack, '/')
    else Join(stack, '/')
  }

  function Normalize(path: string): string {
    Render(IsAbsolute(path), Reduce(IsAbsolute(path), Split(path, '/')))
  }

  lemma ReduceOneMore(absolute: bool, parts: seq<string>, k: nat)
    requires k < |parts|
    ensures Reduce(absolute, parts[..k + 1]) == Apply(absolute, Reduce(absolute, parts[..k]), parts[k])
  {
    assert parts[..k + 1][..k] == parts[..k];
  }

  /** What ".." does to the stack. */
  method GoUp(isAbsolute: bool, stack: seq<string>) returns (r: seq<string>)
    ensures r == Apply(isAbsolute, stack, "..")
  {
    if isAbsolute {
      r := if stack != [] then stack[..|stack| - 1] else stack;
    } else if stack != [] {
      r := if stack[|stack| - 1] == ".." then stack + [".."] else stack[..|stack| - 1];
    } else {
      r := stack + [".."];
    }
  }

  /** Goes through the components with an explicit stack. */
  method NormalizePath(path: string) returns (r: string)
    ensures r == Normalize(path)
  {
    var components := ParsePath(path);
    var stack: seq<string> := [];
    var isAbsolute := false;
    ghost var absolute, parts := IsAbsolute(path), Split(path, '/');
    ghost var skip := if absolute then 1 else 0;
    for i := 0 to |components|
      invariant isAbsolute == (absolute && i > 0)
      invariant i <= skip ==> stack == []
      invariant i >= skip ==> stack == Reduce(absolute, parts[..i - skip])
    {
      if i >= skip {
        ReduceOneMore(absolute, parts, i - skip);
        assert components[i] == ToComponent(parts[i - skip]);
      }
      match components[i]
      case Root => isAbsolute := true;
      case Current =>
      case Parent => stack := GoUp(isAbsolute, stack);
      case Normal(name) => stack := stack + [name];
    }
    assert parts[..|parts|] == parts;
    r := Render(isAbsolute, stack);
  }

  /** Non-empty parts other than ".", with ".." only as a run in front of a relative path. */
  predicate Canonical(absolute: bool, stack: seq<string>) {
    && (forall i | 0 <= i < |stack| :: IsPiece(stack[i], '/') && stack[i] != "." && (absolute ==> stack[i] != ".."))
    && (forall i, j | 0 <= i < j < |stack| :: stack[j] == ".." ==> stack[i] == "..")
  }

  lemma ApplyKeepsCanonical(absolute: bool, stack: seq<string>, part: string)
    requires Canonical(absolute, stack) && IsPiece(part, '/')
    ensures Canonical(absolute, Apply(absolute, stack, part))
  {
  }

  lemma {:induction false} ReduceIsCanonical(absolute: bool, parts: seq<string>)
    requires forall p | p in parts :: IsPiece(p, '/')
    ensures Canonical(absolute, Reduce(absolute, parts))
  {
    if parts != [] {
      var last := |parts| - 1;
      assert parts[last] in parts;
      ReduceIsCanonical(absolute, parts[..last]);
      ApplyKeepsCanonical(absolute, Reduce(absolute, parts[..last]), parts[last]);
    }
  }

  /** Reducing a canonical stack changes nothing. */
  lemma {:induction false} ReduceCanonical(absolute: bool, stack: seq<string>)
    requires Canonical(absolute, stack)
    ensures Reduce(absolute, stack) == stack
  {
    if stack != [] {
      var last := |stack| - 1;
      ReduceCanonical(absolute, stack[..last]);
      assert stack[..last] + [stack[last]] == stack;
    }
  }

  lemma ReduceOneBehind(base: seq<string>, parts: seq<string>)
    requires parts != []
    ensures Reduce(true, base + parts)
         == Apply(true, Reduce(true, base + parts[..|parts| - 1]), parts[|parts| - 1])
  {
    var whole, k := base + parts, |base| + |parts| - 1;
    assert whole[..k + 1] == whole;
    assert whole[..k] == base + parts[..|parts| - 1];
    ReduceOneMore(true, whole, k);
  }

  /** Parts applied after others only see what those left. */
  lemma {:induction false} ReduceAfter(a: seq<string>, b: seq<string>, rest: seq<string>)
    requires Reduce(true, a) == Reduce(true, b)
    ensures Reduce(true, a + rest) == Reduce(true, b + rest)
    decreases |rest|
  {
    if rest == [] {
      assert a + rest == a && b + rest == b;
    } else {
      ReduceOneBehind(a, rest);
      ReduceOneBehind(b, rest);
      ReduceAfter(a, b, rest[..|rest| - 1]);
    }
  }

  lemma {:induction false} NoDotKept(absolute: bool, parts: seq<string>)
    ensures "." !in Reduce(absolute, parts)
  {
    if parts != [] {
      NoDotKept(absolute, parts[..|parts| - 1]);
    }
  }

  /** One more part behind a relative beginning. */
  lemma ApplyBehind(base: seq<string>, stack: seq<string>, part: string)
    requires "." !in stack
    ensures Reduce(true, base + Apply(false, stack, part)) == Apply(true, Reduce(true, base + stack), part)
  {
    var whole := base + stack;
    if part == ".." && stack != [] && stack[|stack| - 1] != ".." {
      assert whole[..|whole| - 1] == base + stack[..|stack| - 1];
      assert stack[|stack| - 1] in stack;
    } else if part != "." {
      assert base + (stack + [part]) == whole + [part];
      assert (whole + [part])[..|whole|] == whole;
    }
  }

  /** Behind any beginning, relative parts and what is left of them mean the same. */
  lemma {:induction false} RelativeReduce(base: seq<string>, parts: seq<string>)
    ensures Reduce(true, base + Reduce(false, parts)) == Reduce(true, base + parts)
    decreases |parts|
  {
    if parts != [] {
      var last := |parts| - 1;
      RelativeReduce(base, parts[..last]);
      NoDotKept(false, parts[..last]);
      ApplyBehind(base, Reduce(false, parts[..last]), parts[last]);
      ReduceOneBehind(base, parts);
    }
  }

  lemma CanonicalPieces(absolute: bool, stack: seq<string>)
    requires Canonical(absolute, stack)
    ensures forall p | p in stack :: IsPiece(p, '/')
  {
  }

  /** The parts of a rendered canonical stack are the stack, and it is absolute exactly when it should be. */
  lemma RenderParts(absolute: bool, stack: seq<string>)
    requires Canonical(absolute, stack)
    ensures IsAbsolute(Render(absolute, stack)) == absolute
    ensures Split(Render(absolute, stack), '/') == if stack == [] && !absolute then ["."] else stack
  {
    CanonicalPieces(absolute, stack);
    if stack == [] {
      if !absolute {
        SplitFirst(".", [], '/');
        assert "." + [] == ".";
      }
    } else {
      SplitJoin(stack, '/');
      assert stack[0] in stack;
      JoinStart(stack, '/');
      assert ("/" + Join(stack, '/'))[1..] == Join(stack, '/');
    }
  }

  /** Normalizing twice is normalizing once, and the result's parts are canonical. */
  lemma NormalizeIdempotent(path: string)
    ensures Normalize(Normalize(path)) == Normalize(path)
    ensures IsAbsolute(Normalize(path)) == IsAbsolute(path)
    ensures Normalize(path) == "." || Canonical(IsAbsolute(path), Split(Normalize(path), '/'))
  {
    var absolute := IsAbsolute(path);
    var stack := Reduce(absolute, Split(path, '/'));
    ReduceIsCanonical(absolute, Split(path, '/'));
    RenderParts(absolute, stack);
    ReduceCanonical(absolute, stack);
    if stack == [] && !absolute {
      assert ["."][..0] == [];
      assert Reduce(false, ["."]) == Apply(false, Reduce(false, []), ".");
    }
  }

  // --- Splitting off the last name ---

  /** The position of the last slash. */
  function LastSlash(s: string): (k: int)
    ensures -1 <= k < |s|
    ensures k >= 0 ==> s[k] == '/'
    ensures forall i | k < i < |s| :: s[i] != '/'
  {
    if s == [] then -1 else if s[|s| - 1] == '/' then |s| - 1 else LastSlash(s[..|s| - 1])
  }

  function SplitPath(path: string): Result<(string, string)> {
    if |path| > 1 && path[|path| - 1] == '/' then InvalidArgument
    else
      var normalized := Normalize(path);
      var pos := LastSlash(normalized);
      if pos >= 0 then
        var dir := if pos == 0 then "/" else normalized[..pos];
        var file := normalized[pos + 1..];
        if file == "" then InvalidArgument else Ok((dir, file))
      else Ok((".", normalized))
  }

  /** Cutting a path at a slash and joining again leaves its parts as they are. */
  lemma RejoinAt(n: string, pos: nat)
    requires pos < |n| && n[pos] == '/'
    ensures var dir := if pos == 0 then "/" else n[..pos];
            Normalize(dir + "/" + n[pos + 1..]) == Normalize(n)
  {
    var dir := if pos == 0 then "/" else n[..pos];
    var file := n[pos + 1..];
    var joined := dir + "/" + file;
    assert n == n[..pos] + "/" + file;
    SplitConcat(n[..pos], file, '/');
    SplitConcat(dir, file, '/');
    assert Split(dir, '/') == Split(n[..pos], '/') by {
      if pos == 0 {
        assert dir[1..] == n[..pos];
      }
    }
    assert joined[0] == n[0];
  }

  /** Putting "./" in front of a relative path changes nothing. */
  lemma RejoinRelative(n: string)
    requires !IsAbsolute(n)
    ensures Normalize("." + "/" + n) == Normalize(n)
  {
    var joined := "." + "/" + n;
    SplitFirst(".", [], '/');
    assert "." + [] == ".";
    SplitConcat(".", n, '/');
    assert joined[0] == '.';
    assert Split(joined, '/') == ["."] + Split(n, '/');
    DotInFront(Split(n, '/'));
    assert Reduce(false, Split(joined, '/')) == Reduce(false, Split(n, '/'));
  }

  /** Joining the two parts again and normalizing gives the normalized original. */
  lemma SplitRejoins(path: string)
    requires SplitPath(path).Ok?
    ensures var (dir, file) := SplitPath(path).value;
            Normalize(dir + "/" + file) == Normalize(path)
  {
    var n := Normalize(path);
    var pos := LastSlash(n);
    assert Normalize(n) == n by {
      NormalizeIdempotent(path);
    }
    if pos < 0 {
      assert SplitPath(path).value == (".", n);
      RejoinRelative(n);
    } else {
      assert SplitPath(path).value == (if pos == 0 then "/" else n[..pos], n[pos + 1..]);
      RejoinAt(n, pos);
    }
  }

  /** A leading "." has no effect. */
  lemma {:induction false} DotInFront(parts: seq<string>)
    ensures Reduce(false, ["."] + parts) == Reduce(false, parts)
  {
    if parts == [] {
      assert (["."] + parts)[..0] == [];
    } else {
      var last := |parts| - 1;
      assert (["."] + parts)[..last + 1] == ["."] + parts[..last];
      DotInFront(parts[..last]);
    }
  }

  ghost predicate EndsWith(n: string, end: string) {
    |n| >= |end| && n[|n| - |end|..] == end
  }

  /** A rendered path ends with its last part. */
  lemma RenderEnds(absolute: bool, stack: seq<string>)
    requires stack != []
    ensures EndsWith(Render(absolute, stack), stack[|stack| - 1])
  {
    var end := stack[|stack| - 1];
    var before := if |stack| > 1 then Join(stack[..|stack| - 1], '/') + "/" else "";
    assert Join(stack, '/') == before + end by {
      if |stack| > 1 {
        JoinLast(stack, '/');
      }
    }
    var front := if absolute then "/" + before else before;
    assert Render(absolute, stack) == front + end;
    BehindFront(front, end);
  }

  lemma BehindFront(front: string, end: string)
    ensures EndsWith(front + end, end)
  {
  }

  /** What stands behind the last slash of a string that ends with a part is a part. */
  lemma BehindSlash(n: string, k: int, end: string)
    requires IsPiece(end, '/') && EndsWith(n, end)
    requires -1 <= k < |n| && (k >= 0 ==> n[k] == '/') && forall i | k < i < |n| :: n[i] != '/'
    ensures IsPiece(n[k + 1..], '/')
  {
    assert n[|n| - 1] == n[|n| - |end|..][|end| - 1] == end[|end| - 1];
  }

  lemma BehindLastSlash(n: string, end: string)
    requires IsPiece(end, '/') && EndsWith(n, end)
    ensures IsPiece(n[LastSlash(n) + 1..], '/')
  {
    BehindSlash(n, LastSlash(n), end);
  }

  /** When splitting succeeds the file part is one part; it fails only on a trailing slash or the root. */
  lemma SplitSucceeds(path: string)
    ensures SplitPath(path).Ok? <==> !(|path| > 1 && path[|path| - 1] == '/') && Normalize(path) != "/"
    ensures SplitPath(path).Ok? ==> IsPiece(SplitPath(path).value.1, '/')
  {
    var absolute := IsAbsolute(path);
    var stack := Reduce(absolute, Split(path, '/'));
    ReduceIsCanonical(absolute, Split(path, '/'));
    EndOfNormal(absolute, stack);
  }

  lemma EndOfNormal(absolute: bool, stack: seq<string>)
    requires Canonical(absolute, stack)
    ensures var n := Render(absolute, stack);
            if n == "/" then LastSlash(n) == 0 else IsPiece(n[LastSlash(n) + 1..], '/')
  {
    var n := Render(absolute, stack);
    if stack != [] {
      RenderEnds(absolute, stack);
      BehindLastSlash(n, stack[|stack| - 1]);
    } else if !absolute {
      BehindLastSlash(n, ".");
    }
  }
}
