/** Whole runs of a tmpfs: each operation against names, kinds, links and flat file contents. */
module TmpfsRun {
  import opened Flat
  import opened TmpfsData
  import opened TmpfsTree
  import opened TmpfsRename
  import opened TmpfsFs

  datatype Op =
    | MakeOp(dir: nat, name: string, kind: Kind)
    | LinkOp(dir: nat, name: string, target: nat)
    | UnlinkOp(dir: nat, name: string)
    | RmdirOp(dir: nat, name: string)
    | RenameOp(dir: nat, oldName: string, newDir: nat, newName: string)
    | ReadOp(ino: nat, off: nat, len: nat)
    | WriteOp(ino: nat, off: nat, buf: seq<byte>)
    | TruncateOp(ino: nat, size: nat)

  datatype Answer =
    | Made(made: Result<nat>)
    | Did(did: Result<()>)
    | Got(got: Result<seq<byte>>)
    | Wrote(wrote: Result<nat>)
    | Cut(cut: TruncateResult)
    | Skipped

  datatype Limits = Limits(maxPages: nat, framesPlenty: bool)

  /** The name space and the next inode number. */
  datatype State = State(space: Space, next: nat)

  /**
   * No name is put into a removed directory, no page of a file without a name comes or goes, and none past an end goes.
   */
  predicate Harmless(s: Space, op: Op) {
    match op
    case MakeOp(dir, _, _) => dir in s.nodes && (IsDir(s, dir) ==> Live(s, dir))
    case LinkOp(dir, _, target) =>
      && dir in s.nodes && target in s.nodes
      && (IsDir(s, dir) ==> Live(s, dir)) && (Live(s, target) || Present(s.nodes[target].data.pages) == 0)
    case UnlinkOp(dir, _) => dir in s.nodes
    case RmdirOp(dir, _) => dir in s.nodes
    case RenameOp(dir, _, newDir, _) => dir in s.nodes && newDir in s.nodes && (IsDir(s, newDir) ==> Live(s, newDir))
    case ReadOp(ino, _, _) => ino in s.nodes
    case WriteOp(ino, off, buf) => ino in s.nodes && (Live(s, ino) || PagesNeeded(s.nodes[ino].data, off, |buf|) == 0)
    case TruncateOp(ino, size) =>
      && ino in s.nodes && PagesLost(s.nodes[ino].data, size) == 0
      && (Live(s, ino) || PagesCut(s.nodes[ino].data, size) == 0)
  }

  // --- What each operation should answer and do ---

  function MakeStep(s: State, dir: nat, name: string, kind: Kind): (State, Result<nat>) {
    if !IsDir(s.space, dir) then (s, Err(NotDirectory))
    else if (dir, name) in s.space.names then (s, Err(AlreadyExists))
    else (State(AddNew(s.space, (dir, name), s.next, kind), s.next + 1), Ok(s.next))
  }

  function LinkStep(s: Space, dir: nat, name: string, target: nat): (Space, Result<()>) {
    if !IsDir(s, dir) then (s, Err(NotDirectory))
    else if (dir, name) in s.names then (s, Err(AlreadyExists))
    else if IsDir(s, target) || target !in s.nodes then (s, Err(PermissionDenied))
    else (AddLink(s, (dir, name), target), Ok(()))
  }

  /** Removing a name: `wantDir` tells rmdir from unlink. */
  function RemoveStep(s: Space, dir: nat, name: string, wantDir: bool): (Space, Result<()>) {
    var e := (dir, name);
    if !IsDir(s, dir) then (s, Err(NotDirectory))
    else if e !in s.names || s.names[e] !in s.nodes then (s, Err(NotFound))
    else if !wantDir && IsDir(s, s.names[e]) then (s, Err(IsDirectory))
    else if wantDir && !IsDir(s, s.names[e]) then (s, Err(NotDirectory))
    else if wantDir && !IsEmptyDir(s, s.names[e]) then (s, Err(DirectoryNotEmpty))
    else (Remove(s, e), Ok(()))
  }

  /** Only the data of one inode may differ. */
  ghost predicate OnlyData(s: Space, t: Space, ino: nat) {
    && t.names == s.names && t.nodes.Keys == s.nodes.Keys && ino in s.nodes
    && t.nodes[ino] == s.nodes[ino].(data := t.nodes[ino].data)
    && forall n | n in s.nodes && n != ino :: t.nodes[n] == s.nodes[n]
  }

  function Bytes(s: Space, ino: nat): seq<byte>
    requires ino in s.nodes
  {
    Contents(s.nodes[ino].data)
  }

  /** A write is the flat write, refused when it is asked of no file, would exceed the quota, or finds no frames. */
  ghost predicate WriteStep(s: State, limits: Limits, ino: nat, off: nat, buf: seq<byte>, r: Result<nat>, t: Space) {
    && OnlyData(s.space, t, ino)
    && var node := s.space.nodes[ino];
    && var pages := Total(s.space.nodes, s.next) + PagesNeeded(node.data, off, |buf|);
    && var fits := limits.maxPages == 0 || pages <= limits.maxPages;
    && (if node.kind != File then r == Err(IsDirectory)
        else (r == Ok(|buf|) && fits) || (r == Err(NoSpace) && (!fits || !limits.framesPlenty)))
    && Bytes(t, ino) == (if r.Err? then Bytes(s.space, ino)
                         else if buf == [] then Flat.Truncate(Bytes(s.space, ino), Max(node.data.size, off))
                         else Flat.Write(Bytes(s.space, ino), off, buf))
  }

  /** A truncation is the flat one, refused for what is no file, and stops the kernel exactly in the slicing case. */
  ghost predicate TruncateStep(s: Space, ino: nat, size: nat, r: TruncateResult, t: Space) {
    && OnlyData(s, t, ino)
    && r == (if s.nodes[ino].kind != File then Refused(IsDirectory)
             else if ShrinkPanics(s.nodes[ino].data, size) then Panicked else Done)
    && Bytes(t, ino) == if r == Done then Flat.Truncate(Bytes(s, ino), size) else Bytes(s, ino)
  }

  /** One operation: its answer and the state after it. */
  ghost predicate StepIs(s: State, limits: Limits, op: Op, a: Answer, t: State) {
    if !Harmless(s.space, op) then a == Skipped && t == s
    else
      match op
      case MakeOp(dir, name, kind) => a.Made? && (t, a.made) == MakeStep(s, dir, name, kind)
      case LinkOp(dir, name, target) =>
        t.next == s.next && a.Did? && (t.space, a.did) == LinkStep(s.space, dir, name, target)
      case UnlinkOp(dir, name) =>
        t.next == s.next && a.Did? && (t.space, a.did) == RemoveStep(s.space, dir, name, false)
      case RmdirOp(dir, name) => t.next == s.next && a.Did? && (t.space, a.did) == RemoveStep(s.space, dir, name, true)
      case RenameOp(dir, oldName, newDir, newName) =>
        && t.next == s.next && a == Did(RenameResult(s.space, dir, oldName, newDir, newName))
        && RenameStep(s.space, dir, oldName, newDir, newName, a.did, t.space)
      case ReadOp(ino, off, len) =>
        && t == s
        && a == Got(if s.space.nodes[ino].kind != File then Err(IsDirectory)
                    else Ok(Flat.Read(Bytes(s.space, ino), off, len)))
      case WriteOp(ino, off, buf) =>
        t.next == s.next && a.Wrote? && WriteStep(s, limits, ino, off, buf, a.wrote, t.space)
      case TruncateOp(ino, size) => t.next == s.next && a.Cut? && TruncateStep(s.space, ino, size, a.cut, t.space)
  }

  ghost predicate RenameStep(s: Space, dir: nat, oldName: string, newDir: nat, newName: string, r: Result<()>,
                             t: Space) {
    var from, to := (dir, oldName), (newDir, newName);
    if r.Err? || RenameIsNoop(s, dir, oldName, newDir, newName) then t == s
    else
      && from in s.names && s.names[from] in s.nodes && dir in s.nodes && newDir in s.nodes
      && (to in s.names ==> s.names[to] in s.nodes) && t == Renamed(s, from, to)
  }

  function LimitsOf(fs: Tmpfs): Limits {
    Limits(fs.maxPages, fs.framesPlenty)
  }

  ghost function StateOf(fs: Tmpfs): State
    reads fs
  {
    State(fs.S(), fs.nextIno)
  }

  /** One operation that makes a name. */
  method StepMake(fs: Tmpfs, op: Op) returns (a: Answer)
    requires fs.Valid() && Harmless(fs.S(), op) && (op.MakeOp? || op.LinkOp?)
    modifies fs
    ensures fs.Valid() && StepIs(old(StateOf(fs)), LimitsOf(fs), op, a, StateOf(fs))
  {
    match op
    case MakeOp(dir, name, kind) =>
      var r := fs.Make(dir, name, kind);
      a := Made(r);
    case LinkOp(dir, name, target) =>
      var r := fs.Link(dir, name, target);
      a := Did(r);
  }

  /** One operation that removes or moves a name. */
  method StepNames(fs: Tmpfs, op: Op) returns (a: Answer)
    requires fs.Valid() && Harmless(fs.S(), op) && (op.UnlinkOp? || op.RmdirOp? || op.RenameOp?)
    modifies fs
    ensures fs.Valid() && StepIs(old(StateOf(fs)), LimitsOf(fs), op, a, StateOf(fs))
  {
    match op
    case UnlinkOp(dir, name) =>
      var r := fs.Unlink(dir, name);
      a := Did(r);
    case RmdirOp(dir, name) =>
      var r := fs.Rmdir(dir, name);
      a := Did(r);
    case RenameOp(dir, oldName, newDir, newName) =>
      var r := fs.Rename(dir, oldName, newDir, newName);
      a := Did(r);
  }

  /** One operation on file contents. */
  method StepData(fs: Tmpfs, op: Op) returns (a: Answer)
    requires fs.Valid() && Harmless(fs.S(), op) && (op.ReadOp? || op.WriteOp? || op.TruncateOp?)
    modifies fs
    ensures fs.Valid() && StepIs(old(StateOf(fs)), LimitsOf(fs), op, a, StateOf(fs))
  {
    match op
    case ReadOp(ino, off, len) =>
      var r := fs.ReadAt(ino, off, len);
      a := Got(r);
    case WriteOp(ino, off, buf) =>
      var r := fs.WriteAt(ino, off, buf);
      a := Wrote(r);
    case TruncateOp(ino, size) =>
      var r := fs.Truncate(ino, size);
      a := Cut(r);
  }

  /** One operation on the file system. */
  method Step(fs: Tmpfs, op: Op) returns (a: Answer)
    requires fs.Valid()
    modifies fs
    ensures fs.Valid() && StepIs(old(StateOf(fs)), LimitsOf(fs), op, a, StateOf(fs))
  {
    if !Harmless(fs.S(), op) {
      a := Skipped;
    } else if op.ReadOp? || op.WriteOp? || op.TruncateOp? {
      a := StepData(fs, op);
    } else if op.MakeOp? || op.LinkOp? {
      a := StepMake(fs, op);
    } else {
      a := StepNames(fs, op);
    }
  }

  /** The directories are a tree, links are counted right, and the pages in use are within the quota. */
  ghost predicate InOrder(fs: Tmpfs)
    reads fs
  {
    && (forall n | n in fs.nodes :: fs.nodes[n].nlinks == LinkCount(fs.S(), fs.root, n))
    && (forall d | IsDir(fs.S(), d) && Linked(fs.S(), fs.root, d) :: UnderRoot(fs.S(), fs.root, d))
    && fs.usedPages == Total(fs.nodes, fs.nextIno) && (fs.maxPages != 0 ==> fs.usedPages <= fs.maxPages)
  }

  /**
   * Any run: between the states before and after each operation stands exactly what that operation should answer and
   * do, and at the end the directories are a tree and links and pages are counted right.
   */
  method Run(fs: Tmpfs, ops: seq<Op>) returns (answers: seq<Answer>, ghost states: seq<State>)
    requires fs.Valid()
    modifies fs
    ensures fs.Valid() && InOrder(fs)
    ensures |answers| == |ops| && |states| == |ops| + 1 && states[0] == old(StateOf(fs)) && states[|ops|] == StateOf(fs)
    ensures forall k | 0 <= k < |ops| :: StepIs(states[k], LimitsOf(fs), ops[k], answers[k], states[k + 1])
  {
    answers, states := [], [StateOf(fs)];
    for i := 0 to |ops|
      invariant fs.Valid()
      invariant |answers| == i && |states| == i + 1 && states[0] == old(StateOf(fs)) && states[i] == StateOf(fs)
      invariant forall k | 0 <= k < i :: StepIs(states[k], LimitsOf(fs), ops[k], answers[k], states[k + 1])
    {
      var a := Step(fs, ops[i]);
      answers, states := answers + [a], states + [StateOf(fs)];
    }
    ValidIsInOrder(fs);
  }

  lemma ValidIsInOrder(fs: Tmpfs)
    requires fs.Valid()
    ensures InOrder(fs)
  {
    var s := fs.S();
    forall n | n in s.nodes ensures s.nodes[n].nlinks == LinkCount(s, fs.root, n) {
      assert CountedAt(s, fs.root, n);
    }
    forall d | IsDir(s, d) && Linked(s, fs.root, d) ensures UnderRoot(s, fs.root, d) {
      LiveIffLinked(s, fs.root, d);
    }
  }
}
