/** Advisory byte-range locks: a list of locks per file, asked, set, released and dropped at process exit. */
module FileLock {
  import opened Flat

  datatype Kind = Read | Write | Unlock

  datatype Entry = Entry(kind: Kind, start: nat, len: nat, pid: int)

  datatype FileId = FileId(dev: nat, ino: nat)

  /** Where a range ends, at the latest at the largest offset. */
  function EndOf(start: nat, len: nat): nat {
    SaturatingAdd(start, len)
  }

  predicate Overlaps(e: Entry, start: nat, len: nat) {
    !(EndOf(e.start, e.len) <= start || EndOf(start, len) <= e.start)
  }

  predicate Conflicts(e: Entry, other: Entry) {
    Overlaps(e, other.start, other.len) && e.pid != other.pid && !(e.kind.Read? && other.kind.Read?)
  }

  /** The bytes a range locks: `len` of them from `start` on, and none at or past the largest offset. */
  predicate Covers(start: nat, len: nat, b: nat) {
    start <= b < start + len && b < USIZE_MAX
  }

  predicate CoversNothing(start: nat, len: nat) {
    len == 0 || start >= USIZE_MAX
  }

  /** Both ranges lock a common byte, or one locks none and lies strictly inside the other. */
  ghost predicate Touch(start: nat, len: nat, start': nat, len': nat) {
    || (exists b: nat :: Covers(start, len, b) && Covers(start', len', b))
    || (CoversNothing(start, len) && start' < start && Covers(start', len', start))
    || (CoversNothing(start', len') && start < start' && Covers(start, len, start'))
  }

  /** For ranges that lock anything, overlapping is locking a common byte. */
  lemma OverlapIsTouch(e: Entry, start: nat, len: nat)
    ensures Overlaps(e, start, len) <==> Touch(e.start, e.len, start, len)
    ensures !CoversNothing(e.start, e.len) && !CoversNothing(start, len) ==>
              (Overlaps(e, start, len) <==> exists b: nat :: Covers(e.start, e.len, b) && Covers(start, len, b))
  {
    if Overlaps(e, start, len) && !CoversNothing(e.start, e.len) && !CoversNothing(start, len) {
      var b: nat := Max(e.start, start);
      assert Covers(e.start, e.len, b) && Covers(start, len, b);
    }
  }

  // --- Lists of locks ---

  /** Two locks of one list: of one process they do not overlap, of two they overlap only for reading. */
  predicate Compatible(a: Entry, b: Entry) {
    Overlaps(a, b.start, b.len) ==> a.pid != b.pid && a.kind.Read? && b.kind.Read?
  }

  predicate ListOk(list: seq<Entry>) {
    && (forall i | 0 <= i < |list| :: !list[i].kind.Unlock?)
    && (forall i, j | 0 <= i < j < |list| :: Compatible(list[i], list[j]))
  }

  /** Some lock of the list blocks the request. */
  predicate Blocked(list: seq<Entry>, request: Entry) {
    exists i | 0 <= i < |list| :: Conflicts(list[i], request)
  }

  /** A lock of another process touches the request, and one of the two is for writing. */
  ghost predicate Opposes(e: Entry, request: Entry) {
    && e.pid != request.pid && (e.kind.Write? || request.kind.Write?)
    && Touch(e.start, e.len, request.start, request.len)
  }

  ghost predicate Opposed(list: seq<Entry>, request: Entry) {
    exists i | 0 <= i < |list| :: Opposes(list[i], request)
  }

  /** What blocks a request: exactly the locks that oppose it. */
  lemma ConflictIsOpposition(e: Entry, request: Entry)
    requires !e.kind.Unlock? && !request.kind.Unlock?
    ensures Conflicts(e, request) <==> Opposes(e, request)
  {
    OverlapIsTouch(e, request.start, request.len);
  }

  lemma BlockedIsOpposed(list: seq<Entry>, request: Entry)
    requires ListOk(list) && !request.kind.Unlock?
    ensures Blocked(list, request) <==> Opposed(list, request)
  {
    forall i | 0 <= i < |list| ensures Conflicts(list[i], request) <==> Opposes(list[i], request) {
      ConflictIsOpposition(list[i], request);
    }
  }

  /** Reading is shared: a read request is never blocked by the read locks of other processes. */
  lemma ReadersShare(list: seq<Entry>, request: Entry)
    requires ListOk(list) && request.kind.Read? && forall i | 0 <= i < |list| :: list[i].kind.Read?
    ensures !Blocked(list, request)
  {
    BlockedIsOpposed(list, request);
  }

  /** The locks that stay when a process gives up a range. */
  function Kept(list: seq<Entry>, pid: int, start: nat, len: nat): seq<Entry> {
    if list == [] then []
    else
      var rest := Kept(list[..|list| - 1], pid, start, len);
      var e := list[|list| - 1];
      if e.pid == pid && Overlaps(e, start, len) then rest else rest + [e]
  }

  /** The locks of the other processes. */
  function Others(list: seq<Entry>, pid: int): seq<Entry> {
    if list == [] then []
    else
      var rest := Others(list[..|list| - 1], pid);
      if list[|list| - 1].pid == pid then rest else rest + [list[|list| - 1]]
  }

  /** What stays is what was there and is not given up. */
  lemma {:induction false} KeptMembers(list: seq<Entry>, pid: int, start: nat, len: nat, e: Entry)
    ensures e in Kept(list, pid, start, len) <==> e in list && !(e.pid == pid && Overlaps(e, start, len))
  {
    if list != [] {
      var last := |list| - 1;
      KeptMembers(list[..last], pid, start, len, e);
      assert list == list[..last] + [list[last]];
    }
  }

  lemma {:induction false} OthersMembers(list: seq<Entry>, pid: int, e: Entry)
    ensures e in Others(list, pid) <==> e in list && e.pid != pid
  {
    if list != [] {
      var last := |list| - 1;
      OthersMembers(list[..last], pid, e);
      assert list == list[..last] + [list[last]];
    }
  }

  /** Giving up a range goes through the list from the front, so what stays keeps its order. */
  lemma {:induction false} KeptInOrder(a: seq<Entry>, b: seq<Entry>, pid: int, start: nat, len: nat)
    ensures Kept(a + b, pid, start, len) == Kept(a, pid, start, len) + Kept(b, pid, start, len)
    decreases |b|
  {
    if b == [] {
      assert a + b == a;
    } else {
      var last := |b| - 1;
      assert (a + b)[..|a| + last] == a + b[..last] && (a + b)[|a| + last] == b[last];
      KeptInOrder(a, b[..last], pid, start, len);
    }
  }

  lemma {:induction false} OthersInOrder(a: seq<Entry>, b: seq<Entry>, pid: int)
    ensures Others(a + b, pid) == Others(a, pid) + Others(b, pid)
    decreases |b|
  {
    if b == [] {
      assert a + b == a;
    } else {
      var last := |b| - 1;
      assert (a + b)[..|a| + last] == a + b[..last] && (a + b)[|a| + last] == b[last];
      OthersInOrder(a, b[..last], pid);
    }
  }

  /** Appending a lock that fits every other one keeps a list in order. */
  lemma AppendOk(list: seq<Entry>, e: Entry)
    requires ListOk(list) && !e.kind.Unlock? && forall a | a in list :: Compatible(a, e)
    ensures ListOk(list + [e])
  {
    var more := list + [e];
    forall i, j | 0 <= i < j < |more|
      ensures Compatible(more[i], more[j])
    {
      if j == |list| {
        assert more[i] in list;
      }
    }
  }

  lemma {:induction false} KeptOk(list: seq<Entry>, pid: int, start: nat, len: nat)
    requires ListOk(list)
    ensures ListOk(Kept(list, pid, start, len))
  {
    if list != [] {
      var last := |list| - 1;
      KeptOk(list[..last], pid, start, len);
      var rest := Kept(list[..last], pid, start, len);
      forall a | a in rest
        ensures Compatible(a, list[last])
      {
        KeptMembers(list[..last], pid, start, len, a);
      }
      AppendOk(rest, list[last]);
    }
  }

  lemma {:induction false} OthersOk(list: seq<Entry>, pid: int)
    requires ListOk(list)
    ensures ListOk(Others(list, pid))
  {
    if list != [] {
      var last := |list| - 1;
      OthersOk(list[..last], pid);
      var rest := Others(list[..last], pid);
      forall a | a in rest
        ensures Compatible(a, list[last])
      {
        OthersMembers(list[..last], pid, a);
      }
      AppendOk(rest, list[last]);
    }
  }

  /** A lock that nothing blocks, put in place of its process's overlapping ones, keeps a list in order. */
  lemma GrantOk(list: seq<Entry>, e: Entry)
    requires ListOk(list) && !e.kind.Unlock? && !Blocked(list, e)
    ensures ListOk(Kept(list, e.pid, e.start, e.len) + [e])
  {
    var rest := Kept(list, e.pid, e.start, e.len);
    KeptOk(list, e.pid, e.start, e.len);
    forall a | a in rest
      ensures Compatible(a, e)
    {
      KeptMembers(list, e.pid, e.start, e.len, a);
      var i :| 0 <= i < |list| && list[i] == a;
      assert !Conflicts(list[i], e);
    }
    AppendOk(rest, e);
  }

  datatype Answer = Invalid | Free | Held(lock: Entry)

  class FileLockManager {
    var locks: map<FileId, seq<Entry>>

    constructor ()
      ensures Valid() && locks == map[]
    {
      locks := map[];
    }

    /** Every list is in order and none is empty. */
    ghost predicate Valid()
      reads this
    {
      forall f | f in locks :: locks[f] != [] && ListOk(locks[f])
    }

    function Of(f: FileId): seq<Entry>
      reads this
    {
      if f in locks then locks[f] else []
    }

    /** The position of the first lock that blocks a request, or the length of the list. */
    method FirstConflict(list: seq<Entry>, request: Entry) returns (k: nat)
      requires ListOk(list) && !request.kind.Unlock?
      ensures k <= |list| && (k < |list| ==> Opposes(list[k], request))
      ensures forall i | 0 <= i < k :: !Opposes(list[i], request)
    {
      k := 0;
      while k < |list|
        invariant k <= |list| && forall i | 0 <= i < k :: !Opposes(list[i], request)
      {
        ConflictIsOpposition(list[k], request);
        if Conflicts(list[k], request) {
          return;
        }
        k := k + 1;
      }
    }

    /** Asks for the first lock in the way of a request. */
    method TestLock(f: FileId, start: nat, len: nat, kind: Kind, pid: int) returns (r: Answer)
      requires Valid()
      ensures r == Invalid <==> kind.Unlock?
      ensures r == Free <==> !kind.Unlock? && !Opposed(Of(f), Entry(kind, start, len, pid))
      ensures r.Held? ==> exists i | 0 <= i < |Of(f)| ::
                && r.lock == Of(f)[i] && Opposes(Of(f)[i], Entry(kind, start, len, pid))
                && forall j | 0 <= j < i :: !Opposes(Of(f)[j], Entry(kind, start, len, pid))
    {
      if kind.Unlock? {
        return Invalid;
      }
      var k := FirstConflict(Of(f), Entry(kind, start, len, pid));
      r := if k < |Of(f)| then Held(Of(f)[k]) else Free;
    }

    /** The list without one process's locks in a range. */
    method Retain(list: seq<Entry>, pid: int, start: nat, len: nat) returns (kept: seq<Entry>)
      ensures kept == Kept(list, pid, start, len)
    {
      kept := [];
      for i := 0 to |list|
        invariant kept == Kept(list[..i], pid, start, len)
      {
        assert list[..i + 1][..i] == list[..i];
        if !(list[i].pid == pid && Overlaps(list[i], start, len)) {
          kept := kept + [list[i]];
        }
      }
      assert list[..|list|] == list;
    }

    /** Sets or releases a lock; a lock that is blocked changes nothing. */
    method SetLock(f: FileId, start: nat, len: nat, kind: Kind, pid: int) returns (ok: bool)
      requires Valid()
      modifies this
      ensures Valid()
      ensures ok <==> kind.Unlock? || !Opposed(old(Of(f)), Entry(kind, start, len, pid))
      ensures Of(f) == if !ok then old(Of(f))
                       else if kind.Unlock? then Kept(old(Of(f)), pid, start, len)
                       else Kept(old(Of(f)), pid, start, len) + [Entry(kind, start, len, pid)]
      ensures forall g | g != f :: Of(g) == old(Of(g))
    {
      if kind.Unlock? {
        if f in locks {
          KeptOk(locks[f], pid, start, len);
          var kept := Retain(locks[f], pid, start, len);
          locks := if kept == [] then locks - {f} else locks[f := kept];
        }
        return true;
      }
      var request := Entry(kind, start, len, pid);
      var list := Of(f);
      var k := FirstConflict(list, request);
      if k < |list| {
        return false;
      }
      BlockedIsOpposed(list, request);
      GrantOk(list, request);
      var kept := Retain(list, pid, start, len);
      locks := locks[f := kept + [request]];
      ok := true;
    }

    /** Process exit: all its locks go, and the lists that become empty. */
    method ReleaseAllLocks(pid: int)
      requires Valid()
      modifies this
      ensures Valid()
      ensures forall f :: Of(f) == Others(old(Of(f)), pid)
    {
      var before := locks;
      var files := locks.Keys;
      locks := map[];
      while files != {}
        invariant files <= before.Keys && Valid()
        invariant forall f :: Of(f) == if f in files || f !in before then [] else Others(before[f], pid)
        decreases |files|
      {
        var f :| f in files;
        OthersOk(before[f], pid);
        var rest := Without(before[f], pid);
        if rest != [] {
          locks := locks[f := rest];
        }
        files := files - {f};
      }
    }

    method Without(list: seq<Entry>, pid: int) returns (rest: seq<Entry>)
      ensures rest == Others(list, pid)
    {
      rest := [];
      for i := 0 to |list|
        invariant rest == Others(list[..i], pid)
      {
        assert list[..i + 1][..i] == list[..i];
        if list[i].pid != pid {
          rest := rest + [list[i]];
        }
      }
      assert list[..|list|] == list;
    }

    /** Asking and then setting the same request: it was free exactly when it is granted. */
    method TestThenSet(f: FileId, start: nat, len: nat, kind: Kind, pid: int) returns (r: Answer, ok: bool)
      requires Valid() && !kind.Unlock?
      modifies this
      ensures Valid() && (r == Free <==> ok)
    {
      r := TestLock(f, start, len, kind, pid);
      ok := SetLock(f, start, len, kind, pid);
    }
  }

  datatype Op = LockOp(file: FileId, start: nat, len: nat, kind: Kind, pid: int) | ExitOp(pid: int)

  /**
   * What a granted request leaves locked: the bytes of its range under the new lock, and elsewhere what the locks cover
   * that were there before, except the whole of every lock of the process that touches the range.
   */
  lemma GrantLocks(list: seq<Entry>, request: Entry, e: Entry)
    ensures e in Kept(list, request.pid, request.start, request.len) + [request] <==>
              || e == request
              || (e in list && !(e.pid == request.pid && Touch(e.start, e.len, request.start, request.len)))
  {
    KeptMembers(list, request.pid, request.start, request.len, e);
    OverlapIsTouch(e, request.start, request.len);
  }

  /** What one operation does to the list of one file. */
  function ListStep(list: seq<Entry>, f: FileId, op: Op): seq<Entry> {
    match op
    case LockOp(g, start, len, kind, pid) =>
      if g != f then list
      else if kind.Unlock? then Kept(list, pid, start, len)
      else if Blocked(list, Entry(kind, start, len, pid)) then list
      else Kept(list, pid, start, len) + [Entry(kind, start, len, pid)]
    case ExitOp(pid) => Others(list, pid)
  }

  function ListAfter(ops: seq<Op>, f: FileId): seq<Entry> {
    if ops == [] then [] else ListStep(ListAfter(ops[..|ops| - 1], f), f, ops[|ops| - 1])
  }

  /** After any operations, locks of two processes overlap only if both read, and one process's locks never overlap. */
  lemma {:induction false} ListAfterOk(ops: seq<Op>, f: FileId)
    ensures ListOk(ListAfter(ops, f))
  {
    if ops != [] {
      var list := ListAfter(ops[..|ops| - 1], f);
      ListAfterOk(ops[..|ops| - 1], f);
      match ops[|ops| - 1]
      case LockOp(_, start, len, kind, pid) =>
        KeptOk(list, pid, start, len);
        if !kind.Unlock? && !Blocked(list, Entry(kind, start, len, pid)) {
          GrantOk(list, Entry(kind, start, len, pid));
        }
      case ExitOp(pid) => OthersOk(list, pid);
    }
  }

  /** Whether an operation should be granted as the lists stand after `ops`. */
  ghost predicate Grants(ops: seq<Op>, op: Op) {
    op.ExitOp? || op.kind.Unlock? || !Opposed(ListAfter(ops, op.file), Entry(op.kind, op.start, op.len, op.pid))
  }

  /** The answers of a run. */
  ghost function Answers(ops: seq<Op>): (r: seq<bool>)
    ensures |r| == |ops|
  {
    if ops == [] then [] else Answers(ops[..|ops| - 1]) + [Grants(ops[..|ops| - 1], ops[|ops| - 1])]
  }

  /** The lists are what the operations decide. */
  ghost predicate Holds(m: FileLockManager, ops: seq<Op>)
    reads m
  {
    forall f :: m.Of(f) == ListAfter(ops, f)
  }

  method Step(m: FileLockManager, op: Op) returns (ok: bool)
    requires m.Valid()
    modifies m
    ensures m.Valid() && forall f :: m.Of(f) == ListStep(old(m.Of(f)), f, op)
    ensures op.LockOp? ==>
              (ok <==> op.kind.Unlock? || !Opposed(old(m.Of(op.file)), Entry(op.kind, op.start, op.len, op.pid)))
    ensures op.ExitOp? ==> ok
  {
    match op
    case LockOp(f, start, len, kind, pid) =>
      if !kind.Unlock? {
        BlockedIsOpposed(m.Of(f), Entry(kind, start, len, pid));
      }
      ok := m.SetLock(f, start, len, kind, pid);
    case ExitOp(pid) =>
      m.ReleaseAllLocks(pid);
      ok := true;
  }

  /** What one more operation decides. */
  lemma OneMore(ops: seq<Op>, i: nat)
    requires i < |ops|
    ensures Answers(ops[..i + 1]) == Answers(ops[..i]) + [Grants(ops[..i], ops[i])]
    ensures forall f :: ListAfter(ops[..i + 1], f) == ListStep(ListAfter(ops[..i], f), f, ops[i])
  {
    assert ops[..i + 1][..i] == ops[..i];
  }

  /** The i-th operation of a run. */
  method RunOne(m: FileLockManager, ops: seq<Op>, i: nat, granted: seq<bool>) returns (more: seq<bool>)
    requires m.Valid() && i < |ops| && Holds(m, ops[..i]) && granted == Answers(ops[..i])
    modifies m
    ensures m.Valid() && Holds(m, ops[..i + 1]) && more == Answers(ops[..i + 1])
  {
    OneMore(ops, i);
    var ok := Step(m, ops[i]);
    more := granted + [ok];
  }

  /** Any run: every list and every answer is what the operations before it decide, and no stored list is empty. */
  method Run(ops: seq<Op>) returns (m: FileLockManager, granted: seq<bool>)
    ensures m.Valid() && Holds(m, ops) && granted == Answers(ops)
    ensures forall f | f in m.locks :: m.locks[f] != [] && ListOk(m.locks[f])
  {
    m := new FileLockManager();
    granted := [];
    for i := 0 to |ops|
      invariant fresh(m) && m.Valid() && Holds(m, ops[..i]) && granted == Answers(ops[..i])
    {
      granted := RunOne(m, ops, i, granted);
    }
    assert ops[..|ops|] == ops;
  }
}
