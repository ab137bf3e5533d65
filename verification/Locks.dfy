/**
 * Reader-writer locks and spin locks whose guards switch interrupts off, as interleaved atomic steps of several CPUs
 * and of the interrupts that stop them. A spin lock is the case of a lock that is only ever taken for writing.
 */
module Locks {

  const WRITER_BIT: nat := 0x8000_0000
  const READER_MASK: nat := 0x7FFF_FFFF

  datatype Call = Read | Write | TryRead | TryWrite | SpinLock | TrySpinLock

  predicate IsRead(call: Call) {
    call.Read? || call.TryRead?
  }

  predicate Blocking(call: Call) {
    call.Read? || call.Write? || call.SpinLock?
  }

  datatype Op = Op(lock: nat, call: Call)

  /** Where an execution stands inside taking or dropping a guard. */
  datatype Pc =
    | Idle
    | Loaded(op: Op, nested: bool)     // the depth has been read
    | Disabled(op: Op, flags: bool)    // interrupts are off, the old flag is not yet stored
    | Saved(op: Op, nested: bool)      // the flag is stored, the depth not yet raised
    | Trying(op: Op, nested: bool)     // the interrupt guard exists
    | Seen(op: Op, nested: bool, state: nat)  // a state was read and is about to be exchanged
    | Panicked                         // the reader count would overflow
    | Leaving                          // the lock is released or was not taken; the interrupt guard is dropped next
    | Restoring                        // the depth reached zero; the flag is restored next

  /** One CPU. `entry` remembers the flag that was replaced when the first guard switched interrupts off. */
  datatype Cpu = Cpu(intr: bool, depth: nat, saved: bool, entry: bool, frames: seq<Pc>)

  datatype Guard = Guard(cpu: nat, lock: nat, read: bool, nested: bool)

  /** The last frame of a CPU is the one that runs; the ones before it were interrupted. */
  datatype State = State(cpus: seq<Cpu>, locks: seq<nat>, guards: map<nat, Guard>, next: nat)

  datatype Action =
    | Load(cpu: nat, op: Op)
    | Disable(cpu: nat)
    | Save(cpu: nat)
    | Enter(cpu: nat)
    | Observe(cpu: nat)
    | Exchange(cpu: nat, spurious: bool)
    | Drop(cpu: nat, guard: nat)
    | Leave(cpu: nat)
    | Restore(cpu: nat)
    | Interrupt(cpu: nat)
    | Return(cpu: nat)

  function Top(u: Cpu): Pc
    requires u.frames != []
  {
    u.frames[|u.frames| - 1]
  }

  function AtPc(u: Cpu, pc: Pc): Cpu
    requires u.frames != []
  {
    u.(frames := u.frames[..|u.frames| - 1] + [pc])
  }

  predicate Enabled(s: State, a: Action) {
    && a.cpu < |s.cpus| && s.cpus[a.cpu].frames != []
    && var u := s.cpus[a.cpu];
    && var pc := Top(u);
    match a
    case Load(_, op) => pc.Idle? && op.lock < |s.locks|
    case Disable(_) => pc.Loaded? && !pc.nested
    case Save(_) => pc.Disabled?
    case Enter(_) => pc.Saved? || (pc.Loaded? && pc.nested)
    case Observe(_) => pc.Trying?
    case Exchange(_, _) => pc.Seen?
    case Drop(_, g) => pc.Idle? && g in s.guards && s.guards[g].cpu == a.cpu
    case Leave(_) => pc.Leaving?
    case Restore(_) => pc.Restoring?
    case Interrupt(_) => u.intr
    case Return(_) => pc.Idle? && |u.frames| > 1 && forall g | g in s.guards :: s.guards[g].cpu != a.cpu
  }

  /** What reading the state leads to: spin, give up, panic, or try the exchange. */
  function Observed(op: Op, nested: bool, state: nat): Pc {
    match op.call
    case Read =>
      if state >= WRITER_BIT then Trying(op, nested)
      else if state == READER_MASK then Panicked
      else Seen(op, nested, state)
    case TryRead => if state >= READER_MASK then Leaving else Seen(op, nested, state)
    case Write => if state == 0 then Seen(op, nested, 0) else Trying(op, nested)
    case _ => Seen(op, nested, 0)
  }

  function ReleasedState(g: Guard, state: nat): int {
    if g.read then state - 1 else 0
  }

  /** An exchange succeeds on the state it expects; the weak one of a retry loop may also fail for no reason. */
  predicate Succeeds(s: State, c: nat, spurious: bool)
    requires Enabled(s, Exchange(c, spurious)) && Inv(s)
  {
    assert CpuOk(s, c);
    var pc := Top(s.cpus[c]);
    s.locks[pc.op.lock] == pc.state && !(spurious && Blocking(pc.op.call))
  }

  function Next(s: State, a: Action): State
    requires Enabled(s, a) && Inv(s)
  {
    var u := s.cpus[a.cpu];
    var pc := Top(u);
    assert CpuOk(s, a.cpu);
    match a
    case Load(c, op) => SetCpu(s, c, AtPc(u, Loaded(op, u.depth > 0)))
    case Disable(c) => SetCpu(s, c, AtPc(u, Disabled(pc.op, u.intr)).(intr := false, entry := u.intr))
    case Save(c) => SetCpu(s, c, AtPc(u, Saved(pc.op, false)).(saved := pc.flags))
    case Enter(c) => SetCpu(s, c, AtPc(u, Trying(pc.op, pc.nested)).(depth := u.depth + 1))
    case Observe(c) => SetCpu(s, c, AtPc(u, Observed(pc.op, pc.nested, s.locks[pc.op.lock])))
    case Exchange(c, spurious) =>
      if Succeeds(s, c, spurious) then
        var g := Guard(c, pc.op.lock, IsRead(pc.op.call), pc.nested);
        SetCpu(s, c, AtPc(u, Idle)).(
          locks := s.locks[pc.op.lock := if g.read then pc.state + 1 else WRITER_BIT],
          guards := s.guards[s.next := g],
          next := s.next + 1)
      else SetCpu(s, c, AtPc(u, if Blocking(pc.op.call) then Trying(pc.op, pc.nested) else Leaving))
    case Drop(c, id) =>
      var g := s.guards[id];
      assert LockOk(s, g.lock);
      DropIsHeld(s, id);
      SetCpu(s, c, AtPc(u, Leaving)).(
        locks := s.locks[g.lock := ReleasedState(g, s.locks[g.lock])],
        guards := s.guards - {id})
    case Leave(c) => SetCpu(s, c, AtPc(u, if u.depth == 1 then Restoring else Idle).(depth := u.depth - 1))
    case Restore(c) => SetCpu(s, c, AtPc(u, Idle).(intr := u.saved))
    case Interrupt(c) => SetCpu(s, c, u.(intr := false, frames := u.frames + [Idle]))
    case Return(c) => SetCpu(s, c, u.(intr := true, frames := u.frames[..|u.frames| - 1]))
  }

  function SetCpu(s: State, c: nat, u: Cpu): State
    requires c < |s.cpus|
  {
    s.(cpus := s.cpus[c := u])
  }

  // --- Counting guards ---

  datatype Query = OnCpu(cpu: nat) | ReadersOf(lock: nat) | WritersOf(lock: nat)

  predicate Matches(g: Guard, q: Query) {
    match q
    case OnCpu(c) => g.cpu == c
    case ReadersOf(l) => g.lock == l && g.read
    case WritersOf(l) => g.lock == l && !g.read
  }

  function Found(gs: map<nat, Guard>, q: Query): set<nat> {
    set id | id in gs && Matches(gs[id], q)
  }

  function Count(gs: map<nat, Guard>, q: Query): nat {
    |Found(gs, q)|
  }

  lemma CountAdd(gs: map<nat, Guard>, id: nat, g: Guard, q: Query)
    requires id !in gs
    ensures Count(gs[id := g], q) == Count(gs, q) + if Matches(g, q) then 1 else 0
  {
    var more := gs[id := g];
    assert Found(more, q) == if Matches(g, q) then Found(gs, q) + {id} else Found(gs, q);
  }

  lemma CountRemove(gs: map<nat, Guard>, id: nat, q: Query)
    requires id in gs
    ensures Count(gs, q) == Count(gs - {id}, q) + if Matches(gs[id], q) then 1 else 0
  {
    CountAdd(gs - {id}, id, gs[id], q);
    assert (gs - {id})[id := gs[id]] == gs;
  }

  // --- The invariant ---

  /** Either one writer and no reader, or no writer and as many readers as the state says. */
  predicate LockOk(s: State, l: nat)
    requires l < |s.locks|
  {
    var readers, writers := Count(s.guards, ReadersOf(l)), Count(s.guards, WritersOf(l));
    if s.locks[l] == WRITER_BIT then writers == 1 && readers == 0
    else s.locks[l] <= READER_MASK && writers == 0 && readers == s.locks[l]
  }

  predicate LocksExist(pc: Pc, n: nat) {
    (pc.Loaded? || pc.Disabled? || pc.Saved? || pc.Trying? || pc.Seen?) ==> pc.op.lock < n
  }

  predicate HoldsIntrGuard(pc: Pc) {
    pc.Trying? || pc.Seen? || pc.Panicked? || pc.Leaving?
  }

  predicate PcOk(u: Cpu, pc: Pc) {
    match pc
    case Loaded(_, nested) => nested == (u.depth > 0)
    case Disabled(_, flags) => u.depth == 0 && !u.intr && flags == u.entry
    case Saved(_, nested) => !nested && u.depth == 0 && !u.intr && u.saved == u.entry
    case Seen(op, _, v) => if IsRead(op.call) then v < READER_MASK else v == 0
    case Restoring => u.depth == 0 && !u.intr && u.saved == u.entry
    case _ => true
  }

  /** While a guard exists interrupts are off and the saved flag is the one from before the first guard. */
  predicate CpuOk(s: State, c: nat)
    requires c < |s.cpus|
  {
    var u := s.cpus[c];
    && u.frames != []
    && u.depth == Count(s.guards, OnCpu(c)) + (if HoldsIntrGuard(Top(u)) then 1 else 0)
    && (u.depth > 0 ==> !u.intr && u.saved == u.entry)
    && PcOk(u, Top(u))
    && (forall i | 0 <= i < |u.frames| :: LocksExist(u.frames[i], |s.locks|))
    && forall i | 0 <= i < |u.frames| - 1 :: u.frames[i].Idle? || (u.frames[i].Loaded? && !u.frames[i].nested)
  }

  predicate Inv(s: State) {
    && (forall l | 0 <= l < |s.locks| :: LockOk(s, l))
    && (forall c | 0 <= c < |s.cpus| :: CpuOk(s, c))
    && (forall g | g in s.guards :: g < s.next && s.guards[g].lock < |s.locks| && s.guards[g].cpu < |s.cpus|)
  }

  lemma DropIsHeld(s: State, id: nat)
    requires id in s.guards && s.guards[id].lock < |s.locks| && LockOk(s, s.guards[id].lock)
    ensures var g := s.guards[id];
            if g.read then 0 < s.locks[g.lock] <= READER_MASK else s.locks[g.lock] == WRITER_BIT
  {
    var g := s.guards[id];
    CountRemove(s.guards, id, ReadersOf(g.lock));
    CountRemove(s.guards, id, WritersOf(g.lock));
  }

  /** A step that leaves locks and guards alone keeps the invariant when its own CPU is right again. */
  lemma CpuStep(s: State, c: nat, u: Cpu)
    requires Inv(s) && c < |s.cpus|
    requires CpuOk(SetCpu(s, c, u), c)
    ensures Inv(SetCpu(s, c, u))
  {
    var s' := SetCpu(s, c, u);
    assert forall l | 0 <= l < |s.locks| :: LockOk(s, l) ==> LockOk(s', l);
    assert forall d | 0 <= d < |s.cpus| && d != c :: CpuOk(s, d) ==> CpuOk(s', d);
  }

  lemma AcquireKeepsInv(s: State, c: nat, spurious: bool)
    requires Inv(s) && Enabled(s, Exchange(c, spurious)) && Succeeds(s, c, spurious)
    ensures Inv(Next(s, Exchange(c, spurious)))
  {
    var s' := Next(s, Exchange(c, spurious));
    var g := s'.guards[s.next];
    assert CpuOk(s, c);
    assert LockOk(s, g.lock);
    forall l | 0 <= l < |s'.locks|
      ensures LockOk(s', l)
    {
      assert LockOk(s, l);
      CountAdd(s.guards, s.next, g, ReadersOf(l));
      CountAdd(s.guards, s.next, g, WritersOf(l));
    }
    forall d | 0 <= d < |s'.cpus|
      ensures CpuOk(s', d)
    {
      assert CpuOk(s, d);
      CountAdd(s.guards, s.next, g, OnCpu(d));
    }
  }

  lemma DropKeepsInv(s: State, c: nat, id: nat)
    requires Inv(s) && Enabled(s, Drop(c, id))
    ensures Inv(Next(s, Drop(c, id)))
  {
    var s' := Next(s, Drop(c, id));
    var g := s.guards[id];
    DropIsHeld(s, id);
    forall l | 0 <= l < |s'.locks|
      ensures LockOk(s', l)
    {
      assert LockOk(s, l);
      CountRemove(s.guards, id, ReadersOf(l));
      CountRemove(s.guards, id, WritersOf(l));
    }
    forall d | 0 <= d < |s'.cpus|
      ensures CpuOk(s', d)
    {
      assert CpuOk(s, d);
      CountRemove(s.guards, id, OnCpu(d));
    }
  }

  /** With no guard left on a CPU its depth is the one of the running frame alone. */
  lemma NoGuards(gs: map<nat, Guard>, c: nat)
    requires forall g | g in gs :: gs[g].cpu != c
    ensures Count(gs, OnCpu(c)) == 0
  {
    assert Found(gs, OnCpu(c)) == {};
  }

  /** Taking a guard, up to the exchange. */
  lemma EnteringKeepsInv(s: State, a: Action)
    requires Inv(s) && Enabled(s, a) && (a.Load? || a.Disable? || a.Save? || a.Enter?)
    ensures Inv(Next(s, a))
  {
    assert CpuOk(s, a.cpu);
    CpuStep(s, a.cpu, Next(s, a).cpus[a.cpu]);
  }

  lemma ObservingKeepsInv(s: State, c: nat)
    requires Inv(s) && Enabled(s, Observe(c))
    ensures Inv(Next(s, Observe(c)))
  {
    assert CpuOk(s, c) && LockOk(s, Top(s.cpus[c]).op.lock);
    CpuStep(s, c, Next(s, Observe(c)).cpus[c]);
  }

  lemma FailedExchangeKeepsInv(s: State, c: nat, spurious: bool)
    requires Inv(s) && Enabled(s, Exchange(c, spurious)) && !Succeeds(s, c, spurious)
    ensures Inv(Next(s, Exchange(c, spurious)))
  {
    assert CpuOk(s, c);
    CpuStep(s, c, Next(s, Exchange(c, spurious)).cpus[c]);
  }

  /** Dropping the interrupt guard, and the interrupts themselves. */
  lemma LeavingKeepsInv(s: State, a: Action)
    requires Inv(s) && Enabled(s, a) && (a.Leave? || a.Restore?)
    ensures Inv(Next(s, a))
  {
    assert CpuOk(s, a.cpu);
    CpuStep(s, a.cpu, Next(s, a).cpus[a.cpu]);
  }

  lemma InterruptKeepsInv(s: State, c: nat)
    requires Inv(s) && Enabled(s, Interrupt(c))
    ensures Inv(Next(s, Interrupt(c)))
  {
    assert CpuOk(s, c);
    CpuStep(s, c, Next(s, Interrupt(c)).cpus[c]);
  }

  lemma ReturnKeepsInv(s: State, c: nat)
    requires Inv(s) && Enabled(s, Return(c))
    ensures Inv(Next(s, Return(c)))
  {
    assert CpuOk(s, c);
    NoGuards(s.guards, c);
    CpuStep(s, c, Next(s, Return(c)).cpus[c]);
  }

  /** Every step of every CPU and every interrupt keeps the invariant. */
  lemma StepKeepsInv(s: State, a: Action)
    requires Inv(s) && Enabled(s, a)
    ensures Inv(Next(s, a))
  {
    match a
    case Observe(c) => ObservingKeepsInv(s, c);
    case Exchange(c, spurious) =>
      if Succeeds(s, c, spurious) {
        AcquireKeepsInv(s, c, spurious);
      } else {
        FailedExchangeKeepsInv(s, c, spurious);
      }
    case Drop(c, id) => DropKeepsInv(s, c, id);
    case Leave(_) => LeavingKeepsInv(s, a);
    case Restore(_) => LeavingKeepsInv(s, a);
    case Interrupt(c) => InterruptKeepsInv(s, c);
    case Return(c) => ReturnKeepsInv(s, c);
    case _ => EnteringKeepsInv(s, a);
  }

  // --- Whole runs ---

  /** Nobody has started: every lock is free, every CPU idles with its interrupts on or off. */
  predicate Init(s: State) {
    && s.guards == map[]
    && (forall l | 0 <= l < |s.locks| :: s.locks[l] == 0)
    && (forall c | 0 <= c < |s.cpus| :: s.cpus[c].depth == 0 && s.cpus[c].frames == [Idle])
  }

  lemma InitInv(s: State)
    requires Init(s)
    ensures Inv(s)
  {
    forall l | 0 <= l < |s.locks|
      ensures LockOk(s, l)
    {
      assert Found(s.guards, ReadersOf(l)) == {} && Found(s.guards, WritersOf(l)) == {};
    }
    forall c | 0 <= c < |s.cpus|
      ensures CpuOk(s, c)
    {
      NoGuards(s.guards, c);
    }
  }

  /** The states a sequence of actions leads through. */
  ghost predicate Run(states: seq<State>, actions: seq<Action>) {
    && |states| == |actions| + 1
    && forall i | 0 <= i < |actions| :: Steps(states[i], actions[i], states[i + 1])
  }

  ghost predicate Steps(s: State, a: Action, s': State) {
    Inv(s) ==> Enabled(s, a) && s' == Next(s, a)
  }

  lemma {:induction false} RunKeepsInv(states: seq<State>, actions: seq<Action>, i: nat)
    requires Run(states, actions) && Inv(states[0]) && i < |states|
    ensures Inv(states[i])
  {
    if i > 0 {
      RunKeepsInv(states, actions, i - 1);
      assert Steps(states[i - 1], actions[i - 1], states[i]);
      StepKeepsInv(states[i - 1], actions[i - 1]);
    }
  }

  /**
   * In every reachable state a write guard excludes every other guard of its lock, and no guard lives with interrupts
   * on.
   */
  lemma GuardsExclude(states: seq<State>, actions: seq<Action>, i: nat, g: nat)
    requires Run(states, actions) && Init(states[0]) && i < |states| && g in states[i].guards
    ensures Inv(states[i]) && !states[i].cpus[states[i].guards[g].cpu].intr
    ensures forall h | h in states[i].guards && h != g && states[i].guards[h].lock == states[i].guards[g].lock ::
              states[i].guards[g].read && states[i].guards[h].read
  {
    var s := states[i];
    var l := s.guards[g].lock;
    InitInv(states[0]);
    RunKeepsInv(states, actions, i);
    assert LockOk(s, l) && CpuOk(s, s.guards[g].cpu);
    CountRemove(s.guards, g, OnCpu(s.guards[g].cpu));
    CountRemove(s.guards, g, ReadersOf(l));
    CountRemove(s.guards, g, WritersOf(l));
    forall h | h in s.guards && h != g && s.guards[h].lock == l
      ensures s.guards[g].read && s.guards[h].read
    {
      CountRemove(s.guards - {g}, h, ReadersOf(l));
      CountRemove(s.guards - {g}, h, WritersOf(l));
    }
  }

  /** Between switching interrupts off for the first guard and restoring them. */
  predicate InSection(u: Cpu) {
    u.frames != [] && (u.depth > 0 || Top(u).Disabled? || Top(u).Saved? || Top(u).Restoring?)
  }

  /** Inside such a section the remembered flag stays, and only the restore ends the section. */
  lemma SectionStep(s: State, a: Action, c: nat)
    requires Inv(s) && Enabled(s, a) && c < |s.cpus| && InSection(s.cpus[c]) && a != Restore(c)
    ensures InSection(Next(s, a).cpus[c]) && Next(s, a).cpus[c].entry == s.cpus[c].entry
  {
    assert CpuOk(s, c);
    if a.cpu != c {
      assert Next(s, a).cpus[c] == s.cpus[c];
    } else if a.Return? {
      NoGuards(s.guards, c);
    }
  }

  lemma {:induction false} SectionLasts(states: seq<State>, actions: seq<Action>, c: nat, i: nat, j: nat)
    requires Run(states, actions) && Inv(states[0]) && i < j < |states| && c < |states[i].cpus|
    requires actions[i] == Disable(c) && forall k | i < k < j :: actions[k] != Restore(c)
    ensures Inv(states[j]) && c < |states[j].cpus| && InSection(states[j].cpus[c])
    ensures states[j].cpus[c].entry == states[i].cpus[c].intr
    decreases j
  {
    RunKeepsInv(states, actions, j - 1);
    RunKeepsInv(states, actions, j);
    assert Steps(states[j - 1], actions[j - 1], states[j]);
    if j - 1 > i {
      SectionLasts(states, actions, c, i, j - 1);
      SectionStep(states[j - 1], actions[j - 1], c);
    }
  }

  /** The restore at the end of a section puts back the flag from before its first guard, whatever happened between. */
  lemma LastDropRestores(states: seq<State>, actions: seq<Action>, c: nat, i: nat, j: nat)
    requires Run(states, actions) && Init(states[0]) && i < j < |actions| && c < |states[i].cpus|
    requires actions[i] == Disable(c) && actions[j] == Restore(c) && forall k | i < k < j :: actions[k] != Restore(c)
    ensures c < |states[j + 1].cpus| && states[j + 1].cpus[c].intr == states[i].cpus[c].intr
  {
    InitInv(states[0]);
    SectionLasts(states, actions, c, i, j);
    assert Steps(states[j], actions[j], states[j + 1]);
    assert CpuOk(states[j], c);
  }

  /** What a guard tells about the flag before its section. */
  function WasEnabled(s: State, g: Guard): bool
    requires g.cpu < |s.cpus|
  {
    !g.nested && s.cpus[g.cpu].saved
  }

  /** A guard that is not nested tells the flag from before the section; a nested one says no. */
  lemma WasEnabledIsEntry(s: State, g: nat)
    requires Inv(s) && g in s.guards
    ensures WasEnabled(s, s.guards[g]) == (!s.guards[g].nested && s.cpus[s.guards[g].cpu].entry)
  {
    assert CpuOk(s, s.guards[g].cpu);
    CountRemove(s.guards, g, OnCpu(s.guards[g].cpu));
  }

  // --- When a guard is given, and what a whole section leaves behind ---

  /** One undisturbed attempt: the state is read and, when that allows it, exchanged. */
  function Attempt(s: State, c: nat): State
    requires Inv(s) && Enabled(s, Observe(c))
  {
    ObservingKeepsInv(s, c);
    var t := Next(s, Observe(c));
    if Top(t.cpus[c]).Seen? then Next(t, Exchange(c, false)) else t
  }

  /** With the guard taken. */
  function Taken(s: State, c: nat): State
    requires c < |s.cpus| && s.cpus[c].frames != [] && Top(s.cpus[c]).Trying? && Top(s.cpus[c]).op.lock < |s.locks|
  {
    var pc := Top(s.cpus[c]);
    var read, l := IsRead(pc.op.call), pc.op.lock;
    SetCpu(s, c, AtPc(s.cpus[c], Idle)).(
      locks := s.locks[l := if read then s.locks[l] + 1 else WRITER_BIT],
      guards := s.guards[s.next := Guard(c, l, read, pc.nested)],
      next := s.next + 1)
  }

  /** How a call that is refused goes on. */
  function Refused(op: Op, nested: bool, state: nat): Pc {
    if op.call.Read? && state < WRITER_BIT then Panicked
    else if Blocking(op.call) then Trying(op, nested)
    else Leaving
  }

  lemma AtPcTwice(u: Cpu, a: Pc, b: Pc)
    requires u.frames != []
    ensures AtPc(AtPc(u, a), b) == AtPc(u, b) && Top(AtPc(u, a)) == a
  {
  }

  /** The lock's state allows the call. */
  predicate Allows(state: nat, call: Call) {
    if IsRead(call) then state < READER_MASK else state == 0
  }

  lemma AttemptGets(s: State, c: nat)
    requires Inv(s) && Enabled(s, Observe(c)) && Top(s.cpus[c]).op.lock < |s.locks|
    requires Allows(s.locks[Top(s.cpus[c]).op.lock], Top(s.cpus[c]).op.call)
    ensures Attempt(s, c) == Taken(s, c)
  {
    var u := s.cpus[c];
    var op, state := Top(u).op, s.locks[Top(u).op.lock];
    ObservingKeepsInv(s, c);
    AtPcTwice(u, Seen(op, Top(u).nested, state), Idle);
  }

  lemma AttemptRefused(s: State, c: nat)
    requires Inv(s) && Enabled(s, Observe(c)) && Top(s.cpus[c]).op.lock < |s.locks|
    requires !Allows(s.locks[Top(s.cpus[c]).op.lock], Top(s.cpus[c]).op.call)
    ensures var u := s.cpus[c];
            Attempt(s, c) == SetCpu(s, c, AtPc(u, Refused(Top(u).op, Top(u).nested, s.locks[Top(u).op.lock])))
  {
    var u := s.cpus[c];
    var op, state := Top(u).op, s.locks[Top(u).op.lock];
    assert LockOk(s, op.lock);
    ObservingKeepsInv(s, c);
    AtPcTwice(u, Observed(op, Top(u).nested, state), Refused(op, Top(u).nested, state));
  }

  /** An attempt takes the guard or is refused, by what the lock's state says. */
  lemma AttemptIs(s: State, c: nat)
    requires Inv(s) && Enabled(s, Observe(c)) && Top(s.cpus[c]).op.lock < |s.locks|
    ensures var u := s.cpus[c];
            var op, state := Top(u).op, s.locks[Top(u).op.lock];
            Attempt(s, c) ==
            if Allows(state, op.call) then Taken(s, c)
            else SetCpu(s, c, AtPc(u, Refused(op, Top(u).nested, state)))
  {
    if Allows(s.locks[Top(s.cpus[c]).op.lock], Top(s.cpus[c]).op.call) {
      AttemptGets(s, c);
    } else {
      AttemptRefused(s, c);
    }
  }

  /** The CPU has one guard more on the lock, and all other guards are as before. */
  predicate GainsGuard(s: State, t: State, c: nat, l: nat, read: bool) {
    && s.next !in s.guards && s.next in t.guards && t.guards - {s.next} == s.guards
    && t.guards[s.next].cpu == c && t.guards[s.next].lock == l && t.guards[s.next].read == read
  }

  lemma NoneCounted(gs: map<nat, Guard>, l: nat)
    ensures Count(gs, ReadersOf(l)) == 0 && Count(gs, WritersOf(l)) == 0 <==> forall g | g in gs :: gs[g].lock != l
  {
    forall g | g in gs && gs[g].lock == l
      ensures Count(gs, ReadersOf(l)) > 0 || Count(gs, WritersOf(l)) > 0
    {
      CountRemove(gs, g, ReadersOf(l));
      CountRemove(gs, g, WritersOf(l));
    }
    if forall g | g in gs :: gs[g].lock != l {
      assert Found(gs, ReadersOf(l)) == {} && Found(gs, WritersOf(l)) == {};
    }
  }

  /**
   * A reader gets its guard exactly when there is no writer and room for one more reader, so readers share the lock.
   * A reader that is refused spins, gives up, or panics at the largest count.
   */
  lemma ReaderSucceedsExactly(s: State, c: nat)
    requires Inv(s) && Enabled(s, Observe(c)) && IsRead(Top(s.cpus[c]).op.call)
    ensures var pc, t := Top(s.cpus[c]), Attempt(s, c);
            var writers := Count(s.guards, WritersOf(pc.op.lock));
            var readers := Count(s.guards, ReadersOf(pc.op.lock));
            && (GainsGuard(s, t, c, pc.op.lock, true) <==> writers == 0 && readers < READER_MASK)
            && (writers > 0 || readers >= READER_MASK ==>
                  && t.guards == s.guards && t.locks == s.locks
                  && Top(t.cpus[c]) == if pc.op.call.TryRead? then Leaving else if writers > 0 then pc else Panicked)
  {
    assert CpuOk(s, c) && LockOk(s, Top(s.cpus[c]).op.lock);
    AttemptIs(s, c);
  }

  /** A writer gets its guard exactly when the lock has no guard at all; refused it spins, and a try gives up. */
  lemma WriterSucceedsExactly(s: State, c: nat)
    requires Inv(s) && Enabled(s, Observe(c)) && !IsRead(Top(s.cpus[c]).op.call)
    ensures var pc, t := Top(s.cpus[c]), Attempt(s, c);
            var free := forall g | g in s.guards :: s.guards[g].lock != pc.op.lock;
            && (GainsGuard(s, t, c, pc.op.lock, false) <==> free)
            && (!free ==>
                  && t.guards == s.guards && t.locks == s.locks
                  && Top(t.cpus[c]) == if pc.op.call.TryWrite? || pc.op.call.TrySpinLock? then Leaving else pc)
  {
    assert CpuOk(s, c) && LockOk(s, Top(s.cpus[c]).op.lock);
    AttemptIs(s, c);
    NoneCounted(s.guards, Top(s.cpus[c]).op.lock);
  }

  /**
   * A blocking call never gives up: its own steps at the lock lead to its guard, to another attempt or to the panic of
   * a reader. A trying call never spins: they lead to its guard or out.
   */
  lemma BlockingNeverGivesUp(s: State, a: Action)
    requires Inv(s) && Enabled(s, a) && (a.Observe? || a.Exchange?)
    ensures var pc, t := Top(s.cpus[a.cpu]), Next(s, a);
            var pc' := Top(t.cpus[a.cpu]);
            var blocking := pc.op.call in {Call.Read, Call.Write, Call.SpinLock};
            && (pc'.Idle? ==> a.Exchange? && GainsGuard(s, t, a.cpu, pc.op.lock, IsRead(pc.op.call)))
            && (blocking ==> pc'.Idle? || pc'.Panicked? || ((pc'.Trying? || pc'.Seen?) && pc'.op == pc.op))
            && (!blocking ==> pc'.Idle? || pc'.Leaving? || (pc'.Seen? && a.Observe? && pc'.op == pc.op))
  {
    assert CpuOk(s, a.cpu);
  }

  /** The lock can give a guard for this call. */
  predicate Available(s: State, op: Op) {
    && op.lock < |s.locks| && Count(s.guards, WritersOf(op.lock)) == 0
    && if IsRead(op.call) then Count(s.guards, ReadersOf(op.lock)) < READER_MASK
       else Count(s.guards, ReadersOf(op.lock)) == 0
  }

  /** A CPU that runs its own code and could take a guard for `op`. */
  predicate Ready(s: State, c: nat, op: Op) {
    Inv(s) && c < |s.cpus| && s.cpus[c].frames != [] && Top(s.cpus[c]).Idle? && op.lock < |s.locks|
  }

  /** The first guard switches interrupts off and saves the flag. */
  function Switched(s: State, c: nat): (e: State)
    requires Inv(s) && Enabled(s, Disable(c))
    ensures Inv(e)
  {
    StepKeepsInv(s, Disable(c));
    var d := Next(s, Disable(c));
    StepKeepsInv(d, Save(c));
    var v := Next(d, Save(c));
    StepKeepsInv(v, Enter(c));
    Next(v, Enter(c))
  }

  lemma SwitchedIs(s: State, c: nat)
    requires Inv(s) && Enabled(s, Disable(c))
    ensures var u := s.cpus[c];
            Switched(s, c) == SetCpu(s, c, AtPc(u, Trying(Top(u).op, false)).(
                                     intr := false, entry := u.intr, saved := u.intr, depth := u.depth + 1))
  {
  }

  /** The undisturbed way to the interrupt guard. */
  function Entered(s: State, c: nat, op: Op): (e: State)
    requires Ready(s, c, op)
    ensures Inv(e)
  {
    StepKeepsInv(s, Load(c, op));
    var l := Next(s, Load(c, op));
    assert CpuOk(s, c);
    if s.cpus[c].depth > 0 then
      StepKeepsInv(l, Enter(c));
      Next(l, Enter(c))
    else
      Switched(l, c)
  }

  /** With the interrupt guard, and about to try the lock. */
  function Prepared(s: State, c: nat, op: Op): State
    requires Ready(s, c, op)
  {
    var u := s.cpus[c];
    var v := AtPc(u, Trying(op, u.depth > 0)).(depth := u.depth + 1);
    SetCpu(s, c, if u.depth > 0 then v else v.(intr := false, entry := u.intr, saved := u.intr))
  }

  lemma EnteredFirst(s: State, c: nat, op: Op)
    requires Ready(s, c, op) && s.cpus[c].depth == 0
    ensures Entered(s, c, op) == Prepared(s, c, op)
  {
    StepKeepsInv(s, Load(c, op));
    var u, l := s.cpus[c], Next(s, Load(c, op));
    assert l == SetCpu(s, c, AtPc(u, Loaded(op, false)));
    SwitchedIs(l, c);
    AtPcTwice(u, Loaded(op, false), Trying(op, false));
  }

  lemma EnteredAgain(s: State, c: nat, op: Op)
    requires Ready(s, c, op) && s.cpus[c].depth > 0
    ensures Entered(s, c, op) == Prepared(s, c, op)
  {
    StepKeepsInv(s, Load(c, op));
    AtPcTwice(s.cpus[c], Loaded(op, true), Trying(op, true));
  }

  lemma EnteredIsPrepared(s: State, c: nat, op: Op)
    requires Ready(s, c, op)
    ensures Entered(s, c, op) == Prepared(s, c, op) && Inv(Prepared(s, c, op))
  {
    if s.cpus[c].depth == 0 {
      EnteredFirst(s, c, op);
    } else {
      EnteredAgain(s, c, op);
    }
  }

  /** Giving the interrupt guard back: the last one of a CPU restores the flag. */
  function Left(s: State, c: nat): State
    requires Inv(s) && Enabled(s, Leave(c))
  {
    StepKeepsInv(s, Leave(c));
    var l := Next(s, Leave(c));
    if Top(l.cpus[c]).Restoring? then Next(l, Restore(c)) else l
  }

  lemma LeftIs(s: State, c: nat)
    requires Inv(s) && Enabled(s, Leave(c)) && s.cpus[c].depth > 0
    ensures var u := s.cpus[c];
            Left(s, c) == SetCpu(s, c, AtPc(u, Idle).(
                                 depth := u.depth - 1, intr := if u.depth == 1 then u.saved else u.intr))
  {
  }

  /** The undisturbed way out. */
  function Released(s: State, c: nat, g: nat): State
    requires Inv(s) && Enabled(s, Drop(c, g))
  {
    StepKeepsInv(s, Drop(c, g));
    Left(Next(s, Drop(c, g)), c)
  }

  /** An attempt takes the guard when it can be had. */
  lemma AttemptTakes(s: State, c: nat)
    requires Inv(s) && Enabled(s, Observe(c)) && Available(s, Top(s.cpus[c]).op)
    ensures Attempt(s, c) == Taken(s, c) && Inv(Taken(s, c))
  {
    assert CpuOk(s, c) && LockOk(s, Top(s.cpus[c]).op.lock);
    AttemptIs(s, c);
    ObservingKeepsInv(s, c);
    StepKeepsInv(Next(s, Observe(c)), Exchange(c, false));
  }

  /** With the guard dropped, and the flag restored if it was the last one. */
  function Dropped(s: State, c: nat, g: nat): State
    requires c < |s.cpus| && s.cpus[c].frames != [] && g in s.guards && s.guards[g].lock < |s.locks|
  {
    var guard, u := s.guards[g], s.cpus[c];
    SetCpu(s, c, AtPc(u, Idle).(depth := if u.depth > 0 then u.depth - 1 else 0,
                                intr := if u.depth == 1 then u.saved else u.intr)).(
      locks := s.locks[guard.lock := if guard.read && s.locks[guard.lock] > 0 then s.locks[guard.lock] - 1 else 0],
      guards := s.guards - {g})
  }

  lemma ReleasedIsDropped(s: State, c: nat, g: nat)
    requires Inv(s) && Enabled(s, Drop(c, g))
    ensures Released(s, c, g) == Dropped(s, c, g)
  {
    assert CpuOk(s, c);
    CountRemove(s.guards, g, OnCpu(c));
    assert LockOk(s, s.guards[g].lock);
    DropIsHeld(s, g);
    StepKeepsInv(s, Drop(c, g));
    LeftIs(Next(s, Drop(c, g)), c);
  }

  lemma IdleIsBack(u: Cpu, pc: Pc)
    requires u.frames != [] && Top(u).Idle?
    ensures AtPc(AtPc(u, pc), Idle) == u && AtPc(u, Idle) == u
  {
    assert u.frames[..|u.frames| - 1] + [Idle] == u.frames;
    assert (u.frames[..|u.frames| - 1] + [pc])[..|u.frames| - 1] == u.frames[..|u.frames| - 1];
  }

  /** The steps of a whole section: in, the guard taken, and out again. */
  lemma SectionIsSteps(s: State, c: nat, op: Op)
    requires Ready(s, c, op) && Available(s, op)
    ensures var e := Entered(s, c, op);
            && Enabled(e, Observe(c)) && e == Prepared(s, c, op) && Attempt(e, c) == Taken(e, c)
            && var t := Taken(e, c);
            && Inv(t) && Enabled(t, Drop(c, s.next)) && Released(t, c, s.next) == Dropped(t, c, s.next)
  {
    EnteredIsPrepared(s, c, op);
    var e := Prepared(s, c, op);
    AttemptTakes(e, c);
    ReleasedIsDropped(Taken(e, c), c, s.next);
  }

  /** Taking a guard that can be had: the guard is there, interrupts are off, and the CPU runs on. */
  lemma TakesGuard(s: State, c: nat, op: Op)
    requires Ready(s, c, op)
    ensures var t, u := Taken(Prepared(s, c, op), c), s.cpus[c];
            && GainsGuard(s, t, c, op.lock, IsRead(op.call))
            && t.cpus == s.cpus[c := u.(depth := u.depth + 1, intr := false, saved := t.cpus[c].saved,
                                        entry := t.cpus[c].entry)]
            && (u.depth == 0 ==> t.cpus[c].saved == u.intr)
            && t.locks == s.locks[op.lock := if IsRead(op.call) then s.locks[op.lock] + 1 else WRITER_BIT]
  {
    assert CpuOk(s, c);
    IdleIsBack(s.cpus[c], Trying(op, s.cpus[c].depth > 0));
  }

  lemma DroppedIsUndone(s: State, c: nat, op: Op)
    requires Ready(s, c, op) && Available(s, op)
    ensures var t := Taken(Prepared(s, c, op), c);
            && s.next in t.guards && c < |t.cpus| && t.cpus[c].frames != [] && op.lock < |t.locks|
            && t.guards[s.next].lock == op.lock
            && var u := Dropped(t, c, s.next);
            && u.guards == s.guards && u.locks == s.locks
            && u.cpus == s.cpus[c := s.cpus[c].(saved := u.cpus[c].saved, entry := u.cpus[c].entry)]
  {
    TakesGuard(s, c, op);
    IdleIsBack(s.cpus[c], Idle);
    assert CpuOk(s, c) && LockOk(s, op.lock);
  }

  /**
   * The steps of a whole section: the guard is there with interrupts off, and dropping it again leaves no trace, for
   * locks, guards, interrupts and depths are as before.
   */
  lemma SectionLeavesNoTrace(s: State, c: nat, op: Op)
    requires Ready(s, c, op) && Available(s, op)
    ensures var e := Entered(s, c, op);
            && Enabled(e, Observe(c))
            && var t := Attempt(e, c);
            && Inv(t) && GainsGuard(s, t, c, op.lock, IsRead(op.call)) && |t.cpus| == |s.cpus| && !t.cpus[c].intr
            && Enabled(t, Drop(c, s.next))
            && var u := Released(t, c, s.next);
            && u.guards == s.guards && u.locks == s.locks && |u.cpus| == |s.cpus|
            && u.cpus == s.cpus[c := s.cpus[c].(saved := u.cpus[c].saved, entry := u.cpus[c].entry)]
  {
    SectionIsSteps(s, c, op);
    TakesGuard(s, c, op);
    DroppedIsUndone(s, c, op);
  }

  /** An interrupt that comes and goes leaves no trace either, and can always go. */
  lemma InterruptLeavesNoTrace(s: State, c: nat)
    requires Inv(s) && Enabled(s, Interrupt(c))
    ensures var t := Next(s, Interrupt(c));
            && Inv(t) && !t.cpus[c].intr && Enabled(t, Return(c)) && Next(t, Return(c)) == s
  {
    StepKeepsInv(s, Interrupt(c));
    assert CpuOk(s, c);
    forall g | g in s.guards ensures s.guards[g].cpu != c {
      if s.guards[g].cpu == c {
        CountRemove(s.guards, g, OnCpu(c));
      }
    }
    assert (s.cpus[c].frames + [Idle])[..|s.cpus[c].frames|] == s.cpus[c].frames;
  }
}
