/** The sleeping mutex: tasks that take a short spin lock around a flag and a wait queue, step by step. */
module Mutex {

  import opened Flat

  /** Where a task stands. The phases from `InSpin` to `Queued` and from `Dropping` to `Woken` hold the spin lock. */
  datatype Pc =
    | Out
    | Wanting        // about to take the spin lock in `lock`
    | InSpin         // about to swap the flag
    | Got            // the flag was free; about to release the spin lock
    | MustSleep      // the flag was taken; about to join the queue
    | Queued         // in the queue and asleep; about to release the spin lock
    | Yielding       // gave up the processor; goes on when it is not asleep
    | Holding        // the guard exists
    | DropWanting    // the guard's drop is about to take the spin lock
    | Dropping       // about to clear the flag
    | Cleared        // about to wake the queue
    | Woken          // about to release the spin lock

  datatype State = State(pcs: seq<Pc>, locked: bool, spin: Option<nat>, queue: set<nat>, asleep: set<nat>)

  /** A task's next step, or a signal that wakes a sleeping task but leaves it in the queue. */
  datatype Action = Step(task: nat) | Signal(task: nat)

  predicate HoldsSpin(pc: Pc) {
    pc.InSpin? || pc.Got? || pc.MustSleep? || pc.Queued? || pc.Dropping? || pc.Cleared? || pc.Woken?
  }

  /** The phases in which a task owns the mutex. */
  predicate Owns(pc: Pc) {
    pc.Got? || pc.Holding? || pc.DropWanting? || pc.Dropping?
  }

  predicate Enabled(s: State, a: Action) {
    && a.task < |s.pcs|
    && match a
       case Signal(t) => t in s.asleep && s.pcs[t].Yielding?
       case Step(t) =>
         match s.pcs[t]
         case Wanting => s.spin.None?
         case DropWanting => s.spin.None?
         case Yielding => t !in s.asleep
         case _ => true
  }

  function Next(s: State, a: Action): State
    requires Enabled(s, a)
  {
    var t := a.task;
    if a.Signal? then s.(asleep := s.asleep - {t})
    else
      match s.pcs[t]
      case Out => At(s, t, Wanting)
      case Wanting => At(s, t, InSpin).(spin := Some(t))
      case InSpin => At(s, t, if s.locked then MustSleep else Got).(locked := true)
      case Got => At(s, t, Holding).(spin := None)
      case MustSleep => At(s, t, Queued).(queue := s.queue + {t}, asleep := s.asleep + {t})
      case Queued => At(s, t, Yielding).(spin := None)
      case Yielding => At(s, t, Wanting)
      case Holding => At(s, t, DropWanting)
      case DropWanting => At(s, t, Dropping).(spin := Some(t))
      case Dropping => At(s, t, Cleared).(locked := false)
      case Cleared => At(s, t, Woken).(queue := {}, asleep := s.asleep - s.queue)
      case Woken => At(s, t, Out).(spin := None)
  }

  function At(s: State, t: nat, pc: Pc): State
    requires t < |s.pcs|
  {
    s.(pcs := s.pcs[t := pc])
  }

  // --- The invariant ---

  /** Exactly the holder of the spin lock stands in a phase that holds it. */
  predicate SpinOk(s: State) {
    && (s.spin.Some? ==> s.spin.value < |s.pcs| && HoldsSpin(s.pcs[s.spin.value]))
    && forall t | 0 <= t < |s.pcs| && HoldsSpin(s.pcs[t]) :: s.spin == Some(t)
  }

  predicate OneOwner(s: State) {
    forall t, u | 0 <= t < |s.pcs| && 0 <= u < |s.pcs| && Owns(s.pcs[t]) && Owns(s.pcs[u]) :: t == u
  }

  /** The flag is set exactly when some task owns the mutex. */
  predicate FlagOk(s: State) {
    s.locked <==> exists t | 0 <= t < |s.pcs| :: Owns(s.pcs[t])
  }

  /** Tasks in the queue wait for an owner, or for the one that just cleared the flag to wake them. */
  predicate QueueOk(s: State) {
    && (s.queue != {} ==> s.locked || exists t | 0 <= t < |s.pcs| :: s.pcs[t].Cleared?)
    && s.asleep <= s.queue
    && (forall t | t in s.asleep :: t < |s.pcs| && (s.pcs[t].Queued? || s.pcs[t].Yielding?))
    && (forall t | 0 <= t < |s.pcs| && s.pcs[t].MustSleep? :: s.locked)
    && (forall t | 0 <= t < |s.pcs| && (s.pcs[t].Woken? || s.pcs[t].Cleared?) :: !s.locked)
  }

  predicate Inv(s: State) {
    SpinOk(s) && OneOwner(s) && FlagOk(s) && QueueOk(s)
  }

  lemma OwnerStays(s: State, s': State, t: nat)
    requires FlagOk(s) && t < |s.pcs| == |s'.pcs| && s'.pcs == s.pcs[t := s'.pcs[t]]
    requires Owns(s.pcs[t]) == Owns(s'.pcs[t]) && s'.locked == s.locked
    ensures FlagOk(s')
  {
    if s.locked {
      var u :| 0 <= u < |s.pcs| && Owns(s.pcs[u]);
      assert Owns(s'.pcs[u]);
    }
  }

  lemma StepKeepsFlag(s: State, a: Action)
    requires Inv(s) && Enabled(s, a)
    ensures FlagOk(Next(s, a)) && OneOwner(Next(s, a))
  {
    var s', t := Next(s, a), a.task;
    if a.Step? && s.pcs[t].InSpin? {
      if s.locked {
        OwnerStays(s, s', t);
      } else {
        assert Owns(s'.pcs[t]);
      }
    } else if a.Step? && s.pcs[t].Dropping? {
      assert Owns(s.pcs[t]);
    } else {
      OwnerStays(s, s', t);
    }
  }

  lemma StepKeepsSpin(s: State, a: Action)
    requires SpinOk(s) && Enabled(s, a)
    ensures SpinOk(Next(s, a))
  {
  }

  lemma StepKeepsQueue(s: State, a: Action)
    requires Inv(s) && Enabled(s, a)
    ensures QueueOk(Next(s, a))
  {
    var s', t := Next(s, a), a.task;
    if s'.queue != {} && !s'.locked {
      if s.pcs[t].Dropping? && a.Step? {
        assert s'.pcs[t].Cleared?;
      } else {
        var u :| 0 <= u < |s.pcs| && s.pcs[u].Cleared?;
        assert s'.pcs[u].Cleared?;
      }
    }
  }

  /** Every step and every signal keeps the invariant. */
  lemma StepKeepsInv(s: State, a: Action)
    requires Inv(s) && Enabled(s, a)
    ensures Inv(Next(s, a))
  {
    StepKeepsSpin(s, a);
    StepKeepsFlag(s, a);
    StepKeepsQueue(s, a);
  }

  // --- Whole runs ---

  predicate Init(s: State) {
    !s.locked && s.spin == None && s.queue == {} && s.asleep == {} && forall t | 0 <= t < |s.pcs| :: s.pcs[t] == Out
  }

  /** `actions` can be done one after the other from `s`. */
  predicate Possible(s: State, actions: seq<Action>)
    decreases |actions|
  {
    actions == [] || (Enabled(s, actions[0]) && Possible(Next(s, actions[0]), actions[1..]))
  }

  function After(s: State, actions: seq<Action>): State
    requires Possible(s, actions)
    decreases |actions|
  {
    if actions == [] then s else After(Next(s, actions[0]), actions[1..])
  }

  lemma {:induction false} RunKeepsInv(s: State, actions: seq<Action>)
    requires Inv(s) && Possible(s, actions)
    ensures Inv(After(s, actions))
    decreases |actions|
  {
    if actions != [] {
      StepKeepsInv(s, actions[0]);
      RunKeepsInv(Next(s, actions[0]), actions[1..]);
    }
  }

  /** A task holds the mutex's guard from the successful swap until its drop clears the flag. */
  predicate HasGuard(s: State, t: nat) {
    t < |s.pcs| && Owns(s.pcs[t])
  }

  /** In every reachable state: one guard exactly when the flag is set, and nobody sleeps on a free mutex. */
  lemma MutexSafe(s: State, actions: seq<Action>)
    requires Init(s) && Possible(s, actions)
    ensures var r := After(s, actions);
            && (r.locked <==> exists t :: HasGuard(r, t))
            && (forall t, u :: HasGuard(r, t) && HasGuard(r, u) ==> t == u)
            && (r.spin.None? && !r.locked ==> r.queue == {} && r.asleep == {})
  {
    var r := After(s, actions);
    RunKeepsInv(s, actions);
    assert r.locked ==> exists t :: HasGuard(r, t) by {
      if r.locked {
        var t :| 0 <= t < |r.pcs| && Owns(r.pcs[t]);
        assert HasGuard(r, t);
      }
    }
  }

  /** Some task can always go on, as long as one is anywhere inside. */
  lemma NoDeadlock(s: State, actions: seq<Action>, t: nat)
    requires Init(s) && Possible(s, actions) && t < |After(s, actions).pcs| && !After(s, actions).pcs[t].Out?
    ensures exists u :: Moves(After(s, actions), u)
  {
    var r := After(s, actions);
    RunKeepsInv(s, actions);
    if r.spin.Some? {
      assert Moves(r, r.spin.value);
    } else if r.locked {
      var u :| 0 <= u < |r.pcs| && Owns(r.pcs[u]);
      assert Moves(r, u);
    } else {
      assert Moves(r, t);
    }
  }

  /** A task that is inside and whose own next step can be taken. */
  predicate Moves(s: State, u: nat) {
    u < |s.pcs| && !s.pcs[u].Out? && Enabled(s, Step(u))
  }

  // --- Every task can get the mutex ---

  /** Who should step next so that task `t` gets on: the holder of the spin lock, then the owner, then `t` itself. */
  ghost function Helper(s: State, t: nat): (u: nat)
    requires Inv(s) && t < |s.pcs|
    ensures u < |s.pcs|
  {
    if s.spin.Some? then s.spin.value
    else if s.locked then
      var u :| 0 <= u < |s.pcs| && Owns(s.pcs[u]);
      u
    else t
  }

  /** How many such steps `t` is at most away from the guard. */
  ghost function Distance(s: State, t: nat): nat
    requires Inv(s) && t < |s.pcs|
  {
    var u := Helper(s, t);
    match s.pcs[u]
    case Holding => if u == t then 0 else 9
    case Got => if u == t then 1 else 10
    case InSpin => if s.locked then 14 else if u == t then 2 else 11
    case Wanting => 3
    case Out => 4
    case Yielding => 4
    case Woken => 5
    case Cleared => 6
    case Dropping => 7
    case DropWanting => 8
    case Queued => 12
    case MustSleep => 13
  }

  /** The helper can always step, and that brings `t` nearer. */
  lemma HelperHelps(s: State, t: nat)
    requires Inv(s) && t < |s.pcs| && !s.pcs[t].Holding?
    ensures var a := Step(Helper(s, t));
            Enabled(s, a) && Inv(Next(s, a)) && Distance(Next(s, a), t) < Distance(s, t)
  {
    var u := Helper(s, t);
    assert s.spin.None? && !s.locked ==> s.asleep == {};
    StepKeepsInv(s, Step(u));
    var s' := Next(s, Step(u));
    if s'.spin.None? && s'.locked {
      var o := Helper(s', t);
      assert Owns(s'.pcs[o]);
    }
  }

  /** From every state that can be reached, every task can still get the mutex. */
  lemma {:induction false} CanGetMutex(s: State, t: nat) returns (actions: seq<Action>)
    requires Inv(s) && t < |s.pcs|
    ensures Possible(s, actions) && t < |After(s, actions).pcs| && After(s, actions).pcs[t].Holding?
    decreases Distance(s, t)
  {
    actions := [];
    if !s.pcs[t].Holding? {
      HelperHelps(s, t);
      var a := Step(Helper(s, t));
      var rest := CanGetMutex(Next(s, a), t);
      actions := [a] + rest;
      assert actions[1..] == rest;
    }
  }

  /** A signal wakes exactly its task, which can then go on; it still stands in the queue. */
  lemma SignalWakes(s: State, t: nat)
    requires Enabled(s, Signal(t))
    ensures var s' := Next(s, Signal(t));
            && t !in s'.asleep && Enabled(s', Step(t)) && s'.queue == s.queue
            && forall u | u != t :: u in s'.asleep <==> u in s.asleep
  {
  }

  lemma StepFirst(s: State, a: Action, rest: seq<Action>)
    requires Enabled(s, a) && Possible(Next(s, a), rest)
    ensures Possible(s, [a] + rest) && After(s, [a] + rest) == After(Next(s, a), rest)
  {
    assert ([a] + rest)[1..] == rest;
  }

  /** An owner that steps alone gives the mutex back and wakes everybody who waits for it. */
  lemma DropWakesAll(s: State, t: nat)
    requires Inv(s) && t < |s.pcs| && s.pcs[t].Holding? && s.spin.None?
    ensures var steps := [Step(t), Step(t), Step(t), Step(t), Step(t)];
            && Possible(s, steps)
            && After(s, steps) == s.(pcs := s.pcs[t := Out], locked := false, queue := {}, asleep := {})
  {
    var a := Step(t);
    var s1 := Next(s, a);
    var s2 := Next(s1, a);
    var s3 := Next(s2, a);
    var s4 := Next(s3, a);
    var s5 := Next(s4, a);
    StepKeepsInv(s, a);
    assert s.asleep - s.queue == {};
    assert s5.pcs == s.pcs[t := Out];
    StepFirst(s4, a, []);
    StepFirst(s3, a, [a]);
    StepFirst(s2, a, [a, a]);
    StepFirst(s1, a, [a, a, a]);
    StepFirst(s, a, [a, a, a, a]);
  }

  /** A task that steps alone gets a free mutex, and goes to sleep in the queue of a taken one. */
  lemma LockTakesOrSleeps(s: State, t: nat)
    requires Inv(s) && t < |s.pcs| && s.pcs[t].Wanting? && s.spin.None?
    ensures var steps := [Step(t), Step(t), Step(t)];
            !s.locked ==> Possible(s, steps) && After(s, steps) == s.(pcs := s.pcs[t := Holding], locked := true)
    ensures var steps := [Step(t), Step(t), Step(t), Step(t)];
            s.locked ==>
              && Possible(s, steps)
              && After(s, steps) == s.(pcs := s.pcs[t := Yielding], queue := s.queue + {t}, asleep := s.asleep + {t})
  {
    var a := Step(t);
    var s1 := Next(s, a);
    var s2 := Next(s1, a);
    var s3 := Next(s2, a);
    if s.locked {
      var s4 := Next(s3, a);
      assert s4.pcs == s.pcs[t := Yielding];
      StepFirst(s3, a, []);
      StepFirst(s2, a, [a]);
      StepFirst(s1, a, [a, a]);
      StepFirst(s, a, [a, a, a]);
    } else {
      assert s3.pcs == s.pcs[t := Holding];
      StepFirst(s2, a, []);
      StepFirst(s1, a, [a]);
      StepFirst(s, a, [a, a]);
    }
  }
}
