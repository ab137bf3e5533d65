/** Whole runs on a connected pair of stream sockets, against a pair of byte queues. */
module UnixStreamRun {
  import opened Flat
  import opened UnixStream

  datatype Op =
    | ReadOp(side: Side, n: nat)
    | WriteOp(side: Side, buf: seq<byte>)
    | ShutdownOp(side: Side, how: int)
    | CloseOp(side: Side)

  /** What a call answered; nothing is left to answer on an end that was dropped. */
  datatype Answer = Got(outcome: Outcome) | Put(sent: Sent) | Shut(ok: bool) | Dropped | Gone

  /** One end: the queue it writes, its closed and shutdown flags, and whether its socket still exists. */
  datatype End = End(out: seq<byte>, closedRead: bool, closedWrite: bool, shutRead: bool, shutWrite: bool, open: bool)

  datatype Pair = Pair(a: End, b: End)

  function Of(p: Pair, s: Side): End {
    if s.A? then p.a else p.b
  }

  function With(p: Pair, s: Side, e: End): Pair {
    if s.A? then p.(a := e) else p.(b := e)
  }

  function ReadAnswer(p: Pair, s: Side, n: nat): Outcome {
    var e, from := Of(p, s), Of(p, Peer(s));
    if e.shutRead || e.closedRead then Ok([])
    else if from.out != [] then Ok(from.out[..Min(n, |from.out|)])
    else if from.closedWrite then Ok([])
    else WouldBlock
  }

  function WriteAnswer(p: Pair, s: Side, buf: seq<byte>): Sent {
    var e := Of(p, s);
    if e.shutWrite || e.closedWrite || Of(p, Peer(s)).closedRead then BrokenPipe
    else if |e.out| >= CAPACITY then Full
    else Accepted(Min(|buf|, CAPACITY - |e.out|))
  }

  function Next(p: Pair, op: Op): (Pair, Answer) {
    var s := op.side;
    var e := Of(p, s);
    if !e.open then (p, Gone)
    else
      match op
      case ReadOp(_, n) =>
        var r := ReadAnswer(p, s, n);
        var from := Of(p, Peer(s));
        (if r.Ok? then With(p, Peer(s), from.(out := from.out[Min(|r.bytes|, |from.out|)..])) else p, Got(r))
      case WriteOp(_, buf) =>
        var r := WriteAnswer(p, s, buf);
        (With(p, s, e.(out := e.out + Taken(buf, r))), Put(r))
      case ShutdownOp(_, how) =>
        var r, w := how == 0 || how == 2, how == 1 || how == 2;
        (With(p, s, e.(closedRead := e.closedRead || r, shutRead := e.shutRead || r,
                       closedWrite := e.closedWrite || w, shutWrite := e.shutWrite || w)), Shut(0 <= how <= 2))
      case CloseOp(_) => (With(p, s, e.(closedRead := true, closedWrite := true, open := false)), Dropped)
  }

  function After(p: Pair, ops: seq<Op>): Pair {
    if ops == [] then p else Next(After(p, ops[..|ops| - 1]), ops[|ops| - 1]).0
  }

  function Answers(p: Pair, ops: seq<Op>): (r: seq<Answer>)
    ensures |r| == |ops|
  {
    if ops == [] then []
    else Answers(p, ops[..|ops| - 1]) + [Next(After(p, ops[..|ops| - 1]), ops[|ops| - 1]).1]
  }

  // --- What the calls answered, added up ---

  /** The bytes one answered call took in from an end. */
  function TakenIn(op: Op, answer: Answer, s: Side): seq<byte> {
    if op.WriteOp? && op.side == s && answer.Put? then Taken(op.buf, answer.sent) else []
  }

  /** The bytes one answered call gave to an end. */
  function GivenOut(op: Op, answer: Answer, s: Side): seq<byte> {
    if op.ReadOp? && op.side == s && answer.Got? && answer.outcome.Ok? then answer.outcome.bytes else []
  }

  function AcceptedFrom(ops: seq<Op>, answers: seq<Answer>, s: Side): seq<byte>
    requires |ops| == |answers|
  {
    if ops == [] then []
    else
      var last := |ops| - 1;
      AcceptedFrom(ops[..last], answers[..last], s) + TakenIn(ops[last], answers[last], s)
  }

  function DeliveredTo(ops: seq<Op>, answers: seq<Answer>, s: Side): seq<byte>
    requires |ops| == |answers|
  {
    if ops == [] then []
    else
      var last := |ops| - 1;
      DeliveredTo(ops[..last], answers[..last], s) + GivenOut(ops[last], answers[last], s)
  }

  lemma StepConserves(p: Pair, op: Op, s: Side)
    ensures var (after, answer) := Next(p, op);
            Of(p, s).out + TakenIn(op, answer, s) == GivenOut(op, answer, Peer(s)) + Of(after, s).out
  {
    var (after, answer) := Next(p, op);
    if op.ReadOp? && Of(p, op.side).open {
      var r, from := ReadAnswer(p, op.side, op.n), Of(p, Peer(op.side));
      if r.Ok? {
        assert r.bytes <= from.out;
        assert r.bytes + from.out[|r.bytes|..] == from.out;
      }
    }
  }

  lemma Regroup(queue: seq<byte>, acc: seq<byte>, got: seq<byte>, mid: seq<byte>, took: seq<byte>, gave: seq<byte>,
                end: seq<byte>)
    requires queue + acc == got + mid && mid + took == gave + end
    ensures queue + (acc + took) == (got + gave) + end
  {
    assert queue + (acc + took) == (queue + acc) + took;
    assert (got + mid) + took == got + (mid + took);
    assert got + (gave + end) == (got + gave) + end;
  }

  /** In each direction the bytes accepted are the bytes delivered followed by the bytes queued. */
  lemma {:induction false} Conserved(p: Pair, ops: seq<Op>, s: Side)
    ensures Of(p, s).out + AcceptedFrom(ops, Answers(p, ops), s)
         == DeliveredTo(ops, Answers(p, ops), Peer(s)) + Of(After(p, ops), s).out
  {
    var answers := Answers(p, ops);
    if ops != [] {
      var last := |ops| - 1;
      var mid := After(p, ops[..last]);
      assert answers[..last] == Answers(p, ops[..last]) && answers[last] == Next(mid, ops[last]).1;
      Conserved(p, ops[..last], s);
      StepConserves(mid, ops[last], s);
      var took, gave := TakenIn(ops[last], answers[last], s), GivenOut(ops[last], answers[last], Peer(s));
      var acc, got := AcceptedFrom(ops[..last], answers[..last], s), DeliveredTo(ops[..last], answers[..last], Peer(s));
      Regroup(Of(p, s).out, acc, got, Of(mid, s).out, took, gave, Of(After(p, ops), s).out);
    }
  }

  /** No queue ever exceeds its capacity. */
  lemma {:induction false} WithinCapacity(p: Pair, ops: seq<Op>, s: Side)
    requires forall t: Side :: |Of(p, t).out| <= CAPACITY
    ensures |Of(After(p, ops), s).out| <= CAPACITY
  {
    if ops != [] {
      WithinCapacity(p, ops[..|ops| - 1], s);
    }
  }

  /** A closed writer stays closed and adds nothing. */
  lemma ClosedAddsNothing(p: Pair, op: Op, s: Side)
    requires Of(p, s).closedWrite
    ensures Of(Next(p, op).0, s).closedWrite && TakenIn(op, Next(p, op).1, s) == []
  {
  }

  /** Once an end has closed writing, nothing more is accepted from it. */
  lemma {:induction false} AcceptedStops(p: Pair, ops: seq<Op>, k: nat, s: Side)
    requires k <= |ops| && Of(After(p, ops[..k]), s).closedWrite
    ensures Of(After(p, ops), s).closedWrite
    ensures AcceptedFrom(ops, Answers(p, ops), s) == AcceptedFrom(ops[..k], Answers(p, ops[..k]), s)
    decreases |ops|
  {
    if k == |ops| {
      assert ops[..k] == ops;
    } else {
      var last := |ops| - 1;
      var init, answers := ops[..last], Answers(p, ops);
      assert init[..k] == ops[..k];
      AcceptedStops(p, init, k, s);
      ClosedAddsNothing(After(p, init), ops[last], s);
      assert answers[..last] == Answers(p, init);
      assert AcceptedFrom(ops, answers, s) == AcceptedFrom(init, Answers(p, init), s) + [];
    }
  }

  lemma {:induction false} AnswerAt(p: Pair, ops: seq<Op>, k: nat)
    requires k < |ops|
    ensures Answers(p, ops)[k] == Next(After(p, ops[..k]), ops[k]).1
    decreases |ops|
  {
    var last := |ops| - 1;
    if k < last {
      AnswerAt(p, ops[..last], k);
      assert ops[..last][..k] == ops[..k];
    }
  }

  /**
   * An open reader that asks for something gets end of file only when the peer has closed writing and every byte that
   * is accepted in the whole run, before or after, has been delivered already.
   */
  lemma {:induction false} EndOfFileIsTheEnd(p: Pair, ops: seq<Op>, k: nat, s: Side, n: nat)
    requires k < |ops| && ops[k] == ReadOp(s, n) && n > 0 && Answers(p, ops)[k] == Got(Ok([]))
    requires !Of(After(p, ops[..k]), s).shutRead && !Of(After(p, ops[..k]), s).closedRead
    ensures Of(After(p, ops[..k]), Peer(s)).closedWrite
    ensures Of(p, Peer(s)).out + AcceptedFrom(ops, Answers(p, ops), Peer(s))
            == DeliveredTo(ops[..k], Answers(p, ops[..k]), s)
  {
    AnswerAt(p, ops, k);
    var mid := After(p, ops[..k]);
    assert Of(mid, Peer(s)).out == [] && Of(mid, Peer(s)).closedWrite;
    AcceptedStops(p, ops, k, Peer(s));
    Conserved(p, ops[..k], Peer(s));
    var got := DeliveredTo(ops[..k], Answers(p, ops[..k]), s);
    assert got + [] == got;
  }

  // --- The sockets do the same ---

  /** The two sockets of one connection and what is left of them. */
  ghost function Ends(conn: Connection, a: Socket, b: Socket, openA: bool, openB: bool): Pair
    reads conn, a, b
  {
    Pair(End(conn.From(A), conn.ReadClosed(A), conn.WriteClosed(A), a.shutdownRead, a.shutdownWrite, openA),
         End(conn.From(B), conn.ReadClosed(B), conn.WriteClosed(B), b.shutdownRead, b.shutdownWrite, openB))
  }

  ghost predicate Joined(conn: Connection, a: Socket, b: Socket)
    reads a, b
  {
    a != b && a.state == Connected(conn, A) && b.state == Connected(conn, B)
  }

  ghost predicate StillValid(s: Socket, open: bool)
    reads s, s.Conn()
  {
    s.state.Connected? && s.state.conn.Valid() && (open ==> s.Valid())
  }

  /** The socket of one end reads as the pair of queues says. */
  method CallRead(conn: Connection, a: Socket, b: Socket, s: Side, n: nat, ghost openA: bool, ghost openB: bool)
    returns (answer: Answer)
    requires Joined(conn, a, b) && conn.Valid() && (if s.A? then a else b).Valid() && (if s.A? then openA else openB)
    modifies conn
    ensures conn.Valid()
    ensures forall t: Side ::
              conn.ReadClosed(t) == old(conn.ReadClosed(t)) && conn.WriteClosed(t) == old(conn.WriteClosed(t))
    ensures (Ends(conn, a, b, openA, openB), answer) == Next(old(Ends(conn, a, b, openA, openB)), ReadOp(s, n))
  {
    var r := (if s.A? then a else b).Read(n);
    answer := Got(r);
    ghost var was := old(conn.From(Peer(s)));
    if r.Ok? {
      assert r.bytes == was[..|r.bytes|] && conn.From(Peer(s)) == was[|r.bytes|..] by {
        assert r.bytes == (r.bytes + conn.From(Peer(s)))[..|r.bytes|];
        assert conn.From(Peer(s)) == (r.bytes + conn.From(Peer(s)))[|r.bytes|..];
      }
    }
    assert conn.From(Peer(Peer(s))) == old(conn.From(Peer(Peer(s))));
  }

  /** The socket of one end writes as the pair of queues says. */
  method CallWrite(conn: Connection, a: Socket, b: Socket, s: Side, buf: seq<byte>, ghost openA: bool,
                   ghost openB: bool)
    returns (answer: Answer)
    requires Joined(conn, a, b) && conn.Valid() && (if s.A? then a else b).Valid() && (if s.A? then openA else openB)
    modifies conn
    ensures conn.Valid()
    ensures forall t: Side ::
              conn.ReadClosed(t) == old(conn.ReadClosed(t)) && conn.WriteClosed(t) == old(conn.WriteClosed(t))
    ensures (Ends(conn, a, b, openA, openB), answer) == Next(old(Ends(conn, a, b, openA, openB)), WriteOp(s, buf))
  {
    var r := (if s.A? then a else b).Write(buf);
    answer := Put(r);
    assert conn.From(s) == old(conn.From(s)) + Taken(buf, r);
    assert conn.From(Peer(s)) == old(conn.From(Peer(s)));
  }

  method CallShutdown(conn: Connection, a: Socket, b: Socket, s: Side, how: int, ghost openA: bool, ghost openB: bool)
    returns (answer: Answer)
    requires Joined(conn, a, b) && conn.Valid() && (if s.A? then a else b).Valid() && (if s.A? then openA else openB)
    modifies conn, a, b
    ensures Joined(conn, a, b) && conn.Valid() && (if s.A? then a else b).Valid()
    ensures (Ends(conn, a, b, openA, openB), answer) == Next(old(Ends(conn, a, b, openA, openB)), ShutdownOp(s, how))
  {
    var ok := (if s.A? then a else b).Shutdown(how);
    answer := Shut(ok);
    assert conn.From(A) == old(conn.From(A)) && conn.From(B) == old(conn.From(B));
  }

  method CallClose(conn: Connection, a: Socket, b: Socket, s: Side, openA: bool, openB: bool)
    returns (answer: Answer, leftA: bool, leftB: bool)
    requires Joined(conn, a, b) && StillValid(a, openA) && StillValid(b, openB) && (if s.A? then openA else openB)
    modifies conn
    ensures StillValid(a, leftA) && StillValid(b, leftB)
    ensures (Ends(conn, a, b, leftA, leftB), answer) == Next(old(Ends(conn, a, b, openA, openB)), CloseOp(s))
  {
    (if s.A? then a else b).Close();
    answer, leftA, leftB := Dropped, openA && s.B?, openB && s.A?;
    assert conn.From(A) == old(conn.From(A)) && conn.From(B) == old(conn.From(B));
  }

  /** One call on an open end answers and changes what the pair of queues says. */
  method Call(conn: Connection, a: Socket, b: Socket, op: Op, ghost openA: bool, ghost openB: bool)
    returns (answer: Answer)
    requires Joined(conn, a, b) && StillValid(a, openA) && StillValid(b, openB)
    requires (if op.side.A? then openA else openB) && !op.CloseOp?
    modifies conn, a, b
    ensures Joined(conn, a, b) && StillValid(a, openA) && StillValid(b, openB)
    ensures (Ends(conn, a, b, openA, openB), answer) == Next(old(Ends(conn, a, b, openA, openB)), op)
  {
    match op
    case ReadOp(s, n) => answer := CallRead(conn, a, b, s, n, openA, openB);
    case WriteOp(s, buf) => answer := CallWrite(conn, a, b, s, buf, openA, openB);
    case ShutdownOp(s, how) => answer := CallShutdown(conn, a, b, s, how, openA, openB);
  }

  /** Any sequence of calls on the two ends answers and changes what the pair of queues says. */
  method Run(conn: Connection, a: Socket, b: Socket, ops: seq<Op>)
    returns (answers: seq<Answer>, openA: bool, openB: bool)
    requires Joined(conn, a, b) && a.Valid() && b.Valid()
    modifies conn, a, b
    ensures Joined(conn, a, b) && conn.Valid()
    ensures answers == Answers(old(Ends(conn, a, b, true, true)), ops)
    ensures Ends(conn, a, b, openA, openB) == After(old(Ends(conn, a, b, true, true)), ops)
    ensures forall s: Side ::
              old(conn.From(s)) + AcceptedFrom(ops, answers, s) == DeliveredTo(ops, answers, Peer(s)) + conn.From(s)
  {
    ghost var start := Ends(conn, a, b, true, true);
    answers, openA, openB := [], true, true;
    for i := 0 to |ops|
      invariant Joined(conn, a, b) && StillValid(a, openA) && StillValid(b, openB)
      invariant answers == Answers(start, ops[..i]) && Ends(conn, a, b, openA, openB) == After(start, ops[..i])
    {
      assert ops[..i + 1][..i] == ops[..i];
      var op := ops[i];
      var answer := Gone;
      if if op.side.A? then openA else openB {
        if op.CloseOp? {
          answer, openA, openB := CallClose(conn, a, b, op.side, openA, openB);
        } else {
          answer := Call(conn, a, b, op, openA, openB);
        }
      }
      answers := answers + [answer];
    }
    assert ops[..|ops|] == ops;
    forall s: Side
      ensures old(conn.From(s)) + AcceptedFrom(ops, answers, s) == DeliveredTo(ops, answers, Peer(s)) + conn.From(s)
    {
      Conserved(start, ops, s);
      assert Of(start, s).out == old(conn.From(s)) && Of(After(start, ops), s).out == conn.From(s);
    }
  }
}
