/** Connected AF_UNIX stream sockets: two byte queues between two ends, shutdown, listening and connecting. */
module UnixStream {
  import opened Flat

  const CAPACITY: nat := 65536

  datatype Side = A | B

  function Peer(s: Side): Side {
    if s.A? then B else A
  }

  datatype Outcome = Ok(bytes: seq<byte>) | WouldBlock | NotConnected

  datatype Sent = Accepted(n: nat) | Full | BrokenPipe | Unconnected

  /** The shared part of a connection: a queue and closed flags per end. */
  class Connection {
    var aToB: seq<byte>
    var bToA: seq<byte>
    var aClosedRead: bool
    var aClosedWrite: bool
    var bClosedRead: bool
    var bClosedWrite: bool

    constructor ()
      ensures aToB == [] && bToA == [] && !aClosedRead && !aClosedWrite && !bClosedRead && !bClosedWrite
    {
      aToB, bToA := [], [];
      aClosedRead, aClosedWrite, bClosedRead, bClosedWrite := false, false, false, false;
    }

    predicate Valid()
      reads this
    {
      |aToB| <= CAPACITY && |bToA| <= CAPACITY
    }

    /** The queue written by one end and read by the other. */
    function From(s: Side): seq<byte>
      reads this
    {
      if s.A? then aToB else bToA
    }

    predicate ReadClosed(s: Side)
      reads this
    {
      if s.A? then aClosedRead else bClosedRead
    }

    predicate WriteClosed(s: Side)
      reads this
    {
      if s.A? then aClosedWrite else bClosedWrite
    }

    method CloseRead(s: Side)
      modifies this
      ensures aToB == old(aToB) && bToA == old(bToA)
      ensures forall t: Side :: WriteClosed(t) == old(WriteClosed(t))
      ensures forall t: Side :: ReadClosed(t) == (t == s || old(ReadClosed(t)))
    {
      match s
      case A => aClosedRead := true;
      case B => bClosedRead := true;
    }

    method CloseWrite(s: Side)
      modifies this
      ensures aToB == old(aToB) && bToA == old(bToA)
      ensures forall t: Side :: ReadClosed(t) == old(ReadClosed(t))
      ensures forall t: Side :: WriteClosed(t) == (t == s || old(WriteClosed(t)))
    {
      match s
      case A => aClosedWrite := true;
      case B => bClosedWrite := true;
    }

    /** The rest of the connection stays when one queue changes. */
    twostate predicate OnlyQueue(s: Side)
      reads this
    {
      && From(Peer(s)) == old(From(Peer(s)))
      && forall t: Side :: ReadClosed(t) == old(ReadClosed(t)) && WriteClosed(t) == old(WriteClosed(t))
    }

    method Pop(s: Side, n: nat) returns (out: seq<byte>)
      requires n <= |From(s)|
      modifies this
      ensures out == old(From(s))[..n] && From(s) == old(From(s))[n..]
      ensures OnlyQueue(s)
    {
      out := [];
      ghost var before := From(s);
      while |out| < n
        invariant |out| <= n && out == before[..|out|] && From(s) == before[|out|..]
        invariant OnlyQueue(s)
        decreases n - |out|
      {
        match s
        case A => out, aToB := out + [aToB[0]], aToB[1..];
        case B => out, bToA := out + [bToA[0]], bToA[1..];
      }
    }

    method Push(s: Side, buf: seq<byte>)
      modifies this
      ensures From(s) == old(From(s)) + buf
      ensures OnlyQueue(s)
    {
      ghost var before := From(s);
      for i := 0 to |buf|
        invariant From(s) == before + buf[..i]
        invariant OnlyQueue(s)
      {
        match s
        case A => aToB := aToB + [buf[i]];
        case B => bToA := bToA + [buf[i]];
      }
    }
  }

  datatype SocketState =
    | Fresh
    | Listening(backlog: nat, pending: seq<Socket>)
    | Connected(conn: Connection, side: Side)

  class Socket {
    var state: SocketState
    var shutdownRead: bool
    var shutdownWrite: bool

    constructor (state: SocketState)
      ensures this.state == state && !shutdownRead && !shutdownWrite
    {
      this.state, shutdownRead, shutdownWrite := state, false, false;
    }

    ghost function Conn(): set<Connection>
      reads this
    {
      if state.Connected? then {state.conn} else {}
    }

    /** An end of the connection is closed only when its own socket was shut down. */
    predicate Valid()
      reads this, Conn()
    {
      match state
      case Fresh => true
      case Listening(backlog, pending) => 1 <= backlog <= 128 && |pending| <= backlog
      case Connected(conn, side) =>
        conn.Valid() && (conn.ReadClosed(side) ==> shutdownRead) && (conn.WriteClosed(side) ==> shutdownWrite)
    }

    /** What a non-empty read would have to wait for. */
    predicate ReadBlocks()
      requires state.Connected?
      reads this, Conn()
    {
      && !shutdownRead && !state.conn.ReadClosed(state.side)
      && state.conn.From(Peer(state.side)) == [] && !state.conn.WriteClosed(Peer(state.side))
    }

    /** The poll predicate: for a connected socket, exactly that a read would not block. */
    method Readable() returns (r: bool)
      requires Valid()
      ensures state.Connected? ==> r == !ReadBlocks()
      ensures state.Listening? ==> r == (shutdownRead || state.pending != [])
      ensures state.Fresh? ==> r == shutdownRead
    {
      if shutdownRead {
        return true;
      }
      match state
      case Fresh => r := false;
      case Listening(_, pending) => r := pending != [];
      case Connected(conn, side) => r := conn.From(Peer(side)) != [] || conn.WriteClosed(Peer(side));
    }

    /** The poll predicate for writing: exactly that a non-empty write would take at least one byte. */
    method Writable() returns (w: bool)
      requires Valid()
      ensures w == (state.Connected? && WriteRoom() > 0)
    {
      if shutdownWrite {
        return false;
      }
      if state.Connected? {
        var conn, side := state.conn, state.side;
        w := !conn.WriteClosed(side) && !conn.ReadClosed(Peer(side)) && |conn.From(side)| < CAPACITY;
      } else {
        w := false;
      }
    }

    /** How many bytes a write can still take. */
    function WriteRoom(): int
      requires state.Connected?
      reads this, Conn()
    {
      var conn, side := state.conn, state.side;
      if shutdownWrite || conn.WriteClosed(side) || conn.ReadClosed(Peer(side)) then 0 else CAPACITY - |conn.From(side)|
    }

    /** Takes up to `n` bytes from the front of the inbound queue. */
    method Read(n: nat) returns (r: Outcome)
      requires Valid()
      modifies Conn()
      ensures Valid() && (state.Connected? ==> state.conn.OnlyQueue(Peer(state.side)))
      ensures state.Connected? ==> (r.WouldBlock? <==> old(ReadBlocks()))
      ensures state.Connected? ==> !r.NotConnected?
      ensures r.Ok? && state.Connected? ==>
                r.bytes + state.conn.From(Peer(state.side)) == old(state.conn.From(Peer(state.side)))
      ensures !r.Ok? && state.Connected? ==> state.conn.From(Peer(state.side)) == old(state.conn.From(Peer(state.side)))
      ensures r == Ok([]) && n > 0 && !shutdownRead ==>
                && state.Connected? && old(state.conn.From(Peer(state.side))) == []
                && state.conn.WriteClosed(Peer(state.side))
      ensures r.Ok? && state.Connected? && !shutdownRead ==>
                |r.bytes| == Min(n, |old(state.conn.From(Peer(state.side)))|)
      ensures shutdownRead ==> r == Ok([])
      ensures !state.Connected? && !shutdownRead ==> r == NotConnected
    {
      if shutdownRead {
        return Ok([]);
      }
      if !state.Connected? {
        return NotConnected;
      }
      var conn, from := state.conn, Peer(state.side);
      if conn.ReadClosed(state.side) {
        return Ok([]);
      }
      if conn.From(from) == [] {
        if conn.WriteClosed(from) {
          return Ok([]);
        }
        return WouldBlock;
      }
      var out := conn.Pop(from, Min(n, |conn.From(from)|));
      r := Ok(out);
    }

    /** Puts as many bytes as fit at the end of the outbound queue. */
    method Write(buf: seq<byte>) returns (r: Sent)
      requires Valid()
      modifies Conn()
      ensures Valid() && (state.Connected? ==> state.conn.OnlyQueue(state.side))
      ensures r.Accepted? ==> state.Connected? && r.n <= |buf|
      ensures state.Connected? ==> state.conn.From(state.side) == old(state.conn.From(state.side)) + Taken(buf, r)
      ensures state.Connected? && buf != [] ==> (r.Accepted? && r.n > 0 <==> old(WriteRoom()) > 0)
      ensures state.Connected? && r.Accepted? ==> r.n == Min(|buf|, old(WriteRoom()))
      ensures r == Full ==> state.Connected?
      ensures state.Connected? ==> (r == Full <==> r != BrokenPipe && |old(state.conn.From(state.side))| == CAPACITY)
      ensures state.Connected? ==>
                (r == BrokenPipe <==>
                 shutdownWrite || state.conn.WriteClosed(state.side) || state.conn.ReadClosed(Peer(state.side)))
      ensures r == Unconnected <==> !state.Connected? && !shutdownWrite
      ensures !state.Connected? && shutdownWrite ==> r == BrokenPipe
    {
      if shutdownWrite {
        return BrokenPipe;
      }
      if !state.Connected? {
        return Unconnected;
      }
      var conn, side := state.conn, state.side;
      if conn.WriteClosed(side) {
        return BrokenPipe;
      }
      if conn.ReadClosed(Peer(side)) {
        return BrokenPipe;
      }
      var available := CAPACITY - |conn.From(side)|;
      if available == 0 {
        return Full;
      }
      var n := Min(|buf|, available);
      conn.Push(side, buf[..n]);
      r := Accepted(n);
    }

    /** Closes one direction or both, here and in the connection; an unknown direction changes nothing. */
    method Shutdown(how: int) returns (ok: bool)
      requires Valid()
      modifies this, Conn()
      ensures Valid() && state == old(state) && ok == (0 <= how <= 2)
      ensures shutdownRead == (old(shutdownRead) || how == 0 || how == 2)
      ensures shutdownWrite == (old(shutdownWrite) || how == 1 || how == 2)
      ensures state.Connected? ==> state.conn.aToB == old(state.conn.aToB) && state.conn.bToA == old(state.conn.bToA)
      ensures state.Connected? ==> forall t: Side ::
                && state.conn.ReadClosed(t)
                  == (old(state.conn.ReadClosed(t)) || (t == state.side && (how == 0 || how == 2)))
                && state.conn.WriteClosed(t)
                  == (old(state.conn.WriteClosed(t)) || (t == state.side && (how == 1 || how == 2)))
    {
      if !(0 <= how <= 2) {
        return false;
      }
      if how == 0 || how == 2 {
        shutdownRead := true;
      }
      if how == 1 || how == 2 {
        shutdownWrite := true;
      }
      if state.Connected? {
        if how == 0 || how == 2 {
          state.conn.CloseRead(state.side);
        }
        if how == 1 || how == 2 {
          state.conn.CloseWrite(state.side);
        }
      }
      ok := true;
    }

    /** Dropping the socket closes both directions of its end. */
    method Close()
      requires Valid()
      modifies Conn()
      ensures state.Connected? ==> state.conn.aToB == old(state.conn.aToB) && state.conn.bToA == old(state.conn.bToA)
      ensures state.Connected? ==> forall t: Side ::
                && state.conn.ReadClosed(t) == (t == state.side || old(state.conn.ReadClosed(t)))
                && state.conn.WriteClosed(t) == (t == state.side || old(state.conn.WriteClosed(t)))
    {
      if state.Connected? {
        state.conn.CloseRead(state.side);
        state.conn.CloseWrite(state.side);
      }
    }

    /** Starts listening with a backlog between 1 and 128; listening twice keeps the queue. */
    method Listen(backlog: int) returns (ok: bool)
      requires Valid()
      modifies this
      ensures Valid() && ok == (backlog >= 0 && !old(state).Connected?)
      ensures ok && old(state).Fresh? ==> state == Listening(Max(1, Min(backlog, 128)), [])
      ensures !(ok && old(state).Fresh?) ==> state == old(state)
      ensures shutdownRead == old(shutdownRead) && shutdownWrite == old(shutdownWrite)
    {
      if backlog < 0 {
        return false;
      }
      match state
      case Fresh =>
        state := Listening(Max(1, Min(backlog, 128)), []);
        ok := true;
      case Listening(_, _) => ok := true;
      case Connected(_, _) => ok := false;
    }

    /** Takes the connection that has been waiting longest. */
    method Accept() returns (r: Accepting)
      requires Valid()
      modifies this
      ensures Valid()
      ensures !old(state).Listening? ==> r == NotListening
      ensures old(state).Listening? ==> (r == NonePending <==> old(state).pending == []) && r != NotListening
      ensures r.Incoming? ==> state.Listening? && state.backlog == old(state).backlog
      ensures r.Incoming? ==> [r.socket] + state.pending == old(state).pending
      ensures !r.Incoming? ==> state == old(state)
      ensures shutdownRead == old(shutdownRead) && shutdownWrite == old(shutdownWrite)
    {
      if !state.Listening? {
        return NotListening;
      }
      if state.pending == [] {
        return NonePending;
      }
      r := Incoming(state.pending[0]);
      state := state.(pending := state.pending[1..]);
    }

    /**
     * Connects to a listener: a new connection, this socket as end A, and a socket for end B at the back of the queue.
     */
    method ConnectStream(listener: Socket) returns (r: Connecting)
      requires Valid() && listener.Valid() && listener != this
      modifies this, listener
      ensures Valid() && listener.Valid()
      ensures r == if !old(listener.state).Listening? then Refused
                   else if |old(listener.state).pending| >= old(listener.state).backlog then Again
                   else if old(state).Connected? then IsConnected
                   else if old(state).Listening? then Invalid
                   else Done
      ensures r != Done ==> state == old(state) && listener.state == old(listener.state)
      ensures r == Done ==>
                && state.Connected? && state.side == A && fresh(state.conn)
                && state.conn.aToB == [] && state.conn.bToA == []
                && listener.state.Listening? && listener.state.backlog == old(listener.state).backlog
                && |listener.state.pending| == |old(listener.state).pending| + 1
                && listener.state.pending[..|old(listener.state).pending|] == old(listener.state).pending
                && var server := listener.state.pending[|old(listener.state).pending|];
                   fresh(server) && server.state == Connected(state.conn, B) && server.Valid()
    {
      if !listener.state.Listening? {
        return Refused;
      }
      if |listener.state.pending| >= listener.state.backlog {
        return Again;
      }
      var conn := new Connection();
      var server := new Socket(Connected(conn, B));
      match state {
        case Fresh => state := Connected(conn, A);
        case Connected(_, _) => return IsConnected;
        case Listening(_, _) => return Invalid;
      }
      listener.state := listener.state.(pending := listener.state.pending + [server]);
      r := Done;
    }
  }

  datatype Accepting = Incoming(socket: Socket) | NonePending | NotListening

  datatype Connecting = Done | Refused | Again | IsConnected | Invalid

  /** The bytes of `buf` a write took. */
  function Taken(buf: seq<byte>, r: Sent): seq<byte> {
    if r.Accepted? && r.n <= |buf| then buf[..r.n] else []
  }
}
