// The daemon's end of a connection as an object: it asks the socket for so many bytes at a time.
module SocketSession {
  import opened Optional
  import opened Words
  import opened Protocol
  import opened Session
  import opened Connection

  // Bytes that arrived and were not read yet, bytes written, and the read that is pending.
  class Socket {
    var incoming: string
    var outgoing: string
    var pending: Option<nat>

    constructor ()
      ensures incoming == "" && outgoing == "" && pending == None
    {
      incoming, outgoing, pending := "", "", None;
    }

    method AsyncRead(byteCount: nat)
      modifies this`pending
      ensures pending == Some(byteCount)
    {
      pending := Some(byteCount);
    }

    method AsyncWrite(data: string)
      modifies this`outgoing
      ensures outgoing == old(outgoing) + data
    {
      outgoing := outgoing + data;
    }
  }

  datatype Receivable = Receivable(kind: Kind, payloadLength: nat)

  class DefaultSocketSession {
    const socket: Socket
    const executor: RealSession
    const show: Address -> string
    var currentReceivable: Option<Receivable>
    var broken: bool

    function CurrentPhase(): Phase
      reads this, socket
    {
      if broken then Broken
      else if currentReceivable.Some? then
        AwaitPayload(currentReceivable.value.kind, currentReceivable.value.payloadLength)
      else if socket.pending.Some? then AwaitHeader
      else Stopped
    }

    function Value(): Conn
      reads this, socket, executor
    {
      Conn(executor.Value(), CurrentPhase(), socket.incoming)
    }

    predicate Ready()
      reads this, socket
    {
      !broken ==>
        match currentReceivable
        case Some(r) => AllowedLength(r.kind, r.payloadLength) && socket.pending == Some(r.payloadLength)
        case None => socket.pending == None || socket.pending == Some(HEADER_LENGTH)
    }

    constructor (socket: Socket, executor: RealSession, show: Address -> string)
      requires socket.pending == None
      ensures this.socket == socket && this.executor == executor && this.show == show
      ensures Ready() && !broken && currentReceivable == None
    {
      this.socket, this.executor, this.show := socket, executor, show;
      currentReceivable, broken := None, false;
    }

    method StartListen()
      modifies socket`pending
      ensures socket.pending == Some(HEADER_LENGTH)
    {
      socket.AsyncRead(HEADER_LENGTH);
    }

    // The bytes that the pending read asked for.
    method BytesReceived(bytes: string)
      requires !broken && socket.pending == None
      requires currentReceivable.None? ==> |bytes| == HEADER_LENGTH
      requires currentReceivable.Some? ==> |bytes| == currentReceivable.value.payloadLength
      requires currentReceivable.Some? ==> AllowedLength(currentReceivable.value.kind, |bytes|)
      modifies this, socket`pending, socket`outgoing, executor, executor.machine
      ensures Ready()
      ensures var phase := if old(currentReceivable).None? then AwaitHeader
                           else AwaitPayload(old(currentReceivable).value.kind, |bytes|);
              var r := ReadOne(Conn(old(executor.Value()), phase, bytes), show);
              && Value() == r.conn.(unread := socket.incoming)
              && (forall a | a in r.answers :: Sendable(a))
              && socket.outgoing == old(socket.outgoing) + Frames(r.answers)
              && executor.Wrote(r.writes)
    {
      ghost var noWrites: seq<Write> := [];
      assert executor.Wrote(noWrites);
      if currentReceivable.None? {
        assert bytes[..HEADER_LENGTH] == bytes;
        match Create(bytes)
        case Refused(_) =>
          broken := true;
        case Created(kind, length) =>
          currentReceivable := Some(Receivable(kind, length));
          socket.AsyncRead(length);
      } else {
        assert bytes[..|bytes|] == bytes;
        match ReadPayload(currentReceivable.value.kind, bytes)
        case None =>
          broken := true;
        case Some(m) =>
          RepliesFit(executor.Value(), m, show);
          var reply := executor.Receive(m, show);
          if reply.None? {
            broken := true;
          } else {
            assert Frames([reply.value]) == Frame(reply.value);
            socket.AsyncWrite(Frame(reply.value));
            WriteSucceeded();
          }
      }
    }

    method WriteSucceeded()
      requires !broken && currentReceivable.Some? && socket.pending == None
      modifies this, socket`pending
      ensures !broken && currentReceivable == None && Ready()
      ensures socket.pending == if old(currentReceivable).value.kind == DisconnectKind then None
                                else Some(HEADER_LENGTH)
    {
      var final := currentReceivable.value.kind == DisconnectKind;
      currentReceivable := None;
      if !final {
        StartListen();
      }
    }

    // The socket completes the pending read as soon as enough bytes are there.
    method HandleRead()
      requires Ready() && Valid(Value()) && CanRead(Value())
      modifies this, socket, executor, executor.machine
      ensures Ready() && Valid(Value())
      ensures var r := ReadOne(old(Value()), show);
              && Value() == r.conn
              && (forall a | a in r.answers :: Sendable(a))
              && socket.outgoing == old(socket.outgoing) + Frames(r.answers)
              && executor.Wrote(r.writes)
    {
      var n := socket.pending.value;
      var bytes := socket.incoming[..n];
      ghost var c, rest := Value().(unread := bytes), socket.incoming[n..];
      assert bytes + rest == socket.incoming;
      ReadOneWhole(c, rest, show);
      socket.incoming := socket.incoming[n..];
      socket.pending := None;
      BytesReceived(bytes);
    }

    // A chunk of bytes arrives from the network.
    method Deliver(chunk: string)
      requires Ready() && Valid(Value())
      modifies this, socket, executor, executor.machine
      ensures Ready() && Valid(Value())
      ensures var r := Feed(old(Value()), chunk, show);
              && Value() == r.conn
              && (forall a | a in r.answers :: Sendable(a))
              && socket.outgoing == old(socket.outgoing) + Frames(r.answers)
              && executor.Wrote(r.writes)
    {
      socket.incoming := socket.incoming + chunk;
      ghost var start := Value();
      AnswersFit(start, show);
      ghost var machine := executor.machine;
      ghost var files, tick := machine.files, machine.ticks;
      ghost var answers: seq<ProtObj>, writes: seq<Write> := [], [];
      while CanRead(Value())
        invariant Ready() && Valid(Value())
        invariant Drain(start, show) == Then(Served(Value(), answers, writes), Drain(Value(), show))
        invariant forall a | a in answers :: Sendable(a)
        invariant socket.outgoing == old(socket.outgoing) + Frames(answers)
        invariant machine.ticks == tick + |writes|
        invariant machine.files == AppendAll(files, Stamp(writes, machine.clock, tick))
        decreases Rank(Value())
      {
        ghost var before, middle, now := Value(), machine.files, machine.ticks;
        ghost var r := ReadOne(before, show);
        HandleRead();
        FramesMore(old(socket.outgoing), answers, r.answers);
        LogMore(files, writes, r.writes, machine.clock, tick, middle, now, machine.files);
        Progress(start, before, answers, writes, show);
        RankFalls(before, show);
        answers, writes := answers + r.answers, writes + r.writes;
      }
      EndOfDrain(Value(), answers, writes);
      assert Feed(old(Value()), chunk, show) == Served(Value(), answers, writes);
    }
  }

  // A pending read takes its bytes from the front and leaves the rest alone.
  lemma ReadOneWhole(c: Conn, rest: string, show: Address -> string)
    requires Valid(c) && CanRead(c)
    requires |c.unread| == if c.phase.AwaitHeader? then HEADER_LENGTH else c.phase.length
    ensures CanRead(Extend(c, rest))
    ensures ReadOne(Extend(c, rest), show) == var r := ReadOne(c, show); r.(conn := r.conn.(unread := rest))
  {
    ReadOneExtends(c, rest, show);
    assert ReadOne(c, show).conn.unread == "" && "" + rest == rest;
  }

  function Rank(c: Conn): nat { 2 * |c.unread| + if c.phase.AwaitPayload? then 1 else 0 }

  lemma RankFalls(c: Conn, show: Address -> string)
    requires Valid(c) && CanRead(c)
    ensures Rank(ReadOne(c, show).conn) < Rank(c)
  {
  }

  lemma Progress(start: Conn, c: Conn, answers: seq<ProtObj>, writes: seq<Write>, show: Address -> string)
    requires Valid(start) && Valid(c) && CanRead(c)
    requires Drain(start, show) == Then(Served(c, answers, writes), Drain(c, show))
    ensures var r := ReadOne(c, show);
            Drain(start, show) == Then(Served(r.conn, answers + r.answers, writes + r.writes), Drain(r.conn, show))
  {
    var r := ReadOne(c, show);
    ThenAssociates(Served(c, answers, writes), r, Drain(r.conn, show));
  }

  lemma FramesMore(before: string, ms: seq<ProtObj>, ns: seq<ProtObj>)
    requires forall m | m in ms :: Sendable(m)
    requires forall n | n in ns :: Sendable(n)
    ensures forall m | m in ms + ns :: Sendable(m)
    ensures before + Frames(ms + ns) == before + Frames(ms) + Frames(ns)
  {
    FramesConcat(ms, ns);
    assert before + (Frames(ms) + Frames(ns)) == before + Frames(ms) + Frames(ns);
  }

  lemma LogMore(files: map<string, string>, writes: seq<Write>, more: seq<Write>, clock: nat -> string, tick: nat,
                middle: map<string, string>, now: nat, later: map<string, string>)
    requires middle == AppendAll(files, Stamp(writes, clock, tick)) && now == tick + |writes|
    requires later == AppendAll(middle, Stamp(more, clock, now))
    ensures later == AppendAll(files, Stamp(writes + more, clock, tick))
  {
    StampMany(files, writes, more, clock, tick, now);
  }
}
