// One connection to the daemon: bytes arrive in chunks, requests are framed by 12-byte headers.
module Connection {
  import opened Optional
  import opened Words
  import opened Protocol
  import opened Session

  // What the bytes read next are for.
  datatype Phase =
    | AwaitHeader
    | AwaitPayload(kind: Kind, length: nat)
    | Stopped
    | Broken

  const HEADER_LENGTH := 12

  datatype Conn = Conn(session: State, phase: Phase, unread: string)

  function NewConn(client: Word): Conn { Conn(Fresh(client), AwaitHeader, "") }

  predicate Valid(c: Conn) {
    c.phase.AwaitPayload? ==> AllowedLength(c.phase.kind, c.phase.length)
  }

  // Enough bytes have arrived for what is awaited.
  predicate CanRead(c: Conn) {
    match c.phase
    case AwaitHeader => |c.unread| >= HEADER_LENGTH
    case AwaitPayload(_, length) => |c.unread| >= length
    case _ => false
  }

  datatype Served = Served(conn: Conn, answers: seq<ProtObj>, writes: seq<Write>)

  // One piece is read and acted on. Whatever the code answers with an exception, a failed
  // assertion or a null dereference breaks the connection.
  function ReadOne(c: Conn, show: Address -> string): (r: Served)
    requires Valid(c) && CanRead(c)
    ensures Valid(r.conn)
  {
    match c.phase
    case AwaitHeader =>
      var rest := c.unread[HEADER_LENGTH..];
      (match Create(c.unread[..HEADER_LENGTH])
       case Created(kind, length) => Served(Conn(c.session, AwaitPayload(kind, length), rest), [], [])
       case Refused(_) => Served(Conn(c.session, Broken, rest), [], []))
    case AwaitPayload(kind, length) =>
      var rest := c.unread[length..];
      (match ReadPayload(kind, c.unread[..length])
       case None => Served(Conn(c.session, Broken, rest), [], [])
       case Some(m) =>
         var e := Act(c.session, m, show);
         if e.reply.None? then Served(Conn(e.state, Broken, rest), [], e.writes)
         else Served(Conn(e.state, if kind == DisconnectKind then Stopped else AwaitHeader, rest),
                     [e.reply.value], e.writes))
  }

  function Then(first: Served, second: Served): Served {
    Served(second.conn, first.answers + second.answers, first.writes + second.writes)
  }

  function Idle(c: Conn): Served { Served(c, [], []) }

  // Everything that can be done with the bytes at hand.
  function Drain(c: Conn, show: Address -> string): (r: Served)
    requires Valid(c)
    ensures Valid(r.conn) && !CanRead(r.conn)
    decreases |c.unread|, if c.phase.AwaitPayload? then 1 else 0
  {
    if !CanRead(c) then Idle(c) else
      var first := ReadOne(c, show);
      Then(first, Drain(first.conn, show))
  }

  function Extend(c: Conn, chunk: string): Conn { c.(unread := c.unread + chunk) }

  function Feed(c: Conn, chunk: string, show: Address -> string): (r: Served)
    requires Valid(c)
    ensures Valid(r.conn) && !CanRead(r.conn)
  {
    Drain(Extend(c, chunk), show)
  }

  lemma ReadOneExtends(c: Conn, more: string, show: Address -> string)
    requires Valid(c) && CanRead(c)
    ensures CanRead(Extend(c, more))
    ensures ReadOne(Extend(c, more), show) == var r := ReadOne(c, show); r.(conn := Extend(r.conn, more))
  {
    var n := if c.phase.AwaitHeader? then HEADER_LENGTH else c.phase.length;
    assert (c.unread + more)[..n] == c.unread[..n];
    assert (c.unread + more)[n..] == c.unread[n..] + more;
  }

  lemma ThenAssociates(a: Served, b: Served, c: Served)
    ensures Then(Then(a, b), c) == Then(a, Then(b, c))
  {
    assert a.answers + b.answers + c.answers == a.answers + (b.answers + c.answers);
    assert a.writes + b.writes + c.writes == a.writes + (b.writes + c.writes);
  }

  // Acting early on the bytes at hand does not change what is done in the end.
  lemma {:induction false} DrainExtends(c: Conn, more: string, show: Address -> string)
    requires Valid(c)
    ensures Drain(Extend(c, more), show)
         == Then(Drain(c, show), Drain(Extend(Drain(c, show).conn, more), show))
    decreases |c.unread|, if c.phase.AwaitPayload? then 1 else 0
  {
    if CanRead(c) {
      var first := ReadOne(c, show);
      ReadOneExtends(c, more, show);
      DrainExtends(first.conn, more, show);
      var rest := Drain(first.conn, show);
      ThenAssociates(first, rest, Drain(Extend(rest.conn, more), show));
    } else {
      var all := Drain(Extend(c, more), show);
      assert Then(Idle(c), all) == all by {
        assert [] + all.answers == all.answers && [] + all.writes == all.writes;
      }
    }
  }

  lemma FeedTwice(c: Conn, a: string, b: string, show: Address -> string)
    requires Valid(c)
    ensures Feed(c, a + b, show) == Then(Feed(c, a, show), Feed(Feed(c, a, show).conn, b, show))
  {
    assert Extend(c, a + b) == Extend(Extend(c, a), b) by {
      assert c.unread + (a + b) == c.unread + a + b;
    }
    DrainExtends(Extend(c, a), b, show);
  }

  function Concat(chunks: seq<string>): string {
    if chunks == [] then "" else chunks[0] + Concat(chunks[1..])
  }

  function FeedAll(c: Conn, chunks: seq<string>, show: Address -> string): (r: Served)
    requires Valid(c)
    ensures Valid(r.conn)
    decreases |chunks|
  {
    if chunks == [] then Idle(c) else
      var first := Feed(c, chunks[0], show);
      Then(first, FeedAll(first.conn, chunks[1..], show))
  }

  // However a byte stream is cut into chunks, the session ends up the same, with the same answers
  // and the same writes in the same order, and the same bytes left over.
  lemma {:induction false} ChunksDoNotMatter(c: Conn, chunks: seq<string>, show: Address -> string)
    requires Valid(c) && !CanRead(c)
    ensures FeedAll(c, chunks, show) == Feed(c, Concat(chunks), show)
    decreases |chunks|
  {
    if chunks == [] {
      assert c.unread + "" == c.unread;
    } else {
      var first := Feed(c, chunks[0], show);
      ChunksDoNotMatter(first.conn, chunks[1..], show);
      FeedTwice(c, chunks[0], Concat(chunks[1..]), show);
    }
  }

  // ---- what goes back ----

  lemma RepliesFit(s: State, m: ProtObj, show: Address -> string)
    ensures Act(s, m, show).reply.Some? ==> Sendable(Act(s, m, show).reply.value)
  {
  }

  lemma {:induction false} AnswersFit(c: Conn, show: Address -> string)
    requires Valid(c)
    ensures forall a | a in Drain(c, show).answers :: Sendable(a)
    decreases |c.unread|, if c.phase.AwaitPayload? then 1 else 0
  {
    if CanRead(c) {
      AnswersFit(ReadOne(c, show).conn, show);
      OneAnswerFits(c, show);
    }
  }

  lemma OneAnswerFits(c: Conn, show: Address -> string)
    requires Valid(c) && CanRead(c)
    ensures forall a | a in ReadOne(c, show).answers :: Sendable(a)
  {
    if c.phase.AwaitPayload? {
      var m := ReadPayload(c.phase.kind, c.unread[..c.phase.length]);
      if m.Some? { RepliesFit(c.session, m.value, show); }
    }
  }

  // ---- requests over the wire ----

  function Frame(m: ProtObj): string
    requires Sendable(m)
  {
    ObjectRoundTrip(m);
    Header(KindOf(m), |Payload(m)|) + Payload(m)
  }

  // The bytes of an object: start sequence, letters, length, octets; and nothing else is.
  lemma FrameExactly(m: ProtObj, s: string)
    requires Sendable(m)
    ensures s == Frame(m)
       <==> && |s| >= 12 && s[..4] == "logs" && LittleEndian(s[8..12], |s| - 12) && Image(m, s[4..8], s[12..])
  {
    var p := Payload(m);
    ObjectRoundTrip(m);
    var f := Frame(m);
    assert f[..4] == "logs" && f[4..8] == Tag(KindOf(m)) && f[8..12] == Encode(|p|) && f[12..] == p;
    EncodeExactly(|p|, f[8..12]);
    ImageExactly(m, f[4..8], p);
    if |s| >= 12 {
      ImageExactly(m, s[4..8], s[12..]);
      EncodeExactly(|p|, s[8..12]);
      assert s == s[..4] + s[4..8] + s[8..12] + s[12..];
    }
  }

  function Frames(ms: seq<ProtObj>): string
    requires forall m | m in ms :: Sendable(m)
  {
    if ms == [] then "" else Frame(ms[0]) + Frames(ms[1..])
  }

  predicate IsRequest(m: ProtObj) {
    m.File? || m.CloseFile? || m.Client? || m.Disconnect? || m.Message?
  }

  lemma {:induction false} FramesConcat(ms: seq<ProtObj>, ns: seq<ProtObj>)
    requires forall m | m in ms :: Sendable(m)
    requires forall n | n in ns :: Sendable(n)
    ensures forall m | m in ms + ns :: Sendable(m)
    ensures Frames(ms + ns) == Frames(ms) + Frames(ns)
    decreases |ms|
  {
    if ms == [] {
      assert ms + ns == ns;
    } else {
      FramesConcat(ms[1..], ns);
      assert (ms + ns)[1..] == ms[1..] + ns;
    }
  }

  // The requests that the daemon reads back as they were sent.
  predicate Deliverable(m: ProtObj) {
    && Sendable(m) && IsRequest(m)
    && (m.Client? ==> m.name != "") && (m.Message? ==> Survives(m.fh))
  }

  // Acting on requests one after the other; the session listens to nothing after a disconnect.
  function Perform(s: State, ms: seq<ProtObj>, show: Address -> string): Served
    decreases |ms|
  {
    if ms == [] then Idle(Conn(s, AwaitHeader, "")) else
      var e := Act(s, ms[0], show);
      var answers := if e.reply.Some? then [e.reply.value] else [];
      if ms[0].Disconnect? then Served(Conn(e.state, Stopped, ""), answers, e.writes)
      else Then(Served(Conn(e.state, AwaitHeader, ""), answers, e.writes), Perform(e.state, ms[1..], show))
  }

  lemma FrameSplits(m: ProtObj, rest: string)
    requires Sendable(m)
    ensures AllowedLength(KindOf(m), |Payload(m)|) && |Frame(m)| == HEADER_LENGTH + |Payload(m)|
    ensures (Frame(m) + rest)[..HEADER_LENGTH] == Header(KindOf(m), |Payload(m)|)
    ensures (Frame(m) + rest)[HEADER_LENGTH..] == Payload(m) + rest
  {
    ObjectRoundTrip(m);
    var h := Header(KindOf(m), |Payload(m)|);
    assert Frame(m) + rest == h + (Payload(m) + rest);
  }

  lemma ReadFrameHeader(s: State, m: ProtObj, rest: string, show: Address -> string)
    requires Sendable(m)
    ensures AllowedLength(KindOf(m), |Payload(m)|)
    ensures Drain(Conn(s, AwaitHeader, Frame(m) + rest), show)
         == Drain(Conn(s, AwaitPayload(KindOf(m), |Payload(m)|), Payload(m) + rest), show)
  {
    var p, k := Payload(m), KindOf(m);
    ObjectRoundTrip(m);
    HeaderAccepted(k, |p|);
    FrameSplits(m, rest);
    var c := Conn(s, AwaitHeader, Frame(m) + rest);
    var c1 := Conn(s, AwaitPayload(k, |p|), p + rest);
    assert ReadOne(c, show) == Idle(c1);
    ThenIdle(c1, Drain(c1, show));
  }

  lemma ThenIdle(c: Conn, r: Served)
    ensures Then(Idle(c), r) == r
  {
    assert [] + r.answers == r.answers && [] + r.writes == r.writes;
  }

  lemma ReadFrame(s: State, m: ProtObj, rest: string, show: Address -> string)
    requires Deliverable(m)
    ensures Act(s, m, show).reply.Some?
    ensures Drain(Conn(s, AwaitHeader, Frame(m) + rest), show) == (
              var e := Act(s, m, show);
              Then(Served(Conn(e.state, AwaitHeader, ""), [e.reply.value], e.writes),
                   Drain(Conn(e.state, if m.Disconnect? then Stopped else AwaitHeader, rest), show)))
  {
    var p, k := Payload(m), KindOf(m);
    ReadFrameHeader(s, m, rest, show);
    ObjectRoundTrip(m);
    if m.Message? { GarbledExactly(m.fh); }
    assert (p + rest)[..|p|] == p && (p + rest)[|p|..] == rest;
    assert ReadPayload(k, p) == Some(m);
    assert m.Disconnect? <==> k == DisconnectKind;
  }

  // Serving the bytes of a list of requests is performing the requests; only a disconnect, if
  // any, may come last, as nothing behind it is read.
  lemma {:induction false} ServedAsPerformed(s: State, ms: seq<ProtObj>, show: Address -> string)
    requires forall m | m in ms :: Sendable(m) && Deliverable(m)
    requires forall i | 0 <= i < |ms| - 1 :: !ms[i].Disconnect?
    ensures Drain(Conn(s, AwaitHeader, Frames(ms)), show) == Perform(s, ms, show)
    decreases |ms|
  {
    if ms != [] {
      var e := Act(s, ms[0], show);
      ReadFrame(s, ms[0], Frames(ms[1..]), show);
      if ms[0].Disconnect? {
        assert ms[1..] == [];
        assert Frames(ms[1..]) == "";
      } else {
        ServedAsPerformed(e.state, ms[1..], show);
      }
    }
  }

  lemma EndOfDrain(c: Conn, answers: seq<ProtObj>, writes: seq<Write>)
    ensures Then(Served(c, answers, writes), Idle(c)) == Served(c, answers, writes)
  {
  }

  // A session waiting for the next request, with nothing left over.
  function Waiting(s: State): Conn { Conn(s, AwaitHeader, "") }

  lemma ServeOne(s: State, m: ProtObj, show: Address -> string)
    requires Sendable(m) && Deliverable(m)
    ensures Act(s, m, show).reply.Some?
    ensures Feed(Waiting(s), Frame(m), show) == (
              var e := Act(s, m, show);
              Served(Conn(e.state, if m.Disconnect? then Stopped else AwaitHeader, ""), [e.reply.value], e.writes))
  {
    assert Frame(m) + "" == Frame(m) && "" + Frame(m) == Frame(m);
    ReadFrame(s, m, "", show);
    var e := Act(s, m, show);
    var after := Conn(e.state, if m.Disconnect? then Stopped else AwaitHeader, "");
    assert Drain(after, show) == Idle(after);
    EndOfDrain(after, [e.reply.value], e.writes);
  }
}
