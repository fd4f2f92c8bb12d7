// The byte stream of the protocol can be read back in one way only.
module Framing {
  import opened Optional
  import opened Words
  import opened Protocol
  import opened Session
  import opened Connection

  datatype RawFrame = RawFrame(kind: Kind, payload: string)

  predicate Fits(f: RawFrame) { AllowedLength(f.kind, |f.payload|) }

  function Bytes(f: RawFrame): string
    requires Fits(f)
  {
    Header(f.kind, |f.payload|) + f.payload
  }

  function AllBytes(fs: seq<RawFrame>): string
    requires forall f | f in fs :: Fits(f)
  {
    if fs == [] then "" else Bytes(fs[0]) + AllBytes(fs[1..])
  }

  datatype Parsed = Parsed(frames: seq<RawFrame>, rest: string)

  // Reads complete frames until too few bytes are left or a header is refused.
  function Parse(s: string): (r: Parsed)
    ensures forall f | f in r.frames :: Fits(f)
    decreases |s|
  {
    if |s| < HEADER_LENGTH then Parsed([], s) else
      match Create(s[..HEADER_LENGTH])
      case Refused(_) => Parsed([], s)
      case Created(kind, length) =>
        var end := HEADER_LENGTH + length;
        if |s| < end then Parsed([], s) else
          var r := Parse(s[end..]);
          Parsed([RawFrame(kind, s[HEADER_LENGTH..end])] + r.frames, r.rest)
  }

  lemma ParseFirst(f: RawFrame, rest: string)
    requires Fits(f)
    ensures Parse(Bytes(f) + rest) == Parsed([f] + Parse(rest).frames, Parse(rest).rest)
  {
    var s, h := Bytes(f) + rest, Header(f.kind, |f.payload|);
    var end := HEADER_LENGTH + |f.payload|;
    assert s == h + (f.payload + rest);
    assert s[..HEADER_LENGTH] == h && s[HEADER_LENGTH..end] == f.payload && s[end..] == rest;
    HeaderAccepted(f.kind, |f.payload|);
  }

  // Parsing a printed frame sequence followed by an incomplete frame gives both back.
  lemma {:induction false} ParseInverts(fs: seq<RawFrame>, rest: string)
    requires forall f | f in fs :: Fits(f)
    requires Parse(rest).frames == []
    ensures Parse(AllBytes(fs) + rest) == Parsed(fs, rest)
    decreases |fs|
  {
    if fs == [] {
      assert "" + rest == rest;
      RestIsWhole(rest);
    } else {
      ParseInverts(fs[1..], rest);
      FirstBytes(fs, rest);
      ParseFirst(fs[0], AllBytes(fs[1..]) + rest);
      assert fs == [fs[0]] + fs[1..];
    }
  }

  lemma FirstBytes(fs: seq<RawFrame>, rest: string)
    requires fs != [] && forall f | f in fs :: Fits(f)
    ensures AllBytes(fs) + rest == Bytes(fs[0]) + (AllBytes(fs[1..]) + rest)
  {
    Regroup(Bytes(fs[0]), AllBytes(fs[1..]), rest);
  }

  lemma Regroup(a: string, b: string, c: string)
    ensures a + b + c == a + (b + c)
  {
  }

  lemma RestIsWhole(s: string)
    requires Parse(s).frames == []
    ensures Parse(s) == Parsed([], s)
  {
  }

  // No proper prefix of a frame holds a complete frame, so reading never stops early.
  lemma ProperPrefix(f: RawFrame, n: nat)
    requires Fits(f) && n < |Bytes(f)|
    ensures Parse(Bytes(f)[..n]) == Parsed([], Bytes(f)[..n])
  {
    if n >= HEADER_LENGTH {
      assert Bytes(f)[..n][..HEADER_LENGTH] == Header(f.kind, |f.payload|);
      HeaderAccepted(f.kind, |f.payload|);
    }
  }

  // Objects with the same kind and payload are the same.
  lemma PayloadsDiffer(a: ProtObj, b: ProtObj)
    requires Sendable(a) && Sendable(b) && KindOf(a) == KindOf(b) && Payload(a) == Payload(b)
    ensures a == b
  {
    var p := Payload(a);
    match (a, b)
    case (CloseFile(x), CloseFile(y)) => DecodeEncode(x); DecodeEncode(y);
    case (Disconnect(x), Disconnect(y)) => DecodeEncode(x); DecodeEncode(y);
    case (FileHandle(x), FileHandle(y)) => DecodeEncode(x); DecodeEncode(y);
    case (ClientHandle(x), ClientHandle(y)) => DecodeEncode(x); DecodeEncode(y);
    case (Message(x, t), Message(y, u)) =>
      assert p[..4] == Encode(x) == Encode(y) && p[4..] == t == u;
      DecodeEncode(x); DecodeEncode(y);
    case (Client(n, i), Client(m, j)) =>
      assert p[1] == (if i.V4? then '4' else '6') && p[1] == (if j.V4? then '4' else '6');
      var k := 2 + |i.bytes|;
      assert p[2..k] == i.bytes == j.bytes && p[k..] == n == m;
    case _ =>
  }

  function Raw(ms: seq<ProtObj>): (fs: seq<RawFrame>)
    ensures |fs| == |ms| && forall i | 0 <= i < |ms| :: fs[i] == RawFrame(KindOf(ms[i]), Payload(ms[i]))
  {
    seq(|ms|, i requires 0 <= i < |ms| => RawFrame(KindOf(ms[i]), Payload(ms[i])))
  }

  lemma {:induction false} FramesAreBytes(ms: seq<ProtObj>)
    requires forall m | m in ms :: Sendable(m)
    ensures forall f | f in Raw(ms) :: Fits(f)
    ensures Frames(ms) == AllBytes(Raw(ms))
    decreases |ms|
  {
    forall i | 0 <= i < |ms| ensures Fits(Raw(ms)[i]) { ObjectRoundTrip(ms[i]); }
    if ms != [] {
      FramesAreBytes(ms[1..]);
      assert Raw(ms)[1..] == Raw(ms[1..]);
    }
  }

  // Two lists of objects with the same bytes on the wire are the same list.
  lemma UniquelyDecodable(ms: seq<ProtObj>, ns: seq<ProtObj>)
    requires forall m | m in ms :: Sendable(m)
    requires forall n | n in ns :: Sendable(n)
    requires Frames(ms) == Frames(ns)
    ensures ms == ns
  {
    FramesAreBytes(ms);
    FramesAreBytes(ns);
    ParseInverts(Raw(ms), "");
    ParseInverts(Raw(ns), "");
    assert AllBytes(Raw(ms)) + "" == AllBytes(Raw(ms)) && AllBytes(Raw(ns)) + "" == AllBytes(Raw(ns));
    assert Raw(ms) == Raw(ns);
    forall i | 0 <= i < |ms| ensures ms[i] == ns[i] {
      assert Raw(ms)[i] == Raw(ns)[i];
      PayloadsDiffer(ms[i], ns[i]);
    }
  }

  // ---- the connection reads what the parser sees ----

  // Acting on complete frames one after the other.
  function ServeFrames(s: State, fs: seq<RawFrame>, show: Address -> string): Served
    requires forall f | f in fs :: Fits(f)
    decreases |fs|
  {
    if fs == [] then Idle(Conn(s, AwaitHeader, "")) else
      assert fs[0] in fs && Fits(fs[0]);
      var first := ReadOne(Conn(s, AwaitPayload(fs[0].kind, |fs[0].payload|), fs[0].payload), show);
      if first.conn.phase.AwaitHeader? then Then(first, ServeFrames(first.conn.session, fs[1..], show)) else first
  }

  // What is left after the last complete frame: a header waiting for its payload, a refused
  // header, or too few bytes for a header.
  predicate Residue(c: Conn, rest: string) {
    match c.phase
    case AwaitHeader => c.unread == rest && |rest| < HEADER_LENGTH
    case AwaitPayload(kind, length) =>
      && |rest| >= HEADER_LENGTH && Create(rest[..HEADER_LENGTH]) == Created(kind, length)
      && c.unread == rest[HEADER_LENGTH..] && |c.unread| < length
    case Broken =>
      |rest| >= HEADER_LENGTH && Create(rest[..HEADER_LENGTH]).Refused? && c.unread == rest[HEADER_LENGTH..]
    case Stopped => false
  }

  // One complete frame in front of other bytes is acted on, then the rest is drained.
  lemma DrainFrame(s: State, f: RawFrame, rest: string, show: Address -> string)
    requires Fits(f)
    ensures var piece := ReadOne(Conn(s, AwaitPayload(f.kind, |f.payload|), f.payload), show);
            && !piece.conn.phase.AwaitPayload? && piece.conn.unread == ""
            && Drain(Conn(s, AwaitPayload(f.kind, |f.payload|), f.payload + rest), show)
               == Then(piece, Drain(piece.conn.(unread := rest), show))
  {
    var c := Conn(s, AwaitPayload(f.kind, |f.payload|), f.payload);
    ReadOneExtends(c, rest, show);
    var piece := ReadOne(c, show);
    assert Extend(piece.conn, rest) == piece.conn.(unread := rest) by { assert "" + rest == rest; }
  }

  lemma DrainHeader(s: State, u: string, show: Address -> string)
    requires |u| >= HEADER_LENGTH && Create(u[..HEADER_LENGTH]).Created?
    ensures var Created(kind, length) := Create(u[..HEADER_LENGTH]);
            Drain(Conn(s, AwaitHeader, u), show)
            == Drain(Conn(s, AwaitPayload(kind, length), u[HEADER_LENGTH..]), show)
  {
    var Created(kind, length) := Create(u[..HEADER_LENGTH]);
    var c, c1 := Conn(s, AwaitHeader, u), Conn(s, AwaitPayload(kind, length), u[HEADER_LENGTH..]);
    assert ReadOne(c, show) == Idle(c1);
    ThenIdle(c1, Drain(c1, show));
  }

  ghost predicate Agree(s: State, u: string, show: Address -> string) {
    var d, v := Drain(Conn(s, AwaitHeader, u), show), ServeFrames(s, Parse(u).frames, show);
    && d.answers == v.answers && d.writes == v.writes && d.conn.session == v.conn.session
    && (if v.conn.phase.AwaitHeader? then Residue(d.conn, Parse(u).rest) else d.conn.phase == v.conn.phase)
  }

  lemma ParseFrame(u: string, f: RawFrame, rest: string)
    requires |u| >= HEADER_LENGTH && u[HEADER_LENGTH..] == f.payload + rest
    requires Create(u[..HEADER_LENGTH]) == Created(f.kind, |f.payload|)
    ensures Fits(f)
    ensures Parse(u).frames == [f] + Parse(rest).frames && Parse(u).rest == Parse(rest).rest
    ensures Parse(u).frames[1..] == Parse(rest).frames
  {
    var end := HEADER_LENGTH + |f.payload|;
    assert u[HEADER_LENGTH..end] == f.payload && u[end..] == rest;
  }

  lemma AgreeOnFrame(s: State, u: string, f: RawFrame, rest: string, show: Address -> string)
    requires |u| >= HEADER_LENGTH && u[HEADER_LENGTH..] == f.payload + rest
    requires Create(u[..HEADER_LENGTH]) == Created(f.kind, |f.payload|)
    requires forall s' :: Agree(s', rest, show)
    ensures Agree(s, u, show)
  {
    ParseFrame(u, f, rest);
    DrainHeader(s, u, show);
    DrainFrame(s, f, rest, show);
    var piece := ReadOne(Conn(s, AwaitPayload(f.kind, |f.payload|), f.payload), show);
    var v := ServeFrames(s, Parse(u).frames, show);
    if piece.conn.phase.AwaitHeader? {
      assert Agree(piece.conn.session, rest, show);
      assert v == Then(piece, ServeFrames(piece.conn.session, Parse(rest).frames, show));
    } else {
      EndHere(piece, rest);
      assert v == piece;
    }
  }

  lemma EndHere(r: Served, rest: string)
    ensures Then(r, Idle(r.conn.(unread := rest))) == r.(conn := r.conn.(unread := rest))
  {
  }

  // For any bytes at all, draining them acts on exactly the frames the parser finds, in order, up
  // to the first that stops or breaks the session, and keeps the parser's residue.
  lemma {:induction false} DrainServesParsedFrames(s: State, u: string, show: Address -> string)
    ensures Agree(s, u, show)
    decreases |u|
  {
    if |u| >= HEADER_LENGTH && Create(u[..HEADER_LENGTH]).Created? {
      var Created(kind, length) := Create(u[..HEADER_LENGTH]);
      var end := HEADER_LENGTH + length;
      if |u| >= end {
        forall s' ensures Agree(s', u[end..], show) { DrainServesParsedFrames(s', u[end..], show); }
        assert u[HEADER_LENGTH..] == u[HEADER_LENGTH..end] + u[end..];
        AgreeOnFrame(s, u, RawFrame(kind, u[HEADER_LENGTH..end]), u[end..], show);
      } else {
        DrainHeader(s, u, show);
      }
    }
  }

  // ---- which bytes end a session, and how ----

  datatype Fate = Goes | Stops | Breaks

  // A disconnect is the last frame to be read. Objects that only a client should get, and payloads
  // too short for what they announce, break the session; everything else gets an answer.
  function FateOfFrame(f: RawFrame): Fate {
    match f.kind
    case DisconnectKind => Stops
    case FileHandleKind => Breaks
    case ClientHandleKind => Breaks
    case AcknowledgedKind => Breaks
    case NotAcknowledgedKind => Breaks
    case MessageKind => if |f.payload| < 4 then Breaks else Goes
    case ClientKind =>
      if |f.payload| <= 2 then Breaks
      else if f.payload[..2] == "v4" && |f.payload| <= 6 then Breaks
      else if f.payload[..2] == "v6" && |f.payload| <= 18 then Breaks
      else Goes
    case _ => Goes
  }

  function FateOf(fs: seq<RawFrame>): Fate {
    if fs == [] then Goes
    else if FateOfFrame(fs[0]) == Goes then FateOf(fs[1..])
    else FateOfFrame(fs[0])
  }

  // The byte strings that the daemon does not get over: before any disconnect, a frame of the kind
  // above or twelve bytes that are no header.
  predicate Fatal(u: string) {
    var p := Parse(u);
    match FateOf(p.frames)
    case Stops => false
    case Breaks => true
    case Goes => |p.rest| >= HEADER_LENGTH && Create(p.rest[..HEADER_LENGTH]).Refused?
  }

  function PhaseAfter(f: Fate): Phase {
    match f case Goes => AwaitHeader case Stops => Stopped case Breaks => Broken
  }

  lemma FrameDecides(s: State, f: RawFrame, show: Address -> string)
    requires Fits(f)
    ensures ReadOne(Conn(s, AwaitPayload(f.kind, |f.payload|), f.payload), show).conn.phase
         == PhaseAfter(FateOfFrame(f))
  {
    assert f.payload[..|f.payload|] == f.payload;
  }

  lemma {:induction false} FramesDecide(s: State, fs: seq<RawFrame>, show: Address -> string)
    requires forall f | f in fs :: Fits(f)
    ensures ServeFrames(s, fs, show).conn.phase == PhaseAfter(FateOf(fs))
    decreases |fs|
  {
    if fs != [] {
      assert fs[0] in fs && Fits(fs[0]);
      FrameDecides(s, fs[0], show);
      var first := ReadOne(Conn(s, AwaitPayload(fs[0].kind, |fs[0].payload|), fs[0].payload), show);
      if first.conn.phase.AwaitHeader? { FramesDecide(first.conn.session, fs[1..], show); }
    }
  }

  // Whatever was said before, a connection breaks exactly on fatal bytes.
  lemma BreaksExactlyOnFatalBytes(s: State, u: string, show: Address -> string)
    ensures Drain(Conn(s, AwaitHeader, u), show).conn.phase.Broken? <==> Fatal(u)
  {
    DrainServesParsedFrames(s, u, show);
    FramesDecide(s, Parse(u).frames, show);
    assert Agree(s, u, show);
  }

  // Fatal inputs, behind any frames that go through and in front of any bytes at all.
  lemma {:induction false} FatalBehind(fs: seq<RawFrame>, u: string)
    requires forall f | f in fs :: Fits(f)
    ensures FateOf(fs) == Goes ==> (Fatal(AllBytes(fs) + u) <==> Fatal(u))
    ensures FateOf(fs) == Stops ==> !Fatal(AllBytes(fs) + u)
    ensures FateOf(fs) == Breaks ==> Fatal(AllBytes(fs) + u)
    decreases |fs|
  {
    if fs == [] {
      assert "" + u == u;
    } else {
      assert fs[0] in fs && Fits(fs[0]);
      FatalBehind(fs[1..], u);
      var rest := AllBytes(fs[1..]) + u;
      assert AllBytes(fs) + u == Bytes(fs[0]) + rest;
      ParseFirst(fs[0], rest);
      assert ([fs[0]] + Parse(rest).frames)[1..] == Parse(rest).frames;
    }
  }

  lemma OneFrame(f: RawFrame)
    requires Fits(f)
    ensures AllBytes([f]) == Bytes(f) && FateOf([f]) == FateOfFrame(f)
  {
    assert Bytes(f) + "" == Bytes(f);
    assert [f][1..] == [];
  }

  // The failing inputs, family by family, whatever bytes follow them.
  lemma NoStartSequenceIsFatal(header: string, rest: string)
    requires |header| == HEADER_LENGTH && header[..4] != "logs"
    ensures Fatal(header + rest)
  {
    assert (header + rest)[..HEADER_LENGTH] == header;
  }

  lemma UnknownTypeIsFatal(tag: string, length: nat, rest: string)
    requires |tag| == 4 && (forall k :: tag != Tag(k)) && length < WORD
    ensures Fatal("logs" + tag + Encode(length) + rest)
  {
    var header := "logs" + tag + Encode(length);
    assert (header + rest)[..HEADER_LENGTH] == header && header[..4] == "logs" && header[4..8] == tag;
    if LookUp(tag).Some? { LookUpIsInverse(tag, LookUp(tag).value); }
  }

  lemma WrongLengthIsFatal(k: Kind, length: nat, rest: string)
    requires length < WORD && !AllowedLength(k, length)
    ensures Fatal(Header(k, length) + rest)
  {
    var header := Header(k, length);
    assert (header + rest)[..HEADER_LENGTH] == header;
    assert header[..4] == "logs" && header[4..8] == Tag(k) && header[8..] == Encode(length);
    LookUpIsInverse(Tag(k), k);
    DecodeEncode(length);
  }

  lemma FatalFrame(f: RawFrame, rest: string)
    requires Fits(f) && FateOfFrame(f) == Breaks
    ensures Fatal(Bytes(f) + rest)
  {
    FatalBehind([f], rest);
    OneFrame(f);
  }

  lemma ReplyIsFatal(reply: ProtObj, rest: string)
    requires Sendable(reply) && !IsRequest(reply)
    ensures Fatal(Frame(reply) + rest)
  {
    ObjectRoundTrip(reply);
    FatalFrame(RawFrame(KindOf(reply), Payload(reply)), rest);
  }

  lemma ShortMessageIsFatal(payload: string, rest: string)
    requires |payload| < 4
    ensures Fatal(Bytes(RawFrame(MessageKind, payload)) + rest)
  {
    FatalFrame(RawFrame(MessageKind, payload), rest);
  }

  lemma NamelessClientIsFatal(ip: Address, rest: string)
    requires Sendable(Client("", ip))
    ensures Fatal(Frame(Client("", ip)) + rest)
  {
    var f := RawFrame(ClientKind, Payload(Client("", ip)));
    assert f.payload[..2] == if ip.V4? then "v4" else "v6";
    FatalFrame(f, rest);
  }

  // Behind a disconnect nothing is fatal, as nothing is read.
  lemma NothingFatalBehindDisconnect(client: Word, rest: string)
    ensures Sendable(Disconnect(client)) && !Fatal(Frame(Disconnect(client)) + rest)
  {
    ObjectRoundTrip(Disconnect(client));
    var bye := RawFrame(DisconnectKind, Encode(client));
    FatalBehind([bye], rest);
    OneFrame(bye);
  }
}
