// The C test client, the library calls it makes, and the system test that runs and checks it.
module ClientProgram {
  import opened Optional
  import opened Words
  import opened Protocol
  import opened Session
  import opened Connection
  import opened SocketSession
  import opened Daemon
  import opened Checker
  import opened Acceptance
  import opened EndToEnd

  // Replies of the daemon are read back by the client as they were sent.
  lemma ReplyReadBack(s: State, m: ProtObj, show: Address -> string)
    requires Act(s, m, show).reply.Some?
    ensures var reply := Act(s, m, show).reply.value;
            && Sendable(reply)
            && Create(Frame(reply)[..HEADER_LENGTH]) == Created(KindOf(reply), |Payload(reply)|)
            && AllowedLength(KindOf(reply), |Payload(reply)|)
            && |Frame(reply)| == HEADER_LENGTH + |Payload(reply)|
            && ReadPayload(KindOf(reply), Frame(reply)[HEADER_LENGTH..]) == Some(reply)
  {
    var reply := Act(s, m, show).reply.value;
    RepliesFit(s, m, show);
    ObjectRoundTrip(reply);
    FrameSplits(reply, "");
    assert Frame(reply) + "" == Frame(reply) && Payload(reply) + "" == Payload(reply);
    HeaderAccepted(KindOf(reply), |Payload(reply)|);
  }

  // One request and its reply: the client writes a frame, reads a header, then the payload.
  method Send(server: DefaultSocketSession, m: ProtObj) returns (reply: ProtObj)
    requires Sendable(m) && Deliverable(m)
    requires server.Ready() && server.Value() == Waiting(server.executor.Value())
    modifies server, server.socket, server.executor, server.executor.machine
    ensures server.Ready()
    ensures var e := Act(old(server.executor.Value()), m, server.show);
            && e.reply == Some(reply)
            && server.Value() == Conn(e.state, if m.Disconnect? then Stopped else AwaitHeader, "")
            && server.executor.Wrote(e.writes)
    ensures Sendable(reply) && server.socket.outgoing == old(server.socket.outgoing) + Frame(reply)
  {
    ghost var s := server.executor.Value();
    ServeOne(s, m, server.show);
    ReplyReadBack(s, m, server.show);
    ghost var expected := Act(s, m, server.show).reply.value;
    assert Frames([expected]) == Frame(expected) + "" == Frame(expected);
    var read := |server.socket.outgoing|;
    server.Deliver(Frame(m));
    var bytes := server.socket.outgoing[read..];
    assert bytes == Frame(expected);
    var created := Create(bytes[..HEADER_LENGTH]);
    var received := ReadPayload(created.kind, bytes[HEADER_LENGTH..HEADER_LENGTH + created.payloadLength]);
    return received.value;
  }

  const APP := "cloglinetofile"

  lemma Introduction(client: Word, show: Address -> string)
    ensures var e := Act(Fresh(client), Client(APP, LOOPBACK), show);
            && e.reply == Some(ClientHandle(client)) && e.writes == []
            && e.state == State(1, map[], map[], APP, show(LOOPBACK), client)
  {
  }

  lemma Opening(client: Word, fname: string, show: Address -> string)
    requires fname != "invalid path"
    ensures Act(State(1, map[], map[], APP, show(LOOPBACK), client), File(fname), show)
         == Effect(Opened(fname, APP, client, show), Some(FileHandle(1)),
                   [Write(fname, APP, show(LOOPBACK), OpenedText(APP))])
  {
  }

  lemma Writing(client: Word, fname: string, text: string, show: Address -> string)
    ensures Act(Opened(fname, APP, client, show), Message(1, text), show)
         == Effect(Opened(fname, APP, client, show), Some(Acknowledged), [Write(fname, APP, show(LOOPBACK), text)])
  {
  }

  lemma Closing(client: Word, fname: string, show: Address -> string)
    ensures var e := Act(Opened(fname, APP, client, show), CloseFile(1), show);
            && e.reply == Some(Acknowledged)
            && e.writes == [Write(fname, APP, show(LOOPBACK), ClosedText(APP))]
            && e.state.openFiles == map[] && e.state.client == client
            && Act(e.state, Disconnect(client), show) == Effect(e.state, Some(Acknowledged), [])
  {
    var s := Act(Opened(fname, APP, client, show), CloseFile(1), show).state;
    assert s.openFiles == map[];
    assert |OpenHandles(s)| == |s.openFiles.Keys| == 0;
  }

  // logsvc_open: the first file makes the host connect and introduce the client.
  method OpenLog(fname: string, server: DefaultSocketSession) returns (log: Option<Word>, client: Word)
    requires server.Ready() && server.Value() == NewConn(server.executor.clientHandle)
    requires 4 + |fname| < WORD
    modifies server, server.socket, server.executor, server.executor.machine
    ensures client == server.executor.clientHandle
    ensures log == if fname == "invalid path" then None else Some(1)
    ensures log.None? ==> server.executor.Wrote([])
    ensures log.Some? ==>
              && server.Ready() && server.Value() == Waiting(Opened(fname, APP, client, server.show))
              && server.executor.Wrote([Write(fname, APP, server.show(LOOPBACK), OpenedText(APP))])
  {
    FixedPartsDelivered(fname, APP, server.executor.clientHandle);
    Introduction(server.executor.clientHandle, server.show);
    var introduced := Send(server, Client(APP, LOOPBACK));
    client := introduced.client;
    if fname != "invalid path" {
      Opening(client, fname, server.show);
    }
    var opening := Send(server, File(fname));
    log := if opening.FileHandle? then Some(opening.fh) else None;
  }

  lemma WrittenLater(fname: string, args: seq<string>, i: nat, address: string)
    requires i < |args|
    ensures Written(fname, APP, args[..i + 1], address)
         == Written(fname, APP, args[..i], address) + [Write(fname, APP, address, args[i])]
  {
  }

  // logsvc_logln, once for each argument.
  method LogLines(args: seq<string>, log: Word, server: DefaultSocketSession, ghost fname: string, ghost client: Word)
    requires server.Ready() && server.Value() == Waiting(Opened(fname, APP, client, server.show)) && log == 1
    requires forall a | a in args :: 4 + |a| < WORD
    modifies server, server.socket, server.executor, server.executor.machine
    ensures server.Ready() && server.Value() == old(server.Value())
    ensures server.executor.Wrote(Written(fname, APP, args, server.show(LOOPBACK)))
  {
    ghost var machine, address := server.executor.machine, server.show(LOOPBACK);
    ghost var files, tick, clock := machine.files, machine.ticks, machine.clock;
    for i := 0 to |args|
      invariant server.Ready() && server.Value() == old(server.Value())
      invariant machine.ticks == tick + i
      invariant machine.files == AppendAll(files, Stamp(Written(fname, APP, args[..i], address), clock, tick))
    {
      MessageDelivered(args[i]);
      Writing(client, fname, args[i], server.show);
      ghost var middle, now := machine.files, machine.ticks;
      var written := Send(server, Message(log, args[i]));
      LogMore(files, Written(fname, APP, args[..i], address), [Write(fname, APP, address, args[i])], clock, tick,
              middle, now, machine.files);
      WrittenLater(fname, args, i, address);
    }
    assert args[..|args|] == args;
  }

  // logsvc_close, then logsvc_disconnect.
  method CloseLog(log: Word, client: Word, server: DefaultSocketSession, ghost fname: string)
    requires server.Ready() && server.Value() == Waiting(Opened(fname, APP, client, server.show)) && log == 1
    modifies server, server.socket, server.executor, server.executor.machine
    ensures server.Value().phase == Stopped && server.Value().session.openFiles == map[]
    ensures server.executor.Wrote([Write(fname, APP, server.show(LOOPBACK), ClosedText(APP))])
  {
    FixedPartsDelivered("", APP, client);
    Closing(client, fname, server.show);
    var closed := Send(server, CloseFile(log));
    var disconnected := Send(server, Disconnect(client));
  }

  // cloglinetofile's main: the exit code, and what reached the daemon.
  method CLogLineToFile(argv: seq<string>, hostCreated: bool, reachable: bool, server: DefaultSocketSession)
      returns (exitCode: int)
    requires server.Ready() && server.Value() == NewConn(server.executor.clientHandle)
    requires forall a | a in argv :: 4 + |a| < WORD
    modifies server, server.socket, server.executor, server.executor.machine
    ensures exitCode == if |argv| < 3 then -1
                        else if !hostCreated then -2
                        else if !reachable || argv[1] == "invalid path" then -3
                        else 0
    ensures exitCode != 0 ==> server.executor.Wrote([])
    ensures exitCode == 0 ==>
              && server.Value().phase == Stopped && server.Value().session.openFiles == map[]
              && server.executor.Wrote(ScriptWrites(argv[1], APP, argv[2..], server.show(LOOPBACK)))
  {
    ghost var noWrites: seq<Write> := [];
    assert server.executor.Wrote(noWrites);
    if |argv| < 3 {
      return -1;
    }
    if !hostCreated {
      return -2;
    }
    if !reachable {
      return -3;
    }
    ghost var machine, address := server.executor.machine, server.show(LOOPBACK);
    ghost var files0, tick0, clock := machine.files, machine.ticks, machine.clock;
    var fname, args := argv[1], argv[2..];
    assert fname in argv && forall a | a in args :: a in argv;
    var log, client := OpenLog(fname, server);
    if log.None? {
      return -3;
    }
    ghost var files1, tick1 := machine.files, machine.ticks;
    LogLines(args, log.value, server, fname, client);
    ghost var files2, tick2 := machine.files, machine.ticks;
    CloseLog(log.value, client, server, fname);
    ghost var beginning := [Write(fname, APP, address, OpenedText(APP))];
    ghost var lines := Written(fname, APP, args, address);
    ghost var ending := [Write(fname, APP, address, ClosedText(APP))];
    LogMore(files0, beginning, lines, clock, tick0, files1, tick1, files2);
    LogMore(files0, beginning + lines, ending, clock, tick0, files2, tick2, machine.files);
    assert ScriptWrites(fname, APP, args, address) == beginning + lines + ending;
    return 0;
  }

  // The text of a file with one line for each message, the k-th stamped with the k-th reading.
  function LogText(app: string, address: string, texts: seq<string>, clock: nat -> string): string {
    if texts == [] then "" else
      var k := |texts| - 1;
      LogText(app, address, texts[..k], clock)
      + ("[" + clock(k) + ":" + app + ":" + address + "] " + texts[k] + "\n")
  }

  lemma {:induction false} WrittenText(fname: string, app: string, texts: seq<string>, address: string,
                                       clock: nat -> string)
    requires texts != []
    ensures AppendAll(map[], Stamp(Written(fname, app, texts, address), clock, 0))
         == map[fname := LogText(app, address, texts, clock)]
  {
    var init, k := texts[..|texts| - 1], |texts| - 1;
    var w := Write(fname, app, address, texts[k]);
    var line := LineOf(Stamped(w, clock(k)));
    assert Written(fname, app, texts, address) == Written(fname, app, init, address) + [w];
    StampNextAt(map[], Written(fname, app, init, address), w, clock, 0, k);
    assert line == "[" + clock(k) + ":" + app + ":" + address + "] " + texts[k] + "\n";
    if init == [] {
      assert Written(fname, app, init, address) == [] && Stamp([], clock, 0) == [];
      assert "" + line == line;
    } else {
      WrittenText(fname, app, init, address, clock);
    }
  }

  lemma ScriptText(fname: string, args: seq<string>, address: string, clock: nat -> string)
    ensures AppendAll(map[], Stamp(ScriptWrites(fname, APP, args, address), clock, 0))
         == map[fname := LogText("cloglinetofile", address, ["Log opened by \"cloglinetofile\"."] + args
                                                            + ["Log closed by \"cloglinetofile\"."], clock)]
  {
    var texts := [OpenedText(APP)] + args + [ClosedText(APP)];
    WrittenText(fname, APP, texts, address, clock);
    assert ScriptWrites(fname, APP, args, address) == Written(fname, APP, texts, address);
    QuotedApp();
  }

  lemma QuotedApp()
    ensures OpenedText(APP) == "Log opened by \"cloglinetofile\"."
    ensures ClosedText(APP) == "Log closed by \"cloglinetofile\"."
  {
  }

  lemma LoopbackOctets()
    ensures LOOPBACK == V4([127 as char, 0 as char, 0 as char, 1 as char])
  {
  }

  // A client that has the daemon to itself and is gone in the end is the simplest run. This is
  // what the log directory then holds, character by character.
  lemma SingleClientFile(fname: string, args: seq<string>, clock: nat -> string, show: Address -> string)
    requires Transmissible(fname, APP, args)
    ensures Files(map[], Run(Visit(ScriptBytes(fname, APP, args, 1)), show).journal, clock)
         == map[fname := LogText("cloglinetofile", show(V4([127 as char, 0 as char, 0 as char, 1 as char])),
                                 ["Log opened by \"cloglinetofile\"."] + args
                                 + ["Log closed by \"cloglinetofile\"."], clock)]
  {
    SingleClientJournal(fname, args, show);
    LoopbackOctets();
    OwnJournal(ScriptWrites(fname, APP, args, show(LOOPBACK)));
    ScriptText(fname, args, show(LOOPBACK), clock);
  }

  lemma SingleClientJournal(fname: string, args: seq<string>, show: Address -> string)
    requires Transmissible(fname, APP, args)
    ensures Run(Visit(ScriptBytes(fname, APP, args, 1)), show).journal
         == Tagged(1, ScriptWrites(fname, APP, args, show(LOOPBACK)))
  {
    assert ClientOf(1) == 1;
    OneVisit(ScriptBytes(fname, APP, args, 1), show);
    ScriptAlone(1, fname, APP, args, show);
  }

  // And the checker's verdict on it.
  lemma SingleClient(fname: string, args: seq<string>, clock: nat -> string, show: Address -> string)
    requires Transmissible(fname, APP, args)
    requires Plain(show(LOOPBACK)) && PlainClock(clock)
    requires forall x | x in args :: Clean(x, APP)
    ensures var files := AppendAll(map[], Stamp(ScriptWrites(fname, APP, args, show(LOOPBACK)), clock, 0));
            && fname in files
            && (Verdict(Some(files[fname]), APP, args) <==> Contiguous(args))
  {
    assert ClientOf(1) == 1;
    var bytes := ScriptBytes(fname, APP, args, 1);
    OneVisit(bytes, show);
    SingleClientJournal(fname, args, show);
    OwnJournal(ScriptWrites(fname, APP, args, show(LOOPBACK)));
    AppIsPlain();
    SharedFileVerdict(Visit(bytes), 1, fname, APP, args, map[], clock, show);
  }

  lemma AppIsPlain()
    ensures Plain(APP) && ']' !in APP
  {
  }

  lemma OwnJournal(ws: seq<Write>)
    ensures AllWrites(Tagged(1, ws)) == ws && forall e | e in Tagged(1, ws) :: e.session == 1
  {
  }

  function Visit(bytes: string): seq<Event> {
    [Accepted, Arrived(1, bytes), ConnectionLost(1)]
  }

  lemma OneVisit(bytes: string, show: Address -> string)
    ensures var w, r := Run(Visit(bytes), show), Alone(1, bytes, show);
            w.accepted == 1 && Seen(Visit(bytes), 1, show) == bytes && w.journal == Tagged(1, r.writes)
  {
    var c := NewConn(ClientOf(1));
    var w1 := World(1, map[1 := c], [], [], false);
    assert [Accepted][..0] == [];
    assert Run([Accepted], show) == w1 && Seen([Accepted], 1, show) == "";
    var es := [Accepted, Arrived(1, bytes)];
    assert es[..1] == [Accepted];
    assert Run(es, show) == Step(w1, Arrived(1, bytes), show);
    assert Seen(es, 1, show) == "" + bytes == bytes;
    assert Run(es, show).journal == [] + Tagged(1, Alone(1, bytes, show).writes);
    assert Visit(bytes)[..2] == es;
  }

  // The system test itself: with the file removed beforehand and a daemon running, the C client
  // logs its arguments and the checker looks at the file. It passes exactly when equal arguments
  // stand together; for a, few and strings it does.
  method CLogLineToFileTest(fname: string, args: seq<string>, clock: nat -> string, show: Address -> string)
      returns (ok: bool, report: seq<Diagnostic>)
    requires args != [] && Transmissible(fname, APP, args) && 4 + |fname| < WORD
    requires Plain(show(LOOPBACK)) && PlainClock(clock)
    requires forall x | x in args :: Clean(x, APP)
    ensures ok <==> Contiguous(args)
    ensures (forall i, j | 0 <= i < j < |args| :: args[i] != args[j]) ==> ok
    ensures ok <==> report == []
  {
    var machine := new Machine(clock);
    var session := new RealSession(machine, ClientOf(1));
    var socket := new Socket();
    var server := new DefaultSocketSession(socket, session, show);
    server.StartListen();

    ghost var ws := ScriptWrites(fname, APP, args, show(LOOPBACK));
    var argv := ["systest/cloglinetofile", fname] + args;
    assert argv[1] == fname && argv[2..] == args;
    var exitCode := CLogLineToFile(argv, true, true, server);
    assert exitCode == 0;
    assert machine.files == AppendAll(map[], Stamp(ws, clock, 0));
    SingleClient(fname, args, clock, show);
    DifferentIsContiguous(args);
    ok, report := CheckLoggedLines(Some(machine.files[fname]), APP, args);
  }

  lemma DifferentIsContiguous(args: seq<string>)
    ensures (forall i, j | 0 <= i < j < |args| :: args[i] != args[j]) ==> Contiguous(args)
  {
  }
}
