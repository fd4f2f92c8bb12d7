// One client's session in the daemon: what each request answers, changes and writes.
module Session {
  import opened Optional
  import opened Sorting
  import opened Words
  import opened Protocol

  // One message written to one log file; the timestamp is added when it reaches the file.
  datatype Write = Write(path: string, name: string, address: string, text: string)

  datatype State = State(
    handleCounter: Word,
    handles: map<string, Word>,
    openFiles: map<Word, string>,
    name: string,
    address: string,
    client: Word)

  function Fresh(client: Word): State {
    State(1, map[], map[], "", "", client)
  }

  const INVALID_HANDLE := "Invalid file handle."
  const WRONG_CLIENT := "Tried to disconnect wrong client handle."
  const HALF_CREATED := "Cannot get file path from half created File object."
  const FAREWELL := "Disconnected from logsvc daemon."

  function OpenedText(name: string): string { "Log opened by \"" + name + "\"." }

  function ClosedText(name: string): string { "Log closed by \"" + name + "\"." }

  // The successor of an unsigned int.
  function Next(n: Word): Word { (n + 1) % WORD }

  function AddHandle(s: State, path: string): State {
    if path in s.handles then s
    else s.(handleCounter := Next(s.handleCounter), handles := s.handles[path := s.handleCounter])
  }

  function AddFile(s: State, fh: Word, path: string): State {
    if fh in s.openFiles then s else s.(openFiles := s.openFiles[fh := path])
  }

  function ToFile(s: State, fh: Word, text: string): Write
    requires fh in s.openFiles
  {
    Write(s.openFiles[fh], s.name, s.address, text)
  }

  // The farewell goes to every open file, in the order of the handles.
  function Farewells(s: State, fhs: seq<Word>): seq<Write>
    requires forall fh | fh in fhs :: fh in s.openFiles
  {
    if fhs == [] then [] else
      assert fhs[|fhs| - 1] in fhs;
      Farewells(s, fhs[..|fhs| - 1]) + [ToFile(s, fhs[|fhs| - 1], FAREWELL)]
  }

  predicate WordLeq(a: Word, b: Word) { a <= b }

  lemma WordOrder()
    ensures TotalOrder(WordLeq)
  {
  }

  function OpenHandles(s: State): (fhs: seq<Word>)
    ensures forall fh :: fh in fhs <==> fh in s.openFiles
    ensures |fhs| == |s.openFiles.Keys|
  {
    WordOrder();
    Sorted(s.openFiles.Keys, WordLeq)
  }

  // The new state, the answer (none where the object has no business at the daemon), and the writes.
  datatype Effect = Effect(state: State, reply: Option<ProtObj>, writes: seq<Write>)

  function Rejected(s: State, reason: string): Effect {
    Effect(s, Some(NotAcknowledged(reason)), [])
  }

  function OpenPath(s: State, path: string): Effect {
    var s1 := AddHandle(s, path);
    var fh := s1.handles[path];
    var s2 := AddFile(s1, fh, path);
    Effect(s2, Some(FileHandle(fh)), [ToFile(s2, fh, OpenedText(s.name))])
  }

  function CloseHandle(s: State, fh: Word): Effect {
    if fh !in s.openFiles then Rejected(s, INVALID_HANDLE)
    else Effect(s.(openFiles := s.openFiles - {fh}), Some(Acknowledged), [ToFile(s, fh, ClosedText(s.name))])
  }

  function WriteTo(s: State, fh: Word, text: string): Effect {
    if fh !in s.openFiles then Rejected(s, INVALID_HANDLE)
    else Effect(s, Some(Acknowledged), [ToFile(s, fh, text)])
  }

  function Introduce(s: State, name: string, address: string): Effect {
    Effect(s.(name := name, address := address), Some(ClientHandle(s.client)), [])
  }

  function Dismiss(s: State, client: Word): Effect {
    if client != s.client then Rejected(s, WRONG_CLIENT)
    else Effect(s, Some(Acknowledged), Farewells(s, OpenHandles(s)))
  }

  // What acting on a received object does; show is how an address prints.
  function Act(s: State, m: ProtObj, show: Address -> string): Effect {
    match m
    case File(path) => if path == "invalid path" then Rejected(s, HALF_CREATED) else OpenPath(s, path)
    case CloseFile(fh) => CloseHandle(s, fh)
    case Message(fh, text) => WriteTo(s, fh, text)
    case Client(name, ip) => Introduce(s, name, show(ip))
    case Disconnect(client) => Dismiss(s, client)
    case _ => Effect(s, None, [])
  }

  // ---- the log directory ----

  datatype Stamped = Stamped(write: Write, stamp: string)

  // The line the daemon puts into the file.
  function LineOf(w: Stamped): string {
    "[" + w.stamp + ":" + w.write.name + ":" + w.write.address + "] " + w.write.text + "\n"
  }

  function Contents(files: map<string, string>, path: string): string {
    if path in files then files[path] else ""
  }

  function Append(files: map<string, string>, w: Stamped): map<string, string> {
    files[w.write.path := Contents(files, w.write.path) + LineOf(w)]
  }

  function AppendAll(files: map<string, string>, ws: seq<Stamped>): map<string, string> {
    if ws == [] then files else Append(AppendAll(files, ws[..|ws| - 1]), ws[|ws| - 1])
  }

  // The k-th write since the daemon started gets the k-th reading of the clock.
  function Stamp(writes: seq<Write>, clock: nat -> string, tick: nat): seq<Stamped> {
    seq(|writes|, i requires 0 <= i < |writes| => Stamped(writes[i], clock(tick + i)))
  }

  lemma StampNext(files: map<string, string>, writes: seq<Write>, w: Write, clock: nat -> string, tick: nat)
    ensures AppendAll(files, Stamp(writes + [w], clock, tick))
         == Append(AppendAll(files, Stamp(writes, clock, tick)), Stamped(w, clock(tick + |writes|)))
  {
    var all := Stamp(writes + [w], clock, tick);
    assert all[..|all| - 1] == Stamp(writes, clock, tick);
  }

  lemma {:induction false} StampMany(files: map<string, string>, a: seq<Write>, b: seq<Write>, clock: nat -> string,
                                     tick: nat, now: nat)
    requires now == tick + |a|
    ensures AppendAll(files, Stamp(a + b, clock, tick))
         == AppendAll(AppendAll(files, Stamp(a, clock, tick)), Stamp(b, clock, now))
    decreases |b|
  {
    if b == [] {
      assert a + b == a;
    } else {
      var init, w := b[..|b| - 1], b[|b| - 1];
      StampMany(files, a, init, clock, tick, now);
      StampBoth(files, a, init, w, clock, tick, now, now + |init|);
      assert b == init + [w];
    }
  }

  lemma StampBoth(files: map<string, string>, a: seq<Write>, b: seq<Write>, w: Write, clock: nat -> string,
                  tick: nat, now: nat, last: nat)
    requires now == tick + |a| && last == now + |b|
    requires AppendAll(files, Stamp(a + b, clock, tick))
          == AppendAll(AppendAll(files, Stamp(a, clock, tick)), Stamp(b, clock, now))
    ensures AppendAll(files, Stamp(a + (b + [w]), clock, tick))
         == AppendAll(AppendAll(files, Stamp(a, clock, tick)), Stamp(b + [w], clock, now))
  {
    StampNextAt(files, a + b, w, clock, tick, last);
    StampNextAt(AppendAll(files, Stamp(a, clock, tick)), b, w, clock, now, last);
    assert a + (b + [w]) == a + b + [w];
  }

  lemma StampNextAt(files: map<string, string>, writes: seq<Write>, w: Write, clock: nat -> string, tick: nat,
                    last: nat)
    requires last == tick + |writes|
    ensures AppendAll(files, Stamp(writes + [w], clock, tick))
         == Append(AppendAll(files, Stamp(writes, clock, tick)), Stamped(w, clock(last)))
  {
    StampNext(files, writes, w, clock, tick);
  }

  lemma StampOne(files: map<string, string>, w: Write, clock: nat -> string, tick: nat)
    ensures AppendAll(files, Stamp([w], clock, tick)) == Append(files, Stamped(w, clock(tick)))
    ensures AppendAll(files, Stamp([], clock, tick)) == files
  {
    StampNext(files, [], w, clock, tick);
    assert [] + [w] == [w] && Stamp([], clock, tick) == [];
  }

  lemma StampLater(files: map<string, string>, writes: seq<Write>, w: Write, clock: nat -> string, tick: nat,
                   now: nat, middle: map<string, string>, later: map<string, string>)
    requires middle == AppendAll(files, Stamp(writes, clock, tick))
    requires now == tick + |writes| && later == Append(middle, Stamped(w, clock(now)))
    ensures later == AppendAll(files, Stamp(writes + [w], clock, tick))
  {
    StampNext(files, writes, w, clock, tick);
  }

  lemma FarewellsNext(s: State, fhs: seq<Word>, i: nat)
    requires i < |fhs| && forall fh | fh in fhs :: fh in s.openFiles
    ensures Farewells(s, fhs[..i + 1]) == Farewells(s, fhs[..i]) + [ToFile(s, fhs[i], FAREWELL)]
  {
    assert fhs[..i + 1][..i] == fhs[..i];
  }

  // Files, and the clock that the timestamps come from.
  class Machine {
    const clock: nat -> string
    var ticks: nat
    var files: map<string, string>

    constructor (clock: nat -> string)
      ensures this.clock == clock && ticks == 0 && files == map[]
    {
      this.clock := clock;
      ticks, files := 0, map[];
    }

    method Timestamp() returns (stamp: string)
      modifies this`ticks
      ensures stamp == clock(old(ticks)) && ticks == old(ticks) + 1
    {
      stamp := clock(ticks);
      ticks := ticks + 1;
    }

    // Opening a log file creates it if need be.
    method Touch(path: string)
      modifies this`files
      ensures files == if path in old(files) then old(files) else old(files)[path := ""]
    {
      if path !in files { files := files[path := ""]; }
    }

    method AppendTo(path: string, line: string)
      modifies this`files
      ensures files == old(files)[path := Contents(old(files), path) + line]
    {
      files := files[path := Contents(files, path) + line];
    }
  }

  datatype Outcome<T> = Done(value: T) | Failed(reason: string)

  class RealSession {
    const machine: Machine
    var handleCounter: Word
    var openFilehandles: map<string, Word>
    var openFiles: map<Word, string>
    var clientName: string
    var clientAddress: string
    const clientHandle: Word

    function Value(): State
      reads this
    {
      State(handleCounter, openFilehandles, openFiles, clientName, clientAddress, clientHandle)
    }

    // The writes reached the machine's files, each with its own timestamp.
    twostate predicate Wrote(writes: seq<Write>)
      reads machine
    {
      && machine.ticks == old(machine.ticks) + |writes|
      && machine.files == AppendAll(old(machine.files), Stamp(writes, machine.clock, old(machine.ticks)))
    }

    constructor (machine: Machine, clientHandle: Word)
      ensures this.machine == machine
      ensures Value() == Fresh(clientHandle)
    {
      this.machine := machine;
      this.clientHandle := clientHandle;
      handleCounter := 1;
      openFilehandles, openFiles := map[], map[];
      clientName, clientAddress := "", "";
    }

    method OpenFile(path: string) returns (fh: Word)
      modifies this, machine
      ensures var e := OpenPath(old(Value()), path);
              Value() == e.state && e.reply == Some(FileHandle(fh)) && Wrote(e.writes)
    {
      fh := GetFilehandleForPath(path);
      OpenFileIfNecessary(fh, path);
      ghost var w := ToFile(Value(), fh, OpenedText(clientName));
      StampOne(old(machine.files), w, machine.clock, machine.ticks);
      var r := WriteMessage(fh, OpenedText(clientName));
    }

    method GetFilehandleForPath(path: string) returns (fh: Word)
      modifies this
      ensures Value() == AddHandle(old(Value()), path) && fh == Value().handles[path]
    {
      if path in openFilehandles {
        return openFilehandles[path];
      }
      fh := handleCounter;
      handleCounter := Next(handleCounter);
      openFilehandles := openFilehandles[path := fh];
    }

    method OpenFileIfNecessary(fh: Word, path: string)
      modifies this, machine`files
      ensures Value() == AddFile(old(Value()), fh, path)
      ensures machine.files == if fh in old(openFiles) || path in old(machine.files) then old(machine.files)
                               else old(machine.files)[path := ""]
    {
      if fh !in openFiles {
        machine.Touch(path);
        openFiles := openFiles[fh := path];
      }
    }

    method CloseFile(fh: Word) returns (r: Outcome<()>)
      modifies this, machine
      ensures var e := CloseHandle(old(Value()), fh);
              Value() == e.state && Wrote(e.writes) && e.reply == Some(Answer(r))
    {
      if fh in openFiles {
        StampOne(machine.files, ToFile(Value(), fh, ClosedText(clientName)), machine.clock, machine.ticks);
      }
      r := WriteMessage(fh, ClosedText(clientName));
      if r.Done? {
        openFiles := openFiles - {fh};
      }
    }

    method WriteMessage(fh: Word, message: string) returns (r: Outcome<()>)
      modifies machine
      ensures fh in openFiles ==>
                && r == Done(()) && machine.ticks == old(machine.ticks) + 1
                && machine.files == Append(old(machine.files),
                                           Stamped(ToFile(Value(), fh, message), machine.clock(old(machine.ticks))))
      ensures fh !in openFiles ==> r == Failed(INVALID_HANDLE) && unchanged(machine)
    {
      if fh !in openFiles {
        return Failed(INVALID_HANDLE);
      }
      var stamp := machine.Timestamp();
      machine.AppendTo(openFiles[fh], "[" + stamp + ":" + clientName + ":" + clientAddress + "] " + message + "\n");
      return Done(());
    }

    method SetClientInfo(name: string, address: string) returns (client: Word)
      modifies this
      ensures var e := Introduce(old(Value()), name, address);
              Value() == e.state && e.reply == Some(ClientHandle(client)) && e.writes == []
    {
      clientName := name;
      clientAddress := address;
      return clientHandle;
    }

    method DisconnectClient(client: Word) returns (r: Outcome<()>)
      modifies machine
      ensures r == if client == clientHandle then Done(()) else Failed(WRONG_CLIENT)
      ensures Wrote(if client == clientHandle then Farewells(Value(), OpenHandles(Value())) else [])
    {
      if client != clientHandle {
        return Failed(WRONG_CLIENT);
      }
      SayFarewell();
      return Done(());
    }

    method SayFarewell()
      modifies machine
      ensures Wrote(Farewells(Value(), OpenHandles(Value())))
    {
      var fhs := OpenHandles(Value());
      ghost var s, clock, files, tick, done := Value(), machine.clock, machine.files, machine.ticks, [];
      for i := 0 to |fhs|
        invariant Value() == s && done == Farewells(s, fhs[..i])
        invariant machine.ticks == tick + |done|
        invariant machine.files == AppendAll(files, Stamp(done, clock, tick))
      {
        ghost var w := ToFile(s, fhs[i], FAREWELL);
        FarewellsNext(s, fhs, i);
        ghost var before, now := machine.files, machine.ticks;
        var written := WriteMessage(fhs[i], FAREWELL);
        assert machine.files == Append(before, Stamped(w, clock(now)));
        StampLater(files, done, w, clock, tick, now, before, machine.files);
        done := done + [w];
      }
      assert fhs[..|fhs|] == fhs;
    }

    // Receivable::act on the daemon's side: exceptions become refusals, and an object that
    // only a client should receive gets no answer.
    method Receive(m: ProtObj, show: Address -> string) returns (reply: Option<ProtObj>)
      modifies this, machine
      ensures var e := Act(old(Value()), m, show);
              Value() == e.state && reply == e.reply && Wrote(e.writes)
    {
      match m
      case File(path) =>
        if path == "invalid path" {
          return Some(NotAcknowledged(HALF_CREATED));
        }
        var fh := OpenFile(path);
        return Some(FileHandle(fh));
      case CloseFile(fh) =>
        var r := CloseFile(fh);
        return Some(Answer(r));
      case Message(fh, text) =>
        if fh in openFiles {
          StampOne(machine.files, ToFile(Value(), fh, text), machine.clock, machine.ticks);
        }
        var r := WriteMessage(fh, text);
        return Some(Answer(r));
      case Client(name, ip) =>
        var client := SetClientInfo(name, show(ip));
        return Some(ClientHandle(client));
      case Disconnect(client) =>
        var r := DisconnectClient(client);
        return Some(Answer(r));
      case _ =>
        return None;
    }
  }

  function Answer(r: Outcome<()>): ProtObj {
    match r case Done(_) => Acknowledged case Failed(reason) => NotAcknowledged(reason)
  }
}
