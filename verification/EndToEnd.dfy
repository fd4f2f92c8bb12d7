// From the calls of a client program to the verdict on the log file it shares with others.
module EndToEnd {
  import opened Optional
  import opened Words
  import opened Protocol
  import opened Session
  import opened Connection
  import opened Search
  import opened Records
  import opened Checker
  import opened Acceptance
  import opened Daemon

  // What a client program sends that opens one file, logs its arguments, closes and disconnects.
  function Script(fname: string, app: string, args: seq<string>, client: Word): seq<ProtObj> {
    [Client(app, LOOPBACK), File(fname)] + Messages(args) + [CloseFile(1), Disconnect(client)]
  }

  function Messages(args: seq<string>): (ms: seq<ProtObj>)
    ensures |ms| == |args| && forall i | 0 <= i < |args| :: ms[i] == Message(1, args[i])
  {
    seq(|args|, i requires 0 <= i < |args| => Message(1, args[i]))
  }

  // What the daemon writes for it.
  function ScriptWrites(fname: string, app: string, args: seq<string>, address: string): (ws: seq<Write>)
    ensures |ws| == |args| + 2
    ensures forall w | w in ws :: w.path == fname && w.name == app && w.address == address
    ensures ws[0].text == OpenedText(app) && ws[|args| + 1].text == ClosedText(app)
    ensures forall i | 0 <= i < |args| :: ws[i + 1].text == args[i]
  {
    [Write(fname, app, address, OpenedText(app))]
    + seq(|args|, i requires 0 <= i < |args| => Write(fname, app, address, args[i]))
    + [Write(fname, app, address, ClosedText(app))]
  }

  // Names and texts that fit into a payload; the daemon refuses an empty client name and the
  // one file name that stands for a half created object.
  predicate Transmissible(fname: string, app: string, args: seq<string>) {
    && fname != "invalid path" && |fname| < WORD
    && app != "" && 6 + |app| < WORD
    && forall a | a in args :: 4 + |a| < WORD
  }

  lemma ScriptDelivered(fname: string, app: string, args: seq<string>, client: Word)
    requires Transmissible(fname, app, args)
    ensures forall m | m in Script(fname, app, args, client) :: Sendable(m) && Deliverable(m)
    ensures forall i | 0 <= i < |args| + 3 :: !Script(fname, app, args, client)[i].Disconnect?
  {
    var script, ms := Script(fname, app, args, client), Messages(args);
    FixedPartsDelivered(fname, app, client);
    forall m | m in script ensures Sendable(m) && Deliverable(m) {
      var i :| 0 <= i < |script| && script[i] == m;
      if 2 <= i < |args| + 2 {
        assert m == ms[i - 2] && args[i - 2] in args;
        MessageDelivered(args[i - 2]);
      }
    }
    assert forall i | 2 <= i < |args| + 2 :: script[i] == ms[i - 2];
  }

  lemma MessageDelivered(text: string)
    requires 4 + |text| < WORD
    ensures Sendable(Message(1, text)) && Deliverable(Message(1, text))
  {
    GarbledExactly(1);
  }

  lemma FixedPartsDelivered(fname: string, app: string, client: Word)
    requires |fname| < WORD && app != "" && 6 + |app| < WORD
    ensures Sendable(Client(app, LOOPBACK)) && Deliverable(Client(app, LOOPBACK))
    ensures Sendable(File(fname)) && Deliverable(File(fname))
    ensures Sendable(CloseFile(1)) && Deliverable(CloseFile(1))
    ensures Sendable(Disconnect(client)) && Deliverable(Disconnect(client))
  {
    assert |LOOPBACK.bytes| == 4;
    assert |Payload(Client(app, LOOPBACK))| == 6 + |app|;
  }

  // The session while the script's messages arrive.
  function Opened(fname: string, app: string, client: Word, show: Address -> string): State {
    State(2, map[fname := 1], map[1 := fname], app, show(LOOPBACK), client)
  }

  function Written(fname: string, app: string, texts: seq<string>, address: string): (ws: seq<Write>)
    ensures |ws| == |texts| && forall i | 0 <= i < |texts| :: ws[i] == Write(fname, app, address, texts[i])
  {
    seq(|texts|, i requires 0 <= i < |texts| => Write(fname, app, address, texts[i]))
  }

  lemma {:induction false} PerformMessages(fname: string, app: string, args: seq<string>, client: Word,
                                           last: seq<ProtObj>, show: Address -> string)
    ensures var s := Opened(fname, app, client, show);
            Perform(s, Messages(args) + last, show).writes
            == Written(fname, app, args, show(LOOPBACK)) + Perform(s, last, show).writes
    ensures var s := Opened(fname, app, client, show);
            Perform(s, Messages(args) + last, show).conn == Perform(s, last, show).conn
    decreases |args|
  {
    var s := Opened(fname, app, client, show);
    if args == [] {
      assert Messages(args) + last == last;
    } else {
      PerformMessages(fname, app, args[1..], client, last, show);
      var ms := Messages(args) + last;
      MessagesNext(args, last);
      PerformMessage(fname, app, args[0], ms, client, show);
      WrittenNext(fname, app, args, show(LOOPBACK), Perform(s, last, show).writes);
    }
  }

  lemma MessagesNext(args: seq<string>, last: seq<ProtObj>)
    requires args != []
    ensures var ms := Messages(args) + last;
            ms[0] == Message(1, args[0]) && ms[1..] == Messages(args[1..]) + last
  {
  }

  lemma WrittenNext(fname: string, app: string, texts: seq<string>, address: string, more: seq<Write>)
    requires texts != []
    ensures Written(fname, app, texts, address) + more
         == [Write(fname, app, address, texts[0])] + (Written(fname, app, texts[1..], address) + more)
  {
    assert Written(fname, app, texts, address)
        == [Write(fname, app, address, texts[0])] + Written(fname, app, texts[1..], address);
  }

  lemma PerformMessage(fname: string, app: string, text: string, ms: seq<ProtObj>, client: Word,
                       show: Address -> string)
    requires ms != [] && ms[0] == Message(1, text)
    ensures var s := Opened(fname, app, client, show);
            && Perform(s, ms, show).conn == Perform(s, ms[1..], show).conn
            && Perform(s, ms, show).writes
               == [Write(fname, app, show(LOOPBACK), text)] + Perform(s, ms[1..], show).writes
  {
    var s := Opened(fname, app, client, show);
    assert Act(s, ms[0], show) == Effect(s, Some(Acknowledged), [Write(fname, app, show(LOOPBACK), text)]);
  }

  lemma PerformScript(fname: string, app: string, args: seq<string>, client: Word, show: Address -> string)
    requires fname != "invalid path"
    ensures var r := Perform(Fresh(client), Script(fname, app, args, client), show);
            && r.writes == ScriptWrites(fname, app, args, show(LOOPBACK))
            && r.conn.phase == Stopped && r.conn.session.openFiles == map[]
  {
    var address, last := show(LOOPBACK), [CloseFile(1), Disconnect(client)];
    var script, tail := Script(fname, app, args, client), Messages(args) + last;
    assert script[0] == Client(app, LOOPBACK) && script[1..][0] == File(fname) && script[1..][1..] == tail;
    var introduced := Act(Fresh(client), script[0], show).state;
    var e := Act(introduced, File(fname), show);
    assert e.state == Opened(fname, app, client, show);
    PerformMessages(fname, app, args, client, last, show);
    PerformClosing(fname, app, client, show);
    var r1 := Perform(introduced, script[1..], show);
    assert r1.writes == e.writes + Perform(e.state, tail, show).writes;
    assert Perform(Fresh(client), script, show).writes == [] + r1.writes == r1.writes;
  }

  lemma PerformClosing(fname: string, app: string, client: Word, show: Address -> string)
    ensures var r := Perform(Opened(fname, app, client, show), [CloseFile(1), Disconnect(client)], show);
            && r.writes == [Write(fname, app, show(LOOPBACK), ClosedText(app))]
            && r.conn.phase == Stopped && r.conn.session.openFiles == map[]
  {
    var s := Opened(fname, app, client, show);
    var closed := Act(s, CloseFile(1), show).state;
    assert closed.openFiles == map[];
    assert |OpenHandles(closed)| == |closed.openFiles.Keys| == 0;
    assert [CloseFile(1), Disconnect(client)][1..] == [Disconnect(client)];
  }

  // ---- the records of one session in a file ----

  // The record is this write at some reading of the clock.
  ghost predicate Stamped(r: Record, w: Write, clock: nat -> string) {
    r.text == w.text && exists k: nat :: r.prefix == PrefixOf(w, clock(k))
  }

  // Session id's records in the file, given that it wrote to no other.
  lemma {:induction false} OwnRecords(journal: seq<Entry<Write>>, id: nat, path: string, clock: nat -> string)
    requires forall e | e in journal && e.session == id :: e.item.path == path
    ensures var own, ws := OwnedBy(RecordsIn(journal, path, clock), id), ItemsOf(journal, id);
            && |own| == |ws|
            && forall i | 0 <= i < |ws| :: Stamped(own[i], ws[i], clock)
    decreases |journal|
  {
    if journal != [] {
      var k := |journal| - 1;
      var init, e := journal[..k], journal[k];
      assert forall x | x in init :: x in journal;
      assert e in journal;
      OwnRecords(init, id, path, clock);
      if e.item.path == path {
        OwnedByNext(RecordsIn(init, path, clock), Record(e.session, PrefixOf(e.item, clock(k)), e.item.text), id);
      }
    }
  }

  lemma {:induction false} OwnedByNext(rs: seq<Record>, r: Record, id: nat)
    ensures OwnedBy(rs + [r], id) == if r.owner == id then OwnedBy(rs, id) + [r] else OwnedBy(rs, id)
  {
    if rs == [] {
      assert rs + [r] == [r] && [r][1..] == [];
    } else {
      var first := if rs[0].owner == id then [rs[0]] else [];
      OwnedByNext(rs[1..], r, id);
      assert (rs + [r])[1..] == rs[1..] + [r] && (rs + [r])[0] == rs[0];
      assert OwnedBy(rs + [r], id) == first + OwnedBy(rs[1..] + [r], id);
    }
  }

  lemma {:induction false} WritesInJournal(journal: seq<Entry<Write>>, id: nat)
    ensures forall e | e in journal && e.session == id :: e.item in ItemsOf(journal, id)
  {
    if journal != [] {
      var k := |journal| - 1;
      WritesInJournal(journal[..k], id);
      assert journal == journal[..k] + [journal[k]];
    }
  }

  // ---- the verdict ----

  // Timestamps, names and addresses that cannot be mistaken for a line end or a marker.
  predicate Plain(s: string) { '\n' !in s && '"' !in s }

  ghost predicate PlainClock(clock: nat -> string) { forall k: nat :: Plain(clock(k)) }

  lemma NoQuoteNoMarker(s: string, app: string)
    requires '"' !in s
    ensures FreeOfMarkers(s, app)
  {
    assert OpenedMarker(app)[14] == '"' && ClosedMarker(app)[14] == '"';
    forall i: nat ensures !MatchesAt(OpenedMarker(app), s, i) && !MatchesAt(ClosedMarker(app), s, i) {
      if i + 14 < |s| { assert s[i + 14] in s; }
      assert i + |OpenedMarker(app)| <= |s| ==> s[i..i + |OpenedMarker(app)|][14] == s[i + 14];
      assert i + |ClosedMarker(app)| <= |s| ==> s[i..i + |ClosedMarker(app)|][14] == s[i + 14];
    }
  }

  lemma MarkerTexts(app: string)
    ensures Occurs(OpenedMarker(app), OpenedText(app)) && !Occurs(ClosedMarker(app), OpenedText(app))
    ensures Occurs(ClosedMarker(app), ClosedText(app)) && !Occurs(OpenedMarker(app), ClosedText(app))
  {
    var o, c, s, t := OpenedMarker(app), ClosedMarker(app), OpenedText(app), ClosedText(app);
    assert s == o + "." && t == c + ".";
    assert MatchesAt(o, s, 0) && MatchesAt(c, t, 0);
    assert o[0] == 'L' && c[0] == 'L' && o[4] == 'o' && c[4] == 'c';
    forall i: nat ensures !MatchesAt(c, s, i) && !MatchesAt(o, t, i) {
      if i == 0 {
        assert s[0..|c|][4] == 'o' && t[0..|o|][4] == 'c';
      } else if i == 1 {
        assert s[1..1 + |c|][0] == 'o' && t[1..1 + |o|][0] == 'o';
      }
    }
  }

  // The records of the script's writes are an honest log.
  lemma ScriptIsHonest(own: seq<Record>, fname: string, app: string, args: seq<string>, address: string,
                       clock: nat -> string)
    requires Plain(app) && ']' !in app && Plain(address) && PlainClock(clock)
    requires forall x | x in args :: Clean(x, app)
    requires |own| == |args| + 2
    requires var ws := ScriptWrites(fname, app, args, address);
             forall i | 0 <= i < |own| :: Stamped(own[i], ws[i], clock)
    ensures Honest(own, app, args)
  {
    MarkerTexts(app);
    var ws := ScriptWrites(fname, app, args, address);
    forall i | 0 <= i < |own| ensures Tidy(own[i]) && ']' !in own[i].text && FreeOfMarkers(own[i].prefix, app) {
      var k: nat :| own[i].prefix == PrefixOf(ws[i], clock(k));
      assert ws[i] in ws;
      ScriptTextsAreOneLine(fname, app, args, address, i);
      WriteIsTidy(own[i], ws[i], clock(k), app);
    }
  }

  lemma ScriptTextsAreOneLine(fname: string, app: string, args: seq<string>, address: string, i: nat)
    requires '\n' !in app && ']' !in app && i < |args| + 2
    requires forall x | x in args :: '\n' !in x && ']' !in x
    ensures var w := ScriptWrites(fname, app, args, address)[i]; '\n' !in w.text && ']' !in w.text
  {
    MarkersAreOneLine(app);
    assert 1 <= i <= |args| ==> args[i - 1] in args;
  }

  lemma MarkersAreOneLine(app: string)
    requires '\n' !in app && ']' !in app
    ensures '\n' !in OpenedText(app) && ']' !in OpenedText(app)
    ensures '\n' !in ClosedText(app) && ']' !in ClosedText(app)
  {
  }

  lemma WriteIsTidy(r: Record, w: Write, stamp: string, app: string)
    requires r.prefix == PrefixOf(w, stamp) && r.text == w.text
    requires Plain(w.name) && Plain(w.address) && Plain(stamp)
    requires '\n' !in w.text && ']' !in w.text
    ensures Tidy(r) && ']' !in r.text && FreeOfMarkers(r.prefix, app)
  {
    NoQuoteNoMarker(r.prefix, app);
  }

  // What another session may write to the file without disturbing the check.
  ghost predicate Harmless(w: Write, app: string, args: seq<string>) {
    && Plain(w.name) && Plain(w.address)
    && '\n' !in w.text && ']' !in w.text && w.text !in args && FreeOfMarkers(w.text, app)
  }

  lemma {:induction false} OthersAreSilent(journal: seq<Entry<Write>>, id: nat, fname: string, app: string,
                                           args: seq<string>, clock: nat -> string)
    requires Plain(app) && ']' !in app && PlainClock(clock)
    requires forall x | x in args :: Clean(x, app)
    requires forall e | e in journal && e.session != id && e.item.path == fname :: Harmless(e.item, app, args)
    ensures forall r | r in RecordsIn(journal, fname, clock) && r.owner != id :: Tidy(r) && SilentFor(r, app, args)
  {
    if journal != [] {
      var k := |journal| - 1;
      var init, e := journal[..k], journal[k];
      assert forall x | x in init :: x in journal;
      assert e in journal;
      OthersAreSilent(init, id, fname, app, args, clock);
      if e.item.path == fname && e.session != id {
        HarmlessIsSilent(e, app, args, clock(k));
      }
    }
  }

  lemma HarmlessIsSilent(e: Entry<Write>, app: string, args: seq<string>, stamp: string)
    requires Plain(app) && ']' !in app && Plain(stamp)
    requires forall x | x in args :: Clean(x, app)
    requires Harmless(e.item, app, args)
    ensures var r := Record(e.session, PrefixOf(e.item, stamp), e.item.text);
            Tidy(r) && SilentFor(r, app, args)
  {
    var r := Record(e.session, PrefixOf(e.item, stamp), e.item.text);
    NoQuoteNoMarker(r.prefix, app);
    SilentRecords(r, app, args);
  }

  // The main theorem. A client program's bytes reach the daemon in any chunks, interleaved in any
  // way with the bytes, arrivals and departures of any other sessions, and what the others wrote to
  // the same file is harmless. Then the file exists, and the checker accepts it for the program's
  // arguments exactly when equal arguments stand together. By then the client and even the daemon
  // may be gone.
  lemma SharedFileVerdict(es: seq<Event>, id: nat, fname: string, app: string, args: seq<string>,
                          initial: map<string, string>, clock: nat -> string, show: Address -> string)
    requires Transmissible(fname, app, args)
    requires Plain(app) && ']' !in app && Plain(show(LOOPBACK)) && PlainClock(clock)
    requires forall x | x in args :: Clean(x, app)
    requires fname !in initial
    requires 1 <= id <= Run(es, show).accepted
    requires Seen(es, id, show) == ScriptBytes(fname, app, args, ClientOf(id))
    requires forall e | e in Run(es, show).journal && e.session != id && e.item.path == fname ::
               Harmless(e.item, app, args)
    ensures var files := Files(initial, Run(es, show).journal, clock);
            && fname in files
            && (Verdict(Some(files[fname]), app, args) <==> Contiguous(args))
  {
    var journal := Run(es, show).journal;
    SessionWrites(es, id, fname, app, args, show);
    var ws := ScriptWrites(fname, app, args, show(LOOPBACK));
    OwnPaths(journal, id, fname, ws);
    OwnRecords(journal, id, fname, clock);
    var rs := RecordsIn(journal, fname, clock);
    var own := OwnedBy(rs, id);
    ScriptIsHonest(own, fname, app, args, show(LOOPBACK), clock);
    OthersAreSilent(journal, id, fname, app, args, clock);
    AllTidy(rs, id, app, args);
    SharedLog(rs, id, app, args);
    HonestLog(own, app, args);
    FileHoldsRecords(initial, journal, fname, clock);
    FileExists(initial, journal, fname, clock);
    assert Contents(initial, fname) + Log(rs) == Log(rs);
  }

  function ScriptBytes(fname: string, app: string, args: seq<string>, client: Word): string
    requires Transmissible(fname, app, args)
  {
    ScriptDelivered(fname, app, args, client);
    Frames(Script(fname, app, args, client))
  }

  // A session that gets a script's bytes writes the script's records and stops.
  lemma ScriptAlone(id: nat, fname: string, app: string, args: seq<string>, show: Address -> string)
    requires Transmissible(fname, app, args)
    ensures var r := Alone(id, ScriptBytes(fname, app, args, ClientOf(id)), show);
            r.writes == ScriptWrites(fname, app, args, show(LOOPBACK)) && r.conn.phase == Stopped
  {
    var client := ClientOf(id);
    var script := Script(fname, app, args, client);
    ScriptDelivered(fname, app, args, client);
    ServedAsPerformed(Fresh(client), script, show);
    PerformScript(fname, app, args, client, show);
    assert "" + Frames(script) == Frames(script);
  }

  lemma SessionWrites(es: seq<Event>, id: nat, fname: string, app: string, args: seq<string>, show: Address -> string)
    requires Transmissible(fname, app, args)
    requires 1 <= id <= Run(es, show).accepted
    requires Seen(es, id, show) == ScriptBytes(fname, app, args, ClientOf(id))
    ensures ItemsOf(Run(es, show).journal, id) == ScriptWrites(fname, app, args, show(LOOPBACK))
  {
    Isolation(es, id, show);
    ScriptAlone(id, fname, app, args, show);
  }

  lemma OwnPaths(journal: seq<Entry<Write>>, id: nat, fname: string, ws: seq<Write>)
    requires ItemsOf(journal, id) == ws && ws != [] && forall w | w in ws :: w.path == fname
    ensures forall e | e in journal && e.session == id :: e.item.path == fname
    ensures exists i :: 0 <= i < |journal| && journal[i].item.path == fname
  {
    WritesInJournal(journal, id);
    WritesComeFromJournal(journal, id);
    assert ws[0] in ws;
  }

  lemma {:induction false} WritesComeFromJournal(journal: seq<Entry<Write>>, id: nat)
    ensures forall w | w in ItemsOf(journal, id) :: exists i :: 0 <= i < |journal| && journal[i].item == w
  {
    if journal != [] {
      var k := |journal| - 1;
      WritesComeFromJournal(journal[..k], id);
      forall w | w in ItemsOf(journal, id) ensures exists i :: 0 <= i < |journal| && journal[i].item == w {
        if w in ItemsOf(journal[..k], id) {
          var i :| 0 <= i < k && journal[..k][i].item == w;
          assert journal[i].item == w;
        } else {
          assert journal[k].item == w;
        }
      }
    }
  }

  lemma AllTidy(rs: seq<Record>, id: nat, app: string, args: seq<string>)
    requires Honest(OwnedBy(rs, id), app, args)
    requires forall r | r in rs && r.owner != id :: Tidy(r)
    ensures forall r | r in rs :: Tidy(r)
  {
    OwnedMembers(rs, id);
  }

  lemma {:induction false} OwnedMembers(rs: seq<Record>, id: nat)
    ensures forall r | r in rs && r.owner == id :: r in OwnedBy(rs, id)
  {
    if rs != [] { OwnedMembers(rs[1..], id); }
  }

  // ---- several programs that keep the rules ----

  datatype Program = Program(fname: string, app: string, args: seq<string>)

  ghost predicate WellBehaved(p: Program) {
    && Transmissible(p.fname, p.app, p.args)
    && Plain(p.app) && ']' !in p.app
    && forall x | x in p.args :: Clean(x, p.app)
  }

  // Different names, nothing to say in common, and no talk about each other's log being opened.
  ghost predicate Distinguishable(p: Program, q: Program) {
    && p.app != q.app
    && (forall x | x in p.args :: x !in q.args && Clean(x, q.app))
    && (forall x | x in q.args :: x !in p.args && Clean(x, p.app))
  }

  // Every session so far belongs to a program and has sent a part of that program's bytes; programs
  // that share a file can be told apart.
  ghost predicate AllComply(es: seq<Event>, programs: nat -> Program, show: Address -> string) {
    && (forall i: nat | 1 <= i <= Run(es, show).accepted ::
          && WellBehaved(programs(i))
          && Seen(es, i, show) <= ScriptBytes(programs(i).fname, programs(i).app, programs(i).args, ClientOf(i)))
    && (forall i: nat, j: nat | 1 <= i <= Run(es, show).accepted && 1 <= j <= Run(es, show).accepted && i != j ::
          programs(i).fname == programs(j).fname ==> Distinguishable(programs(i), programs(j)))
  }

  ghost predicate Finished(es: seq<Event>, id: nat, p: Program, show: Address -> string)
    requires WellBehaved(p)
  {
    Seen(es, id, show) == ScriptBytes(p.fname, p.app, p.args, ClientOf(id))
  }

  // Applications that share log files as intended: however their bytes are cut and interleaved,
  // and whichever of them are still at work or already gone, the daemon stays up, and the checker
  // accepts each finished program's file for that program exactly when its equal arguments stand
  // together.
  lemma EveryFinishedProgram(es: seq<Event>, programs: nat -> Program, id: nat, initial: map<string, string>,
                             clock: nat -> string, show: Address -> string)
    requires Plain(show(LOOPBACK)) && PlainClock(clock)
    requires AllComply(es, programs, show)
    ensures !Run(es, show).halted
    ensures 1 <= id <= Run(es, show).accepted && programs(id).fname !in initial
            && Finished(es, id, programs(id), show) ==>
              var files, p := Files(initial, Run(es, show).journal, clock), programs(id);
              p.fname in files && (Verdict(Some(files[p.fname]), p.app, p.args) <==> Contiguous(p.args))
  {
    ComplyingKeepUp(es, programs, show);
    if 1 <= id <= Run(es, show).accepted && programs(id).fname !in initial && Finished(es, id, programs(id), show) {
      var p := programs(id);
      forall e | e in Run(es, show).journal && e.session != id && e.item.path == p.fname
        ensures Harmless(e.item, p.app, p.args)
      {
        EntryOfProgram(es, programs, e, show);
        assert Distinguishable(programs(e.session), p);
        OtherProgramHarmless(programs(e.session), p, e.item, show(LOOPBACK));
      }
      SharedFileVerdict(es, id, p.fname, p.app, p.args, initial, clock, show);
    }
  }

  lemma PartOfAlone(id: nat, part: string, whole: string, show: Address -> string)
    requires part <= whole
    ensures Alone(id, part, show).writes <= Alone(id, whole, show).writes
    ensures Alone(id, part, show).conn.phase.Broken? ==> Alone(id, whole, show).conn.phase.Broken?
  {
    var rest := whole[|part|..];
    assert whole == part + rest;
    FeedTwice(NewConn(ClientOf(id)), part, rest, show);
  }

  lemma ComplyingKeepUp(es: seq<Event>, programs: nat -> Program, show: Address -> string)
    requires AllComply(es, programs, show)
    ensures !Run(es, show).halted
  {
    HaltsExactlyOnFatalBytes(es, show);
    if id :| SawFatalBytes(es, id, show) {
      var p := programs(id);
      AloneBreaks(id, Seen(es, id, show), show);
      PartOfAlone(id, Seen(es, id, show), ScriptBytes(p.fname, p.app, p.args, ClientOf(id)), show);
      ScriptAlone(id, p.fname, p.app, p.args, show);
      assert false;
    }
  }

  lemma {:induction false} JournalOfSessions(es: seq<Event>, show: Address -> string)
    ensures forall e | e in Run(es, show).journal :: 1 <= e.session <= Run(es, show).accepted
  {
    if es != [] { JournalOfSessions(es[..|es| - 1], show); }
  }

  lemma EntryOfProgram(es: seq<Event>, programs: nat -> Program, e: Entry<Write>, show: Address -> string)
    requires AllComply(es, programs, show) && e in Run(es, show).journal
    ensures 1 <= e.session <= Run(es, show).accepted
    ensures var p := programs(e.session); e.item in ScriptWrites(p.fname, p.app, p.args, show(LOOPBACK))
  {
    JournalOfSessions(es, show);
    var id := e.session;
    var p := programs(id);
    Isolation(es, id, show);
    WritesInJournal(Run(es, show).journal, id);
    PartOfAlone(id, Seen(es, id, show), ScriptBytes(p.fname, p.app, p.args, ClientOf(id)), show);
    ScriptAlone(id, p.fname, p.app, p.args, show);
  }

  lemma OtherProgramHarmless(other: Program, p: Program, w: Write, address: string)
    requires WellBehaved(other) && WellBehaved(p) && Distinguishable(other, p) && Plain(address)
    requires w in ScriptWrites(other.fname, other.app, other.args, address)
    ensures Harmless(w, p.app, p.args)
  {
    var i :| 0 <= i < |other.args| + 2 && w == ScriptWrites(other.fname, other.app, other.args, address)[i];
    ScriptTextsAreOneLine(other.fname, other.app, other.args, address, i);
    MarkerTexts(other.app);
    if 1 <= i <= |other.args| {
      assert w.text == other.args[i - 1] && other.args[i - 1] in other.args;
    } else {
      OtherMarkerTexts(other.app, p.app);
    }
  }

  // The daemon's own texts for one application carry no marker of another.
  lemma OtherMarkerTexts(app: string, other: string)
    requires '"' !in app && '"' !in other && app != other
    ensures FreeOfMarkers(OpenedText(app), other) && FreeOfMarkers(ClosedText(app), other)
  {
    ForeignMarker("Log opened by ", "Log opened by ", app, other);
    ForeignMarker("Log opened by ", "Log closed by ", app, other);
    ForeignMarker("Log closed by ", "Log opened by ", app, other);
    ForeignMarker("Log closed by ", "Log closed by ", app, other);
    assert OpenedText(app) == Quoted("Log opened by ", app) + ".";
    assert ClosedText(app) == Quoted("Log closed by ", app) + ".";
    assert OpenedMarker(other) == Quoted("Log opened by ", other);
    assert ClosedMarker(other) == Quoted("Log closed by ", other);
  }

  function Quoted(intro: string, name: string): string { intro + "\"" + name + "\"" }

  lemma ForeignMarker(a: string, b: string, app: string, other: string)
    requires |a| == |b| == 14 && '"' !in a && '"' !in b
    requires '"' !in app && '"' !in other && app != other
    ensures !Occurs(Quoted(b, other), Quoted(a, app) + ".")
  {
    if Occurs(Quoted(b, other), Quoted(a, app) + ".") {
      var i: nat :| MatchesAt(Quoted(b, other), Quoted(a, app) + ".", i);
      QuotedNamesAgree(a, b, app, other, i);
    }
  }

  lemma QuotedNamesAgree(a: string, b: string, app: string, other: string, i: nat)
    requires |a| == |b| == 14 && '"' !in a && '"' !in b && '"' !in app && '"' !in other
    requires MatchesAt(Quoted(b, other), Quoted(a, app) + ".", i)
    ensures app == other
  {
    var m, s := Quoted(b, other), Quoted(a, app) + ".";
    assert forall k | 0 <= k < |m| :: m[k] == s[i..i + |m|][k] == s[i + k];
    assert m[14] == '"' && m[15 + |other|] == '"';
    QuotesOf(a, app);
    assert s[i + 14] == '"' && s[i + 15 + |other|] == '"';
    assert i == 0 && |other| == |app|;
    assert other == m[15..15 + |other|] == s[15..15 + |app|] == app;
  }

  lemma QuotesOf(intro: string, name: string)
    requires |intro| == 14 && '"' !in intro && '"' !in name
    ensures var s := Quoted(intro, name) + ".";
            forall k | 0 <= k < |s| :: s[k] == '"' <==> k == 14 || k == 15 + |name|
  {
    var s := Quoted(intro, name) + ".";
    assert forall k | 0 <= k < 14 :: s[k] == intro[k];
    assert forall k | 15 <= k < 15 + |name| :: s[k] == name[k - 15];
  }
}
