// What holds of a session's file handles over every sequence of requests.
module SessionHistory {
  import opened Optional
  import opened Sorting
  import opened Words
  import opened Protocol
  import opened Session

  // The session after the given objects were received.
  function Since(s: State, ms: seq<ProtObj>, show: Address -> string): State {
    if ms == [] then s else Act(Since(s, ms[..|ms| - 1], show), ms[|ms| - 1], show).state
  }

  // What the k-th object did.
  function EffectAt(s: State, ms: seq<ProtObj>, k: nat, show: Address -> string): Effect
    requires k < |ms|
  {
    Act(Since(s, ms[..k], show), ms[k], show)
  }

  ghost predicate Numbered(handles: map<string, Word>) {
    && (forall p | p in handles :: 1 <= handles[p] <= |handles|)
    && (forall p, q | p in handles && q in handles && handles[p] == handles[q] :: p == q)
  }

  ghost predicate FilesNamed(s: State) {
    forall fh | fh in s.openFiles :: s.openFiles[fh] in s.handles && s.handles[s.openFiles[fh]] == fh
  }

  // An open file is known under its own path's handle; and until the 2^32nd path, handles are the
  // numbers 1, 2, ... in use, one for each path.
  ghost predicate Sound(s: State) {
    && s.handleCounter == (1 + |s.handles|) % WORD
    && FilesNamed(s)
    && (|s.handles| < WORD ==> Numbered(s.handles))
  }

  lemma NumberedGrows(handles: map<string, Word>, path: string, fh: Word)
    requires path !in handles
    ensures |handles[path := fh]| == |handles| + 1
    ensures Numbered(handles) && fh == |handles| + 1 ==> Numbered(handles[path := fh])
  {
    assert handles[path := fh].Keys == handles.Keys + {path};
  }

  lemma SoundAddHandle(s: State, path: string)
    requires Sound(s)
    ensures Sound(AddHandle(s, path))
  {
    if path !in s.handles {
      NumberedGrows(s.handles, path, s.handleCounter);
    }
  }

  lemma SoundAddFile(s: State, path: string)
    requires Sound(s) && path in s.handles
    ensures Sound(AddFile(s, s.handles[path], path))
  {
  }

  lemma SoundStep(s: State, m: ProtObj, show: Address -> string)
    requires Sound(s)
    ensures Sound(Act(s, m, show).state)
  {
    if m.File? && m.name != "invalid path" {
      SoundAddHandle(s, m.name);
      SoundAddFile(AddHandle(s, m.name), m.name);
    }
  }

  lemma {:induction false} SoundAlways(s: State, ms: seq<ProtObj>, show: Address -> string)
    requires Sound(s)
    ensures Sound(Since(s, ms, show))
  {
    if ms != [] {
      SoundAlways(s, ms[..|ms| - 1], show);
      SoundStep(Since(s, ms[..|ms| - 1], show), ms[|ms| - 1], show);
    }
  }

  lemma FreshIsSound(client: Word)
    ensures Sound(Fresh(client))
  {
  }

  // A path keeps its handle for good: closing and reopening gives the same one.
  lemma {:induction false} HandleKept(s: State, ms: seq<ProtObj>, k: nat, path: string, show: Address -> string)
    requires k <= |ms| && path in Since(s, ms[..k], show).handles
    ensures path in Since(s, ms, show).handles
    ensures Since(s, ms, show).handles[path] == Since(s, ms[..k], show).handles[path]
  {
    if k < |ms| {
      var init := ms[..|ms| - 1];
      assert init[..k] == ms[..k];
      HandleKept(s, init, k, path, show);
    } else {
      assert ms[..k] == ms;
    }
  }

  // Request o opened handle fh: it was not open before, o was answered with it, and it was not
  // closed since.
  ghost predicate OpenedAt(client: Word, ms: seq<ProtObj>, o: nat, fh: Word, show: Address -> string) {
    && o < |ms| && ms[o].File?
    && fh !in Since(Fresh(client), ms[..o], show).openFiles
    && EffectAt(Fresh(client), ms, o, show).reply == Some(FileHandle(fh))
    && forall i | o < i < |ms| :: ms[i] != CloseFile(fh)
  }

  lemma {:induction false} OpenerOf(client: Word, ms: seq<ProtObj>, fh: Word, show: Address -> string)
    returns (o: nat)
    requires fh in Since(Fresh(client), ms, show).openFiles
    ensures OpenedAt(client, ms, o, fh, show)
    ensures Since(Fresh(client), ms, show).openFiles[fh] == ms[o].name
  {
    var init, m := ms[..|ms| - 1], ms[|ms| - 1];
    var s := Since(Fresh(client), init, show);
    OneStepOpens(s, m, fh, show);
    if fh in s.openFiles {
      o := OpenerOf(client, init, fh, show);
      StillOpened(client, ms, o, fh, show);
    } else {
      o := |init|;
    }
  }

  lemma StillOpened(client: Word, ms: seq<ProtObj>, o: nat, fh: Word, show: Address -> string)
    requires ms != [] && ms[|ms| - 1] != CloseFile(fh)
    requires OpenedAt(client, ms[..|ms| - 1], o, fh, show)
    ensures OpenedAt(client, ms, o, fh, show)
  {
    var init := ms[..|ms| - 1];
    assert init[..o] == ms[..o];
    assert forall i | o < i < |init| :: ms[i] == init[i];
  }

  lemma OneStepOpens(s: State, m: ProtObj, fh: Word, show: Address -> string)
    requires fh in Act(s, m, show).state.openFiles
    ensures fh in s.openFiles ==> m != CloseFile(fh) && Act(s, m, show).state.openFiles[fh] == s.openFiles[fh]
    ensures fh !in s.openFiles ==>
              && m.File? && Act(s, m, show).reply == Some(FileHandle(fh))
              && Act(s, m, show).state.openFiles[fh] == m.name
  {
  }

  // The message to this handle is accepted, and its one record goes to this path.
  ghost predicate DeliveredTo(s: State, fh: Word, path: string, text: string, show: Address -> string) {
    Act(s, Message(fh, text), show) == Effect(s, Some(Acknowledged), [Write(path, s.name, s.address, text)])
  }

  // An accepted message goes to the file of the request that opened its handle, whatever was
  // opened and closed in between, and nowhere else. With fewer than 2^32 paths, any request that
  // was ever answered with the handle names that file.
  lemma DeliveredWhereOpened(client: Word, ms: seq<ProtObj>, j: nat, show: Address -> string) returns (o: nat)
    requires j < |ms| && ms[j].Message?
    requires EffectAt(Fresh(client), ms, j, show).reply == Some(Acknowledged)
    ensures OpenedAt(client, ms[..j], o, ms[j].fh, show)
    ensures var s := Since(Fresh(client), ms[..j], show);
            && DeliveredTo(s, ms[j].fh, ms[o].name, ms[j].text, show)
            && (|s.handles| < WORD ==> forall k | 0 <= k < j &&
                 EffectAt(Fresh(client), ms, k, show).reply == Some(FileHandle(ms[j].fh)) :: ms[k].name == ms[o].name)
  {
    var later := ms[..j];
    o := AcceptedAfter(client, later, ms[j].fh, ms[j].text, show);
    if |Since(Fresh(client), later, show).handles| < WORD {
      forall k | 0 <= k < j && EffectAt(Fresh(client), ms, k, show).reply == Some(FileHandle(ms[j].fh))
        ensures ms[k].File? && ms[k].name == ms[o].name
      {
        AnsweredForFile(client, ms, k, j, ms[j].fh, show);
      }
    }
  }

  lemma AnsweredForFile(client: Word, ms: seq<ProtObj>, k: nat, j: nat, fh: Word, show: Address -> string)
    requires k < j <= |ms| && EffectAt(Fresh(client), ms, k, show).reply == Some(FileHandle(fh))
    requires |Since(Fresh(client), ms[..j], show).handles| < WORD
    requires fh in Since(Fresh(client), ms[..j], show).openFiles
    ensures ms[k].File? && ms[k].name == Since(Fresh(client), ms[..j], show).openFiles[fh]
  {
    FreshIsSound(client);
    SoundAlways(Fresh(client), ms[..j], show);
    AnsweredPath(client, ms, k, j, show);
  }

  lemma AcceptedAfter(client: Word, ms: seq<ProtObj>, fh: Word, text: string, show: Address -> string)
    returns (o: nat)
    requires Act(Since(Fresh(client), ms, show), Message(fh, text), show).reply == Some(Acknowledged)
    ensures OpenedAt(client, ms, o, fh, show)
    ensures fh in Since(Fresh(client), ms, show).openFiles
    ensures Since(Fresh(client), ms, show).openFiles[fh] == ms[o].name
    ensures DeliveredTo(Since(Fresh(client), ms, show), fh, ms[o].name, text, show)
  {
    AcceptedMeansOpen(Since(Fresh(client), ms, show), fh, text, show);
    o := OpenerOf(client, ms, fh, show);
    OneDelivered(Since(Fresh(client), ms, show), fh, ms[o].name, text, show);
  }

  lemma AcceptedMeansOpen(s: State, fh: Word, text: string, show: Address -> string)
    requires Act(s, Message(fh, text), show).reply == Some(Acknowledged)
    ensures fh in s.openFiles
  {
  }

  // A path that was answered with a handle has that handle later on.
  lemma AnsweredPath(client: Word, ms: seq<ProtObj>, k: nat, j: nat, show: Address -> string)
    requires k < j <= |ms|
    requires EffectAt(Fresh(client), ms, k, show).reply.Some?
    requires EffectAt(Fresh(client), ms, k, show).reply.value.FileHandle?
    ensures var s := Since(Fresh(client), ms[..j], show);
            && ms[k].File? && ms[k].name in s.handles
            && EffectAt(Fresh(client), ms, k, show).reply == Some(FileHandle(s.handles[ms[k].name]))
  {
    var later := ms[..j];
    assert ms[..k + 1][..k] == ms[..k] && later[..k + 1] == ms[..k + 1];
    HandleKept(Fresh(client), later, k + 1, ms[k].name, show);
  }

  ghost predicate OpenFrom(client: Word, ms: seq<ProtObj>, k: nat, fh: Word, show: Address -> string) {
    && k < |ms| && EffectAt(Fresh(client), ms, k, show).reply == Some(FileHandle(fh))
    && forall j | k < j < |ms| :: ms[j] != CloseFile(fh)
  }

  // Handle fh was given out and not asked to be closed since.
  ghost predicate OpenSince(client: Word, ms: seq<ProtObj>, fh: Word, show: Address -> string) {
    exists k :: OpenFrom(client, ms, k, fh, show)
  }

  lemma SameEffects(client: Word, ms: seq<ProtObj>, m: ProtObj, k: nat, show: Address -> string)
    requires k < |ms|
    ensures EffectAt(Fresh(client), ms + [m], k, show) == EffectAt(Fresh(client), ms, k, show)
  {
    assert (ms + [m])[..k] == ms[..k];
  }

  lemma OpenSinceStep(client: Word, ms: seq<ProtObj>, m: ProtObj, fh: Word, show: Address -> string)
    ensures OpenSince(client, ms + [m], fh, show)
       <==> || Act(Since(Fresh(client), ms, show), m, show).reply == Some(FileHandle(fh))
            || (m != CloseFile(fh) && OpenSince(client, ms, fh, show))
  {
    var longer := ms + [m];
    assert longer[..|ms|] == ms && longer[|ms|] == m;
    forall k: nat | k < |ms|
      ensures OpenFrom(client, longer, k, fh, show) <==> m != CloseFile(fh) && OpenFrom(client, ms, k, fh, show)
    {
      SameEffects(client, ms, m, k, show);
      assert forall j | 0 <= j < |ms| :: longer[j] == ms[j];
    }
    assert OpenFrom(client, longer, |ms|, fh, show)
      <==> Act(Since(Fresh(client), ms, show), m, show).reply == Some(FileHandle(fh));
    if OpenSince(client, longer, fh, show) {
      var k: nat :| OpenFrom(client, longer, k, fh, show);
      assert k == |ms| || OpenFrom(client, ms, k, fh, show);
    }
  }

  lemma {:induction false} OpenExactly(client: Word, ms: seq<ProtObj>, fh: Word, show: Address -> string)
    ensures fh in Since(Fresh(client), ms, show).openFiles <==> OpenSince(client, ms, fh, show)
  {
    if ms != [] {
      var init, m := ms[..|ms| - 1], ms[|ms| - 1];
      OpenExactly(client, init, fh, show);
      assert ms == init + [m];
      OpenSinceStep(client, init, m, fh, show);
      OpenAfterOne(Since(Fresh(client), init, show), m, fh, show);
    }
  }

  lemma OpenAfterOne(s: State, m: ProtObj, fh: Word, show: Address -> string)
    ensures fh in Act(s, m, show).state.openFiles
       <==> Act(s, m, show).reply == Some(FileHandle(fh)) || (m != CloseFile(fh) && fh in s.openFiles)
  {
  }

  // After any requests, exactly the handles given out and not closed since accept messages.
  lemma AcceptedExactlyWhileOpen(client: Word, ms: seq<ProtObj>, fh: Word, text: string, show: Address -> string)
    ensures Act(Since(Fresh(client), ms, show), Message(fh, text), show).reply == Some(Acknowledged)
       <==> OpenSince(client, ms, fh, show)
    ensures var s := Since(Fresh(client), ms, show);
            !OpenSince(client, ms, fh, show) ==>
              Act(s, Message(fh, text), show) == Effect(s, Some(NotAcknowledged("Invalid file handle.")), [])
  {
    OpenExactly(client, ms, fh, show);
  }

  // And exactly these can be closed, which takes them away; any other close changes nothing.
  lemma ClosedExactlyWhileOpen(client: Word, ms: seq<ProtObj>, fh: Word, show: Address -> string)
    ensures Act(Since(Fresh(client), ms, show), CloseFile(fh), show).reply == Some(Acknowledged)
       <==> OpenSince(client, ms, fh, show)
    ensures !OpenSince(client, ms + [CloseFile(fh)], fh, show)
    ensures var s := Since(Fresh(client), ms, show);
            !OpenSince(client, ms, fh, show) ==>
              Act(s, CloseFile(fh), show) == Effect(s, Some(NotAcknowledged("Invalid file handle.")), [])
  {
    OpenExactly(client, ms, fh, show);
    OpenSinceStep(client, ms, CloseFile(fh), fh, show);
  }

  // An accepted close writes one record, to the file of the request that opened the handle, and
  // leaves all other handles and files as they are.
  lemma ClosedWhereOpened(client: Word, ms: seq<ProtObj>, fh: Word, show: Address -> string) returns (o: nat)
    requires Act(Since(Fresh(client), ms, show), CloseFile(fh), show).reply == Some(Acknowledged)
    ensures OpenedAt(client, ms, o, fh, show)
    ensures var s, e := Since(Fresh(client), ms, show), Act(Since(Fresh(client), ms, show), CloseFile(fh), show);
            && e.writes == [Write(ms[o].name, s.name, s.address, "Log closed by \"" + s.name + "\".")]
            && fh in s.openFiles && e.state == s.(openFiles := s.openFiles - {fh})
  {
    var s := Since(Fresh(client), ms, show);
    ClosingOne(s, fh, show);
    o := OpenerOf(client, ms, fh, show);
  }

  lemma ClosingOne(s: State, fh: Word, show: Address -> string)
    requires Act(s, CloseFile(fh), show).reply == Some(Acknowledged)
    ensures fh in s.openFiles
    ensures Act(s, CloseFile(fh), show)
         == Effect(s.(openFiles := s.openFiles - {fh}), Some(Acknowledged),
                   [Write(s.openFiles[fh], s.name, s.address, "Log closed by \"" + s.name + "\".")])
  {
  }

  // In any state, opening a path is refused for one name only. Otherwise it is answered with the
  // path's handle and writes one record to the file behind that handle, whether or not it was open
  // before; no other handle and no open file changes.
  lemma EveryOpeningIsLogged(s: State, path: string, show: Address -> string)
    ensures path == "invalid path" ==>
              Act(s, File(path), show)
              == Effect(s, Some(NotAcknowledged("Cannot get file path from half created File object.")), [])
    ensures path != "invalid path" ==>
              var e := Act(s, File(path), show);
              && e.reply.Some? && e.reply.value.FileHandle?
              && var fh := e.reply.value.fh;
                 && e.state.handles == s.handles[path := fh]
                 && (path in s.handles ==> fh == s.handles[path] && e.state.handleCounter == s.handleCounter)
                 && e.state.openFiles == s.openFiles[fh := if fh in s.openFiles then s.openFiles[fh] else path]
                 && e.writes == [Write(e.state.openFiles[fh], s.name, s.address, "Log opened by \"" + s.name + "\".")]
                 && (e.state.name, e.state.address, e.state.client) == (s.name, s.address, s.client)
  {
    if path in s.handles { assert s.handles[path := s.handles[path]] == s.handles; }
    var fh := AddHandle(s, path).handles[path];
    if fh in s.openFiles { assert s.openFiles[fh := s.openFiles[fh]] == s.openFiles; }
  }

  // With fewer than 2^32 paths that file is the path itself.
  lemma OpenedInItsOwnFile(client: Word, ms: seq<ProtObj>, path: string, show: Address -> string)
    requires path != "invalid path" && |Since(Fresh(client), ms, show).handles| + 1 < WORD
    ensures var e := Act(Since(Fresh(client), ms, show), File(path), show);
            |e.writes| == 1 && e.writes[0].path == path
  {
    var s := Since(Fresh(client), ms, show);
    FreshIsSound(client);
    SoundAlways(Fresh(client), ms, show);
    SoundStep(s, File(path), show);
    EveryOpeningIsLogged(s, path, show);
    HandlesGrow(s, path, show);
  }

  lemma HandlesGrow(s: State, path: string, show: Address -> string)
    ensures |Act(s, File(path), show).state.handles| <= |s.handles| + 1
  {
    if path !in s.handles { NumberedGrows(s.handles, path, s.handleCounter); }
  }

  // After any requests a session has the name and address of the last introduction, and none
  // before the first; its own handle stays the one it was given.
  lemma {:induction false} NamedByLastIntroduction(client: Word, ms: seq<ProtObj>, show: Address -> string)
    ensures var s := Since(Fresh(client), ms, show);
            && s.client == client
            && ((forall i | 0 <= i < |ms| :: !ms[i].Client?) ==> s.name == "" && s.address == "")
            && forall i | 0 <= i < |ms| && ms[i].Client? && (forall j | i < j < |ms| :: !ms[j].Client?) ::
                 s.name == ms[i].name && s.address == show(ms[i].ip)
  {
    if ms != [] {
      var init, m := ms[..|ms| - 1], ms[|ms| - 1];
      NamedByLastIntroduction(client, init, show);
      OneStepNames(Since(Fresh(client), init, show), m, show);
      forall i | 0 <= i < |ms| && ms[i].Client? && forall j | i < j < |ms| :: !ms[j].Client?
        ensures Since(Fresh(client), ms, show).name == ms[i].name
        ensures Since(Fresh(client), ms, show).address == show(ms[i].ip)
      {
        if i < |init| { assert init[i] == ms[i] && !m.Client?; }
      }
    }
  }

  lemma OneStepNames(s: State, m: ProtObj, show: Address -> string)
    ensures var s' := Act(s, m, show).state;
            && s'.client == s.client
            && (m.Client? ==> s'.name == m.name && s'.address == show(m.ip))
            && (!m.Client? ==> s'.name == s.name && s'.address == s.address)
  {
  }

  // Each introduction is answered with the session's own handle, and a disconnect is accepted
  // with that handle only.
  lemma OwnHandleOnly(client: Word, ms: seq<ProtObj>, name: string, ip: Address, other: Word,
                      show: Address -> string)
    ensures var s := Since(Fresh(client), ms, show);
            && Act(s, Client(name, ip), show).reply == Some(ClientHandle(client))
            && Act(s, Client(name, ip), show).writes == []
            && (other == client <==> Act(s, Disconnect(other), show).reply == Some(Acknowledged))
            && (other != client ==>
                 Act(s, Disconnect(other), show)
                 == Effect(s, Some(NotAcknowledged("Tried to disconnect wrong client handle.")), []))
  {
    NamedByLastIntroduction(client, ms, show);
  }

  // Objects that only a client should receive change and write nothing, and get no answer.
  lemma NoBusinessHere(s: State, m: ProtObj, show: Address -> string)
    ensures Act(s, m, show).reply.None?
       <==> m.FileHandle? || m.ClientHandle? || m.Acknowledged? || m.NotAcknowledged?
    ensures Act(s, m, show).reply.None? ==> Act(s, m, show).state == s && Act(s, m, show).writes == []
  {
  }

  // A refused request might as well not have been sent: nothing later depends on it.
  lemma {:induction false} RefusedLeavesNoTrace(s: State, before: seq<ProtObj>, m: ProtObj, later: seq<ProtObj>,
                                                show: Address -> string)
    requires var e := Act(Since(s, before, show), m, show); e.reply.Some? && e.reply.value.NotAcknowledged?
    ensures Act(Since(s, before, show), m, show).writes == []
    ensures Since(s, before + [m] + later, show) == Since(s, before + later, show)
  {
    if later == [] {
      assert before + [m] + later == before + [m] && before + later == before;
      assert (before + [m])[..|before|] == before;
    } else {
      var init, last := later[..|later| - 1], later[|later| - 1];
      RefusedLeavesNoTrace(s, before, m, init, show);
      var long, short := before + [m] + later, before + later;
      assert long[..|long| - 1] == before + [m] + init && short[..|short| - 1] == before + init;
    }
  }

  // A disconnect with the session's own handle says farewell once in every open file, in the
  // order of the handles, and leaves the files open; with another handle it does nothing.
  lemma FarewellInEveryOpenFile(s: State, client: Word, show: Address -> string)
    ensures var e, fhs := Act(s, Disconnect(client), show), OpenHandles(s);
            && e.state == s
            && (client != s.client ==>
                 && e.writes == []
                 && e.reply == Some(NotAcknowledged("Tried to disconnect wrong client handle.")))
            && (client == s.client ==>
                 && |e.writes| == |fhs| && e.reply == Some(Acknowledged)
                 && (forall fh :: fh in fhs <==> fh in s.openFiles)
                 && (forall i, j | 0 <= i < j < |fhs| :: fhs[i] < fhs[j])
                 && (forall i | 0 <= i < |fhs| ::
                      e.writes[i] == Write(s.openFiles[fhs[i]], s.name, s.address, "Disconnected from logsvc daemon.")))
  {
    FarewellsOneByOne(s, OpenHandles(s));
    HandlesAscend(s);
  }

  lemma HandlesAscend(s: State)
    ensures forall i, j | 0 <= i < j < |OpenHandles(s)| :: OpenHandles(s)[i] < OpenHandles(s)[j]
  {
    WordOrder();
    assert Ascending(OpenHandles(s), WordLeq);
  }

  lemma {:induction false} FarewellsOneByOne(s: State, fhs: seq<Word>)
    requires forall fh | fh in fhs :: fh in s.openFiles
    ensures |Farewells(s, fhs)| == |fhs|
    ensures forall i | 0 <= i < |fhs| :: Farewells(s, fhs)[i] == ToFile(s, fhs[i], FAREWELL)
  {
    if fhs != [] {
      assert forall fh | fh in fhs[..|fhs| - 1] :: fh in fhs;
      FarewellsOneByOne(s, fhs[..|fhs| - 1]);
    }
  }

  // Sent over the wire, a message to an open handle has its effect exactly when the handle survives
  // the sign extension. Otherwise it ends up in another file if the garbled handle is open too, and
  // is refused if not; with fewer than 2^24 paths it is always refused.
  lemma AcceptedOverTheWire(client: Word, ms: seq<ProtObj>, fh: Word, text: string, show: Address -> string)
    requires fh in Since(Fresh(client), ms, show).openFiles
    requires 4 + |text| < WORD
    ensures var s := Since(Fresh(client), ms, show);
            var received := ReadPayload(MessageKind, Payload(Message(fh, text)));
            && received.Some?
            && (Act(s, received.value, show) == Act(s, Message(fh, text), show) <==> Survives(fh))
            && (!Survives(fh) ==>
                 if Garbled(fh) in s.openFiles
                 then && Act(s, received.value, show).writes == [ToFile(s, Garbled(fh), text)]
                      && s.openFiles[Garbled(fh)] != s.openFiles[fh]
                 else Act(s, received.value, show) == Rejected(s, INVALID_HANDLE))
            && (!Survives(fh) && |s.handles| < 0x100_0000 ==>
                 Act(s, received.value, show) == Rejected(s, INVALID_HANDLE))
  {
    var s := Since(Fresh(client), ms, show);
    FreshIsSound(client);
    SoundAlways(Fresh(client), ms, show);
    ObjectRoundTrip(Message(fh, text));
    GarbledExactly(fh);
    assert Act(s, Message(fh, text), show).writes == [ToFile(s, fh, text)];
    if Garbled(fh) != fh && Garbled(fh) in s.openFiles {
      assert s.openFiles[Garbled(fh)] != s.openFiles[fh];
    }
  }

  // ---- sessions with many files ----

  function Openings(paths: seq<string>): (ms: seq<ProtObj>)
    ensures |ms| == |paths| && forall i | 0 <= i < |paths| :: ms[i] == File(paths[i])
  {
    seq(|paths|, i requires 0 <= i < |paths| => File(paths[i]))
  }

  ghost predicate DifferentPaths(paths: seq<string>) {
    && "invalid path" !in paths
    && forall i, j | 0 <= i < j < |paths| :: paths[i] != paths[j]
  }

  // The number that the counter gives to the i-th path.
  function Numeral(i: nat): Word { (i + 1) % WORD }

  ghost predicate ManyOpen(s: State, paths: seq<string>) {
    && s.handleCounter == Numeral(|paths|)
    && (forall p :: p in s.handles <==> p in paths)
    && (forall i | 0 <= i < |paths| :: s.handles[paths[i]] == Numeral(i))
    && (forall fh | fh in s.openFiles :: exists i :: 0 <= i < |paths| && i < WORD && fh == Numeral(i))
    && (forall i | 0 <= i < |paths| && i < WORD :: Numeral(i) in s.openFiles && s.openFiles[Numeral(i)] == paths[i])
  }

  lemma NumeralsDiffer(i: nat, j: nat)
    requires i < WORD && j < WORD
    ensures Numeral(i) == Numeral(j) <==> i == j
  {
  }

  lemma SmallNumeral(i: nat)
    requires i + 1 < WORD
    ensures Numeral(i) == i + 1
  {
  }

  lemma NumeralsRepeat(i: nat)
    ensures i % WORD < WORD && Numeral(i) == Numeral(i % WORD)
    ensures i < WORD ==> i % WORD == i
  {
  }

  lemma OpenNext(s: State, paths: seq<string>, p: string, longer: seq<string>, s': State, show: Address -> string)
    requires ManyOpen(s, paths) && p !in paths && p != "invalid path"
    requires longer == paths + [p] && s' == Act(s, File(p), show).state
    ensures ManyOpen(s', longer)
  {
    var n := |paths|;
    NextNumeral(n);
    OpenFresh(s, p, show);
    NextHandles(s.handles, paths, p, longer, s'.handles);
    if n < WORD {
      forall i: nat | i < n ensures Numeral(i) != Numeral(n) { NumeralsDiffer(i, n); }
    } else {
      NumeralsRepeat(n);
    }
    NextFiles(s.openFiles, paths, p, longer, s'.openFiles);
  }

  lemma OpenFresh(s: State, p: string, show: Address -> string)
    requires p !in s.handles && p != "invalid path"
    ensures var s', fh := Act(s, File(p), show).state, s.handleCounter;
            && s'.handleCounter == Next(fh) && s'.handles == s.handles[p := fh]
            && s'.openFiles == if fh in s.openFiles then s.openFiles else s.openFiles[fh := p]
  {
  }

  lemma NextHandles(handles: map<string, Word>, paths: seq<string>, p: string, longer: seq<string>,
                    handles': map<string, Word>)
    requires longer == paths + [p] && p !in paths && handles' == handles[p := Numeral(|paths|)]
    requires forall q :: q in handles <==> q in paths
    requires forall i | 0 <= i < |paths| :: handles[paths[i]] == Numeral(i)
    ensures forall q :: q in handles' <==> q in longer
    ensures forall i | 0 <= i < |longer| :: handles'[longer[i]] == Numeral(i)
  {
    forall i | 0 <= i < |longer| ensures handles'[longer[i]] == Numeral(i) {
      assert i < |paths| ==> longer[i] == paths[i] && paths[i] in paths;
    }
  }

  lemma NextFiles(files: map<Word, string>, paths: seq<string>, p: string, longer: seq<string>,
                  files': map<Word, string>)
    requires longer == paths + [p]
    requires files' == if |paths| < WORD then files[Numeral(|paths|) := p] else files
    requires |paths| < WORD ==> forall i: nat | i < |paths| :: Numeral(i) != Numeral(|paths|)
    requires forall fh | fh in files :: exists i :: 0 <= i < |paths| && i < WORD && fh == Numeral(i)
    requires forall i | 0 <= i < |paths| && i < WORD :: Numeral(i) in files && files[Numeral(i)] == paths[i]
    ensures forall fh | fh in files' :: exists i :: 0 <= i < |longer| && i < WORD && fh == Numeral(i)
    ensures forall i | 0 <= i < |longer| && i < WORD :: Numeral(i) in files' && files'[Numeral(i)] == longer[i]
  {
  }

  lemma NextNumeral(n: nat)
    ensures Next(Numeral(n)) == Numeral(n + 1)
  {
  }

  // Opening any number of different paths in a fresh session.
  lemma {:induction false} ManyOpened(client: Word, paths: seq<string>, show: Address -> string)
    requires DifferentPaths(paths)
    ensures ManyOpen(Since(Fresh(client), Openings(paths), show), paths)
  {
    if paths != [] {
      var init, p := paths[..|paths| - 1], paths[|paths| - 1];
      assert paths == init + [p];
      ManyOpened(client, init, show);
      OneMoreOpening(Fresh(client), init, p, paths, show);
      OpenNext(Since(Fresh(client), Openings(init), show), init, p, paths,
               Since(Fresh(client), Openings(paths), show), show);
    }
  }

  lemma OneMoreOpening(s: State, init: seq<string>, p: string, paths: seq<string>, show: Address -> string)
    requires paths == init + [p]
    ensures Since(s, Openings(paths), show) == Act(Since(s, Openings(init), show), File(p), show).state
  {
    assert Openings(paths)[..|init|] == Openings(init);
  }

  lemma FileAmongMany(s: State, paths: seq<string>, i: nat, fh: Word)
    requires ManyOpen(s, paths) && i < |paths| && fh == Numeral(i)
    ensures paths[i] in s.handles && s.handles[paths[i]] == fh
    ensures fh in s.openFiles && s.openFiles[fh] == paths[i % WORD]
  {
    NumeralsRepeat(i);
    assert paths[i] in paths;
  }

  lemma HandlesAmongMany(s: State, paths: seq<string>)
    requires ManyOpen(s, paths)
    ensures forall fh | fh in s.openFiles :: fh <= |paths|
  {
    forall fh | fh in s.openFiles ensures fh <= |paths| {
      var i :| 0 <= i < |paths| && i < WORD && fh == Numeral(i);
    }
  }

  // After that, a message to the handle given for the i-th path goes to the path whose index is
  // i modulo 2^32, so to its own file exactly for the first 2^32 paths.
  lemma DeliveredAmongMany(client: Word, paths: seq<string>, i: nat, text: string, show: Address -> string)
    requires DifferentPaths(paths) && i < |paths|
    ensures paths[i] in Since(Fresh(client), Openings(paths), show).handles
    ensures var s := Since(Fresh(client), Openings(paths), show);
            DeliveredTo(s, s.handles[paths[i]], paths[i % WORD], text, show)
    ensures paths[i % WORD] == paths[i] <==> i < WORD
  {
    ManyOpened(client, paths, show);
    NumeralsRepeat(i);
    var s := Since(Fresh(client), Openings(paths), show);
    FileAmongMany(s, paths, i, Numeral(i));
    OneDelivered(s, s.handles[paths[i]], paths[i % WORD], text, show);
  }

  lemma OneDelivered(s: State, fh: Word, path: string, text: string, show: Address -> string)
    requires fh in s.openFiles && s.openFiles[fh] == path
    ensures Act(s, Message(fh, text), show)
         == Effect(s, Some(Acknowledged), [Write(path, s.name, s.address, text)])
  {
  }

  // Over the wire, the 128th path is lost already: with 128 or more paths, but too few to reach
  // the garbled handle, the message to its handle is refused.
  lemma LostOverTheWire(client: Word, paths: seq<string>, text: string, show: Address -> string)
    requires DifferentPaths(paths) && 128 <= |paths| < 0xFFFF_FF80
    requires 4 + |text| < WORD
    ensures var s := Since(Fresh(client), Openings(paths), show);
            && 128 in s.openFiles && s.openFiles[128] == paths[127]
            && ReadPayload(MessageKind, Payload(Message(128, text))) == Some(Message(0xFFFF_FF80, text))
            && Act(s, Message(0xFFFF_FF80, text), show) == Rejected(s, INVALID_HANDLE)
  {
    ManyOpened(client, paths, show);
    var s := Since(Fresh(client), Openings(paths), show);
    SmallHandleOpen(s, paths, 128);
    HandlesAmongMany(s, paths);
    OneOctetGarbled(128);
    ObjectRoundTrip(Message(128, text));
  }

  // The handles before that are served: handle fh is open on the path opened as number fh, and
  // a message to it is read back as it was sent.
  lemma ServedOverTheWire(client: Word, paths: seq<string>, fh: Word, text: string, show: Address -> string)
    requires DifferentPaths(paths) && 1 <= fh <= |paths| && fh < 128
    requires 4 + |text| < WORD
    ensures DeliveredTo(Since(Fresh(client), Openings(paths), show), fh, paths[fh - 1], text, show)
    ensures ReadPayload(MessageKind, Payload(Message(fh, text))) == Some(Message(fh, text))
  {
    ManyOpened(client, paths, show);
    var s := Since(Fresh(client), Openings(paths), show);
    SmallHandleOpen(s, paths, fh);
    OneDelivered(s, fh, paths[fh - 1], text, show);
    SmallHandleSurvives(fh, text);
  }

  lemma SmallHandleOpen(s: State, paths: seq<string>, fh: Word)
    requires ManyOpen(s, paths) && 1 <= fh <= |paths|
    ensures fh in s.openFiles && s.openFiles[fh] == paths[fh - 1]
  {
    var i: nat := fh - 1;
    SmallNumeral(i);
    FileAmongMany(s, paths, i, fh);
  }

  lemma SmallHandleSurvives(fh: Word, text: string)
    requires fh < 128 && 4 + |text| < WORD
    ensures ReadPayload(MessageKind, Payload(Message(fh, text))) == Some(Message(fh, text))
  {
    GarbledExactly(fh);
    ObjectRoundTrip(Message(fh, text));
  }
}
