// The whole daemon: any number of connections, served in whatever order their bytes arrive.
module Daemon {
  import opened Optional
  import opened Words
  import opened Protocol
  import opened Session
  import opened SessionHistory
  import opened Connection
  import opened Framing
  import opened Search
  import opened Records

  datatype Event =
    | Accepted
    | Arrived(session: nat, chunk: string)
    | ConnectionLost(session: nat)

  // Something a session wrote or answered.
  datatype Entry<T> = Entry(session: nat, item: T)

  // Live connections by the number of their acceptance, everything written and answered so far,
  // and whether an exception has ended the process.
  datatype World = World(
    accepted: nat,
    conns: map<nat, Conn>,
    journal: seq<Entry<Write>>,
    answers: seq<Entry<ProtObj>>,
    halted: bool)

  const START := World(0, map[], [], [], false)

  // The atomic unsigned counter behind the client handles.
  function ClientOf(session: nat): Word { session % WORD }

  ghost predicate ValidWorld(w: World) {
    forall id | id in w.conns :: Valid(w.conns[id]) && 1 <= id <= w.accepted
  }

  function Tagged<T>(session: nat, items: seq<T>): seq<Entry<T>> {
    seq(|items|, i requires 0 <= i < |items| => Entry(session, items[i]))
  }

  // The daemon is up and still connected to the session.
  predicate Listens(w: World, session: nat) { !w.halted && session in w.conns }

  function Step(w: World, e: Event, show: Address -> string): (w': World)
    requires ValidWorld(w)
    ensures ValidWorld(w')
  {
    if w.halted then w else
      match e
      case Accepted =>
        var id := w.accepted + 1;
        w.(accepted := id, conns := w.conns[id := NewConn(ClientOf(id))])
      case Arrived(id, chunk) =>
        if id !in w.conns then w else
          var r := Feed(w.conns[id], chunk, show);
          w.(conns := w.conns[id := r.conn], journal := w.journal + Tagged(id, r.writes),
             answers := w.answers + Tagged(id, r.answers), halted := r.conn.phase.Broken?)
      case ConnectionLost(id) => w.(conns := w.conns - {id})
  }

  function Run(es: seq<Event>, show: Address -> string): (w: World)
    ensures ValidWorld(w)
  {
    if es == [] then START else Step(Run(es[..|es| - 1], show), es[|es| - 1], show)
  }

  // ---- what one session sees of it ----

  // The bytes that reached a session while the daemon listened to it.
  function Seen(es: seq<Event>, session: nat, show: Address -> string): string {
    if es == [] then "" else
      var init, e := es[..|es| - 1], es[|es| - 1];
      if e.Arrived? && e.session == session && Listens(Run(init, show), session)
      then Seen(init, session, show) + e.chunk
      else Seen(init, session, show)
  }

  function ItemsOf<T>(journal: seq<Entry<T>>, session: nat): seq<T> {
    if journal == [] then [] else
      var earlier, last := ItemsOf(journal[..|journal| - 1], session), journal[|journal| - 1];
      if last.session == session then earlier + [last.item] else earlier
  }

  // The session on its own, fed the same bytes at once.
  function Alone(session: nat, bytes: string, show: Address -> string): Served {
    Feed(NewConn(ClientOf(session)), bytes, show)
  }

  lemma {:induction false} ItemsOfTagged<T>(journal: seq<Entry<T>>, author: nat, items: seq<T>, session: nat)
    ensures ItemsOf(journal + Tagged(author, items), session)
         == if author == session then ItemsOf(journal, session) + items else ItemsOf(journal, session)
    decreases |items|
  {
    var all := journal + Tagged(author, items);
    if items == [] {
      assert all == journal;
    } else {
      var init := items[..|items| - 1];
      ItemsOfTagged(journal, author, init, session);
      assert all[..|all| - 1] == journal + Tagged(author, init);
      assert all[|all| - 1] == Entry(author, items[|items| - 1]);
      assert items == init + [items[|items| - 1]];
    }
  }

  // Session id's part of the world is what it would be alone.
  ghost predicate OnItsOwn(w: World, id: nat, bytes: string, show: Address -> string) {
    var a := Alone(id, bytes, show);
    && ItemsOf(w.journal, id) == a.writes && ItemsOf(w.answers, id) == a.answers
    && (id in w.conns ==> w.conns[id] == a.conn)
  }

  lemma {:induction false} NotYetAccepted(es: seq<Event>, id: nat, show: Address -> string)
    requires id > Run(es, show).accepted
    ensures Seen(es, id, show) == ""
    ensures ItemsOf(Run(es, show).journal, id) == [] && ItemsOf(Run(es, show).answers, id) == []
  {
    if es != [] {
      var init, e := es[..|es| - 1], es[|es| - 1];
      var w := Run(init, show);
      NotYetAccepted(init, id, show);
      if e.Arrived? && Listens(w, e.session) {
        var r := Feed(w.conns[e.session], e.chunk, show);
        ItemsOfTagged(w.journal, e.session, r.writes, id);
        ItemsOfTagged(w.answers, e.session, r.answers, id);
      }
    }
  }

  // What a session is, writes and answers depends only on the bytes that it saw: not on how they
  // were cut into chunks, not on what the other sessions did in between, and not on whether the
  // connection or the daemon is gone by now.
  lemma {:induction false} Isolation(es: seq<Event>, id: nat, show: Address -> string)
    requires 1 <= id <= Run(es, show).accepted
    ensures OnItsOwn(Run(es, show), id, Seen(es, id, show), show)
  {
    var init, e := es[..|es| - 1], es[|es| - 1];
    var w := Run(init, show);
    if id > w.accepted {
      NotYetAccepted(init, id, show);
      IsolationAtAcceptance(id, show);
    } else {
      Isolation(init, id, show);
      if e.Arrived? && Listens(w, e.session) {
        IsolatedArrival(w, e.session, e.chunk, id, Seen(init, id, show), show);
      }
    }
  }

  lemma IsolationAtAcceptance(session: nat, show: Address -> string)
    ensures Alone(session, "", show) == Idle(NewConn(ClientOf(session)))
  {
    assert "" + "" == "";
  }

  lemma IsolatedArrival(w: World, to: nat, chunk: string, id: nat, bytes: string, show: Address -> string)
    requires ValidWorld(w) && Listens(w, to) && OnItsOwn(w, id, bytes, show)
    ensures OnItsOwn(Step(w, Arrived(to, chunk), show), id, if to == id then bytes + chunk else bytes, show)
  {
    var r := Feed(w.conns[to], chunk, show);
    ItemsOfTagged(w.journal, to, r.writes, id);
    ItemsOfTagged(w.answers, to, r.answers, id);
    if to == id { FeedTwice(NewConn(ClientOf(id)), bytes, chunk, show); }
  }

  // ---- when the daemon goes down ----

  lemma AloneBreaks(id: nat, bytes: string, show: Address -> string)
    ensures Alone(id, bytes, show).conn.phase.Broken? <==> Fatal(bytes)
  {
    assert "" + bytes == bytes;
    BreaksExactlyOnFatalBytes(Fresh(ClientOf(id)), bytes, show);
  }

  lemma {:induction false} HaltedOnBrokenConnection(es: seq<Event>, show: Address -> string)
    ensures Run(es, show).halted <==> exists id :: id in Run(es, show).conns && Run(es, show).conns[id].phase.Broken?
  {
    if es != [] {
      var init, e := es[..|es| - 1], es[|es| - 1];
      var w, w' := Run(init, show), Run(es, show);
      HaltedOnBrokenConnection(init, show);
      if w'.halted && !w.halted {
        assert e.session in w'.conns && w'.conns[e.session].phase.Broken?;
      }
    }
  }

  ghost predicate SawFatalBytes(es: seq<Event>, id: nat, show: Address -> string) {
    1 <= id <= Run(es, show).accepted && Fatal(Seen(es, id, show))
  }

  // The daemon is down exactly if some session has seen fatal bytes.
  lemma HaltsExactlyOnFatalBytes(es: seq<Event>, show: Address -> string)
    ensures Run(es, show).halted <==> exists id :: SawFatalBytes(es, id, show)
  {
    var w := Run(es, show);
    if w.halted {
      HaltedOnBrokenConnection(es, show);
      var id :| id in w.conns && w.conns[id].phase.Broken?;
      Isolation(es, id, show);
      AloneBreaks(id, Seen(es, id, show), show);
      assert SawFatalBytes(es, id, show);
    }
    if id :| SawFatalBytes(es, id, show) {
      FatalBytesHalt(es, id, show);
    }
  }

  lemma {:induction false} FatalBytesHalt(es: seq<Event>, id: nat, show: Address -> string)
    requires SawFatalBytes(es, id, show)
    ensures Run(es, show).halted
  {
    var init, e := es[..|es| - 1], es[|es| - 1];
    var w := Run(init, show);
    if id > w.accepted {
      NotYetAccepted(init, id, show);
    } else if e.Arrived? && e.session == id && Listens(w, id) {
      Isolation(es, id, show);
      AloneBreaks(id, Seen(es, id, show), show);
    } else {
      FatalBytesHalt(init, id, show);
    }
  }

  // ---- the same bytes, read off the events alone ----

  function Acceptances(es: seq<Event>): nat {
    if es == [] then 0 else Acceptances(es[..|es| - 1]) + if es[|es| - 1].Accepted? then 1 else 0
  }

  predicate Connected(es: seq<Event>, session: nat) {
    if es == [] then false else
      var before := Connected(es[..|es| - 1], session);
      match es[|es| - 1]
      case Accepted => session == Acceptances(es) || before
      case Arrived(_, _) => before
      case ConnectionLost(id) => id != session && before
  }

  // Everything that arrived for a session between its acceptance and the loss of its connection.
  function Delivered(es: seq<Event>, session: nat): string {
    if es == [] then "" else
      var init, e := es[..|es| - 1], es[|es| - 1];
      if e.Arrived? && e.session == session && Connected(init, session)
      then Delivered(init, session) + e.chunk
      else Delivered(init, session)
  }

  // As long as the daemon is up, a session sees all that is delivered to it.
  lemma {:induction false} SeenWhileUp(es: seq<Event>, session: nat, show: Address -> string)
    requires !Run(es, show).halted
    ensures Run(es, show).accepted == Acceptances(es)
    ensures session in Run(es, show).conns <==> Connected(es, session)
    ensures Seen(es, session, show) == Delivered(es, session)
  {
    if es != [] { SeenWhileUp(es[..|es| - 1], session, show); }
  }

  // ---- a session's requests and their answers ----

  // All writes of a list of requests.
  function WritesSince(s: State, ms: seq<ProtObj>, show: Address -> string): seq<Write> {
    if ms == [] then [] else
      var init := ms[..|ms| - 1];
      WritesSince(s, init, show) + Act(Since(s, init, show), ms[|ms| - 1], show).writes
  }

  lemma LastState(s: State, ms: seq<ProtObj>, last: ProtObj, all: seq<ProtObj>, show: Address -> string)
    requires all == ms + [last]
    ensures Since(s, all, show) == Act(Since(s, ms, show), last, show).state
  {
    assert all[..|all| - 1] == ms;
  }

  lemma LastWrites(s: State, ms: seq<ProtObj>, last: ProtObj, all: seq<ProtObj>, show: Address -> string)
    requires all == ms + [last]
    ensures WritesSince(s, all, show) == WritesSince(s, ms, show) + Act(Since(s, ms, show), last, show).writes
  {
    assert all[..|all| - 1] == ms;
  }

  lemma BothEnds<T>(x: T, xs: seq<T>, all: seq<T>)
    requires xs != [] && all == [x] + xs
    ensures all[..|all| - 1] == [x] + xs[..|xs| - 1]
    ensures all == all[..|all| - 1] + [xs[|xs| - 1]] && xs == xs[..|xs| - 1] + [xs[|xs| - 1]]
  {
  }

  lemma {:induction false} FirstState(s: State, m: ProtObj, ms: seq<ProtObj>, all: seq<ProtObj>,
                                      show: Address -> string)
    requires all == [m] + ms
    ensures Since(s, all, show) == Since(Since(s, [m], show), ms, show)
    decreases |ms|
  {
    if ms == [] {
      assert all == [m];
    } else {
      var init, last := ms[..|ms| - 1], ms[|ms| - 1];
      var shorter := all[..|all| - 1];
      BothEnds(m, ms, all);
      FirstState(s, m, init, shorter, show);
      LastState(s, shorter, last, all, show);
    }
  }

  lemma {:induction false} FirstWrites(s: State, m: ProtObj, ms: seq<ProtObj>, all: seq<ProtObj>,
                                       show: Address -> string)
    requires all == [m] + ms
    ensures WritesSince(s, all, show) == WritesSince(s, [m], show) + WritesSince(Since(s, [m], show), ms, show)
    decreases |ms|
  {
    if ms == [] {
      assert all == [m];
    } else {
      var init, last := ms[..|ms| - 1], ms[|ms| - 1];
      var shorter := all[..|all| - 1];
      BothEnds(m, ms, all);
      FirstState(s, m, init, shorter, show);
      FirstWrites(s, m, init, shorter, show);
      WritesToo(s, shorter, all, Since(s, [m], show), init, ms, WritesSince(s, [m], show), last, show);
    }
  }

  lemma OneInHistory(s: State, m: ProtObj, show: Address -> string)
    ensures Since(s, [m], show) == Act(s, m, show).state && WritesSince(s, [m], show) == Act(s, m, show).writes
  {
    LastState(s, [], m, [m], show);
    LastWrites(s, [], m, [m], show);
  }

  lemma WritesToo(s: State, shorter: seq<ProtObj>, all: seq<ProtObj>, s1: State, init: seq<ProtObj>,
                  ms: seq<ProtObj>, first: seq<Write>, last: ProtObj, show: Address -> string)
    requires all == shorter + [last] && ms == init + [last]
    requires Since(s, shorter, show) == Since(s1, init, show)
    requires WritesSince(s, shorter, show) == first + WritesSince(s1, init, show)
    ensures WritesSince(s, all, show) == first + WritesSince(s1, ms, show)
  {
    LastWrites(s, shorter, last, all, show);
    LastWrites(s1, init, last, ms, show);
    MoreWrites(WritesSince(s, all, show), WritesSince(s1, ms, show), first, WritesSince(s1, init, show),
               Act(Since(s1, init, show), last, show).writes);
  }

  lemma MoreWrites(all: seq<Write>, later: seq<Write>, a: seq<Write>, b: seq<Write>, c: seq<Write>)
    requires all == a + b + c && later == b + c
    ensures all == a + later
  {
  }

  ghost predicate OneAfterTheOther(ms: seq<ProtObj>) {
    && (forall m | m in ms :: IsRequest(m))
    && (forall i | 0 <= i < |ms| - 1 :: !ms[i].Disconnect?)
  }

  // Performing requests one after the other, front to back, is what the history says.
  lemma {:induction false} PerformIsHistory(s: State, ms: seq<ProtObj>, show: Address -> string)
    requires OneAfterTheOther(ms)
    ensures Perform(s, ms, show).conn.session == Since(s, ms, show)
    ensures Perform(s, ms, show).writes == WritesSince(s, ms, show)
    decreases |ms|
  {
    if ms != [] {
      var m, rest := ms[0], ms[1..];
      assert ms == [m] + rest && m in ms && OneAfterTheOther(rest);
      PerformIsHistory(Since(s, [m], show), rest, show);
      OneInHistory(s, m, show);
      FirstState(s, m, rest, ms, show);
      FirstWrites(s, m, rest, ms, show);
      PerformFirst(s, m, rest, show);
    }
  }

  // Request by request, it answers what the history says.
  lemma {:induction false} AnswersAreHistory(s: State, ms: seq<ProtObj>, k: nat, show: Address -> string)
    requires OneAfterTheOther(ms)
    ensures |Perform(s, ms, show).answers| == |ms|
    ensures k < |ms| ==> EffectAt(s, ms, k, show).reply == Some(Perform(s, ms, show).answers[k])
    decreases |ms|
  {
    if ms != [] {
      var m, rest := ms[0], ms[1..];
      assert ms == [m] + rest && m in ms && OneAfterTheOther(rest);
      AnswersAreHistory(Act(s, m, show).state, rest, if k == 0 then 0 else k - 1, show);
      if k < |ms| { EffectLater(s, m, rest, k, show); }
      PerformFirst(s, m, rest, show);
    }
  }

  lemma PerformFirst(s: State, m: ProtObj, rest: seq<ProtObj>, show: Address -> string)
    requires IsRequest(m) && (m.Disconnect? ==> rest == [])
    ensures var r, e := Perform(s, [m] + rest, show), Act(s, m, show);
            && e.reply.Some?
            && r.conn.session == Perform(e.state, rest, show).conn.session
            && r.writes == e.writes + Perform(e.state, rest, show).writes
            && r.answers == [e.reply.value] + Perform(e.state, rest, show).answers
  {
    assert ([m] + rest)[0] == m && ([m] + rest)[1..] == rest;
  }

  lemma EffectLater(s: State, m: ProtObj, rest: seq<ProtObj>, k: nat, show: Address -> string)
    requires k <= |rest|
    ensures EffectAt(s, [m] + rest, k, show)
         == if k == 0 then Act(s, m, show) else EffectAt(Act(s, m, show).state, rest, k - 1, show)
  {
    if k == 0 {
      assert ([m] + rest)[..0] == [];
    } else {
      OneInHistory(s, m, show);
      FirstState(s, m, rest[..k - 1], ([m] + rest)[..k], show);
    }
  }

  // In any run, a session that has seen the bytes of some requests has answered the k-th of them
  // as its history demands, has written what they demand, and nothing else.
  lemma AnsweredByHistory(es: seq<Event>, id: nat, ms: seq<ProtObj>, k: nat, show: Address -> string)
    requires 1 <= id <= Run(es, show).accepted
    requires forall m | m in ms :: Sendable(m) && Deliverable(m)
    requires forall i | 0 <= i < |ms| - 1 :: !ms[i].Disconnect?
    requires Seen(es, id, show) == Frames(ms)
    ensures ItemsOf(Run(es, show).journal, id) == WritesSince(Fresh(ClientOf(id)), ms, show)
    ensures var answers := ItemsOf(Run(es, show).answers, id);
            && |answers| == |ms|
            && (k < |ms| ==> EffectAt(Fresh(ClientOf(id)), ms, k, show).reply == Some(answers[k]))
  {
    Isolation(es, id, show);
    assert "" + Frames(ms) == Frames(ms);
    ServedAsPerformed(Fresh(ClientOf(id)), ms, show);
    assert OneAfterTheOther(ms);
    PerformIsHistory(Fresh(ClientOf(id)), ms, show);
    AnswersAreHistory(Fresh(ClientOf(id)), ms, k, show);
  }

  // ---- client handles ----

  lemma {:induction false} DrainGreets(c: Conn, show: Address -> string)
    requires Valid(c)
    ensures Drain(c, show).conn.session.client == c.session.client
    ensures forall a | a in Drain(c, show).answers && a.ClientHandle? :: a.client == c.session.client
    decreases |c.unread|, if c.phase.AwaitPayload? then 1 else 0
  {
    if CanRead(c) {
      ReadOneGreets(c, show);
      DrainGreets(ReadOne(c, show).conn, show);
    }
  }

  lemma ReadOneGreets(c: Conn, show: Address -> string)
    requires Valid(c) && CanRead(c)
    ensures ReadOne(c, show).conn.session.client == c.session.client
    ensures forall a | a in ReadOne(c, show).answers && a.ClientHandle? :: a.client == c.session.client
  {
    if c.phase.AwaitPayload? {
      var m := ReadPayload(c.phase.kind, c.unread[..c.phase.length]);
      if m.Some? { ReplyGreets(c.session, m.value, show); }
    }
  }

  lemma ReplyGreets(s: State, m: ProtObj, show: Address -> string)
    ensures var e := Act(s, m, show);
            && e.state.client == s.client
            && (e.reply.Some? && e.reply.value.ClientHandle? ==> e.reply.value.client == s.client)
  {
  }

  // Live sessions have the number of their acceptance modulo 2^32 as client handle, and so had all
  // that were ever told one.
  ghost predicate NumberedByAcceptance(w: World) {
    && (forall id | id in w.conns :: w.conns[id].session.client == id % 0x1_0000_0000)
    && (forall a | a in w.answers && a.item.ClientHandle? :: a.item.client == a.session % 0x1_0000_0000)
  }

  lemma StepNumbers(w: World, e: Event, show: Address -> string)
    requires ValidWorld(w) && NumberedByAcceptance(w)
    ensures NumberedByAcceptance(Step(w, e, show))
  {
    var w' := Step(w, e, show);
    if e.Arrived? && Listens(w, e.session) {
      var c := Extend(w.conns[e.session], e.chunk);
      DrainGreets(c, show);
      assert w'.conns == w.conns[e.session := Drain(c, show).conn];
    } else if e.Accepted? && !w.halted {
      var id := w.accepted + 1;
      assert w'.conns == w.conns[id := NewConn(ClientOf(id))];
      assert NewConn(ClientOf(id)).session.client == id % 0x1_0000_0000;
    }
  }

  // In any run, whatever client handle the n-th accepted session is given is n modulo 2^32.
  lemma {:induction false} HandlesNumberSessions(es: seq<Event>, show: Address -> string)
    ensures NumberedByAcceptance(Run(es, show))
  {
    if es != [] {
      HandlesNumberSessions(es[..|es| - 1], show);
      StepNumbers(Run(es[..|es| - 1], show), es[|es| - 1], show);
    }
  }

  // The session waits for a request, with nothing left over.
  predicate Idles(w: World, id: nat) {
    Listens(w, id) && w.conns[id].phase.AwaitHeader? && w.conns[id].unread == ""
  }

  lemma OneRequest(es: seq<Event>, id: nat, m: ProtObj, show: Address -> string)
    requires Idles(Run(es, show), id) && Deliverable(m)
    ensures var w, e := Run(es, show), Act(Run(es, show).conns[id].session, m, show);
            && e.reply.Some?
            && Run(es + [Arrived(id, Frame(m))], show).answers == w.answers + [Entry(id, e.reply.value)]
            && Run(es + [Arrived(id, Frame(m))], show).journal == w.journal + Tagged(id, e.writes)
  {
    var longer := es + [Arrived(id, Frame(m))];
    assert longer[..|longer| - 1] == es;
    var c := Run(es, show).conns[id];
    assert Extend(c, Frame(m)) == Extend(Waiting(c.session), Frame(m));
    ServeOne(c.session, m, show);
  }

  // In any run, an introduction by the n-th accepted session is answered with n modulo 2^32.
  lemma IntroducedByNumber(es: seq<Event>, id: nat, name: string, ip: Address, show: Address -> string)
    requires Idles(Run(es, show), id) && Deliverable(Client(name, ip))
    ensures Run(es + [Arrived(id, Frame(Client(name, ip)))], show).answers
         == Run(es, show).answers + [Entry(id, ClientHandle(id % 0x1_0000_0000))]
  {
    OneRequest(es, id, Client(name, ip), show);
    HandlesNumberSessions(es, show);
  }

  // And the handle of any other of 2^32 sessions in a row cannot disconnect it.
  lemma OnlyOwnHandleDisconnects(es: seq<Event>, id: nat, other: nat, show: Address -> string)
    requires Idles(Run(es, show), id)
    ensures var bye := Disconnect(other % 0x1_0000_0000);
            Run(es + [Arrived(id, Frame(bye))], show).answers
            == Run(es, show).answers
               + [Entry(id, if (id - other) % 0x1_0000_0000 == 0 then Acknowledged
                            else NotAcknowledged("Tried to disconnect wrong client handle."))]
  {
    OneRequest(es, id, Disconnect(other % 0x1_0000_0000), show);
    HandlesNumberSessions(es, show);
    SameRemainder(id, other);
  }

  lemma SameRemainder(a: nat, b: nat)
    ensures a % 0x1_0000_0000 == b % 0x1_0000_0000 <==> (a - b) % 0x1_0000_0000 == 0
  {
    var p, q := a / 0x1_0000_0000, b / 0x1_0000_0000;
    assert a == 0x1_0000_0000 * p + a % 0x1_0000_0000 && b == 0x1_0000_0000 * q + b % 0x1_0000_0000;
  }

  // ---- the log files ----

  function AllWrites(journal: seq<Entry<Write>>): (ws: seq<Write>)
    ensures |ws| == |journal| && forall i | 0 <= i < |journal| :: ws[i] == journal[i].item
  {
    seq(|journal|, i requires 0 <= i < |journal| => journal[i].item)
  }

  // The files after the journal: every write got its reading of the clock and was appended.
  function Files(initial: map<string, string>, journal: seq<Entry<Write>>, clock: nat -> string): map<string, string> {
    AppendAll(initial, Stamp(AllWrites(journal), clock, 0))
  }

  function PrefixOf(w: Write, stamp: string): string {
    "[" + stamp + ":" + w.name + ":" + w.address
  }

  // The records of one file, in the order of the journal.
  function RecordsIn(journal: seq<Entry<Write>>, path: string, clock: nat -> string): seq<Record> {
    if journal == [] then [] else
      var k := |journal| - 1;
      var e := journal[k];
      var earlier := RecordsIn(journal[..k], path, clock);
      if e.item.path == path
      then earlier + [Record(e.session, PrefixOf(e.item, clock(k)), e.item.text)]
      else earlier
  }

  lemma FilesNext(initial: map<string, string>, journal: seq<Entry<Write>>, e: Entry<Write>, clock: nat -> string)
    ensures Files(initial, journal + [e], clock)
         == Append(Files(initial, journal, clock), Stamped(e.item, clock(|journal|)))
  {
    assert AllWrites(journal + [e]) == AllWrites(journal) + [e.item];
    StampNextAt(initial, AllWrites(journal), e.item, clock, 0, |journal|);
  }

  // Every write adds one line to one file, stamped with the reading of the clock whose turn it is.
  lemma LogGrowsByOneLine(initial: map<string, string>, journal: seq<Entry<Write>>, e: Entry<Write>,
                          clock: nat -> string)
    ensures Files(initial, [], clock) == initial
    ensures var files, w := Files(initial, journal, clock), e.item;
            var line := "[" + clock(|journal|) + ":" + w.name + ":" + w.address + "] " + w.text + "\n";
            Files(initial, journal + [e], clock)
            == files[w.path := if w.path in files then files[w.path] + line else line]
  {
    assert Stamp(AllWrites([]), clock, 0) == [];
    FilesNext(initial, journal, e, clock);
    var line := LineOf(Stamped(e.item, clock(|journal|)));
    assert "" + line == line;
  }

  lemma {:induction false} FileExists(initial: map<string, string>, journal: seq<Entry<Write>>, path: string,
                                      clock: nat -> string)
    ensures path in Files(initial, journal, clock)
       <==> path in initial || exists i :: 0 <= i < |journal| && journal[i].item.path == path
  {
    if journal == [] {
      assert Stamp(AllWrites(journal), clock, 0) == [];
    } else {
      var k := |journal| - 1;
      FileExists(initial, journal[..k], path, clock);
      FilesNext(initial, journal[..k], journal[k], clock);
      assert journal == journal[..k] + [journal[k]];
    }
  }

  // A file holds what it held before, followed by its records and nothing else.
  lemma {:induction false} FileHoldsRecords(initial: map<string, string>, journal: seq<Entry<Write>>, path: string,
                                            clock: nat -> string)
    ensures Contents(Files(initial, journal, clock), path)
         == Contents(initial, path) + Log(RecordsIn(journal, path, clock))
  {
    if journal == [] {
      assert Stamp(AllWrites(journal), clock, 0) == [];
    } else {
      var k := |journal| - 1;
      var init, e := journal[..k], journal[k];
      FileHoldsRecords(initial, init, path, clock);
      FilesNext(initial, init, e, clock);
      assert journal == init + [e];
      AppendHoldsRecords(Files(initial, init, clock), Contents(initial, path), RecordsIn(init, path, clock),
                         e, clock(k), path);
    }
  }

  lemma AppendHoldsRecords(files: map<string, string>, before: string, rs: seq<Record>, e: Entry<Write>, stamp: string,
                           path: string)
    requires Contents(files, path) == before + Log(rs)
    ensures Contents(Append(files, Stamped(e.item, stamp)), path)
         == if e.item.path == path
            then before + Log(rs + [Record(e.session, PrefixOf(e.item, stamp), e.item.text)])
            else before + Log(rs)
  {
    var r := Record(e.session, PrefixOf(e.item, stamp), e.item.text);
    LogAppends(rs, [r]);
    LogOfOne(r);
    LineIsRecord(e.item, stamp, e.session);
    Associates(before, Log(rs), Render(r));
  }

  lemma LogOfOne(r: Record)
    ensures Log([r]) == Render(r)
  {
    assert Render(r) + "" == Render(r);
  }

  lemma LineIsRecord(w: Write, stamp: string, session: nat)
    ensures LineOf(Stamped(w, stamp)) == Render(Record(session, PrefixOf(w, stamp), w.text))
  {
  }
}
