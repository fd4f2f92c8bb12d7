// What the ledger remembers over whole histories of system test runs.
module LedgerHistory {
  import opened Optional
  import opened Sorting
  import opened LedgerText
  import opened SystemTesting

  lemma {:induction false} KeepMembers(xs: seq<string>, s: set<string>)
    ensures forall x :: x in Keep(xs, s) <==> x in xs && x in s
  {
    if xs != [] {
      KeepMembers(xs[..|xs| - 1], s);
      assert xs == xs[..|xs| - 1] + [xs[|xs| - 1]];
    }
  }

  lemma {:induction false} KeepAscends(xs: seq<string>, s: set<string>)
    requires Ascending(xs, StringLeq)
    ensures Ascending(Keep(xs, s), StringLeq)
  {
    if xs != [] {
      var init := xs[..|xs| - 1];
      KeepAscends(init, s);
      KeepMembers(init, s);
      forall i | 0 <= i < |Keep(init, s)| ensures exists j :: 0 <= j < |init| && xs[j] == Keep(init, s)[i] {
        assert Keep(init, s)[i] in init;
      }
    }
  }

  lemma {:induction false} KeepSame(xs: seq<string>, s: set<string>, t: set<string>)
    requires forall x | x in xs :: x in s <==> x in t
    ensures Keep(xs, s) == Keep(xs, t)
  {
    if xs != [] { KeepSame(xs[..|xs| - 1], s, t); }
  }

  // One run: every test of the suite ends up in exactly one of the two sorted lists, only tests
  // that return true among the passed; the regressions are the failed tests the ledger knew, in
  // order; no name is written twice.
  lemma RunConservation(r: Run, earlier: seq<string>)
    ensures InOrder(Passed(r)) && InOrder(Failed(r)) && InOrder(Regressed(r, earlier))
    ensures forall t :: t in Passed(r) <==> t in r.suite && r.outcome(t).Returned? && r.outcome(t).ok
    ensures forall t :: t in Failed(r) <==> t in r.suite && !(r.outcome(t).Returned? && r.outcome(t).ok)
    ensures forall t :: t in Regressed(r, earlier) <==> t in Failed(r) && t in earlier
    ensures |Passed(r)| + |Failed(r)| == |r.suite|
    ensures forall i, j | 0 <= i < j < |Written(r, earlier)| :: Written(r, earlier)[i] != Written(r, earlier)[j]
  {
    StringOrder();
    var xs := Ordered(r);
    KeepMembers(xs, Successes(r));
    KeepMembers(xs, r.suite - Successes(r));
    KeepMembers(Failed(r), Names(earlier));
    KeepAscends(xs, Successes(r));
    KeepAscends(xs, r.suite - Successes(r));
    KeepAscends(Failed(r), Names(earlier));
    AscendingInOrder(Passed(r));
    AscendingInOrder(Failed(r));
    AscendingInOrder(Regressed(r, earlier));
    KeepSplits(xs, Successes(r), r.suite - Successes(r));
    var p, w := Passed(r), Written(r, earlier);
    forall i, j | 0 <= i < j < |w| ensures w[i] != w[j] {
      if i < |p| <= j { assert w[i] in p && w[j] in Regressed(r, earlier); }
    }
  }

  lemma {:induction false} KeepSplits(xs: seq<string>, s: set<string>, t: set<string>)
    requires s !! t && forall x | x in xs :: x in s || x in t
    ensures |Keep(xs, s)| + |Keep(xs, t)| == |xs|
  {
    if xs != [] {
      assert forall x | x in xs[..|xs| - 1] :: x in xs;
      KeepSplits(xs[..|xs| - 1], s, t);
    }
  }

  // ---- the publisher's view ----

  datatype Tally = Tally(passed: seq<string>, failed: seq<string>, regressions: seq<string>)

  function Count(t: Tally, e: Event): Tally {
    match e
    case TestPassed(test) => t.(passed := t.passed + [test])
    case TestFailed(test, _, again) =>
      t.(failed := t.failed + [test], regressions := if again then t.regressions + [test] else t.regressions)
    case _ => t
  }

  function Replay(events: seq<Event>): Tally {
    if events == [] then Tally([], [], []) else Count(Replay(events[..|events| - 1]), events[|events| - 1])
  }

  lemma ReplayNext(events: seq<Event>, e: Event)
    ensures Replay(events + [e]) == Count(Replay(events), e)
  {
    assert (events + [e])[..|events|] == events;
  }

  // Replaying the events of a run rebuilds its three lists.
  lemma ReplayRebuilds(r: Run, earlier: seq<string>)
    ensures Replay([TestsStart(|r.suite|)] + TestEvents(Ordered(r), earlier, r.outcome))
         == Tally(Passed(r), Failed(r), Regressed(r, earlier))
  {
    ReplayTests([TestsStart(|r.suite|)], Ordered(r), r, earlier);
  }

  lemma {:induction false} ReplayTests(start: seq<Event>, tests: seq<string>, r: Run, earlier: seq<string>)
    requires |start| == 1 && start[0].TestsStart?
    requires forall t | t in tests :: t in r.suite
    ensures Replay(start + TestEvents(tests, earlier, r.outcome))
         == Tallied(tests, r, earlier)
  {
    if tests == [] {
      assert start + [] == start && start[..0] == [];
    } else {
      SplitLast(tests);
      var init, test := tests[..|tests| - 1], tests[|tests| - 1];
      assert forall t | t in init :: t in tests;
      assert test in tests;
      ReplayTests(start, init, r, earlier);
      ReplayOne(start, init, test, r, earlier);
    }
  }

  ghost function Tallied(tests: seq<string>, r: Run, earlier: seq<string>): Tally {
    Tally(Keep(tests, Successes(r)), Keep(tests, r.suite - Successes(r)),
          Keep(Keep(tests, r.suite - Successes(r)), Names(earlier)))
  }

  lemma ReplayOne(start: seq<Event>, init: seq<string>, test: string, r: Run, earlier: seq<string>)
    requires test in r.suite
    requires Replay(start + TestEvents(init, earlier, r.outcome)) == Tallied(init, r, earlier)
    ensures Replay(start + TestEvents(init + [test], earlier, r.outcome)) == Tallied(init + [test], r, earlier)
  {
    var before := start + TestEvents(init, earlier, r.outcome);
    var result := if Succeeds(r.outcome(test)) then TestPassed(test)
                  else TestFailed(test, Message(r.outcome(test)), test in earlier);
    TestEventsNext(start, init, test, earlier, r.outcome, result);
    ReplayNext(before, TestStarts(test));
    ReplayNext(before + [TestStarts(test)], result);
    TalliedNext(init, test, r, earlier, result);
  }

  lemma TalliedNext(init: seq<string>, test: string, r: Run, earlier: seq<string>, result: Event)
    requires test in r.suite
    requires result == if Succeeds(r.outcome(test)) then TestPassed(test)
                       else TestFailed(test, Message(r.outcome(test)), test in earlier)
    ensures Tallied(init + [test], r, earlier) == Count(Tallied(init, r, earlier), result)
  {
    KeepNext(init, test, Successes(r));
    KeepNext(init, test, r.suite - Successes(r));
    KeepNext(Keep(init, r.suite - Successes(r)), test, Names(earlier));
  }

  // The tests are run in dictionary order, every test of the suite once.
  lemma RunOrder(r: Run)
    ensures InOrder(Ordered(r)) && |Ordered(r)| == |r.suite| && forall t :: t in Ordered(r) <==> t in r.suite
  {
    StringOrder();
    AscendingInOrder(Ordered(r));
  }

  // The events of a run: the size of the suite, then every test of it in that order, announced
  // immediately before its one result; who raises fails, with a message made of the exception.
  lemma EventsAlternate(r: Run, earlier: seq<string>, i: nat)
    requires i < |Ordered(r)|
    ensures |Progress(r, earlier)| == 1 + 2 * |Ordered(r)|
    ensures Progress(r, earlier)[0] == TestsStart(|r.suite|)
    ensures Progress(r, earlier)[1 + 2 * i] == TestStarts(Ordered(r)[i])
    ensures var test := Ordered(r)[i];
            Progress(r, earlier)[2 + 2 * i] == match r.outcome(test) {
              case Returned(ok, message) =>
                if ok then TestPassed(test) else TestFailed(test, message, test in earlier)
              case Raised(typeName, text) => TestFailed(test, typeName + ": " + text + "\n", test in earlier)
              case RaisedUnknown => TestFailed(test, "Unknown exception occurred", test in earlier)
            }
  {
    var tests := Ordered(r);
    TestEventsAt(tests, earlier, r.outcome, i);
    AfterFirst(TestsStart(|r.suite|), TestEvents(tests, earlier, r.outcome), i);
  }

  lemma AfterFirst(first: Event, es: seq<Event>, i: nat)
    requires 2 * i + 1 < |es|
    ensures var all := [first] + es;
            |all| == 1 + |es| && all[0] == first && all[1 + 2 * i] == es[2 * i] && all[2 + 2 * i] == es[2 * i + 1]
  {
  }

  lemma {:induction false} TestEventsAt(tests: seq<string>, earlier: seq<string>, outcome: string -> Outcome, i: nat)
    requires i < |tests|
    ensures var es := TestEvents(tests, earlier, outcome);
            && |es| == 2 * |tests|
            && es[2 * i] == TestStarts(tests[i])
            && es[2 * i + 1] == if Succeeds(outcome(tests[i])) then TestPassed(tests[i])
                                else TestFailed(tests[i], Message(outcome(tests[i])), tests[i] in earlier)
  {
    var init := tests[..|tests| - 1];
    if init != [] { TestEventsAt(init, earlier, outcome, if i < |init| then i else 0); }
  }

  // The four reports: who passed, who failed, who regressed, each in order; and success exactly if
  // no test of the suite that is on the ledger fails.
  lemma ReportsMeaning(r: Run, earlier: seq<string>)
    ensures var es := Results(r, earlier);
            && |es| == 4 && es[0].PassedTests? && es[1].FailedTests? && es[2].Regressions?
            && InOrder(es[0].tests) && InOrder(es[1].tests) && InOrder(es[2].tests)
            && (forall t :: t in es[0].tests <==> t in r.suite && r.outcome(t).Returned? && r.outcome(t).ok)
            && (forall t :: t in es[1].tests <==> t in r.suite && !(r.outcome(t).Returned? && r.outcome(t).ok))
            && (forall t :: t in es[2].tests <==> t in es[1].tests && t in earlier)
            && es[3] == Status(forall t | t in r.suite && t in earlier :: r.outcome(t).Returned? && r.outcome(t).ok)
  {
    RunConservation(r, earlier);
    var regressed := Regressed(r, earlier);
    if regressed != [] { assert regressed[0] in regressed; }
  }

  lemma SplitLast<T>(xs: seq<T>)
    requires xs != []
    ensures xs == xs[..|xs| - 1] + [xs[|xs| - 1]]
  {
  }

  // ---- histories ----

  // The ledger file after a history of runs, each by a fresh object.
  ghost function LedgerAfter(contents: Option<string>, history: seq<Run>): Option<string> {
    if history == [] then contents
    else NextFile(LedgerAfter(contents, history[..|history| - 1]), history[|history| - 1])
  }

  ghost predicate InSuiteSince(history: seq<Run>, k: nat, test: string) {
    forall j | k <= j < |history| :: test in history[j].suite
  }

  // The test passed in some run (or was on the initial ledger) and never left the suite since.
  ghost predicate Remembered(contents: Option<string>, history: seq<Run>, test: string) {
    || (contents.Some? && test in SplitLines(contents.value) && InSuiteSince(history, 0, test))
    || exists k :: 0 <= k < |history| && history[k].outcome(test).Returned? && history[k].outcome(test).ok
                   && InSuiteSince(history, k, test)
  }

  ghost predicate Writable(history: seq<Run>) {
    forall i, t | 0 <= i < |history| && t in history[i].suite :: BreakFree(t)
  }

  lemma WrittenMembers(r: Run, earlier: seq<string>)
    ensures forall t :: t in Written(r, earlier)
              <==> t in r.suite && ((r.outcome(t).Returned? && r.outcome(t).ok) || t in earlier)
  {
    RunConservation(r, earlier);
  }

  lemma RememberedStep(contents: Option<string>, history: seq<Run>, r: Run, test: string)
    ensures Remembered(contents, history + [r], test)
       <==> && test in r.suite
            && ((r.outcome(test).Returned? && r.outcome(test).ok) || Remembered(contents, history, test))
  {
    var longer := history + [r];
    forall k: nat | k <= |history|
      ensures InSuiteSince(longer, k, test) <==> test in r.suite && InSuiteSince(history, k, test)
    {
      if InSuiteSince(longer, k, test) {
        assert longer[|history|] == r;
        forall j | k <= j < |history| ensures test in history[j].suite { assert longer[j] == history[j]; }
      }
    }
    assert forall k | 0 <= k < |history| :: longer[k] == history[k];
    assert longer[|history|] == r;
  }

  // The ledger holds exactly the remembered tests, whatever runs, suites and outcomes came before.
  lemma {:induction false} LedgerRemembers(contents: Option<string>, history: seq<Run>, test: string)
    requires Writable(history)
    ensures test in Earlier(LedgerAfter(contents, history)) <==> Remembered(contents, history, test)
  {
    if history != [] {
      var before, r := history[..|history| - 1], history[|history| - 1];
      LedgerRemembers(contents, before, test);
      SplitLast(history);
      RememberedStep(contents, before, r, test);
      LedgerStep(LedgerAfter(contents, before), r, test);
    }
  }

  // The rewritten file, read back: the passed tests, then the regressions.
  lemma LedgerStep(contents: Option<string>, r: Run, test: string)
    requires forall t | t in r.suite :: BreakFree(t)
    ensures Earlier(NextFile(contents, r)) == Passed(r) + Regressed(r, Earlier(contents))
    ensures test in Earlier(NextFile(contents, r))
       <==> test in r.suite && ((r.outcome(test).Returned? && r.outcome(test).ok) || test in Earlier(contents))
  {
    WrittenMembers(r, Earlier(contents));
    ReadBack(Written(r, Earlier(contents)));
  }

  // Run n reports a test as a regression exactly when it fails now and is remembered from before,
  // however many failing runs lie between.
  lemma RegressionReported(contents: Option<string>, history: seq<Run>, n: nat, test: string)
    requires Writable(history) && n < |history|
    ensures test in Regressed(history[n], Earlier(LedgerAfter(contents, history[..n])))
       <==> && test in history[n].suite
            && !(history[n].outcome(test).Returned? && history[n].outcome(test).ok)
            && Remembered(contents, history[..n], test)
  {
    LedgerRemembers(contents, history[..n], test);
    RunConservation(history[n], Earlier(LedgerAfter(contents, history[..n])));
  }

  // Running one object twice compares both runs with the ledger loaded at construction. It leaves
  // the file two fresh objects would leave exactly when no test that only the first run passed is
  // new to that ledger.
  lemma RerunOnOneObject(contents: Option<string>, first: Run, second: Run)
    requires first.suite == second.suite && Writable([first])
    ensures Some(Print(Written(second, Earlier(contents)))) == LedgerAfter(contents, [first, second])
       <==> forall t | t in first.suite && (first.outcome(t).Returned? && first.outcome(t).ok)
                       && !(second.outcome(t).Returned? && second.outcome(t).ok) :: t in Earlier(contents)
  {
    var earlier := Earlier(contents);
    var middle := Written(first, earlier);
    assert [first, second][..1] == [first] && [first][..0] == [];
    assert [first, second][1] == second && [first][0] == first;
    WrittenMembers(first, earlier);
    assert [first][0] == first;
    ReadBack(middle);
    assert LedgerAfter(contents, [first]) == NextFile(LedgerAfter(contents, []), first);
    assert LedgerAfter(contents, [first, second]) == Some(Print(Written(second, middle)));
    RunConservation(second, earlier);
    WrittenMembers(second, earlier);
    WrittenMembers(second, middle);
    ReadBack(Written(second, earlier));
    ReadBack(Written(second, middle));
    if forall t | t in Failed(second) && t in middle :: t in earlier {
      KeepSame(Failed(second), Names(earlier), Names(middle));
    }
  }
}
