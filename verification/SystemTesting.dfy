// The system test runner and its regression ledger.
module SystemTesting {
  import opened Optional
  import opened Sorting
  import opened LedgerText

  // What calling one test function does.
  datatype Outcome =
    | Returned(ok: bool, message: string)
    | Raised(typeName: string, text: string)
    | RaisedUnknown

  predicate Succeeds(o: Outcome) { o.Returned? && o.ok }

  function Message(o: Outcome): string {
    match o
    case Returned(_, message) => message
    case Raised(typeName, text) => typeName + ": " + text + "\n"
    case RaisedUnknown => "Unknown exception occurred"
  }

  // What a publisher is told.
  datatype Event =
    | TestsStart(count: nat)
    | TestStarts(test: string)
    | TestFailed(test: string, message: string, isRegression: bool)
    | TestPassed(test: string)
    | PassedTests(tests: seq<string>)
    | FailedTests(tests: seq<string>)
    | Regressions(tests: seq<string>)
    | Status(success: bool)

  class Publisher {
    var events: seq<Event>
    constructor () ensures events == [] { events := []; }
  }

  class PassedTestsFile {
    var contents: Option<string>
    constructor () ensures contents == None { contents := None; }
  }

  // The elements of xs that are in s, in their order.
  function Keep(xs: seq<string>, s: set<string>): seq<string> {
    if xs == [] then [] else
      Keep(xs[..|xs| - 1], s) + (if xs[|xs| - 1] in s then [xs[|xs| - 1]] else [])
  }

  lemma KeepNext(xs: seq<string>, x: string, s: set<string>)
    ensures Keep(xs + [x], s) == if x in s then Keep(xs, s) + [x] else Keep(xs, s)
  {
    assert (xs + [x])[..|xs|] == xs;
  }

  function Names(xs: seq<string>): set<string> { set x | x in xs }

  // One run of one suite: the names the loader gave and how each test goes.
  datatype Run = Run(suite: set<string>, outcome: string -> Outcome)

  ghost function Successes(r: Run): set<string> { set t | t in r.suite && Succeeds(r.outcome(t)) }

  ghost function Ordered(r: Run): seq<string> {
    StringOrder();
    Sorted(r.suite, StringLeq)
  }

  ghost function Passed(r: Run): seq<string> { Keep(Ordered(r), Successes(r)) }

  ghost function Failed(r: Run): seq<string> { Keep(Ordered(r), r.suite - Successes(r)) }

  ghost function Regressed(r: Run, earlier: seq<string>): seq<string> { Keep(Failed(r), Names(earlier)) }

  // The regressions are written along with the passed tests, so they are remembered.
  ghost function Written(r: Run, earlier: seq<string>): seq<string> { Passed(r) + Regressed(r, earlier) }

  function Earlier(contents: Option<string>): seq<string> {
    if contents.None? then [] else SplitLines(contents.value)
  }

  ghost function TestEvents(tests: seq<string>, earlier: seq<string>, outcome: string -> Outcome): seq<Event> {
    if tests == [] then [] else
      var test := tests[|tests| - 1];
      TestEvents(tests[..|tests| - 1], earlier, outcome)
      + [TestStarts(test),
         if Succeeds(outcome(test)) then TestPassed(test)
         else TestFailed(test, Message(outcome(test)), test in earlier)]
  }

  ghost function Progress(run: Run, earlier: seq<string>): seq<Event> {
    [TestsStart(|run.suite|)] + TestEvents(Ordered(run), earlier, run.outcome)
  }

  function Reports(passed: seq<string>, failed: seq<string>, regressions: seq<string>): seq<Event> {
    [PassedTests(passed), FailedTests(failed), Regressions(regressions), Status(regressions == [])]
  }

  ghost function Results(r: Run, earlier: seq<string>): seq<Event> {
    Reports(Passed(r), Failed(r), Regressed(r, earlier))
  }

  lemma NextPrefix<T>(xs: seq<T>, i: nat)
    requires i < |xs|
    ensures xs[..i + 1] == xs[..i] + [xs[i]]
  {
  }

  lemma TestEventsNext(started: seq<Event>, tests: seq<string>, test: string, earlier: seq<string>,
                       outcome: string -> Outcome, result: Event)
    requires result == if Succeeds(outcome(test)) then TestPassed(test)
                       else TestFailed(test, Message(outcome(test)), test in earlier)
    ensures started + TestEvents(tests + [test], earlier, outcome)
         == started + TestEvents(tests, earlier, outcome) + [TestStarts(test)] + [result]
  {
    assert (tests + [test])[..|tests|] == tests;
  }

  lemma ProgressFrom(before: seq<Event>, r: Run, earlier: seq<string>)
    ensures before + [TestsStart(|r.suite|)] + TestEvents(Ordered(r), earlier, r.outcome)
         == before + Progress(r, earlier)
  {
  }

  // What one more test adds to the lists.
  lemma KeepNextTest(run: Run, tests: seq<string>, i: nat)
    requires i < |tests| && tests[i] in run.suite
    ensures var ok, done, next := Succeeds(run.outcome(tests[i])), tests[..i], tests[..i + 1];
            && Keep(next, Successes(run)) == Keep(done, Successes(run)) + (if ok then [tests[i]] else [])
            && Keep(next, run.suite - Successes(run))
               == Keep(done, run.suite - Successes(run)) + (if ok then [] else [tests[i]])
  {
    NextPrefix(tests, i);
    KeepNext(tests[..i], tests[i], Successes(run));
    KeepNext(tests[..i], tests[i], run.suite - Successes(run));
  }

  class SystemTests {
    const suite: set<string>
    const file: PassedTestsFile
    const earlierPassedTests: seq<string>
    var regressions: seq<string>
    var passedTests: seq<string>
    var failedTests: seq<string>

    constructor (suite: set<string>, file: PassedTestsFile)
      ensures this.suite == suite && this.file == file
      ensures earlierPassedTests == Earlier(file.contents)
      ensures regressions == passedTests == failedTests == []
    {
      this.suite := suite;
      this.file := file;
      this.earlierPassedTests := Earlier(file.contents);
      regressions, passedTests, failedTests := [], [], [];
    }

    method RunTests(outcome: string -> Outcome, publisher: Publisher)
      modifies this, file, publisher
      ensures passedTests == Passed(Run(suite, outcome))
      ensures failedTests == Failed(Run(suite, outcome))
      ensures regressions == Regressed(Run(suite, outcome), earlierPassedTests)
      ensures file.contents == Some(Print(Written(Run(suite, outcome), earlierPassedTests)))
      ensures publisher.events == old(publisher.events) + Progress(Run(suite, outcome), earlierPassedTests)
    {
      publisher.events := publisher.events + [TestsStart(|suite|)];
      regressions := [];
      passedTests := [];
      failedTests := [];
      ghost var run, started := Run(suite, outcome), publisher.events;
      StringOrder();
      var sortedTests := Sorted(suite, StringLeq);
      for i := 0 to |sortedTests|
        invariant passedTests == Keep(sortedTests[..i], Successes(run))
        invariant failedTests == Keep(sortedTests[..i], suite - Successes(run))
        invariant regressions == Keep(failedTests, Names(earlierPassedTests))
        invariant publisher.events == started + TestEvents(sortedTests[..i], earlierPassedTests, outcome)
        invariant file.contents == old(file.contents)
      {
        var test := sortedTests[i];
        KeepNextTest(run, sortedTests, i);
        NextPrefix(sortedTests, i);
        KeepNext(failedTests, test, Names(earlierPassedTests));
        ghost var result := if Succeeds(outcome(test)) then TestPassed(test)
                            else TestFailed(test, Message(outcome(test)), test in earlierPassedTests);
        TestEventsNext(started, sortedTests[..i], test, earlierPassedTests, outcome, result);
        publisher.events := publisher.events + [TestStarts(test)];
        var ok, message := RunTest(test, outcome);
        if !ok {
          if test in earlierPassedTests {
            regressions := regressions + [test];
          }
          failedTests := failedTests + [test];
          publisher.events := publisher.events + [TestFailed(test, message, test in earlierPassedTests)];
        } else {
          publisher.events := publisher.events + [TestPassed(test)];
          passedTests := passedTests + [test];
        }
      }
      assert sortedTests[..|sortedTests|] == sortedTests;
      ProgressFrom(old(publisher.events), run, earlierPassedTests);
      WritePassedTests();
    }

    method RunTest(test: string, outcome: string -> Outcome) returns (ok: bool, message: string)
      ensures ok == Succeeds(outcome(test)) && message == Message(outcome(test))
    {
      match outcome(test)
      case Returned(result, text) => return result, text;
      case Raised(typeName, text) => return false, typeName + ": " + text + "\n";
      case RaisedUnknown => return false, "Unknown exception occurred";
    }

    method WritePassedTests()
      modifies file
      ensures file.contents == Some(Print(passedTests + regressions))
    {
      file.contents := Some(Print(passedTests + regressions));
    }

    method PublishResults(publisher: Publisher)
      modifies publisher
      ensures publisher.events == old(publisher.events)
                                  + Reports(passedTests, failedTests, regressions)
    {
      publisher.events := publisher.events + [PassedTests(passedTests)];
      publisher.events := publisher.events + [FailedTests(failedTests)];
      publisher.events := publisher.events + [Regressions(regressions)];
      publisher.events := publisher.events + [Status(regressions == [])];
    }

    function RegressionCount(): nat reads this { |regressions| }
  }

  // One invocation of the system tests: a fresh object, one run, the results. With an argument,
  // one publisher gets both the progress and the results.
  method SystemTestMain(argv: seq<string>, suite: set<string>, outcome: string -> Outcome, file: PassedTestsFile)
    returns (exitCode: nat, progressPublisher: Publisher, resultsPublisher: Publisher)
    modifies file
    ensures var run, earlier := Run(suite, outcome), Earlier(old(file.contents));
            && file.contents == NextFile(old(file.contents), run)
            && exitCode == |Regressed(run, earlier)|
            && var progress, results := Progress(run, earlier), Results(run, earlier);
               && progressPublisher.events == (if |argv| > 1 then progress + results else progress)
               && resultsPublisher.events == (if |argv| > 1 then progress + results else results)
    ensures fresh(progressPublisher) && fresh(resultsPublisher)
    ensures progressPublisher == resultsPublisher <==> |argv| > 1
  {
    var tests := new SystemTests(suite, file);
    progressPublisher := new Publisher();
    resultsPublisher := new Publisher();
    if |argv| > 1 {
      resultsPublisher := progressPublisher;
    }
    tests.RunTests(outcome, progressPublisher);
    ghost var run, earlier := Run(suite, outcome), Earlier(old(file.contents));
    ghost var progress, results := Progress(run, earlier), Results(run, earlier);
    assert progressPublisher.events == [] + progress == progress;
    assert Reports(tests.passedTests, tests.failedTests, tests.regressions) == results;
    tests.PublishResults(resultsPublisher);
    assert resultsPublisher.events == if |argv| > 1 then progress + results else results;
    assert progressPublisher.events == if |argv| > 1 then progress + results else progress;
    exitCode := tests.RegressionCount();
  }

  ghost function NextFile(contents: Option<string>, run: Run): Option<string> {
    Some(Print(Written(run, Earlier(contents))))
  }
}
