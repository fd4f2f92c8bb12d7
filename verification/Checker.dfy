// The system tests' log checker, and exactly which logs it accepts.
module Checker {
  import opened Optional
  import opened Search
  import opened Records

  function OpenedMarker(app: string): (m: string)
    ensures '\n' !in app ==> OneLine(m)
  {
    "Log opened by \"" + app + "\""
  }

  function ClosedMarker(app: string): (m: string)
    ensures '\n' !in app ==> OneLine(m)
  {
    "Log closed by \"" + app + "\""
  }

  function LinePattern(x: string): (p: string)
    ensures '\n' !in x ==> OneLine(p)
  {
    var p := "] " + x + "\n";
    assert p[..|p| - 1] == "] " + x;
    p
  }

  // One entry per message the report can contain.
  datatype Diagnostic =
    | FileNotCreated(app: string)
    | MissingOpened
    | MissingClosed
    | MissingLine(line: nat)
    | OpenedAfterClosed
    | OpenedAfterFirstLine
    | ClosedBeforeFirstLine
    | LineBefore(line: nat, previous: nat)
    | LogContents(contents: string)

  // Where the leftmost matches are.
  datatype Matches = Matches(openedAt: Option<nat>, closedAt: Option<nat>, lines: seq<Option<nat>>)

  function FindLines(contents: string, lines: seq<string>): (found: seq<Option<nat>>)
    ensures |found| == |lines|
    ensures forall i | 0 <= i < |lines| :: found[i] == Find(LinePattern(lines[i]), contents)
  {
    seq(|lines|, i requires 0 <= i < |lines| => Find(LinePattern(lines[i]), contents))
  }

  function Locate(contents: string, app: string, lines: seq<string>): Matches {
    Matches(Find(OpenedMarker(app), contents), Find(ClosedMarker(app), contents), FindLines(contents, lines))
  }

  predicate After(a: Option<nat>, b: Option<nat>) {
    a.Some? && b.Some? && a.value > b.value
  }

  function Note(report: seq<Diagnostic>, fault: bool, d: Diagnostic): seq<Diagnostic> {
    if fault then report + [d] else report
  }

  lemma NoteAssociates(a: seq<Diagnostic>, b: seq<Diagnostic>, fault: bool, d: Diagnostic)
    ensures Note(a + b, fault, d) == a + Note(b, fault, d)
  {
    assert a + b + [d] == a + (b + [d]);
  }

  function MissingLines(m: seq<Option<nat>>, n: nat): seq<Diagnostic>
    requires n <= |m|
  {
    if n == 0 then [] else Note(MissingLines(m, n - 1), m[n - 1].None?, MissingLine(n - 1))
  }

  function OutOfOrder(m: seq<Option<nat>>, n: nat): seq<Diagnostic>
    requires n <= |m|
  {
    if n <= 1 then [] else Note(OutOfOrder(m, n - 1), After(m[n - 2], m[n - 1]), LineBefore(n - 1, n - 2))
  }

  function Absences(m: Matches): seq<Diagnostic> {
    Note(Note([], m.openedAt.None?, MissingOpened), m.closedAt.None?, MissingClosed)
    + MissingLines(m.lines, |m.lines|)
  }

  function Disorder(m: Matches): seq<Diagnostic> {
    if m.lines == [] then [] else
      Note(Note([], After(m.openedAt, m.lines[0]), OpenedAfterFirstLine),
           After(m.lines[0], m.closedAt), ClosedBeforeFirstLine)
      + OutOfOrder(m.lines, |m.lines|)
  }

  function Diagnose(m: Matches): seq<Diagnostic> {
    Note(Absences(m), After(m.openedAt, m.closedAt), OpenedAfterClosed) + Disorder(m)
  }

  // The verdict in terms of positions only.
  ghost predicate Accepted(m: Matches) {
    && m.openedAt.Some? && m.closedAt.Some?
    && (forall i | 0 <= i < |m.lines| :: m.lines[i].Some?)
    && m.openedAt.value <= m.closedAt.value
    && (m.lines != [] ==> m.openedAt.value <= m.lines[0].value <= m.closedAt.value)
    && (forall i | 1 <= i < |m.lines| :: m.lines[i - 1].value <= m.lines[i].value)
  }

  ghost predicate Verdict(file: Option<string>, app: string, lines: seq<string>) {
    file.Some? && Accepted(Locate(file.value, app, lines))
  }

  method CheckLoggedLines(file: Option<string>, app: string, lines: seq<string>)
      returns (ok: bool, report: seq<Diagnostic>)
    ensures ok <==> Verdict(file, app, lines)
    ensures ok <==> report == []
    ensures file.None? ==> report == [FileNotCreated(app)]
    ensures file.Some? && !ok ==> report == Diagnose(Locate(file.value, app, lines)) + [LogContents(file.value)]
  {
    if file.None? {
      return false, [FileNotCreated(app)];
    }
    var contents := file.value;
    var openedAt := Find(OpenedMarker(app), contents);
    var closedAt := Find(ClosedMarker(app), contents);
    var found := FindLines(contents, lines);

    report := ReportAbsences(openedAt, closedAt, found);
    if openedAt.Some? && closedAt.Some? {
      if openedAt.value > closedAt.value { report := report + [OpenedAfterClosed]; }
    }
    var disorder := ReportDisorder(openedAt, closedAt, found);
    report := report + disorder;
    NothingToReport(Locate(contents, app, lines));
    if report != [] { report := report + [LogContents(contents)]; }
    ok := report == [];
  }

  method ReportAbsences(openedAt: Option<nat>, closedAt: Option<nat>, found: seq<Option<nat>>)
      returns (report: seq<Diagnostic>)
    ensures report == Absences(Matches(openedAt, closedAt, found))
  {
    report := [];
    if openedAt.None? { report := report + [MissingOpened]; }
    if closedAt.None? { report := report + [MissingClosed]; }
    ghost var before := report;
    for i := 0 to |found|
      invariant report == before + MissingLines(found, i)
    {
      NoteAssociates(before, MissingLines(found, i), found[i].None?, MissingLine(i));
      if found[i].None? { report := report + [MissingLine(i)]; }
    }
  }

  method ReportDisorder(openedAt: Option<nat>, closedAt: Option<nat>, found: seq<Option<nat>>)
      returns (report: seq<Diagnostic>)
    ensures report == Disorder(Matches(openedAt, closedAt, found))
  {
    report := [];
    if found != [] {
      if openedAt.Some? && found[0].Some? {
        if openedAt.value > found[0].value { report := report + [OpenedAfterFirstLine]; }
      }
      if closedAt.Some? && found[0].Some? {
        if closedAt.value < found[0].value { report := report + [ClosedBeforeFirstLine]; }
      }
      ghost var before := report;
      if |found| > 1 {
        for i := 1 to |found|
          invariant report == before + OutOfOrder(found, i)
        {
          NoteAssociates(before, OutOfOrder(found, i), After(found[i - 1], found[i]), LineBefore(i, i - 1));
          if found[i - 1].Some? && found[i].Some? {
            if found[i - 1].value > found[i].value { report := report + [LineBefore(i, i - 1)]; }
          }
        }
      }
    }
  }

  lemma {:induction false} MissingLinesMeaning(m: seq<Option<nat>>, n: nat)
    requires n <= |m|
    ensures forall d :: d in MissingLines(m, n) <==> d.MissingLine? && d.line < n && m[d.line].None?
  {
    if n > 0 { MissingLinesMeaning(m, n - 1); }
  }

  lemma {:induction false} OutOfOrderMeaning(m: seq<Option<nat>>, n: nat)
    requires n <= |m|
    ensures forall d :: d in OutOfOrder(m, n) <==>
      d.LineBefore? && 1 <= d.line < n && d.previous == d.line - 1 && After(m[d.line - 1], m[d.line])
  {
    if n > 1 { OutOfOrderMeaning(m, n - 1); }
  }

  // What each message of the report says about the log.
  lemma ReportMeaning(m: Matches, d: Diagnostic)
    ensures d in Diagnose(m) <==> match d {
      case MissingOpened => m.openedAt.None?
      case MissingClosed => m.closedAt.None?
      case MissingLine(i) => i < |m.lines| && m.lines[i].None?
      case OpenedAfterClosed => After(m.openedAt, m.closedAt)
      case OpenedAfterFirstLine => m.lines != [] && After(m.openedAt, m.lines[0])
      case ClosedBeforeFirstLine => m.lines != [] && After(m.lines[0], m.closedAt)
      case LineBefore(i, j) => 1 <= i < |m.lines| && j == i - 1 && After(m.lines[i - 1], m.lines[i])
      case _ => false
    }
  {
    MissingLinesMeaning(m.lines, |m.lines|);
    OutOfOrderMeaning(m.lines, |m.lines|);
  }

  // Pattern p occurs later than pattern q; of both the leftmost occurrence counts.
  ghost predicate Later(p: string, q: string, s: string) {
    exists i: nat, j: nat :: Leftmost(p, s, i) && Leftmost(q, s, j) && i > j
  }

  lemma LaterExactly(p: string, q: string, s: string)
    ensures After(Find(p, s), Find(q, s)) <==> Later(p, q, s)
  {
    if After(Find(p, s), Find(q, s)) {
      assert Leftmost(p, s, Find(p, s).value) && Leftmost(q, s, Find(q, s).value);
    }
  }

  // The same of the text of the log: what is searched, and which comparisons are made.
  lemma ReportOnText(s: string, app: string, lines: seq<string>, d: Diagnostic)
    ensures d in Diagnose(Locate(s, app, lines)) <==> match d {
      case MissingOpened => !Occurs("Log opened by \"" + app + "\"", s)
      case MissingClosed => !Occurs("Log closed by \"" + app + "\"", s)
      case MissingLine(i) => i < |lines| && !Occurs("] " + lines[i] + "\n", s)
      case OpenedAfterClosed => Later("Log opened by \"" + app + "\"", "Log closed by \"" + app + "\"", s)
      case OpenedAfterFirstLine =>
        lines != [] && Later("Log opened by \"" + app + "\"", "] " + lines[0] + "\n", s)
      case ClosedBeforeFirstLine =>
        lines != [] && Later("] " + lines[0] + "\n", "Log closed by \"" + app + "\"", s)
      case LineBefore(i, j) =>
        1 <= i < |lines| && j == i - 1 && Later("] " + lines[i - 1] + "\n", "] " + lines[i] + "\n", s)
      case _ => false
    }
  {
    ReportOnPatterns(s, app, lines, d);
  }

  lemma ReportOnPatterns(s: string, app: string, lines: seq<string>, d: Diagnostic)
    ensures d in Diagnose(Locate(s, app, lines)) <==> match d {
      case MissingOpened => !Occurs(OpenedMarker(app), s)
      case MissingClosed => !Occurs(ClosedMarker(app), s)
      case MissingLine(i) => i < |lines| && !Occurs(LinePattern(lines[i]), s)
      case OpenedAfterClosed => Later(OpenedMarker(app), ClosedMarker(app), s)
      case OpenedAfterFirstLine => lines != [] && Later(OpenedMarker(app), LinePattern(lines[0]), s)
      case ClosedBeforeFirstLine => lines != [] && Later(LinePattern(lines[0]), ClosedMarker(app), s)
      case LineBefore(i, j) =>
        1 <= i < |lines| && j == i - 1 && Later(LinePattern(lines[i - 1]), LinePattern(lines[i]), s)
      case _ => false
    }
  {
    ReportMeaning(Locate(s, app, lines), d);
    forall p ensures Find(p, s).None? <==> !Occurs(p, s) { OccursExactly(p, s); }
    forall p, q ensures Later(p, q, s) <==> After(Find(p, s), Find(q, s)) { LaterExactly(p, q, s); }
  }

  lemma OccursExactly(p: string, s: string)
    ensures Find(p, s).None? <==> !Occurs(p, s)
  {
  }

  // The order in which the checker makes its messages.
  function Stage(d: Diagnostic): nat {
    match d
    case FileNotCreated(_) => 0
    case MissingOpened => 1
    case MissingClosed => 2
    case MissingLine(_) => 3
    case OpenedAfterClosed => 4
    case OpenedAfterFirstLine => 5
    case ClosedBeforeFirstLine => 6
    case LineBefore(_, _) => 7
    case LogContents(_) => 8
  }

  predicate Precedes(d: Diagnostic, e: Diagnostic) {
    || Stage(d) < Stage(e)
    || (d.MissingLine? && e.MissingLine? && d.line < e.line)
    || (d.LineBefore? && e.LineBefore? && d.line < e.line)
  }

  ghost predicate Staged(report: seq<Diagnostic>) {
    forall i, j | 0 <= i < j < |report| :: Precedes(report[i], report[j])
  }

  lemma StagedConcat(a: seq<Diagnostic>, b: seq<Diagnostic>)
    requires Staged(a) && Staged(b)
    requires forall d, e | d in a && e in b :: Precedes(d, e)
    ensures Staged(a + b)
  {
    forall i, j | 0 <= i < j < |a + b| ensures Precedes((a + b)[i], (a + b)[j]) {
      if i < |a| <= j { assert a[i] in a && b[j - |a|] in b; }
    }
  }

  lemma {:induction false} MissingLinesStaged(m: seq<Option<nat>>, n: nat)
    requires n <= |m|
    ensures Staged(MissingLines(m, n))
  {
    if n > 0 {
      MissingLinesStaged(m, n - 1);
      MissingLinesMeaning(m, n - 1);
      if m[n - 1].None? { StagedConcat(MissingLines(m, n - 1), [MissingLine(n - 1)]); }
    }
  }

  lemma {:induction false} OutOfOrderStaged(m: seq<Option<nat>>, n: nat)
    requires n <= |m|
    ensures Staged(OutOfOrder(m, n))
  {
    if n > 1 {
      OutOfOrderStaged(m, n - 1);
      OutOfOrderMeaning(m, n - 1);
      if After(m[n - 2], m[n - 1]) { StagedConcat(OutOfOrder(m, n - 1), [LineBefore(n - 1, n - 2)]); }
    }
  }

  // The report follows that order, lines ascending, so nothing is in it twice.
  lemma ReportInOrder(m: Matches)
    ensures forall i, j | 0 <= i < j < |Diagnose(m)| ::
              Precedes(Diagnose(m)[i], Diagnose(m)[j]) && Diagnose(m)[i] != Diagnose(m)[j]
  {
    MissingLinesStaged(m.lines, |m.lines|);
    MissingLinesMeaning(m.lines, |m.lines|);
    OutOfOrderStaged(m.lines, |m.lines|);
    OutOfOrderMeaning(m.lines, |m.lines|);
    var markers := Note(Note([], m.openedAt.None?, MissingOpened), m.closedAt.None?, MissingClosed);
    StagedConcat(markers, MissingLines(m.lines, |m.lines|));
    var absences := Note(Absences(m), After(m.openedAt, m.closedAt), OpenedAfterClosed);
    StagedConcat(Absences(m), [OpenedAfterClosed]);
    if m.lines != [] {
      var first := Note(Note([], After(m.openedAt, m.lines[0]), OpenedAfterFirstLine),
                        After(m.lines[0], m.closedAt), ClosedBeforeFirstLine);
      StagedConcat(first, OutOfOrder(m.lines, |m.lines|));
    }
    StagedConcat(absences, Disorder(m));
    assert Staged(Diagnose(m));
  }

  lemma NothingToReport(m: Matches)
    ensures Diagnose(m) == [] <==> Accepted(m)
  {
    var r := Diagnose(m);
    if !Accepted(m) {
      if i :| 0 <= i < |m.lines| && m.lines[i].None? {
        ReportMeaning(m, MissingLine(i));
      } else if i :| 1 <= i < |m.lines| && After(m.lines[i - 1], m.lines[i]) {
        ReportMeaning(m, LineBefore(i, i - 1));
      } else {
        ReportMeaning(m, MissingOpened);
        ReportMeaning(m, MissingClosed);
        ReportMeaning(m, OpenedAfterClosed);
        ReportMeaning(m, OpenedAfterFirstLine);
        ReportMeaning(m, ClosedBeforeFirstLine);
      }
    } else if r != [] {
      ReportMeaning(m, r[0]);
    }
  }
}
