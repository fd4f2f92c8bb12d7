// What the checker's verdict means, and exactly which recorded logs it accepts.
module Acceptance {
  import opened Optional
  import opened Search
  import opened Records
  import opened Checker

  lemma {:induction false} LinesAscend(m: Matches, i: nat, j: nat)
    requires Accepted(m) && i <= j < |m.lines|
    ensures m.lines[i].value <= m.lines[j].value
    decreases j
  {
    if i < j { LinesAscend(m, i, j - 1); }
  }

  lemma SamePlaceSameText(x: string, y: string, s: string, at: nat)
    requires '\n' !in x && '\n' !in y
    requires MatchesAt(LinePattern(x), s, at) && MatchesAt(LinePattern(y), s, at)
    ensures x == y
  {
    var p, q := LinePattern(x), LinePattern(y);
    assert forall k | 0 <= k < |p| :: s[at + k] == s[at..at + |p|][k] == p[k];
    assert forall k | 0 <= k < |q| :: s[at + k] == s[at..at + |q|][k] == q[k];
    assert s[at + 2 + |x|] == '\n' && s[at + 2 + |y|] == '\n';
    assert forall k | 0 <= k < |x| :: s[at + 2 + k] == x[k];
    assert forall k | 0 <= k < |y| :: s[at + 2 + k] == y[k];
  }

  // What a positive verdict implies; every comparison the code makes with `>` comes out strict.
  lemma Soundness(contents: string, app: string, lines: seq<string>)
    requires forall x | x in lines :: '\n' !in x
    requires Verdict(Some(contents), app, lines)
    ensures var m := Locate(contents, app, lines);
            && m.openedAt.Some? && m.closedAt.Some? && (forall i | 0 <= i < |lines| :: m.lines[i].Some?)
            && m.openedAt.value < m.closedAt.value
            && (forall i | 0 <= i < |lines| :: m.openedAt.value < m.lines[i].value)
            && (lines != [] ==> m.lines[0].value < m.closedAt.value)
            && (forall i, j | 0 <= i < j < |lines| :: m.lines[i].value <= m.lines[j].value
                 && (lines[i] != lines[j] ==> m.lines[i].value < m.lines[j].value))
  {
    var m := Locate(contents, app, lines);
    MatchesApart(contents, app, m.openedAt.value, m.closedAt.value);
    forall i | 0 <= i < |lines|
      ensures m.openedAt.value < m.lines[i].value && m.lines[i].value != m.closedAt.value
    {
      LineApart(contents, app, lines[i], m.openedAt.value, m.closedAt.value, m.lines[i].value);
      LinesAscend(m, 0, i);
    }
    forall i, j | 0 <= i < j < |lines|
      ensures m.lines[i].value <= m.lines[j].value && (lines[i] != lines[j] ==> m.lines[i].value < m.lines[j].value)
    {
      LinesAscend(m, i, j);
      if m.lines[i].value == m.lines[j].value {
        SamePlaceSameText(lines[i], lines[j], contents, m.lines[i].value);
      }
    }
  }

  lemma MatchesApart(s: string, app: string, o: nat, c: nat)
    requires MatchesAt(OpenedMarker(app), s, o) && MatchesAt(ClosedMarker(app), s, c)
    ensures o != c
  {
    assert s[o + 4] == s[o..o + |OpenedMarker(app)|][4] == 'o';
    assert s[c + 4] == s[c..c + |ClosedMarker(app)|][4] == 'c';
  }

  lemma LineApart(s: string, app: string, x: string, o: nat, c: nat, l: nat)
    requires MatchesAt(OpenedMarker(app), s, o) && MatchesAt(ClosedMarker(app), s, c)
    requires MatchesAt(LinePattern(x), s, l)
    ensures l != o && l != c
  {
    assert s[o] == s[o..o + |OpenedMarker(app)|][0] == 'L';
    assert s[c] == s[c..c + |ClosedMarker(app)|][0] == 'L';
    assert s[l] == s[l..l + |LinePattern(x)|][0] == ']';
  }

  // Comparing neighbours only misses no inversion.
  lemma InversionsDetected(m: Matches)
    requires forall i | 0 <= i < |m.lines| :: m.lines[i].Some?
    ensures (exists d :: d in Diagnose(m) && d.LineBefore?)
       <==> (exists i, j :: 0 <= i < j < |m.lines| && m.lines[i].value > m.lines[j].value)
  {
    if d :| d in Diagnose(m) && d.LineBefore? {
      ReportMeaning(m, d);
      assert 0 <= d.line - 1 < d.line < |m.lines| && m.lines[d.line - 1].value > m.lines[d.line].value;
    }
    if i, j :| 0 <= i < j < |m.lines| && m.lines[i].value > m.lines[j].value {
      var k := NeighbourInversion(m.lines, i, j);
      ReportMeaning(m, LineBefore(k, k - 1));
    }
  }

  lemma {:induction false} NeighbourInversion(m: seq<Option<nat>>, i: nat, j: nat) returns (k: nat)
    requires forall i | 0 <= i < |m| :: m[i].Some?
    requires i < j < |m| && m[i].value > m[j].value
    ensures 1 <= k < |m| && After(m[k - 1], m[k])
    decreases j
  {
    k := j;
    if !After(m[j - 1], m[j]) { k := NeighbourInversion(m, i, j - 1); }
  }

  // ---- logs shared by several applications ----

  ghost predicate SilentFor(r: Record, app: string, lines: seq<string>) {
    && Silent(r, OpenedMarker(app)) && Silent(r, ClosedMarker(app))
    && forall x | x in lines :: Silent(r, LinePattern(x))
  }

  ghost predicate SameOrder(a: Option<nat>, b: Option<nat>, a': Option<nat>, b': Option<nat>) {
    (a.Some? <==> a'.Some?) && (b.Some? <==> b'.Some?) && (After(a, b) <==> After(a', b'))
  }

  lemma {:induction false} SameMissingLines(m: seq<Option<nat>>, m': seq<Option<nat>>, n: nat)
    requires n <= |m| == |m'|
    requires forall i | 0 <= i < |m| :: m[i].Some? <==> m'[i].Some?
    ensures MissingLines(m, n) == MissingLines(m', n)
  {
    if n > 0 { SameMissingLines(m, m', n - 1); }
  }

  lemma {:induction false} SameOutOfOrder(m: seq<Option<nat>>, m': seq<Option<nat>>, n: nat)
    requires n <= |m| == |m'|
    requires forall i | 1 <= i < |m| :: SameOrder(m[i - 1], m[i], m'[i - 1], m'[i])
    ensures OutOfOrder(m, n) == OutOfOrder(m', n)
  {
    if n > 1 {
      SameOutOfOrder(m, m', n - 1);
      assert SameOrder(m[n - 2], m[n - 1], m'[n - 2], m'[n - 1]);
    }
  }

  ghost predicate SameShape(m: Matches, m': Matches) {
    && |m.lines| == |m'.lines|
    && SameOrder(m.openedAt, m.closedAt, m'.openedAt, m'.closedAt)
    && (forall i | 0 <= i < |m.lines| :: SameOrder(m.openedAt, m.lines[i], m'.openedAt, m'.lines[i]))
    && (forall i | 0 <= i < |m.lines| :: SameOrder(m.lines[i], m.closedAt, m'.lines[i], m'.closedAt))
    && (forall i | 1 <= i < |m.lines| :: SameOrder(m.lines[i - 1], m.lines[i], m'.lines[i - 1], m'.lines[i]))
  }

  lemma SameDiagnoses(m: Matches, m': Matches)
    requires SameShape(m, m')
    ensures Diagnose(m) == Diagnose(m')
  {
    forall i | 0 <= i < |m.lines| ensures m.lines[i].Some? <==> m'.lines[i].Some? {
      assert SameOrder(m.openedAt, m.lines[i], m'.openedAt, m'.lines[i]);
    }
    SameMissingLines(m.lines, m'.lines, |m.lines|);
    SameOutOfOrder(m.lines, m'.lines, |m.lines|);
    if m.lines != [] {
      assert SameOrder(m.openedAt, m.lines[0], m'.openedAt, m'.lines[0]);
      assert SameOrder(m.lines[0], m.closedAt, m'.lines[0], m'.closedAt);
    }
  }

  // Records of other applications that match none of the patterns change nothing: neither the
  // verdict nor any diagnostic, wherever they are interleaved and whatever the own records are.
  lemma SharedLog(rs: seq<Record>, owner: nat, app: string, lines: seq<string>)
    requires '\n' !in app && forall x | x in lines :: '\n' !in x
    requires forall r | r in rs :: Tidy(r)
    requires forall r | r in rs && r.owner != owner :: SilentFor(r, app, lines)
    ensures var own := Log(OwnedBy(rs, owner));
            && Diagnose(Locate(Log(rs), app, lines)) == Diagnose(Locate(own, app, lines))
            && (Verdict(Some(Log(rs)), app, lines) <==> Verdict(Some(own), app, lines))
  {
    var m, m' := Locate(Log(rs), app, lines), Locate(Log(OwnedBy(rs, owner)), app, lines);
    SamePair(rs, owner, app, lines, OpenedMarker(app), ClosedMarker(app));
    forall i | 0 <= i < |lines|
      ensures SameOrder(m.openedAt, m.lines[i], m'.openedAt, m'.lines[i])
      ensures SameOrder(m.lines[i], m.closedAt, m'.lines[i], m'.closedAt)
    {
      SamePair(rs, owner, app, lines, OpenedMarker(app), LinePattern(lines[i]));
      SamePair(rs, owner, app, lines, LinePattern(lines[i]), ClosedMarker(app));
    }
    forall i | 1 <= i < |lines| ensures SameOrder(m.lines[i - 1], m.lines[i], m'.lines[i - 1], m'.lines[i]) {
      SamePair(rs, owner, app, lines, LinePattern(lines[i - 1]), LinePattern(lines[i]));
    }
    SameDiagnoses(m, m');
    NothingToReport(m);
    NothingToReport(m');
  }

  ghost predicate PatternOf(p: string, app: string, lines: seq<string>) {
    p == OpenedMarker(app) || p == ClosedMarker(app) || exists x :: x in lines && p == LinePattern(x)
  }

  lemma SamePair(rs: seq<Record>, owner: nat, app: string, lines: seq<string>, p: string, q: string)
    requires '\n' !in app && forall x | x in lines :: '\n' !in x
    requires forall r | r in rs :: Tidy(r)
    requires forall r | r in rs && r.owner != owner :: SilentFor(r, app, lines)
    requires PatternOf(p, app, lines) && PatternOf(q, app, lines)
    ensures var own := Log(OwnedBy(rs, owner));
            SameOrder(Find(p, Log(rs)), Find(q, Log(rs)), Find(p, own), Find(q, own))
  {
    SharedOrder(rs, owner, p, q);
  }

  ghost predicate FreeOfMarkers(s: string, app: string) {
    !Occurs(OpenedMarker(app), s) && !Occurs(ClosedMarker(app), s)
  }

  // A record whose text has no bracket is silent exactly when it repeats no expected text
  // and carries neither marker.
  lemma SilentRecords(r: Record, app: string, lines: seq<string>)
    requires Tidy(r) && ']' !in r.text && '\n' !in app && ']' !in app
    requires forall x | x in lines :: '\n' !in x && ']' !in x
    ensures SilentFor(r, app, lines)
       <==> r.text !in lines && FreeOfMarkers(r.prefix, app) && FreeOfMarkers(r.text, app)
  {
    MarkerPattern(r, OpenedMarker(app));
    MarkerPattern(r, ClosedMarker(app));
    forall x | x in lines ensures Silent(r, LinePattern(x)) <==> r.text != x {
      TextPattern(r, x);
    }
  }

  // ---- the log of one application that did what it should ----

  ghost predicate Clean(x: string, app: string) {
    '\n' !in x && ']' !in x && FreeOfMarkers(x, app)
  }

  ghost predicate Honest(rs: seq<Record>, app: string, lines: seq<string>) {
    && |rs| == |lines| + 2
    && (forall r | r in rs :: Tidy(r) && ']' !in r.text && FreeOfMarkers(r.prefix, app))
    && Occurs(OpenedMarker(app), rs[0].text) && !Occurs(ClosedMarker(app), rs[0].text)
    && Occurs(ClosedMarker(app), rs[|lines| + 1].text) && !Occurs(OpenedMarker(app), rs[|lines| + 1].text)
    && forall i | 0 <= i < |lines| :: rs[i + 1].text == lines[i]
  }

  // Equal texts are neighbours, or have only equal texts between them.
  ghost predicate Contiguous(lines: seq<string>) {
    forall i, k, j | 0 <= i < k < j < |lines| && lines[i] == lines[j] :: lines[k] == lines[i]
  }

  ghost function FirstOf(lines: seq<string>, x: string): (f: nat)
    requires x in lines
    ensures f < |lines| && lines[f] == x && forall g | 0 <= g < f :: lines[g] != x
  {
    if lines[0] == x then 0 else
      assert forall g | 1 <= g < |lines| :: lines[g] == lines[1..][g - 1];
      1 + FirstOf(lines[1..], x)
  }

  ghost predicate Monotone(lines: seq<string>) {
    forall i | 1 <= i < |lines| :: FirstOf(lines, lines[i - 1]) <= FirstOf(lines, lines[i])
  }

  lemma MonotoneFromContiguous(lines: seq<string>)
    requires Contiguous(lines)
    ensures Monotone(lines)
  {
    forall i | 1 <= i < |lines| ensures FirstOf(lines, lines[i - 1]) <= FirstOf(lines, lines[i]) {
      var g := FirstOf(lines, lines[i]);
      if g < i - 1 { assert lines[i - 1] == lines[g]; }
    }
  }

  lemma ContiguousFromMonotone(lines: seq<string>)
    requires Monotone(lines)
    ensures Contiguous(lines)
  {
    forall i, k, j | 0 <= i < k < j < |lines| && lines[i] == lines[j] ensures lines[k] == lines[i] {
      FirstsAscend(lines, i, k);
      FirstsAscend(lines, k, j);
    }
  }

  lemma {:induction false} FirstsAscend(lines: seq<string>, i: nat, j: nat)
    requires Monotone(lines) && i <= j < |lines|
    ensures FirstOf(lines, lines[i]) <= FirstOf(lines, lines[j])
    decreases j
  {
    if i < j { FirstsAscend(lines, i, j - 1); }
  }

  // On an honest log the checker says yes exactly when equal texts stand together.
  lemma HonestLog(rs: seq<Record>, app: string, lines: seq<string>)
    requires '\n' !in app && ']' !in app
    requires forall x | x in lines :: Clean(x, app)
    requires Honest(rs, app, lines)
    ensures Verdict(Some(Log(rs)), app, lines) <==> Contiguous(lines)
  {
    var m := Locate(Log(rs), app, lines);
    HonestMarkers(rs, app, lines);
    HitOrder(rs, OpenedMarker(app), ClosedMarker(app));
    forall i | 0 <= i < |lines|
      ensures m.lines[i].Some? && After(m.lines[i], m.openedAt) && After(m.closedAt, m.lines[i])
    {
      HonestLineOrder(rs, app, lines, i);
    }
    forall i | 1 <= i < |lines|
      ensures After(m.lines[i - 1], m.lines[i]) <==> FirstOf(lines, lines[i - 1]) > FirstOf(lines, lines[i])
    {
      HonestNeighbours(rs, app, lines, i);
    }
    OnlyNeighboursMatter(m);
    assert Accepted(m) <==> Monotone(lines);
    if Contiguous(lines) { MonotoneFromContiguous(lines); }
    if Monotone(lines) { ContiguousFromMonotone(lines); }
  }

  lemma OnlyNeighboursMatter(m: Matches)
    requires After(m.closedAt, m.openedAt)
    requires forall i | 0 <= i < |m.lines| :: After(m.lines[i], m.openedAt) && After(m.closedAt, m.lines[i])
    ensures Accepted(m) <==> forall i | 1 <= i < |m.lines| :: !After(m.lines[i - 1], m.lines[i])
  {
  }

  lemma HonestLineOrder(rs: seq<Record>, app: string, lines: seq<string>, i: nat)
    requires '\n' !in app && ']' !in app
    requires forall x | x in lines :: Clean(x, app)
    requires Honest(rs, app, lines) && i < |lines|
    ensures After(Find(LinePattern(lines[i]), Log(rs)), Find(OpenedMarker(app), Log(rs)))
    ensures After(Find(ClosedMarker(app), Log(rs)), Find(LinePattern(lines[i]), Log(rs)))
  {
    HonestMarkers(rs, app, lines);
    HonestLine(rs, app, lines, i);
    HitOrder(rs, OpenedMarker(app), LinePattern(lines[i]));
    HitOrder(rs, LinePattern(lines[i]), ClosedMarker(app));
  }

  lemma HonestNeighbours(rs: seq<Record>, app: string, lines: seq<string>, i: nat)
    requires '\n' !in app && ']' !in app
    requires forall x | x in lines :: Clean(x, app)
    requires Honest(rs, app, lines) && 1 <= i < |lines|
    ensures After(Find(LinePattern(lines[i - 1]), Log(rs)), Find(LinePattern(lines[i]), Log(rs)))
       <==> FirstOf(lines, lines[i - 1]) > FirstOf(lines, lines[i])
  {
    var f, g := FirstOf(lines, lines[i - 1]), FirstOf(lines, lines[i]);
    HonestLine(rs, app, lines, i - 1);
    HonestLine(rs, app, lines, i);
    FirstOfDiffers(lines, lines[i - 1], lines[i]);
    HonestIsTidy(rs, app, lines);
    HitsInOrder(rs, lines[i - 1], lines[i], f + 1, g + 1);
  }

  lemma FirstOfDiffers(lines: seq<string>, x: string, y: string)
    requires x in lines && y in lines
    ensures FirstOf(lines, x) == FirstOf(lines, y) <==> x == y
  {
  }

  lemma HonestIsTidy(rs: seq<Record>, app: string, lines: seq<string>)
    requires Honest(rs, app, lines)
    ensures forall r | r in rs :: Tidy(r)
  {
  }

  lemma HitsInOrder(rs: seq<Record>, x: string, y: string, i: nat, j: nat)
    requires forall r | r in rs :: Tidy(r)
    requires '\n' !in x && '\n' !in y && (i == j ==> x == y)
    requires FirstHit(rs, LinePattern(x)).Some? && FirstHit(rs, LinePattern(x)).value == i
    requires FirstHit(rs, LinePattern(y)).Some? && FirstHit(rs, LinePattern(y)).value == j
    ensures After(Find(LinePattern(x), Log(rs)), Find(LinePattern(y), Log(rs))) <==> i > j
  {
    if i != j {
      HitOrder(rs, LinePattern(x), LinePattern(y));
      HitOrder(rs, LinePattern(y), LinePattern(x));
    }
  }

  lemma HonestMarkers(rs: seq<Record>, app: string, lines: seq<string>)
    requires '\n' !in app && ']' !in app
    requires forall x | x in lines :: Clean(x, app)
    requires Honest(rs, app, lines)
    ensures FirstHit(rs, OpenedMarker(app)) == Some(0)
    ensures FirstHit(rs, ClosedMarker(app)) == Some(|lines| + 1)
  {
    forall k | 0 <= k < |rs|
      ensures Silent(rs[k], OpenedMarker(app)) <==> !Occurs(OpenedMarker(app), rs[k].text)
      ensures Silent(rs[k], ClosedMarker(app)) <==> !Occurs(ClosedMarker(app), rs[k].text)
    {
      MarkerPattern(rs[k], OpenedMarker(app));
      MarkerPattern(rs[k], ClosedMarker(app));
    }
    forall k | 1 <= k <= |lines| ensures FreeOfMarkers(rs[k].text, app) {
      assert rs[k].text == lines[k - 1] && lines[k - 1] in lines;
    }
  }

  lemma HonestLine(rs: seq<Record>, app: string, lines: seq<string>, i: nat)
    requires '\n' !in app && ']' !in app
    requires forall x | x in lines :: Clean(x, app)
    requires Honest(rs, app, lines) && i < |lines|
    ensures FirstHit(rs, LinePattern(lines[i])).Some?
    ensures FirstHit(rs, LinePattern(lines[i])).value == FirstOf(lines, lines[i]) + 1
    ensures '\n' !in lines[i]
  {
    assert lines[i] in lines;
    forall k | 0 <= k < |rs| ensures Silent(rs[k], LinePattern(lines[i])) <==> rs[k].text != lines[i] {
      TextPattern(rs[k], lines[i]);
    }
    assert rs[0].text != lines[i] && rs[|lines| + 1].text != lines[i];
    assert forall k | 1 <= k <= |lines| :: rs[k].text == lines[k - 1];
  }
}
