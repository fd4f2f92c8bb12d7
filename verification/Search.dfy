module Optional {
  datatype Option<+T> = None | Some(value: T)
}

// Leftmost literal search, and how it behaves on newline-terminated lines.
module Search {
  import opened Optional

  predicate MatchesAt(p: string, s: string, i: nat) {
    i + |p| <= |s| && s[i..i + |p|] == p
  }

  // re.search for a pattern without metacharacters: the start of the leftmost match.
  function Find(p: string, s: string): (r: Option<nat>)
    ensures r.None? ==> forall i: nat :: !MatchesAt(p, s, i)
    ensures r.Some? ==> MatchesAt(p, s, r.value) && forall i | 0 <= i < r.value :: !MatchesAt(p, s, i)
  {
    FindFrom(p, s, 0)
  }

  function FindFrom(p: string, s: string, from: nat): (r: Option<nat>)
    requires forall i | 0 <= i < from :: !MatchesAt(p, s, i)
    ensures r.None? ==> forall i: nat :: !MatchesAt(p, s, i)
    ensures r.Some? ==> MatchesAt(p, s, r.value) && forall i | 0 <= i < r.value :: !MatchesAt(p, s, i)
    decreases |s| - from
  {
    if MatchesAt(p, s, from) then Some(from)
    else if from >= |s| then None
    else FindFrom(p, s, from + 1)
  }

  ghost predicate Leftmost(p: string, s: string, i: nat) {
    MatchesAt(p, s, i) && forall k | 0 <= k < i :: !MatchesAt(p, s, k)
  }

  ghost predicate Occurs(p: string, s: string) {
    exists i: nat :: MatchesAt(p, s, i)
  }

  // A pattern that can only match inside one line: a newline, if any, comes last.
  predicate OneLine(p: string) {
    p != "" && '\n' !in p[..|p| - 1]
  }

  predicate Line(l: string) {
    OneLine(l) && l[|l| - 1] == '\n'
  }

  lemma MatchSplits(p: string, line: string, rest: string, i: nat)
    requires OneLine(p) && Line(line)
    ensures MatchesAt(p, line + rest, i)
       <==> MatchesAt(p, line, i) || (i >= |line| && MatchesAt(p, rest, i - |line|))
  {
    var s := line + rest;
    if i + |p| <= |line| {
      assert s[i..i + |p|] == line[i..i + |p|];
    } else if i >= |line| {
      if i + |p| <= |s| {
        assert s[i..i + |p|] == rest[i - |line|..i - |line| + |p|];
      }
    } else if i + |p| <= |s| {
      var k := |line| - 1 - i;
      assert s[i..i + |p|][k] == '\n';
      assert p[k] == p[..|p| - 1][k];
    }
  }

  function Shift(r: Option<nat>, d: nat): Option<nat> {
    match r case None => None case Some(i) => Some(i + d)
  }

  lemma FindSplits(p: string, line: string, rest: string)
    requires OneLine(p) && Line(line)
    ensures Find(p, line + rest)
         == if Find(p, line).Some? then Find(p, line) else Shift(Find(p, rest), |line|)
  {
    forall i: nat ensures MatchesAt(p, line + rest, i)
       <==> MatchesAt(p, line, i) || (i >= |line| && MatchesAt(p, rest, i - |line|))
    {
      MatchSplits(p, line, rest, i);
    }
    var whole, first, later := Find(p, line + rest), Find(p, line), Find(p, rest);
    if first.Some? {
      assert MatchesAt(p, line + rest, first.value);
    } else if later.Some? {
      assert MatchesAt(p, line + rest, later.value + |line|);
      assert whole.Some?;
      assert MatchesAt(p, rest, whole.value - |line|);
    }
  }

  // The part of a text in front of its only closing bracket cannot be confused with what follows it.
  lemma LastBracket(a: string, t: string, b: string, u: string)
    requires a + "]" + t == b + "]" + u
    requires ']' !in t && ']' !in u
    ensures t == u
  {
    var s := a + "]" + t;
    assert s == b + "]" + u;
    assert t == s[|a| + 1..] && u == s[|b| + 1..];
    assert s[|a|] == ']' && s[|b|] == ']';
    assert forall k | |a| < k < |s| :: s[k] == t[k - |a| - 1];
    assert forall k | |b| < k < |s| :: s[k] == u[k - |b| - 1];
  }
}
