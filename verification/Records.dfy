// A log file as the daemon leaves it: one newline-terminated record per message.
module Records {
  import opened Optional
  import opened Search

  datatype Record = Record(owner: nat, prefix: string, text: string)

  function Render(r: Record): string {
    r.prefix + "] " + r.text + "\n"
  }

  function Log(rs: seq<Record>): string {
    if rs == [] then "" else Render(rs[0]) + Log(rs[1..])
  }

  predicate Tidy(r: Record) {
    '\n' !in r.prefix && '\n' !in r.text
  }

  lemma TidyIsLine(r: Record)
    requires Tidy(r)
    ensures Line(Render(r))
  {
    assert Render(r)[..|Render(r)| - 1] == r.prefix + "] " + r.text;
  }

  lemma {:induction false} LogAppends(rs: seq<Record>, more: seq<Record>)
    ensures Log(rs + more) == Log(rs) + Log(more)
  {
    if rs == [] {
      assert rs + more == more;
    } else {
      LogAppends(rs[1..], more);
      assert (rs + more)[0] == rs[0] && (rs + more)[1..] == rs[1..] + more;
      Associates(Render(rs[0]), Log(rs[1..]), Log(more));
    }
  }

  lemma Associates(a: string, b: string, c: string)
    ensures a + (b + c) == a + b + c
  {
  }

  // The records one session wrote, in file order.
  function OwnedBy(rs: seq<Record>, owner: nat): seq<Record> {
    if rs == [] then []
    else (if rs[0].owner == owner then [rs[0]] else []) + OwnedBy(rs[1..], owner)
  }

  ghost predicate Silent(r: Record, p: string) {
    !Occurs(p, Render(r))
  }

  // Searches inside a shared log find the same things in the same order as searches
  // inside one owner's part of it, as long as the others' records do not match.
  lemma {:induction false} SharedOrder(rs: seq<Record>, owner: nat, p: string, q: string)
    requires OneLine(p) && OneLine(q)
    requires forall r | r in rs :: Tidy(r)
    requires forall r | r in rs && r.owner != owner :: Silent(r, p) && Silent(r, q)
    ensures var own := Log(OwnedBy(rs, owner));
            && (Find(p, Log(rs)).Some? <==> Find(p, own).Some?)
            && (Find(q, Log(rs)).Some? <==> Find(q, own).Some?)
            && (Find(p, Log(rs)).Some? && Find(q, Log(rs)).Some? ==>
                 (Find(p, Log(rs)).value <= Find(q, Log(rs)).value <==> Find(p, own).value <= Find(q, own).value))
  {
    if rs != [] {
      var line, rest, mine := Render(rs[0]), rs[1..], OwnedBy(rs[1..], owner);
      SharedOrder(rest, owner, p, q);
      TidyIsLine(rs[0]);
      FindSplits(p, line, Log(rest));
      FindSplits(q, line, Log(rest));
      if rs[0].owner == owner {
        FindSplits(p, line, Log(mine));
        FindSplits(q, line, Log(mine));
        assert OwnedBy(rs, owner)[1..] == mine;
      } else {
        assert Silent(rs[0], p) && Silent(rs[0], q);
        assert OwnedBy(rs, owner) == mine;
      }
    }
  }

  // The first record in which a pattern occurs.
  ghost function FirstHit(rs: seq<Record>, p: string): (r: Option<nat>)
    ensures r.None? ==> forall k | 0 <= k < |rs| :: Silent(rs[k], p)
    ensures r.Some? ==> r.value < |rs| && !Silent(rs[r.value], p) && forall k | 0 <= k < r.value :: Silent(rs[k], p)
  {
    if rs == [] then None
    else if !Silent(rs[0], p) then Some(0)
    else
      var r := FirstHit(rs[1..], p);
      assert forall k | 1 <= k < |rs| :: rs[k] == rs[1..][k - 1];
      Shift(r, 1)
  }

  // Matches in an earlier record come before matches in a later one.
  lemma {:induction false} HitOrder(rs: seq<Record>, p: string, q: string)
    requires OneLine(p) && OneLine(q)
    requires forall r | r in rs :: Tidy(r)
    ensures FirstHit(rs, p).Some? <==> Find(p, Log(rs)).Some?
    ensures FirstHit(rs, q).Some? <==> Find(q, Log(rs)).Some?
    ensures (FirstHit(rs, p).Some? && FirstHit(rs, q).Some? && FirstHit(rs, p).value < FirstHit(rs, q).value) ==>
              Find(p, Log(rs)).value < Find(q, Log(rs)).value
  {
    if rs != [] {
      HitOrder(rs[1..], p, q);
      TidyIsLine(rs[0]);
      FindSplits(p, Render(rs[0]), Log(rs[1..]));
      FindSplits(q, Render(rs[0]), Log(rs[1..]));
    }
  }

  // A `] text` pattern occurs in a record exactly when it is the record's text.
  lemma TextPattern(r: Record, t: string)
    requires Tidy(r) && '\n' !in t && ']' !in t && ']' !in r.text
    ensures Occurs("] " + t + "\n", Render(r)) <==> r.text == t
  {
    var p, s := "] " + t + "\n", Render(r);
    if r.text == t {
      assert s == r.prefix + p;
      assert MatchesAt(p, s, |r.prefix|);
    }
    if Occurs(p, s) {
      var i: nat :| MatchesAt(p, s, i);
      MatchedText(r, t, i);
    }
  }

  lemma MatchedText(r: Record, t: string, i: nat)
    requires Tidy(r) && '\n' !in t && ']' !in t && ']' !in r.text
    requires MatchesAt("] " + t + "\n", Render(r), i)
    ensures r.text == t
  {
    var p, s := "] " + t + "\n", Render(r);
    var body := r.prefix + "]" + (" " + r.text);
    assert s == body + "\n" && '\n' !in body;
    assert s[i + |p| - 1] == s[i..i + |p|][|p| - 1] == '\n';
    assert i + |p| == |s|;
    assert s == s[..i] + p && p == "]" + (" " + t) + "\n";
    assert body == s[..|s| - 1] == s[..i] + "]" + (" " + t);
    LastBracket(s[..i], " " + t, r.prefix, " " + r.text);
    assert (" " + t)[1..] == t && (" " + r.text)[1..] == r.text;
  }

  // A marker without bracket or newline that does not start with a blank occurs in a
  // record exactly when it occurs in its prefix or in its text.
  lemma MarkerPattern(r: Record, m: string)
    requires m != "" && m[0] != ' ' && ']' !in m && '\n' !in m
    ensures Occurs(m, Render(r)) <==> Occurs(m, r.prefix) || Occurs(m, r.text)
  {
    var s, d := Render(r), |r.prefix| + 2;
    assert s[|r.prefix|] == ']' && s[|r.prefix| + 1] == ' ' && s[|s| - 1] == '\n';
    forall i: nat ensures MatchesAt(m, s, i) <==> MatchesAt(m, r.prefix, i) || (i >= d && MatchesAt(m, r.text, i - d)) {
      if i + |m| <= |r.prefix| {
        assert s[i..i + |m|] == r.prefix[i..i + |m|];
      } else if i <= |r.prefix| {
        if i + |m| <= |s| { assert s[i..i + |m|][|r.prefix| - i] == ']'; }
      } else if i == |r.prefix| + 1 {
        if i + |m| <= |s| { assert s[i..i + |m|][0] == ' '; }
      } else if i + |m| < |s| {
        assert s[i..i + |m|] == r.text[i - d..i - d + |m|];
      } else if i + |m| == |s| {
        assert s[i..i + |m|][|m| - 1] == '\n';
      }
    }
    if Occurs(m, r.text) {
      var j: nat :| MatchesAt(m, r.text, j);
      assert MatchesAt(m, s, j + d);
    }
  }
}
