// The ledger of passed tests on disk: one name per line, read back with Python 2's splitlines.
module LedgerText {

  predicate IsBreak(c: char) { c == '\n' || c == '\r' }

  predicate BreakFree(name: string) {
    forall c | c in name :: !IsBreak(c)
  }

  // file.writelines(["%s\n" % x for x in names])
  function Print(names: seq<string>): string {
    if names == [] then "" else names[0] + "\n" + Print(names[1..])
  }

  function FirstBreak(s: string): (n: nat)
    ensures n <= |s| && BreakFree(s[..n]) && (n < |s| ==> IsBreak(s[n]))
  {
    if s == "" || IsBreak(s[0]) then 0 else
      var n := 1 + FirstBreak(s[1..]);
      assert s[..n] == [s[0]] + s[1..][..n - 1];
      n
  }

  // str.splitlines(): "\n", "\r" and "\r\n" end a line, a last unterminated line counts.
  function SplitLines(s: string): (lines: seq<string>)
    ensures forall l | l in lines :: BreakFree(l)
    decreases |s|
  {
    if s == "" then [] else
      var n := FirstBreak(s);
      if n == |s| then [s[..n]]
      else if s[n] == '\r' && n + 1 < |s| && s[n + 1] == '\n' then [s[..n]] + SplitLines(s[n + 2..])
      else [s[..n]] + SplitLines(s[n + 1..])
  }

  // Writing one more name adds one more line at the end.
  lemma {:induction false} PrintGrows(names: seq<string>, name: string)
    ensures Print(names + [name]) == Print(names) + name + "\n"
  {
    if names == [] {
      assert [] + [name] == [name] && [name][1..] == [];
      assert name + "\n" + "" == name + "\n";
    } else {
      PrintGrows(names[1..], name);
      assert (names + [name])[0] == names[0] && (names + [name])[1..] == names[1..] + [name];
      var a, b := names[0] + "\n", Print(names[1..]);
      assert a + (b + name + "\n") == a + b + name + "\n";
    }
  }

  // A line ends at "\n", at "\r\n", at any other "\r", or with the text.
  lemma LineEnds(line: string, rest: string)
    requires forall c | c in line :: c != '\n' && c != '\r'
    ensures SplitLines(line + "\n" + rest) == [line] + SplitLines(rest)
    ensures SplitLines(line + "\r\n" + rest) == [line] + SplitLines(rest)
    ensures rest == "" || rest[0] != '\n' ==> SplitLines(line + "\r" + rest) == [line] + SplitLines(rest)
    ensures SplitLines(line) == if line == "" then [] else [line]
  {
    assert BreakFree(line);
    LineEndsAt(line, '\n', rest);
    LineEndsAt(line, '\r', rest);
    CarriageReturn(line, rest);
    if line != "" { WholeLine(line); }
  }

  lemma CarriageReturn(line: string, rest: string)
    requires BreakFree(line)
    ensures SplitLines(line + "\r\n" + rest) == [line] + SplitLines(rest)
  {
    LineEndsAt(line, '\r', "\n" + rest);
    assert line + "\r\n" + rest == line + ['\r'] + ("\n" + rest);
    assert ("\n" + rest)[0] == '\n' && ("\n" + rest)[1..] == rest;
  }

  lemma {:induction false} FirstBreakAt(line: string, b: char, rest: string)
    requires BreakFree(line) && IsBreak(b)
    ensures FirstBreak(line + [b] + rest) == |line|
  {
    var s := line + [b] + rest;
    if line != "" {
      assert !IsBreak(s[0]) && s[1..] == line[1..] + [b] + rest;
      FirstBreakAt(line[1..], b, rest);
    }
  }

  lemma LineEndsAt(line: string, b: char, rest: string)
    requires BreakFree(line) && IsBreak(b)
    ensures SplitLines(line + [b] + rest)
         == [line] + SplitLines(if b == '\r' && rest != "" && rest[0] == '\n' then rest[1..] else rest)
  {
    var s, n := line + [b] + rest, |line|;
    FirstBreakAt(line, b, rest);
    assert s[..n] == line && s[n] == b && s[n + 1..] == rest;
    assert rest != "" ==> s[n + 1] == rest[0] && s[n + 2..] == rest[1..];
  }

  lemma WholeLine(line: string)
    requires BreakFree(line) && line != ""
    ensures SplitLines(line) == [line]
  {
    var n := FirstBreak(line);
    assert forall k | 0 <= k < |line| :: line[k] in line && !IsBreak(line[k]);
    assert line[..|line|] == line;
  }

  lemma {:induction false} ReadBack(names: seq<string>)
    requires forall n | n in names :: BreakFree(n)
    ensures SplitLines(Print(names)) == names
  {
    if names != [] {
      assert BreakFree(names[0]);
      LineEnds(names[0], Print(names[1..]));
      ReadBack(names[1..]);
    }
  }

  // Reading back what was written restores the list exactly when no name contains a line break.
  lemma RoundTrip(names: seq<string>)
    ensures SplitLines(Print(names)) == names
       <==> forall n, c | n in names && c in n :: c != '\n' && c != '\r'
  {
    if forall n, c | n in names && c in n :: c != '\n' && c != '\r' {
      assert forall n | n in names :: BreakFree(n);
      ReadBack(names);
    }
  }
}
