/** Python's `str.splitlines(keepends=True)`: lines, their line breaks, and when rewriting lines one
    by one gives a text that splits into exactly the rewritten lines. */
module TextLines {
  /** The line boundaries of `str.splitlines`. */
  predicate IsBreak(c: char) {
    || c == '\n' || c == '\r' || c == '\U{0B}' || c == '\U{0C}'
    || '\U{1C}' <= c <= '\U{1E}' || c == '\U{85}' || c == '\U{2028}' || c == '\U{2029}'
  }

  predicate Unbroken(t: string) {
    forall i :: 0 <= i < |t| ==> !IsBreak(t[i])
  }

  /** One past the line break that ends the line through `i`. */
  function LineEnd(c: string, i: nat): (n: nat)
    requires i < |c|
    ensures i < n <= |c|
    decreases |c| - i
  {
    if IsBreak(c[i]) then
      if c[i] == '\r' && i + 1 < |c| && c[i + 1] == '\n' then i + 2 else i + 1
    else if i + 1 == |c| then |c|
    else LineEnd(c, i + 1)
  }

  function SplitLines(c: string): seq<string>
    decreases |c|
  {
    if c == "" then [] else [c[..LineEnd(c, 0)]] + SplitLines(c[LineEnd(c, 0)..])
  }

  function Flatten(lines: seq<string>): string {
    if lines == [] then "" else lines[0] + Flatten(lines[1..])
  }

  /** The length of the line break at the end of a line. */
  function EndLength(line: string): (n: nat)
    ensures n <= |line|
  {
    if |line| >= 2 && line[|line| - 2] == '\r' && line[|line| - 1] == '\n' then 2
    else if line != "" && IsBreak(line[|line| - 1]) then 1
    else 0
  }

  function Body(line: string): string {
    line[..|line| - EndLength(line)]
  }

  function Ending(line: string): string {
    line[|line| - EndLength(line)..]
  }

  predicate IsLine(line: string) {
    line != "" && Unbroken(Body(line))
  }

  /** A line that another line follows: it ends in a break, and the break ends there. */
  predicate Precedes(line: string, next: string) {
    Ending(line) != "" && !(Ending(line) == "\r" && next != "" && next[0] == '\n')
  }

  ghost predicate WellSplit(lines: seq<string>) {
    && (forall i :: 0 <= i < |lines| ==> IsLine(lines[i]))
    && forall i :: 0 < i < |lines| ==> Precedes(lines[i - 1], lines[i])
  }

  lemma {:induction false} LineEndIsLine(c: string, i: nat)
    requires i < |c| && Unbroken(c[..i])
    ensures IsLine(c[..LineEnd(c, i)])
    ensures LineEnd(c, i) < |c| ==> Precedes(c[..LineEnd(c, i)], c[LineEnd(c, i)..])
    decreases |c| - i
  {
    if IsBreak(c[i]) {
      var n := LineEnd(c, i);
      assert Body(c[..n]) == c[..i] by {
        assert n == i + 1 && i > 0 ==> c[..i][i - 1] == c[i - 1] && c[i - 1] != '\r';
      }
    } else {
      assert c[..i + 1] == c[..i] + [c[i]];
      if i + 1 < |c| {
        LineEndIsLine(c, i + 1);
      }
    }
  }

  lemma {:induction false} SplitIsWell(c: string)
    ensures WellSplit(SplitLines(c)) && Flatten(SplitLines(c)) == c
    decreases |c|
  {
    if c != "" {
      var n := LineEnd(c, 0);
      LineEndIsLine(c, 0);
      SplitIsWell(c[n..]);
      var rest := SplitLines(c[n..]);
      assert SplitLines(c) == [c[..n]] + rest && SplitLines(c)[1..] == rest;
      FirstOfSplit(c[n..]);
      forall i | 0 < i < |rest| + 1
        ensures Precedes(([c[..n]] + rest)[i - 1], ([c[..n]] + rest)[i])
      {
        assert i > 1 ==> Precedes(rest[i - 2], rest[i - 1]);
      }
    }
  }

  lemma FirstOfSplit(c: string)
    ensures c == "" <==> SplitLines(c) == []
    ensures c != "" ==> SplitLines(c)[0] != "" && SplitLines(c)[0][0] == c[0]
  {
  }

  lemma {:induction false} LineEndOf(line: string, rest: string, i: nat)
    requires IsLine(line) && i < |line| && i <= |Body(line)|
    requires rest == "" || Precedes(line, rest)
    ensures LineEnd(line + rest, i) == |line|
    decreases |line| - i
  {
    var c := line + rest;
    assert c[i] == line[i];
    if i < |Body(line)| {
      assert Body(line)[i] == line[i];
      if i + 1 < |line| {
        LineEndOf(line, rest, i + 1);
      }
    } else if i + 1 < |line| {
      assert c[i + 1] == line[i + 1];
    } else if rest != "" {
      assert c[i + 1] == rest[0] && Ending(line) == [line[i]];
    }
  }

  /** A text put together from lines splits into those lines. */
  lemma {:induction false} SplitFlatten(lines: seq<string>)
    requires WellSplit(lines)
    ensures SplitLines(Flatten(lines)) == lines
  {
    if lines != [] {
      var line, rest := lines[0], Flatten(lines[1..]);
      assert WellSplit(lines[1..]) by {
        assert forall i :: 0 <= i < |lines[1..]| ==> lines[1..][i] == lines[i + 1];
        assert forall i :: 0 < i < |lines[1..]| ==> Precedes(lines[1..][i - 1], lines[1..][i]) by {
          forall i | 0 < i < |lines[1..]|
            ensures Precedes(lines[1..][i - 1], lines[1..][i])
          {
            assert Precedes(lines[i + 1 - 1], lines[i + 1]);
          }
        }
      }
      SplitFlatten(lines[1..]);
      if |lines| > 1 {
        assert Precedes(lines[1 - 1], lines[1]);
        assert rest[0] == lines[1][0];
      }
      LineEndOf(line, rest, 0);
      assert (line + rest)[..|line|] == line && (line + rest)[|line|..] == rest;
    }
  }

  /** A rewritten line: still one line, with the same line break and the same kind of start. */
  predicate Rewrites(line: string, next: string) {
    IsLine(next) && Ending(next) == Ending(line) && (next[0] == '\n' ==> line != "" && line[0] == '\n')
  }

  ghost predicate AllRewrite(lines: seq<string>, next: seq<string>) {
    |lines| == |next| && forall i :: 0 <= i < |lines| ==> Rewrites(lines[i], next[i])
  }

  lemma RewriteSplits(lines: seq<string>, next: seq<string>)
    requires WellSplit(lines) && AllRewrite(lines, next)
    ensures SplitLines(Flatten(next)) == next && WellSplit(next)
  {
    hide IsLine, Ending;
    forall i | 0 < i < |next|
      ensures Precedes(next[i - 1], next[i])
    {
      assert Precedes(lines[i - 1], lines[i]) && Rewrites(lines[i - 1], next[i - 1]) && Rewrites(lines[i], next[i]);
    }
    assert forall i :: 0 <= i < |next| ==> Rewrites(lines[i], next[i]);
    SplitFlatten(next);
  }

  // ---- Counting line breaks ----

  function Breaks(t: string): nat {
    if t == "" then 0 else (if IsBreak(t[0]) then 1 else 0) + Breaks(t[1..])
  }

  lemma {:induction false} BreaksAppend(a: string, b: string)
    ensures Breaks(a + b) == Breaks(a) + Breaks(b)
  {
    if a == "" {
      assert a + b == b;
    } else {
      assert (a + b)[1..] == a[1..] + b;
      BreaksAppend(a[1..], b);
    }
  }

  lemma {:induction false} UnbrokenBreaks(t: string)
    ensures Unbroken(t) <==> Breaks(t) == 0
  {
    if t != "" {
      UnbrokenBreaks(t[1..]);
      assert t == [t[0]] + t[1..];
      assert Unbroken(t) <==> !IsBreak(t[0]) && Unbroken(t[1..]) by {
        assert forall i :: 1 <= i < |t| ==> t[i] == t[1..][i - 1];
      }
    }
  }

  lemma {:induction false} FlattenBreaks(a: seq<string>, b: seq<string>)
    requires |a| == |b| && forall i :: 0 <= i < |a| ==> Breaks(a[i]) <= Breaks(b[i])
    ensures Breaks(Flatten(a)) <= Breaks(Flatten(b))
    ensures (exists i :: 0 <= i < |a| && Breaks(a[i]) < Breaks(b[i])) ==> Breaks(Flatten(a)) < Breaks(Flatten(b))
  {
    hide Breaks;
    if a != [] {
      FlattenBreaks(a[1..], b[1..]);
      BreaksAppend(a[0], Flatten(a[1..]));
      BreaksAppend(b[0], Flatten(b[1..]));
      if i :| 0 <= i < |a| && Breaks(a[i]) < Breaks(b[i]) {
        if i > 0 {
          assert Breaks(a[1..][i - 1]) < Breaks(b[1..][i - 1]);
        }
      }
    }
  }
}
