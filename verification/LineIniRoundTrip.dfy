/** What merging a redacted file into a current one gives: the secrets of the current file, every
    other line of the backup, and, for a file and its own redaction, exactly when the file itself. */
module LineIniRoundTrip {
  import opened Common
  import opened TextLines
  import opened LineIni

  // ---- One line ----

  ghost predicate IsAssignment(key: string, text: string, ending: string) {
    && (forall i :: 0 <= i < |key| ==> key[i] != '=')
    && Unbroken(key) && Unbroken(text) && (ending == "" || ending == "\n" || ending == "\r\n")
  }

  /** A line written as a key, `=`, a text and a line break is read as that. */
  lemma AssignmentParts(key: string, text: string, ending: string)
    requires IsAssignment(key, text, ending)
    ensures var line := key + "=" + text + ending;
            && Assigns(line) && Key(line) == key && Value(line) == text
            && IsLine(line) && Ending(line) == ending && Tail(line) == ending
            && line[0] != '\n'
  {
    var line := key + "=" + text + ending;
    var body := key + "=" + text;
    assert line[|key|] == '=' && line[..|key|] == key && body[|key|] == '=';
    EqualSignAt(line, |key|);
    EqualSignAt(body, |key|);
    AssignmentEnding(body, ending);
    assert body[|key| + 1..] == text;
  }

  lemma AssignmentEnding(body: string, ending: string)
    requires body != "" && Unbroken(body) && (ending == "" || ending == "\n" || ending == "\r\n")
    ensures Body(body + ending) == body && Ending(body + ending) == ending && Tail(body + ending) == ending
    ensures IsLine(body + ending)
  {
    var line := body + ending;
    var b := body[|body| - 1];
    assert line[|body| - 1] == b && !IsBreak(b);
    assert line[..|body|] == body && line[|body|..] == ending;
    if ending == "\r\n" {
      assert line[|line| - 2..] == ending;
    } else if |line| >= 2 {
      assert line[|line| - 2..][0] == line[|line| - 2];
    }
  }

  lemma LineParts(line: string)
    requires IsLine(line) && Assigns(line)
    ensures line == Key(line) + "=" + Value(line) + Ending(line)
    ensures Unbroken(Key(line)) && Unbroken(Value(line)) && forall i :: 0 <= i < |Key(line)| ==> Key(line)[i] != '='
  {
    var n, body := EqualSign(line), Body(line);
    assert line == body + Ending(line);
    if n >= |body| {
      EndingIsBreaks(line, n);
    } else {
      assert body[n] == line[n] == '=';
      assert forall i :: 0 <= i < n ==> body[i] == line[i];
      EqualSignAt(body, n);
      assert Key(line) == body[..n] && body == body[..n] + "=" + body[n + 1..];
    }
  }

  /** Whether an assignment looks like a section header depends on how it starts and ends. */
  lemma HeaderOfAssignment(key: string, text: string, ending: string)
    requires AllSpace(ending)
    ensures IsHeader(key + "=" + text + ending) <==>
              LStrip(key) != "" && LStrip(key)[0] == '[' && RStrip(text) != "" && RStrip(text)[|RStrip(text)| - 1] == ']'
  {
    hide IsSpace, LStrip, RStrip, Strip;
    LStripParts(key);
    RStripParts(text);
    var k, t := LStrip(key), RStrip(text);
    var pre, post := key[..|key| - |k|], text[|t|..];
    var core := k + "=" + t;
    assert key == pre + k && text == t + post;
    assert AllSpace(post + ending);
    Regroup(pre, k, t, post, ending);
    assert core[0] == if k == "" then '=' else k[0];
    assert core[|core| - 1] == if t == "" then '=' else t[|t| - 1];
    EqualSignIsSolid();
    StripOf(pre, core, post + ending);
  }

  lemma Regroup(pre: string, k: string, t: string, post: string, ending: string)
    ensures pre + k + "=" + (t + post) + ending == pre + (k + "=" + t) + (post + ending)
  {
  }

  lemma EqualSignIsSolid()
    ensures !IsSpace('=')
  {
  }

  lemma StripHead(s: string)
    ensures Strip(s) == "" <==> LStrip(s) == ""
    ensures Strip(s) != "" ==> Strip(s)[0] == LStrip(s)[0]
  {
    LStripParts(s);
    RStripParts(LStrip(s));
  }

  // ---- Sections and identities ----

  lemma {:induction false} SameSections(a: seq<string>, b: seq<string>)
    requires |a| == |b| && forall i :: 0 <= i < |a| ==> IsHeader(a[i]) == IsHeader(b[i]) && (IsHeader(a[i]) ==> a[i] == b[i])
    ensures Section(a) == Section(b)
  {
    hide IsHeader;
    if a != [] {
      var n := |a| - 1;
      assert IsHeader(a[n]) == IsHeader(b[n]);
      SameSections(a[..n], b[..n]);
    }
  }

  ghost predicate Distinct(names: Names, lines: seq<string>) {
    forall i, j :: 0 <= i < j < |lines| && Secret(names, lines[i]) && Secret(names, lines[j]) ==>
      IdAt(names, lines, i) != IdAt(names, lines, j)
  }

  lemma IdOfPrefix(names: Names, lines: seq<string>, n: nat)
    requires n <= |lines|
    ensures forall i :: 0 <= i < n ==> lines[..n][i] == lines[i] && IdAt(names, lines[..n], i) == IdAt(names, lines, i)
  {
    forall i | 0 <= i < n
      ensures lines[..n][i] == lines[i] && IdAt(names, lines[..n], i) == IdAt(names, lines, i)
    {
      assert lines[..n][..i] == lines[..i];
    }
  }

  lemma DistinctGrows(names: Names, lines: seq<string>, n: nat)
    requires n + 1 == |lines|
    ensures Distinct(names, lines) <==>
              Distinct(names, lines[..n]) &&
              (Secret(names, lines[n]) ==> forall i :: 0 <= i < n && Secret(names, lines[i]) ==> IdAt(names, lines, i) != IdAt(names, lines, n))
  {
    hide Secret, IdAt;
    IdOfPrefix(names, lines, n);
    if Distinct(names, lines) {
      forall i, j | 0 <= i < j < n && Secret(names, lines[..n][i]) && Secret(names, lines[..n][j])
        ensures IdAt(names, lines[..n], i) != IdAt(names, lines[..n], j)
      {
        assert Secret(names, lines[i]) && Secret(names, lines[j]);
      }
    }
    if Distinct(names, lines[..n]) {
      forall i, j | 0 <= i < j < n && Secret(names, lines[i]) && Secret(names, lines[j])
        ensures IdAt(names, lines, i) != IdAt(names, lines, j)
      {
        assert Secret(names, lines[..n][i]) && Secret(names, lines[..n][j]);
      }
    }
  }

  ghost predicate SomeSecret(names: Names, lines: seq<string>, id: Identity) {
    exists i :: 0 <= i < |lines| && Secret(names, lines[i]) && IdAt(names, lines, i) == id
  }

  lemma SomeSecretGrows(names: Names, lines: seq<string>, n: nat, id: Identity)
    requires n + 1 == |lines|
    ensures SomeSecret(names, lines, id) <==> SomeSecret(names, lines[..n], id) || (Secret(names, lines[n]) && IdAt(names, lines, n) == id)
    ensures SomeSecret(names, lines[..n], id) <==> exists i :: 0 <= i < n && Secret(names, lines[i]) && IdAt(names, lines, i) == id
  {
    hide Secret, IdAt;
    IdOfPrefix(names, lines, n);
    if SomeSecret(names, lines[..n], id) {
      var i :| 0 <= i < n && Secret(names, lines[..n][i]) && IdAt(names, lines[..n], i) == id;
      assert Secret(names, lines[i]) && IdAt(names, lines, i) == id;
    }
    if i :| 0 <= i < n && Secret(names, lines[i]) && IdAt(names, lines, i) == id {
      assert Secret(names, lines[..n][i]) && IdAt(names, lines[..n], i) == id;
    }
  }

  /** Collecting the secrets succeeds exactly when they are distinct and none is blank, and then
      holds their values and nothing else. */
  lemma {:induction false} ValuesOf(names: Names, lines: seq<string>)
    ensures Values(names, lines).Some? <==>
              Distinct(names, lines) && forall i :: 0 <= i < |lines| && Secret(names, lines[i]) ==> Strip(Value(lines[i])) != ""
    ensures Values(names, lines).Some? ==>
              forall i :: 0 <= i < |lines| && Secret(names, lines[i]) ==>
                IdAt(names, lines, i) in Values(names, lines).value &&
                Values(names, lines).value[IdAt(names, lines, i)] == Value(lines[i])
    ensures Values(names, lines).Some? ==> forall id :: id in Values(names, lines).value <==> SomeSecret(names, lines, id)
  {
    hide Secret, IdAt, Value, Strip, Distinct, SomeSecret;
    if lines == [] {
      NoSecrets(names);
    } else {
      var n := |lines| - 1;
      ValuesOf(names, lines[..n]);
      IdOfPrefix(names, lines, n);
      DistinctGrows(names, lines, n);
      forall id
        ensures SomeSecret(names, lines, id) <==> SomeSecret(names, lines[..n], id) || (Secret(names, lines[n]) && IdAt(names, lines, n) == id)
        ensures SomeSecret(names, lines[..n], id) <==> exists i :: 0 <= i < n && Secret(names, lines[i]) && IdAt(names, lines, i) == id
      {
        SomeSecretGrows(names, lines, n, id);
      }
    }
  }

  lemma NoSecrets(names: Names)
    ensures Distinct(names, []) && forall id :: !SomeSecret(names, [], id)
  {
  }

  /** The line that a merge makes of line `i` of the backup. */
  function MergedLine(names: Names, values: map<Identity, string>, lines: seq<string>, i: nat): string
    requires i < |lines| && (Secret(names, lines[i]) ==> IdAt(names, lines, i) in values)
  {
    if Secret(names, lines[i]) then Key(lines[i]) + "=" + values[IdAt(names, lines, i)] + Tail(lines[i]) else lines[i]
  }

  ghost predicate Known(names: Names, values: map<Identity, string>, lines: seq<string>) {
    forall i :: 0 <= i < |lines| && Secret(names, lines[i]) ==> IdAt(names, lines, i) in values
  }

  lemma {:induction false} MergedOf(names: Names, values: map<Identity, string>, lines: seq<string>)
    ensures MergedLines(names, values, lines).Some? <==> Distinct(names, lines) && Known(names, values, lines)
    ensures MergedLines(names, values, lines).Some? ==>
              var out := MergedLines(names, values, lines).value.out;
              |out| == |lines| && forall i :: 0 <= i < |lines| ==> out[i] == MergedLine(names, values, lines, i)
    ensures MergedLines(names, values, lines).Some? ==>
              forall id :: id in MergedLines(names, values, lines).value.seen <==> SomeSecret(names, lines, id)
  {
    hide Secret, IdAt, Key, Tail, Distinct, SomeSecret;
    if lines == [] {
      NoSecrets(names);
    } else {
      var n := |lines| - 1;
      MergedOf(names, values, lines[..n]);
      IdOfPrefix(names, lines, n);
      DistinctGrows(names, lines, n);
      assert Known(names, values, lines) ==> Known(names, values, lines[..n]);
      forall id
        ensures SomeSecret(names, lines, id) <==> SomeSecret(names, lines[..n], id) || (Secret(names, lines[n]) && IdAt(names, lines, n) == id)
        ensures SomeSecret(names, lines[..n], id) <==> exists i :: 0 <= i < n && Secret(names, lines[i]) && IdAt(names, lines, i) == id
      {
        SomeSecretGrows(names, lines, n, id);
      }
    }
  }

  // ---- What a merge reads back as ----

  /** Rewriting this line repeats its line break: it ends in `\n`, `\r\n` or not at all. */
  predicate KeepsBreak(names: Names, line: string) {
    NamesSecret(names, line) ==> Tail(line) == Ending(line)
  }

  /** `casefold` maps `[`, and nothing else, to a text that starts with `[`. */
  ghost predicate FoldKeepsBracket(names: Names) {
    forall s, t :: names.fold(s) == names.fold(t) ==> (s != "" && s[0] == '[' <==> t != "" && t[0] == '[')
  }

  /** A restored secret is a secret again, under the same key, with the value of `source`. */
  lemma RestoredLine(names: Names, line: string, source: string)
    requires FoldKeepsBracket(names) && IsLine(line) && IsLine(source)
    requires Secret(names, line) && Secret(names, source) && KeepsBreak(names, line)
    requires names.fold(Strip(Key(line))) == names.fold(Strip(Key(source)))
    ensures var next := Key(line) + "=" + Value(source) + Tail(line);
            Rewrites(line, next) && Secret(names, next) && Key(next) == Key(line) && Value(next) == Value(source)
  {
    hide IsLine, Key, Value, Strip, LStrip, RStrip, Ending, Tail;
    LineParts(line);
    LineParts(source);
    TailIsBreak(line);
    var next := Key(line) + "=" + Value(source) + Tail(line);
    AssignmentParts(Key(line), Value(source), Tail(line));
    EndingIsSpace(source);
    EndingIsSpace(line);
    HeaderOfAssignment(Key(line), Value(source), Tail(line));
    HeaderOfAssignment(Key(source), Value(source), Ending(source));
    StripHead(Key(line));
    StripHead(Key(source));
  }

  lemma TailIsBreak(line: string)
    ensures Tail(line) == "" || Tail(line) == "\n" || Tail(line) == "\r\n"
  {
  }

  lemma SplitHasLines(names: Names, content: string)
    ensures WellSplit(SplitLines(content))
    ensures forall i :: 0 <= i < |SplitLines(content)| ==> IsLine(SplitLines(content)[i])
  {
    SplitIsWell(content);
  }

  /** The rewritten lines of an accepted merge, one by one. */
  lemma MergedRewrites(names: Names, backup: seq<string>, current: seq<string>, values: map<Identity, string>, out: seq<string>)
    requires FoldKeepsBracket(names) && Values(names, current) == Some(values)
    requires forall i :: 0 <= i < |current| ==> IsLine(current[i])
    requires forall i :: 0 <= i < |backup| ==> IsLine(backup[i]) && KeepsBreak(names, backup[i])
    requires Known(names, values, backup) && |out| == |backup|
    requires forall i :: 0 <= i < |backup| ==> out[i] == MergedLine(names, values, backup, i)
    ensures AllRewrite(backup, out)
    ensures forall i :: 0 <= i < |backup| ==>
              IsHeader(out[i]) == IsHeader(backup[i]) && Secret(names, out[i]) == Secret(names, backup[i])
    ensures forall i :: 0 <= i < |backup| && Secret(names, backup[i]) ==>
              Key(out[i]) == Key(backup[i]) && Value(out[i]) == values[IdAt(names, backup, i)] && Strip(Value(out[i])) != ""
    ensures forall i :: 0 <= i < |backup| && !Secret(names, backup[i]) ==> out[i] == backup[i]
  {
    hide IsLine, Key, Value, Strip, Ending, Tail, IsHeader, NamesSecret, KeepsBreak, FoldKeepsBracket, Section;
    ValuesOf(names, current);
    forall i | 0 <= i < |backup|
      ensures Rewrites(backup[i], out[i])
      ensures IsHeader(out[i]) == IsHeader(backup[i]) && Secret(names, out[i]) == Secret(names, backup[i])
      ensures Secret(names, backup[i]) ==>
                Key(out[i]) == Key(backup[i]) && Value(out[i]) == values[IdAt(names, backup, i)] && Strip(Value(out[i])) != ""
      ensures !Secret(names, backup[i]) ==> out[i] == backup[i]
    {
      assert out[i] == MergedLine(names, values, backup, i);
      if Secret(names, backup[i]) {
        var id := IdAt(names, backup, i);
        var j :| 0 <= j < |current| && Secret(names, current[j]) && IdAt(names, current, j) == id;
        RestoredLine(names, backup[i], current[j]);
      } else {
        SameRewrites(backup[i]);
      }
    }
  }

  lemma SameRewrites(line: string)
    requires IsLine(line)
    ensures Rewrites(line, line)
  {
  }

  /** The main result of a line merge. With ordinary line breaks, the merged text splits into the
      lines of the backup, where every line that holds no secret is the backup's to the byte; and
      reading the secrets of the merged text gives, for exactly the secrets the backup names, the
      values of the current file. */
  lemma MergeReadsBack(names: Names, backup: string, current: string)
    requires FoldKeepsBracket(names) && MergeGeneric(names, backup, current).Ok?
    requires forall i :: 0 <= i < |SplitLines(backup)| ==> KeepsBreak(names, SplitLines(backup)[i])
    ensures SensitiveValues(names, current).Some?
    ensures var lines, merged := SplitLines(backup), SplitLines(MergeGeneric(names, backup, current).value);
            && |merged| == |lines|
            && (forall i :: 0 <= i < |lines| ==> Secret(names, merged[i]) == Secret(names, lines[i]))
            && (forall i :: 0 <= i < |lines| && !Secret(names, lines[i]) ==> merged[i] == lines[i])
            && (forall i :: 0 <= i < |lines| && Secret(names, lines[i]) ==>
                  Key(merged[i]) == Key(lines[i]) && IdAt(names, merged, i) == IdAt(names, lines, i))
    ensures var values := SensitiveValues(names, current).value;
            var merged := SensitiveValues(names, MergeGeneric(names, backup, current).value);
            && merged.Some?
            && (forall id :: id in merged.value ==> id in values && merged.value[id] == values[id])
            && forall id :: id in merged.value <==> SomeSecret(names, SplitLines(backup), id)
  {
    hide IsLine, Key, Value, Strip, Ending, Tail, Secret, KeepsBreak, FoldKeepsBracket, Section, Utf8Length;
    hide SplitLines, Flatten, MergedLines, Values, IsHeader, AllRewrite, WellSplit;
    var lines := SplitLines(backup);
    var values := SensitiveValues(names, current).value;
    var out := MergedLines(names, values, lines).value.out;
    SplitHasLines(names, backup);
    SplitHasLines(names, current);
    MergedOf(names, values, lines);
    MergedRewrites(names, lines, SplitLines(current), values, out);
    RewriteSplits(lines, out);
    forall i | 0 <= i < |lines| && Secret(names, lines[i])
      ensures IdAt(names, out, i) == IdAt(names, lines, i)
    {
      SameHeaders(names, lines, out, i);
    }
    MergedValues(names, lines, out, values);
  }

  lemma SameHeaders(names: Names, lines: seq<string>, out: seq<string>, i: nat)
    requires i < |lines| == |out| && Key(out[i]) == Key(lines[i])
    requires forall j :: 0 <= j < |lines| ==> IsHeader(out[j]) == IsHeader(lines[j])
    requires forall j :: 0 <= j < |lines| && !Secret(names, lines[j]) ==> out[j] == lines[j]
    ensures IdAt(names, out, i) == IdAt(names, lines, i)
  {
    hide IsHeader, Key, Strip;
    forall j | 0 <= j < i
      ensures IsHeader(out[..i][j]) == IsHeader(lines[..i][j]) && (IsHeader(out[..i][j]) ==> out[..i][j] == lines[..i][j])
    {
      assert out[..i][j] == out[j] && lines[..i][j] == lines[j];
    }
    SameSections(out[..i], lines[..i]);
  }

  lemma MergedValues(names: Names, lines: seq<string>, out: seq<string>, values: map<Identity, string>)
    requires |lines| == |out| && Distinct(names, lines) && Known(names, values, lines)
    requires forall i :: 0 <= i < |lines| ==> Secret(names, out[i]) == Secret(names, lines[i])
    requires forall i :: 0 <= i < |lines| && Secret(names, lines[i]) ==>
               IdAt(names, out, i) == IdAt(names, lines, i) && Value(out[i]) == values[IdAt(names, lines, i)] && Strip(Value(out[i])) != ""
    ensures Values(names, out).Some?
    ensures forall id :: id in Values(names, out).value ==> id in values && Values(names, out).value[id] == values[id]
    ensures forall id :: id in Values(names, out).value <==> SomeSecret(names, lines, id)
  {
    hide Secret, IdAt, Value, Strip, Values;
    ValuesOf(names, out);
    forall id
      ensures SomeSecret(names, out, id) <==> SomeSecret(names, lines, id)
      ensures SomeSecret(names, out, id) ==> id in values && Values(names, out).value[id] == values[id]
    {
      if SomeSecret(names, lines, id) {
        var i :| 0 <= i < |lines| && Secret(names, lines[i]) && IdAt(names, lines, i) == id;
        assert Secret(names, out[i]) && IdAt(names, out, i) == id;
      }
    }
  }

  // ---- A file and its own redaction ----

  /** A line that both looks like a section header and names a secret: a merge copies it, while
      redacting rewrites it. */
  predicate SecretHeader(names: Names, line: string) {
    IsHeader(line) && NamesSecret(names, line)
  }

  lemma RedactedLine(names: Names, line: string)
    requires IsLine(line) && NamesSecret(names, line) && KeepsBreak(names, line)
    ensures var next := RedactLine(names, line);
            && Rewrites(line, next) && Key(next) == Key(line) && NamesSecret(names, next)
            && !IsHeader(next) && Tail(next) == Ending(line)
  {
    hide IsLine, Key, Value, Strip, LStrip, Ending, Tail;
    LineParts(line);
    TailIsBreak(line);
    AssignmentParts(Key(line), "\"\"", Tail(line));
    EndingIsSpace(line);
    HeaderOfAssignment(Key(line), "\"\"", Tail(line));
    QuotesStay();
  }

  lemma QuotesStay()
    ensures RStrip("\"\"") == "\"\"" && Unbroken("\"\"")
  {
  }

  lemma RedactedRewrites(names: Names, lines: seq<string>)
    requires forall i :: 0 <= i < |lines| ==> IsLine(lines[i]) && KeepsBreak(names, lines[i])
    ensures AllRewrite(lines, RedactedLines(names, lines))
  {
    hide IsLine, NamesSecret, KeepsBreak, Rewrites, RedactLine;
    forall i | 0 <= i < |lines|
      ensures Rewrites(lines[i], RedactLine(names, lines[i]))
    {
      if NamesSecret(names, lines[i]) {
        RedactedLine(names, lines[i]);
      } else {
        SameRewrites(lines[i]);
        UnredactedLine(names, lines[i]);
      }
    }
  }

  lemma UnredactedLine(names: Names, line: string)
    requires !NamesSecret(names, line)
    ensures RedactLine(names, line) == line
  {
  }

  /** Merging a redacted line puts the value back. */
  lemma RestoredSecret(names: Names, line: string)
    requires IsLine(line) && NamesSecret(names, line) && KeepsBreak(names, line)
    ensures var next := RedactLine(names, line); Key(next) + "=" + Value(line) + Tail(next) == line
  {
    hide IsLine, Key, Value, Strip, Ending, Tail, IsHeader, RedactLine;
    RedactedLine(names, line);
    LineParts(line);
  }

  lemma RedactedFacts(names: Names, lines: seq<string>)
    requires forall i :: 0 <= i < |lines| ==> IsLine(lines[i]) && KeepsBreak(names, lines[i]) && !SecretHeader(names, lines[i])
    ensures forall i :: 0 <= i < |lines| ==>
              var next := RedactLine(names, lines[i]);
              && IsHeader(next) == IsHeader(lines[i]) && Secret(names, next) == Secret(names, lines[i]) && Key(next) == Key(lines[i])
              && (!Secret(names, lines[i]) ==> next == lines[i])
              && (Secret(names, lines[i]) ==> NamesSecret(names, lines[i]))
  {
    hide IsLine, NamesSecret, KeepsBreak, IsHeader, RedactLine, Key;
    forall i | 0 <= i < |lines|
      ensures var next := RedactLine(names, lines[i]);
              && IsHeader(next) == IsHeader(lines[i]) && Secret(names, next) == Secret(names, lines[i]) && Key(next) == Key(lines[i])
              && (!Secret(names, lines[i]) ==> next == lines[i])
    {
      assert !SecretHeader(names, lines[i]);
      if NamesSecret(names, lines[i]) {
        RedactedLine(names, lines[i]);
      } else {
        UnredactedLine(names, lines[i]);
      }
    }
  }

  /** The lines of a redacted file, merged with the secrets of the file, are its lines. */
  lemma RedactedMerge(names: Names, lines: seq<string>, values: map<Identity, string>)
    requires forall i :: 0 <= i < |lines| ==> IsLine(lines[i]) && KeepsBreak(names, lines[i]) && !SecretHeader(names, lines[i])
    requires Values(names, lines) == Some(values)
    ensures var merged := MergedLines(names, values, RedactedLines(names, lines)); merged.Some? && merged.value.out == lines
  {
    hide IsLine, NamesSecret, KeepsBreak, SecretHeader, IsHeader, RedactLine, Key, Value, Strip, Tail, Section, Secret, Values, MergedLines;
    var redacted := RedactedLines(names, lines);
    RedactedFacts(names, lines);
    forall i | 0 <= i < |lines|
      ensures IdAt(names, redacted, i) == IdAt(names, lines, i)
    {
      SameHeaders(names, lines, redacted, i);
    }
    ValuesOf(names, lines);
    MergedOf(names, values, redacted);
    forall i | 0 <= i < |lines|
      ensures Secret(names, redacted[i]) ==> IdAt(names, redacted, i) in values
      ensures MergedLine(names, values, redacted, i) == lines[i]
    {
      if Secret(names, lines[i]) {
        RestoredSecret(names, lines[i]);
      }
    }
    assert Distinct(names, redacted);
    assert MergedLines(names, values, redacted).value.out == lines;
  }

  /** A break that is not repeated is lost for good, wherever the values come from. */
  lemma LostBreaks(names: Names, content: string, values: map<Identity, string>, i: nat)
    requires i < |SplitLines(content)| && !KeepsBreak(names, SplitLines(content)[i])
    requires forall id :: id in values ==> Unbroken(values[id])
    requires MergedLines(names, values, SplitLines(RedactGeneric(names, content))).Some?
    ensures Flatten(MergedLines(names, values, SplitLines(RedactGeneric(names, content))).value.out) != content
  {
    hide KeepsBreak, RedactLine, SplitLines, Flatten, MergedLines, Breaks, IdAt, Secret, IsLine, Unbroken;
    var lines := SplitLines(content);
    var redacted := RedactedLines(names, lines);
    SplitIsWell(content);
    forall j | 0 <= j < |lines|
      ensures Breaks(redacted[j]) <= Breaks(lines[j]) && (!KeepsBreak(names, lines[j]) ==> Breaks(redacted[j]) < Breaks(lines[j]))
    {
      RedactedBreaks(names, lines[j]);
    }
    FlattenBreaks(redacted, lines);
    assert Breaks(redacted[i]) < Breaks(lines[i]);
    var backup := SplitLines(RedactGeneric(names, content));
    SplitIsWell(RedactGeneric(names, content));
    MergedOf(names, values, backup);
    var out := MergedLines(names, values, backup).value.out;
    forall j | 0 <= j < |backup|
      ensures Breaks(out[j]) <= Breaks(backup[j])
    {
      assert out[j] == MergedLine(names, values, backup, j);
      MergedBreaks(names, values, backup, j);
    }
    FlattenBreaks(out, backup);
  }

  lemma RedactedBreaks(names: Names, line: string)
    requires IsLine(line)
    ensures Breaks(RedactLine(names, line)) <= Breaks(line)
    ensures !KeepsBreak(names, line) ==> Breaks(RedactLine(names, line)) < Breaks(line)
  {
    hide IsLine, Key, Value, Ending, Tail, Breaks, Unbroken;
    if NamesSecret(names, line) {
      LineParts(line);
      QuotesStay();
      AssignmentBreaks(Key(line), Value(line), Ending(line));
      AssignmentBreaks(Key(line), "\"\"", Tail(line));
      TailBreaks(line);
    } else {
      UnredactedLine(names, line);
    }
  }

  lemma AssignmentBreaks(key: string, text: string, ending: string)
    requires Unbroken(key) && Unbroken(text)
    ensures Breaks(key + "=" + text + ending) == Breaks(ending)
  {
    hide Breaks, Unbroken;
    UnbrokenBreaks(key);
    UnbrokenBreaks(text);
    UnbrokenBreaks("=");
    EqualSignUnbroken();
    BreaksAppend(key + "=" + text, ending);
    BreaksAppend(key + "=", text);
    BreaksAppend(key, "=");
  }

  lemma EqualSignUnbroken()
    ensures Unbroken("=")
  {
  }

  lemma TailBreaks(line: string)
    ensures Breaks(Tail(line)) <= Breaks(Ending(line))
    ensures Tail(line) != Ending(line) ==> Breaks(Tail(line)) < Breaks(Ending(line))
  {
    if EndLength(line) == 2 {
      assert line[|line| - 2..] == "\r\n";
    } else if EndLength(line) == 1 {
      assert Ending(line) == [line[|line| - 1]];
      assert |line| >= 2 ==> line[|line| - 2..] == [line[|line| - 2], line[|line| - 1]];
      assert Breaks(Ending(line)) == 1 + Breaks("");
    } else {
      assert |line| >= 2 ==> line[|line| - 2..][1] == line[|line| - 1];
    }
  }

  lemma MergedBreaks(names: Names, values: map<Identity, string>, lines: seq<string>, i: nat)
    requires i < |lines| && IsLine(lines[i]) && (Secret(names, lines[i]) ==> IdAt(names, lines, i) in values)
    requires forall id :: id in values ==> Unbroken(values[id])
    ensures Breaks(MergedLine(names, values, lines, i)) <= Breaks(lines[i])
  {
    hide IsLine, Key, Value, Ending, Tail, Breaks, IdAt, IsHeader, Unbroken;
    if Secret(names, lines[i]) {
      LineParts(lines[i]);
      AssignmentBreaks(Key(lines[i]), Value(lines[i]), Ending(lines[i]));
      AssignmentBreaks(Key(lines[i]), values[IdAt(names, lines, i)], Tail(lines[i]));
      TailBreaks(lines[i]);
    }
  }

  /** A header line that names a secret is lost as well: no other line of the file can hold its text. */
  lemma LostHeader(names: Names, lines: seq<string>, values: map<Identity, string>, i: nat)
    requires FoldKeepsBracket(names) && Values(names, lines) == Some(values)
    requires forall j :: 0 <= j < |lines| ==> IsLine(lines[j]) && KeepsBreak(names, lines[j])
    requires i < |lines| && SecretHeader(names, lines[i])
    requires Known(names, values, RedactedLines(names, lines))
    ensures MergedLine(names, values, RedactedLines(names, lines), i) != lines[i]
  {
    hide *;
    var redacted := RedactedLines(names, lines);
    HeaderBecomesSecret(names, lines[i]);
    assert redacted[i] == RedactLine(names, lines[i]);
    var id := KnownAt(names, values, redacted, i);
    var j := SourceOf(names, lines, values, id);
    SameKey(names, lines, j, redacted, i);
    EndingIsSpace(redacted[i]);
    NotHeader(names, lines[i], lines[j], Tail(redacted[i]));
    MergedText(names, values, redacted, i);
    SecretHeaderIsHeader(names, lines[i]);
  }

  lemma HeaderBecomesSecret(names: Names, line: string)
    requires IsLine(line) && KeepsBreak(names, line) && SecretHeader(names, line)
    ensures Secret(names, RedactLine(names, line)) && Key(RedactLine(names, line)) == Key(line)
  {
    hide IsLine, KeepsBreak, IsHeader, NamesSecret, RedactLine, Key;
    RedactedLine(names, line);
  }

  lemma SecretHeaderIsHeader(names: Names, line: string)
    requires SecretHeader(names, line)
    ensures IsHeader(line)
  {
  }

  lemma KnownAt(names: Names, values: map<Identity, string>, lines: seq<string>, i: nat) returns (id: Identity)
    requires i < |lines| && Secret(names, lines[i]) && Known(names, values, lines)
    ensures id == IdAt(names, lines, i) && id in values
  {
    id := IdAt(names, lines, i);
  }

  lemma MergedText(names: Names, values: map<Identity, string>, lines: seq<string>, i: nat)
    requires i < |lines| && Secret(names, lines[i]) && IdAt(names, lines, i) in values
    ensures MergedLine(names, values, lines, i) == Key(lines[i]) + "=" + values[IdAt(names, lines, i)] + Tail(lines[i])
  {
  }

  lemma SourceOf(names: Names, lines: seq<string>, values: map<Identity, string>, id: Identity) returns (j: nat)
    requires Values(names, lines) == Some(values) && id in values
    ensures j < |lines| && Secret(names, lines[j]) && IdAt(names, lines, j) == id && values[id] == Value(lines[j])
  {
    hide Secret, IdAt, Value, Values;
    ValuesOf(names, lines);
    j :| 0 <= j < |lines| && Secret(names, lines[j]) && IdAt(names, lines, j) == id;
  }

  lemma SameKey(names: Names, a: seq<string>, i: nat, b: seq<string>, j: nat)
    requires i < |a| && j < |b| && IdAt(names, a, i) == IdAt(names, b, j)
    ensures names.fold(Strip(Key(a[i]))) == names.fold(Strip(Key(b[j])))
  {
  }

  lemma NotHeader(names: Names, line: string, source: string, ending: string)
    requires FoldKeepsBracket(names) && IsLine(source) && Secret(names, source) && AllSpace(ending)
    requires names.fold(Strip(Key(line))) == names.fold(Strip(Key(source)))
    ensures !IsHeader(Key(line) + "=" + Value(source) + ending)
  {
    hide IsLine, Key, Value, Strip, LStrip, RStrip, Ending, IsHeader, AllSpace, FoldKeepsBracket;
    LineParts(source);
    EndingIsSpace(source);
    HeaderOfAssignment(Key(line), Value(source), ending);
    HeaderOfAssignment(Key(source), Value(source), Ending(source));
    SameHead(names, Key(line), Key(source));
  }

  /** Keys with the same folded name begin with a bracket together. */
  lemma SameHead(names: Names, a: string, b: string)
    requires FoldKeepsBracket(names) && names.fold(Strip(a)) == names.fold(Strip(b))
    ensures LStrip(a) != "" && LStrip(a)[0] == '[' <==> LStrip(b) != "" && LStrip(b)[0] == '['
  {
    hide Strip, LStrip;
    StripHead(a);
    StripHead(b);
  }

  lemma ValuesUnbroken(names: Names, lines: seq<string>)
    requires Values(names, lines).Some? && forall i :: 0 <= i < |lines| ==> IsLine(lines[i])
    ensures forall id :: id in Values(names, lines).value ==> Unbroken(Values(names, lines).value[id])
  {
    hide IsLine, Key, Value, Unbroken, IdAt, Values;
    ValuesOf(names, lines);
    forall id | id in Values(names, lines).value
      ensures Unbroken(Values(names, lines).value[id])
    {
      var i :| 0 <= i < |lines| && Secret(names, lines[i]) && IdAt(names, lines, i) == id;
      LineParts(lines[i]);
    }
  }

  /** A file whose redaction is merged back into it comes back to the byte exactly when every line
      that names a secret ends in an ordinary line break and none of them looks like a header. */
  lemma RedactThenMergeGeneric(names: Names, content: string)
    requires FoldKeepsBracket(names) && SensitiveValues(names, content).Some?
    ensures MergeGeneric(names, RedactGeneric(names, content), content) == Ok(content) <==>
              forall i :: 0 <= i < |SplitLines(content)| ==>
                KeepsBreak(names, SplitLines(content)[i]) && !SecretHeader(names, SplitLines(content)[i])
  {
    hide *;
    var lines := SplitLines(content);
    var values := SensitiveValues(names, content).value;
    SplitIsWell(content);
    MergeOfRedacted(names, content, values);
    if i :| 0 <= i < |lines| && !KeepsBreak(names, lines[i]) {
      LinesOfWell(lines);
      ValuesUnbroken(names, lines);
      if MergedLines(names, values, SplitLines(RedactGeneric(names, content))).Some? {
        LostBreaks(names, content, values, i);
      }
    } else {
      RedactedText(names, content);
      RoundTripLines(names, lines, values);
    }
  }

  lemma LinesOfWell(lines: seq<string>)
    requires WellSplit(lines)
    ensures forall i :: 0 <= i < |lines| ==> IsLine(lines[i])
  {
  }

  lemma MergeOfRedacted(names: Names, content: string, values: map<Identity, string>)
    requires SensitiveValues(names, content) == Some(values)
    ensures Values(names, SplitLines(content)) == Some(values)
    ensures var merged := MergedLines(names, values, SplitLines(RedactGeneric(names, content)));
            MergeGeneric(names, RedactGeneric(names, content), content) == Ok(content) <==>
              merged.Some? && Flatten(merged.value.out) == content
  {
    hide Values, SplitLines, RedactGeneric, MergedLines, Flatten, Utf8Length;
  }

  lemma RedactedText(names: Names, content: string)
    requires forall i :: 0 <= i < |SplitLines(content)| ==> KeepsBreak(names, SplitLines(content)[i])
    ensures SplitLines(RedactGeneric(names, content)) == RedactedLines(names, SplitLines(content))
  {
    hide SplitLines, WellSplit, AllRewrite, IsLine, KeepsBreak, Flatten;
    SplitIsWell(content);
    LinesOfWell(SplitLines(content));
    RedactedRewrites(names, SplitLines(content));
    RewriteSplits(SplitLines(content), RedactedLines(names, SplitLines(content)));
  }

  lemma RoundTripLines(names: Names, lines: seq<string>, values: map<Identity, string>)
    requires FoldKeepsBracket(names) && Values(names, lines) == Some(values) && WellSplit(lines)
    requires forall j :: 0 <= j < |lines| ==> KeepsBreak(names, lines[j])
    ensures var merged := MergedLines(names, values, RedactedLines(names, lines));
            (merged.Some? && Flatten(merged.value.out) == Flatten(lines)) <==>
              forall i :: 0 <= i < |lines| ==> !SecretHeader(names, lines[i])
  {
    hide *;
    LinesOfWell(lines);
    if i :| 0 <= i < |lines| && SecretHeader(names, lines[i]) {
      var redacted := RedactedLines(names, lines);
      if MergedLines(names, values, redacted).Some? {
        MergedOf(names, values, redacted);
        LostHeader(names, lines, values, i);
        LostLine(names, lines, values, i);
      }
    } else {
      RedactedMerge(names, lines, values);
    }
  }

  lemma LostLine(names: Names, lines: seq<string>, values: map<Identity, string>, i: nat)
    requires FoldKeepsBracket(names) && Values(names, lines) == Some(values) && WellSplit(lines)
    requires forall j :: 0 <= j < |lines| ==> IsLine(lines[j]) && KeepsBreak(names, lines[j])
    requires i < |lines| && MergedLines(names, values, RedactedLines(names, lines)).Some?
    requires |MergedLines(names, values, RedactedLines(names, lines)).value.out| == |lines|
    requires MergedLines(names, values, RedactedLines(names, lines)).value.out[i] != lines[i]
    ensures Flatten(MergedLines(names, values, RedactedLines(names, lines)).value.out) != Flatten(lines)
  {
    hide IsLine, KeepsBreak, Values, MergedLines, FoldKeepsBracket, RedactLine, WellSplit, AllRewrite;
    var redacted := RedactedLines(names, lines);
    var out := MergedLines(names, values, redacted).value.out;
    RedactedKeeps(names, lines);
    MergedOf(names, values, redacted);
    MergedRewrites(names, redacted, lines, values, out);
    RedactedRewrites(names, lines);
    RewriteSplits(lines, redacted);
    RewriteSplits(redacted, out);
    SplitFlatten(lines);
  }

  lemma RedactedKeeps(names: Names, lines: seq<string>)
    requires forall j :: 0 <= j < |lines| ==> IsLine(lines[j]) && KeepsBreak(names, lines[j])
    ensures forall j :: 0 <= j < |lines| ==> IsLine(RedactLine(names, lines[j])) && KeepsBreak(names, RedactLine(names, lines[j]))
  {
    hide IsLine, NamesSecret, RedactLine, Key, Tail, Ending;
    forall j | 0 <= j < |lines|
      ensures IsLine(RedactLine(names, lines[j])) && KeepsBreak(names, RedactLine(names, lines[j]))
    {
      if NamesSecret(names, lines[j]) {
        RedactedLine(names, lines[j]);
      } else {
        UnredactedLine(names, lines[j]);
      }
    }
  }

  // ---- Two files that do not come back ----

  const HEADER_FILE: string := "[password=1]"
  const RETURN_FILE: string := "token=1\r"

  lemma OneLineFile(content: string)
    requires IsLine(content)
    ensures SplitLines(content) == [content]
  {
    hide IsLine, LineEnd;
    assert Flatten([content]) == content;
    SplitFlatten([content]);
  }

  /** A section header with the name of a secret in it, and a secret before a lone carriage return. */
  lemma SecretHeaderIsLost(names: Names)
    requires FoldKeepsBracket(names) && names.sensitive("[password") && names.sensitive("token")
    ensures SensitiveValues(names, HEADER_FILE).Some? && SensitiveValues(names, RETURN_FILE).Some?
    ensures MergeGeneric(names, RedactGeneric(names, HEADER_FILE), HEADER_FILE) != Ok(HEADER_FILE)
    ensures MergeGeneric(names, RedactGeneric(names, RETURN_FILE), RETURN_FILE) != Ok(RETURN_FILE)
  {
    hide *;
    HeaderFileLine(names);
    ReturnFileLine(names);
    SecretHeaderIsHeader(names, HEADER_FILE);
    OneLineFile(HEADER_FILE);
    OneLineFile(RETURN_FILE);
    OneValue(names, HEADER_FILE);
    OneValue(names, RETURN_FILE);
    assert SplitLines(HEADER_FILE)[0] == HEADER_FILE && SplitLines(RETURN_FILE)[0] == RETURN_FILE;
    RedactThenMergeGeneric(names, HEADER_FILE);
    RedactThenMergeGeneric(names, RETURN_FILE);
  }

  lemma OneValue(names: Names, line: string)
    requires Utf8Length(line) <= MAX_GENERIC_CONFIG_BYTES && SplitLines(line) == [line]
    requires IsHeader(line) || Strip(Value(line)) != ""
    ensures SensitiveValues(names, line).Some?
  {
    hide IsHeader, Value, Strip, NamesSecret;
    assert [line][..0] == [] && Values(names, []) == Some(map[]);
  }

  lemma HeaderFileLine(names: Names)
    requires names.sensitive("[password")
    ensures IsLine(HEADER_FILE) && SecretHeader(names, HEADER_FILE) && Utf8Length(HEADER_FILE) <= MAX_GENERIC_CONFIG_BYTES
  {
    hide IsLine, Key, Value, Strip, LStrip, RStrip, Ending, Tail, EqualSign, Utf8Length, IsHeader;
    PlainWords();
    assert HEADER_FILE == "[password" + "=" + "1]" + "";
    AssignmentParts("[password", "1]", "");
    HeaderOfAssignment("[password", "1]", "");
    Utf8Bound(HEADER_FILE);
  }

  lemma ReturnFileLine(names: Names)
    requires names.sensitive("token")
    ensures IsLine(RETURN_FILE) && !KeepsBreak(names, RETURN_FILE) && Utf8Length(RETURN_FILE) <= MAX_GENERIC_CONFIG_BYTES
    ensures Strip(Value(RETURN_FILE)) != ""
  {
    hide Strip, EqualSign, Utf8Length;
    PlainWords();
    EqualSignAt(RETURN_FILE, 5);
    assert Body(RETURN_FILE) == "token=1" && Ending(RETURN_FILE) == "\r";
    EqualSignAt("token=1", 5);
    assert Key(RETURN_FILE) == "token" && Value(RETURN_FILE) == "1";
    Utf8Bound(RETURN_FILE);
  }

  lemma PlainWords()
    ensures Strip("[password") == "[password" == LStrip("[password") && RStrip("1]") == "1]"
    ensures Strip("token") == "token" && Strip("1") == "1"
    ensures IsAssignment("[password", "1]", "")
  {
    hide Strip;
    StripTrimmed("[password");
    StripTrimmed("token");
    StripTrimmed("1");
  }
}
