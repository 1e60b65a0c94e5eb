/** What redacting a line-based file shows and hides, said of the lines themselves, and when a merge of
    such files is refused. */
module LineRedaction {
  import opened Common
  import opened TextLines
  import opened LineIni
  import opened LineIniRoundTrip

  /** The line assigns `value` to a name that the expression for secrets recognises. */
  ghost predicate AssignsSecret(names: Names, line: string, key: string, value: string, ending: string) {
    && line == key + "=" + value + ending && IsAssignment(key, value, ending)
    && names.sensitive(Strip(key))
  }

  ghost predicate HasSecret(names: Names, line: string) {
    exists key, value, ending :: AssignsSecret(names, line, key, value, ending)
  }

  /** Every break after a secret is one that is repeated. */
  ghost predicate OrdinaryBreaks(names: Names, lines: seq<string>) {
    forall i :: 0 <= i < |lines| ==> KeepsBreak(names, lines[i])
  }

  lemma SecretIsNamed(names: Names, line: string, key: string, value: string, ending: string)
    requires AssignsSecret(names, line, key, value, ending)
    ensures NamesSecret(names, line) && Key(line) == key && Value(line) == value && Tail(line) == ending == Ending(line)
    ensures RedactLine(names, line) == key + "=" + "\"\"" + ending
  {
    hide IsAssignment, Key, Value, Tail, Ending, Strip;
    AssignmentParts(key, value, ending);
  }

  lemma NamedIsSecret(names: Names, line: string)
    requires IsLine(line) && KeepsBreak(names, line)
    ensures NamesSecret(names, line) <==> HasSecret(names, line)
    ensures !HasSecret(names, line) ==> RedactLine(names, line) == line
  {
    hide IsLine, Key, Value, Tail, Ending, Strip, Unbroken;
    if NamesSecret(names, line) {
      LineParts(line);
      TailIsBreak(line);
      assert AssignsSecret(names, line, Key(line), Value(line), Ending(line));
    }
    if HasSecret(names, line) {
      var key, value, ending :| AssignsSecret(names, line, key, value, ending);
      SecretIsNamed(names, line, key, value, ending);
    }
  }

  /** A redacted file has the lines of the file: each that assigns a secret assigns the empty string to
      the same key, with the same line break, and every other one is the same to the byte. */
  lemma RedactionShows(names: Names, content: string)
    requires OrdinaryBreaks(names, SplitLines(content))
    ensures var lines, out := SplitLines(content), SplitLines(RedactGeneric(names, content));
            && |out| == |lines|
            && (forall i, key, value, ending :: 0 <= i < |lines| && AssignsSecret(names, lines[i], key, value, ending) ==>
                  AssignsSecret(names, out[i], key, "\"\"", ending))
            && (forall i :: 0 <= i < |lines| && !HasSecret(names, lines[i]) ==> out[i] == lines[i])
  {
    hide RedactLine, IsLine, KeepsBreak, AssignsSecret, HasSecret, SplitLines, Flatten, Rewrites;
    var lines := SplitLines(content);
    var out := RedactedLines(names, lines);
    SplitIsWell(content);
    RedactedRewrites(names, lines);
    RewriteSplits(lines, out);
    forall i, key, value, ending | 0 <= i < |lines| && AssignsSecret(names, lines[i], key, value, ending)
      ensures AssignsSecret(names, out[i], key, "\"\"", ending)
    {
      SecretEmptied(names, lines[i], key, value, ending);
    }
    forall i | 0 <= i < |lines| && !HasSecret(names, lines[i])
      ensures out[i] == lines[i]
    {
      NamedIsSecret(names, lines[i]);
    }
  }

  lemma SecretEmptied(names: Names, line: string, key: string, value: string, ending: string)
    requires AssignsSecret(names, line, key, value, ending)
    ensures AssignsSecret(names, RedactLine(names, line), key, "\"\"", ending)
  {
    hide RedactLine, Strip;
    SecretIsNamed(names, line, key, value, ending);
    QuotesStay();
  }

  /** An assignment whose line ends in any line break, or in none. */
  ghost predicate AssignsAnyhow(names: Names, line: string, key: string, value: string, ending: string) {
    && line == key + "=" + value + ending && names.sensitive(Strip(key))
    && (forall i :: 0 <= i < |key| ==> key[i] != '=') && Unbroken(key) && Unbroken(value)
    && (ending == "" || ending == "\r\n" || (|ending| == 1 && IsBreak(ending[0])))
  }

  /** What a secret becomes, whatever its value; a break other than the two usual ones is dropped. */
  lemma SecretRedacted(names: Names, line: string, key: string, value: string, ending: string)
    requires AssignsAnyhow(names, line, key, value, ending)
    ensures RedactLine(names, line) == key + "=" + "\"\"" + if ending == "\n" || ending == "\r\n" then ending else ""
  {
    hide Strip;
    assert line[|key|] == '=' && forall i :: 0 <= i < |key| ==> line[i] == key[i];
    EqualSignAt(line, |key|);
    assert line[..|key|] == key;
    EndOfLine(key + "=" + value, ending);
  }

  lemma EndOfLine(body: string, ending: string)
    requires body != "" && Unbroken(body)
    requires ending == "" || ending == "\r\n" || (|ending| == 1 && IsBreak(ending[0]))
    ensures Tail(body + ending) == if ending == "\n" || ending == "\r\n" then ending else ""
  {
    var line := body + ending;
    var last := body[|body| - 1];
    assert !IsBreak(last) && line[|body| - 1] == last;
    if ending == "\r\n" {
      assert line[|line| - 2..] == ending;
    } else if |line| >= 2 {
      assert line[|line| - 2..][0] == line[|line| - 2];
    }
  }

  /** Two lines that differ at most in the value they assign to the same secret. */
  ghost predicate SameButSecret(names: Names, a: string, b: string) {
    a == b || exists key, v, w, ending :: AssignsAnyhow(names, a, key, v, ending) && AssignsAnyhow(names, b, key, w, ending)
  }

  /** Nothing of a secret is left: files that differ only in the values of secrets have the same
      redaction. */
  lemma RedactionHides(names: Names, content: string, other: string)
    requires |SplitLines(content)| == |SplitLines(other)|
    requires forall i :: 0 <= i < |SplitLines(content)| ==> SameButSecret(names, SplitLines(content)[i], SplitLines(other)[i])
    ensures RedactGeneric(names, content) == RedactGeneric(names, other)
  {
    hide RedactLine, SameButSecret, SplitLines, Flatten;
    var a, b := SplitLines(content), SplitLines(other);
    forall i | 0 <= i < |a|
      ensures RedactLine(names, a[i]) == RedactLine(names, b[i])
    {
      SameRedactedLine(names, a[i], b[i]);
    }
    assert RedactedLines(names, a) == RedactedLines(names, b);
  }

  lemma SameRedactedLine(names: Names, a: string, b: string)
    requires SameButSecret(names, a, b)
    ensures RedactLine(names, a) == RedactLine(names, b)
  {
    hide RedactLine, AssignsAnyhow;
    if a != b {
      var key, v, w, ending :| AssignsAnyhow(names, a, key, v, ending) && AssignsAnyhow(names, b, key, w, ending);
      SecretRedacted(names, a, key, v, ending);
      SecretRedacted(names, b, key, w, ending);
    }
  }

  // ---- Merges ----

  /** The section of the lines so far is the last header among them, stripped. */
  lemma {:induction false} SectionIsLastHeader(lines: seq<string>)
    ensures (forall i :: 0 <= i < |lines| ==> !IsHeader(lines[i])) ==> Section(lines) == ""
    ensures forall i :: 0 <= i < |lines| && IsHeader(lines[i]) && (forall j :: i < j < |lines| ==> !IsHeader(lines[j])) ==>
              Section(lines) == Strip(lines[i])
  {
    hide IsHeader, Strip;
    if lines != [] {
      var n := |lines| - 1;
      SectionIsLastHeader(lines[..n]);
      assert forall i :: 0 <= i < n ==> lines[..n][i] == lines[i];
    }
  }

  /** What tells two secrets of a file apart: the folded section, which is the last header before them,
      and the folded key. */
  lemma IdentityIs(names: Names, lines: seq<string>, i: nat, h: nat, key: string, value: string, ending: string)
    requires i < |lines| && AssignsSecret(names, lines[i], key, value, ending)
    requires h < i && IsHeader(lines[h]) && forall j :: h < j < i ==> !IsHeader(lines[j])
    ensures IdAt(names, lines, i) == (names.fold(Strip(lines[h])), names.fold(Strip(key)))
  {
    hide IsHeader, Strip, Key, AssignsSecret;
    SecretIsNamed(names, lines[i], key, value, ending);
    SectionIsLastHeader(lines[..i]);
    assert lines[..i][h] == lines[h] && forall j :: 0 <= j < i ==> lines[..i][j] == lines[j];
  }

  /** When a merge is refused, and why: the current file is over a mebibyte, repeats a secret or has a
      blank one; otherwise the backup repeats a secret or names one that the current file does not have,
      or the result is over a mebibyte. */
  lemma MergeRefusedIff(names: Names, backup: string, current: string)
    ensures var lines, b := SplitLines(current), SplitLines(backup);
            && (MergeGeneric(names, backup, current) == Err(CurrentInvalid) <==>
                  || Utf8Length(current) > 1048576 || !Distinct(names, lines)
                  || exists i :: 0 <= i < |lines| && Secret(names, lines[i]) && Strip(Value(lines[i])) == "")
            && (MergeGeneric(names, backup, current) == Err(MergeUnsafe) <==>
                  && Values(names, lines).Some? && Utf8Length(current) <= 1048576
                  && (|| !Distinct(names, b)
                      || (exists i :: 0 <= i < |b| && Secret(names, b[i]) && !SomeSecret(names, lines, IdAt(names, b, i)))
                      || (var merged := MergedLines(names, Values(names, lines).value, b);
                          merged.Some? && Utf8Length(Flatten(merged.value.out)) > 1048576)))
  {
    hide SplitLines, Utf8Length, Distinct, SomeSecret, IdAt, Secret, Value, Strip, Values, MergedLines, Flatten;
    var lines, b := SplitLines(current), SplitLines(backup);
    ValuesOf(names, lines);
    if Values(names, lines).Some? {
      MergedOf(names, Values(names, lines).value, b);
    }
  }
}
