/** Other configuration files, handled line by line: redacting the secrets of a backup, and putting
    the current secrets back when the backup is restored. */
module LineIni {
  import opened Common
  import opened TextLines

  const MAX_GENERIC_CONFIG_BYTES: nat := 1024 * 1024

  /** The expression that recognises the names of secrets, and `str.casefold`. */
  datatype Names = Names(sensitive: string -> bool, fold: string -> string)

  type Identity = (string, string)

  datatype LineError = CurrentInvalid | MergeUnsafe

  // ---- One line ----

  function EqualSign(line: string): (n: nat)
    ensures n <= |line| && (n < |line| ==> line[n] == '=') && forall i :: 0 <= i < n ==> line[i] != '='
  {
    if line == "" then 0 else if line[0] == '=' then 0 else 1 + EqualSign(line[1..])
  }

  function Key(line: string): string {
    line[..EqualSign(line)]
  }

  /** What follows the `=`, without the line break. */
  function Value(line: string): string {
    var body := Body(line);
    if EqualSign(body) < |body| then body[EqualSign(body) + 1..] else ""
  }

  predicate Assigns(line: string) {
    EqualSign(line) < |line|
  }

  predicate IsHeader(line: string) {
    var stripped := Strip(line);
    stripped != "" && stripped[0] == '[' && stripped[|stripped| - 1] == ']'
  }

  predicate NamesSecret(names: Names, line: string) {
    Assigns(line) && names.sensitive(Strip(Key(line)))
  }

  predicate Secret(names: Names, line: string) {
    !IsHeader(line) && NamesSecret(names, line)
  }

  /** The line break as the two writers repeat it. */
  function Tail(line: string): string {
    if |line| >= 2 && line[|line| - 2..] == "\r\n" then "\r\n"
    else if line != "" && line[|line| - 1] == '\n' then "\n"
    else ""
  }

  function RedactLine(names: Names, line: string): string {
    if NamesSecret(names, line) then Key(line) + "=" + "\"\"" + Tail(line) else line
  }

  // ---- A whole file ----

  function Section(lines: seq<string>): string {
    if lines == [] then ""
    else
      var last := lines[|lines| - 1];
      if IsHeader(last) then Strip(last) else Section(lines[..|lines| - 1])
  }

  function IdentityOf(names: Names, section: string, line: string): Identity {
    (names.fold(section), names.fold(Strip(Key(line))))
  }

  function IdAt(names: Names, lines: seq<string>, i: nat): Identity
    requires i < |lines|
  {
    IdentityOf(names, Section(lines[..i]), lines[i])
  }

  function Values(names: Names, lines: seq<string>): Option<map<Identity, string>> {
    if lines == [] then Some(map[])
    else
      var n := |lines| - 1;
      var rest := Values(names, lines[..n]);
      if rest.None? || !Secret(names, lines[n]) then rest
      else if IdAt(names, lines, n) in rest.value || Strip(Value(lines[n])) == "" then None
      else Some(rest.value[IdAt(names, lines, n) := Value(lines[n])])
  }

  function SensitiveValues(names: Names, content: string): Option<map<Identity, string>> {
    if Utf8Length(content) > MAX_GENERIC_CONFIG_BYTES then None else Values(names, SplitLines(content))
  }

  datatype Progress = Progress(seen: set<Identity>, out: seq<string>)

  function MergedLines(names: Names, values: map<Identity, string>, lines: seq<string>): Option<Progress> {
    if lines == [] then Some(Progress({}, []))
    else
      var n := |lines| - 1;
      var rest := MergedLines(names, values, lines[..n]);
      if rest.None? then None
      else if !Secret(names, lines[n]) then Some(Progress(rest.value.seen, rest.value.out + [lines[n]]))
      else
        var id := IdAt(names, lines, n);
        if id in rest.value.seen || id !in values then None
        else Some(Progress(rest.value.seen + {id}, rest.value.out + [Key(lines[n]) + "=" + values[id] + Tail(lines[n])]))
  }

  function MergeGeneric(names: Names, backup: string, current: string): Result<string, LineError> {
    var values := SensitiveValues(names, current);
    if values.None? then Err(CurrentInvalid)
    else
      var merged := MergedLines(names, values.value, SplitLines(backup));
      if merged.None? || Utf8Length(Flatten(merged.value.out)) > MAX_GENERIC_CONFIG_BYTES then Err(MergeUnsafe)
      else Ok(Flatten(merged.value.out))
  }

  function RedactedLines(names: Names, lines: seq<string>): (r: seq<string>)
    ensures |r| == |lines| && forall i :: 0 <= i < |r| ==> r[i] == RedactLine(names, lines[i])
  {
    seq(|lines|, i requires 0 <= i < |lines| => RedactLine(names, lines[i]))
  }

  function RedactGeneric(names: Names, content: string): string {
    Flatten(RedactedLines(names, SplitLines(content)))
  }

  // ---- The loops ----

  method RedactGenericIni(names: Names, content: string) returns (r: string)
    ensures r == RedactGeneric(names, content)
  {
    hide NamesSecret, Key, Tail;
    var lines := SplitLines(content);
    var out: seq<string> := [];
    for i := 0 to |lines|
      invariant out == RedactedLines(names, lines)[..i]
    {
      var line := lines[i];
      if NamesSecret(names, line) {
        out := out + [Key(line) + "=" + "\"\"" + Tail(line)];
      } else {
        out := out + [line];
      }
    }
    assert out == RedactedLines(names, lines);
    return Flatten(out);
  }

  /** Here the lines come without their line breaks. */
  method GenericSensitiveValues(names: Names, content: string) returns (r: Option<map<Identity, string>>)
    ensures r == SensitiveValues(names, content)
  {
    hide IsHeader, NamesSecret, Key, Value, Strip, Body, IsLine, WellSplit;
    var size := Utf8Size(content);
    if size > MAX_GENERIC_CONFIG_BYTES {
      return None;
    }
    var lines := SplitLines(content);
    SplitIsWell(content);
    var result: map<Identity, string> := map[];
    var section := "";
    for i := 0 to |lines|
      invariant section == Section(lines[..i]) && Values(names, lines[..i]) == Some(result)
    {
      var line := Body(lines[i]);
      LineOf(lines, i);
      BodyReads(names, lines[i]);
      Prefix(lines, i);
      if IsHeader(line) {
        section := Strip(line);
      } else if NamesSecret(names, line) {
        var id := IdentityOf(names, section, line);
        if id in result || Strip(Value(line)) == "" {
          ValuesFail(names, lines, i + 1);
          return None;
        }
        result := result[id := Value(line)];
      }
    }
    assert lines[..|lines|] == lines;
    return Some(result);
  }

  method MergeGenericIni(names: Names, backup: string, current: string) returns (r: Result<string, LineError>)
    ensures r == MergeGeneric(names, backup, current)
  {
    hide IsHeader, NamesSecret, Key, Value, Strip, Tail, SensitiveValues, Utf8Length;
    var lines := SplitLines(backup);
    var values := GenericSensitiveValues(names, current);
    if values.None? {
      return Err(CurrentInvalid);
    }
    var seen: set<Identity> := {};
    var out: seq<string> := [];
    var section := "";
    for i := 0 to |lines|
      invariant section == Section(lines[..i]) && MergedLines(names, values.value, lines[..i]) == Some(Progress(seen, out))
    {
      var line := lines[i];
      Prefix(lines, i);
      if IsHeader(line) {
        section := Strip(line);
        out := out + [line];
      } else if NamesSecret(names, line) {
        var id := IdentityOf(names, section, line);
        if id in seen || id !in values.value {
          MergeFails(names, values.value, lines, i + 1);
          return Err(MergeUnsafe);
        }
        seen := seen + {id};
        out := out + [Key(line) + "=" + values.value[id] + Tail(line)];
      } else {
        out := out + [line];
      }
    }
    assert lines[..|lines|] == lines;
    var merged := Flatten(out);
    var size := Utf8Size(merged);
    return if size > MAX_GENERIC_CONFIG_BYTES then Err(MergeUnsafe) else Ok(merged);
  }

  lemma LineOf(lines: seq<string>, i: nat)
    requires WellSplit(lines) && i < |lines|
    ensures IsLine(lines[i])
  {
  }

  /** Without its line break a line reads the same: the same header, key, secret and value. */
  lemma BodyReads(names: Names, line: string)
    requires IsLine(line)
    ensures Strip(Body(line)) == Strip(line) && IsHeader(Body(line)) == IsHeader(line)
    ensures NamesSecret(names, Body(line)) == NamesSecret(names, line)
    ensures NamesSecret(names, line) ==> Key(Body(line)) == Key(line) && Value(Body(line)) == Value(line)
  {
    hide Strip, Body, EqualSign, IsLine;
    StripBody(line);
    BodyOfBody(line);
    SameEqualSign(line);
  }

  lemma SameEqualSign(line: string)
    requires IsLine(line)
    ensures Assigns(Body(line)) == Assigns(line)
    ensures Assigns(line) ==> Key(Body(line)) == Key(line)
  {
    hide IsBreak;
    var n, body := EqualSign(line), Body(line);
    assert forall i :: 0 <= i < |body| ==> body[i] == line[i];
    if n < |body| {
      EqualSignAt(body, n);
    } else if n < |line| {
      EndingIsBreaks(line, n);
      EqualSignIsNoBreak();
    }
  }

  lemma EqualSignIsNoBreak()
    ensures !IsBreak('=')
  {
  }

  lemma StripBody(line: string)
    ensures Strip(line) == Strip(Body(line))
  {
    hide Strip, IsSpace, Body, Ending;
    var pre, post := StripParts(Body(line));
    var core := Strip(Body(line));
    BodyAndEnding(line);
    EndingIsSpace(line);
    assert line == pre + core + (post + Ending(line));
    StripOf(pre, core, post + Ending(line));
  }

  lemma BodyAndEnding(line: string)
    ensures line == Body(line) + Ending(line)
  {
  }

  lemma BodyOfBody(line: string)
    requires IsLine(line)
    ensures Body(Body(line)) == Body(line)
  {
    var body := Body(line);
    assert body != "" ==> !IsBreak(body[|body| - 1]);
    assert |body| >= 2 ==> !IsBreak(body[|body| - 2]);
  }

  lemma EndingIsSpace(line: string)
    ensures AllSpace(Ending(line)) && AllSpace(Tail(line))
  {
  }

  lemma EndingIsBreaks(line: string, n: nat)
    requires |Body(line)| <= n < |line|
    ensures IsBreak(line[n])
  {
  }

  lemma EqualSignAt(line: string, n: nat)
    requires n < |line| && line[n] == '=' && forall i :: 0 <= i < n ==> line[i] != '='
    ensures EqualSign(line) == n
  {
  }

  lemma Prefix(lines: seq<string>, i: nat)
    requires i < |lines|
    ensures lines[..i + 1] != [] && lines[..i + 1][..i] == lines[..i] && lines[..i + 1][i] == lines[i]
  {
  }

  lemma {:induction false} ValuesFail(names: Names, lines: seq<string>, n: nat)
    requires n <= |lines| && Values(names, lines[..n]).None?
    ensures Values(names, lines).None?
    decreases |lines| - n
  {
    if n == |lines| {
      assert lines[..n] == lines;
    } else {
      Prefix(lines, n);
      ValuesFail(names, lines, n + 1);
    }
  }

  lemma {:induction false} MergeFails(names: Names, values: map<Identity, string>, lines: seq<string>, n: nat)
    requires n <= |lines| && MergedLines(names, values, lines[..n]).None?
    ensures MergedLines(names, values, lines).None?
    decreases |lines| - n
  {
    if n == |lines| {
      assert lines[..n] == lines;
    } else {
      Prefix(lines, n);
      MergeFails(names, values, lines, n + 1);
    }
  }
}
