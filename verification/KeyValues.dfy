/** Steam's KeyValues text as the update checker reads it: the tokenizer and the recursive parser. */
module KeyValues {
  import opened Common

  datatype Value = Leaf(text: string) | Node(entries: map<string, Value>)

  datatype KeyValuesError = Malformed | Incomplete

  // ---- Tokens ----

  predicate IsBrace(t: string) {
    t == "{" || t == "}"
  }

  /** Where a run of bare text ends: at a line break, a brace or a quote. */
  predicate EndsBare(c: char) {
    c == '\n' || c == '\r' || c == '{' || c == '}' || c == '"'
  }

  function Bare(s: string): (n: nat)
    ensures n <= |s| && (n < |s| ==> EndsBare(s[n])) && forall i :: 0 <= i < n ==> !EndsBare(s[i])
  {
    if s == "" || EndsBare(s[0]) then 0 else 1 + Bare(s[1..])
  }

  datatype Quoted = Quoted(text: string, length: nat)

  /** The text after an opening quote, and how much of `s` it takes with the closing one. */
  function ReadQuoted(s: string): (r: Option<Quoted>)
    ensures r.Some? ==> r.value.length <= |s|
  {
    if s == "" then None
    else if s[0] == '"' then Some(Quoted("", 1))
    else
      var skip := if s[0] == '\\' && |s| > 1 then 1 else 0;
      match ReadQuoted(s[skip + 1..])
      case None => None
      case Some(q) => Some(Quoted([s[skip]] + q.text, q.length + skip + 1))
  }

  function Prepend(token: string, rest: Option<seq<string>>): Option<seq<string>> {
    if rest.None? then None else Some([token] + rest.value)
  }

  /** `None` when a quote is never closed. */
  function Tokens(s: string): Option<seq<string>>
    decreases |s|
  {
    if s == "" then Some([])
    else if IsSpace(s[0]) then Tokens(s[1..])
    else if s[0] == '{' || s[0] == '}' then Prepend([s[0]], Tokens(s[1..]))
    else if s[0] != '"' then Tokens(s[Bare(s)..])
    else
      match ReadQuoted(s[1..])
      case None => None
      case Some(q) => Prepend(q.text, Tokens(s[1 + q.length..]))
  }

  // ---- Values ----

  /** `_parse_keyvalue_value`: a value and the index after it. */
  function ParseValue(tokens: seq<string>, i: nat): (r: Result<(Value, nat), KeyValuesError>)
    requires i < |tokens|
    ensures r.Ok? ==> i < r.value.1 <= |tokens|
    decreases |tokens| - i, 0
  {
    if tokens[i] != "{" then Ok((Leaf(tokens[i]), i + 1)) else ParseBlock(tokens, i + 1, map[])
  }

  /** The loop over the entries of a block. */
  function ParseBlock(tokens: seq<string>, i: nat, entries: map<string, Value>): (r: Result<(Value, nat), KeyValuesError>)
    requires i <= |tokens|
    ensures r.Ok? ==> i < r.value.1 <= |tokens|
    decreases |tokens| - i, 1
  {
    if i == |tokens| then Err(Incomplete)
    else if tokens[i] == "}" then Ok((Node(entries), i + 1))
    else if tokens[i] == "{" then Err(Malformed)
    else if i + 1 == |tokens| then Err(Incomplete)
    else
      match ParseValue(tokens, i + 1)
      case Err(e) => Err(e)
      case Ok(next) => ParseBlock(tokens, next.1, entries[tokens[i] := next.0])
  }

  /** The loop of `parse_keyvalues`, which skips stray braces and a last key without a value. */
  function ParseRoot(tokens: seq<string>, i: nat, entries: map<string, Value>): Result<map<string, Value>, KeyValuesError>
    requires i <= |tokens|
    decreases |tokens| - i
  {
    if i == |tokens| then Ok(entries)
    else if IsBrace(tokens[i]) || i + 1 == |tokens| then ParseRoot(tokens, i + 1, entries)
    else
      match ParseValue(tokens, i + 1)
      case Err(e) => Err(e)
      case Ok(next) => ParseRoot(tokens, next.1, entries[tokens[i] := next.0])
  }

  function ParseKeyValues(content: string): Result<map<string, Value>, KeyValuesError> {
    match Tokens(content)
    case None => Err(Malformed)
    case Some(tokens) => ParseRoot(tokens, 0, map[])
  }

  // ---- The loops ----

  method Tokenize(content: string) returns (r: Option<seq<string>>)
    ensures r == Tokens(content)
  {
    hide IsSpace, ReadQuoted, Tokens, EndsBare;
    var tokens: seq<string> := [];
    var index := 0;
    assert content[0..] == content;
    AfterNone(Tokens(content));
    while index < |content|
      invariant index <= |content|
      invariant Tokens(content) == After(tokens, Tokens(content[index..]))
    {
      var character := content[index];
      TokensAt(content, index);
      if IsSpace(character) {
        index := index + 1;
      } else if character == '{' || character == '}' {
        AfterToken(tokens, [character], Tokens(content[index + 1..]));
        tokens := tokens + [[character]];
        index := index + 1;
      } else if character != '"' {
        ghost var start := index;
        NotEndsBare(character);
        while index < |content| && !EndsBare(content[index])
          invariant start <= index <= |content|
          invariant forall i :: start <= i < index ==> !EndsBare(content[i])
        {
          index := index + 1;
        }
        BareIs(content, start, index);
      } else {
        var quoted := ReadQuotedText(content, index + 1);
        if quoted.None? {
          return None;
        }
        AfterToken(tokens, quoted.value.text, Tokens(content[index + 1 + quoted.value.length..]));
        tokens := tokens + [quoted.value.text];
        index := index + 1 + quoted.value.length;
      }
    }
    assert content[index..] == "";
    NoTokens();
    assert tokens + [] == tokens;
    return Some(tokens);
  }

  /** The tokens read so far, then the rest. */
  function After(tokens: seq<string>, rest: Option<seq<string>>): Option<seq<string>> {
    if rest.None? then None else Some(tokens + rest.value)
  }

  lemma AfterNone(rest: Option<seq<string>>)
    ensures After([], rest) == rest
  {
    if rest.Some? {
      assert [] + rest.value == rest.value;
    }
  }

  lemma AfterToken(tokens: seq<string>, token: string, rest: Option<seq<string>>)
    ensures After(tokens, Prepend(token, rest)) == After(tokens + [token], rest)
  {
    if rest.Some? {
      assert tokens + ([token] + rest.value) == (tokens + [token]) + rest.value;
    }
  }

  lemma NotEndsBare(c: char)
    requires !IsSpace(c) && c != '{' && c != '}' && c != '"'
    ensures !EndsBare(c)
  {
  }

  lemma BareIs(content: string, start: nat, end: nat)
    requires start <= end <= |content| && (end < |content| ==> EndsBare(content[end]))
    requires forall i :: start <= i < end ==> !EndsBare(content[i])
    ensures Bare(content[start..]) == end - start
  {
    hide EndsBare;
    var n := Bare(content[start..]);
    assert start + n < |content| ==> content[start..][n] == content[start + n];
    assert end < |content| ==> content[start..][end - start] == content[end];
  }

  /** One turn of the tokenizer. */
  lemma TokensAt(content: string, index: nat)
    requires index < |content|
    ensures var c, rest := content[index], Tokens(content[index..]);
            && (IsSpace(c) ==> rest == Tokens(content[index + 1..]))
            && (c == '{' || c == '}' ==> rest == Prepend([c], Tokens(content[index + 1..])))
            && (!IsSpace(c) && c != '{' && c != '}' && c != '"' ==>
                  index + Bare(content[index..]) <= |content| && rest == Tokens(content[index + Bare(content[index..])..]))
            && (c == '"' ==>
                  match ReadQuoted(content[index + 1..])
                  case None => rest == None
                  case Some(q) => rest == Prepend(q.text, Tokens(content[index + 1 + q.length..])))
  {
    hide ReadQuoted;
    var rest := content[index..];
    Drop(content, index, 1);
    if content[index] == '"' {
      var quoted := ReadQuoted(content[index + 1..]);
      if quoted.Some? {
        Drop(content, index, 1 + quoted.value.length);
      }
    } else {
      Drop(content, index, Bare(rest));
    }
  }

  lemma Drop(content: string, index: nat, n: nat)
    requires index + n <= |content|
    ensures content[index..][n..] == content[index + n..]
  {
  }

  lemma NoTokens()
    ensures Tokens("") == Some([])
  {
  }

  /** The inner loop over a quoted text that starts at `start`. */
  method ReadQuotedText(content: string, start: nat) returns (r: Option<Quoted>)
    requires start <= |content|
    ensures r == ReadQuoted(content[start..])
  {
    hide ReadQuoted;
    var index := start;
    var value: string := "";
    LongerNone(ReadQuoted(content[start..]));
    while index < |content| && content[index] != '"'
      invariant start <= index <= |content|
      invariant ReadQuoted(content[start..]) == Longer(value, index - start, ReadQuoted(content[index..]))
    {
      LongerStep(content, start, index, value);
      if content[index] == '\\' && index + 1 < |content| {
        index := index + 1;
      }
      value := value + [content[index]];
      index := index + 1;
    }
    QuotedEnd(content[index..]);
    if index >= |content| {
      return None;
    }
    assert value + "" == value;
    return Some(Quoted(value, index - start + 1));
  }

  lemma LongerNone(rest: Option<Quoted>)
    ensures Longer("", 0, rest) == rest
  {
    if rest.Some? {
      assert "" + rest.value.text == rest.value.text;
    }
  }

  lemma QuotedEnd(rest: string)
    ensures rest == "" ==> ReadQuoted(rest).None?
    ensures rest != "" && rest[0] == '"' ==> ReadQuoted(rest) == Some(Quoted("", 1))
  {
  }

  lemma LongerStep(content: string, start: nat, index: nat, value: string)
    requires start <= index < |content| && content[index] != '"'
    ensures var at := if content[index] == '\\' && index + 1 < |content| then index + 1 else index;
            Longer(value, index - start, ReadQuoted(content[index..])) ==
            Longer(value + [content[at]], at + 1 - start, ReadQuoted(content[at + 1..]))
  {
    var rest := content[index..];
    var skip := if rest[0] == '\\' && |rest| > 1 then 1 else 0;
    assert rest[skip + 1..] == content[index + skip + 1..] && rest[skip] == content[index + skip];
    var next := ReadQuoted(content[index + skip + 1..]);
    if next.Some? {
      assert value + ([rest[skip]] + next.value.text) == (value + [rest[skip]]) + next.value.text;
    }
  }

  function Longer(value: string, n: nat, rest: Option<Quoted>): Option<Quoted> {
    if rest.None? then None else Some(Quoted(value + rest.value.text, n + rest.value.length))
  }

  method ParseKeyValue(tokens: seq<string>, start: nat) returns (r: Result<(Value, nat), KeyValuesError>)
    requires start < |tokens|
    ensures r == ParseValue(tokens, start)
    decreases |tokens| - start
  {
    var index := start;
    if tokens[index] != "{" {
      return Ok((Leaf(tokens[index]), index + 1));
    }
    var result: map<string, Value> := map[];
    index := index + 1;
    while index < |tokens| && tokens[index] != "}"
      invariant start < index <= |tokens|
      invariant ParseValue(tokens, start) == ParseBlock(tokens, index, result)
      decreases |tokens| - index
    {
      var key := tokens[index];
      if key == "{" {
        return Err(Malformed);
      }
      if index + 1 >= |tokens| {
        return Err(Incomplete);
      }
      var value := ParseKeyValue(tokens, index + 1);
      if value.Err? {
        return Err(value.error);
      }
      result := result[key := value.value.0];
      index := value.value.1;
    }
    if index >= |tokens| {
      return Err(Incomplete);
    }
    return Ok((Node(result), index + 1));
  }

  method ParseText(content: string) returns (r: Result<map<string, Value>, KeyValuesError>)
    ensures r == ParseKeyValues(content)
  {
    var tokens := Tokenize(content);
    if tokens.None? {
      return Err(Malformed);
    }
    var root: map<string, Value> := map[];
    var index := 0;
    while index < |tokens.value|
      invariant index <= |tokens.value|
      invariant ParseKeyValues(content) == ParseRoot(tokens.value, index, root)
    {
      var key := tokens.value[index];
      if IsBrace(key) || index + 1 >= |tokens.value| {
        index := index + 1;
      } else {
        var value := ParseKeyValue(tokens.value, index + 1);
        if value.Err? {
          return Err(value.error);
        }
        root := root[key := value.value.0];
        index := value.value.1;
      }
    }
    return Ok(root);
  }
}
