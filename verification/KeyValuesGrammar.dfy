/** Which KeyValues texts are read, and what every other text is refused for. */
module KeyValuesGrammar {
  import opened Common
  import opened KeyValues
  import opened KeyValuesRoundTrip

  // ---- Tokens ----

  predicate Written(items: seq<Item>, noise: seq<string>) {
    && |noise| == |items| + 1
    && (forall i :: 0 <= i < |noise| ==> Noise(noise[i]))
    && forall i :: 0 <= i < |items| && items[i].Quote? ==> Spells(items[i].word.spelling, items[i].word.text)
  }

  /** One character of a quoted text, with the backslash before it if there is one. */
  lemma QuotedTurn(s: string)
    requires ReadQuoted(s).Some? && s[0] != '"'
    ensures var n, q := if s[0] == '\\' then 2 else 1, ReadQuoted(s).value;
            && n < |s| && ReadQuoted(s[n..]).Some?
            && var rest := ReadQuoted(s[n..]).value;
               q.text == [s[n - 1]] + rest.text && q.length == n + rest.length
  {
  }

  lemma SpellsMore(s: string, spelling: string, text: string)
    requires s != "" && s[0] != '"' && Spells(spelling, text)
    requires s[0] == '\\' ==> |s| > 1
    ensures var n := if s[0] == '\\' then 2 else 1; Spells(s[..n] + spelling, [s[n - 1]] + text)
  {
    var n := if s[0] == '\\' then 2 else 1;
    assert (s[..n] + spelling)[n..] == spelling && ([s[n - 1]] + text)[1..] == text;
  }

  lemma {:induction false} SpellingOf(s: string) returns (spelling: string)
    requires ReadQuoted(s).Some?
    ensures var q := ReadQuoted(s).value;
            && q.length == |spelling| + 1 <= |s| && Spells(spelling, q.text)
            && s == spelling + ("\"" + s[q.length..])
    decreases |s|
  {
    hide Spells;
    if s[0] == '"' {
      spelling := "";
      NothingSpelled();
      assert s == "\"" + s[1..];
    } else {
      var n := if s[0] == '\\' then 2 else 1;
      QuotedTurn(s);
      hide ReadQuoted;
      var tail := SpellingOf(s[n..]);
      var rest := ReadQuoted(s[n..]).value;
      SpellsMore(s, tail, rest.text);
      spelling := s[..n] + tail;
      SameTail(s, n, tail, rest.length);
    }
  }

  lemma NothingSpelled()
    ensures Spells("", "")
  {
  }

  lemma SameTail(s: string, n: nat, tail: string, m: nat)
    requires n + m <= |s| && s[n..] == tail + ("\"" + s[n..][m..])
    ensures s == (s[..n] + tail) + ("\"" + s[n + m..])
  {
    assert s[n..][m..] == s[n + m..];
    assert s == s[..n] + s[n..];
  }

  lemma PrintMore(t: string, items: seq<Item>, noise: seq<string>)
    requires Written(items, noise) && Noise(t)
    ensures Written(items, [t + noise[0]] + noise[1..])
    ensures Print(items, [t + noise[0]] + noise[1..]) == t + Print(items, noise)
  {
    var more := [t + noise[0]] + noise[1..];
    assert more[1..] == noise[1..];
  }

  lemma PrintItem(item: Item, items: seq<Item>, noise: seq<string>)
    requires Written(items, noise)
    requires item.Quote? ==> Spells(item.word.spelling, item.word.text)
    ensures Written([item] + items, [""] + noise)
    ensures Print([item] + items, [""] + noise) == ItemText(item) + Print(items, noise)
    ensures AllTokens([item] + items) == [Token(item)] + AllTokens(items)
  {
    hide Written, Spells, Noise, AllTokens, ItemText;
    WrittenMore(item, items, noise);
    TokensMore(item, items);
    assert ([item] + items)[1..] == items && ([""] + noise)[1..] == noise;
    PrintFirst([item] + items, [""] + noise);
    assert "" + (ItemText(item) + Print(items, noise)) == ItemText(item) + Print(items, noise);
  }

  lemma PrintFirst(items: seq<Item>, noise: seq<string>)
    requires items != [] && |noise| == |items| + 1
    ensures Print(items, noise) == noise[0] + (ItemText(items[0]) + Print(items[1..], noise[1..]))
  {
  }

  lemma TokensMore(item: Item, items: seq<Item>)
    ensures AllTokens([item] + items) == [Token(item)] + AllTokens(items)
  {
    hide Token;
  }

  lemma WrittenMore(item: Item, items: seq<Item>, noise: seq<string>)
    requires Written(items, noise)
    requires item.Quote? ==> Spells(item.word.spelling, item.word.text)
    ensures Written([item] + items, [""] + noise) && |noise| == |items| + 1
  {
    hide Spells, Noise;
    NoNoise();
    var more, gaps := [item] + items, [""] + noise;
    forall i | 0 <= i < |gaps|
      ensures Noise(gaps[i])
    {
      assert gaps[i] == if i == 0 then "" else noise[i - 1];
    }
    forall i | 0 <= i < |more| && more[i].Quote?
      ensures Spells(more[i].word.spelling, more[i].word.text)
    {
      assert more[i] == if i == 0 then item else items[i - 1];
    }
  }

  lemma NoNoise()
    ensures Noise("")
  {
  }

  /** What the tokenizer skips at once. */
  lemma BareIsNoise(s: string)
    requires s != "" && s[0] != '"' && s[0] != '{' && s[0] != '}'
    ensures Noise(s[..1]) && Noise(s[..Bare(s)])
  {
  }

  lemma BareMoves(s: string)
    requires s != "" && !IsSpace(s[0]) && s[0] != '"' && s[0] != '{' && s[0] != '}'
    ensures 0 < Bare(s)
  {
  }

  lemma {:induction false} ItemsOf(s: string) returns (items: seq<Item>, noise: seq<string>)
    requires Tokens(s).Some?
    ensures Written(items, noise) && s == Print(items, noise) && Tokens(s) == Some(AllTokens(items))
    decreases |s|
  {
    hide Bare, ReadQuoted, IsSpace, Noise, Spells, Print, AllTokens, Tokens;
    QuoteIsNoSpace();
    if s != "" {
      assert s[0..] == s;
      TokensAt(s, 0);
    }
    if s == "" {
      items, noise := [], [""];
      EmptyPrint();
      NoTokens();
    } else if s[0] == '{' || s[0] == '}' {
      var item := if s[0] == '{' then Open else Close;
      var more, gaps := ItemsOf(s[1..]);
      PrintItem(item, more, gaps);
      assert s == ItemText(item) + s[1..];
      items, noise := [item] + more, [""] + gaps;
    } else if s[0] == '"' {
      var q := ReadQuoted(s[1..]).value;
      var spelling := SpellingOf(s[1..]);
      var item := Quote(Word(q.text, spelling));
      var more, gaps := ItemsOf(s[1 + q.length..]);
      PrintItem(item, more, gaps);
      assert s[1..][q.length..] == s[1 + q.length..];
      assert s == "\"" + s[1..];
      items, noise := [item] + more, [""] + gaps;
    } else {
      BareIsNoise(s);
      if !IsSpace(s[0]) {
        BareMoves(s);
      }
      var n := if IsSpace(s[0]) then 1 else Bare(s);
      var more, gaps := ItemsOf(s[n..]);
      PrintMore(s[..n], more, gaps);
      assert s == s[..n] + s[n..];
      items, noise := more, [s[..n] + gaps[0]] + gaps[1..];
    }
  }

  lemma EmptyPrint()
    ensures Written([], [""]) && Print([], [""]) == "" && AllTokens([]) == []
  {
  }

  lemma QuoteIsNoSpace()
    ensures !IsSpace('"') && !IsSpace('{') && !IsSpace('}')
  {
  }

  /** A text has tokens exactly when it is quoted texts and braces with noise around them; a text with a
      quote that is never closed is not. */
  lemma TokensIff(content: string, tokens: seq<string>)
    ensures Tokens(content) == Some(tokens) <==>
            exists items, noise :: Written(items, noise) && content == Print(items, noise) && tokens == AllTokens(items)
  {
    hide Tokens, AllTokens, Print;
    if Tokens(content) == Some(tokens) {
      var items, noise := ItemsOf(content);
    }
    forall items, noise | Written(items, noise) && content == Print(items, noise) && tokens == AllTokens(items)
      ensures Tokens(content) == Some(tokens)
    {
      TokensOfPrint(items, noise);
    }
  }

  // ---- Values ----

  /** The tokens of a tree stand in `tokens` from `i` to `j`. */
  predicate Covers(tokens: seq<string>, i: nat, j: nat, items: seq<Item>) {
    i + |items| == j <= |tokens| && forall k :: 0 <= k < |items| ==> tokens[i + k] == Token(items[k])
  }

  lemma CoversHas(tokens: seq<string>, i: nat, j: nat, items: seq<Item>)
    ensures Covers(tokens, i, j, items) <==> j == i + |items| && Has(tokens, i, AllTokens(items))
  {
    if Covers(tokens, i, j, items) {
      assert tokens[i..j] == AllTokens(items);
    }
    if j == i + |items| && Has(tokens, i, AllTokens(items)) {
      assert forall k :: 0 <= k < |items| ==> tokens[i + k] == tokens[i..j][k];
    }
  }

  lemma CoversBoth(tokens: seq<string>, i: nat, j: nat, k: nat, a: seq<Item>, b: seq<Item>)
    requires Covers(tokens, i, j, a) && Covers(tokens, j, k, b)
    ensures Covers(tokens, i, k, a + b)
  {
  }

  lemma CoversOne(tokens: seq<string>, i: nat, item: Item)
    requires i < |tokens| && tokens[i] == Token(item)
    ensures Covers(tokens, i, i + 1, [item])
  {
  }

  lemma {:induction false} TreeOf(tokens: seq<string>, i: nat) returns (tree: Tree)
    requires i < |tokens| && ParseValue(tokens, i).Ok?
    ensures Clean(tree) && Meaning(tree) == ParseValue(tokens, i).value.0
    ensures Covers(tokens, i, ParseValue(tokens, i).value.1, Items(tree))
    decreases |tokens| - i, 0
  {
    hide Covers, ParseBlock, MeaningOf, AllClean, AllItems;
    if tokens[i] != "{" {
      tree := Text(Word(tokens[i], ""));
      CoversOne(tokens, i, Quote(tree.word));
    } else {
      var entries := EntriesFrom(tokens, i + 1, map[]);
      var end := ParseValue(tokens, i).value.1;
      CoversOne(tokens, i, Open);
      CoversBoth(tokens, i, i + 1, end, [Open], AllItems(entries) + [Close]);
      tree := Branch(entries);
    }
  }

  lemma BlockTurn(tokens: seq<string>, i: nat, before: map<string, Value>)
    requires i <= |tokens| && ParseBlock(tokens, i, before).Ok?
    ensures i < |tokens|
    ensures tokens[i] == "}" ==> ParseBlock(tokens, i, before) == Ok((Node(before), i + 1))
    ensures tokens[i] != "}" ==>
              && !IsBrace(tokens[i]) && i + 1 < |tokens| && ParseValue(tokens, i + 1).Ok?
              && var next := ParseValue(tokens, i + 1).value;
                 ParseBlock(tokens, i, before) == ParseBlock(tokens, next.1, before[tokens[i] := next.0])
  {
    hide ParseValue;
  }

  lemma {:induction false} EntriesFrom(tokens: seq<string>, i: nat, before: map<string, Value>) returns (entries: Entries)
    requires i <= |tokens| && ParseBlock(tokens, i, before).Ok?
    ensures AllClean(entries) && Node(MeaningOf(entries, before)) == ParseBlock(tokens, i, before).value.0
    ensures Covers(tokens, i, ParseBlock(tokens, i, before).value.1, AllItems(entries) + [Close])
    decreases |tokens| - i, 1
  {
    hide Covers, ParseValue, ParseBlock, Meaning, Clean, Items, IsBrace;
    BlockTurn(tokens, i, before);
    if tokens[i] == "}" {
      entries := Nil;
      CoversOne(tokens, i, Close);
      assert AllItems(Nil) + [Close] == [Close];
    } else {
      var next := ParseValue(tokens, i + 1).value;
      var end := ParseBlock(tokens, i, before).value.1;
      var tree := TreeOf(tokens, i + 1);
      var rest := EntriesFrom(tokens, next.1, before[tokens[i] := next.0]);
      var key := Word(tokens[i], "");
      CoversOne(tokens, i, Quote(key));
      CoversBoth(tokens, i + 1, next.1, end, Items(tree), AllItems(rest) + [Close]);
      CoversBoth(tokens, i, i + 1, end, [Quote(key)], Items(tree) + (AllItems(rest) + [Close]));
      entries := Cons(key, tree, rest);
      assert AllItems(entries) + [Close] == [Quote(key)] + (Items(tree) + (AllItems(rest) + [Close]));
    }
  }

  /** A value is read from exactly the tokens of a clean tree, and is what the tree means. */
  lemma ValueIff(tokens: seq<string>, i: nat, value: Value, j: nat)
    requires i < |tokens|
    ensures ParseValue(tokens, i) == Ok((value, j)) <==>
            exists tree :: Clean(tree) && Meaning(tree) == value && Covers(tokens, i, j, Items(tree))
  {
    hide ParseValue, Covers, Clean, Meaning, Items, Has;
    if ParseValue(tokens, i) == Ok((value, j)) {
      var tree := TreeOf(tokens, i);
    }
    forall tree | Clean(tree) && Meaning(tree) == value && Covers(tokens, i, j, Items(tree))
      ensures ParseValue(tokens, i) == Ok((value, j))
    {
      CoversHas(tokens, i, j, Items(tree));
      ValueOfTree(tokens, i, tree);
    }
  }

  // ---- The document ----

  /** At the top a brace that opens or closes nothing stands alone, and so may one last key. */
  datatype Part = Stray(brace: Item) | Entry(key: Word, tree: Tree)

  predicate GoodPart(part: Part) {
    match part
    case Stray(brace) => !brace.Quote?
    case Entry(key, tree) => !IsBrace(key.text) && Clean(tree)
  }

  function PartItems(part: Part): (r: seq<Item>)
    ensures r != []
  {
    match part
    case Stray(brace) => [brace]
    case Entry(key, tree) => [Quote(key)] + Items(tree)
  }

  function PartsItems(parts: seq<Part>): seq<Item> {
    if parts == [] then [] else PartItems(parts[0]) + PartsItems(parts[1..])
  }

  function PartsMean(parts: seq<Part>, before: map<string, Value>): map<string, Value> {
    if parts == [] then before
    else
      match parts[0]
      case Stray(_) => PartsMean(parts[1..], before)
      case Entry(key, tree) => PartsMean(parts[1..], before[key.text := Meaning(tree)])
  }

  predicate AllGood(parts: seq<Part>) {
    forall i :: 0 <= i < |parts| ==> GoodPart(parts[i])
  }

  /** At most one last key without a value. */
  predicate LastKey(last: seq<Item>) {
    last == [] || (|last| == 1 && last[0].Quote? && !IsBrace(last[0].word.text))
  }

  /** What is left of a document at `i`. */
  predicate Laid(tokens: seq<string>, i: nat, parts: seq<Part>, last: seq<Item>) {
    AllGood(parts) && LastKey(last) && Covers(tokens, i, |tokens|, PartsItems(parts) + last)
  }

  lemma LaidMore(tokens: seq<string>, i: nat, j: nat, part: Part, parts: seq<Part>, last: seq<Item>)
    requires GoodPart(part) && Covers(tokens, i, j, PartItems(part)) && Laid(tokens, j, parts, last)
    ensures Laid(tokens, i, [part] + parts, last)
  {
    hide Covers, GoodPart, PartItems, LastKey;
    assert ([part] + parts)[1..] == parts;
    CoversBoth(tokens, i, j, |tokens|, PartItems(part), PartsItems(parts) + last);
    assert PartsItems([part] + parts) + last == PartItems(part) + (PartsItems(parts) + last);
  }

  lemma LaidLess(tokens: seq<string>, i: nat, parts: seq<Part>, last: seq<Item>)
    requires parts != [] && Laid(tokens, i, parts, last)
    ensures var j := i + |PartItems(parts[0])|;
            GoodPart(parts[0]) && Covers(tokens, i, j, PartItems(parts[0])) && Laid(tokens, j, parts[1..], last)
  {
    hide GoodPart, PartItems, LastKey, Covers;
    var part, rest := PartItems(parts[0]), PartsItems(parts[1..]) + last;
    assert PartsItems(parts) + last == part + rest;
    CoversSplit(tokens, i, |tokens|, part, rest);
  }

  lemma CoversSplit(tokens: seq<string>, i: nat, k: nat, a: seq<Item>, b: seq<Item>)
    requires Covers(tokens, i, k, a + b)
    ensures Covers(tokens, i, i + |a|, a) && Covers(tokens, i + |a|, k, b)
  {
    hide Token;
    forall m | 0 <= m < |b|
      ensures tokens[i + |a| + m] == Token(b[m])
    {
      assert (a + b)[|a| + m] == b[m] && tokens[i + (|a| + m)] == Token((a + b)[|a| + m]);
    }
    forall m | 0 <= m < |a|
      ensures tokens[i + m] == Token(a[m])
    {
      assert (a + b)[m] == a[m];
    }
  }

  /** One turn of the loop at the top. */
  lemma RootTurn(tokens: seq<string>, i: nat, before: map<string, Value>)
    requires i <= |tokens|
    ensures var r := ParseRoot(tokens, i, before);
            if i == |tokens| then r == Ok(before)
            else if IsBrace(tokens[i]) || i + 1 == |tokens| then r == ParseRoot(tokens, i + 1, before)
            else if ParseValue(tokens, i + 1).Err? then r == Err(ParseValue(tokens, i + 1).error)
            else
              var next := ParseValue(tokens, i + 1).value;
              r == ParseRoot(tokens, next.1, before[tokens[i] := next.0])
  {
    hide ParseValue, IsBrace;
  }

  lemma LaidEnd(tokens: seq<string>, last: seq<Item>)
    requires LastKey(last) && |last| <= |tokens| && Covers(tokens, |tokens| - |last|, |tokens|, last)
    ensures Laid(tokens, |tokens| - |last|, [], last)
  {
    assert PartsItems([]) + last == last;
  }

  lemma {:induction false} PartsOf(tokens: seq<string>, i: nat, before: map<string, Value>) returns (parts: seq<Part>, last: seq<Item>)
    requires i <= |tokens| && ParseRoot(tokens, i, before).Ok?
    ensures Laid(tokens, i, parts, last) && PartsMean(parts, before) == ParseRoot(tokens, i, before).value
    decreases |tokens| - i
  {
    hide Covers, Laid, ParseRoot, ParseValue, Clean, Meaning, Items;
    RootTurn(tokens, i, before);
    if i == |tokens| {
      parts, last := [], [];
      CoversNone(tokens);
      LaidEnd(tokens, last);
    } else if IsBrace(tokens[i]) {
      var part := Stray(if tokens[i] == "{" then Open else Close);
      var more, key := PartsOf(tokens, i + 1, before);
      CoversOne(tokens, i, part.brace);
      LaidMore(tokens, i, i + 1, part, more, key);
      assert ([part] + more)[1..] == more;
      parts, last := [part] + more, key;
    } else if i + 1 == |tokens| {
      parts, last := [], [Quote(Word(tokens[i], ""))];
      CoversOne(tokens, i, last[0]);
      LaidEnd(tokens, last);
      RootTurn(tokens, i + 1, before);
    } else {
      var next := ParseValue(tokens, i + 1).value;
      var tree := TreeOf(tokens, i + 1);
      var part := Entry(Word(tokens[i], ""), tree);
      var more, key := PartsOf(tokens, next.1, before[tokens[i] := next.0]);
      CoversOne(tokens, i, Quote(part.key));
      CoversBoth(tokens, i, i + 1, next.1, [Quote(part.key)], Items(part.tree));
      LaidMore(tokens, i, next.1, part, more, key);
      assert ([part] + more)[1..] == more;
      parts, last := [part] + more, key;
    }
  }

  lemma CoversNone(tokens: seq<string>)
    ensures Covers(tokens, |tokens|, |tokens|, [])
  {
  }

  lemma PartRead(tokens: seq<string>, i: nat, part: Part)
    requires GoodPart(part) && Covers(tokens, i, i + |PartItems(part)|, PartItems(part))
    ensures i < |tokens|
    ensures part.Stray? ==> IsBrace(tokens[i])
    ensures part.Entry? ==>
              && tokens[i] == part.key.text && !IsBrace(tokens[i]) && i + 1 < |tokens|
              && ParseValue(tokens, i + 1) == Ok((Meaning(part.tree), i + |PartItems(part)|))
  {
    hide Clean, Meaning, Items, ParseValue;
    var items := PartItems(part);
    assert tokens[i + 0] == Token(items[0]);
    if part.Entry? {
      var inner := Items(part.tree);
      forall k | 0 <= k < |inner|
        ensures tokens[i + 1 + k] == Token(inner[k])
      {
        assert items[k + 1] == inner[k] && tokens[i + (k + 1)] == Token(items[k + 1]);
      }
      ValueIff(tokens, i + 1, Meaning(part.tree), i + |items|);
    }
  }

  lemma {:induction false} RootOfParts(tokens: seq<string>, i: nat, before: map<string, Value>, parts: seq<Part>, last: seq<Item>)
    requires i <= |tokens| && Laid(tokens, i, parts, last)
    ensures ParseRoot(tokens, i, before) == Ok(PartsMean(parts, before))
    decreases |parts|
  {
    hide Laid, ParseRoot, ParseValue, Clean, Meaning, Items, GoodPart, PartItems, Covers, IsBrace;
    RootTurn(tokens, i, before);
    if parts == [] {
      NothingLeft(tokens, i, last);
      if i < |tokens| {
        RootTurn(tokens, i + 1, before);
      }
    } else {
      LaidLess(tokens, i, parts, last);
      PartRead(tokens, i, parts[0]);
      var j := i + |PartItems(parts[0])|;
      StrayIsOne(parts[0]);
      CoversBound(tokens, i, j, PartItems(parts[0]));
      match parts[0]
      case Stray(_) =>
        RootOfParts(tokens, j, before, parts[1..], last);
      case Entry(key, tree) =>
        RootOfParts(tokens, j, before[key.text := Meaning(tree)], parts[1..], last);
    }
  }

  lemma NothingLeft(tokens: seq<string>, i: nat, last: seq<Item>)
    requires Laid(tokens, i, [], last)
    ensures |tokens| <= i + 1
  {
  }

  lemma StrayIsOne(part: Part)
    ensures part.Stray? ==> |PartItems(part)| == 1
  {
  }

  lemma CoversBound(tokens: seq<string>, i: nat, j: nat, items: seq<Item>)
    requires Covers(tokens, i, j, items)
    ensures j <= |tokens|
  {
  }

  /** A document is read exactly when its tokens are entries and stray braces, with at most one key left
      over, and gives what the entries mean. */
  lemma RootIff(tokens: seq<string>, m: map<string, Value>)
    ensures ParseRoot(tokens, 0, map[]) == Ok(m) <==>
            exists parts, last :: Laid(tokens, 0, parts, last) && PartsMean(parts, map[]) == m
  {
    hide ParseRoot, Laid, PartsMean;
    if ParseRoot(tokens, 0, map[]) == Ok(m) {
      var parts, last := PartsOf(tokens, 0, map[]);
    }
    forall parts, last | Laid(tokens, 0, parts, last) && PartsMean(parts, map[]) == m
      ensures ParseRoot(tokens, 0, map[]) == Ok(m)
    {
      RootOfParts(tokens, 0, map[], parts, last);
    }
  }

  // ---- The errors ----

  /** Tokens that follow do not change a value that was read, nor a malformed one. */
  lemma {:induction false} ValueStays(tokens: seq<string>, more: seq<string>, i: nat)
    requires i < |tokens| && ParseValue(tokens, i) != Err(Incomplete)
    ensures ParseValue(tokens + more, i) == ParseValue(tokens, i)
    decreases |tokens| - i, 0
  {
    hide ParseBlock;
    if tokens[i] == "{" {
      BlockStays(tokens, more, i + 1, map[]);
    }
  }

  lemma {:induction false} BlockStays(tokens: seq<string>, more: seq<string>, i: nat, before: map<string, Value>)
    requires i <= |tokens| && ParseBlock(tokens, i, before) != Err(Incomplete)
    ensures ParseBlock(tokens + more, i, before) == ParseBlock(tokens, i, before)
    decreases |tokens| - i, 1
  {
    hide ParseValue;
    if i < |tokens| && !IsBrace(tokens[i]) && i + 1 < |tokens| {
      ValueStays(tokens, more, i + 1);
      if ParseValue(tokens, i + 1).Ok? {
        var next := ParseValue(tokens, i + 1).value;
        BlockStays(tokens, more, next.1, before[tokens[i] := next.0]);
      }
    }
  }

  lemma {:induction false} RootStays(tokens: seq<string>, more: seq<string>, i: nat, before: map<string, Value>)
    requires i <= |tokens| && ParseRoot(tokens, i, before) == Err(Malformed)
    ensures ParseRoot(tokens + more, i, before) == Err(Malformed)
    decreases |tokens| - i
  {
    hide ParseRoot, ParseValue;
    RootTurn(tokens, i, before);
    RootTurn(tokens + more, i, before);
    if i + 1 == |tokens| {
      RootTurn(tokens, i + 1, before);
    }
    if IsBrace(tokens[i]) {
      RootStays(tokens, more, i + 1, before);
    } else {
      ValueStays(tokens, more, i + 1);
      if ParseValue(tokens, i + 1).Ok? {
        var next := ParseValue(tokens, i + 1).value;
        RootStays(tokens, more, next.1, before[tokens[i] := next.0]);
      }
    }
  }

  /** The tokens that complete a value. */
  lemma {:induction false} ValueCompleted(tokens: seq<string>, i: nat) returns (more: seq<string>)
    requires i < |tokens| && ParseValue(tokens, i) == Err(Incomplete)
    ensures ParseValue(tokens + more, i).Ok? && ParseValue(tokens + more, i).value.1 == |tokens + more|
    decreases |tokens| - i, 0
  {
    hide ParseBlock;
    more := BlockCompleted(tokens, i + 1, map[]);
  }

  lemma {:induction false} BlockCompleted(tokens: seq<string>, i: nat, before: map<string, Value>) returns (more: seq<string>)
    requires i <= |tokens| && ParseBlock(tokens, i, before) == Err(Incomplete)
    ensures ParseBlock(tokens + more, i, before).Ok? && ParseBlock(tokens + more, i, before).value.1 == |tokens + more|
    decreases |tokens| - i, 1
  {
    hide ParseBlock, ParseValue;
    BlockOpen(tokens, i, before);
    if i == |tokens| {
      more := ["}"];
      BlockClosed(tokens + more, i, before);
    } else if i + 1 == |tokens| {
      more := ["", "}"];
      LeafRead(tokens + more, i + 1);
      BlockNext(tokens + more, i, before);
      BlockClosed(tokens + more, i + 2, before[tokens[i] := Leaf("")]);
    } else if ParseValue(tokens, i + 1).Ok? {
      var next := ParseValue(tokens, i + 1).value;
      more := BlockCompleted(tokens, next.1, before[tokens[i] := next.0]);
      ValueStays(tokens, more, i + 1);
      BlockNext(tokens + more, i, before);
    } else {
      var rest := ValueCompleted(tokens, i + 1);
      more := rest + ["}"];
      assert tokens + more == (tokens + rest) + ["}"];
      ValueStays(tokens + rest, ["}"], i + 1);
      BlockNext(tokens + more, i, before);
      var next := ParseValue(tokens + more, i + 1).value;
      BlockClosed(tokens + more, next.1, before[tokens[i] := next.0]);
    }
  }

  lemma BlockOpen(tokens: seq<string>, i: nat, before: map<string, Value>)
    requires i <= |tokens| && ParseBlock(tokens, i, before) == Err(Incomplete)
    ensures i < |tokens| ==> !IsBrace(tokens[i])
    ensures i + 1 < |tokens| && ParseValue(tokens, i + 1).Err? ==> ParseValue(tokens, i + 1) == Err(Incomplete)
    ensures i + 1 < |tokens| && ParseValue(tokens, i + 1).Ok? ==>
              var next := ParseValue(tokens, i + 1).value;
              ParseBlock(tokens, next.1, before[tokens[i] := next.0]) == Err(Incomplete)
  {
    hide ParseValue;
  }

  lemma LeafRead(tokens: seq<string>, i: nat)
    requires i < |tokens| && tokens[i] != "{"
    ensures ParseValue(tokens, i) == Ok((Leaf(tokens[i]), i + 1))
  {
  }

  lemma {:induction false} RootCompleted(tokens: seq<string>, i: nat, before: map<string, Value>) returns (more: seq<string>)
    requires i <= |tokens| && ParseRoot(tokens, i, before) == Err(Incomplete)
    ensures ParseRoot(tokens + more, i, before).Ok?
    decreases |tokens| - i
  {
    hide ParseRoot, ParseValue;
    RootTurn(tokens, i, before);
    if i + 1 == |tokens| {
      RootTurn(tokens, i + 1, before);
    }
    if IsBrace(tokens[i]) {
      more := RootCompleted(tokens, i + 1, before);
    } else if ParseValue(tokens, i + 1).Ok? {
      var next := ParseValue(tokens, i + 1).value;
      more := RootCompleted(tokens, next.1, before[tokens[i] := next.0]);
      ValueStays(tokens, more, i + 1);
    } else {
      more := ValueCompleted(tokens, i + 1);
      var next := ParseValue(tokens + more, i + 1).value;
      RootTurn(tokens + more, next.1, before[tokens[i] := next.0]);
    }
    RootTurn(tokens + more, i, before);
  }

  /** Incomplete means that more tokens would have made the document readable, malformed that none
      would. */
  lemma ErrorsMean(tokens: seq<string>)
    ensures match ParseRoot(tokens, 0, map[])
            case Ok(_) => true
            case Err(Incomplete) => exists more: seq<string> :: ParseRoot(tokens + more, 0, map[]).Ok?
            case Err(Malformed) => forall more: seq<string> :: ParseRoot(tokens + more, 0, map[]) == Err(Malformed)
  {
    hide ParseRoot;
    match ParseRoot(tokens, 0, map[])
    case Ok(_) =>
    case Err(Incomplete) =>
      var more := RootCompleted(tokens, 0, map[]);
    case Err(Malformed) =>
      forall more: seq<string>
        ensures ParseRoot(tokens + more, 0, map[]) == Err(Malformed)
      {
        RootStays(tokens, more, 0, map[]);
      }
  }
}
