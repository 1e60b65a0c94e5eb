/** Printing a tree as KeyValues text and reading it back. */
module KeyValuesRoundTrip {
  import opened Common
  import opened KeyValues

  /** A text and one way of writing it between quotes. */
  datatype Word = Word(text: string, spelling: string)

  /** An ordered tree, in which a key may occur more than once. */
  datatype Tree = Text(word: Word) | Branch(entries: Entries)

  datatype Entries = Nil | Cons(key: Word, value: Tree, rest: Entries)

  datatype Item = Open | Close | Quote(word: Word)

  // ---- Printing ----

  /** Every character stands for itself or follows a backslash; quotes and backslashes must. */
  predicate Spells(spelling: string, text: string) {
    if spelling == "" then text == ""
    else if spelling[0] == '"' || text == "" then false
    else if spelling[0] == '\\' then |spelling| > 1 && spelling[1] == text[0] && Spells(spelling[2..], text[1..])
    else spelling[0] == text[0] && Spells(spelling[1..], text[1..])
  }

  predicate WellSpelled(tree: Tree) {
    match tree
    case Text(word) => Spells(word.spelling, word.text)
    case Branch(entries) => AllWellSpelled(entries)
  }

  predicate AllWellSpelled(entries: Entries) {
    match entries
    case Nil => true
    case Cons(key, value, rest) => Spells(key.spelling, key.text) && WellSpelled(value) && AllWellSpelled(rest)
  }

  function Items(tree: Tree): (r: seq<Item>)
    ensures r != []
  {
    match tree
    case Text(word) => [Quote(word)]
    case Branch(entries) => [Open] + (AllItems(entries) + [Close])
  }

  function AllItems(entries: Entries): seq<Item> {
    match entries
    case Nil => []
    case Cons(key, value, rest) => [Quote(key)] + (Items(value) + AllItems(rest))
  }

  function ItemText(item: Item): (r: string)
    ensures r != ""
  {
    match item
    case Open => "{"
    case Close => "}"
    case Quote(word) => "\"" + word.spelling + "\""
  }

  function Token(item: Item): string {
    match item
    case Open => "{"
    case Close => "}"
    case Quote(word) => word.text
  }

  function AllTokens(items: seq<Item>): (r: seq<string>)
    ensures |r| == |items| && forall i :: 0 <= i < |r| ==> r[i] == Token(items[i])
  {
    seq(|items|, i requires 0 <= i < |items| => Token(items[i]))
  }

  /** Text the tokenizer skips: anything without quotes and braces, line breaks included. */
  predicate Noise(t: string) {
    forall i :: 0 <= i < |t| ==> t[i] != '"' && t[i] != '{' && t[i] != '}'
  }

  /** The items with noise before, between and after them. */
  function Print(items: seq<Item>, noise: seq<string>): string
    requires |noise| == |items| + 1
  {
    if items == [] then noise[0] else noise[0] + (ItemText(items[0]) + Print(items[1..], noise[1..]))
  }

  // ---- The tokenizer undoes the printer ----

  lemma {:induction false} QuotedIs(spelling: string, text: string, rest: string)
    requires Spells(spelling, text)
    ensures ReadQuoted(spelling + ("\"" + rest)) == Some(Quoted(text, |spelling| + 1))
    decreases |spelling|
  {
    var s := spelling + ("\"" + rest);
    if spelling == "" {
      assert s == "\"" + rest;
    } else {
      var n := if spelling[0] == '\\' then 2 else 1;
      QuotedIs(spelling[n..], text[1..], rest);
      assert s[n..] == spelling[n..] + ("\"" + rest) && s[0] == spelling[0] && s[n - 1] == spelling[n - 1];
      assert text == [text[0]] + text[1..];
    }
  }

  predicate Starts(rest: string) {
    rest == "" || rest[0] == '"' || rest[0] == '{' || rest[0] == '}'
  }

  lemma {:induction false} NoiseSkipped(t: string, rest: string)
    requires Noise(t) && Starts(rest)
    ensures Tokens(t + rest) == Tokens(rest)
    decreases |t|
  {
    if t == "" {
      assert t + rest == rest;
    } else if IsSpace(t[0]) {
      assert (t + rest)[1..] == t[1..] + rest;
      NoiseSkipped(t[1..], rest);
    } else {
      var n := Bare(t + rest);
      assert rest != "" ==> (t + rest)[|t|] == rest[0];
      assert (t + rest)[0] == t[0];
      assert (t + rest)[n..] == t[n..] + rest;
      NoiseSkipped(t[n..], rest);
    }
  }

  lemma ItemRead(item: Item, rest: string)
    requires item.Quote? ==> Spells(item.word.spelling, item.word.text)
    ensures Tokens(ItemText(item) + rest) == Prepend(Token(item), Tokens(rest))
  {
    hide ReadQuoted, Spells;
    var s := ItemText(item) + rest;
    match item
    case Open =>
      assert s[0] == '{' && s[1..] == rest;
    case Close =>
      assert s[0] == '}' && s[1..] == rest;
    case Quote(word) =>
      assert s == "\"" + (word.spelling + ("\"" + rest));
      assert s[1..] == word.spelling + ("\"" + rest);
      QuotedIs(word.spelling, word.text, rest);
      assert s[1 + (|word.spelling| + 1)..] == rest;
  }

  /** Reading printed items gives their tokens, whatever stands between them. */
  lemma {:induction false} TokensOfPrint(items: seq<Item>, noise: seq<string>)
    requires |noise| == |items| + 1 && forall i :: 0 <= i < |noise| ==> Noise(noise[i])
    requires forall i :: 0 <= i < |items| && items[i].Quote? ==> Spells(items[i].word.spelling, items[i].word.text)
    ensures Tokens(Print(items, noise)) == Some(AllTokens(items))
    decreases |items|
  {
    hide Tokens, Noise, Spells;
    if items == [] {
      NoiseSkipped(noise[0], "");
      assert noise[0] + "" == noise[0];
      NoTokens();
    } else {
      var rest := Print(items[1..], noise[1..]);
      TokensOfPrint(items[1..], noise[1..]);
      ItemRead(items[0], rest);
      assert (ItemText(items[0]) + rest)[0] == ItemText(items[0])[0];
      NoiseSkipped(noise[0], ItemText(items[0]) + rest);
      assert AllTokens(items) == [Token(items[0])] + AllTokens(items[1..]);
    }
  }

  // ---- The parser undoes the layout ----

  /** What a tree means: nested dictionaries in which the last entry with a key wins. */
  function Meaning(tree: Tree): Value {
    match tree
    case Text(word) => Leaf(word.text)
    case Branch(entries) => Node(MeaningOf(entries, map[]))
  }

  function MeaningOf(entries: Entries, before: map<string, Value>): map<string, Value> {
    match entries
    case Nil => before
    case Cons(key, value, rest) => MeaningOf(rest, before[key.text := Meaning(value)])
  }

  /** No key reads as a brace, and no value as an opening one. */
  predicate Clean(tree: Tree) {
    match tree
    case Text(word) => word.text != "{"
    case Branch(entries) => AllClean(entries)
  }

  predicate AllClean(entries: Entries) {
    match entries
    case Nil => true
    case Cons(key, value, rest) => !IsBrace(key.text) && Clean(value) && AllClean(rest)
  }

  /** `part` stands in `tokens` at `i`. */
  predicate Has(tokens: seq<string>, i: nat, part: seq<string>) {
    i + |part| <= |tokens| && tokens[i..i + |part|] == part
  }

  lemma HasBoth(tokens: seq<string>, i: nat, a: seq<Item>, b: seq<Item>)
    requires Has(tokens, i, AllTokens(a + b))
    ensures Has(tokens, i, AllTokens(a)) && Has(tokens, i + |a|, AllTokens(b))
  {
    assert AllTokens(a + b) == AllTokens(a) + AllTokens(b);
    assert tokens[i..i + |a|] == tokens[i..i + |a + b|][..|a|];
    assert tokens[i + |a|..i + |a| + |b|] == tokens[i..i + |a + b|][|a|..];
  }

  lemma HasOne(tokens: seq<string>, i: nat, item: Item)
    requires Has(tokens, i, AllTokens([item]))
    ensures i < |tokens| && tokens[i] == Token(item)
  {
    assert tokens[i] == tokens[i..i + 1][0];
  }

  lemma {:induction false} ValueOfTree(tokens: seq<string>, i: nat, tree: Tree)
    requires Clean(tree) && Has(tokens, i, AllTokens(Items(tree)))
    ensures i < |tokens| && ParseValue(tokens, i) == Ok((Meaning(tree), i + |Items(tree)|))
    decreases tree, 0
  {
    hide Has, ParseBlock, MeaningOf, AllClean, AllItems;
    match tree
    case Text(word) =>
      HasOne(tokens, i, Quote(word));
    case Branch(entries) =>
      HasBoth(tokens, i, [Open], AllItems(entries) + [Close]);
      HasOne(tokens, i, Open);
      HasBoth(tokens, i + 1, AllItems(entries), [Close]);
      HasOne(tokens, i + 1 + |AllItems(entries)|, Close);
      HasBound(tokens, i + 1, AllTokens(AllItems(entries)));
      BlockOfEntries(tokens, i + 1, entries, map[]);
  }

  lemma HasBound(tokens: seq<string>, i: nat, part: seq<string>)
    requires Has(tokens, i, part)
    ensures i + |part| <= |tokens|
  {
  }

  lemma BlockClosed(tokens: seq<string>, i: nat, before: map<string, Value>)
    requires i < |tokens| && tokens[i] == "}"
    ensures ParseBlock(tokens, i, before) == Ok((Node(before), i + 1))
  {
  }

  lemma BlockNext(tokens: seq<string>, i: nat, before: map<string, Value>)
    requires i + 1 < |tokens| && !IsBrace(tokens[i]) && ParseValue(tokens, i + 1).Ok?
    ensures var next := ParseValue(tokens, i + 1).value;
            ParseBlock(tokens, i, before) == ParseBlock(tokens, next.1, before[tokens[i] := next.0])
  {
    hide ParseValue;
  }

  lemma {:induction false} BlockOfEntries(tokens: seq<string>, i: nat, entries: Entries, before: map<string, Value>)
    requires AllClean(entries) && Has(tokens, i, AllTokens(AllItems(entries)))
    requires i + |AllItems(entries)| < |tokens| && tokens[i + |AllItems(entries)|] == "}"
    ensures ParseBlock(tokens, i, before) == Ok((Node(MeaningOf(entries, before)), i + |AllItems(entries)| + 1))
    decreases entries, 1
  {
    hide Has, ParseValue, ParseBlock, Meaning, Clean, Items;
    match entries
    case Nil =>
      BlockClosed(tokens, i, before);
    case Cons(key, value, rest) =>
      HasBoth(tokens, i, [Quote(key)], Items(value) + AllItems(rest));
      HasOne(tokens, i, Quote(key));
      HasBoth(tokens, i + 1, Items(value), AllItems(rest));
      ValueOfTree(tokens, i + 1, value);
      BlockNext(tokens, i, before);
      BlockOfEntries(tokens, i + 1 + |Items(value)|, rest, before[key.text := Meaning(value)]);
  }

  lemma {:induction false} RootOfEntries(tokens: seq<string>, i: nat, entries: Entries, before: map<string, Value>)
    requires AllClean(entries) && Has(tokens, i, AllTokens(AllItems(entries))) && i + |AllItems(entries)| == |tokens|
    ensures ParseRoot(tokens, i, before) == Ok(MeaningOf(entries, before))
    decreases entries
  {
    hide Has, ParseValue, Meaning, Clean, Items;
    match entries
    case Nil =>
    case Cons(key, value, rest) =>
      HasBoth(tokens, i, [Quote(key)], Items(value) + AllItems(rest));
      HasOne(tokens, i, Quote(key));
      HasBoth(tokens, i + 1, Items(value), AllItems(rest));
      ValueOfTree(tokens, i + 1, value);
      RootOfEntries(tokens, i + 1 + |Items(value)|, rest, before[key.text := Meaning(value)]);
  }

  lemma {:induction false} ItemsSpelled(tree: Tree)
    requires WellSpelled(tree)
    ensures forall i :: 0 <= i < |Items(tree)| && Items(tree)[i].Quote? ==>
              Spells(Items(tree)[i].word.spelling, Items(tree)[i].word.text)
    decreases tree, 0
  {
    hide Spells;
    match tree
    case Text(word) =>
    case Branch(entries) => AllItemsSpelled(entries);
  }

  lemma {:induction false} AllItemsSpelled(entries: Entries)
    requires AllWellSpelled(entries)
    ensures forall i :: 0 <= i < |AllItems(entries)| && AllItems(entries)[i].Quote? ==>
              Spells(AllItems(entries)[i].word.spelling, AllItems(entries)[i].word.text)
    decreases entries, 1
  {
    hide Spells;
    match entries
    case Nil =>
    case Cons(key, value, rest) =>
      ItemsSpelled(value);
      AllItemsSpelled(rest);
  }

  /** Printed with any escapes and any noise, a clean document reads back as what it means. */
  lemma ParsePrint(entries: Entries, noise: seq<string>)
    requires AllWellSpelled(entries) && AllClean(entries)
    requires |noise| == |AllItems(entries)| + 1 && forall i :: 0 <= i < |noise| ==> Noise(noise[i])
    ensures ParseKeyValues(Print(AllItems(entries), noise)) == Ok(MeaningOf(entries, map[]))
  {
    hide Noise, Spells, Tokens, Print;
    AllItemsSpelled(entries);
    TokensOfPrint(AllItems(entries), noise);
    var tokens := AllTokens(AllItems(entries));
    assert tokens[0..|tokens|] == tokens;
    RootOfEntries(tokens, 0, entries, map[]);
  }

  // ---- No other document does ----

  predicate HasKey(entries: Entries, key: string) {
    match entries
    case Nil => false
    case Cons(k, _, rest) => k.text == key || HasKey(rest, key)
  }

  predicate UniqueKeys(tree: Tree) {
    match tree
    case Text(_) => true
    case Branch(entries) => AllUniqueKeys(entries)
  }

  predicate AllUniqueKeys(entries: Entries) {
    match entries
    case Nil => true
    case Cons(key, value, rest) => !HasKey(rest, key.text) && UniqueKeys(value) && AllUniqueKeys(rest)
  }

  /** What the parser can return at all. */
  predicate Tidy(value: Value) {
    match value
    case Leaf(text) => text != "{"
    case Node(entries) => forall key :: key in entries ==> !IsBrace(key) && Tidy(entries[key])
  }

  predicate AllTidy(entries: map<string, Value>) {
    forall key :: key in entries ==> !IsBrace(key) && Tidy(entries[key])
  }

  lemma {:induction false} ValueIsTidy(tokens: seq<string>, i: nat)
    requires i < |tokens| && ParseValue(tokens, i).Ok?
    ensures Tidy(ParseValue(tokens, i).value.0)
    decreases |tokens| - i, 0
  {
    if tokens[i] == "{" {
      BlockIsTidy(tokens, i + 1, map[]);
    }
  }

  lemma {:induction false} BlockIsTidy(tokens: seq<string>, i: nat, entries: map<string, Value>)
    requires i <= |tokens| && AllTidy(entries) && ParseBlock(tokens, i, entries).Ok?
    ensures Tidy(ParseBlock(tokens, i, entries).value.0)
    decreases |tokens| - i, 1
  {
    if tokens[i] != "}" {
      ValueIsTidy(tokens, i + 1);
      var next := ParseValue(tokens, i + 1).value;
      BlockIsTidy(tokens, next.1, entries[tokens[i] := next.0]);
    }
  }

  lemma {:induction false} RootIsTidy(tokens: seq<string>, i: nat, entries: map<string, Value>)
    requires i <= |tokens| && AllTidy(entries) && ParseRoot(tokens, i, entries).Ok?
    ensures AllTidy(ParseRoot(tokens, i, entries).value)
    decreases |tokens| - i
  {
    if i < |tokens| {
      if IsBrace(tokens[i]) || i + 1 == |tokens| {
        RootIsTidy(tokens, i + 1, entries);
      } else {
        ValueIsTidy(tokens, i + 1);
        var next := ParseValue(tokens, i + 1).value;
        RootIsTidy(tokens, next.1, entries[tokens[i] := next.0]);
      }
    }
  }

  /** Later entries do not touch a key they do not have. */
  lemma {:induction false} MeaningKeeps(entries: Entries, before: map<string, Value>, key: string)
    requires !HasKey(entries, key) && key in before
    ensures key in MeaningOf(entries, before) && MeaningOf(entries, before)[key] == before[key]
  {
    if entries.Cons? {
      MeaningKeeps(entries.rest, before[entries.key.text := Meaning(entries.value)], key);
    }
  }

  lemma {:induction false} CleanIfTidy(tree: Tree)
    requires UniqueKeys(tree) && Tidy(Meaning(tree))
    ensures Clean(tree)
    decreases tree, 0
  {
    if tree.Branch? {
      AllCleanIfTidy(tree.entries, map[]);
    }
  }

  lemma {:induction false} AllCleanIfTidy(entries: Entries, before: map<string, Value>)
    requires AllUniqueKeys(entries) && AllTidy(MeaningOf(entries, before))
    ensures AllClean(entries)
    decreases entries, 1
  {
    if entries.Cons? {
      var next := before[entries.key.text := Meaning(entries.value)];
      MeaningKeeps(entries.rest, next, entries.key.text);
      AllCleanIfTidy(entries.rest, next);
      CleanIfTidy(entries.value);
    }
  }

  /** For documents without repeated keys: printing and reading gives the document back exactly when
      no key is a brace and no value an opening brace. */
  lemma ParsePrintIff(entries: Entries, noise: seq<string>)
    requires AllWellSpelled(entries) && AllUniqueKeys(entries)
    requires |noise| == |AllItems(entries)| + 1 && forall i :: 0 <= i < |noise| ==> Noise(noise[i])
    ensures ParseKeyValues(Print(AllItems(entries), noise)) == Ok(MeaningOf(entries, map[])) <==> AllClean(entries)
  {
    hide Noise, Spells, Tokens, Print, ParseRoot;
    if AllClean(entries) {
      ParsePrint(entries, noise);
    }
    var content := Print(AllItems(entries), noise);
    if ParseKeyValues(content) == Ok(MeaningOf(entries, map[])) {
      RootIsTidy(Tokens(content).value, 0, map[]);
      AllCleanIfTidy(entries, map[]);
    }
  }
}
