/** The quote/escape/parenthesis automaton of `ini.py`, and its three scanning loops.

    `Step` is the automaton. What each loop computes is specified without it being run:
    `Closes`, `IsSplit` and `EqualAt` say which indices and which pieces are the right ones,
    the methods are proved to find exactly those, and the lemmas say how the three agree. */
module IniScanner {
  import opened Common

  datatype Scan = Scan(depth: int, quoted: bool, escaped: bool)

  const START := Scan(0, false, false)

  function Step(s: Scan, c: char): Scan {
    if s.quoted then
      if s.escaped then s.(escaped := false)
      else if c == '\\' then s.(escaped := true)
      else if c == '"' then s.(quoted := false)
      else s
    else if c == '"' then s.(quoted := true)
    else if c == '(' then s.(depth := s.depth + 1)
    else if c == ')' then s.(depth := s.depth - 1)
    else s
  }

  function Run(s: Scan, t: string): Scan
    decreases |t|
  {
    if t == "" then s else Run(Step(s, t[0]), t[1..])
  }

  predicate AtTop(s: Scan) {
    !s.quoted && s.depth == 0
  }

  /** No closing parenthesis at the top level. */
  ghost predicate Sound(t: string) {
    forall i :: 0 <= i < |t| && t[i] == ')' ==> !AtTop(Run(START, t[..i]))
  }

  ghost predicate CommaFree(t: string) {
    forall i :: 0 <= i < |t| && t[i] == ',' ==> !AtTop(Run(START, t[..i]))
  }

  ghost predicate Balanced(t: string) {
    Sound(t) && Run(START, t) == START
  }

  /** A text that the scanners pass over as one unit: it can stand between two commas. */
  ghost predicate Piece(t: string) {
    Balanced(t) && CommaFree(t)
  }

  function Join(pieces: seq<string>): string {
    if pieces == [] then ""
    else if |pieces| == 1 then pieces[0]
    else pieces[0] + "," + Join(pieces[1..])
  }

  // ---- What the loops look for ----

  /** `k` is the parenthesis that closes the one at `opening`. */
  ghost predicate Closes(content: string, opening: nat, k: nat) {
    && opening < k < |content|
    && Run(START, content[opening..k + 1]) == START
    && forall j :: opening < j <= k ==> Run(START, content[opening..j]).depth >= 1
  }

  ghost predicate IsSplit(inner: string, pieces: seq<string>) {
    && Join(pieces) == inner
    && (pieces == [] <==> inner == "")
    && forall i :: 0 <= i < |pieces| ==> Piece(pieces[i])
  }

  predicate EqualAt(raw: string, i: nat) {
    i < |raw| && raw[i] == '=' && AtTop(Run(START, raw[..i]))
  }

  ghost function ClosingOf(content: string, opening: nat): (r: Option<nat>)
    ensures r.Some? ==> Closes(content, opening, r.value)
    ensures r.None? ==> forall k: nat :: !Closes(content, opening, k)
  {
    if exists k: nat :: Closes(content, opening, k) then
      var k: nat :| Closes(content, opening, k);
      Some(k)
    else None
  }

  ghost function SplitOf(inner: string): (r: Option<seq<string>>)
    ensures r.Some? ==> IsSplit(inner, r.value)
    ensures r.None? ==> forall p :: !IsSplit(inner, p)
  {
    if exists p :: IsSplit(inner, p) then
      var p :| IsSplit(inner, p);
      Some(p)
    else None
  }

  /** The first top-level `=` at or after `from`. */
  function FirstEqual(raw: string, from: nat): (r: Option<nat>)
    requires from <= |raw|
    ensures r.Some? ==> from <= r.value && EqualAt(raw, r.value)
    ensures r.Some? ==> forall j: nat :: from <= j < r.value ==> !EqualAt(raw, j)
    ensures r.None? ==> forall j: nat :: from <= j ==> !EqualAt(raw, j)
    decreases |raw| - from
  {
    if from == |raw| then None
    else if EqualAt(raw, from) then Some(from)
    else FirstEqual(raw, from + 1)
  }

  // ---- Runs of the automaton ----

  lemma {:induction false} RunAppend(s: Scan, a: string, b: string)
    ensures Run(s, a + b) == Run(Run(s, a), b)
    decreases |a|
  {
    if a == "" {
      assert a + b == b;
    } else {
      assert (a + b)[1..] == a[1..] + b;
      RunAppend(Step(s, a[0]), a[1..], b);
    }
  }

  lemma RunSnoc(s: Scan, t: string, i: nat)
    requires i < |t|
    ensures Run(s, t[..i + 1]) == Step(Run(s, t[..i]), t[i])
  {
    assert t[..i + 1] == t[..i] + [t[i]];
    RunAppend(s, t[..i], [t[i]]);
    var r := Run(s, t[..i]);
    assert Run(r, [t[i]]) == Run(Step(r, t[i]), []);
  }

  /** The depth at the start is only an offset. */
  lemma {:induction false} RunShift(s: Scan, d: int, t: string)
    ensures Run(s.(depth := s.depth + d), t) == Run(s, t).(depth := Run(s, t).depth + d)
    decreases |t|
  {
    if t != "" {
      RunShift(Step(s, t[0]), d, t[1..]);
    }
  }

  /** A backslash is only remembered inside quotes. */
  lemma {:induction false} RunEscaped(s: Scan, t: string)
    requires s.escaped ==> s.quoted
    ensures Run(s, t).escaped ==> Run(s, t).quoted
    decreases |t|
  {
    if t != "" {
      RunEscaped(Step(s, t[0]), t[1..]);
    }
  }

  predicate PlainChar(c: char) {
    c != '"' && c != '(' && c != ')' && c != ','
  }

  predicate Plain(t: string) {
    forall i :: 0 <= i < |t| ==> PlainChar(t[i])
  }

  lemma {:induction false} PlainRun(s: Scan, t: string)
    requires Plain(t) && !s.quoted
    ensures Run(s, t) == s
    decreases |t|
  {
    if t != "" {
      PlainRun(s, t[1..]);
    }
  }

  lemma PlainIsPiece(t: string)
    requires Plain(t)
    ensures Piece(t)
  {
    PlainRun(START, t);
  }

  /** Cutting at a point where the automaton is back at the start changes nothing. */
  lemma PrefixAppend(a: string, b: string)
    requires Run(START, a) == START
    ensures Sound(a + b) <==> Sound(a) && Sound(b)
    ensures CommaFree(a + b) <==> CommaFree(a) && CommaFree(b)
    ensures Run(START, a + b) == Run(START, b)
  {
    RunAppend(START, a, b);
    forall i | 0 <= i < |a|
      ensures (a + b)[i] == a[i] && (a + b)[..i] == a[..i]
    {
    }
    forall i | 0 <= i < |b|
      ensures (a + b)[|a| + i] == b[i] && Run(START, (a + b)[..|a| + i]) == Run(START, b[..i])
    {
      assert (a + b)[..|a| + i] == a + b[..i];
      RunAppend(START, a, b[..i]);
    }
    ReindexAppend(a, b, ')');
    ReindexAppend(a, b, ',');
  }

  /** The positions of one character in `a + b`, told apart. */
  lemma ReindexAppend(a: string, b: string, c: char)
    requires forall i :: 0 <= i < |a| ==> (a + b)[..i] == a[..i]
    requires forall i :: 0 <= i < |b| ==> Run(START, (a + b)[..|a| + i]) == Run(START, b[..i])
    ensures (forall i :: 0 <= i < |a + b| && (a + b)[i] == c ==> !AtTop(Run(START, (a + b)[..i]))) <==>
            ((forall i :: 0 <= i < |a| && a[i] == c ==> !AtTop(Run(START, a[..i]))) &&
             (forall i :: 0 <= i < |b| && b[i] == c ==> !AtTop(Run(START, b[..i]))))
  {
    if forall i :: 0 <= i < |a + b| && (a + b)[i] == c ==> !AtTop(Run(START, (a + b)[..i])) {
      forall i | 0 <= i < |a| && a[i] == c
        ensures !AtTop(Run(START, a[..i]))
      {
        assert (a + b)[i] == c;
      }
      forall i | 0 <= i < |b| && b[i] == c
        ensures !AtTop(Run(START, b[..i]))
      {
        assert (a + b)[|a| + i] == c;
      }
    }
    if (forall i :: 0 <= i < |a| && a[i] == c ==> !AtTop(Run(START, a[..i])))
      && (forall i :: 0 <= i < |b| && b[i] == c ==> !AtTop(Run(START, b[..i])))
    {
      forall i | 0 <= i < |a + b| && (a + b)[i] == c
        ensures !AtTop(Run(START, (a + b)[..i]))
      {
        if i >= |a| {
          assert b[i - |a|] == c;
          assert Run(START, (a + b)[..|a| + (i - |a|)]) == Run(START, b[..i - |a|]);
        }
      }
    }
  }

  /** Plain text around a value neither opens nor closes anything, so the whole is one piece
      exactly when the value is. */
  lemma PieceMiddle(pre: string, v: string, post: string)
    requires Plain(pre) && Plain(post)
    ensures Piece(pre + v + post) <==> Piece(v)
  {
    PlainRun(START, pre);
    PlainIsPiece(pre);
    PlainIsPiece(post);
    assert pre + v + post == pre + (v + post);
    PrefixAppend(pre, v + post);
    RunAppend(START, v, post);
    RunEscaped(START, v);
    if Run(START, v) == START {
      PrefixAppend(v, post);
    } else if Run(START, v + post) == START {
      MidQuote(v, post);
    }
  }

  /** Plain text cannot bring the automaton back to the start. */
  lemma MidQuote(v: string, post: string)
    requires Plain(post)
    requires Run(START, v + post) == START
    ensures Run(START, v) == START
  {
    RunAppend(START, v, post);
    if Run(START, v).quoted {
      QuotedStays(Run(START, v), post);
    } else {
      PlainRun(Run(START, v), post);
    }
  }

  lemma {:induction false} QuotedStays(s: Scan, t: string)
    requires s.quoted && Plain(t)
    ensures Run(s, t).quoted
    decreases |t|
  {
    if t != "" {
      QuotedStays(Step(s, t[0]), t[1..]);
    }
  }

  // ---- Joining and splitting ----

  lemma PlainTexts()
    ensures Balanced("") && Run(START, ",") == START && Sound(",")
  {
    assert Run(START, ",") == Run(Step(START, ','), "");
  }

  lemma {:induction false} JoinBalanced(pieces: seq<string>)
    requires forall i :: 0 <= i < |pieces| ==> Piece(pieces[i])
    ensures Balanced(Join(pieces))
  {
    hide Run, Sound, CommaFree;
    PlainTexts();
    if |pieces| > 1 {
      JoinBalanced(pieces[1..]);
      PrefixAppend(",", Join(pieces[1..]));
      PrefixAppend(pieces[0], "," + Join(pieces[1..]));
      assert pieces[0] + "," + Join(pieces[1..]) == pieces[0] + ("," + Join(pieces[1..]));
    }
  }

  lemma {:induction false} JoinSnoc(pieces: seq<string>, last: string)
    ensures Join(pieces + [last]) == if pieces == [] then last else Join(pieces) + "," + last
  {
    if pieces != [] {
      assert (pieces + [last])[1..] == pieces[1..] + [last];
      JoinSnoc(pieces[1..], last);
      if |pieces| > 1 {
        assert pieces[0] + "," + (Join(pieces[1..]) + "," + last)
            == (pieces[0] + "," + Join(pieces[1..])) + "," + last;
      }
    }
  }

  lemma JoinLength(pieces: seq<string>)
    requires pieces != []
    ensures |Join(pieces)| >= |pieces[0]|
    ensures Join(pieces)[..|pieces[0]|] == pieces[0]
    ensures |pieces| > 1 ==> |Join(pieces)| > |pieces[0]| && Join(pieces)[|pieces[0]|] == ','
    ensures |pieces| > 1 ==> Join(pieces)[|pieces[0]| + 1..] == Join(pieces[1..])
    ensures |pieces| == 1 ==> Join(pieces) == pieces[0]
  {
  }

  /** A text is cut at its top-level commas in one way only. */
  lemma {:induction false} SplitUnique(p: seq<string>, q: seq<string>)
    requires p != [] && q != []
    requires forall i :: 0 <= i < |p| ==> Piece(p[i])
    requires forall i :: 0 <= i < |q| ==> Piece(q[i])
    requires Join(p) == Join(q)
    ensures p == q
    decreases |p|
  {
    if |p[0]| < |q[0]| {
      CommaInside(p, q);
    }
    if |q[0]| < |p[0]| {
      CommaInside(q, p);
    }
    JoinLength(p);
    JoinLength(q);
    if |p| > 1 {
      assert |q| > 1;
      SplitUnique(p[1..], q[1..]);
      assert p == [p[0]] + p[1..] && q == [q[0]] + q[1..];
    }
  }

  /** A first piece that is shorter than another leaves a top-level comma inside the other. */
  lemma CommaInside(p: seq<string>, q: seq<string>)
    requires p != [] && q != [] && Join(p) == Join(q)
    requires |p[0]| < |q[0]| && Run(START, p[0]) == START
    ensures !CommaFree(q[0])
  {
    JoinLength(p);
    JoinLength(q);
    var i := |p[0]|;
    assert q[0][i] == Join(q)[..|q[0]|][i] == ',';
    assert q[0][..i] == Join(q)[..|q[0]|][..i] == Join(p)[..i] == p[0];
  }

  lemma IsSplitUnique(inner: string, p: seq<string>, q: seq<string>)
    requires IsSplit(inner, p) && IsSplit(inner, q)
    ensures p == q
  {
    if inner != "" {
      SplitUnique(p, q);
    }
  }

  /** The first top-level comma at or after `from`. */
  function FirstComma(t: string, from: nat): (r: Option<nat>)
    requires from <= |t|
    ensures r.Some? ==> from <= r.value < |t| && t[r.value] == ',' && AtTop(Run(START, t[..r.value]))
    ensures forall j :: from <= j < (if r.Some? then r.value else |t|) ==> !(t[j] == ',' && AtTop(Run(START, t[..j])))
    decreases |t| - from
  {
    if from == |t| then None
    else if t[from] == ',' && AtTop(Run(START, t[..from])) then Some(from)
    else FirstComma(t, from + 1)
  }

  /** What stands before the first comma has no comma. */
  lemma BeforeComma(t: string, i: nat)
    requires FirstComma(t, 0) == Some(i)
    ensures CommaFree(t[..i]) && t == t[..i] + ("," + t[i + 1..]) && Run(START, t[..i]) == START
  {
    hide Run, FirstComma;
    var a := t[..i];
    RunEscaped(START, a);
    forall j | 0 <= j < i && a[j] == ','
      ensures !AtTop(Run(START, a[..j]))
    {
      assert a[..j] == t[..j];
    }
  }

  lemma FirstPiece(t: string, i: nat)
    requires Balanced(t) && FirstComma(t, 0) == Some(i)
    ensures Piece(t[..i]) && Balanced(t[i + 1..])
  {
    hide Run, Sound, CommaFree, FirstComma;
    var a, b := t[..i], t[i + 1..];
    BeforeComma(t, i);
    PrefixAppend(a, "," + b);
    PlainTexts();
    PrefixAppend(",", b);
  }

  /** Every balanced text can be cut at its top-level commas. */
  lemma {:induction false} BalancedSplits(inner: string)
    requires Balanced(inner)
    ensures SplitOf(inner).Some?
    decreases |inner|
  {
    hide Balanced, Piece;
    var i := FirstComma(inner, 0);
    if inner == "" {
      SplitIs(inner, []);
    } else if i.None? {
      WholePiece(inner);
      SplitIs(inner, [inner]);
    } else {
      FirstPiece(inner, i.value);
      var rest := inner[i.value + 1..];
      BalancedSplits(rest);
      var p := if rest == "" then [""] else SplitOf(rest).value;
      PlainIsPiece("");
      SplitIs(inner, [inner[..i.value]] + p);
    }
  }

  lemma WholePiece(t: string)
    requires Balanced(t) && FirstComma(t, 0).None?
    ensures Piece(t)
  {
  }

  // ---- The closing parenthesis ----

  /** The first and the second scanner agree: what stands between a parenthesis and the one the
      first scanner finds for it is exactly a text whose quotes and parentheses the second
      scanner accepts. */
  lemma ScannersAgree(content: string, opening: nat, k: nat)
    requires opening < k < |content| && content[opening] == '('
    ensures Closes(content, opening, k) <==> content[k] == ')' && Balanced(content[opening + 1..k])
  {
    hide Run, Sound, Step;
    var inner := content[opening + 1..k];
    forall j | opening < j <= k
      ensures Run(START, content[opening..j]) == Run(START, inner[..j - opening - 1]).(depth := Run(START, inner[..j - opening - 1]).depth + 1)
    {
      assert content[opening..j] == "(" + inner[..j - opening - 1];
      AfterOpening(inner[..j - opening - 1]);
    }
    assert inner[..k - opening - 1] == inner;
    LastStep(content, opening, k);
    RunEscaped(START, inner);
    BackAtStart(Run(START, inner), content[k]);
    if Closes(content, opening, k) {
      NonnegativeIsSound(inner, content, opening, k);
    }
    if content[k] == ')' && Balanced(inner) {
      SoundIsNonnegative(inner);
    }
  }

  lemma LastStep(content: string, opening: nat, k: nat)
    requires opening < k < |content|
    ensures Run(START, content[opening..k + 1]) == Step(Run(START, content[opening..k]), content[k])
  {
    hide Run, Step;
    var t := content[opening..k + 1];
    RunSnoc(START, t, k - opening);
    assert t[..k - opening] == content[opening..k] && t[..k - opening + 1] == t;
  }

  /** One level down, the scan comes back to the start, from a depth that is positive before, exactly by
      the closing parenthesis. */
  lemma BackAtStart(s: Scan, c: char)
    requires s.escaped ==> s.quoted
    ensures s.depth >= 0 ==> (Step(s.(depth := s.depth + 1), c) == START <==> c == ')' && s == START)
  {
  }

  lemma AfterOpening(t: string)
    ensures Run(START, "(" + t) == Run(START, t).(depth := Run(START, t).depth + 1)
  {
    assert ("(" + t)[1..] == t;
    assert Run(START, "(" + t) == Run(Step(START, '('), t);
    RunShift(START, 1, t);
  }

  lemma NonnegativeIsSound(inner: string, content: string, opening: nat, k: nat)
    requires opening < k < |content| && inner == content[opening + 1..k]
    requires forall j :: opening < j <= k ==>
               var scan := Run(START, inner[..j - opening - 1]);
               Run(START, content[opening..j]) == scan.(depth := scan.depth + 1)
    requires forall j :: opening < j <= k ==> Run(START, content[opening..j]).depth >= 1
    ensures Sound(inner)
  {
    forall i | 0 <= i < |inner| && inner[i] == ')'
      ensures !AtTop(Run(START, inner[..i]))
    {
      RunSnoc(START, inner, i);
      var j := opening + 2 + i;
      assert Run(START, content[opening..j]).depth >= 1;
      assert inner[..j - opening - 1] == inner[..i + 1];
    }
  }

  lemma {:induction false} SoundPrefix(t: string, j: nat)
    requires Sound(t) && j <= |t|
    ensures Run(START, t[..j]).depth >= 0
  {
    if j > 0 {
      SoundPrefix(t, j - 1);
      RunSnoc(START, t, j - 1);
    }
  }

  lemma SoundIsNonnegative(t: string)
    requires Sound(t)
    ensures forall j :: 0 <= j <= |t| ==> Run(START, t[..j]).depth >= 0
  {
    forall j | 0 <= j <= |t|
      ensures Run(START, t[..j]).depth >= 0
    {
      SoundPrefix(t, j);
    }
  }

  lemma ClosesUnique(content: string, opening: nat, j: nat, k: nat)
    requires Closes(content, opening, j) && Closes(content, opening, k)
    ensures j == k
  {
  }

  lemma ClosingIs(content: string, opening: nat, k: nat)
    requires Closes(content, opening, k)
    ensures ClosingOf(content, opening) == Some(k)
  {
    ClosesUnique(content, opening, k, ClosingOf(content, opening).value);
  }

  lemma SplitIs(inner: string, pieces: seq<string>)
    requires IsSplit(inner, pieces)
    ensures SplitOf(inner) == Some(pieces)
  {
    IsSplitUnique(inner, pieces, SplitOf(inner).value);
  }

  // ---- The loops ----

  method FindClosingParenthesis(content: string, opening: nat) returns (r: Option<nat>)
    requires opening < |content| && content[opening] == '('
    ensures r == ClosingOf(content, opening)
  {
    var depth, quoted, escaped := 0, false, false;
    var index := opening;
    while index < |content|
      invariant opening <= index <= |content|
      invariant Scan(depth, quoted, escaped) == Run(START, content[opening..index])
      invariant forall j :: opening < j <= index ==> Run(START, content[opening..j]).depth >= 1
      invariant index == opening ==> depth == 0
    {
      var character := content[index];
      assert content[opening..][..index - opening] == content[opening..index];
      assert content[opening..][..index - opening + 1] == content[opening..index + 1];
      RunSnoc(START, content[opening..], index - opening);
      RunEscaped(START, content[opening..index]);
      if quoted {
        if escaped {
          escaped := false;
        } else if character == '\\' {
          escaped := true;
        } else if character == '"' {
          quoted := false;
        }
      } else if character == '"' {
        quoted := true;
      } else if character == '(' {
        depth := depth + 1;
      } else if character == ')' {
        depth := depth - 1;
        if depth == 0 {
          ClosingIs(content, opening, index);
          return Some(index);
        }
        if depth < 0 {
          break;
        }
      }
      index := index + 1;
    }
    forall k: nat
      ensures !Closes(content, opening, k)
    {
      if opening < k < index {
        assert Run(START, content[opening..k + 1]).depth >= 1;
      }
    }
    return None;
  }

  method SplitEntries(inner: string) returns (r: Option<seq<string>>)
    ensures r == SplitOf(inner)
    ensures r.Some? <==> Balanced(inner)
  {
    hide Run, Cut, Balanced, IsSplit;
    if inner == "" {
      EmptySplit();
      return Some([]);
    }
    CutStarts(inner);
    var entries: seq<string> := [];
    var start, depth, quoted, escaped := 0, 0, false, false;
    var index := 0;
    while index < |inner|
      invariant 0 <= start <= index <= |inner|
      invariant Scan(depth, quoted, escaped) == Run(START, inner[..index])
      invariant Cut(inner, start, index, entries)
    {
      var character := inner[index];
      RunSnoc(START, inner, index);
      RunEscaped(START, inner[..index]);
      CutGrows(inner, start, index, entries);
      if quoted {
        if escaped {
          escaped := false;
        } else if character == '\\' {
          escaped := true;
        } else if character == '"' {
          quoted := false;
        }
      } else if character == '"' {
        quoted := true;
      } else if character == '(' {
        depth := depth + 1;
      } else if character == ')' {
        if depth == 0 {
          NoSplitOf(inner, index);
          return None;
        }
        depth := depth - 1;
      } else if character == ',' && depth == 0 {
        entries := entries + [inner[start..index]];
        start := index + 1;
      }
      index := index + 1;
    }
    assert inner[..index] == inner;
    if quoted || depth != 0 {
      Unfinished(inner);
      return None;
    }
    RunEscaped(START, inner);
    CutEnds(inner, start, entries);
    return Some(entries + [inner[start..]]);
  }

  lemma EmptySplit()
    ensures SplitOf("") == Some([]) && Balanced("")
  {
    SplitIs("", []);
  }

  lemma CutStarts(inner: string)
    ensures Cut(inner, 0, 0, []) && Run(START, inner[..0]) == START
  {
    PlainIsPiece("");
  }

  /** A text that ends inside quotes or parentheses has no cut. */
  lemma Unfinished(inner: string)
    requires Run(START, inner) != START
    ensures SplitOf(inner) == None && !Balanced(inner)
  {
    hide Run, Sound, CommaFree, Join;
    if SplitOf(inner).Some? {
      JoinBalanced(SplitOf(inner).value);
    }
  }

  lemma CutEnds(inner: string, start: nat, entries: seq<string>)
    requires Cut(inner, start, |inner|, entries) && Run(START, inner) == START && inner != ""
    ensures SplitOf(inner) == Some(entries + [inner[start..]]) && Balanced(inner)
  {
    hide Run, Sound, CommaFree, Join;
    assert inner[..|inner|] == inner && inner[start..] == inner[start..|inner|];
    assert inner == inner[..start] + inner[start..];
    PrefixAppend(inner[..start], inner[start..]);
    SplitIs(inner, entries + [inner[start..]]);
  }

  /** `entries` are the pieces of `inner[..start]`, and the piece from `start` is still open. */
  ghost predicate Cut(inner: string, start: nat, index: nat, entries: seq<string>) {
    && start <= index <= |inner|
    && Run(START, inner[..start]) == START
    && Sound(inner[..index])
    && CommaFree(inner[start..index])
    && (forall i :: 0 <= i < |entries| ==> Piece(entries[i]))
    && inner[..index] == Join(entries + [inner[start..index]])
  }

  lemma CutGrows(inner: string, start: nat, index: nat, entries: seq<string>)
    requires Cut(inner, start, index, entries) && index < |inner|
    ensures Run(START, inner[..index]) == Run(START, inner[start..index])
    ensures !(AtTop(Run(START, inner[..index])) && (inner[index] == ',' || inner[index] == ')'))
        ==> Cut(inner, start, index + 1, entries)
    ensures Run(START, inner[..index]) == START && inner[index] == ','
        ==> Cut(inner, index + 1, index + 1, entries + [inner[start..index]])
  {
    hide Piece, AtTop, Sound, CommaFree, Join, Run, Step;
    var cut := inner[start..index];
    var c := inner[index];
    assert inner[..index] == inner[..start] + cut;
    RunAppend(START, inner[..start], cut);
    GrowPiece(inner, index);
    assert inner[start..][..index - start] == cut;
    assert inner[start..][..index - start + 1] == cut + [c] == inner[start..index + 1];
    GrowPiece(inner[start..], index - start);
    assert inner[..index + 1] == inner[..index] + [c];
    JoinSnoc(entries, cut);
    JoinSnoc(entries, cut + [c]);
    if Run(START, inner[..index]) == START && c == ',' {
      CutAtComma(inner, start, index, entries);
    }
  }

  lemma CutAtComma(inner: string, start: nat, index: nat, entries: seq<string>)
    requires Cut(inner, start, index, entries) && index < |inner|
    requires Run(START, inner[..index]) == START && inner[index] == ','
    ensures Cut(inner, index + 1, index + 1, entries + [inner[start..index]])
  {
    hide Sound, CommaFree, Join;
    var cut := inner[start..index];
    CutIsPiece(inner, start, index, entries);
    JoinSnoc(entries + [cut], "");
    assert inner[index + 1..index + 1] == "";
    assert inner[..index + 1] == inner[..index] + ",";
    EmptyIsPiece();
  }

  lemma CutIsPiece(inner: string, start: nat, index: nat, entries: seq<string>)
    requires Cut(inner, start, index, entries) && index < |inner|
    requires Run(START, inner[..index]) == START && inner[index] == ','
    ensures Piece(inner[start..index])
    ensures Run(START, inner[..index + 1]) == START && Sound(inner[..index + 1])
  {
    hide Join;
    assert inner[..index] == inner[..start] + inner[start..index];
    PrefixAppend(inner[..start], inner[start..index]);
    RunSnoc(START, inner, index);
    GrowPiece(inner, index);
  }

  lemma EmptyIsPiece()
    ensures Piece("")
  {
  }

  /** One more character keeps a prefix sound and free of commas unless it is one itself. */
  lemma GrowPiece(t: string, i: nat)
    requires i < |t|
    ensures Sound(t[..i]) && !(t[i] == ')' && AtTop(Run(START, t[..i]))) ==> Sound(t[..i + 1])
    ensures CommaFree(t[..i]) && !(t[i] == ',' && AtTop(Run(START, t[..i]))) ==> CommaFree(t[..i + 1])
  {
    forall j | 0 <= j <= i
      ensures t[..i + 1][..j] == t[..j]
    {
    }
    forall j | 0 <= j < i
      ensures t[..i][..j] == t[..j] && t[..i][j] == t[j] == t[..i + 1][j]
    {
    }
  }

  lemma NoSplitOf(inner: string, index: nat)
    requires index < |inner| && inner[index] == ')' && AtTop(Run(START, inner[..index]))
    ensures forall p :: !IsSplit(inner, p)
    ensures !Balanced(inner)
  {
    forall p
      ensures !IsSplit(inner, p)
    {
      if IsSplit(inner, p) {
        JoinBalanced(p);
      }
    }
  }

  method TopLevelEqual(raw: string) returns (r: Option<nat>)
    ensures r == FirstEqual(raw, 0)
  {
    var depth, quoted, escaped := 0, false, false;
    var index := 0;
    while index < |raw|
      invariant 0 <= index <= |raw|
      invariant Scan(depth, quoted, escaped) == Run(START, raw[..index])
      invariant forall j :: 0 <= j < index ==> !EqualAt(raw, j)
    {
      var character := raw[index];
      RunSnoc(START, raw, index);
      RunEscaped(START, raw[..index]);
      if quoted {
        if escaped {
          escaped := false;
        } else if character == '\\' {
          escaped := true;
        } else if character == '"' {
          quoted := false;
        }
      } else if character == '"' {
        quoted := true;
      } else if character == '(' {
        depth := depth + 1;
      } else if character == ')' {
        depth := depth - 1;
      } else if character == '=' && depth == 0 {
        assert EqualAt(raw, index);
        return Some(index);
      }
      index := index + 1;
    }
    return None;
  }
}
