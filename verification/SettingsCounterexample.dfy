/** Why `Recoverable` asks for the redacted text to be accepted: a file that is accepted, has unique
    keys and valid values, and whose own redacted backup cannot be restored. A secret that spans a
    line break hides a `[`; redacting it joins the line up to a `]` after the list, and the line
    becomes a section header that cuts the list off. */
module SettingsCounterexample {
  import opened Common
  import opened IniScanner
  import opened IniLocator
  import opened IniDocument
  import opened IniSplice
  import opened SettingValues
  import opened SettingsMerge
  import opened SettingsRedaction

  const HEAD: string := "[" + SECTION_NAME + "]\n"
  const ASSIGN: string := OPTION_NAME + "=("
  const PREFIX: string := HEAD + ASSIGN
  const INNER: string := "A=1\n[,Password=x\n],B=2"
  const REDACTED_INNER: string := "A=1\n[,Password=\"\",B=2"
  const CONTENT: string := PREFIX + INNER + ")]"
  const BACKUP: string := PREFIX + REDACTED_INNER + ")]"

  /** A header line between the parentheses makes the file unreadable. */
  lemma HeaderInside(content: string, pieces: seq<string>, i: nat)
    requires ParseIni(content).Ok?
    requires forall j :: 0 <= j < |pieces| ==> Piece(pieces[j])
    requires pieces == [] <==> Join(pieces) == ""
    requires var doc := ParseIni(content).value;
             var out := doc.prefix + Join(pieces) + doc.suffix;
             |doc.prefix| <= i <= |doc.prefix| + |Join(pieces)| && HeaderAt(out, i).Some?
    ensures var doc := ParseIni(content).value; ParseIni(doc.prefix + Join(pieces) + doc.suffix).Err?
  {
    hide ParseIni, ParseEntry, Piece, Join, HeaderAt, NextHeader, NextOption, OptionAt, Locate, IsSplit, OptionLine;
    var doc, raws, inner := ParseParts(content);
    var out := doc.prefix + Join(pieces) + doc.suffix;
    Reparse(content, pieces);
    if Locate(out).Some? {
      assert out[..|doc.prefix|] == doc.prefix == content[..|doc.prefix|];
      SiteStable(content, out);
      var lo, line, name := SiteAnatomy(out);
      OptionLineFacts(out, line, name, Locate(out).value.opening);
      HeaderIsFirst(out, lo, false);
      assert IsHeader(out, i, false);
    }
  }

  lemma HeadFacts()
    ensures |HEAD| == 35 && HEAD[0] == '[' && HEAD[33] == ']' && HEAD[34] == '\n' && HEAD[1..33] == SECTION_NAME
    ensures forall i :: 1 <= i < 33 ==> !EndsBody(HEAD[i])
    ensures forall i :: 0 <= i < 34 ==> HEAD[i] != '\n'
  {
    assert forall i :: 0 <= i < 32 ==> !EndsBody(SECTION_NAME[i]);
    assert forall i :: 1 <= i < 33 ==> HEAD[i] == SECTION_NAME[i - 1];
  }

  lemma AssignFacts()
    ensures |ASSIGN| == 16 && ASSIGN[0] == 'O' && ASSIGN[14] == '=' && ASSIGN[15] == '(' && ASSIGN[..14] == OPTION_NAME
    ensures forall i :: 0 <= i < 16 ==> ASSIGN[i] != '\n'
  {
  }

  lemma InnerFacts()
    ensures |INNER| == 22 && INNER[3] == '\n' && INNER[4] == '[' && INNER[16] == '\n' && INNER[17] == ']'
    ensures forall i :: 0 <= i < 22 && INNER[i] == '\n' ==> i == 3 || i == 16
    ensures forall i :: 4 <= i < 16 ==> !EndsBody(INNER[i])
  {
  }

  lemma Newlines()
    ensures |CONTENT| == 75 && |PREFIX| == 51 && CONTENT[..51] == PREFIX
    ensures forall i :: 0 <= i < 75 && CONTENT[i] == '\n' ==> i == 34 || i == 54 || i == 67
    ensures CONTENT[0] == '[' && CONTENT[33] == ']' && CONTENT[34] == '\n' && CONTENT[35] == 'O'
    ensures CONTENT[54] == '\n' && CONTENT[55] == '[' && CONTENT[67] == '\n' && CONTENT[68] == ']'
    ensures CONTENT[49] == '=' && CONTENT[50] == '(' && CONTENT[73] == ')' && CONTENT[74] == ']'
    ensures forall i :: 1 <= i < 33 ==> !EndsBody(CONTENT[i])
    ensures forall i :: 55 <= i < 67 ==> !EndsBody(CONTENT[i])
    ensures CONTENT[1..33] == SECTION_NAME && CONTENT[35..49] == OPTION_NAME
  {
    hide HEAD, ASSIGN, INNER, OPTION_NAME, SECTION_NAME, EndsBody;
    HeadFacts();
    AssignFacts();
    InnerFacts();
    assert forall i :: 0 <= i < 35 ==> CONTENT[i] == HEAD[i];
    assert forall i :: 35 <= i < 51 ==> CONTENT[i] == ASSIGN[i - 35];
    assert forall i :: 51 <= i < 73 ==> CONTENT[i] == INNER[i - 51];
    assert forall i :: 73 <= i < 75 ==> CONTENT[i] == ")]"[i - 73];
    assert CONTENT[1..33] == HEAD[1..33];
    assert CONTENT[35..49] == ASSIGN[..14];
  }

  lemma HeaderOfContent()
    ensures |CONTENT| == 75 && HeaderAt(CONTENT, 0) == Some(Header(SECTION_NAME, 34))
  {
    hide CONTENT;
    Newlines();
    assert SpaceRun(CONTENT, 0) == 0;
    assert BodyEnd(CONTENT, 1) == 33;
    assert SpaceRun(CONTENT, 34) == 35;
    assert TrailEnd(CONTENT, 34, 35) == TrailEnd(CONTENT, 34, 34) == Some(34);
  }

  lemma NoOtherHeader(i: nat)
    requires 0 < i <= 75
    ensures |CONTENT| == 75 && HeaderAt(CONTENT, i).None?
  {
    hide CONTENT;
    Newlines();
    if i == 35 {
      assert SpaceRun(CONTENT, 35) == 35;
    } else if i == 55 {
      assert SpaceRun(CONTENT, 55) == 55;
      assert BodyEnd(CONTENT, 56) == 67;
    } else if i == 68 {
      assert SpaceRun(CONTENT, 68) == 68;
    }
  }

  lemma TheOption()
    ensures |CONTENT| == 75 && OptionAt(CONTENT, 34, 75, 35) == Some(51)
  {
    hide CONTENT, OPTION_NAME, Spells;
    Newlines();
    OptionNameFacts();
    SpellsIs(CONTENT[35..49], OPTION_NAME);
    assert BlankRun(CONTENT, 35, 75) == 35;
    assert BlankRun(CONTENT, 49, 75) == 49;
    assert BlankRun(CONTENT, 50, 75) == 50;
  }

  lemma NoOtherOption(i: nat)
    requires 34 <= i <= 75 && i != 35
    ensures |CONTENT| == 75 && OptionAt(CONTENT, 34, 75, i).None?
  {
    hide CONTENT, OPTION_NAME, NameAt;
    Newlines();
    if i == 34 {
      assert BlankRun(CONTENT, 34, 75) == 34;
      NameHasNoBreak(CONTENT, 34, 75, 34);
    } else if i == 55 {
      assert BlankRun(CONTENT, 55, 75) == 55;
      NameHasNoBreak(CONTENT, 55, 75, 67);
    } else if i == 68 {
      assert BlankRun(CONTENT, 68, 75) == 68;
      NameTooShort(68);
    }
  }

  lemma NameTooShort(j: nat)
    requires 61 < j <= 75 == |CONTENT|
    ensures !NameAt(CONTENT, j, 75)
  {
    hide CONTENT;
  }

  lemma SectionOfContent()
    ensures |CONTENT| == 75 && HeaderAt(CONTENT, 0) == Some(Header(SECTION_NAME, 34))
    ensures NextHeader(CONTENT, 0, true) == Some(0) && NextHeader(CONTENT, 34, true) == None
    ensures SectionEnd(CONTENT, 34) == 75
  {
    hide CONTENT, HeaderAt, Spells, SECTION_NAME;
    HeaderOfContent();
    SpellsIs(SECTION_NAME, SECTION_NAME);
    forall i | 0 < i <= 75
      ensures HeaderAt(CONTENT, i).None?
    {
      NoOtherHeader(i);
    }
  }

  lemma OptionOfContent()
    ensures |CONTENT| == 75 && OptionAt(CONTENT, 34, 75, 35) == Some(51)
    ensures NextOption(CONTENT, 34, 75, 34) == Some(35) && NextOption(CONTENT, 34, 75, 51) == None
  {
    hide CONTENT, OptionAt;
    TheOption();
    forall i | 34 <= i <= 75 && i != 35
      ensures OptionAt(CONTENT, 34, 75, i).None?
    {
      NoOtherOption(i);
    }
  }

  lemma LocateContent()
    ensures Locate(CONTENT) == Some(Site(50, 75))
  {
    hide CONTENT, HeaderAt, NextHeader, OptionAt, NextOption, SectionEnd, Locate, OptionSite, SECTION_NAME;
    SectionOfContent();
    OptionOfContent();
    LocateIs(CONTENT, 0);
    OptionSiteIs(CONTENT, 34, 75, 35, 51);
  }

  function Pieces(): seq<string> {
    ["A=1\n[", "Password=x\n]", "B=2"]
  }

  lemma ContentParts()
    ensures CONTENT == PREFIX + INNER + ")]" && Join(Pieces()) == INNER && |INNER| == 22
  {
    JoinPieces("A=1\n[", "Password=x\n]", "B=2");
  }

  lemma PlainPieces()
    ensures forall i :: 0 <= i < 3 ==> Piece(Pieces()[i])
  {
    hide Piece;
    PlainIsPiece("A=1\n[");
    PlainIsPiece("Password=x\n]");
    PlainIsPiece("B=2");
  }

  lemma PiecesOfContent()
    ensures ParseIni(CONTENT) == Ok(ParsedIni(PREFIX, ParseEntries(Pieces()), ")]"))
  {
    hide Locate, ParseEntry, ParseEntries, CONTENT, PREFIX, INNER, Piece, Join, Pieces;
    LocateContent();
    Newlines();
    ContentParts();
    assert CONTENT[51..73] == INNER && CONTENT[73..] == ")]";
    PiecesSplit();
    JoinBalanced(Pieces());
    ScannersAgree(CONTENT, 50, 73);
    ClosingIs(CONTENT, 50, 73);
  }

  lemma PiecesSplit()
    ensures SplitOf(INNER) == Some(Pieces())
    ensures forall i :: 0 <= i < |Pieces()| ==> Piece(Pieces()[i])
  {
    hide CONTENT, PREFIX, INNER, Piece, Join;
    PlainPieces();
    ContentParts();
    SplitIs(INNER, Pieces());
  }

  lemma JoinPieces(a: string, b: string, c: string)
    ensures Join([a, b, c]) == a + "," + b + "," + c
  {
    assert [a, b, c][1..] == [b, c] && [b, c][1..] == [c];
    assert Join([c]) == c;
    assert Join([b, c]) == b + "," + c;
    assert a + "," + (b + "," + c) == a + "," + b + "," + c;
  }

  lemma EntriesOfContent()
    ensures ParseEntry("A=1\n[").Keyed? && ParseEntry("A=1\n[").key == "A" && ParseEntry("A=1\n[").value == "1\n["
    ensures ParseEntry("Password=x\n]").Keyed? && ParseEntry("Password=x\n]").key == "Password"
    ensures ParseEntry("Password=x\n]").value == "x\n]"
    ensures ReplaceableBy("Password=x\n]", REDACTED, "Password=\"\"")
    ensures ParseEntry("B=2").Keyed? && ParseEntry("B=2").key == "B" && ParseEntry("B=2").value == "2"
    ensures Cuttable(ParseEntry("A=1\n[")) && Cuttable(ParseEntry("B=2"))
  {
    hide ParseEntry;
    SimpleEntry("A", "1\n[");
    SimpleEntry("Password", "x\n]");
    SimpleEntry("B", "2");
    assert "A" + "=" + "1\n[" == "A=1\n[";
    assert "Password" + "=" + "x\n]" == "Password=x\n]";
    assert "Password" + "=" + REDACTED == "Password=\"\"";
    assert "B" + "=" + "2" == "B=2";
  }

  predicate ReplaceableBy(raw: string, v: string, out: string) {
    var e := ParseEntry(raw);
    e.Keyed? && Cuttable(e) && ReplaceValue(e, v) == out
  }

  lemma SimpleEntry(key: string, v: string)
    requires IsKey(key) && Trimmed(v) && v != ""
    ensures var e := ParseEntry(key + "=" + v);
            e.Keyed? && e.key == key && e.value == v && e.raw == key + "=" + v && Cuttable(e)
    ensures ReplaceableBy(key + "=" + v, REDACTED, key + "=" + REDACTED)
  {
    hide ParseEntry;
    KeyIsPlain(key);
    KeyTrimmed(key);
    StripTrimmed(key);
    EntryOf(key, "", v, "");
    assert key + "=" + "" + v + "" == key + "=" + v;
    var raw := key + "=" + v;
    assert raw[..|key| + 1] == key + "=" && raw[|raw|..] == "";
  }

  lemma KeyTrimmed(key: string)
    requires IsKey(key)
    ensures Trimmed(key)
  {
  }

  lemma RedactedInnerFacts()
    ensures |REDACTED_INNER| == 21 && REDACTED_INNER[3] == '\n' && REDACTED_INNER[4] == '[' && REDACTED_INNER[5] == ','
    ensures forall i :: 5 <= i < 21 ==> !EndsBody(REDACTED_INNER[i])
  {
  }

  lemma HeaderOfBackup()
    ensures |BACKUP| == 74 && HeaderAt(BACKUP, 55).Some?
  {
    hide PREFIX, REDACTED_INNER, HeaderAt;
    Newlines();
    RedactedInnerFacts();
    assert forall i :: 51 <= i < 72 ==> BACKUP[i] == REDACTED_INNER[i - 51];
    assert BACKUP[72] == ")]"[0] && BACKUP[73] == ")]"[1];
    BackupHeader(BACKUP);
  }

  lemma BackupHeader(c: string)
    requires |c| == 74 && c[54] == '\n' && c[55] == '[' && c[73] == ']'
    requires forall i :: 56 <= i < 73 ==> !EndsBody(c[i])
    ensures HeaderAt(c, 55).Some?
  {
    assert SpaceRun(c, 55) == 55;
    assert BodyEnd(c, 56) == 73;
    assert TrailEnd(c, 74, SpaceRun(c, 74)) == Some(74);
  }

  /** A catalogue that knows none of the three keys, and the usual expression for secret names. */
  ghost predicate OnlyPasswordIsSecret(catalog: Catalog) {
    && catalog.definitions == map[]
    && catalog.sensitiveName("Password") && !catalog.sensitiveName("A") && !catalog.sensitiveName("B")
  }

  function RedactedPieces(): seq<string> {
    ["A=1\n[", "Password=\"\"", "B=2"]
  }

  lemma RedactedRaws(catalog: Catalog)
    requires OnlyPasswordIsSecret(catalog)
    ensures var entries := ParseEntries(Pieces());
            && (forall i :: 0 <= i < |entries| ==> Cuttable(entries[i]))
            && RenderEntries(entries, RedactedKeys(catalog, entries)) == RedactedPieces()
  {
    hide ParseEntry, Cuttable, RedactedKeys;
    EntriesOfContent();
    ParseEntryRaw("A=1\n[");
    ParseEntryRaw("B=2");
    var entries := ParseEntries(Pieces());
    assert entries == [ParseEntry("A=1\n["), ParseEntry("Password=x\n]"), ParseEntry("B=2")];
    OnlyPasswordRedacted(catalog, entries);
  }

  lemma OnlyPasswordRedacted(catalog: Catalog, entries: seq<Entry>)
    requires OnlyPasswordIsSecret(catalog)
    requires |entries| == 3 && forall i :: 0 <= i < 3 ==> entries[i].Keyed?
    requires entries[0].key == "A" && entries[1].key == "Password" && entries[2].key == "B"
    ensures var keys := RedactedKeys(catalog, entries);
            "A" !in keys && "B" !in keys && "Password" in keys && keys["Password"] == REDACTED
  {
    assert entries[1] in entries;
  }

  /** Everything else that a restore asks of the file holds. */
  lemma ContentIsOrdinary(catalog: Catalog)
    requires OnlyPasswordIsSecret(catalog)
    ensures var entries := ParseEntries(Pieces());
            && UniqueKeys(entries) && KnownValid(catalog, entries)
            && forall i :: 0 <= i < |entries| ==> Returns(catalog, entries[i])
  {
    hide ParseEntry;
    EntriesOfContent();
    assert ParseEntries(Pieces()) == [ParseEntry("A=1\n["), ParseEntry("Password=x\n]"), ParseEntry("B=2")];
  }

  lemma RedactedContent(catalog: Catalog)
    requires OnlyPasswordIsSecret(catalog)
    ensures ParseIni(CONTENT).Ok? && ParseIni(CONTENT).value.prefix == PREFIX && ParseIni(CONTENT).value.suffix == ")]"
    ensures Redact(catalog, CONTENT) == Ok(BACKUP) && BACKUP == PREFIX + Join(RedactedPieces()) + ")]"
    ensures forall i :: 0 <= i < 3 ==> Piece(RedactedPieces()[i])
  {
    hide ParseIni, Piece, Spliceable, Join, CONTENT, PREFIX, BACKUP, RedactedKeys, RenderEntries, ParseEntries, Pieces;
    PiecesOfContent();
    var entries := ParseEntries(Pieces());
    var keys := RedactedKeys(catalog, entries);
    RedactReads(catalog, CONTENT);
    RedactedRaws(catalog);
    RedactedIsSpliceable(catalog, entries);
    RenderedPieces(CONTENT, keys);
    BackupText();
  }

  lemma BackupText()
    ensures BACKUP == PREFIX + Join(RedactedPieces()) + ")]"
  {
    JoinPieces("A=1\n[", "Password=\"\"", "B=2");
  }

  /** The concrete file whose own backup is refused, although nothing else is wrong with it. */
  lemma RedactedHeader(catalog: Catalog)
    requires OnlyPasswordIsSecret(catalog)
    ensures ParseIni(CONTENT).Ok?
    ensures var entries := ParseIni(CONTENT).value.entries;
            && UniqueKeys(entries) && KnownValid(catalog, entries)
            && forall i :: 0 <= i < |entries| ==> Returns(catalog, entries[i])
    ensures Redact(catalog, CONTENT) == Ok(BACKUP) && ParseIni(BACKUP).Err?
    ensures Merge(catalog, BACKUP, CONTENT) == Err(MergeUnsafe)
  {
    hide ParseIni, Piece, Join, CONTENT, PREFIX, BACKUP, HeaderAt, Redact, UniqueKeys, KnownValid, Returns, ParseEntries, Pieces;
    PiecesOfContent();
    RedactedContent(catalog);
    ContentIsOrdinary(catalog);
    HeaderOfBackup();
    JoinPieces("A=1\n[", "Password=\"\"", "B=2");
    Newlines();
    HeaderInside(CONTENT, RedactedPieces(), 55);
  }
}
