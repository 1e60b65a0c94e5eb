/** The typed values of the settings catalogue: `parse_setting_value` and
    `serialize_setting_value`. */
module SettingValues {
  import opened Common
  import opened IniScanner
  import opened IniSplice
  import opened JsonText

  datatype Kind = Boolean | Enumeration | Integer | Number | ReadOnly | Sensitive | Text

  /** `admits` is the numeric part of a definition: the stripped text is a number in Python's
      syntax for the kind, and its value lies between the minimum and the maximum. */
  datatype Definition = Definition(kind: Kind, options: seq<string>, admits: string -> bool)

  /** The schema, and the expression that recognises the names of secrets. */
  datatype Catalog = Catalog(definitions: map<string, Definition>, sensitiveName: string -> bool)

  datatype ValueError = NotBoolean | NotNumber | BadQuotes | BadOption | TooLong | ControlCharacter | NotEditable

  const MAX_STRING_LENGTH: nat := 2048

  /** Digits, signs, letters, dots and underscores: the alphabet of numbers and option names. */
  predicate IsWord(t: string) {
    t != "" && forall i :: 0 <= i < |t| ==> PlainChar(t[i]) && !IsSpace(t[i])
  }

  /** What the table in `definitions.py` and the syntax of `Decimal` guarantee. */
  ghost predicate WellFormed(d: Definition) {
    && (d.kind.Integer? || d.kind.Number? ==> forall t :: d.admits(t) ==> IsWord(t))
    && (d.kind.Enumeration? ==> forall i :: 0 <= i < |d.options| ==> IsWord(d.options[i]))
  }

  ghost predicate WellFormedCatalog(catalog: Catalog) {
    forall key :: key in catalog.definitions ==> WellFormed(catalog.definitions[key])
  }

  predicate Editable(kind: Kind) {
    !kind.ReadOnly? && !kind.Sensitive?
  }

  function LowerChar(c: char): char {
    if 'A' <= c <= 'Z' then ((c as int) - ('A' as int) + ('a' as int)) as char else c
  }

  function Lower(s: string): string {
    seq(|s|, i requires 0 <= i < |s| => LowerChar(s[i]))
  }

  function ParseString(raw: string): Result<string, ValueError> {
    var normalized := Strip(raw);
    if normalized == "" || normalized[0] != '"' then Ok(normalized)
    else
      var value := Loads(normalized);
      if value.None? then Err(BadQuotes) else Ok(value.value)
  }

  function ParseSettingValue(d: Definition, raw: string): Result<string, ValueError> {
    match d.kind
    case Boolean =>
      var normalized := Lower(Strip(raw));
      if normalized == "true" then Ok("True") else if normalized == "false" then Ok("False") else Err(NotBoolean)
    case Integer =>
      if d.admits(Strip(raw)) then Ok(Strip(raw)) else Err(NotNumber)
    case Number =>
      if d.admits(Strip(raw)) then Ok(Strip(raw)) else Err(NotNumber)
    case Enumeration =>
      var value := ParseString(raw);
      if value.Err? then value else if value.value !in d.options then Err(BadOption) else value
    case Text =>
      var value := ParseString(raw);
      if value.Err? then value
      else if |value.value| > MAX_STRING_LENGTH then Err(TooLong)
      else if '\0' in value.value || '\r' in value.value || '\n' in value.value then Err(ControlCharacter)
      else value
    case ReadOnly => Err(NotEditable)
    case Sensitive => Err(NotEditable)
  }

  function Serialize(d: Definition, value: string): Result<string, ValueError> {
    var normalized := ParseSettingValue(d, value);
    if normalized.Err? then normalized
    else if d.kind.Text? then Ok(Dumps(normalized.value))
    else normalized
  }

  lemma WordIsSpliceable(t: string)
    requires IsWord(t)
    ensures Spliceable(t) && Strip(t) == t && t[0] != '"'
  {
    PlainIsPiece(t);
    StripTrimmed(t);
  }

  /** A submitted value, once written to the file, reads back as exactly what was submitted, and
      what is written cannot disturb the entries around it. */
  lemma SerializeReadsBack(d: Definition, value: string)
    requires WellFormed(d) && ParseSettingValue(d, value).Ok?
    ensures Serialize(d, value).Ok?
    ensures ParseSettingValue(d, Serialize(d, value).value) == ParseSettingValue(d, value)
    ensures Spliceable(Serialize(d, value).value)
  {
    hide Strip, Loads, Piece, Dumps;
    var v := ParseSettingValue(d, value).value;
    match d.kind
    case Boolean =>
      WordIsSpliceable("True");
      WordIsSpliceable("False");
      assert Lower("True") == "true" && Lower("False") == "false";
    case Integer =>
      WordIsSpliceable(v);
    case Number =>
      WordIsSpliceable(v);
    case Enumeration =>
      WordIsSpliceable(v);
    case Text =>
      DumpsIsPiece(v);
      StripTrimmed(Dumps(v));
      DumpsQuoted(v);
      LoadsDumps(v);
    case ReadOnly =>
    case Sensitive =>
  }

  lemma DumpsQuoted(s: string)
    ensures Dumps(s) != "" && Dumps(s)[0] == '"'
  {
  }
}
