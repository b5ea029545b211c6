/** The string validators of `shared/validator/validator.py`. Each check
    raises `ValueError` with a fixed message when its condition fails and
    otherwise returns the value stripped; the membership check returns the
    value as it is. `validate_name` and `validate_description` chain the
    checks, each one seeing the previous one's stripped result. */
module Validator {
  import opened Results
  import opened Text

  /** `validate_length` and `validate_name` default to lengths 3 to 50;
      `validate_description` always uses the maximum 50. */
  const DefaultMinLen: int := 3
  const DefaultMaxLen: int := 50
  /** `validate_description`'s default `min_len`. */
  const DescriptionMinLen: int := 10

  const FormatMessage: string :=
    "Value must contain only alphanumeric characters, spaces, hyphens, and underscores."
  const EnumPrefix: string := "Value must be one of the following: "

  function LengthMessage(minLen: int, maxLen: int): string {
    "Value must be between " + IntToString(minLen) + " and " + IntToString(maxLen) + " characters."
  }

  function WordCountMessage(minWords: int): string {
    "Value should contain at least " + IntToString(minWords) + " word(s)."
  }

  /** The allowed values joined by `", "` in list order, between the fixed
      prefix and a full stop. */
  function EnumMessage(allowed: seq<string>): string {
    EnumPrefix + Join(allowed, ", ") + "."
  }

  /** A character `validate_format` lets through: not a newline, tab or
      carriage return (although those are whitespace), and alphanumeric,
      whitespace, `-` or `_`. */
  predicate AllowedChar(c: char) {
    && c != '\n' && c != '\t' && c != '\r'
    && (IsAlnum(c) || IsSpace(c) || c == '-' || c == '_')
  }

  predicate AllAllowed(s: string) {
    forall i :: 0 <= i < |s| ==> AllowedChar(s[i])
  }

  // ---------------------------------------------------------------------
  // The single checks

  /** `validate_length`: the length of the raw value, before stripping, must
      lie in `[minLen, maxLen]`. */
  function ValidateLength(value: string, minLen: int, maxLen: int): (r: Result<string>)
    ensures r.Err? <==> |value| < minLen || maxLen < |value|
    ensures r.Err? ==> r.error == ValueError(LengthMessage(minLen, maxLen))
    ensures r.Ok? ==> StripsTo(value, r.value)
  {
    if !(minLen <= |value| <= maxLen) then Err(ValueError(LengthMessage(minLen, maxLen)))
    else
      StripStripsTo(value);
      Ok(Strip(value))
  }

  /** `validate_format`: every character of the raw value must be allowed. */
  function ValidateFormat(value: string): (r: Result<string>)
    ensures r.Err? <==> exists i :: 0 <= i < |value| && !AllowedChar(value[i])
    ensures r.Err? ==> r.error == ValueError(FormatMessage)
    ensures r.Ok? ==> StripsTo(value, r.value) && AllAllowed(r.value)
  {
    if !AllAllowed(value) then Err(ValueError(FormatMessage))
    else
      StripStripsTo(value);
      Ok(Strip(value))
  }

  /** `validate_word_count`: the raw value must split into at least
      `minWords` whitespace-separated words. */
  function ValidateWordCount(value: string, minWords: int): (r: Result<string>)
    ensures r.Err? <==> |Words(value)| < minWords
    ensures r.Err? ==> r.error == ValueError(WordCountMessage(minWords))
    ensures r.Ok? ==> StripsTo(value, r.value) && minWords <= |Words(r.value)|
  {
    if |Words(value)| < minWords then Err(ValueError(WordCountMessage(minWords)))
    else
      StripStripsTo(value);
      WordsOfStrip(value);
      Ok(Strip(value))
  }

  /** `validate_enum`: the value, which may be `None`, must be one of the
      allowed values; it comes back unchanged. */
  function ValidateEnum(value: Option<string>, allowed: seq<string>): (r: Result<string>)
    ensures r.Ok? <==> value.Some? && value.value in allowed
    ensures r.Ok? ==> r.value == value.value
    ensures r.Err? ==> r.error == ValueError(EnumMessage(allowed))
  {
    if value.Some? && value.value in allowed then Ok(value.value)
    else Err(ValueError(EnumMessage(allowed)))
  }

  /** Checking the format of a value the format check already returned
      gives it back unchanged. */
  lemma FormatIdempotent(value: string)
    requires ValidateFormat(value).Ok?
    ensures ValidateFormat(ValidateFormat(value).value) == ValidateFormat(value)
  {
    var t := ValidateFormat(value).value;
    StripsToIsStrip(value, t);
    StripIdempotent(value);
  }

  // ---------------------------------------------------------------------
  // The chained checks

  /** `validate_name`: length on the raw name, then format on the stripped
      name, then at least one word. The first failing check decides the
      message. */
  function ValidateName(name: string, minLen: int, maxLen: int): (r: Result<string>)
    ensures r.Ok? <==> minLen <= |name| <= maxLen && AllAllowed(Strip(name)) && Words(name) != []
    ensures r.Ok? ==> StripsTo(name, r.value)
    ensures !(minLen <= |name| <= maxLen) ==> r == Err(ValueError(LengthMessage(minLen, maxLen)))
    ensures minLen <= |name| <= maxLen && !AllAllowed(Strip(name)) ==> r == Err(ValueError(FormatMessage))
    ensures minLen <= |name| <= maxLen && AllAllowed(Strip(name)) && Words(name) == [] ==>
      r == Err(ValueError(WordCountMessage(1)))
  {
    var a :- ValidateLength(name, minLen, maxLen);
    StripsToIsStrip(name, a);
    var b :- ValidateFormat(a);
    ChainedStrip(name, a, b);
    ValidateWordCount(b, 1)
  }

  /** Stripping twice is stripping once, and keeps the words. */
  lemma ChainedStrip(s: string, a: string, b: string)
    requires a == Strip(s) && StripsTo(a, b)
    ensures b == Strip(s) && Words(b) == Words(s)
    ensures forall t :: StripsTo(b, t) ==> StripsTo(s, t)
  {
    StripsToIsStrip(a, b);
    StripIdempotent(s);
    WordsOfStrip(s);
    forall t | StripsTo(b, t) ensures StripsTo(s, t) {
      StripsToIsStrip(b, t);
      StripStripsTo(s);
    }
  }

  /** `validate_description`: length between `minLen` and the fixed maximum
      50 on the raw text, then format, then `minWords` words, each on the
      stripped text. */
  function ValidateDescription(description: string, minLen: int, minWords: int): (r: Result<string>)
    ensures r.Ok? <==>
      minLen <= |description| <= DefaultMaxLen && AllAllowed(Strip(description)) && minWords <= |Words(description)|
    ensures r.Ok? ==> StripsTo(description, r.value)
    ensures !(minLen <= |description| <= DefaultMaxLen) ==>
      r == Err(ValueError(LengthMessage(minLen, DefaultMaxLen)))
    ensures minLen <= |description| <= DefaultMaxLen && !AllAllowed(Strip(description)) ==>
      r == Err(ValueError(FormatMessage))
    ensures minLen <= |description| <= DefaultMaxLen && AllAllowed(Strip(description)) && |Words(description)| < minWords ==>
      r == Err(ValueError(WordCountMessage(minWords)))
  {
    var a :- ValidateLength(description, minLen, DefaultMaxLen);
    StripsToIsStrip(description, a);
    var b :- ValidateFormat(a);
    ChainedStrip(description, a, b);
    var c :- ValidateWordCount(b, minWords);
    StripsToIsStrip(b, c);
    StripIdempotent(description);
    StripStripsTo(description);
    Ok(Strip(c))
  }

  // ---------------------------------------------------------------------
  // Consequences

  /** With the default `min_len` of 10, a description shorter than that is
      rejected by the length check before format and word count are looked
      at. */
  lemma ShortDescriptionRejected(description: string, minWords: int)
    requires |description| < DescriptionMinLen
    ensures ValidateDescription(description, DescriptionMinLen, minWords)
         == Err(ValueError(LengthMessage(DescriptionMinLen, DefaultMaxLen)))
  {
  }

  /** A name of whitespace only passes the length and format checks on the
      way but has no word, so it is rejected. */
  lemma WhitespaceNameRejected(name: string, minLen: int, maxLen: int)
    requires AllSpace(name)
    ensures ValidateName(name, minLen, maxLen).Err?
  {
    WordsEmptyIffAllSpace(name);
  }

  /** A well-formed name surrounded by whitespace is accepted and comes
      back without it (`"  Jane-Doe  "` gives `"Jane-Doe"`). */
  lemma PaddedNameAccepted(before: string, core: string, after: string, minLen: int, maxLen: int)
    requires AllSpace(before) && AllSpace(after)
    requires core != [] && IsStripped(core) && AllAllowed(core)
    requires minLen <= |before + core + after| <= maxLen
    ensures ValidateName(before + core + after, minLen, maxLen) == Ok(core)
  {
    var s := before + core + after;
    StripUnique(before, core, after);
    WordsEmptyIffAllSpace(s);
    assert s[|before|] == core[0];
    StripsToIsStrip(s, ValidateName(s, minLen, maxLen).value);
  }

  /** A symbol anywhere in the name fails the format check. */
  lemma SymbolNameRejected()
    ensures ValidateName("Invalid@Name", DefaultMinLen, DefaultMaxLen) == Err(ValueError(FormatMessage))
  {
    var s := "Invalid@Name";
    assert s[..0] == [] && s[|s|..] == [];
    assert s[0..|s|] == s;
    StripAt(s, 0, |s|);
    assert !AllowedChar(Strip(s)[7]);
  }
}
