/** Field validators: turn loose spreadsheet cells into typed values. */
module Validators {
  import opened Wrappers
  import opened Types
  import opened JsString
  import opened JsNumber

  /** The error `validatePath` throws, carrying the offending input. */
  datatype PathError = BadPath(input: string)

  /** `String(c)`, i.e. what `c.toString()` yields for a present cell. */
  function CellText(c: Cell): string {
    match c
    case Undefined => "undefined"
    case Str(s) => s
    case Bool(b) => if b then "true" else "false"
  }

  /** The cells JavaScript treats as false in `!input`. */
  predicate IsFalsy(c: Cell) {
    c == Undefined || c == Str("") || c == Bool(false)
  }

  /** The cells `validateBoolean` answers with its default right away. */
  predicate IsBlank(c: Cell) {
    c == Undefined || c == Str("")
  }

  const TrueTokens: seq<string> := ["y", "1", "t", "yes", "true"]
  const FalseTokens: seq<string> := ["n", "0", "f", "no", "false"]

  /** `validatePath`: any non-empty string is accepted and returned trimmed;
      only the empty string is refused. The emptiness test looks at the
      untrimmed input, so a whitespace-only input is accepted as `""`. */
  function ValidatePath(input: string): (r: Result<string, PathError>)
    ensures r.Failure? <==> input == ""
    ensures r.Failure? ==> r.error == BadPath(input)
    ensures r.Success? ==> r.value == Trim(input) && NoOuterSpace(r.value)
    ensures r.Success? && AllSpace(input) ==> r.value == ""
    ensures input != "" && NoOuterSpace(input) ==> r == Success(input)
  {
    if |input| > 0 then Success(Trim(input)) else Failure(BadPath(input))
  }

  /** A whitespace-only path passes validation as the empty path. */
  lemma ValidatePathAcceptsBlank()
    ensures ValidatePath("   ") == Success("")
  {
  }

  /** `validatePath` as its comment intends it ("non-blanks"): a path that
      is empty after trimming is refused. */
  function ValidatePathNonBlank(input: string): (r: Result<string, PathError>)
    ensures r.Failure? <==> AllSpace(input)
    ensures r.Success? ==> r.value == Trim(input) && r.value != "" && NoOuterSpace(r.value)
    ensures r.Failure? ==> r.error == BadPath(input)
  {
    var t := Trim(input);
    if |t| > 0 then Success(t) else Failure(BadPath(input))
  }

  /** The corrected validator differs from the written one only on
      non-empty whitespace-only input. */
  lemma ValidatePathNonBlankAgrees(input: string)
    ensures (ValidatePathNonBlank(input) == ValidatePath(input))
              <==> (input == "" || !AllSpace(input))
  {
    if input != "" && AllSpace(input) {
      assert ValidatePath(input).Success?;
    }
  }

  /** `validateBoolean`: blank input gives `preferred`; otherwise the
      lower-cased, untrimmed text decides when it is one of the known
      tokens, and `preferred` decides when it is not. */
  function ValidateBoolean(input: Cell, preferred: bool): (r: bool)
    ensures IsBlank(input) ==> r == preferred
    ensures !IsBlank(input) && ToLowerAscii(CellText(input)) in TrueTokens ==> r
    ensures !IsBlank(input) && ToLowerAscii(CellText(input)) in FalseTokens ==> !r
    ensures r != preferred ==>
              && !IsBlank(input)
              && ToLowerAscii(CellText(input)) in (if r then TrueTokens else FalseTokens)
  {
    if IsBlank(input) then preferred
    else
      var test := ToLowerAscii(CellText(input));
      if test in TrueTokens then true
      else if test in FalseTokens then false
      else preferred
  }

  /** A boolean cell is read as itself, whatever the default. */
  lemma ValidateBooleanOfBool(b: bool, preferred: bool)
    ensures ValidateBoolean(Bool(b), preferred) == b
  {
    if b {
      assert ToLowerAscii("true") == "true";
    } else {
      assert ToLowerAscii("false") == "false";
    }
  }

  /** Case does not matter: a text cell reads like its lower-cased form. */
  lemma ValidateBooleanIgnoresCase(s: string, preferred: bool)
    ensures ValidateBoolean(Str(s), preferred) == ValidateBoolean(Str(ToLowerAscii(s)), preferred)
  {
    ToLowerAsciiIdempotent(s);
  }

  /** Mixed-case tokens decide against the default; other text does not. */
  lemma ValidateBooleanMixedCase()
    ensures ValidateBoolean(Str("yEs"), false) == true
    ensures ValidateBoolean(Str("tRuE"), false) == true
    ensures ValidateBoolean(Str("FaLsE"), true) == false
    ensures ValidateBoolean(Str("HELLO"), true) == true
  {
    assert ToLowerAscii("yEs") == "yes";
    assert ToLowerAscii("tRuE") == "true";
    assert ToLowerAscii("FaLsE") == "false";
    assert ToLowerAscii("HELLO") == "hello";
  }

  /** The token check does not trim: a padded token is not recognised. */
  lemma ValidateBooleanDoesNotTrim()
    ensures ValidateBoolean(Str(" yes"), false) == false
    ensures ValidateBoolean(Str("no "), true) == true
  {
    assert ToLowerAscii(" yes") == " yes";
    assert ToLowerAscii("no ") == "no ";
  }

  /** `validateCode`: falsy input gives `preferred`; any other result is
      the integer `parseInt` reads from the cell's text (and
      `ValidateCodeKeepsParsedCode` shows that such a redirect code is
      always kept). */
  function ValidateCode(input: Cell, preferred: RedirectCode): (r: RedirectCode)
    ensures IsFalsy(input) ==> r == preferred
    ensures r != preferred ==> !IsFalsy(input) && ParseInt(CellText(input)) == Some(r as int)
  {
    if IsFalsy(input) then preferred
    else
      var test := ParseInt(CellText(input));
      if test.Some? && IsRedirectCode(test.value) then test.value else preferred
  }

  /** The converse: a present cell whose text parses to a redirect code
      yields that code, whatever the default. */
  lemma ValidateCodeKeepsParsedCode(input: Cell, preferred: RedirectCode)
    ensures var test := ParseInt(CellText(input));
      (!IsFalsy(input) && test.Some? && IsRedirectCode(test.value)) ==> ValidateCode(input, preferred) == test.value
  {
  }

  /** A numeric cell, or its decimal text, is kept exactly when it is a
      redirect code; any other integer gives `preferred`. */
  lemma ValidateCodeOfNumber(n: int, preferred: RedirectCode)
    ensures ValidateCode(Str(NumberText(n)), preferred)
              == if IsRedirectCode(n) then n else preferred
  {
    ParseIntNumberText(n);
  }

  /** Text that starts (after whitespace) with a decimal numeral is judged
      by that numeral alone; whatever follows it is ignored. */
  lemma ValidateCodeOfDecimalPrefix(space: string, ds: string, rest: string, preferred: RedirectCode)
    requires AllSpace(space)
    requires |ds| > 0 && AllDecimal(ds)
    requires |rest| == 0 || !IsDecimalDigit(rest[0])
    requires !(ds == "0" && |rest| > 0 && (rest[0] == 'x' || rest[0] == 'X'))
    ensures var v := DigitsValue(ds, 10);
      ValidateCode(Str(space + ds + rest), preferred) == if IsRedirectCode(v) then v else preferred
  {
    ParseIntDecimalPrefix(space, ds, rest);
  }

  /** Blank and non-numeric text falls back to the default. */
  lemma ValidateCodeNonNumeric()
    ensures ValidateCode(Undefined, 301) == 301
    ensures ValidateCode(Str(""), 302) == 302
    ensures ValidateCode(Str(" "), 301) == 301
    ensures ValidateCode(Str("HELLO"), 301) == 301
  {
    assert AllSpace(" ");
    assert LeadingSpace("HELLO") == 0;
    assert DigitPrefix("HELLO", 10) == [];
  }

  /** A fractional numeral is read up to its decimal point. */
  lemma ValidateCodeFraction()
    ensures ValidateCode(Str("3.14159"), 307) == 307
  {
    var s := "3.14159";
    NoLeadingSpace(s);
    assert s == "3" + ".14159";
    ParseIntUnsigned(s, "3", ".14159");
    assert DigitsValue("3", 10) == 3 by {
      assert "3"[..0] == "";
    }
  }

  /** `parseInt` honours a hexadecimal prefix, so `0x12D` is read as 301. */
  lemma ValidateCodeHex()
    ensures ValidateCode(Str("0x12D"), 302) == 301
  {
    ParseIntHexExample();
  }
}
