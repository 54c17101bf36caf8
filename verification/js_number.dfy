/** JavaScript's `parseInt` (section 19.2.5 of ECMA-262) with no radix
    argument, and the decimal numeral of an integer, which is what
    `Number.prototype.toString` gives below 10^21: the two conversions
    `validateCode` composes. */
module JsNumber {
  import opened Wrappers
  import opened JsString

  /** The value of `c` as a digit in any radix up to 36, or 36 when `c` is
      not a letter or decimal digit. */
  function CharValue(c: char): (v: nat)
    ensures v <= 36
    ensures '0' <= c <= '9' <==> v < 10
  {
    if '0' <= c <= '9' then c as int - '0' as int
    else if 'a' <= c <= 'z' then c as int - 'a' as int + 10
    else if 'A' <= c <= 'Z' then c as int - 'A' as int + 10
    else 36
  }

  predicate IsDecimalDigit(c: char) {
    '0' <= c <= '9'
  }

  ghost predicate AllDecimal(s: string) {
    forall k :: 0 <= k < |s| ==> IsDecimalDigit(s[k])
  }

  /** The longest prefix of `s` made of digits of `radix`. */
  function DigitPrefix(s: string, radix: nat): (ds: string)
    ensures |ds| <= |s| && ds == s[..|ds|]
    ensures forall k :: 0 <= k < |ds| ==> CharValue(ds[k]) < radix
    ensures |ds| < |s| ==> CharValue(s[|ds|]) >= radix
  {
    if |s| > 0 && CharValue(s[0]) < radix then [s[0]] + DigitPrefix(s[1..], radix) else []
  }

  /** The number a digit string denotes in `radix`, most significant digit
      first. */
  function DigitsValue(ds: string, radix: nat): nat {
    if |ds| == 0 then 0
    else DigitsValue(ds[..|ds| - 1], radix) * radix + CharValue(ds[|ds| - 1])
  }

  /** True when `s` starts with the `0x`/`0X` prefix that makes `parseInt`
      read the rest in radix 16. */
  predicate HasHexPrefix(s: string) {
    |s| >= 2 && s[0] == '0' && (s[1] == 'x' || s[1] == 'X')
  }

  /** The digits `s` starts with in `radix`, read as a number; `None`
      when there are none. */
  function ReadDigits(s: string, radix: nat): (r: Option<nat>)
    ensures r.None? <==> |s| == 0 || CharValue(s[0]) >= radix
  {
    var ds := DigitPrefix(s, radix);
    if |ds| == 0 then None else Some(DigitsValue(ds, radix))
  }

  /** The unsigned part of `parseInt`: radix 16 after `0x`, else 10. */
  function ReadMagnitude(u: string): Option<nat> {
    if HasHexPrefix(u) then ReadDigits(u[2..], 16) else ReadDigits(u, 10)
  }

  /** `t` without its sign character, if it has one. */
  function StripSign(t: string): string {
    if |t| > 0 && (t[0] == '-' || t[0] == '+') then t[1..] else t
  }

  /** `parseInt(s)`: skip leading whitespace, take an optional sign, switch
      to radix 16 after a `0x` prefix, then read the longest digit prefix.
      `None` stands for `NaN`, the result when there are no digits. Large
      values lose no precision that matters here: a float that rounds a
      numeral of more than 15 digits is never a three-digit number. */
  function ParseInt(s: string): (r: Option<int>)
    ensures AllSpace(s) ==> r == None
  {
    var t := TrimStart(s);
    match ReadMagnitude(StripSign(t))
    case None => None
    case Some(m) => if |t| > 0 && t[0] == '-' then Some(-(m as int)) else Some(m)
  }

  function DigitChar(d: nat): (c: char)
    requires d < 10
    ensures IsDecimalDigit(c) && CharValue(c) == d
  {
    ('0' as int + d) as char
  }

  /** The decimal numeral of `n`, without leading zeros. */
  function DecimalString(n: nat): (r: string)
    ensures |r| > 0 && AllDecimal(r)
    ensures DigitsValue(r, 10) == n
    ensures r[0] == '0' ==> n == 0
    decreases n
  {
    if n < 10 then [DigitChar(n)]
    else
      var r := DecimalString(n / 10) + [DigitChar(n % 10)];
      assert r[..|r| - 1] == DecimalString(n / 10);
      r
  }

  /** The plain decimal numeral of an integer `n`: `String(n)` when
      |n| < 10^21; from there on JavaScript switches to exponent form. */
  function NumberText(n: int): (r: string)
    ensures n >= 0 ==> AllDecimal(r)
    ensures n < 0 ==> |r| > 1 && r[0] == '-' && AllDecimal(r[1..])
  {
    if n >= 0 then DecimalString(n) else "-" + DecimalString(-n)
  }

  /** The digit prefix of an all-digit string is the whole string. */
  lemma {:induction false} DigitPrefixOfDecimal(ds: string, rest: string)
    requires AllDecimal(ds)
    requires |rest| == 0 || !IsDecimalDigit(rest[0])
    ensures DigitPrefix(ds + rest, 10) == ds
  {
    if |ds| > 0 {
      assert (ds + rest)[1..] == ds[1..] + rest;
      DigitPrefixOfDecimal(ds[1..], rest);
      assert [ds[0]] + ds[1..] == ds;
    } else {
      assert ds + rest == rest;
    }
  }

  /** The digit prefix of a run of `radix` digits followed by a character
      that is no such digit is the run. */
  lemma {:induction false} DigitPrefixOfRun(ds: string, rest: string, radix: nat)
    requires forall k :: 0 <= k < |ds| ==> CharValue(ds[k]) < radix
    requires |rest| == 0 || CharValue(rest[0]) >= radix
    ensures DigitPrefix(ds + rest, radix) == ds
  {
    if |ds| > 0 {
      assert (ds + rest)[1..] == ds[1..] + rest;
      DigitPrefixOfRun(ds[1..], rest, radix);
      assert [ds[0]] + ds[1..] == ds;
    } else {
      assert ds + rest == rest;
    }
  }

  /** `parseInt` on leading whitespace, a `0x`/`0X` prefix, a run of
      hexadecimal digits and a tail that does not continue the run reads
      the run in radix 16. */
  lemma ParseIntHexPrefix(space: string, x: char, ds: string, rest: string)
    requires AllSpace(space)
    requires x == 'x' || x == 'X'
    requires |ds| > 0 && forall k :: 0 <= k < |ds| ==> CharValue(ds[k]) < 16
    requires |rest| == 0 || CharValue(rest[0]) >= 16
    ensures ParseInt(space + ['0', x] + (ds + rest)) == Some(DigitsValue(ds, 16) as int)
  {
    var t := ['0', x] + (ds + rest);
    assert space + ['0', x] + (ds + rest) == space + t;
    TrimStartAfterSpace(space, t);
    ParseIntHexTrimmed(space + ['0', x] + (ds + rest), x, ds, rest);
  }

  lemma ParseIntHexTrimmed(s: string, x: char, ds: string, rest: string)
    requires TrimStart(s) == ['0', x] + (ds + rest)
    requires x == 'x' || x == 'X'
    requires |ds| > 0 && forall k :: 0 <= k < |ds| ==> CharValue(ds[k]) < 16
    requires |rest| == 0 || CharValue(rest[0]) >= 16
    ensures ParseInt(s) == Some(DigitsValue(ds, 16) as int)
  {
    var t := TrimStart(s);
    assert StripSign(t) == t;
    assert HasHexPrefix(t) && t[2..] == ds + rest;
    DigitPrefixOfRun(ds, rest, 16);
  }

  /** `parseInt` on leading whitespace, a decimal numeral and a tail that
      does not continue the numeral reads exactly the numeral. The numeral
      must not be a lone `0` followed by `x`, which `parseInt` reads as a
      hexadecimal prefix. */
  lemma ParseIntDecimalPrefix(space: string, ds: string, rest: string)
    requires AllSpace(space)
    requires |ds| > 0 && AllDecimal(ds)
    requires |rest| == 0 || !IsDecimalDigit(rest[0])
    requires !(ds == "0" && |rest| > 0 && (rest[0] == 'x' || rest[0] == 'X'))
    ensures ParseInt(space + ds + rest) == Some(DigitsValue(ds, 10) as int)
  {
    var s := space + ds + rest;
    assert s == space + (ds + rest);
    LeadingSpaceOfPrefix(space, ds + rest);
    assert TrimStart(s) == ds + rest;
    ParseIntUnsigned(s, ds, rest);
  }

  /** `parseInt` of a string whose trimmed form starts with an unsigned
      decimal numeral that is not a hexadecimal prefix. */
  lemma ParseIntUnsigned(s: string, ds: string, rest: string)
    requires TrimStart(s) == ds + rest
    requires |ds| > 0 && AllDecimal(ds)
    requires |rest| == 0 || !IsDecimalDigit(rest[0])
    requires !(ds == "0" && |rest| > 0 && (rest[0] == 'x' || rest[0] == 'X'))
    ensures ParseInt(s) == Some(DigitsValue(ds, 10) as int)
  {
    ReadMagnitudeDecimal(ds, rest);
    var t := ds + rest;
    assert t[0] == ds[0];
    assert IsDecimalDigit(ds[0]);
    ParseIntNoSign(s, DigitsValue(ds, 10));
  }

  /** Text whose trimmed form starts with neither sign parses to its
      magnitude. */
  lemma ParseIntNoSign(s: string, m: nat)
    requires |TrimStart(s)| > 0 && TrimStart(s)[0] != '-' && TrimStart(s)[0] != '+'
    requires ReadMagnitude(TrimStart(s)) == Some(m)
    ensures ParseInt(s) == Some(m)
  {
    assert StripSign(TrimStart(s)) == TrimStart(s);
  }

  /** The magnitude of a decimal numeral followed by a non-digit. */
  lemma ReadMagnitudeDecimal(ds: string, rest: string)
    requires |ds| > 0 && AllDecimal(ds)
    requires |rest| == 0 || !IsDecimalDigit(rest[0])
    requires !(ds == "0" && |rest| > 0 && (rest[0] == 'x' || rest[0] == 'X'))
    ensures ReadMagnitude(ds + rest) == Some(DigitsValue(ds, 10))
  {
    var u := ds + rest;
    assert !HasHexPrefix(u) by {
      if |ds| >= 2 {
        assert IsDecimalDigit(u[1]);
      }
    }
    DigitPrefixOfDecimal(ds, rest);
  }

  /** `parseInt` yields `NaN` exactly when, after the leading whitespace
      and an optional sign, no digit follows: no decimal digit first, or,
      after a `0x`/`0X` prefix, no hexadecimal digit. */
  lemma ParseIntNaN(s: string)
    ensures var u := StripSign(TrimStart(s));
      ParseInt(s).None? <==>
        if HasHexPrefix(u) then |u| == 2 || CharValue(u[2]) >= 16
        else |u| == 0 || !IsDecimalDigit(u[0])
  {
  }

  /** A sign after the leading whitespace: `-` negates what the rest reads
      as and `+` keeps it; a rest without digits stays `NaN`. */
  lemma ParseIntSign(space: string, sign: char, u: string)
    requires AllSpace(space)
    requires sign == '-' || sign == '+'
    requires |u| == 0 || (!IsJsSpace(u[0]) && u[0] != '-' && u[0] != '+')
    ensures ParseInt(u).None? ==> ParseInt(space + [sign] + u).None?
    ensures ParseInt(u).Some? ==>
              ParseInt(space + [sign] + u)
              == Some(if sign == '-' then -ParseInt(u).value else ParseInt(u).value)
  {
    var t := [sign] + u;
    assert space + [sign] + u == space + t;
    TrimStartAfterSpace(space, t);
    ParseIntTrimmedSign(space + [sign] + u, sign, u);
  }

  lemma ParseIntTrimmedSign(s: string, sign: char, u: string)
    requires TrimStart(s) == [sign] + u
    requires sign == '-' || sign == '+'
    requires |u| == 0 || (!IsJsSpace(u[0]) && u[0] != '-' && u[0] != '+')
    ensures ParseInt(u).None? ==> ParseInt(s).None?
    ensures ParseInt(u).Some? ==>
              ParseInt(s) == Some(if sign == '-' then -ParseInt(u).value else ParseInt(u).value)
  {
    TrimStartBare(u);
    assert StripSign([sign] + u) == u;
    assert StripSign(u) == u;
  }

  lemma TrimStartAfterSpace(space: string, t: string)
    requires AllSpace(space)
    requires |t| > 0 && !IsJsSpace(t[0])
    ensures TrimStart(space + t) == t
  {
    LeadingSpaceOfPrefix(space, t);
    assert (space + t)[|space|..] == t;
  }

  lemma TrimStartBare(u: string)
    requires |u| == 0 || !IsJsSpace(u[0])
    ensures TrimStart(u) == u
  {
    assert LeadingSpace(u) == 0;
  }

  /** Leading whitespace is skipped up to the first non-space character. */
  lemma {:induction false} LeadingSpaceOfPrefix(space: string, s: string)
    requires AllSpace(space)
    requires |s| > 0 && !IsJsSpace(s[0])
    ensures LeadingSpace(space + s) == |space|
  {
    if |space| > 0 {
      assert (space + s)[1..] == space[1..] + s;
      LeadingSpaceOfPrefix(space[1..], s);
    }
  }

  /** `parseInt` of the decimal numeral of `n` is `n`, for every integer
      `n`. */
  lemma ParseIntNumberText(n: int)
    ensures ParseInt(NumberText(n)) == Some(n)
  {
    if n >= 0 {
      ParseIntNonNegativeText(n);
    } else {
      ParseIntNegativeText(n);
    }
  }

  lemma ParseIntNonNegativeText(n: nat)
    ensures ParseInt(NumberText(n)) == Some(n)
  {
    ReadDecimalString(n);
    NoLeadingSpace(NumberText(n));
    assert StripSign(NumberText(n)) == DecimalString(n);
  }

  lemma ParseIntNegativeText(n: int)
    requires n < 0
    ensures ParseInt(NumberText(n)) == Some(n)
  {
    ReadDecimalString(-n);
    NoLeadingSpace(NumberText(n));
    assert StripSign(NumberText(n)) == DecimalString(-n);
  }

  /** The magnitude read back from the numeral of `m` is `m`. */
  lemma ReadDecimalString(m: nat)
    ensures ReadMagnitude(DecimalString(m)) == Some(m)
  {
    var ds := DecimalString(m);
    assert ds + "" == ds;
    ReadMagnitudeDecimal(ds, "");
  }

  /** A string that starts with a non-space is its own `TrimStart`. */
  lemma NoLeadingSpace(s: string)
    requires |s| > 0 && !IsJsSpace(s[0])
    ensures TrimStart(s) == s
  {
    assert LeadingSpace(s) == 0;
  }

  /** With no radix argument `parseInt` reads a `0x` prefix as radix 16. */
  lemma ParseIntHexExample()
    ensures ParseInt("0x12D") == Some(301)
  {
    var s := "0x12D";
    assert LeadingSpace(s) == 0;
    assert TrimStart(s) == s;
    assert StripSign(s) == s;
    assert HasHexPrefix(s) && s[2..] == "12D";
    HexDigits12D();
  }

  lemma HexDigits12D()
    ensures DigitPrefix("12D", 16) == "12D"
    ensures DigitsValue("12D", 16) == 301
  {
    assert "12D"[1..] == "2D" && "2D"[1..] == "D" && "D"[1..] == "";
    assert "12D"[..2] == "12" && "12"[..1] == "1" && "1"[..0] == "";
  }
}
