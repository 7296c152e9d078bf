/** The .NET parsing routines the configuration providers call: `int.TryParse`,
    `bool.TryParse` and `string.IsNullOrWhiteSpace`, written out over 32-bit integers.
    `int.TryParse` reads with the current culture, which the model takes to be the invariant one. */
module Framework {
  import opened Wrappers
  import opened Text

  const MinInt32: int := -0x8000_0000
  const MaxInt32: int := 0x7FFF_FFFF

  predicate InInt32(n: int) {
    MinInt32 <= n <= MaxInt32
  }

  /** The white space `NumberStyles.Integer` allows around a number: tab to carriage return, and space. */
  predicate IsNumberWhite(c: char) {
    c == ' ' || '\t' <= c <= '\r'
  }

  /** `int.TryParse(v, out n)`: optional white space, an optional sign, one or more ASCII
      digits, optional white space; a null string or a value outside Int32 fails. */
  function TryParseInt32(v: Option<string>): (r: Option<int>)
    ensures r.Some? ==> InInt32(r.value)
  {
    match v
    case None => None
    case Some(s) => ParseTrimmedInt32(Trim(s, IsNumberWhite))
  }

  /** What `int.TryParse` makes of the text left after trimming: an optional sign and one or
      more digits, whose value must fit in an Int32. */
  function ParseTrimmedInt32(t: string): (r: Option<int>)
    ensures r.Some? ==> InInt32(r.value)
  {
    var signed := |t| > 0 && (t[0] == '-' || t[0] == '+');
    var digits := if signed then t[1..] else t;
    if |digits| == 0 || !AllDigits(digits) then None
    else
      var magnitude: int := DigitsValue(digits);
      var n: int := if signed && t[0] == '-' then -magnitude else magnitude;
      if InInt32(n) then Some(n) else None
  }

  /** Parsing the decimal text of any Int32 gives it back. */
  lemma TryParseInt32OfDecimal(n: int)
    requires InInt32(n)
    ensures TryParseInt32(Some(IntToDecimal(n))) == Some(n)
  {
    var d := NatToDecimal(if n < 0 then -n else n);
    if n < 0 {
      var s := "-" + d;
      assert IntToDecimal(n) == s;
      assert s[0] == '-' && s[1..] == d;
      DecimalRoundTrip(-n);
      ParseTrimmedMinus(s);
      NegativeUntrimmed(d);
    } else {
      assert IntToDecimal(n) == d;
      DecimalRoundTrip(n);
      TryParseInt32OfDigits(d);
    }
  }

  /** A '-' followed by digits parses to the negated value of the digits when that fits. */
  lemma ParseTrimmedMinus(t: string)
    requires |t| > 1 && t[0] == '-' && AllDigits(t[1..])
    ensures var v: int := -(DigitsValue(t[1..]) as int);
            ParseTrimmedInt32(t) == if v >= MinInt32 then Some(v) else None
  {
  }

  /** A '-' followed by digits has no number white space to trim. */
  lemma NegativeUntrimmed(d: string)
    requires |d| > 0 && AllDigits(d)
    ensures TryParseInt32(Some("-" + d)) == ParseTrimmedInt32("-" + d)
  {
    var s := "-" + d;
    assert s[|s| - 1] == d[|d| - 1];
    assert "" + s + "" == s;
    TrimAround("", s, "", IsNumberWhite);
  }

  /** A bare run of digits parses to its value exactly when that value fits in an Int32. */
  lemma TryParseInt32OfDigits(s: string)
    requires |s| > 0 && AllDigits(s)
    ensures TryParseInt32(Some(s)) == if DigitsValue(s) <= MaxInt32 then Some(DigitsValue(s)) else None
  {
    assert Trim(s, IsNumberWhite) == s;
  }

  /** A character that is neither a digit, a sign nor number white space makes the parse fail,
      wherever it stands. */
  lemma TryParseInt32RejectsStray(s: string, i: nat)
    requires i < |s| && !IsAsciiDigit(s[i]) && !IsNumberWhite(s[i]) && s[i] != '-' && s[i] != '+'
    ensures TryParseInt32(Some(s)) == None
  {
    TrimKeeps(s, IsNumberWhite, i);
    var t := Trim(s, IsNumberWhite);
    var k := i - (|s| - |TrimStart(s, IsNumberWhite)|);
    if |t| > 0 && (t[0] == '-' || t[0] == '+') {
      assert t[1..][k - 1] == s[i];
    } else {
      assert t[k] == s[i];
    }
  }

  /** `char.IsWhiteSpace`: the Unicode separators, tab to carriage return, U+0085 and U+00A0. */
  predicate IsWhiteSpace(c: char) {
    var n := c as int;
    n == 0x20 || 0x09 <= n <= 0x0D || n == 0x85 || n == 0xA0 || n == 0x1680
    || 0x2000 <= n <= 0x200A || n == 0x2028 || n == 0x2029 || n == 0x202F || n == 0x205F || n == 0x3000
  }

  /** `string.IsNullOrWhiteSpace(v)`. */
  predicate IsNullOrWhiteSpace(v: Option<string>) {
    v.None? || forall i :: 0 <= i < |v.value| ==> IsWhiteSpace(v.value[i])
  }

  predicate IsWhiteSpaceOrNull(c: char) {
    IsWhiteSpace(c) || c == '\0'
  }

  /** `bool.ToString()`. */
  function BoolToString(b: bool): string {
    if b then "True" else "False"
  }

  /** `bool.TryParse(v, out b)`: "True" or "False" in any letter case, after trimming
      white space and null characters from both ends; a null string fails. */
  function TryParseBool(v: Option<string>): Option<bool> {
    match v
    case None => None
    case Some(s) =>
      var t := Trim(s, IsWhiteSpaceOrNull);
      if EqualsIgnoreCase(t, "True") then Some(true)
      else if EqualsIgnoreCase(t, "False") then Some(false)
      else None
  }

  /** Parsing the text `bool.ToString()` writes gives the value back. */
  lemma TryParseBoolOfToString(b: bool)
    ensures TryParseBool(Some(BoolToString(b))) == Some(b)
  {
    assert Trim(BoolToString(b), IsWhiteSpaceOrNull) == BoolToString(b);
  }

  /** Any spelling of "True" or "False" in upper- and lower-case ASCII letters, with white
      space and null characters around it, parses to that boolean: "true" as well as "TRUE". */
  lemma TryParseBoolOfAnyCase(pre: string, core: string, post: string, b: bool)
    requires forall i :: 0 <= i < |pre| ==> IsWhiteSpaceOrNull(pre[i])
    requires forall i :: 0 <= i < |post| ==> IsWhiteSpaceOrNull(post[i])
    requires EqualsIgnoreCase(core, BoolToString(b))
    ensures TryParseBool(Some(pre + core + post)) == Some(b)
  {
    assert ToUpperAscii(core[0]) == ToUpperAscii(BoolToString(b)[0]);
    assert ToUpperAscii(core[|core| - 1]) == 'E';
    TrimAround(pre, core, post, IsWhiteSpaceOrNull);
  }

  /** The lower-case spellings the usage text shows. */
  lemma LowerCaseBools()
    ensures EqualsIgnoreCase("true", BoolToString(true)) && EqualsIgnoreCase("false", BoolToString(false))
  {
    assert ToUpperAscii('t') == 'T' && ToUpperAscii('r') == 'R' && ToUpperAscii('u') == 'U';
    assert ToUpperAscii('e') == 'E' && ToUpperAscii('f') == 'F' && ToUpperAscii('a') == 'A';
    assert ToUpperAscii('l') == 'L' && ToUpperAscii('s') == 'S';
  }

  /** A value that starts with a character that is neither trimmed nor a T or an F, in either
      case, is not a boolean. */
  lemma TryParseBoolRejectsFirst(s: string)
    requires |s| > 0 && !IsWhiteSpaceOrNull(s[0]) && ToUpperAscii(s[0]) != 'T' && ToUpperAscii(s[0]) != 'F'
    ensures TryParseBool(Some(s)) == None
  {
    TrimKeeps(s, IsWhiteSpaceOrNull, 0);
    TryParseBoolRejects(s);
  }

  /** A value whose first character after trimming is not a T or an F, in either case,
      is not a boolean. */
  lemma TryParseBoolRejects(s: string)
    requires var t := Trim(s, IsWhiteSpaceOrNull); |t| > 0 && ToUpperAscii(t[0]) != 'T' && ToUpperAscii(t[0]) != 'F'
    ensures TryParseBool(Some(s)) == None
  {
  }
}
