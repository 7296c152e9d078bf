/** Ordinal string operations of the .NET base library that the core relies on:
    decimal digits, `Int32.ToString`, `StartsWith`, `Contains`, `string.Join` and trimming. */
module Text {

  predicate IsAsciiDigit(c: char) {
    '0' <= c <= '9'
  }

  predicate AllDigits(s: string) {
    forall i :: 0 <= i < |s| ==> IsAsciiDigit(s[i])
  }

  function DigitChar(d: nat): (c: char)
    requires d < 10
    ensures IsAsciiDigit(c)
  {
    ('0' as int + d) as char
  }

  /** The value of a run of ASCII digits read most significant first. */
  function DigitsValue(s: string): nat
    requires AllDigits(s)
  {
    if s == [] then 0 else DigitsValue(s[..|s| - 1]) * 10 + (s[|s| - 1] as int - '0' as int)
  }

  /** The text `n.ToString()` gives for a non-negative integer: its shortest decimal form. */
  function NatToDecimal(n: nat): (s: string)
    ensures 1 <= |s| && AllDigits(s)
    ensures s[0] == '0' ==> n == 0
  {
    if n < 10 then [DigitChar(n)] else NatToDecimal(n / 10) + [DigitChar(n % 10)]
  }

  /** Reading back the decimal text of a number gives the number. */
  lemma {:induction false} DecimalRoundTrip(n: nat)
    ensures DigitsValue(NatToDecimal(n)) == n
  {
    if n >= 10 {
      var s := NatToDecimal(n / 10);
      DecimalRoundTrip(n / 10);
      assert (s + [DigitChar(n % 10)])[..|s|] == s;
    }
  }

  /** `n.ToString()` under the invariant culture, whose negative sign is '-'. */
  function IntToDecimal(n: int): (s: string)
    ensures |s| >= 1
  {
    if n < 0 then "-" + NatToDecimal(-n) else NatToDecimal(n)
  }

  /** Length of the longest prefix of `s` whose characters all satisfy `p`. */
  function Span(s: string, p: char -> bool): (n: nat)
    ensures n <= |s|
    ensures forall i :: 0 <= i < n ==> p(s[i])
    ensures n < |s| ==> !p(s[n])
  {
    if s == [] || !p(s[0]) then 0 else 1 + Span(s[1..], p)
  }

  /** Ordinal `s.StartsWith(prefix)`. */
  predicate StartsWith(s: string, prefix: string) {
    |prefix| <= |s| && s[..|prefix|] == prefix
  }

  /** Ordinal `s.Contains(t)`, searched from the left. */
  function Contains(s: string, t: string): bool
    decreases |s|
  {
    |t| <= |s| && (s[..|t|] == t || Contains(s[1..], t))
  }

  /** `t` occurs in `s` starting at index `i`. */
  predicate OccursAt(s: string, t: string, i: int) {
    0 <= i && i + |t| <= |s| && s[i..i + |t|] == t
  }

  /** `Contains` finds exactly the strings that occur somewhere in `s`. */
  lemma {:induction false} ContainsIsOccurrence(s: string, t: string)
    ensures Contains(s, t) <==> exists i :: OccursAt(s, t, i)
    decreases |s|
  {
    if |t| <= |s| {
      if s[..|t|] == t {
        assert OccursAt(s, t, 0);
      } else {
        ContainsIsOccurrence(s[1..], t);
        if Contains(s[1..], t) {
          var i :| OccursAt(s[1..], t, i);
          assert s[1..][i..i + |t|] == s[i + 1..i + 1 + |t|];
          assert OccursAt(s, t, i + 1);
        }
        if i :| OccursAt(s, t, i) {
          assert i != 0;
          assert s[1..][i - 1..i - 1 + |t|] == s[i..i + |t|];
          assert OccursAt(s[1..], t, i - 1);
        }
      }
    }
  }

  /** `string.Join(sep, parts)`. */
  function Join(sep: string, parts: seq<string>): string {
    if |parts| == 0 then "" else if |parts| == 1 then parts[0] else parts[0] + sep + Join(sep, parts[1..])
  }

  /** `s.TrimStart(...)`: drops the leading characters that satisfy `strip`. */
  function TrimStart(s: string, strip: char -> bool): (r: string)
    ensures |r| <= |s| && r == s[|s| - |r|..]
    ensures forall i :: 0 <= i < |s| - |r| ==> strip(s[i])
    ensures r != [] ==> !strip(r[0])
  {
    if s != [] && strip(s[0]) then TrimStart(s[1..], strip) else s
  }

  /** `s.TrimEnd(...)`: drops the trailing characters that satisfy `strip`. */
  function TrimEnd(s: string, strip: char -> bool): (r: string)
    ensures |r| <= |s| && r == s[..|r|]
    ensures forall i :: |r| <= i < |s| ==> strip(s[i])
    ensures r != [] ==> !strip(r[|r| - 1])
  {
    if s != [] && strip(s[|s| - 1]) then TrimEnd(s[..|s| - 1], strip) else s
  }

  function Trim(s: string, strip: char -> bool): string {
    TrimEnd(TrimStart(s, strip), strip)
  }

  /** Trimming keeps every character that is not stripped, at its place relative to the first kept one. */
  lemma TrimKeeps(s: string, strip: char -> bool, i: nat)
    requires i < |s| && !strip(s[i])
    ensures var start := |s| - |TrimStart(s, strip)|;
            start <= i && i - start < |Trim(s, strip)| && Trim(s, strip)[i - start] == s[i]
  {
    var t := TrimStart(s, strip);
    var start := |s| - |t|;
    assert t[i - start] == s[i];
  }

  /** Stripped characters in front of a text that starts with a kept one are exactly what
      `TrimStart` drops. */
  lemma TrimStartAfter(pre: string, rest: string, strip: char -> bool)
    requires forall i :: 0 <= i < |pre| ==> strip(pre[i])
    requires rest != [] && !strip(rest[0])
    ensures TrimStart(pre + rest, strip) == rest
  {
    var s := pre + rest;
    var t := TrimStart(s, strip);
    var start := |s| - |t|;
    assert s[|pre|] == rest[0];
    assert start <= |pre|;
    assert t[0] == s[start];
    assert s[|pre|..] == rest;
  }

  /** Stripped characters behind a text that ends with a kept one are exactly what
      `TrimEnd` drops. */
  lemma TrimEndBefore(rest: string, post: string, strip: char -> bool)
    requires rest != [] && !strip(rest[|rest| - 1])
    requires forall i :: 0 <= i < |post| ==> strip(post[i])
    ensures TrimEnd(rest + post, strip) == rest
  {
    var s := rest + post;
    var t := TrimEnd(s, strip);
    assert s[|rest| - 1] == rest[|rest| - 1];
    assert |rest| <= |t|;
    assert s[..|rest|] == rest;
  }

  /** Trimming removes stripped characters around a text whose ends are kept. */
  lemma TrimAround(pre: string, core: string, post: string, strip: char -> bool)
    requires forall i :: 0 <= i < |pre| ==> strip(pre[i])
    requires forall i :: 0 <= i < |post| ==> strip(post[i])
    requires core != [] && !strip(core[0]) && !strip(core[|core| - 1])
    ensures Trim(pre + core + post, strip) == core
  {
    assert pre + core + post == pre + (core + post);
    TrimStartAfter(pre, core + post, strip);
    TrimEndBefore(core, post, strip);
  }

  function ToUpperAscii(c: char): char {
    if 'a' <= c <= 'z' then (c as int - 32) as char else c
  }

  /** Comparison that ignores the case of ASCII letters. */
  predicate EqualsIgnoreCase(a: string, b: string) {
    |a| == |b| && forall i :: 0 <= i < |a| ==> ToUpperAscii(a[i]) == ToUpperAscii(b[i])
  }
}
