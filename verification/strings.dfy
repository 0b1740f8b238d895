/** Option, shared by every module. */
module Options {
  datatype Option<T> = None | Some(value: T)
}

/**
 * String primitives the search code takes from JavaScript's String.prototype:
 * toLowerCase (ASCII folding), includes, startsWith, split(/\s+/), trim, and
 * the decimal rendering of a non-negative number.
 */
module Strings {

  /** ASCII case folding: 'A'..'Z' become 'a'..'z', every other character is kept. */
  function LowerChar(c: char): char {
    if 'A' <= c <= 'Z' then (c as int + 32) as char else c
  }

  function Lower(s: string): string {
    seq(|s|, i requires 0 <= i < |s| => LowerChar(s[i]))
  }

  lemma {:induction false} LowerIdempotent(s: string)
    ensures Lower(Lower(s)) == Lower(s)
  {
  }

  /** needle occurs in haystack starting at index i. */
  predicate OccursAt(haystack: string, needle: string, i: nat) {
    i + |needle| <= |haystack| && haystack[i..i + |needle|] == needle
  }

  /** `haystack.includes(needle)`: needle occurs at some index of haystack. */
  predicate Contains(haystack: string, needle: string) {
    exists i: nat :: i <= |haystack| && OccursAt(haystack, needle, i)
  }

  /** The characters matched by `\s` in a JavaScript regular expression and removed by
      `trim`: the WhiteSpace and LineTerminator productions of ECMAScript. */
  predicate IsWhitespace(c: char) {
    || c == '\t' || c == '\n' || c == '\U{0B}' || c == '\U{0C}' || c == '\r' || c == ' '
    || c == '\U{A0}' || c == '\U{1680}' || ('\U{2000}' <= c <= '\U{200A}')
    || c == '\U{2028}' || c == '\U{2029}' || c == '\U{202F}' || c == '\U{205F}'
    || c == '\U{3000}' || c == '\U{FEFF}'
  }

  predicate NoWhitespace(s: string) {
    forall i :: 0 <= i < |s| ==> !IsWhitespace(s[i])
  }

  /** Index of the first whitespace character at or after `from`, or |s| if there is none. */
  function NextWhitespace(s: string, from: nat): (r: nat)
    requires from <= |s|
    ensures from <= r <= |s|
    ensures r < |s| ==> IsWhitespace(s[r])
    ensures forall i :: from <= i < r ==> !IsWhitespace(s[i])
    decreases |s| - from
  {
    if from == |s| || IsWhitespace(s[from]) then from else NextWhitespace(s, from + 1)
  }

  /** Index just past the run of whitespace that starts at `from`. */
  function EndOfWhitespace(s: string, from: nat): (r: nat)
    requires from <= |s|
    ensures from <= r <= |s|
    ensures r < |s| ==> !IsWhitespace(s[r])
    ensures forall i :: from <= i < r ==> IsWhitespace(s[i])
    decreases |s| - from
  {
    if from == |s| || !IsWhitespace(s[from]) then from else EndOfWhitespace(s, from + 1)
  }

  /**
   * `s.split(/\s+/)`: the pieces between maximal runs of whitespace, scanning left to
   * right. A leading or trailing run gives an empty first or last piece, and the empty
   * string splits into one empty piece.
   */
  function SplitWhitespace(s: string): (words: seq<string>)
    ensures |words| >= 1
    ensures forall w :: w in words ==> NoWhitespace(w)
    decreases |s|
  {
    var i := NextWhitespace(s, 0);
    if i == |s| then [s]
    else
      var j := EndOfWhitespace(s, i);
      [s[..i]] + SplitWhitespace(s[j..])
  }

  /** The leading-whitespace quirk: the first word is empty when s starts with whitespace. */
  lemma {:induction false} SplitLeadingWhitespace(s: string)
    requires |s| > 0 && IsWhitespace(s[0])
    ensures SplitWhitespace(s)[0] == ""
  {
  }

  /** The trailing-whitespace quirk: the last word is empty when s ends with whitespace. */
  lemma {:induction false} SplitTrailingWhitespace(s: string)
    requires |s| > 0 && IsWhitespace(s[|s| - 1])
    ensures var words := SplitWhitespace(s); words[|words| - 1] == ""
    decreases |s|
  {
    var i := NextWhitespace(s, 0);
    assert i < |s|;
    var j := EndOfWhitespace(s, i);
    if j < |s| {
      SplitTrailingWhitespace(s[j..]);
    }
  }

  /** `s.trim()`: s without its leading and trailing whitespace. */
  function Trim(s: string): (r: string)
    ensures r == [] || (!IsWhitespace(r[0]) && !IsWhitespace(r[|r| - 1]))
    ensures exists i, j :: 0 <= i <= j <= |s| && r == s[i..j]
                           && (forall k :: 0 <= k < i ==> IsWhitespace(s[k]))
                           && (forall k :: j <= k < |s| ==> IsWhitespace(s[k]))
  {
    var i := EndOfWhitespace(s, 0);
    var j := StartOfTrailingWhitespace(s, i, |s|);
    s[i..j]
  }

  /** The least index j' in [lo, j] such that s[j'..j] is all whitespace. */
  function StartOfTrailingWhitespace(s: string, lo: nat, j: nat): (r: nat)
    requires lo <= j <= |s|
    ensures lo <= r <= j
    ensures r > lo ==> !IsWhitespace(s[r - 1])
    ensures forall k :: r <= k < j ==> IsWhitespace(s[k])
    decreases j - lo
  {
    if j == lo || !IsWhitespace(s[j - 1]) then j else StartOfTrailingWhitespace(s, lo, j - 1)
  }

  predicate IsDigit(c: char) {
    '0' <= c <= '9'
  }

  predicate AllDigits(s: string) {
    forall i :: 0 <= i < |s| ==> IsDigit(s[i])
  }

  function DigitChar(d: nat): char
    requires d < 10
  {
    ('0' as int + d) as char
  }

  /** The decimal rendering JavaScript gives a non-negative integer. */
  function NatToString(n: nat): (r: string)
    ensures |r| >= 1 && AllDigits(r)
    ensures r[0] == '0' ==> n == 0
    decreases n
  {
    if n < 10 then [DigitChar(n)] else NatToString(n / 10) + [DigitChar(n % 10)]
  }

  /** The value of a string of decimal digits. */
  function DigitsValue(s: string): nat
    requires AllDigits(s)
    decreases |s|
  {
    if s == [] then 0 else DigitsValue(s[..|s| - 1]) * 10 + (s[|s| - 1] as int - '0' as int)
  }

  lemma {:induction false} DigitsValueOfNatToString(n: nat)
    ensures DigitsValue(NatToString(n)) == n
    decreases n
  {
    if n >= 10 {
      var s := NatToString(n);
      DigitsValueOfNatToString(n / 10);
      assert s[..|s| - 1] == NatToString(n / 10);
    }
  }

  /** Number of leading decimal digits of s. */
  function DigitRun(s: string): (k: nat)
    ensures k <= |s| && AllDigits(s[..k])
    ensures k < |s| ==> !IsDigit(s[k])
    decreases |s|
  {
    if s == [] || !IsDigit(s[0]) then 0 else 1 + DigitRun(s[1..])
  }

  lemma {:induction false} DigitRunOfDigits(d: string, rest: string)
    requires AllDigits(d)
    requires rest == [] || !IsDigit(rest[0])
    ensures DigitRun(d + rest) == |d|
    decreases |d|
  {
    if d != [] {
      assert (d + rest)[1..] == d[1..] + rest;
      DigitRunOfDigits(d[1..], rest);
    }
  }

  /** A decimal numeral as JavaScript writes one: digits only, and no leading zero
      unless the numeral is "0". */
  predicate CanonicalDigits(s: string) {
    |s| >= 1 && AllDigits(s) && (s[0] == '0' ==> |s| == 1)
  }

  lemma {:induction false} NatToStringCanonical(n: nat)
    ensures CanonicalDigits(NatToString(n))
  {
    if n == 0 {
      assert NatToString(n) == ['0'];
    }
  }

  lemma {:induction false} DigitsValuePositive(s: string)
    requires |s| >= 1 && AllDigits(s) && s[0] != '0'
    ensures DigitsValue(s) >= 1
    decreases |s|
  {
    if |s| > 1 {
      DigitsValuePositive(s[..|s| - 1]);
    }
  }

  /** Every canonical numeral is the rendering of its value. */
  lemma {:induction false} NatToStringOfDigits(s: string)
    requires CanonicalDigits(s)
    ensures NatToString(DigitsValue(s)) == s
    decreases |s|
  {
    var n := DigitsValue(s);
    var p, d := s[..|s| - 1], s[|s| - 1] as int - '0' as int;
    assert n == DigitsValue(p) * 10 + d;
    if |s| == 1 {
      assert p == [];
      assert s == [DigitChar(n)];
    } else {
      assert p[0] == s[0];
      DigitsValuePositive(p);
      NatToStringOfDigits(p);
      assert n / 10 == DigitsValue(p) && n % 10 == d;
      assert s == p + [DigitChar(d)];
    }
  }
}
