/**
 * The search-result counter of js/search-enhancements.js: the sentence
 * `updateResultCount` writes ("Found 3 results for "drag"") and the element it
 * writes it into.
 */
module ResultCount {
  import opened Options
  import opened Strings

  const Found: string := "Found "
  const ForQuote: string := " for \""

  /** "result" takes an "s" for every count but one. */
  function Unit(count: nat): string {
    if count == 1 then " result" else " results"
  }

  /** The closing part naming the query; empty for the empty query. */
  function QueryPart(query: string): string {
    if query == "" then "" else ForQuote + query + "\""
  }

  /** The counter's sentence for `count` results of `query`. */
  function ResultCountText(count: nat, query: string): string {
    Found + NatToString(count) + Unit(count) + QueryPart(query)
  }

  /** Reads the query back from the closing part. */
  function ParseQueryPart(q: string): Option<string> {
    if q == "" then Some("")
    else if |q| >= |ForQuote| + 2 && q[..|ForQuote|] == ForQuote && q[|q| - 1] == '"' then
      Some(q[|ForQuote|..|q| - 1])
    else None
  }

  lemma {:induction false} QueryPartRoundTrip(query: string)
    ensures ParseQueryPart(QueryPart(query)) == Some(query)
  {
    if query != "" {
      var q := QueryPart(query);
      assert q[..|ForQuote|] == ForQuote;
      assert q[|ForQuote|..|q| - 1] == query;
    }
  }

  lemma {:induction false} ParseQueryPartOnly(q: string, query: string)
    requires ParseQueryPart(q) == Some(query)
    ensures q == QueryPart(query)
  {
    if q != "" {
      assert q == q[..|ForQuote|] + q[|ForQuote|..|q| - 1] + [q[|q| - 1]];
    }
  }

  /** Reads a canonical numeral at the start of s: its value and its length. */
  function ParseNumeral(s: string): Option<(nat, nat)> {
    var k := DigitRun(s);
    if CanonicalDigits(s[..k]) then Some((DigitsValue(s[..k]), k)) else None
  }

  lemma {:induction false} NumeralRoundTrip(n: nat, rest: string)
    requires rest == [] || !IsDigit(rest[0])
    ensures ParseNumeral(NatToString(n) + rest) == Some((n, |NatToString(n)|))
  {
    var d := NatToString(n);
    DigitRunOfDigits(d, rest);
    assert (d + rest)[..|d|] == d;
    NatToStringCanonical(n);
    DigitsValueOfNatToString(n);
  }

  lemma {:induction false} ParseNumeralOnly(s: string, n: nat, k: nat)
    requires ParseNumeral(s) == Some((n, k))
    ensures k <= |s| && s[..k] == NatToString(n)
  {
    NatToStringOfDigits(s[..DigitRun(s)]);
  }

  /** Reads the unit that agrees with the count n, then the closing part. */
  function ParseAfterNumeral(n: nat, tail: string): Option<string> {
    if Unit(n) <= tail then ParseQueryPart(tail[|Unit(n)|..]) else None
  }

  /** Reads the count, then the rest of the sentence. */
  function ParseAfterFound(rest: string): Option<(nat, string)> {
    match ParseNumeral(rest)
    case None => None
    case Some((n, k)) =>
      match ParseAfterNumeral(n, rest[k..])
      case None => None
      case Some(q) => Some((n, q))
  }

  /** Reads a counter sentence back: "Found ", the count as a canonical numeral, the
      unit that agrees with it, and the closing part. */
  function ParseResultCount(s: string): Option<(nat, string)> {
    if Found <= s then ParseAfterFound(s[|Found|..]) else None
  }

  lemma {:induction false} AfterNumeralRoundTrip(n: nat, query: string)
    ensures ParseAfterNumeral(n, Unit(n) + QueryPart(query)) == Some(query)
  {
    var tail := Unit(n) + QueryPart(query);
    assert tail[|Unit(n)|..] == QueryPart(query);
    QueryPartRoundTrip(query);
  }

  lemma {:induction false} AfterNumeralOnly(n: nat, tail: string, query: string)
    requires ParseAfterNumeral(n, tail) == Some(query)
    ensures tail == Unit(n) + QueryPart(query)
  {
    ParseQueryPartOnly(tail[|Unit(n)|..], query);
    assert tail == Unit(n) + tail[|Unit(n)|..];
  }

  lemma {:induction false} AfterFoundRoundTrip(n: nat, query: string)
    ensures ParseAfterFound(NatToString(n) + (Unit(n) + QueryPart(query))) == Some((n, query))
  {
    var d, tail := NatToString(n), Unit(n) + QueryPart(query);
    assert tail[0] == Unit(n)[0] == ' ';
    NumeralRoundTrip(n, tail);
    assert (d + tail)[|d|..] == tail;
    AfterNumeralRoundTrip(n, query);
  }

  lemma {:induction false} AfterFoundOnly(rest: string, n: nat, query: string)
    requires ParseAfterFound(rest) == Some((n, query))
    ensures rest == NatToString(n) + (Unit(n) + QueryPart(query))
  {
    var k: nat :| ParseNumeral(rest) == Some((n, k));
    ParseNumeralOnly(rest, n, k);
    AfterNumeralOnly(n, rest[k..], query);
    assert rest == rest[..k] + rest[k..];
  }

  lemma {:induction false} SentenceParts(count: nat, query: string)
    ensures ResultCountText(count, query) == Found + (NatToString(count) + (Unit(count) + QueryPart(query)))
  {
  }

  /** The sentence determines the count and the query: reading it back gives both. */
  lemma {:induction false} ResultCountTextRoundTrip(count: nat, query: string)
    ensures ParseResultCount(ResultCountText(count, query)) == Some((count, query))
  {
    var rest := NatToString(count) + (Unit(count) + QueryPart(query));
    var s := ResultCountText(count, query);
    SentenceParts(count, query);
    assert Found <= s && s[|Found|..] == rest;
    AfterFoundRoundTrip(count, query);
  }

  /** Only counter sentences are read back: whatever parses is the sentence of what it
      parses to. */
  lemma {:induction false} ParseResultCountOnlyText(s: string, count: nat, query: string)
    requires ParseResultCount(s) == Some((count, query))
    ensures s == ResultCountText(count, query)
  {
    var rest := s[|Found|..];
    AfterFoundOnly(rest, count, query);
    SentenceParts(count, query);
    assert s == Found + rest;
  }

  /** Different counts or queries never give the same sentence. */
  lemma {:induction false} ResultCountTextInjective(c1: nat, q1: string, c2: nat, q2: string)
    requires ResultCountText(c1, q1) == ResultCountText(c2, q2)
    ensures c1 == c2 && q1 == q2
  {
    ResultCountTextRoundTrip(c1, q1);
    ResultCountTextRoundTrip(c2, q2);
  }

  /** The `#searchResultCount` element: the text it shows and whether it is displayed. */
  class Counter {
    var text: string
    var shown: bool

    constructor ()
      ensures text == "" && !shown
    {
      text := "";
      shown := false;
    }
  }

  /**
   * `updateResultCount(count, query)`: with no counter element nothing happens; with a
   * count the sentence is written and the counter shown; without one it is hidden and
   * keeps its text.
   */
  method UpdateResultCount(counter: Counter?, count: Option<nat>, query: string)
    modifies counter
    ensures counter != null && count.Some? ==>
              counter.text == ResultCountText(count.value, query) && counter.shown
    ensures counter != null && count.None? ==> counter.text == old(counter.text) && !counter.shown
  {
    if counter == null {
      return;
    }
    match count
    case Some(n) =>
      counter.text := ResultCountText(n, query);
      counter.shown := true;
    case None =>
      counter.shown := false;
  }
}
