/**
 * The typo-tolerant matcher `fuzzyMatch` of js/search-utils.js: after lower-casing
 * both inputs it accepts a substring occurrence, a word of the haystack that starts
 * with the needle, or a word of similar length within `threshold` edits.
 */
module Fuzzy {
  import opened Strings
  import opened EditDistance

  /** The threshold callers get when they pass none. */
  const DefaultThreshold: int := 2

  function Abs(x: int): nat {
    if x < 0 then -x else x
  }

  /** One word of the (lower-cased) haystack accepts the (lower-cased) needle: it starts
      with it, or it is of similar length and within `threshold` edits of it. */
  predicate WordMatches(word: string, needle: string, threshold: int) {
    || needle <= word
    || (Abs(|word| - |needle|) <= threshold && Lev(needle, word) <= threshold)
  }

  /** What `fuzzyMatch(needle, haystack, threshold)` returns. */
  predicate Matches(needle: string, haystack: string, threshold: int) {
    && needle != ""
    && haystack != ""
    && var n, h := Lower(needle), Lower(haystack);
       || Contains(h, n)
       || exists w :: w in SplitWhitespace(h) && WordMatches(w, n, threshold)
  }

  /** The source's loop: the three tests in order, returning at the first success. */
  method FuzzyMatch(needle: string, haystack: string, threshold: int) returns (r: bool)
    ensures r == Matches(needle, haystack, threshold)
    ensures needle == "" || haystack == "" ==> !r
    ensures needle != "" && Contains(Lower(haystack), Lower(needle)) ==> r
  {
    if needle == "" || haystack == "" {
      return false;
    }
    var n := Lower(needle);
    var h := Lower(haystack);
    if Contains(h, n) {
      return true;
    }
    var words := SplitWhitespace(h);
    for i := 0 to |words|
      invariant forall k :: 0 <= k < i ==> !WordMatches(words[k], n, threshold)
    {
      var word := words[i];
      if n <= word {
        assert word in words && WordMatches(word, n, threshold);
        return true;
      }
      if Abs(|word| - |n|) <= threshold {
        var distance := LevenshteinDistance(n, word);
        if distance <= threshold {
          assert word in words && WordMatches(word, n, threshold);
          return true;
        }
      }
    }
    return false;
  }

  /** The matcher ignores case: lower-casing either input first changes nothing. */
  lemma {:induction false} MatchesIgnoresCase(needle: string, haystack: string, threshold: int)
    ensures Matches(needle, haystack, threshold) == Matches(Lower(needle), Lower(haystack), threshold)
  {
    LowerIdempotent(needle);
    LowerIdempotent(haystack);
  }

  /** A larger threshold accepts everything a smaller one accepts. */
  lemma {:induction false} MatchesMonotone(needle: string, haystack: string, t1: int, t2: int)
    requires t1 <= t2
    requires Matches(needle, haystack, t1)
    ensures Matches(needle, haystack, t2)
  {
    var n, h := Lower(needle), Lower(haystack);
    if !Contains(h, n) {
      var w :| w in SplitWhitespace(h) && WordMatches(w, n, t1);
      assert WordMatches(w, n, t2);
    }
  }

  /**
   * The empty-word quirk: a haystack with leading whitespace splits into an empty first
   * word, which is within |needle| edits of any needle, so every needle no longer than
   * the threshold matches it.
   */
  lemma {:induction false} ShortNeedleMatchesLeadingWhitespace(needle: string, haystack: string, threshold: int)
    requires needle != "" && |needle| <= threshold
    requires |haystack| > 0 && IsWhitespace(haystack[0])
    ensures Matches(needle, haystack, threshold)
  {
    var n, h := Lower(needle), Lower(haystack);
    assert h[0] == haystack[0];
    SplitLeadingWhitespace(h);
    var words := SplitWhitespace(h);
    LevBounds(n, "");
    assert words[0] in words && WordMatches(words[0], n, threshold);
  }

  /** The same quirk at the other end: trailing whitespace leaves an empty last word,
      which accepts every needle no longer than the threshold. */
  lemma {:induction false} ShortNeedleMatchesTrailingWhitespace(needle: string, haystack: string, threshold: int)
    requires needle != "" && |needle| <= threshold
    requires |haystack| > 0 && IsWhitespace(haystack[|haystack| - 1])
    ensures Matches(needle, haystack, threshold)
  {
    var n, h := Lower(needle), Lower(haystack);
    assert h[|h| - 1] == haystack[|haystack| - 1];
    SplitTrailingWhitespace(h);
    var words := SplitWhitespace(h);
    LevBounds(n, "");
    assert words[|words| - 1] in words && WordMatches(words[|words| - 1], n, threshold);
  }

  /** "drgn" is two edits from "dragon": insert the 'a' and the 'o'. */
  lemma {:induction false} DrgnNearDragon()
    ensures Lev("drgn", "dragon") == 2
  {
    DrgToDrago();
    assert Lev("drgn", "dragon") == Lev("drg", "drago") by {
      assert "drgn"[..3] == "drg" && "dragon"[..5] == "drago";
    }
    LevBounds("drgn", "dragon");
  }

  /** "drg" is at most two edits from "drago". */
  lemma {:induction false} DrgToDrago()
    ensures Lev("drg", "drago") <= 2
  {
    DrToDra();
    assert Lev("drg", "drag") == Lev("dr", "dra") by {
      assert "drg"[..2] == "dr" && "drag"[..3] == "dra";
    }
    assert "drago"[..4] == "drag";
    LevNeighboursRight("drg", "drago");
  }

  /** "dr" is one edit from "dra". */
  lemma {:induction false} DrToDra()
    ensures Lev("dr", "dra") <= 1
  {
    LevSelf("dr");
    assert "dra"[..2] == "dr";
    LevNeighboursRight("dr", "dra");
  }
}
