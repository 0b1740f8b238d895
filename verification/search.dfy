/**
 * `enhancedSearch` of js/search-utils.js: whether one catalog item matches a query.
 */
module Search {
  import opened Strings
  import opened Fuzzy

  /**
   * A catalog item. An entry carries a title `t` and optional subtitle `s` and
   * attribution `a` (an absent field is the empty string: both are falsy in the
   * source); a plain string item is a bare string; any other value that is not null or
   * undefined is Other.
   */
  datatype Item = Entry(t: string, s: string, a: string) | Plain(text: string) | Other

  /** The searchable fields of an item, in the order the source tries them. */
  function Fields(item: Item): seq<string> {
    match item
    case Entry(t, s, a) =>
      if t == "" then [] else [t] + (if s != "" then [s] else []) + (if a != "" then [a] else [])
    case Plain(text) => [text]
    case Other => []
  }

  /** `enhancedSearch(query, item, useFuzzy)`, with its short-circuit order. */
  function EnhancedSearch(query: string, item: Item, useFuzzy: bool): bool {
    if query == "" then true
    else
      var q := Lower(query);
      match item
      case Entry(t, s, a) =>
        if t == "" then false
        else if Contains(Lower(t), q) then true
        else if s != "" && Contains(Lower(s), q) then true
        else if a != "" && Contains(Lower(a), q) then true
        else if useFuzzy then
          if Matches(q, t, DefaultThreshold) then true
          else if s != "" && Matches(q, s, DefaultThreshold) then true
          else if a != "" && Matches(q, a, DefaultThreshold) then true
          else false
        else false
      case Plain(text) =>
        if Contains(Lower(text), q) then true
        else if useFuzzy && Matches(q, text, DefaultThreshold) then true
        else false
      case Other => false
  }

  /** One field accepts the lower-cased query: by containment, or by the fuzzy matcher when
      it is enabled. */
  predicate FieldMatches(field: string, q: string, useFuzzy: bool) {
    Contains(Lower(field), q) || (useFuzzy && Matches(q, field, DefaultThreshold))
  }

  /**
   * The order-free reading of the evaluator: the empty query matches everything;
   * otherwise an item matches exactly when one of its searchable fields does. Exact
   * tests running before fuzzy ones changes cost, never the answer.
   */
  lemma {:induction false} EnhancedSearchIsAnyField(query: string, item: Item, useFuzzy: bool)
    ensures EnhancedSearch(query, item, useFuzzy)
        <==> (query == "" || exists f :: f in Fields(item) && FieldMatches(f, Lower(query), useFuzzy))
  {
    if query != "" {
      var q := Lower(query);
      var fs := Fields(item);
      match item
      case Entry(t, s, a) =>
        if t != "" {
          assert t in fs;
          assert s != "" ==> s in fs;
          assert a != "" ==> a in fs;
          assert forall f :: f in fs ==> f == t || (s != "" && f == s) || (a != "" && f == a);
        }
      case Plain(text) =>
        assert fs == [text] && text in fs;
        assert EnhancedSearch(query, item, useFuzzy) == FieldMatches(text, q, useFuzzy);
      case Other =>
    }
  }

  /** With fuzzy matching off the evaluator is plain case-insensitive containment in the
      title, subtitle or attribution, or in the string item. */
  lemma {:induction false} ExactSearchIsContainment(query: string, item: Item)
    ensures EnhancedSearch(query, item, false)
        <==> (query == "" || exists f :: f in Fields(item) && Contains(Lower(f), Lower(query)))
  {
    EnhancedSearchIsAnyField(query, item, false);
  }

  /** Turning fuzzy matching on never loses a match. */
  lemma {:induction false} FuzzyOnlyWidens(query: string, item: Item)
    ensures EnhancedSearch(query, item, false) ==> EnhancedSearch(query, item, true)
  {
    EnhancedSearchIsAnyField(query, item, false);
    EnhancedSearchIsAnyField(query, item, true);
  }

  /** An item with no title that is not a string matches only the empty query. */
  lemma {:induction false} UntitledItemsMatchOnlyEmptyQuery(query: string, item: Item, useFuzzy: bool)
    requires item.Other? || (item.Entry? && item.t == "")
    ensures EnhancedSearch(query, item, useFuzzy) <==> query == ""
  {
  }

  /** The query's case does not matter. */
  lemma {:induction false} EnhancedSearchIgnoresQueryCase(query: string, item: Item, useFuzzy: bool)
    ensures EnhancedSearch(query, item, useFuzzy) == EnhancedSearch(Lower(query), item, useFuzzy)
  {
    LowerIdempotent(query);
  }

  /**
   * The typo "drgn" is not in the title "Dragon Breath", so exact search misses it; the
   * word "dragon" is two edits away and of similar length, so fuzzy search finds it.
   */
  lemma {:induction false} DrgnMatchesOnlyFuzzy()
    ensures !EnhancedSearch("drgn", Entry("Dragon Breath", "", ""), false)
    ensures EnhancedSearch("drgn", Entry("Dragon Breath", "", ""), true)
  {
    DrgnLowered();
    DrgnFuzzy();
  }

  lemma {:induction false} DrgnLowered()
    ensures Lower("drgn") == "drgn" && Lower("Dragon Breath") == "dragon breath"
    ensures !Contains(Lower("Dragon Breath"), Lower("drgn"))
  {
    assert Lower("Dragon Breath") == "dragon breath";
    assert Lower("drgn") == "drgn";
    DragonBreathLacksDrgn();
  }

  lemma {:induction false} DrgnFuzzy()
    ensures Matches("drgn", "Dragon Breath", DefaultThreshold)
  {
    DrgnLowered();
    DragonBreathFirstWord();
    var words := SplitWhitespace("dragon breath");
    assert words[0] in words;
    DrgnNearDragon();
    assert WordMatches("dragon", "drgn", DefaultThreshold);
  }

  lemma {:induction false} DragonBreathLacksDrgn()
    ensures !Contains("dragon breath", "drgn")
  {
    var h := "dragon breath";
    forall i: nat | i <= |h|
      ensures !OccursAt(h, "drgn", i)
    {
      if i + 4 <= |h| {
        var w := h[i..i + 4];
        assert w[0] == h[i] && w[2] == h[i + 2];
        assert h[0] == 'd' && h[2] == 'a';
        assert forall j :: 1 <= j < |h| ==> h[j] != 'd';
      }
    }
  }

  lemma {:induction false} DragonBreathFirstWord()
    ensures SplitWhitespace("dragon breath")[0] == "dragon"
  {
    var h := "dragon breath";
    assert h[6] == ' ' && forall i :: 0 <= i < 6 ==> !IsWhitespace(h[i]);
    assert NextWhitespace(h, 0) == 6;
    assert h[..6] == "dragon";
  }
}
