/**
 * What js/search-enhancements.js does when the rendered content changes: it counts
 * the result cards, highlights the query in each, and updates the counter
 * (`highlightCardMatches` and the mutation-observer callback of
 * `enhanceGlobalSearch`).
 */
module Observer {
  import opened Options
  import opened Strings
  import opened Highlight
  import opened ResultCount

  /**
   * One `p`, `div` or `span` inside a card: the text it shows, its markup, and
   * whether a mark element is inside it.
   */
  datatype Element = Element(text: string, markup: string, hasMark: bool)

  /**
   * One element's step of `highlightCardMatches`: an element that already holds a mark
   * is skipped; one whose text contains the query, ignoring case, gets the markup of
   * `highlightMatches(text, query)` unless that markup is the text itself. The text is
   * what the page then shows, and a mark is inside exactly when the markup holds a mark
   * start tag.
   */
  function HighlightElement(e: Element, query: string): Element {
    if e.hasMark then e
    else if e.text != "" && Contains(Lower(e.text), Lower(query)) then
      var h := HighlightMatches(e.text, query);
      if h != e.text then Element(RenderedText(h), h, Contains(h, MarkOpen)) else e
    else e
  }

  /** The same step with the corrected highlighter `HighlightMatchesIntended`. */
  function HighlightElementIntended(e: Element, query: string): Element {
    if e.hasMark then e
    else if e.text != "" && Contains(Lower(e.text), Lower(query)) then
      var h := HighlightMatchesIntended(e.text, query);
      if h != e.text then Element(RenderedText(h), h, Contains(h, MarkOpen)) else e
    else e
  }

  /** No character of the text is one that escaping rewrites. */
  predicate EscapeFree(text: string) {
    forall i :: 0 <= i < |text| ==> !NeedsEscape(text[i])
  }

  /** On a text that escaping leaves alone, the step as written and the corrected step
      agree. */
  lemma {:induction false} HighlightElementAgrees(e: Element, query: string)
    requires EscapeFree(e.text)
    ensures HighlightElement(e, query) == HighlightElementIntended(e, query)
  {
    HighlightIntendedAgrees(e.text, query);
  }

  /** The corrected step never changes the text an element shows. */
  lemma {:induction false} HighlightElementIntendedKeepsText(e: Element, query: string)
    ensures HighlightElementIntended(e, query).text == e.text
  {
    HighlightIntendedKeepsText(e.text, query);
  }

  /**
   * With the corrected step and a non-empty query, an element holds a mark afterwards
   * exactly when it held one before or its text contains the query, ignoring case.
   */
  lemma {:induction false} HighlightElementIntendedMarksIffMatch(e: Element, query: string)
    requires query != ""
    ensures HighlightElementIntended(e, query).hasMark
        <==> e.hasMark || (e.text != "" && Contains(Lower(e.text), Lower(query)))
  {
    if !e.hasMark && e.text != "" && Contains(Lower(e.text), Lower(query)) {
      HighlightIntendedMarksIffMatch(e.text, query);
      HasMatchIffContains(e.text, query);
      var h := HighlightMatchesIntended(e.text, query);
      assert |h| > |EscapeHtml(e.text)| >= |e.text|;
    }
  }

  /** As written, highlighting never changes the text of an element whose text escaping
      leaves alone. */
  lemma {:induction false} HighlightElementKeepsText(e: Element, query: string)
    requires EscapeFree(e.text)
    ensures HighlightElement(e, query).text == e.text
  {
    HighlightElementAgrees(e, query);
    HighlightElementIntendedKeepsText(e, query);
  }

  /**
   * As written, for a non-empty query and a text escaping leaves alone, an element holds
   * a mark afterwards exactly when it held one before or its text contains the query,
   * ignoring case.
   */
  lemma {:induction false} HighlightElementMarksIffMatch(e: Element, query: string)
    requires query != "" && EscapeFree(e.text)
    ensures HighlightElement(e, query).hasMark
        <==> e.hasMark || (e.text != "" && Contains(Lower(e.text), Lower(query)))
  {
    HighlightElementAgrees(e, query);
    HighlightElementIntendedMarksIffMatch(e, query);
  }

  /** Markup the marker changed holds a mark start tag. */
  lemma {:induction false} MarkAllChangedHasMark(s: string, lit: string)
    requires lit != []
    ensures MarkAll(s, lit) != s ==> Contains(MarkAll(s, lit), MarkOpen)
    decreases |s|
  {
    if |s| >= |lit| {
      var r := MarkAll(s, lit);
      if Lower(s[..|lit|]) == Lower(lit) {
        MarkAllAtMatch(s, lit);
        assert OccursAt(r, MarkOpen, 0);
      } else {
        MarkAllAtMiss(s, lit);
        MarkAllChangedHasMark(s[1..], lit);
        ContainsAfterPrefix([s[0]], MarkAll(s[1..], lit), MarkOpen);
        assert s == [s[0]] + s[1..];
      }
    }
  }

  /** The source's highlighter output without a mark is the escaped text. */
  lemma {:induction false} UnmarkedHighlightIsEscaped(text: string, query: string)
    requires query != ""
    ensures !Contains(HighlightMatches(text, query), MarkOpen) ==> HighlightMatches(text, query) == EscapeHtml(text)
  {
    if text != "" {
      PatternLiteralIffEscaped(EscapeRegex(query), query);
      MarkAllChangedHasMark(EscapeHtml(text), query);
    }
  }

  /** Highlighting an element twice with the same query is highlighting it once, with
      the source's highlighter. */
  lemma {:induction false} HighlightElementIdempotent(e: Element, query: string)
    requires query != ""
    ensures HighlightElement(HighlightElement(e, query), query) == HighlightElement(e, query)
  {
    var h := HighlightMatches(e.text, query);
    if !e.hasMark && e.text != "" && Contains(Lower(e.text), Lower(query)) && h != e.text
       && !Contains(h, MarkOpen) {
      UnmarkedHighlightIsEscaped(e.text, query);
      EscapeHtmlRoundTrip(e.text);
    }
  }

  /** As written, an element with text escaping leaves alone that the highlighter changed
      is left alone by every later query. */
  lemma {:induction false} HighlightedElementIsFinal(e: Element, q1: string, q2: string)
    requires q1 != "" && EscapeFree(e.text) && HighlightElement(e, q1) != e
    ensures HighlightElement(HighlightElement(e, q1), q2) == HighlightElement(e, q1)
  {
    HighlightElementMarksIffMatch(e, q1);
  }

  /** As written, the text "&" searched for "&" ends up showing "&amp;". */
  lemma {:induction false} AmpersandElementShowsEntity()
    ensures HighlightElement(Element("&", "&amp;", false), "&").text == "&amp;"
  {
    AmpersandQueryCorruptsText();
    var h := HighlightMatches("&", "&");
    assert Lower("&") == "&";
    assert OccursAt(Lower("&"), Lower("&"), 0);
    assert |h| > 1;
  }

  /** Every element of a card, highlighted one by one. */
  function HighlightAll(es: seq<Element>, query: string): (r: seq<Element>)
    ensures |r| == |es|
  {
    seq(|es|, i requires 0 <= i < |es| => HighlightElement(es[i], query))
  }

  /** A card's elements whose text escaping leaves alone keep it through highlighting. */
  lemma {:induction false} HighlightAllKeepsText(es: seq<Element>, query: string)
    ensures forall i :: 0 <= i < |es| && EscapeFree(es[i].text) ==> HighlightAll(es, query)[i].text == es[i].text
  {
    forall i | 0 <= i < |es| && EscapeFree(es[i].text)
      ensures HighlightAll(es, query)[i].text == es[i].text
    {
      HighlightElementKeepsText(es[i], query);
    }
  }

  /** A `.card` element: its text, the `data-highlighted` flag, and the elements inside. */
  class Card {
    /**
     * The card's `textContent` as read before highlighting. Highlighting rewrites the
     * elements inside, and with the source's highlighter the text they show can gain
     * the letters of an entity after an '&'. That never changes IsResultCard: "No
     * results found" and "Search Results" hold no character that escaping rewrites, so
     * no such insertion can split one of them or complete one.
     */
    const text: string
    var highlighted: bool
    var elements: seq<Element>

    constructor (text: string, elements: seq<Element>)
      ensures this.text == text && this.elements == elements && !highlighted
    {
      this.text := text;
      this.elements := elements;
      highlighted := false;
    }
  }

  /**
   * `highlightCardMatches(card, query)`: an empty query or a card already flagged
   * changes nothing; otherwise the card is flagged and every element highlighted.
   */
  method HighlightCardMatches(card: Card, query: string)
    modifies card
    ensures query == "" || old(card.highlighted) ==>
              card.highlighted == old(card.highlighted) && card.elements == old(card.elements)
    ensures query != "" && !old(card.highlighted) ==>
              card.highlighted && card.elements == HighlightAll(old(card.elements), query)
  {
    if query == "" || card.highlighted {
      return;
    }
    card.highlighted := true;
    ghost var before := card.elements;
    var i := 0;
    while i < |card.elements|
      invariant 0 <= i <= |card.elements| == |before|
      invariant card.highlighted
      invariant forall k :: 0 <= k < i ==> card.elements[k] == HighlightElement(before[k], query)
      invariant forall k :: i <= k < |before| ==> card.elements[k] == before[k]
    {
      card.elements := card.elements[i := HighlightElement(card.elements[i], query)];
      i := i + 1;
    }
    assert card.elements == HighlightAll(before, query);
  }

  /** A card that is neither the empty-state message nor the results header. */
  predicate IsResultCard(text: string) {
    !Contains(text, "No results found") && !Contains(text, "Search Results")
  }

  /** How many of the cards are result cards. */
  function CountResults(cards: seq<Card>): nat
    decreases |cards|
  {
    if cards == [] then 0
    else CountResults(cards[..|cards| - 1]) + (if IsResultCard(cards[|cards| - 1].text) then 1 else 0)
  }

  /** The count is at most the number of cards, all of them exactly when every card is a
      result card, and none exactly when no card is. */
  lemma {:induction false} CountResultsBounds(cards: seq<Card>)
    ensures CountResults(cards) <= |cards|
    ensures CountResults(cards) == |cards| <==> forall i :: 0 <= i < |cards| ==> IsResultCard(cards[i].text)
    ensures CountResults(cards) == 0 <==> forall i :: 0 <= i < |cards| ==> !IsResultCard(cards[i].text)
    decreases |cards|
  {
    if cards != [] {
      var init := cards[..|cards| - 1];
      CountResultsBounds(init);
      assert forall i :: 0 <= i < |init| ==> init[i] == cards[i];
    }
  }

  /** The query the callback works with: the trimmed search box value, or the empty
      string when there is no search box. */
  function SearchQuery(input: Option<string>): string {
    match input
    case None => ""
    case Some(value) => Trim(value)
  }

  /** What the callback leaves in one card for query q. */
  twostate predicate CardAfter(card: Card, q: string)
    reads card
  {
    if q != "" && IsResultCard(card.text) && !old(card.highlighted) then
      card.highlighted && card.elements == HighlightAll(old(card.elements), q)
    else
      card.highlighted == old(card.highlighted) && card.elements == old(card.elements)
  }

  /**
   * The mutation-observer callback: with a non-empty query every result card is
   * highlighted and the counter shows how many there are; with an empty one the
   * counter is hidden and no card changes.
   */
  method OnContentChanged(cards: seq<Card>, input: Option<string>, counter: Counter?)
    requires forall i, j :: 0 <= i < j < |cards| ==> cards[i] != cards[j]
    modifies set i | 0 <= i < |cards| :: cards[i], counter
    ensures forall i :: 0 <= i < |cards| ==> CardAfter(cards[i], SearchQuery(input))
    ensures counter != null && SearchQuery(input) != "" ==>
              counter.text == ResultCountText(CountResults(cards), SearchQuery(input)) && counter.shown
    ensures counter != null && SearchQuery(input) == "" ==>
              counter.text == old(counter.text) && !counter.shown
  {
    var query := SearchQuery(input);
    if query != "" {
      var count := 0;
      for i := 0 to |cards|
        invariant count == CountResults(cards[..i])
        invariant forall k :: 0 <= k < i ==> CardAfter(cards[k], query)
        invariant forall k :: i <= k < |cards| ==>
                    cards[k].highlighted == old(cards[k].highlighted) && cards[k].elements == old(cards[k].elements)
      {
        assert cards[..i + 1][..i] == cards[..i];
        if IsResultCard(cards[i].text) {
          count := count + 1;
          HighlightCardMatches(cards[i], query);
        }
      }
      assert cards[..|cards|] == cards;
      UpdateResultCount(counter, Some(count), query);
    } else {
      UpdateResultCount(counter, None, "");
    }
  }
}
