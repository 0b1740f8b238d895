# Blingus' Bardbook: the search, storage and shortcut core in Dafny

Blingus' Bardbook is a browser catalogue of bardic lines: spells, mockeries and actions.
This project models its client-side core and proves properties of the model:

- **Matching** (js/search-utils.js):
  - the Levenshtein dynamic program;
  - the typo-tolerant `fuzzyMatch`;
  - the entry evaluator `enhancedSearch`;
  - the highlighter `highlightMatches`, with `escapeHtml` and `escapeRegex`.
- **The live search view** (js/search-enhancements.js):
  - the result-count sentence and its counter element;
  - `highlightCardMatches` with its once-per-card flag;
  - the mutation-observer callback that counts result cards and highlights them.
  - The file's duplicate `highlightMatches`/`escapeRegex` are the same members as above.
- **Storage** (js/storage-utils.js): a "blingus_" namespace over a browser storage map.
  Values are stored as JSON text. It offers save, load, remove, clear, export, import, a
  byte count and an availability probe.
- **Keyboard shortcuts** (js/keyboard-shortcuts.js):
  - the keydown listener's shortcut string;
  - the shortcut table;
  - the handlers, as updates of an abstract page state.

| file | module | what it holds |
|---|---|---|
| strings.dfy | `Options`, `Strings` | Option; ASCII lower-casing; containment; JavaScript whitespace, `split(/\s+/)` and `trim`; decimal numerals |
| edit_distance.dfy | `EditDistance` | the recurrence `Lev` and the in-place matrix method |
| fuzzy.dfy | `Fuzzy` | the matcher as a predicate and as the source's loop |
| search.dfy | `Search` | catalogue items and `enhancedSearch` |
| highlight.dfy | `Highlight` | HTML escaping, regex escaping, marking matches, what the markup renders as, and the corrected highlighter |
| result_count.dfy | `ResultCount` | the counter sentence, its parser, the counter element |
| observer.dfy | `Observer` | card elements, `highlightCardMatches`, the observer callback |
| json.dfy | `JsonCodec` | `JSON.stringify`/`JSON.parse` for the values the storage layer keeps |
| storage.dfy | `Storage` | the storage area as a class over a map, and every storage operation |
| keyboard.dfy | `Keyboard` | key events, the shortcut string, the table, the page state and the listener |

Modelling choices:

- A method that changes state, or that loops in the source, is a Dafny `method`. It is
  proved against a specification function, and the source's promises are proved as
  lemmas about that function.
- Pure code is functions and lemmas.
- Browser services are explicit state:
  - a storage area is a `Store` object whose `accessible` and `writable` flags decide
    whether an access or a write throws;
  - the page the shortcuts act on is a `Page` object.

## Model

| member | source | states |
|---|---|---|
| EditDistance.LevenshteinDistance | js/search-utils.js:12-41 | the matrix filled row by row in a two-dimensional array ends with the Levenshtein distance `Lev(a, b)` in its last cell |
| EditDistance.FillBorders | js/search-utils.js:15-23 | afterwards the first column counts up from 0 and the first row holds the distances from the empty prefix of b |
| EditDistance.FillRow | js/search-utils.js:27-37 | given every earlier row correct, row i ends up holding `Lev(a[..l], b[..i])` in every cell, and no other row changes |
| EditDistance.LevCell | js/search-utils.js:28-35 | one cell's value is the diagonal neighbour when the characters agree, and otherwise one more than the least of the diagonal, left and upper neighbours |
| EditDistance.LevSelf | js/search-utils.js:16-40 | the distance from a string to itself is 0 |
| EditDistance.LevZeroIffEqual | js/search-utils.js:26-40 | the distance is 0 exactly when the strings are equal |
| EditDistance.LevSymmetric | js/search-utils.js:26-40 | the distance does not depend on argument order |
| EditDistance.LevBounds | js/search-utils.js:16-40 | the distance lies between the length difference and the longer length |
| EditDistance.LevNeighbours | js/search-utils.js:26-40 | adding or dropping the last character of one string changes the distance by at most one |
| EditDistance.LevNeighboursRight | js/search-utils.js:26-40 | adding or dropping the last character of the second string changes the distance by at most one |
| EditDistance.LevStandard | js/search-utils.js:28-35 | taking only the diagonal on equal characters loses nothing: every cell is the least of the diagonal (plus one when the characters differ), the left neighbour plus one and the upper neighbour plus one |
| EditDistance.LevTriangle | js/search-utils.js:12-41 | the distance obeys the triangle inequality: Lev(a, c) <= Lev(a, b) + Lev(b, c) |
| Fuzzy.FuzzyMatch | js/search-utils.js:50-73 | the loop returns exactly the matcher predicate: false for an empty needle or haystack, else lower-cased containment, or some `/\s+/` word that starts with the needle or lies within `threshold` in both length and edits; containment alone already gives true |
| Fuzzy.MatchesIgnoresCase | js/search-utils.js:53-54 | lower-casing either input first changes no answer |
| Fuzzy.MatchesMonotone | js/search-utils.js:60-72 | a larger threshold accepts everything a smaller one accepts |
| Fuzzy.ShortNeedleMatchesLeadingWhitespace | js/search-utils.js:60-69 | a haystack with leading whitespace accepts every needle no longer than the threshold, through the empty first word of the split |
| Fuzzy.ShortNeedleMatchesTrailingWhitespace | js/search-utils.js:60-69 | a haystack with trailing whitespace accepts every needle no longer than the threshold, through the empty last word of the split |
| Fuzzy.DrgnNearDragon | js/search-utils.js:12-41 | the distance from "drgn" to "dragon" is 2 |
| Strings.SplitWhitespace | js/search-utils.js:60 | splitting on runs of whitespace gives at least one word, and no word holds whitespace |
| Strings.SplitLeadingWhitespace | js/search-utils.js:60 | leading whitespace yields an empty first word |
| Strings.SplitTrailingWhitespace | js/search-utils.js:60 | trailing whitespace yields an empty last word |
| Strings.LowerIdempotent | js/search-utils.js:53-54 | lower-casing twice is lower-casing once |
| Search.EnhancedSearch | js/search-utils.js:119-149 | the definition, in the source's short-circuit order of exact tests before fuzzy ones; its meaning is stated by Search.EnhancedSearchIsAnyField |
| Search.EnhancedSearchIsAnyField | js/search-utils.js:119-149 | the empty query matches every item; otherwise an item matches exactly when one of its searchable fields (a truthy title with its truthy subtitle and attribution, or the string item) contains the lower-cased query or, with fuzzy matching on, passes the fuzzy matcher |
| Search.ExactSearchIsContainment | js/search-utils.js:119-146 | with fuzzy matching off, an item matches exactly when the query is empty or is contained, ignoring case, in the title, subtitle, attribution or string |
| Search.FuzzyOnlyWidens | js/search-utils.js:131-136 | turning fuzzy matching on never loses a match |
| Search.UntitledItemsMatchOnlyEmptyQuery | js/search-utils.js:120-148 | an item that is neither a string nor has a truthy title matches the empty query and nothing else |
| Search.EnhancedSearchIgnoresQueryCase | js/search-utils.js:122 | the query's case does not change the answer |
| Search.DrgnMatchesOnlyFuzzy | js/search-utils.js:125-136 | the query "drgn" misses the title "Dragon Breath" with fuzzy matching off and matches it with fuzzy matching on, through the word "dragon" two edits away |
| Highlight.EscapeHtml | js/search-utils.js:97-101 | no '<', '>' or U+00A0 survives escaping, and escaping never shortens |
| Highlight.EscapeHtmlRoundTrip | js/search-utils.js:97-101 | escaped text renders as the original text |
| Highlight.EscapeHtmlIdentityIff | js/search-utils.js:97-101 | escaping leaves a text unchanged exactly when it holds none of '&', U+00A0, '<', '>' |
| Highlight.EscapeHtmlAppend | js/search-utils.js:97-101 | escaping works character by character: the escape of a concatenation is the concatenation of the escapes |
| Highlight.EscapeRegex | js/search-utils.js:108-110 | escaping never shortens the query |
| Highlight.PatternLiteralIffEscaped | js/search-utils.js:108-110 | a pattern stands for exactly the text s when it is the regex escape of s: every syntax character is backslash-escaped and every other character is kept |
| Highlight.MarkAll | js/search-utils.js:89 | the definition of the global case-insensitive `replace`: leftmost occurrence first, resuming after it; the output is never shorter, and its meaning is stated by Highlight.StripMarksOfMarkAll and Highlight.MarkAllChangesIffMatch |
| Highlight.StripMarksOfMarkAll | js/search-utils.js:88-89 | taking the inserted tags out of the marked text gives the text back |
| Highlight.MarkAllChangesIffMatch | js/search-utils.js:88-89 | marking changes the text exactly when the literal occurs, ignoring case |
| Highlight.HasMatchIffContains | js/search-utils.js:88 | a case-insensitive regex match is containment of the lower-cased query in the lower-cased text |
| Highlight.HighlightMatches | js/search-utils.js:81-90 | the definition: the escaped text for an empty query or text, otherwise the escaped text with the regex-escaped query marked; its meaning is stated by Highlight.HighlightStripsToEscaped and Highlight.HighlightChangesIffMatch |
| Highlight.HighlightStripsToEscaped | js/search-utils.js:81-89 | removing the mark tags from the output gives exactly the escaped text, for every text and query |
| Highlight.HighlightChangesIffMatch | js/search-utils.js:81-89 | the output is the plain escaped text exactly when the query is empty or does not occur, ignoring case, in the escaped text |
| Highlight.MarkupInQueryNeverMatches | js/search-utils.js:84-89 | a query holding '<', '>' or U+00A0 highlights nothing, because those characters never survive escaping |
| Highlight.AmpersandQueryCorruptsText | js/search-utils.js:84-89 | the text "&" highlighted for the query "&" is `<mark …>&</mark>amp;`, which renders as "&amp;" |
| Highlight.SemicolonQueryCorruptsText | js/search-utils.js:84-89 | the text "&" highlighted for the query ";" is `&amp<mark …>;</mark>`, which renders as "&;" because "&amp" without ';' is still a reference |
| Highlight.MarkAllEscaped | js/search-utils.js:81-89 | the corrected marking is at least as long as the escaped text, and holds a mark tag, and is longer than the escaped text, whenever the query occurs |
| Highlight.HighlightIntendedKeepsText | js/search-utils.js:81-89 | the corrected highlighter's markup renders as the original text for every text and query |
| Highlight.HighlightIntendedMarksIffMatch | js/search-utils.js:81-89 | the corrected markup holds a mark exactly when the query is non-empty and occurs in the text, ignoring case |
| Highlight.HighlightIntendedAgrees | js/search-utils.js:81-89 | on a text holding none of the characters escaping rewrites, the corrected highlighter gives exactly the source's output |
| ResultCount.ResultCountText | js/search-enhancements.js:127 | the definition of the template literal; its meaning is stated by ResultCount.ResultCountTextRoundTrip and ResultCount.ResultCountTextInjective |
| ResultCount.ResultCountTextRoundTrip | js/search-enhancements.js:127 | reading the sentence "Found N result[s][ for "q"]" back gives the count and the query |
| ResultCount.ParseResultCountOnlyText | js/search-enhancements.js:127 | whatever reads back as a count and a query is the sentence for them |
| ResultCount.ResultCountTextInjective | js/search-enhancements.js:127 | different counts or queries give different sentences |
| ResultCount.UpdateResultCount | js/search-enhancements.js:122-138 | with no counter nothing happens; with a count the counter shows "Found N result", plus "s" unless N is 1, plus ` for "q"` for a non-empty query; without a count it is hidden and keeps its text |
| Strings.NatToString | js/search-enhancements.js:127 | a count is written as a non-empty run of digits with no leading zero |
| Strings.DigitsValueOfNatToString | js/search-enhancements.js:127 | the written count reads back as the count |
| Strings.Trim | js/search-enhancements.js:148 | the trimmed query is a slice of the input that neither starts nor ends with whitespace |
| Observer.HighlightElement | js/search-enhancements.js:186-196 | the definition of one element's step with the source's `highlightMatches`; its meaning is stated by Observer.HighlightElementIdempotent, Observer.HighlightElementAgrees and Observer.AmpersandElementShowsEntity |
| Observer.HighlightElementAgrees | js/search-enhancements.js:186-196 | on text that escaping leaves alone, the element step with the source's `highlightMatches` is the step with the corrected highlighter |
| Observer.HighlightElementIntendedKeepsText | js/search-enhancements.js:186-196 | with the corrected highlighter, the element step never changes the text an element shows |
| Observer.HighlightElementIntendedMarksIffMatch | js/search-enhancements.js:186-196 | with the corrected highlighter and a non-empty query, an element holds a mark afterwards exactly when it held one before or its text contains the query, ignoring case |
| Observer.HighlightElementKeepsText | js/search-enhancements.js:186-196 | with the source's highlighter, an element whose text escaping leaves alone keeps its text |
| Observer.HighlightElementMarksIffMatch | js/search-enhancements.js:186-196 | with the source's highlighter, a non-empty query and text escaping leaves alone, an element holds a mark afterwards exactly when it held one before or its text contains the query, ignoring case |
| Observer.UnmarkedHighlightIsEscaped | js/search-enhancements.js:201-209 | for a non-empty query, output of `highlightMatches` with no mark in it is exactly the escaped text |
| Observer.HighlightElementIdempotent | js/search-enhancements.js:186-196 | with the source's highlighter, highlighting an element twice with one query is highlighting it once, for every text |
| Observer.HighlightedElementIsFinal | js/search-enhancements.js:188 | with the source's highlighter, an element with text escaping leaves alone that the step rewrote is skipped by every later query |
| Observer.AmpersandElementShowsEntity | js/search-enhancements.js:190-195 | with the source's highlighter, an element showing "&" searched for "&" ends up showing "&amp;" |
| Observer.HighlightAll | js/search-enhancements.js:185-197 | every element is visited: the result has one element per input element |
| Observer.HighlightAllKeepsText | js/search-enhancements.js:185-197 | each element of a card whose text escaping leaves alone keeps its text through highlighting |
| Observer.HighlightCardMatches | js/search-enhancements.js:178-198 | for an empty query or a flagged card nothing changes; otherwise the card is flagged and each element is highlighted in place |
| Observer.IsResultCard | js/search-enhancements.js:157-158 | the definition of the test on the card's text; what it gives the count is stated by Observer.CountResultsBounds and Observer.OnContentChanged |
| Observer.CountResultsBounds | js/search-enhancements.js:152-160 | the count is at most the number of cards; it is all of them exactly when every card is a result card, and none exactly when none is |
| Observer.OnContentChanged | js/search-enhancements.js:147-169 | for a non-empty trimmed query, every result card (one holding neither "No results found" nor "Search Results") goes through `highlightCardMatches` and every other card is untouched, and the counter shows the number of result cards; for an empty query no card changes and the counter is hidden |
| JsonCodec.Encode | js/storage-utils.js:20 | the definition of `JSON.stringify` for the values kept; its meaning is stated by JsonCodec.DecodeEncode |
| JsonCodec.Decode | js/storage-utils.js:39 | the definition of `JSON.parse`: a value followed by nothing, or failure where the parse throws; its meaning is stated by JsonCodec.DecodeEncode and JsonCodec.ParseValueEncode |
| JsonCodec.DecodeEncode | js/storage-utils.js:20 | `JSON.parse(JSON.stringify(v))` gives v back for every value |
| JsonCodec.ParseValueEncode | js/storage-utils.js:39 | the encoding of a value reads back as that value, leaving whatever non-digit text follows it |
| Storage.SaveLocal | js/storage-utils.js:17-27 | on success the namespaced key holds the value's JSON text and the result is true; if the write throws the result is false and the map is unchanged |
| Storage.LoadValue | js/storage-utils.js:35-44 | the definition of what `loadLocal` reads from a reachable store; its meaning is stated by Storage.LoadAfterSave, Storage.LoadOtherKey and Storage.LoadAfterRemove |
| Storage.LoadLocal | js/storage-utils.js:35-44 | the default when the store is unreachable, the namespaced key is absent or empty, or its text does not parse; otherwise the parsed value |
| Storage.LoadAfterSave | js/storage-utils.js:17-44 | a saved value loads back as itself |
| Storage.LoadOtherKey | js/storage-utils.js:17-60 | saving or removing one key leaves what every other key loads |
| Storage.LoadAfterRemove | js/storage-utils.js:51-60 | a removed key loads as the default |
| Storage.RemoveLocal | js/storage-utils.js:51-60 | only the namespaced key is deleted; an unreachable store gives false and no change |
| Storage.Unprefixed | js/storage-utils.js:66-79 | the cleared map holds exactly the keys without the prefix, with their values |
| Storage.ClearLocal | js/storage-utils.js:66-79 | the loop over a snapshot of the keys removes exactly the prefixed keys and leaves every other key and value |
| Storage.IsLocalStorageAvailable | js/storage-utils.js:158-167 | true exactly when the probe write succeeds, and then the map is unchanged except that the probe key is absent; on failure nothing changes |
| Storage.StrippedMember | js/storage-utils.js:176-181 | a name is a stripped key exactly when the prefix followed by the name is a key |
| Storage.ExportKeys | js/storage-utils.js:173-187 | the exported names are exactly the stored keys with the prefix stripped |
| Storage.ExportAfterClear | js/storage-utils.js:66-79 | after clearing there is nothing to export |
| Storage.ExportData | js/storage-utils.js:173-187 | the loop builds the map from each stripped key to what `loadLocal` gives for it with the default null; an unreachable store gives the empty map |
| Storage.ImportData | js/storage-utils.js:194-204 | false with nothing changed for a null or undefined argument; otherwise true, and when the store takes writes every key of the data is saved under its namespaced key; otherwise nothing changes; keys outside the imported set are untouched |
| Storage.ImportThenExport | js/storage-utils.js:194-204 | after an import, exporting gives back every imported key with its value unchanged |
| Storage.Utf16Length | js/storage-utils.js:127 | a string's `.length` lies between its character count and twice that |
| Storage.SizeOfRemove | js/storage-utils.js:125-129 | the sum over keys does not depend on the order the keys are visited |
| Storage.UsageZeroIff | js/storage-utils.js:120-135 | the byte count is zero exactly when the store holds no prefixed key |
| Storage.UsageAfterSave | js/storage-utils.js:125-129 | saving adds the new entry's length plus its key's length and drops what the entry replaced |
| Storage.UsageIgnoresForeignKey | js/storage-utils.js:125-129 | keys outside the namespace, such as the availability probe, do not count |
| Storage.StoreUsage | js/storage-utils.js:125-129 | the loop sums the value length plus key length over the prefixed keys |
| Storage.GetStorageUsage | js/storage-utils.js:120-152 | the local and session byte counts are the sums for each store; an unreachable local store leaves both at 0, an unreachable session store leaves its count at 0 |
| Keyboard.BuildCombo | js/keyboard-shortcuts.js:128-140 | pushes Ctrl, Meta, Shift, Alt for the held modifiers, then the key unless it is a modifier key, and joins with '+': the result is the shortcut string as written, with the key as the browser reports it |
| Keyboard.ModifierPartsInOrder | js/keyboard-shortcuts.js:128-132 | each modifier name appears exactly when that modifier is held, and always in the order Ctrl, Meta, Shift, Alt |
| Keyboard.LoneModifierPress | js/keyboard-shortcuts.js:135-138 | pressing a modifier key gives only modifier names |
| Keyboard.SplitJoin | js/keyboard-shortcuts.js:140 | splitting a '+'-join of pieces without '+' gives the pieces back |
| Keyboard.ComboDeterminesEvent | js/keyboard-shortcuts.js:128-140 | for keys that hold no '+' and are not modifier keys, the shortcut string determines the modifiers and the key |
| Keyboard.Lookup | js/keyboard-shortcuts.js:10-102 | the definition of the `shortcuts` table; its shape is stated by Keyboard.TableShape, Keyboard.DigitKeysSelectSection and Keyboard.MetaFDoesNotPrevent |
| Keyboard.TableShape | js/keyboard-shortcuts.js:10-102 | every table entry longer than one character ends in something other than a lower-case letter |
| Keyboard.LowerCaseLetterMissesTable | js/keyboard-shortcuts.js:128-143 | as written, a lower-case letter pressed with Ctrl or Meta finds no handler |
| Keyboard.CtrlKAsWrittenDoesNothing | js/keyboard-shortcuts.js:12-15 | as written, Ctrl+K reported as key "k" builds "Ctrl+k", which has no handler |
| Keyboard.IntendedComboIgnoresLetterCase | js/keyboard-shortcuts.js:135-140 | with the case settled, a Ctrl/Meta letter builds the string of its capital |
| Keyboard.IntendedAgreesWhereHandled | js/keyboard-shortcuts.js:128-143 | wherever the string as written has a handler, the settled string is the same |
| Keyboard.CtrlKFocusesSearch | js/keyboard-shortcuts.js:12-15 | with the case settled, Ctrl+K finds the focus-search handler whichever case the letter is reported in |
| Keyboard.ShiftedQuestionMarkMissesTable | js/keyboard-shortcuts.js:75-82 | as written, "?" pressed with Shift, with or without other modifiers, finds no handler |
| Keyboard.QuestionMarkAsWrittenDoesNothing | js/keyboard-shortcuts.js:128-143 | as written, "?" typed with Shift builds "Shift+?", which has no handler |
| Keyboard.IntendedComboIgnoresShiftOfQuestionMark | js/keyboard-shortcuts.js:131-140 | the settled string of "?" is the string built without Shift |
| Keyboard.QuestionMarkShowsHelp | js/keyboard-shortcuts.js:75-78 | with Shift settled, "?" finds the help handler whether or not Shift is reported |
| Keyboard.DigitKeysSelectSection | js/keyboard-shortcuts.js:66-72 | a digit 1 to 7 pressed alone builds the digit itself, as written and settled alike, and maps to selecting section digit-1 |
| Keyboard.MetaFDoesNotPrevent | js/keyboard-shortcuts.js:38-45 | Cmd+F reported as "F" builds "Meta+F", whose handler toggles favourites but returns false, so the keydown never cancels the default |
| Keyboard.RespondIntendedAgrees | js/keyboard-shortcuts.js:128-146 | wherever the listener as written finds a handler, the settled listener does exactly the same |
| Keyboard.LowerCaseLetterIgnored | js/keyboard-shortcuts.js:128-146 | as written, a lower-case letter with Ctrl or Meta changes nothing and cancels nothing; settled, it does what the capital does |
| Keyboard.CtrlKRespond | js/keyboard-shortcuts.js:12-15 | Ctrl with key "k": as written the page is unchanged and nothing is cancelled; settled, the search box takes focus and the default is cancelled |
| Keyboard.QuestionMarkRespond | js/keyboard-shortcuts.js:75-78 | "?" with Shift: as written the page is unchanged and nothing is cancelled; settled, the help dialog opens and the default is cancelled |
| Keyboard.IsInputFocused | js/keyboard-shortcuts.js:114-122 | the definition: something has focus and it is an INPUT, TEXTAREA or SELECT or is content-editable; what it guards is stated by Keyboard.GuardedWhileTyping and Keyboard.FocusedSearchIsInput |
| Keyboard.Handle | js/keyboard-shortcuts.js:10-112 | the definition of what each handler does to the page and returns; its meaning is stated by Keyboard.HandleKeepsPage, Keyboard.GuardedWhileTyping, Keyboard.SelectSectionIff and Keyboard.ToggleTwiceRestores |
| Keyboard.Respond | js/keyboard-shortcuts.js:126-147 | the definition of one keydown on the string as written: no handler leaves the page alone and cancels nothing, otherwise the handler's outcome; its meaning is stated by Keyboard.UnboundKeyIsInert, and Keyboard.Page.OnKeyDown is proved to do the same |
| Keyboard.HandleKeepsPage | js/keyboard-shortcuts.js:10-112 | no handler adds or removes an element, closes the help dialog, lowers a click count or removes a dispatched event |
| Keyboard.GuardedWhileTyping | js/keyboard-shortcuts.js:85-112 | while an input has focus, the section, history and random shortcuts change nothing and return false |
| Keyboard.FocusedSearchIsInput | js/keyboard-shortcuts.js:12-27 | after a search shortcut focuses the search box, an input has focus |
| Keyboard.SlashSecondPressTypes | js/keyboard-shortcuts.js:20-27 | the first '/' focuses the search box; the next one changes nothing and returns false, so the '/' is typed |
| Keyboard.ToggleTwiceRestores | js/keyboard-shortcuts.js:30-63 | the favourites and dark-mode shortcuts negate their checkbox, so two presses restore it |
| Keyboard.SelectSectionIff | js/keyboard-shortcuts.js:104-112 | a section is selected, and true returned, exactly when the select and that option exist and no input has focus; otherwise nothing changes |
| Keyboard.UnboundKeyIsInert | js/keyboard-shortcuts.js:143-146 | a keydown whose string as written has no handler changes nothing and cancels nothing, which covers every lower-case letter with Ctrl or Meta; the default is left alone exactly when there is no handler or it returns false |
| Keyboard.Page.FocusSearchInput | js/keyboard-shortcuts.js:13 | focus moves to the search box when it exists |
| Keyboard.Page.SelectSectionAt | js/keyboard-shortcuts.js:104-112 | the page and result are those of the section handler |
| Keyboard.Page.Run | js/keyboard-shortcuts.js:10-102 | running a table entry's handler updates the fields as that handler does and returns its result |
| Keyboard.Page.OnKeyDown | js/keyboard-shortcuts.js:126-147 | the page and result are those of `Respond` on the string as written; the default action is cancelled exactly when the table has a handler for that string and the handler returns true |

## Left out

- EditDistance.Lev: that the distance is the least number of single-character
  insertions, deletions and substitutions turning one string into the other is not
  proved, because edit scripts are not modelled. The recurrence is proved symmetric,
  zero only on equal strings, equal to the textbook minimum recurrence
  (EditDistance.LevStandard) and subject to the triangle inequality
  (EditDistance.LevTriangle).
- Highlight.RenderedText: only the four references escaping writes are decoded, with
  or without their ';'. Other named and numeric references never arise in the
  highlighter's output, and are read as plain characters.

- Strings.Lower: case folding is ASCII only. `toLowerCase` and the regex `i` flag fold all of Unicode.
- Strings are sequences of Unicode scalar values. JavaScript indexes UTF-16 code units, so
  `charAt`, `.length` and the edit distance differ for characters beyond the Basic
  Multilingual Plane. The exception is Storage.Utf16Length, which counts code units
  because the byte count uses `.length`.
- Observer.HighlightElementKeepsText: stated only for text with no '&', '<', '>' or
  U+00A0, because with the source's highlighter a query can match inside an entity
  that escaping introduced (Observer.AmpersandElementShowsEntity). The corrected step
  keeps every text (Observer.HighlightElementIntendedKeepsText).
- Observer.HighlightElementMarksIffMatch: stated only for text escaping leaves alone,
  because as written text "a<b" and query "<" is rewritten with no mark. The corrected
  step has the property for every text.
- Observer.HighlightedElementIsFinal: stated only for text escaping leaves alone, for
  the same reason: an element rewritten without a mark is rewritten again by a later
  query.
- Observer.HighlightAllKeepsText: covers only the elements whose text escaping leaves
  alone, as for Observer.HighlightElementKeepsText.
- Search.EnhancedSearch: a null or undefined item is not modelled. In the source it
  throws a TypeError at `item.t` for a non-empty query. A title, subtitle or
  attribution that is truthy but not a string also throws there, and is not modelled.
- The elements of a card are independent in the model. In the page, `querySelectorAll('p, div, span')`
  also returns nested elements, and rewriting a parent replaces its children.
- The MutationObserver registration, retries and waiting for the DOM are out of scope.
  The same goes for the counter's scale animation and the DOM built for the counter,
  the fuzzy toggle and the search icon.
- JsonCodec.Decode: only the text `JSON.stringify` writes is read back. Any other text
  decodes as a failure, and `loadLocal` then returns its default. This covers:
  - whitespace;
  - fractions and exponents;
  - `\/`, upper-case hex and other `\u` escapes;
  - surrogate pairs.
- Json numbers are integers. Floating point is not modelled.
- Object members keep their order. JavaScript's reordering of integer-like keys and the
  special key `__proto__` are not modelled.
- Storage.ImportData: an argument that is a string, number or boolean is not modelled.
  `Object.keys` accepts those without throwing. Null and undefined are the None case.
- Storage.ImportData: whether writes succeed is a property of the store that stays
  fixed during one import. A quota that runs out part way through an import is not
  modelled.
- `saveSession` and `loadSession` are the same code as `saveLocal` and `loadLocal`.
  They are the same members applied to a session `Store`.
- `createDebouncedSave`: timers.
- The kilobyte and megabyte values of `getStorageUsage`: floating-point `toFixed`
  formatting.
- Console logging in the catch blocks.
- Keyboard: outside effects are abstract state.
  - The help dialog is a flag; its markup, close buttons and Escape listener are not
    modelled.
  - Button clicks are counters.
  - 'change' events are a list of element ids; their listeners are not modelled.
  - `focus()` on an element that cannot take focus is not modelled.
- `addKbdStyles` and DOM-ready initialisation: styling and wiring.
- api/blingus-data.php and api/blingus-sync.php are not part of this model. They are
  HTTP, file and database plumbing.
- js/ui-utils.js is not part of this model. Its `escapeHtml` is the same function as
  Highlight.EscapeHtml.

## Findings

| source | as written | input that shows it | evidently intended | confidence | as-written member | corrected member |
|---|---|---|---|---|---|---|
| js/search-utils.js:84-89 | the query is searched for in the already-escaped text, so a match can cover part of an entity reference that escaping introduced (the copy at js/search-enhancements.js:201-209 is the same) | text "&", query "&": the output `<mark …>&</mark>amp;` displays as "&amp;" instead of "&"; with query ";" the output `&amp<mark …>;</mark>` displays as "&;" (Highlight.SemicolonQueryCorruptsText) | the highlighted markup displays the original text, with the matches marked | high; not executed | Highlight.AmpersandQueryCorruptsText | Highlight.HighlightIntendedKeepsText |
| js/keyboard-shortcuts.js:12-63 | the table names its Ctrl and Meta letter shortcuts with capitals ("Ctrl+K", "Ctrl+F", "Ctrl+D"), but the listener appends the key as the browser reports it, which is lower case without Shift or Caps Lock | Ctrl+K with Caps Lock off: key "k", shortcut "Ctrl+k", no handler, and the search box is not focused | the shortcuts the help dialog advertises (js/keyboard-shortcuts.js:183-198) fire whichever case the letter is reported in | medium; not executed | Keyboard.CtrlKAsWrittenDoesNothing | Keyboard.CtrlKFocusesSearch |
| js/keyboard-shortcuts.js:75-82 | the help shortcut is listed as "?" and "Shift+/", but the listener names Shift and then appends the key as reported, which is "?" itself when Shift is held | "?" typed with Shift on a US layout: key "?", shortcut "Shift+?", no handler, and the help dialog does not open | "?" opens the help dialog, as the dialog itself advertises (js/keyboard-shortcuts.js:206-207) | medium; not executed | Keyboard.QuestionMarkAsWrittenDoesNothing | Keyboard.QuestionMarkShowsHelp |

The page model keeps the code as written:

- Observer.HighlightCardMatches highlights with Highlight.HighlightMatches;
- Keyboard.Page.OnKeyDown looks up Keyboard.Combo.

The corrected counterparts are:

- Observer.HighlightElementIntended, with its lemmas;
- Keyboard.RespondIntended, with Keyboard.RespondIntendedAgrees, Keyboard.CtrlKRespond and
  Keyboard.QuestionMarkRespond.
