/**
 * The keyboard shortcuts of js/keyboard-shortcuts.js: the keydown listener turns an
 * event into a shortcut string ("Ctrl+K", "/", "Shift+/"), looks it up in the
 * shortcut table and cancels the browser's default action when the handler it finds
 * returns true. The page the handlers act on is reduced to the state they read and
 * write: what has focus, the two checkboxes, the section select, the two buttons and
 * the help dialog.
 */
module Keyboard {
  import opened Options

  // ---------------------------------------------------------------- shortcut strings

  /** The parts of a keydown event the listener reads. */
  datatype KeyEvent = KeyEvent(ctrlKey: bool, metaKey: bool, shiftKey: bool, altKey: bool, key: string)

  /** The key values of the modifier keys themselves, which are never appended. */
  predicate IsModifierKey(key: string) {
    key == "Control" || key == "Meta" || key == "Shift" || key == "Alt"
  }

  /** The names the listener writes for held modifiers. */
  predicate IsModifierName(p: string) {
    p == "Ctrl" || p == "Meta" || p == "Shift" || p == "Alt"
  }

  /** The position of a modifier name in the fixed order Ctrl, Meta, Shift, Alt. */
  function Rank(p: string): nat {
    if p == "Ctrl" then 0 else if p == "Meta" then 1 else if p == "Shift" then 2 else 3
  }

  /** The names of the held modifiers, in the order the listener pushes them. */
  function ModifierParts(e: KeyEvent): seq<string> {
    (if e.ctrlKey then ["Ctrl"] else []) + (if e.metaKey then ["Meta"] else [])
      + (if e.shiftKey then ["Shift"] else []) + (if e.altKey then ["Alt"] else [])
  }

  /** The parts of the shortcut string when `key` is the key appended. */
  function PartsWith(e: KeyEvent, key: string): seq<string> {
    ModifierParts(e) + (if IsModifierKey(key) then [] else [key])
  }

  /** `parts.join('+')`. */
  function Join(parts: seq<string>): string
    decreases |parts|
  {
    if parts == [] then ""
    else if |parts| == 1 then parts[0]
    else parts[0] + "+" + Join(parts[1..])
  }

  /** `s.split('+')`: the pieces between the separators, always at least one. */
  function SplitPlus(s: string): (r: seq<string>)
    ensures |r| >= 1
    decreases |s|
  {
    if s == [] then [""]
    else
      var rest := SplitPlus(s[1..]);
      if s[0] == '+' then [""] + rest else [[s[0]] + rest[0]] + rest[1..]
  }

  /** The shortcut string the listener builds, as written: the event's key as reported. */
  function Combo(e: KeyEvent): string {
    Join(PartsWith(e, e.key))
  }

  /** A single lower-case letter, the key value a letter key reports without Shift or
      Caps Lock. */
  predicate IsLowerLetterKey(key: string) {
    |key| == 1 && 'a' <= key[0] <= 'z'
  }

  /**
   * The key as the table expects it: a letter pressed with Ctrl or Meta is looked up by
   * its capital, so the advertised Ctrl+K, Ctrl+F and Ctrl+D fire whichever case the
   * browser reports; every other key is kept.
   */
  function ShortcutKey(e: KeyEvent): string {
    if (e.ctrlKey || e.metaKey) && IsLowerLetterKey(e.key) then [(e.key[0] as int - 32) as char]
    else e.key
  }

  /**
   * Whether Shift is named in the settled string: not for the key "?", which already
   * says that Shift was held on the keyboards that have it on a shifted key.
   */
  function ShortcutShift(e: KeyEvent): bool {
    e.shiftKey && e.key != "?"
  }

  /** The shortcut string with the letter case of Ctrl and Meta shortcuts, and the Shift
      of "?", settled. */
  function IntendedCombo(e: KeyEvent): string {
    Join(PartsWith(e.(shiftKey := ShortcutShift(e)), ShortcutKey(e)))
  }

  /**
   * The keydown listener's string builder: pushes the held modifiers in order, then
   * the key unless it is a modifier key itself, and joins the parts with '+'.
   */
  method BuildCombo(e: KeyEvent) returns (shortcut: string)
    ensures shortcut == Combo(e)
  {
    var parts: seq<string> := [];
    if e.ctrlKey {
      parts := parts + ["Ctrl"];
    }
    if e.metaKey {
      parts := parts + ["Meta"];
    }
    if e.shiftKey {
      parts := parts + ["Shift"];
    }
    if e.altKey {
      parts := parts + ["Alt"];
    }
    assert parts == ModifierParts(e);
    var key := e.key;
    if !IsModifierKey(key) {
      parts := parts + [key];
    }
    assert parts == PartsWith(e, key);
    shortcut := Join(parts);
  }

  /** The modifier names appear exactly for the held modifiers, in the fixed order. */
  lemma {:induction false} ModifierPartsInOrder(e: KeyEvent)
    ensures var ps := ModifierParts(e);
      && (forall p :: p in ps ==> IsModifierName(p))
      && ("Ctrl" in ps <==> e.ctrlKey) && ("Meta" in ps <==> e.metaKey)
      && ("Shift" in ps <==> e.shiftKey) && ("Alt" in ps <==> e.altKey)
      && (forall i, j :: 0 <= i < j < |ps| ==> Rank(ps[i]) < Rank(ps[j]))
  {
    var c := if e.ctrlKey then ["Ctrl"] else [];
    var m := if e.metaKey then ["Meta"] else [];
    var s := if e.shiftKey then ["Shift"] else [];
    var a := if e.altKey then ["Alt"] else [];
    var ps := ModifierParts(e);
    assert ps == c + m + s + a;
    NamesIn(c, m, s, a);
    RanksIncrease(c, m, s, a);
  }

  /** Four optional names: each appears exactly when its part is present, and nothing
      else appears. */
  lemma {:induction false} NamesIn(c: seq<string>, m: seq<string>, s: seq<string>, a: seq<string>)
    requires c == [] || c == ["Ctrl"]
    requires m == [] || m == ["Meta"]
    requires s == [] || s == ["Shift"]
    requires a == [] || a == ["Alt"]
    ensures var ps := c + m + s + a;
      && (forall p :: p in ps ==> IsModifierName(p))
      && ("Ctrl" in ps <==> c != []) && ("Meta" in ps <==> m != [])
      && ("Shift" in ps <==> s != []) && ("Alt" in ps <==> a != [])
  {
    var ps := c + m + s + a;
    assert forall p :: p in ps <==> p in c || p in m || p in s || p in a;
  }

  /** Four optional names, each of its own rank, concatenate in increasing rank. */
  lemma {:induction false} RanksIncrease(c: seq<string>, m: seq<string>, s: seq<string>, a: seq<string>)
    requires c == [] || c == ["Ctrl"]
    requires m == [] || m == ["Meta"]
    requires s == [] || s == ["Shift"]
    requires a == [] || a == ["Alt"]
    ensures var ps := c + m + s + a;
      forall i, j :: 0 <= i < j < |ps| ==> Rank(ps[i]) < Rank(ps[j])
  {
    var ps := c + m + s + a;
    forall i, j | 0 <= i < j < |ps|
      ensures Rank(ps[i]) < Rank(ps[j])
    {
      assert Rank(ps[i]) == i + (4 - |ps|) || Rank(ps[i]) < Rank(ps[j]);
    }
  }

  /** Pressing a modifier key on its own gives only modifier names. */
  lemma {:induction false} LoneModifierPress(e: KeyEvent)
    requires IsModifierKey(e.key)
    ensures forall p :: p in PartsWith(e, e.key) ==> IsModifierName(p)
    ensures Combo(e) == Join(ModifierParts(e))
  {
    ModifierPartsInOrder(e);
    assert PartsWith(e, e.key) == ModifierParts(e);
  }

  /** Splitting on '+' a piece without '+' gives that piece. */
  lemma {:induction false} SplitPlain(p: string)
    requires '+' !in p
    ensures SplitPlus(p) == [p]
    decreases |p|
  {
    if p != [] {
      SplitPlain(p[1..]);
      assert [p[0]] + p[1..] == p;
    }
  }

  /** A piece without '+' followed by '+' splits off as the first piece. */
  lemma {:induction false} SplitFirst(p: string, t: string)
    requires '+' !in p
    ensures SplitPlus(p + "+" + t) == [p] + SplitPlus(t)
    decreases |p|
  {
    if p == [] {
      assert p + "+" + t == "+" + t;
    } else {
      SplitFirst(p[1..], t);
      assert (p + "+" + t)[1..] == p[1..] + "+" + t;
      assert [p[0]] + p[1..] == p;
    }
  }

  /** Splitting a join of pieces without '+' gives the pieces back. */
  lemma {:induction false} SplitJoin(parts: seq<string>)
    requires parts != []
    requires forall p :: p in parts ==> '+' !in p
    ensures SplitPlus(Join(parts)) == parts
    decreases |parts|
  {
    if |parts| == 1 {
      SplitPlain(parts[0]);
    } else {
      assert parts[0] in parts;
      SplitFirst(parts[0], Join(parts[1..]));
      SplitJoin(parts[1..]);
      assert [parts[0]] + parts[1..] == parts;
    }
  }

  /** A key whose value holds no '+' and that is not a modifier key. */
  predicate OrdinaryKey(key: string) {
    '+' !in key && !IsModifierKey(key)
  }

  /**
   * For ordinary keys the shortcut string tells the whole event: two presses that
   * give the same string held the same modifiers and the same key.
   */
  lemma {:induction false} ComboDeterminesEvent(e1: KeyEvent, e2: KeyEvent)
    requires OrdinaryKey(e1.key) && OrdinaryKey(e2.key)
    requires Combo(e1) == Combo(e2)
    ensures e1 == e2
  {
    var p1, p2 := PartsWith(e1, e1.key), PartsWith(e2, e2.key);
    OrdinaryParts(e1);
    OrdinaryParts(e2);
    SplitJoin(p1);
    SplitJoin(p2);
    assert p1 == p2;
    ModifierPartsDetermineFlags(e1, e2);
  }

  /** With an ordinary key the parts hold no '+', end in the key and start with the
      modifier names. */
  lemma {:induction false} OrdinaryParts(e: KeyEvent)
    requires OrdinaryKey(e.key)
    ensures var ps := PartsWith(e, e.key);
      && ps != [] && (forall p :: p in ps ==> '+' !in p)
      && ps[|ps| - 1] == e.key && ps[..|ps| - 1] == ModifierParts(e)
  {
    ModifierPartsInOrder(e);
    var ps := PartsWith(e, e.key);
    assert ps == ModifierParts(e) + [e.key];
    forall p | p in ps
      ensures '+' !in p
    {
      if p != e.key {
        assert p in ModifierParts(e) && IsModifierName(p);
      }
    }
  }

  /** The modifier names tell which modifiers were held. */
  lemma {:induction false} ModifierPartsDetermineFlags(e1: KeyEvent, e2: KeyEvent)
    requires PartsWith(e1, e1.key) == PartsWith(e2, e2.key)
    requires OrdinaryKey(e1.key) && OrdinaryKey(e2.key)
    ensures e1 == e2
  {
    OrdinaryParts(e1);
    OrdinaryParts(e2);
    var ps := PartsWith(e1, e1.key);
    assert ModifierParts(e1) == ps[..|ps| - 1] == ModifierParts(e2);
    ModifierPartsInOrder(e1);
    ModifierPartsInOrder(e2);
  }

  // ---------------------------------------------------------------- the table

  /** What a table entry does; `ToggleFavorites` carries what its handler returns. */
  datatype Action =
    | FocusSearch
    | SlashSearch
    | ToggleFavorites(handlerResult: bool)
    | ToggleDarkMode
    | SelectSection(index: nat)
    | ShowHelp
    | History
    | Random

  /** The `shortcuts` table. */
  function Lookup(shortcut: string): Option<Action> {
    if shortcut == "Ctrl+K" || shortcut == "Meta+K" then Some(FocusSearch)
    else if shortcut == "/" then Some(SlashSearch)
    else if shortcut == "Ctrl+F" then Some(ToggleFavorites(true))
    else if shortcut == "Meta+F" then Some(ToggleFavorites(false))
    else if shortcut == "Ctrl+D" || shortcut == "Meta+D" then Some(ToggleDarkMode)
    else if |shortcut| == 1 && '1' <= shortcut[0] <= '7' then Some(SelectSection(shortcut[0] as int - '1' as int))
    else if shortcut == "?" || shortcut == "Shift+/" then Some(ShowHelp)
    else if shortcut == "h" then Some(History)
    else if shortcut == "r" then Some(Random)
    else None
  }

  /** Every entry is one character long or ends in something other than a lower-case
      letter. */
  lemma {:induction false} TableShape(shortcut: string)
    requires Lookup(shortcut).Some? && |shortcut| > 1
    ensures !('a' <= shortcut[|shortcut| - 1] <= 'z')
  {
  }

  /** With Ctrl or Meta held, the shortcut string is the modifier names, a '+' and the
      key. */
  lemma {:induction false} ComboWithModifier(e: KeyEvent, key: string)
    requires e.ctrlKey || e.metaKey
    requires !IsModifierKey(key)
    ensures var s := Join(PartsWith(e, key));
      |s| > |key| && s[|s| - |key|..] == key
  {
    var ms := ModifierParts(e);
    ModifierPartsInOrder(e);
    JoinEndsWithLast(ms, key);
  }

  /** Joining a non-empty list with one more piece ends in '+' and that piece. */
  lemma {:induction false} JoinEndsWithLast(ms: seq<string>, key: string)
    requires ms != []
    ensures Join(ms + [key]) == Join(ms) + "+" + key
    decreases |ms|
  {
    if |ms| > 1 {
      JoinEndsWithLast(ms[1..], key);
      assert (ms + [key])[1..] == ms[1..] + [key];
    } else {
      assert ms + [key] == [ms[0], key];
    }
  }

  /**
   * As written, a letter pressed with Ctrl or Meta and reported in lower case has no
   * handler: the table lists only capitals after "Ctrl+" and "Meta+".
   */
  lemma {:induction false} LowerCaseLetterMissesTable(e: KeyEvent)
    requires (e.ctrlKey || e.metaKey) && IsLowerLetterKey(e.key)
    ensures Lookup(Combo(e)) == None
  {
    var s := Combo(e);
    ComboWithModifier(e, e.key);
    assert s[|s| - 1] == e.key[0];
    if Lookup(s).Some? {
      TableShape(s);
    }
  }

  /**
   * As written, "?" pressed with Shift, which is how the keyboards that have it produce
   * it, has no handler: the string ends in "+?", and the table lists "?" only alone.
   */
  lemma {:induction false} ShiftedQuestionMarkMissesTable(e: KeyEvent)
    requires e.shiftKey && e.key == "?"
    ensures Lookup(Combo(e)) == None
  {
    var ms := ModifierParts(e);
    assert "Shift" in ms;
    JoinEndsWithLast(ms, "?");
    assert PartsWith(e, e.key) == ms + ["?"];
    var s := Combo(e);
    assert |s| > 1 && s[|s| - 1] == '?';
  }

  /** Ctrl+K pressed without Caps Lock reports the key "k"; as written, nothing happens. */
  lemma {:induction false} CtrlKAsWrittenDoesNothing()
    ensures Combo(KeyEvent(true, false, false, false, "k")) == "Ctrl+k"
    ensures Lookup(Combo(KeyEvent(true, false, false, false, "k"))) == None
  {
    var e := KeyEvent(true, false, false, false, "k");
    assert PartsWith(e, e.key) == ["Ctrl", "k"];
    LowerCaseLetterMissesTable(e);
  }

  /** The settled string ignores the case of a letter pressed with Ctrl or Meta. */
  lemma {:induction false} IntendedComboIgnoresLetterCase(e: KeyEvent)
    requires (e.ctrlKey || e.metaKey) && IsLowerLetterKey(e.key)
    ensures IntendedCombo(e) == Combo(e.(key := ShortcutKey(e)))
    ensures IntendedCombo(e.(key := ShortcutKey(e))) == IntendedCombo(e)
  {
  }

  /** Wherever the string as written has a handler, the settled string is the same. */
  lemma {:induction false} IntendedAgreesWhereHandled(e: KeyEvent)
    requires Lookup(Combo(e)).Some?
    ensures IntendedCombo(e) == Combo(e)
  {
    if (e.ctrlKey || e.metaKey) && IsLowerLetterKey(e.key) {
      LowerCaseLetterMissesTable(e);
    } else if e.shiftKey && e.key == "?" {
      ShiftedQuestionMarkMissesTable(e);
    }
  }

  /** Ctrl+K focuses the search box whichever case the letter is reported in. */
  lemma {:induction false} CtrlKFocusesSearch(upper: bool)
    ensures Lookup(IntendedCombo(KeyEvent(true, false, false, false, if upper then "K" else "k"))) == Some(FocusSearch)
  {
    var e := KeyEvent(true, false, false, false, if upper then "K" else "k");
    assert ShortcutKey(e) == "K";
    assert PartsWith(e, "K") == ["Ctrl", "K"];
    assert ["Ctrl", "K"][1..] == ["K"];
    assert IntendedCombo(e) == "Ctrl+K";
  }

  /** "?" pressed alone builds "Shift+?", which has no handler as written. */
  lemma {:induction false} QuestionMarkAsWrittenDoesNothing()
    ensures Combo(KeyEvent(false, false, true, false, "?")) == "Shift+?"
    ensures Lookup(Combo(KeyEvent(false, false, true, false, "?"))) == None
  {
    var e := KeyEvent(false, false, true, false, "?");
    assert PartsWith(e, e.key) == ["Shift", "?"];
    assert ["Shift", "?"][1..] == ["?"];
  }

  /** The settled string of "?" ignores Shift. */
  lemma {:induction false} IntendedComboIgnoresShiftOfQuestionMark(e: KeyEvent)
    requires e.key == "?"
    ensures IntendedCombo(e) == Combo(e.(shiftKey := false))
  {
    assert ShortcutKey(e) == "?";
  }

  /** With Shift settled, "?" opens the help dialog whether or not Shift is reported. */
  lemma {:induction false} QuestionMarkShowsHelp(shift: bool)
    ensures Lookup(IntendedCombo(KeyEvent(false, false, shift, false, "?"))) == Some(ShowHelp)
  {
    var e := KeyEvent(false, false, shift, false, "?");
    IntendedComboIgnoresShiftOfQuestionMark(e);
    assert PartsWith(e.(shiftKey := false), "?") == ["?"];
  }

  /** The digits 1 to 7, pressed alone, select the section at the digit less one, with
      the string as written and as settled alike. */
  lemma {:induction false} DigitKeysSelectSection(d: char)
    requires '1' <= d <= '7'
    ensures Combo(KeyEvent(false, false, false, false, [d])) == [d]
    ensures Lookup(Combo(KeyEvent(false, false, false, false, [d]))) == Some(SelectSection(d as int - '1' as int))
    ensures IntendedCombo(KeyEvent(false, false, false, false, [d])) == [d]
  {
    var e := KeyEvent(false, false, false, false, [d]);
    assert PartsWith(e, [d]) == [[d]];
  }

  /** Cmd+F has a handler, but it lets the browser's own action go ahead. */
  lemma {:induction false} MetaFDoesNotPrevent(s: PageState)
    ensures Combo(KeyEvent(false, true, false, false, "F")) == "Meta+F"
    ensures Lookup(Combo(KeyEvent(false, true, false, false, "F"))) == Some(ToggleFavorites(false))
    ensures !Respond(KeyEvent(false, true, false, false, "F"), s).1
  {
    var e := KeyEvent(false, true, false, false, "F");
    assert PartsWith(e, "F") == ["Meta", "F"];
    assert ["Meta", "F"][1..] == ["F"];
    assert Combo(e) == "Meta+F";
  }

  // ---------------------------------------------------------------- the page

  /** `document.activeElement`: its tag, whether it is content-editable, and whether it
      is the search box. */
  datatype Focused = Focused(tagName: string, isContentEditable: bool, isSearchInput: bool)

  /** The `#searchInput` element. */
  const SearchInput: Focused := Focused("INPUT", false, true)

  /** `isInputFocused()`: something has focus and it takes typing. */
  predicate IsInputFocused(active: Option<Focused>) {
    active.Some?
      && (active.value.tagName == "INPUT" || active.value.tagName == "TEXTAREA"
          || active.value.tagName == "SELECT" || active.value.isContentEditable)
  }

  /** The `#sectionSelect` element: how many options it has and which is selected. */
  datatype Select = Select(optionCount: nat, selectedIndex: int)

  /**
   * The page as the handlers see it. An absent checkbox, select or button is None or
   * false; `changes` lists, in order, the ids of the elements a 'change' event was
   * dispatched on; the click counts stand for the buttons' own click handlers.
   */
  datatype PageState = PageState(
    active: Option<Focused>,
    hasSearch: bool,
    favoritesOnly: Option<bool>,
    darkModeToggle: Option<bool>,
    sectionSelect: Option<Select>,
    hasHistoryButton: bool,
    historyClicks: nat,
    hasRandomButton: bool,
    randomClicks: nat,
    helpShown: bool,
    changes: seq<string>)

  /** `searchInput?.focus()`. */
  function FocusSearchIn(s: PageState): PageState {
    if s.hasSearch then s.(active := Some(SearchInput)) else s
  }

  /** `document.getElementById('searchInput')`, as the value compared with the active
      element. */
  function SearchTarget(s: PageState): Option<Focused> {
    if s.hasSearch then Some(SearchInput) else None
  }

  /** `checkbox.checked = !checked` on a checkbox that may be absent. */
  function Toggled(c: Option<bool>): Option<bool> {
    match c
    case None => None
    case Some(b) => Some(!b)
  }

  /** The 'change' event dispatched after a toggle, when the checkbox exists. */
  function ChangeOf(c: Option<bool>, id: string): seq<string> {
    if c.Some? then [id] else []
  }

  /** What a handler does to the page and what it returns. */
  function Handle(a: Action, s: PageState): (PageState, bool) {
    match a
    case FocusSearch => (FocusSearchIn(s), true)
    case SlashSearch =>
      if s.active != SearchTarget(s) then (FocusSearchIn(s), true) else (s, false)
    case ToggleFavorites(r) =>
      (s.(favoritesOnly := Toggled(s.favoritesOnly),
          changes := s.changes + ChangeOf(s.favoritesOnly, "favoritesOnly")), r)
    case ToggleDarkMode =>
      (s.(darkModeToggle := Toggled(s.darkModeToggle),
          changes := s.changes + ChangeOf(s.darkModeToggle, "darkModeToggle")), true)
    case SelectSection(i) =>
      if s.sectionSelect.Some? && i < s.sectionSelect.value.optionCount && !IsInputFocused(s.active) then
        (s.(sectionSelect := Some(s.sectionSelect.value.(selectedIndex := i)),
            changes := s.changes + ["sectionSelect"]), true)
      else (s, false)
    case ShowHelp => (s.(helpShown := true), true)
    case History =>
      if !IsInputFocused(s.active) then
        (s.(historyClicks := s.historyClicks + (if s.hasHistoryButton then 1 else 0)), true)
      else (s, false)
    case Random =>
      if !IsInputFocused(s.active) then
        (s.(randomClicks := s.randomClicks + (if s.hasRandomButton then 1 else 0)), true)
      else (s, false)
  }

  /** What one keydown does: the new page and whether the default action is cancelled. */
  function Respond(e: KeyEvent, s: PageState): (PageState, bool) {
    match Lookup(Combo(e))
    case None => (s, false)
    case Some(a) => Handle(a, s)
  }

  /** What one keydown would do with the letter case of Ctrl and Meta shortcuts settled. */
  function RespondIntended(e: KeyEvent, s: PageState): (PageState, bool) {
    match Lookup(IntendedCombo(e))
    case None => (s, false)
    case Some(a) => Handle(a, s)
  }

  /** Wherever the listener as written does anything, the settled listener does the same. */
  lemma {:induction false} RespondIntendedAgrees(e: KeyEvent, s: PageState)
    requires Lookup(Combo(e)).Some?
    ensures RespondIntended(e, s) == Respond(e, s)
  {
    IntendedAgreesWhereHandled(e);
  }

  /**
   * As written, a letter reported in lower case with Ctrl or Meta leaves the page alone
   * and lets the browser's action go ahead; settled, it runs the capital's handler.
   */
  lemma {:induction false} LowerCaseLetterIgnored(e: KeyEvent, s: PageState)
    requires (e.ctrlKey || e.metaKey) && IsLowerLetterKey(e.key)
    ensures Respond(e, s) == (s, false)
    ensures RespondIntended(e, s) == Respond(e.(key := ShortcutKey(e)), s)
  {
    LowerCaseLetterMissesTable(e);
    IntendedComboIgnoresLetterCase(e);
  }

  /** Ctrl+K with the key reported as "k": as written nothing happens; settled, the
      search box takes focus and the browser's own action is cancelled. */
  lemma {:induction false} CtrlKRespond(s: PageState)
    requires s.hasSearch
    ensures Respond(KeyEvent(true, false, false, false, "k"), s) == (s, false)
    ensures RespondIntended(KeyEvent(true, false, false, false, "k"), s) == (s.(active := Some(SearchInput)), true)
  {
    CtrlKAsWrittenDoesNothing();
    CtrlKFocusesSearch(false);
  }

  /** "?" with Shift: as written nothing happens; settled, the help dialog opens and the
      browser's own action is cancelled. */
  lemma {:induction false} QuestionMarkRespond(s: PageState)
    ensures Respond(KeyEvent(false, false, true, false, "?"), s) == (s, false)
    ensures RespondIntended(KeyEvent(false, false, true, false, "?"), s) == (s.(helpShown := true), true)
  {
    QuestionMarkAsWrittenDoesNothing();
    QuestionMarkShowsHelp(true);
  }

  /** The elements of the page stay: handlers never add or remove one, never close the
      help dialog, and only append to the dispatched events. */
  lemma {:induction false} HandleKeepsPage(a: Action, s: PageState)
    ensures Handle(a, s).0.hasSearch == s.hasSearch
    ensures Handle(a, s).0.favoritesOnly.Some? == s.favoritesOnly.Some?
    ensures Handle(a, s).0.darkModeToggle.Some? == s.darkModeToggle.Some?
    ensures Handle(a, s).0.sectionSelect.Some? == s.sectionSelect.Some?
    ensures Handle(a, s).0.sectionSelect.Some? ==>
              Handle(a, s).0.sectionSelect.value.optionCount == s.sectionSelect.value.optionCount
    ensures Handle(a, s).0.hasHistoryButton == s.hasHistoryButton
    ensures Handle(a, s).0.hasRandomButton == s.hasRandomButton
    ensures Handle(a, s).0.historyClicks >= s.historyClicks
    ensures Handle(a, s).0.randomClicks >= s.randomClicks
    ensures s.helpShown ==> Handle(a, s).0.helpShown
    ensures s.changes <= Handle(a, s).0.changes
  {
    HandleKeepsElements(a, s);
    HandleOnlyAdds(a, s);
  }

  lemma {:induction false} HandleKeepsElements(a: Action, s: PageState)
    ensures Handle(a, s).0.hasSearch == s.hasSearch
    ensures Handle(a, s).0.favoritesOnly.Some? == s.favoritesOnly.Some?
    ensures Handle(a, s).0.darkModeToggle.Some? == s.darkModeToggle.Some?
    ensures Handle(a, s).0.sectionSelect.Some? == s.sectionSelect.Some?
    ensures Handle(a, s).0.sectionSelect.Some? ==>
              Handle(a, s).0.sectionSelect.value.optionCount == s.sectionSelect.value.optionCount
    ensures Handle(a, s).0.hasHistoryButton == s.hasHistoryButton
    ensures Handle(a, s).0.hasRandomButton == s.hasRandomButton
  {
  }

  lemma {:induction false} HandleOnlyAdds(a: Action, s: PageState)
    ensures Handle(a, s).0.historyClicks >= s.historyClicks
    ensures Handle(a, s).0.randomClicks >= s.randomClicks
    ensures s.helpShown ==> Handle(a, s).0.helpShown
    ensures s.changes <= Handle(a, s).0.changes
  {
  }

  /** The section, history and random shortcuts do nothing while an input has focus. */
  lemma {:induction false} GuardedWhileTyping(a: Action, s: PageState)
    requires a.SelectSection? || a.History? || a.Random?
    requires IsInputFocused(s.active)
    ensures Handle(a, s) == (s, false)
  {
  }

  /** Focusing the search box puts an input in focus, so the guarded shortcuts stop. */
  lemma {:induction false} FocusedSearchIsInput(s: PageState)
    requires s.hasSearch
    ensures IsInputFocused(Handle(FocusSearch, s).0.active)
    ensures IsInputFocused(Handle(SlashSearch, s).0.active)
  {
  }

  /** The first '/' moves focus to the search box; the next one is typed into it. */
  lemma {:induction false} SlashSecondPressTypes(s: PageState)
    requires s.hasSearch
    ensures var t := Handle(SlashSearch, s).0;
      t.active == Some(SearchInput) && Handle(SlashSearch, t) == (t, false)
  {
  }

  /** Each toggle shortcut flips its checkbox, so pressing it twice restores it. */
  lemma {:induction false} ToggleTwiceRestores(a: Action, s: PageState)
    requires a.ToggleFavorites? || a.ToggleDarkMode?
    ensures var t := Handle(a, Handle(a, s).0).0;
      t.favoritesOnly == s.favoritesOnly && t.darkModeToggle == s.darkModeToggle
  {
  }

  /** A section is selected exactly when the option exists and no input has focus;
      otherwise the page is left as it was. */
  lemma {:induction false} SelectSectionIff(i: nat, s: PageState)
    ensures var (t, r) := Handle(SelectSection(i), s);
      && (r <==> s.sectionSelect.Some? && i < s.sectionSelect.value.optionCount && !IsInputFocused(s.active))
      && (r ==> t.sectionSelect == Some(Select(s.sectionSelect.value.optionCount, i)))
      && (!r ==> t == s)
  {
  }

  /**
   * A keydown changes nothing and cancels nothing exactly when its shortcut string has
   * no handler or its handler declines; the events the listener ignores include every
   * letter reported in lower case with Ctrl or Meta.
   */
  lemma {:induction false} UnboundKeyIsInert(e: KeyEvent, s: PageState)
    ensures Lookup(Combo(e)) == None ==> Respond(e, s) == (s, false)
    ensures (e.ctrlKey || e.metaKey) && IsLowerLetterKey(e.key) ==> Respond(e, s) == (s, false)
    ensures !Respond(e, s).1 <==> Lookup(Combo(e)) == None || !Handle(Lookup(Combo(e)).value, s).1
  {
    if (e.ctrlKey || e.metaKey) && IsLowerLetterKey(e.key) {
      LowerCaseLetterMissesTable(e);
    } else if e.shiftKey && e.key == "?" {
      ShiftedQuestionMarkMissesTable(e);
    }
  }

  /** The page, with the elements the handlers touch. */
  class Page {
    var active: Option<Focused>
    const hasSearch: bool
    var favoritesOnly: Option<bool>
    var darkModeToggle: Option<bool>
    var sectionSelect: Option<Select>
    const hasHistoryButton: bool
    var historyClicks: nat
    const hasRandomButton: bool
    var randomClicks: nat
    var helpShown: bool
    var changes: seq<string>

    constructor (s: PageState)
      ensures View() == s
    {
      active := s.active;
      hasSearch := s.hasSearch;
      favoritesOnly := s.favoritesOnly;
      darkModeToggle := s.darkModeToggle;
      sectionSelect := s.sectionSelect;
      hasHistoryButton := s.hasHistoryButton;
      historyClicks := s.historyClicks;
      hasRandomButton := s.hasRandomButton;
      randomClicks := s.randomClicks;
      helpShown := s.helpShown;
      changes := s.changes;
    }

    function View(): PageState
      reads this
    {
      PageState(active, hasSearch, favoritesOnly, darkModeToggle, sectionSelect,
                hasHistoryButton, historyClicks, hasRandomButton, randomClicks, helpShown, changes)
    }

    /** `document.getElementById('searchInput')?.focus()`. */
    method FocusSearchInput()
      modifies this
      ensures View() == FocusSearchIn(old(View()))
    {
      if hasSearch {
        active := Some(SearchInput);
      }
    }

    /** `selectSection(index)`. */
    method SelectSectionAt(index: nat) returns (r: bool)
      modifies this
      ensures (View(), r) == Handle(SelectSection(index), old(View()))
    {
      if sectionSelect.Some? && index < sectionSelect.value.optionCount && !IsInputFocused(active) {
        sectionSelect := Some(sectionSelect.value.(selectedIndex := index));
        changes := changes + ["sectionSelect"];
        return true;
      }
      return false;
    }

    /** Runs the handler of one table entry. */
    method Run(a: Action) returns (r: bool)
      modifies this
      ensures (View(), r) == Handle(a, old(View()))
    {
      match a
      case FocusSearch =>
        FocusSearchInput();
        r := true;
      case SlashSearch =>
        if active != (if hasSearch then Some(SearchInput) else None) {
          FocusSearchInput();
          r := true;
        } else {
          r := false;
        }
      case ToggleFavorites(result) =>
        if favoritesOnly.Some? {
          favoritesOnly := Some(!favoritesOnly.value);
          changes := changes + ["favoritesOnly"];
        }
        assert changes == old(changes) + ChangeOf(old(favoritesOnly), "favoritesOnly");
        r := result;
      case ToggleDarkMode =>
        if darkModeToggle.Some? {
          darkModeToggle := Some(!darkModeToggle.value);
          changes := changes + ["darkModeToggle"];
        }
        assert changes == old(changes) + ChangeOf(old(darkModeToggle), "darkModeToggle");
        r := true;
      case SelectSection(i) =>
        r := SelectSectionAt(i);
      case ShowHelp =>
        helpShown := true;
        r := true;
      case History =>
        if !IsInputFocused(active) {
          if hasHistoryButton {
            historyClicks := historyClicks + 1;
          }
          r := true;
        } else {
          r := false;
        }
      case Random =>
        if !IsInputFocused(active) {
          if hasRandomButton {
            randomClicks := randomClicks + 1;
          }
          r := true;
        } else {
          r := false;
        }
    }

    /**
     * The keydown listener: builds the shortcut string, and when the table has a handler
     * for it runs the handler; the default action is cancelled exactly when there is a
     * handler and it returns true.
     */
    method OnKeyDown(e: KeyEvent) returns (preventDefault: bool)
      modifies this
      ensures (View(), preventDefault) == Respond(e, old(View()))
      ensures preventDefault <==> Lookup(Combo(e)).Some? && Handle(Lookup(Combo(e)).value, old(View())).1
    {
      var shortcut := BuildCombo(e);
      match Lookup(shortcut)
      case None =>
        preventDefault := false;
      case Some(a) =>
        preventDefault := Run(a);
    }
  }
}
