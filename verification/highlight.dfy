/**
 * The highlighter of js/search-utils.js (`highlightMatches`, `escapeHtml`,
 * `escapeRegex`); js/search-enhancements.js carries an identical copy, modelled
 * by the same members.
 *
 * `escapeHtml` assigns the text to a DOM node's textContent and reads back its
 * innerHTML, which is the "escaping a string" step of HTML fragment serialisation
 * in attribute-free text mode (section 13.3 of the WHATWG HTML Living Standard):
 * '&', U+00A0, '<' and '>' become entity references.
 */
module Highlight {
  import opened Options
  import opened Strings

  /** The opening and closing tags wrapped around every match. */
  const MarkStyle: string := "background: #ffeb3b; color: #000; padding: 2px 4px; border-radius: 3px; font-weight: bold;"
  const MarkOpen: string := "<mark style=\"" + MarkStyle + "\">"
  const MarkClose: string := "</mark>"

  // ---------------------------------------------------------------- HTML escaping

  function EscapeChar(c: char): string {
    if c == '&' then "&amp;"
    else if c == '\U{A0}' then "&nbsp;"
    else if c == '<' then "&lt;"
    else if c == '>' then "&gt;"
    else [c]
  }

  /** No markup character survives escaping. */
  predicate MarkupFree(s: string) {
    forall i :: 0 <= i < |s| ==> s[i] != '<' && s[i] != '>' && s[i] != '\U{A0}'
  }

  function EscapeHtml(s: string): (r: string)
    ensures MarkupFree(r)
    ensures |r| >= |s|
    decreases |s|
  {
    if s == [] then [] else EscapeChar(s[0]) + EscapeHtml(s[1..])
  }

  /**
   * The text an HTML parser reads from markup made of text and mark tags. A tag adds no
   * text. The references escaping writes are decoded when they lie inside one run of
   * text, with their ';' or without it: "&amp", "&nbsp", "&lt" and "&gt" are legacy
   * names that the named character reference state of the WHATWG HTML tokenizer still
   * decodes in text. Any other character stands for itself. After an '&' of escaped
   * text only a prefix of one of these references can follow in the same run, so no
   * other named reference arises.
   */
  function RenderedText(s: string): string
    decreases |s|
  {
    if s == [] then []
    else if MarkOpen <= s then RenderedText(s[|MarkOpen|..])
    else if MarkClose <= s then RenderedText(s[|MarkClose|..])
    else if "&amp;" <= s then "&" + RenderedText(s[5..])
    else if "&nbsp;" <= s then "\U{A0}" + RenderedText(s[6..])
    else if "&lt;" <= s then "<" + RenderedText(s[4..])
    else if "&gt;" <= s then ">" + RenderedText(s[4..])
    else if "&amp" <= s then "&" + RenderedText(s[4..])
    else if "&nbsp" <= s then "\U{A0}" + RenderedText(s[5..])
    else if "&lt" <= s then "<" + RenderedText(s[3..])
    else if "&gt" <= s then ">" + RenderedText(s[3..])
    else [s[0]] + RenderedText(s[1..])
  }

  /** A mismatch at one index rules out a prefix. */
  lemma {:induction false} NotPrefix(p: string, s: string, k: nat)
    requires k < |p| && k < |s| && p[k] != s[k]
    ensures !(p <= s)
  {
  }

  lemma {:induction false} RenderedEscapeChar(c: char, rest: string)
    ensures RenderedText(EscapeChar(c) + rest) == [c] + RenderedText(rest)
  {
    var s := EscapeChar(c) + rest;
    if c == '<' {
      assert s[0] == '&';
    } else {
      assert s[0] != '<';
    }
    NotPrefix(MarkOpen, s, 0);
    NotPrefix(MarkClose, s, 0);
    if c == '&' {
      assert "&amp;" <= s && s[5..] == rest;
    } else if c == '\U{A0}' {
      assert s[1] == 'n';
      assert !("&amp;" <= s);
      assert "&nbsp;" <= s && s[6..] == rest;
    } else if c == '<' {
      assert s[1] == 'l';
      assert !("&amp;" <= s) && !("&nbsp;" <= s);
      assert "&lt;" <= s && s[4..] == rest;
    } else if c == '>' {
      assert s[1] == 'g';
      assert !("&amp;" <= s) && !("&nbsp;" <= s) && !("&lt;" <= s);
      assert "&gt;" <= s && s[4..] == rest;
    } else {
      assert s[0] == c && s[1..] == rest;
    }
  }

  /** Escaped text reads back as the original text, whatever markup follows it. */
  lemma {:induction false} RenderedEscaped(x: string, rest: string)
    ensures RenderedText(EscapeHtml(x) + rest) == x + RenderedText(rest)
    decreases |x|
  {
    if x != [] {
      RenderedEscaped(x[1..], rest);
      EscapeHtmlCons(x, rest);
      RenderedEscapeChar(x[0], EscapeHtml(x[1..]) + rest);
      ConsAppend(x, RenderedText(rest));
    } else {
      assert EscapeHtml(x) + rest == rest;
    }
  }

  lemma {:induction false} EscapeHtmlCons(x: string, rest: string)
    requires x != []
    ensures EscapeHtml(x) + rest == EscapeChar(x[0]) + (EscapeHtml(x[1..]) + rest)
  {
  }

  lemma {:induction false} ConsAppend(x: string, y: string)
    requires x != []
    ensures [x[0]] + (x[1..] + y) == x + y
  {
    assert [x[0]] + x[1..] == x;
  }

  /** Escaping loses nothing: the parser recovers the original text. */
  lemma {:induction false} EscapeHtmlRoundTrip(s: string)
    ensures RenderedText(EscapeHtml(s)) == s
  {
    RenderedEscaped(s, []);
    assert EscapeHtml(s) + [] == EscapeHtml(s);
  }

  /** The characters escaping rewrites. */
  predicate NeedsEscape(c: char) {
    c == '&' || c == '\U{A0}' || c == '<' || c == '>'
  }

  /** Escaping leaves a string as it is exactly when none of its characters needs it. */
  lemma {:induction false} EscapeHtmlIdentityIff(s: string)
    ensures EscapeHtml(s) == s <==> forall i :: 0 <= i < |s| ==> !NeedsEscape(s[i])
    decreases |s|
  {
    if s != [] {
      EscapeHtmlIdentityIff(s[1..]);
      var e := EscapeHtml(s[1..]);
      assert EscapeHtml(s) == EscapeChar(s[0]) + e;
      if NeedsEscape(s[0]) {
        assert |EscapeHtml(s)| > |s|;
      } else {
        assert EscapeChar(s[0]) == [s[0]];
        if e == s[1..] {
          assert EscapeHtml(s) == s;
        } else {
          assert |e| > |s[1..]| || e != s[1..];
          assert EscapeHtml(s)[1..] == e;
        }
        forall i | 0 <= i < |s| && i >= 1
          ensures s[i] == s[1..][i - 1]
        {
        }
      }
    }
  }

  /** Escaping distributes over concatenation. */
  lemma {:induction false} EscapeHtmlAppend(x: string, y: string)
    ensures EscapeHtml(x + y) == EscapeHtml(x) + EscapeHtml(y)
    decreases |x|
  {
    if x != [] {
      assert (x + y)[1..] == x[1..] + y;
      EscapeHtmlAppend(x[1..], y);
    } else {
      assert x + y == y;
    }
  }

  // ---------------------------------------------------------------- regex escaping

  /** The characters `escapeRegex` escapes: . * + ? ^ $ { } ( ) | [ ] and backslash. */
  predicate IsRegexSyntax(c: char) {
    c in ".*+?^${}()|[]\\"
  }

  function EscapeRegexChar(c: char): string {
    if IsRegexSyntax(c) then ['\\', c] else [c]
  }

  function EscapeRegex(s: string): (r: string)
    ensures |r| >= |s|
    decreases |s|
  {
    if s == [] then [] else EscapeRegexChar(s[0]) + EscapeRegex(s[1..])
  }

  /**
   * The text a regular-expression pattern matches when it is made only of ordinary
   * characters and backslash escapes of syntax characters (each of which stands for the
   * character itself); None when the pattern uses any other construct.
   */
  function PatternLiteral(p: string): Option<string>
    decreases |p|
  {
    if p == [] then Some([])
    else if p[0] == '\\' then
      if |p| >= 2 && IsRegexSyntax(p[1]) then
        match PatternLiteral(p[2..])
        case Some(rest) => Some([p[1]] + rest)
        case None => None
      else None
    else if IsRegexSyntax(p[0]) then None
    else
      match PatternLiteral(p[1..])
      case Some(rest) => Some([p[0]] + rest)
      case None => None
  }

  /** An escaped query is a pattern for exactly the query's own text, and escaping is the
      only way to write a literal pattern. */
  lemma {:induction false} PatternLiteralIffEscaped(p: string, s: string)
    ensures PatternLiteral(p) == Some(s) <==> p == EscapeRegex(s)
    decreases |p| + |s|
  {
    if s != [] {
      var e := EscapeRegex(s[1..]);
      assert EscapeRegex(s) == EscapeRegexChar(s[0]) + e;
      if IsRegexSyntax(s[0]) {
        assert EscapeRegex(s)[2..] == e;
      } else {
        assert EscapeRegex(s)[1..] == e;
      }
      assert s == [s[0]] + s[1..];
    }
    if p != [] {
      if p[0] == '\\' && |p| >= 2 && IsRegexSyntax(p[1]) {
        if s != [] {
          PatternLiteralIffEscaped(p[2..], s[1..]);
        }
      } else if !IsRegexSyntax(p[0]) {
        if s != [] {
          PatternLiteralIffEscaped(p[1..], s[1..]);
        }
      }
    }
  }

  // ---------------------------------------------------------------- marking matches

  /** The literal occurs at index i of s, ignoring case. */
  predicate MatchesAt(s: string, lit: string, i: nat) {
    i + |lit| <= |s| && Lower(s[i..i + |lit|]) == Lower(lit)
  }

  predicate HasMatch(s: string, lit: string) {
    exists i: nat :: i <= |s| && MatchesAt(s, lit, i)
  }

  /**
   * `s.replace(/(lit)/gi, MarkOpen + "$1" + MarkClose)` for a non-empty literal: the
   * leftmost case-insensitive occurrence is wrapped, keeping its own casing, and the
   * scan resumes after it.
   */
  function MarkAll(s: string, lit: string): (r: string)
    requires lit != []
    ensures |r| >= |s|
    decreases |s|
  {
    if |s| < |lit| then s
    else if Lower(s[..|lit|]) == Lower(lit) then
      MarkOpen + (s[..|lit|] + (MarkClose + MarkAll(s[|lit|..], lit)))
    else [s[0]] + MarkAll(s[1..], lit)
  }

  /** `highlightMatches(text, query)`. */
  function HighlightMatches(text: string, query: string): string {
    if query == "" || text == "" then EscapeHtml(text)
    else
      var escapedText := EscapeHtml(text);
      var pattern := EscapeRegex(query);
      PatternLiteralIffEscaped(pattern, query);
      MarkAll(escapedText, PatternLiteral(pattern).value)
  }

  /** Every occurrence of either tag is deleted. */
  function StripMarks(s: string): string
    decreases |s|
  {
    if s == [] then []
    else if MarkOpen <= s then StripMarks(s[|MarkOpen|..])
    else if MarkClose <= s then StripMarks(s[|MarkClose|..])
    else [s[0]] + StripMarks(s[1..])
  }

  predicate NoLessThan(s: string) {
    forall i :: 0 <= i < |s| ==> s[i] != '<'
  }

  lemma {:induction false} StripMarksPlain(x: string, y: string)
    requires NoLessThan(x)
    ensures StripMarks(x + y) == x + StripMarks(y)
    decreases |x|
  {
    if x != [] {
      var s := x + y;
      assert s[0] == x[0] && x[0] != '<';
      NotPrefix(MarkOpen, s, 0);
      NotPrefix(MarkClose, s, 0);
      assert StripMarks(s) == [s[0]] + StripMarks(s[1..]);
      assert s[1..] == x[1..] + y;
      StripMarksPlain(x[1..], y);
      assert [x[0]] + (x[1..] + StripMarks(y)) == x + StripMarks(y);
    } else {
      assert x + y == y;
    }
  }

  lemma {:induction false} StripMarksOpen(m: string)
    ensures StripMarks(MarkOpen + m) == StripMarks(m)
  {
    var s := MarkOpen + m;
    assert MarkOpen <= s && s[|MarkOpen|..] == m;
  }

  lemma {:induction false} StripMarksClose(m: string)
    ensures StripMarks(MarkClose + m) == StripMarks(m)
  {
    var s := MarkClose + m;
    assert s[1] == '/';
    NotPrefix(MarkOpen, s, 1);
    assert MarkClose <= s && s[|MarkClose|..] == m;
  }

  /** Stripping a wrapped, tag-free piece leaves the piece. */
  lemma {:induction false} StripMarksWrapped(w: string, m: string)
    requires NoLessThan(w)
    ensures StripMarks(MarkOpen + (w + (MarkClose + m))) == w + StripMarks(m)
  {
    StripMarksOpen(w + (MarkClose + m));
    StripMarksPlain(w, MarkClose + m);
    StripMarksClose(m);
  }

  lemma {:induction false} NoLessThanPrefix(s: string, k: nat)
    requires k <= |s| && NoLessThan(s)
    ensures NoLessThan(s[..k]) && NoLessThan(s[k..])
  {
    assert forall i :: 0 <= i < k ==> s[..k][i] == s[i];
    assert forall i :: 0 <= i < |s| - k ==> s[k..][i] == s[k + i];
  }

  lemma {:induction false} StripMarksOfMarkAll(s: string, lit: string)
    requires lit != [] && NoLessThan(s)
    ensures StripMarks(MarkAll(s, lit)) == s
    decreases |s|
  {
    if |s| < |lit| {
      StripMarksPlain(s, []);
      assert s + [] == s;
    } else if Lower(s[..|lit|]) == Lower(lit) {
      NoLessThanPrefix(s, |lit|);
      StripMarksOfMarkAll(s[|lit|..], lit);
      StripAtMatch(s, lit);
    } else {
      NoLessThanPrefix(s, 1);
      StripMarksOfMarkAll(s[1..], lit);
      StripAtMiss(s, lit);
    }
  }

  lemma {:induction false} StripAtMatch(s: string, lit: string)
    requires lit != [] && |lit| <= |s| && Lower(s[..|lit|]) == Lower(lit) && NoLessThan(s[..|lit|])
    requires StripMarks(MarkAll(s[|lit|..], lit)) == s[|lit|..]
    ensures StripMarks(MarkAll(s, lit)) == s
  {
    MarkAllAtMatch(s, lit);
    SplitAt(s, |lit|);
    StripWrappedEq(MarkAll(s, lit), s[..|lit|], MarkAll(s[|lit|..], lit), s[|lit|..], s);
  }

  /** MarkAll at a match: the match wrapped, then the rest marked. */
  lemma {:induction false} MarkAllAtMatch(s: string, lit: string)
    requires lit != [] && |lit| <= |s| && Lower(s[..|lit|]) == Lower(lit)
    ensures MarkAll(s, lit) == MarkOpen + (s[..|lit|] + (MarkClose + MarkAll(s[|lit|..], lit)))
  {
  }

  lemma {:induction false} SplitAt(s: string, k: nat)
    requires k <= |s|
    ensures s[..k] + s[k..] == s
  {
  }

  lemma {:induction false} StripWrappedEq(h: string, w: string, m: string, rest: string, s: string)
    requires h == MarkOpen + (w + (MarkClose + m)) && NoLessThan(w)
    requires StripMarks(m) == rest && s == w + rest
    ensures StripMarks(h) == s
  {
    StripMarksWrapped(w, m);
  }

  lemma {:induction false} StripAtMiss(s: string, lit: string)
    requires lit != [] && |lit| <= |s| && Lower(s[..|lit|]) != Lower(lit) && NoLessThan(s[..1])
    requires StripMarks(MarkAll(s[1..], lit)) == s[1..]
    ensures StripMarks(MarkAll(s, lit)) == s
  {
    assert [s[0]] == s[..1];
    StripMarksPlain([s[0]], MarkAll(s[1..], lit));
    assert [s[0]] + s[1..] == s;
  }

  /** MarkAll changes its input exactly when the literal occurs in it. */
  lemma {:induction false} MarkAllChangesIffMatch(s: string, lit: string)
    requires lit != []
    ensures MarkAll(s, lit) == s <==> !HasMatch(s, lit)
    decreases |s|
  {
    if |s| < |lit| {
      assert !HasMatch(s, lit);
    } else if Lower(s[..|lit|]) == Lower(lit) {
      assert MatchesAt(s, lit, 0);
      MarkAllAtMatch(s, lit);
      assert |MarkAll(s, lit)| > |s|;
    } else {
      assert !MatchesAt(s, lit, 0);
      MarkAllChangesIffMatch(s[1..], lit);
      HasMatchOfTail(s, lit);
      MarkAllAtMiss(s, lit);
      ConsEq(s[0], MarkAll(s[1..], lit), s[1..]);
      assert s == [s[0]] + s[1..];
    }
  }

  /** MarkAll where no match starts: the first character, then the rest marked. */
  lemma {:induction false} MarkAllAtMiss(s: string, lit: string)
    requires lit != [] && |lit| <= |s| && Lower(s[..|lit|]) != Lower(lit)
    ensures MarkAll(s, lit) == [s[0]] + MarkAll(s[1..], lit)
  {
  }

  lemma {:induction false} ConsEq(c: char, x: string, y: string)
    ensures [c] + x == [c] + y <==> x == y
  {
    if [c] + x == [c] + y {
      assert x == ([c] + x)[1..];
    }
  }

  /** Case-insensitive matching is containment after lower-casing both sides. */
  lemma {:induction false} HasMatchIffContains(s: string, lit: string)
    ensures HasMatch(s, lit) <==> Contains(Lower(s), Lower(lit))
  {
    forall i: nat | i <= |s|
      ensures MatchesAt(s, lit, i) <==> OccursAt(Lower(s), Lower(lit), i)
    {
      if i + |lit| <= |s| {
        assert Lower(s)[i..i + |lit|] == Lower(s[i..i + |lit|]);
      }
    }
  }

  /** Removing the inserted tags from the highlighter's output leaves exactly the escaped
      text: matches are wrapped, never altered, dropped or duplicated. */
  lemma {:induction false} HighlightStripsToEscaped(text: string, query: string)
    ensures StripMarks(HighlightMatches(text, query)) == EscapeHtml(text)
  {
    var e := EscapeHtml(text);
    if query == "" || text == "" {
      StripMarksPlain(e, []);
      assert e + [] == e;
    } else {
      PatternLiteralIffEscaped(EscapeRegex(query), query);
      StripMarksOfMarkAll(e, query);
    }
  }

  /** The highlighter leaves the escaped text as it is exactly when the query is empty or
      does not occur, ignoring case, in the already-escaped text. */
  lemma {:induction false} HighlightChangesIffMatch(text: string, query: string)
    ensures HighlightMatches(text, query) == EscapeHtml(text)
        <==> (query == "" || !Contains(Lower(EscapeHtml(text)), Lower(query)))
  {
    var e := EscapeHtml(text);
    HasMatchIffContains(e, query);
    if query != "" {
      if text == "" {
        assert !HasMatch(e, query);
      } else {
        PatternLiteralIffEscaped(EscapeRegex(query), query);
        MarkAllChangesIffMatch(e, query);
      }
    }
  }

  /**
   * First quirk: the query is looked for in the escaped text, so a query holding '<',
   * '>' or U+00A0 (which never survive escaping) highlights nothing.
   */
  lemma {:induction false} MarkupInQueryNeverMatches(text: string, query: string, k: nat)
    requires k < |query| && (query[k] == '<' || query[k] == '>' || query[k] == '\U{A0}')
    ensures HighlightMatches(text, query) == EscapeHtml(text)
  {
    var e := EscapeHtml(text);
    forall i: nat | i + |query| <= |e|
      ensures !MatchesAt(e, query, i)
    {
      assert Lower(e[i..i + |query|])[k] == LowerChar(e[i + k]);
      assert LowerChar(e[i + k]) != Lower(query)[k];
    }
    assert !HasMatch(e, query);
    HasMatchIffContains(e, query);
    HighlightChangesIffMatch(text, query);
  }

  /**
   * Second quirk, and the defect it causes: the query is also found inside the
   * references escaping introduced. Searching for "&" in the text "&" wraps the '&' of
   * "&amp;" in a mark, and the page then reads "&amp;" where the text said "&".
   */
  lemma {:induction false} AmpersandQueryCorruptsText()
    ensures HighlightMatches("&", "&") == MarkOpen + ("&" + (MarkClose + "amp;"))
    ensures RenderedText(HighlightMatches("&", "&")) == "&amp;"
  {
    HighlightAmpersand();
    MarkAllOfEscapedAmp();
    RenderedMarkedAmpersand(HighlightMatches("&", "&"), "amp;");
    RenderedAmpTail();
    assert "&" + "amp;" == "&amp;";
  }

  lemma {:induction false} RenderedAmpTail()
    ensures RenderedText("amp;") == "amp;"
  {
    EscapeHtmlRoundTrip("amp;");
    EscapeHtmlIdentityIff("amp;");
  }

  /** Searching for "&" in "&" marks the escaped text "&amp;". */
  lemma {:induction false} HighlightAmpersand()
    ensures HighlightMatches("&", "&") == MarkAll("&amp;", "&")
  {
    assert EscapeHtml("&") == "&amp;";
    assert EscapeRegex("&") == "&";
    PatternLiteralIffEscaped("&", "&");
  }

  lemma {:induction false} MarkAllOfEscapedAmp()
    ensures MarkAll("&amp;", "&") == MarkOpen + ("&" + (MarkClose + "amp;"))
  {
    var s := "&amp;";
    assert Lower(s[..1]) == Lower("&");
    MarkAllAtMatch(s, "&");
    assert s[..1] == "&" && s[1..] == "amp;";
    MarkAllOfAmpTail();
  }

  lemma {:induction false} MarkAllOfAmpTail()
    ensures MarkAll("amp;", "&") == "amp;"
  {
    assert "amp;"[1..] == "mp;" && "mp;"[1..] == "p;" && "p;"[1..] == ";" && ";"[1..] == [];
    assert Lower("amp;"[..1])[0] == 'a';
    assert Lower("mp;"[..1])[0] == 'm';
    assert Lower("p;"[..1])[0] == 'p';
    assert Lower(";"[..1])[0] == ';';
  }

  /**
   * A second instance of the same flaw: searching for ";" in the text "&" marks the ';'
   * of "&amp;", and the page then reads "&;", since "&amp" without its ';' is still a
   * reference.
   */
  lemma {:induction false} SemicolonQueryCorruptsText()
    ensures HighlightMatches("&", ";") == "&amp" + (MarkOpen + (";" + MarkClose))
    ensures RenderedText(HighlightMatches("&", ";")) == "&;"
  {
    assert EscapeHtml("&") == "&amp;";
    assert EscapeRegex(";") == ";";
    PatternLiteralIffEscaped(";", ";");
    MarkAllOfEscapedAmpAtSemicolon();
    RenderedAmpBeforeMarkedSemicolon();
  }

  lemma {:induction false} MarkAllOfEscapedAmpAtSemicolon()
    ensures MarkAll("&amp;", ";") == "&amp" + (MarkOpen + (";" + MarkClose))
  {
    var t := MarkOpen + (";" + MarkClose);
    MarkAllOfSemicolon();
    MarkAllPrependMiss('p', ";");
    MarkAllPrependMiss('m', "p;");
    MarkAllPrependMiss('a', "mp;");
    MarkAllPrependMiss('&', "amp;");
    AmpPrefix(t);
  }

  lemma {:induction false} MarkAllOfSemicolon()
    ensures MarkAll(";", ";") == MarkOpen + (";" + MarkClose)
  {
    assert Lower(";"[..1]) == Lower(";");
    MarkAllAtMatch(";", ";");
    assert ";"[1..] == [];
  }

  /** A character that is not ';' is never the start of a match for ";". */
  lemma {:induction false} MarkAllPrependMiss(c: char, s: string)
    requires c != ';'
    ensures MarkAll([c] + s, ";") == [c] + MarkAll(s, ";")
  {
    var x := [c] + s;
    assert x[..1] == [c] && x[1..] == s;
    assert Lower([c])[0] == LowerChar(c) != ';';
    MarkAllAtMiss(x, ";");
  }

  lemma {:induction false} AmpPrefix(t: string)
    ensures ['&'] + (['a'] + (['m'] + (['p'] + t))) == "&amp" + t
  {
  }

  lemma {:induction false} RenderedAmpBeforeMarkedSemicolon()
    ensures RenderedText("&amp" + (MarkOpen + (";" + MarkClose))) == "&;"
  {
    var u := ";" + MarkClose;
    RenderedLegacyAmp(MarkOpen + u);
    RenderedAfterOpen(u);
    RenderedPlainChar(';', MarkClose);
    assert MarkClose + [] == MarkClose;
    RenderedAfterClose([]);
  }

  /** "&amp" right before a tag is the legacy reference for '&'. */
  lemma {:induction false} RenderedLegacyAmp(t: string)
    requires |t| > 0 && t[0] == '<'
    ensures RenderedText("&amp" + t) == "&" + RenderedText(t)
  {
    var s := "&amp" + t;
    assert s[4] == '<' && s[1] == 'a' && s[0] == '&';
    NotPrefix(MarkOpen, s, 0);
    NotPrefix(MarkClose, s, 0);
    NotPrefix("&amp;", s, 4);
    NotPrefix("&nbsp;", s, 1);
    NotPrefix("&lt;", s, 1);
    NotPrefix("&gt;", s, 1);
    assert "&amp" <= s && s[4..] == t;
  }

  /** A character other than '<' and '&' stands for itself. */
  lemma {:induction false} RenderedPlainChar(c: char, rest: string)
    requires c != '<' && c != '&'
    ensures RenderedText([c] + rest) == [c] + RenderedText(rest)
  {
    var s := [c] + rest;
    NotPrefix(MarkOpen, s, 0);
    NotPrefix(MarkClose, s, 0);
    assert s[1..] == rest;
  }

  /** A marked lone '&' reads as '&', joined to whatever text follows the mark. */
  lemma {:induction false} RenderedMarkedAmpersand(h: string, rest: string)
    requires h == MarkOpen + ("&" + (MarkClose + rest))
    ensures RenderedText(h) == "&" + RenderedText(rest)
  {
    var t := "&" + (MarkClose + rest);
    RenderedAfterOpen(t);
    assert t[0] == '&' && t[1] == '<';
    RenderedAmpersandBeforeTag(t);
    assert t[1..] == MarkClose + rest;
    RenderedAfterClose(rest);
  }

  /** An '&' followed by a tag is not a reference: it stands for itself. */
  lemma {:induction false} RenderedAmpersandBeforeTag(s: string)
    requires |s| >= 2 && s[0] == '&' && s[1] == '<'
    ensures RenderedText(s) == "&" + RenderedText(s[1..])
  {
    NotPrefix(MarkOpen, s, 0);
    NotPrefix(MarkClose, s, 0);
    NotPrefix("&amp;", s, 1);
    NotPrefix("&nbsp;", s, 1);
    NotPrefix("&lt;", s, 1);
    NotPrefix("&gt;", s, 1);
    NotPrefix("&amp", s, 1);
    NotPrefix("&nbsp", s, 1);
    NotPrefix("&lt", s, 1);
    NotPrefix("&gt", s, 1);
  }

  lemma {:induction false} RenderedAfterOpen(m: string)
    ensures RenderedText(MarkOpen + m) == RenderedText(m)
  {
    var s := MarkOpen + m;
    assert MarkOpen <= s && s[|MarkOpen|..] == m;
  }

  lemma {:induction false} RenderedAfterClose(m: string)
    ensures RenderedText(MarkClose + m) == RenderedText(m)
  {
    var s := MarkClose + m;
    assert s[1] == '/';
    NotPrefix(MarkOpen, s, 1);
    assert MarkClose <= s && s[|MarkClose|..] == m;
  }

  // ---------------------------------------------------------------- the corrected highlighter

  /**
   * What the highlighter evidently means to do: find the query, ignoring case, in the
   * text itself, wrap each match, and escape every piece as it is emitted, so that the
   * markup shows exactly the original text.
   */
  function MarkAllEscaped(s: string, lit: string): (r: string)
    requires lit != []
    ensures |r| >= |EscapeHtml(s)|
    ensures HasMatch(s, lit) ==> Contains(r, MarkOpen) && |r| > |EscapeHtml(s)|
    decreases |s|
  {
    if |s| < |lit| then EscapeHtml(s)
    else if Lower(s[..|lit|]) == Lower(lit) then
      var rest := MarkAllEscaped(s[|lit|..], lit);
      EscapeHtmlSplit(s, |lit|);
      StartsWithOpen(EscapeHtml(s[..|lit|]) + (MarkClose + rest));
      MarkOpen + (EscapeHtml(s[..|lit|]) + (MarkClose + rest))
    else
      var rest := MarkAllEscaped(s[1..], lit);
      HasMatchOfTail(s, lit);
      ContainsAfterPrefix(EscapeChar(s[0]), rest, MarkOpen);
      EscapeChar(s[0]) + rest
  }

  /** Escaping a string is escaping its two halves. */
  lemma {:induction false} EscapeHtmlSplit(s: string, k: nat)
    requires k <= |s|
    ensures |EscapeHtml(s)| == |EscapeHtml(s[..k])| + |EscapeHtml(s[k..])|
  {
    EscapeHtmlAppend(s[..k], s[k..]);
    assert s[..k] + s[k..] == s;
  }

  lemma {:induction false} StartsWithOpen(x: string)
    ensures Contains(MarkOpen + x, MarkOpen)
  {
    assert (MarkOpen + x)[0..|MarkOpen|] == MarkOpen;
    assert OccursAt(MarkOpen + x, MarkOpen, 0);
  }

  /** A slice of s[1..] is the slice of s one index further on. */
  lemma {:induction false} SliceOfTail(s: string, i: nat, n: nat)
    requires 1 <= i && i + n <= |s|
    ensures s[1..][i - 1..i - 1 + n] == s[i..i + n]
  {
    var a, b := s[1..][i - 1..i - 1 + n], s[i..i + n];
    forall k | 0 <= k < n
      ensures a[k] == b[k]
    {
    }
    assert a == b;
  }

  /** Without a match at index 0, s has a match exactly when s[1..] has one. */
  lemma {:induction false} HasMatchOfTail(s: string, lit: string)
    requires s != [] && lit != []
    requires !MatchesAt(s, lit, 0)
    ensures HasMatch(s, lit) <==> HasMatch(s[1..], lit)
  {
    if HasMatch(s, lit) {
      var i: nat :| i <= |s| && MatchesAt(s, lit, i);
      assert i >= 1;
      SliceOfTail(s, i, |lit|);
      assert MatchesAt(s[1..], lit, i - 1);
    }
    if HasMatch(s[1..], lit) {
      var i: nat :| i <= |s[1..]| && MatchesAt(s[1..], lit, i);
      SliceOfTail(s, i + 1, |lit|);
      assert MatchesAt(s, lit, i + 1);
    }
  }

  lemma {:induction false} ContainsAfterPrefix(x: string, y: string, p: string)
    ensures Contains(y, p) ==> Contains(x + y, p)
  {
    if Contains(y, p) {
      var i: nat :| i <= |y| && OccursAt(y, p, i);
      assert (x + y)[|x| + i..|x| + i + |p|] == y[i..i + |p|];
      assert OccursAt(x + y, p, |x| + i);
    }
  }

  /** `highlightMatches` as corrected. */
  function HighlightMatchesIntended(text: string, query: string): string {
    if query == "" || text == "" then EscapeHtml(text) else MarkAllEscaped(text, query)
  }

  /** A wrapped, escaped piece reads as the piece itself. */
  lemma {:induction false} RenderedWrapped(w: string, m: string)
    ensures RenderedText(MarkOpen + (EscapeHtml(w) + (MarkClose + m))) == w + RenderedText(m)
  {
    RenderedAfterOpen(EscapeHtml(w) + (MarkClose + m));
    RenderedEscaped(w, MarkClose + m);
    RenderedAfterClose(m);
  }

  lemma {:induction false} RenderedMarkAllEscaped(s: string, lit: string)
    requires lit != []
    ensures RenderedText(MarkAllEscaped(s, lit)) == s
    decreases |s|
  {
    if |s| < |lit| {
      EscapeHtmlRoundTrip(s);
    } else if Lower(s[..|lit|]) == Lower(lit) {
      RenderedMarkAllEscaped(s[|lit|..], lit);
      RenderedAtMatch(s, lit);
    } else {
      RenderedMarkAllEscaped(s[1..], lit);
      RenderedAtMiss(s, lit);
    }
  }

  lemma {:induction false} RenderedAtMatch(s: string, lit: string)
    requires lit != [] && |lit| <= |s| && Lower(s[..|lit|]) == Lower(lit)
    requires RenderedText(MarkAllEscaped(s[|lit|..], lit)) == s[|lit|..]
    ensures RenderedText(MarkAllEscaped(s, lit)) == s
  {
    MarkAllEscapedAtMatch(s, lit);
    SplitAt(s, |lit|);
    RenderedWrappedEq(MarkAllEscaped(s, lit), s[..|lit|], MarkAllEscaped(s[|lit|..], lit), s[|lit|..], s);
  }

  /** The corrected marking at a match: the escaped match wrapped, then the rest. */
  lemma {:induction false} MarkAllEscapedAtMatch(s: string, lit: string)
    requires lit != [] && |lit| <= |s| && Lower(s[..|lit|]) == Lower(lit)
    ensures MarkAllEscaped(s, lit)
              == MarkOpen + (EscapeHtml(s[..|lit|]) + (MarkClose + MarkAllEscaped(s[|lit|..], lit)))
  {
  }

  lemma {:induction false} RenderedWrappedEq(h: string, w: string, m: string, rest: string, s: string)
    requires h == MarkOpen + (EscapeHtml(w) + (MarkClose + m))
    requires RenderedText(m) == rest && s == w + rest
    ensures RenderedText(h) == s
  {
    RenderedWrapped(w, m);
  }

  lemma {:induction false} RenderedAtMiss(s: string, lit: string)
    requires lit != [] && |lit| <= |s| && Lower(s[..|lit|]) != Lower(lit)
    requires RenderedText(MarkAllEscaped(s[1..], lit)) == s[1..]
    ensures RenderedText(MarkAllEscaped(s, lit)) == s
  {
    MarkAllEscapedAtMiss(s, lit);
    assert [s[0]] + s[1..] == s;
    RenderedEscapedCons(MarkAllEscaped(s, lit), s[0], MarkAllEscaped(s[1..], lit), s[1..], s);
  }

  /** The corrected marking where no match starts: the first character escaped, then
      the rest marked. */
  lemma {:induction false} MarkAllEscapedAtMiss(s: string, lit: string)
    requires lit != [] && |lit| <= |s| && Lower(s[..|lit|]) != Lower(lit)
    ensures MarkAllEscaped(s, lit) == EscapeChar(s[0]) + MarkAllEscaped(s[1..], lit)
  {
  }

  lemma {:induction false} RenderedEscapedCons(h: string, c: char, m: string, r: string, s: string)
    requires h == EscapeChar(c) + m && RenderedText(m) == r && s == [c] + r
    ensures RenderedText(h) == s
  {
    RenderedEscapeChar(c, m);
  }

  /** The corrected highlighter's markup always reads back as the original text. */
  lemma {:induction false} HighlightIntendedKeepsText(text: string, query: string)
    ensures RenderedText(HighlightMatchesIntended(text, query)) == text
  {
    if query == "" || text == "" {
      EscapeHtmlRoundTrip(text);
    } else {
      RenderedMarkAllEscaped(text, query);
    }
  }

  /** The corrected highlighter marks something exactly when the query occurs in the
      text, ignoring case. */
  lemma {:induction false} HighlightIntendedMarksIffMatch(text: string, query: string)
    ensures Contains(HighlightMatchesIntended(text, query), MarkOpen)
        <==> (query != "" && Contains(Lower(text), Lower(query)))
  {
    HasMatchIffContains(text, query);
    if query == "" || text == "" {
      MarkupFreeHasNoMark(EscapeHtml(text));
      if query != "" {
        assert !HasMatch(text, query);
      }
    } else if !HasMatch(text, query) {
      MarkAllEscapedWithoutMatch(text, query);
      MarkupFreeHasNoMark(EscapeHtml(text));
    }
  }

  lemma {:induction false} MarkupFreeHasNoMark(s: string)
    requires MarkupFree(s)
    ensures !Contains(s, MarkOpen)
  {
    assert MarkOpen[0] == '<';
    forall i: nat | i <= |s|
      ensures !OccursAt(s, MarkOpen, i)
    {
      if i + |MarkOpen| <= |s| {
        assert s[i..i + |MarkOpen|][0] == s[i];
      }
    }
  }

  /** Without a match the corrected highlighter only escapes. */
  lemma {:induction false} MarkAllEscapedWithoutMatch(s: string, lit: string)
    requires lit != [] && !HasMatch(s, lit)
    ensures MarkAllEscaped(s, lit) == EscapeHtml(s)
    decreases |s|
  {
    if |s| >= |lit| {
      assert !MatchesAt(s, lit, 0);
      forall i: nat | i <= |s[1..]|
        ensures !MatchesAt(s[1..], lit, i)
      {
        if i + |lit| <= |s[1..]| {
          SliceOfTail(s, i + 1, |lit|);
          assert !MatchesAt(s, lit, i + 1);
        }
      }
      MarkAllEscapedWithoutMatch(s[1..], lit);
    }
  }

  /** For a text with no character that escaping rewrites, the correction changes
      nothing. */
  lemma {:induction false} HighlightIntendedAgrees(text: string, query: string)
    requires forall i :: 0 <= i < |text| ==> !NeedsEscape(text[i])
    ensures HighlightMatchesIntended(text, query) == HighlightMatches(text, query)
  {
    EscapeHtmlIdentityIff(text);
    if query != "" && text != "" {
      PatternLiteralIffEscaped(EscapeRegex(query), query);
      MarkAllEscapedOfPlain(text, query);
    }
  }

  lemma {:induction false} MarkAllEscapedOfPlain(s: string, lit: string)
    requires lit != [] && forall i :: 0 <= i < |s| ==> !NeedsEscape(s[i])
    ensures MarkAllEscaped(s, lit) == MarkAll(s, lit)
    decreases |s|
  {
    if |s| < |lit| {
      EscapeHtmlIdentityIff(s);
    } else if Lower(s[..|lit|]) == Lower(lit) {
      var w := s[..|lit|];
      assert forall i :: 0 <= i < |w| ==> w[i] == s[i];
      EscapeHtmlIdentityIff(w);
      MarkAllEscapedOfPlain(s[|lit|..], lit);
    } else {
      assert EscapeChar(s[0]) == [s[0]];
      MarkAllEscapedOfPlain(s[1..], lit);
    }
  }
}
