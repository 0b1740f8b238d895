/**
 * The JSON encoding the storage layer writes with `JSON.stringify` and reads with
 * `JSON.parse`, for null, booleans, integers, strings, arrays and objects. Encode
 * writes what `JSON.stringify` writes (no whitespace, the short escapes, `\u00xx`
 * with lower-case hex for the other control characters); Decode reads exactly those
 * texts back.
 */
module JsonCodec {
  import opened Options
  import opened Strings

  datatype Json =
    | Null
    | Bool(b: bool)
    | Num(n: int)
    | Str(s: string)
    | Arr(items: seq<Json>)
    | Obj(members: seq<Member>)

  datatype Member = Member(key: string, value: Json)

  // ---------------------------------------------------------------- encoding

  function IntToString(n: int): string {
    if n < 0 then "-" + NatToString(-n) else NatToString(n)
  }

  const Backspace: char := '\U{8}'
  const FormFeed: char := '\U{C}'

  function HexDigit(d: nat): char
    requires d < 16
  {
    if d < 10 then DigitChar(d) else ('a' as int + d - 10) as char
  }

  /** The characters with a two-character escape, and the letter after the backslash. */
  function ShortEscape(c: char): Option<char> {
    if c == '"' then Some('"')
    else if c == '\\' then Some('\\')
    else if c == Backspace then Some('b')
    else if c == FormFeed then Some('f')
    else if c == '\n' then Some('n')
    else if c == '\r' then Some('r')
    else if c == '\t' then Some('t')
    else None
  }

  /** How `JSON.stringify` writes one character of a string. */
  function EscapeJsonChar(c: char): string {
    match ShortEscape(c)
    case Some(e) => ['\\', e]
    case None =>
      if c < ' ' then ['\\', 'u', '0', '0', HexDigit(c as int / 16), HexDigit(c as int % 16)]
      else [c]
  }

  function EscapeJsonString(s: string): string
    decreases |s|
  {
    if s == [] then [] else EscapeJsonChar(s[0]) + EscapeJsonString(s[1..])
  }

  function Quote(s: string): string {
    "\"" + EscapeJsonString(s) + "\""
  }

  /** `JSON.stringify(v)`. */
  function Encode(v: Json): string
    decreases v, 1
  {
    match v
    case Null => "null"
    case Bool(b) => if b then "true" else "false"
    case Num(n) => IntToString(n)
    case Str(s) => Quote(s)
    case Arr(items) => "[" + EncodeItems(items) + "]"
    case Obj(members) => "{" + EncodeMembers(members) + "}"
  }

  /** The items of an array, separated by commas. */
  function EncodeItems(items: seq<Json>): string
    decreases items, 0
  {
    if items == [] then ""
    else Encode(items[0]) + (if |items| == 1 then "" else "," + EncodeItems(items[1..]))
  }

  /** The members of an object, each a quoted key, a colon and a value, separated by
      commas. */
  function EncodeMembers(members: seq<Member>): string
    decreases members, 0
  {
    if members == [] then ""
    else
      assert members[0] in members && members[0].value < members[0];
      Quote(members[0].key) + ":" + Encode(members[0].value)
        + (if |members| == 1 then "" else "," + EncodeMembers(members[1..]))
  }

  // ---------------------------------------------------------------- decoding

  function HexValue(c: char): Option<nat> {
    if '0' <= c <= '9' then Some(c as int - '0' as int)
    else if 'a' <= c <= 'f' then Some(c as int - 'a' as int + 10)
    else None
  }

  /** The character an escape stands for, given the text after the backslash, and the
      length of the escape after the backslash. */
  function DecodeEscape(t: string): (r: Option<(char, nat)>)
    ensures r.Some? ==> 1 <= r.value.1 <= |t|
  {
    if t == [] then None
    else if t[0] == '"' then Some(('"', 1))
    else if t[0] == '\\' then Some(('\\', 1))
    else if t[0] == 'b' then Some((Backspace, 1))
    else if t[0] == 'f' then Some((FormFeed, 1))
    else if t[0] == 'n' then Some(('\n', 1))
    else if t[0] == 'r' then Some(('\r', 1))
    else if t[0] == 't' then Some(('\t', 1))
    else if t[0] == 'u' && |t| >= 5 && t[1] == '0' && t[2] == '0' then
      match (HexValue(t[3]), HexValue(t[4]))
      case (Some(hi), Some(lo)) =>
        if hi < 2 && ShortEscape((hi * 16 + lo) as char).None? then Some(((hi * 16 + lo) as char, 5))
        else None
      case _ => None
    else None
  }

  /** The characters of a string up to its closing quote, and the text after the quote. */
  function ParseStringBody(s: string): (r: Option<(string, string)>)
    ensures r.Some? ==> |r.value.1| < |s|
    decreases |s|
  {
    if s == [] then None
    else if s[0] == '"' then Some(([], s[1..]))
    else if s[0] == '\\' then
      match DecodeEscape(s[1..])
      case None => None
      case Some((c, k)) =>
        match ParseStringBody(s[1 + k..])
        case None => None
        case Some((body, rest)) => Some(([c] + body, rest))
    else if s[0] < ' ' then None
    else
      match ParseStringBody(s[1..])
      case None => None
      case Some((body, rest)) => Some(([s[0]] + body, rest))
  }

  /** A numeral without leading zeros, after an optional minus sign ("-0" is not one). */
  function ParseNumber(s: string): (r: Option<(Json, string)>)
    ensures r.Some? ==> |r.value.1| < |s|
  {
    var neg := s != [] && s[0] == '-';
    var t := if neg then s[1..] else s;
    var k := DigitRun(t);
    if !CanonicalDigits(t[..k]) then None
    else
      var n: int := DigitsValue(t[..k]);
      if neg && n == 0 then None
      else Some((Num(if neg then -n else n), t[k..]))
  }

  /** One value at the start of s, and the text after it. */
  function ParseValue(s: string): (r: Option<(Json, string)>)
    ensures r.Some? ==> |r.value.1| < |s|
    decreases |s|, 1
  {
    if s == [] then None
    else if s[0] == 'n' then (if "null" <= s then Some((Null, s[4..])) else None)
    else if s[0] == 't' then (if "true" <= s then Some((Bool(true), s[4..])) else None)
    else if s[0] == 'f' then (if "false" <= s then Some((Bool(false), s[5..])) else None)
    else if s[0] == '"' then
      match ParseStringBody(s[1..])
      case None => None
      case Some((body, rest)) => Some((Str(body), rest))
    else if s[0] == '[' then
      if |s| >= 2 && s[1] == ']' then Some((Arr([]), s[2..]))
      else
        match ParseItems(s[1..])
        case None => None
        case Some((items, rest)) => Some((Arr(items), rest))
    else if s[0] == '{' then
      if |s| >= 2 && s[1] == '}' then Some((Obj([]), s[2..]))
      else
        match ParseMembers(s[1..])
        case None => None
        case Some((members, rest)) => Some((Obj(members), rest))
    else ParseNumber(s)
  }

  /** The items of a non-empty array after its '[', through its ']'. */
  function ParseItems(s: string): (r: Option<(seq<Json>, string)>)
    ensures r.Some? ==> |r.value.1| < |s|
    decreases |s|, 2
  {
    match ParseValue(s)
    case None => None
    case Some((v, rest)) =>
      if rest != [] && rest[0] == ']' then Some(([v], rest[1..]))
      else if rest != [] && rest[0] == ',' then
        match ParseItems(rest[1..])
        case None => None
        case Some((vs, rest')) => Some(([v] + vs, rest'))
      else None
  }

  /** The members of a non-empty object after its '{', through its '}'. */
  function ParseMembers(s: string): (r: Option<(seq<Member>, string)>)
    ensures r.Some? ==> |r.value.1| < |s|
    decreases |s|, 2
  {
    if s == [] || s[0] != '"' then None
    else
      match ParseStringBody(s[1..])
      case None => None
      case Some((key, afterKey)) =>
        if afterKey == [] || afterKey[0] != ':' then None
        else
          match ParseValue(afterKey[1..])
          case None => None
          case Some((v, rest)) =>
            if rest != [] && rest[0] == '}' then Some(([Member(key, v)], rest[1..]))
            else if rest != [] && rest[0] == ',' then
              match ParseMembers(rest[1..])
              case None => None
              case Some((ms, rest')) => Some(([Member(key, v)] + ms, rest'))
            else None
  }

  /** `JSON.parse(s)`: a value followed by nothing, or None where the parse throws. */
  function Decode(s: string): Option<Json> {
    match ParseValue(s)
    case Some((v, rest)) => if rest == [] then Some(v) else None
    case None => None
  }

  // ---------------------------------------------------------------- round trip

  lemma {:induction false} HexValueOfDigit(d: nat)
    requires d < 16
    ensures HexValue(HexDigit(d)) == Some(d)
  {
  }

  /** One escaped character reads back as that character. */
  lemma {:induction false} ParseEscapedChar(c: char, t: string, body: string, rest: string)
    requires ParseStringBody(t) == Some((body, rest))
    ensures ParseStringBody(EscapeJsonChar(c) + t) == Some(([c] + body, rest))
  {
    var s := EscapeJsonChar(c) + t;
    match ShortEscape(c)
    case Some(e) =>
      assert s[0] == '\\' && s[1..] == [e] + t && s[2..] == t;
      assert DecodeEscape(s[1..]) == Some((c, 1));
    case None =>
      if c < ' ' {
        var hi, lo := c as int / 16, c as int % 16;
        HexValueOfDigit(hi);
        HexValueOfDigit(lo);
        assert s[1..][3] == HexDigit(hi) && s[1..][4] == HexDigit(lo);
        assert (hi * 16 + lo) as char == c;
        assert DecodeEscape(s[1..]) == Some((c, 5));
        assert s[6..] == t;
      } else {
        assert s[0] == c && s[1..] == t;
      }
  }

  /** A quoted string reads back as its text, and the text after the closing quote is
      left for what follows. */
  lemma {:induction false} ParseQuoted(str: string, rest: string)
    ensures ParseStringBody(EscapeJsonString(str) + "\"" + rest) == Some((str, rest))
    decreases |str|
  {
    if str == [] {
      assert EscapeJsonString(str) + "\"" + rest == "\"" + rest;
    } else {
      var t := EscapeJsonString(str[1..]) + "\"" + rest;
      ParseQuoted(str[1..], rest);
      assert EscapeJsonString(str) + "\"" + rest == EscapeJsonChar(str[0]) + t;
      ParseEscapedChar(str[0], t, str[1..], rest);
      assert [str[0]] + str[1..] == str;
    }
  }

  /** The first character of every encoding, which decides how it is read. */
  lemma {:induction false} EncodeStart(v: Json)
    ensures |Encode(v)| > 0
    ensures var c := Encode(v)[0];
      match v
      case Null => c == 'n'
      case Bool(b) => c == (if b then 't' else 'f')
      case Num(n) => c == '-' || IsDigit(c)
      case Str(_) => c == '"'
      case Arr(_) => c == '['
      case Obj(_) => c == '{'
  {
    if v.Num? && v.n < 0 {
      assert Encode(v) == "-" + NatToString(-v.n);
    }
  }

  /** A rendered natural number is read back whole when no digit follows it. */
  lemma {:induction false} NumeralPrefix(m: nat, rest: string)
    requires rest == [] || !IsDigit(rest[0])
    ensures var d, t := NatToString(m), NatToString(m) + rest;
      && DigitRun(t) == |d| && t[..|d|] == d && t[|d|..] == rest
      && CanonicalDigits(d) && DigitsValue(d) == m
  {
    var d := NatToString(m);
    DigitRunOfDigits(d, rest);
    NatToStringCanonical(m);
    DigitsValueOfNatToString(m);
    assert (d + rest)[..|d|] == d && (d + rest)[|d|..] == rest;
  }

  lemma {:induction false} ParseNumberEncode(n: int, rest: string)
    requires rest == [] || !IsDigit(rest[0])
    ensures ParseNumber(IntToString(n) + rest) == Some((Num(n), rest))
  {
    if n < 0 {
      ParseNegativeEncode(-n, rest);
    } else {
      ParsePlainEncode(n, rest);
    }
  }

  lemma {:induction false} ParsePlainEncode(m: nat, rest: string)
    requires rest == [] || !IsDigit(rest[0])
    ensures ParseNumber(NatToString(m) + rest) == Some((Num(m), rest))
  {
    var d := NatToString(m);
    NumeralPrefix(m, rest);
    ParseNumberPlain(d + rest, m, |d|);
  }

  lemma {:induction false} ParseNegativeEncode(m: nat, rest: string)
    requires m > 0 && (rest == [] || !IsDigit(rest[0]))
    ensures ParseNumber("-" + NatToString(m) + rest) == Some((Num(-(m as int)), rest))
  {
    var d := NatToString(m);
    NumeralPrefix(m, rest);
    var s := "-" + d + rest;
    assert s[1..] == d + rest;
    ParseNumberNegative(s, m, |d|);
  }

  /** A text that starts with a canonical numeral of k digits reads as that number. */
  lemma {:induction false} ParseNumberPlain(t: string, m: nat, k: nat)
    requires k <= |t| && DigitRun(t) == k && CanonicalDigits(t[..k]) && DigitsValue(t[..k]) == m
    ensures ParseNumber(t) == Some((Num(m), t[k..]))
  {
    assert t[0] == t[..k][0];
  }

  /** A minus sign before a canonical numeral of a positive number reads as its
      negation. */
  lemma {:induction false} ParseNumberNegative(s: string, m: nat, k: nat)
    requires s != [] && s[0] == '-'
    requires k < |s| && DigitRun(s[1..]) == k && CanonicalDigits(s[1..][..k]) && DigitsValue(s[1..][..k]) == m
    requires m > 0
    ensures ParseNumber(s) == Some((Num(-(m as int)), s[1..][k..]))
  {
  }

  lemma {:induction false} ParseValueOfNum(n: int, rest: string)
    requires rest == [] || !IsDigit(rest[0])
    ensures ParseValue(IntToString(n) + rest) == Some((Num(n), rest))
  {
    var s := IntToString(n) + rest;
    EncodeStart(Num(n));
    assert s[0] == Encode(Num(n))[0];
    ParseNumberEncode(n, rest);
  }

  lemma {:induction false} ParseValueOfStr(str: string, rest: string)
    ensures ParseValue(Quote(str) + rest) == Some((Str(str), rest))
  {
    var s := Quote(str) + rest;
    assert s[0] == '"' && s[1..] == EscapeJsonString(str) + "\"" + rest;
    ParseQuoted(str, rest);
  }

  lemma {:induction false} ParseValueOfArr(items: seq<Json>, rest: string)
    requires items != [] && ParseItems(EncodeItems(items) + "]" + rest) == Some((items, rest))
    ensures ParseValue(Encode(Arr(items)) + rest) == Some((Arr(items), rest))
  {
    var t := EncodeItems(items) + "]" + rest;
    var s := Encode(Arr(items)) + rest;
    assert s == "[" + t && s[0] == '[' && s[1..] == t;
    EncodeItemsStart(items);
    assert t[0] != ']';
  }

  lemma {:induction false} ParseValueOfObj(members: seq<Member>, rest: string)
    requires members != [] && ParseMembers(EncodeMembers(members) + "}" + rest) == Some((members, rest))
    ensures ParseValue(Encode(Obj(members)) + rest) == Some((Obj(members), rest))
  {
    var t := EncodeMembers(members) + "}" + rest;
    EncodeMembersStart(members);
    ObjText(members, rest);
    ParseValueOfBrace(t, members, rest);
  }

  lemma {:induction false} ObjText(members: seq<Member>, rest: string)
    requires members != []
    ensures Encode(Obj(members)) + rest == "{" + (EncodeMembers(members) + "}" + rest)
    ensures (EncodeMembers(members) + "}" + rest)[0] == EncodeMembers(members)[0]
  {
    EncodeMembersStart(members);
  }

  /** What follows a '{' that does not close at once is read as members. */
  lemma {:induction false} ParseValueOfBrace(t: string, members: seq<Member>, rest: string)
    requires t != [] && t[0] == '"'
    requires ParseMembers(t) == Some((members, rest))
    ensures ParseValue("{" + t) == Some((Obj(members), rest))
  {
    var s := "{" + t;
    assert s[0] == '{' && s[1] == '"' && s[1..] == t;
  }

  lemma {:induction false} EncodeMembersStart(members: seq<Member>)
    requires members != []
    ensures |EncodeMembers(members)| > 0 && EncodeMembers(members)[0] == '"'
  {
    var m := members[0];
    var tail := if |members| == 1 then "" else "," + EncodeMembers(members[1..]);
    assert EncodeMembers(members) == Quote(m.key) + (":" + Encode(m.value) + tail);
    assert Quote(m.key)[0] == '"';
  }

  /** Every value reads back from its encoding, whatever non-digit text follows it. */
  lemma {:induction false} ParseValueEncode(v: Json, rest: string)
    requires rest == [] || !IsDigit(rest[0])
    ensures ParseValue(Encode(v) + rest) == Some((v, rest))
    decreases v, 1
  {
    var s := Encode(v) + rest;
    match v
    case Null =>
      assert s[0] == 'n' && "null" <= s && s[4..] == rest;
    case Bool(b) =>
      if b {
        assert s[0] == 't' && "true" <= s && s[4..] == rest;
      } else {
        assert s[0] == 'f' && "false" <= s && s[5..] == rest;
      }
    case Num(n) =>
      ParseValueOfNum(n, rest);
    case Str(str) =>
      ParseValueOfStr(str, rest);
    case Arr(items) =>
      if items == [] {
        assert s == "[]" + rest && s[2..] == rest;
      } else {
        ParseItemsEncode(items, rest);
        ParseValueOfArr(items, rest);
      }
    case Obj(members) =>
      if members == [] {
        assert s == "{}" + rest && s[2..] == rest;
      } else {
        ParseMembersEncode(members, rest);
        ParseValueOfObj(members, rest);
      }
  }

  lemma {:induction false} EncodeItemsStart(items: seq<Json>)
    requires items != []
    ensures |EncodeItems(items)| > 0 && EncodeItems(items)[0] != ']'
  {
    EncodeStart(items[0]);
    assert EncodeItems(items)[0] == Encode(items[0])[0];
  }

  /** One step of reading array items: a value, then ']' or ',' and more items. */
  lemma {:induction false} ParseItemsStep(s: string, v: Json, tail: string)
    requires ParseValue(s) == Some((v, tail))
    ensures tail != [] && tail[0] == ']' ==> ParseItems(s) == Some(([v], tail[1..]))
    ensures tail != [] && tail[0] == ',' && ParseItems(tail[1..]).Some? ==>
              ParseItems(s) == Some(([v] + ParseItems(tail[1..]).value.0, ParseItems(tail[1..]).value.1))
  {
  }

  /** The encoded items followed by ']' are the first item and what comes after it. */
  lemma {:induction false} ItemsText(items: seq<Json>, rest: string, tail: string)
    requires items != []
    requires tail == if |items| == 1 then "]" + rest
                     else "," + (EncodeItems(items[1..]) + "]" + rest)
    ensures EncodeItems(items) + "]" + rest == Encode(items[0]) + tail
  {
    var x := if |items| == 1 then "" else "," + EncodeItems(items[1..]);
    assert tail == x + ("]" + rest);
    EncodeItemsHead(items, x);
    RegroupItem(EncodeItems(items), Encode(items[0]), x, tail, rest);
  }

  lemma {:induction false} EncodeItemsHead(items: seq<Json>, x: string)
    requires items != []
    requires x == if |items| == 1 then "" else "," + EncodeItems(items[1..])
    ensures EncodeItems(items) == Encode(items[0]) + x
  {
  }

  lemma {:induction false} RegroupItem(enc: string, e: string, x: string, tail: string, rest: string)
    requires enc == e + x && tail == x + ("]" + rest)
    ensures enc + "]" + rest == e + tail
  {
  }

  lemma {:induction false} ParseItemsEncode(items: seq<Json>, rest: string)
    requires items != []
    ensures ParseItems(EncodeItems(items) + "]" + rest) == Some((items, rest))
    decreases items, 0
  {
    var tail := if |items| == 1 then "]" + rest else "," + (EncodeItems(items[1..]) + "]" + rest);
    ItemsText(items, rest, tail);
    ParseValueEncode(items[0], tail);
    if |items| > 1 {
      ParseItemsEncode(items[1..], rest);
      AfterComma(EncodeItems(items[1..]) + "]" + rest);
    }
    ItemsResult(EncodeItems(items) + "]" + rest, tail, items, rest);
  }

  lemma {:induction false} AfterComma(t: string)
    ensures ("," + t)[0] == ',' && ("," + t)[1..] == t
  {
  }

  /** The items read from s, given the first value and what follows it. */
  lemma {:induction false} ItemsResult(s: string, tail: string, items: seq<Json>, rest: string)
    requires items != [] && ParseValue(s) == Some((items[0], tail))
    requires |items| == 1 ==> tail == "]" + rest
    requires |items| > 1 ==> tail != [] && tail[0] == ',' && ParseItems(tail[1..]) == Some((items[1..], rest))
    ensures ParseItems(s) == Some((items, rest))
  {
    ParseItemsStep(s, items[0], tail);
    if |items| > 1 {
      assert [items[0]] + items[1..] == items;
    } else {
      assert tail[0] == ']' && tail[1..] == rest;
      assert [items[0]] == items;
    }
  }

  /** A quoted key reads back as the key, leaving what follows the closing quote. */
  lemma {:induction false} QuotedThen(key: string, after: string)
    ensures var s := Quote(key) + after;
      && s != [] && s[0] == '"'
      && ParseStringBody(s[1..]) == Some((key, after))
  {
    var s := Quote(key) + after;
    assert s == "\"" + (EscapeJsonString(key) + "\"" + after);
    assert s[1..] == EscapeJsonString(key) + "\"" + after;
    ParseQuoted(key, after);
  }

  /** One step of reading object members: a key, a colon, a value, then '}' or ',' and
      more members. */
  lemma {:induction false} ParseMembersStep(s: string, key: string, afterKey: string, v: Json, tail: string)
    requires s != [] && s[0] == '"' && ParseStringBody(s[1..]) == Some((key, afterKey))
    requires afterKey != [] && afterKey[0] == ':' && ParseValue(afterKey[1..]) == Some((v, tail))
    ensures tail != [] && tail[0] == '}' ==> ParseMembers(s) == Some(([Member(key, v)], tail[1..]))
    ensures tail != [] && tail[0] == ',' && ParseMembers(tail[1..]).Some? ==>
              ParseMembers(s) == Some(([Member(key, v)] + ParseMembers(tail[1..]).value.0, ParseMembers(tail[1..]).value.1))
  {
  }

  /** A text made of a key, a colon, a value and a remainder x, followed by '}' and
      rest, regrouped around the value. */
  lemma {:induction false} RegroupMember(enc: string, q: string, e: string, x: string, tail: string, rest: string)
    requires enc == q + ":" + e + x
    requires tail == x + ("}" + rest)
    ensures enc + "}" + rest == q + (":" + (e + tail))
  {
  }

  /** The first member of the encoding, and the rest. */
  lemma {:induction false} EncodeMembersHead(members: seq<Member>, x: string)
    requires members != []
    requires x == if |members| == 1 then "" else "," + EncodeMembers(members[1..])
    ensures EncodeMembers(members) == Quote(members[0].key) + ":" + Encode(members[0].value) + x
  {
  }

  /** The encoded members followed by '}' are the first key, a colon, the first value
      and what comes after it. */
  lemma {:induction false} MembersText(members: seq<Member>, rest: string, tail: string)
    requires members != []
    requires tail == if |members| == 1 then "}" + rest
                     else "," + (EncodeMembers(members[1..]) + "}" + rest)
    ensures EncodeMembers(members) + "}" + rest
              == Quote(members[0].key) + (":" + (Encode(members[0].value) + tail))
  {
    var x := if |members| == 1 then "" else "," + EncodeMembers(members[1..]);
    if |members| == 1 {
      assert tail == x + ("}" + rest);
    } else {
      var y := EncodeMembers(members[1..]);
      assert tail == "," + (y + "}" + rest);
      assert tail == x + ("}" + rest);
    }
    EncodeMembersHead(members, x);
    RegroupMember(EncodeMembers(members), Quote(members[0].key), Encode(members[0].value), x, tail, rest);
  }

  lemma {:induction false} ParseMembersEncode(members: seq<Member>, rest: string)
    requires members != []
    ensures ParseMembers(EncodeMembers(members) + "}" + rest) == Some((members, rest))
    decreases members, 0
  {
    var m := members[0];
    assert m in members && m.value < m;
    var tail := if |members| == 1 then "}" + rest else "," + (EncodeMembers(members[1..]) + "}" + rest);
    var afterKey := ":" + (Encode(m.value) + tail);
    MembersText(members, rest, tail);
    QuotedThen(m.key, afterKey);
    AfterColon(Encode(m.value) + tail);
    ParseValueEncode(m.value, tail);
    if |members| > 1 {
      ParseMembersEncode(members[1..], rest);
      AfterComma(EncodeMembers(members[1..]) + "}" + rest);
    }
    MembersResult(EncodeMembers(members) + "}" + rest, afterKey, tail, members, rest);
  }

  lemma {:induction false} AfterColon(t: string)
    ensures (":" + t)[0] == ':' && (":" + t)[1..] == t
  {
  }

  /** The members read from s, given the first key and value and what follows them. */
  lemma {:induction false} MembersResult(s: string, afterKey: string, tail: string, members: seq<Member>, rest: string)
    requires members != []
    requires s != [] && s[0] == '"' && ParseStringBody(s[1..]) == Some((members[0].key, afterKey))
    requires afterKey != [] && afterKey[0] == ':' && ParseValue(afterKey[1..]) == Some((members[0].value, tail))
    requires |members| == 1 ==> tail == "}" + rest
    requires |members| > 1 ==> tail != [] && tail[0] == ',' && ParseMembers(tail[1..]) == Some((members[1..], rest))
    ensures ParseMembers(s) == Some((members, rest))
  {
    var m := members[0];
    ParseMembersStep(s, m.key, afterKey, m.value, tail);
    if |members| > 1 {
      assert [Member(m.key, m.value)] + members[1..] == members;
    } else {
      assert tail[0] == '}' && tail[1..] == rest;
      assert [Member(m.key, m.value)] == members;
    }
  }

  /** `JSON.parse(JSON.stringify(v))` gives v back. */
  lemma {:induction false} DecodeEncode(v: Json)
    ensures Decode(Encode(v)) == Some(v)
  {
    ParseValueEncode(v, []);
    assert Encode(v) + [] == Encode(v);
  }
}
