/** `json.dumps(value, sort_keys=True, separators=(",", ":"))` and a parser that undoes it
    (sections 4 and 7 of RFC 8259). Floats are not part of the model. */
module Json {
  import opened Rows
  import opened Order

  datatype Json =
    | JNull
    | JBool(value: bool)
    | JInt(int_: int)
    | JString(text: string)
    | JArray(items: seq<Json>)
    | JObject(members: map<string, Json>)

  // --- integers -----------------------------------------------------------

  function DigitChar(d: nat): char
    requires d < 10
  {
    ('0' as int + d) as char
  }

  predicate IsDigit(c: char) {
    '0' <= c <= '9'
  }

  function Digits(n: nat): (r: string)
    ensures r != "" && forall c | c in r :: IsDigit(c)
  {
    if n < 10 then [DigitChar(n)] else Digits(n / 10) + [DigitChar(n % 10)]
  }

  function PrintInt(n: int): string {
    if n < 0 then "-" + Digits(-n) else Digits(n)
  }

  /** The longest prefix of digits. */
  function TakeDigits(t: string): (r: string)
    ensures r <= t
  {
    if t == "" || !IsDigit(t[0]) then "" else [t[0]] + TakeDigits(t[1..])
  }

  function Value(ds: string): nat {
    if ds == "" then 0
    else 10 * Value(ds[..|ds| - 1]) + if IsDigit(ds[|ds| - 1]) then ds[|ds| - 1] as int - '0' as int else 0
  }

  lemma {:induction false} ValueOfDigits(n: nat)
    ensures Value(Digits(n)) == n
  {
    if n < 10 {
      assert Digits(n)[..0] == "";
    } else {
      ValueOfDigits(n / 10);
      assert Digits(n)[..|Digits(n)| - 1] == Digits(n / 10);
    }
  }

  /** Text that does not continue a number. */
  predicate Ends(rest: string) {
    rest == "" || !IsDigit(rest[0])
  }

  lemma {:induction false} TakesExactly(ds: string, rest: string)
    requires (forall c | c in ds :: IsDigit(c)) && Ends(rest)
    ensures TakeDigits(ds + rest) == ds
  {
    if ds == "" {
      assert ds + rest == rest;
    } else {
      assert ds[0] in ds;
      assert (ds + rest)[1..] == ds[1..] + rest;
      assert ds == [ds[0]] + ds[1..];
      TakesExactly(ds[1..], rest);
    }
  }

  // --- strings ------------------------------------------------------------

  function HexDigit(d: nat): char
    requires d < 16
  {
    if d < 10 then ('0' as int + d) as char else ('a' as int + d - 10) as char
  }

  function HexValue(c: char): Option<nat> {
    if '0' <= c <= '9' then Some(c as int - '0' as int)
    else if 'a' <= c <= 'f' then Some(c as int - 'a' as int + 10)
    else None
  }

  function Hex4(n: nat): (r: string)
    requires n < 0x10000
    ensures |r| == 4
  {
    [HexDigit(n / 0x1000), HexDigit(n / 0x100 % 0x10), HexDigit(n / 0x10 % 0x10), HexDigit(n % 0x10)]
  }

  function ParseHex4(t: string): Option<nat>
    requires |t| >= 4
  {
    match (HexValue(t[0]), HexValue(t[1]), HexValue(t[2]), HexValue(t[3]))
    case (Some(a), Some(b), Some(c), Some(d)) => Some(0x1000 * a + 0x100 * b + 0x10 * c + d)
    case _ => None
  }

  lemma HexRoundTrip(n: nat, rest: string)
    requires n < 0x10000
    ensures ParseHex4(Hex4(n) + rest) == Some(n)
  {
    HexDigitValue(n / 0x1000);
    HexDigitValue(n / 0x100 % 0x10);
    HexDigitValue(n / 0x10 % 0x10);
    HexDigitValue(n % 0x10);
    HexDigitsAddUp(n);
    var t := Hex4(n) + rest;
    assert t[0] == Hex4(n)[0] && t[1] == Hex4(n)[1] && t[2] == Hex4(n)[2] && t[3] == Hex4(n)[3];
  }

  lemma HexDigitsAddUp(n: nat)
    ensures n == 0x1000 * (n / 0x1000) + 0x100 * (n / 0x100 % 0x10) + 0x10 * (n / 0x10 % 0x10) + n % 0x10
  {
    assert n / 0x10 / 0x10 == n / 0x100;
    assert n / 0x100 / 0x10 == n / 0x1000;
  }

  lemma HexDigitValue(d: nat)
    requires d < 16
    ensures HexValue(HexDigit(d)) == Some(d)
  {
  }

  function EscapeU(n: nat): (r: string)
    requires n < 0x10000
    ensures |r| == 6
  {
    ['\\', 'u'] + Hex4(n)
  }

  /** ASCII-only output: quotes, backslashes and control characters escaped, everything past `~` as `\u`,
      in a surrogate pair beyond the basic plane. */
  function Escape(c: char): string {
    var n := c as int;
    if ShortEscape(c).Some? then ['\\', ShortEscape(c).value]
    else if 32 <= n <= 126 then [c]
    else if n < 0x10000 then EscapeU(n)
    else EscapeU(0xD800 + (n - 0x10000) / 0x400) + EscapeU(0xDC00 + (n - 0x10000) % 0x400)
  }

  function EscapeAll(s: string): string {
    if s == "" then "" else Escape(s[0]) + EscapeAll(s[1..])
  }

  function PrintString(s: string): string {
    ['"'] + EscapeAll(s) + ['"']
  }

  function CharOf(n: nat): Option<char> {
    if n < 0xD800 || 0xE000 <= n < 0x110000 then Some(n as char) else None
  }

  /** One character of a string body, with the text after it. */
  function UnescapeOne(t: string): (r: Option<(char, string)>)
    ensures r.Some? ==> |r.value.1| < |t|
  {
    if t == "" then None
    else if t[0] != '\\' then Some((t[0], t[1..]))
    else if |t| < 2 then None
    else if ShortUnescape(t[1]).Some? then Some((ShortUnescape(t[1]).value, t[2..]))
    else if t[1] == 'u' && |t| >= 6 then UnescapeU(t)
    else None
  }

  function UnescapeU(t: string): (r: Option<(char, string)>)
    requires |t| >= 6
    ensures r.Some? ==> |r.value.1| < |t|
  {
    match ParseHex4(t[2..])
    case None => None
    case Some(high) =>
      if 0xD800 <= high < 0xDC00 then
        if |t| < 12 || t[6] != '\\' || t[7] != 'u' then None
        else match ParseHex4(t[8..])
          case None => None
          case Some(low) =>
            if 0xDC00 <= low < 0xE000
            then Some(((0x10000 + (high - 0xD800) * 0x400 + (low - 0xDC00)) as char, t[12..]))
            else None
      else match CharOf(high)
        case None => None
        case Some(c) => Some((c, t[6..]))
  }

  lemma UnescapeUPlain(n: nat, rest: string)
    requires n < 0xD800 || 0xE000 <= n < 0x10000
    ensures UnescapeOne(EscapeU(n) + rest) == Some((n as char, rest))
  {
    var t := EscapeU(n) + rest;
    assert t[2..] == Hex4(n) + rest && t[6..] == rest;
    HexRoundTrip(n, rest);
  }

  lemma UnescapeUPair(n: nat, rest: string)
    requires 0x10000 <= n < 0x110000
    ensures UnescapeOne(EscapeU(0xD800 + (n - 0x10000) / 0x400) + EscapeU(0xDC00 + (n - 0x10000) % 0x400) + rest)
            == Some((n as char, rest))
  {
    var high, low := 0xD800 + (n - 0x10000) / 0x400, 0xDC00 + (n - 0x10000) % 0x400;
    assert 0x10000 + (high - 0xD800) * 0x400 + (low - 0xDC00) == n;
    UnescapesPair(high, low, rest);
  }

  lemma UnescapesPair(high: nat, low: nat, rest: string)
    requires 0xD800 <= high < 0xDC00 <= low < 0xE000
    ensures UnescapeOne(EscapeU(high) + EscapeU(low) + rest)
            == Some(((0x10000 + (high - 0xD800) * 0x400 + (low - 0xDC00)) as char, rest))
  {
    var t := EscapeU(high) + EscapeU(low) + rest;
    assert t[2..] == Hex4(high) + (EscapeU(low) + rest);
    HexRoundTrip(high, EscapeU(low) + rest);
    assert t[0] == '\\' && t[1] == 'u' && t[6] == '\\' && t[7] == 'u';
    assert t[8..] == Hex4(low) + rest;
    HexRoundTrip(low, rest);
    assert t[12..] == rest;
    assert UnescapeOne(t) == UnescapeU(t);
  }

  /** The one character that stands for `c` after a backslash, if it has one. */
  function ShortEscape(c: char): Option<char> {
    var n := c as int;
    if c == '"' then Some('"')
    else if c == '\\' then Some('\\')
    else if n == 10 then Some('n')
    else if n == 13 then Some('r')
    else if n == 9 then Some('t')
    else if n == 12 then Some('f')
    else if n == 8 then Some('b')
    else None
  }

  function ShortUnescape(e: char): Option<char> {
    if e == '"' || e == '\\' || e == '/' then Some(e)
    else if e == 'n' then Some(10 as char)
    else if e == 'r' then Some(13 as char)
    else if e == 't' then Some(9 as char)
    else if e == 'f' then Some(12 as char)
    else if e == 'b' then Some(8 as char)
    else None
  }

  lemma ShortRoundTrip(c: char)
    ensures ShortEscape(c).Some? ==> ShortUnescape(ShortEscape(c).value) == Some(c)
    ensures ShortEscape(c).None? ==> c != '"' && c != '\\'
  {
  }

  lemma UnescapeShort(e: char, rest: string)
    requires ShortUnescape(e).Some?
    ensures UnescapeOne(['\\', e] + rest) == Some((ShortUnescape(e).value, rest))
  {
    assert (['\\', e] + rest)[2..] == rest;
  }

  lemma UnescapeSelf(c: char, rest: string)
    requires c != '\\'
    ensures UnescapeOne([c] + rest) == Some((c, rest))
  {
    assert ([c] + rest)[1..] == rest;
  }

  lemma UnescapeEscape(c: char, rest: string)
    ensures Escape(c) != "" && Escape(c)[0] != '"' && UnescapeOne(Escape(c) + rest) == Some((c, rest))
  {
    EscapeStarts(c);
    UnescapesEscape(c, rest);
  }

  lemma EscapeStarts(c: char)
    ensures Escape(c) != "" && Escape(c)[0] != '"'
  {
    ShortRoundTrip(c);
  }

  lemma UnescapesEscape(c: char, rest: string)
    ensures UnescapeOne(Escape(c) + rest) == Some((c, rest))
  {
    var n := c as int;
    ShortRoundTrip(c);
    if ShortEscape(c).Some? {
      UnescapeShort(ShortEscape(c).value, rest);
    } else if 32 <= n <= 126 {
      UnescapeSelf(c, rest);
    } else if n < 0x10000 {
      UnescapeUPlain(n, rest);
    } else {
      UnescapeUPair(n, rest);
    }
  }

  /** The rest of a string literal, its closing quote included. */
  function ParseString(t: string): (r: Option<(string, string)>)
    ensures r.Some? ==> |r.value.1| < |t|
    decreases |t|
  {
    if t == "" then None
    else if t[0] == '"' then Some(("", t[1..]))
    else match UnescapeOne(t)
      case None => None
      case Some((c, rest)) =>
        match ParseString(rest)
        case None => None
        case Some((s, rest')) => Some(([c] + s, rest'))
  }

  lemma StringStep(c: char, tail: string)
    requires ParseString(tail).Some?
    ensures ParseString(Escape(c) + tail) == Some(([c] + ParseString(tail).value.0, ParseString(tail).value.1))
  {
    UnescapeEscape(c, tail);
    assert (Escape(c) + tail)[0] == Escape(c)[0];
  }

  lemma {:induction false} ParsesString(s: string, rest: string)
    ensures ParseString(EscapeAll(s) + ['"'] + rest) == Some((s, rest))
  {
    var t := EscapeAll(s) + ['"'] + rest;
    if s == "" {
      assert t == ['"'] + rest;
      assert t[1..] == rest;
    } else {
      var tail := EscapeAll(s[1..]) + ['"'] + rest;
      assert t == Escape(s[0]) + tail;
      ParsesString(s[1..], rest);
      StringStep(s[0], tail);
      assert s == [s[0]] + s[1..];
    }
  }

  // --- values -------------------------------------------------------------

  ghost function Print(v: Json): string
    decreases v, 1, 0
  {
    match v
    case JNull => "null"
    case JBool(b) => if b then "true" else "false"
    case JInt(n) => PrintInt(n)
    case JString(s) => PrintString(s)
    case JArray(items) => ['['] + PrintItems(v, 0) + [']']
    case JObject(members) => ['{'] + PrintMembers(v, SortedKeys(members)) + ['}']
  }

  ghost function SortedKeys(members: map<string, Json>): (keys: seq<string>)
    ensures forall k :: k in keys <==> k in members
    ensures forall i, j | 0 <= i < j < |keys| :: keys[i] != keys[j]
  {
    StringOrder();
    SortSet(StringLeq, members.Keys)
  }

  /** Members are printed in the order of their keys. */
  lemma KeysAscend(members: map<string, Json>)
    ensures forall i, j | 0 <= i < j < |SortedKeys(members)| ::
              StringLeq(SortedKeys(members)[i], SortedKeys(members)[j])
  {
    StringOrder();
  }

  /** The items of `v` from the `n`-th on. */
  ghost function PrintItems(v: Json, n: nat): string
    requires v.JArray? && n <= |v.items|
    decreases v, 0, |v.items| - n
  {
    if n == |v.items| then ""
    else Print(v.items[n]) + if n + 1 == |v.items| then "" else [','] + PrintItems(v, n + 1)
  }

  ghost function PrintMembers(v: Json, keys: seq<string>): string
    requires v.JObject? && forall k | k in keys :: k in v.members
    decreases v, 0, |keys|
  {
    if keys == [] then ""
    else
      PrintString(keys[0]) + [':'] + Print(v.members[keys[0]])
      + if |keys| == 1 then "" else [','] + PrintMembers(v, keys[1..])
  }

  datatype Parsed<T> = Parsed(value: T, rest: string)

  function ParseLiteral(t: string, word: string, v: Json): (r: Option<Parsed<Json>>)
    requires word != ""
    ensures r.Some? ==> |r.value.rest| < |t|
  {
    if word <= t then Some(Parsed(v, t[|word|..])) else None
  }

  function ParseNumber(t: string): (r: Option<Parsed<Json>>)
    ensures r.Some? ==> |r.value.rest| < |t|
  {
    if t != "" && t[0] == '-' then
      var u := t[1..];
      var ds := TakeDigits(u);
      var n: int := Value(ds);
      if ds == "" then None else Some(Parsed(JInt(-n), u[|ds|..]))
    else
      var ds := TakeDigits(t);
      if ds == "" then None else Some(Parsed(JInt(Value(ds)), t[|ds|..]))
  }

  function Parse(t: string): (r: Option<Parsed<Json>>)
    ensures r.Some? ==> |r.value.rest| < |t|
    decreases |t|, 0
  {
    if t == "" then None
    else if t[0] == '-' || IsDigit(t[0]) then ParseNumber(t)
    else if t[0] == 'n' then ParseLiteral(t, "null", JNull)
    else if t[0] == 't' then ParseLiteral(t, "true", JBool(true))
    else if t[0] == 'f' then ParseLiteral(t, "false", JBool(false))
    else if t[0] == '"' then
      match ParseString(t[1..])
      case None => None
      case Some((s, rest)) => Some(Parsed(JString(s), rest))
    else if t[0] == '[' then ParseArray(t[1..])
    else if t[0] == '{' then ParseObject(t[1..])
    else None
  }

  /** What follows an opening bracket. */
  function ParseArray(t: string): (r: Option<Parsed<Json>>)
    ensures r.Some? ==> |r.value.rest| < |t|
    decreases |t|, 3
  {
    if t != "" && t[0] == ']' then Some(Parsed(JArray([]), t[1..]))
    else match ParseItems(t)
      case None => None
      case Some(Parsed(items, rest)) => Some(Parsed(JArray(items), rest))
  }

  /** What follows an opening brace. */
  function ParseObject(t: string): (r: Option<Parsed<Json>>)
    ensures r.Some? ==> |r.value.rest| < |t|
    decreases |t|, 3
  {
    if t != "" && t[0] == '}' then Some(Parsed(JObject(map[]), t[1..]))
    else match ParseMembers(t)
      case None => None
      case Some(Parsed(members, rest)) => Some(Parsed(JObject(members), rest))
  }

  /** One or more values, then the closing bracket. */
  function ParseItems(t: string): (r: Option<Parsed<seq<Json>>>)
    ensures r.Some? ==> |r.value.rest| < |t|
    decreases |t|, 1
  {
    match Parse(t)
    case None => None
    case Some(Parsed(v, rest)) => ParseMoreItems(v, rest)
  }

  function ParseMoreItems(v: Json, t: string): (r: Option<Parsed<seq<Json>>>)
    ensures r.Some? ==> |r.value.rest| < |t|
    decreases |t|, 2
  {
    if t == "" then None
    else if t[0] == ']' then Some(Parsed([v], t[1..]))
    else if t[0] != ',' then None
    else match ParseItems(t[1..])
      case None => None
      case Some(Parsed(vs, rest)) => Some(Parsed([v] + vs, rest))
  }

  /** One or more members, then the closing brace. */
  function ParseMembers(t: string): (r: Option<Parsed<map<string, Json>>>)
    ensures r.Some? ==> |r.value.rest| < |t|
    decreases |t|, 1
  {
    if t == "" || t[0] != '"' then None
    else match ParseString(t[1..])
      case None => None
      case Some((k, afterKey)) =>
        if afterKey == "" || afterKey[0] != ':' then None
        else match Parse(afterKey[1..])
          case None => None
          case Some(Parsed(v, rest)) => ParseMoreMembers(k, v, rest)
  }

  function ParseMoreMembers(k: string, v: Json, t: string): (r: Option<Parsed<map<string, Json>>>)
    ensures r.Some? ==> |r.value.rest| < |t|
    decreases |t|, 2
  {
    if t == "" then None
    else if t[0] == '}' then Some(Parsed(map[k := v], t[1..]))
    else if t[0] != ',' then None
    else match ParseMembers(t[1..])
      case None => None
      case Some(Parsed(m, rest)) => Some(Parsed(m[k := v], rest))
  }

  // --- the parser undoes the printer --------------------------------------

  lemma ParsesNatural(n: nat, rest: string)
    requires Ends(rest)
    ensures Digits(n) <= Digits(n) + rest && TakeDigits(Digits(n) + rest) == Digits(n)
    ensures (Digits(n) + rest)[|Digits(n)|..] == rest && Value(Digits(n)) == n
  {
    TakesExactly(Digits(n), rest);
    ValueOfDigits(n);
  }

  lemma ParsesNegative(n: int, rest: string)
    requires Ends(rest) && n > 0
    ensures ParseNumber("-" + Digits(n) + rest) == Some(Parsed(JInt(-n), rest))
  {
    ParsesNatural(n, rest);
    MinusDigits(Digits(n), rest, n);
  }

  lemma MinusDigits(ds: string, rest: string, n: int)
    requires ds != "" && TakeDigits(ds + rest) == ds && Value(ds) == n
    ensures ParseNumber("-" + ds + rest) == Some(Parsed(JInt(-n), rest))
  {
    NegativeNumber(ds + rest);
    assert "-" + ds + rest == "-" + (ds + rest);
    assert (ds + rest)[|ds|..] == rest;
  }

  lemma NegativeNumber(u: string)
    ensures var ds := TakeDigits(u);
            var n: int := Value(ds);
            ParseNumber("-" + u) == if ds == "" then None else Some(Parsed(JInt(-n), u[|ds|..]))
  {
    assert ("-" + u)[1..] == u;
  }

  lemma ParsesNonNegative(n: nat, rest: string)
    requires Ends(rest)
    ensures IsDigit(Digits(n)[0]) && ParseNumber(Digits(n) + rest) == Some(Parsed(JInt(n), rest))
  {
    ParsesNatural(n, rest);
    assert Digits(n)[0] in Digits(n);
  }

  lemma ParsesInt(n: int, rest: string)
    requires Ends(rest)
    ensures PrintInt(n) != "" && (PrintInt(n)[0] == '-' || IsDigit(PrintInt(n)[0]))
    ensures ParseNumber(PrintInt(n) + rest) == Some(Parsed(JInt(n), rest))
  {
    if n < 0 {
      ParsesNegative(-n, rest);
    } else {
      ParsesNonNegative(n, rest);
    }
  }

  lemma NumberCase(t: string)
    requires t != "" && (t[0] == '-' || IsDigit(t[0]))
    ensures Parse(t) == ParseNumber(t)
  {
  }

  lemma StringCase(s: string, rest: string)
    ensures Parse(PrintString(s) + rest) == Some(Parsed(JString(s), rest))
  {
    var t := PrintString(s) + rest;
    assert t[1..] == EscapeAll(s) + ['"'] + rest;
    ParsesString(s, rest);
  }

  lemma ArrayCase(inner: string, items: seq<Json>, rest: string)
    requires inner != "" && inner[0] != ']' && ParseItems(inner) == Some(Parsed(items, rest))
    ensures Parse(['['] + inner) == Some(Parsed(JArray(items), rest))
  {
    Opens(inner);
    assert ParseArray(inner) == Some(Parsed(JArray(items), rest));
  }

  lemma Opens(inner: string)
    ensures Parse(['['] + inner) == ParseArray(inner)
    ensures Parse(['{'] + inner) == ParseObject(inner)
  {
    assert (['['] + inner)[1..] == inner;
    assert (['{'] + inner)[1..] == inner;
  }

  lemma ObjectCase(inner: string, members: map<string, Json>, rest: string)
    requires inner != "" && inner[0] != '}' && ParseMembers(inner) == Some(Parsed(members, rest))
    ensures Parse(['{'] + inner) == Some(Parsed(JObject(members), rest))
  {
    Opens(inner);
    assert ParseObject(inner) == Some(Parsed(JObject(members), rest));
  }

  lemma EmptyCases(rest: string)
    ensures Parse(['['] + ([']'] + rest)) == Some(Parsed(JArray([]), rest))
    ensures Parse(['{'] + (['}'] + rest)) == Some(Parsed(JObject(map[]), rest))
  {
    assert (['['] + ([']'] + rest))[1..] == [']'] + rest && ([']'] + rest)[1..] == rest;
    assert (['{'] + (['}'] + rest))[1..] == ['}'] + rest && (['}'] + rest)[1..] == rest;
  }

  lemma WordCase(word: string, v: Json, rest: string)
    requires (word == "null" && v == JNull) || (word == "true" && v == JBool(true))
        || (word == "false" && v == JBool(false))
    ensures Parse(word + rest) == Some(Parsed(v, rest))
  {
    assert word <= word + rest;
    assert (word + rest)[|word|..] == rest;
  }

  /** Printed values never start like a closing bracket. */
  lemma PrintStarts(v: Json)
    ensures Print(v) != "" && Print(v)[0] != ']'
  {
    if v.JInt? {
      ParsesInt(v.int_, "");
    }
  }

  /** One more item, then either the end of the array or another. */
  lemma LastItem(text: string, v: Json, rest: string)
    requires Parse(text + ([']'] + rest)) == Some(Parsed(v, [']'] + rest))
    ensures ParseItems(text + ([']'] + rest)) == Some(Parsed([v], rest))
  {
    assert ([']'] + rest)[1..] == rest;
  }

  lemma NextItem(text: string, v: Json, more: string, vs: seq<Json>, rest: string)
    requires Parse(text + ([','] + more)) == Some(Parsed(v, [','] + more))
    requires ParseItems(more) == Some(Parsed(vs, rest))
    ensures ParseItems(text + ([','] + more)) == Some(Parsed([v] + vs, rest))
  {
    assert ([','] + more)[1..] == more;
  }

  lemma PrintedItem(v: Json, n: nat, rest: string)
    requires v.JArray? && n < |v.items|
    ensures PrintItems(v, n) + ([']'] + rest)
            == if n + 1 == |v.items| then Print(v.items[n]) + ([']'] + rest)
               else Print(v.items[n]) + ([','] + (PrintItems(v, n + 1) + ([']'] + rest)))
  {
  }

  lemma {:induction false} ParsesItems(v: Json, n: nat, rest: string)
    requires v.JArray? && n < |v.items|
    ensures ParseItems(PrintItems(v, n) + ([']'] + rest)) == Some(Parsed(v.items[n..], rest))
    decreases v, 0, |v.items| - n
  {
    if n + 1 == |v.items| {
      ParsesBack(v.items[n], [']'] + rest);
      LastItem(Print(v.items[n]), v.items[n], rest);
      PrintedItem(v, n, rest);
      assert v.items[n..] == [v.items[n]];
    } else {
      var more := PrintItems(v, n + 1) + ([']'] + rest);
      ParsesBack(v.items[n], [','] + more);
      ParsesItems(v, n + 1, rest);
      NextItem(Print(v.items[n]), v.items[n], more, v.items[n + 1..], rest);
      PrintedItem(v, n, rest);
      assert v.items[n..] == [v.items[n]] + v.items[n + 1..];
    }
  }

  /** The members of `v` named by `keys`. */
  ghost function Restricted(v: Json, keys: seq<string>): map<string, Json>
    requires v.JObject? && forall k | k in keys :: k in v.members
  {
    map k | k in keys :: v.members[k]
  }

  /** One more member, then either the end of the object or another. */
  lemma MemberStep(k: string, text: string, x: Json, tail: string)
    requires Parse(text + tail) == Some(Parsed(x, tail)) && tail != ""
    ensures var t := PrintString(k) + [':'] + text + tail;
            && (tail[0] == '}' ==> ParseMembers(t) == Some(Parsed(map[k := x], tail[1..])))
            && (tail[0] == ',' && ParseMembers(tail[1..]).Some? ==>
                  ParseMembers(t)
                      == Some(Parsed(ParseMembers(tail[1..]).value.value[k := x], ParseMembers(tail[1..]).value.rest)))
  {
    var t := PrintString(k) + [':'] + text + tail;
    var afterKey := [':'] + (text + tail);
    assert t[1..] == EscapeAll(k) + ['"'] + afterKey;
    ParsesString(k, afterKey);
    assert afterKey[1..] == text + tail;
  }

  lemma LastMember(k: string, text: string, x: Json, rest: string)
    requires Parse(text + (['}'] + rest)) == Some(Parsed(x, ['}'] + rest))
    ensures ParseMembers(PrintString(k) + [':'] + text + (['}'] + rest)) == Some(Parsed(map[k := x], rest))
  {
    MemberStep(k, text, x, ['}'] + rest);
    assert (['}'] + rest)[1..] == rest;
  }

  lemma NextMember(k: string, text: string, x: Json, more: string, m: map<string, Json>, rest: string)
    requires Parse(text + ([','] + more)) == Some(Parsed(x, [','] + more))
        && ParseMembers(more) == Some(Parsed(m, rest))
    ensures ParseMembers(PrintString(k) + [':'] + text + ([','] + more)) == Some(Parsed(m[k := x], rest))
  {
    assert ([','] + more)[1..] == more;
    MemberStep(k, text, x, [','] + more);
  }

  lemma PrintedMember(v: Json, keys: seq<string>, rest: string)
    requires v.JObject? && keys != [] && forall k | k in keys :: k in v.members
    ensures var head := PrintString(keys[0]) + [':'] + Print(v.members[keys[0]]);
            PrintMembers(v, keys) + (['}'] + rest)
            == if |keys| == 1 then head + (['}'] + rest)
                else head + ([','] + (PrintMembers(v, keys[1..]) + (['}'] + rest)))
  {
  }

  lemma RestrictedCons(v: Json, keys: seq<string>)
    requires v.JObject? && keys != [] && forall k | k in keys :: k in v.members
    ensures Restricted(v, keys)
        == if |keys| == 1 then map[keys[0] := v.members[keys[0]]]
           else Restricted(v, keys[1..])[keys[0] := v.members[keys[0]]]
  {
    assert keys == [keys[0]] + keys[1..];
  }

  lemma {:induction false} ParsesMembers(v: Json, keys: seq<string>, rest: string)
    requires v.JObject? && keys != [] && forall k | k in keys :: k in v.members
    ensures ParseMembers(PrintMembers(v, keys) + (['}'] + rest)) == Some(Parsed(Restricted(v, keys), rest))
    decreases v, 0, |keys|
  {
    var k, x := keys[0], v.members[keys[0]];
    RestrictedCons(v, keys);
    if |keys| == 1 {
      var tail := ['}'] + rest;
      PrintedMember(v, keys, rest);
      ParsesBack(x, tail);
      LastMember(k, Print(x), x, rest);
    } else {
      var more := PrintMembers(v, keys[1..]) + (['}'] + rest);
      var tail := [','] + more;
      PrintedMember(v, keys, rest);
      ParsesBack(x, tail);
      ParsesMembers(v, keys[1..], rest);
      NextMember(k, Print(x), x, more, Restricted(v, keys[1..]), rest);
    }
  }

  /** The parser is a left inverse of the printer, whatever follows a value (except, after a number, a digit). */
  lemma {:induction false} ParsesBack(v: Json, rest: string)
    requires Ends(rest)
    ensures Parse(Print(v) + rest) == Some(Parsed(v, rest))
    decreases v, 1, 0
  {
    match v
    case JNull =>
      WordCase("null", v, rest);
    case JBool(b) =>
      WordCase(if b then "true" else "false", v, rest);
    case JInt(n) =>
      ParsesInt(n, rest);
      NumberCase(PrintInt(n) + rest);
    case JString(s) =>
      StringCase(s, rest);
    case JArray(_) =>
      ParsesArray(v, rest);
    case JObject(_) =>
      ParsesObject(v, rest);
  }

  lemma PrintedArray(v: Json, rest: string)
    requires v.JArray?
    ensures Print(v) + rest == ['['] + (PrintItems(v, 0) + ([']'] + rest))
    ensures v.items == [] ==> PrintItems(v, 0) + ([']'] + rest) == [']'] + rest
  {
  }

  lemma PrintedObject(v: Json, rest: string)
    requires v.JObject?
    ensures Print(v) + rest == ['{'] + (PrintMembers(v, SortedKeys(v.members)) + (['}'] + rest))
    ensures SortedKeys(v.members) == [] ==> PrintMembers(v, SortedKeys(v.members)) + (['}'] + rest) == ['}'] + rest
  {
  }

  lemma {:induction false} ParsesArray(v: Json, rest: string)
    requires v.JArray?
    ensures Parse(Print(v) + rest) == Some(Parsed(v, rest))
    decreases v, 0, |v.items| + 1
  {
    PrintedArray(v, rest);
    if v.items == [] {
      EmptyCases(rest);
    } else {
      ParsesItems(v, 0, rest);
      assert v.items[0..] == v.items;
      ItemsStart(v);
      ArrayCase(PrintItems(v, 0) + ([']'] + rest), v.items, rest);
    }
  }

  lemma ItemsStart(v: Json)
    requires v.JArray? && v.items != []
    ensures PrintItems(v, 0) != "" && PrintItems(v, 0)[0] != ']'
  {
    PrintStarts(v.items[0]);
    assert PrintItems(v, 0)[0] == Print(v.items[0])[0];
  }

  lemma KeysCover(v: Json)
    requires v.JObject?
    ensures SortedKeys(v.members) == [] <==> v.members == map[]
    ensures Restricted(v, SortedKeys(v.members)) == v.members
  {
    assert forall k :: k in SortedKeys(v.members) <==> k in v.members;
  }

  lemma MembersStart(v: Json, keys: seq<string>)
    requires v.JObject? && keys != [] && forall k | k in keys :: k in v.members
    ensures PrintMembers(v, keys) != "" && PrintMembers(v, keys)[0] == '"'
  {
    assert PrintString(keys[0])[0] == '"';
  }

  lemma {:induction false} ParsesObject(v: Json, rest: string)
    requires v.JObject?
    ensures Parse(Print(v) + rest) == Some(Parsed(v, rest))
    decreases v, 0, |SortedKeys(v.members)| + 1
  {
    var keys := SortedKeys(v.members);
    KeysCover(v);
    PrintedObject(v, rest);
    if keys == [] {
      EmptyCases(rest);
    } else {
      ParsesMembers(v, keys, rest);
      MembersStart(v, keys);
      ObjectCase(PrintMembers(v, keys) + (['}'] + rest), v.members, rest);
    }
  }

  /** Distinct values print differently, nested dict order being irrelevant. */
  lemma PrintInjective(a: Json, b: Json)
    requires Print(a) == Print(b)
    ensures a == b
  {
    ParsesBack(a, "");
    ParsesBack(b, "");
    assert Print(a) + "" == Print(b) + "";
  }

  // --- byte for byte ------------------------------------------------------

  lemma ElementIn<T>(s: seq<T>, k: nat)
    requires k < |s|
    ensures s[k] in s
  {
  }

  lemma TwoKeys(members: map<string, Json>, a: string, b: string)
    requires members.Keys == {a, b} && a != b && StringLeq(a, b)
    ensures SortedKeys(members) == [a, b]
  {
    StringOrder();
    var keys := SortedKeys(members);
    KeysAscend(members);
    forall k | k in keys ensures k == a || k == b {
      assert k in members.Keys;
    }
    assert forall i | 0 <= i < |keys| :: keys[i] in keys;
    if |keys| > 2 {
      ElementIn(keys, 0);
      ElementIn(keys, 1);
      ElementIn(keys, 2);
      assert false;
    }
    assert a in members.Keys && b in members.Keys;
  }

  /** Two members are printed in the order of their keys, with a colon and a comma and nothing else. */
  lemma TwoMembers(v: Json, a: string, b: string)
    requires v.JObject? && v.members.Keys == {a, b} && a != b && StringLeq(a, b)
    ensures Print(v) == "{" + (PrintString(a) + ":" + Print(v.members[a])
                               + ("," + (PrintString(b) + ":" + Print(v.members[b])))) + "}"
  {
    TwoKeys(v.members, a, b);
    assert [a, b][1..] == [b];
    var last := PrintString(b) + ":" + Print(v.members[b]);
    assert PrintMembers(v, [b]) == last by {
      assert last + "" == last;
    }
    assert PrintMembers(v, [a, b]) == PrintString(a) + ":" + Print(v.members[a]) + ("," + last);
  }

  lemma ExampleString()
    ensures PrintString("\"\n\U{E9}") == "\"\\\"\\n\\u00e9\""
  {
    var s := "\"\n\U{E9}";
    assert s[1..] == "\n\U{E9}" && s[1..][1..] == "\U{E9}" && s[1..][1..][1..] == "";
    assert Hex4(0xE9) == "00e9";
    assert Escape(s[0]) == "\\\"" && Escape(s[1]) == "\\n" && Escape(s[2]) == "\\u00e9";
  }

  lemma ExampleItems()
    ensures Print(JArray([JInt(-12), JBool(true), JNull])) == "[-12,true,null]"
  {
    var v := JArray([JInt(-12), JBool(true), JNull]);
    assert PrintInt(-12) == "-12" by {
      assert Digits(12) == Digits(1) + [DigitChar(2)];
    }
    assert PrintItems(v, 3) == "";
    assert PrintItems(v, 2) == "null";
    assert PrintItems(v, 1) == "true,null";
    assert PrintItems(v, 0) == "-12,true,null";
  }

  /** Keys in order, no space anywhere, and ASCII only. */
  lemma ExampleText()
    ensures Print(JObject(map["b" := JArray([JInt(-12), JBool(true), JNull]), "a" := JString("\"\n\U{E9}")]))
            == "{" + ("\"a\"" + ":" + "\"\\\"\\n\\u00e9\"" + ("," + ("\"b\"" + ":" + "[-12,true,null]"))) + "}"
  {
    var items, text := JArray([JInt(-12), JBool(true), JNull]), JString("\"\n\U{E9}");
    var v := JObject(map["b" := items, "a" := text]);
    assert "a"[0] < "b"[0];
    TwoMembers(v, "a", "b");
    ExampleString();
    ExampleItems();
    ExampleKeys();
  }

  lemma ExampleKeys()
    ensures PrintString("a") == "\"a\"" && PrintString("b") == "\"b\""
  {
    assert "a"[1..] == "" && "b"[1..] == "";
    assert Escape('a') == "a" && Escape('b') == "b";
  }
}
