/** JSON text as `json.dumps(value, sort_keys=True, separators=(",", ":"), ensure_ascii=ascii)`
  prints it, and a parser that inverts the printer.

  Floating-point numbers are the one shape of value that is left out. */
module CanonicalJson {
  import opened FixedWidth
  import opened Results
  import opened Ordering

  datatype Json =
    | Null
    | Bool(b: bool)
    | Num(n: int)
    | Str(s: string)
    | Arr(items: seq<Json>)
    | Obj(fields: map<string, Json>)

  // ----- the printer

  function HexDigit(d: nat): char
    requires d < 16
  {
    if d < 10 then '0' + d as char else 'a' + (d - 10) as char
  }

  /** A backslash, `u` and the four hexadecimal digits of a code unit. */
  function UnitEscape(unit: nat): string
    requires unit < 0x10000
  {
    ['\\', 'u', HexDigit(unit / 16 / 16 / 16), HexDigit(unit / 16 / 16 % 16), HexDigit(unit / 16 % 16),
     HexDigit(unit % 16)]
  }

  /** The code units of a character beyond the ASCII range: one, or a surrogate pair. */
  function CodeEscape(code: nat): string
    requires code < 0x110000
  {
    if code < 0x10000 then UnitEscape(code)
    else UnitEscape(0xd800 + (code - 0x10000) / 1024) + UnitEscape(0xdc00 + (code - 0x10000) % 1024)
  }

  /** One character of a string literal. The quote, the backslash and the control characters
    are escaped (section 7 of RFC 8259), and, if the text is to be ASCII, everything beyond the
    tilde; every other character stands for itself. */
  function Escape(ascii: bool, c: char): string {
    if c == '"' then ['\\', '"']
    else if c == '\\' then ['\\', '\\']
    else if c == '\n' then ['\\', 'n']
    else if c == '\r' then ['\\', 'r']
    else if c == '\t' then ['\\', 't']
    else if c as int == 8 then ['\\', 'b']
    else if c as int == 12 then ['\\', 'f']
    else if c as int < 32 then UnitEscape(c as int)
    else if ascii && c > '~' then CodeEscape(c as int)
    else [c]
  }

  function EscapeAll(ascii: bool, s: string): string {
    if s == "" then "" else Escape(ascii, s[0]) + EscapeAll(ascii, s[1..])
  }

  function Quote(ascii: bool, s: string): string {
    "\"" + (EscapeAll(ascii, s) + "\"")
  }

  /** The decimal digits of n, without leading zeros. */
  function Digits(n: nat): string {
    if n < 10 then [Digit(n)] else Digits(n / 10) + [Digit(n % 10)]
  }

  function IntText(n: int): string {
    if n < 0 then "-" + Digits(0 - n) else Digits(n)
  }

  function Dumps(ascii: bool, v: Json): string
    decreases v, 1
  {
    match v
    case Null => "null"
    case Bool(b) => if b then "true" else "false"
    case Num(n) => IntText(n)
    case Str(s) => Quote(ascii, s)
    case Arr(items) => if items == [] then "[]" else "[" + Items(ascii, items)
    case Obj(fields) => if fields == map[] then "{}" else "{" + Members(ascii, v, Sorted(fields.Keys))
  }

  /** The items and the closing bracket. */
  function Items(ascii: bool, items: seq<Json>): string
    requires items != []
    decreases items, 0
  {
    Dumps(ascii, items[0]) + (if |items| == 1 then "]" else "," + Items(ascii, items[1..]))
  }

  /** The members with the given keys and the closing brace. */
  function Members(ascii: bool, v: Json, keys: seq<string>): string
    requires v.Obj? && keys != [] && forall k | k in keys :: k in v.fields
    decreases v, 0, |keys|
  {
    Quote(ascii, keys[0]) + (":" + (Dumps(ascii, v.fields[keys[0]]) +
      (if |keys| == 1 then "}" else "," + Members(ascii, v, keys[1..]))))
  }

  // ----- the parser

  function HexValue(c: char): Option<nat> {
    if '0' <= c <= '9' then Some(c as int - '0' as int)
    else if 'a' <= c <= 'f' then Some(c as int - 'a' as int + 10)
    else if 'A' <= c <= 'F' then Some(c as int - 'A' as int + 10)
    else None
  }

  /** The character after a backslash, for the two-character escapes. */
  function ShortEscape(c: char): Option<char> {
    if c == '"' || c == '\\' || c == '/' then Some(c)
    else if c == 'b' then Some(8 as char)
    else if c == 'f' then Some(12 as char)
    else if c == 'n' then Some('\n')
    else if c == 'r' then Some('\r')
    else if c == 't' then Some('\t')
    else None
  }

  /** The code unit of an escape at the start of t, after its backslash and `u`. */
  function UnitAt(t: string): Option<nat> {
    if |t| < 6 || t[0] != '\\' || t[1] != 'u' then None
    else
      match (HexValue(t[2]), HexValue(t[3]), HexValue(t[4]), HexValue(t[5]))
      case (Some(a), Some(b), Some(c), Some(d)) => Some(4096 * a + 256 * b + 16 * c + d)
      case _ => None
  }

  function ParseUnicode(t: string): (r: Option<(char, string)>)
    ensures r.Some? ==> |r.value.1| < |t|
  {
    match UnitAt(t)
    case None => None
    case Some(unit) =>
      if unit < 0xd800 || 0xe000 <= unit < 0x10000 then Some((unit as char, t[6..]))
      else if 0xd800 <= unit < 0xdc00 then
        match UnitAt(t[6..])
        case None => None
        case Some(low) =>
          if 0xdc00 <= low < 0xe000 then
            Some(((0x10000 + (unit - 0xd800) * 1024 + (low - 0xdc00)) as char, t[12..]))
          else None
      else None
  }

  function ParseChar(t: string): (r: Option<(char, string)>)
    ensures r.Some? ==> |r.value.1| < |t|
  {
    if t == "" then None
    else if t[0] == '\\' then
      if |t| < 2 then None
      else if t[1] == 'u' then ParseUnicode(t)
      else
        match ShortEscape(t[1])
        case None => None
        case Some(c) => Some((c, t[2..]))
    else if t[0] == '"' || t[0] as int < 32 then None
    else Some((t[0], t[1..]))
  }

  /** The rest of a string literal after its opening quote. */
  function ParseString(t: string): (r: Option<(string, string)>)
    ensures r.Some? ==> |r.value.1| < |t|
    decreases |t|
  {
    if t == "" then None
    else if t[0] == '"' then Some(("", t[1..]))
    else
      match ParseChar(t)
      case None => None
      case Some((c, u)) =>
        match ParseString(u)
        case None => None
        case Some((s, w)) => Some(([c] + s, w))
  }

  predicate IsDigit(c: char) {
    '0' <= c <= '9'
  }

  /** How many digits t begins with. */
  function DigitCount(t: string): (k: nat)
    ensures k <= |t|
  {
    if t == "" || !IsDigit(t[0]) then 0 else 1 + DigitCount(t[1..])
  }

  predicate AllDigits(t: string) {
    forall c | c in t :: IsDigit(c)
  }

  function ValueOf(t: string): nat
    requires AllDigits(t)
  {
    if t == "" then 0
    else
      assert t[|t| - 1] in t;
      ValueOf(t[..|t| - 1]) * 10 + (t[|t| - 1] as int - '0' as int)
  }

  function ParseDigits(t: string): (r: Option<(nat, string)>)
    ensures r.Some? ==> |r.value.1| < |t|
  {
    var k := DigitCount(t);
    CountedDigits(t);
    if k == 0 then None else Some((ValueOf(t[..k]), t[k..]))
  }

  lemma {:induction false} CountedDigits(t: string)
    ensures AllDigits(t[..DigitCount(t)])
  {
    if t != "" && IsDigit(t[0]) {
      CountedDigits(t[1..]);
      assert t[..DigitCount(t)] == [t[0]] + t[1..][..DigitCount(t[1..])];
    }
  }

  function ParseInt(t: string): (r: Option<(Json, string)>)
    ensures r.Some? ==> |r.value.1| < |t|
  {
    if t != "" && t[0] == '-' then
      match ParseDigits(t[1..])
      case None => None
      case Some((n, u)) => Some((Num(0 - n), u))
    else
      match ParseDigits(t)
      case None => None
      case Some((n, u)) => Some((Num(n), u))
  }

  function Parse(t: string): (r: Option<(Json, string)>)
    ensures r.Some? ==> |r.value.1| < |t|
    decreases |t|, 1
  {
    if t == "" then None
    else if t[0] == '"' then
      match ParseString(t[1..])
      case None => None
      case Some((s, u)) => Some((Str(s), u))
    else if t[0] == '[' then
      if |t| >= 2 && t[1] == ']' then Some((Arr([]), t[2..]))
      else
        match ParseItems(t[1..])
        case None => None
        case Some((items, u)) => Some((Arr(items), u))
    else if t[0] == '{' then
      if |t| >= 2 && t[1] == '}' then Some((Obj(map[]), t[2..]))
      else
        match ParseMembers(t[1..])
        case None => None
        case Some((fields, u)) => Some((Obj(fields), u))
    else if "null" <= t then Some((Null, t[4..]))
    else if "true" <= t then Some((Bool(true), t[4..]))
    else if "false" <= t then Some((Bool(false), t[5..]))
    else ParseInt(t)
  }

  function ParseItems(t: string): (r: Option<(seq<Json>, string)>)
    ensures r.Some? ==> |r.value.1| < |t|
    decreases |t|, 2
  {
    match Parse(t)
    case None => None
    case Some((v, u)) =>
      if u == "" then None
      else if u[0] == ']' then Some(([v], u[1..]))
      else if u[0] != ',' then None
      else
        match ParseItems(u[1..])
        case None => None
        case Some((vs, w)) => Some(([v] + vs, w))
  }

  function ParseMembers(t: string): (r: Option<(map<string, Json>, string)>)
    ensures r.Some? ==> |r.value.1| < |t|
    decreases |t|, 2
  {
    if t == "" || t[0] != '"' then None
    else
      match ParseString(t[1..])
      case None => None
      case Some((k, u)) =>
        if u == "" || u[0] != ':' then None
        else
          match Parse(u[1..])
          case None => None
          case Some((v, w)) =>
            if w == "" then None
            else if w[0] == '}' then Some((map[k := v], w[1..]))
            else if w[0] != ',' then None
            else
              match ParseMembers(w[1..])
              case None => None
              case Some((fs, x)) => Some((map[k := v] + fs, x))
  }

  // ----- the parser inverts the printer

  lemma HexInverse(d: nat)
    requires d < 16
    ensures HexValue(HexDigit(d)) == Some(d)
  {
  }

  lemma UnitInverse(unit: nat, rest: string)
    requires unit < 0x10000
    ensures UnitAt(UnitEscape(unit) + rest) == Some(unit) && (UnitEscape(unit) + rest)[6..] == rest
  {
    var t := UnitEscape(unit) + rest;
    HexInverse(unit / 16 / 16 / 16);
    HexInverse(unit / 16 / 16 % 16);
    HexInverse(unit / 16 % 16);
    HexInverse(unit % 16);
    assert t[2] == HexDigit(unit / 16 / 16 / 16) && t[3] == HexDigit(unit / 16 / 16 % 16);
    assert t[4] == HexDigit(unit / 16 % 16) && t[5] == HexDigit(unit % 16);
    FourDigits(unit);
  }

  lemma FourDigits(unit: nat)
    ensures 4096 * (unit / 16 / 16 / 16) + 256 * (unit / 16 / 16 % 16) + 16 * (unit / 16 % 16) + unit % 16 == unit
  {
  }

  lemma PlainUnicode(unit: nat, rest: string)
    requires unit < 0xd800 || 0xe000 <= unit < 0x10000
    ensures ParseChar(UnitEscape(unit) + rest) == Some((unit as char, rest))
  {
    UnitInverse(unit, rest);
  }

  lemma PairUnicode(code: nat, rest: string)
    requires 0x10000 <= code < 0x110000
    ensures ParseChar(CodeEscape(code) + rest) == Some((code as char, rest))
  {
    var high, low := 0xd800 + (code - 0x10000) / 1024, 0xdc00 + (code - 0x10000) % 1024;
    var t := CodeEscape(code) + rest;
    assert t == UnitEscape(high) + (UnitEscape(low) + rest);
    UnitInverse(high, UnitEscape(low) + rest);
    UnitInverse(low, rest);
    assert t[12..] == t[6..][6..];
  }

  lemma EscapeInverse(ascii: bool, c: char, rest: string)
    ensures Escape(ascii, c) != "" && Escape(ascii, c)[0] != '"'
    ensures ParseChar(Escape(ascii, c) + rest) == Some((c, rest))
  {
    var t := Escape(ascii, c) + rest;
    if Escape(ascii, c) == [c] {
      assert t[1..] == rest;
    } else if |Escape(ascii, c)| == 2 {
      assert t[2..] == rest;
    } else if c as int < 0x10000 {
      PlainUnicode(c as int, rest);
    } else {
      PairUnicode(c as int, rest);
    }
  }

  lemma {:induction false} StringInverse(ascii: bool, s: string, rest: string)
    ensures ParseString(EscapeAll(ascii, s) + "\"" + rest) == Some((s, rest))
  {
    if s == "" {
      assert "" + "\"" + rest == "\"" + rest;
    } else {
      var tail := EscapeAll(ascii, s[1..]) + "\"" + rest;
      assert Escape(ascii, s[0]) + EscapeAll(ascii, s[1..]) + "\"" + rest == Escape(ascii, s[0]) + tail;
      EscapeInverse(ascii, s[0], tail);
      StringInverse(ascii, s[1..], rest);
      CharThenString(s[0], Escape(ascii, s[0]) + tail, tail, s[1..], rest);
      assert s == [s[0]] + s[1..];
    }
  }

  lemma CharThenString(c: char, t: string, tail: string, s: string, rest: string)
    requires t != "" && t[0] != '"' && ParseChar(t) == Some((c, tail)) && ParseString(tail) == Some((s, rest))
    ensures ParseString(t) == Some(([c] + s, rest))
  {
  }

  lemma QuoteInverse(ascii: bool, s: string, rest: string)
    ensures Quote(ascii, s) + rest != "" && (Quote(ascii, s) + rest)[0] == '"'
    ensures ParseString((Quote(ascii, s) + rest)[1..]) == Some((s, rest))
  {
    var body := EscapeAll(ascii, s) + "\"";
    StringInverse(ascii, s, rest);
    assert "\"" + body + rest == "\"" + (body + rest);
    assert (Quote(ascii, s) + rest)[1..] == body + rest;
  }

  lemma {:induction false} DigitsAreDigits(n: nat)
    ensures Digits(n) != "" && AllDigits(Digits(n)) && ValueOf(Digits(n)) == n
  {
    if n >= 10 {
      DigitsAreDigits(n / 10);
      var front := Digits(n / 10);
      assert Digits(n)[..|front|] == front && Digits(n)[|front|] == Digit(n % 10);
    } else {
      assert [Digit(n)][..0] == "";
      assert ValueOf("") == 0;
    }
  }

  /** The text ends, or goes on with something other than a digit. */
  predicate EndsNumber(rest: string) {
    rest == "" || !IsDigit(rest[0])
  }

  lemma {:induction false} CountAll(s: string, rest: string)
    requires AllDigits(s) && EndsNumber(rest)
    ensures DigitCount(s + rest) == |s|
  {
    if s == "" {
      assert s + rest == rest;
    } else {
      assert (s + rest)[1..] == s[1..] + rest;
      CountAll(s[1..], rest);
    }
  }

  lemma DigitsInverse(n: nat, rest: string)
    requires EndsNumber(rest)
    ensures ParseDigits(Digits(n) + rest) == Some((n, rest))
  {
    var s := Digits(n);
    DigitsAreDigits(n);
    CountAll(s, rest);
    assert (s + rest)[..|s|] == s && (s + rest)[|s|..] == rest;
  }

  lemma FirstIsDigit(n: nat, rest: string)
    ensures Digits(n) + rest != "" && IsDigit((Digits(n) + rest)[0])
  {
    DigitsAreDigits(n);
    assert (Digits(n) + rest)[0] == Digits(n)[0] && Digits(n)[0] in Digits(n);
  }

  lemma ParseNegative(u: string, n: nat, rest: string)
    requires ParseDigits(u) == Some((n, rest))
    ensures Parse("-" + u) == Some((Num(0 - n), rest))
  {
    assert ("-" + u)[0] == '-' && ("-" + u)[1..] == u;
    NumberNotWord("-" + u);
  }

  lemma ParsePositive(t: string, n: nat, rest: string)
    requires t != "" && IsDigit(t[0]) && ParseDigits(t) == Some((n, rest))
    ensures Parse(t) == Some((Num(n), rest))
  {
    NumberNotWord(t);
  }

  lemma IntInverse(n: int, rest: string)
    requires EndsNumber(rest)
    ensures Parse(IntText(n) + rest) == Some((Num(n), rest))
  {
    if n < 0 {
      var size: nat := 0 - n;
      DigitsInverse(size, rest);
      ParseNegative(Digits(size) + rest, size, rest);
      assert "-" + Digits(size) + rest == "-" + (Digits(size) + rest);
    } else {
      DigitsInverse(n, rest);
      FirstIsDigit(n, rest);
      ParsePositive(Digits(n) + rest, n, rest);
    }
  }

  lemma NumberNotWord(t: string)
    requires t != "" && (t[0] == '-' || IsDigit(t[0]))
    ensures Parse(t) == ParseInt(t)
  {
  }

  lemma WordInverse(rest: string)
    ensures Parse("null" + rest) == Some((Null, rest))
    ensures Parse("true" + rest) == Some((Bool(true), rest))
    ensures Parse("false" + rest) == Some((Bool(false), rest))
  {
    var n, t, f := "null" + rest, "true" + rest, "false" + rest;
    assert n[..4] == "null" && n[4..] == rest && n[0] == 'n';
    assert t[..4] == "true" && t[4..] == rest && t[0] == 't';
    assert f[..5] == "false" && f[5..] == rest && f[0] == 'f';
  }

  lemma StartsValue(ascii: bool, v: Json)
    ensures Dumps(ascii, v) != "" && Dumps(ascii, v)[0] != ']' && Dumps(ascii, v)[0] != '}'
  {
    match v
    case Num(n) =>
      if n >= 0 {
        FirstIsDigit(n, "");
        assert Digits(n) + "" == Digits(n);
      }
    case _ =>
  }

  /** Parsing what was printed gives the value back, whatever text follows it, as long as a number
    is not followed by another digit. */
  lemma {:induction false} RoundTrip(ascii: bool, v: Json, rest: string)
    requires EndsNumber(rest)
    ensures Parse(Dumps(ascii, v) + rest) == Some((v, rest))
    decreases v, 1
  {
    match v
    case Null => WordInverse(rest);
    case Bool(b) => WordInverse(rest);
    case Num(n) => IntInverse(n, rest);
    case Str(s) =>
      QuoteInverse(ascii, s, rest);
    case Arr(items) =>
      if items != [] {
        ItemsRoundTrip(ascii, items, rest);
      }
      ArrayRoundTrip(ascii, items, rest);
    case Obj(fields) =>
      if fields != map[] {
        KeysOf(fields);
        MembersRoundTrip(ascii, v, Sorted(fields.Keys), rest);
      }
      ObjectRoundTrip(ascii, fields, rest);
  }

  lemma ArrayRoundTrip(ascii: bool, items: seq<Json>, rest: string)
    requires items != [] ==> ParseItems(Items(ascii, items) + rest) == Some((items, rest))
    ensures Parse(Dumps(ascii, Arr(items)) + rest) == Some((Arr(items), rest))
  {
    if items == [] {
      assert ("[]" + rest)[2..] == rest;
    } else {
      StartsValue(ascii, items[0]);
      var body := Items(ascii, items);
      assert body[0] == Dumps(ascii, items[0])[0];
      assert ("[" + body) + rest == "[" + (body + rest);
      BracketThenItems(body + rest, items, rest);
    }
  }

  lemma ObjectRoundTrip(ascii: bool, fields: map<string, Json>, rest: string)
    requires var keys := Sorted(fields.Keys);
      fields != map[] ==>
        && keys != [] && (forall k | k in keys :: k in fields)
        && ParseMembers(Members(ascii, Obj(fields), keys) + rest) == Some((fields, rest))
    ensures Parse(Dumps(ascii, Obj(fields)) + rest) == Some((Obj(fields), rest))
  {
    if fields == map[] {
      assert ("{}" + rest)[2..] == rest;
    } else {
      var body := Members(ascii, Obj(fields), Sorted(fields.Keys));
      assert body[0] == '"';
      assert ("{" + body) + rest == "{" + (body + rest);
      BraceThenMembers(body + rest, fields, rest);
    }
  }

  lemma BracketThenItems(t: string, items: seq<Json>, rest: string)
    requires t != "" && t[0] != ']' && ParseItems(t) == Some((items, rest))
    ensures Parse("[" + t) == Some((Arr(items), rest))
  {
    assert ("[" + t)[1..] == t && ("[" + t)[1] == t[0];
  }

  lemma BraceThenMembers(t: string, fields: map<string, Json>, rest: string)
    requires t != "" && t[0] == '"' && ParseMembers(t) == Some((fields, rest))
    ensures Parse("{" + t) == Some((Obj(fields), rest))
  {
  }

  lemma KeysOf(fields: map<string, Json>)
    ensures var keys := Sorted(fields.Keys);
      (forall k | k in keys :: k in fields) && Distinct(keys) && Restrict(fields, keys) == fields
  {
    var keys := Sorted(fields.Keys);
    assert forall k | k in keys :: k in Elements(keys);
    assert forall k | k in fields :: k in Elements(keys);
    IncreasingDistinct(keys);
  }

  lemma LastItem(d: string, v: Json, rest: string)
    requires Parse(d + ("]" + rest)) == Some((v, "]" + rest))
    ensures ParseItems(d + ("]" + rest)) == Some(([v], rest))
  {
    assert ("]" + rest)[1..] == rest;
  }

  lemma OneMoreItem(d: string, v: Json, next: string, others: seq<Json>, rest: string)
    requires Parse(d + ("," + next)) == Some((v, "," + next)) && ParseItems(next) == Some((others, rest))
    ensures ParseItems(d + ("," + next)) == Some(([v] + others, rest))
  {
    assert ("," + next)[1..] == next;
  }

  lemma {:induction false} ItemsRoundTrip(ascii: bool, items: seq<Json>, rest: string)
    requires items != []
    ensures ParseItems(Items(ascii, items) + rest) == Some((items, rest))
    decreases items, 0
  {
    var d := Dumps(ascii, items[0]);
    if |items| == 1 {
      assert Items(ascii, items) + rest == d + ("]" + rest);
      RoundTrip(ascii, items[0], "]" + rest);
      LastItem(d, items[0], rest);
      assert items == [items[0]];
    } else {
      var next := Items(ascii, items[1..]) + rest;
      assert Items(ascii, items) + rest == d + ("," + next);
      RoundTrip(ascii, items[0], "," + next);
      ItemsRoundTrip(ascii, items[1..], rest);
      OneMoreItem(d, items[0], next, items[1..], rest);
      assert items == [items[0]] + items[1..];
    }
  }

  function Restrict(fields: map<string, Json>, keys: seq<string>): map<string, Json> {
    map k | k in keys && k in fields :: fields[k]
  }

  lemma {:induction false} MembersRoundTrip(ascii: bool, v: Json, keys: seq<string>, rest: string)
    requires v.Obj? && keys != [] && Distinct(keys) && forall k | k in keys :: k in v.fields
    ensures ParseMembers(Members(ascii, v, keys) + rest) == Some((Restrict(v.fields, keys), rest))
    decreases v, 0, |keys|
  {
    var k := keys[0];
    var x := v.fields[k];
    if |keys| == 1 {
      RoundTrip(ascii, x, "}" + rest);
      LastMember(ascii, k, x, Dumps(ascii, x), rest);
      assert Members(ascii, v, keys) == Quote(ascii, k) + (":" + (Dumps(ascii, x) + "}"));
      assert keys == [k];
      assert Restrict(v.fields, keys) == map[k := x];
    } else {
      var tail := Members(ascii, v, keys[1..]);
      RoundTrip(ascii, x, "," + (tail + rest));
      MembersRoundTrip(ascii, v, keys[1..], rest);
      OneMoreMember(ascii, k, x, Dumps(ascii, x), tail, rest, Restrict(v.fields, keys[1..]));
      assert Members(ascii, v, keys) == Quote(ascii, k) + (":" + (Dumps(ascii, x) + ("," + tail)));
      RestrictStep(v.fields, keys);
    }
  }

  lemma RestrictStep(fields: map<string, Json>, keys: seq<string>)
    requires keys != [] && Distinct(keys) && forall k | k in keys :: k in fields
    ensures Restrict(fields, keys) == map[keys[0] := fields[keys[0]]] + Restrict(fields, keys[1..])
  {
  }

  lemma KeyAndColon(ascii: bool, k: string, after: string)
    ensures var t := Quote(ascii, k) + (":" + after);
      && t != "" && t[0] == '"' && ParseString(t[1..]) == Some((k, ":" + after))
      && (":" + after)[1..] == after
  {
    QuoteInverse(ascii, k, ":" + after);
  }

  lemma Regroup(q: string, colon: string, d: string, end: string, rest: string)
    ensures q + (colon + (d + end)) + rest == q + (colon + (d + (end + rest)))
  {
    assert (d + end) + rest == d + (end + rest);
    assert (colon + (d + end)) + rest == colon + ((d + end) + rest);
    assert q + (colon + (d + end)) + rest == q + ((colon + (d + end)) + rest);
  }

  lemma LastMember(ascii: bool, k: string, x: Json, d: string, rest: string)
    requires Parse(d + ("}" + rest)) == Some((x, "}" + rest))
    ensures ParseMembers(Quote(ascii, k) + (":" + (d + "}")) + rest) == Some((map[k := x], rest))
  {
    var after := d + ("}" + rest);
    Regroup(Quote(ascii, k), ":", d, "}", rest);
    KeyAndColon(ascii, k, after);
    BraceEnds(ascii, k, x, after, rest);
  }

  lemma BraceEnds(ascii: bool, k: string, x: Json, after: string, rest: string)
    requires var t := Quote(ascii, k) + (":" + after);
      && t != "" && t[0] == '"' && ParseString(t[1..]) == Some((k, ":" + after))
      && (":" + after)[1..] == after
    requires Parse(after) == Some((x, "}" + rest))
    ensures ParseMembers(Quote(ascii, k) + (":" + after)) == Some((map[k := x], rest))
  {
  }

  lemma RegroupMember(q: string, d: string, tail: string, rest: string)
    ensures q + (":" + (d + ("," + tail))) + rest == q + (":" + (d + ("," + (tail + rest))))
  {
    Regroup(q, ":", d, "," + tail, rest);
    assert ("," + tail) + rest == "," + (tail + rest);
  }

  lemma OneMoreMember(ascii: bool, k: string, x: Json, d: string, tail: string, rest: string,
      others: map<string, Json>)
    requires Parse(d + ("," + (tail + rest))) == Some((x, "," + (tail + rest)))
    requires ParseMembers(tail + rest) == Some((others, rest))
    ensures ParseMembers(Quote(ascii, k) + (":" + (d + ("," + tail))) + rest) == Some((map[k := x] + others, rest))
  {
    var after := d + ("," + (tail + rest));
    RegroupMember(Quote(ascii, k), d, tail, rest);
    KeyAndColon(ascii, k, after);
    CommaThenMembers(ascii, k, x, after, tail + rest, rest, others);
  }

  lemma CommaThenMembers(ascii: bool, k: string, x: Json, after: string, next: string, rest: string,
      others: map<string, Json>)
    requires var t := Quote(ascii, k) + (":" + after);
      && t != "" && t[0] == '"' && ParseString(t[1..]) == Some((k, ":" + after))
      && (":" + after)[1..] == after
    requires Parse(after) == Some((x, "," + next))
    requires ParseMembers(next) == Some((others, rest))
    ensures ParseMembers(Quote(ascii, k) + (":" + after)) == Some((map[k := x] + others, rest))
  {
  }

  /** The text determines the value. */
  lemma DumpsInjective(ascii: bool, v: Json, w: Json)
    requires Dumps(ascii, v) == Dumps(ascii, w)
    ensures v == w
  {
    RoundTrip(ascii, v, "");
    RoundTrip(ascii, w, "");
    assert Dumps(ascii, v) + "" == Dumps(ascii, w) + "";
  }

  // ----- the form of the text

  ghost predicate Printable(t: string) {
    forall c | c in t :: ' ' <= c <= '~'
  }

  /** The characters that have an escape of two characters. */
  ghost predicate HasShortEscape(c: char) {
    c == '"' || c == '\\' || c == '\n' || c == '\r' || c == '\t' || c as int == 8 || c as int == 12
  }

  ghost predicate StandsForItself(ascii: bool, c: char) {
    ' ' <= c && c != '"' && c != '\\' && (ascii ==> c <= '~')
  }

  lemma UnitPrintable(unit: nat)
    requires unit < 0x10000
    ensures Printable(UnitEscape(unit)) && |UnitEscape(unit)| == 6
    ensures forall x | x in UnitEscape(unit) :: !('A' <= x <= 'Z')
  {
    var a, b, c, d := unit / 16 / 16 / 16, unit / 16 / 16 % 16, unit / 16 % 16, unit % 16;
    forall n: nat | n < 16 ensures '0' <= HexDigit(n) <= '9' || 'a' <= HexDigit(n) <= 'f' {
    }
    assert UnitEscape(unit) == ['\\', 'u', HexDigit(a), HexDigit(b), HexDigit(c), HexDigit(d)];
  }

  /** Each character is printed in its shortest form: by itself, by an escape of two characters, or by one
    or two code units in lower-case digits. */
  lemma EscapeExact(ascii: bool, c: char)
    ensures var e := Escape(ascii, c);
      && (StandsForItself(ascii, c) ==> e == [c])
      && (!StandsForItself(ascii, c) ==>
        && Printable(e) && (forall x | x in e :: !('A' <= x <= 'Z'))
        && |e| == if HasShortEscape(c) then 2 else if c as int < 0x10000 then 6 else 12)
  {
    if c as int < 0x10000 {
      UnitPrintable(c as int);
    } else {
      UnitPrintable(0xd800 + (c as int - 0x10000) / 1024);
      UnitPrintable(0xdc00 + (c as int - 0x10000) % 1024);
    }
  }

  lemma {:induction false} EscapeAllPrintable(s: string)
    ensures Printable(EscapeAll(true, s))
  {
    if s != "" {
      EscapeExact(true, s[0]);
      EscapeAllPrintable(s[1..]);
    }
  }

  lemma {:induction false} DigitsPrintable(n: nat)
    ensures Printable(Digits(n))
  {
    if n >= 10 {
      DigitsPrintable(n / 10);
    }
  }

  /** With `ensure_ascii` the text is printable ASCII throughout. */
  lemma {:induction false} DumpsPrintable(v: Json)
    ensures Printable(Dumps(true, v))
    decreases v, 1
  {
    match v
    case Null =>
    case Bool(_) =>
    case Num(n) =>
      DigitsPrintable(if n < 0 then -n else n);
    case Str(s) => EscapeAllPrintable(s);
    case Arr(items) =>
      if items != [] {
        ItemsPrintable(items);
      }
    case Obj(fields) =>
      if fields != map[] {
        KeysOf(fields);
        MembersPrintable(v, Sorted(fields.Keys));
      }
  }

  lemma {:induction false} ItemsPrintable(items: seq<Json>)
    requires items != []
    ensures Printable(Items(true, items))
    decreases items, 0
  {
    DumpsPrintable(items[0]);
    if |items| > 1 {
      ItemsPrintable(items[1..]);
    }
  }

  lemma {:induction false} MembersPrintable(v: Json, keys: seq<string>)
    requires v.Obj? && keys != [] && forall k | k in keys :: k in v.fields
    ensures Printable(Members(true, v, keys))
    decreases v, 0, |keys|
  {
    EscapeAllPrintable(keys[0]);
    DumpsPrintable(v.fields[keys[0]]);
    if |keys| > 1 {
      MembersPrintable(v, keys[1..]);
    }
  }

  lemma CanonicalText(v: Json)
    ensures Printable(Dumps(true, v)) && Parse(Dumps(true, v)) == Some((v, ""))
  {
    DumpsPrintable(v);
    RoundTrip(true, v, "");
    assert Dumps(true, v) + "" == Dumps(true, v);
  }
}
