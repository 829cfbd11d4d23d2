/**
 * JSON text (RFC 8259) as `JSON.stringify` writes it and `JSON.parse` reads
 * it, restricted to integer numbers. The central fact is the round trip:
 * parsing the text of a value gives back the value, up to what JSON cannot
 * carry (undefined becomes null inside arrays and disappears from objects,
 * a Date becomes its ISO text).
 */
module Json {
  import opened Wrappers
  import opened Values
  import opened Decimal
  import Dates

  // ----- writing: JSON.stringify -------------------------------------------

  function HexDigit(d: nat): char
    requires d < 16
  {
    "0123456789abcdef"[d]
  }

  predicate IsHex(c: char) {
    '0' <= c <= '9' || 'a' <= c <= 'f' || 'A' <= c <= 'F'
  }

  function HexVal(c: char): (d: nat)
    requires IsHex(c)
    ensures d < 16
  {
    if c <= '9' then c as int - '0' as int
    else if c <= 'F' then c as int - 'A' as int + 10
    else c as int - 'a' as int + 10
  }

  /** The escape JSON.stringify writes for one character of a string. */
  function Escape(c: char): string {
    if c == '"' then "\\\""
    else if c == '\\' then "\\\\"
    else if c == '\U{8}' then "\\b"
    else if c == '\U{C}' then "\\f"
    else if c == '\n' then "\\n"
    else if c == '\r' then "\\r"
    else if c == '\t' then "\\t"
    else if c < ' ' then "\\u00" + [HexDigit(c as int / 16), HexDigit(c as int % 16)]
    else [c]
  }

  function Escaped(s: string): string {
    if s == [] then [] else Escape(s[0]) + Escaped(s[1..])
  }

  function Quote(s: string): string {
    "\"" + Escaped(s) + "\""
  }

  /**
   * The JSON text of a value. Undefined is only met inside an array, where it
   * is written as null; an invalid Date's `toJSON` is null.
   */
  function Text(v: Value): string
    decreases v
  {
    match v
    case Undefined => "null"
    case Null => "null"
    case Bool(b) => if b then "true" else "false"
    case Num(n) => IntText(n)
    case Str(s) => Quote(s)
    case Date(t) => if t.Valid? then Quote(Dates.IsoString(t.ms)) else "null"
    case Arr(xs) => "[" + ItemsText(xs) + "]"
    case Obj(ps) => "{" + PropsText(ps) + "}"
  }

  /** Array elements separated by commas. */
  function ItemsText(xs: seq<Value>): string
    decreases xs
  {
    if xs == [] then ""
    else Text(xs[0]) + (if |xs| == 1 then "" else "," + ItemsText(xs[1..]))
  }

  /** Object members separated by commas; a property holding undefined is skipped. */
  function PropsText(ps: seq<Prop>): string
    decreases ps
  {
    if ps == [] then ""
    else
      var tail := PropsText(ps[1..]);
      if ps[0].val.Undefined? then tail
      else Quote(ps[0].key) + ":" + Text(ps[0].val) + (if tail == "" then "" else "," + tail)
  }

  /** `JSON.stringify(v)`: undefined has no text and stays undefined. */
  function Stringify(v: Value): (r: Value)
    ensures r.Undefined? <==> v.Undefined?
  {
    if v.Undefined? then Undefined else Str(Text(v))
  }

  // ----- reading: JSON.parse -----------------------------------------------

  predicate IsWs(c: char) {
    c == ' ' || c == '\t' || c == '\n' || c == '\r'
  }

  function SkipWs(s: string): (r: string)
    ensures |r| <= |s|
  {
    if s != [] && IsWs(s[0]) then SkipWs(s[1..]) else s
  }

  /** The UTF-16 code unit of a `uXXXX` escape at the start of `s`. */
  function CodeUnit(s: string): (r: Option<nat>)
    ensures r.Some? ==> |s| >= 5 && r.value < 0x10000
  {
    if |s| >= 5 && s[0] == 'u' && IsHex(s[1]) && IsHex(s[2]) && IsHex(s[3]) && IsHex(s[4]) then
      Some(HexVal(s[1]) * 4096 + HexVal(s[2]) * 256 + HexVal(s[3]) * 16 + HexVal(s[4]))
    else None
  }

  /**
   * The character a `uXXXX` escape stands for. A high surrogate escape
   * followed by a backslash and a low surrogate escape is one character
   * above U+FFFF; a surrogate escape on its own has no character.
   */
  function UnitEscape(s: string): (r: Option<(char, string)>)
    ensures r.Some? ==> |r.value.1| < |s|
  {
    match CodeUnit(s)
    case None => None
    case Some(code) =>
      if code < 0xD800 || 0xE000 <= code then Some((code as char, s[5..]))
      else if code < 0xDC00 && |s| >= 6 && s[5] == '\\' then
        match CodeUnit(s[6..])
        case None => None
        case Some(low) =>
          if 0xDC00 <= low < 0xE000 then Some(((0x10000 + (code - 0xD800) * 0x400 + (low - 0xDC00)) as char, s[11..]))
          else None
      else None
  }

  /** The character an escape stands for; `s` follows the backslash. */
  function Unescape(s: string): (r: Option<(char, string)>)
    ensures r.Some? ==> |r.value.1| < |s|
  {
    if s == [] then None
    else if s[0] == '"' || s[0] == '\\' || s[0] == '/' then Some((s[0], s[1..]))
    else if s[0] == 'b' then Some(('\U{8}', s[1..]))
    else if s[0] == 'f' then Some(('\U{C}', s[1..]))
    else if s[0] == 'n' then Some(('\n', s[1..]))
    else if s[0] == 'r' then Some(('\r', s[1..]))
    else if s[0] == 't' then Some(('\t', s[1..]))
    else UnitEscape(s)
  }

  /** The characters of a string literal up to its closing quote; `s` follows the opening quote. */
  function ParseChars(s: string): (r: Option<(string, string)>)
    ensures r.Some? ==> |r.value.1| < |s|
  {
    if s == [] then None
    else if s[0] == '"' then Some(([], s[1..]))
    else if s[0] == '\\' then
      match Unescape(s[1..])
      case None => None
      case Some((c, rest)) =>
        match ParseChars(rest)
        case None => None
        case Some((t, rest')) => Some(([c] + t, rest'))
    else if s[0] < ' ' then None
    else
      match ParseChars(s[1..])
      case None => None
      case Some((t, rest)) => Some(([s[0]] + t, rest))
  }

  /** A run of digits without a superfluous leading zero, not followed by a fraction or an exponent. */
  function ParseDigits(u: string): (r: Option<(nat, string)>)
    ensures r.Some? ==> |r.value.1| < |u|
  {
    if u == [] || !IsDigit(u[0]) then None
    else
      var k := if u[0] == '0' then 1 else DigitRun(u);
      var rest := u[k..];
      if rest != [] && (rest[0] == '.' || rest[0] == 'e' || rest[0] == 'E') then None
      else Some((DigitsValue(u[..k]), rest))
  }

  /** An integer; a fraction or an exponent is refused, since only integers are modelled. */
  function ParseNumber(s: string): (r: Option<(Value, string)>)
    ensures r.Some? ==> |r.value.1| < |s|
  {
    if s != [] && s[0] == '-' then
      match ParseDigits(s[1..])
      case None => None
      case Some((n, rest)) => Some((Num(0 - n), rest))
    else
      match ParseDigits(s)
      case None => None
      case Some((n, rest)) => Some((Num(n), rest))
  }

  /** One of the literals null, true and false. */
  function ParseLiteral(t: string): (r: Option<(Value, string)>)
    ensures r.Some? ==> |r.value.1| < |t|
  {
    if |t| >= 4 && t[..4] == "null" then Some((Null, t[4..]))
    else if |t| >= 4 && t[..4] == "true" then Some((Bool(true), t[4..]))
    else if |t| >= 5 && t[..5] == "false" then Some((Bool(false), t[5..]))
    else None
  }

  /** A string value; `s` follows the opening quote. */
  function ParseString(s: string): (r: Option<(Value, string)>)
    ensures r.Some? ==> |r.value.1| < |s|
  {
    match ParseChars(s)
    case None => None
    case Some((str, rest)) => Some((Str(str), rest))
  }

  /** One JSON value after optional whitespace, and the text that follows it. */
  function ParseValue(s: string): (r: Option<(Value, string)>)
    ensures r.Some? ==> |r.value.1| < |s|
    decreases |s|, 0
  {
    var t := SkipWs(s);
    if t == [] then None
    else if t[0] == '[' then ParseArray(t[1..])
    else if t[0] == '{' then ParseObject(t[1..])
    else if t[0] == '"' then ParseString(t[1..])
    else if t[0] == '-' || IsDigit(t[0]) then ParseNumber(t)
    else ParseLiteral(t)
  }

  /** An array; `s` follows the opening bracket. */
  function ParseArray(s: string): (r: Option<(Value, string)>)
    ensures r.Some? ==> |r.value.1| < |s|
    decreases |s|, 2
  {
    var u := SkipWs(s);
    if u != [] && u[0] == ']' then Some((Arr([]), u[1..])) else ParseElements(u, [])
  }

  /** The elements of an array after those in `acc`, up to and including the closing bracket. */
  function ParseElements(s: string, acc: seq<Value>): (r: Option<(Value, string)>)
    ensures r.Some? ==> |r.value.1| < |s|
    decreases |s|, 1
  {
    match ParseValue(s)
    case None => None
    case Some((v, rest)) => ParseMoreElements(SkipWs(rest), acc + [v])
  }

  /** After an element: a comma and more elements, or the closing bracket. */
  function ParseMoreElements(u: string, acc: seq<Value>): (r: Option<(Value, string)>)
    ensures r.Some? ==> |r.value.1| < |u|
    decreases |u|, 1
  {
    if u == [] then None
    else if u[0] == ',' then ParseElements(u[1..], acc)
    else if u[0] == ']' then Some((Arr(acc), u[1..]))
    else None
  }

  /** An object; `s` follows the opening brace. */
  function ParseObject(s: string): (r: Option<(Value, string)>)
    ensures r.Some? ==> |r.value.1| < |s|
    decreases |s|, 2
  {
    var u := SkipWs(s);
    if u != [] && u[0] == '}' then Some((Obj([]), u[1..])) else ParseMembers(u, [])
  }

  /** One member: a key, a colon and a value. */
  function ParseMember(s: string): (r: Option<(string, Value, string)>)
    ensures r.Some? ==> |r.value.2| < |s|
    decreases |s|, 0
  {
    if s == [] || s[0] != '"' then None
    else
      match ParseChars(s[1..])
      case None => None
      case Some((k, rest)) =>
        var u := SkipWs(rest);
        if u == [] || u[0] != ':' then None
        else
          match ParseValue(u[1..])
          case None => None
          case Some((v, rest')) => Some((k, v, rest'))
  }

  /** The members of an object after those in `acc`, up to and including the closing brace. */
  function ParseMembers(s: string, acc: seq<Prop>): (r: Option<(Value, string)>)
    ensures r.Some? ==> |r.value.1| < |s|
    decreases |s|, 1
  {
    match ParseMember(s)
    case None => None
    case Some((k, v, rest)) => ParseMoreMembers(SkipWs(rest), Put(acc, k, v))
  }

  /** After a member: a comma and more members, or the closing brace. */
  function ParseMoreMembers(u: string, acc: seq<Prop>): (r: Option<(Value, string)>)
    ensures r.Some? ==> |r.value.1| < |u|
    decreases |u|, 1
  {
    if u == [] then None
    else if u[0] == ',' then ParseMembers(SkipWs(u[1..]), acc)
    else if u[0] == '}' then Some((Obj(acc), u[1..]))
    else None
  }

  /** Setting a property: an existing key keeps its place and takes the new value, a new key goes last. */
  function Put(ps: seq<Prop>, k: string, v: Value): seq<Prop> {
    if ps == [] then [Prop(k, v)]
    else if ps[0].key == k then [Prop(k, v)] + ps[1..]
    else [ps[0]] + Put(ps[1..], k, v)
  }

  /** `JSON.parse(s)`: one value surrounded by optional whitespace; None is a SyntaxError. */
  function Parse(s: string): (r: Option<Value>)
    ensures r.Some? ==> Plain(r.value)
  {
    ValuePlain(s);
    match ParseValue(s)
    case None => None
    case Some((v, rest)) => if SkipWs(rest) == [] then Some(v) else None
  }

  /**
   * `JSON.parse(x)` for any value: `x` is first turned into text. A Date's
   * text starts with a capitalised day name or reads "Invalid Date", never
   * JSON; an array's text (its elements joined) is not modelled and is
   * treated as unparseable.
   */
  function ParseAny(x: Value): (r: Option<Value>)
    ensures x.Null? || x.Bool? || x.Num? ==> r == Some(x)
    ensures x.Undefined? || x.Obj? || x.Date? || x.Arr? ==> r.None?
  {
    match x
    case Str(s) => Parse(s)
    case Undefined => UndefinedText(); Parse("undefined")
    case Null => LiteralText(x); Parse("null")
    case Bool(b) => LiteralText(x); Parse(if b then "true" else "false")
    case Num(n) => NumberText(n); Parse(IntText(n))
    case Obj(_) => ObjectText(); Parse("[object Object]")
    case Date(_) => None
    case Arr(_) => None
  }

  // ----- what survives a round trip ----------------------------------------

  /** `JSON.parse(JSON.stringify(v))` as a value. */
  function Image(v: Value): Value
    decreases v
  {
    match v
    case Undefined => Null
    case Date(t) => if t.Valid? then Str(Dates.IsoString(t.ms)) else Null
    case Arr(xs) => Arr(ImageItems(xs))
    case Obj(ps) => Obj(ImageProps(ps))
    case _ => v
  }

  function ImageItems(xs: seq<Value>): seq<Value>
    decreases xs
  {
    if xs == [] then [] else [Image(xs[0])] + ImageItems(xs[1..])
  }

  function ImageProps(ps: seq<Prop>): seq<Prop>
    decreases ps
  {
    if ps == [] then []
    else if ps[0].val.Undefined? then ImageProps(ps[1..])
    else [Prop(ps[0].key, Image(ps[0].val))] + ImageProps(ps[1..])
  }

  predicate DistinctKeys(ps: seq<Prop>) {
    forall i, j :: 0 <= i < j < |ps| ==> ps[i].key != ps[j].key
  }

  /** Every object inside `v` has distinct keys, as a JavaScript object does. */
  predicate WellFormed(v: Value)
    decreases v
  {
    match v
    case Arr(xs) => forall i :: 0 <= i < |xs| ==> WellFormed(xs[i])
    case Obj(ps) => DistinctKeys(ps) && forall i :: 0 <= i < |ps| ==> WellFormed(ps[i].val)
    case _ => true
  }

  /** No undefined and no Date anywhere inside `v`: the values JSON carries exactly. */
  predicate Plain(v: Value)
    decreases v
  {
    match v
    case Undefined => false
    case Date(_) => false
    case Arr(xs) => forall i :: 0 <= i < |xs| ==> Plain(xs[i])
    case Obj(ps) => forall i :: 0 <= i < |ps| ==> Plain(ps[i].val)
    case _ => true
  }

  /** What may follow a value's text inside a larger text. */
  predicate Delimited(rest: string) {
    rest == [] || rest[0] == ',' || rest[0] == ']' || rest[0] == '}'
  }

  // ----- lemmas ------------------------------------------------------------

  lemma {:induction false} HexRoundTrip(d: nat)
    requires d < 16
    ensures IsHex(HexDigit(d)) && HexVal(HexDigit(d)) == d
  {
  }

  /** A backslash, then an escape that `Unescape` reads as `c`, then the rest of the literal. */
  lemma {:induction false} BackslashStep(e: string, tail: string, c: char)
    requires Unescape(e + tail) == Some((c, tail))
    ensures ParseChars("\\" + e + tail) ==
      match ParseChars(tail)
      case None => None
      case Some((t, r)) => Some(([c] + t, r))
  {
    assert ("\\" + e + tail)[1..] == e + tail;
  }

  /** The escape of a control character other than the short forms. */
  lemma {:induction false} UnicodeEscape(c: char, tail: string)
    requires c < ' ' && c != '\U{8}' && c != '\U{C}' && c != '\n' && c != '\r' && c != '\t'
    ensures Escape(c) == "\\" + ['u', '0', '0', HexDigit(c as int / 16), HexDigit(c as int % 16)]
    ensures Unescape(['u', '0', '0', HexDigit(c as int / 16), HexDigit(c as int % 16)] + tail) == Some((c, tail))
  {
    var h1, h2 := c as int / 16, c as int % 16;
    HexRoundTrip(h1);
    HexRoundTrip(h2);
    assert h1 * 16 + h2 == c as int;
    SmallUnicodeEscape(HexDigit(h1), HexDigit(h2), tail);
  }

  /** `\u00` and two hex digits read as the character with that code. */
  lemma SmallUnicodeEscape(a: char, b: char, tail: string)
    requires IsHex(a) && IsHex(b)
    ensures Unescape(['u', '0', '0', a, b] + tail) == Some(((HexVal(a) * 16 + HexVal(b)) as char, tail))
  {
    HexRoundTrip(0);
    assert HexDigit(0) == '0';
    var e := ['u', '0', '0', a, b] + tail;
    assert e[1] == '0' && e[2] == '0' && e[3] == a && e[4] == b;
    assert e[5..] == tail;
  }

  /** The four hex digits of a UTF-16 code unit. */
  function Hex4(n: nat): (r: string)
    requires n < 0x10000
    ensures |r| == 4 && IsHex(r[0]) && IsHex(r[1]) && IsHex(r[2]) && IsHex(r[3])
  {
    HexRoundTrip(n / 4096);
    HexRoundTrip(n / 256 % 16);
    HexRoundTrip(n / 16 % 16);
    HexRoundTrip(n % 16);
    [HexDigit(n / 4096), HexDigit(n / 256 % 16), HexDigit(n / 16 % 16), HexDigit(n % 16)]
  }

  /** A `uXXXX` escape reads as the code unit its four hex digits spell. */
  lemma CodeUnitDigits(w: char, x: char, y: char, z: char, tail: string)
    requires IsHex(w) && IsHex(x) && IsHex(y) && IsHex(z)
    ensures CodeUnit(['u', w, x, y, z] + tail) == Some(HexVal(w) * 4096 + HexVal(x) * 256 + HexVal(y) * 16 + HexVal(z))
  {
    var e := ['u', w, x, y, z] + tail;
    assert e[0] == 'u' && e[1] == w && e[2] == x && e[3] == y && e[4] == z;
  }

  /** A code unit is the sum of its four hex digits' weights. */
  lemma HexWeights(n: nat)
    requires n < 0x10000
    ensures n == n / 4096 * 4096 + n / 256 % 16 * 256 + n / 16 % 16 * 16 + n % 16
  {
    assert n / 16 == n / 256 * 16 + n / 16 % 16;
    assert n / 256 == n / 4096 * 16 + n / 256 % 16;
  }

  /** A `uXXXX` escape reads as the code unit whose hex digits it holds. */
  lemma CodeUnitOf(n: nat, tail: string)
    requires n < 0x10000
    ensures CodeUnit(['u'] + Hex4(n) + tail) == Some(n)
  {
    var a, b, c, d := n / 4096, n / 256 % 16, n / 16 % 16, n % 16;
    HexRoundTrip(a);
    HexRoundTrip(b);
    HexRoundTrip(c);
    HexRoundTrip(d);
    HexWeights(n);
    assert ['u'] + Hex4(n) + tail == ['u', HexDigit(a), HexDigit(b), HexDigit(c), HexDigit(d)] + tail;
    CodeUnitDigits(HexDigit(a), HexDigit(b), HexDigit(c), HexDigit(d), tail);
  }

  /** A high surrogate escape, a backslash, then a low surrogate escape. */
  function PairText(hi: nat, lo: nat): string
    requires hi < 0x10000 && lo < 0x10000
  {
    ['u'] + Hex4(hi) + ['\\', 'u'] + Hex4(lo)
  }

  /**
   * The pair of `uXXXX` escapes (high surrogate, backslash, low surrogate)
   * that stands for a character above U+FFFF in UTF-16 JSON text.
   */
  function PairEscape(c: char): (r: string)
    requires c as int >= 0x10000
    ensures |r| == 11 && r[0] == 'u' && r[5] == '\\' && r[6] == 'u'
  {
    PairText(HighSurrogate(c), LowSurrogate(c))
  }

  /** The high (leading) surrogate of a character above U+FFFF. */
  function HighSurrogate(c: char): (hi: nat)
    requires c as int >= 0x10000
    ensures 0xD800 <= hi < 0xDC00
  {
    0xD800 + (c as int - 0x10000) / 0x400
  }

  /** The low (trailing) surrogate of a character above U+FFFF. */
  function LowSurrogate(c: char): (lo: nat)
    requires c as int >= 0x10000
    ensures 0xDC00 <= lo < 0xE000
  {
    0xDC00 + (c as int - 0x10000) % 0x400
  }

  /** What `Unescape` makes of a high and a low surrogate escape. */
  lemma PairStep(s: string, hi: nat, lo: nat)
    requires 0xD800 <= hi < 0xDC00 && 0xDC00 <= lo < 0xE000
    requires CodeUnit(s) == Some(hi) && |s| >= 6 && s[5] == '\\' && CodeUnit(s[6..]) == Some(lo)
    ensures Unescape(s) == Some(((0x10000 + (hi - 0xD800) * 0x400 + (lo - 0xDC00)) as char, s[11..]))
  {
  }

  /** A high surrogate escape, a backslash and a low surrogate escape read as one character. */
  lemma PairUnescape(hi: nat, lo: nat, tail: string)
    requires 0xD800 <= hi < 0xDC00 && 0xDC00 <= lo < 0xE000
    ensures Unescape(PairText(hi, lo) + tail) ==
      Some(((0x10000 + (hi - 0xD800) * 0x400 + (lo - 0xDC00)) as char, tail))
  {
    var lowText := ['u'] + Hex4(lo) + tail;
    var s := PairText(hi, lo) + tail;
    assert s == ['u'] + Hex4(hi) + (['\\'] + lowText);
    CodeUnitOf(hi, ['\\'] + lowText);
    CodeUnitOf(lo, tail);
    assert s[6..] == lowText;
    assert s[11..] == tail;
    PairStep(s, hi, lo);
  }

  /** The surrogate pair of a character above U+FFFF spells that character again. */
  lemma SurrogateSplit(c: char)
    requires c as int >= 0x10000
    ensures (0x10000 + (HighSurrogate(c) - 0xD800) * 0x400 + (LowSurrogate(c) - 0xDC00)) as char == c
  {
    var u := c as int - 0x10000;
    assert u == u / 0x400 * 0x400 + u % 0x400;
  }

  /** A surrogate pair escape reads back as the one character it encodes. */
  lemma {:induction false} PairRoundTrip(c: char, tail: string)
    requires c as int >= 0x10000
    ensures Unescape(PairEscape(c) + tail) == Some((c, tail))
    ensures ParseChars("\\" + PairEscape(c) + tail) ==
      match ParseChars(tail)
      case None => None
      case Some((t, r)) => Some(([c] + t, r))
  {
    SurrogateSplit(c);
    PairUnescape(HighSurrogate(c), LowSurrogate(c), tail);
    BackslashStep(PairEscape(c), tail, c);
  }


  /** The two-character escapes. */
  lemma {:induction false} ShortEscape(c: char, tail: string)
    requires c == '"' || c == '\\' || c == '\U{8}' || c == '\U{C}' || c == '\n' || c == '\r' || c == '\t'
    ensures |Escape(c)| == 2 && Escape(c)[0] == '\\'
    ensures Unescape([Escape(c)[1]] + tail) == Some((c, tail))
  {
    assert ([Escape(c)[1]] + tail)[1..] == tail;
  }

  /** One escaped character reads back as that character, followed by the rest of the literal. */
  lemma {:induction false} EscapeRoundTrip(c: char, tail: string)
    ensures ParseChars(Escape(c) + tail) ==
      match ParseChars(tail)
      case None => None
      case Some((t, r)) => Some(([c] + t, r))
  {
    if c == '"' || c == '\\' || c == '\U{8}' || c == '\U{C}' || c == '\n' || c == '\r' || c == '\t' {
      ShortEscape(c, tail);
      var e := [Escape(c)[1]];
      assert Escape(c) == "\\" + e;
      BackslashStep(e, tail, c);
    } else if c < ' ' {
      UnicodeEscape(c, tail);
      BackslashStep(['u', '0', '0', HexDigit(c as int / 16), HexDigit(c as int % 16)], tail, c);
    } else {
      assert Escape(c) == [c];
      assert ([c] + tail)[1..] == tail;
    }
  }

  /** A string's escaped characters read back as the string. */
  lemma {:induction false} EscapedRoundTrip(s: string, rest: string)
    ensures ParseChars(Escaped(s) + "\"" + rest) == Some((s, rest))
  {
    if s == [] {
      assert Escaped(s) + "\"" + rest == "\"" + rest;
    } else {
      var tail := Escaped(s[1..]) + "\"" + rest;
      assert Escaped(s) + "\"" + rest == Escape(s[0]) + tail;
      EscapedRoundTrip(s[1..], rest);
      EscapeRoundTrip(s[0], tail);
      assert [s[0]] + s[1..] == s;
    }
  }

  /** A natural number's digits read back as the number. */
  lemma {:induction false} DigitsRoundTrip(m: nat, rest: string)
    requires Delimited(rest)
    ensures ParseDigits(NatText(m) + rest) == Some((m, rest))
  {
    NatTextShape(m);
    NatTextValue(m);
    DigitRunOfNatText(m, rest);
    var u := NatText(m) + rest;
    var k := if u[0] == '0' then 1 else DigitRun(u);
    assert k == |NatText(m)|;
    assert u[..k] == NatText(m);
    assert u[k..] == rest;
  }

  /** An integer's text reads back as the integer. */
  lemma {:induction false} NumberRoundTrip(n: int, rest: string)
    requires Delimited(rest)
    ensures ParseNumber(IntText(n) + rest) == Some((Num(n), rest))
  {
    var m: nat := if n < 0 then -n else n;
    DigitsRoundTrip(m, rest);
    IntTextShape(n, rest);
  }

  /** An integer's text: a minus sign before the digits exactly when it is negative. */
  lemma IntTextShape(n: int, rest: string)
    ensures n < 0 ==> (IntText(n) + rest)[0] == '-' && (IntText(n) + rest)[1..] == NatText(-n) + rest
    ensures n >= 0 ==> IntText(n) + rest == NatText(n) + rest && (NatText(n) + rest)[0] != '-'
  {
    if n < 0 {
      assert IntText(n) + rest == "-" + (NatText(-n) + rest);
    } else {
      NatTextShape(n);
    }
  }

  /** Every value's text starts with the character that selects its case in `ParseValue`. */
  lemma {:induction false} TextStart(v: Value)
    ensures |Text(v)| > 0
    ensures var c := Text(v)[0];
      c == 'n' || c == 't' || c == 'f' || c == '"' || c == '[' || c == '{' || c == '-' || IsDigit(c)
  {
    match v
    case Num(n) =>
      var m: nat := if n < 0 then -n else n;
      NatTextShape(m);
    case _ =>
  }

  /** A non-empty member list starts with the opening quote of its first key. */
  lemma {:induction false} PropsTextStart(ps: seq<Prop>)
    ensures PropsText(ps) == "" <==> ImageProps(ps) == []
    ensures PropsText(ps) != "" ==> PropsText(ps)[0] == '"'
  {
    if ps != [] {
      PropsTextStart(ps[1..]);
    }
  }

  lemma {:induction false} PutNewKey(ps: seq<Prop>, k: string, v: Value)
    requires forall j :: 0 <= j < |ps| ==> ps[j].key != k
    ensures Put(ps, k, v) == ps + [Prop(k, v)]
  {
    if ps != [] {
      PutNewKey(ps[1..], k, v);
    }
  }

  /** A literal's text parses as the literal. */
  lemma {:induction false} LiteralRoundTrip(v: Value, rest: string)
    requires v.Undefined? || v.Null? || v.Bool? || (v.Date? && v.time.Invalid?)
    ensures ParseValue(Text(v) + rest) == Some((Image(v), rest))
  {
    var t := Text(v) + rest;
    assert SkipWs(t) == t;
    if v.Bool? && v.b {
      assert t[..4] == "true" && t[4..] == rest;
    } else if v.Bool? {
      assert t[..4] != "null" && t[..4] != "true";
      assert t[..5] == "false" && t[5..] == rest;
    } else {
      assert t[..4] == "null" && t[4..] == rest;
    }
  }

  /** A quoted string parses as that string. */
  lemma {:induction false} QuoteRoundTrip(s: string, rest: string)
    ensures ParseValue(Quote(s) + rest) == Some((Str(s), rest))
  {
    var t := Quote(s) + rest;
    assert SkipWs(t) == t;
    assert t[1..] == Escaped(s) + "\"" + rest;
    EscapedRoundTrip(s, rest);
  }

  lemma {:induction false} NumberValueRoundTrip(n: int, rest: string)
    requires Delimited(rest)
    ensures ParseValue(IntText(n) + rest) == Some((Num(n), rest))
  {
    var t := IntText(n) + rest;
    TextStart(Num(n));
    assert SkipWs(t) == t;
    NumberRoundTrip(n, rest);
  }

  /** Parsing the text of a well-formed value gives its image and leaves what follows. */
  lemma {:induction false} ValueRoundTrip(v: Value, rest: string)
    requires WellFormed(v) && Delimited(rest)
    ensures ParseValue(Text(v) + rest) == Some((Image(v), rest))
    decreases v, 0
  {
    match v
    case Num(n) =>
      NumberValueRoundTrip(n, rest);
    case Str(s) =>
      QuoteRoundTrip(s, rest);
    case Date(time) =>
      if time.Valid? {
        QuoteRoundTrip(Dates.IsoString(time.ms), rest);
      } else {
        LiteralRoundTrip(v, rest);
      }
    case Arr(xs) =>
      ArrayRoundTrip(xs, rest);
    case Obj(ps) =>
      ObjectRoundTrip(ps, rest);
    case _ =>
      LiteralRoundTrip(v, rest);
  }

  lemma {:induction false} ArrayRoundTrip(xs: seq<Value>, rest: string)
    requires forall i :: 0 <= i < |xs| ==> WellFormed(xs[i])
    ensures ParseValue(Text(Arr(xs)) + rest) == Some((Arr(ImageItems(xs)), rest))
    decreases xs, 2
  {
    var t := Text(Arr(xs)) + rest;
    var u := ItemsText(xs) + "]" + rest;
    assert SkipWs(t) == t && t[1..] == u;
    if xs == [] {
      assert u == "]" + rest;
      assert SkipWs(u) == u;
    } else {
      TextStart(xs[0]);
      assert u[0] == Text(xs[0])[0];
      assert SkipWs(u) == u;
      ItemsRoundTrip(xs, [], rest);
      assert [] + ImageItems(xs) == ImageItems(xs);
    }
  }

  lemma {:induction false} ObjectRoundTrip(ps: seq<Prop>, rest: string)
    requires DistinctKeys(ps) && forall i :: 0 <= i < |ps| ==> WellFormed(ps[i].val)
    ensures ParseValue(Text(Obj(ps)) + rest) == Some((Obj(ImageProps(ps)), rest))
    decreases ps, 2
  {
    var t := Text(Obj(ps)) + rest;
    var u := PropsText(ps) + "}" + rest;
    assert SkipWs(t) == t && t[1..] == u;
    PropsTextStart(ps);
    if PropsText(ps) == "" {
      assert u == "}" + rest;
      assert SkipWs(u) == u;
    } else {
      assert SkipWs(u) == u;
      PropsRoundTrip(ps, [], rest);
      assert [] + ImageProps(ps) == ImageProps(ps);
    }
  }

  /** The last element: its text is followed by the closing bracket. */
  lemma {:induction false} LastElement(t: string, rest: string, acc: seq<Value>, v: Value)
    requires ParseValue(t + ("]" + rest)) == Some((v, "]" + rest))
    ensures ParseElements(t + "]" + rest, acc) == Some((Arr(acc + [v]), rest))
  {
    assert t + "]" + rest == t + ("]" + rest);
    assert SkipWs("]" + rest) == "]" + rest;
    assert ("]" + rest)[1..] == rest;
  }

  /** An element followed by a comma: parsing carries on after the comma. */
  lemma {:induction false} NextElement(t: string, more: string, acc: seq<Value>, v: Value)
    requires ParseValue(t + ("," + more)) == Some((v, "," + more))
    ensures ParseElements(t + ("," + more), acc) == ParseElements(more, acc + [v])
  {
    assert SkipWs("," + more) == "," + more;
    assert ("," + more)[1..] == more;
  }

  /** The text and image of a one-element list. */
  lemma {:induction false} ItemsSingle(xs: seq<Value>, rest: string)
    requires |xs| == 1
    ensures ItemsText(xs) + "]" + rest == Text(xs[0]) + "]" + rest
    ensures ImageItems(xs) == [Image(xs[0])]
  {
    assert ImageItems(xs[1..]) == [];
  }

  /** The text and image of a longer list, split after its first element. */
  lemma {:induction false} ItemsSplit(xs: seq<Value>, rest: string)
    requires |xs| > 1
    ensures ItemsText(xs) + "]" + rest == Text(xs[0]) + ("," + (ItemsText(xs[1..]) + "]" + rest))
    ensures ImageItems(xs) == [Image(xs[0])] + ImageItems(xs[1..])
  {
  }

  lemma {:induction false} ItemsRoundTrip(xs: seq<Value>, acc: seq<Value>, rest: string)
    requires xs != []
    requires forall i :: 0 <= i < |xs| ==> WellFormed(xs[i])
    ensures ParseElements(ItemsText(xs) + "]" + rest, acc) == Some((Arr(acc + ImageItems(xs)), rest))
    decreases xs, 1
  {
    var x := xs[0];
    if |xs| == 1 {
      ItemsSingle(xs, rest);
      ValueRoundTrip(x, "]" + rest);
      LastElement(Text(x), rest, acc, Image(x));
    } else {
      var more := ItemsText(xs[1..]) + "]" + rest;
      ItemsSplit(xs, rest);
      ValueRoundTrip(x, "," + more);
      NextElement(Text(x), more, acc, Image(x));
      ItemsRoundTrip(xs[1..], acc + [Image(x)], rest);
      Assoc(acc, [Image(x)], ImageItems(xs[1..]));
    }
  }

  /** A member's text parses as its key and the image of its value. */
  lemma {:induction false} MemberRoundTrip(k: string, vt: string, v: Value, after: string)
    requires ParseValue(vt + after) == Some((v, after))
    ensures ParseMember(Quote(k) + ":" + vt + after) == Some((k, v, after))
  {
    var tail := ":" + vt + after;
    MemberText(k, vt, after);
    EscapedRoundTrip(k, tail);
    MemberOf(Quote(k) + ":" + vt + after, k, tail, v, after);
  }

  /** The shape of a member's text: a quote, the escaped key and a closing quote, then a colon and the value. */
  lemma MemberText(k: string, vt: string, after: string)
    ensures (Quote(k) + ":" + vt + after)[0] == '"'
    ensures (Quote(k) + ":" + vt + after)[1..] == Escaped(k) + "\"" + (":" + vt + after)
    ensures (":" + vt + after)[0] == ':' && (":" + vt + after)[1..] == vt + after
  {
    var tail := ":" + vt + after;
    assert Quote(k) + ":" + vt + after == "\"" + (Escaped(k) + "\"" + tail);
  }

  /** A member is a key literal, a colon and a value. */
  lemma MemberOf(x: string, k: string, tail: string, v: Value, after: string)
    requires x != [] && x[0] == '"' && ParseChars(x[1..]) == Some((k, tail))
    requires tail != [] && tail[0] == ':' && ParseValue(tail[1..]) == Some((v, after))
    ensures ParseMember(x) == Some((k, v, after))
  {
    assert SkipWs(tail) == tail;
  }

  /** The last member: its text is followed by the closing brace. */
  lemma {:induction false} LastMember(t: string, rest: string, acc: seq<Prop>, k: string, v: Value)
    requires ParseMember(t + ("}" + rest)) == Some((k, v, "}" + rest))
    ensures ParseMembers(t + "}" + rest, acc) == Some((Obj(Put(acc, k, v)), rest))
  {
    assert t + "}" + rest == t + ("}" + rest);
    assert SkipWs("}" + rest) == "}" + rest;
    assert ("}" + rest)[1..] == rest;
  }

  /** A member followed by a comma: parsing carries on after the comma. */
  lemma {:induction false} NextMember(t: string, more: string, acc: seq<Prop>, k: string, v: Value)
    requires ParseMember(t + ("," + more)) == Some((k, v, "," + more))
    ensures ParseMembers(t + ("," + more), acc) == ParseMembers(SkipWs(more), Put(acc, k, v))
  {
    assert SkipWs("," + more) == "," + more;
    assert ("," + more)[1..] == more;
  }

  /** A member holding undefined contributes neither text nor image. */
  lemma {:induction false} PropsSkip(ps: seq<Prop>)
    requires ps != [] && ps[0].val.Undefined?
    ensures PropsText(ps) == PropsText(ps[1..])
    ensures ImageProps(ps) == ImageProps(ps[1..])
  {
  }

  /** The text and image of a member list whose only written member is the first. */
  lemma {:induction false} PropsSingle(ps: seq<Prop>, rest: string)
    requires ps != [] && !ps[0].val.Undefined? && PropsText(ps[1..]) == ""
    ensures PropsText(ps) + "}" + rest == Quote(ps[0].key) + ":" + Text(ps[0].val) + ("}" + rest)
    ensures ImageProps(ps) == [Prop(ps[0].key, Image(ps[0].val))]
  {
    PropsTextStart(ps[1..]);
  }

  /** The text and image of a member list split after its first, written, member. */
  lemma {:induction false} PropsSplit(ps: seq<Prop>, rest: string)
    requires ps != [] && !ps[0].val.Undefined? && PropsText(ps[1..]) != ""
    ensures PropsText(ps) + "}" + rest ==
      Quote(ps[0].key) + ":" + Text(ps[0].val) + ("," + (PropsText(ps[1..]) + "}" + rest))
    ensures ImageProps(ps) == [Prop(ps[0].key, Image(ps[0].val))] + ImageProps(ps[1..])
    ensures SkipWs(PropsText(ps[1..]) + "}" + rest) == PropsText(ps[1..]) + "}" + rest
  {
    PropsTextStart(ps[1..]);
  }

  /** No key of `ps` is a key of `acc`. */
  predicate KeysApart(ps: seq<Prop>, acc: seq<Prop>) {
    forall i, j :: 0 <= i < |ps| && 0 <= j < |acc| ==> ps[i].key != acc[j].key
  }

  /** Moving the first member of `ps` onto `acc` keeps the keys apart. */
  lemma KeysStep(ps: seq<Prop>, acc: seq<Prop>, v: Value)
    requires ps != [] && DistinctKeys(ps) && KeysApart(ps, acc)
    ensures DistinctKeys(ps[1..]) && KeysApart(ps[1..], acc)
    ensures KeysApart(ps[1..], acc + [Prop(ps[0].key, v)])
    ensures forall j :: 0 <= j < |acc| ==> acc[j].key != ps[0].key
  {
    var acc' := acc + [Prop(ps[0].key, v)];
    forall i, j | 0 <= i < |ps[1..]| && 0 <= j < |acc'|
      ensures ps[1..][i].key != acc'[j].key
    {
      if j == |acc| {
        assert ps[1..][i] == ps[i + 1];
      }
    }
  }

  lemma {:induction false} PropsRoundTrip(ps: seq<Prop>, acc: seq<Prop>, rest: string)
    requires PropsText(ps) != ""
    requires DistinctKeys(ps) && forall i :: 0 <= i < |ps| ==> WellFormed(ps[i].val)
    requires KeysApart(ps, acc)
    ensures ParseMembers(PropsText(ps) + "}" + rest, acc) == Some((Obj(acc + ImageProps(ps)), rest))
    decreases ps, 1
  {
    KeysStep(ps, acc, Image(ps[0].val));
    if ps[0].val.Undefined? {
      PropsSkip(ps);
      PropsRoundTrip(ps[1..], acc, rest);
    } else if PropsText(ps[1..]) == "" {
      LastPropRoundTrip(ps, acc, rest);
    } else {
      NextPropRoundTrip(ps, acc, rest);
    }
  }

  /** One member's text parses as its key and the image of its value. */
  lemma {:induction false} PropRoundTrip(p: Prop, after: string)
    requires WellFormed(p.val) && Delimited(after)
    ensures ParseMember(Quote(p.key) + ":" + Text(p.val) + after) == Some((p.key, Image(p.val), after))
    decreases p, 0
  {
    ValueRoundTrip(p.val, after);
    MemberRoundTrip(p.key, Text(p.val), Image(p.val), after);
  }

  /** The first member is the last one written. */
  lemma {:induction false} LastPropRoundTrip(ps: seq<Prop>, acc: seq<Prop>, rest: string)
    requires ps != [] && !ps[0].val.Undefined? && PropsText(ps[1..]) == ""
    requires WellFormed(ps[0].val)
    requires forall j :: 0 <= j < |acc| ==> acc[j].key != ps[0].key
    ensures ParseMembers(PropsText(ps) + "}" + rest, acc) == Some((Obj(acc + ImageProps(ps)), rest))
    decreases ps, 0
  {
    var p := ps[0];
    PutNewKey(acc, p.key, Image(p.val));
    PropsSingle(ps, rest);
    PropRoundTrip(p, "}" + rest);
    LastMember(Quote(p.key) + ":" + Text(p.val), rest, acc, p.key, Image(p.val));
  }

  /** The first member is followed by more written members. */
  lemma {:induction false} NextPropRoundTrip(ps: seq<Prop>, acc: seq<Prop>, rest: string)
    requires ps != [] && !ps[0].val.Undefined? && PropsText(ps[1..]) != ""
    requires WellFormed(ps[0].val)
    requires DistinctKeys(ps[1..]) && forall i :: 0 <= i < |ps[1..]| ==> WellFormed(ps[1..][i].val)
    requires forall j :: 0 <= j < |acc| ==> acc[j].key != ps[0].key
    requires KeysApart(ps[1..], acc + [Prop(ps[0].key, Image(ps[0].val))])
    ensures ParseMembers(PropsText(ps) + "}" + rest, acc) == Some((Obj(acc + ImageProps(ps)), rest))
    decreases ps, 0
  {
    var p := ps[0];
    var more := PropsText(ps[1..]) + "}" + rest;
    var head := Prop(p.key, Image(p.val));
    PutNewKey(acc, p.key, Image(p.val));
    PropsSplit(ps, rest);
    PropRoundTrip(p, "," + more);
    NextMember(Quote(p.key) + ":" + Text(p.val), more, acc, p.key, Image(p.val));
    PropsRoundTrip(ps[1..], acc + [head], rest);
    Assoc(acc, [head], ImageProps(ps[1..]));
  }

  lemma Assoc<T>(a: seq<T>, b: seq<T>, c: seq<T>)
    ensures a + b + c == a + (b + c)
  {
  }

  /** `JSON.parse(JSON.stringify(v))` succeeds on every well-formed defined value and gives its image. */
  lemma {:induction false} StringifyParse(v: Value)
    requires WellFormed(v) && !v.Undefined?
    ensures Stringify(v).Str? && Parse(Stringify(v).s) == Some(Image(v))
  {
    ValueRoundTrip(v, []);
    assert Text(v) + [] == Text(v);
  }

  /** On plain values the round trip is the identity. */
  lemma {:induction false} ImagePlain(v: Value)
    requires Plain(v)
    ensures Image(v) == v
    decreases v
  {
    match v
    case Arr(xs) => ImageItemsPlain(xs);
    case Obj(ps) => ImagePropsPlain(ps);
    case _ =>
  }

  lemma {:induction false} ImageItemsPlain(xs: seq<Value>)
    requires forall i :: 0 <= i < |xs| ==> Plain(xs[i])
    ensures ImageItems(xs) == xs
    decreases xs
  {
    if xs != [] {
      ImagePlain(xs[0]);
      ImageItemsPlain(xs[1..]);
    }
  }

  lemma {:induction false} ImagePropsPlain(ps: seq<Prop>)
    requires forall i :: 0 <= i < |ps| ==> Plain(ps[i].val)
    ensures ImageProps(ps) == ps
    decreases ps
  {
    if ps != [] {
      ImagePlain(ps[0].val);
      ImagePropsPlain(ps[1..]);
    }
  }

  /** "undefined", the text of undefined, is not JSON. */
  lemma UndefinedText()
    ensures Parse("undefined") == None
  {
    var t := "undefined";
    assert SkipWs(t) == t;
    assert t[0] == 'u' && t[..4] != "null" && t[..4] != "true" && t[..5] != "false";
    assert ParseValue(t) == None;
  }

  /** "[object Object]", the text of a plain object, is not JSON. */
  lemma ObjectText()
    ensures Parse("[object Object]") == None
  {
    var t := "[object Object]";
    var u := t[1..];
    assert SkipWs(t) == t && t[0] == '[';
    assert SkipWs(u) == u && u[0] == 'o';
    assert u[..4] != "null" && u[..4] != "true" && u[..5] != "false";
    assert ParseValue(u) == None;
    assert ParseArray(u) == None;
  }

  /** The text of null or a boolean parses back as that value. */
  lemma LiteralText(v: Value)
    requires v.Null? || v.Bool?
    ensures Parse(Text(v)) == Some(v)
    ensures Text(v) == if v.Null? then "null" else if v.b then "true" else "false"
  {
    LiteralRoundTrip(v, []);
    assert Text(v) + [] == Text(v);
  }

  /** The decimal text of an integer parses back as that integer. */
  lemma NumberText(n: int)
    ensures Parse(IntText(n)) == Some(Num(n))
  {
    NumberValueRoundTrip(n, []);
    assert IntText(n) + [] == IntText(n);
  }

  // ----- what JSON.parse can produce ---------------------------------------

  predicate PlainItems(xs: seq<Value>) {
    forall i :: 0 <= i < |xs| ==> Plain(xs[i])
  }

  predicate PlainProps(ps: seq<Prop>) {
    forall i :: 0 <= i < |ps| ==> Plain(ps[i].val)
  }

  lemma ConsPlain(p: Prop, ps: seq<Prop>)
    requires Plain(p.val) && PlainProps(ps)
    ensures PlainProps([p] + ps)
  {
    assert forall i :: 1 <= i < |[p] + ps| ==> ([p] + ps)[i] == ps[i - 1];
  }

  /** Setting a plain value on plain properties leaves them plain. */
  lemma {:induction false} PutPlain(ps: seq<Prop>, k: string, v: Value)
    requires PlainProps(ps) && Plain(v)
    ensures PlainProps(Put(ps, k, v))
  {
    if ps == [] {
      ConsPlain(Prop(k, v), []);
    } else if ps[0].key == k {
      ConsPlain(Prop(k, v), ps[1..]);
    } else {
      PutPlain(ps[1..], k, v);
      ConsPlain(ps[0], Put(ps[1..], k, v));
    }
  }

  /** JSON text never parses to undefined or a Date, at any depth. */
  lemma {:induction false} ValuePlain(s: string)
    ensures ParseValue(s).Some? ==> Plain(ParseValue(s).value.0)
    decreases |s|, 0
  {
    var t := SkipWs(s);
    if t != [] && t[0] == '[' {
      ArrayPlain(t[1..]);
    } else if t != [] && t[0] == '{' {
      ObjectPlain(t[1..]);
    }
  }

  lemma {:induction false} ArrayPlain(s: string)
    ensures ParseArray(s).Some? ==> Plain(ParseArray(s).value.0)
    decreases |s|, 2
  {
    var u := SkipWs(s);
    if !(u != [] && u[0] == ']') {
      ElementsPlain(u, []);
    }
  }

  lemma {:induction false} ElementsPlain(s: string, acc: seq<Value>)
    requires PlainItems(acc)
    ensures ParseElements(s, acc).Some? ==> Plain(ParseElements(s, acc).value.0)
    decreases |s|, 1
  {
    ValuePlain(s);
    match ParseValue(s)
    case None =>
    case Some((v, rest)) =>
      assert PlainItems(acc + [v]) by {
        assert forall i :: 0 <= i < |acc| ==> (acc + [v])[i] == acc[i];
      }
      MoreElementsPlain(SkipWs(rest), acc + [v]);
  }

  lemma {:induction false} MoreElementsPlain(u: string, acc: seq<Value>)
    requires PlainItems(acc)
    ensures ParseMoreElements(u, acc).Some? ==> Plain(ParseMoreElements(u, acc).value.0)
    decreases |u|, 1
  {
    if u != [] && u[0] == ',' {
      ElementsPlain(u[1..], acc);
    }
  }

  lemma {:induction false} ObjectPlain(s: string)
    ensures ParseObject(s).Some? ==> Plain(ParseObject(s).value.0)
    decreases |s|, 2
  {
    var u := SkipWs(s);
    if !(u != [] && u[0] == '}') {
      MembersPlain(u, []);
    }
  }

  lemma {:induction false} MemberPlain(s: string)
    ensures ParseMember(s).Some? ==> Plain(ParseMember(s).value.1)
    decreases |s|, 0
  {
    if s != [] && s[0] == '"' {
      match ParseChars(s[1..])
      case None =>
      case Some((k, rest)) =>
        var u := SkipWs(rest);
        if u != [] && u[0] == ':' {
          ValuePlain(u[1..]);
        }
    }
  }

  lemma {:induction false} MembersPlain(s: string, acc: seq<Prop>)
    requires PlainProps(acc)
    ensures ParseMembers(s, acc).Some? ==> Plain(ParseMembers(s, acc).value.0)
    decreases |s|, 1
  {
    MemberPlain(s);
    match ParseMember(s)
    case None =>
    case Some((k, v, rest)) =>
      PutPlain(acc, k, v);
      MoreMembersPlain(SkipWs(rest), Put(acc, k, v));
  }

  lemma {:induction false} MoreMembersPlain(u: string, acc: seq<Prop>)
    requires PlainProps(acc)
    ensures ParseMoreMembers(u, acc).Some? ==> Plain(ParseMoreMembers(u, acc).value.0)
    decreases |u|, 1
  {
    if u != [] && u[0] == ',' {
      MembersPlain(SkipWs(u[1..]), acc);
    }
  }

  /** Parse after Stringify is the identity on plain, well-formed values. */
  lemma RoundTrip(v: Value)
    requires WellFormed(v) && Plain(v)
    ensures Stringify(v).Str? && Parse(Stringify(v).s) == Some(v)
  {
    StringifyParse(v);
    ImagePlain(v);
  }
}
