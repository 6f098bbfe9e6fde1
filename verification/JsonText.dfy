/**
 Bytes, characters and the JSON values of the session-log parser, and what the parser computes,
 as functions on the text that is still ahead of it
 (crates/secureops-checks/src/cost_exposure.rs, `mod json`).
 */
module JsonText {
  import opened Basics

  /** A double, as far as the cost check looks at one. */
  datatype Float64 = Finite(value: real) | Infinite(negative: bool) | NotANumber

  /** The conversion of a number token to a double, which may refuse the token. */
  type ToFloat = seq<byte> -> Option<Float64>

  datatype JsonValue =
    | Object(fields: seq<(string, JsonValue)>)
    | Array(items: seq<JsonValue>)
    | String(text: string)
    | Number(number: Float64)
    | Bool(truth: bool)
    | Null

  /** A value read off the front of a text, and the text left over. */
  datatype Parsed<+T> = Fail | Ok(value: T, rest: seq<byte>)

  const QUOTE: byte := 0x22
  const PLUS: byte := 0x2B
  const COMMA: byte := 0x2C
  const MINUS: byte := 0x2D
  const DOT: byte := 0x2E
  const SLASH: byte := 0x2F
  const COLON: byte := 0x3A
  const LBRACKET: byte := 0x5B
  const BACKSLASH: byte := 0x5C
  const RBRACKET: byte := 0x5D
  const LBRACE: byte := 0x7B
  const RBRACE: byte := 0x7D
  const TRUE: seq<byte> := [0x74, 0x72, 0x75, 0x65]
  const FALSE: seq<byte> := [0x66, 0x61, 0x6C, 0x73, 0x65]
  const NULL: seq<byte> := [0x6E, 0x75, 0x6C, 0x6C]

  predicate IsSpace(b: byte) { b == 0x20 || b == 0x09 || b == 0x0A || b == 0x0D }

  predicate IsDigit(b: byte) { 0x30 <= b <= 0x39 }

  predicate IsExponent(b: byte) { b == 0x65 || b == 0x45 }

  predicate IsSign(b: byte) { b == PLUS || b == MINUS }

  /** A byte of the form 10xxxxxx. */
  predicate IsContinuation(b: byte) { 0x80 <= b < 0xC0 }

  // ---------- UTF-8 ----------

  function Utf8(c: char): seq<byte> {
    var n := c as int;
    var q := n / 64;
    if n < 0x80 then [n]
    else if n < 0x800 then [0xC0 + q, 0x80 + n % 64]
    else if n < 0x1_0000 then [0xE0 + q / 64, 0x80 + q % 64, 0x80 + n % 64]
    else [0xF0 + q / 64 / 64, 0x80 + q / 64 % 64, 0x80 + q % 64, 0x80 + n % 64]
  }

  function ScalarValue(n: int): Option<char> {
    if 0 <= n < 0xD800 || 0xE000 <= n <= 0x10_FFFF then Some(n as char) else None
  }

  /** The number whose last six bits are those of a continuation byte. */
  function Shift(high: int, low: byte): int {
    high * 64 + (low - 0x80)
  }

  /** Decode bytes that are meant to be one character, in the shortest form only. */
  function FromUtf8(s: seq<byte>): Option<char> {
    if !(forall i | 0 < i < |s| :: IsContinuation(s[i])) then None
    else if |s| == 1 && s[0] < 0x80 then ScalarValue(s[0])
    else if |s| == 2 && 0xC2 <= s[0] < 0xE0 then ScalarValue(Shift(s[0] - 0xC0, s[1]))
    else if |s| == 3 && 0xE0 <= s[0] < 0xF0 then
      var n := Shift(Shift(s[0] - 0xE0, s[1]), s[2]);
      if n < 0x800 then None else ScalarValue(n)
    else if |s| == 4 && 0xF0 <= s[0] < 0xF8 then
      var n := Shift(Shift(Shift(s[0] - 0xF0, s[1]), s[2]), s[3]);
      if n < 0x1_0000 then None else ScalarValue(n)
    else None
  }

  lemma SplitShift(high: int, low: byte)
    requires IsContinuation(low)
    ensures Shift(high, low) / 64 == high && Shift(high, low) % 64 == low - 0x80
  {
  }

  /** Every character is read back from its encoding, which is a lead byte and continuation bytes. */
  lemma Utf8RoundTrip(c: char)
    ensures FromUtf8(Utf8(c)) == Some(c)
    ensures Utf8(c) != [] && !IsContinuation(Utf8(c)[0])
    ensures forall i | 0 < i < |Utf8(c)| :: IsContinuation(Utf8(c)[i])
  {
  }

  /** Only encodings are accepted. */
  lemma FromUtf8Inverts(s: seq<byte>)
    requires FromUtf8(s).Some?
    ensures Utf8(FromUtf8(s).value) == s
  {
    hide Shift;
    if |s| == 2 {
      SplitShift(s[0] - 0xC0, s[1]);
    } else if |s| == 3 {
      SplitShift(s[0] - 0xE0, s[1]);
      SplitShift(Shift(s[0] - 0xE0, s[1]), s[2]);
    } else if |s| == 4 {
      SplitShift(s[0] - 0xF0, s[1]);
      SplitShift(Shift(s[0] - 0xF0, s[1]), s[2]);
      SplitShift(Shift(Shift(s[0] - 0xF0, s[1]), s[2]), s[3]);
    }
  }

  // ---------- the parser ----------

  function SkipSpace(s: seq<byte>): (rest: seq<byte>)
    ensures |rest| <= |s|
    ensures rest != [] ==> !IsSpace(rest[0])
  {
    if s != [] && IsSpace(s[0]) then SkipSpace(s[1..]) else s
  }

  function SkipDigits(s: seq<byte>): (rest: seq<byte>)
    ensures |rest| <= |s|
    ensures rest != [] ==> !IsDigit(rest[0])
  {
    if s != [] && IsDigit(s[0]) then SkipDigits(s[1..]) else s
  }

  function SkipContinuation(s: seq<byte>): (rest: seq<byte>)
    ensures |rest| <= |s|
    ensures rest != [] ==> !IsContinuation(rest[0])
  {
    if s != [] && IsContinuation(s[0]) then SkipContinuation(s[1..]) else s
  }

  function HexDigit(b: byte): Option<nat> {
    if 0x30 <= b <= 0x39 then Some(b - 0x30)
    else if 0x41 <= b <= 0x46 then Some(b - 0x41 + 10)
    else if 0x61 <= b <= 0x66 then Some(b - 0x61 + 10)
    else None
  }

  function HexNumber(s: seq<byte>): Option<nat> {
    if s == [] then Some(0) else
    match (HexNumber(s[..|s| - 1]), HexDigit(s[|s| - 1]))
    case (Some(high), Some(low)) => Some(high * 16 + low)
    case _ => None
  }

  /** The code of four bytes after `\u`. The library's number parser also takes a leading plus. */
  function HexCode(s: seq<byte>): Option<nat>
    requires |s| == 4
  {
    if s[0] == PLUS then HexNumber(s[1..]) else HexNumber(s)
  }

  /** Surrogates and other codes that are no character become the replacement character. */
  function CharOfCode(code: nat): char {
    match ScalarValue(code)
    case Some(c) => c
    case None => '\U{FFFD}'
  }

  function ShortEscape(b: byte): Option<char> {
    if b == QUOTE then Some('"')
    else if b == BACKSLASH then Some('\\')
    else if b == SLASH then Some('/')
    else if b == 0x62 then Some('\U{0008}')
    else if b == 0x66 then Some('\U{000C}')
    else if b == 0x6E then Some('\n')
    else if b == 0x72 then Some('\r')
    else if b == 0x74 then Some('\t')
    else None
  }

  /** One character of a string, escaped or not, that is neither the closing quote nor the end. */
  function NextChar(s: seq<byte>): (r: Parsed<char>)
    requires s != []
    ensures r.Ok? ==> |r.rest| < |s|
  {
    if s[0] == BACKSLASH then
      if |s| < 2 then Fail
      else if s[1] == 0x75 then
        if |s| < 6 then Fail
        else
          match HexCode(s[2..6])
          case Some(code) => Ok(CharOfCode(code), s[6..])
          case None => Fail
      else
        match ShortEscape(s[1])
        case Some(c) => Ok(c, s[2..])
        case None => Fail
    else
      var rest := SkipContinuation(s[1..]);
      match FromUtf8(s[..|s| - |rest|])
      case Some(c) => Ok(c, rest)
      case None => Fail
  }

  /** The rest of a string, after its opening quote and the characters `read`. */
  function StringRest(s: seq<byte>, read: string): (r: Parsed<string>)
    ensures r.Ok? ==> |r.rest| < |s|
    decreases |s|
  {
    if s == [] then Fail
    else if s[0] == QUOTE then Ok(read, s[1..])
    else
      match NextChar(s)
      case Ok(c, rest) => StringRest(rest, read + [c])
      case Fail => Fail
  }

  function AfterSign(s: seq<byte>): (rest: seq<byte>)
    ensures |rest| <= |s|
  {
    if s != [] && IsSign(s[0]) then s[1..] else s
  }

  function AfterFraction(s: seq<byte>): (rest: seq<byte>)
    ensures |rest| <= |s|
  {
    if s != [] && s[0] == DOT then SkipDigits(s[1..]) else s
  }

  function AfterExponent(s: seq<byte>): (rest: seq<byte>)
    ensures |rest| <= |s|
  {
    if s != [] && IsExponent(s[0]) then SkipDigits(AfterSign(s[1..])) else s
  }

  /** Where the longest run of number syntax ends. */
  function AfterNumber(s: seq<byte>): (rest: seq<byte>)
    requires s != [] && (s[0] == MINUS || IsDigit(s[0]))
    ensures |rest| < |s|
  {
    AfterExponent(AfterFraction(SkipDigits(if s[0] == MINUS then s[1..] else s)))
  }

  function NumberAt(f: ToFloat, s: seq<byte>): (r: Parsed<JsonValue>)
    requires s != [] && (s[0] == MINUS || IsDigit(s[0]))
    ensures r.Ok? ==> |r.rest| < |s|
  {
    var rest := AfterNumber(s);
    match f(s[..|s| - |rest|])
    case Some(x) => Ok(Number(x), rest)
    case None => Fail
  }

  function Word(s: seq<byte>, word: seq<byte>, v: JsonValue): (r: Parsed<JsonValue>)
    requires word != []
    ensures r.Ok? ==> |r.rest| < |s|
  {
    if word <= s then Ok(v, s[|word|..]) else Fail
  }

  /** The first value of a text, after white space. */
  function ValueAt(f: ToFloat, text: seq<byte>): (r: Parsed<JsonValue>)
    ensures r.Ok? ==> |r.rest| < |text|
    decreases |text|, 1
  {
    var s := SkipSpace(text);
    if s == [] then Fail
    else if s[0] == LBRACE then ObjectAt(f, s)
    else if s[0] == LBRACKET then ArrayAt(f, s)
    else if s[0] == QUOTE then
      match StringRest(s[1..], "")
      case Ok(t, rest) => Ok(String(t), rest)
      case Fail => Fail
    else if s[0] == 0x74 then Word(s, TRUE, Bool(true))
    else if s[0] == 0x66 then Word(s, FALSE, Bool(false))
    else if s[0] == 0x6E then Word(s, NULL, Null)
    else if s[0] == MINUS || IsDigit(s[0]) then NumberAt(f, s)
    else Fail
  }

  function ObjectAt(f: ToFloat, s: seq<byte>): (r: Parsed<JsonValue>)
    requires s != []
    ensures r.Ok? ==> |r.rest| < |s|
    decreases |s|, 0
  {
    var t := SkipSpace(s[1..]);
    if t != [] && t[0] == RBRACE then Ok(Object([]), t[1..]) else MembersAt(f, t, [])
  }

  /** A key, a colon and a value. */
  function MemberAt(f: ToFloat, text: seq<byte>): (r: Parsed<(string, JsonValue)>)
    ensures r.Ok? ==> |r.rest| < |text|
    decreases |text|, 0
  {
    var s := SkipSpace(text);
    if s == [] || s[0] != QUOTE then Fail
    else
      match StringRest(s[1..], "")
      case Fail => Fail
      case Ok(key, afterKey) =>
        var t := SkipSpace(afterKey);
        if t == [] || t[0] != COLON then Fail
        else
          match ValueAt(f, t[1..])
          case Fail => Fail
          case Ok(v, afterValue) => Ok((key, v), afterValue)
  }

  /** The remaining members of an object that has the members `read` so far. */
  function MembersAt(f: ToFloat, text: seq<byte>, read: seq<(string, JsonValue)>): (r: Parsed<JsonValue>)
    ensures r.Ok? ==> |r.rest| < |text|
    decreases |text|, 1
  {
    match MemberAt(f, text)
    case Fail => Fail
    case Ok(field, afterValue) =>
      var u := SkipSpace(afterValue);
      if u == [] then Fail
      else if u[0] == COMMA then MembersAt(f, u[1..], read + [field])
      else if u[0] == RBRACE then Ok(Object(read + [field]), u[1..])
      else Fail
  }

  function ArrayAt(f: ToFloat, s: seq<byte>): (r: Parsed<JsonValue>)
    requires s != []
    ensures r.Ok? ==> |r.rest| < |s|
    decreases |s|, 0
  {
    var t := SkipSpace(s[1..]);
    if t != [] && t[0] == RBRACKET then Ok(Array([]), t[1..]) else ItemsAt(f, t, [])
  }

  /** The remaining items of an array that has the items `read` so far. */
  function ItemsAt(f: ToFloat, text: seq<byte>, read: seq<JsonValue>): (r: Parsed<JsonValue>)
    ensures r.Ok? ==> |r.rest| < |text|
    decreases |text|, 2
  {
    match ValueAt(f, text)
    case Fail => Fail
    case Ok(v, afterValue) =>
      var u := SkipSpace(afterValue);
      if u == [] then Fail
      else if u[0] == COMMA then ItemsAt(f, u[1..], read + [v])
      else if u[0] == RBRACKET then Ok(Array(read + [v]), u[1..])
      else Fail
  }
}
