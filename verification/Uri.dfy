/**
 Percent-encoding for presigned URLs and the canonical query string
 (crates/secureops-api/src/evidence.rs).
 */
module Uri {
  import opened Basics

  /** Section 2.3 of RFC 3986. */
  predicate IsUnreserved(c: char) {
    'A' <= c <= 'Z' || 'a' <= c <= 'z' || '0' <= c <= '9' || c == '-' || c == '_' || c == '.' || c == '~'
  }

  /** Bytes that stand for themselves. */
  predicate IsLiteral(b: byte, encodeSlash: bool) {
    IsUnreserved(b as char) || (b == 0x2F && !encodeSlash)
  }

  /** Section 2.3 of RFC 3986, as its alphabet. */
  const UNRESERVED: seq<(char, char)> := [('A', 'Z'), ('a', 'z'), ('0', '9'), ('-', '.'), ('_', '_'), ('~', '~')]

  const UPPER_HEX: string := "0123456789ABCDEF"

  /**
   Unreserved characters and, in path mode, the slash stand for themselves; every other byte is a
   percent sign and its two hexadecimal digits.
   */
  lemma BytesAreSpelled(b: byte, encodeSlash: bool)
    ensures EncodeByte(b, encodeSlash) ==
            if InRanges(b as char, UNRESERVED) || (b as char == '/' && !encodeSlash) then [b as char]
            else "%" + [UPPER_HEX[b / 16]] + [UPPER_HEX[b % 16]]
  {
    hide InRanges;
    UnreservedIff(b as char);
    HexIsUpper(b / 16);
    HexIsUpper(b % 16);
  }

  lemma UnreservedIff(c: char)
    ensures IsUnreserved(c) <==> InRanges(c, UNRESERVED)
  {
    var r := UNRESERVED;
    assert r[0] == ('A', 'Z') && r[1] == ('a', 'z') && r[2] == ('0', '9');
    assert r[3] == ('-', '.') && r[4] == ('_', '_') && r[5] == ('~', '~');
  }

  lemma HexIsUpper(n: int)
    requires 0 <= n < 16
    ensures HexChar(n) == UPPER_HEX[n]
  {
  }

  function HexChar(n: int): char
    requires 0 <= n < 16
  {
    if n < 10 then (0x30 + n) as char else (0x41 + n - 10) as char
  }

  function HexValue(c: char): Option<int> {
    if '0' <= c <= '9' then Some(c as int - 0x30)
    else if 'A' <= c <= 'F' then Some(c as int - 0x41 + 10)
    else None
  }

  function EncodeByte(b: byte, encodeSlash: bool): string {
    if IsLiteral(b, encodeSlash) then [b as char] else ['%', HexChar(b / 16), HexChar(b % 16)]
  }

  function Encode(s: seq<byte>, encodeSlash: bool): string {
    if s == [] then "" else Encode(s[..|s| - 1], encodeSlash) + EncodeByte(s[|s| - 1], encodeSlash)
  }

  method UriEncode(s: seq<byte>, encodeSlash: bool) returns (out: string)
    ensures out == Encode(s, encodeSlash)
    ensures Decode(out, encodeSlash) == Some(s)
  {
    out := "";
    for i := 0 to |s|
      invariant out == Encode(s[..i], encodeSlash)
    {
      var b := s[i];
      assert s[..i + 1][..i] == s[..i];
      if IsUnreserved(b as char) {
        out := out + [b as char];
      } else if b == 0x2F && !encodeSlash {
        out := out + "/";
      } else {
        out := out + ['%', HexChar(b / 16), HexChar(b % 16)];
      }
    }
    assert s[..|s|] == s;
    DecodeUndoesEncode(s, encodeSlash);
  }

  // ---------- decoding ----------

  /** The first byte of an encoded text and what follows it; only the canonical spelling is taken. */
  function DecodeFirst(t: string, encodeSlash: bool): Option<(byte, string)>
    requires t != ""
  {
    if t[0] == '%' then
      if |t| < 3 then None
      else
        match (HexValue(t[1]), HexValue(t[2]))
        case (Some(high), Some(low)) =>
          if IsLiteral(high * 16 + low, encodeSlash) then None else Some((high * 16 + low, t[3..]))
        case _ => None
    else if t[0] as int < 256 && IsLiteral(t[0] as int, encodeSlash) then Some((t[0] as int, t[1..]))
    else None
  }

  /**
   The bytes of a text made of unreserved characters (section 2.3 of RFC 3986), upper-case escapes
   (section 2.1) of other bytes and, in path mode, literal slashes.
   */
  function Decode(t: string, encodeSlash: bool): Option<seq<byte>>
    decreases |t|
  {
    if t == "" then Some([])
    else
      match DecodeFirst(t, encodeSlash)
      case None => None
      case Some((b, rest)) =>
        match Decode(rest, encodeSlash)
        case None => None
        case Some(more) => Some([b] + more)
  }

  lemma HexRoundTrip(n: int)
    requires 0 <= n < 16
    ensures HexValue(HexChar(n)) == Some(n) && HexChar(n) != '%'
  {
  }

  lemma DecodesByte(b: byte, rest: string, encodeSlash: bool)
    ensures var t := EncodeByte(b, encodeSlash) + rest;
            t != "" && DecodeFirst(t, encodeSlash) == Some((b, rest))
  {
    var t := EncodeByte(b, encodeSlash) + rest;
    HexRoundTrip(b / 16);
    HexRoundTrip(b % 16);
    if IsLiteral(b, encodeSlash) {
      assert t[1..] == rest;
    } else {
      assert t[3..] == rest;
    }
  }

  lemma {:induction false} EncodeFirst(s: seq<byte>, encodeSlash: bool)
    requires s != []
    ensures Encode(s, encodeSlash) == EncodeByte(s[0], encodeSlash) + Encode(s[1..], encodeSlash)
  {
    if |s| > 1 {
      var init, last := s[..|s| - 1], s[|s| - 1];
      EncodeFirst(init, encodeSlash);
      assert init[1..] == s[1..][..|s| - 2] && s[1..][|s| - 2] == last;
    } else {
      assert s[..0] == [] && s[1..] == [];
    }
  }

  /** Encoding is undone by decoding, in both modes. */
  lemma {:induction false} DecodeUndoesEncode(s: seq<byte>, encodeSlash: bool)
    ensures Decode(Encode(s, encodeSlash), encodeSlash) == Some(s)
  {
    if s == [] {
    } else {
      DecodeUndoesEncode(s[1..], encodeSlash);
      EncodeFirst(s, encodeSlash);
      DecodesByte(s[0], Encode(s[1..], encodeSlash), encodeSlash);
      assert [s[0]] + s[1..] == s;
    }
  }

  /** And the other way round: only encodings decode, so every byte string has one spelling. */
  lemma {:induction false} EncodeUndoesDecode(t: string, encodeSlash: bool)
    requires Decode(t, encodeSlash).Some?
    ensures Encode(Decode(t, encodeSlash).value, encodeSlash) == t
    decreases |t|
  {
    if t == "" {
    } else {
      var (b, rest) := DecodeFirst(t, encodeSlash).value;
      EncodeUndoesDecode(rest, encodeSlash);
      var s := Decode(t, encodeSlash).value;
      EncodeFirst(s, encodeSlash);
      assert s[1..] == Decode(rest, encodeSlash).value;
      FirstIsSpelled(t, encodeSlash);
    }
  }

  lemma FirstIsSpelled(t: string, encodeSlash: bool)
    requires t != "" && DecodeFirst(t, encodeSlash).Some?
    ensures var (b, rest) := DecodeFirst(t, encodeSlash).value; t == EncodeByte(b, encodeSlash) + rest
  {
    if t[0] == '%' {
      var high, low := HexValue(t[1]).value, HexValue(t[2]).value;
      assert (high * 16 + low) / 16 == high && (high * 16 + low) % 16 == low;
      assert HexChar(high) == t[1] && HexChar(low) == t[2];
      assert t == [t[0], t[1], t[2]] + t[3..];
    } else {
      assert t == [t[0]] + t[1..];
    }
  }

  // ---------- the canonical query ----------

  /** A key and its value. */
  type Param = (seq<byte>, seq<byte>)

  function EncodeParam(p: Param): string {
    Encode(p.0, true) + "=" + Encode(p.1, true)
  }

  /** Parameters joined by ampersands. */
  function CanonicalQuery(params: seq<Param>): string
    requires params != []
  {
    if |params| == 1 then EncodeParam(params[0])
    else EncodeParam(params[0]) + "&" + CanonicalQuery(params[1..])
  }

  /** The text before the first `c`, and the text after it if there is one. */
  function SplitAt(t: string, c: char): (string, Option<string>) {
    if t == "" then ("", None)
    else if t[0] == c then ("", Some(t[1..]))
    else
      var (head, tail) := SplitAt(t[1..], c);
      ([t[0]] + head, tail)
  }

  function DecodeParam(t: string): Option<Param> {
    match SplitAt(t, '=')
    case (_, None) => None
    case (k, Some(v)) =>
      match (Decode(k, true), Decode(v, true))
      case (Some(key), Some(value)) => Some((key, value))
      case _ => None
  }

  lemma {:induction false} SplitShrinks(t: string, c: char)
    ensures SplitAt(t, c).1.Some? ==> |SplitAt(t, c).1.value| < |t|
  {
    if t != "" && t[0] != c {
      SplitShrinks(t[1..], c);
    }
  }

  function ParseQuery(t: string): Option<seq<Param>>
    decreases |t|
  {
    SplitShrinks(t, '&');
    var (first, rest) := SplitAt(t, '&');
    match DecodeParam(first)
    case None => None
    case Some(p) =>
      match rest
      case None => Some([p])
      case Some(more) =>
        match ParseQuery(more)
        case None => None
        case Some(ps) => Some([p] + ps)
  }

  ghost predicate Lacks(t: string, c: char) {
    forall i | 0 <= i < |t| :: t[i] != c
  }

  lemma {:induction false} SplitsThere(head: string, c: char, tail: string)
    requires Lacks(head, c)
    ensures SplitAt(head + [c] + tail, c) == (head, Some(tail))
    ensures SplitAt(head, c) == (head, None)
  {
    if head == "" {
      assert head + [c] + tail == [c] + tail;
    } else {
      SplitsThere(head[1..], c, tail);
      assert (head + [c] + tail)[1..] == head[1..] + [c] + tail && (head + [c] + tail)[0] == head[0];
      assert [head[0]] + head[1..] == head;
    }
  }

  lemma {:induction false} EncodeLacks(s: seq<byte>, c: char)
    requires c == '&' || c == '='
    ensures Lacks(Encode(s, true), c)
  {
    if s == [] {
    } else {
      EncodeLacks(s[..|s| - 1], c);
    }
  }

  lemma DecodesParam(p: Param)
    ensures DecodeParam(EncodeParam(p)) == Some(p) && Lacks(EncodeParam(p), '&')
  {
    EncodeLacks(p.0, '=');
    EncodeLacks(p.0, '&');
    EncodeLacks(p.1, '&');
    SplitsThere(Encode(p.0, true), '=', Encode(p.1, true));
    DecodeUndoesEncode(p.0, true);
    DecodeUndoesEncode(p.1, true);
  }

  /** The canonical query splits back into its keys and values, so it is unambiguous. */
  lemma {:induction false} QuerySplitsBack(params: seq<Param>)
    requires params != []
    ensures ParseQuery(CanonicalQuery(params)) == Some(params)
  {
    hide DecodeParam, EncodeParam;
    DecodesParam(params[0]);
    if |params| == 1 {
      SplitsThere(EncodeParam(params[0]), '&', "");
      assert params == [params[0]];
    } else {
      QuerySplitsBack(params[1..]);
      SplitsThere(EncodeParam(params[0]), '&', CanonicalQuery(params[1..]));
      assert params == [params[0]] + params[1..];
    }
  }
}
