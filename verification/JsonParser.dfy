/**
 The session-log parser itself: recursive descent over a byte buffer with a moving position
 (crates/secureops-checks/src/cost_exposure.rs). A position is passed in and handed back.
 */
module JsonParser {
  import opened Basics
  import opened JsonText

  /** A parser's answer from some position on is what the specification reads there. */
  ghost predicate Agrees<T>(b: seq<byte>, answer: Option<T>, end: nat, spec: Parsed<T>) {
    match spec
    case Fail => answer.None?
    case Ok(v, rest) => answer == Some(v) && end <= |b| && b[end..] == rest
  }

  lemma Suffix(b: seq<byte>, pos: nat, k: nat)
    requires pos + k <= |b|
    ensures b[pos..][k..] == b[pos + k..]
  {
  }

  lemma Head(b: seq<byte>, pos: nat)
    requires pos < |b|
    ensures b[pos..] != [] && b[pos..][0] == b[pos] && b[pos..][1..] == b[pos + 1..]
  {
  }

  method SkipWs(b: seq<byte>, start: nat) returns (pos: nat)
    requires start <= |b|
    ensures start <= pos <= |b| && b[pos..] == SkipSpace(b[start..])
  {
    pos := start;
    while pos < |b| && IsSpace(b[pos])
      invariant start <= pos <= |b|
      invariant SkipSpace(b[pos..]) == SkipSpace(b[start..])
    {
      Head(b, pos);
      pos := pos + 1;
    }
  }

  method SkipDigitsFrom(b: seq<byte>, start: nat) returns (pos: nat)
    requires start <= |b|
    ensures start <= pos <= |b| && b[pos..] == SkipDigits(b[start..])
  {
    pos := start;
    while pos < |b| && IsDigit(b[pos])
      invariant start <= pos <= |b|
      invariant SkipDigits(b[pos..]) == SkipDigits(b[start..])
    {
      Head(b, pos);
      pos := pos + 1;
    }
  }

  method SkipFraction(b: seq<byte>, start: nat) returns (pos: nat)
    requires start <= |b|
    ensures start <= pos <= |b| && b[pos..] == AfterFraction(b[start..])
  {
    pos := start;
    if pos < |b| && b[pos] == DOT {
      Head(b, pos);
      pos := SkipDigitsFrom(b, pos + 1);
    }
  }

  method SkipExponent(b: seq<byte>, start: nat) returns (pos: nat)
    requires start <= |b|
    ensures start <= pos <= |b| && b[pos..] == AfterExponent(b[start..])
  {
    pos := start;
    if pos < |b| && IsExponent(b[pos]) {
      Head(b, pos);
      pos := pos + 1;
      if pos < |b| && IsSign(b[pos]) {
        Head(b, pos);
        pos := pos + 1;
      }
      pos := SkipDigitsFrom(b, pos);
    }
  }

  method ParseNumber(f: ToFloat, b: seq<byte>, start: nat) returns (r: Option<JsonValue>, pos: nat)
    requires start < |b| && (b[start] == MINUS || IsDigit(b[start]))
    ensures Agrees(b, r, pos, NumberAt(f, b[start..]))
    ensures start <= pos <= |b|
  {
    hide SkipDigits, AfterFraction, AfterExponent;
    pos := start;
    Head(b, pos);
    if b[pos] == MINUS {
      pos := pos + 1;
    }
    pos := SkipDigitsFrom(b, pos);
    pos := SkipFraction(b, pos);
    pos := SkipExponent(b, pos);
    Slice(b, start, pos);
    match f(b[start..pos])
    case Some(x) => r := Some(Number(x));
    case None => r := None;
  }

  lemma Slice(b: seq<byte>, start: nat, pos: nat)
    requires start <= pos <= |b|
    ensures b[start..][..|b[start..]| - |b[pos..]|] == b[start..pos]
  {
  }

  method ParseString(b: seq<byte>, start: nat) returns (r: Option<string>, pos: nat)
    requires start < |b|
    ensures Agrees(b, r, pos, StringRest(b[start + 1..], ""))
    ensures start < pos <= |b|
  {
    pos := start + 1;
    var out: string := "";
    while pos < |b|
      invariant start < pos <= |b|
      invariant StringRest(b[pos..], out) == StringRest(b[start + 1..], "")
      decreases |b| - pos
    {
      if b[pos] == QUOTE {
        Head(b, pos);
        return Some(out), pos + 1;
      }
      var c, next := ParseChar(b, pos);
      if c.None? {
        return None, pos;
      }
      out, pos := out + [c.value], next;
    }
    r := None;
  }

  /** The body of the string loop for anything but the closing quote. */
  method ParseChar(b: seq<byte>, start: nat) returns (r: Option<char>, pos: nat)
    requires start < |b|
    ensures Agrees(b, r, pos, NextChar(b[start..]))
    ensures r.Some? ==> start < pos <= |b|
  {
    Head(b, start);
    if b[start] == BACKSLASH {
      r, pos := ParseEscape(b, start);
    } else {
      pos := start + 1;
      while pos < |b| && IsContinuation(b[pos])
        invariant start < pos <= |b|
        invariant SkipContinuation(b[pos..]) == SkipContinuation(b[start + 1..])
      {
        Head(b, pos);
        pos := pos + 1;
      }
      Slice(b, start, pos);
      r := FromUtf8(b[start..pos]);
    }
  }

  /** A backslash and what it escapes. */
  method ParseEscape(b: seq<byte>, start: nat) returns (r: Option<char>, pos: nat)
    requires start < |b| && b[start] == BACKSLASH
    ensures Agrees(b, r, pos, NextChar(b[start..]))
    ensures r.Some? ==> start < pos <= |b|
  {
    pos := start + 1;
    if pos >= |b| {
      return None, pos;
    }
    if b[pos] == 0x75 {
      if pos + 4 >= |b| {
        return None, pos;
      }
      CodeSlice(b, start);
      match HexCode(b[pos + 1..pos + 5]) {
        case None => return None, pos;
        case Some(code) => r := Some(CharOfCode(code));
      }
      pos := pos + 4;
    } else {
      r := ShortEscape(b[pos]);
      if r.None? {
        return;
      }
      Suffix(b, start, 2);
    }
    pos := pos + 1;
  }

  lemma CodeSlice(b: seq<byte>, start: nat)
    requires start + 6 <= |b|
    ensures b[start..][2..6] == b[start + 2..start + 6] && b[start..][6..] == b[start + 6..]
  {
  }

  method ParseWord(b: seq<byte>, start: nat, word: seq<byte>, v: JsonValue) returns (r: Option<JsonValue>, pos: nat)
    requires start <= |b| && word != []
    ensures Agrees(b, r, pos, Word(b[start..], word, v))
    ensures start <= pos <= |b|
  {
    if word <= b[start..] {
      Suffix(b, start, |word|);
      r, pos := Some(v), start + |word|;
    } else {
      r, pos := None, start;
    }
  }

  method ParseValue(f: ToFloat, b: seq<byte>, start: nat) returns (r: Option<JsonValue>, pos: nat)
    requires start <= |b|
    ensures Agrees(b, r, pos, ValueAt(f, b[start..]))
    ensures start <= pos <= |b|
    ensures r.Some? ==> start < pos
    decreases |b| - start, 1
  {
    hide StringRest, NumberAt, ObjectAt, ArrayAt, SkipSpace;
    pos := SkipWs(b, start);
    if pos >= |b| {
      return None, pos;
    }
    Head(b, pos);
    if b[pos] == LBRACE {
      r, pos := ParseObject(f, b, pos);
    } else if b[pos] == LBRACKET {
      r, pos := ParseArray(f, b, pos);
    } else if b[pos] == QUOTE {
      var text, end := ParseString(b, pos);
      pos := end;
      r := if text.Some? then Some(String(text.value)) else None;
    } else if b[pos] == 0x74 {
      r, pos := ParseWord(b, pos, TRUE, Bool(true));
    } else if b[pos] == 0x66 {
      r, pos := ParseWord(b, pos, FALSE, Bool(false));
    } else if b[pos] == 0x6E {
      r, pos := ParseWord(b, pos, NULL, Null);
    } else if b[pos] == MINUS || IsDigit(b[pos]) {
      r, pos := ParseNumber(f, b, pos);
    } else {
      r := None;
    }
  }

  method ParseObject(f: ToFloat, b: seq<byte>, start: nat) returns (r: Option<JsonValue>, pos: nat)
    requires start < |b|
    ensures Agrees(b, r, pos, ObjectAt(f, b[start..]))
    ensures start <= pos <= |b|
    decreases |b| - start, 0
  {
    hide MemberAt, SkipSpace;
    Head(b, start);
    pos := SkipWs(b, start + 1);
    var fields := [];
    if pos < |b| && b[pos] == RBRACE {
      Head(b, pos);
      return Some(Object(fields)), pos + 1;
    }
    ghost var spec := ObjectAt(f, b[start..]);
    while true
      invariant start < pos <= |b|
      invariant MembersAt(f, b[pos..], fields) == spec
      decreases |b| - pos
    {
      var field, afterValue := ParseMember(f, b, pos);
      if field.None? {
        return None, afterValue;
      }
      fields := fields + [field.value];
      pos := SkipWs(b, afterValue);
      if pos >= |b| {
        return None, pos;
      }
      Head(b, pos);
      if b[pos] == COMMA {
        pos := pos + 1;
      } else if b[pos] == RBRACE {
        return Some(Object(fields)), pos + 1;
      } else {
        return None, pos;
      }
    }
  }

  /** The first half of the object loop's body: a key, a colon and a value. */
  method ParseMember(f: ToFloat, b: seq<byte>, start: nat) returns (r: Option<(string, JsonValue)>, pos: nat)
    requires start <= |b|
    ensures Agrees(b, r, pos, MemberAt(f, b[start..]))
    ensures start <= pos <= |b|
    ensures r.Some? ==> start < pos
    decreases |b| - start, 2
  {
    hide StringRest, ValueAt, SkipSpace;
    pos := SkipWs(b, start);
    if pos >= |b| || b[pos] != QUOTE {
      return None, pos;
    }
    Head(b, pos);
    var key, afterKey := ParseString(b, pos);
    if key.None? {
      return None, afterKey;
    }
    pos := SkipWs(b, afterKey);
    if pos >= |b| || b[pos] != COLON {
      return None, pos;
    }
    Head(b, pos);
    var v, afterValue := ParseValue(f, b, pos + 1);
    if v.None? {
      return None, afterValue;
    }
    r, pos := Some((key.value, v.value)), afterValue;
  }

  method ParseArray(f: ToFloat, b: seq<byte>, start: nat) returns (r: Option<JsonValue>, pos: nat)
    requires start < |b|
    ensures Agrees(b, r, pos, ArrayAt(f, b[start..]))
    ensures start <= pos <= |b|
    decreases |b| - start, 0
  {
    hide ValueAt, SkipSpace;
    Head(b, start);
    pos := SkipWs(b, start + 1);
    var items := [];
    if pos < |b| && b[pos] == RBRACKET {
      Head(b, pos);
      return Some(Array(items)), pos + 1;
    }
    ghost var spec := ArrayAt(f, b[start..]);
    while true
      invariant start < pos <= |b|
      invariant ItemsAt(f, b[pos..], items) == spec
      decreases |b| - pos
    {
      var v, afterValue := ParseValue(f, b, pos);
      if v.None? {
        return None, afterValue;
      }
      items := items + [v.value];
      pos := SkipWs(b, afterValue);
      if pos >= |b| {
        return None, pos;
      }
      Head(b, pos);
      if b[pos] == COMMA {
        pos := pos + 1;
      } else if b[pos] == RBRACKET {
        return Some(Array(items)), pos + 1;
      } else {
        return None, pos;
      }
    }
  }
}
