/**
 Reading one session-log line: which lines are accepted, and which cost fields they yield
 (crates/secureops-checks/src/cost_exposure.rs, `parse_log_line`).
 */
module LogLine {
  import opened Basics
  import opened JsonText
  import opened JsonGrammar
  import opened JsonProofs
  import opened JsonParser
  import opened JsonUnique
  import opened JsonRfc

  datatype LogEntry =
    LogEntry(inputTokens: Option<Float64>, outputTokens: Option<Float64>, estimatedCostUsd: Option<Float64>)

  /** The line is the text of `d`, followed by nothing but white space. */
  ghost predicate IsTextOf(f: ToFloat, line: seq<byte>, d: Doc, trail: seq<byte>) {
    GoodDoc(f, d) && AllSpace(trail) && line == Print(d, []) + trail
  }

  ghost predicate Accepts(f: ToFloat, line: seq<byte>) {
    ValueAt(f, line).Ok? && SkipSpace(ValueAt(f, line).rest) == []
  }

  ghost predicate IsLastField(fields: seq<(string, JsonValue)>, key: string, v: JsonValue, i: nat) {
    i < |fields| && fields[i] == (key, v) && forall j | i < j < |fields| :: fields[j].0 != key
  }

  /** The value of the last field named `key`, whatever came before it. */
  function LastField(fields: seq<(string, JsonValue)>, key: string): (r: Option<JsonValue>)
    ensures r.None? <==> forall i | 0 <= i < |fields| :: fields[i].0 != key
    ensures r.Some? ==> exists i :: IsLastField(fields, key, r.value, i)
  {
    if fields == [] then None
    else if fields[|fields| - 1].0 == key then
      assert IsLastField(fields, key, fields[|fields| - 1].1, |fields| - 1);
      Some(fields[|fields| - 1].1)
    else
      var r := LastField(fields[..|fields| - 1], key);
      assert r.Some? ==> exists i :: IsLastField(fields, key, r.value, i) by {
        if r.Some? {
          var i :| IsLastField(fields[..|fields| - 1], key, r.value, i);
          assert IsLastField(fields, key, r.value, i);
        }
      }
      r
  }

  /** A field counts only if its last occurrence is a number other than zero and NaN. */
  function Truthy(v: JsonValue, key: string): Option<Float64> {
    if !v.Object? then None
    else
      match LastField(v.fields, key)
      case Some(Number(n)) => if n == Finite(0.0) || n == NotANumber then None else Some(n)
      case _ => None
  }

  /** In other words: the last field of that name is this number, and it is neither zero nor NaN. */
  lemma CountsLastNumber(v: JsonValue, key: string, n: Float64)
    ensures Truthy(v, key) == Some(n) <==>
            && v.Object? && n != Finite(0.0) && n != NotANumber
            && exists i: nat :: IsLastField(v.fields, key, Number(n), i)
  {
  }

  function EntryOf(v: JsonValue): LogEntry {
    LogEntry(Truthy(v, "inputTokens"), Truthy(v, "outputTokens"), Truthy(v, "estimatedCostUsd"))
  }

  /** A line is accepted if and only if it is the text of some document and white space. */
  lemma AcceptsExactlyTexts(f: ToFloat, line: seq<byte>)
    ensures Accepts(f, line) <==> exists d, trail :: IsTextOf(f, line, d, trail)
  {
    if Accepts(f, line) {
      var rest := ValueAt(f, line).rest;
      var d := DocOf(f, line);
      var trail := SpaceBefore(rest);
      assert trail + [] == trail;
      PrintAppends(d, rest);
      assert IsTextOf(f, line, d, trail);
    }
    if exists d, trail :: IsTextOf(f, line, d, trail) {
      var d, trail :| IsTextOf(f, line, d, trail);
      ReadsText(f, line, d, trail);
    }
  }

  /** And it is read as what that document denotes, so a text has one meaning only. */
  lemma ReadsText(f: ToFloat, line: seq<byte>, d: Doc, trail: seq<byte>)
    requires IsTextOf(f, line, d, trail)
    ensures Accepts(f, line) && ValueAt(f, line).value == Meaning(f, d)
  {
    PrintAppends(d, trail);
    ReadsDoc(f, d, trail);
    SkipsSpace(trail, []);
    assert trail + [] == trail;
  }

  /**
   Every JSON text of RFC 8259 (sections 2 to 7) is accepted, and read as what it denotes if none of
   its codes is a surrogate.
   */
  lemma ReadsRfcText(f: ToFloat, d: Doc, trail: seq<byte>)
    requires TakesRfcNumbers(f) && RfcDoc(d) && AllWs(trail)
    ensures Accepts(f, RfcText(d) + trail)
    ensures GoodDoc(f, d) && ValueAt(f, RfcText(d) + trail).value == Meaning(f, d)
    ensures DocIsPlain(d) ==> ValueAt(f, RfcText(d) + trail).value == RfcValue(f, d)
  {
    hide GoodDoc, RfcDoc, Print, RfcText, Accepts, ValueAt, Meaning, RfcValue, DocIsPlain, AllSpace, AllWs;
    RfcIsGood(f, d);
    IsSpelled(d, []);
    assert RfcText(d) + [] == RfcText(d);
    AllAgree(trail);
    ReadsText(f, RfcText(d) + trail, d, trail);
  }

  /** Parsing undoes printing at any offset of a buffer and before any delimiter. */
  lemma UndoesPrinting(f: ToFloat, before: seq<byte>, d: Doc, after: seq<byte>)
    requires GoodDoc(f, d) && Delimited(after)
    ensures ValueAt(f, (before + Print(d, []) + after)[|before|..]) == Ok(Meaning(f, d), after)
  {
    PrintAppends(d, after);
    ReadsDoc(f, d, after);
    assert (before + Print(d, []) + after)[|before|..] == Print(d, []) + after;
  }

  // ---------- one tree per text ----------

  lemma DelimitedTrail(trail: seq<byte>)
    requires AllSpace(trail)
    ensures Delimited(trail)
  {
  }

  /** A line is the text of one tree only, whichever conversions the trees are judged by. */
  lemma TextIsUnique(f: ToFloat, f': ToFloat, line: seq<byte>, d: Doc, trail: seq<byte>, d': Doc, trail': seq<byte>)
    requires IsTextOf(f, line, d, trail) && IsTextOf(f', line, d', trail')
    ensures d == d' && trail == trail'
  {
    hide GoodDoc, Print, AllSpace, Delimited;
    PrintAppends(d, trail);
    PrintAppends(d', trail');
    DelimitedTrail(trail);
    DelimitedTrail(trail');
    DocUnique(f, d, trail, f', d', trail');
  }

  ghost predicate IsRfcTextOf(line: seq<byte>, d: Doc, trail: seq<byte>) {
    RfcDoc(d) && AllWs(trail) && line == RfcText(d) + trail
  }

  /** The line is a JSON text by the grammar of RFC 8259 (sections 2 to 7). */
  ghost predicate IsRfcText(line: seq<byte>) {
    exists d, trail :: IsRfcTextOf(line, d, trail)
  }

  /** So an accepted line is an RFC 8259 text if and only if its one tree is an RFC 8259 tree. */
  lemma RfcIffTree(f: ToFloat, line: seq<byte>, d: Doc, trail: seq<byte>)
    requires IsTextOf(f, line, d, trail)
    ensures IsRfcText(line) <==> RfcDoc(d)
  {
    hide GoodDoc, RfcDoc, Print, RfcText, AllSpace, AllWs;
    if RfcDoc(d) {
      IsSpelled(d, []);
      assert RfcText(d) + [] == RfcText(d);
      AllAgree(trail);
      assert IsRfcTextOf(line, d, trail);
    }
    if d', trail' :| IsRfcTextOf(line, d', trail') {
      var any: ToFloat := (token: seq<byte>) => Some(NotANumber);
      RfcIsGood(any, d');
      IsSpelled(d', []);
      assert RfcText(d') + [] == RfcText(d');
      AllAgree(trail');
      assert IsTextOf(any, line, d', trail');
      TextIsUnique(f, any, line, d, trail, d', trail');
    }
  }

  /** A line that is the text of a tree beyond RFC 8259 is accepted, and is no RFC 8259 text. */
  lemma AcceptsBeyondRfc(f: ToFloat, line: seq<byte>, d: Doc)
    requires GoodDoc(f, d) && !RfcDoc(d) && line == Print(d, [])
    ensures Accepts(f, line) && !IsRfcText(line)
  {
    hide GoodDoc, RfcDoc, Print, Accepts;
    assert line == Print(d, []) + [];
    ReadsText(f, line, d, []);
    RfcIffTree(f, line, d, []);
  }

  /** A raw control character between quotes. */
  lemma AcceptsRawControl(f: ToFloat)
    ensures Accepts(f, [QUOTE, 0x01, QUOTE]) && !IsRfcText([QUOTE, 0x01, QUOTE])
  {
    var ps := [Plain('\U{0001}')];
    assert !RfcPart(ps[0]);
    OnePart(ps[0], [0x01]);
    AcceptsBeyondRfc(f, [QUOTE, 0x01, QUOTE], Doc([], Text(ps)));
  }

  lemma OnePart(p: Part, printed: seq<byte>)
    requires PrintPart(p) == printed
    ensures Print(Doc([], Text([p])), []) == [QUOTE] + printed + [QUOTE]
  {
    assert PrintParts([p], [QUOTE] + []) == printed + PrintParts([], [QUOTE]);
  }

  /** The number 01, if the conversion takes it. */
  lemma AcceptsLeadingZeros(f: ToFloat)
    requires f([0x30, 0x31]).Some?
    ensures Accepts(f, [0x30, 0x31]) && !IsRfcText([0x30, 0x31])
  {
    var t := NumberToken(false, [0x30, 0x31], None, None);
    assert PrintToken(t) == [0x30, 0x31];
    AcceptsBeyondRfc(f, [0x30, 0x31], Doc([], Numeral(t)));
  }

  /** A plus sign and three hexadecimal digits after `\u`. */
  lemma AcceptsSignedCode(f: ToFloat, hex: seq<byte>)
    requires |hex| == 4 && hex[0] == PLUS && AllHex(hex[1..])
    ensures var line := [QUOTE] + ([BACKSLASH, 0x75] + hex) + [QUOTE]; Accepts(f, line) && !IsRfcText(line)
  {
    var ps := [Coded(hex)];
    HexDigitsHaveNumber(hex[1..]);
    assert !IsHex(hex[0]);
    assert !RfcPart(ps[0]);
    OnePart(ps[0], [BACKSLASH, 0x75] + hex);
    AcceptsBeyondRfc(f, [QUOTE] + ([BACKSLASH, 0x75] + hex) + [QUOTE], Doc([], Text(ps)));
  }

  /** A code is read as the character of its number if and only if it is no surrogate, else as U+FFFD. */
  lemma CodeIsReadIffNoSurrogate(hex: seq<byte>)
    requires |hex| == 4 && AllHex(hex)
    ensures GoodPart(Coded(hex))
    ensures PartMeaning(Coded(hex)) as int == Code(hex) <==> !IsSurrogate(Code(hex))
    ensures IsSurrogate(Code(hex)) ==> PartMeaning(Coded(hex)) == '\U{FFFD}'
  {
    hide HexCode, Code, AllHex;
    CodesAgree(hex);
    if !IsSurrogate(Code(hex)) {
      CodeIsScalar(hex);
    }
  }

  method ParseLogLine(f: ToFloat, line: seq<byte>) returns (r: Option<LogEntry>)
    ensures r.Some? <==> exists d, trail :: IsTextOf(f, line, d, trail)
    ensures forall d, trail | IsTextOf(f, line, d, trail) ::
              && r.value.inputTokens == Truthy(Meaning(f, d), "inputTokens")
              && r.value.outputTokens == Truthy(Meaning(f, d), "outputTokens")
              && r.value.estimatedCostUsd == Truthy(Meaning(f, d), "estimatedCostUsd")
  {
    hide ValueAt, SkipSpace, Print, GoodDoc, Meaning;
    assert line[0..] == line;
    AcceptsExactlyTexts(f, line);
    AllTextsAgree(f, line);
    var v, pos := ParseValue(f, line, 0);
    LineEnds(f, line, v, pos);
    if v.None? {
      return None;
    }
    pos := SkipWs(line, pos);
    if pos != |line| {
      return None;
    }
    r := Some(EntryOf(v.value));
  }

  lemma AllTextsAgree(f: ToFloat, line: seq<byte>)
    ensures forall d, trail | IsTextOf(f, line, d, trail) ::
      Accepts(f, line) && ValueAt(f, line).value == Meaning(f, d)
  {
    forall d, trail | IsTextOf(f, line, d, trail) ensures Accepts(f, line) && ValueAt(f, line).value == Meaning(f, d) {
      ReadsText(f, line, d, trail);
    }
  }

  lemma LineEnds(f: ToFloat, line: seq<byte>, v: Option<JsonValue>, pos: nat)
    requires pos <= |line| && Agrees(line, v, pos, ValueAt(f, line))
    ensures v.None? ==> !Accepts(f, line)
    ensures v.Some? ==> ValueAt(f, line).Ok? && ValueAt(f, line).value == v.value
    ensures v.Some? ==> (Accepts(f, line) <==> SkipSpace(line[pos..]) == [])
  {
  }

  // ---------- a cost that is not finite ----------

  function Bytes(s: string): seq<byte> {
    if s == "" then [] else Utf8(s[0]) + Bytes(s[1..])
  }

  function Plains(s: string): seq<Part> {
    seq(|s|, i requires 0 <= i < |s| => Plain(s[i]))
  }

  lemma PlainText(s: string, rest: seq<byte>)
    requires '"' !in s && '\\' !in s
    ensures GoodParts(Plains(s)) && PartsMeaning(Plains(s)) == s && PrintParts(Plains(s), rest) == Bytes(s) + rest
  {
    hide PrintParts, PartsMeaning, Bytes;
    PlainMeans(s);
    PlainPrints(s, rest);
  }

  lemma {:induction false} PlainMeans(s: string)
    requires GoodParts(Plains(s))
    ensures PartsMeaning(Plains(s)) == s
  {
    hide GoodParts;
    if s == "" {
    } else {
      PlainsTail(s);
      GoodTail(Plains(s));
      PlainMeans(s[1..]);
      assert s == [s[0]] + s[1..];
    }
  }

  lemma PlainsTail(s: string)
    requires s != ""
    ensures Plains(s) != [] && Plains(s)[0] == Plain(s[0]) && Plains(s)[1..] == Plains(s[1..])
  {
  }

  lemma GoodTail(ps: seq<Part>)
    requires ps != [] && GoodParts(ps)
    ensures GoodParts(ps[1..])
  {
  }

  lemma {:induction false} PlainPrints(s: string, rest: seq<byte>)
    ensures PrintParts(Plains(s), rest) == Bytes(s) + rest
  {
    hide Utf8, Plains;
    if s == "" {
      NoPlains();
    } else {
      PlainsTail(s);
      PlainPrints(s[1..], rest);
      Reassociate(Utf8(s[0]), Bytes(s[1..]), rest);
    }
  }

  lemma NoPlains()
    ensures Plains("") == []
  {
  }

  /** An object with one number in it. */
  ghost function FieldDoc(name: string, t: NumberToken): Doc {
    Doc([], Members(LastMember(Member([], Plains(name), [], Doc([], Numeral(t)), []))))
  }

  lemma FieldIsRead(f: ToFloat, name: string, t: NumberToken)
    requires '"' !in name && '\\' !in name && GoodToken(t) && f(PrintToken(t)).Some?
    ensures GoodDoc(f, FieldDoc(name, t))
    ensures Meaning(f, FieldDoc(name, t)) == Object([(name, Number(f(PrintToken(t)).value))])
  {
    hide PrintToken, GoodToken, Plains, PartsMeaning, GoodParts;
    PlainText(name, []);
    var m := Member([], Plains(name), [], Doc([], Numeral(t)), []);
    assert GoodDoc(f, m.doc);
    assert GoodMembers(f, LastMember(m));
    assert Meaning(f, m.doc) == Number(f(PrintToken(t)).value);
    assert MembersMeaning(f, LastMember(m)) == [(name, Meaning(f, m.doc))];
  }

  lemma FieldText(name: string, t: NumberToken)
    requires '"' !in name && '\\' !in name
    ensures Print(FieldDoc(name, t), []) == [LBRACE, QUOTE] + Bytes(name) + [QUOTE, COLON] + PrintToken(t) + [RBRACE]
  {
    hide PrintToken, Bytes, Plains, PrintParts;
    var m := Member([], Plains(name), [], Doc([], Numeral(t)), []);
    var tail := [COLON] + (PrintToken(t) + [RBRACE]);
    assert [] + ([RBRACE] + []) == [RBRACE];
    assert Print(m.doc, [RBRACE]) == PrintToken(t) + [RBRACE];
    assert [] + tail == tail;
    PlainText(name, [QUOTE] + tail);
    assert PrintMember(m, [RBRACE] + []) == [QUOTE] + (Bytes(name) + ([QUOTE] + tail));
    assert PrintMembers(LastMember(m), [RBRACE] + []) == PrintMember(m, [RBRACE] + []);
    Flatten(Bytes(name), PrintToken(t));
  }

  lemma Flatten(name: seq<byte>, token: seq<byte>)
    ensures [LBRACE] + ([QUOTE] + (name + ([QUOTE] + ([COLON] + (token + [RBRACE]))))) ==
            [LBRACE, QUOTE] + name + [QUOTE, COLON] + token + [RBRACE]
  {
  }

  /** The line `{"inputTokens":1e999}`, whose number is too large for a double, counts as a cost. */
  lemma InfinityCounts(f: ToFloat)
    requires f(Bytes("1e999")) == Some(Infinite(false))
    ensures var line := [LBRACE, QUOTE] + Bytes("inputTokens") + [QUOTE, COLON] + Bytes("1e999") + [RBRACE];
            exists d :: IsTextOf(f, line, d, []) && Truthy(Meaning(f, d), "inputTokens") == Some(Infinite(false))
  {
    hide Bytes, Print, GoodDoc, Meaning, FieldDoc;
    var t := NumberToken(false, [0x31], None, Some(Exponent(0x65, None, [0x39, 0x39, 0x39])));
    TokenIsText(t);
    FieldIsRead(f, "inputTokens", t);
    FieldText("inputTokens", t);
    var d := FieldDoc("inputTokens", t);
    assert Print(d, []) + [] == Print(d, []);
    assert IsTextOf(f, Print(d, []), d, []);
    FieldIsLast("inputTokens", Number(Infinite(false)));
  }

  lemma TokenIsText(t: NumberToken)
    requires t == NumberToken(false, [0x31], None, Some(Exponent(0x65, None, [0x39, 0x39, 0x39])))
    ensures GoodToken(t) && PrintToken(t) == Bytes("1e999")
  {
    assert Bytes("1e999") == Utf8('1') + Bytes("e999");
    assert Bytes("e999") == Utf8('e') + Bytes("999");
    assert Bytes("999") == Utf8('9') + Bytes("99");
    assert Bytes("99") == Utf8('9') + Bytes("9");
    assert Bytes("9") == Utf8('9') + Bytes("");
  }

  lemma FieldIsLast(name: string, v: JsonValue)
    ensures LastField([(name, v)], name) == Some(v)
  {
  }
}
