/**
 JSON texts as RFC 8259 defines them (sections 2 to 7), with terminals, spelling and meaning of their
 own, and why the session-log parser takes them all.
 */
module JsonRfc {
  import opened Basics
  import opened JsonText
  import opened JsonGrammar
  import opened JsonProofs

  /** ASCII text as bytes. */
  function Ascii(s: string): (bytes: seq<byte>)
    requires forall i | 0 <= i < |s| :: s[i] as int < 128
    ensures |bytes| == |s|
  {
    seq(|s|, i requires 0 <= i < |s| => s[i] as int)
  }

  // ---------- terminals ----------

  /** Section 2: space, horizontal tab, line feed and carriage return. */
  predicate IsWs(b: byte) {
    var c := b as char;
    c == ' ' || c == '\t' || c == '\n' || c == '\r'
  }

  /** Section 6. */
  predicate IsDecimal(b: byte) { '0' <= b as char <= '9' }

  /** Section 7: both cases of the letters are hexadecimal digits. */
  predicate IsHex(b: byte) {
    var c := b as char;
    '0' <= c <= '9' || 'A' <= c <= 'F' || 'a' <= c <= 'f'
  }

  function HexValue(b: byte): int
    requires IsHex(b)
  {
    var c := b as char;
    if c <= '9' then c as int - '0' as int
    else if c <= 'F' then 10 + (c as int - 'A' as int)
    else 10 + (c as int - 'a' as int)
  }

  /** Section 7: what may follow a backslash, and the character it stands for. */
  const ESCAPES: map<char, char> :=
    map['"' := '\U{0022}', '\\' := '\U{005C}', '/' := '\U{002F}', 'b' := '\U{0008}',
        'f' := '\U{000C}', 'n' := '\U{000A}', 'r' := '\U{000D}', 't' := '\U{0009}']

  ghost predicate AllWs(s: seq<byte>) { forall i | 0 <= i < |s| :: IsWs(s[i]) }

  ghost predicate AllDecimal(s: seq<byte>) { forall i | 0 <= i < |s| :: IsDecimal(s[i]) }

  ghost predicate AllHex(s: seq<byte>) { forall i | 0 <= i < |s| :: IsHex(s[i]) }

  /** The number that four hexadecimal digits spell. */
  ghost function Code(hex: seq<byte>): int
    requires |hex| == 4 && AllHex(hex)
  {
    HexValue(hex[0]) * 4096 + HexValue(hex[1]) * 256 + HexValue(hex[2]) * 16 + HexValue(hex[3])
  }

  ghost predicate IsSurrogate(code: int) { 0xD800 <= code <= 0xDFFF }

  // ---------- grammar ----------

  /** Section 7: control characters are escaped. */
  ghost predicate RfcPart(p: Part) {
    match p
    case Plain(c) => 0x20 <= c as int <= 0x21 || 0x23 <= c as int <= 0x5B || 0x5D <= c as int <= 0x10_FFFF
    case Escaped(b) => b as char in ESCAPES
    case Coded(hex) => |hex| == 4 && AllHex(hex)
  }

  ghost predicate RfcParts(ps: seq<Part>) { forall i | 0 <= i < |ps| :: RfcPart(ps[i]) }

  ghost predicate RfcExponent(e: Exponent) {
    && (e.mark as char == 'e' || e.mark as char == 'E')
    && (e.sign.Some? ==> e.sign.value as char == '+' || e.sign.value as char == '-')
    && AllDecimal(e.digits) && e.digits != []
  }

  /** Section 6: no leading zeros, and digits wherever there is a point or an exponent. */
  ghost predicate RfcToken(t: NumberToken) {
    && AllDecimal(t.whole) && t.whole != [] && (t.whole[0] as char == '0' ==> |t.whole| == 1)
    && (t.fraction.Some? ==> AllDecimal(t.fraction.value) && t.fraction.value != [])
    && (t.exponent.Some? ==> RfcExponent(t.exponent.value))
  }

  /** Sections 2 to 5. */
  ghost predicate RfcDoc(d: Doc) {
    AllWs(d.lead) &&
    match d.node
    case EmptyObject(gap) => AllWs(gap)
    case Members(ms) => RfcMembers(ms)
    case EmptyArray(gap) => AllWs(gap)
    case Items(xs) => RfcItems(xs)
    case Text(ps) => RfcParts(ps)
    case Numeral(t) => RfcToken(t)
    case Truth(_) => true
    case Nothing => true
  }

  ghost predicate RfcMembers(ms: MemberList) {
    && AllWs(ms.member.before) && RfcParts(ms.member.key) && AllWs(ms.member.middle) && AllWs(ms.member.after)
    && RfcDoc(ms.member.doc)
    && (ms.MoreMembers? ==> RfcMembers(ms.others))
  }

  ghost predicate RfcItems(xs: ItemList) {
    RfcDoc(xs.item.doc) && AllWs(xs.item.after) && (xs.MoreItems? ==> RfcItems(xs.others))
  }

  // ---------- spelling ----------

  ghost function PartText(p: Part): seq<byte> {
    match p
    case Plain(c) => Utf8(c)
    case Escaped(b) => Ascii("\\") + [b]
    case Coded(hex) => Ascii("\\u") + hex
  }

  ghost function PartsText(ps: seq<Part>): seq<byte> {
    if ps == [] then [] else PartText(ps[0]) + PartsText(ps[1..])
  }

  ghost function StringText(ps: seq<Part>): seq<byte> {
    Ascii("\"") + PartsText(ps) + Ascii("\"")
  }

  ghost function TokenText(t: NumberToken): seq<byte> {
    (if t.minus then Ascii("-") else []) + t.whole
    + (if t.fraction.Some? then Ascii(".") + t.fraction.value else [])
    + (if t.exponent.Some? then ExponentText(t.exponent.value) else [])
  }

  ghost function ExponentText(e: Exponent): seq<byte> {
    [e.mark] + (if e.sign.Some? then [e.sign.value] else []) + e.digits
  }

  /** The JSON text of a tree. */
  ghost function RfcText(d: Doc): seq<byte> {
    d.lead + NodeText(d.node)
  }

  ghost function NodeText(n: Node): seq<byte> {
    match n
    case EmptyObject(gap) => Ascii("{") + gap + Ascii("}")
    case Members(ms) => Ascii("{") + MembersText(ms) + Ascii("}")
    case EmptyArray(gap) => Ascii("[") + gap + Ascii("]")
    case Items(xs) => Ascii("[") + ItemsText(xs) + Ascii("]")
    case Text(ps) => StringText(ps)
    case Numeral(t) => TokenText(t)
    case Truth(b) => if b then Ascii("true") else Ascii("false")
    case Nothing => Ascii("null")
  }

  ghost function MemberText(m: Member): seq<byte> {
    m.before + StringText(m.key) + m.middle + Ascii(":") + RfcText(m.doc) + m.after
  }

  ghost function MembersText(ms: MemberList): seq<byte> {
    MemberText(ms.member) + if ms.MoreMembers? then Ascii(",") + MembersText(ms.others) else []
  }

  ghost function ItemsText(xs: ItemList): seq<byte> {
    RfcText(xs.item.doc) + xs.item.after + if xs.MoreItems? then Ascii(",") + ItemsText(xs.others) else []
  }

  // ---------- meaning ----------

  /** No code is a surrogate, so that each stands for the character of its number. */
  ghost predicate NoSurrogates(ps: seq<Part>) {
    forall i | 0 <= i < |ps| :: RfcPart(ps[i]) && (ps[i].Coded? ==> !IsSurrogate(Code(ps[i].hex)))
  }

  ghost predicate DocIsPlain(d: Doc) {
    match d.node
    case Members(ms) => MembersArePlain(ms)
    case Items(xs) => ItemsArePlain(xs)
    case Text(ps) => NoSurrogates(ps)
    case _ => true
  }

  ghost predicate MembersArePlain(ms: MemberList) {
    NoSurrogates(ms.member.key) && DocIsPlain(ms.member.doc) && (ms.MoreMembers? ==> MembersArePlain(ms.others))
  }

  ghost predicate ItemsArePlain(xs: ItemList) {
    DocIsPlain(xs.item.doc) && (xs.MoreItems? ==> ItemsArePlain(xs.others))
  }

  lemma CodeIsScalar(hex: seq<byte>)
    requires |hex| == 4 && AllHex(hex) && !IsSurrogate(Code(hex))
    ensures 0 <= Code(hex) < 0xD800 || 0xE000 <= Code(hex) < 0x1_0000
  {
    assert forall i | 0 <= i < 4 :: 0 <= HexValue(hex[i]) < 16;
  }

  ghost function PartValue(p: Part): char
    requires RfcPart(p) && (p.Coded? ==> !IsSurrogate(Code(p.hex)))
  {
    match p
    case Plain(c) => c
    case Escaped(b) => ESCAPES[b as char]
    case Coded(hex) => CodeIsScalar(hex); Code(hex) as char
  }

  ghost function StringValue(ps: seq<Part>): string
    requires NoSurrogates(ps)
  {
    seq(|ps|, i requires 0 <= i < |ps| => PartValue(ps[i]))
  }

  ghost predicate TakesRfcNumbers(f: ToFloat) {
    forall t | RfcToken(t) :: f(TokenText(t)).Some?
  }

  /** What the tree of a JSON text denotes, numbers being converted by `f`. */
  ghost function RfcValue(f: ToFloat, d: Doc): JsonValue
    requires TakesRfcNumbers(f) && RfcDoc(d) && DocIsPlain(d)
  {
    match d.node
    case EmptyObject(_) => Object([])
    case Members(ms) => Object(MembersValue(f, ms))
    case EmptyArray(_) => Array([])
    case Items(xs) => Array(ItemsValue(f, xs))
    case Text(ps) => String(StringValue(ps))
    case Numeral(t) => Number(f(TokenText(t)).value)
    case Truth(b) => Bool(b)
    case Nothing => Null
  }

  ghost function MembersValue(f: ToFloat, ms: MemberList): seq<(string, JsonValue)>
    requires TakesRfcNumbers(f) && RfcMembers(ms) && MembersArePlain(ms)
  {
    [(StringValue(ms.member.key), RfcValue(f, ms.member.doc))] +
    if ms.MoreMembers? then MembersValue(f, ms.others) else []
  }

  ghost function ItemsValue(f: ToFloat, xs: ItemList): seq<JsonValue>
    requires TakesRfcNumbers(f) && RfcItems(xs) && ItemsArePlain(xs)
  {
    [RfcValue(f, xs.item.doc)] + if xs.MoreItems? then ItemsValue(f, xs.others) else []
  }

  // ---------- the parser's terminals are those of RFC 8259 ----------

  lemma TerminalsAgree(b: byte)
    ensures IsWs(b) <==> IsSpace(b)
    ensures IsDecimal(b) <==> IsDigit(b)
    ensures IsHex(b) <==> HexDigit(b).Some?
    ensures IsHex(b) ==> HexDigit(b) == Some(HexValue(b))
    ensures IsExponent(b) <==> b as char == 'e' || b as char == 'E'
    ensures IsSign(b) <==> b as char == '+' || b as char == '-'
    ensures b as char in ESCAPES <==> ShortEscape(b).Some?
    ensures b as char in ESCAPES ==> ShortEscape(b) == Some(ESCAPES[b as char])
  {
  }

  lemma AllAgree(s: seq<byte>)
    ensures AllWs(s) <==> AllSpace(s)
    ensures AllDecimal(s) <==> AllDigits(s)
  {
    forall i | 0 <= i < |s| ensures (IsWs(s[i]) <==> IsSpace(s[i])) && (IsDecimal(s[i]) <==> IsDigit(s[i])) {
      TerminalsAgree(s[i]);
    }
  }

  lemma {:induction false} HexDigitsHaveNumber(s: seq<byte>)
    requires AllHex(s)
    ensures HexNumber(s).Some?
  {
    if s == [] {
    } else {
      TerminalsAgree(s[|s| - 1]);
      HexDigitsHaveNumber(s[..|s| - 1]);
    }
  }

  lemma CodesAgree(hex: seq<byte>)
    requires |hex| == 4 && AllHex(hex)
    ensures HexCode(hex) == Some(Code(hex)) && Code(hex) >= 0
  {
    hide HexDigit, HexNumber, HexValue;
    var a, b, c, d := hex[0], hex[1], hex[2], hex[3];
    TerminalsAgree(a);
    TerminalsAgree(b);
    TerminalsAgree(c);
    TerminalsAgree(d);
    PlusIsNoHex();
    NumberNext([], a);
    NumberNext([a], b);
    NumberNext([a, b], c);
    NumberNext([a, b, c], d);
    assert [] + [a] == [a] && [a] + [b] == [a, b] && [a, b] + [c] == [a, b, c] && [a, b, c] + [d] == hex;
    NoNumberYet();
  }

  lemma PlusIsNoHex()
    ensures !IsHex(PLUS)
  {
  }

  lemma NoNumberYet()
    ensures HexNumber([]) == Some(0)
  {
  }

  lemma NumberNext(s: seq<byte>, b: byte)
    ensures HexNumber(s).Some? && HexDigit(b).Some? ==>
              HexNumber(s + [b]) == Some(HexNumber(s).value * 16 + HexDigit(b).value)
  {
    assert (s + [b])[..|s|] == s && (s + [b])[|s|] == b;
  }

  lemma PartAgrees(p: Part)
    requires RfcPart(p)
    ensures GoodPart(p)
    ensures (p.Coded? && IsSurrogate(Code(p.hex))) || PartMeaning(p) == PartValue(p)
  {
    match p
    case Plain(c) =>
    case Escaped(b) => TerminalsAgree(b);
    case Coded(hex) =>
      CodesAgree(hex);
      if !IsSurrogate(Code(hex)) {
        CodeIsScalar(hex);
      }
  }

  lemma PartsAgree(ps: seq<Part>)
    requires RfcParts(ps)
    ensures GoodParts(ps)
  {
    forall i | 0 <= i < |ps| ensures GoodPart(ps[i]) {
      PartAgrees(ps[i]);
    }
  }

  lemma {:induction false} StringsAgree(ps: seq<Part>)
    requires NoSurrogates(ps) && GoodParts(ps)
    ensures PartsMeaning(ps) == StringValue(ps)
  {
    if ps == [] {
    } else {
      PartAgrees(ps[0]);
      StringsAgree(ps[1..]);
      assert StringValue(ps) == [PartValue(ps[0])] + StringValue(ps[1..]);
    }
  }

  lemma TokenIsGood(t: NumberToken)
    requires RfcToken(t)
    ensures GoodToken(t)
  {
    AllAgree(t.whole);
    if t.fraction.Some? {
      AllAgree(t.fraction.value);
    }
    if t.exponent.Some? {
      AllAgree(t.exponent.value.digits);
    }
  }

  // ---------- and so is its spelling ----------

  lemma WordsAgree()
    ensures Ascii("{") == [LBRACE] && Ascii("}") == [RBRACE] && Ascii("[") == [LBRACKET] && Ascii("]") == [RBRACKET]
    ensures Ascii(":") == [COLON] && Ascii(",") == [COMMA] && Ascii("\"") == [QUOTE] && Ascii("-") == [MINUS] && Ascii(".") == [DOT]
    ensures Ascii("\\") == [BACKSLASH] && Ascii("\\u") == [BACKSLASH, 0x75]
    ensures Ascii("true") == TRUE && Ascii("false") == FALSE && Ascii("null") == NULL
  {
  }

  lemma {:induction false} PartsAreSpelled(ps: seq<Part>, rest: seq<byte>)
    ensures PrintParts(ps, rest) == PartsText(ps) + rest
  {
    WordsAgree();
    hide Ascii, Utf8;
    if ps == [] {
    } else {
      PartsAreSpelled(ps[1..], rest);
      assert PrintPart(ps[0]) == PartText(ps[0]);
      Reassociate(PartText(ps[0]), PartsText(ps[1..]), rest);
    }
  }

  lemma StringIsSpelled(ps: seq<Part>, rest: seq<byte>)
    ensures PrintString(ps, rest) == StringText(ps) + rest
  {
    WordsAgree();
    hide Ascii, PartsText, PrintParts;
    PartsAreSpelled(ps, [QUOTE] + rest);
  }

  lemma TokenIsSpelled(t: NumberToken)
    ensures PrintToken(t) == TokenText(t)
  {
    WordsAgree();
    hide Ascii;
  }

  /** Both ways of printing a tree give the same text. */
  lemma {:induction false} IsSpelled(d: Doc, rest: seq<byte>)
    ensures Print(d, rest) == RfcText(d) + rest
    decreases d, 1
  {
    hide Ascii, PrintString, StringText, PrintToken, TokenText, PrintMembers, MembersText, PrintItems, ItemsText, PrintNode, NodeText;
    NodeIsSpelled(d, rest);
    Reassociate(d.lead, NodeText(d.node), rest);
  }

  lemma {:induction false} NodeIsSpelled(d: Doc, rest: seq<byte>)
    ensures PrintNode(d.node, rest) == NodeText(d.node) + rest
    decreases d, 0
  {
    WordsAgree();
    hide Ascii, PrintString, StringText, PrintToken, TokenText, PrintMembers, MembersText, PrintItems, ItemsText;
    match d.node
    case Members(ms) =>
      MembersAreSpelled(ms, [RBRACE] + rest);
      Wrap(LBRACE, MembersText(ms), RBRACE, rest);
    case Items(xs) =>
      ItemsAreSpelled(xs, [RBRACKET] + rest);
      Wrap(LBRACKET, ItemsText(xs), RBRACKET, rest);
    case EmptyObject(gap) => Wrap(LBRACE, gap, RBRACE, rest);
    case EmptyArray(gap) => Wrap(LBRACKET, gap, RBRACKET, rest);
    case Text(ps) => StringIsSpelled(ps, rest);
    case Numeral(t) => TokenIsSpelled(t);
    case _ =>
  }

  lemma Wrap(open: byte, inner: seq<byte>, close: byte, rest: seq<byte>)
    ensures [open] + (inner + ([close] + rest)) == ([open] + inner + [close]) + rest
  {
  }

  lemma {:induction false} MemberIsSpelled(m: Member, rest: seq<byte>)
    ensures PrintMember(m, rest) == MemberText(m) + rest
    decreases m
  {
    WordsAgree();
    hide Ascii, PrintString, StringText, Print, RfcText;
    IsSpelled(m.doc, m.after + rest);
    StringIsSpelled(m.key, m.middle + ([COLON] + Print(m.doc, m.after + rest)));
    FlattenMember(m.before, StringText(m.key), m.middle, RfcText(m.doc), m.after, rest);
  }

  lemma FlattenMember(before: seq<byte>, key: seq<byte>, middle: seq<byte>, doc: seq<byte>, after: seq<byte>, rest: seq<byte>)
    ensures before + (key + (middle + ([COLON] + (doc + (after + rest))))) ==
            (before + key + middle + [COLON] + doc + after) + rest
  {
  }

  lemma {:induction false} MembersAreSpelled(ms: MemberList, rest: seq<byte>)
    ensures PrintMembers(ms, rest) == MembersText(ms) + rest
    decreases ms
  {
    WordsAgree();
    hide Ascii, PrintMember, MemberText;
    if ms.LastMember? {
      MemberIsSpelled(ms.member, rest);
      assert MembersText(ms) == MemberText(ms.member);
    } else {
      MembersAreSpelled(ms.others, rest);
      MemberIsSpelled(ms.member, [COMMA] + PrintMembers(ms.others, rest));
      Chain(MemberText(ms.member), COMMA, MembersText(ms.others), rest);
    }
  }

  lemma Chain(first: seq<byte>, comma: byte, others: seq<byte>, rest: seq<byte>)
    ensures first + ([comma] + (others + rest)) == (first + ([comma] + others)) + rest
  {
  }

  lemma {:induction false} ItemsAreSpelled(xs: ItemList, rest: seq<byte>)
    ensures PrintItems(xs, rest) == ItemsText(xs) + rest
    decreases xs
  {
    WordsAgree();
    hide Ascii, Print, RfcText;
    var first := RfcText(xs.item.doc) + xs.item.after;
    if xs.LastItem? {
      IsSpelled(xs.item.doc, xs.item.after + rest);
      Reassociate(RfcText(xs.item.doc), xs.item.after, rest);
      assert ItemsText(xs) == first;
    } else {
      var next := [COMMA] + PrintItems(xs.others, rest);
      IsSpelled(xs.item.doc, xs.item.after + next);
      ItemsAreSpelled(xs.others, rest);
      Reassociate(RfcText(xs.item.doc), xs.item.after, next);
      Chain(first, COMMA, ItemsText(xs.others), rest);
    }
  }

  // ---------- every JSON text is among those the parser takes ----------

  lemma TakesToken(f: ToFloat, t: NumberToken)
    requires TakesRfcNumbers(f) && RfcToken(t)
    ensures GoodToken(t) && f(PrintToken(t)).Some? && PrintToken(t) == TokenText(t)
  {
    TokenIsGood(t);
    TokenIsSpelled(t);
  }

  lemma {:induction false} RfcIsGood(f: ToFloat, d: Doc)
    requires TakesRfcNumbers(f) && RfcDoc(d)
    ensures GoodDoc(f, d)
    ensures DocIsPlain(d) ==> Meaning(f, d) == RfcValue(f, d)
  {
    hide PrintToken, TokenText, GoodToken, RfcToken, GoodParts, RfcParts, NoSurrogates, StringValue, PartsMeaning,
      GoodMembers, GoodItems, TakesRfcNumbers, AllSpace, AllWs;
    AllAgree(d.lead);
    match d.node
    case EmptyObject(gap) => AllAgree(gap);
    case Members(ms) => RfcMembersAreGood(f, ms);
    case EmptyArray(gap) => AllAgree(gap);
    case Items(xs) => RfcItemsAreGood(f, xs);
    case Text(ps) =>
      PartsAgree(ps);
      if NoSurrogates(ps) {
        StringsAgree(ps);
      }
    case Numeral(t) => TakesToken(f, t);
    case _ =>
  }

  lemma {:induction false} RfcMembersAreGood(f: ToFloat, ms: MemberList)
    requires TakesRfcNumbers(f) && RfcMembers(ms)
    ensures GoodMembers(f, ms)
    ensures MembersArePlain(ms) ==> MembersMeaning(f, ms) == MembersValue(f, ms)
  {
    hide GoodParts, RfcParts, NoSurrogates, StringValue, PartsMeaning, TakesRfcNumbers, AllSpace, AllWs, GoodDoc, RfcDoc,
      Meaning, RfcValue, DocIsPlain;
    var m := ms.member;
    AllAgree(m.before);
    AllAgree(m.middle);
    AllAgree(m.after);
    PartsAgree(m.key);
    RfcIsGood(f, m.doc);
    if NoSurrogates(m.key) {
      StringsAgree(m.key);
    }
    if ms.MoreMembers? {
      RfcMembersAreGood(f, ms.others);
    }
  }

  lemma {:induction false} RfcItemsAreGood(f: ToFloat, xs: ItemList)
    requires TakesRfcNumbers(f) && RfcItems(xs)
    ensures GoodItems(f, xs)
    ensures ItemsArePlain(xs) ==> ItemsMeaning(f, xs) == ItemsValue(f, xs)
  {
    hide TakesRfcNumbers, AllSpace, AllWs, GoodDoc, RfcDoc, Meaning, RfcValue, DocIsPlain;
    AllAgree(xs.item.after);
    RfcIsGood(f, xs.item.doc);
    if xs.MoreItems? {
      RfcItemsAreGood(f, xs.others);
    }
  }
}
