/**
 The texts the session-log parser accepts, as syntax trees with their white space and spelling,
 how each is printed and what it denotes.
 */
module JsonGrammar {
  import opened Basics
  import opened JsonText

  /** One character of a string: itself, a two-byte escape, or `\u` and four bytes. */
  datatype Part = Plain(c: char) | Escaped(b: byte) | Coded(hex: seq<byte>)

  datatype Exponent = Exponent(mark: byte, sign: Option<byte>, digits: seq<byte>)

  datatype NumberToken =
    NumberToken(minus: bool, whole: seq<byte>, fraction: Option<seq<byte>>, exponent: Option<Exponent>)

  datatype Doc = Doc(lead: seq<byte>, node: Node)

  datatype Node =
    | EmptyObject(gap: seq<byte>)
    | Members(members: MemberList)
    | EmptyArray(gap: seq<byte>)
    | Items(items: ItemList)
    | Text(parts: seq<Part>)
    | Numeral(token: NumberToken)
    | Truth(b: bool)
    | Nothing

  datatype Member = Member(before: seq<byte>, key: seq<Part>, middle: seq<byte>, doc: Doc, after: seq<byte>)

  datatype MemberList = LastMember(member: Member) | MoreMembers(member: Member, others: MemberList)

  datatype Item = Item(doc: Doc, after: seq<byte>)

  datatype ItemList = LastItem(item: Item) | MoreItems(item: Item, others: ItemList)

  // ---------- well-formed trees ----------

  ghost predicate AllSpace(s: seq<byte>) { forall i | 0 <= i < |s| :: IsSpace(s[i]) }

  ghost predicate AllDigits(s: seq<byte>) { forall i | 0 <= i < |s| :: IsDigit(s[i]) }

  ghost predicate GoodPart(p: Part) {
    match p
    case Plain(c) => c != '"' && c != '\\'
    case Escaped(b) => ShortEscape(b).Some?
    case Coded(hex) => |hex| == 4 && HexCode(hex).Some?
  }

  ghost predicate GoodParts(ps: seq<Part>) { forall i | 0 <= i < |ps| :: GoodPart(ps[i]) }

  ghost predicate GoodExponent(e: Exponent) {
    IsExponent(e.mark) && AllDigits(e.digits) && (e.sign.Some? ==> IsSign(e.sign.value))
  }

  ghost predicate GoodToken(t: NumberToken) {
    && AllDigits(t.whole) && (t.minus || t.whole != [])
    && (t.fraction.Some? ==> AllDigits(t.fraction.value))
    && (t.exponent.Some? ==> GoodExponent(t.exponent.value))
  }

  ghost predicate GoodDoc(f: ToFloat, d: Doc) {
    AllSpace(d.lead) &&
    match d.node
    case EmptyObject(gap) => AllSpace(gap)
    case Members(ms) => GoodMembers(f, ms)
    case EmptyArray(gap) => AllSpace(gap)
    case Items(xs) => GoodItems(f, xs)
    case Text(ps) => GoodParts(ps)
    case Numeral(t) => GoodToken(t) && f(PrintToken(t)).Some?
    case Truth(_) => true
    case Nothing => true
  }

  ghost predicate GoodMembers(f: ToFloat, ms: MemberList) {
    && AllSpace(ms.member.before) && GoodParts(ms.member.key) && AllSpace(ms.member.middle) && AllSpace(ms.member.after)
    && GoodDoc(f, ms.member.doc)
    && (ms.MoreMembers? ==> GoodMembers(f, ms.others))
  }

  ghost predicate GoodItems(f: ToFloat, xs: ItemList) {
    GoodDoc(f, xs.item.doc) && AllSpace(xs.item.after) && (xs.MoreItems? ==> GoodItems(f, xs.others))
  }

  // ---------- printing ----------

  ghost function PrintPart(p: Part): seq<byte> {
    match p
    case Plain(c) => Utf8(c)
    case Escaped(b) => [BACKSLASH, b]
    case Coded(hex) => [BACKSLASH, 0x75] + hex
  }

  ghost function PrintParts(ps: seq<Part>, rest: seq<byte>): seq<byte> {
    if ps == [] then rest else PrintPart(ps[0]) + PrintParts(ps[1..], rest)
  }

  ghost function PrintExponent(e: Option<Exponent>): seq<byte> {
    match e
    case None => []
    case Some(e) => [e.mark] + (if e.sign.Some? then [e.sign.value] else []) + e.digits
  }

  ghost function PrintFraction(f: Option<seq<byte>>): seq<byte> {
    match f
    case None => []
    case Some(digits) => [DOT] + digits
  }

  ghost function PrintToken(t: NumberToken): seq<byte> {
    (if t.minus then [MINUS] else []) + (t.whole + (PrintFraction(t.fraction) + PrintExponent(t.exponent)))
  }

  /** A quoted string, then `rest`. */
  ghost function PrintString(ps: seq<Part>, rest: seq<byte>): seq<byte> {
    [QUOTE] + PrintParts(ps, [QUOTE] + rest)
  }

  /** The text of `d`, then `rest`. */
  ghost function Print(d: Doc, rest: seq<byte>): seq<byte> {
    d.lead + PrintNode(d.node, rest)
  }

  ghost function PrintNode(n: Node, rest: seq<byte>): seq<byte> {
    match n
    case EmptyObject(gap) => [LBRACE] + (gap + ([RBRACE] + rest))
    case Members(ms) => [LBRACE] + PrintMembers(ms, [RBRACE] + rest)
    case EmptyArray(gap) => [LBRACKET] + (gap + ([RBRACKET] + rest))
    case Items(xs) => [LBRACKET] + PrintItems(xs, [RBRACKET] + rest)
    case Text(ps) => PrintString(ps, rest)
    case Numeral(t) => PrintToken(t) + rest
    case Truth(b) => (if b then TRUE else FALSE) + rest
    case Nothing => NULL + rest
  }

  ghost function PrintMembers(ms: MemberList, rest: seq<byte>): seq<byte> {
    PrintMember(ms.member, if ms.MoreMembers? then [COMMA] + PrintMembers(ms.others, rest) else rest)
  }

  ghost function PrintMember(m: Member, rest: seq<byte>): seq<byte> {
    m.before + PrintString(m.key, m.middle + ([COLON] + Print(m.doc, m.after + rest)))
  }

  ghost function PrintItems(xs: ItemList, rest: seq<byte>): seq<byte> {
    var next := if xs.MoreItems? then [COMMA] + PrintItems(xs.others, rest) else rest;
    Print(xs.item.doc, xs.item.after + next)
  }

  lemma {:induction false} PrintPartsAppends(ps: seq<Part>, rest: seq<byte>)
    ensures PrintParts(ps, rest) == PrintParts(ps, []) + rest
  {
    if ps == [] {
    } else {
      PrintPartsAppends(ps[1..], rest);
    }
  }

  lemma PrintStringAppends(ps: seq<Part>, rest: seq<byte>)
    ensures PrintString(ps, rest) == PrintString(ps, []) + rest
  {
    PrintPartsAppends(ps, [QUOTE] + rest);
    PrintPartsAppends(ps, [QUOTE] + []);
  }

  /** What follows a document is printed after it and changes nothing in it. */
  lemma {:induction false} PrintAppends(d: Doc, rest: seq<byte>)
    ensures Print(d, rest) == Print(d, []) + rest
  {
    hide PrintMembers, PrintItems, PrintString, PrintToken;
    match d.node
    case Members(ms) =>
      PrintMembersAppends(ms, [RBRACE] + rest);
      PrintMembersAppends(ms, [RBRACE] + []);
    case Items(xs) =>
      PrintItemsAppends(xs, [RBRACKET] + rest);
      PrintItemsAppends(xs, [RBRACKET] + []);
    case Text(ps) => PrintStringAppends(ps, rest);
    case _ =>
  }

  lemma {:induction false} PrintMemberAppends(m: Member, rest: seq<byte>)
    ensures PrintMember(m, rest) == PrintMember(m, []) + rest
  {
    hide PrintString, Print;
    PrintAppends(m.doc, m.after + rest);
    PrintAppends(m.doc, m.after + []);
    assert m.after + [] == m.after;
    var tail := m.middle + ([COLON] + Print(m.doc, m.after));
    assert m.middle + ([COLON] + (Print(m.doc, []) + (m.after + rest))) == tail + rest;
    PrintStringAppends(m.key, tail + rest);
    PrintStringAppends(m.key, tail);
    assert m.before + (PrintString(m.key, []) + (tail + rest)) == (m.before + (PrintString(m.key, []) + tail)) + rest;
  }

  lemma {:induction false} PrintMembersAppends(ms: MemberList, rest: seq<byte>)
    ensures PrintMembers(ms, rest) == PrintMembers(ms, []) + rest
  {
    hide PrintMember;
    if ms.MoreMembers? {
      PrintMembersAppends(ms.others, rest);
      PrintMemberAppends(ms.member, [COMMA] + PrintMembers(ms.others, rest));
      PrintMemberAppends(ms.member, [COMMA] + PrintMembers(ms.others, []));
    } else {
      PrintMemberAppends(ms.member, rest);
    }
  }

  lemma {:induction false} PrintItemsAppends(xs: ItemList, rest: seq<byte>)
    ensures PrintItems(xs, rest) == PrintItems(xs, []) + rest
  {
    var next := if xs.MoreItems? then [COMMA] + PrintItems(xs.others, rest) else rest;
    var alone := if xs.MoreItems? then [COMMA] + PrintItems(xs.others, []) else [];
    if xs.MoreItems? {
      PrintItemsAppends(xs.others, rest);
    }
    assert next == alone + rest;
    PrintAppends(xs.item.doc, xs.item.after + next);
    PrintAppends(xs.item.doc, xs.item.after + alone);
  }

  // ---------- meaning ----------

  ghost function PartMeaning(p: Part): char
    requires GoodPart(p)
  {
    match p
    case Plain(c) => c
    case Escaped(b) => ShortEscape(b).value
    case Coded(hex) => CharOfCode(HexCode(hex).value)
  }

  ghost function PartsMeaning(ps: seq<Part>): string
    requires GoodParts(ps)
  {
    if ps == [] then "" else [PartMeaning(ps[0])] + PartsMeaning(ps[1..])
  }

  ghost function Meaning(f: ToFloat, d: Doc): JsonValue
    requires GoodDoc(f, d)
  {
    match d.node
    case EmptyObject(_) => Object([])
    case Members(ms) => Object(MembersMeaning(f, ms))
    case EmptyArray(_) => Array([])
    case Items(xs) => Array(ItemsMeaning(f, xs))
    case Text(ps) => String(PartsMeaning(ps))
    case Numeral(t) => Number(f(PrintToken(t)).value)
    case Truth(b) => Bool(b)
    case Nothing => Null
  }

  ghost function MembersMeaning(f: ToFloat, ms: MemberList): seq<(string, JsonValue)>
    requires GoodMembers(f, ms)
  {
    [(PartsMeaning(ms.member.key), Meaning(f, ms.member.doc))] +
    if ms.MoreMembers? then MembersMeaning(f, ms.others) else []
  }

  ghost function ItemsMeaning(f: ToFloat, xs: ItemList): seq<JsonValue>
    requires GoodItems(f, xs)
  {
    [Meaning(f, xs.item.doc)] + if xs.MoreItems? then ItemsMeaning(f, xs.others) else []
  }
}
