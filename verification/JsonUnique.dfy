/**
 The grammar of the session-log parser is unambiguous: a text has one syntax tree only. So whether
 an accepted text is one of RFC 8259 can be read off its tree.
 */
module JsonUnique {
  import opened Basics
  import opened JsonText
  import opened JsonGrammar
  import opened JsonProofs

  // ---------- tokens ----------

  lemma Split(a: seq<byte>, b: seq<byte>, rest: seq<byte>)
    requires a + rest == b + rest
    ensures a == b
  {
    assert a == (a + rest)[..|a + rest| - |rest|];
    assert b == (b + rest)[..|b + rest| - |rest|];
  }

  lemma HeadsEqual(x: byte, a: seq<byte>, y: byte, b: seq<byte>)
    requires [x] + a == [y] + b
    ensures x == y && a == b
  {
    assert ([x] + a)[0] == x && ([y] + b)[0] == y;
    assert ([x] + a)[1..] == a && ([y] + b)[1..] == b;
  }

  lemma SpaceUnique(gap: seq<byte>, body: seq<byte>, gap': seq<byte>, body': seq<byte>)
    requires AllSpace(gap) && AllSpace(gap') && gap + body == gap' + body'
    requires (body == [] || !IsSpace(body[0])) && (body' == [] || !IsSpace(body'[0]))
    ensures gap == gap' && body == body'
  {
    SkipsSpace(gap, body);
    SkipsSpace(gap', body');
    Split(gap, gap', body);
  }

  lemma DigitsUnique(digits: seq<byte>, rest: seq<byte>, digits': seq<byte>, rest': seq<byte>)
    requires AllDigits(digits) && AllDigits(digits') && digits + rest == digits' + rest'
    requires (rest == [] || !IsDigit(rest[0])) && (rest' == [] || !IsDigit(rest'[0]))
    ensures digits == digits' && rest == rest'
  {
    SkipsDigits(digits, rest);
    SkipsDigits(digits', rest');
    Split(digits, digits', rest);
  }

  lemma PartUnique(p: Part, rest: seq<byte>, p': Part, rest': seq<byte>)
    requires GoodPart(p) && rest != [] && !IsContinuation(rest[0])
    requires GoodPart(p') && rest' != [] && !IsContinuation(rest'[0])
    requires PrintPart(p) + rest == PrintPart(p') + rest'
    ensures p == p' && rest == rest'
  {
    ReadsPart(p, rest);
    ReadsPart(p', rest');
    Split(PrintPart(p), PrintPart(p'), rest);
    SamePrintedPart(p, p');
  }

  lemma SamePrintedPart(p: Part, p': Part)
    requires GoodPart(p) && GoodPart(p') && PrintPart(p) == PrintPart(p') && PartMeaning(p) == PartMeaning(p')
    ensures p == p'
  {
    PlainIsNoEscape(p);
    PlainIsNoEscape(p');
    assert p.Escaped? ==> PrintPart(p)[1] != 0x75;
    assert p'.Escaped? ==> PrintPart(p')[1] != 0x75;
    if p.Escaped? && p'.Escaped? {
      assert PrintPart(p)[1] == p.b && PrintPart(p')[1] == p'.b;
    } else if p.Coded? && p'.Coded? {
      assert PrintPart(p)[2..] == p.hex && PrintPart(p')[2..] == p'.hex;
    }
  }

  lemma PlainIsNoEscape(p: Part)
    requires GoodPart(p)
    ensures PrintPart(p) != [] && (p.Plain? <==> PrintPart(p)[0] != BACKSLASH)
  {
    if p.Plain? {
      ReadsPlain(p.c, [QUOTE]);
    }
  }

  lemma {:induction false} PartsUnique(ps: seq<Part>, rest: seq<byte>, ps': seq<Part>, rest': seq<byte>)
    requires GoodParts(ps) && GoodParts(ps')
    requires PrintParts(ps, [QUOTE] + rest) == PrintParts(ps', [QUOTE] + rest')
    ensures ps == ps' && rest == rest'
  {
    var q, q' := [QUOTE] + rest, [QUOTE] + rest';
    if ps != [] && ps' != [] {
      PartsStart(ps[1..], q);
      PartsStart(ps'[1..], q');
      PartUnique(ps[0], PrintParts(ps[1..], q), ps'[0], PrintParts(ps'[1..], q'));
      PartsUnique(ps[1..], rest, ps'[1..], rest');
      assert ps == [ps[0]] + ps[1..] && ps' == [ps'[0]] + ps'[1..];
    } else if ps == [] && ps' == [] {
      HeadsEqual(QUOTE, rest, QUOTE, rest');
    } else if ps == [] {
      PartIsNoQuote(ps', q');
    } else {
      PartIsNoQuote(ps, q);
    }
  }

  lemma PartIsNoQuote(ps: seq<Part>, rest: seq<byte>)
    requires GoodParts(ps) && ps != [] && rest != [] && !IsContinuation(rest[0])
    ensures PrintParts(ps, rest) != [] && PrintParts(ps, rest)[0] != QUOTE
  {
    PartsStart(ps[1..], rest);
    ReadsPart(ps[0], PrintParts(ps[1..], rest));
  }

  ghost function PrintSigned(sign: Option<byte>, digits: seq<byte>): seq<byte> {
    (if sign.Some? then [sign.value] else []) + digits
  }

  lemma SignedUnique(sign: Option<byte>, digits: seq<byte>, sign': Option<byte>, digits': seq<byte>)
    requires AllDigits(digits) && AllDigits(digits')
    requires (sign.Some? ==> IsSign(sign.value)) && (sign'.Some? ==> IsSign(sign'.value))
    requires PrintSigned(sign, digits) == PrintSigned(sign', digits')
    ensures sign == sign' && digits == digits'
  {
    var s, s' := PrintSigned(sign, digits), PrintSigned(sign', digits');
    assert sign.Some? <==> s != [] && IsSign(s[0]);
    assert sign'.Some? <==> s' != [] && IsSign(s'[0]);
    if sign.Some? {
      HeadsEqual(sign.value, digits, sign'.value, digits');
    } else {
      assert s == digits && s' == digits';
    }
  }

  lemma ExponentUnique(e: Option<Exponent>, e': Option<Exponent>)
    requires (e.Some? ==> GoodExponent(e.value)) && (e'.Some? ==> GoodExponent(e'.value))
    requires PrintExponent(e) == PrintExponent(e')
    ensures e == e'
  {
    if e.Some? && e'.Some? {
      var x, x' := e.value, e'.value;
      assert PrintExponent(e) == [x.mark] + PrintSigned(x.sign, x.digits);
      assert PrintExponent(e') == [x'.mark] + PrintSigned(x'.sign, x'.digits);
      HeadsEqual(x.mark, PrintSigned(x.sign, x.digits), x'.mark, PrintSigned(x'.sign, x'.digits));
      SignedUnique(x.sign, x.digits, x'.sign, x'.digits);
    }
  }

  lemma ExponentStarts(e: Option<Exponent>)
    requires e.Some? ==> GoodExponent(e.value)
    ensures PrintExponent(e) == [] || (IsExponent(PrintExponent(e)[0]) && !IsDigit(PrintExponent(e)[0]) && PrintExponent(e)[0] != DOT)
  {
  }

  lemma FractionUnique(f: Option<seq<byte>>, e: seq<byte>, f': Option<seq<byte>>, e': seq<byte>)
    requires (f.Some? ==> AllDigits(f.value)) && (f'.Some? ==> AllDigits(f'.value))
    requires (e == [] || (!IsDigit(e[0]) && e[0] != DOT)) && (e' == [] || (!IsDigit(e'[0]) && e'[0] != DOT))
    requires PrintFraction(f) + e == PrintFraction(f') + e'
    ensures f == f' && e == e'
  {
    hide PrintFraction;
    FractionTells(f, e);
    FractionTells(f', e');
    if f.Some? {
      HeadsEqual(DOT, f.value + e, DOT, f'.value + e');
      DigitsUnique(f.value, e, f'.value, e');
    }
  }

  lemma FractionTells(f: Option<seq<byte>>, e: seq<byte>)
    requires e == [] || e[0] != DOT
    ensures f.Some? <==> PrintFraction(f) + e != [] && (PrintFraction(f) + e)[0] == DOT
    ensures PrintFraction(f) + e == if f.Some? then [DOT] + (f.value + e) else e
  {
  }

  /** A number token is spelled in one way only. */
  lemma TokenUnique(t: NumberToken, t': NumberToken)
    requires GoodToken(t) && GoodToken(t') && PrintToken(t) == PrintToken(t')
    ensures t == t'
  {
    hide PrintExponent, PrintFraction, GoodExponent;
    var e, e' := PrintExponent(t.exponent), PrintExponent(t'.exponent);
    ExponentStarts(t.exponent);
    ExponentStarts(t'.exponent);
    var r, r' := PrintFraction(t.fraction) + e, PrintFraction(t'.fraction) + e';
    AfterWhole(t.fraction, e);
    AfterWhole(t'.fraction, e');
    MinusUnique(t.minus, t.whole, r, t'.minus, t'.whole, r');
    DigitsUnique(t.whole, r, t'.whole, r');
    FractionUnique(t.fraction, e, t'.fraction, e');
    ExponentUnique(t.exponent, t'.exponent);
  }

  lemma AfterWhole(f: Option<seq<byte>>, e: seq<byte>)
    requires e == [] || !IsDigit(e[0])
    ensures PrintFraction(f) + e == [] || !IsDigit((PrintFraction(f) + e)[0])
  {
  }

  lemma MinusUnique(minus: bool, whole: seq<byte>, r: seq<byte>, minus': bool, whole': seq<byte>, r': seq<byte>)
    requires AllDigits(whole) && AllDigits(whole') && (minus || whole != []) && (minus' || whole' != [])
    requires (if minus then [MINUS] else []) + (whole + r) == (if minus' then [MINUS] else []) + (whole' + r')
    ensures minus == minus' && whole + r == whole' + r'
  {
    var s, s' := (if minus then [MINUS] else []) + (whole + r), (if minus' then [MINUS] else []) + (whole' + r');
    assert minus ==> s[0] == MINUS;
    assert !minus ==> s[0] == whole[0] && s == whole + r;
    assert minus' ==> s'[0] == MINUS;
    assert !minus' ==> s'[0] == whole'[0] && s' == whole' + r';
    if minus && minus' {
      HeadsEqual(MINUS, whole + r, MINUS, whole' + r');
    }
  }

  // ---------- trees ----------

  /** Which kind of node a text starts. */
  ghost function Kind(n: Node): nat {
    match n
    case EmptyObject(_) => 0
    case Members(_) => 0
    case EmptyArray(_) => 1
    case Items(_) => 1
    case Text(_) => 2
    case Numeral(_) => 3
    case Truth(b) => if b then 4 else 5
    case Nothing => 6
  }

  ghost function KindOfByte(b: byte): nat {
    if b == LBRACE then 0 else if b == LBRACKET then 1 else if b == QUOTE then 2
    else if b == 0x74 then 4 else if b == 0x66 then 5 else if b == 0x6E then 6 else 3
  }

  lemma FirstByteTells(n: Node, rest: seq<byte>)
    requires n.Numeral? ==> GoodToken(n.token) && Delimited(rest)
    ensures PrintNode(n, rest) != [] && !IsSpace(PrintNode(n, rest)[0]) && KindOfByte(PrintNode(n, rest)[0]) == Kind(n)
  {
    hide PrintMembers, PrintItems, PrintParts;
    match n
    case Numeral(t) => ReadsNumber(t, rest);
    case _ =>
  }

  ghost predicate GoodNode(f: ToFloat, n: Node) {
    GoodDoc(f, Doc([], n))
  }

  /**
   Two documents printed alike are the same, and so is what follows them. Each may be judged by a
   conversion of its own: which numbers are taken makes no difference to the grammar.
   */
  lemma {:induction false} DocUnique(f: ToFloat, d: Doc, rest: seq<byte>, f': ToFloat, d': Doc, rest': seq<byte>)
    requires GoodDoc(f, d) && Delimited(rest) && GoodDoc(f', d') && Delimited(rest')
    requires Print(d, rest) == Print(d', rest')
    ensures d == d' && rest == rest'
    decreases d, 1
  {
    hide PrintNode, Delimited, KindOfByte;
    GoodNodeOf(f, d);
    GoodNodeOf(f', d');
    FirstByteTells(d.node, rest);
    FirstByteTells(d'.node, rest');
    SpaceUnique(d.lead, PrintNode(d.node, rest), d'.lead, PrintNode(d'.node, rest'));
    if Kind(d.node) == 0 {
      ObjectUnique(f, d.node, rest, f', d'.node, rest');
    } else if Kind(d.node) == 1 {
      ArrayUnique(f, d.node, rest, f', d'.node, rest');
    } else {
      ScalarUnique(f, d.node, rest, f', d'.node, rest');
    }
  }

  lemma GoodNodeOf(f: ToFloat, d: Doc)
    requires GoodDoc(f, d)
    ensures AllSpace(d.lead) && GoodNode(f, d.node) && (d.node.Numeral? ==> GoodToken(d.node.token))
  {
  }

  lemma ScalarUnique(f: ToFloat, n: Node, rest: seq<byte>, f': ToFloat, n': Node, rest': seq<byte>)
    requires GoodNode(f, n) && Delimited(rest) && GoodNode(f', n') && Delimited(rest')
    requires Kind(n) == Kind(n') >= 2 && PrintNode(n, rest) == PrintNode(n', rest')
    ensures n == n' && rest == rest'
  {
    hide PrintToken, PrintParts, AfterNumber;
    match n
    case Text(ps) =>
      HeadsEqual(QUOTE, PrintParts(ps, [QUOTE] + rest), QUOTE, PrintParts(n'.parts, [QUOTE] + rest'));
      PartsUnique(ps, rest, n'.parts, rest');
    case Numeral(t) =>
      ReadsNumber(t, rest);
      ReadsNumber(n'.token, rest');
      Split(PrintToken(t), PrintToken(n'.token), rest);
      TokenUnique(t, n'.token);
    case Truth(b) =>
      WordsEnd(if b then TRUE else FALSE, rest, rest');
    case Nothing =>
      WordsEnd(NULL, rest, rest');
  }

  lemma WordsEnd(word: seq<byte>, rest: seq<byte>, rest': seq<byte>)
    requires word + rest == word + rest'
    ensures rest == rest'
  {
    assert (word + rest)[|word|..] == rest && (word + rest')[|word|..] == rest';
  }

  lemma {:induction false} ObjectUnique(f: ToFloat, n: Node, rest: seq<byte>, f': ToFloat, n': Node, rest': seq<byte>)
    requires GoodNode(f, n) && GoodNode(f', n') && Kind(n) == Kind(n') == 0
    requires PrintNode(n, rest) == PrintNode(n', rest')
    ensures n == n' && rest == rest'
    decreases n, 1
  {
    hide PrintMembers, GoodMembers;
    if n.EmptyObject? && n'.EmptyObject? {
      HeadsEqual(LBRACE, n.gap + ([RBRACE] + rest), LBRACE, n'.gap + ([RBRACE] + rest'));
      SpaceUnique(n.gap, [RBRACE] + rest, n'.gap, [RBRACE] + rest');
      HeadsEqual(RBRACE, rest, RBRACE, rest');
    } else if n.Members? && n'.Members? {
      HeadsEqual(LBRACE, PrintMembers(n.members, [RBRACE] + rest), LBRACE, PrintMembers(n'.members, [RBRACE] + rest'));
      MembersUnique(f, n.members, rest, f', n'.members, rest');
    } else if n.EmptyObject? {
      EmptyOrNot(f', n.gap, rest, n'.members, rest');
    } else {
      EmptyOrNot(f, n'.gap, rest', n.members, rest);
    }
  }

  lemma EmptyOrNot(f: ToFloat, gap: seq<byte>, rest: seq<byte>, ms: MemberList, rest': seq<byte>)
    requires AllSpace(gap) && GoodMembers(f, ms)
    ensures [LBRACE] + (gap + ([RBRACE] + rest)) != [LBRACE] + PrintMembers(ms, [RBRACE] + rest')
  {
    hide PrintMembers;
    if [LBRACE] + (gap + ([RBRACE] + rest)) == [LBRACE] + PrintMembers(ms, [RBRACE] + rest') {
      HeadsEqual(LBRACE, gap + ([RBRACE] + rest), LBRACE, PrintMembers(ms, [RBRACE] + rest'));
      var body := MembersStart(ms, [RBRACE] + rest');
      SpaceUnique(gap, [RBRACE] + rest, ms.member.before, body);
    }
  }

  lemma {:induction false} MembersUnique(f: ToFloat, ms: MemberList, rest: seq<byte>,
                                         f': ToFloat, ms': MemberList, rest': seq<byte>)
    requires GoodMembers(f, ms) && GoodMembers(f', ms')
    requires PrintMembers(ms, [RBRACE] + rest) == PrintMembers(ms', [RBRACE] + rest')
    ensures ms == ms' && rest == rest'
    decreases ms
  {
    hide PrintMember, GoodDoc;
    var next := if ms.MoreMembers? then [COMMA] + PrintMembers(ms.others, [RBRACE] + rest) else [RBRACE] + rest;
    var next' := if ms'.MoreMembers? then [COMMA] + PrintMembers(ms'.others, [RBRACE] + rest') else [RBRACE] + rest';
    MemberUnique(f, ms.member, next, f', ms'.member, next');
    assert next[0] == next'[0];
    if ms.MoreMembers? && ms'.MoreMembers? {
      HeadsEqual(COMMA, PrintMembers(ms.others, [RBRACE] + rest), COMMA, PrintMembers(ms'.others, [RBRACE] + rest'));
      MembersUnique(f, ms.others, rest, f', ms'.others, rest');
    } else if ms.LastMember? && ms'.LastMember? {
      HeadsEqual(RBRACE, rest, RBRACE, rest');
    }
  }

  lemma {:induction false} MemberUnique(f: ToFloat, m: Member, next: seq<byte>, f': ToFloat, m': Member, next': seq<byte>)
    requires AllSpace(m.before) && GoodParts(m.key) && AllSpace(m.middle) && AllSpace(m.after) && GoodDoc(f, m.doc)
    requires AllSpace(m'.before) && GoodParts(m'.key) && AllSpace(m'.middle) && AllSpace(m'.after) && GoodDoc(f', m'.doc)
    requires next != [] && Delimited(next) && !IsSpace(next[0]) && next' != [] && Delimited(next') && !IsSpace(next'[0])
    requires PrintMember(m, next) == PrintMember(m', next')
    ensures m == m' && next == next'
    decreases m
  {
    hide GoodDoc, Print, PrintParts, Delimited, AllSpace, GoodParts, IsSpace;
    var v, v' := Print(m.doc, m.after + next), Print(m'.doc, m'.after + next');
    var k, k' := m.middle + ([COLON] + v), m'.middle + ([COLON] + v');
    NoSpaceAhead(QUOTE, PrintParts(m.key, [QUOTE] + k));
    NoSpaceAhead(QUOTE, PrintParts(m'.key, [QUOTE] + k'));
    SpaceUnique(m.before, PrintString(m.key, k), m'.before, PrintString(m'.key, k'));
    HeadsEqual(QUOTE, PrintParts(m.key, [QUOTE] + k), QUOTE, PrintParts(m'.key, [QUOTE] + k'));
    PartsUnique(m.key, k, m'.key, k');
    NoSpaceAhead(COLON, v);
    NoSpaceAhead(COLON, v');
    SpaceUnique(m.middle, [COLON] + v, m'.middle, [COLON] + v');
    HeadsEqual(COLON, v, COLON, v');
    DelimitedBySpace(m.after, next);
    DelimitedBySpace(m'.after, next');
    DocUnique(f, m.doc, m.after + next, f', m'.doc, m'.after + next');
    SpaceUnique(m.after, next, m'.after, next');
  }

  lemma NoSpaceAhead(b: byte, rest: seq<byte>)
    ensures ([b] + rest)[0] == b && !IsSpace(QUOTE) && !IsSpace(COLON)
  {
  }

  lemma {:induction false} ArrayUnique(f: ToFloat, n: Node, rest: seq<byte>, f': ToFloat, n': Node, rest': seq<byte>)
    requires GoodNode(f, n) && GoodNode(f', n') && Kind(n) == Kind(n') == 1
    requires PrintNode(n, rest) == PrintNode(n', rest')
    ensures n == n' && rest == rest'
    decreases n, 1
  {
    hide PrintItems, GoodItems;
    if n.EmptyArray? && n'.EmptyArray? {
      HeadsEqual(LBRACKET, n.gap + ([RBRACKET] + rest), LBRACKET, n'.gap + ([RBRACKET] + rest'));
      SpaceUnique(n.gap, [RBRACKET] + rest, n'.gap, [RBRACKET] + rest');
      HeadsEqual(RBRACKET, rest, RBRACKET, rest');
    } else if n.Items? && n'.Items? {
      HeadsEqual(LBRACKET, PrintItems(n.items, [RBRACKET] + rest), LBRACKET, PrintItems(n'.items, [RBRACKET] + rest'));
      ItemsUnique(f, n.items, rest, f', n'.items, rest');
    } else if n.EmptyArray? {
      NoItemsOrSome(f', n.gap, rest, n'.items, rest');
    } else {
      NoItemsOrSome(f, n'.gap, rest', n.items, rest);
    }
  }

  lemma NoItemsOrSome(f: ToFloat, gap: seq<byte>, rest: seq<byte>, xs: ItemList, rest': seq<byte>)
    requires AllSpace(gap) && GoodItems(f, xs)
    ensures [LBRACKET] + (gap + ([RBRACKET] + rest)) != [LBRACKET] + PrintItems(xs, [RBRACKET] + rest')
  {
    hide PrintItems;
    if [LBRACKET] + (gap + ([RBRACKET] + rest)) == [LBRACKET] + PrintItems(xs, [RBRACKET] + rest') {
      HeadsEqual(LBRACKET, gap + ([RBRACKET] + rest), LBRACKET, PrintItems(xs, [RBRACKET] + rest'));
      var body := ItemsStart(xs, [RBRACKET] + rest');
      SpaceUnique(gap, [RBRACKET] + rest, xs.item.doc.lead, body);
    }
  }

  lemma {:induction false} ItemsUnique(f: ToFloat, xs: ItemList, rest: seq<byte>, f': ToFloat, xs': ItemList, rest': seq<byte>)
    requires GoodItems(f, xs) && GoodItems(f', xs')
    requires PrintItems(xs, [RBRACKET] + rest) == PrintItems(xs', [RBRACKET] + rest')
    ensures xs == xs' && rest == rest'
    decreases xs
  {
    hide Print, GoodDoc;
    var next := if xs.MoreItems? then [COMMA] + PrintItems(xs.others, [RBRACKET] + rest) else [RBRACKET] + rest;
    var next' := if xs'.MoreItems? then [COMMA] + PrintItems(xs'.others, [RBRACKET] + rest') else [RBRACKET] + rest';
    DelimitedBySpace(xs.item.after, next);
    DelimitedBySpace(xs'.item.after, next');
    DocUnique(f, xs.item.doc, xs.item.after + next, f', xs'.item.doc, xs'.item.after + next');
    SpaceUnique(xs.item.after, next, xs'.item.after, next');
    assert next[0] == next'[0];
    if xs.MoreItems? && xs'.MoreItems? {
      HeadsEqual(COMMA, PrintItems(xs.others, [RBRACKET] + rest), COMMA, PrintItems(xs'.others, [RBRACKET] + rest'));
      ItemsUnique(f, xs.others, rest, f', xs'.others, rest');
    } else if xs.LastItem? && xs'.LastItem? {
      HeadsEqual(RBRACKET, rest, RBRACKET, rest');
    }
  }
}
