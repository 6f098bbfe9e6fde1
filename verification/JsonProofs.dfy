/**
 The session-log parser accepts exactly the texts of `JsonGrammar` and returns what they denote:
 it undoes the printer before any delimiter, and whatever it accepts was printed from a tree.
 */
module JsonProofs {
  import opened Basics
  import opened JsonText
  import opened JsonGrammar

  /** What may follow a number: the end, white space, or a comma or closing bracket. */
  ghost predicate Delimited(rest: seq<byte>) {
    rest == [] || IsSpace(rest[0]) || rest[0] == COMMA || rest[0] == RBRACKET || rest[0] == RBRACE
  }

  // ---------- every printed text is read back ----------

  lemma {:induction false} SkipsSpace(gap: seq<byte>, rest: seq<byte>)
    requires AllSpace(gap) && (rest == [] || !IsSpace(rest[0]))
    ensures SkipSpace(gap + rest) == rest
  {
    if gap == [] {
      assert gap + rest == rest;
    } else {
      SkipsSpace(gap[1..], rest);
      assert (gap + rest)[1..] == gap[1..] + rest;
    }
  }

  lemma {:induction false} SkipsDigits(digits: seq<byte>, rest: seq<byte>)
    requires AllDigits(digits) && (rest == [] || !IsDigit(rest[0]))
    ensures SkipDigits(digits + rest) == rest
  {
    if digits == [] {
      assert digits + rest == rest;
    } else {
      SkipsDigits(digits[1..], rest);
      assert (digits + rest)[1..] == digits[1..] + rest;
    }
  }

  lemma {:induction false} SkipsContinuation(tail: seq<byte>, rest: seq<byte>)
    requires (forall i | 0 <= i < |tail| :: IsContinuation(tail[i])) && (rest == [] || !IsContinuation(rest[0]))
    ensures SkipContinuation(tail + rest) == rest
  {
    if tail == [] {
      assert tail + rest == rest;
    } else {
      SkipsContinuation(tail[1..], rest);
      assert (tail + rest)[1..] == tail[1..] + rest;
    }
  }

  lemma ReadsPlain(c: char, rest: seq<byte>)
    requires c != '"' && c != '\\' && rest != [] && !IsContinuation(rest[0])
    ensures Utf8(c)[0] != QUOTE && Utf8(c)[0] != BACKSLASH
    ensures NextChar(Utf8(c) + rest) == Ok(c, rest)
  {
    Utf8RoundTrip(c);
    var e := Utf8(c);
    assert e[0] != QUOTE && e[0] != BACKSLASH by {
      assert '"' as int == 0x22 && '\\' as int == 0x5C;
    }
    hide Utf8, FromUtf8;
    SkipsContinuation(e[1..], rest);
    assert (e + rest)[1..] == e[1..] + rest;
    assert (e + rest)[..|e|] == e;
  }

  lemma ReadsPart(p: Part, rest: seq<byte>)
    requires GoodPart(p) && rest != [] && !IsContinuation(rest[0])
    ensures PrintPart(p) != [] && PrintPart(p)[0] != QUOTE && !IsContinuation(PrintPart(p)[0])
    ensures NextChar(PrintPart(p) + rest) == Ok(PartMeaning(p), rest)
  {
    match p
    case Plain(c) =>
      ReadsPlain(c, rest);
      Utf8RoundTrip(c);
    case Escaped(b) =>
      assert ([BACKSLASH, b] + rest)[2..] == rest;
    case Coded(hex) =>
      var s := [BACKSLASH, 0x75] + hex + rest;
      assert s[2..6] == hex && s[6..] == rest;
  }

  lemma {:induction false} PartsStart(ps: seq<Part>, rest: seq<byte>)
    requires GoodParts(ps) && rest != [] && !IsContinuation(rest[0])
    ensures PrintParts(ps, rest) != [] && !IsContinuation(PrintParts(ps, rest)[0])
  {
  }

  lemma {:induction false} ReadsString(ps: seq<Part>, rest: seq<byte>, read: string)
    requires GoodParts(ps)
    ensures StringRest(PrintParts(ps, [QUOTE] + rest), read) == Ok(read + PartsMeaning(ps), rest)
    decreases |ps|
  {
    var end := [QUOTE] + rest;
    if ps == [] {
      assert end[1..] == rest && read + "" == read;
    } else {
      PartsStart(ps[1..], end);
      var later := PrintParts(ps[1..], end);
      hide NextChar, PrintPart, PartMeaning, GoodPart;
      ReadsPart(ps[0], later);
      ReadsString(ps[1..], rest, read + [PartMeaning(ps[0])]);
      assert read + [PartMeaning(ps[0])] + PartsMeaning(ps[1..]) == read + PartsMeaning(ps);
    }
  }

  lemma ReadsExponent(e: Option<Exponent>, rest: seq<byte>)
    requires e.Some? ==> GoodExponent(e.value)
    requires Delimited(rest)
    ensures AfterExponent(PrintExponent(e) + rest) == rest
  {
    match e
    case None => assert PrintExponent(e) + rest == rest;
    case Some(e) =>
      SkipsDigits(e.digits, rest);
      var s := PrintExponent(Some(e)) + rest;
      if e.sign.Some? {
        assert s[1..] == [e.sign.value] + (e.digits + rest);
        assert s[1..][1..] == e.digits + rest;
      } else {
        assert s[1..] == e.digits + rest;
        assert s[1..] != [] ==> !IsSign(s[1..][0]);
      }
  }

  lemma ReadsFraction(f: Option<seq<byte>>, rest: seq<byte>)
    requires f.Some? ==> AllDigits(f.value)
    requires rest == [] || (!IsDigit(rest[0]) && rest[0] != DOT)
    ensures AfterFraction(PrintFraction(f) + rest) == rest
  {
    match f
    case None => assert PrintFraction(f) + rest == rest;
    case Some(digits) =>
      SkipsDigits(digits, rest);
      assert (PrintFraction(f) + rest)[1..] == digits + rest;
  }

  lemma Reassociate(a: seq<byte>, b: seq<byte>, c: seq<byte>)
    ensures (a + b) + c == a + (b + c)
  {
  }

  lemma TokenText(t: NumberToken, rest: seq<byte>)
    ensures PrintToken(t) + rest ==
            (if t.minus then [MINUS] else []) + (t.whole + (PrintFraction(t.fraction) + (PrintExponent(t.exponent) + rest)))
  {
  }

  lemma ReadsUnsigned(t: NumberToken, rest: seq<byte>)
    requires GoodToken(t) && Delimited(rest)
    ensures var s := t.whole + (PrintFraction(t.fraction) + (PrintExponent(t.exponent) + rest));
            && AfterExponent(AfterFraction(SkipDigits(s))) == rest
            && (!t.minus ==> s != [] && IsDigit(s[0]) && s[0] != MINUS)
  {
    var power := PrintExponent(t.exponent) + rest;
    SkipsDigits(t.whole, PrintFraction(t.fraction) + power);
    ReadsFraction(t.fraction, power);
    ReadsExponent(t.exponent, rest);
  }

  lemma ReadsNumber(t: NumberToken, rest: seq<byte>)
    requires GoodToken(t) && Delimited(rest)
    ensures var s := PrintToken(t) + rest;
            s != [] && (s[0] == MINUS || IsDigit(s[0])) && AfterNumber(s) == rest
  {
    var unsigned := t.whole + (PrintFraction(t.fraction) + (PrintExponent(t.exponent) + rest));
    hide PrintToken, PrintFraction, PrintExponent, GoodToken, Delimited, AfterFraction, AfterExponent, SkipDigits;
    TokenText(t, rest);
    ReadsUnsigned(t, rest);
    assert ([MINUS] + unsigned)[1..] == unsigned;
    assert [] + unsigned == unsigned;
  }

  lemma ReadsWord(word: seq<byte>, rest: seq<byte>, v: JsonValue)
    requires word != []
    ensures Word(word + rest, word, v) == Ok(v, rest)
  {
  }

  /** White space before a value makes no difference. */
  lemma ReadsAfterSpace(f: ToFloat, gap: seq<byte>, body: seq<byte>)
    requires AllSpace(gap) && body != [] && !IsSpace(body[0])
    ensures SkipSpace(gap + body) == body == SkipSpace(body)
    ensures ValueAt(f, gap + body) == ValueAt(f, body)
    ensures forall read :: MembersAt(f, gap + body, read) == MembersAt(f, body, read)
  {
    SkipsSpace(gap, body);
    SkipsSpace([], body);
    assert [] + body == body;
  }

  /** The text of a document starts, after its white space, with a byte that tells its kind. */
  lemma BodyStarts(n: Node, rest: seq<byte>)
    requires n.Numeral? ==> GoodToken(n.token) && Delimited(rest)
    ensures PrintNode(n, rest) != []
    ensures !IsSpace(PrintNode(n, rest)[0]) && PrintNode(n, rest)[0] != RBRACKET
  {
  }

  /** Before any delimiter, a printed document is read back as what it denotes. */
  lemma {:induction false} ReadsDoc(f: ToFloat, d: Doc, rest: seq<byte>)
    requires GoodDoc(f, d) && Delimited(rest)
    ensures ValueAt(f, Print(d, rest)) == Ok(Meaning(f, d), rest)
    decreases d, 0
  {
    hide PrintToken, PrintParts, PartsMeaning, StringRest, GoodToken, GoodParts, PrintMembers, PrintItems, MembersAt, ItemsAt;
    BodyStarts(d.node, rest);
    ReadsAfterSpace(f, d.lead, PrintNode(d.node, rest));
    match d.node
    case EmptyObject(gap) => ReadsEmptyObject(f, gap, rest);
    case Members(ms) =>
      ReadsMembers(f, ms, rest, []);
      ReadsObject(f, ms, rest);
      assert [] + MembersMeaning(f, ms) == MembersMeaning(f, ms);
    case EmptyArray(gap) => ReadsEmptyArray(f, gap, rest);
    case Items(xs) =>
      ReadsItems(f, xs, rest, []);
      ReadsArray(f, xs, rest);
      assert [] + ItemsMeaning(f, xs) == ItemsMeaning(f, xs);
    case Text(ps) => ReadsText(f, ps, rest);
    case Numeral(t) => ReadsNumeral(f, t, rest);
    case Truth(b) => ReadsWord(if b then TRUE else FALSE, rest, Bool(b));
    case Nothing => ReadsWord(NULL, rest, Null);
  }

  lemma ReadsEmptyObject(f: ToFloat, gap: seq<byte>, rest: seq<byte>)
    requires AllSpace(gap)
    ensures ValueAt(f, [LBRACE] + (gap + ([RBRACE] + rest))) == Ok(Object([]), rest)
  {
    var s := [LBRACE] + (gap + ([RBRACE] + rest));
    SkipsSpace(gap, [RBRACE] + rest);
    assert s[1..] == gap + ([RBRACE] + rest) && ([RBRACE] + rest)[1..] == rest;
  }

  lemma ReadsEmptyArray(f: ToFloat, gap: seq<byte>, rest: seq<byte>)
    requires AllSpace(gap)
    ensures ValueAt(f, [LBRACKET] + (gap + ([RBRACKET] + rest))) == Ok(Array([]), rest)
  {
    var s := [LBRACKET] + (gap + ([RBRACKET] + rest));
    SkipsSpace(gap, [RBRACKET] + rest);
    assert s[1..] == gap + ([RBRACKET] + rest) && ([RBRACKET] + rest)[1..] == rest;
  }

  lemma ReadsText(f: ToFloat, ps: seq<Part>, rest: seq<byte>)
    requires GoodParts(ps)
    ensures ValueAt(f, PrintString(ps, rest)) == Ok(String(PartsMeaning(ps)), rest)
  {
    var s := PrintString(ps, rest);
    ReadsString(ps, rest, "");
    assert s[1..] == PrintParts(ps, [QUOTE] + rest);
    assert "" + PartsMeaning(ps) == PartsMeaning(ps);
  }

  lemma ReadsNumeral(f: ToFloat, t: NumberToken, rest: seq<byte>)
    requires GoodToken(t) && f(PrintToken(t)).Some? && Delimited(rest)
    ensures ValueAt(f, PrintToken(t) + rest) == Ok(Number(f(PrintToken(t)).value), rest)
  {
    var s := PrintToken(t) + rest;
    ReadsNumber(t, rest);
    assert s[..|s| - |rest|] == PrintToken(t);
  }

  lemma MembersStart(ms: MemberList, rest: seq<byte>) returns (body: seq<byte>)
    ensures PrintMembers(ms, rest) == ms.member.before + body && body != [] && body[0] == QUOTE
  {
    var next := if ms.MoreMembers? then [COMMA] + PrintMembers(ms.others, rest) else rest;
    assert PrintMembers(ms, rest) == PrintMember(ms.member, next);
    body := PrintString(ms.member.key, ms.member.middle + ([COLON] + Print(ms.member.doc, ms.member.after + next)));
  }

  lemma ReadsObject(f: ToFloat, ms: MemberList, rest: seq<byte>)
    requires AllSpace(ms.member.before)
    ensures ValueAt(f, [LBRACE] + PrintMembers(ms, [RBRACE] + rest)) ==
            MembersAt(f, PrintMembers(ms, [RBRACE] + rest), [])
  {
    hide PrintMembers;
    var inner := PrintMembers(ms, [RBRACE] + rest);
    assert ([LBRACE] + inner)[1..] == inner;
    var body := MembersStart(ms, [RBRACE] + rest);
    ReadsAfterSpace(f, ms.member.before, body);
  }

  lemma ItemsStart(xs: ItemList, rest: seq<byte>) returns (body: seq<byte>)
    requires AllSpace(xs.item.after) && rest != [] && Delimited(rest)
    requires xs.item.doc.node.Numeral? ==> GoodToken(xs.item.doc.node.token)
    ensures PrintItems(xs, rest) == xs.item.doc.lead + body
    ensures body != [] && !IsSpace(body[0]) && body[0] != RBRACKET
  {
    var next := if xs.MoreItems? then [COMMA] + PrintItems(xs.others, rest) else rest;
    assert PrintItems(xs, rest) == Print(xs.item.doc, xs.item.after + next);
    BodyStarts(xs.item.doc.node, xs.item.after + next);
    body := PrintNode(xs.item.doc.node, xs.item.after + next);
  }

  lemma ReadsArray(f: ToFloat, xs: ItemList, rest: seq<byte>)
    requires GoodItems(f, xs)
    ensures ValueAt(f, [LBRACKET] + PrintItems(xs, [RBRACKET] + rest)) ==
            ItemsAt(f, PrintItems(xs, [RBRACKET] + rest), [])
  {
    hide PrintItems, ValueAt;
    var inner := PrintItems(xs, [RBRACKET] + rest);
    assert ([LBRACKET] + inner)[1..] == inner;
    assert GoodDoc(f, xs.item.doc);
    var body := ItemsStart(xs, [RBRACKET] + rest);
    ReadsAfterSpace(f, xs.item.doc.lead, body);
    ReadsBracket(f, inner);
    ItemsAfterSpace(f, xs.item.doc.lead + body, body, []);
  }

  lemma ReadsBracket(f: ToFloat, inner: seq<byte>)
    ensures ValueAt(f, [LBRACKET] + inner) == ArrayAt(f, [LBRACKET] + inner)
  {
  }

  lemma ItemsAfterSpace(f: ToFloat, text: seq<byte>, body: seq<byte>, read: seq<JsonValue>)
    requires ValueAt(f, text) == ValueAt(f, body)
    ensures ItemsAt(f, text, read) == ItemsAt(f, body, read)
  {
  }

  /** White space and then a comma or closing bracket is a delimiter. */
  lemma DelimitedBySpace(gap: seq<byte>, next: seq<byte>)
    requires AllSpace(gap) && next != [] && Delimited(next) && !IsSpace(next[0])
    ensures Delimited(gap + next) && SkipSpace(gap + next) == next
  {
    SkipsSpace(gap, next);
  }

  /** One round of the loop over an array's items. */
  lemma ItemStep(f: ToFloat, text: seq<byte>, read: seq<JsonValue>, v: JsonValue, gap: seq<byte>, next: seq<byte>)
    requires ValueAt(f, text) == Ok(v, gap + next) && AllSpace(gap) && next != []
    ensures next[0] == COMMA ==> ItemsAt(f, text, read) == ItemsAt(f, next[1..], read + [v])
    ensures next[0] == RBRACKET ==> ItemsAt(f, text, read) == Ok(Array(read + [v]), next[1..])
  {
    if next[0] == COMMA || next[0] == RBRACKET {
      SkipsSpace(gap, next);
    }
  }

  lemma {:induction false} ReadsItems(f: ToFloat, xs: ItemList, rest: seq<byte>, read: seq<JsonValue>)
    requires GoodItems(f, xs)
    ensures ItemsAt(f, PrintItems(xs, [RBRACKET] + rest), read) == Ok(Array(read + ItemsMeaning(f, xs)), rest)
    decreases xs, 1
  {
    hide ItemsAt, ValueAt, Print;
    var end, gap, v := [RBRACKET] + rest, xs.item.after, Meaning(f, xs.item.doc);
    if xs.MoreItems? {
      var later := PrintItems(xs.others, end);
      assert PrintItems(xs, end) == Print(xs.item.doc, gap + ([COMMA] + later));
      DelimitedBySpace(gap, [COMMA] + later);
      ReadsDoc(f, xs.item.doc, gap + ([COMMA] + later));
      ItemStep(f, PrintItems(xs, end), read, v, gap, [COMMA] + later);
      ReadsItems(f, xs.others, rest, read + [v]);
      Accumulate(read, v, ItemsMeaning(f, xs.others));
    } else {
      assert PrintItems(xs, end) == Print(xs.item.doc, gap + end);
      DelimitedBySpace(gap, end);
      ReadsDoc(f, xs.item.doc, gap + end);
      ItemStep(f, PrintItems(xs, end), read, v, gap, end);
      assert end[1..] == rest && ItemsMeaning(f, xs) == [v];
    }
  }

  lemma Accumulate<T>(read: seq<T>, v: T, more: seq<T>)
    ensures (read + [v]) + more == read + ([v] + more)
  {
  }

  lemma ReadsMember(f: ToFloat, m: Member, v: JsonValue, rest: seq<byte>)
    requires AllSpace(m.before) && GoodParts(m.key) && AllSpace(m.middle)
    requires ValueAt(f, Print(m.doc, m.after + rest)) == Ok(v, m.after + rest)
    ensures MemberAt(f, PrintMember(m, rest)) == Ok((PartsMeaning(m.key), v), m.after + rest)
  {
    hide Print, ValueAt;
    ReadsMemberHead(m, m.after + rest);
  }

  /** One round of the loop over an object's members. */
  lemma MemberStep(f: ToFloat, text: seq<byte>, field: (string, JsonValue), read: seq<(string, JsonValue)>,
                   gap: seq<byte>, next: seq<byte>)
    requires MemberAt(f, text) == Ok(field, gap + next) && AllSpace(gap) && next != []
    ensures next[0] == COMMA ==> MembersAt(f, text, read) == MembersAt(f, next[1..], read + [field])
    ensures next[0] == RBRACE ==> MembersAt(f, text, read) == Ok(Object(read + [field]), next[1..])
  {
    if next[0] == COMMA || next[0] == RBRACE {
      SkipsSpace(gap, next);
    }
  }

  lemma {:induction false} ReadsMembers(f: ToFloat, ms: MemberList, rest: seq<byte>, read: seq<(string, JsonValue)>)
    requires GoodMembers(f, ms)
    ensures MembersAt(f, PrintMembers(ms, [RBRACE] + rest), read) == Ok(Object(read + MembersMeaning(f, ms)), rest)
    decreases ms, 1
  {
    hide MembersAt, MemberAt, ValueAt, Print, PrintMember;
    var end, m := [RBRACE] + rest, ms.member;
    var v := Meaning(f, m.doc);
    var field := (PartsMeaning(m.key), v);
    if ms.MoreMembers? {
      var later := PrintMembers(ms.others, end);
      assert PrintMembers(ms, end) == PrintMember(m, [COMMA] + later);
      DelimitedBySpace(m.after, [COMMA] + later);
      ReadsDoc(f, m.doc, m.after + ([COMMA] + later));
      ReadsMember(f, m, v, [COMMA] + later);
      MemberStep(f, PrintMember(m, [COMMA] + later), field, read, m.after, [COMMA] + later);
      ReadsMembers(f, ms.others, rest, read + [field]);
      Accumulate(read, field, MembersMeaning(f, ms.others));
    } else {
      assert PrintMembers(ms, end) == PrintMember(m, end);
      DelimitedBySpace(m.after, end);
      ReadsDoc(f, m.doc, m.after + end);
      ReadsMember(f, m, v, end);
      MemberStep(f, PrintMember(m, end), field, read, m.after, end);
      assert end[1..] == rest && MembersMeaning(f, ms) == [field];
    }
  }

  /** The key of a member and its colon. */
  lemma ReadsMemberHead(m: Member, rest: seq<byte>)
    requires AllSpace(m.before) && GoodParts(m.key) && AllSpace(m.middle)
    ensures var value := Print(m.doc, rest);
            var afterKey := m.middle + ([COLON] + value);
            var s := PrintString(m.key, afterKey);
            && s != [] && s[0] == QUOTE
            && SkipSpace(m.before + s) == s
            && StringRest(s[1..], "") == Ok(PartsMeaning(m.key), afterKey)
            && SkipSpace(afterKey) == [COLON] + value
            && ([COLON] + value)[1..] == value
  {
    var value := Print(m.doc, rest);
    hide Print;
    var afterKey := m.middle + ([COLON] + value);
    var s := PrintString(m.key, afterKey);
    SkipsSpace(m.before, s);
    SkipsSpace(m.middle, [COLON] + value);
    ReadsString(m.key, afterKey, "");
    assert s[1..] == PrintParts(m.key, [QUOTE] + afterKey);
    assert "" + PartsMeaning(m.key) == PartsMeaning(m.key);
  }

  // ---------- whatever is read was printed ----------

  lemma {:induction false} SpaceBefore(s: seq<byte>) returns (gap: seq<byte>)
    ensures AllSpace(gap) && s == gap + SkipSpace(s)
  {
    if s != [] && IsSpace(s[0]) {
      var more := SpaceBefore(s[1..]);
      gap := [s[0]] + more;
    } else {
      gap := [];
    }
  }

  lemma {:induction false} DigitsBefore(s: seq<byte>) returns (digits: seq<byte>)
    ensures AllDigits(digits) && s == digits + SkipDigits(s)
    ensures s != [] && IsDigit(s[0]) ==> digits != []
  {
    if s != [] && IsDigit(s[0]) {
      var more := DigitsBefore(s[1..]);
      digits := [s[0]] + more;
    } else {
      digits := [];
    }
  }

  lemma {:induction false} SkippedContinuation(s: seq<byte>)
    ensures s[|s| - |SkipContinuation(s)|..] == SkipContinuation(s)
  {
    if s != [] && IsContinuation(s[0]) {
      SkippedContinuation(s[1..]);
      var k := |s[1..]| - |SkipContinuation(s[1..])|;
      assert s[1..][k..] == s[k + 1..];
    }
  }

  lemma PlainOf(s: seq<byte>) returns (p: Part)
    requires s != [] && s[0] != QUOTE && s[0] != BACKSLASH && NextChar(s).Ok?
    ensures GoodPart(p) && PartMeaning(p) == NextChar(s).value
    ensures s == PrintPart(p) + NextChar(s).rest
  {
    hide FromUtf8;
    var c, rest := NextChar(s).value, NextChar(s).rest;
    SkippedContinuation(s[1..]);
    FromUtf8Inverts(s[..|s| - |rest|]);
    assert Utf8('"') == [QUOTE] && Utf8('\\') == [BACKSLASH];
    assert s[1..][|s| - 1 - |rest|..] == s[|s| - |rest|..];
    assert s == s[..|s| - |rest|] + s[|s| - |rest|..];
    p := Plain(c);
  }

  lemma PartOf(s: seq<byte>) returns (p: Part)
    requires s != [] && s[0] != QUOTE && NextChar(s).Ok?
    ensures GoodPart(p) && PartMeaning(p) == NextChar(s).value
    ensures s == PrintPart(p) + NextChar(s).rest
  {
    if s[0] != BACKSLASH {
      p := PlainOf(s);
    } else if s[1] == 0x75 {
      p := Coded(s[2..6]);
      assert s == [s[0], s[1]] + s[2..6] + s[6..];
    } else {
      p := Escaped(s[1]);
      assert s == [s[0], s[1]] + s[2..];
    }
  }

  lemma {:induction false} PartsOf(s: seq<byte>, read: string) returns (ps: seq<Part>)
    requires StringRest(s, read).Ok?
    ensures GoodParts(ps) && StringRest(s, read).value == read + PartsMeaning(ps)
    ensures s == PrintParts(ps, [QUOTE] + StringRest(s, read).rest)
    decreases |s|
  {
    hide NextChar, GoodPart, PartMeaning, PrintPart;
    if s[0] == QUOTE {
      ps := [];
      assert s == [QUOTE] + s[1..] && read + "" == read;
    } else {
      var p := PartOf(s);
      var c := NextChar(s).value;
      var more := PartsOf(NextChar(s).rest, read + [c]);
      ps := [p] + more;
      assert ps[1..] == more;
      assert read + [c] + PartsMeaning(more) == read + PartsMeaning(ps);
    }
  }

  lemma HeadTail(s: seq<byte>)
    requires s != []
    ensures s == [s[0]] + s[1..]
  {
  }

  lemma SignBefore(s: seq<byte>) returns (sign: Option<byte>)
    ensures sign.Some? ==> IsSign(sign.value)
    ensures s == (if sign.Some? then [sign.value] else []) + AfterSign(s)
  {
    if s != [] && IsSign(s[0]) {
      sign := Some(s[0]);
      HeadTail(s);
    } else {
      sign := None;
    }
  }

  lemma ExponentOf(s: seq<byte>) returns (e: Option<Exponent>)
    ensures e.Some? ==> GoodExponent(e.value)
    ensures s == PrintExponent(e) + AfterExponent(s)
  {
    hide SkipDigits, AfterSign;
    if s != [] && IsExponent(s[0]) {
      HeadTail(s);
      var sign := SignBefore(s[1..]);
      var digits := DigitsBefore(AfterSign(s[1..]));
      e := Some(Exponent(s[0], sign, digits));
      var mark := if sign.Some? then [sign.value] else [];
      Reassociate([s[0]], mark, digits + AfterExponent(s));
      Reassociate([s[0]] + mark, digits, AfterExponent(s));
    } else {
      e := None;
    }
  }

  lemma FractionOf(s: seq<byte>) returns (f: Option<seq<byte>>)
    ensures f.Some? ==> AllDigits(f.value)
    ensures s == PrintFraction(f) + AfterFraction(s)
  {
    hide SkipDigits;
    if s != [] && s[0] == DOT {
      var digits := DigitsBefore(s[1..]);
      f := Some(digits);
      HeadTail(s);
      Reassociate([DOT], digits, AfterFraction(s));
    } else {
      f := None;
    }
  }

  lemma TokenOf(s: seq<byte>) returns (t: NumberToken)
    requires s != [] && (s[0] == MINUS || IsDigit(s[0]))
    ensures GoodToken(t) && s == PrintToken(t) + AfterNumber(s)
  {
    var unsigned := if s[0] == MINUS then s[1..] else s;
    hide PrintToken, PrintFraction, PrintExponent, AfterFraction, AfterExponent, SkipDigits;
    assert s == (if s[0] == MINUS then [MINUS] else []) + unsigned;
    var whole := DigitsBefore(unsigned);
    var fraction := FractionOf(SkipDigits(unsigned));
    var exponent := ExponentOf(AfterFraction(SkipDigits(unsigned)));
    t := NumberToken(s[0] == MINUS, whole, fraction, exponent);
    TokenText(t, AfterNumber(s));
  }

  lemma WordOf(s: seq<byte>, word: seq<byte>, v: JsonValue)
    requires word != [] && Word(s, word, v).Ok?
    ensures s == word + Word(s, word, v).rest && Word(s, word, v).value == v
  {
  }

  /** Whatever is read as a value is the text of a document that denotes it. */
  lemma {:induction false} DocOf(f: ToFloat, text: seq<byte>) returns (d: Doc)
    requires ValueAt(f, text).Ok?
    ensures GoodDoc(f, d) && Meaning(f, d) == ValueAt(f, text).value
    ensures text == Print(d, ValueAt(f, text).rest)
    decreases |text|, 1
  {
    var lead := SpaceBefore(text);
    var s, rest := SkipSpace(text), ValueAt(f, text).rest;
    var node;
    if s[0] == LBRACE {
      node := ObjectOf(f, s);
    } else if s[0] == LBRACKET {
      node := ArrayOf(f, s);
    } else {
      node := ScalarOf(f, text, s);
    }
    d := Doc(lead, node);
    UnderLead(f, lead, node);
  }

  lemma UnderLead(f: ToFloat, lead: seq<byte>, node: Node)
    requires AllSpace(lead) && GoodDoc(f, Doc([], node))
    ensures GoodDoc(f, Doc(lead, node)) && Meaning(f, Doc(lead, node)) == Meaning(f, Doc([], node))
  {
  }

  lemma TokenIsFront(token: seq<byte>, rest: seq<byte>)
    ensures (token + rest)[..|token + rest| - |rest|] == token
  {
  }

  lemma ScalarOf(f: ToFloat, text: seq<byte>, s: seq<byte>) returns (node: Node)
    requires s == SkipSpace(text) && ValueAt(f, text).Ok? && s[0] != LBRACE && s[0] != LBRACKET
    ensures GoodDoc(f, Doc([], node)) && Meaning(f, Doc([], node)) == ValueAt(f, text).value
    ensures s == PrintNode(node, ValueAt(f, text).rest)
  {
    hide PrintToken, AfterNumber, PrintParts, PartsMeaning, StringRest, GoodToken, GoodParts, Word;
    var rest := ValueAt(f, text).rest;
    if s[0] == QUOTE {
      var ps := PartsOf(s[1..], "");
      HeadTail(s);
      NothingRead(PartsMeaning(ps));
      node := Text(ps);
    } else if s[0] == 0x74 {
      WordOf(s, TRUE, Bool(true));
      node := Truth(true);
    } else if s[0] == 0x66 {
      WordOf(s, FALSE, Bool(false));
      node := Truth(false);
    } else if s[0] == 0x6E {
      WordOf(s, NULL, Null);
      node := Nothing;
    } else {
      var t := TokenOf(s);
      TokenIsFront(PrintToken(t), rest);
      node := Numeral(t);
    }
  }

  lemma {:induction false} ObjectOf(f: ToFloat, s: seq<byte>) returns (node: Node)
    requires s != [] && s[0] == LBRACE && ObjectAt(f, s).Ok?
    ensures GoodDoc(f, Doc([], node)) && Meaning(f, Doc([], node)) == ObjectAt(f, s).value
    ensures s == PrintNode(node, ObjectAt(f, s).rest)
    decreases |s|, 0
  {
    var gap := SpaceBefore(s[1..]);
    var t, rest := SkipSpace(s[1..]), ObjectAt(f, s).rest;
    assert s == [LBRACE] + s[1..];
    if t != [] && t[0] == RBRACE {
      assert t == [RBRACE] + rest;
      node := EmptyObject(gap);
    } else {
      var ms, fields := MembersOf(f, t, []);
      node := Members(Widen(ms, gap));
      WidenKeeps(f, ms, gap, [RBRACE] + rest);
      assert [] + fields == fields;
    }
  }

  /** Put more white space before the first member. */
  ghost function Widen(ms: MemberList, gap: seq<byte>): MemberList {
    match ms
    case LastMember(m) => LastMember(m.(before := gap + m.before))
    case MoreMembers(m, others) => MoreMembers(m.(before := gap + m.before), others)
  }

  lemma WidenKeeps(f: ToFloat, ms: MemberList, gap: seq<byte>, rest: seq<byte>)
    requires GoodMembers(f, ms) && AllSpace(gap)
    ensures GoodMembers(f, Widen(ms, gap)) && MembersMeaning(f, Widen(ms, gap)) == MembersMeaning(f, ms)
    ensures PrintMembers(Widen(ms, gap), rest) == gap + PrintMembers(ms, rest)
  {
    var body := MembersStart(ms, rest);
    var next := if ms.MoreMembers? then [COMMA] + PrintMembers(ms.others, rest) else rest;
    Reassociate(gap, ms.member.before, PrintString(ms.member.key, ms.member.middle + ([COLON] + Print(ms.member.doc, ms.member.after + next))));
  }

  lemma {:induction false} ArrayOf(f: ToFloat, s: seq<byte>) returns (node: Node)
    requires s != [] && s[0] == LBRACKET && ArrayAt(f, s).Ok?
    ensures GoodDoc(f, Doc([], node)) && Meaning(f, Doc([], node)) == ArrayAt(f, s).value
    ensures s == PrintNode(node, ArrayAt(f, s).rest)
    decreases |s|, 0
  {
    var gap := SpaceBefore(s[1..]);
    var t, rest := SkipSpace(s[1..]), ArrayAt(f, s).rest;
    assert s == [LBRACKET] + s[1..];
    if t != [] && t[0] == RBRACKET {
      assert t == [RBRACKET] + rest;
      node := EmptyArray(gap);
    } else {
      var xs, items := ItemsOf(f, t, []);
      node := Items(WidenItems(xs, gap));
      WidenItemsKeeps(f, xs, gap, [RBRACKET] + rest);
      assert [] + items == items;
    }
  }

  ghost function WidenItems(xs: ItemList, gap: seq<byte>): ItemList {
    match xs
    case LastItem(i) => LastItem(i.(doc := i.doc.(lead := gap + i.doc.lead)))
    case MoreItems(i, others) => MoreItems(i.(doc := i.doc.(lead := gap + i.doc.lead)), others)
  }

  lemma WidenItemsKeeps(f: ToFloat, xs: ItemList, gap: seq<byte>, rest: seq<byte>)
    requires GoodItems(f, xs) && AllSpace(gap)
    ensures GoodItems(f, WidenItems(xs, gap)) && ItemsMeaning(f, WidenItems(xs, gap)) == ItemsMeaning(f, xs)
    ensures PrintItems(WidenItems(xs, gap), rest) == gap + PrintItems(xs, rest)
  {
  }

  lemma {:induction false} ItemsOf(f: ToFloat, text: seq<byte>, read: seq<JsonValue>)
    returns (xs: ItemList, items: seq<JsonValue>)
    requires ItemsAt(f, text, read).Ok?
    ensures GoodItems(f, xs) && ItemsMeaning(f, xs) == items && ItemsAt(f, text, read).value == Array(read + items)
    ensures text == PrintItems(xs, [RBRACKET] + ItemsAt(f, text, read).rest)
    decreases |text|, 2
  {
    var d := DocOf(f, text);
    hide ValueAt, Print, Meaning, GoodDoc, SkipSpace;
    var v, afterValue := Meaning(f, d), ValueAt(f, text).rest;
    var gap := SpaceBefore(afterValue);
    var u := SkipSpace(afterValue);
    HeadTail(u);
    if u[0] == COMMA {
      var others, more := ItemsOf(f, u[1..], read + [v]);
      xs, items := MoreItems(Item(d, gap), others), [v] + more;
      Accumulate(read, v, more);
    } else {
      xs, items := LastItem(Item(d, gap)), [v];
    }
  }

  lemma NothingRead(t: string)
    ensures "" + t == t
  {
  }

  lemma NoGap(rest: seq<byte>)
    ensures [] + rest == rest
  {
  }

  /** One member; `after` is still ahead. */
  lemma {:induction false} MemberOf(f: ToFloat, text: seq<byte>) returns (m: Member)
    requires MemberAt(f, text).Ok?
    ensures AllSpace(m.before) && GoodParts(m.key) && AllSpace(m.middle) && m.after == [] && GoodDoc(f, m.doc)
    ensures MemberAt(f, text).value == (PartsMeaning(m.key), Meaning(f, m.doc))
    ensures text == PrintMember(m, MemberAt(f, text).rest)
    decreases |text|, 0
  {
    hide Print, ValueAt, StringRest, PrintParts, Meaning, GoodDoc, SkipSpace;
    var before := SpaceBefore(text);
    var s := SkipSpace(text);
    HeadTail(s);
    var key := PartsOf(s[1..], "");
    NothingRead(PartsMeaning(key));
    var afterKey := StringRest(s[1..], "").rest;
    var middle := SpaceBefore(afterKey);
    var t := SkipSpace(afterKey);
    HeadTail(t);
    var doc := DocOf(f, t[1..]);
    NoGap(MemberAt(f, text).rest);
    m := Member(before, key, middle, doc, []);
  }

  lemma {:induction false} MembersOf(f: ToFloat, text: seq<byte>, read: seq<(string, JsonValue)>)
    returns (ms: MemberList, fields: seq<(string, JsonValue)>)
    requires MembersAt(f, text, read).Ok?
    ensures GoodMembers(f, ms) && MembersMeaning(f, ms) == fields
    ensures MembersAt(f, text, read).value == Object(read + fields)
    ensures text == PrintMembers(ms, [RBRACE] + MembersAt(f, text, read).rest)
    decreases |text|, 1
  {
    hide MemberAt, Print, PrintMember;
    var bare := MemberOf(f, text);
    var afterValue := MemberAt(f, text).rest;
    var gap := SpaceBefore(afterValue);
    var u := SkipSpace(afterValue);
    HeadTail(u);
    var m := bare.(after := gap);
    GapMoves(bare, gap, u);
    var field := (PartsMeaning(m.key), Meaning(f, m.doc));
    if u[0] == COMMA {
      var others, more := MembersOf(f, u[1..], read + [field]);
      ms, fields := MoreMembers(m, others), [field] + more;
      Accumulate(read, field, more);
    } else {
      ms, fields := LastMember(m), [field];
    }
  }

  lemma GapMoves(bare: Member, gap: seq<byte>, rest: seq<byte>)
    requires bare.after == []
    ensures PrintMember(bare, gap + rest) == PrintMember(bare.(after := gap), rest)
  {
    assert [] + (gap + rest) == gap + rest;
  }
}
