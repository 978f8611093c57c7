/** The language of the reader: the texts it accepts, what it returns for them, and how little of the input a
    result depends on. */
module JsonLanguage {
  import opened Outcomes
  import opened Concatenation
  import opened Json
  import opened JsonParser
  import opened JsonSyntax

  /** Whatever whitespace, escapes and key order a text uses, it is read as the value it denotes. */
  lemma PrintedTextsAreRead(before: seq<Byte>, t: Syntax, after: seq<Byte>)
    requires AllWs(before) && IsSyntax(t) && AllWs(after)
    ensures ParseJson(before + (Print(t) + after)) == Ok(Denotes(t))
  {
    assert Delimited(after);
    DelimitedEnds(t, after);
    ReadValue(t, after);
    LeadingWs(before, Print(t) + after);
    ReadWs(after, []);
    assert after + [] == after;
  }

  // ---------------------------------------------------------------------------------------------
  // Every accepted text is a printed form
  // ---------------------------------------------------------------------------------------------

  lemma {:induction false} SplitWs(s: seq<Byte>) returns (ws: seq<Byte>)
    ensures AllWs(ws) && s == ws + AfterWs(s) && NoLeadingWs(AfterWs(s))
  {
    if s != [] && IsWhitespace(s[0]) {
      ws := SplitWs(s[1..]);
      ws := [s[0]] + ws;
    } else {
      ws := [];
    }
  }

  lemma {:induction false} SplitDigits(s: seq<Byte>) returns (ds: seq<Byte>)
    ensures AllDigits(ds) && s == ds + AfterDigits(s) && !StartsWithDigit(AfterDigits(s))
  {
    if s != [] && IsDigit(s[0]) {
      ds := SplitDigits(s[1..]);
      ds := [s[0]] + ds;
    } else {
      ds := [];
    }
  }

  lemma SplitFraction(s: seq<Byte>) returns (f: Option<seq<Byte>>)
    requires !StartsWithDigit(s)
    ensures f.Some? ==> AllDigits(f.value)
    ensures s == PrintFraction(f) + AfterFraction(s) && !StartsWithDigit(AfterFraction(s))
    ensures f.None? ==> s == AfterFraction(s) && (s == [] || s[0] != DOT)
  {
    if s != [] && s[0] == DOT {
      var ds := SplitDigits(s[1..]);
      f := Some(ds);
      assert s == [DOT] + s[1..];
    } else {
      f := None;
      assert [] + s == s;
    }
  }

  lemma SplitSign(s: seq<Byte>) returns (sign: Option<Byte>)
    ensures sign.Some? ==> IsSign(sign.value)
    ensures s == PrintSign(sign) + AfterSign(s)
    ensures sign.None? ==> AfterSign(s) == s && (s == [] || !IsSign(s[0]))
  {
    if s != [] && IsSign(s[0]) {
      sign := Some(s[0]);
      HeadAndTail(s);
    } else {
      sign := None;
      NothingAdded(s);
    }
  }

  lemma SplitExponent(s: seq<Byte>) returns (e: Option<Exponent>)
    requires !StartsWithDigit(s)
    ensures e.Some? ==> IsExponent(e.value)
    ensures s == PrintExponent(e) + AfterExponent(s) && !StartsWithDigit(AfterExponent(s))
    ensures e.None? ==> s == AfterExponent(s) && (s == [] || !IsExponentMark(s[0]))
    ensures e.Some? && e.value.sign.None? && e.value.digits == [] ==>
      AfterExponent(s) == [] || !IsSign(AfterExponent(s)[0])
  {
    if s != [] && IsExponentMark(s[0]) {
      var t := s[1..];
      HeadAndTail(s);
      var sign := SplitSign(t);
      var ds := SplitDigits(AfterSign(t));
      var rest := AfterDigits(AfterSign(t));
      NothingAdded(rest);
      e := Some(Exponent(s[0], sign, ds));
      Join(PrintSign(sign), ds, rest);
      Join([s[0]], PrintSign(sign) + ds, rest);
    } else {
      e := None;
      NothingAdded(s);
    }
  }

  lemma SplitFractionAndExponent(s: seq<Byte>) returns (f: Option<seq<Byte>>, e: Option<Exponent>)
    requires !StartsWithDigit(s)
    ensures f.Some? ==> AllDigits(f.value)
    ensures e.Some? ==> IsExponent(e.value)
    ensures s == PrintFraction(f) + (PrintExponent(e) + AfterExponent(AfterFraction(s)))
    ensures forall n: Numeral :: n.fraction == f && n.exponent == e ==> EndsNumeral(n, AfterExponent(AfterFraction(s)))
  {
    f := SplitFraction(s);
    e := SplitExponent(AfterFraction(s));
  }

  lemma NumeralOf(s: seq<Byte>) returns (n: Numeral)
    requires s != [] && (s[0] == MINUS || IsDigit(s[0]))
    ensures IsNumeral(n) && s == PrintNumeral(n) + AfterNumber(s) && EndsNumeral(n, AfterNumber(s))
  {
    var t := AfterMinus(s);
    var minus := if s[0] == MINUS then [MINUS] else [];
    assert s == minus + t;
    var whole := SplitDigits(t);
    var f, e := SplitFractionAndExponent(AfterDigits(t));
    n := Numeral(s[0] == MINUS, whole, f, e);
    WholeIsNotEmpty(s, whole);
    Regroup(minus, whole, PrintFraction(f), PrintExponent(e), AfterNumber(s));
  }

  lemma WholeIsNotEmpty(s: seq<Byte>, whole: seq<Byte>)
    requires s != [] && (s[0] == MINUS || IsDigit(s[0]))
    requires AfterMinus(s) == whole + AfterDigits(AfterMinus(s)) && !StartsWithDigit(AfterDigits(AfterMinus(s)))
    ensures s[0] == MINUS || whole != []
  {
  }

  lemma UnitOf(s: seq<Byte>) returns (u: Unit)
    requires EscapeAt(s).Ok?
    ensures IsUnit(u) && [BACKSLASH] + s == PrintUnit(u) + EscapeAt(s).value.rest
    ensures EscapeAt(s).value.value == UnitText(u)
  {
    if s[0] == LOWER_U {
      u := Unicode(s[1..5]);
      assert s == [LOWER_U] + s[1..5] + s[5..];
    } else {
      u := Short(s[0]);
      assert s == [s[0]] + s[1..];
    }
  }

  /** The unit at the front of a string body that has not ended. */
  lemma FirstUnitOf(out: string, s: seq<Byte>) returns (u: Unit, rest: seq<Byte>)
    requires s != [] && s[0] != QUOTE && (s[0] == BACKSLASH ==> EscapeAt(s[1..]).Ok?)
    ensures IsUnit(u) && s == PrintUnit(u) + rest && |rest| < |s|
    ensures CharsAt(out, s) == CharsAt(out + UnitText(u), rest)
  {
    HeadAndTail(s);
    if s[0] == BACKSLASH {
      u := UnitOf(s[1..]);
      rest := EscapeAt(s[1..]).value.rest;
    } else {
      u, rest := Raw(s[0]), s[1..];
    }
  }

  lemma {:induction false} UnitsOf(out: string, s: seq<Byte>) returns (us: seq<Unit>)
    requires CharsAt(out, s).Ok?
    ensures AllUnits(us) && s == PrintUnits(us) + CharsAt(out, s).value.rest
    ensures CharsAt(out, s).value.value == out + Text(us)
    decreases |s|
  {
    if s[0] == QUOTE {
      us := [];
      NothingAdded(out);
      HeadAndTail(s);
    } else {
      var u, rest := FirstUnitOf(out, s);
      var more := UnitsOf(out + UnitText(u), rest);
      us := [u] + more;
      DropHead(u, more);
      Join(out, UnitText(u), Text(more));
      Join(PrintUnit(u), PrintUnits(more), CharsAt(out, s).value.rest);
    }
  }

  lemma StringOf(s: seq<Byte>) returns (us: seq<Unit>)
    requires StringAt(s).Ok?
    ensures AllUnits(us) && s == [QUOTE] + (PrintUnits(us) + StringAt(s).value.rest)
    ensures StringAt(s).value.value == Text(us)
  {
    us := UnitsOf("", s[1..]);
    assert s == [QUOTE] + s[1..];
    assert "" + Text(us) == Text(us);
  }

  /** The text before the remainder is whitespace and the printed form of a syntax tree that denotes the
      value. */
  ghost predicate Explains(before: seq<Byte>, t: Syntax, s: seq<Byte>, p: Parsed<JsonValue>) {
    && AllWs(before) && IsSyntax(t)
    && s == before + (Print(t) + p.rest)
    && Denotes(t) == p.value
    && Ends(t, p.rest)
  }

  lemma LiteralOf(s: seq<Byte>) returns (t: Syntax)
    requires s != [] && (BoolAt(s).Ok? || NullAt(s).Ok?)
    ensures BoolAt(s).Ok? ==> t.BoolText? && Explains([], t, s, BoolAt(s).value)
    ensures !BoolAt(s).Ok? ==> t.NullText? && Explains([], t, s, NullAt(s).value)
  {
    if TRUE_TEXT <= s {
      t := BoolText(true);
      assert s == TRUE_TEXT + s[4..];
    } else if FALSE_TEXT <= s {
      t := BoolText(false);
      assert s == FALSE_TEXT + s[5..];
    } else {
      t := NullText;
      assert s == NULL_TEXT + s[4..];
    }
    assert [] + s == s;
  }

  lemma NumberOf(s: seq<Byte>) returns (t: Syntax)
    requires s != [] && (s[0] == MINUS || IsDigit(s[0]))
    ensures Explains([], t, s, NumberAt(s).value)
  {
    hide AfterNumber, PrintNumeral;
    var n := NumeralOf(s);
    t := NumberText(n);
    NumberSpan(PrintNumeral(n), AfterNumber(s));
    NothingAdded(s);
  }

  lemma ScalarOf(u: seq<Byte>) returns (t: Syntax)
    requires u != [] && NoLeadingWs(u) && ValueAt(u).Ok? && u[0] != OPEN_BRACE && u[0] != OPEN_BRACKET
    ensures Explains([], t, u, ValueAt(u).value)
  {
    if u[0] == QUOTE {
      var us := StringOf(u);
      t := StringText(us);
      Join([QUOTE], PrintUnits(us), StringAt(u).value.rest);
      assert [] + u == u;
    } else if u[0] == MINUS || IsDigit(u[0]) {
      t := NumberOf(u);
    } else {
      t := LiteralOf(u);
    }
  }

  lemma {:induction false} TokenOf(u: seq<Byte>) returns (t: Syntax)
    requires NoLeadingWs(u) && ValueAt(u).Ok?
    ensures Explains([], t, u, ValueAt(u).value)
    decreases |u|, 0
  {
    if u[0] == OPEN_BRACE {
      t := ObjectOf(u[1..]);
      assert u == [OPEN_BRACE] + u[1..];
    } else if u[0] == OPEN_BRACKET {
      t := ArrayOf(u[1..]);
      assert u == [OPEN_BRACKET] + u[1..];
    } else {
      t := ScalarOf(u);
    }
  }

  lemma SameAfterWs(s: seq<Byte>)
    ensures ValueAt(AfterWs(s)) == ValueAt(s)
  {
  }

  /** The syntax tree behind a successful read. */
  lemma {:induction false} SyntaxOf(s: seq<Byte>) returns (before: seq<Byte>, t: Syntax)
    requires ValueAt(s).Ok?
    ensures Explains(before, t, s, ValueAt(s).value)
    decreases |s|, 1
  {
    before := SplitWs(s);
    SameAfterWs(s);
    t := TokenOf(AfterWs(s));
    assert [] + (Print(t) + ValueAt(s).value.rest) == Print(t) + ValueAt(s).value.rest;
  }

  lemma ArrayExplained(inner: seq<Byte>, items: seq<Item>, s: seq<Byte>, rest: seq<Byte>)
    requires AllWs(inner) && AreItems(items) && s == inner + (PrintItems(items) + rest)
    ensures Explains([], ArrayText(inner, items), [OPEN_BRACKET] + s, Parsed(Array(ItemValues(items)), rest))
  {
  }

  lemma {:induction false} ArrayOf(s: seq<Byte>) returns (t: Syntax)
    requires ArrayAt(s).Ok?
    ensures t.ArrayText? && Explains([], t, [OPEN_BRACKET] + s, ArrayAt(s).value)
    decreases |s|, 3
  {
    var u := AfterWs(s);
    var inner := SplitWs(s);
    var items: seq<Item> := [];
    if u != [] && u[0] == CLOSE_BRACKET {
      assert u == [CLOSE_BRACKET] + u[1..];
    } else {
      items := ItemsOf([], u);
      assert [] + ItemValues(items) == ItemValues(items);
    }
    t := ArrayText(inner, items);
    ArrayExplained(inner, items, s, ArrayAt(s).value.rest);
  }

  lemma JoinItem(item: Item, more: seq<Item>, rest: seq<Byte>)
    ensures var items := [item] + more;
      PrintItems(items) + rest ==
        item.before + (Print(item.value) + (item.after +
        (if more == [] then [CLOSE_BRACKET] + rest else [COMMA] + (PrintItems(more) + rest))))
  {
    hide Print;
    var items := [item] + more;
    DropHead(item, more);
    ItemsShape(items, rest);
    if more == [] { Join([CLOSE_BRACKET], [], rest); }
  }

  lemma ItemsMeaning(out: seq<JsonValue>, item: Item, more: seq<Item>)
    requires AllWs(item.before) && IsSyntax(item.value) && AllWs(item.after) && AreItems(more)
    ensures AreItems([item] + more)
    ensures out + ItemValues([item] + more) == out + [Denotes(item.value)] + ItemValues(more)
  {
  }

  lemma {:induction false} ItemsOf(out: seq<JsonValue>, s: seq<Byte>) returns (items: seq<Item>)
    requires ElementsAt(out, s).Ok?
    ensures items != [] && AreItems(items)
    ensures s == PrintItems(items) + ElementsAt(out, s).value.rest
    ensures ElementsAt(out, s).value.value == Array(out + ItemValues(items))
    decreases |s|, 2
  {
    hide Print, PrintItems, ValueAt;
    var p := ValueAt(s).value;
    var before, t := SyntaxOf(s);
    var after := SplitWs(p.rest);
    var u := AfterWs(p.rest);
    var item := Item(before, t, after);
    HeadAndTail(u);
    var more: seq<Item> := [];
    if u[0] == COMMA {
      more := ItemsOf(out + [p.value], u[1..]);
    } else {
      NothingAdded(out + [p.value]);
    }
    items := [item] + more;
    ItemsMeaning(out, item, more);
    JoinItem(item, more, ElementsAt(out, s).value.rest);
  }

  lemma ObjectExplained(inner: seq<Byte>, members: seq<Member>, s: seq<Byte>, rest: seq<Byte>)
    requires AllWs(inner) && AreMembers(members) && s == inner + (PrintMembers(members) + rest)
    ensures Explains([], ObjectText(inner, members), [OPEN_BRACE] + s, Parsed(Object(Collect(map[], members)), rest))
  {
  }

  lemma {:induction false} ObjectOf(s: seq<Byte>) returns (t: Syntax)
    requires ObjectAt(s).Ok?
    ensures t.ObjectText? && Explains([], t, [OPEN_BRACE] + s, ObjectAt(s).value)
    decreases |s|, 3
  {
    var u := AfterWs(s);
    var inner := SplitWs(s);
    var members: seq<Member> := [];
    if u != [] && u[0] == CLOSE_BRACE {
      assert u == [CLOSE_BRACE] + u[1..];
    } else {
      members := MembersOf(map[], u);
    }
    t := ObjectText(inner, members);
    ObjectExplained(inner, members, s, ObjectAt(s).value.rest);
  }

  lemma KeyOf(s: seq<Byte>) returns (beforeKey: seq<Byte>, key: seq<Unit>, afterKey: seq<Byte>)
    requires KeyAt(s).Ok?
    ensures AllWs(beforeKey) && AllUnits(key) && AllWs(afterKey) && KeyAt(s).value.value == Text(key)
    ensures s == beforeKey + ([QUOTE] + (PrintUnits(key) + (afterKey + [COLON]))) + KeyAt(s).value.rest
  {
    beforeKey := SplitWs(s);
    var t := AfterWs(s);
    key := StringOf(t);
    var afterString := StringAt(t).value.rest;
    afterKey := SplitWs(afterString);
    var rest := KeyAt(s).value.rest;
    HeadAndTail(AfterWs(afterString));
    Regroup([QUOTE], PrintUnits(key), afterKey, [COLON], rest);
    Join(beforeKey, [QUOTE] + (PrintUnits(key) + (afterKey + [COLON])), rest);
  }

  lemma JoinMember(first: Member, more: seq<Member>, rest: seq<Byte>)
    ensures var ms := [first] + more;
      PrintMembers(ms) + rest ==
        PrintKey(first) + (first.beforeValue + (Print(first.value) + (first.after +
        (if more == [] then [CLOSE_BRACE] + rest else [COMMA] + (PrintMembers(more) + rest)))))
  {
    hide Print, PrintKey;
    var ms := [first] + more;
    DropHead(first, more);
    MembersShape(ms, rest);
    if more == [] { Join([CLOSE_BRACE], [], rest); }
  }

  lemma MembersMeaning(m: map<string, JsonValue>, first: Member, more: seq<Member>)
    requires AllWs(first.beforeKey) && AllUnits(first.key) && AllWs(first.afterKey)
    requires AllWs(first.beforeValue) && IsSyntax(first.value) && AllWs(first.after) && AreMembers(more)
    ensures AreMembers([first] + more)
    ensures Collect(m, [first] + more) == Collect(m[Text(first.key) := Denotes(first.value)], more)
  {
  }

  /** One member, and what follows the whitespace after its value. */
  lemma {:induction false} MemberOf(s: seq<Byte>) returns (first: Member)
    requires KeyAt(s).Ok? && ValueAt(KeyAt(s).value.rest).Ok?
    ensures AllWs(first.beforeKey) && AllUnits(first.key) && AllWs(first.afterKey)
    ensures AllWs(first.beforeValue) && IsSyntax(first.value) && AllWs(first.after)
    ensures Text(first.key) == KeyAt(s).value.value
    ensures var p := ValueAt(KeyAt(s).value.rest).value;
      && Denotes(first.value) == p.value
      && s == PrintKey(first) + (first.beforeValue + (Print(first.value) + (first.after + AfterWs(p.rest))))
    decreases |s|, 0
  {
    var beforeKey, key, afterKey := KeyOf(s);
    var r := KeyAt(s).value.rest;
    var beforeValue, t := SyntaxOf(r);
    var after := SplitWs(ValueAt(r).value.rest);
    first := Member(beforeKey, key, afterKey, beforeValue, t, after);
  }

  lemma {:induction false} MembersOf(m: map<string, JsonValue>, s: seq<Byte>) returns (ms: seq<Member>)
    requires MembersAt(m, s).Ok?
    ensures ms != [] && AreMembers(ms)
    ensures s == PrintMembers(ms) + MembersAt(m, s).value.rest
    ensures MembersAt(m, s).value.value == Object(Collect(m, ms))
    decreases |s|, 1
  {
    hide Print, PrintMembers, ValueAt, KeyAt;
    var first := MemberOf(s);
    var p := ValueAt(KeyAt(s).value.rest).value;
    var u := AfterWs(p.rest);
    assert u == [u[0]] + u[1..];
    var more: seq<Member> := [];
    if u[0] == COMMA {
      more := MembersOf(m[Text(first.key) := p.value], u[1..]);
    }
    ms := [first] + more;
    MembersMeaning(m, first, more);
    JoinMember(first, more, MembersAt(m, s).value.rest);
  }

  // ---------------------------------------------------------------------------------------------
  // The exact language
  // ---------------------------------------------------------------------------------------------

  ghost predicate IsDocument(text: seq<Byte>, before: seq<Byte>, t: Syntax, after: seq<Byte>) {
    AllWs(before) && IsSyntax(t) && AllWs(after) && text == before + (Print(t) + after)
  }

  /** A text is read as v exactly when it is whitespace around a printed form of v. */
  lemma AcceptedExactlyPrinted(text: seq<Byte>, v: JsonValue)
    ensures ParseJson(text) == Ok(v) <==>
      exists before, t, after :: IsDocument(text, before, t, after) && Denotes(t) == v
  {
    if before, t, after :| IsDocument(text, before, t, after) && Denotes(t) == v {
      PrintedTextsAreRead(before, t, after);
    }
    if ParseJson(text) == Ok(v) {
      var before, t := SyntaxOf(text);
      var rest := ValueAt(text).value.rest;
      var after := SplitWs(rest);
      assert after + [] == after;
      assert IsDocument(text, before, t, after);
    }
  }

  predicate SameLookahead(r: seq<Byte>, r': seq<Byte>) {
    if r == [] then r' == [] else r' != [] && r'[0] == r[0]
  }

  lemma EndsByLookahead(t: Syntax, r: seq<Byte>, r': seq<Byte>)
    requires SameLookahead(r, r')
    ensures Ends(t, r) == Ends(t, r')
  {
  }

  /** The part of the input a successful read did not consume matters only through its first byte. */
  lemma OneByteOfLookahead(s: seq<Byte>, rest': seq<Byte>)
    requires ValueAt(s).Ok? && SameLookahead(ValueAt(s).value.rest, rest')
    ensures var p := ValueAt(s).value;
      ValueAt(s[..|s| - |p.rest|] + rest') == Ok(Parsed(p.value, rest'))
  {
    var before, t := SyntaxOf(s);
    var p := ValueAt(s).value;
    Join(before, Print(t), p.rest);
    CutAt(s, before + Print(t), p.rest);
    EndsByLookahead(t, p.rest, rest');
    Join(before, Print(t), rest');
    LeadingWs(before, Print(t) + rest');
    ReadValue(t, rest');
  }

  /** A successful read consumes at least one byte and never more than there are: what it leaves is a proper
      suffix of the input. */
  lemma ReadsForward(s: seq<Byte>)
    requires ValueAt(s).Ok?
    ensures |ValueAt(s).value.rest| < |s|
    ensures s[|s| - |ValueAt(s).value.rest|..] == ValueAt(s).value.rest
  {
    var before, t := SyntaxOf(s);
    var rest := ValueAt(s).value.rest;
    assert s == (before + Print(t)) + rest;
  }

  // ---------------------------------------------------------------------------------------------
  // Every value has a printed form
  // ---------------------------------------------------------------------------------------------

  /** Numbers are texts the scanner takes whole; characters are on the basic plane. */
  ghost predicate Printable(v: JsonValue) {
    match v
    case Null => true
    case Bool(_) => true
    case Number(text) => IsNumberText(text)
    case String(s) => BasicPlane(s)
    case Array(items) => forall i :: 0 <= i < |items| ==> Printable(items[i])
    case Object(members) => forall k :: k in members ==> BasicPlane(k) && Printable(members[k])
  }

  predicate IsNumberText(text: seq<Byte>) {
    text != [] && (text[0] == MINUS || IsDigit(text[0])) && AfterNumber(text) == []
  }

  predicate BasicPlane(s: string) {
    forall i :: 0 <= i < |s| ==> s[i] as nat < 0x1_0000
  }

  function HexByte(d: nat): Byte
    requires d < 16
  {
    if d < 10 then 0x30 + d else 0x61 + d - 10
  }

  /** ASCII raw or, for quote and backslash, escaped; everything else as four hex digits. */
  function UnitFor(c: char): Unit
    requires c as nat < 0x1_0000
  {
    var cp := c as nat;
    if cp == QUOTE || cp == BACKSLASH then Short(cp)
    else if 0x20 <= cp < 0x80 then Raw(cp)
    else Unicode(FourHexBytes(cp))
  }

  function FourHexBytes(cp: nat): seq<Byte>
    requires cp < 0x1_0000
  {
    [HexByte(cp / 16 / 16 / 16), HexByte(cp / 16 / 16 % 16), HexByte(cp / 16 % 16), HexByte(cp % 16)]
  }

  lemma HexByteDigit(d: nat)
    requires d < 16
    ensures HexDigit(HexByte(d)) == Some(d) && HexByte(d) != PLUS
  {
  }

  lemma OneMoreHexDigit(h: seq<Byte>, high: nat, d: nat)
    requires HexDigits(h) == Some(high) && d < 16
    ensures HexDigits(h + [HexByte(d)]) == Some(high * 16 + d)
  {
  }

  lemma FourHexOf(cp: nat)
    requires cp < 0x1_0000
    ensures FourHex(FourHexBytes(cp)) == Some(cp)
  {
    var q1, q2, q3 := cp / 16, cp / 16 / 16, cp / 16 / 16 / 16;
    HexByteDigit(q3);
    OneMoreHexDigit([], 0, q3);
    NothingAdded([HexByte(q3)]);
    OneMoreHexDigit([HexByte(q3)], q3, q2 % 16);
    OneMoreHexDigit([HexByte(q3)] + [HexByte(q2 % 16)], q2, q1 % 16);
    OneMoreHexDigit([HexByte(q3)] + [HexByte(q2 % 16)] + [HexByte(q1 % 16)], q1, cp % 16);
    assert FourHexBytes(cp) == [HexByte(q3)] + [HexByte(q2 % 16)] + [HexByte(q1 % 16)] + [HexByte(cp % 16)];
  }

  lemma UnitForReads(c: char)
    requires c as nat < 0x1_0000
    ensures IsUnit(UnitFor(c)) && UnitText(UnitFor(c)) == [c]
  {
    FourHexOf(c as nat);
  }

  lemma {:induction false} UnitsFor(s: string) returns (us: seq<Unit>)
    requires BasicPlane(s)
    ensures AllUnits(us) && Text(us) == s
  {
    if s == "" {
      us := [];
    } else {
      UnitForReads(s[0]);
      var more := UnitsFor(s[1..]);
      us := [UnitFor(s[0])] + more;
      assert us[1..] == more && s == [s[0]] + s[1..];
    }
  }

  lemma {:induction false} PrintedItems(items: seq<JsonValue>, v: JsonValue) returns (r: seq<Item>)
    requires forall i :: 0 <= i < |items| ==> Printable(items[i]) && items[i] < v
    ensures AreItems(r) && ItemValues(r) == items
    decreases v, 0, |items|
  {
    if items == [] {
      r := [];
    } else {
      var t := PrintedForm(items[0]);
      var more := PrintedItems(items[1..], v);
      r := [Item([], t, [])] + more;
      assert r[1..] == more;
    }
  }

  lemma WithoutKey<K, V>(m: map<K, V>, k: K)
    requires k in m
    ensures (m - {k}).Keys == m.Keys - {k} && |(m - {k}).Keys| < |m.Keys|
  {
  }

  lemma TakeKey<K, V>(acc: map<K, V>, m: map<K, V>, k: K)
    requires k in m
    ensures acc[k := m[k]] + (m - {k}) == acc + m
  {
  }

  lemma {:induction false} PrintedMembers(m: map<string, JsonValue>, acc: map<string, JsonValue>, v: JsonValue)
    returns (r: seq<Member>)
    requires forall k :: k in m ==> BasicPlane(k) && Printable(m[k]) && m[k] < v
    ensures AreMembers(r) && Collect(acc, r) == acc + m
    decreases v, 0, |m.Keys|
  {
    if m == map[] {
      r := [];
      assert acc + m == acc;
    } else {
      var k :| k in m;
      var key := UnitsFor(k);
      var t := PrintedForm(m[k]);
      WithoutKey(m, k);
      TakeKey(acc, m, k);
      var more := PrintedMembers(m - {k}, acc[k := m[k]], v);
      var first := Member([], key, [], [], t, []);
      MembersMeaning(acc, first, more);
      r := [first] + more;
    }
  }

  /** Every printable value has a printed form. */
  lemma {:induction false} PrintedForm(v: JsonValue) returns (t: Syntax)
    requires Printable(v)
    ensures IsSyntax(t) && Denotes(t) == v
    decreases v, 1
  {
    match v
    case Null => t := NullText;
    case Bool(b) => t := BoolText(b);
    case Number(text) =>
      var n := NumeralOf(text);
      t := NumberText(n);
      assert PrintNumeral(n) + [] == PrintNumeral(n);
    case String(s) =>
      var us := UnitsFor(s);
      t := StringText(us);
    case Array(items) =>
      var r := PrintedItems(items, v);
      t := ArrayText([], r);
    case Object(members) =>
      var r := PrintedMembers(members, map[], v);
      t := ObjectText([], r);
      assert map[] + members == members;
  }

  /** Reader and printer undo each other: every printable value has texts, and each of its texts, with any
      insignificant whitespace, is read as that value. */
  lemma RoundTrip(v: JsonValue)
    requires Printable(v)
    ensures exists t :: IsSyntax(t) && Denotes(t) == v
    ensures forall before, t, after :: AllWs(before) && IsSyntax(t) && AllWs(after) && Denotes(t) == v ==>
      ParseJson(before + (Print(t) + after)) == Ok(v)
  {
    var t := PrintedForm(v);
    forall before, t, after | AllWs(before) && IsSyntax(t) && AllWs(after) && Denotes(t) == v
      ensures ParseJson(before + (Print(t) + after)) == Ok(v)
    {
      PrintedTextsAreRead(before, t, after);
    }
  }

  // ---------------------------------------------------------------------------------------------
  // The reader returns printable values only
  // ---------------------------------------------------------------------------------------------

  lemma UnitTextBasic(u: Unit)
    requires IsUnit(u)
    ensures BasicPlane(UnitText(u))
  {
  }

  lemma {:induction false} TextBasic(us: seq<Unit>)
    requires AllUnits(us)
    ensures BasicPlane(Text(us))
  {
    if us != [] {
      UnitTextBasic(us[0]);
      TextBasic(us[1..]);
    }
  }

  lemma NumeralTextIsWhole(n: Numeral)
    requires IsNumeral(n)
    ensures IsNumberText(PrintNumeral(n))
  {
    ReadNumeral(n, []);
    NothingAdded(PrintNumeral(n));
    FirstByte(NumberText(n));
  }

  lemma {:induction false} DenotedIsPrintable(t: Syntax)
    requires IsSyntax(t)
    ensures Printable(Denotes(t))
    decreases t, 1
  {
    match t
    case NumberText(n) => NumeralTextIsWhole(n);
    case StringText(us) => TextBasic(us);
    case ArrayText(_, items) => ItemsArePrintable(items);
    case ObjectText(_, members) => CollectedIsPrintable(map[], members);
    case _ =>
  }

  lemma {:induction false} ItemsArePrintable(items: seq<Item>)
    requires AreItems(items)
    ensures forall i :: 0 <= i < |ItemValues(items)| ==> Printable(ItemValues(items)[i])
    decreases items, 0
  {
    if items != [] {
      DenotedIsPrintable(items[0].value);
      ItemsArePrintable(items[1..]);
    }
  }

  ghost predicate PrintableMembers(m: map<string, JsonValue>) {
    forall k :: k in m ==> BasicPlane(k) && Printable(m[k])
  }

  lemma {:induction false} CollectedIsPrintable(m: map<string, JsonValue>, ms: seq<Member>)
    requires AreMembers(ms) && PrintableMembers(m)
    ensures PrintableMembers(Collect(m, ms))
    decreases ms, 0
  {
    if ms != [] {
      TextBasic(ms[0].key);
      DenotedIsPrintable(ms[0].value);
      CollectedIsPrintable(m[Text(ms[0].key) := Denotes(ms[0].value)], ms[1..]);
    }
  }

  /** The range of the reader is exact: some text is read as v if and only if v is printable. */
  lemma ReadExactlyPrintable(v: JsonValue)
    ensures (exists text :: ParseJson(text) == Ok(v)) <==> Printable(v)
  {
    if text :| ParseJson(text) == Ok(v) {
      AcceptedExactlyPrinted(text, v);
      var before, t, after :| IsDocument(text, before, t, after) && Denotes(t) == v;
      DenotedIsPrintable(t);
    }
    if Printable(v) {
      var t := PrintedForm(v);
      PrintedTextsAreRead([], t, []);
      assert ParseJson([] + (Print(t) + [])) == Ok(v);
    }
  }
}
