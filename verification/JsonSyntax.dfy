/** Concrete JSON texts: every choice of whitespace, escape and numeral. The reader accepts exactly the
    printed forms of these, and returns what they denote. */
module JsonSyntax {
  import opened Outcomes
  import opened Concatenation
  import opened Json
  import opened JsonParser

  datatype Exponent = Exponent(mark: Byte, sign: Option<Byte>, digits: seq<Byte>)

  datatype Numeral = Numeral(minus: bool, whole: seq<Byte>, fraction: Option<seq<Byte>>, exponent: Option<Exponent>)

  /** A raw byte, a two-byte escape, or a \u escape. */
  datatype Unit = Raw(b: Byte) | Short(b: Byte) | Unicode(hex: seq<Byte>)

  datatype Item = Item(before: seq<Byte>, value: Syntax, after: seq<Byte>)

  datatype Member = Member(
    beforeKey: seq<Byte>, key: seq<Unit>, afterKey: seq<Byte>, beforeValue: seq<Byte>, value: Syntax, after: seq<Byte>)

  datatype Syntax =
    | NullText
    | BoolText(b: bool)
    | NumberText(numeral: Numeral)
    | StringText(units: seq<Unit>)
    | ArrayText(inner: seq<Byte>, items: seq<Item>)
    | ObjectText(inner: seq<Byte>, members: seq<Member>)

  // ---------------------------------------------------------------------------------------------
  // Well-formedness
  // ---------------------------------------------------------------------------------------------

  predicate AllWs(s: seq<Byte>) {
    forall i :: 0 <= i < |s| ==> IsWhitespace(s[i])
  }

  predicate AllDigits(s: seq<Byte>) {
    forall i :: 0 <= i < |s| ==> IsDigit(s[i])
  }

  /** The scanner asks for a minus sign or a digit to start with, and for nothing else. */
  predicate IsNumeral(n: Numeral) {
    && (n.minus || n.whole != [])
    && AllDigits(n.whole)
    && (n.fraction.Some? ==> AllDigits(n.fraction.value))
    && (n.exponent.Some? ==> IsExponent(n.exponent.value))
  }

  predicate IsExponent(e: Exponent) {
    IsExponentMark(e.mark) && (e.sign.Some? ==> IsSign(e.sign.value)) && AllDigits(e.digits)
  }

  predicate IsUnit(u: Unit) {
    match u
    case Raw(b) => b != QUOTE && b != BACKSLASH
    case Short(b) => ShortEscape(b).Some?
    case Unicode(hex) => |hex| == 4 && FourHex(hex).Some?
  }

  predicate AllUnits(us: seq<Unit>) {
    forall i :: 0 <= i < |us| ==> IsUnit(us[i])
  }

  predicate IsSyntax(t: Syntax)
    decreases t, 1
  {
    match t
    case NullText => true
    case BoolText(_) => true
    case NumberText(n) => IsNumeral(n)
    case StringText(us) => AllUnits(us)
    case ArrayText(inner, items) => AllWs(inner) && AreItems(items)
    case ObjectText(inner, members) => AllWs(inner) && AreMembers(members)
  }

  predicate AreItems(items: seq<Item>)
    decreases items, 0
  {
    items != [] ==>
      AllWs(items[0].before) && IsSyntax(items[0].value) && AllWs(items[0].after) && AreItems(items[1..])
  }

  predicate AreMembers(ms: seq<Member>)
    decreases ms, 0
  {
    ms != [] ==>
      && AllWs(ms[0].beforeKey) && AllUnits(ms[0].key) && AllWs(ms[0].afterKey)
      && AllWs(ms[0].beforeValue) && IsSyntax(ms[0].value) && AllWs(ms[0].after)
      && AreMembers(ms[1..])
  }

  // ---------------------------------------------------------------------------------------------
  // Printing. The structural characters and literal names of RFC 8259, sections 2 and 3, are written as their bytes:
  // [ 5B, ] 5D, { 7B, } 7D, comma 2C, colon 3A, quote 22, backslash 5C, u 75, minus 2D, dot 2E.
  // ---------------------------------------------------------------------------------------------

  function PrintFraction(f: Option<seq<Byte>>): seq<Byte> {
    if f.None? then [] else [0x2E] + f.value
  }

  function PrintSign(sign: Option<Byte>): seq<Byte> {
    if sign.None? then [] else [sign.value]
  }

  function PrintExponent(e: Option<Exponent>): seq<Byte> {
    if e.None? then [] else [e.value.mark] + (PrintSign(e.value.sign) + e.value.digits)
  }

  function PrintNumeral(n: Numeral): seq<Byte> {
    (if n.minus then [0x2D] else []) + (n.whole + (PrintFraction(n.fraction) + PrintExponent(n.exponent)))
  }

  function PrintUnit(u: Unit): seq<Byte> {
    match u
    case Raw(b) => [b]
    case Short(b) => [0x5C, b]
    case Unicode(hex) => [0x5C, 0x75] + hex
  }

  function PrintUnits(us: seq<Unit>): seq<Byte> {
    if us == [] then [0x22] else PrintUnit(us[0]) + PrintUnits(us[1..])
  }

  function Print(t: Syntax): seq<Byte>
    decreases t, 1
  {
    match t
    case NullText => [0x6E, 0x75, 0x6C, 0x6C]
    case BoolText(b) => if b then [0x74, 0x72, 0x75, 0x65] else [0x66, 0x61, 0x6C, 0x73, 0x65]
    case NumberText(n) => PrintNumeral(n)
    case StringText(us) => [0x22] + PrintUnits(us)
    case ArrayText(inner, items) => [0x5B] + (inner + PrintItems(items))
    case ObjectText(inner, members) => [0x7B] + (inner + PrintMembers(members))
  }

  /** The items, comma-separated, and the closing bracket. */
  function PrintItems(items: seq<Item>): seq<Byte>
    decreases items, 0
  {
    if items == [] then [0x5D]
    else
      items[0].before + (Print(items[0].value) + (items[0].after +
      (if |items| == 1 then [0x5D] else [0x2C] + PrintItems(items[1..]))))
  }

  function PrintKey(m: Member): seq<Byte> {
    m.beforeKey + ([0x22] + (PrintUnits(m.key) + (m.afterKey + [0x3A])))
  }

  function PrintMembers(ms: seq<Member>): seq<Byte>
    decreases ms, 0
  {
    if ms == [] then [0x7D]
    else
      PrintKey(ms[0]) + (ms[0].beforeValue + (Print(ms[0].value) + (ms[0].after +
      (if |ms| == 1 then [0x7D] else [0x2C] + PrintMembers(ms[1..])))))
  }

  // ---------------------------------------------------------------------------------------------
  // Meaning
  // ---------------------------------------------------------------------------------------------

  /** A raw byte is the character of that code; a surrogate escape is nothing. */
  function UnitText(u: Unit): string
    requires IsUnit(u)
  {
    match u
    case Raw(b) => [b as char]
    case Short(b) => [ShortEscape(b).value]
    case Unicode(hex) => CharOrNothing(FourHex(hex).value)
  }

  function Text(us: seq<Unit>): string
    requires AllUnits(us)
  {
    if us == [] then "" else UnitText(us[0]) + Text(us[1..])
  }

  function Denotes(t: Syntax): JsonValue
    requires IsSyntax(t)
    decreases t, 1
  {
    match t
    case NullText => Null
    case BoolText(b) => Bool(b)
    case NumberText(n) => Number(PrintNumeral(n))
    case StringText(us) => String(Text(us))
    case ArrayText(_, items) => Array(ItemValues(items))
    case ObjectText(_, members) => Object(Collect(map[], members))
  }

  function ItemValues(items: seq<Item>): seq<JsonValue>
    requires AreItems(items)
    decreases items, 0
  {
    if items == [] then [] else [Denotes(items[0].value)] + ItemValues(items[1..])
  }

  /** Members enter the map from left to right, so the last of equal keys stays. */
  function Collect(m: map<string, JsonValue>, ms: seq<Member>): map<string, JsonValue>
    requires AreMembers(ms)
    decreases ms, 0
  {
    if ms == [] then m else Collect(m[Text(ms[0].key) := Denotes(ms[0].value)], ms[1..])
  }

  // ---------------------------------------------------------------------------------------------
  // Where a token ends
  // ---------------------------------------------------------------------------------------------

  predicate StartsWithDigit(s: seq<Byte>) {
    s != [] && IsDigit(s[0])
  }

  /** The byte after a numeral, if any, is not one the scanner would still take (maximal munch). */
  predicate EndsNumeral(n: Numeral, rest: seq<Byte>) {
    rest == [] || (
      && !IsDigit(rest[0])
      && (n.exponent.None? ==> !IsExponentMark(rest[0]) && (n.fraction.None? ==> rest[0] != DOT))
      && (n.exponent.Some? && n.exponent.value.sign.None? && n.exponent.value.digits == [] ==> !IsSign(rest[0])))
  }

  predicate Ends(t: Syntax, rest: seq<Byte>) {
    t.NumberText? ==> EndsNumeral(t.numeral, rest)
  }

  /** What can follow a value inside a document: nothing, whitespace, a comma or a closing bracket. */
  predicate Delimited(rest: seq<Byte>) {
    rest == [] || IsWhitespace(rest[0]) || rest[0] == COMMA || rest[0] == CLOSE_BRACKET || rest[0] == CLOSE_BRACE
  }

  lemma DelimitedEnds(t: Syntax, rest: seq<Byte>)
    requires Delimited(rest)
    ensures Ends(t, rest)
  {
  }

  // ---------------------------------------------------------------------------------------------
  // Every printed form is read back
  // ---------------------------------------------------------------------------------------------

  predicate NoLeadingWs(s: seq<Byte>) {
    s == [] || !IsWhitespace(s[0])
  }

  lemma {:induction false} ReadWs(ws: seq<Byte>, s: seq<Byte>)
    requires AllWs(ws)
    ensures AfterWs(ws + s) == AfterWs(s)
    ensures NoLeadingWs(s) ==> AfterWs(ws + s) == s
  {
    if ws == [] {
      assert ws + s == s;
    } else {
      ReadWs(ws[1..], s);
      assert (ws + s)[1..] == ws[1..] + s;
    }
  }

  lemma {:induction false} ReadDigits(ds: seq<Byte>, s: seq<Byte>)
    requires AllDigits(ds) && !StartsWithDigit(s)
    ensures AfterDigits(ds + s) == s
  {
    if ds == [] {
      assert ds + s == s;
    } else {
      ReadDigits(ds[1..], s);
      assert (ds + s)[1..] == ds[1..] + s;
    }
  }

  lemma ReadFraction(f: Option<seq<Byte>>, s: seq<Byte>)
    requires f.Some? ==> AllDigits(f.value)
    requires !StartsWithDigit(s) && (f.None? ==> s == [] || s[0] != DOT)
    ensures AfterFraction(PrintFraction(f) + s) == s
  {
    if f.Some? {
      assert (PrintFraction(f) + s)[1..] == f.value + s;
      ReadDigits(f.value, s);
    } else {
      assert PrintFraction(f) + s == s;
    }
  }

  lemma ReadSign(sign: Option<Byte>, s: seq<Byte>)
    requires sign.Some? ==> IsSign(sign.value)
    requires sign.None? ==> s == [] || !IsSign(s[0])
    ensures AfterSign(PrintSign(sign) + s) == s
  {
  }

  lemma ReadExponent(n: Numeral, s: seq<Byte>)
    requires IsNumeral(n) && EndsNumeral(n, s)
    ensures AfterExponent(PrintExponent(n.exponent) + s) == s
  {
    if n.exponent.Some? {
      var e := n.exponent.value;
      Join([e.mark], PrintSign(e.sign) + e.digits, s);
      Join(PrintSign(e.sign), e.digits, s);
      DropHead(e.mark, PrintSign(e.sign) + (e.digits + s));
      NothingAdded(s);
      assert e.digits != [] ==> (e.digits + s)[0] == e.digits[0];
      ReadSign(e.sign, e.digits + s);
      ReadDigits(e.digits, s);
    } else {
      NothingAdded(s);
    }
  }

  lemma ReadFractionAndExponent(n: Numeral, s: seq<Byte>)
    requires IsNumeral(n) && EndsNumeral(n, s)
    ensures var tail := PrintFraction(n.fraction) + (PrintExponent(n.exponent) + s);
      !StartsWithDigit(tail) && AfterExponent(AfterFraction(tail)) == s
  {
    var tail := PrintExponent(n.exponent) + s;
    ReadExponent(n, s);
    assert n.exponent.None? ==> tail == s;
    assert n.exponent.Some? ==> tail[0] == n.exponent.value.mark;
    ReadFraction(n.fraction, tail);
    assert n.fraction.None? ==> PrintFraction(n.fraction) + tail == tail;
  }

  lemma ReadMinus(minus: bool, s: seq<Byte>)
    requires !minus ==> s == [] || s[0] != MINUS
    ensures AfterMinus((if minus then [MINUS] else []) + s) == s
  {
  }

  lemma NumberSpan(text: seq<Byte>, rest: seq<Byte>)
    requires AfterNumber(text + rest) == rest
    ensures NumberAt(text + rest) == Ok(Parsed(Number(text), rest))
  {
  }

  lemma ReadNumeral(n: Numeral, s: seq<Byte>)
    requires IsNumeral(n) && EndsNumeral(n, s)
    ensures AfterNumber(PrintNumeral(n) + s) == s
  {
    var minus := if n.minus then [MINUS] else [];
    var f, e := PrintFraction(n.fraction), PrintExponent(n.exponent);
    Regroup(minus, n.whole, f, e, s);
    ReadFractionAndExponent(n, s);
    ReadDigits(n.whole, f + (e + s));
    assert n.whole != [] ==> (n.whole + (f + (e + s)))[0] == n.whole[0];
    ReadMinus(n.minus, n.whole + (f + (e + s)));
  }

  lemma ReadUnit(out: string, u: Unit, s: seq<Byte>)
    requires IsUnit(u)
    ensures CharsAt(out, PrintUnit(u) + s) == CharsAt(out + UnitText(u), s)
  {
    var text := PrintUnit(u) + s;
    match u
    case Raw(b) => assert text[1..] == s;
    case Short(b) => assert text[1..] == [b] + s && text[1..][1..] == s;
    case Unicode(hex) =>
      assert text[1..] == [LOWER_U] + hex + s;
      assert text[1..][1..5] == hex && text[1..][5..] == s;
  }

  lemma {:induction false} ReadUnits(out: string, us: seq<Unit>, s: seq<Byte>)
    requires AllUnits(us)
    ensures CharsAt(out, PrintUnits(us) + s) == Ok(Parsed(out + Text(us), s))
    decreases |us|
  {
    if us == [] {
      DropHead(QUOTE, s);
      NothingAdded(out);
    } else {
      Join(PrintUnit(us[0]), PrintUnits(us[1..]), s);
      ReadUnit(out, us[0], PrintUnits(us[1..]) + s);
      ReadUnits(out + UnitText(us[0]), us[1..], s);
      Join(out, UnitText(us[0]), Text(us[1..]));
    }
  }

  lemma ReadString(us: seq<Unit>, s: seq<Byte>)
    requires AllUnits(us)
    ensures StringAt([QUOTE] + PrintUnits(us) + s) == Ok(Parsed(Text(us), s))
  {
    assert ([QUOTE] + PrintUnits(us) + s)[1..] == PrintUnits(us) + s;
    ReadUnits("", us, s);
    assert "" + Text(us) == Text(us);
  }

  /** A printed value starts with a byte that is not whitespace and not a closing bracket. */
  lemma FirstByte(t: Syntax)
    requires IsSyntax(t)
    ensures Print(t) != [] && !IsWhitespace(Print(t)[0]) && Print(t)[0] != CLOSE_BRACKET && Print(t)[0] != CLOSE_BRACE
    ensures t.NumberText? ==> Print(t)[0] == MINUS || IsDigit(Print(t)[0])
  {
  }

  lemma LeadingWs(ws: seq<Byte>, s: seq<Byte>)
    requires AllWs(ws)
    ensures ValueAt(ws + s) == ValueAt(s)
  {
    ReadWs(ws, s);
  }

  lemma ReadLiteral(t: Syntax, rest: seq<Byte>)
    requires t.NullText? || t.BoolText?
    ensures ValueAt(Print(t) + rest) == Ok(Parsed(Denotes(t), rest))
  {
  }

  lemma ReadScalar(t: Syntax, rest: seq<Byte>)
    requires t.NumberText? || t.StringText?
    requires IsSyntax(t) && Ends(t, rest)
    ensures ValueAt(Print(t) + rest) == Ok(Parsed(Denotes(t), rest))
  {
    hide AfterNumber, PrintUnits, CharsAt;
    var text := Print(t) + rest;
    FirstByte(t);
    assert text[0] == Print(t)[0] && AfterWs(text) == text;
    if t.NumberText? {
      ReadNumeral(t.numeral, rest);
      NumberSpan(Print(t), rest);
    } else {
      ReadString(t.units, rest);
    }
  }

  lemma OpenArray(inner: seq<Byte>, items: seq<Item>, rest: seq<Byte>)
    requires AllWs(inner)
    ensures ValueAt(Print(ArrayText(inner, items)) + rest) == ArrayAt(PrintItems(items) + rest)
  {
    Join([OPEN_BRACKET], inner + PrintItems(items), rest);
    Join(inner, PrintItems(items), rest);
    DropHead(OPEN_BRACKET, inner + (PrintItems(items) + rest));
    ArraySkipsWs(inner, PrintItems(items) + rest);
  }

  lemma OpenObject(inner: seq<Byte>, members: seq<Member>, rest: seq<Byte>)
    requires AllWs(inner)
    ensures ValueAt(Print(ObjectText(inner, members)) + rest) == ObjectAt(PrintMembers(members) + rest)
  {
    Join([OPEN_BRACE], inner + PrintMembers(members), rest);
    Join(inner, PrintMembers(members), rest);
    DropHead(OPEN_BRACE, inner + (PrintMembers(members) + rest));
    ObjectSkipsWs(inner, PrintMembers(members) + rest);
  }

  /** Read back one value, whatever follows it. */
  lemma {:induction false} ReadValue(t: Syntax, rest: seq<Byte>)
    requires IsSyntax(t) && Ends(t, rest)
    ensures ValueAt(Print(t) + rest) == Ok(Parsed(Denotes(t), rest))
    decreases t, 1
  {
    match t
    case NullText => ReadLiteral(t, rest);
    case BoolText(_) => ReadLiteral(t, rest);
    case NumberText(_) => ReadScalar(t, rest);
    case StringText(_) => ReadScalar(t, rest);
    case ArrayText(inner, items) =>
      ReadArray(items, rest);
      OpenArray(inner, items, rest);
    case ObjectText(inner, members) =>
      ReadObject(members, rest);
      OpenObject(inner, members, rest);
  }

  lemma ArraySkipsWs(ws: seq<Byte>, s: seq<Byte>)
    requires AllWs(ws)
    ensures ArrayAt(ws + s) == ArrayAt(s)
  {
    ReadWs(ws, s);
  }

  lemma ObjectSkipsWs(ws: seq<Byte>, s: seq<Byte>)
    requires AllWs(ws)
    ensures ObjectAt(ws + s) == ObjectAt(s)
  {
    ReadWs(ws, s);
  }

  lemma {:induction false} ReadArray(items: seq<Item>, rest: seq<Byte>)
    requires AreItems(items)
    ensures ArrayAt(PrintItems(items) + rest) == Ok(Parsed(Array(ItemValues(items)), rest))
    decreases items, 1
  {
    var s := PrintItems(items) + rest;
    if items == [] {
      assert s[1..] == rest;
    } else {
      ReadItems([], items, rest);
      assert [] + ItemValues(items) == ItemValues(items);
      ItemsStart(items, rest);
      ElementsSkipWs([], s);
    }
  }

  lemma ElementsSkipWs(out: seq<JsonValue>, s: seq<Byte>)
    ensures ElementsAt(out, AfterWs(s)) == ElementsAt(out, s)
  {
    AfterWsTwice(s);
  }

  lemma {:induction false} AfterWsTwice(s: seq<Byte>)
    ensures AfterWs(AfterWs(s)) == AfterWs(s)
  {
    if s != [] && IsWhitespace(s[0]) { AfterWsTwice(s[1..]); }
  }

  lemma ItemsStart(items: seq<Item>, rest: seq<Byte>)
    requires items != [] && AreItems(items)
    ensures AfterWs(PrintItems(items) + rest) != [] && AfterWs(PrintItems(items) + rest)[0] != CLOSE_BRACKET
  {
    var more := items[0].after + (if |items| == 1 then [CLOSE_BRACKET] else [COMMA] + PrintItems(items[1..]));
    FirstByte(items[0].value);
    var tail := Print(items[0].value) + (more + rest);
    assert PrintItems(items) + rest == items[0].before + tail;
    ReadWs(items[0].before, tail);
  }

  /** One element, the whitespace around it, and the separator after it. */
  lemma ReadElement(out: seq<JsonValue>, before: seq<Byte>, text: seq<Byte>, v: JsonValue, after: seq<Byte>,
                    last: bool, more: seq<Byte>)
    requires AllWs(before) && AllWs(after)
    requires var tail := after + ([if last then CLOSE_BRACKET else COMMA] + more);
      ValueAt(text + tail) == Ok(Parsed(v, tail))
    ensures var tail := after + ([if last then CLOSE_BRACKET else COMMA] + more);
      ElementsAt(out, before + (text + tail)) ==
      if last then Ok(Parsed(Array(out + [v]), more)) else ElementsAt(out + [v], more)
  {
    var separator := if last then CLOSE_BRACKET else COMMA;
    LeadingWs(before, text + (after + ([separator] + more)));
    ReadWs(after, [separator] + more);
    DropHead(separator, more);
  }

  /** What follows the separator after the first item. */
  function MoreItems(items: seq<Item>, rest: seq<Byte>): seq<Byte>
    requires items != []
  {
    if |items| == 1 then rest else PrintItems(items[1..]) + rest
  }

  /** What follows the first item's value. */
  function AfterFirstItem(items: seq<Item>, rest: seq<Byte>): seq<Byte>
    requires items != []
  {
    items[0].after + ([if |items| == 1 then CLOSE_BRACKET else COMMA] + MoreItems(items, rest))
  }

  lemma AfterFirstItemDelimits(items: seq<Item>, rest: seq<Byte>)
    requires items != [] && AreItems(items)
    ensures Delimited(AfterFirstItem(items, rest))
  {
  }

  lemma ItemsShape(items: seq<Item>, rest: seq<Byte>)
    requires items != []
    ensures PrintItems(items) + rest == items[0].before + (Print(items[0].value) + AfterFirstItem(items, rest))
  {
    var more := if |items| == 1 then [] else PrintItems(items[1..]);
    var separator := if |items| == 1 then CLOSE_BRACKET else COMMA;
    NothingAdded(rest);
    NothingAdded([CLOSE_BRACKET]);
    Join([separator], more, rest);
    Regroup(items[0].before, Print(items[0].value), items[0].after, [separator] + more, rest);
  }

  lemma ReadFirstItem(out: seq<JsonValue>, items: seq<Item>, rest: seq<Byte>, v: JsonValue)
    requires items != [] && AreItems(items)
    requires var tail := AfterFirstItem(items, rest);
      ValueAt(Print(items[0].value) + tail) == Ok(Parsed(v, tail))
    ensures ElementsAt(out, PrintItems(items) + rest) ==
      if |items| == 1 then Ok(Parsed(Array(out + [v]), rest)) else ElementsAt(out + [v], MoreItems(items, rest))
  {
    ItemsShape(items, rest);
    ReadElement(out, items[0].before, Print(items[0].value), v, items[0].after, |items| == 1, MoreItems(items, rest));
  }

  lemma {:induction false} ReadItems(out: seq<JsonValue>, items: seq<Item>, rest: seq<Byte>)
    requires items != [] && AreItems(items)
    ensures ElementsAt(out, PrintItems(items) + rest) == Ok(Parsed(Array(out + ItemValues(items)), rest))
    decreases items, 0
  {
    var v, tail := Denotes(items[0].value), AfterFirstItem(items, rest);
    AfterFirstItemDelimits(items, rest);
    DelimitedEnds(items[0].value, tail);
    ReadValue(items[0].value, tail);
    ReadFirstItem(out, items, rest, v);
    if |items| == 1 {
      NothingAdded([v]);
      assert items[1..] == [] && ItemValues(items) == [v];
    } else {
      ReadItems(out + [v], items[1..], rest);
      Join(out, [v], ItemValues(items[1..]));
    }
  }

  lemma ReadKey(m: Member, s: seq<Byte>)
    requires AllWs(m.beforeKey) && AllUnits(m.key) && AllWs(m.afterKey)
    ensures KeyAt(PrintKey(m) + s) == Ok(Parsed(Text(m.key), s))
  {
    hide PrintUnits, Text, CharsAt;
    var afterString := m.afterKey + ([COLON] + s);
    var fromString := [QUOTE] + PrintUnits(m.key) + afterString;
    Regroup([QUOTE], PrintUnits(m.key), m.afterKey, [COLON], s);
    Join(m.beforeKey, [QUOTE] + (PrintUnits(m.key) + (m.afterKey + [COLON])), s);
    Join([QUOTE], PrintUnits(m.key), afterString);
    ReadWs(m.beforeKey, fromString);
    ReadString(m.key, afterString);
    ReadWs(m.afterKey, [COLON] + s);
    DropHead(COLON, s);
  }

  lemma {:induction false} ReadObject(ms: seq<Member>, rest: seq<Byte>)
    requires AreMembers(ms)
    ensures ObjectAt(PrintMembers(ms) + rest) == Ok(Parsed(Object(Collect(map[], ms)), rest))
    decreases ms, 1
  {
    var s := PrintMembers(ms) + rest;
    if ms == [] {
      assert s[1..] == rest;
    } else {
      ReadMembers(map[], ms, rest);
      MembersStart(ms, rest);
      MembersSkipWs(map[], s);
    }
  }

  lemma MembersSkipWs(m: map<string, JsonValue>, s: seq<Byte>)
    ensures MembersAt(m, AfterWs(s)) == MembersAt(m, s)
  {
  }

  lemma MembersStart(ms: seq<Member>, rest: seq<Byte>)
    requires ms != [] && AreMembers(ms)
    ensures AfterWs(PrintMembers(ms) + rest) != [] && AfterWs(PrintMembers(ms) + rest)[0] != CLOSE_BRACE
  {
    hide Print, PrintUnits;
    var more := (PrintMembers(ms) + rest)[|ms[0].beforeKey|..];
    assert PrintMembers(ms) + rest == ms[0].beforeKey + more;
    assert more[0] == QUOTE;
    ReadWs(ms[0].beforeKey, more);
  }

  /** One member's value, the whitespace around it, and the separator after it. */
  lemma ReadMember(m: map<string, JsonValue>, keyText: seq<Byte>, key: string, before: seq<Byte>,
                   text: seq<Byte>, v: JsonValue, after: seq<Byte>, last: bool, more: seq<Byte>)
    requires AllWs(before) && AllWs(after)
    requires var tail := after + ([if last then CLOSE_BRACE else COMMA] + more);
      && ValueAt(text + tail) == Ok(Parsed(v, tail))
      && KeyAt(keyText + (before + (text + tail))) == Ok(Parsed(key, before + (text + tail)))
    ensures var tail := after + ([if last then CLOSE_BRACE else COMMA] + more);
      MembersAt(m, keyText + (before + (text + tail))) ==
      if last then Ok(Parsed(Object(m[key := v]), more)) else MembersAt(m[key := v], more)
  {
    var separator := if last then CLOSE_BRACE else COMMA;
    LeadingWs(before, text + (after + ([separator] + more)));
    ReadWs(after, [separator] + more);
    DropHead(separator, more);
  }

  /** What follows the separator after the first member. */
  function MoreMembers(ms: seq<Member>, rest: seq<Byte>): seq<Byte>
    requires ms != []
  {
    if |ms| == 1 then rest else PrintMembers(ms[1..]) + rest
  }

  /** What follows the first member's value. */
  function AfterFirstMember(ms: seq<Member>, rest: seq<Byte>): seq<Byte>
    requires ms != []
  {
    ms[0].after + ([if |ms| == 1 then CLOSE_BRACE else COMMA] + MoreMembers(ms, rest))
  }

  lemma AfterFirstMemberDelimits(ms: seq<Member>, rest: seq<Byte>)
    requires ms != [] && AreMembers(ms)
    ensures Delimited(AfterFirstMember(ms, rest))
  {
  }

  lemma MembersShape(ms: seq<Member>, rest: seq<Byte>)
    requires ms != []
    ensures PrintMembers(ms) + rest ==
      PrintKey(ms[0]) + (ms[0].beforeValue + (Print(ms[0].value) + AfterFirstMember(ms, rest)))
  {
    var more := if |ms| == 1 then [] else PrintMembers(ms[1..]);
    var separator := if |ms| == 1 then CLOSE_BRACE else COMMA;
    NothingAdded(rest);
    NothingAdded([CLOSE_BRACE]);
    Join([separator], more, rest);
    Regroup(ms[0].beforeValue, Print(ms[0].value), ms[0].after, [separator] + more, rest);
    Join(PrintKey(ms[0]), ms[0].beforeValue + (Print(ms[0].value) + (ms[0].after + ([separator] + more))), rest);
  }

  lemma ReadFirstMember(m: map<string, JsonValue>, ms: seq<Member>, rest: seq<Byte>, v: JsonValue)
    requires ms != [] && AreMembers(ms)
    requires var tail := AfterFirstMember(ms, rest);
      ValueAt(Print(ms[0].value) + tail) == Ok(Parsed(v, tail))
    ensures MembersAt(m, PrintMembers(ms) + rest) ==
      var m' := m[Text(ms[0].key) := v];
      if |ms| == 1 then Ok(Parsed(Object(m'), rest)) else MembersAt(m', MoreMembers(ms, rest))
  {
    var first := ms[0];
    MembersShape(ms, rest);
    ReadKey(first, first.beforeValue + (Print(first.value) + AfterFirstMember(ms, rest)));
    ReadMember(m, PrintKey(first), Text(first.key), first.beforeValue, Print(first.value), v, first.after,
               |ms| == 1, MoreMembers(ms, rest));
  }

  lemma {:induction false} ReadMembers(m: map<string, JsonValue>, ms: seq<Member>, rest: seq<Byte>)
    requires ms != [] && AreMembers(ms)
    ensures MembersAt(m, PrintMembers(ms) + rest) == Ok(Parsed(Object(Collect(m, ms)), rest))
    decreases ms, 0
  {
    var v, tail := Denotes(ms[0].value), AfterFirstMember(ms, rest);
    AfterFirstMemberDelimits(ms, rest);
    DelimitedEnds(ms[0].value, tail);
    ReadValue(ms[0].value, tail);
    ReadFirstMember(m, ms, rest, v);
    if |ms| > 1 {
      ReadMembers(m[Text(ms[0].key) := v], ms[1..], rest);
    }
    assert |ms| == 1 ==> Collect(m, ms) == m[Text(ms[0].key) := v];
  }
}
