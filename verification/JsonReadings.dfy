/** A text has one reading: all its trees have the same strings and numerals, and differ in the placement of
    whitespace only. So whether a text is lenient does not depend on the tree. */
module JsonReadings {
  import opened Outcomes
  import opened Concatenation
  import opened Json
  import opened JsonParser
  import opened JsonSyntax
  import opened JsonLanguage
  import opened JsonStandard

  lemma SameTail<T>(a: seq<T>, b: seq<T>, c: seq<T>)
    requires a + c == b + c
    ensures a == b
  {
    assert a == (a + c)[..|a + c| - |c|] && b == (b + c)[..|b + c| - |c|];
  }

  lemma SameFirst<T>(x: T, a: seq<T>, y: T, b: seq<T>)
    requires [x] + a == [y] + b
    ensures x == y && a == b
  {
    DropHead(x, a);
    DropHead(y, b);
  }

  // ---------------------------------------------------------------------------------------------
  // Tokens
  // ---------------------------------------------------------------------------------------------

  lemma UnitIsUnique(u: Unit, s: seq<Byte>, u': Unit, s': seq<Byte>)
    requires IsUnit(u) && IsUnit(u') && PrintUnit(u) + s == PrintUnit(u') + s'
    ensures u == u' && s == s'
  {
    var text := PrintUnit(u) + s;
    assert text[0] == PrintUnit(u)[0] == PrintUnit(u')[0];
    if !u.Raw? {
      assert text[1] == PrintUnit(u)[1] == PrintUnit(u')[1];
      if u.Unicode? {
        assert text[2..6] == u.hex && text[2..6] == u'.hex && text[6..] == s && text[6..] == s';
      } else {
        assert text[2..] == s && text[2..] == s';
      }
    } else {
      assert text[1..] == s && text[1..] == s';
    }
  }

  lemma {:induction false} UnitsAreUnique(us: seq<Unit>, s: seq<Byte>, us': seq<Unit>, s': seq<Byte>)
    requires AllUnits(us) && AllUnits(us') && PrintUnits(us) + s == PrintUnits(us') + s'
    ensures us == us' && s == s'
    decreases |us|
  {
    if us == [] || us' == [] {
      UnitsEnd(us, s, us', s');
    } else {
      Join(PrintUnit(us[0]), PrintUnits(us[1..]), s);
      Join(PrintUnit(us'[0]), PrintUnits(us'[1..]), s');
      UnitIsUnique(us[0], PrintUnits(us[1..]) + s, us'[0], PrintUnits(us'[1..]) + s');
      UnitsAreUnique(us[1..], s, us'[1..], s');
      HeadAndTail(us);
      HeadAndTail(us');
    }
  }

  /** Only the end of a string prints as a quote. */
  lemma UnitsEnd(us: seq<Unit>, s: seq<Byte>, us': seq<Unit>, s': seq<Byte>)
    requires AllUnits(us) && AllUnits(us') && PrintUnits(us) + s == PrintUnits(us') + s'
    requires us == [] || us' == []
    ensures us == us' && s == s'
  {
    QuoteEnds(us);
    QuoteEnds(us');
    var text := PrintUnits(us) + s;
    assert text[0] == PrintUnits(us)[0] == PrintUnits(us')[0];
    assert text[1..] == s && text[1..] == s';
  }

  lemma QuoteEnds(us: seq<Unit>)
    requires AllUnits(us)
    ensures PrintUnits(us) != [] && (PrintUnits(us)[0] == QUOTE <==> us == [])
  {
    if us != [] { assert PrintUnits(us)[0] == PrintUnit(us[0])[0]; }
  }

  lemma ExponentIsUnique(e: Option<Exponent>, e': Option<Exponent>)
    requires (e.Some? ==> IsExponent(e.value)) && (e'.Some? ==> IsExponent(e'.value))
    requires PrintExponent(e) == PrintExponent(e')
    ensures e == e'
  {
    if e.Some? && e'.Some? {
      var x, y := e.value, e'.value;
      SameFirst(x.mark, PrintSign(x.sign) + x.digits, y.mark, PrintSign(y.sign) + y.digits);
      SignIsUnique(x.sign, x.digits, y.sign, y.digits);
    }
  }

  lemma SignIsUnique(sign: Option<Byte>, ds: seq<Byte>, sign': Option<Byte>, ds': seq<Byte>)
    requires (sign.Some? ==> IsSign(sign.value)) && (sign'.Some? ==> IsSign(sign'.value))
    requires AllDigits(ds) && AllDigits(ds') && PrintSign(sign) + ds == PrintSign(sign') + ds'
    ensures sign == sign' && ds == ds'
  {
    var text := PrintSign(sign) + ds;
    assert sign.Some? ==> text[0] == sign.value && text[1..] == ds;
    assert sign.None? ==> text == ds;
    assert sign'.Some? ==> text[0] == sign'.value && text[1..] == ds';
    assert sign'.None? ==> text == ds';
  }

  lemma FractionIsUnique(f: Option<seq<Byte>>, f': Option<seq<Byte>>)
    requires PrintFraction(f) == PrintFraction(f')
    ensures f == f'
  {
    if f.Some? && f'.Some? {
      SameFirst(DOT, f.value, DOT, f'.value);
    }
  }

  /** How the scanner takes a whole numeral apart. */
  lemma NumeralParts(n: Numeral)
    requires IsNumeral(n)
    ensures var text := PrintNumeral(n);
      var tail := PrintFraction(n.fraction) + PrintExponent(n.exponent);
      && text != [] && (n.minus <==> text[0] == MINUS)
      && AfterMinus(text) == n.whole + tail && AfterDigits(n.whole + tail) == tail
      && AfterFraction(tail) == PrintExponent(n.exponent)
  {
    var minus := if n.minus then [MINUS] else [];
    var f, e := PrintFraction(n.fraction), PrintExponent(n.exponent);
    var tail := f + e;
    NothingAdded(e);
    ReadFractionAndExponent(n, []);
    ReadFraction(n.fraction, e);
    ReadDigits(n.whole, tail);
    NothingAdded(n.whole + tail);
    assert n.whole != [] ==> (n.whole + tail)[0] == n.whole[0];
    ReadMinus(n.minus, n.whole + tail);
  }

  lemma NumeralIsUnique(n: Numeral, n': Numeral)
    requires IsNumeral(n) && IsNumeral(n') && PrintNumeral(n) == PrintNumeral(n')
    ensures n == n'
  {
    hide PrintNumeral, PrintFraction, PrintExponent, AfterMinus, AfterDigits, AfterFraction;
    NumeralParts(n);
    NumeralParts(n');
    var f, e := PrintFraction(n.fraction), PrintExponent(n.exponent);
    var f', e' := PrintFraction(n'.fraction), PrintExponent(n'.exponent);
    SameTail(n.whole, n'.whole, f + e);
    SameTail(f, f', e);
    FractionIsUnique(n.fraction, n'.fraction);
    ExponentIsUnique(n.exponent, n'.exponent);
  }

  // ---------------------------------------------------------------------------------------------
  // Trees
  // ---------------------------------------------------------------------------------------------

  /** The reader finds where a value ends, so two readings of one text end their first value at one place. */
  lemma SameEnd(t: Syntax, s: seq<Byte>, t': Syntax, s': seq<Byte>)
    requires IsSyntax(t) && IsSyntax(t') && Ends(t, s) && Ends(t', s') && Print(t) + s == Print(t') + s'
    ensures s == s' && Print(t) == Print(t')
  {
    hide ValueAt, Print, Denotes, Ends;
    ReadValue(t, s);
    ReadValue(t', s');
    SameTail(Print(t), Print(t'), s);
  }

  /** A value in whitespace, with a delimiter after it. */
  lemma SameEndInWs(ws: seq<Byte>, t: Syntax, s: seq<Byte>, ws': seq<Byte>, t': Syntax, s': seq<Byte>)
    requires AllWs(ws) && AllWs(ws') && IsSyntax(t) && IsSyntax(t') && Delimited(s) && Delimited(s')
    requires ws + (Print(t) + s) == ws' + (Print(t') + s')
    ensures s == s' && Print(t) == Print(t')
  {
    hide Print;
    StripWs(ws, t, s);
    StripWs(ws', t', s');
    DelimitedEnds(t, s);
    DelimitedEnds(t', s');
    SameEnd(t, s, t', s');
  }

  lemma StripWs(ws: seq<Byte>, t: Syntax, s: seq<Byte>)
    requires AllWs(ws) && IsSyntax(t)
    ensures AfterWs(ws + (Print(t) + s)) == Print(t) + s
  {
    hide Print;
    FirstByte(t);
    assert (Print(t) + s)[0] == Print(t)[0];
    ReadWs(ws, Print(t) + s);
  }

  lemma SameSeparator(ws: seq<Byte>, b: Byte, s: seq<Byte>, ws': seq<Byte>, b': Byte, s': seq<Byte>)
    requires AllWs(ws) && AllWs(ws') && !IsWhitespace(b) && !IsWhitespace(b')
    requires ws + ([b] + s) == ws' + ([b'] + s')
    ensures b == b' && s == s'
  {
    ReadWs(ws, [b] + s);
    ReadWs(ws', [b'] + s');
    SameFirst(b, s, b', s');
  }

  /** Two trees that print alike are lenient alike. */
  lemma {:induction false} SameLeniency(t: Syntax, t': Syntax)
    requires IsSyntax(t) && IsSyntax(t') && Print(t) == Print(t')
    ensures Lenient(t) <==> Lenient(t')
    decreases t, 1
  {
    SameKind(t, t');
    match t
    case NumberText(n) => NumeralIsUnique(n, t'.numeral);
    case StringText(us) =>
      SameFirst(QUOTE, PrintUnits(us), QUOTE, PrintUnits(t'.units));
      NothingAdded(PrintUnits(us));
      NothingAdded(PrintUnits(t'.units));
      UnitsAreUnique(us, [], t'.units, []);
    case ArrayText(inner, items) =>
      SameFirst(OPEN_BRACKET, inner + PrintItems(items), OPEN_BRACKET, t'.inner + PrintItems(t'.items));
      SameItems(inner, items, t'.inner, t'.items);
    case ObjectText(inner, members) =>
      SameFirst(OPEN_BRACE, inner + PrintMembers(members), OPEN_BRACE, t'.inner + PrintMembers(t'.members));
      SameMembers(inner, members, t'.inner, t'.members);
    case _ =>
  }

  /** They are of one kind. */
  lemma SameKind(t: Syntax, t': Syntax)
    requires IsSyntax(t) && IsSyntax(t') && Print(t) == Print(t')
    ensures t.NumberText? <==> t'.NumberText?
    ensures t.StringText? <==> t'.StringText?
    ensures t.ArrayText? <==> t'.ArrayText?
    ensures t.ObjectText? <==> t'.ObjectText?
  {
    hide ValueAt, Print;
    ReadValue(t, []);
    ReadValue(t', []);
  }

  lemma NoItemsUnlessClosed(ws: seq<Byte>, items: seq<Item>, ws': seq<Byte>)
    requires AllWs(ws) && AllWs(ws') && AreItems(items) && ws + PrintItems(items) == ws' + PrintItems([])
    ensures items == []
  {
    if items != [] {
      NothingAdded(PrintItems(items));
      ItemsStart(items, []);
      ReadWs(ws, PrintItems(items));
      ReadWs(ws', PrintItems([]));
      assert false;
    }
  }

  lemma FirstItemShape(ws: seq<Byte>, items: seq<Item>)
    requires items != [] && AreItems(items)
    ensures ws + PrintItems(items)
            == (ws + items[0].before) + (Print(items[0].value) + AfterFirstItem(items, []))
    ensures AllWs(ws) ==> AllWs(ws + items[0].before)
    ensures Delimited(AfterFirstItem(items, []))
  {
    hide Print;
    NothingAdded(PrintItems(items));
    ItemsShape(items, []);
    Join(ws, items[0].before, Print(items[0].value) + AfterFirstItem(items, []));
    AfterFirstItemDelimits(items, []);
  }

  lemma {:induction false} SameItems(ws: seq<Byte>, items: seq<Item>, ws': seq<Byte>, items': seq<Item>)
    requires AllWs(ws) && AllWs(ws') && AreItems(items) && AreItems(items')
    requires ws + PrintItems(items) == ws' + PrintItems(items')
    ensures LenientItems(items) <==> LenientItems(items')
    decreases items, 0
  {
    if items == [] {
      NoItemsUnlessClosed(ws', items', ws);
    } else if items' == [] {
      NoItemsUnlessClosed(ws, items, ws');
    } else {
      FirstItemShape(ws, items);
      FirstItemShape(ws', items');
      SameEndInWs(ws + items[0].before, items[0].value, AfterFirstItem(items, []),
                  ws' + items'[0].before, items'[0].value, AfterFirstItem(items', []));
      SameLeniency(items[0].value, items'[0].value);
      SameSeparator(items[0].after, if |items| == 1 then CLOSE_BRACKET else COMMA, MoreItems(items, []),
                    items'[0].after, if |items'| == 1 then CLOSE_BRACKET else COMMA, MoreItems(items', []));
      NothingAdded(PrintItems(items[1..]));
      NothingAdded(PrintItems(items'[1..]));
      SameItems([], items[1..], [], items'[1..]);
    }
  }

  lemma NoMembersUnlessClosed(ws: seq<Byte>, ms: seq<Member>, ws': seq<Byte>)
    requires AllWs(ws) && AllWs(ws') && AreMembers(ms) && ws + PrintMembers(ms) == ws' + PrintMembers([])
    ensures ms == []
  {
    if ms != [] {
      NothingAdded(PrintMembers(ms));
      MembersStart(ms, []);
      ReadWs(ws, PrintMembers(ms));
      ReadWs(ws', PrintMembers([]));
      assert false;
    }
  }

  /** What follows the units of the first key. */
  function AfterFirstKey(ms: seq<Member>): seq<Byte>
    requires ms != []
  {
    ms[0].afterKey + ([COLON] + (ms[0].beforeValue + (Print(ms[0].value) + AfterFirstMember(ms, []))))
  }

  lemma FirstMemberShape(ws: seq<Byte>, ms: seq<Member>)
    requires ms != [] && AreMembers(ms) && AllWs(ws)
    ensures ws + PrintMembers(ms)
            == (ws + ms[0].beforeKey) + ([QUOTE] + (PrintUnits(ms[0].key) + AfterFirstKey(ms)))
    ensures AllWs(ws + ms[0].beforeKey)
    ensures Delimited(AfterFirstMember(ms, []))
  {
    hide Print, PrintUnits;
    var m := ms[0];
    var rest := m.beforeValue + (Print(m.value) + AfterFirstMember(ms, []));
    NothingAdded(PrintMembers(ms));
    MembersShape(ms, []);
    Regroup([QUOTE], PrintUnits(m.key), m.afterKey, [COLON], rest);
    Join(m.beforeKey, [QUOTE] + (PrintUnits(m.key) + (m.afterKey + [COLON])), rest);
    Join(ws, m.beforeKey, [QUOTE] + (PrintUnits(m.key) + AfterFirstKey(ms)));
    AfterFirstMemberDelimits(ms, []);
  }

  /** Two readings of the members of an object agree on the first key, on the text of the first value, and on what
      follows the separator after it. */
  lemma SameFirstMember(ws: seq<Byte>, ms: seq<Member>, ws': seq<Byte>, ms': seq<Member>)
    requires AllWs(ws) && AllWs(ws') && AreMembers(ms) && AreMembers(ms') && ms != [] && ms' != []
    requires ws + PrintMembers(ms) == ws' + PrintMembers(ms')
    ensures ms[0].key == ms'[0].key && Print(ms[0].value) == Print(ms'[0].value)
    ensures (|ms| == 1 <==> |ms'| == 1) && MoreMembers(ms, []) == MoreMembers(ms', [])
  {
    hide Print, PrintUnits, PrintMembers, AfterWs;
    var m, m' := ms[0], ms'[0];
    FirstMemberShape(ws, ms);
    FirstMemberShape(ws', ms');
    SameSeparator(ws + m.beforeKey, QUOTE, PrintUnits(m.key) + AfterFirstKey(ms),
                  ws' + m'.beforeKey, QUOTE, PrintUnits(m'.key) + AfterFirstKey(ms'));
    UnitsAreUnique(m.key, AfterFirstKey(ms), m'.key, AfterFirstKey(ms'));
    SameSeparator(m.afterKey, COLON, m.beforeValue + (Print(m.value) + AfterFirstMember(ms, [])),
                  m'.afterKey, COLON, m'.beforeValue + (Print(m'.value) + AfterFirstMember(ms', [])));
    SameEndInWs(m.beforeValue, m.value, AfterFirstMember(ms, []), m'.beforeValue, m'.value, AfterFirstMember(ms', []));
    SameSeparator(m.after, if |ms| == 1 then CLOSE_BRACE else COMMA, MoreMembers(ms, []),
                  m'.after, if |ms'| == 1 then CLOSE_BRACE else COMMA, MoreMembers(ms', []));
  }

  lemma {:induction false} SameMembers(ws: seq<Byte>, ms: seq<Member>, ws': seq<Byte>, ms': seq<Member>)
    requires AllWs(ws) && AllWs(ws') && AreMembers(ms) && AreMembers(ms')
    requires ws + PrintMembers(ms) == ws' + PrintMembers(ms')
    ensures LenientMembers(ms) <==> LenientMembers(ms')
    decreases ms, 0
  {
    if ms == [] {
      NoMembersUnlessClosed(ws', ms', ws);
    } else if ms' == [] {
      NoMembersUnlessClosed(ws, ms, ws');
    } else {
      SameFirstMember(ws, ms, ws', ms');
      SameLeniency(ms[0].value, ms'[0].value);
      NothingAdded(PrintMembers(ms[1..]));
      NothingAdded(PrintMembers(ms'[1..]));
      SameMembers([], ms[1..], [], ms'[1..]);
    }
  }

  // ---------------------------------------------------------------------------------------------
  // Documents
  // ---------------------------------------------------------------------------------------------

  /** All trees of one text are lenient alike. */
  lemma DocumentLeniency(
    text: seq<Byte>, before: seq<Byte>, t: Syntax, after: seq<Byte>, before': seq<Byte>, t': Syntax, after': seq<Byte>)
    requires IsDocument(text, before, t, after) && IsDocument(text, before', t', after')
    ensures Lenient(t) <==> Lenient(t')
  {
    assert Delimited(after) && Delimited(after');
    SameEndInWs(before, t, after, before', t', after');
    SameLeniency(t, t');
  }

  /** The texts of the standard's grammar. */
  ghost predicate StandardDocument(text: seq<Byte>) {
    exists before, t, after :: IsStandardDocument(text, before, t, after)
  }

  ghost predicate IsStandardDocument(text: seq<Byte>, before: seq<Byte>, t: Syntax, after: seq<Byte>) {
    StandardWs(before) && Standard(t) && StandardWs(after) && text == before + (Print(t) + after)
  }

  /** A text with a lenient tree is not one of the standard's, whatever its other trees. */
  lemma LenientIsNotStandard(text: seq<Byte>, before: seq<Byte>, t: Syntax, after: seq<Byte>)
    requires IsDocument(text, before, t, after)
    ensures StandardDocument(text) <==> !Lenient(t)
  {
    StandardIff(t);
    if !Lenient(t) {
      assert IsStandardDocument(text, before, t, after);
    }
    if StandardDocument(text) {
      var b, t', a :| IsStandardDocument(text, b, t', a);
      StandardIff(t');
      DocumentLeniency(text, before, t, after, b, t', a);
    }
  }

  /** The reader accepts every text of the standard, and a text it accepts is the standard's exactly when no tree of
      it is lenient. */
  lemma AcceptedIsStandardIff(text: seq<Byte>)
    ensures StandardDocument(text) ==> ParseJson(text).Ok?
    ensures ParseJson(text).Ok? ==>
      (StandardDocument(text) <==> forall before, t, after :: IsDocument(text, before, t, after) ==> !Lenient(t))
  {
    hide ParseJson;
    if StandardDocument(text) {
      var before, t, after :| IsStandardDocument(text, before, t, after);
      StandardTextsAreAccepted(before, t, after);
    }
    if ParseJson(text).Ok? {
      AcceptedExactlyPrinted(text, ParseJson(text).value);
      var before, t, after :| IsDocument(text, before, t, after);
      LenientIsNotStandard(text, before, t, after);
      forall b, t', a | IsDocument(text, b, t', a) ensures Lenient(t') <==> Lenient(t) {
        DocumentLeniency(text, before, t, after, b, t', a);
      }
    }
  }

  // ---------------------------------------------------------------------------------------------
  // Inputs beyond the standard
  // ---------------------------------------------------------------------------------------------

  lemma PrintedIsRead(t: Syntax)
    requires IsSyntax(t)
    ensures ParseJson(Print(t)) == Ok(Denotes(t))
    ensures StandardDocument(Print(t)) <==> !Lenient(t)
  {
    hide ParseJson, StandardDocument;
    PrintedTextsAreRead([], t, []);
    NothingAdded(Print(t));
    assert IsDocument(Print(t), [], t, []);
    LenientIsNotStandard(Print(t), [], t, []);
  }

  lemma LenientNumeralIsRead(n: Numeral, text: seq<Byte>)
    requires IsNumeral(n) && LenientNumeral(n) && PrintNumeral(n) == text
    ensures ParseJson(text) == Ok(Number(text)) && !StandardDocument(text)
  {
    hide ParseJson, StandardDocument;
    PrintedIsRead(NumberText(n));
  }

  /** `-`, `01` and `1.` are read as numbers. */
  lemma LenientNumbers()
    ensures ParseJson([MINUS]) == Ok(Number([MINUS])) && !StandardDocument([MINUS])
    ensures ParseJson([0x30, 0x31]) == Ok(Number([0x30, 0x31])) && !StandardDocument([0x30, 0x31])
    ensures ParseJson([0x31, DOT]) == Ok(Number([0x31, DOT])) && !StandardDocument([0x31, DOT])
  {
    hide ParseJson, StandardDocument;
    LenientNumeralIsRead(Numeral(true, [], None, None), [MINUS]);
    LenientNumeralIsRead(Numeral(false, [0x30, 0x31], None, None), [0x30, 0x31]);
    LenientNumeralIsRead(Numeral(false, [0x31], Some([]), None), [0x31, DOT]);
  }

  lemma OneUnit(u: Unit)
    requires IsUnit(u)
    ensures ParseJson([QUOTE] + PrintUnit(u) + [QUOTE]) == Ok(String(UnitText(u)))
    ensures StandardDocument([QUOTE] + PrintUnit(u) + [QUOTE]) <==> !LenientUnit(u)
  {
    hide ParseJson, StandardDocument;
    var us := [u];
    assert us[1..] == [];
    Join([QUOTE], PrintUnit(u), [QUOTE]);
    assert PrintUnits(us) == PrintUnit(us[0]) + PrintUnits(us[1..]) && PrintUnits([]) == [QUOTE];
    assert Print(StringText(us)) == [QUOTE] + PrintUnit(u) + [QUOTE];
    NothingAdded(UnitText(u));
    assert Text(us) == UnitText(u);
    assert LenientUnits(us) <==> LenientUnit(us[0]);
    PrintedIsRead(StringText(us));
  }

  /** The escape `\u+041` is read as an A, and a raw line feed as itself. */
  lemma LenientStrings()
    ensures var text := [QUOTE, BACKSLASH, LOWER_U, PLUS, 0x30, 0x34, 0x31, QUOTE];
      ParseJson(text) == Ok(String("A")) && !StandardDocument(text)
    ensures var text := [QUOTE, 0x0A, QUOTE];
      ParseJson(text) == Ok(String("\n")) && !StandardDocument(text)
  {
    hide ParseJson, StandardDocument;
    var hex: seq<Byte> := [PLUS, 0x30, 0x34, 0x31];
    assert hex[1..] == [0x30, 0x34, 0x31];
    HexOf041();
    OneUnit(Unicode(hex));
    assert [QUOTE] + PrintUnit(Unicode(hex)) + [QUOTE] == [QUOTE, BACKSLASH, LOWER_U, PLUS, 0x30, 0x34, 0x31, QUOTE];
    OneUnit(Raw(0x0A));
    assert [QUOTE] + PrintUnit(Raw(0x0A)) + [QUOTE] == [QUOTE, 0x0A, QUOTE];
  }

  lemma HexOf041()
    ensures HexDigits([0x30, 0x34, 0x31]) == Some(0x41)
  {
    assert [0x30, 0x34, 0x31][..2] == [0x30, 0x34];
    assert [0x30, 0x34][..1] == [0x30];
    assert [0x30][..0] == [];
  }
}
