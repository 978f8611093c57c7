/** The texts the reader refuses: what a refused text looks like up to the place where reading it ends, and exactly
    which error that gives. */
module JsonFaults {
  import opened Outcomes
  import opened Concatenation
  import opened Json
  import opened JsonParser
  import opened JsonSyntax
  import opened JsonLanguage

  // ---------------------------------------------------------------------------------------------
  // Broken values
  // ---------------------------------------------------------------------------------------------

  /** The units of a string body, and the bytes behind them with which it goes no further. */
  datatype StringFault = StringFault(units: seq<Unit>, rest: seq<Byte>)

  datatype KeyFault =
    | NoQuote(before: seq<Byte>, rest: seq<Byte>)
    | InKey(before: seq<Byte>, inside: StringFault)
    | NoColon(before: seq<Byte>, key: seq<Unit>, after: seq<Byte>, rest: seq<Byte>)

  /** A value that breaks off: it does not start, is no literal, or breaks off inside. `done` are the items or members
      that are complete, with the comma after each. */
  datatype Fault =
    | NoValue(rest: seq<Byte>)
    | NoLiteral(rest: seq<Byte>)
    | InString(inside: StringFault)
    | InArray(inner: seq<Byte>, items: ArrayFault)
    | InObject(inner: seq<Byte>, members: ObjectFault)

  datatype ArrayFault =
    | InItem(done: seq<Item>, before: seq<Byte>, fault: Fault)
    | AfterItem(done: seq<Item>, last: Item, rest: seq<Byte>)

  datatype ObjectFault =
    | AtKey(done: seq<Member>, key: KeyFault)
    | InMember(done: seq<Member>, beforeKey: seq<Byte>, name: seq<Unit>, afterKey: seq<Byte>, before: seq<Byte>,
               fault: Fault)
    | AfterMember(done: seq<Member>, last: Member, rest: seq<Byte>)

  // ---------------------------------------------------------------------------------------------
  // Their texts
  // ---------------------------------------------------------------------------------------------

  function PrintOpenUnits(us: seq<Unit>): seq<Byte> {
    if us == [] then [] else PrintUnit(us[0]) + PrintOpenUnits(us[1..])
  }

  function PrintStringFault(f: StringFault): seq<Byte> {
    [0x22] + (PrintOpenUnits(f.units) + f.rest)
  }

  /** The items, each with a comma behind it. */
  function PrintDone(items: seq<Item>): seq<Byte> {
    if items == [] then []
    else items[0].before + (Print(items[0].value) + (items[0].after + ([0x2C] + PrintDone(items[1..]))))
  }

  function PrintDoneMembers(ms: seq<Member>): seq<Byte> {
    if ms == [] then []
    else
      PrintKey(ms[0])
      + (ms[0].beforeValue + (Print(ms[0].value) + (ms[0].after + ([0x2C] + PrintDoneMembers(ms[1..])))))
  }

  function PrintKeyFault(f: KeyFault): seq<Byte> {
    match f
    case NoQuote(before, rest) => before + rest
    case InKey(before, inside) => before + PrintStringFault(inside)
    case NoColon(before, key, after, rest) => before + ([0x22] + PrintUnits(key) + (after + rest))
  }

  function PrintFault(f: Fault): seq<Byte>
    decreases f
  {
    match f
    case NoValue(rest) => rest
    case NoLiteral(rest) => rest
    case InString(inside) => PrintStringFault(inside)
    case InArray(inner, items) => [0x5B] + (inner + PrintArrayFault(items))
    case InObject(inner, members) => [0x7B] + (inner + PrintObjectFault(members))
  }

  function PrintArrayFault(f: ArrayFault): seq<Byte>
    decreases f
  {
    match f
    case InItem(done, before, fault) => PrintDone(done) + (before + PrintFault(fault))
    case AfterItem(done, last, rest) =>
      PrintDone(done) + (last.before + (Print(last.value) + (last.after + rest)))
  }

  function PrintObjectFault(f: ObjectFault): seq<Byte>
    decreases f
  {
    match f
    case AtKey(done, key) => PrintDoneMembers(done) + PrintKeyFault(key)
    case InMember(done, beforeKey, name, afterKey, before, fault) =>
      PrintDoneMembers(done)
      + ((beforeKey + ([0x22] + (PrintUnits(name) + (afterKey + [0x3A])))) + (before + PrintFault(fault)))
    case AfterMember(done, last, rest) =>
      PrintDoneMembers(done) + (PrintKey(last) + (last.beforeValue + (Print(last.value) + (last.after + rest))))
  }

  // ---------------------------------------------------------------------------------------------
  // Where they break off
  // ---------------------------------------------------------------------------------------------

  /** Nothing, or a byte that is neither whitespace nor one of those. */
  predicate GoesNoFurther(rest: seq<Byte>, expected: seq<Byte>) {
    rest == [] || (rest[0] !in expected && rest[0] !in [0x20, 0x09, 0x0A, 0x0D])
  }

  /** Quote, brackets, the first letters of the literals, minus and the digits. */
  const VALUE_STARTS: seq<Byte> :=
    [0x22, 0x5B, 0x7B, 0x74, 0x66, 0x6E, 0x2D, 0x30, 0x31, 0x32, 0x33, 0x34, 0x35, 0x36, 0x37, 0x38, 0x39]

  /** The end of the text, or a backslash without a proper escape. */
  predicate IsStringFault(f: StringFault) {
    AllUnits(f.units) &&
    (f.rest == [] ||
     (f.rest[0] == 0x5C &&
      (|f.rest| == 1
       || (f.rest[1] == 0x75 && (|f.rest| < 6 || FourHex(f.rest[2..6]).None?))
       || (f.rest[1] != 0x75 && !IsUnit(Short(f.rest[1]))))))
  }

  predicate IsKeyFault(f: KeyFault) {
    match f
    case NoQuote(before, rest) => AllWs(before) && GoesNoFurther(rest, [0x22])
    case InKey(before, inside) => AllWs(before) && IsStringFault(inside)
    case NoColon(before, key, after, rest) =>
      AllWs(before) && AllUnits(key) && AllWs(after) && GoesNoFurther(rest, [0x3A])
  }

  predicate IsFault(f: Fault)
    decreases f
  {
    match f
    case NoValue(rest) => GoesNoFurther(rest, VALUE_STARTS)
    case NoLiteral(rest) =>
      && rest != [] && rest[0] in [0x74, 0x66, 0x6E]
      && !([0x74, 0x72, 0x75, 0x65] <= rest) && !([0x66, 0x61, 0x6C, 0x73, 0x65] <= rest)
      && !([0x6E, 0x75, 0x6C, 0x6C] <= rest)
    case InString(inside) => IsStringFault(inside)
    case InArray(inner, items) =>
      && AllWs(inner) && IsArrayFault(items)
      && (items.InItem? && items.done == [] && items.fault.NoValue? ==>
            items.fault.rest == [] || items.fault.rest[0] != 0x5D)
    case InObject(inner, members) =>
      && AllWs(inner) && IsObjectFault(members)
      && (members.AtKey? && members.done == [] && members.key.NoQuote? ==>
            members.key.rest == [] || members.key.rest[0] != 0x7D)
  }

  predicate IsArrayFault(f: ArrayFault)
    decreases f
  {
    match f
    case InItem(done, before, fault) => AreItems(done) && AllWs(before) && IsFault(fault)
    case AfterItem(done, last, rest) =>
      && AreItems(done) && AreItems([last]) && GoesNoFurther(rest, [0x2C, 0x5D])
      && Ends(last.value, last.after + rest)
  }

  predicate IsObjectFault(f: ObjectFault)
    decreases f
  {
    match f
    case AtKey(done, key) => AreMembers(done) && IsKeyFault(key)
    case InMember(done, beforeKey, name, afterKey, before, fault) =>
      && AreMembers(done) && AllWs(beforeKey) && AllUnits(name) && AllWs(afterKey)
      && AllWs(before) && IsFault(fault)
    case AfterMember(done, last, rest) =>
      && AreMembers(done) && AreMembers([last]) && GoesNoFurther(rest, [0x2C, 0x7D])
      && Ends(last.value, last.after + rest)
  }

  // ---------------------------------------------------------------------------------------------
  // The error of each
  // ---------------------------------------------------------------------------------------------

  function ErrorOfString(f: StringFault): ParseError {
    if f.rest == [] then UnterminatedString
    else if |f.rest| == 1 then DanglingEscape
    else if f.rest[1] != 0x75 then UnknownEscape
    else if |f.rest| < 6 then ShortUnicodeEscape
    else BadHex
  }

  function ErrorOfKey(f: KeyFault): ParseError {
    match f
    case NoQuote(_, _) => ExpectedQuote
    case InKey(_, inside) => ErrorOfString(inside)
    case NoColon(_, _, _, _) => ExpectedColon
  }

  function ErrorOf(f: Fault): ParseError
    decreases f
  {
    match f
    case NoValue(rest) => if rest == [] then UnexpectedEnd else UnexpectedByte
    case NoLiteral(rest) => if rest != [] && rest[0] == 0x6E then ExpectedNull else ExpectedBool
    case InString(inside) => ErrorOfString(inside)
    case InArray(_, items) => ErrorOfArray(items)
    case InObject(_, members) => ErrorOfObject(members)
  }

  function ErrorOfArray(f: ArrayFault): ParseError
    decreases f
  {
    match f
    case InItem(_, _, fault) => ErrorOf(fault)
    case AfterItem(_, _, rest) => if rest == [] then UnterminatedArray else ExpectedCommaOrBracket
  }

  function ErrorOfObject(f: ObjectFault): ParseError
    decreases f
  {
    match f
    case AtKey(_, key) => ErrorOfKey(key)
    case InMember(_, _, _, _, _, fault) => ErrorOf(fault)
    case AfterMember(_, _, rest) => if rest == [] then UnterminatedObject else ExpectedCommaOrBrace
  }

  // ---------------------------------------------------------------------------------------------
  // Broken texts give these errors
  // ---------------------------------------------------------------------------------------------

  lemma {:induction false} ReadOpenUnits(out: string, us: seq<Unit>, s: seq<Byte>)
    requires AllUnits(us)
    ensures CharsAt(out, PrintOpenUnits(us) + s) == CharsAt(out + Text(us), s)
    decreases |us|
  {
    hide CharsAt, PrintUnit, UnitText;
    if us == [] {
      NothingAdded(s);
      NothingAdded(out);
    } else {
      Join(PrintUnit(us[0]), PrintOpenUnits(us[1..]), s);
      ReadUnit(out, us[0], PrintOpenUnits(us[1..]) + s);
      ReadOpenUnits(out + UnitText(us[0]), us[1..], s);
      Join(out, UnitText(us[0]), Text(us[1..]));
    }
  }

  lemma RestIsRefused(out: string, f: StringFault)
    requires IsStringFault(f)
    ensures CharsAt(out, f.rest) == Err(ErrorOfString(f))
  {
    hide FourHex;
    if |f.rest| >= 6 { assert f.rest[1..][1..5] == f.rest[2..6]; }
  }

  lemma StringFaultIsRefused(f: StringFault)
    requires IsStringFault(f)
    ensures StringAt(PrintStringFault(f)) == Err(ErrorOfString(f)) && PrintStringFault(f)[0] == 0x22
  {
    hide CharsAt, ErrorOfString;
    DropHead(0x22, PrintOpenUnits(f.units) + f.rest);
    ReadOpenUnits("", f.units, f.rest);
    RestIsRefused("" + Text(f.units), f);
  }

  lemma NoFurtherWs(rest: seq<Byte>, expected: seq<Byte>)
    requires GoesNoFurther(rest, expected)
    ensures NoLeadingWs(rest) && (rest != [] ==> rest[0] !in expected)
  {
  }

  lemma KeyFaultIsRefused(f: KeyFault)
    requires IsKeyFault(f)
    ensures KeyAt(PrintKeyFault(f)) == Err(ErrorOfKey(f))
  {
    hide StringAt, PrintUnits, PrintStringFault, ErrorOfString, IsStringFault, Text;
    match f
    case NoQuote(before, rest) =>
      NoFurtherWs(rest, [0x22]);
      ReadWs(before, rest);
      NoQuoteNoString(rest);
    case InKey(before, inside) =>
      StringFaultIsRefused(inside);
      ReadWs(before, PrintStringFault(inside));
    case NoColon(before, key, after, rest) =>
      NoFurtherWs(rest, [0x3A]);
      ReadWs(before, [0x22] + PrintUnits(key) + (after + rest));
      ReadString(key, after + rest);
      ReadWs(after, rest);
  }

  lemma NoQuoteNoString(rest: seq<Byte>)
    requires rest == [] || rest[0] != 0x22
    ensures StringAt(rest) == Err(ExpectedQuote)
  {
  }

  lemma OneItem(items: seq<Item>)
    requires AreItems(items) && items != []
    ensures AllWs(items[0].before) && IsSyntax(items[0].value) && AllWs(items[0].after) && AreItems(items[1..])
    ensures ItemValues(items) == [Denotes(items[0].value)] + ItemValues(items[1..])
  {
  }

  lemma CommaDelimits(t: Syntax, after: seq<Byte>, s: seq<Byte>)
    requires AllWs(after)
    ensures Ends(t, after + ([0x2C] + s))
  {
    assert Delimited(after + ([0x2C] + s));
    DelimitedEnds(t, after + ([0x2C] + s));
  }

  lemma RegroupDone(a: seq<Byte>, b: seq<Byte>, c: seq<Byte>, d: seq<Byte>, e: seq<Byte>, s: seq<Byte>)
    ensures a + (b + (c + (d + e))) + s == a + (b + (c + (d + (e + s))))
  {
  }

  /** The items that are complete are read, whatever follows. */
  lemma {:induction false} ReadDone(out: seq<JsonValue>, done: seq<Item>, s: seq<Byte>)
    requires AreItems(done)
    ensures ElementsAt(out, PrintDone(done) + s) == ElementsAt(out + ItemValues(done), s)
    decreases |done|
  {
    hide ElementsAt, Print, ValueAt, Denotes, Ends;
    if done == [] {
      NothingAdded(s);
      NothingAdded(out);
    } else {
      var first, more := done[0], PrintDone(done[1..]) + s;
      OneItem(done);
      CommaDelimits(first.value, first.after, more);
      ReadValue(first.value, first.after + ([0x2C] + more));
      ReadElement(out, first.before, Print(first.value), Denotes(first.value), first.after, false, more);
      RegroupDone(first.before, Print(first.value), first.after, [0x2C], PrintDone(done[1..]), s);
      ReadDone(out + [Denotes(first.value)], done[1..], s);
      Join(out, [Denotes(first.value)], ItemValues(done[1..]));
    }
  }

  lemma OneMember(ms: seq<Member>)
    requires AreMembers(ms) && ms != []
    ensures AllWs(ms[0].beforeKey) && AllUnits(ms[0].key) && AllWs(ms[0].afterKey)
    ensures AllWs(ms[0].beforeValue) && IsSyntax(ms[0].value) && AllWs(ms[0].after) && AreMembers(ms[1..])
  {
  }

  lemma {:induction false} ReadDoneMembers(m: map<string, JsonValue>, done: seq<Member>, s: seq<Byte>)
    requires AreMembers(done)
    ensures MembersAt(m, PrintDoneMembers(done) + s) == MembersAt(Collect(m, done), s)
    decreases |done|
  {
    hide MembersAt, Print, PrintKey, ValueAt, KeyAt, Denotes, Ends, Text;
    if done == [] {
      NothingAdded(s);
    } else {
      var first, more := done[0], PrintDoneMembers(done[1..]) + s;
      var v, tail := Denotes(first.value), first.after + ([0x2C] + more);
      OneMember(done);
      CommaDelimits(first.value, first.after, more);
      ReadValue(first.value, tail);
      ReadKey(first, first.beforeValue + (Print(first.value) + tail));
      ReadMember(m, PrintKey(first), Text(first.key), first.beforeValue, Print(first.value), v, first.after,
                 false, more);
      RegroupDone(first.beforeValue, Print(first.value), first.after, [0x2C], PrintDoneMembers(done[1..]), s);
      Join(PrintKey(first),
           first.beforeValue + (Print(first.value) + (first.after + ([0x2C] + PrintDoneMembers(done[1..])))), s);
      ReadDoneMembers(m[Text(first.key) := v], done[1..], s);
    }
  }

  lemma BrokenElement(out: seq<JsonValue>, before: seq<Byte>, text: seq<Byte>, e: ParseError)
    requires AllWs(before) && ValueAt(text) == Err(e)
    ensures ElementsAt(out, before + text) == Err(e)
  {
    hide ValueAt;
    LeadingWs(before, text);
  }

  lemma BrokenAfterElement(
    out: seq<JsonValue>, before: seq<Byte>, text: seq<Byte>, v: JsonValue, after: seq<Byte>, rest: seq<Byte>)
    requires AllWs(before) && AllWs(after) && GoesNoFurther(rest, [0x2C, 0x5D])
    requires ValueAt(text + (after + rest)) == Ok(Parsed(v, after + rest))
    ensures ElementsAt(out, before + (text + (after + rest)))
            == Err(if rest == [] then UnterminatedArray else ExpectedCommaOrBracket)
  {
    hide ValueAt;
    LeadingWs(before, text + (after + rest));
    NoFurtherWs(rest, [0x2C, 0x5D]);
    ReadWs(after, rest);
  }

  lemma BrokenValue(m: map<string, JsonValue>, head: seq<Byte>, key: string, before: seq<Byte>, text: seq<Byte>,
                    e: ParseError)
    requires AllWs(before) && KeyAt(head + (before + text)) == Ok(Parsed(key, before + text)) && ValueAt(text) == Err(e)
    ensures MembersAt(m, head + (before + text)) == Err(e)
  {
    hide ValueAt, KeyAt;
    LeadingWs(before, text);
  }

  lemma BrokenAfterMember(m: map<string, JsonValue>, head: seq<Byte>, key: string, before: seq<Byte>, text: seq<Byte>,
                          v: JsonValue, after: seq<Byte>, rest: seq<Byte>)
    requires AllWs(before) && AllWs(after) && GoesNoFurther(rest, [0x2C, 0x7D])
    requires ValueAt(text + (after + rest)) == Ok(Parsed(v, after + rest))
    requires KeyAt(head + (before + (text + (after + rest)))) == Ok(Parsed(key, before + (text + (after + rest))))
    ensures MembersAt(m, head + (before + (text + (after + rest))))
            == Err(if rest == [] then UnterminatedObject else ExpectedCommaOrBrace)
  {
    hide ValueAt, KeyAt;
    LeadingWs(before, text + (after + rest));
    NoFurtherWs(rest, [0x2C, 0x7D]);
    ReadWs(after, rest);
  }

  lemma BrokenKey(m: map<string, JsonValue>, text: seq<Byte>, e: ParseError)
    requires KeyAt(text) == Err(e)
    ensures MembersAt(m, text) == Err(e)
  {
  }

  /** A broken value does not start with whitespace, and with a closing bracket only if it does not start at all. */
  lemma FaultStart(f: Fault)
    requires IsFault(f)
    ensures NoLeadingWs(PrintFault(f))
    ensures !f.NoValue? ==> PrintFault(f) != [] && PrintFault(f)[0] != 0x5D && PrintFault(f)[0] != 0x7D
  {
  }

  lemma ArrayGoesOn(inner: seq<Byte>, f: ArrayFault)
    requires IsFault(InArray(inner, f))
    ensures var t := AfterWs(PrintArrayFault(f));
      t == [] || t[0] != 0x5D
  {
    hide Print, PrintFault, Ends, IsSyntax;
    var text := PrintArrayFault(f);
    var done, rest := f.done, text[|PrintDone(f.done)|..];
    assert text == PrintDone(done) + rest;
    if done != [] {
      OneItem(done);
      var more := done[0].after + ([0x2C] + PrintDone(done[1..]));
      Join(done[0].before, Print(done[0].value) + more, rest);
      Join(Print(done[0].value), more, rest);
      FirstByte(done[0].value);
      ReadWs(done[0].before, Print(done[0].value) + (more + rest));
    } else {
      NothingAdded(rest);
      match f {
        case InItem(_, before, fault) =>
          FaultStart(fault);
          ReadWs(before, PrintFault(fault));
          if fault.NoValue? { PrintNoValue(fault); }
        case AfterItem(_, last, end) =>
          OneItem([last]);
          FirstByte(last.value);
          ReadWs(last.before, Print(last.value) + (last.after + end));
      }
    }
  }

  lemma PrintNoValue(f: Fault)
    requires f.NoValue?
    ensures PrintFault(f) == f.rest
  {
  }

  lemma ObjectGoesOn(inner: seq<Byte>, f: ObjectFault)
    requires IsFault(InObject(inner, f))
    ensures var t := AfterWs(PrintObjectFault(f));
      t == [] || t[0] != 0x7D
  {
    hide Print, PrintFault, PrintUnits, PrintOpenUnits, Ends, IsSyntax, IsStringFault;
    var text := PrintObjectFault(f);
    var done, rest := f.done, text[|PrintDoneMembers(f.done)|..];
    assert text == PrintDoneMembers(done) + rest;
    if done != [] {
      OneMember(done);
      QuoteFirst(done[0], text, done[0].beforeKey);
    } else {
      NothingAdded(rest);
      match f {
        case AtKey(_, key) =>
          if key.NoQuote? {
            NoFurtherWs(key.rest, [0x22]);
            ReadWs(key.before, key.rest);
          } else {
            QuoteStarts(text, key.before);
          }
        case InMember(_, beforeKey, _, _, _, _) => QuoteStarts(text, beforeKey);
        case AfterMember(_, last, _) =>
          OneMember([last]);
          QuoteStarts(text, last.beforeKey);
      }
    }
  }

  lemma QuoteFirst(m: Member, text: seq<Byte>, ws: seq<Byte>)
    requires AllWs(ws) && ws == m.beforeKey && PrintKey(m) <= text
    ensures AfterWs(text) != [] && AfterWs(text)[0] == 0x22
  {
    var key := PrintKey(m);
    assert text[..|key|] == key && key[..|ws|] == ws && key[|ws|] == 0x22;
    QuoteStarts(text, ws);
  }

  lemma QuoteStarts(text: seq<Byte>, ws: seq<Byte>)
    requires AllWs(ws) && |text| > |ws| && text[..|ws|] == ws && text[|ws|] == 0x22
    ensures AfterWs(text) != [] && AfterWs(text)[0] == 0x22
  {
    assert text == ws + text[|ws|..];
    ReadWs(ws, text[|ws|..]);
  }

  lemma LiteralFaultIsRefused(f: Fault)
    requires IsFault(f) && (f.NoValue? || f.NoLiteral?)
    ensures ValueAt(PrintFault(f)) == Err(ErrorOf(f))
  {
    var rest := f.rest;
    forall b: Byte | IsDigit(b) ensures b in VALUE_STARTS { DigitStarts(b); }
    assert AfterWs(rest) == rest;
  }

  lemma DigitStarts(b: Byte)
    requires IsDigit(b)
    ensures b in VALUE_STARTS
  {
    assert VALUE_STARTS[b - 0x30 + 7] == b;
  }

  /** A broken value gives its error. */
  lemma {:induction false} FaultIsRefused(f: Fault)
    requires IsFault(f)
    ensures ValueAt(PrintFault(f)) == Err(ErrorOf(f))
    decreases f
  {
    hide ElementsAt, MembersAt, StringAt, ErrorOfString, ErrorOfArray, ErrorOfObject, PrintArrayFault;
    hide PrintObjectFault, IsStringFault, PrintOpenUnits;
    match f
    case NoValue(_) => LiteralFaultIsRefused(f);
    case NoLiteral(_) => LiteralFaultIsRefused(f);
    case InString(inside) => StringFaultIsRefused(inside);
    case InArray(inner, items) =>
      ArrayFaultIsRefused([], items);
      ArrayGoesOn(inner, items);
      DropHead(0x5B, inner + PrintArrayFault(items));
      ArraySkipsWs(inner, PrintArrayFault(items));
      ElementsSkipWs([], PrintArrayFault(items));
    case InObject(inner, members) =>
      ObjectFaultIsRefused(map[], members);
      ObjectGoesOn(inner, members);
      DropHead(0x7B, inner + PrintObjectFault(members));
      ObjectSkipsWs(inner, PrintObjectFault(members));
      MembersSkipWs(map[], PrintObjectFault(members));
  }

  lemma {:induction false} ArrayFaultIsRefused(out: seq<JsonValue>, f: ArrayFault)
    requires IsArrayFault(f)
    ensures ElementsAt(out, PrintArrayFault(f)) == Err(ErrorOfArray(f))
    decreases f
  {
    hide ElementsAt, ValueAt, PrintDone, PrintFault, Print, Ends, Denotes, GoesNoFurther;
    match f
    case InItem(done, before, fault) =>
      ReadDone(out, done, before + PrintFault(fault));
      FaultIsRefused(fault);
      BrokenElement(out + ItemValues(done), before, PrintFault(fault), ErrorOf(fault));
    case AfterItem(done, last, rest) =>
      OneItem([last]);
      ReadDone(out, done, last.before + (Print(last.value) + (last.after + rest)));
      ReadValue(last.value, last.after + rest);
      BrokenAfterElement(
        out + ItemValues(done), last.before, Print(last.value), Denotes(last.value), last.after, rest);
  }

  lemma {:induction false} ObjectFaultIsRefused(m: map<string, JsonValue>, f: ObjectFault)
    requires IsObjectFault(f)
    ensures MembersAt(m, PrintObjectFault(f)) == Err(ErrorOfObject(f))
    decreases f
  {
    hide MembersAt, ValueAt, KeyAt, PrintDoneMembers, PrintFault, Print, PrintKeyFault, ErrorOfKey, Ends, Denotes;
    hide GoesNoFurther, Text, Collect;
    match f
    case AtKey(done, key) =>
      ReadDoneMembers(m, done, PrintKeyFault(key));
      KeyFaultIsRefused(key);
      BrokenKey(Collect(m, done), PrintKeyFault(key), ErrorOfKey(key));
    case InMember(done, beforeKey, name, afterKey, before, fault) =>
      var head := Member(beforeKey, name, afterKey, before, NullText, []);
      ReadDoneMembers(m, done, PrintKey(head) + (before + PrintFault(fault)));
      ReadKey(head, before + PrintFault(fault));
      FaultIsRefused(fault);
      BrokenValue(Collect(m, done), PrintKey(head), Text(name), before, PrintFault(fault), ErrorOf(fault));
    case AfterMember(done, last, rest) =>
      OneMember([last]);
      var tail := last.after + rest;
      ReadDoneMembers(m, done, PrintKey(last) + (last.beforeValue + (Print(last.value) + tail)));
      ReadKey(last, last.beforeValue + (Print(last.value) + tail));
      ReadValue(last.value, tail);
      BrokenAfterMember(Collect(m, done), PrintKey(last), Text(last.key), last.beforeValue, Print(last.value),
                        Denotes(last.value), last.after, rest);
  }

  // ---------------------------------------------------------------------------------------------
  // Every refused text is broken so
  // ---------------------------------------------------------------------------------------------

  lemma {:induction false} StringFaultOf(out: string, s: seq<Byte>) returns (f: StringFault)
    requires CharsAt(out, s).Err?
    ensures IsStringFault(f) && s == PrintOpenUnits(f.units) + f.rest && CharsAt(out, s).error == ErrorOfString(f)
    decreases |s|
  {
    f := StringFault([], s);
    NothingAdded(s);
    if s == [] {
      assert IsStringFault(f) && ErrorOfString(f) == UnterminatedString;
    } else if s[0] == BACKSLASH && EscapeAt(s[1..]).Err? {
      hide EscapeAt, IsStringFault, ErrorOfString;
      EscapeFault(s);
    } else {
      NotAtEnd(out, s);
      hide EscapeAt, IsStringFault, ErrorOfString, CharsAt, UnitText, PrintUnit, IsUnit;
      var u, rest := FirstUnitOf(out, s);
      var more := StringFaultOf(out + UnitText(u), rest);
      f := LongerStringFault(u, more);
      Join(PrintUnit(u), PrintOpenUnits(more.units), more.rest);
    }
  }

  lemma NotAtEnd(out: string, s: seq<Byte>)
    requires s != [] && CharsAt(out, s).Err?
    ensures s[0] != QUOTE
  {
  }

  lemma LongerStringFault(u: Unit, f: StringFault) returns (longer: StringFault)
    requires IsUnit(u) && IsStringFault(f)
    ensures IsStringFault(longer) && ErrorOfString(longer) == ErrorOfString(f) && longer.rest == f.rest
    ensures PrintOpenUnits(longer.units) == PrintUnit(u) + PrintOpenUnits(f.units)
  {
    longer := StringFault([u] + f.units, f.rest);
    DropHead(u, f.units);
  }

  lemma EscapeFault(s: seq<Byte>)
    requires s != [] && s[0] == BACKSLASH && EscapeAt(s[1..]).Err?
    ensures IsStringFault(StringFault([], s)) && EscapeAt(s[1..]).error == ErrorOfString(StringFault([], s))
  {
    hide FourHex;
    if |s| >= 6 { assert s[1..][1..5] == s[2..6]; }
  }

  lemma StringAtFault(s: seq<Byte>) returns (f: StringFault)
    requires s != [] && s[0] == QUOTE && StringAt(s).Err?
    ensures IsStringFault(f) && s == PrintStringFault(f) && StringAt(s).error == ErrorOfString(f)
  {
    f := StringFaultOf("", s[1..]);
    HeadAndTail(s);
  }

  lemma StopsAt(s: seq<Byte>, expected: seq<Byte>)
    requires NoLeadingWs(s) && (s == [] || s[0] !in expected)
    ensures GoesNoFurther(s, expected)
  {
  }

  lemma KeyFaultOf(s: seq<Byte>) returns (f: KeyFault)
    requires KeyAt(s).Err?
    ensures IsKeyFault(f) && s == PrintKeyFault(f) && KeyAt(s).error == ErrorOfKey(f)
  {
    hide PrintUnits, PrintStringFault, ErrorOfString, IsStringFault, CharsAt, GoesNoFurther, Text;
    var before := SplitWs(s);
    var t := AfterWs(s);
    if t == [] || t[0] != QUOTE {
      StopsAt(t, [0x22]);
      f := NoQuote(before, t);
    } else if StringAt(t).Err? {
      var inside := StringAtFault(t);
      f := InKey(before, inside);
    } else {
      var key := StringOf(t);
      var rest := StringAt(t).value.rest;
      var after := SplitWs(rest);
      StopsAt(AfterWs(rest), [0x3A]);
      f := NoColon(before, key, after, AfterWs(rest));
      Join([0x22], PrintUnits(key), rest);
    }
  }

  /** One complete item before a broken list. */
  lemma PrependItem(item: Item, f: ArrayFault) returns (longer: ArrayFault)
    requires AreItems([item]) && IsArrayFault(f)
    ensures IsArrayFault(longer) && ErrorOfArray(longer) == ErrorOfArray(f) && longer.done != []
    ensures PrintArrayFault(longer)
            == item.before + (Print(item.value) + (item.after + ([0x2C] + PrintArrayFault(f))))
  {
    hide Print, PrintFault, IsFault, ErrorOf, Ends, GoesNoFurther;
    var done := [item] + f.done;
    OneItem([item]);
    DropHead(item, f.done);
    longer := f.(done := done);
    RegroupDone(item.before, Print(item.value), item.after, [0x2C], PrintDone(f.done),
                match f
                case InItem(_, before, fault) => before + PrintFault(fault)
                case AfterItem(_, last, rest) => last.before + (Print(last.value) + (last.after + rest)));
    MoreItemsAre(item, f.done);
  }

  lemma MoreItemsAre(item: Item, more: seq<Item>)
    requires AllWs(item.before) && IsSyntax(item.value) && AllWs(item.after) && AreItems(more)
    ensures AreItems([item] + more)
  {
    DropHead(item, more);
  }

  lemma OneItemIs(item: Item)
    requires AllWs(item.before) && IsSyntax(item.value) && AllWs(item.after)
    ensures AreItems([item])
  {
    assert [item][1..] == [];
  }

  /** A broken list: at an item, or behind one. */
  lemma {:induction false} ArrayFaultOf(out: seq<JsonValue>, s: seq<Byte>) returns (f: ArrayFault)
    requires ElementsAt(out, s).Err?
    ensures IsArrayFault(f) && s == PrintArrayFault(f) && ElementsAt(out, s).error == ErrorOfArray(f)
    decreases |s|, 2
  {
    hide Print, ValueAt, IsFault, ErrorOf, Ends, GoesNoFurther, Denotes, IsSyntax;
    if ValueAt(s).Err? {
      var before, fault := FaultOf(s);
      f := InItem([], before, fault);
      NothingAdded(s);
    } else {
      var p := ValueAt(s).value;
      var before, t := SyntaxOf(s);
      var after := SplitWs(p.rest);
      var u := AfterWs(p.rest);
      var item := Item(before, t, after);
      OneItemIs(item);
      if u != [] && u[0] == COMMA {
        var more := ArrayFaultOf(out + [p.value], u[1..]);
        f := PrependItem(item, more);
        HeadAndTail(u);
      } else {
        StopsAt(u, [0x2C, 0x5D]);
        f := AfterItem([], item, u);
        NothingAdded(s);
      }
    }
  }

  lemma PrependMember(m: Member, f: ObjectFault) returns (longer: ObjectFault)
    requires AreMembers([m]) && IsObjectFault(f)
    ensures IsObjectFault(longer) && ErrorOfObject(longer) == ErrorOfObject(f) && longer.done != []
    ensures PrintObjectFault(longer)
            == PrintKey(m) + (m.beforeValue + (Print(m.value) + (m.after + ([0x2C] + PrintObjectFault(f)))))
  {
    hide Print, PrintKey, PrintKeyFault, PrintFault, PrintUnits, IsFault, IsKeyFault, ErrorOf, ErrorOfKey, Ends;
    hide GoesNoFurther;
    var done := [m] + f.done;
    OneMember([m]);
    DropHead(m, f.done);
    longer := f.(done := done);
    var tail := TailOf(f);
    RegroupDone(m.beforeValue, Print(m.value), m.after, [0x2C], PrintDoneMembers(f.done), tail);
    Join(PrintKey(m), m.beforeValue + (Print(m.value) + (m.after + ([0x2C] + PrintDoneMembers(f.done)))), tail);
    MoreMembersAre(m, f.done);
  }

  /** What stands behind the complete members. */
  function TailOf(f: ObjectFault): (tail: seq<Byte>)
    ensures PrintObjectFault(f) == PrintDoneMembers(f.done) + tail
  {
    match f
    case AtKey(_, key) => PrintKeyFault(key)
    case InMember(_, beforeKey, name, afterKey, before, fault) =>
      (beforeKey + ([0x22] + (PrintUnits(name) + (afterKey + [0x3A])))) + (before + PrintFault(fault))
    case AfterMember(_, last, rest) =>
      PrintKey(last) + (last.beforeValue + (Print(last.value) + (last.after + rest)))
  }

  lemma MoreMembersAre(m: Member, more: seq<Member>)
    requires AreMembers([m]) && AreMembers(more)
    ensures AreMembers([m] + more)
  {
    OneMember([m]);
    DropHead(m, more);
  }

  lemma OneMemberIs(m: Member)
    requires AllWs(m.beforeKey) && AllUnits(m.key) && AllWs(m.afterKey)
    requires AllWs(m.beforeValue) && IsSyntax(m.value) && AllWs(m.after)
    ensures AreMembers([m])
  {
    assert [m][1..] == [];
  }

  lemma {:induction false} ObjectFaultOf(m: map<string, JsonValue>, s: seq<Byte>) returns (f: ObjectFault)
    requires MembersAt(m, s).Err?
    ensures IsObjectFault(f) && s == PrintObjectFault(f) && MembersAt(m, s).error == ErrorOfObject(f)
    decreases |s|, 2
  {
    hide Print, PrintUnits, PrintKeyFault, ValueAt, KeyAt, IsFault, IsKeyFault, ErrorOf, ErrorOfKey, Ends;
    hide GoesNoFurther, Denotes, IsSyntax, Text;
    if KeyAt(s).Err? {
      var key := KeyFaultOf(s);
      f := AtKey([], key);
      NothingAdded(s);
    } else {
      var k := KeyAt(s).value;
      var beforeKey, name, afterKey := KeyOf(s);
      var head := beforeKey + ([QUOTE] + (PrintUnits(name) + (afterKey + [COLON])));
      if ValueAt(k.rest).Err? {
        var before, fault := FaultOf(k.rest);
        f := InMember([], beforeKey, name, afterKey, before, fault);
        NothingAdded(s);
      } else {
        var p := ValueAt(k.rest).value;
        var before, t := SyntaxOf(k.rest);
        var after := SplitWs(p.rest);
        var u := AfterWs(p.rest);
        var member := Member(beforeKey, name, afterKey, before, t, after);
        OneMemberIs(member);
        if u != [] && u[0] == COMMA {
          var more := ObjectFaultOf(m[k.value := p.value], u[1..]);
          f := PrependMember(member, more);
          HeadAndTail(u);
        } else {
          StopsAt(u, [0x2C, 0x7D]);
          f := AfterMember([], member, u);
          NothingAdded(s);
        }
      }
    }
  }

  lemma ScalarFault(t: seq<Byte>) returns (f: Fault)
    requires NoLeadingWs(t) && ValueAt(t).Err? && (t == [] || (t[0] != OPEN_BRACE && t[0] != OPEN_BRACKET))
    ensures IsFault(f) && t == PrintFault(f) && ValueAt(t).error == ErrorOf(f)
  {
    hide StringAt, IsStringFault, PrintStringFault, ErrorOfString;
    assert AfterWs(t) == t;
    if t != [] && t[0] == QUOTE {
      var inside := StringAtFault(t);
      f := InString(inside);
    } else if t != [] && t[0] in [0x74, 0x66, 0x6E] {
      f := NoLiteral(t);
    } else {
      NoOtherStart(t);
      f := NoValue(t);
    }
  }

  lemma NoOtherStart(t: seq<Byte>)
    requires NoLeadingWs(t) && (t == [] || t[0] !in [0x22, 0x5B, 0x7B, 0x74, 0x66, 0x6E, 0x2D])
    requires t == [] || !IsDigit(t[0])
    ensures GoesNoFurther(t, VALUE_STARTS)
  {
  }

  lemma WsIsGone(before: seq<Byte>, text: seq<Byte>, t: seq<Byte>)
    requires AllWs(before) && t == before + text && NoLeadingWs(t)
    ensures before == []
  {
  }

  lemma NotClosedAtOnce(f: ArrayFault, t: seq<Byte>)
    requires IsArrayFault(f) && t == PrintArrayFault(f) && NoLeadingWs(t) && (t == [] || t[0] != 0x5D)
    requires f.InItem? && f.done == [] && f.fault.NoValue?
    ensures f.fault.rest == [] || f.fault.rest[0] != 0x5D
  {
    PrintNoValue(f.fault);
    NothingAdded(f.before + f.fault.rest);
    if f.fault.rest != [] {
      WsIsGone(f.before, f.fault.rest, t);
    }
  }

  lemma NotClosedAtKey(f: ObjectFault, t: seq<Byte>)
    requires IsObjectFault(f) && t == PrintObjectFault(f) && NoLeadingWs(t) && (t == [] || t[0] != 0x7D)
    requires f.AtKey? && f.done == [] && f.key.NoQuote?
    ensures f.key.rest == [] || f.key.rest[0] != 0x7D
  {
    NothingAdded(f.key.before + f.key.rest);
    if f.key.rest != [] {
      WsIsGone(f.key.before, f.key.rest, t);
    }
  }

  /** A text in which no value can be read is whitespace and a broken value. */
  lemma {:induction false} FaultOf(s: seq<Byte>) returns (before: seq<Byte>, f: Fault)
    requires ValueAt(s).Err?
    ensures AllWs(before) && IsFault(f) && s == before + PrintFault(f) && ValueAt(s).error == ErrorOf(f)
    decreases |s|, 1
  {
    hide ElementsAt, MembersAt, IsArrayFault, IsObjectFault, PrintArrayFault, PrintObjectFault;
    hide ErrorOfArray, ErrorOfObject;
    before := SplitWs(s);
    var t := AfterWs(s);
    SameAfterWs(s);
    if t != [] && t[0] == OPEN_BRACKET {
      var inner := SplitWs(t[1..]);
      var u := AfterWs(t[1..]);
      var items := ArrayFaultOf([], u);
      if items.InItem? && items.done == [] && items.fault.NoValue? { NotClosedAtOnce(items, u); }
      f := InArray(inner, items);
      HeadAndTail(t);
    } else if t != [] && t[0] == OPEN_BRACE {
      var inner := SplitWs(t[1..]);
      var u := AfterWs(t[1..]);
      var members := ObjectFaultOf(map[], u);
      if members.AtKey? && members.done == [] && members.key.NoQuote? { NotClosedAtKey(members, u); }
      f := InObject(inner, members);
      HeadAndTail(t);
    } else {
      f := ScalarFault(t);
    }
  }

  // ---------------------------------------------------------------------------------------------
  // Whole texts
  // ---------------------------------------------------------------------------------------------

  /** Whitespace and a value that breaks off. */
  ghost predicate IsBroken(text: seq<Byte>, before: seq<Byte>, f: Fault) {
    AllWs(before) && IsFault(f) && text == before + PrintFault(f)
  }

  /** A whole document, and then something else. */
  ghost predicate HasMore(text: seq<Byte>, before: seq<Byte>, t: Syntax, after: seq<Byte>, rest: seq<Byte>) {
    && AllWs(before) && IsSyntax(t) && AllWs(after) && rest != [] && NoLeadingWs(rest) && Ends(t, after + rest)
    && text == before + (Print(t) + (after + rest))
  }

  /** A text is refused with an error exactly when it is whitespace and a value that breaks off with this error, or
      the error is about bytes behind the value and there are such bytes. */
  lemma RefusedIff(text: seq<Byte>, e: ParseError)
    ensures ParseJson(text) == Err(e) <==>
      || (exists before, f :: IsBroken(text, before, f) && e == ErrorOf(f))
      || (e == TrailingBytes && exists before, t, after, rest :: HasMore(text, before, t, after, rest))
  {
    hide PrintFault, IsFault, ErrorOf, Print, IsSyntax, Ends, Denotes, ValueAt;
    if ValueAt(text).Err? {
      var before, f := FaultOf(text);
      assert IsBroken(text, before, f);
    } else {
      var before, t := SyntaxOf(text);
      var after := SplitWs(ValueAt(text).value.rest);
      if ParseJson(text).Err? {
        assert HasMore(text, before, t, after, AfterWs(ValueAt(text).value.rest));
      }
    }
    if before, f :| IsBroken(text, before, f) && e == ErrorOf(f) {
      FaultIsRefused(f);
      LeadingWs(before, PrintFault(f));
    }
    if before, t, after, rest :| HasMore(text, before, t, after, rest) {
      ReadValue(t, after + rest);
      LeadingWs(before, Print(t) + (after + rest));
      ReadWs(after, rest);
    }
  }
}
