/** The texts of RFC 8259, sections 4 to 7, among the texts the reader accepts. */
module JsonStandard {
  import opened Outcomes
  import opened Concatenation
  import opened Json
  import opened JsonParser
  import opened JsonSyntax
  import opened JsonLanguage

  // ---------------------------------------------------------------------------------------------
  // The standard's own grammar, in the standard's own bytes
  // ---------------------------------------------------------------------------------------------

  /** Section 2: space, tab, line feed, carriage return. */
  predicate StandardWs(s: seq<Byte>) {
    forall i :: 0 <= i < |s| ==> s[i] == 0x20 || s[i] == 0x09 || s[i] == 0x0A || s[i] == 0x0D
  }

  predicate StandardDigits(s: seq<Byte>) {
    s != [] && forall i :: 0 <= i < |s| ==> 0x30 <= s[i] <= 0x39
  }

  /** Section 6: an integer part without leading zeros, and digits in every part that is present. */
  predicate StandardNumeral(n: Numeral) {
    && StandardDigits(n.whole) && (|n.whole| > 1 ==> n.whole[0] != 0x30)
    && (n.fraction.Some? ==> StandardDigits(n.fraction.value))
    && (n.exponent.Some? ==>
          var e := n.exponent.value;
          && (e.mark == 0x65 || e.mark == 0x45) && StandardDigits(e.digits)
          && (e.sign.Some? ==> e.sign.value == 0x2B || e.sign.value == 0x2D))
  }

  predicate AllHex(h: seq<Byte>) {
    forall i :: 0 <= i < |h| ==> 0x30 <= h[i] <= 0x39 || 0x41 <= h[i] <= 0x46 || 0x61 <= h[i] <= 0x66
  }

  /** Section 7: raw bytes other than quote, backslash and control characters; the listed escapes. */
  predicate StandardUnit(u: Unit) {
    match u
    case Raw(b) => b >= 0x20 && b != 0x22 && b != 0x5C
    case Short(b) => b in [0x22, 0x5C, 0x2F, 0x62, 0x66, 0x6E, 0x72, 0x74]
    case Unicode(hex) => |hex| == 4 && AllHex(hex)
  }

  predicate StandardUnits(us: seq<Unit>) {
    forall i :: 0 <= i < |us| ==> StandardUnit(us[i])
  }

  predicate Standard(t: Syntax)
    decreases t, 1
  {
    match t
    case NullText => true
    case BoolText(_) => true
    case NumberText(n) => StandardNumeral(n)
    case StringText(us) => StandardUnits(us)
    case ArrayText(inner, items) => StandardWs(inner) && StandardItems(items)
    case ObjectText(inner, members) => StandardWs(inner) && StandardMembers(members)
  }

  predicate StandardItems(items: seq<Item>)
    decreases items, 0
  {
    items != [] ==>
      StandardWs(items[0].before) && Standard(items[0].value) && StandardWs(items[0].after) && StandardItems(items[1..])
  }

  predicate StandardMembers(ms: seq<Member>)
    decreases ms, 0
  {
    ms != [] ==>
      && StandardWs(ms[0].beforeKey) && StandardUnits(ms[0].key) && StandardWs(ms[0].afterKey)
      && StandardWs(ms[0].beforeValue) && Standard(ms[0].value) && StandardWs(ms[0].after)
      && StandardMembers(ms[1..])
  }

  // ---------------------------------------------------------------------------------------------
  // What the reader takes besides
  // ---------------------------------------------------------------------------------------------

  /** A part without digits, or a leading zero. */
  predicate LenientNumeral(n: Numeral) {
    || n.whole == [] || (|n.whole| > 1 && n.whole[0] == 0x30)
    || n.fraction == Some([]) || (n.exponent.Some? && n.exponent.value.digits == [])
  }

  /** A raw control character, or a plus sign before three hex digits. */
  predicate LenientUnit(u: Unit) {
    match u
    case Raw(b) => b < 0x20
    case Short(_) => false
    case Unicode(hex) => hex != [] && hex[0] == 0x2B
  }

  predicate LenientUnits(us: seq<Unit>) {
    exists i :: 0 <= i < |us| && LenientUnit(us[i])
  }

  /** Somewhere in the tree there is a lenient numeral or unit. */
  predicate Lenient(t: Syntax)
    decreases t, 1
  {
    match t
    case NumberText(n) => LenientNumeral(n)
    case StringText(us) => LenientUnits(us)
    case ArrayText(_, items) => LenientItems(items)
    case ObjectText(_, members) => LenientMembers(members)
    case _ => false
  }

  predicate LenientItems(items: seq<Item>)
    decreases items, 0
  {
    items != [] && (Lenient(items[0].value) || LenientItems(items[1..]))
  }

  predicate LenientMembers(ms: seq<Member>)
    decreases ms, 0
  {
    ms != [] && (LenientUnits(ms[0].key) || Lenient(ms[0].value) || LenientMembers(ms[1..]))
  }

  lemma {:induction false} HexDigitsIff(h: seq<Byte>)
    ensures HexDigits(h).Some? <==> AllHex(h)
  {
    if h != [] {
      HexDigitsIff(h[..|h| - 1]);
      assert h == h[..|h| - 1] + [h[|h| - 1]];
    }
  }

  lemma StandardUnitIff(u: Unit)
    ensures StandardUnit(u) <==> IsUnit(u) && !LenientUnit(u)
  {
    if u.Unicode? {
      HexDigitsIff(u.hex);
      assert HexDigit(PLUS).None?;
    }
  }

  lemma StandardUnitsIff(us: seq<Unit>)
    ensures StandardUnits(us) <==> AllUnits(us) && !LenientUnits(us)
  {
    forall i | 0 <= i < |us| ensures StandardUnit(us[i]) <==> IsUnit(us[i]) && !LenientUnit(us[i]) {
      StandardUnitIff(us[i]);
    }
  }

  /** A text tree the reader accepts is one of the standard's unless it contains a lenient numeral or unit, and the
      standard's are all accepted. */
  lemma {:induction false} StandardIff(t: Syntax)
    ensures Standard(t) <==> IsSyntax(t) && !Lenient(t)
    decreases t, 1
  {
    match t
    case StringText(us) => StandardUnitsIff(us);
    case ArrayText(_, items) => StandardItemsIff(items);
    case ObjectText(_, members) => StandardMembersIff(members);
    case _ =>
  }

  lemma {:induction false} StandardItemsIff(items: seq<Item>)
    ensures StandardItems(items) <==> AreItems(items) && !LenientItems(items)
    decreases items, 0
  {
    if items != [] {
      StandardIff(items[0].value);
      StandardItemsIff(items[1..]);
    }
  }

  lemma {:induction false} StandardMembersIff(ms: seq<Member>)
    ensures StandardMembers(ms) <==> AreMembers(ms) && !LenientMembers(ms)
    decreases ms, 0
  {
    if ms != [] {
      StandardUnitsIff(ms[0].key);
      StandardIff(ms[0].value);
      StandardMembersIff(ms[1..]);
    }
  }

  /** The reader accepts every text of the standard; what it makes of it is the value the tree denotes for the
      reader. */
  lemma StandardTextsAreAccepted(before: seq<Byte>, t: Syntax, after: seq<Byte>)
    requires StandardWs(before) && Standard(t) && StandardWs(after)
    ensures IsSyntax(t) && ParseJson(before + (Print(t) + after)) == Ok(Denotes(t))
  {
    StandardIff(t);
    PrintedTextsAreRead(before, t, after);
  }
}
