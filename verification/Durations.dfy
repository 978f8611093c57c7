/** `parse_humantime_duration`: digits, a unit, and a product that has to fit in 64 bits. */
module Durations {
  import opened Outcomes
  import opened Concatenation
  import opened Alphabets

  const U64_LIMIT := 0x1_0000_0000_0000_0000

  datatype DurationError = EmptyText | NoDigits | NumberOverflows | UnknownUnit | ProductOverflows

  predicate IsDigit(c: char) {
    '0' <= c <= '9'
  }

  /** Unicode White_Space, which `str::trim` removes. */
  predicate IsWhite(c: char) {
    var n := c as int;
    0x09 <= n <= 0x0D || n == 0x20 || n == 0x85 || n == 0xA0 || n == 0x1680 || 0x2000 <= n <= 0x200A
    || n == 0x2028 || n == 0x2029 || n == 0x202F || n == 0x205F || n == 0x3000
  }

  function TrimStart(s: string): string {
    if s != "" && IsWhite(s[0]) then TrimStart(s[1..]) else s
  }

  function TrimEnd(s: string): string {
    if s != "" && IsWhite(s[|s| - 1]) then TrimEnd(s[..|s| - 1]) else s
  }

  function Trim(s: string): string {
    TrimEnd(TrimStart(s))
  }

  /** Seconds per unit; `min` is an alias of `m`. */
  function Multiplier(unit: string): Option<nat> {
    if unit == "s" then Some(1)
    else if unit == "m" || unit == "min" then Some(60)
    else if unit == "h" then Some(3600)
    else if unit == "d" then Some(86400)
    else None
  }

  predicate AllDigits(s: string) {
    forall i :: 0 <= i < |s| ==> IsDigit(s[i])
  }

  predicate AllWhite(s: string) {
    forall i :: 0 <= i < |s| ==> IsWhite(s[i])
  }

  function NumberValue(digits: string): nat
    requires AllDigits(digits)
  {
    if digits == "" then 0
    else NumberValue(digits[..|digits| - 1]) * 10 + (digits[|digits| - 1] as nat - '0' as nat)
  }

  // ---------------------------------------------------------------------------------------------
  // What a duration text means
  // ---------------------------------------------------------------------------------------------

  /** The documented units, in seconds. */
  const UNITS: map<string, nat> := map["s" := 1, "m" := 60, "min" := 60, "h" := 3600, "d" := 86400]

  /** The characters with the Unicode property White_Space. */
  const WHITE_SPACE: set<int> :=
    {0x09, 0x0A, 0x0B, 0x0C, 0x0D, 0x20, 0x85, 0xA0, 0x1680, 0x2000, 0x2001, 0x2002, 0x2003, 0x2004, 0x2005, 0x2006,
     0x2007, 0x2008, 0x2009, 0x200A, 0x2028, 0x2029, 0x202F, 0x205F, 0x3000}

  ghost predicate IsWhiteSpace(s: string) {
    forall i :: 0 <= i < |s| ==> s[i] as int in WHITE_SPACE
  }

  ghost predicate IsDecimal(s: string) {
    s != "" && forall i :: 0 <= i < |s| ==> s[i] in DIGITS
  }

  function Power10(n: nat): nat {
    if n == 0 then 1 else 10 * Power10(n - 1)
  }

  ghost function DigitValue(c: char): (v: nat)
    requires c in DIGITS
    ensures v < 10 && DIGITS[v] == c
  {
    var v: nat :| v < 10 && DIGITS[v] == c;
    v
  }

  /** Each digit counts a power of ten, the last one 1. */
  ghost function DecimalValue(s: string): nat
    requires forall i :: 0 <= i < |s| ==> s[i] in DIGITS
  {
    if s == "" then 0 else DigitValue(s[0]) * Power10(|s| - 1) + DecimalValue(s[1..])
  }

  /** The text taken apart: whitespace around a decimal number and whatever stands right behind it. */
  ghost predicate Parts(s: string, before: string, digits: string, unit: string, after: string) {
    && s == before + (digits + unit) + after
    && IsWhiteSpace(before) && IsWhiteSpace(after) && IsDecimal(digits)
    && (unit != "" ==> unit[0] !in DIGITS && unit[|unit| - 1] as int !in WHITE_SPACE)
  }

  /** A text that means `secs` seconds: a number and a documented unit. */
  ghost predicate Means(s: string, before: string, digits: string, unit: string, after: string, secs: nat) {
    Parts(s, before, digits, unit, after) && unit in UNITS && secs == DecimalValue(digits) * UNITS[unit]
  }

  /** No number at the start: the first character that is not whitespace is not a digit. */
  ghost predicate StartsOtherwise(s: string) {
    exists n: nat :: n < |s| && IsWhiteSpace(s[..n]) && s[n] as int !in WHITE_SPACE && s[n] !in DIGITS
  }

  /** What becomes of a number and what stands behind it. */
  function Judge(value: nat, unit: string): Result<nat, DurationError> {
    if value >= 0x1_0000_0000_0000_0000 then Err(NumberOverflows)
    else if unit !in UNITS then Err(UnknownUnit)
    else if value * UNITS[unit] >= 0x1_0000_0000_0000_0000 then Err(ProductOverflows)
    else Ok(value * UNITS[unit])
  }

  lemma WhiteIs(c: char)
    ensures IsWhite(c) <==> c as int in WHITE_SPACE
  {
  }

  lemma AllWhiteIs(s: string)
    ensures AllWhite(s) <==> IsWhiteSpace(s)
  {
    hide IsWhite, WHITE_SPACE;
    forall i | 0 <= i < |s| ensures IsWhite(s[i]) <==> s[i] as int in WHITE_SPACE { WhiteIs(s[i]); }
  }

  lemma AllDigitsIs(s: string)
    ensures s != "" && AllDigits(s) <==> IsDecimal(s)
  {
    hide DIGITS;
    forall i | 0 <= i < |s| ensures IsDigit(s[i]) <==> s[i] in DIGITS { DigitsAre(s[i]); }
  }

  lemma DigitValueIs(c: char)
    requires IsDigit(c)
    ensures c in DIGITS && DigitValue(c) == c as nat - '0' as nat
  {
    DigitsAre(c);
  }

  lemma UnitsAre(unit: string)
    ensures Multiplier(unit) == if unit in UNITS then Some(UNITS[unit]) else None
  {
  }

  lemma TimesTen(a: nat, p: nat)
    ensures 10 * (a * p) == a * (10 * p)
  {
  }

  lemma {:induction false} NumberFromFront(digits: string)
    requires AllDigits(digits) && digits != ""
    ensures NumberValue(digits)
            == (digits[0] as nat - '0' as nat) * Power10(|digits| - 1) + NumberValue(digits[1..])
    decreases |digits|
  {
    var n, first := |digits| - 1, digits[0] as nat - '0' as nat;
    if n > 0 {
      var older := digits[..n];
      NumberFromFront(older);
      assert older[1..] == digits[1..][..n - 1];
      TimesTen(first, Power10(n - 1));
    } else {
      assert digits[..0] == "" && digits[1..] == "";
    }
  }

  /** Multiplying by ten and adding the next digit adds up to the positional value. */
  lemma {:induction false} NumberValueIs(digits: string)
    requires AllDigits(digits)
    ensures (forall i :: 0 <= i < |digits| ==> digits[i] in DIGITS) && NumberValue(digits) == DecimalValue(digits)
  {
    if digits != "" {
      AllDigitsIs(digits);
      NumberFromFront(digits);
      NumberValueIs(digits[1..]);
      DigitValueIs(digits[0]);
    }
  }

  // ---------------------------------------------------------------------------------------------
  // The code takes the text apart so
  // ---------------------------------------------------------------------------------------------

  lemma {:induction false} TrimStartSplits(s: string) returns (before: string)
    ensures AllWhite(before) && s == before + TrimStart(s)
    ensures TrimStart(s) == "" || !IsWhite(TrimStart(s)[0])
  {
    if s != "" && IsWhite(s[0]) {
      before := TrimStartSplits(s[1..]);
      HeadAndTail(s);
      Join([s[0]], before, TrimStart(s));
      before := [s[0]] + before;
    } else {
      before := "";
      NothingAdded(s);
    }
  }

  lemma {:induction false} TrimEndSplits(s: string) returns (after: string)
    ensures AllWhite(after) && s == TrimEnd(s) + after
    ensures TrimEnd(s) == "" || !IsWhite(TrimEnd(s)[|TrimEnd(s)| - 1])
  {
    if s != "" && IsWhite(s[|s| - 1]) {
      var last := [s[|s| - 1]];
      after := TrimEndSplits(s[..|s| - 1]);
      assert s == s[..|s| - 1] + last;
      Join(TrimEnd(s), after, last);
      after := after + last;
    } else {
      after := "";
      NothingAdded(s);
    }
  }

  lemma {:induction false} TrimStartStops(before: string, t: string)
    requires AllWhite(before) && (t == "" || !IsWhite(t[0]))
    ensures TrimStart(before + t) == t
  {
    if before == "" {
      NothingAdded(t);
    } else {
      TrimStartStops(before[1..], t);
      assert (before + t)[1..] == before[1..] + t;
    }
  }

  lemma {:induction false} TrimEndStops(t: string, after: string)
    requires AllWhite(after) && (t == "" || !IsWhite(t[|t| - 1]))
    ensures TrimEnd(t + after) == t
  {
    if after == "" {
      NothingAdded(t);
    } else {
      TrimEndStops(t, after[..|after| - 1]);
      assert (t + after)[..|t + after| - 1] == t + after[..|after| - 1];
    }
  }

  /** The end of the leading digits, from i on. */
  function DigitsEnd(s: string, i: nat): (e: nat)
    requires i <= |s|
    ensures i <= e <= |s|
    ensures forall j :: i <= j < e ==> IsDigit(s[j])
    ensures e < |s| ==> !IsDigit(s[e])
    decreases |s| - i
  {
    if i < |s| && IsDigit(s[i]) then DigitsEnd(s, i + 1) else i
  }

  /** What the code computes from the trimmed text. */
  function Evaluate(t: string): Result<nat, DurationError> {
    if t == "" then Err(EmptyText)
    else
      var i := DigitsEnd(t, 0);
      if i == 0 then Err(NoDigits)
      else
        var value := NumberValue(t[..i]);
        if value >= U64_LIMIT then Err(NumberOverflows)
        else match Multiplier(t[i..])
          case None => Err(UnknownUnit)
          case Some(m) => if value * m >= U64_LIMIT then Err(ProductOverflows) else Ok(value * m)
  }

  lemma DigitsEndIs(digits: string, unit: string)
    requires AllDigits(digits) && (unit == "" || !IsDigit(unit[0]))
    ensures DigitsEnd(digits + unit, 0) == |digits|
  {
    var s := digits + unit;
    assert forall j :: 0 <= j < |digits| ==> s[j] == digits[j] && IsDigit(s[j]);
    assert |digits| < |s| ==> s[|digits|] == unit[0];
  }

  lemma DigitIsNotWhite(c: char)
    requires IsDigit(c)
    ensures !IsWhite(c)
  {
  }

  lemma PartsEnd(before: string, digits: string, unit: string, after: string)
    requires Parts(before + (digits + unit) + after, before, digits, unit, after)
    ensures AllWhite(before) && AllWhite(after) && AllDigits(digits) && (unit == "" || !IsDigit(unit[0]))
    ensures var t := digits + unit;
      t != "" && !IsWhite((t + after)[0]) && !IsWhite(t[|t| - 1])
  {
    hide IsWhite, WHITE_SPACE, DIGITS;
    AllWhiteIs(before);
    AllWhiteIs(after);
    AllDigitsIs(digits);
    DigitIsNotWhite(digits[0]);
    DigitIsNotWhite(digits[|digits| - 1]);
    if unit != "" {
      WhiteIs(unit[|unit| - 1]);
      DigitsAre(unit[0]);
    }
  }

  lemma TrimIs(before: string, t: string, after: string)
    requires AllWhite(before) && AllWhite(after) && t != "" && !IsWhite((t + after)[0]) && !IsWhite(t[|t| - 1])
    ensures Trim(before + t + after) == t
  {
    hide AllWhite, IsWhite, TrimStart, TrimEnd;
    Join(before, t, after);
    TrimStartStops(before, t + after);
    TrimEndStops(t, after);
  }

  lemma PartsTrim(s: string, before: string, digits: string, unit: string, after: string)
    requires Parts(s, before, digits, unit, after)
    ensures Trim(s) == digits + unit && DigitsEnd(digits + unit, 0) == |digits|
  {
    assert s == before + (digits + unit) + after;
    hide *;
    PartsEnd(before, digits, unit, after);
    TrimIs(before, digits + unit, after);
    DigitsEndIs(digits, unit);
  }

  lemma CutBehind(digits: string, unit: string)
    ensures (digits + unit)[..|digits|] == digits && (digits + unit)[|digits|..] == unit
  {
  }

  /** A text with a number in front is judged by the number and what stands right behind it. */
  lemma PartsEvaluate(s: string, before: string, digits: string, unit: string, after: string)
    requires Parts(s, before, digits, unit, after)
    ensures Evaluate(Trim(s)) == Judge(DecimalValue(digits), unit)
  {
    hide Trim, DigitsEnd, DecimalValue, NumberValue, UNITS;
    PartsTrim(s, before, digits, unit, after);
    CutBehind(digits, unit);
    AllDigitsIs(digits);
    NumberValueIs(digits);
    UnitsAre(unit);
  }

  /** Every text is whitespace, or starts otherwise than with a number, or has the parts of a number and the rest. */
  lemma TakeApart(s: string) returns (before: string, digits: string, unit: string, after: string)
    ensures Trim(s) == "" ==> IsWhiteSpace(s)
    ensures Trim(s) != "" && DigitsEnd(Trim(s), 0) == 0 ==> StartsOtherwise(s)
    ensures Trim(s) != "" && DigitsEnd(Trim(s), 0) > 0 ==> Parts(s, before, digits, unit, after)
  {
    hide TrimStart, TrimEnd, WHITE_SPACE, DIGITS;
    var t := Trim(s);
    before := TrimStartSplits(s);
    after := TrimEndSplits(TrimStart(s));
    Join(before, t, after);
    AllWhiteIs(before);
    AllWhiteIs(after);
    var i := DigitsEnd(t, 0);
    digits, unit := t[..i], t[i..];
    assert t == digits + unit;
    AllDigitsIs(digits);
    if t == "" {
      assert s == before + after;
    } else if i == 0 {
      assert s[..|before|] == before && s[|before|] == t[0];
      assert TrimStart(s)[0] == t[0];
      WhiteIs(t[0]);
      DigitsAre(t[0]);
    } else if unit != "" {
      assert unit[|unit| - 1] == t[|t| - 1];
      WhiteIs(t[|t| - 1]);
      DigitsAre(unit[0]);
    }
  }

  lemma WhiteTextTrims(s: string)
    requires IsWhiteSpace(s)
    ensures Trim(s) == ""
  {
    AllWhiteIs(s);
    TrimStartStops(s, "");
    NothingAdded(s);
  }

  lemma OtherTextTrims(s: string)
    requires StartsOtherwise(s)
    ensures Trim(s) != "" && DigitsEnd(Trim(s), 0) == 0
  {
    hide TrimStart, TrimEnd, WHITE_SPACE, DIGITS;
    var n: nat :| n < |s| && IsWhiteSpace(s[..n]) && s[n] as int !in WHITE_SPACE && s[n] !in DIGITS;
    AllWhiteIs(s[..n]);
    WhiteIs(s[n]);
    DigitsAre(s[n]);
    assert s == s[..n] + s[n..];
    TrimStartStops(s[..n], s[n..]);
    TrimEndKeepsFirst(s[n..]);
  }

  lemma {:induction false} TrimEndKeepsFirst(s: string)
    requires s != "" && !IsWhite(s[0])
    ensures TrimEnd(s) != "" && TrimEnd(s)[0] == s[0]
  {
    if IsWhite(s[|s| - 1]) { TrimEndKeepsFirst(s[..|s| - 1]); }
  }

  /** When a text is refused as empty, and when for want of digits. */
  lemma RefusedWithoutNumber(s: string)
    ensures Evaluate(Trim(s)) == Err(EmptyText) <==> IsWhiteSpace(s)
    ensures Evaluate(Trim(s)) == Err(NoDigits) <==> StartsOtherwise(s)
  {
    hide Trim, DigitsEnd, IsWhiteSpace, StartsOtherwise, NumberValue;
    var before, digits, unit, after := TakeApart(s);
    if IsWhiteSpace(s) { WhiteTextTrims(s); }
    if StartsOtherwise(s) { OtherTextTrims(s); }
  }

  /** Every other text is a number and the rest, and its outcome is the judgement on these. */
  lemma JudgedByParts(s: string) returns (before: string, digits: string, unit: string, after: string)
    ensures IsWhiteSpace(s) || StartsOtherwise(s) ||
      (Parts(s, before, digits, unit, after) && Evaluate(Trim(s)) == Judge(DecimalValue(digits), unit))
  {
    hide Trim, DigitsEnd, IsWhiteSpace, StartsOtherwise, Judge, Evaluate, DecimalValue, Parts;
    before, digits, unit, after := TakeApart(s);
    if !IsWhiteSpace(s) && !StartsOtherwise(s) { PartsEvaluate(s, before, digits, unit, after); }
  }

  /** A text is accepted exactly when it is digits and a unit, up to surrounding whitespace, and the product fits in
      64 bits; the result is that product. A text with a number in front that is not accepted is refused for what is
      wrong with the number or with what stands behind it. */
  method ParseHumantimeDuration(s: string) returns (r: Result<nat, DurationError>)
    ensures forall secs: nat :: r == Ok(secs) <==>
      secs < U64_LIMIT && exists before, digits, unit, after :: Means(s, before, digits, unit, after, secs)
    ensures r == Err(EmptyText) <==> IsWhiteSpace(s)
    ensures r == Err(NoDigits) <==> StartsOtherwise(s)
    ensures forall before, digits, unit, after :: Parts(s, before, digits, unit, after) ==>
      r == Judge(DecimalValue(digits), unit)
    ensures r == Evaluate(Trim(s))
  {
    hide NumberValue, Trim, Multiplier, IsWhiteSpace, StartsOtherwise, Judge, DecimalValue, UNITS, DIGITS;
    var trimmed := Trim(s);
    forall secs: nat ensures Evaluate(trimmed) == Ok(secs) <==>
      secs < U64_LIMIT && exists before, digits, unit, after :: Means(s, before, digits, unit, after, secs)
    {
      AcceptedIffMeant(s, secs);
    }
    RefusedWithoutNumber(s);
    forall before, digits, unit, after | Parts(s, before, digits, unit, after)
      ensures Evaluate(trimmed) == Judge(DecimalValue(digits), unit)
    {
      PartsEvaluate(s, before, digits, unit, after);
    }
    if trimmed == "" {
      return Err(EmptyText);
    }
    var i := 0;
    while i < |trimmed| && IsDigit(trimmed[i])
      invariant i <= |trimmed| && DigitsEnd(trimmed, 0) == DigitsEnd(trimmed, i)
      invariant AllDigits(trimmed[..i])
    {
      i := i + 1;
    }
    if i == 0 {
      return Err(NoDigits);
    }
    var value := NumberValue(trimmed[..i]);
    if value >= U64_LIMIT {
      return Err(NumberOverflows);
    }
    var multiplier := Multiplier(trimmed[i..]);
    if multiplier.None? {
      return Err(UnknownUnit);
    }
    if value * multiplier.value >= U64_LIMIT {
      return Err(ProductOverflows);
    }
    r := Ok(value * multiplier.value);
  }

  lemma AcceptedIffMeant(s: string, secs: nat)
    ensures Evaluate(Trim(s)) == Ok(secs) <==>
      secs < U64_LIMIT && exists before, digits, unit, after :: Means(s, before, digits, unit, after, secs)
  {
    hide Trim, DecimalValue, IsWhiteSpace, StartsOtherwise, Evaluate, UNITS, DIGITS;
    if before, digits, unit, after :| Means(s, before, digits, unit, after, secs) {
      PartsEvaluate(s, before, digits, unit, after);
      UnitIsPositive(unit);
      ProductBounds(DecimalValue(digits), UNITS[unit]);
    }
    if Evaluate(Trim(s)) == Ok(secs) {
      RefusedWithoutNumber(s);
      var before, digits, unit, after := JudgedByParts(s);
      assert Means(s, before, digits, unit, after, secs);
    }
  }

  lemma UnitIsPositive(unit: string)
    requires unit in UNITS
    ensures UNITS[unit] >= 1
  {
  }

  lemma ProductBounds(value: nat, m: nat)
    requires m >= 1
    ensures value * m >= value
  {
  }

  /** Trailing whitespace is accepted, against the documentation of the parser. */
  lemma TrailingWhitespaceIsAccepted()
    ensures Evaluate(Trim("5m ")) == Ok(300)
  {
    var text := "5m ";
    assert text == "" + ("5" + "m") + " ";
    assert "5"[1..] == "" && DIGITS[5] == '5' && DigitValue('5') == 5;
    assert DecimalValue("5") == 5 * Power10(0) + DecimalValue("");
    assert Means(text, "", "5", "m", " ", 300);
    AcceptedIffMeant(text, 300);
  }
}
