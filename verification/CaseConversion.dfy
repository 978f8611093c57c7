/** The byte loops of `djogi-macros/src/case.rs`, on ASCII identifiers as strings. */
module CaseConversion {
  import opened Outcomes
  import opened Concatenation
  import opened Alphabets

  predicate IsUpper(c: char) {
    'A' <= c <= 'Z'
  }

  predicate IsLower(c: char) {
    'a' <= c <= 'z'
  }

  function ToLower(c: char): char {
    if IsUpper(c) then (c as int + 32) as char else c
  }

  function ToUpper(c: char): char {
    if IsLower(c) then (c as int - 32) as char else c
  }

  /** Each letter has its counterpart at the same place of the alphabet, and nothing else changes. */
  lemma LettersChangeCase(c: char, i: nat)
    requires i < 26
    ensures ToLower(UPPER_CASE[i]) == LOWER_CASE[i] && ToUpper(LOWER_CASE[i]) == UPPER_CASE[i]
    ensures (c !in UPPER_CASE ==> ToLower(c) == c) && (c !in LOWER_CASE ==> ToUpper(c) == c)
  {
    LetterAt(i);
    hide UPPER_CASE, LOWER_CASE;
    UpperCaseIs(c);
    LowerCaseIs(c);
  }

  lemma LetterAt(i: nat)
    requires i < 26
    ensures UPPER_CASE[i] as int == 'A' as int + i && LOWER_CASE[i] as int == 'a' as int + i
  {
  }

  function MapChars(f: char -> char, s: string): (r: string)
    ensures |r| == |s| && forall i :: 0 <= i < |s| ==> r[i] == f(s[i])
  {
    seq(|s|, i requires 0 <= i < |s| => f(s[i]))
  }

  function Lowercase(s: string): string {
    MapChars(ToLower, s)
  }

  function Uppercase(s: string): string {
    MapChars(ToUpper, s)
  }

  // ---------------------------------------------------------------------------------------------
  // pascal_to_snake
  // ---------------------------------------------------------------------------------------------

  predicate NextIsLower(s: string) {
    s != [] && IsLower(s[0])
  }

  /** An underscore goes before an upper-case letter that is not the first one and that follows, or is followed
      by, a lower-case letter. */
  predicate IsBoundary(prev: Option<char>, c: char, after: string) {
    IsUpper(c) && prev.Some? && (IsLower(prev.value) || NextIsLower(after))
  }

  /** The conversion of s when `prev` stands before it. */
  function SnakeAfter(prev: Option<char>, s: string): string
    decreases |s|
  {
    if s == "" then ""
    else (if IsBoundary(prev, s[0], s[1..]) then "_" else "") + [ToLower(s[0])] + SnakeAfter(Some(s[0]), s[1..])
  }

  function PascalToSnake(name: string): string {
    SnakeAfter(None, name)
  }

  method PascalToSnakeLoop(name: string) returns (out: string)
    ensures out == PascalToSnake(name)
  {
    out := "";
    ghost var prev: Option<char> := None;
    for i := 0 to |name|
      invariant prev == if i == 0 then None else Some(name[i - 1])
      invariant out + SnakeAfter(prev, name[i..]) == PascalToSnake(name)
    {
      var b := name[i];
      ghost var here := name[i..];
      assert here[0] == b && here[1..] == name[i + 1..];
      ghost var before := out;
      if IsUpper(b) && i > 0 {
        var prevIsLower := IsLower(name[i - 1]);
        var nextIsLower := i + 1 < |name| && IsLower(name[i + 1]);
        assert NextIsLower(here[1..]) == nextIsLower;
        if prevIsLower || nextIsLower {
          out := out + "_";
        }
      }
      out := out + [if IsUpper(b) then ToLower(b) else b];
      ghost var piece := (if IsBoundary(prev, b, here[1..]) then "_" else "") + [ToLower(b)];
      assert out == before + piece;
      Join(before, piece, SnakeAfter(Some(b), here[1..]));
      prev := Some(b);
    }
    assert name[|name|..] == "" && out + "" == out;
  }

  /** Before which characters an underscore goes: a capital that is not the first character and has a small letter
      beside it. */
  ghost predicate IsMark(name: string, i: nat) {
    && 0 < i < |name| && name[i] in UPPER_CASE
    && (name[i - 1] in LOWER_CASE || (i + 1 < |name| && name[i + 1] in LOWER_CASE))
  }

  /** How many of them are among the first n characters. */
  ghost function Marks(name: string, n: nat): nat {
    if n == 0 then 0 else Marks(name, n - 1) + if IsMark(name, n - 1) then 1 else 0
  }

  ghost function Before(name: string, i: nat): Option<char>
    requires i <= |name|
  {
    if i == 0 then None else Some(name[i - 1])
  }

  lemma IsMarkIsBoundary(name: string, i: nat)
    requires i < |name|
    ensures IsMark(name, i) <==> IsBoundary(Before(name, i), name[i], name[i + 1..])
  {
    hide UPPER_CASE, LOWER_CASE;
    UpperCaseIs(name[i]);
    if i > 0 { LowerCaseIs(name[i - 1]); }
    if i + 1 < |name| { LowerCaseIs(name[i + 1]); }
  }

  lemma SnakeStep(name: string, i: nat)
    requires i < |name|
    ensures SnakeAfter(Before(name, i), name[i..])
            == (if IsMark(name, i) then "_" else "")
               + ([ToLower(name[i])] + SnakeAfter(Before(name, i + 1), name[i + 1..]))
  {
    IsMarkIsBoundary(name, i);
    hide IsMark, IsBoundary;
    assert name[i..] == [name[i]] + name[i + 1..];
    SnakeUnfolds(Before(name, i), name[i], name[i + 1..]);
  }

  lemma {:induction false} SnakeFrom(name: string, i: nat, j: nat)
    requires i <= j < |name|
    ensures Marks(name, i) <= Marks(name, j + 1)
    ensures var s := SnakeAfter(Before(name, i), name[i..]);
      var k := j - i + Marks(name, j + 1) - Marks(name, i);
      k < |s| && s[k] == ToLower(name[j]) && (IsMark(name, j) ==> k > 0 && s[k - 1] == '_')
    decreases j - i
  {
    hide IsMark, SnakeAfter;
    SnakeStep(name, i);
    assert Marks(name, i + 1) == Marks(name, i) + if IsMark(name, i) then 1 else 0;
    if i < j { SnakeFrom(name, i + 1, j); }
  }

  lemma {:induction false} SnakeLength(name: string, i: nat)
    requires i <= |name|
    ensures |SnakeAfter(Before(name, i), name[i..])| == |name| - i + Marks(name, |name|) - Marks(name, i)
    decreases |name| - i
  {
    if i < |name| {
      hide IsMark, SnakeAfter;
      SnakeStep(name, i);
      assert Marks(name, i + 1) == Marks(name, i) + if IsMark(name, i) then 1 else 0;
      SnakeLength(name, i + 1);
    }
  }

  /** What stands where: every character in small, in its place, moved by one for each underscore up to it; the places
      left over are those underscores. */
  lemma SnakeAt(name: string, i: nat)
    ensures |PascalToSnake(name)| == |name| + Marks(name, |name|)
    ensures i < |name| ==>
      var k := i + Marks(name, i + 1);
      && k < |PascalToSnake(name)| && PascalToSnake(name)[k] == ToLower(name[i])
      && (IsMark(name, i) ==> k > 0 && PascalToSnake(name)[k - 1] == '_')
  {
    hide IsMark, SnakeAfter;
    assert name[0..] == name;
    SnakeLength(name, 0);
    if i < |name| { SnakeFrom(name, 0, i); }
  }

  // ---------------------------------------------------------------------------------------------
  // snake_to_pascal, snake_to_camel, pascal_to_camel
  // ---------------------------------------------------------------------------------------------

  /** The loop shared by the two conversions, from a given `capitalise_next`. */
  function Capitalise(capitaliseNext: bool, s: string): string
    decreases |s|
  {
    if s == "" then ""
    else if s[0] == '_' then Capitalise(true, s[1..])
    else [if capitaliseNext then ToUpper(s[0]) else s[0]] + Capitalise(false, s[1..])
  }

  function SnakeToPascal(name: string): string {
    Capitalise(true, name)
  }

  function SnakeToCamel(name: string): string {
    Capitalise(false, name)
  }

  function PascalToCamel(name: string): string {
    if name == "" then "" else [ToLower(name[0])] + name[1..]
  }

  method CapitaliseLoop(start: bool, name: string) returns (out: string)
    ensures out == Capitalise(start, name)
  {
    out := "";
    var capitaliseNext := start;
    for i := 0 to |name|
      invariant out + Capitalise(capitaliseNext, name[i..]) == Capitalise(start, name)
    {
      var b := name[i];
      ghost var here := name[i..];
      assert here[0] == b && here[1..] == name[i + 1..];
      if b == '_' {
        capitaliseNext := true;
      } else if capitaliseNext {
        Join(out, [ToUpper(b)], Capitalise(false, here[1..]));
        out := out + [ToUpper(b)];
        capitaliseNext := false;
      } else {
        Join(out, [b], Capitalise(false, here[1..]));
        out := out + [b];
      }
    }
    assert name[|name|..] == "" && out + "" == out;
  }

  // ---------------------------------------------------------------------------------------------
  // Round trip from snake names
  // ---------------------------------------------------------------------------------------------

  /** A stretch between underscores: anything without capitals, possibly nothing. */
  predicate IsWord(w: string) {
    forall i :: 0 <= i < |w| ==> !IsUpper(w[i]) && w[i] != '_'
  }

  ghost predicate AreWords(ws: seq<string>) {
    forall i :: 0 <= i < |ws| ==> IsWord(ws[i])
  }

  /** The words with an underscore before each. */
  function Suffixed(ws: seq<string>): string {
    if ws == [] then "" else "_" + ws[0] + Suffixed(ws[1..])
  }

  /** The snake_case name of a nonempty list of words. */
  function SnakeName(ws: seq<string>): string
    requires ws != []
  {
    ws[0] + Suffixed(ws[1..])
  }

  /** Every name without capitals is the snake_case name of some words: empty ones stand for leading, trailing and
      repeated underscores. */
  lemma {:induction false} SplitName(name: string) returns (ws: seq<string>)
    requires NoCapitals(name)
    ensures ws != [] && AreWords(ws) && SnakeName(ws) == name
  {
    if name == "" {
      ws := [""];
    } else {
      var c := name[0];
      HeadAndTail(name);
      var older := SplitName(name[1..]);
      HeadAndTail(older);
      if c == '_' {
        ws := [""] + older;
        DropHead("", older);
        NothingAdded(Suffixed(older));
        Join("_", older[0], Suffixed(older[1..]));
      } else {
        ws := [[c] + older[0]] + older[1..];
        DropHead([c] + older[0], older[1..]);
        Join([c], older[0], Suffixed(older[1..]));
        assert IsWord([c] + older[0]);
      }
    }
  }

  function Capitalised(w: string): string {
    if w == "" then "" else [ToUpper(w[0])] + w[1..]
  }

  function AllCapitalised(ws: seq<string>): string {
    if ws == [] then "" else Capitalised(ws[0]) + AllCapitalised(ws[1..])
  }

  lemma {:induction false} CapitaliseLowers(w: string, s: string)
    requires IsWord(w)
    ensures Capitalise(false, w + s) == w + Capitalise(false, s)
  {
    if w == "" {
      assert w + s == s;
    } else {
      CapitaliseLowers(w[1..], s);
      HeadAndTail(w);
      Join([w[0]], w[1..], s);
      DropHead(w[0], w[1..] + s);
      Join([w[0]], w[1..], Capitalise(false, s));
    }
  }

  lemma CapitaliseWord(w: string, s: string)
    requires IsWord(w) && (s == "" || s[0] == '_')
    ensures Capitalise(true, w + s) == Capitalised(w) + Capitalise(false, s)
  {
    if w == "" {
      NothingAdded(s);
      NothingAdded(Capitalise(false, s));
    } else {
      CapitaliseLowers(w[1..], s);
      HeadAndTail(w);
      Join([w[0]], w[1..], s);
      DropHead(w[0], w[1..] + s);
      Join([ToUpper(w[0])], w[1..], Capitalise(false, s));
    }
  }

  lemma {:induction false} CapitaliseSuffixed(ws: seq<string>)
    requires AreWords(ws)
    ensures Capitalise(false, Suffixed(ws)) == AllCapitalised(ws)
  {
    if ws != [] {
      var rest := Suffixed(ws[1..]);
      CapitaliseSuffixed(ws[1..]);
      assert rest == "" || rest[0] == '_';
      CapitaliseWord(ws[0], rest);
      Join("_", ws[0], rest);
      DropHead('_', ws[0] + rest);
    }
  }

  /** The two conversions of a snake name: all words capitalised, or all but the first. */
  lemma ConvertedNames(ws: seq<string>)
    requires ws != [] && AreWords(ws)
    ensures SnakeToPascal(SnakeName(ws)) == AllCapitalised(ws)
    ensures SnakeToCamel(SnakeName(ws)) == ws[0] + AllCapitalised(ws[1..])
  {
    var rest := Suffixed(ws[1..]);
    assert rest == "" || rest[0] == '_';
    CapitaliseSuffixed(ws[1..]);
    CapitaliseWord(ws[0], rest);
    CapitaliseLowers(ws[0], rest);
  }

  lemma {:induction false} SnakeLowers(prev: Option<char>, w: string, s: string)
    requires IsWord(w)
    ensures SnakeAfter(prev, w + s) == w + SnakeAfter(if w == "" then prev else Some(w[|w| - 1]), s)
    decreases |w|
  {
    if w == "" {
      NothingAdded(s);
      NothingAdded(SnakeAfter(prev, s));
    } else {
      SnakeLowers(Some(w[0]), w[1..], s);
      HeadAndTail(w);
      Join([w[0]], w[1..], s);
      SnakeUnfolds(prev, w[0], w[1..] + s);
      NothingAdded([w[0]] + SnakeAfter(Some(w[0]), w[1..] + s));
      Join([w[0]], w[1..], SnakeAfter(Some(w[|w| - 1]), s));
    }
  }

  lemma SnakeUnfolds(prev: Option<char>, c: char, tail: string)
    ensures SnakeAfter(prev, [c] + tail)
            == (if IsBoundary(prev, c, tail) then "_" else "") + ([ToLower(c)] + SnakeAfter(Some(c), tail))
  {
    DropHead(c, tail);
    Join(if IsBoundary(prev, c, tail) then "_" else "", [ToLower(c)], SnakeAfter(Some(c), tail));
  }

  /** The last character of a capitalised word. */
  function LastOf(w: string): char
    requires w != ""
  {
    if |w| == 1 then ToUpper(w[0]) else w[|w| - 1]
  }

  /** An underscore comes back before the word v, capitalised, when `prev` stands before it: v starts with a letter,
      and a lower-case letter stands right before it or is its second character. */
  predicate Marked(prev: Option<char>, v: string) {
    v != "" && IsLower(v[0]) && prev.Some? && (IsLower(prev.value) || NextIsLower(v[1..]))
  }

  lemma SnakeWord(prev: Option<char>, w: string, s: string)
    requires w != "" && IsWord(w) && !NextIsLower(s)
    ensures SnakeAfter(prev, Capitalised(w) + s)
            == (if Marked(prev, w) then "_" else "") + (w + SnakeAfter(Some(LastOf(w)), s))
  {
    hide SnakeAfter;
    var c := ToUpper(w[0]);
    var tail := w[1..] + s;
    Join([c], w[1..], s);
    SnakeUnfolds(prev, c, tail);
    assert NextIsLower(tail) == NextIsLower(w[1..]);
    SnakeLowers(Some(c), w[1..], s);
    Join([w[0]], w[1..], SnakeAfter(Some(LastOf(w)), s));
    HeadAndTail(w);
  }

  /** The words with an underscore where the conversion back finds a boundary. */
  function Resnaked(prev: Option<char>, ws: seq<string>): string
    decreases |ws|
  {
    if ws == [] then ""
    else if ws[0] == "" then Resnaked(prev, ws[1..])
    else (if Marked(prev, ws[0]) then "_" else "") + (ws[0] + Resnaked(Some(LastOf(ws[0])), ws[1..]))
  }

  lemma {:induction false} CapitalisedStart(ws: seq<string>)
    requires AreWords(ws)
    ensures !NextIsLower(AllCapitalised(ws))
  {
    if ws != [] {
      CapitalisedStart(ws[1..]);
      NothingAdded(AllCapitalised(ws[1..]));
    }
  }

  lemma {:induction false} SnakeOfCapitalised(prev: Option<char>, ws: seq<string>)
    requires AreWords(ws)
    ensures SnakeAfter(prev, AllCapitalised(ws)) == Resnaked(prev, ws)
    decreases |ws|
  {
    if ws != [] {
      var rest := AllCapitalised(ws[1..]);
      if ws[0] == "" {
        NothingAdded(rest);
        SnakeOfCapitalised(prev, ws[1..]);
      } else {
        CapitalisedStart(ws[1..]);
        SnakeOfCapitalised(Some(LastOf(ws[0])), ws[1..]);
        SnakeWord(prev, ws[0], rest);
      }
    }
  }

  /** An underscore comes back before every word. */
  predicate AllMarked(prev: Option<char>, ws: seq<string>)
    decreases |ws|
  {
    ws == [] || (Marked(prev, ws[0]) && AllMarked(Some(LastOf(ws[0])), ws[1..]))
  }

  /** The rebuilt suffix is never longer than the original, and is the original exactly when an underscore comes back
      before every word. */
  lemma {:induction false} ResnakedIff(prev: Option<char>, ws: seq<string>)
    ensures |Resnaked(prev, ws)| <= |Suffixed(ws)|
    ensures prev.None? && ws != [] ==> |Resnaked(prev, ws)| < |Suffixed(ws)|
    ensures Resnaked(prev, ws) == Suffixed(ws) <==> AllMarked(prev, ws)
    ensures Resnaked(prev, ws) == Suffixed(ws) <==> |Resnaked(prev, ws)| == |Suffixed(ws)|
    decreases |ws|
  {
    if ws != [] {
      var w, rest := ws[0], ws[1..];
      Join("_", w, Suffixed(rest));
      if w == "" {
        ResnakedIff(prev, rest);
      } else {
        ResnakedIff(Some(LastOf(w)), rest);
        SameHead(w, Resnaked(Some(LastOf(w)), rest), Suffixed(rest));
        SameHead("_", w + Resnaked(Some(LastOf(w)), rest), w + Suffixed(rest));
      }
    }
  }

  lemma SameHead(a: string, b: string, c: string)
    ensures a + b == a + c <==> b == c
  {
    if a + b == a + c {
      assert (a + b)[|a|..] == b && (a + c)[|a|..] == c;
    }
  }

  /** What two neighbouring words need for the underscore between them to survive: the second starts with a letter,
      and the first, of two characters or more, ends in one, or the second has one as its second character. */
  predicate Linked(u: string, v: string) {
    u != "" && v != "" && IsLower(v[0])
    && ((|u| >= 2 && IsLower(u[|u| - 1])) || (|v| >= 2 && IsLower(v[1])))
  }

  ghost predicate AllLinked(ws: seq<string>) {
    forall i :: 0 <= i < |ws| - 1 ==> Linked(ws[i], ws[i + 1])
  }

  lemma LinkedIsMarked(u: string, v: string)
    requires u != "" && IsWord(u)
    ensures Linked(u, v) <==> Marked(Some(LastOf(u)), v)
  {
  }

  lemma AllLinkedTail(ws: seq<string>)
    requires |ws| >= 2
    ensures AllLinked(ws) <==> Linked(ws[0], ws[1]) && AllLinked(ws[1..])
  {
    var rest := ws[1..];
    if Linked(ws[0], ws[1]) && AllLinked(rest) {
      forall i | 0 <= i < |ws| - 1 ensures Linked(ws[i], ws[i + 1]) {
        if i > 0 { assert rest[i - 1] == ws[i] && rest[i] == ws[i + 1]; }
      }
    }
    if AllLinked(ws) {
      forall i | 0 <= i < |rest| - 1 ensures Linked(rest[i], rest[i + 1]) {
        assert rest[i] == ws[i + 1] && rest[i + 1] == ws[i + 2];
      }
    }
  }

  lemma {:induction false} ChainIff(ws: seq<string>)
    requires AreWords(ws) && ws != [] && ws[0] != ""
    ensures AllMarked(Some(LastOf(ws[0])), ws[1..]) <==> AllLinked(ws)
  {
    if |ws| >= 2 {
      AllLinkedTail(ws);
      LinkedIsMarked(ws[0], ws[1]);
      if ws[1] != "" { ChainIff(ws[1..]); }
    }
  }

  /** What comes back, and that its length tells whether it is the name one started from. */
  lemma PascalOfSnake(ws: seq<string>)
    requires ws != [] && AreWords(ws)
    ensures PascalToSnake(SnakeToPascal(SnakeName(ws))) == Resnaked(None, ws)
    ensures Resnaked(None, ws) == SnakeName(ws) <==> |Resnaked(None, ws)| == |SnakeName(ws)|
    ensures Resnaked(None, ws) == SnakeName(ws) <==> AllLinked(ws)
  {
    var w, rest := ws[0], ws[1..];
    ConvertedNames(ws);
    SnakeOfCapitalised(None, ws);
    if w == "" {
      ResnakedIff(None, rest);
      NothingAdded(Suffixed(rest));
    } else {
      ResnakedIff(Some(LastOf(w)), rest);
      NothingAdded(w + Resnaked(Some(LastOf(w)), rest));
      SameHead(w, Resnaked(Some(LastOf(w)), rest), Suffixed(rest));
      ChainIff(ws);
    }
  }

  /** `pascal_to_snake` undoes `snake_to_pascal` on a name without capitals exactly when all neighbouring words are
      linked. */
  lemma PascalRoundTripIff(ws: seq<string>)
    requires ws != [] && AreWords(ws)
    ensures PascalToSnake(SnakeToPascal(SnakeName(ws))) == SnakeName(ws) <==> AllLinked(ws)
  {
    PascalOfSnake(ws);
  }

  /** For camel case the first word keeps its small letter, so one character of it is enough. */
  predicate CamelLinked(u: string, v: string) {
    u != "" && v != "" && IsLower(v[0]) && (IsLower(u[|u| - 1]) || (|v| >= 2 && IsLower(v[1])))
  }

  /** The camel version asks this of the first two words, and the same as before from the second word on. */
  lemma CamelRoundTripIff(ws: seq<string>)
    requires ws != [] && AreWords(ws)
    ensures PascalToSnake(SnakeToCamel(SnakeName(ws))) == SnakeName(ws) <==>
      |ws| == 1 || (CamelLinked(ws[0], ws[1]) && AllLinked(ws[1..]))
  {
    var w, rest := ws[0], ws[1..];
    var prev := if w == "" then None else Some(w[|w| - 1]);
    ConvertedNames(ws);
    SnakeLowers(None, w, AllCapitalised(rest));
    SnakeOfCapitalised(prev, rest);
    ResnakedIff(prev, rest);
    SameHead(w, Resnaked(prev, rest), Suffixed(rest));
    if |ws| >= 2 {
      assert Marked(prev, rest[0]) <==> CamelLinked(w, rest[0]);
      if rest[0] != "" { ChainIff(rest); }
    }
  }

  /** Nonempty words of letters only. */
  ghost predicate AreLetterWords(ws: seq<string>) {
    forall i :: 0 <= i < |ws| ==> ws[i] != "" && forall j :: 0 <= j < |ws[i]| ==> IsLower(ws[i][j])
  }

  /** For those, the Pascal round trip is the identity exactly when no two adjacent words are both one letter long,
      and the camel one needs this only from the second word on. */
  lemma LetterRoundTrips(ws: seq<string>)
    requires ws != [] && AreLetterWords(ws)
    ensures PascalToSnake(SnakeToPascal(SnakeName(ws))) == SnakeName(ws) <==>
      forall i :: 0 <= i < |ws| - 1 ==> |ws[i]| >= 2 || |ws[i + 1]| >= 2
    ensures PascalToSnake(SnakeToCamel(SnakeName(ws))) == SnakeName(ws) <==>
      forall i :: 1 <= i < |ws| - 1 ==> |ws[i]| >= 2 || |ws[i + 1]| >= 2
  {
    hide PascalToSnake, SnakeToPascal, SnakeToCamel, SnakeName;
    PascalRoundTripIff(ws);
    CamelRoundTripIff(ws);
    assert forall i :: 0 <= i < |ws| - 1 ==> (Linked(ws[i], ws[i + 1]) <==> |ws[i]| >= 2 || |ws[i + 1]| >= 2);
    if |ws| >= 2 {
      var rest := ws[1..];
      assert forall i :: 1 <= i < |ws| - 1 ==> rest[i - 1] == ws[i] && rest[i] == ws[i + 1];
      if AllLinked(rest) {
        forall i | 1 <= i < |ws| - 1 ensures Linked(ws[i], ws[i + 1]) {
          assert Linked(rest[i - 1], rest[i]);
        }
      }
      if forall i :: 1 <= i < |ws| - 1 ==> Linked(ws[i], ws[i + 1]) {
        forall i | 0 <= i < |rest| - 1 ensures Linked(rest[i], rest[i + 1]) {
          assert Linked(ws[i + 1], ws[i + 2]);
        }
      }
    }
  }

  // ---------------------------------------------------------------------------------------------
  // Shape of pascal_to_snake's output
  // ---------------------------------------------------------------------------------------------

  predicate NoCapitals(s: string) {
    forall i :: 0 <= i < |s| ==> !IsUpper(s[i])
  }

  function WithoutUnderscores(s: string): string {
    if s == "" then "" else (if s[0] == '_' then "" else [s[0]]) + WithoutUnderscores(s[1..])
  }

  lemma {:induction false} ErasureJoins(a: string, b: string)
    ensures WithoutUnderscores(a + b) == WithoutUnderscores(a) + WithoutUnderscores(b)
  {
    if a == "" {
      NothingAdded(b);
      NothingAdded(WithoutUnderscores(b));
    } else {
      ErasureJoins(a[1..], b);
      HeadAndTail(a);
      Join([a[0]], a[1..], b);
      DropHead(a[0], a[1..] + b);
      Join(if a[0] == '_' then "" else [a[0]], WithoutUnderscores(a[1..]), WithoutUnderscores(b));
    }
  }

  /** The output has no capitals, and differs from the lower-cased input in underscores only. */
  lemma {:induction false} SnakeShape(prev: Option<char>, s: string)
    ensures NoCapitals(SnakeAfter(prev, s))
    ensures WithoutUnderscores(SnakeAfter(prev, s)) == WithoutUnderscores(Lowercase(s))
    decreases |s|
  {
    if s != "" {
      var rest := SnakeAfter(Some(s[0]), s[1..]);
      SnakeShape(Some(s[0]), s[1..]);
      assert Lowercase(s) == [ToLower(s[0])] + Lowercase(s[1..]);
      ErasureJoins([ToLower(s[0])], Lowercase(s[1..]));
      if IsBoundary(prev, s[0], s[1..]) {
        ErasureJoins("_" + [ToLower(s[0])], rest);
        ErasureJoins("_", [ToLower(s[0])]);
        assert WithoutUnderscores("_") == "";
      } else {
        assert "" + [ToLower(s[0])] == [ToLower(s[0])];
        ErasureJoins([ToLower(s[0])], rest);
      }
    }
  }

  function CountLower(s: string): nat {
    if s == "" then 0 else (if IsLower(s[0]) then 1 else 0) + CountLower(s[1..])
  }

  function CountUpper(s: string): nat {
    if s == "" then 0 else (if IsUpper(s[0]) then 1 else 0) + CountUpper(s[1..])
  }

  lemma {:induction false} LettersFit(s: string)
    ensures CountLower(s) + CountUpper(s) <= |s|
  {
    if s != "" { LettersFit(s[1..]); }
  }

  function PrevLower(prev: Option<char>): nat {
    if prev.Some? && IsLower(prev.value) then 1 else 0
  }

  /** Each capital gets at most one underscore, and each lower-case letter pays for at most two. */
  lemma {:induction false} UnderscoresArePaidFor(prev: Option<char>, s: string)
    ensures |s| <= |SnakeAfter(prev, s)| <= |s| + CountUpper(s)
    ensures |SnakeAfter(prev, s)| - |s| <= 2 * CountLower(s) + PrevLower(prev)
    ensures NextIsLower(s) ==> |SnakeAfter(prev, s)| - |s| <= 2 * CountLower(s) - 1
    decreases |s|
  {
    if s != "" {
      UnderscoresArePaidFor(Some(s[0]), s[1..]);
    }
  }

  /** k underscores on n bytes: 3k is at most 2n. */
  lemma FewUnderscores(name: string)
    ensures 3 * (|PascalToSnake(name)| - |name|) <= 2 * |name|
  {
    UnderscoresArePaidFor(None, name);
    LettersFit(name);
  }

  // ---------------------------------------------------------------------------------------------
  // rename_all
  // ---------------------------------------------------------------------------------------------

  datatype RenameAll = SnakeCase | ScreamingSnakeCase | LowerCase | UpperCase | PascalCase | CamelCase | KebabCase

  function Dash(c: char): char {
    if c == '_' then '-' else c
  }

  /** For PascalCase variant names. */
  function Apply(rule: RenameAll, name: string): string {
    match rule
    case SnakeCase => PascalToSnake(name)
    case ScreamingSnakeCase => Uppercase(PascalToSnake(name))
    case LowerCase => Lowercase(name)
    case UpperCase => Uppercase(name)
    case PascalCase => name
    case CamelCase => PascalToCamel(name)
    case KebabCase => MapChars(Dash, PascalToSnake(name))
  }

  /** For snake_case field names. */
  function ApplyToField(rule: RenameAll, name: string): string {
    match rule
    case SnakeCase => name
    case ScreamingSnakeCase => Uppercase(name)
    case LowerCase => Lowercase(name)
    case UpperCase => Uppercase(name)
    case PascalCase => SnakeToPascal(name)
    case CamelCase => SnakeToCamel(name)
    case KebabCase => MapChars(Dash, name)
  }

  /** The words without anything between them. */
  function Joined(ws: seq<string>): string {
    if ws == [] then "" else ws[0] + Joined(ws[1..])
  }

  /** The words with a separator between them. */
  function Separated(separator: char, ws: seq<string>): string {
    if ws == [] then "" else if |ws| == 1 then ws[0] else ws[0] + ([separator] + Separated(separator, ws[1..]))
  }

  /** Every word in capitals. */
  function Capitals(ws: seq<string>): seq<string> {
    if ws == [] then [] else [Uppercase(ws[0])] + Capitals(ws[1..])
  }

  lemma {:induction false} SnakeIsSeparated(ws: seq<string>)
    requires ws != []
    ensures SnakeName(ws) == Separated('_', ws)
  {
    var rest := ws[1..];
    if rest == [] {
      NothingAdded(ws[0]);
    } else {
      SnakeIsSeparated(rest);
      Join("_", rest[0], Suffixed(rest[1..]));
    }
  }

  lemma MapJoins(f: char -> char, a: string, b: string)
    ensures MapChars(f, a + b) == MapChars(f, a) + MapChars(f, b)
  {
  }

  lemma MapWord(f: char -> char, w: string)
    requires forall i :: 0 <= i < |w| ==> f(w[i]) == w[i]
    ensures MapChars(f, w) == w
  {
  }

  lemma {:induction false} DashesBetween(ws: seq<string>)
    requires AreWords(ws)
    ensures MapChars(Dash, Separated('_', ws)) == Separated('-', ws)
  {
    hide MapChars;
    if ws != [] {
      MapWord(Dash, ws[0]);
      if |ws| > 1 {
        var rest := Separated('_', ws[1..]);
        DashesBetween(ws[1..]);
        MapJoins(Dash, ws[0], "_" + rest);
        MapJoins(Dash, "_", rest);
        assert MapChars(Dash, "_") == "-";
      }
    }
  }

  lemma {:induction false} CapitalsBetween(ws: seq<string>)
    ensures MapChars(ToUpper, Separated('_', ws)) == Separated('_', Capitals(ws))
  {
    hide MapChars;
    if ws != [] {
      DropHead(Uppercase(ws[0]), Capitals(ws[1..]));
      if |ws| > 1 {
        var rest := Separated('_', ws[1..]);
        CapitalsBetween(ws[1..]);
        MapJoins(ToUpper, ws[0], "_" + rest);
        MapJoins(ToUpper, "_", rest);
        assert MapChars(ToUpper, "_") == "_";
      } else {
        assert Capitals(ws[1..]) == [];
      }
    }
  }

  lemma {:induction false} SmallWords(ws: seq<string>)
    requires AreWords(ws)
    ensures MapChars(ToLower, Separated('_', ws)) == Separated('_', ws)
    ensures MapChars(ToLower, AllCapitalised(ws)) == Joined(ws)
    ensures MapChars(ToUpper, AllCapitalised(ws)) == MapChars(ToUpper, Joined(ws))
  {
    hide MapChars;
    if ws == [] {
      assert MapChars(ToLower, "") == "";
    } else {
      var rest := ws[1..];
      SmallWords(rest);
      MapWord(ToLower, ws[0]);
      SameLetters(ws[0]);
      MapJoins(ToLower, Capitalised(ws[0]), AllCapitalised(rest));
      MapJoins(ToUpper, Capitalised(ws[0]), AllCapitalised(rest));
      MapJoins(ToUpper, ws[0], Joined(rest));
      if |ws| > 1 {
        MapJoins(ToLower, ws[0], "_" + Separated('_', rest));
        MapJoins(ToLower, "_", Separated('_', rest));
        assert MapChars(ToLower, "_") == "_";
      }
    }
  }

  /** What each rule makes of a field name, in terms of its words. */
  lemma FieldNames(rule: RenameAll, ws: seq<string>)
    requires ws != [] && AreWords(ws)
    ensures ApplyToField(rule, Separated('_', ws)) ==
      match rule
      case SnakeCase => Separated('_', ws)
      case ScreamingSnakeCase => Separated('_', Capitals(ws))
      case LowerCase => Separated('_', ws)
      case UpperCase => Separated('_', Capitals(ws))
      case PascalCase => AllCapitalised(ws)
      case CamelCase => ws[0] + AllCapitalised(ws[1..])
      case KebabCase => Separated('-', ws)
  {
    hide Separated, AllCapitalised, MapChars, Capitals, SnakeName, SnakeToPascal, SnakeToCamel, AreWords;
    SnakeIsSeparated(ws);
    ConvertedNames(ws);
    DashesBetween(ws);
    CapitalsBetween(ws);
    SmallWords(ws);
  }

  /** And of the variant name of linked words. */
  lemma VariantNames(rule: RenameAll, ws: seq<string>)
    requires ws != [] && AreWords(ws) && AllLinked(ws)
    ensures Apply(rule, AllCapitalised(ws)) ==
      match rule
      case SnakeCase => Separated('_', ws)
      case ScreamingSnakeCase => Separated('_', Capitals(ws))
      case LowerCase => Joined(ws)
      case UpperCase => Uppercase(Joined(ws))
      case PascalCase => AllCapitalised(ws)
      case CamelCase => ws[0] + AllCapitalised(ws[1..])
      case KebabCase => Separated('-', ws)
  {
    assert ws[0] != "" || |ws| == 1 by {
      if |ws| > 1 { assert Linked(ws[0], ws[1]); }
    }
    assert |ws| == 1 && ws[0] == "" ==> Joined(ws) == "";
    hide Separated, AllCapitalised, MapChars, Capitals, SnakeName, SnakeToPascal, SnakeToCamel, AreWords, AllLinked;
    hide PascalToSnake, PascalToCamel, Joined, Resnaked;
    SnakeIsSeparated(ws);
    ConvertedNames(ws);
    PascalOfSnake(ws);
    CamelOfPascal(ws);
    DashesBetween(ws);
    CapitalsBetween(ws);
    SmallWords(ws);
  }

  lemma {:induction false} UnderscoresBetweenWords(ws: seq<string>)
    ensures |Suffixed(ws)| == |Joined(ws)| + |ws| && |AllCapitalised(ws)| == |Joined(ws)|
  {
    if ws != [] { UnderscoresBetweenWords(ws[1..]); }
  }

  lemma SameLengthIffSingle(ws: seq<string>)
    requires ws != []
    ensures |SnakeName(ws)| == |AllCapitalised(ws)| <==> |ws| == 1
  {
    UnderscoresBetweenWords(ws[1..]);
  }

  lemma MapSameLength(f: char -> char, a: string, b: string)
    ensures a == b ==> MapChars(f, a) == MapChars(f, b)
    ensures MapChars(f, a) == MapChars(f, b) ==> |a| == |b|
  {
    assert |MapChars(f, a)| == |a| && |MapChars(f, b)| == |b|;
  }

  lemma SameMapped(f: char -> char, a: string, b: string)
    requires |a| == |b| && forall i :: 0 <= i < |a| ==> f(a[i]) == f(b[i])
    ensures MapChars(f, a) == MapChars(f, b)
  {
    assert forall i :: 0 <= i < |a| ==> MapChars(f, a)[i] == MapChars(f, b)[i];
  }

  lemma SameLetters(w: string)
    requires IsWord(w)
    ensures Lowercase(w) == Lowercase(Capitalised(w)) && Uppercase(w) == Uppercase(Capitalised(w))
  {
    hide MapChars;
    if w != "" {
      var c := Capitalised(w);
      assert |c| == |w| && c[0] == ToUpper(w[0]);
      forall i | 1 <= i < |w| ensures c[i] == w[i] { assert w[1..][i - 1] == w[i]; }
      SameMapped(ToLower, w, c);
      SameMapped(ToUpper, w, c);
    }
  }

  lemma SingleWord(ws: seq<string>)
    requires |ws| == 1 && AreWords(ws)
    ensures Lowercase(SnakeName(ws)) == Lowercase(AllCapitalised(ws))
    ensures Uppercase(SnakeName(ws)) == Uppercase(AllCapitalised(ws))
  {
    hide MapChars, Capitalised;
    NothingAdded(ws[0]);
    NothingAdded(Capitalised(ws[0]));
    assert Suffixed(ws[1..]) == "" && AllCapitalised(ws[1..]) == "";
    SameLetters(ws[0]);
  }

  lemma {:induction false} FirstCapitalised(ws: seq<string>)
    requires AreWords(ws)
    ensures |AllCapitalised(ws)| == |Joined(ws)|
    ensures Joined(ws) != "" ==>
      AllCapitalised(ws)[0] == ToUpper(Joined(ws)[0]) && !IsUpper(Joined(ws)[0])
  {
    if ws != [] {
      FirstCapitalised(ws[1..]);
      NothingAdded(Joined(ws[1..]));
      NothingAdded(AllCapitalised(ws[1..]));
    }
  }

  /** Camel case by way of Pascal case differs from camel case at once only for a letter after leading underscores. */
  lemma CamelOfPascal(ws: seq<string>)
    requires ws != [] && AreWords(ws)
    ensures PascalToCamel(AllCapitalised(ws)) == ws[0] + AllCapitalised(ws[1..]) <==>
      ws[0] != "" || !NextIsLower(Joined(ws))
  {
    var w, rest := ws[0], AllCapitalised(ws[1..]);
    if w == "" {
      NothingAdded(rest);
      FirstCapitalised(ws);
      if rest != "" { HeadAndTail(rest); }
    } else {
      Join([ToUpper(w[0])], w[1..], rest);
      DropHead(ToUpper(w[0]), w[1..] + rest);
      HeadAndTail(w);
      Join([w[0]], w[1..], rest);
    }
  }

  /** For each rule, when a field name converts as the variant name of the same words does. The documentation promises
      it for all rules but the Pascal and camel ones. In fact lower and upper case agree on single words only, snake,
      screaming snake and kebab case exactly where the Pascal round trip is the identity, Pascal case always, and camel
      case unless a letter follows leading underscores. */
  lemma FieldAndVariantAgreeIff(rule: RenameAll, ws: seq<string>)
    requires ws != [] && AreWords(ws)
    ensures ApplyToField(rule, SnakeName(ws)) == Apply(rule, SnakeToPascal(SnakeName(ws))) <==>
      match rule
      case PascalCase => true
      case CamelCase => ws[0] != "" || !NextIsLower(Joined(ws))
      case LowerCase => |ws| == 1
      case UpperCase => |ws| == 1
      case _ => AllLinked(ws)
  {
    hide PascalToSnake, SnakeToPascal, SnakeToCamel, SnakeName, AllCapitalised, MapChars, Joined, Resnaked, AllLinked;
    hide PascalToCamel;
    var snake := SnakeName(ws);
    var pascal := SnakeToPascal(snake);
    ConvertedNames(ws);
    PascalOfSnake(ws);
    MapSameLength(ToUpper, snake, PascalToSnake(pascal));
    MapSameLength(Dash, snake, PascalToSnake(pascal));
    MapSameLength(ToLower, snake, pascal);
    MapSameLength(ToUpper, snake, pascal);
    SameLengthIffSingle(ws);
    if |ws| == 1 { SingleWord(ws); }
    CamelOfPascal(ws);
  }

  /** Inputs on which the documented agreement fails: two words in lower case, and two one-letter words or a word that
      ends in a digit before a one-letter word in snake case. */
  lemma FieldAndVariantCanDisagree()
    ensures var snake := SnakeName(["engine", "type"]);
      ApplyToField(LowerCase, snake) != Apply(LowerCase, SnakeToPascal(snake))
    ensures var snake := SnakeName(["a", "b"]);
      ApplyToField(SnakeCase, snake) != Apply(SnakeCase, SnakeToPascal(snake))
    ensures var snake := SnakeName(["line1", "b"]);
      ApplyToField(SnakeCase, snake) != Apply(SnakeCase, SnakeToPascal(snake))
  {
    FieldAndVariantAgreeIff(LowerCase, ["engine", "type"]);
    FieldAndVariantAgreeIff(SnakeCase, ["a", "b"]);
    assert !Linked(["a", "b"][0], ["a", "b"][1]);
    FieldAndVariantAgreeIff(SnakeCase, ["line1", "b"]);
    assert !Linked(["line1", "b"][0], ["line1", "b"][1]);
  }

  lemma {:induction false} NoCapitalsNoChange(prev: Option<char>, s: string)
    requires NoCapitals(s)
    ensures SnakeAfter(prev, s) == s
    decreases |s|
  {
    if s != "" {
      NoCapitalsNoChange(Some(s[0]), s[1..]);
      assert "" + [s[0]] == [s[0]];
      HeadAndTail(s);
    }
  }

  predicate IsNeutral(rule: RenameAll) {
    !rule.PascalCase? && !rule.CamelCase?
  }

  /** The five rules that the documentation calls neutral to the boundary style agree on a name exactly when it has
      no capitals. */
  lemma NeutralRulesAgreeIff(name: string)
    ensures NoCapitals(name) <==>
      forall rule: RenameAll :: IsNeutral(rule) ==> Apply(rule, name) == ApplyToField(rule, name)
  {
    if NoCapitals(name) {
      NoCapitalsNoChange(None, name);
    }
    SnakeShape(None, name);
    if forall rule: RenameAll :: IsNeutral(rule) ==> Apply(rule, name) == ApplyToField(rule, name) {
      assert Apply(SnakeCase, name) == ApplyToField(SnakeCase, name);
    }
  }
}
