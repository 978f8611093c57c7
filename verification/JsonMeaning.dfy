/** What RFC 8259 means by a text, and exactly when the reader returns that. Strings are sequences of characters:
    raw bytes are UTF-8, and an escaped surrogate counts together with its partner. */
module JsonMeaning {
  import opened Outcomes
  import opened Concatenation
  import opened Json
  import opened JsonParser
  import opened JsonSyntax
  import opened JsonLanguage
  import opened JsonStandard
  import opened JsonReadings

  // ---------------------------------------------------------------------------------------------
  // The characters of a string
  // ---------------------------------------------------------------------------------------------

  /** The first character of a string, and how many units it takes up. */
  datatype Decoded = Decoded(c: char, width: nat)

  predicate IsScalar(cp: int) {
    0 <= cp < 0xD800 || 0xE000 <= cp < 0x11_0000
  }

  /** The payload of a UTF-8 continuation byte. */
  function Continuation(u: Unit): Option<nat> {
    if u.Raw? && 0x80 <= u.b < 0xC0 then Some(u.b - 0x80) else None
  }

  /** The payloads of n continuation bytes after the first unit, put behind `high`. */
  function Continued(us: seq<Unit>, n: nat, high: nat): Option<nat>
    requires n < |us|
  {
    if n == 0 then Some(high)
    else match Continued(us, n - 1, high)
      case None => None
      case Some(cp) =>
        match Continuation(us[n])
        case None => None
        case Some(low) => Some(cp * 64 + low)
  }

  /** A sequence of n + 1 bytes, for a code point of at least `least`. */
  function Sequence(us: seq<Unit>, n: nat, high: nat, least: nat): Option<Decoded> {
    if n >= |us| then None
    else match Continued(us, n, high)
      case None => None
      case Some(cp) => if cp >= least && IsScalar(cp) then Some(Decoded(cp as char, n + 1)) else None
  }

  /** Section 3 of RFC 3629: the length is in the lead byte, overlong forms and surrogates are ill-formed. */
  function Utf8(us: seq<Unit>): Option<Decoded>
    requires us != [] && us[0].Raw?
  {
    var b := us[0].b;
    if b < 0x80 then Some(Decoded(b as char, 1))
    else if 0xC0 <= b < 0xE0 then Sequence(us, 1, b - 0xC0, 0x80)
    else if 0xE0 <= b < 0xF0 then Sequence(us, 2, b - 0xE0, 0x800)
    else if 0xF0 <= b < 0xF8 then Sequence(us, 3, b - 0xF0, 0x1_0000)
    else None
  }

  /** The value of a hexadecimal digit, in either case. */
  function HexValue(b: Byte): Option<nat> {
    if 0x30 <= b <= 0x39 then Some(b - 0x30)
    else if 0x41 <= b <= 0x46 then Some(b - 0x37)
    else if 0x61 <= b <= 0x66 then Some(b - 0x57)
    else None
  }

  /** The number that four hexadecimal digits write, the first counting 4096. */
  function CodeUnit(u: Unit): Option<nat> {
    if u.Unicode? && |u.hex| == 4 && forall i :: 0 <= i < 4 ==> HexValue(u.hex[i]).Some?
    then
      var d := (i: nat) requires i < 4 => HexValue(u.hex[i]).value;
      Some(d(0) * 0x1000 + d(1) * 0x100 + d(2) * 0x10 + d(3))
    else None
  }

  /** Section 7 of RFC 8259: the byte after the backslash and the character meant: quotation mark, backslash, slash,
      backspace, form feed, line feed, carriage return, tab. */
  const SHORT_ESCAPES: map<Byte, char> :=
    map[0x22 := 0x22 as char, 0x5C := 0x5C as char, 0x2F := 0x2F as char, 0x62 := 0x08 as char,
        0x66 := 0x0C as char, 0x6E := 0x0A as char, 0x72 := 0x0D as char, 0x74 := 0x09 as char]

  lemma ShortEscapesAreRead(b: Byte)
    ensures ShortEscape(b) == if b in SHORT_ESCAPES then Some(SHORT_ESCAPES[b]) else None
  {
  }

  /** Section 7 of RFC 8259: four digits are a code unit, and a high surrogate needs a low one after it. */
  function Utf16(us: seq<Unit>): Option<Decoded>
    requires us != []
  {
    match CodeUnit(us[0])
    case None => None
    case Some(high) =>
      if IsScalar(high) then Some(Decoded(high as char, 1))
      else if high >= 0xDC00 || |us| < 2 then None
      else match CodeUnit(us[1])
        case None => None
        case Some(low) =>
          if 0xDC00 <= low < 0xE000
          then Some(Decoded((0x1_0000 + (high - 0xD800) * 0x400 + (low - 0xDC00)) as char, 2)) else None
  }

  function FirstCharacter(us: seq<Unit>): (d: Option<Decoded>)
    requires us != []
    ensures d.Some? ==> 1 <= d.value.width <= |us|
  {
    match us[0]
    case Raw(_) => Utf8(us)
    case Short(b) => if b in SHORT_ESCAPES then Some(Decoded(SHORT_ESCAPES[b], 1)) else None
    case Unicode(_) => Utf16(us)
  }

  /** The characters of a string; None when it is ill-formed. */
  function Characters(us: seq<Unit>): Option<string>
    decreases |us|
  {
    if us == [] then Some("")
    else match FirstCharacter(us)
      case None => None
      case Some(d) =>
        match Characters(us[d.width..])
        case None => None
        case Some(more) => Some([d.c] + more)
  }

  /** An ASCII byte, or an escape of anything but a surrogate. */
  predicate PlainUnit(u: Unit) {
    match u
    case Raw(b) => b < 0x80
    case Short(_) => true
    case Unicode(_) => CodeUnit(u).Some? ==> IsScalar(CodeUnit(u).value)
  }

  predicate PlainUnits(us: seq<Unit>) {
    forall i :: 0 <= i < |us| ==> PlainUnit(us[i])
  }

  lemma {:induction false} TextJoins(a: seq<Unit>, b: seq<Unit>)
    requires AllUnits(a) && AllUnits(b)
    ensures AllUnits(a + b) && Text(a + b) == Text(a) + Text(b)
  {
    if a == [] {
      NothingAdded(b);
      NothingAdded(Text(b));
    } else {
      TextJoins(a[1..], b);
      HeadAndTail(a);
      Join([a[0]], a[1..], b);
      DropHead(a[0], a[1..] + b);
      Join(UnitText(a[0]), Text(a[1..]), Text(b));
    }
  }

  lemma {:induction false} ContinuedAreRaw(us: seq<Unit>, n: nat, high: nat)
    requires n < |us| && us[0].Raw? && Continued(us, n, high).Some?
    ensures forall i :: 0 <= i <= n ==> us[i].Raw?
  {
    if n > 0 { ContinuedAreRaw(us, n - 1, high); }
  }

  lemma {:induction false} RawLength(us: seq<Unit>)
    requires AllUnits(us) && forall i :: 0 <= i < |us| ==> us[i].Raw?
    ensures |Text(us)| == |us|
  {
    if us != [] { RawLength(us[1..]); }
  }

  lemma HexValuesAreRead(h: seq<Byte>)
    requires |h| == 4 && FourHex(h).Some? && forall i :: 0 <= i < 4 ==> HexValue(h[i]).Some?
    ensures CodeUnit(Unicode(h)) == FourHex(h)
  {
    forall b: Byte ensures HexValue(b) == HexDigit(b) {}
    assert h[..3][..2] == h[..2] && h[..3][..2][..1] == h[..1] && h[..1][..0] == [];
    assert HexDigits([]) == Some(0);
    assert HexDigits(h[..1]) == HexDigit(h[0]);
    assert HexDigits(h[..2]) == Some(HexDigit(h[0]).value * 16 + HexDigit(h[1]).value);
    assert HexDigits(h[..3]) == Some((HexDigit(h[0]).value * 16 + HexDigit(h[1]).value) * 16 + HexDigit(h[2]).value);
  }

  /** The first character is one unit that the reader takes as it is; or the reader takes it for more characters
      than one; or it lies beyond the basic plane. */
  lemma FirstCharacterRead(us: seq<Unit>)
    requires us != [] && AllUnits(us) && FirstCharacter(us).Some?
    ensures PlainUnit(us[0]) ==> FirstCharacter(us).value.width == 1 && UnitText(us[0]) == [FirstCharacter(us).value.c]
    ensures PlainUnit(us[0]) || FirstCharacter(us).value.c as int >= 0x1_0000
      || |Text(us[..FirstCharacter(us).value.width])| > 1
  {
    var d := FirstCharacter(us).value;
    match us[0] {
      case Raw(_) =>
      case Short(b) => ShortEscapesAreRead(b);
      case Unicode(hex) => HexValuesAreRead(hex);
    }
    if us[0].Raw? && us[0].b >= 0x80 {
      var n := d.width - 1;
      var high := if us[0].b < 0xE0 then us[0].b - 0xC0 else if us[0].b < 0xF0 then us[0].b - 0xE0 else us[0].b - 0xF0;
      ContinuedAreRaw(us, n, high);
      RawLength(us[..d.width]);
    }
  }

  lemma PlainTail(us: seq<Unit>)
    requires us != []
    ensures PlainUnits(us) <==> PlainUnit(us[0]) && PlainUnits(us[1..])
  {
    HeadAndTail(us);
  }

  /** The reader's text of a well-formed string is its characters if the string is plain; otherwise it is longer than
      they are, unless some of them lie beyond the basic plane. */
  lemma {:induction false} TextAgainstCharacters(us: seq<Unit>)
    requires AllUnits(us) && Characters(us).Some?
    ensures var s := Characters(us).value;
      && (PlainUnits(us) ==> Text(us) == s)
      && (BasicPlane(s) ==> |Text(us)| >= |s| && (!PlainUnits(us) ==> |Text(us)| > |s|))
    decreases |us|
  {
    if us != [] {
      hide FirstCharacter;
      var d := FirstCharacter(us).value;
      var first, rest := us[..d.width], us[d.width..];
      FirstCharacterRead(us);
      TextAgainstCharacters(rest);
      assert us == first + rest;
      TextJoins(first, rest);
      PlainTail(us);
      BasicTail(d.c, Characters(rest).value);
      if PlainUnit(us[0]) {
        assert first[1..] == [];
        NothingAdded(UnitText(us[0]));
        assert Text(first) == UnitText(us[0]);
      }
    }
  }

  lemma BasicTail(c: char, s: string)
    ensures BasicPlane([c] + s) <==> (c as int) < 0x1_0000 && BasicPlane(s)
  {
    DropHead(c, s);
    if BasicPlane([c] + s) {
      forall i | 0 <= i < |s| ensures (s[i] as int) < 0x1_0000 { assert ([c] + s)[i + 1] == s[i]; }
    }
  }

  /** The reader returns the characters of a well-formed string exactly when no byte of it is 0x80 or more and no
      escape is a surrogate. */
  lemma StringReadIff(us: seq<Unit>)
    requires AllUnits(us) && Characters(us).Some?
    ensures Text(us) == Characters(us).value <==> PlainUnits(us)
  {
    TextAgainstCharacters(us);
    TextBasic(us);
  }

  // ---------------------------------------------------------------------------------------------
  // Whole texts
  // ---------------------------------------------------------------------------------------------

  predicate Plain(t: Syntax)
    decreases t
  {
    match t
    case StringText(us) => PlainUnits(us)
    case ArrayText(_, items) => forall i :: 0 <= i < |items| ==> Plain(items[i].value)
    case ObjectText(_, ms) => forall i :: 0 <= i < |ms| ==> PlainUnits(ms[i].key) && Plain(ms[i].value)
    case _ => true
  }

  /** All strings are well-formed, and the keys of each object differ. */
  ghost predicate Meaningful(t: Syntax)
    decreases t
  {
    match t
    case StringText(us) => Characters(us).Some?
    case ArrayText(_, items) => forall i :: 0 <= i < |items| ==> Meaningful(items[i].value)
    case ObjectText(_, ms) =>
      && (forall i :: 0 <= i < |ms| ==> Characters(ms[i].key).Some? && Meaningful(ms[i].value))
      && Distinct(Keys(ms))
    case _ => true
  }

  /** The characters of each key; an ill-formed one has none. */
  function Keys(ms: seq<Member>): (keys: seq<string>)
    ensures |keys| == |ms|
    ensures forall i :: 0 <= i < |ms| ==>
      keys[i] == match Characters(ms[i].key) case Some(s) => s case None => ""
  {
    seq(|ms|, i requires 0 <= i < |ms| => match Characters(ms[i].key) case Some(s) => s case None => "")
  }

  function Position(keys: seq<string>, k: string): (i: nat)
    requires k in keys
    ensures i < |keys| && keys[i] == k
  {
    if keys[0] == k then 0 else Position(keys[1..], k) + 1
  }

  /** The value that the standard gives the text. */
  ghost function Meaning(t: Syntax): JsonValue
    requires Meaningful(t)
    decreases t
  {
    match t
    case NullText => Null
    case BoolText(b) => Bool(b)
    case NumberText(n) => Number(PrintNumeral(n))
    case StringText(us) => String(Characters(us).value)
    case ArrayText(_, items) => Array(seq(|items|, i requires 0 <= i < |items| => Meaning(items[i].value)))
    case ObjectText(_, ms) => Object(map k | k in Keys(ms) :: Meaning(ms[Position(Keys(ms), k)].value))
  }

  lemma ObjectMeaning(inner: seq<Byte>, ms: seq<Member>)
    requires Meaningful(ObjectText(inner, ms))
    ensures var meant := Meaning(ObjectText(inner, ms)).members;
      && (forall k :: k in meant <==> k in Keys(ms))
      && (forall i :: 0 <= i < |ms| ==> Keys(ms)[i] in meant && meant[Keys(ms)[i]] == Meaning(ms[i].value))
  {
    hide Characters;
    var keys := Keys(ms);
    forall i | 0 <= i < |ms| ensures Position(keys, keys[i]) == i {
      assert keys[Position(keys, keys[i])] == keys[i];
    }
  }

  lemma {:induction false} ItemCount(items: seq<Item>)
    requires AreItems(items)
    ensures |ItemValues(items)| == |items|
  {
    if items != [] { ItemCount(items[1..]); }
  }

  lemma {:induction false} ItemAt(items: seq<Item>, i: nat)
    requires AreItems(items) && i < |items|
    ensures IsSyntax(items[i].value) && |ItemValues(items)| == |items|
    ensures ItemValues(items)[i] == Denotes(items[i].value)
  {
    ItemCount(items);
    if i > 0 { ItemAt(items[1..], i - 1); }
  }

  lemma {:induction false} MembersAt(ms: seq<Member>)
    requires AreMembers(ms)
    ensures forall i :: 0 <= i < |ms| ==> AllUnits(ms[i].key) && IsSyntax(ms[i].value)
  {
    if ms != [] {
      MembersAt(ms[1..]);
      assert forall i :: 0 < i < |ms| ==> ms[i] == ms[1..][i - 1];
    }
  }

  /** The keys as the reader takes them. */
  function ReadKeys(ms: seq<Member>): (keys: seq<string>)
    requires AreMembers(ms)
    ensures |keys| == |ms|
  {
    if ms == [] then [] else [Text(ms[0].key)] + ReadKeys(ms[1..])
  }

  lemma {:induction false} ReadKeysAt(ms: seq<Member>)
    requires AreMembers(ms)
    ensures forall i :: 0 <= i < |ms| ==> AllUnits(ms[i].key) && ReadKeys(ms)[i] == Text(ms[i].key)
  {
    if ms != [] {
      ReadKeysAt(ms[1..]);
      assert forall i :: 0 < i < |ms| ==> ms[i] == ms[1..][i - 1];
    }
  }

  lemma {:induction false} CollectKeys(m: map<string, JsonValue>, ms: seq<Member>, k: string)
    requires AreMembers(ms)
    ensures k in Collect(m, ms) <==> k in m || k in ReadKeys(ms)
    ensures k !in ReadKeys(ms) && k in m ==> Collect(m, ms)[k] == m[k]
    decreases |ms|
  {
    if ms != [] {
      CollectKeys(m[Text(ms[0].key) := Denotes(ms[0].value)], ms[1..], k);
    }
  }

  /** No later member has the key of member i. */
  predicate IsLastOfItsKey(ms: seq<Member>, i: nat)
    requires AreMembers(ms)
  {
    i < |ms| && forall j :: i < j < |ms| ==> ReadKeys(ms)[j] != ReadKeys(ms)[i]
  }

  /** Of the members with one key, the last one's value stays. */
  lemma {:induction false} LastOfEqualKeysStays(m: map<string, JsonValue>, ms: seq<Member>, i: nat)
    requires AreMembers(ms) && IsLastOfItsKey(ms, i)
    ensures IsSyntax(ms[i].value) && ReadKeys(ms)[i] in Collect(m, ms)
    ensures Collect(m, ms)[ReadKeys(ms)[i]] == Denotes(ms[i].value)
    decreases |ms|
  {
    hide Text, Collect, ReadKeys, Denotes, IsSyntax;
    FirstKey(m, ms);
    var key, rest := Text(ms[0].key), ms[1..];
    var m' := m[key := Denotes(ms[0].value)];
    if i > 0 {
      assert ms[i] == rest[i - 1];
      forall j | i - 1 < j < |rest| ensures ReadKeys(rest)[j] != ReadKeys(rest)[i - 1] {
        assert ReadKeys(ms)[j + 1] == ReadKeys(rest)[j] && ReadKeys(ms)[i] == ReadKeys(rest)[i - 1];
      }
      LastOfEqualKeysStays(m', rest, i - 1);
    } else {
      forall j | 0 <= j < |rest| ensures ReadKeys(rest)[j] != key { assert ReadKeys(ms)[j + 1] == ReadKeys(rest)[j]; }
      CollectKeys(m', rest, key);
    }
  }

  lemma FirstKey(m: map<string, JsonValue>, ms: seq<Member>)
    requires AreMembers(ms) && ms != []
    ensures AllUnits(ms[0].key) && IsSyntax(ms[0].value) && AreMembers(ms[1..])
    ensures ReadKeys(ms) == [Text(ms[0].key)] + ReadKeys(ms[1..])
    ensures Collect(m, ms) == Collect(m[Text(ms[0].key) := Denotes(ms[0].value)], ms[1..])
  {
  }

  // How two lists with the same elements compare in length.

  lemma {:induction false} CoverIsPermutation(a: seq<string>, b: seq<string>)
    requires |a| <= |b| && Distinct(b) && forall i :: 0 <= i < |b| ==> b[i] in a
    ensures multiset(a) == multiset(b)
    decreases |b|
  {
    if b == [] {
      assert a == [];
    } else {
      var older, last := b[..|b| - 1], b[|b| - 1];
      assert last in multiset(a);
      var left, right := SplitAround(a, last);
      forall i | 0 <= i < |older| ensures older[i] in left + right {
        assert b[i] in a && b[i] != last;
        assert b[i] in multiset(a) - multiset{last};
        assert b[i] in multiset(left + right);
      }
      CoverIsPermutation(left + right, older);
      assert b == older + [last];
    }
  }

  /** Permuted lists, the first of them nowhere shorter, are nowhere longer either. */
  lemma PermutedLengths(a: seq<string>, b: seq<string>)
    requires multiset(a) == multiset(b) && |a| == |b| && forall i :: 0 <= i < |a| ==> |a[i]| >= |b[i]|
    ensures forall i :: 0 <= i < |a| ==> |a[i]| == |b[i]|
  {
    var id := (s: string) => s;
    FlatMapPermuted(a, b, id);
    assert |FlatMap(a, id)| == |multiset(FlatMap(a, id))| == |multiset(FlatMap(b, id))| == |FlatMap(b, id)|;
    TotalsDiffer(a, b, id);
  }

  lemma {:induction false} TotalsDiffer(a: seq<string>, b: seq<string>, id: string -> string)
    requires |a| == |b| && (forall s :: id(s) == s) && forall i :: 0 <= i < |a| ==> |a[i]| >= |b[i]|
    ensures |FlatMap(a, id)| >= |FlatMap(b, id)|
    ensures |FlatMap(a, id)| == |FlatMap(b, id)| ==> forall i :: 0 <= i < |a| ==> |a[i]| == |b[i]|
  {
    if a != [] {
      var n := |a| - 1;
      TotalsDiffer(a[..n], b[..n], id);
      assert forall i :: 0 <= i < n ==> a[..n][i] == a[i] && b[..n][i] == b[i];
    }
  }

  /** If the reader finds the same keys as there are, it finds them plain. */
  lemma SameKeysArePlain(ms: seq<Member>)
    requires AreMembers(ms) && Distinct(Keys(ms))
    requires forall i :: 0 <= i < |ms| ==> Characters(ms[i].key).Some?
    requires forall k :: k in ReadKeys(ms) <==> k in Keys(ms)
    ensures forall i :: 0 <= i < |ms| ==> PlainUnits(ms[i].key)
  {
    var read, keys := ReadKeys(ms), Keys(ms);
    forall i | 0 <= i < |keys| ensures keys[i] in read { assert keys[i] in keys; }
    CoverIsPermutation(read, keys);
    ReadKeysAt(ms);
    forall i | 0 <= i < |ms|
      ensures BasicPlane(keys[i]) && |read[i]| >= |keys[i]| && (!PlainUnits(ms[i].key) ==> |read[i]| > |keys[i]|)
    {
      assert keys[i] in keys && keys[i] in read;
      var j :| 0 <= j < |read| && read[j] == keys[i];
      TextBasic(ms[j].key);
      TextAgainstCharacters(ms[i].key);
    }
    PermutedLengths(read, keys);
  }

  lemma PlainKeysAreRead(ms: seq<Member>)
    requires AreMembers(ms) && forall i :: 0 <= i < |ms| ==> Characters(ms[i].key).Some? && PlainUnits(ms[i].key)
    ensures ReadKeys(ms) == Keys(ms)
  {
    ReadKeysAt(ms);
    forall i | 0 <= i < |ms| ensures ReadKeys(ms)[i] == Keys(ms)[i] {
      TextAgainstCharacters(ms[i].key);
    }
  }

  lemma ReadMembersHaveKeys(ms: seq<Member>)
    requires AreMembers(ms)
    ensures forall k :: k in Collect(map[], ms) <==> k in ReadKeys(ms)
  {
    forall k ensures k in Collect(map[], ms) <==> k in ReadKeys(ms) { CollectKeys(map[], ms, k); }
  }

  lemma PlainMembersAreRead(ms: seq<Member>)
    requires AreMembers(ms) && Distinct(Keys(ms))
    requires forall i :: 0 <= i < |ms| ==> Characters(ms[i].key).Some? && PlainUnits(ms[i].key)
    ensures ReadKeys(ms) == Keys(ms)
    ensures forall i :: 0 <= i < |ms| ==>
      && IsSyntax(ms[i].value) && Keys(ms)[i] in Collect(map[], ms)
      && Collect(map[], ms)[Keys(ms)[i]] == Denotes(ms[i].value)
  {
    hide Characters, PlainUnits, Collect, Denotes;
    PlainKeysAreRead(ms);
    forall i | 0 <= i < |ms|
      ensures IsSyntax(ms[i].value) && Keys(ms)[i] in Collect(map[], ms)
      ensures Collect(map[], ms)[Keys(ms)[i]] == Denotes(ms[i].value)
    {
      LastOfEqualKeysStays(map[], ms, i);
    }
  }

  /** `meant` has the members' characters as keys. */
  lemma MembersReadIff(ms: seq<Member>, meant: map<string, JsonValue>)
    requires AreMembers(ms) && Distinct(Keys(ms)) && forall k :: k in meant <==> k in Keys(ms)
    requires forall i :: 0 <= i < |ms| ==>
      Characters(ms[i].key).Some? && IsSyntax(ms[i].value) && Keys(ms)[i] in meant
    ensures Collect(map[], ms) == meant <==>
      && (forall i :: 0 <= i < |ms| ==> PlainUnits(ms[i].key))
      && (forall i :: 0 <= i < |ms| ==> Denotes(ms[i].value) == meant[Keys(ms)[i]])
  {
    hide Characters, PlainUnits, Collect, Denotes;
    var read := Collect(map[], ms);
    ReadMembersHaveKeys(ms);
    if read == meant {
      SameKeysArePlain(ms);
    }
    if forall i :: 0 <= i < |ms| ==> PlainUnits(ms[i].key) {
      PlainMembersAreRead(ms);
      SameMaps(read, meant, ms);
    }
  }

  lemma ObjectReadIff(inner: seq<Byte>, ms: seq<Member>)
    requires IsSyntax(ObjectText(inner, ms)) && Meaningful(ObjectText(inner, ms))
    requires forall i :: 0 <= i < |ms| ==>
      IsSyntax(ms[i].value) && (Denotes(ms[i].value) == Meaning(ms[i].value) <==> Plain(ms[i].value))
    ensures Denotes(ObjectText(inner, ms)) == Meaning(ObjectText(inner, ms)) <==> Plain(ObjectText(inner, ms))
  {
    ObjectDenotes(inner, ms);
    ObjectMeaning(inner, ms);
    ObjectPlain(inner, ms);
    hide Characters, PlainUnits, Collect, Denotes, Plain, Meaning;
    MembersReadIff(ms, Meaning(ObjectText(inner, ms)).members);
  }

  lemma ObjectPlain(inner: seq<Byte>, ms: seq<Member>)
    ensures Plain(ObjectText(inner, ms)) <==>
      (forall i :: 0 <= i < |ms| ==> PlainUnits(ms[i].key)) && (forall i :: 0 <= i < |ms| ==> Plain(ms[i].value))
  {
    hide PlainUnits;
  }

  lemma ObjectDenotes(inner: seq<Byte>, ms: seq<Member>)
    requires IsSyntax(ObjectText(inner, ms))
    ensures Denotes(ObjectText(inner, ms)) == Object(Collect(map[], ms))
  {
  }

  lemma SameMaps(a: map<string, JsonValue>, b: map<string, JsonValue>, ms: seq<Member>)
    requires forall k :: k in a <==> k in Keys(ms)
    requires forall k :: k in b <==> k in Keys(ms)
    ensures a == b <==> forall i :: 0 <= i < |ms| ==> a[Keys(ms)[i]] == b[Keys(ms)[i]]
  {
    if forall i :: 0 <= i < |ms| ==> a[Keys(ms)[i]] == b[Keys(ms)[i]] {
      forall k | k in a ensures a[k] == b[k] {
        var i :| 0 <= i < |ms| && Keys(ms)[i] == k;
      }
      assert a.Keys == b.Keys;
    }
  }

  /** The reader's value of a meaningful tree is the standard's exactly when the tree is plain. */
  lemma {:induction false} TreeReadIff(t: Syntax)
    requires IsSyntax(t) && Meaningful(t)
    ensures Denotes(t) == Meaning(t) <==> Plain(t)
    decreases t
  {
    match t
    case StringText(us) => StringReadIff(us);
    case ArrayText(inner, items) =>
      ItemCount(items);
      forall i | 0 <= i < |items|
        ensures ItemValues(items)[i] == Meaning(items[i].value) <==> Plain(items[i].value)
      {
        ItemAt(items, i);
        TreeReadIff(items[i].value);
      }
      ArrayReadIff(inner, items);
    case ObjectText(inner, ms) =>
      MembersAt(ms);
      forall i | 0 <= i < |ms|
        ensures IsSyntax(ms[i].value) && (Denotes(ms[i].value) == Meaning(ms[i].value) <==> Plain(ms[i].value))
      {
        TreeReadIff(ms[i].value);
      }
      ObjectReadIff(inner, ms);
    case _ =>
  }

  lemma ArrayReadIff(inner: seq<Byte>, items: seq<Item>)
    requires IsSyntax(ArrayText(inner, items)) && Meaningful(ArrayText(inner, items))
    requires |ItemValues(items)| == |items|
    requires forall i :: 0 <= i < |items| ==>
      (ItemValues(items)[i] == Meaning(items[i].value) <==> Plain(items[i].value))
    ensures Denotes(ArrayText(inner, items)) == Meaning(ArrayText(inner, items)) <==> Plain(ArrayText(inner, items))
  {
    var read, meant := ItemValues(items), Meaning(ArrayText(inner, items)).items;
    assert Denotes(ArrayText(inner, items)) == Array(read);
    assert |meant| == |items| && forall i :: 0 <= i < |items| ==> meant[i] == Meaning(items[i].value);
    if read == meant {
      forall i | 0 <= i < |items| ensures Plain(items[i].value) { assert read[i] == meant[i]; }
    }
  }

  /** A text of the standard whose strings are well-formed and whose keys differ is read as what it means exactly when
      it is plain. */
  lemma StandardTextReadIff(before: seq<Byte>, t: Syntax, after: seq<Byte>)
    requires StandardWs(before) && Standard(t) && StandardWs(after) && Meaningful(t)
    ensures ParseJson(before + (Print(t) + after)) == Ok(Meaning(t)) <==> Plain(t)
  {
    hide ParseJson;
    StandardTextsAreAccepted(before, t, after);
    TreeReadIff(t);
  }

  // ---------------------------------------------------------------------------------------------
  // Two texts that are read as something else
  // ---------------------------------------------------------------------------------------------

  /** The two bytes of an e with an acute accent are read as two characters. */
  lemma AccentIsReadAsTwo()
    ensures Characters([Raw(0xC3), Raw(0xA9)]) == Some([0xE9 as char])
    ensures ParseJson([QUOTE, 0xC3, 0xA9, QUOTE]) == Ok(String([0xC3 as char, 0xA9 as char]))
  {
    hide ParseJson;
    var us := [Raw(0xC3), Raw(0xA9)];
    assert Continued(us, 1, 3) == Some(3 * 64 + 0x29);
    assert us[2..] == [] && us[1..] == [Raw(0xA9)] && us[1..][1..] == [];
    NothingAdded([0xE9 as char]);
    assert Characters(us) == Some([0xE9 as char] + "");
    assert PrintUnits([]) == [QUOTE] && PrintUnits([Raw(0xA9)]) == [0xA9, QUOTE];
    assert Print(StringText(us)) == [QUOTE, 0xC3, 0xA9, QUOTE];
    assert Text([Raw(0xA9)]) == [0xA9 as char];
    assert Text(us) == [0xC3 as char, 0xA9 as char];
    PrintedIsRead(StringText(us));
  }

  const HIGH: seq<Byte> := [0x64, 0x38, 0x33, 0x64]
  const LOW: seq<Byte> := [0x64, 0x65, 0x30, 0x30]

  lemma SurrogateDigits()
    ensures FourHex(HIGH) == Some(0xD83D) && FourHex(LOW) == Some(0xDE00)
    ensures CodeUnit(Unicode(HIGH)) == Some(0xD83D) && CodeUnit(Unicode(LOW)) == Some(0xDE00)
  {
    assert CodeUnit(Unicode(HIGH)) == Some(0xD * 0x1000 + 8 * 0x100 + 3 * 0x10 + 0xD);
    assert CodeUnit(Unicode(LOW)) == Some(0xD * 0x1000 + 0xE * 0x100);
    HexDigitsIff(HIGH);
    HexDigitsIff(LOW);
    HexValuesAreRead(HIGH);
    HexValuesAreRead(LOW);
  }

  lemma PairIsOneCharacter()
    ensures Characters([Unicode(HIGH), Unicode(LOW)]) == Some([0x1_F600 as char])
  {
    hide FourHex;
    SurrogateDigits();
    var us := [Unicode(HIGH), Unicode(LOW)];
    assert CodeUnit(us[0]) == Some(0xD83D) && CodeUnit(us[1]) == Some(0xDE00);
    assert Utf16(us) == Some(Decoded(0x1_F600 as char, 2));
    assert FirstCharacter(us) == Some(Decoded(0x1_F600 as char, 2));
    hide FirstCharacter;
    assert us[2..] == [] && Characters([]) == Some("");
    NothingAdded([0x1_F600 as char]);
  }

  lemma PairPrinted()
    ensures Print(StringText([Unicode(HIGH), Unicode(LOW)]))
            == [QUOTE, BACKSLASH, LOWER_U] + HIGH + [BACKSLASH, LOWER_U] + LOW + [QUOTE]
  {
    var us := [Unicode(HIGH), Unicode(LOW)];
    assert us[1..] == [Unicode(LOW)] && us[1..][1..] == [];
    assert PrintUnits([]) == [QUOTE] && PrintUnits([Unicode(LOW)]) == [BACKSLASH, LOWER_U] + LOW + [QUOTE];
  }

  lemma PairText()
    ensures AllUnits([Unicode(HIGH), Unicode(LOW)]) && Text([Unicode(HIGH), Unicode(LOW)]) == ""
  {
    hide FourHex;
    SurrogateDigits();
    var us := [Unicode(HIGH), Unicode(LOW)];
    assert us[1..] == [Unicode(LOW)] && us[1..][1..] == [];
    assert UnitText(us[0]) == "" && UnitText(us[1]) == "";
    assert Text([Unicode(LOW)]) == "";
  }

  /** The escapes `\ud83d\ude00` are one character and are read as none. */
  lemma PairIsReadAsNothing()
    ensures Characters([Unicode(HIGH), Unicode(LOW)]) == Some([0x1_F600 as char])
    ensures ParseJson([QUOTE, BACKSLASH, LOWER_U] + HIGH + [BACKSLASH, LOWER_U] + LOW + [QUOTE]) == Ok(String(""))
  {
    hide ParseJson, Text, Characters, PrintUnits;
    PairIsOneCharacter();
    PairPrinted();
    PairText();
    PrintedIsRead(StringText([Unicode(HIGH), Unicode(LOW)]));
  }
}
