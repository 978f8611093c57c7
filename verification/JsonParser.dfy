/** The recursive-descent reader: what it computes, as functions of the bytes still to be read, and the
    cursor-moving code. */
module JsonParser {
  import opened Outcomes
  import opened Json

  datatype ParseError =
    | UnexpectedEnd | UnexpectedByte | TrailingBytes
    | ExpectedColon | UnterminatedObject | ExpectedCommaOrBrace
    | UnterminatedArray | ExpectedCommaOrBracket
    | ExpectedQuote | DanglingEscape | ShortUnicodeEscape | BadHex | UnknownEscape | UnterminatedString
    | ExpectedBool | ExpectedNull

  /** A value and the bytes after it. */
  datatype Parsed<+T> = Parsed(value: T, rest: seq<Byte>)

  type Outcome<+T> = Result<Parsed<T>, ParseError>

  // ---------------------------------------------------------------------------------------------
  // Specification functions
  // ---------------------------------------------------------------------------------------------

  function AfterWs(s: seq<Byte>): (r: seq<Byte>)
    ensures |r| <= |s|
  {
    if s != [] && IsWhitespace(s[0]) then AfterWs(s[1..]) else s
  }

  function AfterDigits(s: seq<Byte>): (r: seq<Byte>)
    ensures |r| <= |s|
  {
    if s != [] && IsDigit(s[0]) then AfterDigits(s[1..]) else s
  }

  function AfterMinus(s: seq<Byte>): (r: seq<Byte>)
    ensures |r| <= |s|
  {
    if s != [] && s[0] == MINUS then s[1..] else s
  }

  function AfterFraction(s: seq<Byte>): (r: seq<Byte>)
    ensures |r| <= |s|
  {
    if s != [] && s[0] == DOT then AfterDigits(s[1..]) else s
  }

  function AfterSign(s: seq<Byte>): (r: seq<Byte>)
    ensures |r| <= |s|
  {
    if s != [] && IsSign(s[0]) then s[1..] else s
  }

  function AfterExponent(s: seq<Byte>): (r: seq<Byte>)
    ensures |r| <= |s|
  {
    if s != [] && IsExponentMark(s[0]) then AfterDigits(AfterSign(s[1..])) else s
  }

  function AfterNumber(s: seq<Byte>): (r: seq<Byte>)
    ensures |r| <= |s|
    ensures s != [] && (s[0] == MINUS || IsDigit(s[0])) ==> |r| < |s|
  {
    AfterExponent(AfterFraction(AfterDigits(AfterMinus(s))))
  }

  function NumberAt(s: seq<Byte>): Outcome<JsonValue> {
    var rest := AfterNumber(s);
    Ok(Parsed(Number(s[..|s| - |rest|]), rest))
  }

  function BoolAt(s: seq<Byte>): Outcome<JsonValue> {
    if TRUE_TEXT <= s then Ok(Parsed(Bool(true), s[4..]))
    else if FALSE_TEXT <= s then Ok(Parsed(Bool(false), s[5..]))
    else Err(ExpectedBool)
  }

  function NullAt(s: seq<Byte>): Outcome<JsonValue> {
    if NULL_TEXT <= s then Ok(Parsed(Null, s[4..])) else Err(ExpectedNull)
  }

  /** The text an escape stands for; s starts right after the backslash. */
  function EscapeAt(s: seq<Byte>): (r: Outcome<string>)
    ensures r.Ok? ==> |r.value.rest| < |s|
  {
    if s == [] then Err(DanglingEscape)
    else if s[0] == LOWER_U then
      if |s| <= 4 then Err(ShortUnicodeEscape)
      else match FourHex(s[1..5])
        case None => Err(BadHex)
        case Some(cp) => Ok(Parsed(CharOrNothing(cp), s[5..]))
    else match ShortEscape(s[0])
      case None => Err(UnknownEscape)
      case Some(c) => Ok(Parsed([c], s[1..]))
  }

  /** The rest of a string after its opening quote, `out` being what was read before. A byte of 0x80 or more
      becomes one character of that code. */
  function CharsAt(out: string, s: seq<Byte>): (r: Outcome<string>)
    ensures r.Ok? ==> |r.value.rest| < |s|
    decreases |s|
  {
    if s == [] then Err(UnterminatedString)
    else if s[0] == QUOTE then Ok(Parsed(out, s[1..]))
    else if s[0] == BACKSLASH then
      match EscapeAt(s[1..])
      case Err(e) => Err(e)
      case Ok(p) => CharsAt(out + p.value, p.rest)
    else CharsAt(out + [s[0] as char], s[1..])
  }

  function StringAt(s: seq<Byte>): (r: Outcome<string>)
    ensures r.Ok? ==> |r.value.rest| < |s|
  {
    if s == [] || s[0] != QUOTE then Err(ExpectedQuote) else CharsAt("", s[1..])
  }

  function ValueAt(s: seq<Byte>): (r: Outcome<JsonValue>)
    ensures r.Ok? ==> |r.value.rest| < |s|
    decreases |s|, 1
  {
    var t := AfterWs(s);
    if t == [] then Err(UnexpectedEnd)
    else if t[0] == OPEN_BRACE then ObjectAt(t[1..])
    else if t[0] == OPEN_BRACKET then ArrayAt(t[1..])
    else if t[0] == QUOTE then
      match StringAt(t)
      case Err(e) => Err(e)
      case Ok(p) => Ok(Parsed(String(p.value), p.rest))
    else if t[0] == TRUE_TEXT[0] || t[0] == FALSE_TEXT[0] then BoolAt(t)
    else if t[0] == NULL_TEXT[0] then NullAt(t)
    else if t[0] == MINUS || IsDigit(t[0]) then NumberAt(t)
    else Err(UnexpectedByte)
  }

  /** After the opening brace. */
  function ObjectAt(s: seq<Byte>): (r: Outcome<JsonValue>)
    ensures r.Ok? ==> |r.value.rest| <= |s|
    decreases |s|, 1
  {
    var t := AfterWs(s);
    if t != [] && t[0] == CLOSE_BRACE then Ok(Parsed(Object(map[]), t[1..])) else MembersAt(map[], t)
  }

  /** A member's key and the colon after it. */
  function KeyAt(s: seq<Byte>): (r: Outcome<string>)
    ensures r.Ok? ==> |r.value.rest| < |s|
  {
    match StringAt(AfterWs(s))
    case Err(e) => Err(e)
    case Ok(key) =>
      var t := AfterWs(key.rest);
      if t == [] || t[0] != COLON then Err(ExpectedColon) else Ok(Parsed(key.value, t[1..]))
  }

  /** One more member, then either the closing brace or a comma and the members after it. */
  function MembersAt(m: map<string, JsonValue>, s: seq<Byte>): (r: Outcome<JsonValue>)
    ensures r.Ok? ==> |r.value.rest| <= |s|
    decreases |s|, 0
  {
    match KeyAt(s)
    case Err(e) => Err(e)
    case Ok(key) =>
      match ValueAt(key.rest)
      case Err(e) => Err(e)
      case Ok(p) =>
        var m' := m[key.value := p.value];
        var u := AfterWs(p.rest);
        if u == [] then Err(UnterminatedObject)
        else if u[0] == COMMA then MembersAt(m', u[1..])
        else if u[0] == CLOSE_BRACE then Ok(Parsed(Object(m'), u[1..]))
        else Err(ExpectedCommaOrBrace)
  }

  /** After the opening bracket. */
  function ArrayAt(s: seq<Byte>): (r: Outcome<JsonValue>)
    ensures r.Ok? ==> |r.value.rest| <= |s|
    decreases |s|, 3
  {
    var t := AfterWs(s);
    if t != [] && t[0] == CLOSE_BRACKET then Ok(Parsed(Array([]), t[1..])) else ElementsAt([], t)
  }

  function ElementsAt(out: seq<JsonValue>, s: seq<Byte>): (r: Outcome<JsonValue>)
    ensures r.Ok? ==> |r.value.rest| <= |s|
    decreases |s|, 2
  {
    match ValueAt(s)
    case Err(e) => Err(e)
    case Ok(p) =>
      var u := AfterWs(p.rest);
      if u == [] then Err(UnterminatedArray)
      else if u[0] == COMMA then ElementsAt(out + [p.value], u[1..])
      else if u[0] == CLOSE_BRACKET then Ok(Parsed(Array(out + [p.value]), u[1..]))
      else Err(ExpectedCommaOrBracket)
  }

  /** `parse_json`. */
  function ParseJson(text: seq<Byte>): Result<JsonValue, ParseError> {
    match ValueAt(text)
    case Err(e) => Err(e)
    case Ok(p) => if AfterWs(p.rest) != [] then Err(TrailingBytes) else Ok(p.value)
  }

  // ---------------------------------------------------------------------------------------------
  // The code: a byte slice and a position that only moves forward
  // ---------------------------------------------------------------------------------------------

  /** The cursor's side of an outcome: on success it stands at the first byte not consumed. */
  ghost predicate Agrees<T(!new)>(spec: Outcome<T>, r: Result<T, ParseError>, rest: seq<Byte>) {
    match spec
    case Err(e) => r == Err(e)
    case Ok(p) => r == Ok(p.value) && rest == p.rest
  }

  class Cursor {
    const bytes: seq<Byte>
    var pos: nat

    ghost predicate Valid()
      reads this
    {
      pos <= |bytes|
    }

    ghost function Rest(): seq<Byte>
      requires Valid()
      reads this
    {
      bytes[pos..]
    }

    constructor (text: seq<Byte>)
      ensures Valid() && bytes == text && pos == 0 && Rest() == text
    {
      bytes, pos := text, 0;
    }

    method SkipWs()
      requires Valid()
      modifies this
      ensures Valid() && old(pos) <= pos
      ensures Rest() == AfterWs(old(Rest()))
    {
      while pos < |bytes| && IsWhitespace(bytes[pos])
        invariant Valid() && old(pos) <= pos
        invariant AfterWs(Rest()) == AfterWs(old(Rest()))
      {
        assert Rest()[0] == bytes[pos] && Rest()[1..] == bytes[pos + 1..];
        pos := pos + 1;
      }
    }

    method SkipDigits()
      requires Valid()
      modifies this
      ensures Valid() && old(pos) <= pos
      ensures Rest() == AfterDigits(old(Rest()))
    {
      while pos < |bytes| && IsDigit(bytes[pos])
        invariant Valid() && old(pos) <= pos
        invariant AfterDigits(Rest()) == AfterDigits(old(Rest()))
      {
        assert Rest()[0] == bytes[pos] && Rest()[1..] == bytes[pos + 1..];
        pos := pos + 1;
      }
    }

    method Advance()
      requires Valid() && pos < |bytes|
      modifies this
      ensures Valid() && pos == old(pos) + 1
      ensures old(Rest())[0] == bytes[old(pos)] && Rest() == old(Rest())[1..]
    {
      pos := pos + 1;
    }

    method SkipFraction()
      requires Valid()
      modifies this
      ensures Valid() && old(pos) <= pos
      ensures Rest() == AfterFraction(old(Rest()))
    {
      if pos < |bytes| && bytes[pos] == DOT {
        Advance();
        SkipDigits();
      }
    }

    method SkipExponent()
      requires Valid()
      modifies this
      ensures Valid() && old(pos) <= pos
      ensures Rest() == AfterExponent(old(Rest()))
    {
      if pos < |bytes| && IsExponentMark(bytes[pos]) {
        Advance();
        if pos < |bytes| && IsSign(bytes[pos]) {
          Advance();
        }
        SkipDigits();
      }
    }

    method SkipMinus()
      requires Valid()
      modifies this
      ensures Valid() && old(pos) <= pos
      ensures Rest() == AfterMinus(old(Rest()))
    {
      if pos < |bytes| && bytes[pos] == MINUS {
        Advance();
      }
    }

    method SkipNumeral()
      requires Valid()
      modifies this
      ensures Valid() && old(pos) <= pos
      ensures Rest() == AfterNumber(old(Rest()))
    {
      SkipMinus();
      SkipDigits();
      SkipFraction();
      SkipExponent();
    }

    method ParseNumber() returns (r: Result<JsonValue, ParseError>)
      requires Valid() && pos < |bytes|
      modifies this
      ensures Valid() && old(pos) <= pos
      ensures Agrees(NumberAt(old(Rest())), r, Rest())
    {
      var start := pos;
      SkipNumeral();
      assert bytes[start..pos] == bytes[start..][..|bytes[start..]| - |Rest()|];
      r := Ok(Number(bytes[start..pos]));
    }

    method ParseBool() returns (r: Result<JsonValue, ParseError>)
      requires Valid()
      modifies this
      ensures Valid() && old(pos) <= pos
      ensures Agrees(BoolAt(old(Rest())), r, Rest())
    {
      if TRUE_TEXT <= bytes[pos..] {
        pos := pos + 4;
        return Ok(Bool(true));
      }
      if FALSE_TEXT <= bytes[pos..] {
        pos := pos + 5;
        return Ok(Bool(false));
      }
      r := Err(ExpectedBool);
    }

    method ParseNull() returns (r: Result<JsonValue, ParseError>)
      requires Valid()
      modifies this
      ensures Valid() && old(pos) <= pos
      ensures Agrees(NullAt(old(Rest())), r, Rest())
    {
      if NULL_TEXT <= bytes[pos..] {
        pos := pos + 4;
        return Ok(Null);
      }
      r := Err(ExpectedNull);
    }

    /** The escape after a backslash. */
    method ParseEscape() returns (r: Result<string, ParseError>)
      requires Valid()
      modifies this
      ensures Valid() && old(pos) <= pos
      ensures Agrees(EscapeAt(old(Rest())), r, Rest())
    {
      ghost var s := Rest();
      if pos >= |bytes| {
        return Err(DanglingEscape);
      }
      if bytes[pos] == LOWER_U {
        if pos + 4 >= |bytes| {
          return Err(ShortUnicodeEscape);
        }
        assert bytes[pos + 1..pos + 5] == s[1..5];
        var cp := FourHex(bytes[pos + 1..pos + 5]);
        if cp.None? {
          return Err(BadHex);
        }
        pos := pos + 4;
        r := Ok(CharOrNothing(cp.value));
      } else {
        var c := ShortEscape(bytes[pos]);
        if c.None? {
          return Err(UnknownEscape);
        }
        r := Ok([c.value]);
      }
      pos := pos + 1;
    }

    method ParseString() returns (r: Result<string, ParseError>)
      requires Valid()
      modifies this
      ensures Valid() && old(pos) <= pos
      ensures Agrees(StringAt(old(Rest())), r, Rest())
    {
      if pos >= |bytes| || bytes[pos] != QUOTE {
        return Err(ExpectedQuote);
      }
      hide EscapeAt;
      ghost var s := Rest();
      Advance();
      var out := "";
      while pos < |bytes|
        invariant Valid() && old(pos) <= pos
        invariant CharsAt(out, Rest()) == StringAt(s)
        decreases |bytes| - pos
      {
        ghost var here := Rest();
        var b := bytes[pos];
        assert here[0] == b && here[1..] == bytes[pos + 1..];
        if b == QUOTE {
          pos := pos + 1;
          return Ok(out);
        }
        pos := pos + 1;
        if b == BACKSLASH {
          var escaped := ParseEscape();
          if escaped.Err? {
            return escaped;
          }
          out := out + escaped.value;
          continue;
        }
        out := out + [b as char];
      }
      r := Err(UnterminatedString);
    }

    method ParseValue() returns (r: Result<JsonValue, ParseError>)
      requires Valid()
      modifies this
      ensures Valid() && old(pos) <= pos
      ensures Agrees(ValueAt(old(Rest())), r, Rest())
      decreases |bytes| - pos, 1
    {
      SkipWs();
      if pos >= |bytes| {
        return Err(UnexpectedEnd);
      }
      var b := bytes[pos];
      if b == OPEN_BRACE {
        r := ParseObject();
      } else if b == OPEN_BRACKET {
        r := ParseArray();
      } else if b == QUOTE {
        var text := ParseString();
        r := match text case Err(e) => Err(e) case Ok(t) => Ok(String(t));
      } else if b == TRUE_TEXT[0] || b == FALSE_TEXT[0] {
        r := ParseBool();
      } else if b == NULL_TEXT[0] {
        r := ParseNull();
      } else if b == MINUS || IsDigit(b) {
        r := ParseNumber();
      } else {
        r := Err(UnexpectedByte);
      }
    }

    method ParseKey() returns (r: Result<string, ParseError>)
      requires Valid()
      modifies this
      ensures Valid() && old(pos) <= pos
      ensures Agrees(KeyAt(old(Rest())), r, Rest())
    {
      SkipWs();
      r := ParseString();
      if r.Err? {
        return;
      }
      SkipWs();
      if pos >= |bytes| || bytes[pos] != COLON {
        return Err(ExpectedColon);
      }
      Advance();
    }

    method ParseObject() returns (r: Result<JsonValue, ParseError>)
      requires Valid() && pos < |bytes|
      modifies this
      ensures Valid() && old(pos) <= pos
      ensures Agrees(ObjectAt(old(Rest())[1..]), r, Rest())
      decreases |bytes| - pos, 0
    {
      ghost var s := Rest();
      Advance();
      var members: map<string, JsonValue> := map[];
      SkipWs();
      if pos < |bytes| && bytes[pos] == CLOSE_BRACE {
        Advance();
        return Ok(Object(members));
      }
      while true
        invariant Valid() && old(pos) < pos
        invariant MembersAt(members, Rest()) == ObjectAt(s[1..])
        decreases |bytes| - pos
      {
        var key := ParseKey();
        if key.Err? {
          return Err(key.error);
        }
        var v := ParseValue();
        if v.Err? {
          return v;
        }
        members := members[key.value := v.value];
        SkipWs();
        if pos >= |bytes| {
          return Err(UnterminatedObject);
        }
        var b := bytes[pos];
        if b == COMMA {
          Advance();
        } else if b == CLOSE_BRACE {
          Advance();
          return Ok(Object(members));
        } else {
          return Err(ExpectedCommaOrBrace);
        }
      }
    }

    method ParseArray() returns (r: Result<JsonValue, ParseError>)
      requires Valid() && pos < |bytes|
      modifies this
      ensures Valid() && old(pos) <= pos
      ensures Agrees(ArrayAt(old(Rest())[1..]), r, Rest())
      decreases |bytes| - pos, 0
    {
      ghost var s := Rest();
      Advance();
      var out: seq<JsonValue> := [];
      SkipWs();
      if pos < |bytes| && bytes[pos] == CLOSE_BRACKET {
        Advance();
        return Ok(Array(out));
      }
      while true
        invariant Valid() && old(pos) < pos
        invariant ElementsAt(out, Rest()) == ArrayAt(s[1..])
        decreases |bytes| - pos
      {
        var v := ParseValue();
        if v.Err? {
          return v;
        }
        out := out + [v.value];
        SkipWs();
        if pos >= |bytes| {
          return Err(UnterminatedArray);
        }
        var b := bytes[pos];
        if b == COMMA {
          Advance();
        } else if b == CLOSE_BRACKET {
          Advance();
          return Ok(Array(out));
        } else {
          return Err(ExpectedCommaOrBracket);
        }
      }
    }
  }

  method ParseJsonText(text: seq<Byte>) returns (r: Result<JsonValue, ParseError>)
    ensures r == ParseJson(text)
  {
    var cursor := new Cursor(text);
    r := cursor.ParseValue();
    if r.Err? {
      return;
    }
    cursor.SkipWs();
    if cursor.pos != |cursor.bytes| {
      r := Err(TrailingBytes);
    }
  }
}
