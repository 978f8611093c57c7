/** JSON values and the bytes of JSON text, as `djogi/build.rs` reads them. */
module Json {
  import opened Outcomes

  type Byte = b: nat | b < 256

  /** A number keeps its text. A repeated object key keeps its last value. */
  datatype JsonValue =
    | Null
    | Bool(b: bool)
    | Number(text: seq<Byte>)
    | String(s: string)
    | Array(items: seq<JsonValue>)
    | Object(members: map<string, JsonValue>)

  const QUOTE: Byte := 0x22
  const PLUS: Byte := 0x2B
  const COMMA: Byte := 0x2C
  const MINUS: Byte := 0x2D
  const DOT: Byte := 0x2E
  const COLON: Byte := 0x3A
  const OPEN_BRACKET: Byte := 0x5B
  const BACKSLASH: Byte := 0x5C
  const CLOSE_BRACKET: Byte := 0x5D
  const LOWER_U: Byte := 0x75
  const OPEN_BRACE: Byte := 0x7B
  const CLOSE_BRACE: Byte := 0x7D

  const TRUE_TEXT: seq<Byte> := [0x74, 0x72, 0x75, 0x65]
  const FALSE_TEXT: seq<Byte> := [0x66, 0x61, 0x6C, 0x73, 0x65]
  const NULL_TEXT: seq<Byte> := [0x6E, 0x75, 0x6C, 0x6C]

  predicate IsWhitespace(b: Byte) {
    b == 0x20 || b == 0x09 || b == 0x0A || b == 0x0D
  }

  predicate IsDigit(b: Byte) {
    0x30 <= b <= 0x39
  }

  predicate IsSign(b: Byte) {
    b == PLUS || b == MINUS
  }

  predicate IsExponentMark(b: Byte) {
    b == 0x65 || b == 0x45
  }

  function HexDigit(b: Byte): Option<nat> {
    if IsDigit(b) then Some(b - 0x30)
    else if 0x61 <= b <= 0x66 then Some(b - 0x61 + 10)
    else if 0x41 <= b <= 0x46 then Some(b - 0x41 + 10)
    else None
  }

  function HexDigits(h: seq<Byte>): (r: Option<nat>)
    ensures r.Some? ==> r.value < Power16(|h|)
  {
    if h == [] then Some(0)
    else
      var last := h[|h| - 1];
      match HexDigits(h[..|h| - 1])
      case None => None
      case Some(high) =>
        match HexDigit(last)
        case None => None
        case Some(low) => Some(high * 16 + low)
  }

  function Power16(n: nat): nat {
    if n == 0 then 1 else 16 * Power16(n - 1)
  }

  /** `u32::from_str_radix(hex, 16)` on the four bytes of an escape: a leading plus sign is accepted. */
  function FourHex(h: seq<Byte>): (r: Option<nat>)
    requires |h| == 4
    ensures r.Some? ==> r.value < 0x1_0000
  {
    assert Power16(4) == 0x1_0000 && Power16(3) == 0x1000;
    if h[0] == PLUS then HexDigits(h[1..]) else HexDigits(h)
  }

  /** `char::from_u32`, pushed when it is a character: a surrogate adds nothing. */
  function CharOrNothing(cp: nat): string
    requires cp < 0x1_0000
  {
    if 0xD800 <= cp < 0xE000 then [] else [cp as char]
  }

  /** The single-character escapes: quote, backslash, slash, b, f, n, r, t. */
  function ShortEscape(b: Byte): Option<char> {
    if b == QUOTE then Some('\"')
    else if b == BACKSLASH then Some('\\')
    else if b == 0x2F then Some('/')
    else if b == 0x62 then Some(8 as char)
    else if b == 0x66 then Some(12 as char)
    else if b == 0x6E then Some('\n')
    else if b == 0x72 then Some('\r')
    else if b == 0x74 then Some('\t')
    else None
  }
}
