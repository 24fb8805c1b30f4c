/** JSON values and the text jansson prints for them, as functions. */
module JsonText {
  import opened Utf8

  const QUOTE: Byte := 34
  const BACKSLASH: Byte := 92
  const SLASH: Byte := 47
  const COMMA: Byte := 44
  const COLON: Byte := 58
  const NEWLINE: Byte := 10
  const SPACE: Byte := 32
  const LETTER_U: Byte := 117

  /** An object keeps its members in insertion order. A real is the text it is written as. */
  datatype Value =
    | Null
    | True
    | False
    | Integer(n: int)
    | Real(text: Bytes)
    | String(s: Bytes)
    | Array(items: seq<Value>)
    | Object(members: seq<Member>)

  datatype Member = Member(key: Bytes, value: Value)

  datatype DumpFlags = DumpFlags(indent: nat, compact: bool, ensureAscii: bool, sortKeys: bool,
                                 encodeAny: bool, escapeSlash: bool)

  // ---------------------------------------------------------------- strings

  function HexDigit(d: int): Byte
    requires 0 <= d < 16
  {
    if d < 10 then 48 + d else 55 + d
  }

  /** `\uXXXX` */
  function UnicodeEscape(u: int): Bytes
    requires 0 <= u < 0x10000
  {
    [BACKSLASH, LETTER_U, HexDigit(u / 16 / 16 / 16), HexDigit(u / 16 / 16 % 16), HexDigit(u / 16 % 16), HexDigit(u % 16)]
  }

  /** The UTF-16 surrogates of a code point above the BMP (section 2.1 of RFC 2781). */
  function HighSurrogate(c: int): int {
    0xD800 + (c - 0x10000) / 1024
  }

  function LowSurrogate(c: int): int {
    0xDC00 + (c - 0x10000) % 1024
  }

  predicate MustEscape(c: int, flags: DumpFlags) {
    c == BACKSLASH || c == QUOTE || c < 0x20 || (flags.escapeSlash && c == SLASH) || (flags.ensureAscii && c > 0x7F)
  }

  function Escaped(c: int): Bytes
    requires Scalar(c)
  {
    if c == BACKSLASH || c == QUOTE || c == SLASH then [BACKSLASH, c]
    else if c == 8 then [BACKSLASH, 98]
    else if c == 12 then [BACKSLASH, 102]
    else if c == 10 then [BACKSLASH, 110]
    else if c == 13 then [BACKSLASH, 114]
    else if c == 9 then [BACKSLASH, 116]
    else if c < 0x10000 then UnicodeEscape(c)
    else UnicodeEscape(HighSurrogate(c)) + UnicodeEscape(LowSurrogate(c))
  }

  function CharText(c: int, flags: DumpFlags): Bytes
    requires Scalar(c)
  {
    if MustEscape(c, flags) then Escaped(c) else Encode(c)
  }

  function CharsText(cs: seq<int>, flags: DumpFlags): Bytes
    requires Scalars(cs)
  {
    if cs == [] then [] else CharText(cs[0], flags) + CharsText(cs[1..], flags)
  }

  /** A string that is valid UTF-8, quoted. */
  ghost function StringText(s: Bytes, flags: DumpFlags): Bytes
    requires Valid(s)
  {
    DecodeEncode(s);
    [QUOTE] + CharsText(Decode(s), flags) + [QUOTE]
  }

  // ---------------------------------------------------------------- integers, white space

  function Digits(n: nat): Bytes {
    if n < 10 then [48 + n] else Digits(n / 10) + [48 + n % 10]
  }

  /** `%lld` */
  function IntegerText(n: int): Bytes {
    if n < 0 then [45] + Digits(-n) else Digits(n)
  }

  function Spaces(n: nat): Bytes {
    seq(n, i => SPACE)
  }

  function IndentText(flags: DumpFlags, depth: nat, space: bool): Bytes {
    if flags.indent > 0 then [NEWLINE] + Spaces(depth * flags.indent)
    else if space && !flags.compact then [SPACE]
    else []
  }

  function Separator(flags: DumpFlags): Bytes {
    if flags.compact then [COLON] else [COLON, SPACE]
  }

  // ---------------------------------------------------------------- values

  /** What can be printed so that it reads back: UTF-8 strings, distinct keys without NUL, no reals. */
  ghost predicate WellFormed(v: Value) {
    match v
    case Integer(n) => -0x8000000000000000 <= n < 0x8000000000000000
    case Real(_) => false
    case String(s) => Valid(s)
    case Array(items) => forall i | 0 <= i < |items| :: WellFormed(items[i])
    case Object(members) =>
      Distinct(members) && forall i | 0 <= i < |members| :: KeyOk(members[i].key) && WellFormed(members[i].value)
    case _ => true
  }

  ghost predicate KeyOk(key: Bytes) {
    Valid(key) && 0 !in key
  }

  predicate Distinct(members: seq<Member>) {
    forall i, j | 0 <= i < j < |members| :: members[i].key != members[j].key
  }

  ghost function ValueText(v: Value, flags: DumpFlags, depth: nat): Bytes
    requires WellFormed(v)
    decreases v
  {
    match v
    case Null => [110, 117, 108, 108]
    case True => [116, 114, 117, 101]
    case False => [102, 97, 108, 115, 101]
    case Integer(n) => IntegerText(n)
    case String(s) => StringText(s, flags)
    case Array(items) =>
      if items == [] then [91, 93]
      else [91] + IndentText(flags, depth + 1, false) + ItemsText(items, flags, depth) + [93]
    case Object(members) =>
      if members == [] then [123, 125]
      else [123] + IndentText(flags, depth + 1, false) + MembersText(members, flags, depth) + [125]
  }

  /** What follows an element: a comma and the next line, or the end of the list. */
  function Follow(last: bool, flags: DumpFlags, depth: nat): Bytes {
    if last then IndentText(flags, depth, false) else [COMMA] + IndentText(flags, depth + 1, true)
  }

  ghost function ItemsText(items: seq<Value>, flags: DumpFlags, depth: nat): Bytes
    requires forall i | 0 <= i < |items| :: WellFormed(items[i])
    decreases items
  {
    if items == [] then []
    else
      ValueText(items[0], flags, depth + 1) + Follow(|items| == 1, flags, depth) + ItemsText(items[1..], flags, depth)
  }

  ghost function MemberText(m: Member, flags: DumpFlags, depth: nat): Bytes
    requires KeyOk(m.key) && WellFormed(m.value)
    decreases m, 1
  {
    StringText(m.key, flags) + Separator(flags) + ValueText(m.value, flags, depth + 1)
  }

  ghost function MembersText(members: seq<Member>, flags: DumpFlags, depth: nat): Bytes
    requires forall i | 0 <= i < |members| :: KeyOk(members[i].key) && WellFormed(members[i].value)
    decreases members
  {
    if members == [] then []
    else
      MemberText(members[0], flags, depth) + Follow(|members| == 1, flags, depth) + MembersText(members[1..], flags, depth)
  }
}
