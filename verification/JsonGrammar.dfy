/**
 What jansson's parser accepts, as functions on bytes.

 Text here is the part of the input up to its end or up to the first byte sequence that is not
 UTF-8; `bad` says which of the two comes after it.
 */
module JsonGrammar {
  import opened Wrappers
  import opened Utf8
  import opened JsonText

  datatype Token =
    | Invalid
    | Eof
    | Punct(c: Byte)
    | Str(s: Bytes)
    | Int(n: int)
    | RealNumber(text: Bytes)
    | TrueWord
    | FalseWord
    | NullWord

  datatype LoadFlags = LoadFlags(rejectDuplicates: bool, disableEofCheck: bool, decodeAny: bool,
                                 decodeIntAsReal: bool, allowNul: bool)

  const MAX_DEPTH := 2048

  // ---------------------------------------------------------------- characters

  predicate IsSpace(c: int) {
    c == 32 || c == 9 || c == 10 || c == 13
  }

  predicate IsDigit(c: int) {
    48 <= c <= 57
  }

  predicate IsAlpha(c: int) {
    65 <= c <= 90 || 97 <= c <= 122
  }

  predicate IsHex(c: int) {
    IsDigit(c) || 65 <= c <= 70 || 97 <= c <= 102
  }

  predicate IsPunct(c: int) {
    c == 123 || c == 125 || c == 91 || c == 93 || c == COLON || c == COMMA
  }

  /** The characters that may follow a backslash, `u` aside. */
  predicate IsShort(c: int) {
    c == QUOTE || c == BACKSLASH || c == SLASH || c == 98 || c == 102 || c == 110 || c == 114 || c == 116
  }

  function SkipSpace(t: Bytes): (r: Bytes)
    ensures |r| <= |t|
  {
    if t != [] && IsSpace(t[0]) then SkipSpace(t[1..]) else t
  }

  function DigitCount(t: Bytes): (n: nat)
    ensures n <= |t|
  {
    if t != [] && IsDigit(t[0]) then 1 + DigitCount(t[1..]) else 0
  }

  function AlphaCount(t: Bytes): (n: nat)
    ensures n <= |t|
  {
    if t != [] && IsAlpha(t[0]) then 1 + AlphaCount(t[1..]) else 0
  }

  // ---------------------------------------------------------------- strings

  function HexValue(c: int): int {
    if IsDigit(c) then c - 48 else if 97 <= c <= 122 then c - 87 else c - 55
  }

  /** The length of the escape sequence at the front, if it is one. */
  function EscapeLength(t: Bytes): (n: Option<nat>)
    ensures n.Some? ==> 2 <= n.value <= |t|
  {
    if |t| < 2 then None
    else if t[1] == LETTER_U then
      if |t| >= 6 && IsHex(t[2]) && IsHex(t[3]) && IsHex(t[4]) && IsHex(t[5]) then Some(6) else None
    else if IsShort(t[1]) then Some(2)
    else None
  }

  /** How far the closing quote is, or none if something else ends the string. */
  function RawLength(t: Bytes): (n: Option<nat>)
    ensures n.Some? ==> n.value < |t| && t[n.value] == QUOTE
  {
    if t == [] then None
    else if t[0] == QUOTE then Some(0)
    else if t[0] < 0x20 then None
    else
      var step := if t[0] == BACKSLASH then EscapeLength(t) else Some(1);
      if step.None? then None
      else
        var n := RawLength(t[step.value..]);
        if n.None? then None else Some(step.value + n.value)
  }

  /** One step of the scan for the closing quote. */
  lemma RawMore(t: Bytes, step: nat)
    requires t != [] && t[0] >= 0x20 && t[0] != QUOTE
    requires if t[0] == BACKSLASH then EscapeLength(t) == Some(step) else step == 1
    ensures step <= |t|
    ensures RawLength(t) == if RawLength(t[step..]).Some? then Some(step + RawLength(t[step..]).value) else None
  {
    hide EscapeLength;
    var next := RawLength(t[step..]);
    assert next.None? ==> RawLength(t).None?;
  }

  function Hex4(t: Bytes): int
    requires |t| >= 4
  {
    4096 * HexValue(t[0]) + 256 * HexValue(t[1]) + 16 * HexValue(t[2]) + HexValue(t[3])
  }

  predicate IsHigh(u: int) {
    0xD800 <= u <= 0xDBFF
  }

  predicate IsLow(u: int) {
    0xDC00 <= u <= 0xDFFF
  }

  function Unpaired(high: int, low: int): int {
    (high - 0xD800) * 1024 + (low - 0xDC00) + 0x10000
  }

  /** The code point of a `\u` escape, or of two that make a surrogate pair, and its length. */
  function UnicodeAt(t: Bytes): Option<(int, nat)>
    requires EscapeLength(t) == Some(6)
  {
    var u := Hex4(t[2..6]);
    if IsHigh(u) then
      if |t| >= 12 && t[6] == BACKSLASH && t[7] == LETTER_U && EscapeLength(t[6..]) == Some(6) && IsLow(Hex4(t[8..12])) then
        Some((Unpaired(u, Hex4(t[8..12])), 12))
      else None
    else if IsLow(u) then None
    else Some((u, 6))
  }

  function Short(c: Byte): Byte {
    if c == 98 then 8 else if c == 102 then 12 else if c == 110 then 10 else if c == 114 then 13
    else if c == 116 then 9 else c
  }

  /** One character of the raw text between the quotes: what it stands for and its length. */
  function CharAt(t: Bytes): (r: Option<(Bytes, nat)>)
    requires t != []
    ensures r.Some? ==> 1 <= r.value.1 <= |t| && |r.value.0| <= r.value.1
  {
    if t[0] != BACKSLASH then Some(([t[0]], 1))
    else if EscapeLength(t) == Some(6) then
      var u := UnicodeAt(t);
      if u.Some? && 0 <= u.value.0 <= 0x10FFFF then Some((Encode(u.value.0), u.value.1)) else None
    else if EscapeLength(t) == Some(2) then Some(([Short(t[1])], 2))
    else None
  }

  /** What the raw text between the quotes stands for. */
  function Unescape(t: Bytes): (r: Option<Bytes>)
    ensures r.Some? ==> |r.value| <= |t|
  {
    if t == [] then Some([])
    else
      var c := CharAt(t);
      if c.None? then None
      else
        var r := Unescape(t[c.value.1..]);
        if r.None? then None else Some(c.value.0 + r.value)
  }

  function ScanString(t: Bytes): (r: (Token, Bytes))
    ensures !r.0.Invalid? ==> |r.1| < |t|
  {
    var n := RawLength(t);
    if n.None? then (Invalid, [])
    else
      var s := Unescape(t[..n.value]);
      if s.None? then (Invalid, []) else (Str(s.value), t[n.value + 1..])
  }

  // ---------------------------------------------------------------- numbers and words

  /** A character given back to the stream is read again, unless it is NUL: that is lost. */
  function Unread(t: Bytes): (r: Bytes)
    ensures |r| <= |t|
  {
    if t != [] && t[0] == 0 then t[1..] else t
  }

  /** The length of sign and integer part, none if there is no number or a leading zero. */
  function IntegerLength(t: Bytes): (n: Option<nat>)
    ensures n.Some? ==> 1 <= n.value <= |t|
  {
    var sign := if t != [] && t[0] == 45 then 1 else 0;
    var digits := DigitCount(t[sign..]);
    if digits == 0 || (t[sign] == 48 && digits > 1) then None else Some(sign + digits)
  }

  /** The length of a fraction, 0 for none, none for a bare point. */
  function FractionLength(t: Bytes): (n: Option<nat>)
    ensures n.Some? ==> n.value <= |t|
  {
    if t == [] || t[0] != 46 then Some(0)
    else if DigitCount(t[1..]) == 0 then None
    else Some(1 + DigitCount(t[1..]))
  }

  predicate IsExponent(c: int) {
    c == 69 || c == 101
  }

  function ExponentLength(t: Bytes): (n: Option<nat>)
    ensures n.Some? ==> n.value <= |t|
  {
    if t == [] || !IsExponent(t[0]) then Some(0)
    else
      var sign := if |t| > 1 && (t[1] == 43 || t[1] == 45) then 2 else 1;
      if DigitCount(t[sign..]) == 0 then None else Some(sign + DigitCount(t[sign..]))
  }

  /** The value of decimal digits. */
  function DecimalValue(t: Bytes): int {
    if t == [] then 0 else 10 * DecimalValue(t[..|t| - 1]) + t[|t| - 1] - 48
  }

  /** strtoll on an integer the scanner has accepted; none stands for ERANGE. */
  function ToInteger(t: Bytes): Option<int>
    requires t != []
  {
    var n := if t[0] == 45 then -DecimalValue(t[1..]) else DecimalValue(t);
    if -0x8000000000000000 <= n < 0x8000000000000000 then Some(n) else None
  }

  function ExponentValue(t: Bytes): int {
    if |t| < 2 then 0
    else if t[1] == 45 then -DecimalValue(t[2..])
    else if t[1] == 43 then DecimalValue(t[2..])
    else DecimalValue(t[1..])
  }

  /** A number the scanner has accepted, without its sign, is the first times ten to the power of the second. */
  function Scientific(t: Bytes): (int, int) {
    var n := IntegerLength(t);
    if n.None? then (0, 0)
    else
      var after := t[n.value..];
      var f := FractionLength(after);
      if f.None? then (0, 0)
      else
        var e := ExponentLength(after[f.value..]);
        var whole := if t[0] == 45 then t[1..n.value] else t[..n.value];
        var fraction := if f.value == 0 then [] else after[1..f.value];
        var exponent := if e.None? then [] else after[f.value..][..e.value];
        (DecimalValue(whole + fraction), ExponentValue(exponent) - |fraction|)
  }

  function TenTo(n: nat): nat {
    if n == 0 then 1 else 10 * TenTo(n - 1)
  }

  const TWO_TO_128 := 0x1_0000_0000_0000_0000_0000_0000_0000_0000
  /** 2^1024 - 2^970: from here on the nearest double is infinite. */
  const INFINITE := 0x3F_FFFF_FFFF_FFFF * 0x400_0000_0000_0000_0000
    * TWO_TO_128 * TWO_TO_128 * TWO_TO_128 * TWO_TO_128 * TWO_TO_128 * TWO_TO_128 * TWO_TO_128

  /** strtod answers HUGE_VAL. */
  predicate Overflows(t: Bytes) {
    var (digits, scale) := Scientific(t);
    if scale >= 0 then digits * TenTo(scale) >= INFINITE else digits >= INFINITE * TenTo(-scale)
  }

  function ScanNumber(t: Bytes, flags: LoadFlags): (r: (Token, Bytes))
    ensures !r.0.Invalid? ==> |r.1| < |t|
  {
    var n := IntegerLength(t);
    if n.None? then (Invalid, [])
    else
      var after := t[n.value..];
      if !flags.decodeIntAsReal && (after == [] || (after[0] != 46 && !IsExponent(after[0]))) then
        var i := ToInteger(t[..n.value]);
        if i.None? then (Invalid, []) else (Int(i.value), Unread(after))
      else
        var f := FractionLength(after);
        if f.None? then (Invalid, [])
        else
          var e := ExponentLength(after[f.value..]);
          if e.None? then (Invalid, [])
          else
            var len := n.value + f.value + e.value;
            if Overflows(t[..len]) then (Invalid, []) else (RealNumber(t[..len]), Unread(t[len..]))
  }

  function ScanWord(t: Bytes): (r: (Token, Bytes))
    requires t != [] && IsAlpha(t[0])
    ensures !r.0.Invalid? ==> |r.1| < |t|
  {
    var n := AlphaCount(t);
    var word := t[..n];
    var token :=
      if word == [116, 114, 117, 101] then TrueWord
      else if word == [102, 97, 108, 115, 101] then FalseWord
      else if word == [110, 117, 108, 108] then NullWord
      else Invalid;
    (token, if token.Invalid? then [] else Unread(t[n..]))
  }

  /** lex_scan. After an invalid token or the end nothing more is read. */
  function Scan(text: Bytes, bad: bool, flags: LoadFlags): (r: (Token, Bytes))
    ensures !r.0.Invalid? && !r.0.Eof? ==> |r.1| < |text|
  {
    var t := SkipSpace(text);
    if t == [] then (if bad then Invalid else Eof, [])
    else if IsPunct(t[0]) then (Punct(t[0]), t[1..])
    else if t[0] == QUOTE then ScanString(t[1..])
    else if IsDigit(t[0]) || t[0] == 45 then ScanNumber(t, flags)
    else if IsAlpha(t[0]) then ScanWord(t)
    else (Invalid, [])
  }

  // ---------------------------------------------------------------- values

  /** json_object_set_nocheck: a known key keeps its place. */
  function SetMember(members: seq<Member>, key: Bytes, value: Value): seq<Member> {
    if members == [] then [Member(key, value)]
    else if members[0].key == key then [Member(key, value)] + members[1..]
    else [members[0]] + SetMember(members[1..], key, value)
  }

  predicate HasKey(members: seq<Member>, key: Bytes) {
    exists i | 0 <= i < |members| :: members[i].key == key
  }

  datatype Env = Env(flags: LoadFlags, bad: bool)

  type Parsed = Option<(Value, Bytes)>

  /** parse_value with `token` scanned and `t` still to read. `depth` counts the values around it. */
  function ParseValue(token: Token, t: Bytes, env: Env, depth: nat): (r: Parsed)
    ensures r.Some? ==> |r.value.1| <= |t|
    decreases |t|, 2
  {
    if depth + 1 > MAX_DEPTH then None
    else match token
      case Str(s) => if !env.flags.allowNul && 0 in s then None else Some((String(s), t))
      case Int(n) => Some((Integer(n), t))
      case RealNumber(text) => Some((Real(text), t))
      case TrueWord => Some((True, t))
      case FalseWord => Some((False, t))
      case NullWord => Some((Null, t))
      case Punct(c) =>
        if c == 123 then ParseObject(t, env, depth + 1)
        else if c == 91 then ParseArray(t, env, depth + 1)
        else None
      case _ => None
  }

  predicate Ended(token: Token) {
    token.Invalid? || token.Eof?
  }

  function ParseArray(t: Bytes, env: Env, depth: nat): (r: Parsed)
    ensures r.Some? ==> |r.value.1| <= |t|
    decreases |t|, 1
  {
    var (token, t1) := Scan(t, env.bad, env.flags);
    if token == Punct(93) then Some((Array([]), t1))
    else if Ended(token) then None
    else ParseItems(token, t1, [], env, depth)
  }

  /** The loop of parse_array, with the elements read so far. */
  function ParseItems(token: Token, t: Bytes, items: seq<Value>, env: Env, depth: nat): (r: Parsed)
    ensures r.Some? ==> |r.value.1| <= |t|
    decreases |t|, 3
  {
    var item := ParseValue(token, t, env, depth);
    if item.None? then None
    else
      var items' := items + [item.value.0];
      var (token1, t1) := Scan(item.value.1, env.bad, env.flags);
      if token1 == Punct(93) then Some((Array(items'), t1))
      else if token1 != Punct(COMMA) then None
      else
        var (token2, t2) := Scan(t1, env.bad, env.flags);
        if Ended(token2) then None else ParseItems(token2, t2, items', env, depth)
  }

  function ParseObject(t: Bytes, env: Env, depth: nat): (r: Parsed)
    ensures r.Some? ==> |r.value.1| <= |t|
    decreases |t|, 1
  {
    var (token, t1) := Scan(t, env.bad, env.flags);
    if token == Punct(125) then Some((Object([]), t1))
    else if Ended(token) then None
    else ParseMembers(token, t1, [], env, depth)
  }

  /** A key is a string without NUL; under JSON_REJECT_DUPLICATES it must be new. */
  predicate KeyAllowed(token: Token, members: seq<Member>, flags: LoadFlags) {
    token.Str? && 0 !in token.s && !(flags.rejectDuplicates && HasKey(members, token.s))
  }

  /** One `key: value`, with the key's token scanned. */
  function ParseMember(token: Token, t: Bytes, members: seq<Member>, env: Env, depth: nat): (r: Option<(Member, Bytes)>)
    ensures r.Some? ==> |r.value.1| <= |t|
    decreases |t|, 3
  {
    if !KeyAllowed(token, members, env.flags) then None
    else
      var (colon, t1) := Scan(t, env.bad, env.flags);
      if colon != Punct(COLON) then None
      else
        var (token2, t2) := Scan(t1, env.bad, env.flags);
        if Ended(token2) then None
        else
          var value := ParseValue(token2, t2, env, depth);
          if value.None? then None else Some((Member(token.s, value.value.0), value.value.1))
  }

  /** The loop of parse_object, with the members read so far. */
  function ParseMembers(token: Token, t: Bytes, members: seq<Member>, env: Env, depth: nat): (r: Parsed)
    ensures r.Some? ==> |r.value.1| <= |t|
    decreases |t|, 4
  {
    var m := ParseMember(token, t, members, env, depth);
    if m.None? then None
    else
      var members' := SetMember(members, m.value.0.key, m.value.0.value);
      var (token1, t1) := Scan(m.value.1, env.bad, env.flags);
      if token1 == Punct(125) then Some((Object(members'), t1))
      else if token1 != Punct(COMMA) then None
      else
        var (token2, t2) := Scan(t1, env.bad, env.flags);
        if Ended(token2) then None else ParseMembers(token2, t2, members', env, depth)
  }

  /** parse_json on text; the depth is 0. */
  function ParseJson(text: Bytes, env: Env): Option<Value> {
    var (token, t) := Scan(text, env.bad, env.flags);
    if !env.flags.decodeAny && token != Punct(91) && token != Punct(123) then None
    else if Ended(token) then None
    else
      var v := ParseValue(token, t, env, 0);
      if v.None? then None
      else if !env.flags.disableEofCheck && !Scan(v.value.1, env.bad, env.flags).0.Eof? then None
      else Some(v.value.0)
  }
}
