/**
 JSON's characters written as characters (RFC 8259). The other modules calculate with bytes; here it is proved what
 their numbers stand for.
 */
module JsonAlphabet {
  import opened Wrappers
  import opened Utf8
  import opened JsonText
  import opened JsonGrammar
  import opened Powers
  import S = JsonSyntax

  const LOWER := "0123456789abcdef"
  const UPPER := "0123456789ABCDEF"

  /** The bytes of an ASCII text. */
  function Codes(s: string): (b: Bytes)
    requires forall i | 0 <= i < |s| :: s[i] < 128 as char
    ensures |b| == |s| && forall i | 0 <= i < |s| :: b[i] == s[i] as int
  {
    seq(|s|, i requires 0 <= i < |s| => s[i] as int)
  }

  // ---------------------------------------------------------------- classes of characters

  /** White space, structural characters, digits, exponents, letters, and what may follow a backslash. */
  lemma Classes(c: int)
    ensures IsSpace(c) <==> c == ' ' as int || c == '\t' as int || c == '\n' as int || c == '\r' as int
    ensures IsPunct(c) <==> c == '{' as int || c == '}' as int || c == '[' as int || c == ']' as int ||
                            c == ':' as int || c == ',' as int
    ensures IsDigit(c) <==> '0' as int <= c <= '9' as int
    ensures IsHex(c) <==> '0' as int <= c <= '9' as int || 'a' as int <= c <= 'f' as int || 'A' as int <= c <= 'F' as int
    ensures IsExponent(c) <==> c == 'e' as int || c == 'E' as int
    ensures IsAlpha(c) <==> 'a' as int <= c <= 'z' as int || 'A' as int <= c <= 'Z' as int
    ensures IsShort(c) <==> c == '"' as int || c == '\\' as int || c == '/' as int || c == 'b' as int ||
                            c == 'f' as int || c == 'n' as int || c == 'r' as int || c == 't' as int
    ensures S.White([]) && QUOTE == '"' as int && BACKSLASH == '\\' as int && LETTER_U == 'u' as int
    ensures COMMA == ',' as int && COLON == ':' as int && NEWLINE == '\n' as int && SPACE == ' ' as int
  {
  }

  // ---------------------------------------------------------------- values of characters

  /** A hexadecimal digit, small or capital, stands for its place among the digits. */
  lemma HexDigits(i: nat)
    requires i < 16
    ensures HexValue(LOWER[i] as int) == i && HexValue(UPPER[i] as int) == i
    ensures HexDigit(i) == UPPER[i] as int
  {
  }

  /** Four of them are a number to the base 16. */
  lemma FourDigits(h: Bytes, i: nat, j: nat, k: nat, l: nat)
    requires |h| == 4 && i < 16 && j < 16 && k < 16 && l < 16
    requires h[0] == LOWER[i] as int || h[0] == UPPER[i] as int
    requires h[1] == LOWER[j] as int || h[1] == UPPER[j] as int
    requires h[2] == LOWER[k] as int || h[2] == UPPER[k] as int
    requires h[3] == LOWER[l] as int || h[3] == UPPER[l] as int
    ensures Hex4(h) == ((i * 16 + j) * 16 + k) * 16 + l
  {
    hide HexValue;
    HexDigits(i);
    HexDigits(j);
    HexDigits(k);
    HexDigits(l);
  }

  /** Decimal digits are a number to the base 10, read from the left. */
  lemma DecimalDigits(t: Bytes, i: nat)
    requires i < 10
    ensures DecimalValue([]) == 0 && DecimalValue(t + [LOWER[i] as int]) == 10 * DecimalValue(t) + i
  {
    assert (t + [LOWER[i] as int])[..|t|] == t;
    HexDigits(i);
  }

  /** The exponent of a number (section 6): digits after `e` and a sign, or none. */
  function PowerOf(exponent: Bytes): int {
    if |exponent| < 2 then 0
    else if exponent[1] == '-' as int then -DecimalValue(exponent[2..])
    else if exponent[1] == '+' as int then DecimalValue(exponent[2..])
    else DecimalValue(exponent[1..])
  }

  /** A real overflows if all its digits as one number, times the power of ten, reach 2^1024 - 2^970. */
  lemma WhenInfinite(n: S.Numeral)
    requires S.NumeralFormed(n)
    ensures var digits := DecimalValue(n.whole + if n.fraction == [] then [] else n.fraction[1..]);
            var power := PowerOf(n.exponent) - if n.fraction == [] then 0 else |n.fraction| - 1;
            Overflows(S.NumeralSource(n)) <==>
              if power >= 0 then digits * TenTo(power) >= Pow2(1024) - Pow2(970)
              else digits >= (Pow2(1024) - Pow2(970)) * TenTo(-power)
  {
    hide IntegerLength, FractionLength, ExponentLength, S.AllDigits, S.ExponentFormed, DecimalValue, TenTo, INFINITE, Pow2;
    InfiniteIs();
    ScientificIs(n);
  }

  lemma ScientificIs(n: S.Numeral)
    requires S.NumeralFormed(n)
    ensures Scientific(S.NumeralSource(n)) ==
              (DecimalValue(n.whole + if n.fraction == [] then [] else n.fraction[1..]),
               PowerOf(n.exponent) - if n.fraction == [] then 0 else |n.fraction| - 1)
  {
    hide IntegerLength, FractionLength, ExponentLength, S.ExponentFormed, DecimalValue;
    var t, w := S.NumeralSource(n), |S.WholeSource(n)|;
    S.NumeralParts(n, []);
    assert t + [] == t && n.exponent + [] == n.exponent;
    assert t[w..] == n.fraction + n.exponent;
    assert (n.fraction + n.exponent)[|n.fraction|..] == n.exponent;
    assert n.minus ==> t[1..w] == n.whole;
    assert !n.minus ==> t[..w] == n.whole;
    assert n.fraction != [] ==> (n.fraction + n.exponent)[1..|n.fraction|] == n.fraction[1..];
    assert n.exponent[..|n.exponent|] == n.exponent;
  }

  lemma InfiniteIs()
    ensures INFINITE == Pow2(1024) - Pow2(970)
  {
    P128();
    hide Pow2;
    Pow2Sum(128, 128);
    Pow2Sum(256, 128);
    Pow2Sum(384, 128);
    Pow2Sum(512, 128);
    Pow2Sum(640, 128);
    Pow2Sum(768, 128);
    Pow2Sum(896, 74);
    Pow2Sum(970, 54);
  }

  lemma P128()
    ensures Pow2(128) == TWO_TO_128 && Pow2(74) == 0x400_0000_0000_0000_0000 && Pow2(54) == 0x40_0000_0000_0000
  {
    P2();
    hide Pow2;
    Pow2Sum(8, 8);
    Pow2Sum(16, 16);
    Pow2Sum(32, 32);
    Pow2Sum(64, 64);
    Pow2Sum(64, 8);
    Pow2Sum(72, 2);
    Pow2Sum(32, 16);
    Pow2Sum(48, 6);
  }

  lemma P2()
    ensures Pow2(8) == 0x100 && Pow2(2) == 4 && Pow2(6) == 64
  {
  }

  lemma TensAre(n: nat)
    ensures TenTo(0) == 1 && TenTo(n + 1) == 10 * TenTo(n)
  {
  }

  /** What the letters after a backslash stand for (section 7). */
  lemma Letters()
    ensures Short('"' as int) == '"' as int && Short('\\' as int) == '\\' as int && Short('/' as int) == '/' as int
    ensures Short('n' as int) == '\n' as int && Short('r' as int) == '\r' as int && Short('t' as int) == '\t' as int
    ensures Short('b' as int) == 8 && Short('f' as int) == 12
  {
  }

  /** A surrogate pair's code point (section 2.1 of RFC 2781). */
  lemma Surrogates(high: int, low: int)
    ensures IsHigh(high) <==> 0xD800 <= high < 0xDC00
    ensures IsLow(low) <==> 0xDC00 <= low < 0xE000
    ensures IsHigh(high) && IsLow(low) ==> Unpaired(high, low) == 0x10000 + (high - 0xD800) * 0x400 + (low - 0xDC00)
  {
  }

  /** `\u00e9`, with small digits, is read as U+00E9. */
  lemma SmallDigits(rest: Bytes)
    ensures CharAt(Codes("\\u00e9") + rest) == Some(([0xC3, 0xA9], 6))
  {
    var hex: Bytes := Codes("00e9");
    FourDigits(hex, 0, 0, 14, 9);
    S.UnitRead(hex, rest);
    hide CharAt, Hex4;
    assert Codes("\\u00e9") == [BACKSLASH, LETTER_U] + hex;
  }

  // ---------------------------------------------------------------- what is printed

  /** The characters of a string as they are printed: short escapes, `\uXXXX` or surrogates, or UTF-8. */
  lemma Printed(c: int, flags: DumpFlags)
    requires Scalar(c)
    ensures c == '"' as int ==> CharText(c, flags) == Codes("\\\"")
    ensures c == '\\' as int ==> CharText(c, flags) == Codes("\\\\")
    ensures c == '\n' as int ==> CharText(c, flags) == Codes("\\n")
    ensures c == '\r' as int ==> CharText(c, flags) == Codes("\\r")
    ensures c == '\t' as int ==> CharText(c, flags) == Codes("\\t")
    ensures c == 8 ==> CharText(c, flags) == Codes("\\b")
    ensures c == 12 ==> CharText(c, flags) == Codes("\\f")
    ensures c == '/' as int ==> CharText(c, flags) == if flags.escapeSlash then Codes("\\/") else Codes("/")
    ensures c < 0x20 && c != '\n' as int && c != '\r' as int && c != '\t' as int && c != 8 && c != 12 ==>
              CharText(c, flags) == Codes("\\u00") + [UPPER[c / 16] as int, UPPER[c % 16] as int]
    ensures 0x20 <= c < 0x80 && c != '"' as int && c != '\\' as int && c != '/' as int ==> CharText(c, flags) == [c]
    ensures c >= 0x80 ==> CharText(c, flags) == if flags.ensureAscii then Escaped(c) else Encode(c)
  {
  }

  /** Under JSON_ENSURE_ASCII a character is escaped as one UTF-16 unit or two. */
  lemma PrintedUnits(c: int)
    requires Scalar(c) && c >= 0x80
    ensures c < 0x10000 ==> Escaped(c) == UnicodeEscape(c)
    ensures c >= 0x10000 ==>
              var high, low := 0xD800 + (c - 0x10000) / 0x400, 0xDC00 + (c - 0x10000) % 0x400;
              Escaped(c) == UnicodeEscape(high) + UnicodeEscape(low)
  {
    hide UnicodeEscape;
  }

  /** One UTF-16 unit. */
  lemma PrintedUnit(u: int)
    requires 0 <= u < 0x10000
    ensures UnicodeEscape(u) == Codes("\\u") + [UPPER[u / 0x1000] as int, UPPER[u / 0x100 % 16] as int,
                                                UPPER[u / 16 % 16] as int, UPPER[u % 16] as int]
  {
    HexDigits(u / 0x1000);
    HexDigits(u / 0x100 % 16);
    HexDigits(u / 16 % 16);
    HexDigits(u % 16);
    hide HexDigit;
    assert u / 16 / 16 / 16 == u / 0x1000 && u / 16 / 16 % 16 == u / 0x100 % 16;
  }

  /** Words and numbers as they are printed. */
  lemma PrintedWords(flags: DumpFlags, k: nat)
    ensures ValueText(Null, flags, k) == S.KeywordSource(S.KwNull) == Codes("null")
    ensures ValueText(True, flags, k) == S.KeywordSource(S.KwTrue) == Codes("true")
    ensures ValueText(False, flags, k) == S.KeywordSource(S.KwFalse) == Codes("false")
    ensures forall n | n < 0 :: IntegerText(n) == Codes("-") + Digits(-n)
  {
  }

  lemma PrintedDigits(n: nat)
    ensures n < 10 ==> Digits(n) == [LOWER[n] as int]
    ensures n >= 10 ==> Digits(n) == Digits(n / 10) + [LOWER[n % 10] as int]
  {
    HexDigits(n % 10);
  }

  // ---------------------------------------------------------------- only ASCII

  ghost predicate Seven(b: Bytes) {
    forall i | 0 <= i < |b| :: b[i] < 0x80
  }

  lemma SevenJoin(a: Bytes, b: Bytes)
    requires Seven(a) && Seven(b)
    ensures Seven(a + b)
  {
  }

  lemma {:induction false} CharsSeven(cs: seq<int>, flags: DumpFlags)
    requires Scalars(cs) && flags.ensureAscii
    ensures Seven(CharsText(cs, flags))
  {
    if cs != [] {
      CharSeven(cs[0], flags);
      CharsSeven(cs[1..], flags);
      hide CharText;
      SevenJoin(CharText(cs[0], flags), CharsText(cs[1..], flags));
    }
  }

  lemma CharSeven(c: int, flags: DumpFlags)
    requires Scalar(c) && flags.ensureAscii
    ensures Seven(CharText(c, flags))
  {
  }

  lemma StringSeven(s: Bytes, flags: DumpFlags)
    requires Valid(s) && flags.ensureAscii
    ensures Seven(StringText(s, flags))
  {
    hide CharsText, Decode;
    DecodeEncode(s);
    CharsSeven(Decode(s), flags);
  }

  lemma {:induction false} DigitsSeven(n: nat)
    ensures Seven(Digits(n))
  {
    if n >= 10 {
      DigitsSeven(n / 10);
    }
  }

  /** Under JSON_ENSURE_ASCII nothing but ASCII is printed. */
  lemma {:induction false} OnlyAscii(v: Value, flags: DumpFlags, k: nat)
    requires WellFormed(v) && flags.ensureAscii
    ensures Seven(ValueText(v, flags, k))
    decreases v, 1
  {
    hide IndentText, StringText, Digits, ItemsText, MembersText, Valid;
    IndentSeven(flags, k + 1, false);
    match v {
      case Integer(n) => DigitsSeven(if n < 0 then -n else n);
      case String(s) => StringSeven(s, flags);
      case Array(items) => ItemsSeven(items, flags, k);
      case Object(members) => MembersSeven(members, flags, k);
      case _ =>
    }
  }

  lemma IndentSeven(flags: DumpFlags, k: nat, space: bool)
    ensures Seven(IndentText(flags, k, space))
  {
  }

  lemma FollowSeven(last: bool, flags: DumpFlags, k: nat)
    ensures Seven(Follow(last, flags, k)) && Seven(Separator(flags))
  {
    hide IndentText;
    IndentSeven(flags, k, false);
    IndentSeven(flags, k + 1, true);
  }

  lemma {:induction false} ItemsSeven(items: seq<Value>, flags: DumpFlags, k: nat)
    requires flags.ensureAscii && forall i | 0 <= i < |items| :: WellFormed(items[i])
    ensures Seven(ItemsText(items, flags, k))
    decreases items, 0
  {
    hide Follow, ValueText, Seven, WellFormed;
    if items == [] {
      NothingSeven();
    } else {
      OnlyAscii(items[0], flags, k + 1);
      FollowSeven(|items| == 1, flags, k);
      ItemsSeven(items[1..], flags, k);
      SevenJoin(ValueText(items[0], flags, k + 1), Follow(|items| == 1, flags, k));
      SevenJoin(ValueText(items[0], flags, k + 1) + Follow(|items| == 1, flags, k), ItemsText(items[1..], flags, k));
    }
  }

  lemma NothingSeven()
    ensures Seven([])
  {
  }

  lemma {:induction false} MembersSeven(members: seq<Member>, flags: DumpFlags, k: nat)
    requires flags.ensureAscii && forall i | 0 <= i < |members| :: KeyOk(members[i].key) && WellFormed(members[i].value)
    ensures Seven(MembersText(members, flags, k))
    decreases members, 0
  {
    hide Follow, ValueText, StringText, Separator, Seven, WellFormed, Valid;
    if members == [] {
      NothingSeven();
    } else {
      var m := members[0];
      StringSeven(m.key, flags);
      OnlyAscii(m.value, flags, k + 1);
      FollowSeven(|members| == 1, flags, k);
      MembersSeven(members[1..], flags, k);
      SevenJoin(StringText(m.key, flags), Separator(flags));
      SevenJoin(StringText(m.key, flags) + Separator(flags), ValueText(m.value, flags, k + 1));
      SevenJoin(MemberText(m, flags, k), Follow(|members| == 1, flags, k));
      SevenJoin(MemberText(m, flags, k) + Follow(|members| == 1, flags, k), MembersText(members[1..], flags, k));
    }
  }

  // ---------------------------------------------------------------- indentation

  /** A new line at this depth, or nothing without JSON_INDENT. */
  function Line(flags: DumpFlags, depth: nat): Bytes {
    if flags.indent == 0 then [] else Codes("\n") + seq(depth * flags.indent, i => ' ' as int)
  }

  /** Between two elements: a comma and a new line, or a comma and, without JSON_COMPACT, a space. */
  function Between(flags: DumpFlags, depth: nat): Bytes {
    Codes(",") + if flags.indent > 0 then Line(flags, depth) else if flags.compact then [] else Codes(" ")
  }

  function Join(texts: seq<Bytes>, between: Bytes): Bytes
    requires texts != []
  {
    if |texts| == 1 then texts[0] else texts[0] + between + Join(texts[1..], between)
  }

  lemma Gaps(flags: DumpFlags, k: nat)
    ensures IndentText(flags, k, false) == Line(flags, k)
    ensures Follow(true, flags, k) == Line(flags, k) && Follow(false, flags, k) == Between(flags, k + 1)
  {
    assert flags.indent > 0 ==> Spaces(k * flags.indent) == seq(k * flags.indent, i => ' ' as int);
    assert flags.indent > 0 ==> Spaces((k + 1) * flags.indent) == seq((k + 1) * flags.indent, i => ' ' as int);
  }

  ghost function ItemTexts(items: seq<Value>, flags: DumpFlags, k: nat): (texts: seq<Bytes>)
    requires forall i | 0 <= i < |items| :: WellFormed(items[i])
    ensures |texts| == |items| && forall i | 0 <= i < |items| :: texts[i] == ValueText(items[i], flags, k)
  {
    seq(|items|, i requires 0 <= i < |items| => ValueText(items[i], flags, k))
  }

  lemma {:induction false} ItemsJoined(items: seq<Value>, flags: DumpFlags, k: nat)
    requires items != [] && forall i | 0 <= i < |items| :: WellFormed(items[i])
    ensures ItemsText(items, flags, k) == Join(ItemTexts(items, flags, k + 1), Between(flags, k + 1)) + Line(flags, k)
  {
    hide Line, Between, Follow, ValueText, WellFormed;
    Gaps(flags, k);
    if |items| == 1 {
      assert ItemsText(items[1..], flags, k) == [];
    } else {
      ItemsJoined(items[1..], flags, k);
      assert ItemTexts(items, flags, k + 1)[1..] == ItemTexts(items[1..], flags, k + 1);
    }
  }

  /** The text of an array, spelled out. */
  lemma ArrayLayout(items: seq<Value>, flags: DumpFlags, k: nat)
    requires WellFormed(Array(items))
    ensures items == [] ==> ValueText(Array(items), flags, k) == Codes("[]")
    ensures items != [] ==>
              ValueText(Array(items), flags, k) ==
                Codes("[") + Line(flags, k + 1) + (Join(ItemTexts(items, flags, k + 1), Between(flags, k + 1)) + Line(flags, k)) + Codes("]")
  {
    hide Line, Between, IndentText, ItemsText, Join;
    Gaps(flags, k + 1);
    if items != [] {
      ItemsJoined(items, flags, k);
    }
  }

  /** A key, a colon, a space without JSON_COMPACT, and the value. */
  ghost function PairText(m: Member, flags: DumpFlags, k: nat): Bytes
    requires KeyOk(m.key) && WellFormed(m.value)
  {
    StringText(m.key, flags) + (if flags.compact then Codes(":") else Codes(": ")) + ValueText(m.value, flags, k)
  }

  ghost function PairTexts(members: seq<Member>, flags: DumpFlags, k: nat): (texts: seq<Bytes>)
    requires forall i | 0 <= i < |members| :: KeyOk(members[i].key) && WellFormed(members[i].value)
    ensures |texts| == |members| && forall i | 0 <= i < |members| :: texts[i] == PairText(members[i], flags, k)
  {
    seq(|members|, i requires 0 <= i < |members| => PairText(members[i], flags, k))
  }

  lemma PairIs(m: Member, flags: DumpFlags, k: nat)
    requires KeyOk(m.key) && WellFormed(m.value)
    ensures MemberText(m, flags, k) == PairText(m, flags, k + 1)
  {
    hide StringText, ValueText;
    assert Separator(flags) == if flags.compact then Codes(":") else Codes(": ");
  }

  lemma {:induction false} MembersJoined(members: seq<Member>, flags: DumpFlags, k: nat)
    requires members != [] && forall i | 0 <= i < |members| :: KeyOk(members[i].key) && WellFormed(members[i].value)
    ensures MembersText(members, flags, k) == Join(PairTexts(members, flags, k + 1), Between(flags, k + 1)) + Line(flags, k)
  {
    hide Line, Between, Follow, MemberText, PairText, WellFormed, KeyOk;
    Gaps(flags, k);
    PairIs(members[0], flags, k);
    if |members| == 1 {
      assert MembersText(members[1..], flags, k) == [];
    } else {
      MembersJoined(members[1..], flags, k);
      assert PairTexts(members, flags, k + 1)[1..] == PairTexts(members[1..], flags, k + 1);
    }
  }

  /** The text of an object, spelled out. */
  lemma ObjectLayout(members: seq<Member>, flags: DumpFlags, k: nat)
    requires WellFormed(Object(members))
    ensures members == [] ==> ValueText(Object(members), flags, k) == Codes("{}")
    ensures members != [] ==>
              ValueText(Object(members), flags, k) ==
                Codes("{") + Line(flags, k + 1) + (Join(PairTexts(members, flags, k + 1), Between(flags, k + 1)) + Line(flags, k)) + Codes("}")
  {
    hide Line, Between, IndentText, MembersText, Join;
    Gaps(flags, k + 1);
    if members != [] {
      MembersJoined(members, flags, k);
    }
  }
}
