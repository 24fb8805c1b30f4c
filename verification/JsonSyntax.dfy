/**
 The grammar of RFC 8259 as syntax trees: each has a source text and, for jansson, a meaning. The parser accepts
 exactly the sources of well-formed trees and gives their meanings. Trees that are not standard have a NUL after
 a number or a word, which jansson overlooks.
 */
module JsonSyntax {
  import opened Wrappers
  import opened Utf8
  import opened JsonText
  import opened JsonGrammar
  import opened JsonRoundTrip
  import opened JsonLexer

  // ---------------------------------------------------------------- the grammar

  /** Section 7 of RFC 8259; an unescaped character is taken byte by byte, as the whole text is UTF-8. */
  datatype Char =
    | Unescaped(c: Byte)
    | Letter(c: Byte)
    | Unit(hex: Bytes)
    | Surrogates(high: Bytes, low: Bytes)

  predicate FourHex(b: Bytes) {
    |b| == 4 && forall i | 0 <= i < 4 :: IsHex(b[i])
  }

  /** Section 8.2 leaves open what unpaired surrogates mean; jansson does not take them. */
  predicate CharFormed(c: Char) {
    match c
    case Unescaped(b) => b >= 0x20 && b != QUOTE && b != BACKSLASH
    case Letter(b) => IsShort(b)
    case Unit(hex) => FourHex(hex) && !IsHigh(Hex4(hex)) && !IsLow(Hex4(hex))
    case Surrogates(high, low) => FourHex(high) && FourHex(low) && IsHigh(Hex4(high)) && IsLow(Hex4(low))
  }

  function CharSource(c: Char): Bytes {
    match c
    case Unescaped(b) => [b]
    case Letter(b) => [BACKSLASH, b]
    case Unit(hex) => [BACKSLASH, LETTER_U] + hex
    case Surrogates(high, low) => [BACKSLASH, LETTER_U] + high + ([BACKSLASH, LETTER_U] + low)
  }

  lemma HexRange(hex: Bytes)
    requires FourHex(hex)
    ensures 0 <= Hex4(hex) < 0x10000
  {
    assert forall i | 0 <= i < 4 :: 0 <= HexValue(hex[i]) < 16;
  }

  function CharMeans(c: Char): Bytes
    requires CharFormed(c)
  {
    match c
    case Unescaped(b) => [b]
    case Letter(b) => [Short(b)]
    case Unit(hex) => HexRange(hex); Encode(Hex4(hex))
    case Surrogates(high, low) => Encode(Unpaired(Hex4(high), Hex4(low)))
  }

  predicate CharsFormed(cs: seq<Char>) {
    forall i | 0 <= i < |cs| :: CharFormed(cs[i])
  }

  function CharsSource(cs: seq<Char>): Bytes {
    if cs == [] then [] else CharSource(cs[0]) + CharsSource(cs[1..])
  }

  function CharsMeans(cs: seq<Char>): Bytes
    requires CharsFormed(cs)
  {
    if cs == [] then [] else CharMeans(cs[0]) + CharsMeans(cs[1..])
  }

  /** `exponent` is empty, or `e`, a sign or none, and digits. */
  datatype Numeral = Numeral(minus: bool, whole: Bytes, fraction: Bytes, exponent: Bytes)

  predicate AllDigits(b: Bytes) {
    forall i | 0 <= i < |b| :: IsDigit(b[i])
  }

  /** Section 6 of RFC 8259. */
  predicate NumeralFormed(n: Numeral) {
    && AllDigits(n.whole) && n.whole != [] && (n.whole[0] == 48 ==> |n.whole| == 1)
    && (n.fraction == [] || (n.fraction[0] == 46 && |n.fraction| > 1 && AllDigits(n.fraction[1..])))
    && (n.exponent == [] || ExponentFormed(n.exponent))
  }

  predicate ExponentFormed(b: Bytes) {
    && |b| > 1 && IsExponent(b[0])
    && var sign := if b[1] == 43 || b[1] == 45 then 2 else 1;
    |b| > sign && AllDigits(b[sign..])
  }

  function WholeSource(n: Numeral): Bytes {
    (if n.minus then [45] else []) + n.whole
  }

  function NumeralSource(n: Numeral): Bytes {
    WholeSource(n) + n.fraction + n.exponent
  }

  /** jansson's integers have 64 bits; a number with a fraction or an exponent is a real, which must not overflow. */
  function NumeralMeans(n: Numeral, flags: LoadFlags): Option<Value>
    requires NumeralFormed(n)
  {
    if !flags.decodeIntAsReal && n.fraction == [] && n.exponent == [] then
      var i := ToInteger(WholeSource(n));
      if i.None? then None else Some(Integer(i.value))
    else if Overflows(NumeralSource(n)) then None
    else Some(Real(NumeralSource(n)))
  }

  /** `true`, `false` and `null` (section 3 of RFC 8259). */
  datatype Keyword = KwTrue | KwFalse | KwNull

  function KeywordSource(k: Keyword): Bytes {
    match k
    case KwTrue => [116, 114, 117, 101]
    case KwFalse => [102, 97, 108, 115, 101]
    case KwNull => [110, 117, 108, 108]
  }

  function KeywordMeans(k: Keyword): Value {
    match k
    case KwTrue => True
    case KwFalse => False
    case KwNull => Null
  }

  /**
   Sections 2 to 5. `pad` is the white space in an empty array or object; `nul` stands for a NUL behind, which the
   grammar does not have.
   */
  datatype Syntax =
    | Named(keyword: Keyword, nul: bool)
    | Number(numeral: Numeral, nul: bool)
    | Quoted(chars: seq<Char>)
    | List(pad: Bytes, items: seq<Item>)
    | Record(pad: Bytes, pairs: seq<Pair>)

  /** A value with the white space around it. */
  datatype Item = Item(before: Bytes, value: Syntax, after: Bytes)

  /** `key : value` with white space before the key and before the colon. */
  datatype Pair = Pair(before: Bytes, key: seq<Char>, between: Bytes, item: Item)

  predicate White(b: Bytes) {
    forall i | 0 <= i < |b| :: IsSpace(b[i])
  }

  predicate Formed(s: Syntax) {
    match s
    case Named(_, _) => true
    case Number(n, _) => NumeralFormed(n)
    case Quoted(chars) => CharsFormed(chars)
    case List(pad, items) => White(pad) && forall i | 0 <= i < |items| :: ItemFormed(items[i])
    case Record(pad, pairs) => White(pad) && forall i | 0 <= i < |pairs| :: PairFormed(pairs[i])
  }

  /** No NUL anywhere: the tree is one of RFC 8259's grammar. */
  predicate Standard(s: Syntax) {
    match s
    case Named(_, nul) => !nul
    case Number(_, nul) => !nul
    case Quoted(_) => true
    case List(_, items) => forall i | 0 <= i < |items| :: Standard(items[i].value)
    case Record(_, pairs) => forall i | 0 <= i < |pairs| :: Standard(pairs[i].item.value)
  }

  predicate ItemFormed(item: Item) {
    White(item.before) && Formed(item.value) && White(item.after)
  }

  predicate PairFormed(p: Pair) {
    White(p.before) && CharsFormed(p.key) && White(p.between) && White(p.item.before) && Formed(p.item.value) && White(p.item.after)
  }

  function StringSource(chars: seq<Char>): Bytes {
    [QUOTE] + CharsSource(chars) + [QUOTE]
  }

  function Nul(there: bool): Bytes {
    if there then [0] else []
  }

  function Source(s: Syntax): Bytes {
    match s
    case Named(k, nul) => KeywordSource(k) + Nul(nul)
    case Number(n, nul) => NumeralSource(n) + Nul(nul)
    case Quoted(chars) => StringSource(chars)
    case List(pad, items) => [91] + (if items == [] then pad else ItemsSource(items)) + [93]
    case Record(pad, pairs) => [123] + (if pairs == [] then pad else PairsSource(pairs)) + [125]
  }

  function ItemSource(item: Item): Bytes {
    item.before + Source(item.value) + item.after
  }

  /** Values with commas between them. */
  function ItemsSource(items: seq<Item>): Bytes
    requires items != []
  {
    ItemSource(items[0]) + if |items| == 1 then [] else [COMMA] + ItemsSource(items[1..])
  }

  function PairSource(p: Pair): Bytes {
    p.before + StringSource(p.key) + p.between + [COLON] + ItemSource(p.item)
  }

  function PairsSource(pairs: seq<Pair>): Bytes
    requires pairs != []
  {
    PairSource(pairs[0]) + if |pairs| == 1 then [] else [COMMA] + PairsSource(pairs[1..])
  }

  /**
   What jansson takes the text for: a later member replaces an earlier one in its place. There is no meaning for an
   integer out of range, a key with NUL, and, depending on flags, a string with NUL or a key that comes twice.
   */
  function Means(s: Syntax, flags: LoadFlags): Option<Value>
    requires Formed(s)
    decreases s
  {
    match s
    case Named(k, _) => Some(KeywordMeans(k))
    case Number(n, _) => NumeralMeans(n, flags)
    case Quoted(chars) =>
      if !flags.allowNul && 0 in CharsMeans(chars) then None else Some(String(CharsMeans(chars)))
    case List(_, items) =>
      var values := ItemsMean(items, flags);
      if values.None? then None else Some(Array(values.value))
    case Record(_, pairs) =>
      var members := PairsMean(pairs, [], flags);
      if members.None? then None else Some(Object(members.value))
  }

  function ItemsMean(items: seq<Item>, flags: LoadFlags): Option<seq<Value>>
    requires forall i | 0 <= i < |items| :: ItemFormed(items[i])
    decreases items
  {
    if items == [] then Some([])
    else
      assert ItemFormed(items[0]);
      var first := Means(items[0].value, flags);
      var more := ItemsMean(items[1..], flags);
      if first.None? || more.None? then None else Some([first.value] + more.value)
  }

  /** A member that may join those read so far. */
  predicate Fresh(key: Bytes, members: seq<Member>, flags: LoadFlags) {
    0 !in key && !(flags.rejectDuplicates && HasKey(members, key))
  }

  function PairsMean(pairs: seq<Pair>, members: seq<Member>, flags: LoadFlags): Option<seq<Member>>
    requires forall i | 0 <= i < |pairs| :: PairFormed(pairs[i])
    decreases pairs
  {
    if pairs == [] then Some(members)
    else
      assert PairFormed(pairs[0]);
      var key := CharsMeans(pairs[0].key);
      var value := Means(pairs[0].item.value, flags);
      if value.None? || !Fresh(key, members, flags) then None
      else PairsMean(pairs[1..], SetMember(members, key, value.value), flags)
  }

  /** Nested at most `levels` deep. */
  predicate Shallow(s: Syntax, levels: int)
    decreases s
  {
    levels > 0 &&
    match s
    case List(_, items) => forall i | 0 <= i < |items| :: Shallow(items[i].value, levels - 1)
    case Record(_, pairs) => forall i | 0 <= i < |pairs| :: Shallow(pairs[i].item.value, levels - 1)
    case _ => true
  }

  /** `text` is the item's source and stands for `v`, nested no deeper than jansson allows. */
  ghost predicate StandsFor(item: Item, text: Bytes, v: Value, flags: LoadFlags) {
    && ItemFormed(item) && text == ItemSource(item)
    && Means(item.value, flags) == Some(v) && Shallow(item.value, 2048)
    && (flags.decodeAny || item.value.List? || item.value.Record?)
  }

  /** `text` is a JSON text (section 2 of RFC 8259) for `v`. */
  ghost predicate Document(text: Bytes, v: Value, flags: LoadFlags) {
    exists item: Item :: StandsFor(item, text, v, flags) && Standard(item.value)
  }

  /** The same but for a NUL here and there after a number or a word. */
  ghost predicate Tolerated(text: Bytes, v: Value, flags: LoadFlags) {
    exists item: Item :: StandsFor(item, text, v, flags)
  }

  // ---------------------------------------------------------------- every source is read: tokens

  lemma {:induction false} WhiteSkipped(white: Bytes, t: Bytes)
    requires White(white)
    ensures SkipSpace(white + t) == SkipSpace(t)
  {
    if white == [] {
      assert white + t == t;
    } else {
      WhiteSkipped(white[1..], t);
      assert (white + t)[1..] == white[1..] + t;
    }
  }

  lemma WhiteScanned(white: Bytes, t: Bytes, env: Env)
    requires White(white)
    ensures Scan(white + t, env.bad, env.flags) == Scan(t, env.bad, env.flags)
  {
    WhiteSkipped(white, t);
  }

  lemma HexEscape(hex: Bytes, rest: Bytes)
    requires FourHex(hex)
    ensures EscapeLength([BACKSLASH, LETTER_U] + hex + rest) == Some(6)
    ensures Hex4(([BACKSLASH, LETTER_U] + hex + rest)[2..6]) == Hex4(hex) && 0 <= Hex4(hex) < 0x10000
  {
    HexRange(hex);
    assert ([BACKSLASH, LETTER_U] + hex + rest)[2..6] == hex;
  }

  lemma UnitRead(hex: Bytes, rest: Bytes)
    requires CharFormed(Unit(hex))
    ensures CharAt([BACKSLASH, LETTER_U] + hex + rest) == Some((CharMeans(Unit(hex)), 6))
  {
    hide Encode, EscapeLength, Hex4;
    HexEscape(hex, rest);
  }

  lemma SurrogatesRead(high: Bytes, low: Bytes, rest: Bytes)
    requires CharFormed(Surrogates(high, low))
    ensures CharAt(CharSource(Surrogates(high, low)) + rest) == Some((CharMeans(Surrogates(high, low)), 12))
  {
    hide Encode, EscapeLength, Hex4;
    var first, second := [BACKSLASH, LETTER_U] + high, [BACKSLASH, LETTER_U] + low;
    HexEscape(high, second + rest);
    HexEscape(low, rest);
    var t := first + second + rest;
    assert t == first + (second + rest);
    assert t[6..] == second + rest;
    assert t[8..12] == (second + rest)[2..6];
  }

  /** Decoding a text character by character. */
  lemma Decoded(source: Bytes, meaning: Bytes, rest: Bytes)
    requires source != [] && CharAt(source + rest) == Some((meaning, |source|))
    ensures Unescape(rest).Some? ==> Unescape(source + rest) == Some(meaning + Unescape(rest).value)
  {
    hide CharAt;
    assert (source + rest)[|source|..] == rest;
  }

  /** One character is decoded. */
  lemma CharMeant(c: Char, rest: Bytes)
    requires CharFormed(c)
    ensures Unescape(rest).Some? ==> Unescape(CharSource(c) + rest) == Some(CharMeans(c) + Unescape(rest).value)
  {
    hide Encode, CharAt, EscapeLength, Hex4, Unescape;
    match c {
      case Unescaped(b) => if Unescape(rest).Some? { PlainBack([b], rest); }
      case Letter(b) => LetterRead(b, rest);
      case Unit(hex) => UnitRead(hex, rest);
      case Surrogates(high, low) => SurrogatesRead(high, low, rest);
    }
    if !c.Unescaped? {
      Decoded(CharSource(c), CharMeans(c), rest);
    }
  }

  /** One character is scanned over. */
  lemma CharScanned(c: Char, rest: Bytes)
    requires CharFormed(c) && RawLength(rest).Some?
    ensures RawLength(CharSource(c) + rest) == Some(|CharSource(c)| + RawLength(rest).value)
  {
    hide RawLength, EscapeLength, Hex4;
    match c {
      case Unescaped(b) => PlainRaw([b], rest);
      case Letter(b) =>
        LetterRead(b, rest);
        RawStep([BACKSLASH, b], rest);
      case Unit(hex) =>
        HexEscape(hex, rest);
        RawStep([BACKSLASH, LETTER_U] + hex, rest);
      case Surrogates(high, low) => SurrogatesRaw(high, low, rest);
    }
  }

  lemma LetterRead(b: Byte, rest: Bytes)
    requires IsShort(b)
    ensures EscapeLength([BACKSLASH, b] + rest) == Some(2)
    ensures CharAt([BACKSLASH, b] + rest) == Some(([Short(b)], 2))
  {
  }

  lemma SurrogatesRaw(high: Bytes, low: Bytes, rest: Bytes)
    requires FourHex(high) && FourHex(low) && RawLength(rest).Some?
    ensures RawLength(CharSource(Surrogates(high, low)) + rest) == Some(12 + RawLength(rest).value)
  {
    hide RawLength, EscapeLength, Hex4;
    var first, second := [BACKSLASH, LETTER_U] + high, [BACKSLASH, LETTER_U] + low;
    HexEscape(low, rest);
    RawStep(second, rest);
    HexEscape(high, second + rest);
    RawStep(first, second + rest);
    Regrouped(first, second, rest);
  }

  lemma {:induction false} CharsRead(cs: seq<Char>, rest: Bytes)
    requires CharsFormed(cs)
    ensures RawLength(CharsSource(cs) + ([QUOTE] + rest)) == Some(|CharsSource(cs)|)
    ensures Unescape(CharsSource(cs)) == Some(CharsMeans(cs))
  {
    hide CharSource, CharMeans, CharFormed, RawLength, Unescape;
    if cs == [] {
      QuoteEnds(rest);
      assert [] + [QUOTE] + rest == [] + ([QUOTE] + rest);
    } else {
      var first, more := CharSource(cs[0]), CharsSource(cs[1..]);
      CharsRead(cs[1..], rest);
      CharMeant(cs[0], more);
      CharScanned(cs[0], more + ([QUOTE] + rest));
      assert first + more + ([QUOTE] + rest) == first + (more + ([QUOTE] + rest));
    }
  }

  lemma StringRead(chars: seq<Char>, rest: Bytes, env: Env)
    requires CharsFormed(chars)
    ensures Scan(StringSource(chars) + rest, env.bad, env.flags) == (Str(CharsMeans(chars)), rest)
  {
    hide RawLength, Unescape, CharsSource, CharsMeans, CharFormed;
    CharsRead(chars, rest);
    var b := CharsSource(chars);
    var t := b + ([QUOTE] + rest);
    assert (StringSource(chars) + rest)[1..] == t;
    assert t[..|b|] == b && t[|b| + 1..] == rest;
  }

  lemma WholeRead(n: Numeral, rest: Bytes)
    requires NumeralFormed(n) && (rest == [] || !IsDigit(rest[0]))
    ensures IntegerLength(WholeSource(n) + rest) == Some(|WholeSource(n)|)
  {
    hide DigitCount;
    var t := WholeSource(n) + rest;
    CountAll(n.whole, rest);
    assert t[if n.minus then 1 else 0..] == n.whole + rest;
  }

  lemma FractionRead(b: Bytes, rest: Bytes)
    requires b == [] || (b[0] == 46 && |b| > 1 && AllDigits(b[1..]))
    requires rest == [] || (!IsDigit(rest[0]) && rest[0] != 46)
    ensures FractionLength(b + rest) == Some(|b|)
  {
    hide DigitCount;
    if b == [] {
      assert b + rest == rest;
    } else {
      CountAll(b[1..], rest);
      assert (b + rest)[1..] == b[1..] + rest;
    }
  }

  lemma ExponentRead(b: Bytes, rest: Bytes)
    requires b == [] || ExponentFormed(b)
    requires rest == [] || (!IsDigit(rest[0]) && !IsExponent(rest[0]))
    ensures ExponentLength(b + rest) == Some(|b|)
  {
    hide DigitCount;
    if b == [] {
      assert b + rest == rest;
    } else {
      var sign := if b[1] == 43 || b[1] == 45 then 2 else 1;
      CountAll(b[sign..], rest);
      assert (b + rest)[sign..] == b[sign..] + rest;
    }
  }

  /** The token of a number. */
  function NumberToken(n: Numeral, flags: LoadFlags): Token
    requires NumeralFormed(n)
  {
    var v := NumeralMeans(n, flags);
    if v.None? then Invalid else if v.value.Integer? then Int(v.value.n) else RealNumber(NumeralSource(n))
  }

  /** The three parts of a number, where the scanner finds them. */
  lemma NumeralParts(n: Numeral, rest: Bytes)
    requires NumeralFormed(n) && (rest == [] || (!IsDigit(rest[0]) && rest[0] != 46 && !IsExponent(rest[0])))
    ensures var t, after, whole := NumeralSource(n) + rest, n.fraction + (n.exponent + rest), |WholeSource(n)|;
            && IntegerLength(t) == Some(whole) && t[..whole] == WholeSource(n) && t[whole..] == after
            && FractionLength(after) == Some(|n.fraction|) && after[|n.fraction|..] == n.exponent + rest
            && ExponentLength(n.exponent + rest) == Some(|n.exponent|)
  {
    hide IntegerLength, FractionLength, ExponentLength, WholeSource, AllDigits;
    var after := n.fraction + (n.exponent + rest);
    WholeRead(n, after);
    FractionRead(n.fraction, n.exponent + rest);
    ExponentRead(n.exponent, rest);
    assert NumeralSource(n) + rest == WholeSource(n) + after;
  }

  lemma Ends(b: Bytes, rest: Bytes)
    ensures (b + rest)[..|b|] == b && (b + rest)[|b|..] == rest
  {
  }

  /** What the lengths of the parts make of a number. */
  lemma PartsScanned(t: Bytes, i: nat, f: nat, e: nat, flags: LoadFlags)
    requires IntegerLength(t) == Some(i) && FractionLength(t[i..]) == Some(f) && ExponentLength(t[i..][f..]) == Some(e)
    ensures i + f + e <= |t| && t[..i] != []
    ensures ScanNumber(t, flags) ==
              if !flags.decodeIntAsReal && f == 0 && e == 0 then
                var n := ToInteger(t[..i]);
                if n.None? then (Invalid, []) else (Int(n.value), Unread(t[i..]))
              else if Overflows(t[..i + f + e]) then (Invalid, [])
              else (RealNumber(t[..i + f + e]), Unread(t[i + f + e..]))
  {
    hide IntegerLength, DigitCount, ToInteger, Overflows, Unread;
    assert f == 0 ==> t[i..][f..] == t[i..];
  }

  lemma NumeralRead(n: Numeral, nul: bool, rest: Bytes, flags: LoadFlags)
    requires NumeralFormed(n) && Delimited(rest) && NumeralMeans(n, flags).Some?
    ensures ScanNumber(NumeralSource(n) + (Nul(nul) + rest), flags) == (NumberToken(n, flags), rest)
    ensures NumeralSource(n) != [] && (IsDigit(NumeralSource(n)[0]) || NumeralSource(n)[0] == 45)
  {
    hide ScanNumber, IntegerLength, FractionLength, ExponentLength, ToInteger, Overflows, WholeSource, AllDigits, Nul, Unread;
    NulUnread(nul, rest);
    NumeralParts(n, Nul(nul) + rest);
    PartsScanned(NumeralSource(n) + (Nul(nul) + rest), |WholeSource(n)|, |n.fraction|, |n.exponent|, flags);
    Ends(NumeralSource(n), Nul(nul) + rest);
    WholeFirst(n);
    if n.fraction == [] && n.exponent == [] {
      assert NumeralSource(n) == WholeSource(n);
    }
  }

  /** The NUL is given back and lost. */
  lemma NulUnread(nul: bool, rest: Bytes)
    requires Delimited(rest)
    ensures Unread(Nul(nul) + rest) == rest
    ensures var t := Nul(nul) + rest; t == [] || (!IsDigit(t[0]) && t[0] != 46 && !IsExponent(t[0]) && !IsAlpha(t[0]))
  {
    assert !nul ==> Nul(nul) + rest == rest;
  }

  function KeywordToken(k: Keyword): Token {
    match k
    case KwTrue => TrueWord
    case KwFalse => FalseWord
    case KwNull => NullWord
  }

  lemma KeywordRead(k: Keyword, nul: bool, rest: Bytes)
    requires Delimited(rest)
    ensures ScanWord(KeywordSource(k) + (Nul(nul) + rest)) == (KeywordToken(k), rest)
  {
    hide Unread;
    var b, after := KeywordSource(k), Nul(nul) + rest;
    NulUnread(nul, rest);
    AlphaAll(b, after);
    assert (b + after)[..|b|] == b && (b + after)[|b|..] == after;
  }

  lemma WholeFirst(n: Numeral)
    requires NumeralFormed(n)
    ensures WholeSource(n) != [] && (IsDigit(WholeSource(n)[0]) || WholeSource(n)[0] == 45)
  {
  }

  // ---------------------------------------------------------------- every source is read: values

  lemma NumberRead(n: Numeral, nul: bool, env: Env, rest: Bytes)
    requires NumeralFormed(n) && NumeralMeans(n, env.flags).Some? && Delimited(rest)
    ensures Scan(Source(Number(n, nul)) + rest, env.bad, env.flags) == (NumberToken(n, env.flags), rest)
  {
    hide ScanNumber, NumeralSource, NumeralMeans, NumeralFormed, NumberToken;
    NumeralRead(n, nul, rest, env.flags);
    assert Source(Number(n, nul)) + rest == NumeralSource(n) + (Nul(nul) + rest);
    assert (Source(Number(n, nul)) + rest)[0] == NumeralSource(n)[0];
  }

  lemma NamedRead(k: Keyword, nul: bool, env: Env, rest: Bytes)
    requires Delimited(rest)
    ensures Scan(Source(Named(k, nul)) + rest, env.bad, env.flags) == (KeywordToken(k), rest)
  {
    hide ScanWord;
    KeywordRead(k, nul, rest);
    assert Source(Named(k, nul)) + rest == KeywordSource(k) + (Nul(nul) + rest);
  }

  lemma ScalarRead(s: Syntax, env: Env, depth: nat, rest: Bytes)
    requires Formed(s) && Means(s, env.flags).Some? && Shallow(s, MAX_DEPTH - depth) && Delimited(rest)
    requires !s.List? && !s.Record?
    ensures ReadsBack(Source(s) + rest, Means(s, env.flags).value, env, depth, rest)
  {
    hide Scan, NumeralSource, StringSource, NumeralMeans, CharsMeans, NumeralFormed, CharFormed;
    if s.Named? {
      NamedRead(s.keyword, s.nul, env, rest);
    } else if s.Number? {
      NumberRead(s.numeral, s.nul, env, rest);
      RealOrInt(s.numeral, env.flags);
    } else {
      StringRead(s.chars, rest, env);
    }
  }

  lemma RealOrInt(n: Numeral, flags: LoadFlags)
    requires NumeralFormed(n) && NumeralMeans(n, flags).Some?
    ensures var v := NumeralMeans(n, flags).value;
            v.Integer? || v == Real(NumeralSource(n))
  {
  }

  /** White space and a closing bracket or comma after a value. */
  lemma Closed(white: Bytes, c: Byte, next: Bytes, env: Env)
    requires White(white) && (c == COMMA || c == 93 || c == 125 || c == COLON)
    ensures Scan(white + ([c] + next), env.bad, env.flags) == (Punct(c), next)
    ensures c != COLON ==> Delimited(white + ([c] + next))
  {
    WhiteScanned(white, [c] + next, env);
    PunctBack(c, next, env);
    assert white != [] ==> (white + ([c] + next))[0] == white[0];
  }

  ghost predicate ItemsFit(items: seq<Item>, env: Env, depth: nat) {
    forall i | 0 <= i < |items| :: ItemFormed(items[i]) && Shallow(items[i].value, MAX_DEPTH - depth)
  }

  lemma {:induction false} ItemRead(item: Item, env: Env, depth: nat, c: Byte, next: Bytes)
    requires ItemFormed(item) && Shallow(item.value, MAX_DEPTH - depth) && Means(item.value, env.flags).Some?
    requires c == COMMA || c == 93 || c == 125
    ensures ReadsBack(ItemSource(item) + ([c] + next), Means(item.value, env.flags).value, env, depth, item.after + ([c] + next))
    ensures Scan(item.after + ([c] + next), env.bad, env.flags) == (Punct(c), next)
    decreases item, 3
  {
    hide Scan, Means, Shallow, White, Formed, Delimited, ParseValue;
    var rest := item.after + ([c] + next);
    Closed(item.after, c, next, env);
    SyntaxRead(item.value, env, depth, rest);
    WhiteScanned(item.before, Source(item.value) + rest, env);
    assert ItemSource(item) + ([c] + next) == item.before + (Source(item.value) + rest);
  }

  lemma {:induction false} ItemsRead(items: seq<Item>, done: seq<Value>, env: Env, depth: nat, rest: Bytes)
    requires items != [] && ItemsFit(items, env, depth) && ItemsMean(items, env.flags).Some?
    ensures var (token, t) := Scan(ItemsSource(items) + ([93] + rest), env.bad, env.flags);
            && !Ended(token) && token != Punct(93)
            && ParseItems(token, t, done, env, depth) == Some((Array(done + ItemsMean(items, env.flags).value), rest))
    decreases items, 4
  {
    hide Scan, Means, Shallow, White, Formed, ItemSource;
    var first := Means(items[0].value, env.flags).value;
    if |items| == 1 {
      ItemRead(items[0], env, depth, 93, rest);
      assert ItemsSource(items) == ItemSource(items[0]);
      assert ItemsMean(items[1..], env.flags) == Some([]);
      assert done + [first] == done + ([first] + []);
    } else {
      var more := ItemsMean(items[1..], env.flags).value;
      var next := ItemsSource(items[1..]) + ([93] + rest);
      ItemRead(items[0], env, depth, COMMA, next);
      ItemsRead(items[1..], done + [first], env, depth, rest);
      assert ItemsSource(items) + ([93] + rest) == ItemSource(items[0]) + ([COMMA] + next);
      assert done + [first] + more == done + ([first] + more);
    }
  }

  lemma {:induction false} ListRead(s: Syntax, env: Env, depth: nat, rest: Bytes)
    requires s.List? && Formed(s) && Means(s, env.flags).Some? && Shallow(s, MAX_DEPTH - depth)
    ensures ReadsBack(Source(s) + rest, Means(s, env.flags).value, env, depth, rest)
    decreases s, 1
  {
    hide Scan, ItemsSource, ItemsMean, ParseItems, White;
    var inner := (if s.items == [] then s.pad else ItemsSource(s.items)) + ([93] + rest);
    PunctBack(91, inner, env);
    assert Source(s) + rest == [91] + inner;
    if s.items == [] {
      NoItems(env.flags);
      Closed(s.pad, 93, rest, env);
      assert ParseArray(inner, env, depth + 1) == Some((Array([]), rest));
    } else {
      var values := ItemsMean(s.items, env.flags).value;
      ItemsRead(s.items, [], env, depth + 1, rest);
      assert [] + values == values;
      assert ParseArray(inner, env, depth + 1) == Some((Array(values), rest));
    }
  }

  lemma NoItems(flags: LoadFlags)
    ensures ItemsMean([], flags) == Some([]) && PairsMean([], [], flags) == Some([])
  {
  }

  ghost predicate PairsFit(pairs: seq<Pair>, env: Env, depth: nat) {
    forall i | 0 <= i < |pairs| :: PairFormed(pairs[i]) && Shallow(pairs[i].item.value, MAX_DEPTH - depth)
  }

  lemma {:induction false} PairRead(p: Pair, done: seq<Member>, env: Env, depth: nat, c: Byte, next: Bytes)
    requires PairFormed(p) && Shallow(p.item.value, MAX_DEPTH - depth) && Means(p.item.value, env.flags).Some?
    requires Fresh(CharsMeans(p.key), done, env.flags) && (c == COMMA || c == 125)
    ensures var (token, t) := Scan(PairSource(p) + ([c] + next), env.bad, env.flags);
            var m := Member(CharsMeans(p.key), Means(p.item.value, env.flags).value);
            && token.Str?
            && ParseMember(token, t, done, env, depth) == Some((m, p.item.after + ([c] + next)))
    ensures Scan(p.item.after + ([c] + next), env.bad, env.flags) == (Punct(c), next)
    decreases p, 3
  {
    hide Scan, Means, Shallow, White, Formed, CharFormed, CharsMeans, StringSource, ItemSource, HasKey, ParseValue;
    var value := ItemSource(p.item) + ([c] + next);
    var colon := p.between + ([COLON] + value);
    ItemRead(p.item, env, depth, c, next);
    Closed(p.between, COLON, value, env);
    StringRead(p.key, colon, env);
    WhiteScanned(p.before, StringSource(p.key) + colon, env);
    assert PairSource(p) + ([c] + next) == p.before + (StringSource(p.key) + colon);
  }

  lemma {:induction false} PairsRead(pairs: seq<Pair>, done: seq<Member>, env: Env, depth: nat, rest: Bytes)
    requires pairs != [] && PairsFit(pairs, env, depth) && PairsMean(pairs, done, env.flags).Some?
    ensures var (token, t) := Scan(PairsSource(pairs) + ([125] + rest), env.bad, env.flags);
            && !Ended(token) && token != Punct(125)
            && ParseMembers(token, t, done, env, depth) == Some((Object(PairsMean(pairs, done, env.flags).value), rest))
    decreases pairs, 4
  {
    hide Scan, Means, Shallow, White, Formed, CharFormed, CharsMeans, PairSource, ParseMember, Fresh;
    var p := pairs[0];
    var done' := SetMember(done, CharsMeans(p.key), Means(p.item.value, env.flags).value);
    if |pairs| == 1 {
      PairRead(p, done, env, depth, 125, rest);
      assert PairsSource(pairs) == PairSource(p);
      assert PairsMean(pairs[1..], done', env.flags) == Some(done');
    } else {
      var next := PairsSource(pairs[1..]) + ([125] + rest);
      PairRead(p, done, env, depth, COMMA, next);
      PairsRead(pairs[1..], done', env, depth, rest);
      assert PairsSource(pairs) + ([125] + rest) == PairSource(p) + ([COMMA] + next);
    }
  }

  lemma {:induction false} RecordRead(s: Syntax, env: Env, depth: nat, rest: Bytes)
    requires s.Record? && Formed(s) && Means(s, env.flags).Some? && Shallow(s, MAX_DEPTH - depth)
    ensures ReadsBack(Source(s) + rest, Means(s, env.flags).value, env, depth, rest)
    decreases s, 1
  {
    hide Scan, PairsSource, PairsMean, ParseMembers, White;
    var inner := (if s.pairs == [] then s.pad else PairsSource(s.pairs)) + ([125] + rest);
    PunctBack(123, inner, env);
    assert Source(s) + rest == [123] + inner;
    if s.pairs == [] {
      NoItems(env.flags);
      Closed(s.pad, 125, rest, env);
      assert ParseObject(inner, env, depth + 1) == Some((Object([]), rest));
    } else {
      var members := PairsMean(s.pairs, [], env.flags).value;
      PairsRead(s.pairs, [], env, depth + 1, rest);
      assert ParseObject(inner, env, depth + 1) == Some((Object(members), rest));
    }
  }

  /** The parser reads every source as what it means, at any nesting level within the limit. */
  lemma {:induction false} SyntaxRead(s: Syntax, env: Env, depth: nat, rest: Bytes)
    requires Formed(s) && Means(s, env.flags).Some? && Shallow(s, MAX_DEPTH - depth) && Delimited(rest)
    ensures ReadsBack(Source(s) + rest, Means(s, env.flags).value, env, depth, rest)
    decreases s, 2
  {
    if s.List? {
      ListRead(s, env, depth, rest);
    } else if s.Record? {
      RecordRead(s, env, depth, rest);
    } else {
      ScalarRead(s, env, depth, rest);
    }
  }

  // ---------------------------------------------------------------- everything read is a source: tokens

  lemma {:induction false} WhiteIs(t: Bytes) returns (white: Bytes)
    ensures White(white) && t == white + SkipSpace(t)
  {
    if t != [] && IsSpace(t[0]) {
      white := WhiteIs(t[1..]);
      white := [t[0]] + white;
    } else {
      white := [];
    }
  }

  lemma PunctIs(t: Bytes, env: Env) returns (white: Bytes)
    requires Scan(t, env.bad, env.flags).0.Punct?
    ensures White(white)
    ensures var (token, r) := Scan(t, env.bad, env.flags); t == white + ([token.c] + r)
  {
    hide ScanString, ScanNumber, ScanWord, SkipSpace;
    ScanKinds(t, env);
    white := WhiteIs(t);
  }

  /** Which scanner gives which token. */
  lemma ScanKinds(t: Bytes, env: Env)
    ensures var (token, r) := Scan(t, env.bad, env.flags);
            var b := SkipSpace(t);
            && (token.Punct? ==> b != [] && token.c == b[0] && r == b[1..])
            && (token.Str? ==> b != [] && b[0] == QUOTE && (token, r) == ScanString(b[1..]))
            && (token.Int? || token.RealNumber? ==> b != [] && (token, r) == ScanNumber(b, env.flags))
            && (token.TrueWord? || token.FalseWord? || token.NullWord? ==>
                  b != [] && IsAlpha(b[0]) && (token, r) == ScanWord(b))
            && (token.Eof? ==> b == [] && !env.bad)
  {
    hide ScanString, ScanNumber, ScanWord, SkipSpace;
    var b := SkipSpace(t);
    if b != [] {
      StringTokens(b[1..]);
      NumberTokens(b, env.flags);
      if IsAlpha(b[0]) {
        KeywordTokens(b);
      }
    }
  }

  lemma StringTokens(t: Bytes)
    ensures ScanString(t).0.Invalid? || ScanString(t).0.Str?
  {
  }

  lemma NumberTokens(t: Bytes, flags: LoadFlags)
    ensures var token := ScanNumber(t, flags).0; token.Invalid? || token.Int? || token.RealNumber?
  {
    hide IntegerLength, FractionLength, ExponentLength, ToInteger, Overflows;
  }

  lemma KeywordTokens(t: Bytes)
    requires t != [] && IsAlpha(t[0])
    ensures var token := ScanWord(t).0; token.Invalid? || token.TrueWord? || token.FalseWord? || token.NullWord?
  {
  }

  lemma InnerSplit(saved: Bytes, p: nat, n: nat)
    requires p + n < |saved|
    ensures Inner(saved, p) == Inner(saved, p)[..n] + Inner(saved, p + n)
  {
  }

  /** The syntax of the character at `p`, which is `n` bytes long. */
  ghost predicate CharSyntax(saved: Bytes, p: nat, c: Char, n: nat)
    requires p < |saved|
  {
    && CharFormed(c) && Raw(saved, p + n) && n <= |Inner(saved, p)| && CharSource(c) == Inner(saved, p)[..n]
    && Inner(saved, p) != [] && CharAt(Inner(saved, p)) == Some((CharMeans(c), n))
  }

  lemma LetterIs(saved: Bytes, p: nat)
    requires Raw(saved, p) && saved[p] == BACKSLASH && p + 1 < |saved| && saved[p + 1] != LETTER_U
    ensures CharSyntax(saved, p, Letter(saved[p + 1]), 2)
  {
    hide RawLength, EscapeLength;
    RawChar(saved, p);
    EscapeAt(saved, p);
  }

  lemma UnitIs(saved: Bytes, p: nat)
    requires UnicodeStart(saved, p) && |Inner(saved, p)| >= 6
    requires CharAt(Inner(saved, p)).Some? && !IsHigh(Hex4(Inner(saved, p)[2..6]))
    ensures CharSyntax(saved, p, Unit(Inner(saved, p)[2..6]), 6)
  {
    hide Raw, EscapeLength, Encode, Hex4;
    RawUnicode(saved, p);
    HexRunIs(saved, p + 2);
    Inners(saved, p);
    assert Inner(saved, p)[..6] == [BACKSLASH, LETTER_U] + Inner(saved, p)[2..6];
  }

  ghost predicate UnicodeStart(saved: Bytes, p: nat) {
    && p + 1 < |saved| && Raw(saved, p) && saved[p] == BACKSLASH && saved[p + 1] == LETTER_U
    && Inner(saved, p) != []
  }

  lemma Inners(saved: Bytes, p: nat)
    requires p < |saved|
    ensures forall i | 0 <= i < |Inner(saved, p)| :: Inner(saved, p)[i] == saved[p + i]
  {
  }

  lemma SurrogatesAre(saved: Bytes, p: nat)
    requires UnicodeStart(saved, p) && |Inner(saved, p)| >= 6
    requires CharAt(Inner(saved, p)).Some? && IsHigh(Hex4(Inner(saved, p)[2..6]))
    ensures |Inner(saved, p)| >= 12 && CharSyntax(saved, p, Surrogates(Inner(saved, p)[2..6], Inner(saved, p)[8..12]), 12)
  {
    hide Raw, EscapeLength, Encode, Hex4, Unpaired;
    RawUnicode(saved, p);
    HexRunIs(saved, p + 2);
    HexRunIs(saved, p + 8);
    var q := Inner(saved, p);
    Inners(saved, p);
    assert q[..12] == [BACKSLASH, LETTER_U] + q[2..6] + ([BACKSLASH, LETTER_U] + q[8..12]);
  }

  lemma HexRunIs(t: Bytes, p: nat)
    requires HexRun(t, p, 4)
    ensures FourHex(t[p..p + 4])
  {
  }

  lemma CharSplit(saved: Bytes, p: nat, c: Char)
    requires p < |saved| && CharSyntax(saved, p, c, |CharSource(c)|)
    ensures CharFormed(c) && Raw(saved, p + |CharSource(c)|)
    ensures Inner(saved, p) == CharSource(c) + Inner(saved, p + |CharSource(c)|)
    ensures Inner(saved, p) != [] && CharAt(Inner(saved, p)) == Some((CharMeans(c), |CharSource(c)|))
  {
    hide Inner, CharSource, CharFormed, CharMeans, CharAt, RawLength;
    InnerSplit(saved, p, |CharSource(c)|);
  }

  /** One character of a raw string. */
  lemma CharIs(saved: Bytes, p: nat) returns (c: Char)
    requires Raw(saved, p) && saved[p] != QUOTE && Inner(saved, p) != [] && CharAt(Inner(saved, p)).Some?
    ensures CharFormed(c) && Raw(saved, p + |CharSource(c)|)
    ensures Inner(saved, p) == CharSource(c) + Inner(saved, p + |CharSource(c)|)
    ensures CharAt(Inner(saved, p)) == Some((CharMeans(c), |CharSource(c)|))
  {
    hide RawLength, EscapeLength, CharSyntax, CharFormed, CharMeans, Hex4, CharAt;
    RawChar(saved, p);
    EscapeAt(saved, p);
    if saved[p] != BACKSLASH {
      PlainIs(saved, p);
      c := Unescaped(saved[p]);
    } else if saved[p + 1] != LETTER_U {
      LetterIs(saved, p);
      c := Letter(saved[p + 1]);
    } else {
      RawUnicode(saved, p);
      var q := Inner(saved, p);
      if IsHigh(Hex4(q[2..6])) {
        SurrogatesAre(saved, p);
        c := Surrogates(q[2..6], q[8..12]);
      } else {
        UnitIs(saved, p);
        c := Unit(q[2..6]);
      }
    }
    CharSplit(saved, p, c);
  }

  lemma PlainIs(saved: Bytes, p: nat)
    requires Raw(saved, p) && saved[p] != QUOTE && saved[p] != BACKSLASH
    ensures CharSyntax(saved, p, Unescaped(saved[p]), 1)
  {
    RawPlain(saved, p);
    RawChar(saved, p);
  }

  lemma RawPlain(saved: Bytes, p: nat)
    requires Raw(saved, p) && saved[p] != QUOTE
    ensures saved[p] >= 0x20
  {
  }

  lemma {:induction false} CharsAre(saved: Bytes, p: nat) returns (cs: seq<Char>)
    requires Raw(saved, p) && Unescape(Inner(saved, p)).Some?
    ensures CharsFormed(cs) && CharsSource(cs) == Inner(saved, p) && Unescape(Inner(saved, p)) == Some(CharsMeans(cs))
    decreases |saved| - p
  {
    hide RawLength, CharFormed, CharSource, CharMeans, CharAt;
    RawChar(saved, p);
    if saved[p] == QUOTE {
      cs := [];
    } else {
      var c := CharIs(saved, p);
      var p' := p + |CharSource(c)|;
      assert Inner(saved, p)[|CharSource(c)|..] == Inner(saved, p');
      var more := CharsAre(saved, p');
      cs := [c] + more;
      assert cs[0] == c && cs[1..] == more;
    }
  }

  lemma StringIs(t: Bytes) returns (chars: seq<Char>)
    requires ScanString(t).0.Str?
    ensures CharsFormed(chars) && t == CharsSource(chars) + ([QUOTE] + ScanString(t).1)
    ensures ScanString(t).0 == Str(CharsMeans(chars))
  {
    hide RawLength, Unescape, CharsSource, CharsMeans, CharFormed;
    var n := RawLength(t).value;
    var saved := [QUOTE] + t[..n + 1];
    SavedRaw(t, saved);
    chars := CharsAre(saved, 1);
    assert t == t[..n] + ([QUOTE] + t[n + 1..]);
  }

  lemma Unquoted(b: Bytes, chars: seq<Char>, r: Bytes)
    requires b != [] && b[0] == QUOTE && b[1..] == CharsSource(chars) + ([QUOTE] + r)
    ensures b == StringSource(chars) + r
  {
    hide CharsSource;
    assert b == [QUOTE] + b[1..];
    ItemJoined(b, [QUOTE], CharsSource(chars), [QUOTE], r);
  }

  lemma KeyIs(t: Bytes, env: Env) returns (white: Bytes, chars: seq<Char>)
    requires Scan(t, env.bad, env.flags).0.Str?
    ensures White(white) && CharsFormed(chars)
    ensures Scan(t, env.bad, env.flags).0 == Str(CharsMeans(chars))
    ensures t == white + (StringSource(chars) + Scan(t, env.bad, env.flags).1)
  {
    hide ScanString, CharsSource, CharsMeans, CharFormed, White, Scan, StringSource;
    ScanKinds(t, env);
    white := WhiteIs(t);
    var b := SkipSpace(t);
    chars := StringIs(b[1..]);
    Unquoted(b, chars, ScanString(b[1..]).1);
  }

  lemma {:induction false} DigitsRun(t: Bytes)
    ensures AllDigits(t[..DigitCount(t)])
  {
    if t != [] && IsDigit(t[0]) {
      DigitsRun(t[1..]);
      assert t[..DigitCount(t)] == [t[0]] + t[1..][..DigitCount(t[1..])];
    }
  }

  lemma WholeIs(t: Bytes) returns (minus: bool, whole: Bytes)
    requires IntegerLength(t).Some?
    ensures AllDigits(whole) && whole != [] && (whole[0] == 48 ==> |whole| == 1)
    ensures t[..IntegerLength(t).value] == (if minus then [45] else []) + whole
  {
    hide DigitCount;
    minus := t != [] && t[0] == 45;
    var sign := if minus then 1 else 0;
    whole := t[sign..][..DigitCount(t[sign..])];
    DigitsRun(t[sign..]);
    assert whole[0] == t[sign];
  }

  lemma FractionIs(t: Bytes) returns (fraction: Bytes)
    requires FractionLength(t).Some?
    ensures fraction == t[..FractionLength(t).value]
    ensures fraction == [] || (fraction[0] == 46 && |fraction| > 1 && AllDigits(fraction[1..]))
    ensures t != [] && t[0] == 46 ==> fraction != []
  {
    hide DigitCount, AllDigits;
    fraction := t[..FractionLength(t).value];
    if fraction != [] {
      DigitsRun(t[1..]);
      assert fraction[1..] == t[1..][..DigitCount(t[1..])];
    }
  }

  lemma ExponentIs(t: Bytes) returns (exponent: Bytes)
    requires ExponentLength(t).Some?
    ensures exponent == t[..ExponentLength(t).value]
    ensures exponent == [] || ExponentFormed(exponent)
    ensures t != [] && IsExponent(t[0]) ==> exponent != []
  {
    hide DigitCount, AllDigits;
    exponent := t[..ExponentLength(t).value];
    if exponent != [] {
      var sign := if t[1] == 43 || t[1] == 45 then 2 else 1;
      DigitsRun(t[sign..]);
      assert exponent[sign..] == t[sign..][..DigitCount(t[sign..])];
    }
  }

  /** Where the parts of a number end. */
  lemma PartsAre(t: Bytes) returns (n: Numeral)
    requires IntegerLength(t).Some?
    requires var after := t[IntegerLength(t).value..];
             FractionLength(after).Some? && ExponentLength(after[FractionLength(after).value..]).Some?
    ensures NumeralFormed(n) && |NumeralSource(n)| <= |t| && NumeralSource(n) == t[..|NumeralSource(n)|]
    ensures IntegerLength(t) == Some(|WholeSource(n)|) && WholeSource(n) == t[..|WholeSource(n)|]
    ensures FractionLength(t[|WholeSource(n)|..]) == Some(|n.fraction|)
    ensures ExponentLength(t[|WholeSource(n)|..][|n.fraction|..]) == Some(|n.exponent|)
  {
    hide IntegerLength, FractionLength, ExponentLength, AllDigits, ExponentFormed;
    var minus, whole := WholeIs(t);
    var i := IntegerLength(t).value;
    var fraction := FractionIs(t[i..]);
    var exponent := ExponentIs(t[i..][|fraction|..]);
    n := Numeral(minus, whole, fraction, exponent);
    PartsJoined(t, i, |fraction|, |exponent|);
  }

  lemma NumeralIs(t: Bytes, flags: LoadFlags) returns (n: Numeral, nul: bool)
    requires !ScanNumber(t, flags).0.Invalid?
    ensures NumeralFormed(n) && NumeralMeans(n, flags).Some? && ScanNumber(t, flags).0 == NumberToken(n, flags)
    ensures t == NumeralSource(n) + (Nul(nul) + ScanNumber(t, flags).1)
  {
    hide ScanNumber, IntegerLength, FractionLength, ExponentLength, ToInteger, Overflows, NumeralFormed, Unread, Nul, WholeSource, NumeralSource;
    AllParts(t, flags);
    n := PartsAre(t);
    PartsScanned(t, |WholeSource(n)|, |n.fraction|, |n.exponent|, flags);
    SourceParts(n);
    nul := UnreadIs(t[|NumeralSource(n)|..]);
    PutTogether(t, |NumeralSource(n)|, Nul(nul) + Unread(t[|NumeralSource(n)|..]));
  }

  lemma SourceParts(n: Numeral)
    ensures |NumeralSource(n)| == |WholeSource(n)| + |n.fraction| + |n.exponent|
    ensures n.fraction == [] && n.exponent == [] ==> NumeralSource(n) == WholeSource(n)
  {
    hide WholeSource;
  }

  lemma PutTogether(t: Bytes, len: nat, rest: Bytes)
    requires len <= |t| && t[len..] == rest
    ensures t == t[..len] + rest
  {
  }

  /** A number that is accepted has all its parts. */
  lemma AllParts(t: Bytes, flags: LoadFlags)
    requires !ScanNumber(t, flags).0.Invalid?
    ensures IntegerLength(t).Some?
    ensures var after := t[IntegerLength(t).value..];
            FractionLength(after).Some? && ExponentLength(after[FractionLength(after).value..]).Some?
  {
    hide IntegerLength, DigitCount, ToInteger, Overflows, Unread;
    var after := t[IntegerLength(t).value..];
    assert FractionLength(after) == Some(0) ==> after[0..] == after;
  }

  lemma UnreadIs(t: Bytes) returns (nul: bool)
    ensures t == Nul(nul) + Unread(t)
  {
    nul := t != [] && t[0] == 0;
  }

  lemma PartsJoined(t: Bytes, i: nat, f: nat, e: nat)
    requires i + f + e <= |t|
    ensures t[..i] + t[i..][..f] + t[i..][f..][..e] == t[..i + f + e]
  {
  }

  lemma KeywordIs(t: Bytes) returns (k: Keyword, nul: bool)
    requires t != [] && IsAlpha(t[0]) && !ScanWord(t).0.Invalid?
    ensures t == KeywordSource(k) + (Nul(nul) + ScanWord(t).1) && ScanWord(t).0 == KeywordToken(k)
  {
    k := match ScanWord(t).0 case TrueWord => KwTrue case FalseWord => KwFalse case _ => KwNull;
    var n := AlphaCount(t);
    assert t[..n] == KeywordSource(k);
    assert t == t[..n] + t[n..];
    nul := UnreadIs(t[n..]);
  }

  // ---------------------------------------------------------------- everything read is a source: values

  /** `t` starts with white space and the source of `s`, which the parser reads. */
  ghost predicate Reads(t: Bytes, white: Bytes, s: Syntax, env: Env, depth: nat)
  {
    var (token, t1) := Scan(t, env.bad, env.flags);
    var r := ParseValue(token, t1, env, depth);
    && White(white) && Formed(s) && Shallow(s, MAX_DEPTH - depth)
    && r.Some? && Means(s, env.flags) == Some(r.value.0) && t == white + (Source(s) + r.value.1)
  }

  ghost predicate Accepted(t: Bytes, env: Env, depth: nat) {
    var (token, t1) := Scan(t, env.bad, env.flags);
    !Ended(token) && ParseValue(token, t1, env, depth).Some?
  }

  lemma {:induction false} ScalarIs(t: Bytes, env: Env, depth: nat) returns (white: Bytes, s: Syntax)
    requires Accepted(t, env, depth) && !Scan(t, env.bad, env.flags).0.Punct?
    ensures Reads(t, white, s, env, depth)
  {
    hide Scan, ScanString, ScanNumber, ScanWord, SkipSpace, White, CharsSource, CharsMeans, CharFormed, NumeralSource, NumeralFormed, NumeralMeans;
    var token := Scan(t, env.bad, env.flags).0;
    ScanKinds(t, env);
    if token.Str? {
      var chars;
      white, chars := KeyIs(t, env);
      s := Quoted(chars);
    } else {
      white := WhiteIs(t);
      if token.Int? || token.RealNumber? {
        var n, nul := NumeralIs(SkipSpace(t), env.flags);
        RealOrInt(n, env.flags);
        s := Number(n, nul);
      } else {
        var k, nul := KeywordIs(SkipSpace(t));
        s := Named(k, nul);
      }
      assert Source(s) + Scan(t, env.bad, env.flags).1 == SkipSpace(t);
    }
  }

  lemma ArrayOpens(t: Bytes, env: Env, depth: nat)
    requires ParseValue(Punct(91), t, env, depth).Some?
    ensures depth + 1 <= MAX_DEPTH && ParseValue(Punct(91), t, env, depth) == ParseArray(t, env, depth + 1)
    ensures var (token, t1) := Scan(t, env.bad, env.flags);
            if token == Punct(93) then ParseArray(t, env, depth + 1) == Some((Array([]), t1))
            else !Ended(token) && ParseArray(t, env, depth + 1) == ParseItems(token, t1, [], env, depth + 1)
  {
    hide Scan;
  }

  lemma {:induction false} ListIs(t: Bytes, env: Env, depth: nat) returns (white: Bytes, s: Syntax)
    requires Accepted(t, env, depth) && Scan(t, env.bad, env.flags).0 == Punct(91)
    ensures Reads(t, white, s, env, depth)
    decreases |t|, 0
  {
    hide Scan, ParseItems, ItemsSource, ItemsMean, ParseValue;
    white := PunctIs(t, env);
    var t1 := Scan(t, env.bad, env.flags).1;
    ArrayOpens(t1, env, depth);
    if Scan(t1, env.bad, env.flags).0 == Punct(93) {
      var pad := PunctIs(t1, env);
      NoItems(env.flags);
      s := List(pad, []);
      assert Formed(s) && Means(s, env.flags) == Some(Array([]));
      var r := Scan(t1, env.bad, env.flags).1;
      assert [91] + (pad + ([93] + r)) == Source(s) + r;
    } else {
      var items, r := ItemsAre(t1, [], env, depth + 1);
      s := List([], items);
      assert White([]) && Formed(s) && Shallow(s, MAX_DEPTH - depth);
      assert [] + ItemsMean(items, env.flags).value == ItemsMean(items, env.flags).value;
      assert [91] + (ItemsSource(items) + ([93] + r)) == Source(s) + r;
    }
  }

  lemma OneItem(item: Item, flags: LoadFlags)
    requires ItemFormed(item) && Means(item.value, flags).Some?
    ensures ItemsSource([item]) == ItemSource(item)
    ensures ItemsMean([item], flags) == Some([Means(item.value, flags).value])
  {
    hide Means, ItemSource;
    NoItems(flags);
    assert [Means(item.value, flags).value] + [] == [Means(item.value, flags).value];
  }

  lemma MoreItems(item: Item, more: seq<Item>, flags: LoadFlags)
    requires ItemFormed(item) && Means(item.value, flags).Some? && more != []
    requires (forall i | 0 <= i < |more| :: ItemFormed(more[i])) && ItemsMean(more, flags).Some?
    ensures ItemsSource([item] + more) == ItemSource(item) + ([COMMA] + ItemsSource(more))
    ensures ItemsMean([item] + more, flags) == Some([Means(item.value, flags).value] + ItemsMean(more, flags).value)
  {
    hide Means, ItemSource, Formed;
    assert ([item] + more)[1..] == more;
  }

  lemma SourceOf(item: Item)
    ensures ItemSource(item) == item.before + Source(item.value) + item.after
  {
  }

  lemma FirstItem(token: Token, t: Bytes, done: seq<Value>, env: Env, depth: nat)
    requires ParseItems(token, t, done, env, depth).Some?
    ensures ParseValue(token, t, env, depth).Some? && |ParseValue(token, t, env, depth).value.1| <= |t|
  {
    hide Scan, ParseValue;
  }

  lemma ItemJoined(t: Bytes, white: Bytes, source: Bytes, after: Bytes, rest: Bytes)
    requires t == white + (source + (after + rest))
    ensures t == white + source + after + rest
  {
  }

  lemma {:induction false} ItemsAre(t: Bytes, done: seq<Value>, env: Env, depth: nat) returns (items: seq<Item>, r: Bytes)
    requires !Ended(Scan(t, env.bad, env.flags).0)
    requires var (token, t1) := Scan(t, env.bad, env.flags); ParseItems(token, t1, done, env, depth).Some?
    ensures items != [] && ItemsFit(items, env, depth) && ItemsMean(items, env.flags).Some?
    ensures t == ItemsSource(items) + ([93] + r)
    ensures var (token, t1) := Scan(t, env.bad, env.flags);
            ParseItems(token, t1, done, env, depth) == Some((Array(done + ItemsMean(items, env.flags).value), r))
    decreases |t|, 2
  {
    hide Scan, White, ParseValue, ParseItems, Means, Shallow, Formed, ItemSource, ItemsSource, ItemsMean;
    var (token, t1) := Scan(t, env.bad, env.flags);
    FirstItem(token, t1, done, env, depth);
    ItemsTurn(token, t1, done, env, depth);
    var white, s := ValueIs(t, env, depth);
    var (v, t2) := ParseValue(token, t1, env, depth).value;
    var after := PunctIs(t2, env);
    var item := Item(white, s, after);
    assert ItemSource(item) == white + Source(s) + after by { SourceOf(item); }
    var t3 := Scan(t2, env.bad, env.flags).1;
    if Scan(t2, env.bad, env.flags).0 == Punct(93) {
      OneItem(item, env.flags);
      ItemJoined(t, white, Source(s), after, [93] + t3);
      items, r := [item], t3;
    } else {
      var more;
      more, r := ItemsAre(t3, done + [v], env, depth);
      MoreItems(item, more, env.flags);
      ItemJoined(t, white, Source(s), after, [COMMA] + t3);
      assert done + [v] + ItemsMean(more, env.flags).value == done + ([v] + ItemsMean(more, env.flags).value);
      items := [item] + more;
    }
  }

  lemma ObjectOpens(t: Bytes, env: Env, depth: nat)
    requires ParseValue(Punct(123), t, env, depth).Some?
    ensures depth + 1 <= MAX_DEPTH && ParseValue(Punct(123), t, env, depth) == ParseObject(t, env, depth + 1)
    ensures var (token, t1) := Scan(t, env.bad, env.flags);
            if token == Punct(125) then ParseObject(t, env, depth + 1) == Some((Object([]), t1))
            else !Ended(token) && ParseObject(t, env, depth + 1) == ParseMembers(token, t1, [], env, depth + 1)
  {
    hide Scan;
  }

  lemma {:induction false} RecordIs(t: Bytes, env: Env, depth: nat) returns (white: Bytes, s: Syntax)
    requires Accepted(t, env, depth) && Scan(t, env.bad, env.flags).0 == Punct(123)
    ensures Reads(t, white, s, env, depth)
    decreases |t|, 0
  {
    hide Scan, ParseMembers, PairsSource, PairsMean, ParseValue;
    white := PunctIs(t, env);
    var t1 := Scan(t, env.bad, env.flags).1;
    ObjectOpens(t1, env, depth);
    if Scan(t1, env.bad, env.flags).0 == Punct(125) {
      var pad := PunctIs(t1, env);
      NoItems(env.flags);
      s := Record(pad, []);
      assert Formed(s) && Means(s, env.flags) == Some(Object([]));
      var r := Scan(t1, env.bad, env.flags).1;
      assert [123] + (pad + ([125] + r)) == Source(s) + r;
    } else {
      var pairs, r := PairsAre(t1, [], env, depth + 1);
      s := Record([], pairs);
      assert White([]) && Formed(s) && Shallow(s, MAX_DEPTH - depth);
      assert [123] + (PairsSource(pairs) + ([125] + r)) == Source(s) + r;
    }
  }

  lemma {:induction false} PairIs(t: Bytes, done: seq<Member>, env: Env, depth: nat) returns (white: Bytes, key: seq<Char>, between: Bytes, before: Bytes, s: Syntax)
    requires var (token, t1) := Scan(t, env.bad, env.flags); ParseMember(token, t1, done, env, depth).Some?
    ensures White(white) && CharsFormed(key) && White(between) && White(before) && Formed(s) && Shallow(s, MAX_DEPTH - depth)
    ensures Means(s, env.flags).Some? && Fresh(CharsMeans(key), done, env.flags)
    ensures var (token, t1) := Scan(t, env.bad, env.flags);
            var (m, r) := ParseMember(token, t1, done, env, depth).value;
            && m == Member(CharsMeans(key), Means(s, env.flags).value)
            && t == white + (StringSource(key) + (between + ([COLON] + (before + (Source(s) + r)))))
    decreases |t|, 2
  {
    hide Scan, White, ParseValue, Means, Shallow, Formed, StringSource, CharsMeans, CharFormed, HasKey;
    white, key := KeyIs(t, env);
    var t1 := Scan(t, env.bad, env.flags).1;
    between := PunctIs(t1, env);
    var t2 := Scan(t1, env.bad, env.flags).1;
    before, s := ValueIs(t2, env, depth);
  }

  lemma OnePair(p: Pair, done: seq<Member>, flags: LoadFlags)
    requires PairFormed(p) && Means(p.item.value, flags).Some? && Fresh(CharsMeans(p.key), done, flags)
    ensures PairsSource([p]) == PairSource(p)
    ensures PairsMean([p], done, flags) == Some(SetMember(done, CharsMeans(p.key), Means(p.item.value, flags).value))
  {
    hide Means, PairSource, CharsMeans, Fresh, SetMember;
    assert forall members :: PairsMean([], members, flags) == Some(members);
  }

  lemma MorePairs(p: Pair, more: seq<Pair>, done: seq<Member>, flags: LoadFlags)
    requires PairFormed(p) && Means(p.item.value, flags).Some? && Fresh(CharsMeans(p.key), done, flags) && more != []
    requires forall i | 0 <= i < |more| :: PairFormed(more[i])
    ensures PairsSource([p] + more) == PairSource(p) + ([COMMA] + PairsSource(more))
    ensures PairsMean([p] + more, done, flags)
         == PairsMean(more, SetMember(done, CharsMeans(p.key), Means(p.item.value, flags).value), flags)
  {
    hide Means, PairSource, CharsMeans, Fresh, SetMember, Formed, CharFormed;
    assert ([p] + more)[1..] == more;
  }

  lemma FirstMember(token: Token, t: Bytes, done: seq<Member>, env: Env, depth: nat)
    requires ParseMembers(token, t, done, env, depth).Some?
    ensures ParseMember(token, t, done, env, depth).Some? && |ParseMember(token, t, done, env, depth).value.1| <= |t|
  {
    hide Scan, ParseMember, SetMember;
  }

  lemma PairJoined(t: Bytes, p: Pair, rest: Bytes)
    requires t == p.before + (StringSource(p.key) + (p.between + ([COLON] + (p.item.before + (Source(p.item.value) + (p.item.after + rest))))))
    ensures t == PairSource(p) + rest
  {
    hide StringSource, Source;
    var source := Source(p.item.value);
    ItemJoined(p.item.before + (source + (p.item.after + rest)), p.item.before, source, p.item.after, rest);
    Joined(t, p.before, StringSource(p.key), p.between, [COLON], ItemSource(p.item), rest);
  }

  lemma Joined(t: Bytes, a: Bytes, b: Bytes, c: Bytes, d: Bytes, e: Bytes, rest: Bytes)
    requires t == a + (b + (c + (d + (e + rest))))
    ensures t == a + b + c + d + e + rest
  {
  }

  lemma {:induction false} PairsAre(t: Bytes, done: seq<Member>, env: Env, depth: nat) returns (pairs: seq<Pair>, r: Bytes)
    requires !Ended(Scan(t, env.bad, env.flags).0)
    requires var (token, t1) := Scan(t, env.bad, env.flags); ParseMembers(token, t1, done, env, depth).Some?
    ensures pairs != [] && PairsFit(pairs, env, depth) && PairsMean(pairs, done, env.flags).Some?
    ensures t == PairsSource(pairs) + ([125] + r)
    ensures var (token, t1) := Scan(t, env.bad, env.flags);
            ParseMembers(token, t1, done, env, depth) == Some((Object(PairsMean(pairs, done, env.flags).value), r))
    decreases |t|, 3
  {
    hide Scan, White, ParseMember, ParseMembers, Means, Shallow, Formed, StringSource, CharsMeans, CharFormed, Fresh, PairSource, PairsSource, PairsMean, SetMember;
    var (token, t1) := Scan(t, env.bad, env.flags);
    FirstMember(token, t1, done, env, depth);
    MembersTurn(token, t1, done, env, depth);
    var white, key, between, before, s := PairIs(t, done, env, depth);
    var (m, t2) := ParseMember(token, t1, done, env, depth).value;
    var after := PunctIs(t2, env);
    var pair := Pair(white, key, between, Item(before, s, after));
    var t3 := Scan(t2, env.bad, env.flags).1;
    if Scan(t2, env.bad, env.flags).0 == Punct(125) {
      OnePair(pair, done, env.flags);
      PairJoined(t, pair, [125] + t3);
      pairs, r := [pair], t3;
    } else {
      var more;
      more, r := PairsAre(t3, SetMember(done, m.key, m.value), env, depth);
      MorePairs(pair, more, done, env.flags);
      PairJoined(t, pair, [COMMA] + t3);
      pairs := [pair] + more;
    }
  }

  /** Whatever the parser reads is the source of a syntax tree that means the value read. */
  lemma {:induction false} ValueIs(t: Bytes, env: Env, depth: nat) returns (white: Bytes, s: Syntax)
    requires Accepted(t, env, depth)
    ensures Reads(t, white, s, env, depth)
    decreases |t|, 1
  {
    hide Scan, Reads;
    var token := Scan(t, env.bad, env.flags).0;
    if token == Punct(91) {
      white, s := ListIs(t, env, depth);
    } else if token == Punct(123) {
      white, s := RecordIs(t, env, depth);
    } else {
      white, s := ScalarIs(t, env, depth);
    }
  }

  // ---------------------------------------------------------------- whole documents

  lemma {:induction false} CharsNoNul(cs: seq<Char>)
    requires CharsFormed(cs)
    ensures 0 !in CharsSource(cs)
  {
    if cs != [] {
      CharsNoNul(cs[1..]);
      CharNoNul(cs[0]);
    }
  }

  lemma CharNoNul(c: Char)
    requires CharFormed(c)
    ensures 0 !in CharSource(c)
  {
    hide Hex4;
  }

  lemma NumeralNoNul(n: Numeral)
    requires NumeralFormed(n)
    ensures 0 !in NumeralSource(n)
  {
    if n.exponent != [] {
      var sign := if n.exponent[1] == 43 || n.exponent[1] == 45 then 2 else 1;
      assert n.exponent == n.exponent[..sign] + n.exponent[sign..];
    }
    if n.fraction != [] {
      assert n.fraction == [46] + n.fraction[1..];
    }
  }

  /** There is no NUL in a JSON text. */
  lemma {:induction false} NulsOutside(s: Syntax)
    requires Formed(s)
    ensures 0 !in Source(s) <==> Standard(s)
    decreases s
  {
    hide NumeralSource, CharsSource, NumeralFormed, CharFormed;
    match s
    case Named(_, _) =>
    case Number(n, _) => NumeralNoNul(n);
    case Quoted(chars) => CharsNoNul(chars);
    case List(pad, items) =>
      WhiteNoNul(pad);
      if items != [] { ItemsNuls(items); }
    case Record(pad, pairs) =>
      WhiteNoNul(pad);
      if pairs != [] { PairsNuls(pairs); }
  }

  lemma WhiteNoNul(white: Bytes)
    requires White(white)
    ensures 0 !in white
  {
  }

  lemma {:induction false} ItemNuls(item: Item)
    requires ItemFormed(item)
    ensures 0 !in ItemSource(item) <==> Standard(item.value)
    decreases item
  {
    hide Source, Formed, Standard;
    WhiteNoNul(item.before);
    WhiteNoNul(item.after);
    NulsOutside(item.value);
  }

  lemma {:induction false} ItemsNuls(items: seq<Item>)
    requires items != [] && forall i | 0 <= i < |items| :: ItemFormed(items[i])
    ensures 0 !in ItemsSource(items) <==> forall i | 0 <= i < |items| :: Standard(items[i].value)
    decreases items
  {
    hide ItemSource, ItemFormed, Standard;
    ItemNuls(items[0]);
    if |items| > 1 {
      ItemsNuls(items[1..]);
      assert forall i | 0 < i < |items| :: items[i] == items[1..][i - 1];
    }
  }

  lemma {:induction false} PairsNuls(pairs: seq<Pair>)
    requires pairs != [] && forall i | 0 <= i < |pairs| :: PairFormed(pairs[i])
    ensures 0 !in PairsSource(pairs) <==> forall i | 0 <= i < |pairs| :: Standard(pairs[i].item.value)
    decreases pairs
  {
    hide ItemSource, Formed, CharsSource, CharFormed, Standard, White;
    var p := pairs[0];
    WhiteNoNul(p.before);
    WhiteNoNul(p.between);
    CharsNoNul(p.key);
    ItemNuls(p.item);
    assert 0 !in StringSource(p.key);
    assert 0 !in PairSource(p) <==> Standard(p.item.value);
    if |pairs| > 1 {
      PairsNuls(pairs[1..]);
      assert forall i | 0 < i < |pairs| :: pairs[i] == pairs[1..][i - 1];
    }
  }

  /** The end of the text after the value. */
  lemma Ending(white: Bytes, env: Env)
    ensures White(white) ==> Scan(white, env.bad, env.flags) == (if env.bad then Invalid else Eof, [])
  {
    if White(white) {
      WhiteSkipped(white, []);
      assert white + [] == white;
    }
  }

  /** parse_json, step by step. */
  lemma Parsing(text: Bytes, env: Env)
    ensures var (token, t) := Scan(text, env.bad, env.flags);
            var r := ParseValue(token, t, env, 0);
            ParseJson(text, env) ==
              if (env.flags.decodeAny || token == Punct(91) || token == Punct(123)) && !Ended(token) && r.Some? &&
                 (env.flags.disableEofCheck || Scan(r.value.1, env.bad, env.flags).0.Eof?)
              then Some(r.value.0) else None
  {
    hide Scan, ParseValue;
  }

  /** A tree's source is read as the value it stands for, under any flags. */
  lemma SourceRead(item: Item, text: Bytes, v: Value, flags: LoadFlags)
    requires StandsFor(item, text, v, flags)
    ensures ParseJson(text, Env(flags, false)) == Some(v)
  {
    hide Scan, ParseValue, ParseJson, Source, Formed, Means, Shallow, White;
    var env := Env(flags, false);
    assert Delimited(item.after) by { WhiteDelimits(item.after); }
    SyntaxRead(item.value, env, 0, item.after);
    FirstToken(item.value, item.after, env);
    WhiteScanned(item.before, Source(item.value) + item.after, env);
    assert text == item.before + (Source(item.value) + item.after);
    Ending(item.after, env);
    Parsing(text, env);
  }

  lemma WhiteDelimits(white: Bytes)
    requires White(white)
    ensures Delimited(white)
  {
  }

  lemma FirstToken(s: Syntax, rest: Bytes, env: Env)
    ensures s.List? ==> Scan(Source(s) + rest, env.bad, env.flags).0 == Punct(91)
    ensures s.Record? ==> Scan(Source(s) + rest, env.bad, env.flags).0 == Punct(123)
  {
    hide Scan, ItemsSource, PairsSource;
    var t := Source(s) + rest;
    if s.List? || s.Record? {
      assert t == [t[0]] + t[1..];
      PunctBack(t[0], t[1..], env);
    }
  }

  /** What is read is the value that the text stands for. */
  lemma SourceIs(text: Bytes, env: Env) returns (item: Item)
    requires !env.flags.disableEofCheck && ParseJson(text, env).Some?
    ensures StandsFor(item, text, ParseJson(text, env).value, env.flags)
  {
    hide Scan, ParseValue, ParseJson, Source, Formed, Means, White;
    Parsing(text, env);
    var (token, t) := Scan(text, env.bad, env.flags);
    var (v, r) := ParseValue(token, t, env, 0).value;
    var white, s := ValueIs(text, env, 0);
    ScanKinds(r, env);
    var after := WhiteIs(r);
    assert after + [] == after;
    if !s.List? && !s.Record? {
      NotBracket(text, white, s, r, env);
    }
    item := Item(white, s, after);
    assert text == ItemSource(item);
  }

  /** The source of a scalar does not scan as a bracket. */
  lemma NotBracket(text: Bytes, white: Bytes, s: Syntax, r: Bytes, env: Env)
    requires White(white) && Formed(s) && text == white + (Source(s) + r) && !s.List? && !s.Record?
    ensures Scan(text, env.bad, env.flags).0 != Punct(91) && Scan(text, env.bad, env.flags).0 != Punct(123)
  {
    hide Scan, Source, Formed;
    WhiteSkipped(white, Source(s) + r);
    ScanKinds(text, env);
    ScalarFirst(s);
    StartsSolid(Source(s), r);
  }

  lemma StartsSolid(b: Bytes, r: Bytes)
    requires b != [] && !IsSpace(b[0])
    ensures SkipSpace(b + r) == b + r && (b + r)[0] == b[0]
  {
  }

  lemma ScalarFirst(s: Syntax)
    requires Formed(s) && !s.List? && !s.Record?
    ensures Source(s) != [] && !IsSpace(Source(s)[0]) && !IsPunct(Source(s)[0])
  {
    hide NumeralSource, CharsSource, NumeralFormed, CharFormed;
    if s.Number? {
      NumeralFirst(s.numeral);
    }
  }

  lemma NumeralFirst(n: Numeral)
    requires NumeralFormed(n)
    ensures NumeralSource(n) != [] && (IsDigit(NumeralSource(n)[0]) || NumeralSource(n)[0] == 45)
  {
  }

  /** The parser accepts exactly the texts of syntax trees, and gives what they stand for. */
  lemma ParserIsGrammar(text: Bytes, v: Value, flags: LoadFlags)
    requires !flags.disableEofCheck
    ensures ParseJson(text, Env(flags, false)) == Some(v) <==> Tolerated(text, v, flags)
  {
    hide ParseJson, StandsFor;
    if Tolerated(text, v, flags) {
      var item: Item :| StandsFor(item, text, v, flags);
      SourceRead(item, text, v, flags);
    } else if ParseJson(text, Env(flags, false)) == Some(v) {
      var item := SourceIs(text, Env(flags, false));
    }
  }

  /** The JSON texts are those of them without NUL. */
  lemma StandardIsNulFree(text: Bytes, v: Value, flags: LoadFlags)
    ensures Document(text, v, flags) <==> Tolerated(text, v, flags) && 0 !in text
  {
    hide ItemSource, Means, Shallow, Formed, Standard;
    forall item: Item | StandsFor(item, text, v, flags) ensures Standard(item.value) <==> 0 !in text {
      ItemNuls(item);
    }
  }
}
