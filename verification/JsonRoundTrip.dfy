/** Parsing undoes printing. */
module JsonRoundTrip {
  import opened Wrappers
  import opened Utf8
  import opened JsonText
  import opened JsonGrammar
  // ---------------------------------------------------------------- characters of a string

  lemma HexBack(d: int)
    requires 0 <= d < 16
    ensures IsHex(HexDigit(d)) && HexValue(HexDigit(d)) == d
  {
  }

  lemma Nibbles(u: int)
    requires 0 <= u < 0x10000
    ensures 0 <= u / 16 / 16 / 16 < 16
    ensures 4096 * (u / 16 / 16 / 16) + 256 * (u / 16 / 16 % 16) + 16 * (u / 16 % 16) + u % 16 == u
  {
    var a := u / 16;
    var b := a / 16;
    assert u == 16 * a + u % 16 && a == 16 * b + a % 16 && b == 16 * (b / 16) + b % 16;
  }

  lemma UnicodeBack(u: int, rest: Bytes)
    requires 0 <= u < 0x10000
    ensures EscapeLength(UnicodeEscape(u) + rest) == Some(6)
    ensures Hex4((UnicodeEscape(u) + rest)[2..6]) == u
  {
    Nibbles(u);
    HexBack(u / 16 / 16 / 16);
    HexBack(u / 16 / 16 % 16);
    HexBack(u / 16 % 16);
    HexBack(u % 16);
  }

  /** The two surrogates of a code point make it up again. */
  lemma SurrogatesBack(c: int)
    requires 0x10000 <= c <= 0x10FFFF
    ensures IsHigh(HighSurrogate(c)) && IsLow(LowSurrogate(c)) && Unpaired(HighSurrogate(c), LowSurrogate(c)) == c
  {
  }

  lemma ShortEscape(c: int, flags: DumpFlags, rest: Bytes)
    requires Scalar(c) && MustEscape(c, flags)
    ensures |Escaped(c)| == 2 ==> EscapeLength(Escaped(c) + rest) == Some(2)
    ensures |Escaped(c)| == 6 ==> c < 0x10000 && Escaped(c) == UnicodeEscape(c)
    ensures |Escaped(c)| == 12 ==>
              0x10000 <= c && Escaped(c) == UnicodeEscape(HighSurrogate(c)) + UnicodeEscape(LowSurrogate(c))
    ensures |Escaped(c)| == 2 || |Escaped(c)| == 6 || |Escaped(c)| == 12
    ensures Escaped(c)[0] == BACKSLASH
  {
  }

  lemma ShortBack(c: int, flags: DumpFlags, rest: Bytes)
    requires Scalar(c) && MustEscape(c, flags) && |Escaped(c)| == 2
    ensures CharAt(Escaped(c) + rest) == Some((Encode(c), 2))
  {
    assert c < 0x80 && Encode(c) == [c];
  }

  lemma BmpBack(c: int, rest: Bytes)
    requires Scalar(c) && c < 0x10000
    ensures CharAt(UnicodeEscape(c) + rest) == Some((Encode(c), 6))
  {
    hide Encode, EscapeLength, Hex4;
    UnicodeBack(c, rest);
  }

  lemma PairBack(c: int, rest: Bytes)
    requires 0x10000 <= c <= 0x10FFFF
    ensures CharAt(UnicodeEscape(HighSurrogate(c)) + UnicodeEscape(LowSurrogate(c)) + rest) == Some((Encode(c), 12))
  {
    hide Encode, EscapeLength, Hex4, HighSurrogate, LowSurrogate, Unpaired, HexDigit;
    SurrogatesBack(c);
    var high, low := UnicodeEscape(HighSurrogate(c)), UnicodeEscape(LowSurrogate(c));
    UnicodeBack(HighSurrogate(c), low + rest);
    UnicodeBack(LowSurrogate(c), rest);
    var t := high + low + rest;
    assert t == high + (low + rest);
    assert t[6..] == low + rest;
    assert t[8..12] == (low + rest)[2..6];
  }

  /** An escape sequence is read as the character it was printed for. */
  lemma EscapedBack(c: int, flags: DumpFlags, rest: Bytes)
    requires Scalar(c) && MustEscape(c, flags)
    ensures CharAt(Escaped(c) + rest) == Some((Encode(c), |Escaped(c)|))
  {
    hide Encode, Escaped, MustEscape, CharAt, EscapeLength;
    ShortEscape(c, flags, rest);
    if |Escaped(c)| == 2 {
      ShortBack(c, flags, rest);
    } else if |Escaped(c)| == 6 {
      BmpBack(c, rest);
    } else {
      PairBack(c, rest);
    }
  }

  lemma Dropped(a: Bytes, b: Bytes)
    ensures (a + b)[|a|..] == b
  {
  }

  lemma Regrouped(a: Bytes, b: Bytes, c: Bytes)
    ensures a + b + c == a + (b + c)
  {
  }

  lemma RawStep(e: Bytes, rest: Bytes)
    requires |e| > 0 && e[0] == BACKSLASH && EscapeLength(e + rest) == Some(|e|) && RawLength(rest).Some?
    ensures RawLength(e + rest) == Some(|e| + RawLength(rest).value)
  {
    hide EscapeLength, RawLength;
    Dropped(e, rest);
    RawMore(e + rest, |e|);
  }

  /** The scan for the closing quote steps over an escape sequence. */
  lemma EscapedRaw(c: int, flags: DumpFlags, rest: Bytes)
    requires Scalar(c) && MustEscape(c, flags) && RawLength(rest).Some?
    ensures RawLength(Escaped(c) + rest) == Some(|Escaped(c)| + RawLength(rest).value)
  {
    hide EscapeLength, RawLength, Escaped, MustEscape, Hex4, HighSurrogate, LowSurrogate, Unpaired, HexDigit;
    ShortEscape(c, flags, rest);
    if |Escaped(c)| == 2 {
      RawStep(Escaped(c), rest);
    } else if |Escaped(c)| == 6 {
      UnicodeBack(c, rest);
      RawStep(Escaped(c), rest);
    } else {
      SurrogatesBack(c);
      var high, low := UnicodeEscape(HighSurrogate(c)), UnicodeEscape(LowSurrogate(c));
      assert |high| == |low| == 6;
      UnicodeBack(LowSurrogate(c), rest);
      RawStep(low, rest);
      UnicodeBack(HighSurrogate(c), low + rest);
      RawStep(high, low + rest);
      Regrouped(high, low, rest);
    }
  }

  /** Bytes that stand for themselves inside quotes. */
  predicate Plain(b: Bytes) {
    forall i | 0 <= i < |b| :: b[i] >= 0x20 && b[i] != QUOTE && b[i] != BACKSLASH
  }

  lemma EncodePlain(c: int, flags: DumpFlags)
    requires Scalar(c) && !MustEscape(c, flags)
    ensures Plain(Encode(c))
  {
  }

  lemma {:induction false} PlainRaw(b: Bytes, rest: Bytes)
    requires Plain(b) && RawLength(rest).Some?
    ensures RawLength(b + rest) == Some(|b| + RawLength(rest).value)
  {
    hide RawLength, EscapeLength;
    if b == [] {
      assert b + rest == rest;
    } else {
      PlainRaw(b[1..], rest);
      assert (b + rest)[1..] == b[1..] + rest;
      RawMore(b + rest, 1);
    }
  }

  lemma FirstByte(b: Bytes, more: Bytes)
    requires b != []
    ensures [b[0]] + (b[1..] + more) == b + more
  {
  }

  lemma {:induction false} PlainBack(b: Bytes, rest: Bytes)
    requires Plain(b) && Unescape(rest).Some?
    ensures Unescape(b + rest) == Some(b + Unescape(rest).value)
  {
    hide EscapeLength, UnicodeAt;
    if b == [] {
      assert b + rest == rest;
      assert b + Unescape(rest).value == Unescape(rest).value;
    } else {
      PlainBack(b[1..], rest);
      assert (b + rest)[1..] == b[1..] + rest;
      FirstByte(b, Unescape(rest).value);
    }
  }

  lemma CharBack(c: int, flags: DumpFlags, rest: Bytes)
    requires Scalar(c)
    ensures RawLength(rest).Some? ==>
              RawLength(CharText(c, flags) + rest) == Some(|CharText(c, flags)| + RawLength(rest).value)
    ensures Unescape(rest).Some? ==> Unescape(CharText(c, flags) + rest) == Some(Encode(c) + Unescape(rest).value)
  {
    hide Encode, Escaped, RawLength, CharAt, MustEscape;
    if MustEscape(c, flags) {
      EscapedBack(c, flags, rest);
      Dropped(Escaped(c), rest);
      if RawLength(rest).Some? { EscapedRaw(c, flags, rest); }
    } else {
      EncodePlain(c, flags);
      if RawLength(rest).Some? { PlainRaw(Encode(c), rest); }
      if Unescape(rest).Some? { PlainBack(Encode(c), rest); }
    }
  }

  /** The characters between the quotes, under any escape flags. */
  lemma {:induction false} CharsBack(cs: seq<int>, flags: DumpFlags, rest: Bytes)
    requires Scalars(cs)
    ensures RawLength(CharsText(cs, flags) + [QUOTE] + rest) == Some(|CharsText(cs, flags)|)
    ensures Unescape(CharsText(cs, flags)) == Some(EncodeAll(cs))
  {
    hide Encode, CharText, RawLength, Unescape;
    if cs == [] {
      QuoteEnds(rest);
    } else {
      var first, more := CharText(cs[0], flags), CharsText(cs[1..], flags);
      CharsBack(cs[1..], flags, rest);
      CharBack(cs[0], flags, more);
      CharBack(cs[0], flags, more + [QUOTE] + rest);
      assert first + more + [QUOTE] + rest == first + (more + [QUOTE] + rest);
    }
  }

  lemma QuoteEnds(rest: Bytes)
    ensures RawLength([] + [QUOTE] + rest) == Some(0) && Unescape([]) == Some([])
  {
    assert ([] + [QUOTE] + rest)[0] == QUOTE;
  }

  /** lex_scan_string undoes dump_string, whatever follows. */
  lemma StringBack(s: Bytes, flags: DumpFlags, rest: Bytes)
    requires Valid(s)
    ensures StringText(s, flags)[0] == QUOTE
    ensures ScanString(StringText(s, flags)[1..] + rest) == (Str(s), rest)
  {
    hide RawLength, Unescape, CharsText, EncodeAll, Encode, Valid, First;
    DecodeEncode(s);
    var chars := CharsText(Decode(s), flags);
    CharsBack(Decode(s), flags, rest);
    var t := StringText(s, flags)[1..] + rest;
    assert t == chars + [QUOTE] + rest;
    assert t[..|chars|] == chars && t[|chars| + 1..] == rest;
  }

  // ---------------------------------------------------------------- numbers and words

  /** What may follow a value: nothing, or a character that belongs to no number and no word. */
  predicate Delimited(rest: Bytes) {
    rest == [] || rest[0] == COMMA || rest[0] == 93 || rest[0] == 125 || rest[0] == NEWLINE || rest[0] == SPACE ||
    rest[0] == 9 || rest[0] == 13
  }

  lemma {:induction false} DigitsCount(n: nat, rest: Bytes)
    requires rest == [] || !IsDigit(rest[0])
    ensures DigitCount(Digits(n) + rest) == |Digits(n)|
  {
    DigitsAll(n);
    CountAll(Digits(n), rest);
  }

  lemma {:induction false} DigitsAll(n: nat)
    ensures forall i | 0 <= i < |Digits(n)| :: IsDigit(Digits(n)[i])
    ensures Digits(n) != [] && (Digits(n)[0] == 48 ==> n == 0 && |Digits(n)| == 1)
    ensures DecimalValue(Digits(n)) == n
  {
    var d := Digits(n);
    assert d[..|d| - 1] == if n < 10 then [] else Digits(n / 10);
    if n >= 10 {
      DigitsAll(n / 10);
    }
  }

  lemma {:induction false} CountAll(b: Bytes, rest: Bytes)
    requires forall i | 0 <= i < |b| :: IsDigit(b[i])
    requires rest == [] || !IsDigit(rest[0])
    ensures DigitCount(b + rest) == |b|
  {
    if b == [] {
      assert b + rest == rest;
    } else {
      assert (b + rest)[1..] == b[1..] + rest;
      CountAll(b[1..], rest);
    }
  }

  predicate Int64(n: int) {
    -0x8000000000000000 <= n < 0x8000000000000000
  }

  lemma IntegerLengthBack(n: int, rest: Bytes)
    requires Delimited(rest)
    ensures IntegerLength(IntegerText(n) + rest) == Some(|IntegerText(n)|)
    ensures IsDigit(IntegerText(n)[0]) || IntegerText(n)[0] == 45
  {
    hide Digits, DigitCount, DecimalValue;
    var m: nat := if n < 0 then -n else n;
    var t := IntegerText(n) + rest;
    DigitsCount(m, rest);
    DigitsAll(m);
    assert t[if n < 0 then 1 else 0..] == Digits(m) + rest;
  }

  lemma ToIntegerBack(n: int)
    requires Int64(n)
    ensures ToInteger(IntegerText(n)) == Some(n)
  {
    DigitsAll(if n < 0 then -n else n);
  }

  /** Every 64-bit integer is read back, up to both ends of the range. */
  lemma NumberBack(n: int, rest: Bytes, flags: LoadFlags)
    requires Int64(n) && Delimited(rest) && !flags.decodeIntAsReal
    ensures ScanNumber(IntegerText(n) + rest, flags) == (Int(n), rest)
    ensures IsDigit(IntegerText(n)[0]) || IntegerText(n)[0] == 45
  {
    hide IntegerLength, ToInteger;
    var t := IntegerText(n) + rest;
    IntegerLengthBack(n, rest);
    ToIntegerBack(n);
    assert t[..|IntegerText(n)|] == IntegerText(n) && t[|IntegerText(n)|..] == rest;
  }

  lemma {:induction false} AlphaAll(b: Bytes, rest: Bytes)
    requires (forall i | 0 <= i < |b| :: IsAlpha(b[i])) && (rest == [] || !IsAlpha(rest[0]))
    ensures AlphaCount(b + rest) == |b|
  {
    if b == [] {
      assert b + rest == rest;
    } else {
      assert (b + rest)[1..] == b[1..] + rest;
      AlphaAll(b[1..], rest);
    }
  }

  lemma WordBack(b: Bytes, rest: Bytes)
    requires b != [] && (forall i | 0 <= i < |b| :: IsAlpha(b[i])) && Delimited(rest)
    ensures ScanWord(b + rest).0 == ScanWord(b).0
    ensures !ScanWord(b).0.Invalid? ==> ScanWord(b + rest).1 == rest
  {
    AlphaAll(b, rest);
    AlphaAll(b, []);
    assert b + [] == b && (b + rest)[..|b|] == b && (b + rest)[|b|..] == rest;
  }

  // ---------------------------------------------------------------- white space

  lemma {:induction false} SpacesSkipped(n: nat, t: Bytes)
    ensures SkipSpace(Spaces(n) + t) == SkipSpace(t)
  {
    if n == 0 {
      assert Spaces(n) + t == t;
    } else {
      SpacesSkipped(n - 1, t);
      assert (Spaces(n) + t)[1..] == Spaces(n - 1) + t;
    }
  }

  /** Indentation makes no difference to the scanner. */
  lemma IndentSkipped(flags: DumpFlags, depth: nat, space: bool, t: Bytes, bad: bool, lf: LoadFlags)
    ensures Scan(IndentText(flags, depth, space) + t, bad, lf) == Scan(t, bad, lf)
  {
    var indent := IndentText(flags, depth, space);
    if flags.indent > 0 {
      SpacesSkipped(depth * flags.indent, t);
      assert (indent + t)[1..] == Spaces(depth * flags.indent) + t;
    } else if space && !flags.compact {
      assert (indent + t)[1..] == t;
    } else {
      assert indent + t == t;
    }
    assert SkipSpace(indent + t) == SkipSpace(t);
  }

  // ---------------------------------------------------------------- values

  /** Values nest at most `levels` deep. */
  ghost predicate Within(v: Value, levels: int) {
    levels > 0 &&
    match v
    case Array(items) => forall i | 0 <= i < |items| :: Within(items[i], levels - 1)
    case Object(members) => forall i | 0 <= i < |members| :: Within(members[i].value, levels - 1)
    case _ => true
  }

  ghost predicate NulFree(v: Value) {
    match v
    case String(s) => 0 !in s
    case Array(items) => forall i | 0 <= i < |items| :: NulFree(items[i])
    case Object(members) => forall i | 0 <= i < |members| :: NulFree(members[i].value)
    case _ => true
  }

  /** A printed value the parser can take at nesting level `depth` with these flags. */
  ghost predicate Readable(v: Value, env: Env, depth: nat) {
    WellFormed(v) && Within(v, MAX_DEPTH - depth) && (env.flags.allowNul || NulFree(v)) && !env.flags.decodeIntAsReal
  }

  /** The text starts with a value that is read as `v`, and what is left is `rest`. */
  ghost predicate ReadsBack(t: Bytes, v: Value, env: Env, depth: nat, rest: Bytes) {
    var (token, t1) := Scan(t, env.bad, env.flags);
    && !Ended(token) && token != Punct(93) && token != Punct(125)
    && ParseValue(token, t1, env, depth) == Some((v, rest))
  }

  lemma PunctBack(c: Byte, t: Bytes, env: Env)
    requires IsPunct(c)
    ensures Scan([c] + t, env.bad, env.flags) == (Punct(c), t)
  {
    assert ([c] + t)[1..] == t;
  }

  lemma StringReadsBack(s: Bytes, flags: DumpFlags, env: Env, rest: Bytes)
    requires Valid(s)
    ensures Scan(StringText(s, flags) + rest, env.bad, env.flags) == (Str(s), rest)
  {
    hide ScanString;
    StringBack(s, flags, rest);
    assert (StringText(s, flags) + rest)[1..] == StringText(s, flags)[1..] + rest;
  }

  lemma ScalarReadsBack(v: Value, flags: DumpFlags, k: nat, env: Env, depth: nat, rest: Bytes)
    requires Readable(v, env, depth) && Delimited(rest) && !v.Array? && !v.Object?
    ensures ReadsBack(ValueText(v, flags, k) + rest, v, env, depth, rest)
  {
    hide ScanNumber, ScanString, ScanWord, IntegerText, StringText;
    var b := ValueText(v, flags, k);
    if v.Integer? {
      NumberBack(v.n, rest, env.flags);
    } else if v.String? {
      StringReadsBack(v.s, flags, env, rest);
    } else {
      WordBack(b, rest);
      WordTokens();
    }
  }

  lemma WordTokens()
    ensures ScanWord([110, 117, 108, 108]).0 == NullWord
    ensures ScanWord([116, 114, 117, 101]).0 == TrueWord
    ensures ScanWord([102, 97, 108, 115, 101]).0 == FalseWord
  {
    AlphaAll([110, 117, 108, 108], []);
    AlphaAll([116, 114, 117, 101], []);
    AlphaAll([102, 97, 108, 115, 101], []);
  }

  /** After an element comes the end of the list, or a comma and the next element. */
  lemma FollowBack(last: bool, flags: DumpFlags, k: nat, c: Byte, next: Bytes, env: Env)
    requires c == 93 || c == 125
    ensures var t := Follow(last, flags, k) + (if last then [c] + next else next);
            && (last ==> Delimited(t) && Scan(t, env.bad, env.flags) == (Punct(c), next))
            && (!last ==> Delimited(t) && Scan(t, env.bad, env.flags) == (Punct(COMMA), IndentText(flags, k + 1, true) + next))
    ensures Scan(IndentText(flags, k + 1, true) + next, env.bad, env.flags) == Scan(next, env.bad, env.flags)
  {
    IndentSkipped(flags, k + 1, true, next, env.bad, env.flags);
    if last {
      IndentSkipped(flags, k, false, [c] + next, env.bad, env.flags);
      PunctBack(c, next, env);
    } else {
      PunctBack(COMMA, IndentText(flags, k + 1, true) + next, env);
      assert Follow(last, flags, k) + next == [COMMA] + (IndentText(flags, k + 1, true) + next);
    }
  }

  ghost predicate AllReadable(items: seq<Value>, env: Env, depth: nat) {
    forall i | 0 <= i < |items| :: Readable(items[i], env, depth)
  }

  /** The first element's text, and what comes after it. */
  lemma ItemsSplit(items: seq<Value>, flags: DumpFlags, k: nat, rest: Bytes)
    requires items != [] && forall i | 0 <= i < |items| :: WellFormed(items[i])
    ensures var last := |items| == 1;
            var next := if last then rest else ItemsText(items[1..], flags, k) + [93] + rest;
            ItemsText(items, flags, k) + [93] + rest ==
              ValueText(items[0], flags, k + 1) + (Follow(last, flags, k) + (if last then [93] + next else next))
  {
    hide ValueText, Follow;
    assert |items| == 1 ==> ItemsText(items[1..], flags, k) == [];
  }

  /** One turn of parse_array's loop. */
  lemma ItemsTurn(token: Token, t: Bytes, done: seq<Value>, env: Env, depth: nat)
    requires ParseValue(token, t, env, depth).Some?
    ensures var (v, t2) := ParseValue(token, t, env, depth).value;
            var (token1, t3) := Scan(t2, env.bad, env.flags);
            var (token2, t4) := Scan(t3, env.bad, env.flags);
            ParseItems(token, t, done, env, depth) ==
              if token1 == Punct(93) then Some((Array(done + [v]), t3))
              else if token1 == Punct(COMMA) && !Ended(token2) then ParseItems(token2, t4, done + [v], env, depth)
              else None
  {
    hide Scan, ParseValue;
  }

  /** The loop of parse_array reads the printed elements, one after the other. */
  lemma {:induction false} ItemsBack(items: seq<Value>, done: seq<Value>, flags: DumpFlags, k: nat, env: Env,
                                     depth: nat, rest: Bytes)
    requires items != [] && AllReadable(items, env, depth)
    ensures var (token, t) := Scan(ItemsText(items, flags, k) + [93] + rest, env.bad, env.flags);
            && !Ended(token) && token != Punct(93)
            && ParseItems(token, t, done, env, depth) == Some((Array(done + items), rest))
    decreases items, 0
  {
    hide Scan, Delimited, IndentText, Follow, ValueText, ItemsText, ParseItems, ParseValue;
    var more := items[1..];
    var last := |items| == 1;
    var tail := ItemsText(more, flags, k) + [93] + rest;
    var next := if last then rest else tail;
    var after := Follow(last, flags, k) + (if last then [93] + next else next);
    FollowBack(last, flags, k, 93, next, env);
    ValueBack(items[0], flags, k + 1, env, depth, after);
    ItemsSplit(items, flags, k, rest);
    var (token, t) := Scan(ValueText(items[0], flags, k + 1) + after, env.bad, env.flags);
    ItemsTurn(token, t, done, env, depth);
    if last {
      assert done + [items[0]] == done + items;
    } else {
      ItemsBack(more, done + [items[0]], flags, k, env, depth, rest);
      assert done + [items[0]] + more == done + items;
    }
  }

  /** A printed value is read as that value, whatever flags it was printed with. */
  lemma {:induction false} ValueBack(v: Value, flags: DumpFlags, k: nat, env: Env, depth: nat, rest: Bytes)
    requires Readable(v, env, depth) && Delimited(rest)
    ensures ReadsBack(ValueText(v, flags, k) + rest, v, env, depth, rest)
    decreases v, 2
  {
    if v.Array? {
      ArrayBack(v.items, flags, k, env, depth, rest);
    } else if v.Object? {
      ObjectBack(v.members, flags, k, env, depth, rest);
    } else {
      ScalarReadsBack(v, flags, k, env, depth, rest);
    }
  }

  lemma {:induction false} ArrayBack(items: seq<Value>, flags: DumpFlags, k: nat, env: Env, depth: nat, rest: Bytes)
    requires Readable(Array(items), env, depth) && Delimited(rest)
    ensures ReadsBack(ValueText(Array(items), flags, k) + rest, Array(items), env, depth, rest)
    decreases items, 1
  {
    hide Scan, Delimited, IndentText, ItemsText, ParseItems;
    var text := ValueText(Array(items), flags, k) + rest;
    if items == [] {
      PunctBack(91, [93] + rest, env);
      PunctBack(93, rest, env);
      assert text == [91] + ([93] + rest);
      assert ParseArray([93] + rest, env, depth + 1) == Some((Array(items), rest));
    } else {
      ItemsBack(items, [], flags, k, env, depth + 1, rest);
      var inner := ItemsText(items, flags, k) + [93] + rest;
      var indent := IndentText(flags, k + 1, false);
      IndentSkipped(flags, k + 1, false, inner, env.bad, env.flags);
      PunctBack(91, indent + inner, env);
      assert text == [91] + (indent + inner);
      assert [] + items == items;
      assert ParseArray(indent + inner, env, depth + 1) == Some((Array(items), rest));
    }
  }

  ghost predicate AllMembersReadable(members: seq<Member>, env: Env, depth: nat) {
    forall i | 0 <= i < |members| :: KeyOk(members[i].key) && Readable(members[i].value, env, depth)
  }

  lemma SeparatorBack(flags: DumpFlags, t: Bytes, env: Env)
    ensures Scan(Separator(flags) + t, env.bad, env.flags).0 == Punct(COLON)
    ensures var t1 := Scan(Separator(flags) + t, env.bad, env.flags).1; Scan(t1, env.bad, env.flags) == Scan(t, env.bad, env.flags)
  {
    if flags.compact {
      PunctBack(COLON, t, env);
    } else {
      PunctBack(COLON, [SPACE] + t, env);
      assert Separator(flags) + t == [COLON] + ([SPACE] + t);
      assert ([SPACE] + t)[1..] == t;
    }
  }

  /** One member: its key becomes a token, and the rest is read by the body of parse_object's loop. */
  lemma {:induction false} MemberBack(m: Member, done: seq<Member>, flags: DumpFlags, k: nat, env: Env,
                                      depth: nat, rest: Bytes)
    requires KeyOk(m.key) && Readable(m.value, env, depth) && Delimited(rest) && !HasKey(done, m.key)
    ensures var (token, t) := Scan(MemberText(m, flags, k) + rest, env.bad, env.flags);
            && token == Str(m.key)
            && ParseMember(token, t, done, env, depth) == Some((m, rest))
    decreases m, 3
  {
    hide Scan, Delimited, StringText, Separator, ValueText, ParseValue, HasKey;
    var value := ValueText(m.value, flags, k + 1) + rest;
    var after := Separator(flags) + value;
    ValueBack(m.value, flags, k + 1, env, depth, rest);
    SeparatorBack(flags, value, env);
    StringReadsBack(m.key, flags, env, after);
    assert MemberText(m, flags, k) + rest == StringText(m.key, flags) + after;
  }

  lemma {:induction false} SetNew(done: seq<Member>, m: Member)
    requires !HasKey(done, m.key)
    ensures SetMember(done, m.key, m.value) == done + [m]
  {
    if done != [] {
      assert done[0].key != m.key;
      SetNew(done[1..], m);
    }
  }

  /** The first member's text, and what comes after it. */
  lemma MembersSplit(members: seq<Member>, flags: DumpFlags, k: nat, rest: Bytes)
    requires members != [] && forall i | 0 <= i < |members| :: KeyOk(members[i].key) && WellFormed(members[i].value)
    ensures var last := |members| == 1;
            var next := if last then rest else MembersText(members[1..], flags, k) + [125] + rest;
            MembersText(members, flags, k) + [125] + rest ==
              MemberText(members[0], flags, k) + (Follow(last, flags, k) + (if last then [125] + next else next))
  {
    hide MemberText, Follow;
    assert |members| == 1 ==> MembersText(members[1..], flags, k) == [];
  }

  /** One turn of parse_object's loop. */
  lemma MembersTurn(token: Token, t: Bytes, done: seq<Member>, env: Env, depth: nat)
    requires ParseMember(token, t, done, env, depth).Some?
    ensures var (m, t2) := ParseMember(token, t, done, env, depth).value;
            var done' := SetMember(done, m.key, m.value);
            var (token1, t3) := Scan(t2, env.bad, env.flags);
            var (token2, t4) := Scan(t3, env.bad, env.flags);
            ParseMembers(token, t, done, env, depth) ==
              if token1 == Punct(125) then Some((Object(done'), t3))
              else if token1 == Punct(COMMA) && !Ended(token2) then ParseMembers(token2, t4, done', env, depth)
              else None
  {
    hide Scan, ParseMember, SetMember;
  }

  /** The loop of parse_object reads the printed members; distinct keys all get a place of their own. */
  lemma {:induction false} MembersBack(members: seq<Member>, done: seq<Member>, flags: DumpFlags, k: nat, env: Env,
                                       depth: nat, rest: Bytes)
    requires members != [] && AllMembersReadable(members, env, depth) && Distinct(done + members)
    ensures var (token, t) := Scan(MembersText(members, flags, k) + [125] + rest, env.bad, env.flags);
            && !Ended(token) && token != Punct(125)
            && ParseMembers(token, t, done, env, depth) == Some((Object(done + members), rest))
    decreases members, 4
  {
    hide Scan, Delimited, IndentText, Follow, MemberText, MembersText, ParseMember, ParseMembers, SetMember;
    var m, more := members[0], members[1..];
    var last := |members| == 1;
    var tail := MembersText(more, flags, k) + [125] + rest;
    var next := if last then rest else tail;
    var after := Follow(last, flags, k) + (if last then [125] + next else next);
    FollowBack(last, flags, k, 125, next, env);
    NewKey(done, members);
    MemberBack(m, done, flags, k, env, depth, after);
    SetNew(done, m);
    MembersSplit(members, flags, k, rest);
    var (token, t) := Scan(MemberText(m, flags, k) + after, env.bad, env.flags);
    MembersTurn(token, t, done, env, depth);
    if last {
      assert done + [m] == done + members;
    } else {
      assert done + [m] + more == done + members;
      MembersBack(more, done + [m], flags, k, env, depth, rest);
    }
  }

  lemma NewKey(done: seq<Member>, members: seq<Member>)
    requires members != [] && Distinct(done + members)
    ensures !HasKey(done, members[0].key)
  {
    var all := done + members;
    forall i | 0 <= i < |done| ensures done[i].key != members[0].key {
      assert all[i].key != all[|done|].key;
    }
  }

  lemma {:induction false} ObjectBack(members: seq<Member>, flags: DumpFlags, k: nat, env: Env, depth: nat, rest: Bytes)
    requires Readable(Object(members), env, depth) && Delimited(rest)
    ensures ReadsBack(ValueText(Object(members), flags, k) + rest, Object(members), env, depth, rest)
    decreases members, 5
  {
    hide Scan, Delimited, IndentText, MembersText, ParseMembers;
    var text := ValueText(Object(members), flags, k) + rest;
    if members == [] {
      PunctBack(123, [125] + rest, env);
      PunctBack(125, rest, env);
      assert text == [123] + ([125] + rest);
      assert ParseObject([125] + rest, env, depth + 1) == Some((Object(members), rest));
    } else {
      assert [] + members == members;
      MembersBack(members, [], flags, k, env, depth + 1, rest);
      var inner := MembersText(members, flags, k) + [125] + rest;
      var indent := IndentText(flags, k + 1, false);
      IndentSkipped(flags, k + 1, false, inner, env.bad, env.flags);
      PunctBack(123, indent + inner, env);
      assert text == [123] + (indent + inner);
      assert ParseObject(indent + inner, env, depth + 1) == Some((Object(members), rest));
    }
  }
}
