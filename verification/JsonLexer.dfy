/** load.c's lexical analyzer. */
module JsonLexer {
  import opened Wrappers
  import opened Utf8
  import opened JsonText
  import opened JsonGrammar
  import opened JsonStream

  /** What the scan for the closing quote finds from byte `p` on is what it finds in all. */
  ghost predicate Shifted(t: Bytes, p: nat) {
    p <= |t| &&
    RawLength(t) == if RawLength(t[p..]).Some? then Some(p + RawLength(t[p..]).value) else None
  }

  lemma RawShift(t: Bytes, p: nat)
    requires Shifted(t, p) && p < |t| && t[p] >= 0x20 && t[p] != QUOTE
    ensures t[p] != BACKSLASH ==> Shifted(t, p + 1)
    ensures t[p] == BACKSLASH ==>
              if EscapeLength(t[p..]).None? then RawLength(t).None? else Shifted(t, p + EscapeLength(t[p..]).value)
  {
    hide EscapeLength, RawLength;
    var d := t[p..];
    if t[p] != BACKSLASH {
      RawMore(d, 1);
      assert d[1..] == t[p + 1..];
    } else if EscapeLength(d).Some? {
      var n := EscapeLength(d).value;
      RawMore(d, n);
      assert d[n..] == t[p + n..];
    } else {
      RawBad(d);
    }
  }

  /** How much of the text is consumed with the character at `p` read. */
  function Upto(t: Bytes, p: nat): nat {
    if p < |t| then p + 1 else |t|
  }

  lemma Back(pre: Bytes, t: Bytes, p: nat)
    requires p < |t|
    ensures t[p..] == [t[p]] + t[p + 1..] && (pre + t[..p + 1])[..|pre + t[..p + 1]| - 1] == pre + t[..p]
  {
    assert pre + t[..p + 1] == pre + t[..p] + [t[p]];
  }

  lemma Onward(pre: Bytes, t: Bytes, p: nat)
    requires p < |t|
    ensures var d := t[p + 1..];
            && d[0..] == d
            && pre + t[..p + 1] + d[..Upto(d, 0)] == pre + t[..Upto(t, p + 1)]
            && d[Upto(d, 0)..] == t[Upto(t, p + 1)..]
  {
  }

  class Lexer {
    const stream: Stream
    const flags: LoadFlags
    var savedText: Bytes
    var token: Token
    var depth: nat

    /** lex_init */
    constructor (memory: Bytes, isString: bool, flags: LoadFlags)
      requires isString ==> 0 in memory
      ensures Valid() && this.flags == flags
      ensures var data := if isString then UpToNul(memory) else memory; Rest() == GoodText(data) && (Bad() <==> Spoilt(data))
      ensures fresh(stream) && fresh(stream.buffer)
    {
      stream := new Stream(memory, isString);
      this.flags, savedText, token, depth := flags, [], Invalid, 0;
    }

    ghost predicate Valid()
      reads stream, stream.buffer
    {
      stream.Valid()
    }

    ghost function Rest(): Bytes
      requires Valid()
      reads stream, stream.buffer
    {
      stream.Rest()
    }

    ghost predicate Bad()
      requires Valid()
      reads stream, stream.buffer
    {
      stream.Bad()
    }

    /** The character `c` at `p` of the text `t` is the last one read and saved. */
    ghost predicate At(pre: Bytes, t: Bytes, bad: bool, p: nat, c: int)
      reads this`savedText, stream, stream.buffer
    {
      && Valid() && p <= |t| && c == Ahead(t[p..], bad) && stream.CanUnget(c)
      && savedText == pre + t[..Upto(t, p)] && Rest() == t[Upto(t, p)..] && Bad() == bad
    }

    method GetSave() returns (c: int)
      requires Valid()
      modifies this`savedText, stream, stream.buffer
      ensures At(old(savedText), old(Rest()), old(Bad()), 0, c)
    {
      c := stream.Get();
      ghost var t := old(Rest());
      if c != EOF && c != ERROR {
        savedText := savedText + [c];
        assert t[..1] == [c];
      } else {
        assert t[..0] == [] && savedText == savedText + [];
      }
      assert t[0..] == t;
    }

    /** lex_get_save on the way through a text. */
    method Step(ghost pre: Bytes, ghost t: Bytes, ghost bad: bool, ghost p: nat, ghost c0: int) returns (c: int)
      requires At(pre, t, bad, p, c0) && p < |t|
      modifies this`savedText, stream, stream.buffer
      ensures At(pre, t, bad, p + 1, c)
    {
      c := GetSave();
      Onward(pre, t, p);
    }

    /** lex_unget_unsave */
    method UngetUnsave(c: int, ghost pre: Bytes, ghost t: Bytes, ghost bad: bool, ghost p: nat)
      requires At(pre, t, bad, p, c)
      modifies this`savedText, stream
      ensures Valid() && Bad() == bad && savedText == pre + t[..p] && Rest() == Unread(t[p..])
    {
      if c != EOF && c != ERROR {
        stream.Unget(c);
        savedText := savedText[..|savedText| - 1];
        Back(pre, t, p);
      }
    }

    /** The last character read is the text's, or the text is over. */
    lemma LastRead(pre: Bytes, t: Bytes, bad: bool, p: nat, c: int)
      requires At(pre, t, bad, p, c)
      ensures Valid() && Bad() == bad && p <= |t|
      ensures if p < |t| then c == t[p] else c == if bad then ERROR else EOF
    {
    }

    /** The four digits of a `\u` escape, the first of them read. */
    method ScanHex(c0: int, ghost pre: Bytes, ghost t: Bytes, ghost bad: bool, ghost p: nat)
      returns (ok: bool, c: int)
      requires At(pre, t, bad, p, c0)
      modifies this`savedText, stream, stream.buffer
      ensures Valid() && Bad() == bad && (ok <==> HexRun(t, p, 4))
      ensures ok ==> At(pre, t, bad, p + 4, c)
    {
      hide At;
      ok, c := true, c0;
      LastRead(pre, t, bad, p, c);
      var i := 0;
      while i < 4
        invariant 0 <= i <= 4 && At(pre, t, bad, p + i, c) && HexRun(t, p, i)
      {
        LastRead(pre, t, bad, p + i, c);
        if !IsHex(c) {
          return false, c;
        }
        c := Step(pre, t, bad, p + i, c);
        i := i + 1;
      }
      LastRead(pre, t, bad, p + 4, c);
    }

    /** An escape sequence of the first pass, its backslash at `p` already read. */
    method ScanEscape(c0: int, ghost pre: Bytes, ghost t: Bytes, ghost bad: bool, ghost p: nat)
      returns (ok: bool, c: int)
      requires At(pre, t, bad, p, c0) && c0 == BACKSLASH
      modifies this`savedText, stream, stream.buffer
      ensures Valid() && Bad() == bad && p < |t| && (ok <==> EscapeLength(t[p..]).Some?)
      ensures ok ==> At(pre, t, bad, p + EscapeLength(t[p..]).value, c)
    {
      hide At, EscapeLength, HexRun;
      LastRead(pre, t, bad, p, c0);
      EscapeAt(t, p);
      c := Step(pre, t, bad, p, c0);
      LastRead(pre, t, bad, p + 1, c);
      if c == LETTER_U {
        c := Step(pre, t, bad, p + 1, c);
        ok, c := ScanHex(c, pre, t, bad, p + 2);
      } else if c == QUOTE || c == BACKSLASH || c == SLASH || c == 98 || c == 102 || c == 110 || c == 114 || c == 116 {
        c := Step(pre, t, bad, p + 1, c);
        ok := true;
      } else {
        ok := false;
      }
    }

    /** The first pass of lex_scan_string: saves everything up to the closing quote. */
    method ScanRaw(ghost t: Bytes, ghost bad: bool) returns (ok: bool)
      requires Valid() && Rest() == t && Bad() == bad && savedText == [QUOTE]
      modifies this`savedText, stream, stream.buffer
      ensures Valid() && Bad() == bad && (ok <==> RawLength(t).Some?)
      ensures ok ==> savedText == [QUOTE] + t[..RawLength(t).value + 1] && Rest() == t[RawLength(t).value + 1..]
    {
      hide At, RawLength, EscapeLength, Shifted;
      ghost var p := 0;
      var c := GetSave();
      RawStart(t);
      while c != QUOTE
        invariant At([QUOTE], t, bad, p, c) && Shifted(t, p)
        decreases |t| - p
      {
        RawStops(t, p);
        LastRead([QUOTE], t, bad, p, c);
        if c == ERROR || c == EOF {
          return false;
        } else if 0 <= c <= 0x1F {
          UngetUnsave(c, [QUOTE], t, bad, p);
          return false;
        }
        RawShift(t, p);
        if c == BACKSLASH {
          var found;
          found, c := ScanEscape(c, [QUOTE], t, bad, p);
          if !found {
            return false;
          }
          p := p + EscapeLength(t[p..]).value;
        } else {
          c := Step([QUOTE], t, bad, p, c);
          p := p + 1;
        }
      }
      ok := true;
      RawStops(t, p);
      RawEnd(t, bad, p, c);
    }

    lemma RawEnd(t: Bytes, bad: bool, p: nat, c: int)
      requires At([QUOTE], t, bad, p, c) && c == QUOTE
      ensures Valid() && Bad() == bad
      ensures p < |t| && t[p] == QUOTE && savedText == [QUOTE] + t[..p + 1] && Rest() == t[p + 1..]
    {
    }

    /** lex_scan_string, the opening quote read. */
    method ScanString()
      requires Valid() && savedText == [QUOTE]
      modifies this`savedText, this`token, stream, stream.buffer
      ensures Valid() && Bad() == old(Bad()) && token == JsonGrammar.ScanString(old(Rest())).0
      ensures !token.Invalid? ==> Rest() == JsonGrammar.ScanString(old(Rest())).1
    {
      hide RawLength, Unescape, Raw, Inner;
      token := Invalid;
      ghost var t := Rest();
      var ok := ScanRaw(t, Bad());
      if ok {
        SavedRaw(t, savedText);
        var value := DecodeString(savedText);
        if value.Some? {
          token := Str(value.value);
        }
      }
    }

    /** Reads on while there are digits. */
    method ScanDigits(c0: int, ghost t: Bytes, ghost bad: bool, ghost p0: nat) returns (c: int, ghost p: nat)
      requires At([], t, bad, p0, c0)
      modifies this`savedText, stream, stream.buffer
      ensures At([], t, bad, p, c) && !IsDigit(c) && p0 <= |t| && p == p0 + DigitCount(t[p0..])
    {
      hide At, DigitCount;
      c, p := c0, p0;
      LastRead([], t, bad, p, c);
      while IsDigit(c)
        invariant At([], t, bad, p, c) && p0 <= p <= |t|
        invariant p0 + DigitCount(t[p0..]) == p + DigitCount(t[p..])
        decreases |t| - p
      {
        LastRead([], t, bad, p, c);
        DigitStep(t, p);
        c := Step([], t, bad, p, c);
        p := p + 1;
        LastRead([], t, bad, p, c);
      }
      LastRead([], t, bad, p, c);
      DigitStop(t, p);
    }

    /** Sign and integer part. */
    method ScanInteger(c0: int, ghost t: Bytes, ghost bad: bool) returns (ok: bool, c: int, ghost p: nat)
      requires At([], t, bad, 0, c0)
      modifies this`savedText, stream, stream.buffer
      ensures Valid() && Bad() == bad && (ok <==> IntegerLength(t).Some?)
      ensures ok ==> p == IntegerLength(t).value && At([], t, bad, p, c)
    {
      hide At, DigitCount;
      ok, c, p := true, c0, 0;
      LastRead([], t, bad, p, c);
      if c == 45 {
        c := Step([], t, bad, p, c);
        p := 1;
        LastRead([], t, bad, p, c);
      } else {
        assert t[0..] == t;
      }
      DigitStop(t, p);
      if c == 48 {
        DigitStep(t, p);
        c := Step([], t, bad, p, c);
        p := p + 1;
        LastRead([], t, bad, p, c);
        DigitStop(t, p);
        if IsDigit(c) {
          UngetUnsave(c, [], t, bad, p);
          ok := false;
        }
      } else if IsDigit(c) {
        c, p := ScanDigits(c, t, bad, p);
        LastRead([], t, bad, p, c);
      } else {
        UngetUnsave(c, [], t, bad, p);
        ok := false;
      }
    }

    /** lex_get, and lex_save only if it is a digit; anything else is given back. */
    method GetDigit(ghost t: Bytes, ghost bad: bool, ghost p: nat, ghost c0: int) returns (ok: bool, c: int)
      requires At([], t, bad, p, c0) && p < |t|
      modifies this`savedText, stream, stream.buffer
      ensures Valid() && Bad() == bad && (ok <==> p + 1 < |t| && IsDigit(t[p + 1]))
      ensures ok ==> At([], t, bad, p + 1, c)
    {
      assert t[p + 1..] == Rest();
      c := stream.Get();
      ok := IsDigit(c);
      if !ok {
        stream.Unget(c);
        return;
      }
      savedText := savedText + [c];
      assert [] + t[..p + 1] + [c] == [] + t[..p + 2];
      assert t[p + 1..][1..] == t[p + 2..];
    }

    method ScanFraction(c0: int, ghost t: Bytes, ghost bad: bool, ghost p0: nat) returns (ok: bool, c: int, ghost p: nat)
      requires At([], t, bad, p0, c0) && p0 <= |t|
      modifies this`savedText, stream, stream.buffer
      ensures Valid() && Bad() == bad && (ok <==> FractionLength(t[p0..]).Some?)
      ensures ok ==> p == p0 + FractionLength(t[p0..]).value && At([], t, bad, p, c)
    {
      hide At, DigitCount;
      ok, c, p := true, c0, p0;
      LastRead([], t, bad, p, c);
      if c == 46 {
        assert t[p0..][1..] == t[p0 + 1..];
        DigitStop(t, p0 + 1);
        ok, c := GetDigit(t, bad, p0, c);
        if ok {
          c, p := ScanDigits(c, t, bad, p0 + 1);
          LastRead([], t, bad, p, c);
        }
      }
    }

    method ScanExponent(c0: int, ghost t: Bytes, ghost bad: bool, ghost p0: nat) returns (ok: bool, c: int, ghost p: nat)
      requires At([], t, bad, p0, c0) && p0 <= |t|
      modifies this`savedText, stream, stream.buffer
      ensures Valid() && Bad() == bad && (ok <==> ExponentLength(t[p0..]).Some?)
      ensures ok ==> p == p0 + ExponentLength(t[p0..]).value && At([], t, bad, p, c)
    {
      hide At, DigitCount;
      ok, c, p := true, c0, p0;
      LastRead([], t, bad, p, c);
      if c == 69 || c == 101 {
        c := Step([], t, bad, p, c);
        p := p + 1;
        LastRead([], t, bad, p, c);
        assert t[p0..][1..] == t[p..];
        if c == 43 || c == 45 {
          c := Step([], t, bad, p, c);
          p := p + 1;
          LastRead([], t, bad, p, c);
          assert t[p0..][2..] == t[p..];
        }
        DigitStop(t, p);
        if !IsDigit(c) {
          UngetUnsave(c, [], t, bad, p);
          ok := false;
        } else {
          c, p := ScanDigits(c, t, bad, p);
          LastRead([], t, bad, p, c);
        }
      }
    }

    /** lex_scan_number, its first character read. strtoll and strtod are taken as functions of the text. */
    method ScanNumber(c0: int, ghost t: Bytes, ghost bad: bool)
      requires At([], t, bad, 0, c0)
      modifies this`savedText, this`token, stream, stream.buffer
      ensures Valid() && Bad() == bad && token == JsonGrammar.ScanNumber(t, flags).0
      ensures !token.Invalid? ==> Rest() == JsonGrammar.ScanNumber(t, flags).1
    {
      hide At, IntegerLength, FractionLength, ExponentLength, ToInteger, Overflows, Unread;
      token := Invalid;
      ghost var p;
      var ok, c;
      ok, c, p := ScanInteger(c0, t, bad);
      if !ok {
        return;
      }
      LastRead([], t, bad, p, c);
      if !flags.decodeIntAsReal && c != 46 && c != 69 && c != 101 {
        UngetUnsave(c, [], t, bad, p);
        assert savedText == t[..p];
        var value := ToInteger(savedText);
        if value.Some? {
          token := Int(value.value);
        }
        return;
      }
      var found;
      found, p := ScanReal(c, t, bad, p);
      if found {
        assert savedText == t[..p];
        if !Overflows(savedText) {
          token := RealNumber(savedText);
        }
      }
    }

    /** Fraction and exponent. */
    method ScanReal(c0: int, ghost t: Bytes, ghost bad: bool, ghost p0: nat) returns (ok: bool, ghost p: nat)
      requires At([], t, bad, p0, c0) && p0 <= |t|
      modifies this`savedText, stream, stream.buffer
      ensures Valid() && Bad() == bad
      ensures ok <==> FractionLength(t[p0..]).Some? && ExponentLength(t[p0..][FractionLength(t[p0..]).value..]).Some?
      ensures ok ==> p == p0 + FractionLength(t[p0..]).value + ExponentLength(t[p0..][FractionLength(t[p0..]).value..]).value
      ensures ok ==> p <= |t| && savedText == t[..p] && Rest() == Unread(t[p..])
    {
      hide At, FractionLength, ExponentLength, Unread;
      var c;
      ok, c, p := ScanFraction(c0, t, bad, p0);
      if ok {
        LastRead([], t, bad, p, c);
        assert t[p0..][p - p0..] == t[p..];
        ok, c, p := ScanExponent(c, t, bad, p);
        if ok {
          LastRead([], t, bad, p, c);
          UngetUnsave(c, [], t, bad, p);
        }
      }
    }

    /** The identifier branch of lex_scan. */
    method ScanWord(c0: int, ghost t: Bytes, ghost bad: bool)
      requires At([], t, bad, 0, c0) && IsAlpha(c0) && t != []
      modifies this`savedText, this`token, stream, stream.buffer
      ensures Valid() && Bad() == bad && IsAlpha(t[0]) && token == JsonGrammar.ScanWord(t).0
      ensures !token.Invalid? ==> Rest() == JsonGrammar.ScanWord(t).1
    {
      hide At, AlphaCount, Unread;
      var c := c0;
      ghost var p := 0;
      LastRead([], t, bad, p, c);
      assert t[0..] == t;
      AlphaStep(t, 0);
      c := Step([], t, bad, p, c);
      p := 1;
      LastRead([], t, bad, p, c);
      while IsAlpha(c)
        invariant At([], t, bad, p, c) && 1 <= p <= |t|
        invariant AlphaCount(t) == p + AlphaCount(t[p..])
        decreases |t| - p
      {
        LastRead([], t, bad, p, c);
        AlphaStep(t, p);
        c := Step([], t, bad, p, c);
        p := p + 1;
        LastRead([], t, bad, p, c);
      }
      LastRead([], t, bad, p, c);
      AlphaStop(t, p);
      UngetUnsave(c, [], t, bad, p);
      assert savedText == t[..p];
      if savedText == [116, 114, 117, 101] {
        token := TrueWord;
      } else if savedText == [102, 97, 108, 115, 101] {
        token := FalseWord;
      } else if savedText == [110, 117, 108, 108] {
        token := NullWord;
      } else {
        token := Invalid;
      }
    }

    /** The loop at the start of lex_scan: the first character that is no white space. */
    method SkipBlanks() returns (c: int)
      requires Valid()
      modifies stream, stream.buffer
      ensures Valid() && Bad() == old(Bad()) && stream.CanUnget(c)
      ensures var t := SkipSpace(old(Rest())); c == Ahead(t, old(Bad())) && Rest() == if t == [] then [] else t[1..]
    {
      hide SkipSpace;
      ghost var t, bad := Rest(), Bad();
      c := stream.Get();
      SpaceStep(t);
      while c == 32 || c == 9 || c == 10 || c == 13
        invariant Valid() && Bad() == bad && stream.CanUnget(c)
        invariant SkipSpace(t) == SkipSpace(old(Rest()))
        invariant c == Ahead(t, bad) && Rest() == if t == [] then [] else t[1..]
        decreases |t|
      {
        SpaceStep(t);
        t := t[1..];
        c := stream.Get();
      }
      SpaceStep(t);
    }

    /** lex_scan */
    method Scan()
      requires Valid()
      modifies this`savedText, this`token, stream, stream.buffer
      ensures Valid() && Bad() == old(Bad()) && token == JsonGrammar.Scan(old(Rest()), Bad(), flags).0
      ensures !Ended(token) ==> Rest() == JsonGrammar.Scan(old(Rest()), Bad(), flags).1
    {
      hide At, SkipSpace, JsonGrammar.ScanString, JsonGrammar.ScanNumber, JsonGrammar.ScanWord;
      savedText := [];
      ghost var t, bad := SkipSpace(Rest()), Bad();
      var c := SkipBlanks();
      if c == EOF {
        token := Eof;
        return;
      }
      if c == ERROR {
        token := Invalid;
        return;
      }
      savedText := [c];
      StartToken(t, bad, c);
      if c == 123 || c == 125 || c == 91 || c == 93 || c == 58 || c == 44 {
        token := Punct(c);
      } else if c == QUOTE {
        ScanString();
      } else if IsDigit(c) || c == 45 {
        ScanNumber(c, t, bad);
      } else if IsAlpha(c) {
        ScanWord(c, t, bad);
      } else {
        token := Invalid;
      }
    }

    lemma StartToken(t: Bytes, bad: bool, c: int)
      requires Valid() && Bad() == bad && stream.CanUnget(c) && savedText == [c]
      requires c == Ahead(t, bad) && t != [] && Rest() == t[1..]
      ensures At([], t, bad, 0, c)
    {
      assert t[0..] == t && [] + t[..1] == [c];
    }
  }

  lemma AlphaStep(t: Bytes, p: nat)
    requires p < |t| && IsAlpha(t[p])
    ensures AlphaCount(t[p..]) == 1 + AlphaCount(t[p + 1..])
  {
    assert t[p..][1..] == t[p + 1..];
  }

  lemma AlphaStop(t: Bytes, p: nat)
    requires p <= |t|
    ensures AlphaCount(t[p..]) == 0 <==> p == |t| || !IsAlpha(t[p])
  {
  }

  lemma SpaceStep(t: Bytes)
    ensures SkipSpace(t) == if t != [] && IsSpace(t[0]) then SkipSpace(t[1..]) else t
  {
  }

  lemma DigitStep(t: Bytes, p: nat)
    requires p < |t| && IsDigit(t[p])
    ensures DigitCount(t[p..]) == 1 + DigitCount(t[p + 1..])
  {
    assert t[p..][1..] == t[p + 1..];
  }

  lemma DigitStop(t: Bytes, p: nat)
    requires p <= |t|
    ensures DigitCount(t[p..]) == 0 <==> p == |t| || !IsDigit(t[p])
  {
  }

  /** The saved text is the raw string with its quotes. */
  lemma SavedRaw(t: Bytes, saved: Bytes)
    requires RawLength(t).Some? && saved == [QUOTE] + t[..RawLength(t).value + 1]
    ensures |saved| >= 2 && Raw(saved, 1) && Inner(saved, 1) == t[..RawLength(t).value]
  {
    hide RawLength;
    RawCut(t);
    assert saved[1..] == t[..RawLength(t).value + 1];
  }

  lemma RawBad(t: Bytes)
    requires t != [] && t[0] == BACKSLASH && EscapeLength(t).None?
    ensures RawLength(t).None?
  {
    hide EscapeLength;
  }

  lemma RawOne(t: Bytes) returns (step: nat)
    requires RawLength(t).Some? && t[0] != QUOTE
    ensures t[0] >= 0x20 && step >= 1
    ensures if t[0] == BACKSLASH then EscapeLength(t) == Some(step) else step == 1
  {
    hide EscapeLength;
    step := if t[0] == BACKSLASH then EscapeLength(t).value else 1;
  }

  /** Nothing after the closing quote matters to the scan. */
  lemma {:induction false} RawCut(t: Bytes)
    requires RawLength(t).Some?
    ensures RawLength(t[..RawLength(t).value + 1]) == RawLength(t)
  {
    hide EscapeLength, RawLength;
    var n := RawLength(t).value;
    if t[0] != QUOTE {
      var step := RawOne(t);
      RawMore(t, step);
      RawCut(t[step..]);
      var cut := t[..n + 1];
      assert t[step..][..n - step + 1] == cut[step..];
      if t[0] == BACKSLASH {
        EscapePrefix(t, n + 1);
      }
      RawMore(cut, step);
    } else {
      QuoteFirst(t);
      QuoteFirst(t[..1]);
    }
  }

  lemma RawNone(t: Bytes)
    requires t == [] || t[0] < 0x20
    ensures RawLength(t).None?
  {
  }

  lemma QuoteFirst(t: Bytes)
    requires t != [] && t[0] == QUOTE
    ensures RawLength(t) == Some(0)
  {
  }

  ghost predicate HexRun(t: Bytes, p: nat, n: nat) {
    p + n <= |t| && forall i | p <= i < p + n :: IsHex(t[i])
  }

  /** An escape sequence in the middle of a text. */
  lemma EscapeAt(t: Bytes, p: nat)
    requires p < |t|
    ensures p + 1 == |t| ==> EscapeLength(t[p..]).None?
    ensures p + 1 < |t| && t[p + 1] == LETTER_U ==>
              EscapeLength(t[p..]) == if HexRun(t, p + 2, 4) then Some(6) else None
    ensures p + 1 < |t| && t[p + 1] != LETTER_U ==>
              EscapeLength(t[p..]) == if IsShort(t[p + 1]) then Some(2) else None
  {
  }

  lemma RawStart(t: Bytes)
    ensures Shifted(t, 0)
  {
    assert t[0..] == t;
  }

  /** Where the scan for the closing quote ends. */
  lemma RawStops(t: Bytes, p: nat)
    requires Shifted(t, p)
    ensures p == |t| || t[p] < 0x20 ==> RawLength(t).None?
    ensures p < |t| && t[p] == QUOTE ==> RawLength(t) == Some(p)
  {
    hide EscapeLength, RawLength;
    if p == |t| || t[p] < 0x20 {
      RawNone(t[p..]);
    }
    if p < |t| && t[p] == QUOTE {
      QuoteFirst(t[p..]);
    }
  }

  // ---------------------------------------------------------------- the second pass

  /** The number hexadecimal digits spell. */
  function HexNumber(t: Bytes): int {
    if t == [] then 0 else 16 * HexNumber(t[..|t| - 1]) + HexValue(t[|t| - 1])
  }

  lemma HexNumber4(t: Bytes)
    requires |t| == 4 && forall i | 0 <= i < 4 :: IsHex(t[i])
    ensures HexNumber(t) == Hex4(t) && 0 <= Hex4(t) < 0x10000
  {
    assert t[..3][..2] == t[..2] && t[..2][..1] == t[..1] && t[..1][..0] == [];
    assert HexNumber(t[..1]) == HexValue(t[0]);
    assert HexNumber(t[..2]) == 16 * HexNumber(t[..1]) + HexValue(t[1]);
    assert HexNumber(t[..3]) == 16 * HexNumber(t[..2]) + HexValue(t[2]);
    assert forall i | 0 <= i < 4 :: 0 <= HexValue(t[i]) < 16;
  }

  /** decode_unicode_escape: `str` points to the `u`. */
  method DecodeUnicodeEscape(str: Bytes) returns (value: int)
    requires |str| >= 5 && HexRun(str, 1, 4)
    ensures value == Hex4(str[1..5]) && 0 <= value < 0x10000
  {
    hide Hex4, HexNumber;
    value := 0;
    var i := 1;
    HexStart(str);
    while i <= 4
      invariant 1 <= i <= 5
      invariant value == HexNumber(str[1..i])
    {
      var c := str[i];
      assert IsHex(c);
      value := 16 * value;
      if IsDigit(c) {
        value := value + (c - 48);
      } else if 97 <= c <= 122 {
        value := value + (c - 97 + 10);
      } else if 65 <= c <= 90 {
        value := value + (c - 65 + 10);
      } else {
        return -1;
      }
      HexNext(str, i);
      i := i + 1;
    }
    HexNumber4(str[1..5]);
  }

  lemma HexStart(str: Bytes)
    requires |str| >= 1
    ensures HexNumber(str[1..1]) == 0
  {
  }

  lemma HexNext(str: Bytes, i: nat)
    requires 1 <= i < |str|
    ensures HexNumber(str[1..i + 1]) == 16 * HexNumber(str[1..i]) + HexValue(str[i])
  {
    assert str[1..i + 1][..i - 1] == str[1..i];
  }

  /** From byte `p` the saved text is well-formed up to its closing quote, which is its last byte. */
  ghost predicate Raw(saved: Bytes, p: nat) {
    p < |saved| && RawLength(saved[p..]) == Some(|saved| - 1 - p)
  }

  /** The raw text from byte `p` to the closing quote. */
  function Inner(saved: Bytes, p: nat): Bytes
    requires p < |saved|
  {
    saved[p..|saved| - 1]
  }

  /** What well-formedness says about the next character. */
  lemma RawChar(saved: Bytes, p: nat)
    requires Raw(saved, p)
    ensures saved[p] == QUOTE <==> p == |saved| - 1
    ensures saved[p] != QUOTE ==> Inner(saved, p) != [] && Inner(saved, p)[0] == saved[p]
    ensures saved[p] != QUOTE && saved[p] != BACKSLASH ==> Raw(saved, p + 1)
    ensures saved[p] == BACKSLASH ==>
              var n := EscapeLength(saved[p..]);
              n.Some? && Raw(saved, p + n.value) && EscapeLength(Inner(saved, p)) == n
  {
    hide EscapeLength, RawLength;
    RawFirst(saved[p..]);
    assert saved[p..][..|saved| - 1 - p] == Inner(saved, p);
    if saved[p] == BACKSLASH {
      var n := EscapeLength(saved[p..]);
      assert saved[p..][n.value..] == saved[p + n.value..];
      EscapePrefix(saved[p..], |saved| - 1 - p);
    } else if saved[p] != QUOTE {
      assert saved[p..][1..] == saved[p + 1..];
    }
  }

  lemma RawFirst(t: Bytes)
    requires t != [] && RawLength(t) == Some(|t| - 1)
    ensures t[0] == QUOTE <==> |t| == 1
    ensures t[0] != QUOTE && t[0] != BACKSLASH ==> RawLength(t[1..]) == Some(|t| - 2)
    ensures t[0] == BACKSLASH ==>
              var n := EscapeLength(t);
              n.Some? && n.value < |t| && RawLength(t[n.value..]) == Some(|t| - 1 - n.value)
  {
    hide EscapeLength;
  }

  lemma EscapePrefix(t: Bytes, n: nat)
    requires n <= |t| && EscapeLength(t).Some? && EscapeLength(t).value <= n
    ensures EscapeLength(t[..n]) == EscapeLength(t)
  {
  }

  lemma InnerFrom(saved: Bytes, p: nat, k: nat)
    requires p + k < |saved|
    ensures k <= |Inner(saved, p)| && Inner(saved, p)[k..] == Inner(saved, p + k)
  {
  }

  lemma InnerPart(saved: Bytes, p: nat, a: nat, b: nat)
    requires a <= b && p + b < |saved|
    ensures b <= |Inner(saved, p)| && Inner(saved, p)[a..b] == saved[p + a..p + b]
  {
    assert forall k | 0 <= k < b - a :: Inner(saved, p)[a..b][k] == saved[p + a..p + b][k];
  }

  lemma InnerAt(saved: Bytes, p: nat, k: nat)
    requires p < |saved|
    ensures |Inner(saved, p)| == |saved| - 1 - p && (k < |Inner(saved, p)| ==> Inner(saved, p)[k] == saved[p + k])
  {
  }

  /** A `\u` escape, as the second pass sees it. */
  lemma RawUnit(saved: Bytes, p: nat)
    requires Raw(saved, p) && saved[p] == BACKSLASH && p + 1 < |saved| && saved[p + 1] == LETTER_U
    ensures p + 6 < |saved| && HexRun(saved, p + 2, 4) && Raw(saved, p + 6)
    ensures Inner(saved, p) != [] && EscapeLength(Inner(saved, p)) == Some(6)
    ensures Inner(saved, p)[2..6] == saved[p + 2..p + 6] && Inner(saved, p)[6..] == Inner(saved, p + 6)
  {
    hide RawLength, EscapeLength, Inner;
    RawChar(saved, p);
    EscapeAt(saved, p);
    InnerPart(saved, p, 2, 6);
    InnerFrom(saved, p, 6);
  }

  /** A `\u` escape and what follows it. */
  lemma RawUnicode(saved: Bytes, p: nat)
    requires Raw(saved, p) && saved[p] == BACKSLASH && p + 1 < |saved| && saved[p + 1] == LETTER_U
    ensures p + 6 < |saved| && HexRun(saved, p + 2, 4) && Raw(saved, p + 6)
    ensures EscapeLength(Inner(saved, p)) == Some(6) && Inner(saved, p)[2..6] == saved[p + 2..p + 6]
    ensures saved[p + 6] == BACKSLASH ==> p + 7 < |saved|
    ensures var q := Inner(saved, p);
            var second := saved[p + 6] == BACKSLASH && saved[p + 7] == LETTER_U;
            && (second <==> |q| >= 12 && q[6] == BACKSLASH && q[7] == LETTER_U && EscapeLength(q[6..]) == Some(6))
            && (second ==> p + 12 < |saved| && HexRun(saved, p + 8, 4) && Raw(saved, p + 12) && q[8..12] == saved[p + 8..p + 12])
  {
    hide Raw, RawLength, EscapeLength, Inner;
    RawUnit(saved, p);
    RawNext(saved, p + 6);
    InnerAt(saved, p, 6);
    InnerAt(saved, p, 7);
    if saved[p + 6] == BACKSLASH && saved[p + 7] == LETTER_U {
      RawUnit(saved, p + 6);
      InnerPart(saved, p, 8, 12);
    }
  }

  /** After a backslash comes a letter. */
  lemma RawNext(saved: Bytes, p: nat)
    requires Raw(saved, p)
    ensures p < |saved| && (saved[p] == BACKSLASH ==> p + 1 < |saved| - 1)
  {
    hide RawLength, EscapeLength;
    RawChar(saved, p);
    EscapeAt(saved, p);
  }

  /** What the second pass has written, and where it stands. */
  ghost predicate Decoding(saved: Bytes, p: nat, done: Bytes) {
    && 1 <= p && Raw(saved, p) && |done| < p
    && Unescape(Inner(saved, 1)) ==
       (if Unescape(Inner(saved, p)).Some? then Some(done + Unescape(Inner(saved, p)).value) else None)
  }

  /** One more character decoded. */
  lemma DecodingStep(saved: Bytes, p: nat, done: Bytes)
    requires Decoding(saved, p, done) && saved[p] != QUOTE
    ensures Inner(saved, p) != []
    ensures var c := CharAt(Inner(saved, p));
            if c.None? then Unescape(Inner(saved, 1)).None?
            else Raw(saved, p + c.value.1) ==> Decoding(saved, p + c.value.1, done + c.value.0)
  {
    hide CharAt, RawLength;
    RawChar(saved, p);
    var q := Inner(saved, p);
    var c := CharAt(q);
    if c.Some? {
      assert q[c.value.1..] == Inner(saved, p + c.value.1);
      if Unescape(Inner(saved, p + c.value.1)).Some? {
        assert done + (c.value.0 + Unescape(Inner(saved, p + c.value.1)).value)
            == done + c.value.0 + Unescape(Inner(saved, p + c.value.1)).value;
      }
    }
  }

  /** The `\u` branch of the second pass. */
  method DecodeUnicode(saved: Bytes, p0: nat) returns (ok: bool, p: nat, value: int)
    requires Raw(saved, p0) && saved[p0] == BACKSLASH && p0 + 1 < |saved| && saved[p0 + 1] == LETTER_U
    ensures EscapeLength(Inner(saved, p0)) == Some(6)
    ensures !ok ==> UnicodeAt(Inner(saved, p0)).None?
    ensures ok ==> p0 <= p && UnicodeAt(Inner(saved, p0)) == Some((value, p - p0)) && Raw(saved, p)
    ensures ok ==> 0 <= value <= 0x10FFFF
  {
    hide Raw, EscapeLength, Hex4;
    RawUnicode(saved, p0);
    p := p0 + 1;
    value := DecodeUnicodeEscape(saved[p..]);
    assert saved[p..][1..5] == saved[p0 + 2..p0 + 6];
    p := p + 5;
    if 0xD800 <= value <= 0xDBFF {
      if saved[p] == BACKSLASH && saved[p + 1] == LETTER_U {
        p := p + 1;
        var value2 := DecodeUnicodeEscape(saved[p..]);
        assert saved[p..][1..5] == saved[p0 + 8..p0 + 12];
        p := p + 5;
        if 0xDC00 <= value2 <= 0xDFFF {
          value := (value - 0xD800) * 1024 + (value2 - 0xDC00) + 0x10000;
        } else {
          return false, p, value;
        }
      } else {
        return false, p, value;
      }
    } else if 0xDC00 <= value <= 0xDFFF {
      return false, p, value;
    }
    ok := true;
  }

  /** One turn of the second pass: decodes the character at `p` to `t[n]` and after. */
  method DecodeChar(saved: Bytes, p0: nat, t: array<Byte>, n0: nat) returns (ok: bool, p: nat, n: nat)
    requires Raw(saved, p0) && saved[p0] != QUOTE && n0 < p0 && t.Length == |saved| + 1
    modifies t
    ensures Inner(saved, p0) != [] && (ok <==> CharAt(Inner(saved, p0)).Some?)
    ensures ok ==> Raw(saved, p) && n0 <= n <= t.Length
    ensures ok ==> CharAt(Inner(saved, p0)) == Some((t[n0..n], p - p0)) && t[..n0] == old(t[..n0])
  {
    hide Raw, EscapeLength, UnicodeAt, Encode;
    RawChar(saved, p0);
    RawSize(saved, p0);
    ok, p, n := true, p0, n0;
    if saved[p] == BACKSLASH {
      EscapeAt(saved, p);
      p := p + 1;
      if saved[p] == LETTER_U {
        var value;
        ok, p, value := DecodeUnicode(saved, p0);
        if !ok {
          return;
        }
        RawSize(saved, p);
        EncodeFits(value, Inner(saved, p0), p - p0);
        var done, length := Utf8Encode(value, t, n);
        n := n + length;
        assert t[n0..n] == Encode(value);
      } else {
        if saved[p] == QUOTE || saved[p] == BACKSLASH || saved[p] == SLASH {
          t[n] := saved[p];
        } else if saved[p] == 98 {
          t[n] := 8;
        } else if saved[p] == 102 {
          t[n] := 12;
        } else if saved[p] == 110 {
          t[n] := 10;
        } else if saved[p] == 114 {
          t[n] := 13;
        } else {
          t[n] := 9;
        }
        n, p := n + 1, p + 1;
        assert t[n0..n] == [Short(saved[p0 + 1])];
      }
    } else {
      t[n] := saved[p];
      n, p := n + 1, p + 1;
      assert t[n0..n] == [saved[p0]];
    }
  }

  lemma RawSize(saved: Bytes, p: nat)
    requires Raw(saved, p)
    ensures p < |saved|
  {
  }

  /** An escape sequence is no shorter than the encoding of what it stands for. */
  lemma EncodeFits(value: int, q: Bytes, n: nat)
    requires 0 <= value <= 0x10FFFF && EscapeLength(q) == Some(6) && UnicodeAt(q) == Some((value, n))
    ensures |Encode(value)| == Size(value) <= n <= |q|
  {
  }

  /** The second pass of lex_scan_string: the decoded bytes always fit the buffer. */
  method DecodeString(saved: Bytes) returns (r: Option<Bytes>)
    requires |saved| >= 2 && Raw(saved, 1)
    ensures r == Unescape(Inner(saved, 1))
  {
    hide Raw, CharAt, Unescape, Decoding;
    var t := new Byte[|saved| + 1];
    var p, n := 1, 0;
    DecodingStart(saved);
    assert t[..0] == [];
    while saved[p] != QUOTE
      invariant 1 <= p < |saved| && 0 <= n < p && Decoding(saved, p, t[..n])
      decreases |saved| - p
    {
      DecodingFacts(saved, p, t[..n]);
      DecodingStep(saved, p, t[..n]);
      ghost var p0, n0, done := p, n, t[..n];
      var ok;
      ok, p, n := DecodeChar(saved, p, t, n);
      if !ok {
        return None;
      }
      assert t[..n] == done + t[n0..n];
      DecodingFacts(saved, p, t[..n]);
    }
    DecodingEnd(saved, p, t[..n]);
    t[n] := 0;
    r := Some(t[..n]);
  }

  lemma DecodingStart(saved: Bytes)
    requires |saved| >= 2 && Raw(saved, 1)
    ensures Decoding(saved, 1, [])
  {
    if Unescape(Inner(saved, 1)).Some? {
      assert [] + Unescape(Inner(saved, 1)).value == Unescape(Inner(saved, 1)).value;
    }
  }

  lemma DecodingFacts(saved: Bytes, p: nat, done: Bytes)
    requires Decoding(saved, p, done)
    ensures Raw(saved, p) && 1 <= p < |saved| && |done| < p
  {
  }

  /** At the closing quote everything is decoded. */
  lemma DecodingEnd(saved: Bytes, p: nat, done: Bytes)
    requires Decoding(saved, p, done) && saved[p] == QUOTE
    ensures Unescape(Inner(saved, 1)) == Some(done)
  {
    RawChar(saved, p);
    assert Inner(saved, p) == [] && done + [] == done;
    assert Unescape(Inner(saved, p)) == Some([]);
  }
}