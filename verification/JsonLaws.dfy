/** The laws between json_dumps and json_loads on whole documents. */
module JsonLaws {
  import opened Wrappers
  import opened Utf8
  import opened JsonText
  import opened JsonGrammar
  import opened JsonRoundTrip
  import opened JsonStream
  import opened JsonPrinter
  import S = JsonSyntax

  // ---------------------------------------------------------------- the text is UTF-8 without NUL

  ghost predicate Clean(b: Bytes) {
    Valid(b) && 0 !in b
  }

  lemma {:induction false} ValidAppend(a: Bytes, b: Bytes)
    requires Valid(a) && Valid(b)
    ensures Valid(a + b)
  {
    hide Encode;
    if a == [] {
      assert a + b == b;
    } else {
      var c := First(a).value;
      FirstIs(a + b, c, Size(c));
      assert (a + b)[Size(c)..] == a[Size(c)..] + b;
      ValidAppend(a[Size(c)..], b);
    }
  }

  lemma CleanAppend(a: Bytes, b: Bytes)
    requires Clean(a) && Clean(b)
    ensures Clean(a + b)
  {
    ValidAppend(a, b);
  }

  lemma AsciiClean(b: Bytes)
    requires forall i | 0 <= i < |b| :: 0 < b[i] < 0x80
    ensures Clean(b)
  {
    AsciiValid(b);
  }

  lemma CharClean(c: int, flags: DumpFlags)
    requires Scalar(c)
    ensures Clean(CharText(c, flags))
  {
    if MustEscape(c, flags) {
      if c >= 0x10000 {
        SurrogatesBack(c);
      }
      AsciiClean(Escaped(c));
    } else {
      EncodeDecode([c]);
      assert EncodeAll([c]) == Encode(c) + [] == Encode(c);
    }
  }

  lemma {:induction false} CharsClean(cs: seq<int>, flags: DumpFlags)
    requires Scalars(cs)
    ensures Clean(CharsText(cs, flags))
  {
    hide CharText;
    if cs != [] {
      CharClean(cs[0], flags);
      CharsClean(cs[1..], flags);
      CleanAppend(CharText(cs[0], flags), CharsText(cs[1..], flags));
    }
  }

  lemma StringClean(s: Bytes, flags: DumpFlags)
    requires Valid(s)
    ensures Clean(StringText(s, flags))
  {
    hide CharsText, Decode, Clean;
    DecodeEncode(s);
    var chars := CharsText(Decode(s), flags);
    CharsClean(Decode(s), flags);
    AsciiClean([QUOTE]);
    CleanAppend([QUOTE], chars);
    CleanAppend([QUOTE] + chars, [QUOTE]);
  }

  lemma IndentClean(flags: DumpFlags, k: nat, last: bool)
    ensures Clean(IndentText(flags, k, false)) && Clean(Follow(last, flags, k))
  {
    hide Clean, Follow, IndentText;
    IndentAscii(flags, k, false);
    AsciiClean(IndentText(flags, k, false));
    FollowAscii(last, flags, k);
    AsciiClean(Follow(last, flags, k));
  }

  lemma IndentAscii(flags: DumpFlags, k: nat, space: bool)
    ensures forall i | 0 <= i < |IndentText(flags, k, space)| :: 0 < IndentText(flags, k, space)[i] < 0x80
  {
  }

  lemma FollowAscii(last: bool, flags: DumpFlags, k: nat)
    ensures forall i | 0 <= i < |Follow(last, flags, k)| :: 0 < Follow(last, flags, k)[i] < 0x80
  {
    hide IndentText;
    IndentAscii(flags, k, false);
    IndentAscii(flags, k + 1, true);
  }

  lemma NumberClean(n: int)
    ensures Clean(IntegerText(n))
  {
    DigitsAll(if n < 0 then -n else n);
    AsciiClean(IntegerText(n));
  }

  lemma {:induction false} ValueClean(v: Value, flags: DumpFlags, k: nat)
    requires WellFormed(v)
    ensures Clean(ValueText(v, flags, k))
    decreases v, 1
  {
    hide Clean, IndentText, StringText, IntegerText;
    match v
    case Integer(n) => NumberClean(n);
    case String(s) => StringClean(s, flags);
    case Array(items) =>
      if items != [] {
        ItemsClean(items, flags, k);
        IndentClean(flags, k + 1, true);
        Bracketed([91], IndentText(flags, k + 1, false), ItemsText(items, flags, k), [93]);
      } else {
        AsciiClean([91, 93]);
      }
    case Object(members) =>
      if members != [] {
        MembersClean(members, flags, k);
        IndentClean(flags, k + 1, true);
        Bracketed([123], IndentText(flags, k + 1, false), MembersText(members, flags, k), [125]);
      } else {
        AsciiClean([123, 125]);
      }
    case Null => AsciiClean([110, 117, 108, 108]);
    case True => AsciiClean([116, 114, 117, 101]);
    case False => AsciiClean([102, 97, 108, 115, 101]);
    case Real(_) =>
  }

  lemma Bracketed(a: Bytes, b: Bytes, c: Bytes, d: Bytes)
    requires |a| == 1 && 0 < a[0] < 0x80 && Clean(b) && Clean(c) && |d| == 1 && 0 < d[0] < 0x80
    ensures Clean(a + b + c + d)
  {
    hide Clean;
    AsciiClean(a);
    AsciiClean(d);
    CleanAppend(a, b);
    CleanAppend(a + b, c);
    CleanAppend(a + b + c, d);
  }

  lemma {:induction false} ItemsClean(items: seq<Value>, flags: DumpFlags, k: nat)
    requires forall i | 0 <= i < |items| :: WellFormed(items[i])
    ensures Clean(ItemsText(items, flags, k))
    decreases items, 0
  {
    hide Clean, Follow, ValueText;
    if items == [] {
      AsciiClean([]);
    } else {
      ValueClean(items[0], flags, k + 1);
      ItemsClean(items[1..], flags, k);
      IndentClean(flags, k, |items| == 1);
      var first, follow := ValueText(items[0], flags, k + 1), Follow(|items| == 1, flags, k);
      CleanAppend(first, follow);
      CleanAppend(first + follow, ItemsText(items[1..], flags, k));
    }
  }

  lemma {:induction false} MembersClean(members: seq<Member>, flags: DumpFlags, k: nat)
    requires forall i | 0 <= i < |members| :: KeyOk(members[i].key) && WellFormed(members[i].value)
    ensures Clean(MembersText(members, flags, k))
    decreases members, 0
  {
    hide Clean, Follow, ValueText, StringText, Separator;
    if members == [] {
      AsciiClean([]);
    } else {
      var m := members[0];
      StringClean(m.key, flags);
      SeparatorClean(flags);
      ValueClean(m.value, flags, k + 1);
      MembersClean(members[1..], flags, k);
      IndentClean(flags, k, |members| == 1);
      CleanAppend(StringText(m.key, flags), Separator(flags));
      CleanAppend(StringText(m.key, flags) + Separator(flags), ValueText(m.value, flags, k + 1));
      var follow := Follow(|members| == 1, flags, k);
      CleanAppend(MemberText(m, flags, k), follow);
      CleanAppend(MemberText(m, flags, k) + follow, MembersText(members[1..], flags, k));
    }
  }

  lemma SeparatorClean(flags: DumpFlags)
    ensures Clean(Separator(flags))
  {
    AsciiClean(Separator(flags));
  }

  // ---------------------------------------------------------------- printing, then parsing

  /** What json_loadb answers for these bytes. */
  ghost function Loads(data: Bytes, flags: LoadFlags): Option<Value> {
    ParseJson(GoodText(data), Env(flags, Spoilt(data)))
  }

  lemma {:induction false} NormalizeKeeps(v: Value, sort: bool, levels: int)
    ensures Within(v, levels) ==> Within(Normalize(v, sort), levels)
    ensures NulFree(v) ==> NulFree(Normalize(v, sort))
  {
    if v.Array? {
      forall i | 0 <= i < |v.items|
        ensures Within(v.items[i], levels - 1) ==> Within(NormalizeAll(v.items, sort)[i], levels - 1)
        ensures NulFree(v.items[i]) ==> NulFree(NormalizeAll(v.items, sort)[i])
      {
        NormalizeItem(v.items, sort, i);
        hide NormalizeAll;
        NormalizeKeeps(v.items[i], sort, levels - 1);
      }
    } else if v.Object? {
      var order := InOrder(v.members, sort);
      NormalizeObject(v.members, sort);
      OrderedMembers(v.members, sort);
      forall i | 0 <= i < |order|
        ensures Within(v, levels) ==> Within(NormalizeMembers(order, sort)[i].value, levels - 1)
        ensures NulFree(v) ==> NulFree(NormalizeMembers(order, sort)[i].value)
      {
        NormalizeMember(order, sort, i);
        var j :| 0 <= j < |v.members| && v.members[j] == order[i];
        NormalizeKeeps(v.members[j].value, sort, levels - 1);
      }
    }
  }

  /** The flags under which a document can be read back. */
  ghost predicate Loadable(v: Value, flags: LoadFlags) {
    && Readable(v, Env(flags, false), 0) && Within(v, 2048)
    && (flags.decodeAny || v.Array? || v.Object?)
  }

  /**
   Whatever flags a document is printed with, json_loadb and json_loads read it back, members in key order if
   they were printed so.
   */
  lemma RoundTrip(v: Value, df: DumpFlags, lf: LoadFlags)
    requires Loadable(v, lf)
    ensures Loads(DumpText(v, df, 0), lf) == Some(Normalize(v, df.sortKeys))
    ensures UpToNul(DumpText(v, df, 0)) == DumpText(v, df, 0)
  {
    hide ValueText, Scan, ParseValue, Within, NulFree, Normalize, WellFormed;
    var n := Normalize(v, df.sortKeys);
    NormalizeWellFormed(v, df.sortKeys);
    NormalizeKeeps(v, df.sortKeys, MAX_DEPTH);
    var text := ValueText(n, df, 0);
    ValueClean(n, df, 0);
    GoodAll(text);
    NoNul(text);
    ValueBack(n, df, 0, Env(lf, false), 0, []);
    assert text + [] == text;
    Opening(v, df, lf);
    ScanNothing(lf);
  }

  /** With JSON_SORT_KEYS the document has the keys of every object in byte order, as the reader meets them. */
  lemma SortedDocument(v: Value, df: DumpFlags, lf: LoadFlags)
    requires Loadable(v, lf) && df.sortKeys
    ensures var r := Loads(DumpText(v, df, 0), lf); r.Some? && KeysAscend(r.value) && Equal(v, r.value)
  {
    hide Loads, DumpText, Normalize, KeysAscend;
    RoundTrip(v, df, lf);
    NormalizeAscends(v);
    NormalizeEqual(v, true);
  }

  lemma ScanNothing(lf: LoadFlags)
    ensures Scan([], false, lf) == (Eof, [])
  {
  }

  /** The first token of a printed array or object is its bracket. */
  lemma Opening(v: Value, df: DumpFlags, lf: LoadFlags)
    requires WellFormed(v)
    ensures v.Array? ==> Scan(DumpText(v, df, 0), false, lf).0 == Punct(91)
    ensures v.Object? ==> Scan(DumpText(v, df, 0), false, lf).0 == Punct(123)
  {
    hide Scan, ItemsText, MembersText, IndentText;
    NormalizeWellFormed(v, df.sortKeys);
    var text := DumpText(v, df, 0);
    if v.Array? || v.Object? {
      assert text == [text[0]] + text[1..];
      PunctBack(text[0], text[1..], Env(lf, false));
    }
  }

  // ---------------------------------------------------------------- equality of JSON values

  /** json_equal: objects have the same keys with equal values, in any order. */
  predicate Equal(a: Value, b: Value)
    decreases a
  {
    match a
    case Array(items) =>
      b.Array? && |items| == |b.items| && forall i | 0 <= i < |items| :: Equal(items[i], b.items[i])
    case Object(members) =>
      b.Object? && |members| == |b.members| &&
      forall i | 0 <= i < |members| ::
        Get(b.members, members[i].key).Some? && Equal(members[i].value, Get(b.members, members[i].key).value)
    case _ => a == b
  }

  /** Sorting keys does not change a value: what is read back is equal to what was printed. */
  lemma {:induction false} NormalizeEqual(v: Value, sort: bool)
    requires WellFormed(v)
    ensures Equal(v, Normalize(v, sort))
  {
    if v.Array? {
      forall i | 0 <= i < |v.items| ensures Equal(v.items[i], NormalizeAll(v.items, sort)[i]) {
        NormalizeItem(v.items, sort, i);
        NormalizeEqual(v.items[i], sort);
      }
    } else if v.Object? {
      var order := InOrder(v.members, sort);
      var ms := NormalizeMembers(order, sort);
      NormalizeObject(v.members, sort);
      NormalizeWellFormed(v, sort);
      OrderedMembers(v.members, sort);
      forall i | 0 <= i < |v.members|
        ensures Get(ms, v.members[i].key).Some? && Equal(v.members[i].value, Get(ms, v.members[i].key).value)
      {
        assert v.members[i] in order;
        var j :| 0 <= j < |order| && order[j] == v.members[i];
        NormalizeMember(order, sort, j);
        GetMember(ms, j);
        NormalizeEqual(v.members[i].value, sort);
      }
    }
  }

  /** Without JSON_SORT_KEYS even the order of members comes back. */
  lemma {:induction false} NormalizeUnsorted(v: Value)
    ensures Normalize(v, false) == v
  {
    if v.Array? {
      NormalizeAllUnsorted(v.items);
    } else if v.Object? {
      NormalizeMembersUnsorted(v.members);
    }
  }

  lemma {:induction false} NormalizeAllUnsorted(items: seq<Value>)
    ensures NormalizeAll(items, false) == items
  {
    if items != [] {
      NormalizeUnsorted(items[0]);
      NormalizeAllUnsorted(items[1..]);
    }
  }

  lemma {:induction false} NormalizeMembersUnsorted(members: seq<Member>)
    ensures NormalizeMembers(members, false) == members
  {
    if members != [] {
      NormalizeUnsorted(members[0].value);
      NormalizeMembersUnsorted(members[1..]);
    }
  }

  // ---------------------------------------------------------------- what is accepted

  lemma {:induction false} SpoiltIsInvalid(data: Bytes)
    ensures Spoilt(data) <==> !Valid(data)
  {
    if data != [] && First(data).Some? {
      SpoiltIsInvalid(data[Size(First(data).value)..]);
    }
  }

  /** After input that is not UTF-8 the end is never reached. */
  lemma SpoiltRefused(text: Bytes, flags: LoadFlags)
    requires !flags.disableEofCheck
    ensures ParseJson(text, Env(flags, true)) == None
  {
    hide ParseValue;
    S.Parsing(text, Env(flags, true));
  }

  /** json_loadb accepts exactly UTF-8 that is JSON but for NULs after numbers and words. */
  lemma LoadsExactly(data: Bytes, v: Value, flags: LoadFlags)
    requires !flags.disableEofCheck
    ensures Loads(data, flags) == Some(v) <==> Valid(data) && S.Tolerated(data, v, flags)
  {
    hide ParseJson, Spoilt;
    SpoiltIsInvalid(data);
    if Valid(data) {
      GoodAll(data);
      S.ParserIsGrammar(data, v, flags);
    } else {
      SpoiltRefused(GoodText(data), flags);
    }
  }

  /** `data` is a JSON text in UTF-8 (sections 2 and 8.1 of RFC 8259) for `v`. */
  ghost predicate Json(data: Bytes, v: Value, flags: LoadFlags) {
    Valid(data) && S.Document(data, v, flags)
  }

  /** What a reader that keeps to the grammar answers. */
  ghost function Strict(data: Bytes, flags: LoadFlags): Option<Value> {
    if v: Value :| Json(data, v, flags) then Some(v) else None
  }

  /** Without NUL, json_loadb accepts exactly the JSON texts; with NUL a text is never JSON. */
  lemma JsonIsNulFree(data: Bytes, v: Value, flags: LoadFlags)
    requires !flags.disableEofCheck
    ensures Json(data, v, flags) <==> Loads(data, flags) == Some(v) && 0 !in data
  {
    hide S.Tolerated, S.Document, Loads;
    LoadsExactly(data, v, flags);
    S.StandardIsNulFree(data, v, flags);
  }

  /** What json_loadb accepts is read as the grammar says if and only if there is no NUL in it. */
  lemma NulDecides(data: Bytes, flags: LoadFlags)
    requires !flags.disableEofCheck
    ensures Loads(data, flags).Some? ==> (Strict(data, flags) == Loads(data, flags) <==> 0 !in data)
    ensures Strict(data, flags).Some? ==> Loads(data, flags) == Strict(data, flags)
  {
    hide Json, Loads;
    forall v: Value ensures Json(data, v, flags) <==> Loads(data, flags) == Some(v) && 0 !in data {
      JsonIsNulFree(data, v, flags);
    }
  }

  /** A string has no NUL, so json_loads keeps to the grammar. */
  lemma {:induction false} StringsAreStrict(memory: Bytes, flags: LoadFlags)
    requires !flags.disableEofCheck
    ensures Loads(UpToNul(memory), flags) == Strict(UpToNul(memory), flags)
  {
    hide Loads, Strict;
    NoNulIn(memory);
    NulDecides(UpToNul(memory), flags);
  }

  lemma {:induction false} NoNulIn(memory: Bytes)
    ensures 0 !in UpToNul(memory)
  {
    if memory != [] && memory[0] != 0 {
      NoNulIn(memory[1..]);
    }
  }

  // ---------------------------------------------------------------- a NUL byte given back is lost

  /**
   RFC 8259 has no NUL between tokens, and a document with one at the start of a token is refused. After a number
   or a word, though, the NUL is given back to the stream, which cannot hold it: `[1<NUL>]` is read as `[1]`.
   */
  lemma NulAfterNumber(lf: LoadFlags)
    requires !lf.decodeIntAsReal
    ensures Loads([91, 49, 0, 93], lf) == Some(Array([Integer(1)]))
  {
    hide Scan;
    var env := Env(lf, false);
    var inner: Bytes := [49, 0, 93];
    var text := [91] + inner;
    AsciiText(text);
    PunctBack(91, inner, env);
    PunctBack(93, [], env);
    assert [93] + [] == [93];
    OneNul(lf);
    ScanNothing(lf);
    assert ParseValue(Int(1), [93], env, 1) == Some((Integer(1), [93]));
    assert [] + [Integer(1)] == [Integer(1)];
    assert ParseItems(Int(1), [93], [], env, 1) == Some((Array([Integer(1)]), []));
    assert ParseArray(inner, env, 1) == Some((Array([Integer(1)]), []));
    assert text == [91, 49, 0, 93];
  }

  /** `[true<NUL>]` */
  const TRUE_NUL: Bytes := [91, 116, 114, 117, 101, 0, 93]

  lemma TrueNulSyntax(lf: LoadFlags) returns (item: S.Item)
    ensures S.StandsFor(item, TRUE_NUL, Array([True]), lf)
  {
    var word := S.Item([], S.Named(S.KwTrue, true), []);
    var list := S.List([], [word]);
    WordMeans(word, lf);
    assert S.Formed(list) && S.Shallow(list, MAX_DEPTH);
    ListMeans(list, lf);
    assert S.Source(list) == [91] + [116, 114, 117, 101, 0] + [93] == TRUE_NUL;
    item := S.Item([], list, []);
    Bare(item);
  }

  lemma ListMeans(list: S.Syntax, lf: LoadFlags)
    requires list.List? && S.Formed(list) && S.ItemsMean(list.items, lf).Some?
    ensures S.Means(list, lf) == Some(Array(S.ItemsMean(list.items, lf).value))
  {
  }

  lemma WordMeans(word: S.Item, lf: LoadFlags)
    requires word == S.Item([], S.Named(S.KwTrue, true), [])
    ensures S.ItemFormed(word) && S.ItemsMean([word], lf) == Some([True])
    ensures S.ItemsSource([word]) == [116, 114, 117, 101, 0]
  {
    S.OneItem(word, lf);
    Bare(word);
    assert S.Source(word.value) == [116, 114, 117, 101, 0];
  }

  lemma Bare(item: S.Item)
    requires item.before == item.after == []
    ensures S.ItemSource(item) == S.Source(item.value)
  {
    hide S.Source;
  }

  /** It is no JSON text, but it is read as `[true]`. */
  lemma NulAfterWord(lf: LoadFlags)
    ensures Loads(TRUE_NUL, lf) == Some(Array([True])) && Strict(TRUE_NUL, lf) == None
  {
    hide S.StandsFor, ParseJson;
    AsciiText(TRUE_NUL);
    var item := TrueNulSyntax(lf);
    S.SourceRead(item, TRUE_NUL, Array([True]), lf);
    assert TRUE_NUL[5] == 0;
    forall v: Value ensures !Json(TRUE_NUL, v, lf) {
      S.StandardIsNulFree(TRUE_NUL, v, lf);
    }
  }

  lemma NulBeforeNumber(lf: LoadFlags)
    requires !lf.decodeIntAsReal
    ensures Loads([91, 0, 49, 93], lf) == None
  {
    hide Scan;
    var inner: Bytes := [0, 49, 93];
    var text := [91] + inner;
    AsciiText(text);
    PunctBack(91, inner, Env(lf, false));
    OneNul(lf);
    assert text == [91, 0, 49, 93];
  }

  lemma OneNul(lf: LoadFlags)
    requires !lf.decodeIntAsReal
    ensures Scan([49, 0, 93], false, lf) == (Int(1), [93])
    ensures Scan([0, 49, 93], false, lf).0 == Invalid
  {
    var t: Bytes := [49, 0, 93];
    assert t[0..] == t && t[1..] == [0, 93] && [0, 93][1..] == [93] && t[..1] == [49];
    assert DigitCount([0, 93]) == 0;
    assert DigitCount(t) == 1;
    assert IntegerLength(t) == Some(1);
    assert DecimalValue([49]) == 1;
  }

  lemma {:induction false} AsciiText(b: Bytes)
    requires forall i | 0 <= i < |b| :: b[i] < 0x80
    ensures GoodText(b) == b && !Spoilt(b)
  {
    AsciiValid(b);
    GoodAll(b);
  }

  lemma {:induction false} AsciiValid(b: Bytes)
    requires forall i | 0 <= i < |b| :: b[i] < 0x80
    ensures Valid(b)
  {
    if b != [] {
      OneByte(b[0]);
      FirstIs(b, b[0], 1);
      AsciiValid(b[1..]);
    }
  }
}
