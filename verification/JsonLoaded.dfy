/** What json_loadb can return, and which values can therefore come back from json_dumps. */
module JsonLoaded {
  import opened Wrappers
  import opened Utf8
  import opened JsonText
  import opened JsonGrammar
  import opened JsonRoundTrip
  import opened JsonPrinter
  import opened JsonLaws
  import S = JsonSyntax

  // ---------------------------------------------------------------- UTF-8 around ASCII characters

  predicate Ascii(b: Bytes) {
    forall i | 0 <= i < |b| :: b[i] < 0x80
  }

  lemma AsciiFirst(c: Byte, b: Bytes)
    requires c < 0x80
    ensures Valid([c] + b) <==> Valid(b)
  {
    OneByte(c);
    FirstIs([c] + b, c, 1);
    assert ([c] + b)[1..] == b;
  }

  lemma {:induction false} AsciiPrefix(a: Bytes, b: Bytes)
    requires Ascii(a) && Valid(a + b)
    ensures Valid(b)
  {
    if a == [] {
      assert a + b == b;
    } else {
      assert a + b == [a[0]] + (a[1..] + b);
      AsciiFirst(a[0], a[1..] + b);
      AsciiPrefix(a[1..], b);
    }
  }

  /** The first character of a text with an ASCII character in it ends before that. */
  lemma FirstBefore(a: Bytes, c: Byte, b: Bytes)
    requires a != [] && c < 0x80 && First(a + [c] + b).Some?
    ensures var x := First(a + [c] + b).value; Starts(a, x, Size(x)) && Size(x) <= |a|
  {
    hide First;
    var t := a + [c] + b;
    var x := First(t).value;
    assert First(t).Some? ==> Starts(t, x, Size(x)) by { FirstHolds(t); }
    EncodeSize(x);
    assert forall j | 1 <= j < Size(x) :: t[j] == Encode(x)[j];
    assert t[|a|] == c;
    assert Size(x) <= |a|;
    assert t[..Size(x)] == a[..Size(x)];
  }

  lemma FirstHolds(t: Bytes)
    ensures First(t).Some? ==> Starts(t, First(t).value, Size(First(t).value)) && Size(First(t).value) <= |t|
  {
  }

  lemma {:induction false} SplitAt(a: Bytes, c: Byte, b: Bytes)
    requires c < 0x80 && Valid(a + [c] + b)
    ensures Valid(a) && Valid(b)
  {
    hide First, Starts, Encode;
    if a == [] {
      assert a + [c] + b == [c] + b;
      AsciiFirst(c, b);
    } else {
      FirstBefore(a, c, b);
      var x := First(a + [c] + b).value;
      FirstIs(a, x, Size(x));
      assert (a + [c] + b)[Size(x)..] == a[Size(x)..] + [c] + b;
      SplitAt(a[Size(x)..], c, b);
    }
  }

  lemma AsciiSuffix(a: Bytes, b: Bytes)
    requires Ascii(b) && Valid(a + b)
    ensures Valid(a)
  {
    if b == [] {
      assert a + b == a;
    } else {
      assert a + b == a + [b[0]] + b[1..];
      SplitAt(a, b[0], b[1..]);
    }
  }

  lemma ValidOne(c: int)
    requires Scalar(c)
    ensures Valid(Encode(c))
  {
    EncodeDecode([c]);
    assert EncodeAll([c]) == Encode(c) + [] == Encode(c);
  }

  // ---------------------------------------------------------------- strings

  lemma EscapeMeans(c: S.Char)
    requires S.CharFormed(c) && !c.Unescaped?
    ensures Ascii(S.CharSource(c)) && Valid(S.CharMeans(c))
  {
    hide Encode, Hex4;
    match c {
      case Letter(b) =>
        AsciiValid([Short(b)]);
      case Unit(hex) =>
        S.HexRange(hex);
        ValidOne(Hex4(hex));
      case Surrogates(high, low) =>
        ValidOne(Unpaired(Hex4(high), Hex4(low)));
      case Unescaped(_) =>
    }
  }

  /** A character that starts with no backslash stands for itself. */
  lemma PlainOne(cs: seq<S.Char>)
    requires S.CharsFormed(cs) && S.CharsSource(cs) != [] && S.CharsSource(cs)[0] != BACKSLASH
    ensures cs != []
    ensures S.CharsSource(cs) == [S.CharsSource(cs)[0]] + S.CharsSource(cs[1..])
    ensures S.CharsMeans(cs) == [S.CharsSource(cs)[0]] + S.CharsMeans(cs[1..])
  {
    assert cs != [];
    assert S.CharsSource(cs)[0] == S.CharSource(cs[0])[0];
  }

  /** Bytes that are no backslash stand for themselves. */
  lemma {:induction false} PlainRun(cs: seq<S.Char>, n: nat)
    requires S.CharsFormed(cs) && n <= |S.CharsSource(cs)|
    requires forall i | 0 <= i < n :: S.CharsSource(cs)[i] != BACKSLASH
    ensures n <= |cs|
    ensures S.CharsSource(cs)[n..] == S.CharsSource(cs[n..])
    ensures S.CharsMeans(cs) == S.CharsSource(cs)[..n] + S.CharsMeans(cs[n..])
  {
    hide S.CharsSource, S.CharsMeans, S.CharFormed;
    var source := S.CharsSource(cs);
    if n == 0 {
      assert cs[0..] == cs && source[0..] == source;
      assert source[..0] + S.CharsMeans(cs) == S.CharsMeans(cs);
    } else {
      PlainOne(cs);
      var more := S.CharsSource(cs[1..]);
      Shifted([source[0]], more, n - 1);
      assert forall i | 0 <= i < n - 1 :: more[i] == source[i + 1];
      PlainRun(cs[1..], n - 1);
      assert cs[1..][n - 1..] == cs[n..];
      Joined(source[0], more[..n - 1], S.CharsMeans(cs[n..]));
    }
  }

  lemma Shifted(a: Bytes, b: Bytes, n: nat)
    requires |a| == 1 && n <= |b|
    ensures (a + b)[n + 1..] == b[n..] && (a + b)[..n + 1] == a + b[..n]
  {
  }

  lemma Joined(c: Byte, a: Bytes, b: Bytes)
    ensures [c] + (a + b) == [c] + a + b
  {
  }

  /** The first character of a text has no backslash in it unless it is one. */
  lemma NoBackslash(s: Bytes, c: int)
    requires Starts(s, c, Size(c)) && s[0] != BACKSLASH
    ensures forall i | 0 <= i < Size(c) :: s[i] != BACKSLASH
  {
    EncodeSize(c);
    forall i | 0 <= i < Size(c) ensures s[i] != BACKSLASH {
      assert s[i] == Encode(c)[i];
    }
  }

  lemma {:induction false} CharsValid(cs: seq<S.Char>)
    requires S.CharsFormed(cs) && Valid(S.CharsSource(cs))
    ensures Valid(S.CharsMeans(cs))
  {
    hide First, Starts, Encode, S.CharFormed, S.CharSource, S.CharMeans;
    if cs != [] {
      var source := S.CharsSource(cs);
      if cs[0].Unescaped? {
        PlainFirst(cs);
        FirstHolds(source);
        var n := Size(First(source).value);
        NoBackslash(source, First(source).value);
        PlainRun(cs, n);
        CharsValid(cs[n..]);
        var c := First(source).value;
        Prepended(source, c, S.CharsMeans(cs[n..]));
      } else {
        EscapeMeans(cs[0]);
        AsciiPrefix(S.CharSource(cs[0]), S.CharsSource(cs[1..]));
        CharsValid(cs[1..]);
        ValidAppend(S.CharMeans(cs[0]), S.CharsMeans(cs[1..]));
      }
    }
  }

  lemma PlainFirst(cs: seq<S.Char>)
    requires cs != [] && cs[0].Unescaped? && S.CharFormed(cs[0])
    ensures S.CharsSource(cs) != [] && S.CharsSource(cs)[0] != BACKSLASH
  {
  }

  lemma Prepended(s: Bytes, c: int, more: Bytes)
    requires Starts(s, c, Size(c)) && Size(c) <= |s| && Valid(more)
    ensures Valid(s[..Size(c)] + more)
  {
    EncodeSize(c);
    ValidOne(c);
    assert s[..Size(c)] == Encode(c);
    ValidAppend(Encode(c), more);
  }

  lemma QuotedValid(chars: seq<S.Char>)
    requires S.CharsFormed(chars) && Valid(S.StringSource(chars))
    ensures Valid(S.CharsMeans(chars))
  {
    hide S.CharsSource, S.CharsMeans;
    AsciiSuffix([QUOTE] + S.CharsSource(chars), [QUOTE]);
    AsciiPrefix([QUOTE], S.CharsSource(chars));
    CharsValid(chars);
  }

  // ---------------------------------------------------------------- values

  /** What the parser can make: UTF-8 strings, distinct keys without NUL, integers of 64 bits, limited nesting. */
  ghost predicate Loaded(v: Value, flags: LoadFlags, levels: int) {
    levels > 0 &&
    match v
    case Integer(n) => Int64(n)
    case String(s) => Valid(s) && (flags.allowNul || 0 !in s)
    case Array(items) => forall i | 0 <= i < |items| :: Loaded(items[i], flags, levels - 1)
    case Object(members) => MembersLoaded(members, flags, levels - 1)
    case _ => true
  }

  ghost predicate MembersLoaded(members: seq<Member>, flags: LoadFlags, levels: int) {
    Distinct(members) && forall i | 0 <= i < |members| :: KeyOk(members[i].key) && Loaded(members[i].value, flags, levels)
  }

  lemma {:induction false} SetMemberAt(members: seq<Member>, key: Bytes, value: Value)
    requires Distinct(members)
    ensures Distinct(SetMember(members, key, value))
    ensures forall m | m in SetMember(members, key, value) :: m == Member(key, value) || (m in members && m.key != key)
  {
    if members != [] && members[0].key != key {
      SetMemberAt(members[1..], key, value);
      var more := SetMember(members[1..], key, value);
      forall j | 0 <= j < |more| ensures more[j].key != members[0].key {
        assert more[j] in more;
      }
      DistinctFirst(members[0], more);
    } else if members != [] {
      DistinctFirst(Member(key, value), members[1..]);
    }
  }

  lemma DistinctFirst(m: Member, more: seq<Member>)
    requires Distinct(more) && forall j | 0 <= j < |more| :: more[j].key != m.key
    ensures Distinct([m] + more)
  {
  }

  lemma SetLoaded(members: seq<Member>, key: Bytes, value: Value, flags: LoadFlags, levels: int)
    requires MembersLoaded(members, flags, levels) && KeyOk(key) && Loaded(value, flags, levels)
    ensures MembersLoaded(SetMember(members, key, value), flags, levels)
  {
    hide Loaded, KeyOk;
    SetMemberAt(members, key, value);
    var r := SetMember(members, key, value);
    forall i | 0 <= i < |r| ensures KeyOk(r[i].key) && Loaded(r[i].value, flags, levels) {
      assert r[i] in r;
    }
  }

  lemma WhiteAscii(white: Bytes)
    requires S.White(white)
    ensures Ascii(white)
  {
  }

  lemma ItemValid(item: S.Item)
    requires S.ItemFormed(item) && Valid(S.ItemSource(item))
    ensures Valid(S.Source(item.value))
  {
    hide S.Source, S.Formed, S.White, Ascii;
    WhiteAscii(item.before);
    WhiteAscii(item.after);
    AsciiSuffix(item.before + S.Source(item.value), item.after);
    AsciiPrefix(item.before, S.Source(item.value));
  }

  lemma PairValid(p: S.Pair)
    requires S.PairFormed(p) && Valid(S.PairSource(p))
    ensures Valid(S.CharsMeans(p.key)) && Valid(S.Source(p.item.value))
  {
    hide S.Source, S.Formed, S.White, S.CharFormed, S.StringSource, S.CharsMeans, S.ItemSource;
    SplitAt(p.before + S.StringSource(p.key) + p.between, COLON, S.ItemSource(p.item));
    WhiteAscii(p.before);
    WhiteAscii(p.between);
    AsciiSuffix(p.before + S.StringSource(p.key), p.between);
    AsciiPrefix(p.before, S.StringSource(p.key));
    QuotedValid(p.key);
    ItemValid(p.item);
  }

  lemma BracketsValid(open: Byte, inner: Bytes, close: Byte)
    requires open < 0x80 && close < 0x80 && Valid([open] + inner + [close])
    ensures Valid(inner)
  {
    AsciiSuffix([open] + inner, [close]);
    AsciiPrefix([open], inner);
  }

  lemma NumeralLoaded(n: S.Numeral, flags: LoadFlags, levels: int)
    requires S.NumeralFormed(n) && S.NumeralMeans(n, flags).Some? && levels > 0
    ensures Loaded(S.NumeralMeans(n, flags).value, flags, levels)
  {
  }

  /** A syntax tree in UTF-8 stands for such a value. */
  lemma {:induction false} MeansLoaded(s: S.Syntax, flags: LoadFlags, levels: int)
    requires S.Formed(s) && Valid(S.Source(s)) && S.Means(s, flags).Some? && S.Shallow(s, levels)
    ensures Loaded(S.Means(s, flags).value, flags, levels)
    decreases s, 1
  {
    hide Valid, S.NumeralFormed, S.NumeralMeans, S.CharFormed, S.CharsMeans, S.CharsSource;
    match s {
      case Named(_, _) =>
      case Number(n, _) => NumeralLoaded(n, flags, levels);
      case Quoted(chars) => QuotedValid(chars);
      case List(pad, items) =>
        if items != [] {
          BracketsValid(91, S.ItemsSource(items), 93);
          ItemsLoaded(items, flags, levels - 1);
        }
      case Record(pad, pairs) =>
        if pairs != [] {
          BracketsValid(123, S.PairsSource(pairs), 125);
          PairsLoaded(pairs, [], flags, levels - 1);
        }
    }
  }

  lemma {:induction false} ItemsLoaded(items: seq<S.Item>, flags: LoadFlags, levels: int)
    requires items != [] && forall i | 0 <= i < |items| :: S.ItemFormed(items[i]) && S.Shallow(items[i].value, levels)
    requires Valid(S.ItemsSource(items)) && S.ItemsMean(items, flags).Some?
    ensures forall v | v in S.ItemsMean(items, flags).value :: Loaded(v, flags, levels)
    decreases items, 0
  {
    hide Valid, Loaded, S.Source, S.Means, S.Formed, S.Shallow, S.ItemSource;
    if |items| == 1 {
      assert S.ItemsSource(items) == S.ItemSource(items[0]);
    } else {
      assert S.ItemsSource(items) == S.ItemSource(items[0]) + [COMMA] + S.ItemsSource(items[1..]);
      SplitAt(S.ItemSource(items[0]), COMMA, S.ItemsSource(items[1..]));
      ItemsLoaded(items[1..], flags, levels);
    }
    ItemValid(items[0]);
    MeansLoaded(items[0].value, flags, levels);
  }

  lemma {:induction false} PairsLoaded(pairs: seq<S.Pair>, done: seq<Member>, flags: LoadFlags, levels: int)
    requires pairs != [] && forall i | 0 <= i < |pairs| :: S.PairFormed(pairs[i]) && S.Shallow(pairs[i].item.value, levels)
    requires Valid(S.PairsSource(pairs)) && S.PairsMean(pairs, done, flags).Some? && MembersLoaded(done, flags, levels)
    ensures MembersLoaded(S.PairsMean(pairs, done, flags).value, flags, levels)
    decreases pairs, 0
  {
    hide Valid, Loaded, MembersLoaded, S.Source, S.Means, S.Formed, S.Shallow, S.PairSource, S.CharsMeans, S.CharFormed, SetMember, HasKey;
    var p := pairs[0];
    if |pairs| > 1 {
      assert S.PairsSource(pairs) == S.PairSource(p) + [COMMA] + S.PairsSource(pairs[1..]);
      SplitAt(S.PairSource(p), COMMA, S.PairsSource(pairs[1..]));
    } else {
      assert S.PairsSource(pairs) == S.PairSource(p);
    }
    PairValid(p);
    MeansLoaded(p.item.value, flags, levels);
    var done' := SetMember(done, S.CharsMeans(p.key), S.Means(p.item.value, flags).value);
    SetLoaded(done, S.CharsMeans(p.key), S.Means(p.item.value, flags).value, flags, levels);
    if |pairs| > 1 {
      PairsLoaded(pairs[1..], done', flags, levels);
    }
  }

  /** Whatever json_loadb returns has UTF-8 strings, distinct keys without NUL and integers of 64 bits. */
  lemma LoadsLoaded(data: Bytes, v: Value, flags: LoadFlags)
    requires !flags.disableEofCheck && Loads(data, flags) == Some(v)
    ensures Loaded(v, flags, 2048) && (flags.decodeAny || v.Array? || v.Object?)
  {
    hide Loads, Loaded, Valid, S.Formed, S.Means, S.Shallow, S.ItemSource;
    LoadsExactly(data, v, flags);
    var item: S.Item :| S.StandsFor(item, data, v, flags);
    ItemValid(item);
    MeansLoaded(item.value, flags, MAX_DEPTH);
    MeansKind(item.value, flags);
  }

  lemma MeansKind(s: S.Syntax, flags: LoadFlags)
    requires S.Formed(s) && S.Means(s, flags).Some?
    ensures s.List? ==> S.Means(s, flags).value.Array?
    ensures s.Record? ==> S.Means(s, flags).value.Object?
  {
    hide S.ItemsMean, S.PairsMean;
  }

  // ---------------------------------------------------------------- keys that come twice

  lemma {:induction false} SetGet(members: seq<Member>, key: Bytes, value: Value, other: Bytes)
    ensures Get(SetMember(members, key, value), other) == if other == key then Some(value) else Get(members, other)
  {
    if members != [] {
      SetGet(members[1..], key, value, other);
    }
  }

  /** A known key keeps its place, a new one comes last. */
  lemma {:induction false} SetKeys(members: seq<Member>, key: Bytes, value: Value)
    ensures Keys(SetMember(members, key, value)) == if key in Keys(members) then Keys(members) else Keys(members) + [key]
  {
    if members != [] {
      SetKeys(members[1..], key, value);
      FirstKey(members[0], members[1..]);
      FirstKey(Member(key, value), members[1..]);
      FirstKey(members[0], SetMember(members[1..], key, value));
      assert [members[0]] + members[1..] == members;
      hide Keys;
      if members[0].key != key {
        Reassociated([members[0].key], Keys(members[1..]), [key]);
      }
    }
  }

  lemma FirstKey(m: Member, rest: seq<Member>)
    ensures Keys([m] + rest) == [m.key] + Keys(rest)
  {
  }

  lemma Reassociated<T>(a: seq<T>, b: seq<T>, c: seq<T>)
    ensures a + (b + c) == a + b + c
  {
  }

  /** The value of the last pair with this key. */
  function LastValue(pairs: seq<S.Pair>, key: Bytes, flags: LoadFlags): Option<Value>
    requires forall i | 0 <= i < |pairs| :: S.PairFormed(pairs[i])
  {
    if pairs == [] then None
    else
      assert S.PairFormed(pairs[0]);
      var later := LastValue(pairs[1..], key, flags);
      if later.Some? then later
      else if S.CharsMeans(pairs[0].key) == key then S.Means(pairs[0].item.value, flags)
      else None
  }

  /** Of members with the same key the last one's value stands. */
  lemma {:induction false} LastStands(pairs: seq<S.Pair>, members: seq<Member>, flags: LoadFlags, key: Bytes)
    requires (forall i | 0 <= i < |pairs| :: S.PairFormed(pairs[i])) && S.PairsMean(pairs, members, flags).Some?
    ensures var last := LastValue(pairs, key, flags);
            Get(S.PairsMean(pairs, members, flags).value, key) == if last.Some? then last else Get(members, key)
  {
    hide S.Means, S.CharsMeans, S.CharFormed, S.Formed, S.Fresh, SetMember, Get;
    if pairs != [] {
      var k, value := S.CharsMeans(pairs[0].key), S.Means(pairs[0].item.value, flags).value;
      SetGet(members, k, value, key);
      LastStands(pairs[1..], SetMember(members, k, value), flags, key);
    }
  }

  /** The members of an object that is read, by key. */
  lemma ObjectMeans(pairs: seq<S.Pair>, pad: Bytes, flags: LoadFlags, key: Bytes)
    requires S.Formed(S.Record(pad, pairs)) && S.Means(S.Record(pad, pairs), flags).Some?
    ensures var v := S.Means(S.Record(pad, pairs), flags).value;
            v.Object? && Get(v.members, key) == LastValue(pairs, key, flags)
  {
    LastStands(pairs, [], flags, key);
  }

  /** Under JSON_REJECT_DUPLICATES no key comes twice. */
  lemma {:induction false} NoneTwice(pairs: seq<S.Pair>, members: seq<Member>, flags: LoadFlags)
    requires flags.rejectDuplicates && (forall i | 0 <= i < |pairs| :: S.PairFormed(pairs[i]))
    requires S.PairsMean(pairs, members, flags).Some?
    ensures forall i | 0 <= i < |pairs| :: S.CharsMeans(pairs[i].key) !in Keys(members)
    ensures forall i, j | 0 <= i < j < |pairs| :: S.CharsMeans(pairs[i].key) != S.CharsMeans(pairs[j].key)
  {
    hide S.Means, S.CharsMeans, S.CharFormed, S.Formed, SetMember;
    if pairs != [] {
      var k, value := S.CharsMeans(pairs[0].key), S.Means(pairs[0].item.value, flags).value;
      SetKeys(members, k, value);
      NoneTwice(pairs[1..], SetMember(members, k, value), flags);
      assert forall i | 0 < i < |pairs| :: pairs[i] == pairs[1..][i - 1];
    }
  }

  // ---------------------------------------------------------------- loading, printing, loading

  /** Reals are read as their text and not printed back. */
  ghost predicate NoReals(v: Value) {
    match v
    case Real(_) => false
    case Array(items) => forall i | 0 <= i < |items| :: NoReals(items[i])
    case Object(members) => forall i | 0 <= i < |members| :: NoReals(members[i].value)
    case _ => true
  }

  lemma {:induction false} LoadedIsLoadable(v: Value, flags: LoadFlags, levels: int)
    requires Loaded(v, flags, levels) && NoReals(v)
    ensures WellFormed(v) && Within(v, levels) && (flags.allowNul || NulFree(v))
  {
    hide KeyOk;
    if v.Array? {
      forall i | 0 <= i < |v.items|
        ensures WellFormed(v.items[i]) && Within(v.items[i], levels - 1) && (flags.allowNul || NulFree(v.items[i]))
      {
        LoadedIsLoadable(v.items[i], flags, levels - 1);
      }
    } else if v.Object? {
      forall i | 0 <= i < |v.members|
        ensures WellFormed(v.members[i].value) && Within(v.members[i].value, levels - 1)
        ensures flags.allowNul || NulFree(v.members[i].value)
      {
        LoadedIsLoadable(v.members[i].value, flags, levels - 1);
      }
    }
  }

  /** What was loaded from any text, printed with any flags, is loaded again. */
  lemma LoadedAgain(data: Bytes, v: Value, df: DumpFlags, lf: LoadFlags)
    requires !lf.disableEofCheck && !lf.decodeIntAsReal && Loads(data, lf) == Some(v) && NoReals(v)
    ensures WellFormed(v) && Loads(DumpText(v, df, 0), lf) == Some(Normalize(v, df.sortKeys))
  {
    hide Loads, DumpText, Loaded, WellFormed, NoReals, Within, NulFree;
    LoadsLoaded(data, v, lf);
    LoadedIsLoadable(v, lf, MAX_DEPTH);
    RoundTrip(v, df, lf);
  }

  // ---------------------------------------------------------------- keys that are not UTF-8

  ghost predicate Utf8Keys(v: Value) {
    match v
    case Array(items) => forall i | 0 <= i < |items| :: Utf8Keys(items[i])
    case Object(members) => forall i | 0 <= i < |members| :: Valid(members[i].key) && Utf8Keys(members[i].value)
    case _ => true
  }

  /** Well-formed, but for keys that may be no UTF-8. */
  ghost predicate KeysAside(v: Value) {
    match v
    case Integer(n) => Int64(n)
    case Real(_) => false
    case String(s) => Valid(s)
    case Array(items) => forall i | 0 <= i < |items| :: KeysAside(items[i])
    case Object(members) =>
      Distinct(members) && forall i | 0 <= i < |members| :: 0 !in members[i].key && KeysAside(members[i].value)
    case _ => true
  }

  lemma {:induction false} KeysBeside(v: Value)
    ensures WellFormed(v) <==> KeysAside(v) && Utf8Keys(v)
  {
    if v.Array? {
      forall i | 0 <= i < |v.items| ensures WellFormed(v.items[i]) <==> KeysAside(v.items[i]) && Utf8Keys(v.items[i]) {
        KeysBeside(v.items[i]);
      }
    } else if v.Object? {
      forall i | 0 <= i < |v.members|
        ensures WellFormed(v.members[i].value) <==> KeysAside(v.members[i].value) && Utf8Keys(v.members[i].value)
      {
        KeysBeside(v.members[i].value);
      }
    }
  }

  lemma {:induction false} LoadedKeys(v: Value, flags: LoadFlags, levels: int)
    requires Loaded(v, flags, levels)
    ensures Utf8Keys(v)
  {
    if v.Array? {
      forall i | 0 <= i < |v.items| ensures Utf8Keys(v.items[i]) {
        LoadedKeys(v.items[i], flags, levels - 1);
      }
    } else if v.Object? {
      forall i | 0 <= i < |v.members| ensures Valid(v.members[i].key) && Utf8Keys(v.members[i].value) {
        LoadedKeys(v.members[i].value, flags, levels - 1);
      }
    }
  }

  lemma {:induction false} NormalizeKeys(v: Value, sort: bool)
    requires Utf8Keys(Normalize(v, sort))
    ensures Utf8Keys(v)
  {
    if v.Array? {
      forall i | 0 <= i < |v.items| ensures Utf8Keys(v.items[i]) {
        NormalizeItem(v.items, sort, i);
        NormalizeKeys(v.items[i], sort);
      }
    } else if v.Object? {
      var order := InOrder(v.members, sort);
      NormalizeObject(v.members, sort);
      OrderedMembers(v.members, sort);
      forall i | 0 <= i < |v.members| ensures Valid(v.members[i].key) && Utf8Keys(v.members[i].value) {
        assert v.members[i] in order;
        var j :| 0 <= j < |order| && order[j] == v.members[i];
        NormalizeMember(order, sort, j);
        assert NormalizeMembers(order, sort)[j] == Member(order[j].key, Normalize(order[j].value, sort));
        NormalizeKeys(v.members[i].value, sort);
      }
    }
  }

  /**
   `text` is what json_dumps gives for `v`: the value's text if all keys are UTF-8, and something else otherwise,
   for a failed dump_string of a key is not noticed. It is read back if and only if all keys are UTF-8.
   */
  lemma KeysDecide(v: Value, text: Bytes, df: DumpFlags, lf: LoadFlags)
    requires KeysAside(v) && Within(v, 2048) && (lf.allowNul || NulFree(v))
    requires (lf.decodeAny || v.Array? || v.Object?) && !lf.decodeIntAsReal && !lf.disableEofCheck
    requires WellFormed(v) ==> text == DumpText(v, df, 0)
    ensures Loads(text, lf) == Some(Normalize(v, df.sortKeys)) <==> Utf8Keys(v)
  {
    hide Loads, DumpText, Loaded, WellFormed, KeysAside, Utf8Keys, Normalize, Within, NulFree;
    KeysBeside(v);
    if Utf8Keys(v) {
      RoundTrip(v, df, lf);
    } else if Loads(text, lf) == Some(Normalize(v, df.sortKeys)) {
      LoadsLoaded(text, Normalize(v, df.sortKeys), lf);
      LoadedKeys(Normalize(v, df.sortKeys), lf, MAX_DEPTH);
      NormalizeKeys(v, df.sortKeys);
    }
  }

  /** An object with the key FF: json_dumps succeeds on it, but whatever it writes is not read back. */
  lemma BadKey(v: Value, df: DumpFlags, lf: LoadFlags)
    requires v == Object([Member([255], Null)]) && !lf.disableEofCheck
    ensures Stored(v) && StringsOk(v) && forall text :: Loads(text, lf) != Some(v)
  {
    hide Loads, Utf8Keys;
    KeyFF(v);
    forall text: Bytes ensures Loads(text, lf) != Some(v) {
      if Loads(text, lf) == Some(v) {
        LoadsLoaded(text, v, lf);
        LoadedKeys(v, lf, MAX_DEPTH);
      }
    }
  }

  lemma KeyFF(v: Value)
    requires v == Object([Member([255], Null)])
    ensures !Utf8Keys(v) && Stored(v) && StringsOk(v)
  {
    NeverFirst([255]);
    assert v.members[0].key == [255];
  }

  lemma NeverFirst(s: Bytes)
    requires s != [] && s[0] == 255
    ensures !Valid(s)
  {
    FirstLength(s);
  }
}
