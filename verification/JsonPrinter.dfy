/** dump.c: printing a JSON value to a growing buffer. */
module JsonPrinter {
  import opened Wrappers
  import opened Utf8
  import opened JsonText

  // ---------------------------------------------------------------- what printing a string adds

  /** One more character read: what is printed for the rest of the string shrinks by its text. */
  lemma CharStep(s: Bytes, i: nat, c: int, n: nat, flags: DumpFlags)
    requires i <= |s| && Starts(s[i..], c, n)
    ensures i + n <= |s| && s[i..i + n] == Encode(c) && (Valid(s[i..]) <==> Valid(s[i + n..]))
    ensures Valid(s[i..]) ==> RestText(s, i, flags) == CharText(c, flags) + RestText(s, i + n, flags)
  {
    hide CharText, Encode;
    ValidStep(s, i, c, n);
    FirstIs(s[i..], c, n);
    EncodeSize(c);
    assert s[i..][n..] == s[i + n..];
    assert s[i..][..n] == s[i..i + n];
    if Valid(s[i..]) {
      DecodeEncode(s[i..]);
      DecodeEncode(s[i + n..]);
      assert Decode(s[i..])[1..] == Decode(s[i + n..]);
    }
  }

  /** What is still to be printed from byte `i` on. */
  ghost function RestText(s: Bytes, i: nat, flags: DumpFlags): Bytes
    requires i <= |s|
  {
    if Valid(s[i..]) then
      DecodeEncode(s[i..]);
      CharsText(Decode(s[i..]), flags)
    else []
  }

  /** dump_string between its bytes: `str..pos` is read but not yet printed. */
  ghost predicate Printing(s: Bytes, str: nat, pos: nat, flags: DumpFlags, base: Bytes, out: Bytes) {
    && str <= pos <= |s| && (Valid(s[pos..]) <==> Valid(s)) && base <= out
    && (Valid(s) ==> out + s[str..pos] + RestText(s, pos, flags) == base + [QUOTE] + RestText(s, 0, flags))
  }

  lemma PrintPlain(s: Bytes, str: nat, pos: nat, c: int, n: nat, flags: DumpFlags, base: Bytes, out: Bytes)
    requires Printing(s, str, pos, flags, base, out) && Starts(s[pos..], c, n) && !MustEscape(c, flags)
    ensures pos + n <= |s| && Printing(s, str, pos + n, flags, base, out)
  {
    hide Starts, Encode, RestText, MustEscape;
    CharStep(s, pos, c, n, flags);
    assert s[str..pos + n] == s[str..pos] + s[pos..pos + n];
    if Valid(s) {
      assert out + s[str..pos + n] + RestText(s, pos + n, flags)
          == out + s[str..pos] + (s[pos..pos + n] + RestText(s, pos + n, flags));
    }
  }

  /** What has been read is printed as it is. */
  lemma PrintChunk(s: Bytes, str: nat, pos: nat, flags: DumpFlags, base: Bytes, out: Bytes)
    requires Printing(s, str, pos, flags, base, out)
    ensures Printing(s, pos, pos, flags, base, out + s[str..pos])
  {
    assert out + s[str..pos] + s[pos..pos] == out + s[str..pos];
  }

  lemma PrintEscaped(s: Bytes, pos: nat, c: int, n: nat, flags: DumpFlags, base: Bytes, out: Bytes)
    requires Printing(s, pos, pos, flags, base, out) && Starts(s[pos..], c, n) && MustEscape(c, flags)
    ensures pos + n <= |s| && Printing(s, pos + n, pos + n, flags, base, out + Escaped(c))
  {
    hide Encode, RestText, MustEscape, Escaped;
    CharStep(s, pos, c, n, flags);
    assert s[pos..pos] == [] && s[pos + n..pos + n] == [];
    if Valid(s) {
      assert out + [] + RestText(s, pos, flags) == out + Escaped(c) + [] + RestText(s, pos + n, flags);
    }
  }

  // ---------------------------------------------------------------- sorted keys

  /** strcmp on strings without NUL: unsigned bytes, a prefix first. */
  predicate Before(a: Bytes, b: Bytes) {
    a == [] || (b != [] && (a[0] < b[0] || (a[0] == b[0] && Before(a[1..], b[1..]))))
  }

  /** The same without recursion: a prefix of `b`, or smaller at the first byte that differs. */
  ghost predicate AtMost(a: Bytes, b: Bytes) {
    a <= b || exists i :: 0 <= i < |a| && i < |b| && a[..i] == b[..i] && a[i] < b[i]
  }

  lemma {:induction false} BeforeIsAtMost(a: Bytes, b: Bytes)
    ensures Before(a, b) <==> AtMost(a, b)
  {
    if a != [] && b != [] && a[0] == b[0] {
      BeforeIsAtMost(a[1..], b[1..]);
      AtMostTails(a, b);
    } else if a != [] && b != [] && a[0] < b[0] {
      assert a[..0] == b[..0];
    } else if a != [] && b != [] && AtMost(a, b) {
      AtMostFirst(a, b);
    }
  }

  lemma AtMostFirst(a: Bytes, b: Bytes)
    requires AtMost(a, b) && a != [] && b != []
    ensures a[0] <= b[0]
  {
    if i :| 0 < i < |a| && i < |b| && a[..i] == b[..i] {
      assert a[..i][0] == b[..i][0];
    }
  }

  lemma AtMostTails(a: Bytes, b: Bytes)
    requires a != [] && b != [] && a[0] == b[0]
    ensures AtMost(a[1..], b[1..]) <==> AtMost(a, b)
  {
    assert a == [a[0]] + a[1..] && b == [b[0]] + b[1..];
    if i :| 0 <= i < |a| && i < |b| && a[..i] == b[..i] && a[i] < b[i] {
      assert a[1..][..i - 1] == a[..i][1..] && b[1..][..i - 1] == b[..i][1..];
      assert a[1..][i - 1] == a[i] && b[1..][i - 1] == b[i];
    }
    if j :| 0 <= j < |a[1..]| && j < |b[1..]| && a[1..][..j] == b[1..][..j] && a[1..][j] < b[1..][j] {
      assert a[..j + 1] == [a[0]] + a[1..][..j] && b[..j + 1] == [b[0]] + b[1..][..j];
    }
  }

  function InsertKey(keys: seq<Bytes>, key: Bytes): seq<Bytes> {
    if keys == [] || Before(key, keys[0]) then [key] + keys else [keys[0]] + InsertKey(keys[1..], key)
  }

  /** qsort with compare_keys. */
  function SortKeys(keys: seq<Bytes>): seq<Bytes> {
    if keys == [] then [] else InsertKey(SortKeys(keys[1..]), keys[0])
  }

  function InsertMember(members: seq<Member>, m: Member): seq<Member> {
    if members == [] || Before(m.key, members[0].key) then [m] + members
    else [members[0]] + InsertMember(members[1..], m)
  }

  function SortMembers(members: seq<Member>): seq<Member> {
    if members == [] then [] else InsertMember(SortMembers(members[1..]), members[0])
  }

  /** The value as it comes back: with JSON_SORT_KEYS the members of every object in key order. */
  function Normalize(v: Value, sort: bool): Value
    decreases v
  {
    match v
    case Array(items) => Array(NormalizeAll(items, sort))
    case Object(members) =>
      var ms := NormalizeMembers(members, sort);
      Object(if sort then SortMembers(ms) else ms)
    case _ => v
  }

  function NormalizeAll(items: seq<Value>, sort: bool): (r: seq<Value>)
    ensures |r| == |items|
    decreases items
  {
    if items == [] then [] else [Normalize(items[0], sort)] + NormalizeAll(items[1..], sort)
  }

  function NormalizeMembers(members: seq<Member>, sort: bool): (r: seq<Member>)
    ensures |r| == |members|
    decreases members
  {
    if members == [] then []
    else [Member(members[0].key, Normalize(members[0].value, sort))] + NormalizeMembers(members[1..], sort)
  }

  function Keys(members: seq<Member>): (keys: seq<Bytes>)
    ensures |keys| == |members|
    ensures forall i | 0 <= i < |members| :: keys[i] == members[i].key
  {
    seq(|members|, i requires 0 <= i < |members| => members[i].key)
  }

  /** json_object_get */
  function Get(members: seq<Member>, key: Bytes): Option<Value> {
    if members == [] then None
    else if members[0].key == key then Some(members[0].value)
    else Get(members[1..], key)
  }

  lemma {:induction false} InsertKeys(members: seq<Member>, m: Member)
    ensures Keys(InsertMember(members, m)) == InsertKey(Keys(members), m.key)
  {
    hide Before;
    if members != [] && !Before(m.key, members[0].key) {
      InsertKeys(members[1..], m);
      assert Keys(members)[1..] == Keys(members[1..]);
    }
  }

  lemma {:induction false} InsertSame(members: seq<Member>, m: Member)
    ensures multiset(InsertMember(members, m)) == multiset(members) + multiset{m}
  {
    hide Before;
    if members == [] || Before(m.key, members[0].key) {
      assert multiset([m] + members) == multiset{m} + multiset(members);
    } else {
      InsertSame(members[1..], m);
      assert members == [members[0]] + members[1..];
    }
  }

  /** Sorting the keys and looking the values up gives the members in key order. */
  lemma {:induction false} SortedKeys(members: seq<Member>)
    ensures Keys(SortMembers(members)) == SortKeys(Keys(members))
    ensures multiset(SortMembers(members)) == multiset(members)
  {
    if members != [] {
      SortedKeys(members[1..]);
      InsertKeys(SortMembers(members[1..]), members[0]);
      InsertSame(SortMembers(members[1..]), members[0]);
      assert Keys(members)[1..] == Keys(members[1..]);
      assert members == [members[0]] + members[1..];
    }
  }

  lemma {:induction false} GetMember(members: seq<Member>, i: nat)
    requires Distinct(members) && i < |members|
    ensures Get(members, members[i].key) == Some(members[i].value)
  {
    if i > 0 {
      assert members[0].key != members[i].key;
      GetMember(members[1..], i - 1);
    }
  }

  lemma Contains(a: seq<Member>, b: seq<Member>)
    requires multiset(a) == multiset(b)
    ensures |a| == |b| && forall i | 0 <= i < |a| :: a[i] in b
  {
    assert |a| == |multiset(a)| && |b| == |multiset(b)|;
    forall i | 0 <= i < |a| ensures a[i] in b {
      assert a[i] in multiset(b);
    }
  }

  lemma SortedValue(members: seq<Member>, i: nat)
    requires Distinct(members) && i < |members|
    ensures |SortMembers(members)| == |members|
    ensures Get(members, SortMembers(members)[i].key) == Some(SortMembers(members)[i].value)
    ensures SortMembers(members)[i] in members
  {
    SortedKeys(members);
    Contains(SortMembers(members), members);
    var j :| 0 <= j < |members| && members[j] == SortMembers(members)[i];
    GetMember(members, j);
  }

  lemma {:induction false} BeforeTotal(a: Bytes, b: Bytes)
    ensures Before(a, b) || Before(b, a)
  {
    if a != [] && b != [] && a[0] == b[0] {
      BeforeTotal(a[1..], b[1..]);
    }
  }

  lemma {:induction false} BeforeTrans(a: Bytes, b: Bytes, c: Bytes)
    requires Before(a, b) && Before(b, c)
    ensures Before(a, c)
  {
    if a != [] && b != [] && c != [] && a[0] == b[0] == c[0] {
      BeforeTrans(a[1..], b[1..], c[1..]);
    }
  }

  predicate InKeyOrder(members: seq<Member>) {
    forall i, j | 0 <= i < j < |members| :: Before(members[i].key, members[j].key)
  }

  lemma {:induction false} InsertInOrder(members: seq<Member>, m: Member)
    requires InKeyOrder(members)
    ensures InKeyOrder(InsertMember(members, m))
  {
    if members != [] {
      var first := members[0];
      if Before(m.key, first.key) {
        forall j | 0 < j < |members| ensures Before(m.key, members[j].key) {
          BeforeTrans(m.key, first.key, members[j].key);
        }
      } else {
        BeforeTotal(m.key, first.key);
        InsertInOrder(members[1..], m);
        InsertSame(members[1..], m);
        var rest := InsertMember(members[1..], m);
        Contains(rest, members[1..] + [m]);
        forall j | 0 <= j < |rest| ensures Before(first.key, rest[j].key) {
          assert rest[j] in members[1..] + [m];
        }
      }
    }
  }

  /** With JSON_SORT_KEYS the members come out in key order, each of them once. */
  lemma {:induction false} SortedInOrder(members: seq<Member>)
    ensures Ascending(SortMembers(members)) && multiset(SortMembers(members)) == multiset(members)
  {
    SortedKeys(members);
    SortedBefore(members);
    OrderIsAscending(SortMembers(members));
  }

  /** Every key is at most the keys after it. */
  ghost predicate Ascending(members: seq<Member>) {
    forall i, j | 0 <= i < j < |members| :: AtMost(members[i].key, members[j].key)
  }

  lemma OrderIsAscending(members: seq<Member>)
    ensures InKeyOrder(members) <==> Ascending(members)
  {
    hide Before, AtMost;
    forall i, j | 0 <= i < j < |members| ensures Before(members[i].key, members[j].key) <==> AtMost(members[i].key, members[j].key) {
      BeforeIsAtMost(members[i].key, members[j].key);
    }
  }

  lemma {:induction false} SortedBefore(members: seq<Member>)
    ensures InKeyOrder(SortMembers(members))
  {
    if members != [] {
      SortedBefore(members[1..]);
      InsertInOrder(SortMembers(members[1..]), members[0]);
    }
  }

  /** In every object of the value the keys ascend. */
  ghost predicate KeysAscend(v: Value) {
    match v
    case Array(items) => forall i | 0 <= i < |items| :: KeysAscend(items[i])
    case Object(members) => Ascending(members) && forall i | 0 <= i < |members| :: KeysAscend(members[i].value)
    case _ => true
  }

  /** What JSON_SORT_KEYS prints has all its keys in byte order, at every level. */
  lemma {:induction false} NormalizeAscends(v: Value)
    ensures KeysAscend(Normalize(v, true))
  {
    hide Ascending;
    if v.Array? {
      forall i | 0 <= i < |v.items| ensures KeysAscend(NormalizeAll(v.items, true)[i]) {
        NormalizeItem(v.items, true, i);
        NormalizeAscends(v.items[i]);
      }
    } else if v.Object? {
      var ms := NormalizeMembers(v.members, true);
      SortedInOrder(ms);
      forall i | 0 <= i < |ms| ensures KeysAscend(ms[i].value) {
        NormalizeMember(v.members, true, i);
        NormalizeAscends(v.members[i].value);
      }
      hide SortMembers, NormalizeMembers;
      AllSorted(ms, SortMembers(ms));
    }
  }

  lemma AllSorted(ms: seq<Member>, sorted: seq<Member>)
    requires multiset(sorted) == multiset(ms) && forall i | 0 <= i < |ms| :: KeysAscend(ms[i].value)
    ensures forall i | 0 <= i < |sorted| :: KeysAscend(sorted[i].value)
  {
    hide KeysAscend;
    forall i | 0 <= i < |sorted| ensures KeysAscend(sorted[i].value) {
      assert sorted[i] in multiset(sorted);
      assert sorted[i] in ms;
    }
  }

  lemma {:induction false} NormalizeInsert(members: seq<Member>, m: Member, sort: bool)
    ensures NormalizeMembers(InsertMember(members, m), sort) ==
            InsertMember(NormalizeMembers(members, sort), Member(m.key, Normalize(m.value, sort)))
  {
    if members == [] || Before(m.key, members[0].key) {
      assert ([m] + members)[1..] == members;
    } else {
      NormalizeInsert(members[1..], m, sort);
      assert ([members[0]] + InsertMember(members[1..], m))[1..] == InsertMember(members[1..], m);
    }
  }

  lemma {:induction false} NormalizeSorted(members: seq<Member>, sort: bool)
    ensures NormalizeMembers(SortMembers(members), sort) == SortMembers(NormalizeMembers(members, sort))
  {
    if members != [] {
      NormalizeSorted(members[1..], sort);
      NormalizeInsert(SortMembers(members[1..]), members[0], sort);
    }
  }

  /** The members in the order they are printed in. */
  function InOrder(members: seq<Member>, sort: bool): seq<Member> {
    if sort then SortMembers(members) else members
  }

  lemma NormalizeObject(members: seq<Member>, sort: bool)
    ensures Normalize(Object(members), sort) == Object(NormalizeMembers(InOrder(members, sort), sort))
  {
    NormalizeSorted(members, sort);
  }

  lemma Behind<T>(s: seq<T>, i: nat)
    requires 0 < i <= |s|
    ensures s[1..][i - 1..] == s[i..]
    ensures i < |s| ==> s[1..][i - 1] == s[i]
  {
  }

  lemma {:induction false} NormalizeMember(members: seq<Member>, sort: bool, i: nat)
    requires i < |members|
    ensures NormalizeMembers(members, sort)[i] == Member(members[i].key, Normalize(members[i].value, sort))
    ensures NormalizeMembers(members, sort)[i..] == NormalizeMembers(members[i..], sort)
  {
    FirstNormal(members, sort);
    hide Normalize, NormalizeMembers;
    if i == 0 {
      Whole(members);
      Whole(NormalizeMembers(members, sort));
    } else {
      NormalizeMember(members[1..], sort, i - 1);
      Behind(members, i);
      Behind(NormalizeMembers(members, sort), i);
    }
  }

  lemma Whole<T>(s: seq<T>)
    ensures s[0..] == s
  {
  }

  lemma FirstNormal(members: seq<Member>, sort: bool)
    requires members != []
    ensures NormalizeMembers(members, sort)[0] == Member(members[0].key, Normalize(members[0].value, sort))
    ensures NormalizeMembers(members, sort)[1..] == NormalizeMembers(members[1..], sort)
  {
    hide Normalize;
  }

  lemma FirstItemNormal(items: seq<Value>, sort: bool)
    requires items != []
    ensures NormalizeAll(items, sort)[0] == Normalize(items[0], sort)
    ensures NormalizeAll(items, sort)[1..] == NormalizeAll(items[1..], sort)
  {
    hide Normalize;
  }

  lemma {:induction false} NormalizeItem(items: seq<Value>, sort: bool, i: nat)
    requires i < |items|
    ensures NormalizeAll(items, sort)[i] == Normalize(items[i], sort)
    ensures NormalizeAll(items, sort)[i..] == NormalizeAll(items[i..], sort)
  {
    FirstItemNormal(items, sort);
    hide Normalize, NormalizeAll;
    if i == 0 {
      Whole(items);
      Whole(NormalizeAll(items, sort));
    } else {
      NormalizeItem(items[1..], sort, i - 1);
      Behind(items, i);
      Behind(NormalizeAll(items, sort), i);
    }
  }

  lemma {:induction false} InsertDistinct(members: seq<Member>, m: Member)
    requires Distinct(members) && forall i | 0 <= i < |members| :: members[i].key != m.key
    ensures Distinct(InsertMember(members, m))
  {
    if members == [] || Before(m.key, members[0].key) {
      DistinctAhead(m, members);
    } else {
      InsertDistinct(members[1..], m);
      InsertSame(members[1..], m);
      var rest := InsertMember(members[1..], m);
      Contains(rest, members[1..] + [m]);
      hide InsertMember;
      forall j | 0 <= j < |rest| ensures members[0].key != rest[j].key {
        assert rest[j] in members[1..] + [m];
      }
      DistinctAhead(members[0], rest);
    }
  }

  lemma DistinctAhead(m: Member, rest: seq<Member>)
    requires Distinct(rest) && forall j | 0 <= j < |rest| :: rest[j].key != m.key
    ensures Distinct([m] + rest)
  {
  }

  lemma {:induction false} SortedDistinct(members: seq<Member>)
    requires Distinct(members)
    ensures Distinct(SortMembers(members))
  {
    if members != [] {
      var sorted := SortMembers(members[1..]);
      SortedDistinct(members[1..]);
      SortedKeys(members[1..]);
      Contains(sorted, members[1..]);
      forall i | 0 <= i < |sorted| ensures sorted[i].key != members[0].key {
        assert sorted[i] in members[1..];
      }
      InsertDistinct(sorted, members[0]);
    }
  }

  /** What `InOrder` gives back: the same members, each once. */
  lemma OrderedMembers(members: seq<Member>, sort: bool)
    ensures |InOrder(members, sort)| == |members|
    ensures forall i | 0 <= i < |members| :: InOrder(members, sort)[i] in members
    ensures forall i | 0 <= i < |members| :: members[i] in InOrder(members, sort)
    ensures Distinct(members) ==> Distinct(InOrder(members, sort))
  {
    SortedKeys(members);
    Contains(SortMembers(members), members);
    Contains(members, SortMembers(members));
    if Distinct(members) {
      SortedDistinct(members);
    }
  }

  lemma {:induction false} NormalizeWellFormed(v: Value, sort: bool)
    requires WellFormed(v)
    ensures WellFormed(Normalize(v, sort))
  {
    if v.Array? {
      forall i | 0 <= i < |v.items| ensures WellFormed(NormalizeAll(v.items, sort)[i]) {
        NormalizeItem(v.items, sort, i);
        NormalizeWellFormed(v.items[i], sort);
      }
    } else if v.Object? {
      var order := InOrder(v.members, sort);
      var ms := NormalizeMembers(order, sort);
      NormalizeObject(v.members, sort);
      OrderedMembers(v.members, sort);
      forall i | 0 <= i < |ms| ensures ms[i].key == order[i].key && KeyOk(ms[i].key) && WellFormed(ms[i].value) {
        NormalizeMember(order, sort, i);
        var j :| 0 <= j < |v.members| && v.members[j] == order[i];
        NormalizeWellFormed(v.members[j].value, sort);
      }
    }
  }

  /** What is printed for a value under the given flags. */
  ghost function DumpText(v: Value, flags: DumpFlags, depth: nat): Bytes
    requires WellFormed(v)
  {
    NormalizeWellFormed(v, flags.sortKeys);
    ValueText(Normalize(v, flags.sortKeys), flags, depth)
  }

  /** All string values are valid UTF-8. Keys are not looked at: printing ignores bad ones. */
  ghost predicate StringsOk(v: Value) {
    match v
    case String(s) => Valid(s)
    case Array(items) => forall i | 0 <= i < |items| :: StringsOk(items[i])
    case Object(members) => forall i | 0 <= i < |members| :: StringsOk(members[i].value)
    case _ => true
  }

  /** Objects as json_object_set makes them. */
  ghost predicate Stored(v: Value) {
    match v
    case Array(items) => forall i | 0 <= i < |items| :: Stored(items[i])
    case Object(members) => Distinct(members) && forall i | 0 <= i < |members| :: Stored(members[i].value)
    case _ => true
  }

  // ---------------------------------------------------------------- the printer

  class Printer {
    const flags: DumpFlags
    /** The strbuffer. */
    var out: Bytes

    constructor (flags: DumpFlags)
      ensures this.flags == flags && out == []
    {
      this.flags := flags;
      out := [];
    }

    /** dump_to_strbuffer */
    method Emit(b: Bytes)
      modifies this
      ensures out == old(out) + b
    {
      out := out + b;
    }

    method DumpIndent(depth: nat, space: bool)
      modifies this
      ensures out == old(out) + IndentText(flags, depth, space)
    {
      if flags.indent > 0 {
        var nSpaces := depth * flags.indent;
        Emit([NEWLINE]);
        while nSpaces > 0
          invariant 0 <= nSpaces <= depth * flags.indent
          invariant out + Spaces(nSpaces) == old(out) + [NEWLINE] + Spaces(depth * flags.indent)
        {
          var cur := if nSpaces < 32 then nSpaces else 32;
          assert Spaces(nSpaces) == Spaces(cur) + Spaces(nSpaces - cur);
          Emit(Spaces(cur));
          nSpaces := nSpaces - cur;
        }
        assert out + Spaces(0) == out;
        assert old(out) + [NEWLINE] + Spaces(depth * flags.indent) == old(out) + ([NEWLINE] + Spaces(depth * flags.indent));
      } else if space && !flags.compact {
        Emit([SPACE]);
      }
    }

    /** The replacement text dump_string picks for a character it escapes. */
    method EscapeText(codepoint: int) returns (text: Bytes)
      requires Scalar(codepoint)
      ensures text == Escaped(codepoint)
    {
      hide UnicodeEscape;
      if codepoint == BACKSLASH {
        text := [BACKSLASH, BACKSLASH];
      } else if codepoint == QUOTE {
        text := [BACKSLASH, QUOTE];
      } else if codepoint == 8 {
        text := [BACKSLASH, 98];
      } else if codepoint == 12 {
        text := [BACKSLASH, 102];
      } else if codepoint == 10 {
        text := [BACKSLASH, 110];
      } else if codepoint == 13 {
        text := [BACKSLASH, 114];
      } else if codepoint == 9 {
        text := [BACKSLASH, 116];
      } else if codepoint == SLASH {
        text := [BACKSLASH, SLASH];
      } else if codepoint < 0x10000 {
        text := UnicodeEscape(codepoint);
      } else {
        var above := codepoint - 0x10000;
        assert above / 1024 < 1024;
        var first := 0xD800 + above / 1024 % 1024;
        var last := 0xDC00 + above % 1024;
        text := UnicodeEscape(first) + UnicodeEscape(last);
      }
    }

    /** The inner loop of dump_string: goes on to the next character to escape, or to the end. */
    method ScanPlain(s: Bytes, start: nat, ghost base: Bytes) returns (ok: bool, pos: nat, end: nat, codepoint: int)
      requires Printing(s, start, start, flags, base, out)
      ensures ok ==> start <= pos <= end && Printing(s, start, pos, flags, base, out)
      ensures ok && end == pos ==> pos == |s|
      ensures ok && end != pos ==> Starts(s[pos..], codepoint, end - pos) && MustEscape(codepoint, flags)
      ensures ok && end != pos ==> Scalar(codepoint)
      ensures !ok ==> !Valid(s)
      ensures base <= out
    {
      hide Printing, MustEscape, Encode;
      Bounds(s, start, start, flags, base, out);
      ok, pos, end, codepoint := true, start, start, 0;
      while end < |s|
        invariant ok && start <= pos == end <= |s| && Printing(s, start, pos, flags, base, out)
      {
        var count;
        ok, count, codepoint := Iterate(s[pos..]);
        if !ok {
          Bounds(s, start, pos, flags, base, out);
          return;
        }
        end := pos + count;
        if MustEscape(codepoint, flags) {
          return;
        }
        PrintPlain(s, start, pos, codepoint, count, flags, base, out);
        pos := end;
      }
    }

    lemma Bounds(s: Bytes, str: nat, pos: nat, flags: DumpFlags, base: Bytes, out: Bytes)
      requires Printing(s, str, pos, flags, base, out)
      ensures str <= pos <= |s| && (Valid(s[pos..]) <==> Valid(s)) && base <= out
    {
    }

    method DumpString(s: Bytes) returns (ok: bool)
      modifies this
      ensures ok <==> Valid(s)
      ensures old(out) <= out
      ensures Valid(s) ==> out == old(out) + StringText(s, flags)
    {
      hide Printing, Starts, MustEscape, Encode, Escaped;
      ghost var base := out;
      Emit([QUOTE]);
      StartString(s, flags, base, out);
      var str, pos, end := 0, 0, 0;
      while true
        invariant str == pos == end <= |s| && Printing(s, pos, pos, flags, base, out)
        decreases |s| - pos
      {
        var codepoint;
        ok, pos, end, codepoint := ScanPlain(s, pos, base);
        if !ok {
          return;
        }
        if pos != str {
          PrintChunk(s, str, pos, flags, base, out);
          Emit(s[str..pos]);
        }
        if end == pos {
          break;
        }
        var text := EscapeText(codepoint);
        PrintEscaped(s, pos, codepoint, end - pos, flags, base, out);
        Emit(text);
        str, pos := end, end;
      }
      EndString(s, flags, base, out);
      Emit([QUOTE]);
    }

    /** do_dump. A string value that is not UTF-8 makes it fail; a bad key only breaks the text. */
    method DoDump(v: Value, depth: nat) returns (ok: bool)
      requires Stored(v)
      modifies this
      ensures ok <==> StringsOk(v)
      ensures old(out) <= out
      ensures ok && WellFormed(v) ==> out == old(out) + DumpText(v, flags, depth)
      decreases v, 1
    {
      ok := true;
      match v
      case Null =>
        Emit([110, 117, 108, 108]);
      case True =>
        Emit([116, 114, 117, 101]);
      case False =>
        Emit([102, 97, 108, 115, 101]);
      case Integer(n) =>
        Emit(IntegerText(n));
      case Real(text) =>
        Emit(text);
      case String(s) =>
        ok := DumpString(s);
      case Array(items) =>
        ok := DumpArray(items, depth);
      case Object(members) =>
        ok := DumpObject(members, depth);
    }

    method DumpArray(items: seq<Value>, depth: nat) returns (ok: bool)
      requires Stored(Array(items))
      modifies this
      ensures ok <==> StringsOk(Array(items))
      ensures old(out) <= out
      ensures ok && WellFormed(Array(items)) ==> out == old(out) + DumpText(Array(items), flags, depth)
      decreases items, 0
    {
      hide DumpText, IndentText, Follow, ItemsPrinted;
      ok := true;
      Emit([91]);
      if |items| == 0 {
        Emit([93]);
        EmptyText(flags, depth);
        return;
      }
      DumpIndent(depth + 1, false);
      ghost var base := out;
      ItemsStart(items, flags, depth, base);
      var i := 0;
      while i < |items|
        invariant 0 <= i <= |items| && ok && base <= out
        invariant forall j | 0 <= j < i :: StringsOk(items[j])
        invariant WellFormed(Array(items)) ==> ItemsPrinted(items, i, flags, depth, base, out)
      {
        ghost var before := out;
        ok := DoDump(items[i], depth + 1);
        if !ok {
          return;
        }
        DumpFollow(i == |items| - 1, depth);
        if WellFormed(Array(items)) {
          ItemStep(items, i, flags, depth, base, before);
        }
        i := i + 1;
      }
      if WellFormed(Array(items)) {
        ItemsEnd(items, flags, depth, old(out), base, out);
      }
      Emit([93]);
    }

    method DumpObject(members: seq<Member>, depth: nat) returns (ok: bool)
      requires Stored(Object(members))
      modifies this
      ensures ok <==> StringsOk(Object(members))
      ensures old(out) <= out
      ensures ok && WellFormed(Object(members)) ==> out == old(out) + DumpText(Object(members), flags, depth)
      decreases members, 1
    {
      hide DumpText, IndentText, Follow, WellFormed, InOrder;
      ok := true;
      Emit([123]);
      if |members| == 0 {
        Emit([125]);
        EmptyText(flags, depth);
        return;
      }
      DumpIndent(depth + 1, false);
      if flags.sortKeys {
        ok := DumpSorted(members, depth);
      } else {
        ok := DumpInOrder(members, depth);
      }
      if ok && WellFormed(Object(members)) {
        MembersEnd(members, flags, depth, old(out));
      }
      Emit([125]);
    }

    /** The members as the iterator gives them. */
    method DumpInOrder(members: seq<Member>, depth: nat) returns (ok: bool)
      requires Stored(Object(members)) && members != [] && !flags.sortKeys
      modifies this
      ensures ok <==> StringsOk(Object(members))
      ensures old(out) <= out
      ensures ok && WellFormed(Object(members)) ==>
                InOrder(members, flags.sortKeys) == members && out == old(out) + OrderText(members, flags, depth)
      decreases members, 0
    {
      hide Follow, MembersPrinted, OrderText, WellFormed;
      ok := true;
      ghost var base := out;
      MembersStart(members, flags, depth, base);
      var i := 0;
      while i < |members|
        invariant 0 <= i <= |members| && ok && base <= out
        invariant forall j | 0 <= j < i :: StringsOk(members[j].value)
        invariant WellFormed(Object(members)) ==> MembersPrinted(members, i, flags, depth, base, out)
      {
        ghost var before := out;
        ok := DumpMember(members[i].key, members[i].value, depth, i == |members| - 1);
        if !ok {
          return;
        }
        if WellFormed(Object(members)) {
          MemberStep(members, i, flags, depth, base, before);
        }
        i := i + 1;
      }
      if WellFormed(Object(members)) {
        MembersDone(members, flags, depth, base, out);
      }
    }

    /** The keys sorted, and for each the value json_object_get finds. */
    method DumpSorted(members: seq<Member>, depth: nat) returns (ok: bool)
      requires Stored(Object(members)) && members != [] && flags.sortKeys
      modifies this
      ensures ok <==> StringsOk(Object(members))
      ensures old(out) <= out
      ensures ok && WellFormed(Object(members)) ==>
                WellFormed(Object(InOrder(members, flags.sortKeys))) &&
                out == old(out) + OrderText(InOrder(members, flags.sortKeys), flags, depth)
      decreases members, 0
    {
      hide Follow, MembersPrinted, OrderText, WellFormed, SortMembers, SortKeys, StringsOk, Stored, Get, Keys, StringText, Separator, DumpText;
      ok := true;
      ghost var base, order := out, SortMembers(members);
      StoredMembers(members);
      SortedAsGiven(members);
      MembersStart(order, flags, depth, base);
      var keys := SortKeys(Keys(members));
      var i := 0;
      while i < |keys|
        invariant 0 <= i <= |keys| && ok && base <= out
        invariant forall j | 0 <= j < i :: StringsOk(order[j].value)
        invariant WellFormed(Object(order)) ==> MembersPrinted(order, i, flags, depth, base, out)
      {
        ghost var before := out;
        ghost var at := SortedMember(members, i);
        var key := keys[i];
        var value := Get(members, key).value;
        assert value == members[at].value;
        ok := DumpMember(key, value, depth, i == |keys| - 1);
        if !ok {
          return;
        }
        if WellFormed(Object(order)) {
          MemberStep(order, i, flags, depth, base, before);
        }
        i := i + 1;
      }
      if WellFormed(Object(members)) {
        MembersDone(order, flags, depth, base, out);
      }
    }

    /** A member, and what separates it from the next. That dump_string may fail on the key goes unnoticed. */
    method DumpMember(key: Bytes, value: Value, depth: nat, last: bool) returns (ok: bool)
      requires Stored(value)
      modifies this
      ensures ok <==> StringsOk(value)
      ensures old(out) <= out
      ensures ok && KeyOk(key) && WellFormed(value) ==>
                out == old(out) + (StringText(key, flags) + Separator(flags) + DumpText(value, flags, depth + 1)) + Follow(last, flags, depth)
      decreases value, 2
    {
      hide DumpText, StringText, Follow, WellFormed;
      var ignored := DumpString(key);
      Emit(Separator(flags));
      ok := DoDump(value, depth + 1);
      if ok {
        DumpFollow(last, depth);
      }
    }

    /** What do_dump puts between two elements and after the last. */
    method DumpFollow(last: bool, depth: nat)
      modifies this
      ensures out == old(out) + Follow(last, flags, depth)
    {
      if !last {
        Emit([COMMA]);
        DumpIndent(depth + 1, true);
      } else {
        DumpIndent(depth, false);
      }
    }
  }

  // ---------------------------------------------------------------- what the loops have printed

  /** The elements before `i` are printed after `base`. */
  ghost predicate ItemsPrinted(items: seq<Value>, i: nat, flags: DumpFlags, depth: nat, base: Bytes, out: Bytes)
    requires i <= |items| && WellFormed(Array(items))
  {
    NormalizeWellFormed(Array(items), flags.sortKeys);
    var all := NormalizeAll(items, flags.sortKeys);
    out + ItemsText(all[i..], flags, depth) == base + ItemsText(all, flags, depth)
  }

  lemma ItemsStart(items: seq<Value>, flags: DumpFlags, depth: nat, base: Bytes)
    ensures WellFormed(Array(items)) ==> ItemsPrinted(items, 0, flags, depth, base, base)
  {
    if WellFormed(Array(items)) {
      NormalizeWellFormed(Array(items), flags.sortKeys);
      assert NormalizeAll(items, flags.sortKeys)[0..] == NormalizeAll(items, flags.sortKeys);
    }
  }

  lemma ItemStep(items: seq<Value>, i: nat, flags: DumpFlags, depth: nat, base: Bytes, out: Bytes)
    requires i < |items| && WellFormed(Array(items)) && ItemsPrinted(items, i, flags, depth, base, out)
    ensures ItemsPrinted(items, i + 1, flags, depth, base,
                         out + DumpText(items[i], flags, depth + 1) + Follow(i == |items| - 1, flags, depth))
  {
    hide Follow, ValueText;
    NormalizeWellFormed(Array(items), flags.sortKeys);
    NormalizeItem(items, flags.sortKeys, i);
    var all := NormalizeAll(items, flags.sortKeys);
    assert all[i..][1..] == all[i + 1..];
  }

  lemma ItemsEnd(items: seq<Value>, flags: DumpFlags, depth: nat, start: Bytes, base: Bytes, out: Bytes)
    requires items != [] && WellFormed(Array(items)) && ItemsPrinted(items, |items|, flags, depth, base, out)
    requires base == start + [91] + IndentText(flags, depth + 1, false)
    ensures out + [93] == start + DumpText(Array(items), flags, depth)
  {
    hide IndentText, Follow, ItemsText;
    NormalizeWellFormed(Array(items), flags.sortKeys);
    var all := NormalizeAll(items, flags.sortKeys);
    assert all[|items|..] == [];
    assert ItemsText([], flags, depth) == [] by { NoItemsText(flags, depth); }
    Assembled(start, [91] + IndentText(flags, depth + 1, false), base, ItemsText(all, flags, depth), [93], out);
    assert [91] + IndentText(flags, depth + 1, false) + ItemsText(all, flags, depth) + [93] == DumpText(Array(items), flags, depth);
  }

  lemma NoItemsText(flags: DumpFlags, depth: nat)
    ensures ItemsText([], flags, depth) == []
  {
  }

  /** An opening, the elements and a closing. */
  lemma Assembled(start: Bytes, open: Bytes, base: Bytes, inner: Bytes, close: Bytes, out: Bytes)
    requires base == start + open && out + [] == base + inner
    ensures out + close == start + (open + inner + close)
  {
    assert out == base + inner;
  }

  lemma EmptyText(flags: DumpFlags, depth: nat)
    ensures DumpText(Array([]), flags, depth) == [91] + [93]
    ensures DumpText(Object([]), flags, depth) == [123] + [125]
  {
  }

  lemma MembersNormal(order: seq<Member>, sort: bool)
    requires WellFormed(Object(order))
    ensures WellFormed(Object(NormalizeMembers(order, sort)))
  {
    var ms := NormalizeMembers(order, sort);
    forall i | 0 <= i < |ms| ensures ms[i].key == order[i].key && WellFormed(ms[i].value) {
      NormalizeMember(order, sort, i);
      NormalizeWellFormed(order[i].value, sort);
    }
  }

  /** The members printed in the given order. */
  ghost function OrderText(order: seq<Member>, flags: DumpFlags, depth: nat): Bytes
    requires WellFormed(Object(order))
  {
    MembersNormal(order, flags.sortKeys);
    MembersText(NormalizeMembers(order, flags.sortKeys), flags, depth)
  }

  /** The members before `i` are printed after `base`. */
  ghost predicate MembersPrinted(order: seq<Member>, i: nat, flags: DumpFlags, depth: nat, base: Bytes, out: Bytes)
    requires i <= |order| && WellFormed(Object(order))
  {
    MembersNormal(order, flags.sortKeys);
    out + MembersText(NormalizeMembers(order, flags.sortKeys)[i..], flags, depth) == base + OrderText(order, flags, depth)
  }

  lemma MembersStart(order: seq<Member>, flags: DumpFlags, depth: nat, base: Bytes)
    ensures WellFormed(Object(order)) ==> MembersPrinted(order, 0, flags, depth, base, base)
    ensures WellFormed(Object(order)) ==> forall i | 0 <= i < |order| :: KeyOk(order[i].key) && WellFormed(order[i].value)
  {
    if WellFormed(Object(order)) {
      MembersNormal(order, flags.sortKeys);
      assert NormalizeMembers(order, flags.sortKeys)[0..] == NormalizeMembers(order, flags.sortKeys);
    }
  }

  lemma MemberStep(order: seq<Member>, i: nat, flags: DumpFlags, depth: nat, base: Bytes, out: Bytes)
    requires i < |order| && WellFormed(Object(order)) && MembersPrinted(order, i, flags, depth, base, out)
    ensures MembersPrinted(order, i + 1, flags, depth, base,
                           out + (StringText(order[i].key, flags) + Separator(flags) + DumpText(order[i].value, flags, depth + 1))
                           + Follow(i == |order| - 1, flags, depth))
  {
    hide Follow, ValueText, StringText, Separator;
    MembersNormal(order, flags.sortKeys);
    NormalizeMember(order, flags.sortKeys, i);
    var all := NormalizeMembers(order, flags.sortKeys);
    assert all[i..][1..] == all[i + 1..];
    var first, follow := MemberText(all[i], flags, depth), Follow(i == |order| - 1, flags, depth);
    assert MembersText(all[i..], flags, depth) == first + follow + MembersText(all[i + 1..], flags, depth);
    Reassociate(out, first, follow, MembersText(all[i + 1..], flags, depth));
  }

  lemma Reassociate(a: Bytes, b: Bytes, c: Bytes, d: Bytes)
    ensures a + (b + c + d) == a + b + c + d
  {
  }

  lemma MembersDone(order: seq<Member>, flags: DumpFlags, depth: nat, base: Bytes, out: Bytes)
    requires WellFormed(Object(order)) && MembersPrinted(order, |order|, flags, depth, base, out)
    ensures out == base + OrderText(order, flags, depth)
  {
    assert NormalizeMembers(order, flags.sortKeys)[|order|..] == [] && out + [] == out;
  }

  lemma OrderWellFormed(members: seq<Member>, sort: bool)
    requires WellFormed(Object(members))
    ensures WellFormed(Object(InOrder(members, sort)))
  {
    OrderedMembers(members, sort);
    var order := InOrder(members, sort);
    forall i | 0 <= i < |order| ensures KeyOk(order[i].key) && WellFormed(order[i].value) {
      assert order[i] in members;
    }
  }

  lemma SortedAsGiven(members: seq<Member>)
    requires Distinct(members)
    ensures |SortMembers(members)| == |members| && Keys(SortMembers(members)) == SortKeys(Keys(members))
    ensures WellFormed(Object(members)) ==> WellFormed(Object(SortMembers(members)))
    ensures (forall i | 0 <= i < |members| :: StringsOk(SortMembers(members)[i].value)) <==> StringsOk(Object(members))
  {
    SortedKeys(members);
    OrderedMembers(members, true);
    if WellFormed(Object(members)) {
      OrderWellFormed(members, true);
    }
    var order := SortMembers(members);
    if forall i | 0 <= i < |members| :: StringsOk(order[i].value) {
      forall i | 0 <= i < |members| ensures StringsOk(members[i].value) {
        assert members[i] in order;
      }
    }
    if StringsOk(Object(members)) {
      forall i | 0 <= i < |members| ensures StringsOk(order[i].value) {
        assert order[i] in members;
      }
    }
  }

  lemma StoredMembers(members: seq<Member>)
    ensures Stored(Object(members)) <==> Distinct(members) && forall i | 0 <= i < |members| :: Stored(members[i].value)
  {
  }

  /** The key in place `i` of the sorted keys, the value found for it, and where that member stands. */
  lemma SortedMember(members: seq<Member>, i: nat) returns (at: nat)
    requires Distinct(members) && i < |members|
    ensures |SortMembers(members)| == |SortKeys(Keys(members))| == |members|
    ensures SortKeys(Keys(members))[i] == SortMembers(members)[i].key
    ensures Get(members, SortKeys(Keys(members))[i]) == Some(SortMembers(members)[i].value)
    ensures at < |members| && members[at] == SortMembers(members)[i]
  {
    SortedKeys(members);
    SortedValue(members, i);
    at :| 0 <= at < |members| && members[at] == SortMembers(members)[i];
  }

  lemma MembersEnd(members: seq<Member>, flags: DumpFlags, depth: nat, start: Bytes)
    requires members != [] && WellFormed(Object(members))
    ensures WellFormed(Object(InOrder(members, flags.sortKeys)))
    ensures start + [123] + IndentText(flags, depth + 1, false) + OrderText(InOrder(members, flags.sortKeys), flags, depth) + [125]
         == start + DumpText(Object(members), flags, depth)
  {
    hide IndentText, MembersText, InOrder, NormalizeMembers;
    OrderWellFormed(members, flags.sortKeys);
    NormalizeObject(members, flags.sortKeys);
    OrderedMembers(members, flags.sortKeys);
    MembersNormal(InOrder(members, flags.sortKeys), flags.sortKeys);
  }

  lemma StartString(s: Bytes, flags: DumpFlags, base: Bytes, out: Bytes)
    requires out == base + [QUOTE]
    ensures Printing(s, 0, 0, flags, base, out)
  {
    assert s[0..] == s && out + s[0..0] == out;
  }

  lemma EndString(s: Bytes, flags: DumpFlags, base: Bytes, out: Bytes)
    requires Printing(s, |s|, |s|, flags, base, out)
    ensures Valid(s) && base <= out && out + [QUOTE] == base + StringText(s, flags)
  {
    hide Encode, CharsText, RestText, First;
    RestEnds(s, flags);
    assert s[|s|..] == [] && s[|s|..|s|] == [];
    Regroup(base, RestText(s, 0, flags), out);
  }

  lemma Regroup(base: Bytes, text: Bytes, out: Bytes)
    ensures out + [] + [] == out
    ensures base + [QUOTE] + text + [QUOTE] == base + ([QUOTE] + text + [QUOTE])
  {
  }

  lemma RestEnds(s: Bytes, flags: DumpFlags)
    ensures RestText(s, |s|, flags) == []
    ensures Valid(s) ==> StringText(s, flags) == [QUOTE] + RestText(s, 0, flags) + [QUOTE]
  {
    assert s[|s|..] == [] && s[0..] == s;
  }

  lemma {:induction false} WellFormedPrints(v: Value)
    requires WellFormed(v)
    ensures StringsOk(v) && Stored(v)
  {
    if v.Array? {
      forall i | 0 <= i < |v.items| ensures StringsOk(v.items[i]) && Stored(v.items[i]) {
        WellFormedPrints(v.items[i]);
      }
    } else if v.Object? {
      forall i | 0 <= i < |v.members| ensures StringsOk(v.members[i].value) && Stored(v.members[i].value) {
        WellFormedPrints(v.members[i].value);
      }
    }
  }

  /** json_dumps. None stands for the null pointer. */
  method Dumps(v: Value, flags: DumpFlags) returns (r: Option<Bytes>)
    requires Stored(v)
    ensures r.Some? <==> StringsOk(v) && (flags.encodeAny || v.Array? || v.Object?)
    ensures r.Some? && WellFormed(v) ==> r.value == DumpText(v, flags, 0)
    ensures flags.sortKeys ==> KeysAscend(Normalize(v, flags.sortKeys))
  {
    hide DumpText, WellFormed, StringsOk, KeysAscend;
    if flags.sortKeys {
      NormalizeAscends(v);
    }
    if !flags.encodeAny && !v.Array? && !v.Object? {
      return None;
    }
    var printer := new Printer(flags);
    var ok := printer.DoDump(v, 0);
    r := if ok then Some(printer.out) else None;
    assert ok && WellFormed(v) ==> printer.out == [] + DumpText(v, flags, 0);
  }
}
