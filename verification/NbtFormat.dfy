/** NBT trees and their binary form, as functions, and the round trip between them. */
module NbtFormat {
  import opened Wrappers
  import opened Utf8
  import opened Powers

  const TAG_BYTE := 1
  const TAG_SHORT := 2
  const TAG_INT := 3
  const TAG_LONG := 4
  const TAG_FLOAT := 5
  const TAG_DOUBLE := 6
  const TAG_BYTE_ARRAY := 7
  const TAG_STRING := 8
  const TAG_LIST := 9
  const TAG_COMPOUND := 10
  const TAG_INT_ARRAY := 11

  /** A C string is its bytes before the NUL. Floating point numbers are their bytes. */
  datatype Payload =
    | ByteTag(n: int)
    | ShortTag(n: int)
    | IntTag(n: int)
    | LongTag(n: int)
    | FloatTag(bits: Bytes)
    | DoubleTag(bits: Bytes)
    | ByteArray(bytes: Bytes)
    | Text(s: Bytes)
    | List(sentinel: Byte, items: seq<Node>)
    | Compound(items: seq<Node>)
    | IntArray(ints: seq<int>)

  datatype Node = Node(name: Option<Bytes>, payload: Payload)

  function Type(p: Payload): Byte {
    match p
    case ByteTag(_) => TAG_BYTE
    case ShortTag(_) => TAG_SHORT
    case IntTag(_) => TAG_INT
    case LongTag(_) => TAG_LONG
    case FloatTag(_) => TAG_FLOAT
    case DoubleTag(_) => TAG_DOUBLE
    case ByteArray(_) => TAG_BYTE_ARRAY
    case Text(_) => TAG_STRING
    case List(_, _) => TAG_LIST
    case Compound(_) => TAG_COMPOUND
    case IntArray(_) => TAG_INT_ARRAY
  }

  // ---------------------------------------------------------------- numbers

  /** The number `b` spells, highest byte first. */
  function FromBig(b: Bytes): nat {
    if b == [] then 0 else 256 * FromBig(b[..|b| - 1]) + b[|b| - 1]
  }

  function ToBig(n: nat, k: nat): (b: Bytes)
    ensures |b| == k
  {
    if k == 0 then [] else ToBig(n / 256, k - 1) + [n % 256]
  }

  /** Two's complement in `k` bytes. */
  function Unsigned(n: int, k: nat): nat {
    n % Pow2(8 * k)
  }

  function Signed(n: nat, k: nat): int {
    if k > 0 && n >= Pow2(8 * k - 1) then n - Pow2(8 * k) else n
  }

  function NumberBytes(n: int, k: nat): (b: Bytes)
    ensures |b| == k
  {
    ToBig(Unsigned(n, k), k)
  }

  function ReadSigned(b: Bytes): int {
    Signed(FromBig(b), |b|)
  }

  predicate InWidth(n: int, k: nat)
    requires k > 0
  {
    0 <= n + Pow2(8 * k - 1) < 2 * Pow2(8 * k - 1)
  }

  lemma {:induction false} BigBack(n: nat, k: nat)
    requires n < Pow2(8 * k)
    ensures FromBig(ToBig(n, k)) == n
  {
    if k > 0 {
      assert Pow2(8) == 256;
      Pow2Sum(8, 8 * (k - 1));
      BigBack(n / 256, k - 1);
      assert ToBig(n, k)[..k - 1] == ToBig(n / 256, k - 1);
    }
  }

  /** A number in range is read as it was written. */
  lemma NumberBack(n: int, k: nat)
    requires k > 0 && InWidth(n, k)
    ensures ReadSigned(NumberBytes(n, k)) == n
  {
    var p := Pow2(8 * k);
    assert p == 2 * Pow2(8 * k - 1);
    if n >= 0 {
      QuotientIs(n, p, 0, n);
    } else {
      assert Unsigned(n, k) == n + p by { Wrapped(n, p); }
    }
    BigBack(Unsigned(n, k), k);
  }

  lemma Wrapped(n: int, p: nat)
    requires 0 <= n + p && n < 0
    ensures n % p == n + p
  {
    QuotientIs(n + p, p, 0, n + p);
    assert (n + p) % p == n % p;
  }

  // ---------------------------------------------------------------- writing

  const MAX_STRING := 32767
  const MAX_LENGTH := 0x7FFF_FFFF

  /** list_is_homogenous: the type of the items, or the sentinel's for an empty list. */
  function ListType(sentinel: Byte, items: seq<Node>): Byte {
    if items == [] then sentinel else Type(items[0].payload)
  }

  predicate TextOk(s: Bytes) {
    |s| <= MAX_STRING && 0 !in s
  }

  /** A tree that can be written: children of compounds have names, items of lists have none and one type. */
  predicate NodeOk(n: Node, named: bool) {
    (n.name.Some? <==> named) && (named ==> TextOk(n.name.value)) && PayloadOk(n.payload)
  }

  predicate PayloadOk(p: Payload) {
    match p
    case ByteTag(n) => InWidth(n, 1)
    case ShortTag(n) => InWidth(n, 2)
    case IntTag(n) => InWidth(n, 4)
    case LongTag(n) => InWidth(n, 8)
    case FloatTag(bits) => |bits| == 4
    case DoubleTag(bits) => |bits| == 8
    case ByteArray(bytes) => |bytes| <= MAX_LENGTH
    case Text(s) => TextOk(s)
    case List(sentinel, items) =>
      && |items| <= MAX_LENGTH && ListType(sentinel, items) != 0
      && forall i | 0 <= i < |items| :: NodeOk(items[i], false) && Type(items[i].payload) == ListType(sentinel, items)
    case Compound(items) => forall i | 0 <= i < |items| :: NodeOk(items[i], true)
    case IntArray(ints) => |ints| <= MAX_LENGTH && forall i | 0 <= i < |ints| :: InWidth(ints[i], 4)
  }

  function StringBytes(s: Bytes): Bytes {
    NumberBytes(|s|, 2) + s
  }

  function IntsBytes(ints: seq<int>): Bytes {
    if ints == [] then [] else NumberBytes(ints[0], 4) + IntsBytes(ints[1..])
  }

  function PayloadBytes(p: Payload): Bytes
    decreases p
  {
    match p
    case ByteTag(n) => NumberBytes(n, 1)
    case ShortTag(n) => NumberBytes(n, 2)
    case IntTag(n) => NumberBytes(n, 4)
    case LongTag(n) => NumberBytes(n, 8)
    case FloatTag(bits) => bits
    case DoubleTag(bits) => bits
    case ByteArray(bytes) => NumberBytes(|bytes|, 4) + bytes
    case Text(s) => StringBytes(s)
    case List(sentinel, items) => [ListType(sentinel, items)] + NumberBytes(|items|, 4) + NodesBytes(items, false)
    case Compound(items) => NodesBytes(items, true) + [0]
    case IntArray(ints) => NumberBytes(|ints|, 4) + IntsBytes(ints)
  }

  function NameBytes(name: Option<Bytes>): Bytes {
    if name.Some? then StringBytes(name.value) else []
  }

  /** __dump_binary: the type is left out inside lists. */
  function NodeBytes(n: Node, withType: bool): Bytes
    decreases n
  {
    (if withType then [Type(n.payload)] else []) + NameBytes(n.name) + PayloadBytes(n.payload)
  }

  function NodesBytes(items: seq<Node>, withType: bool): Bytes
    decreases items
  {
    if items == [] then [] else NodeBytes(items[0], withType) + NodesBytes(items[1..], withType)
  }

  // ---------------------------------------------------------------- the bytes, written out

  lemma PowsOf256()
    ensures Pow2(8) == 0x100 && Pow2(16) == 0x1_0000 && Pow2(32) == 0x1_0000_0000
    ensures Pow2(64) == 0x1_0000_0000_0000_0000
  {
    Pow8();
    hide Pow2;
    Pow2Sum(8, 8);
    Pow2Sum(16, 16);
    Pow2Sum(32, 32);
  }

  lemma Pow8()
    ensures Pow2(8) == 0x100
  {
  }

  lemma BigStep(n: nat, k: nat)
    ensures ToBig(n, k + 1) == ToBig(n / 256, k) + [n % 256] && ToBig(n, 0) == []
  {
  }

  /** Big-endian, byte by byte. */
  lemma BigTwo(n: nat)
    ensures ToBig(n, 1) == [n % 0x100] && ToBig(n, 2) == [n / 0x100 % 0x100, n % 0x100]
  {
    hide ToBig;
    BigStep(n, 0);
    BigStep(n / 256, 0);
    BigStep(n, 1);
  }

  lemma TwoMore(n: nat, k: nat)
    ensures ToBig(n, k + 2) == ToBig(n / 0x1_0000, k) + [n / 0x100 % 0x100, n % 0x100]
  {
    hide ToBig;
    BigStep(n, k + 1);
    BigStep(n / 256, k);
    assert n / 256 / 256 == n / 0x1_0000;
    assert ToBig(n / 0x1_0000, k) + [n / 256 % 256] + [n % 256] == ToBig(n / 0x1_0000, k) + [n / 256 % 256, n % 256];
  }

  lemma BigFour(n: nat)
    ensures ToBig(n, 4) == [n / 0x100_0000 % 0x100, n / 0x1_0000 % 0x100, n / 0x100 % 0x100, n % 0x100]
  {
    hide ToBig;
    TwoMore(n, 2);
    BigTwo(n / 0x1_0000);
    assert n / 0x1_0000 / 0x100 == n / 0x100_0000;
  }

  lemma BigEight(n: nat)
    ensures ToBig(n, 8) == ToBig(n / 0x1_0000_0000, 4) + ToBig(n, 4)
  {
    hide ToBig;
    TwoMore(n, 6);
    TwoMore(n / 0x1_0000, 4);
    TwoMore(n, 2);
    TwoMore(n / 0x1_0000, 0);
    BigStep(n / 0x1_0000 / 0x1_0000, 0);
    assert n / 0x1_0000 / 0x1_0000 == n / 0x1_0000_0000;
    Glue(ToBig(n / 0x1_0000_0000, 4), ToBig(n / 0x1_0000, 2), ToBig(n, 4), n / 0x1_0000 / 0x100 % 0x100,
         n / 0x1_0000 % 0x100, n / 0x100 % 0x100, n % 0x100);
  }

  lemma Glue(high: Bytes, middle: Bytes, low: Bytes, a: Byte, b: Byte, c: Byte, d: Byte)
    requires middle == [] + [a, b] && low == middle + [c, d]
    ensures high + [a, b] + [c, d] == high + low
  {
  }

  /** Two's complement wraps and the bytes stay the same. */
  lemma WrapsSmall(n: int)
    ensures n % 0x1_0000 / 0x100 % 0x100 == n / 0x100 % 0x100 && n % 0x1_0000 % 0x100 == n % 0x100
  {
  }

  lemma Wraps24(q: int, r: nat)
    requires r < 0x1_0000_0000
    ensures (q * 0x1_0000_0000 + r) / 0x100_0000 == q * 0x100 + r / 0x100_0000
  {
  }

  lemma Wraps16(q: int, r: nat)
    requires r < 0x1_0000_0000
    ensures (q * 0x1_0000_0000 + r) / 0x1_0000 == q * 0x1_0000 + r / 0x1_0000
  {
  }

  lemma Wraps8(q: int, r: nat)
    requires r < 0x1_0000_0000
    ensures (q * 0x1_0000_0000 + r) / 0x100 == q * 0x100_0000 + r / 0x100
  {
  }

  lemma SameByte(q: int, r: int)
    ensures (q * 0x100 + r) % 0x100 == r % 0x100
  {
  }

  lemma Wraps(n: int)
    ensures n % 0x1_0000_0000 / 0x100_0000 % 0x100 == n / 0x100_0000 % 0x100
    ensures n % 0x1_0000_0000 / 0x1_0000 % 0x100 == n / 0x1_0000 % 0x100
    ensures n % 0x1_0000_0000 / 0x100 % 0x100 == n / 0x100 % 0x100
    ensures n % 0x1_0000_0000 % 0x100 == n % 0x100
  {
    var q, r := n / 0x1_0000_0000, n % 0x1_0000_0000;
    assert n == q * 0x1_0000_0000 + r;
    Wraps24(q, r);
    Wraps16(q, r);
    Wraps8(q, r);
    SameByte(q, r / 0x100_0000);
    SameByte(q * 0x100, r / 0x1_0000);
    SameByte(q * 0x1_0000, r / 0x100);
    SameByte(q * 0x100_0000, r);
  }

  /** Two's complement numbers of one, two and four bytes. */
  lemma NumbersSpelled(n: int)
    ensures NumberBytes(n, 1) == [n % 0x100]
    ensures NumberBytes(n, 2) == [n / 0x100 % 0x100, n % 0x100]
    ensures NumberBytes(n, 4) == [n / 0x100_0000 % 0x100, n / 0x1_0000 % 0x100, n / 0x100 % 0x100, n % 0x100]
  {
    PowsOf256();
    hide ToBig, Pow2;
    BigTwo(Unsigned(n, 1));
    BigTwo(Unsigned(n, 2));
    BigFour(Unsigned(n, 4));
    WrapsSmall(n);
    Wraps(n);
  }

  /** And of eight: the high half, then the low half. */
  lemma LongSpelled(n: int)
    ensures NumberBytes(n, 8) == NumberBytes(n / 0x1_0000_0000, 4) + NumberBytes(n, 4)
  {
    PowsOf256();
    hide ToBig, Pow2;
    BigEight(Unsigned(n, 8));
    BigFour(Unsigned(n, 8));
    BigFour(Unsigned(n, 4));
    Wraps(Unsigned(n, 8));
    Wraps(n);
    Halves(n);
  }

  lemma Halves(n: int)
    ensures n % 0x1_0000_0000_0000_0000 / 0x1_0000_0000 == n / 0x1_0000_0000 % 0x1_0000_0000
    ensures n % 0x1_0000_0000_0000_0000 % 0x1_0000_0000 == n % 0x1_0000_0000
  {
  }

  /** Length and count fields. */
  function Two(n: nat): seq<int> {
    [n / 0x100 % 0x100, n % 0x100]
  }

  function Four(n: nat): seq<int> {
    [n / 0x100_0000 % 0x100, n / 0x1_0000 % 0x100, n / 0x100 % 0x100, n % 0x100]
  }

  /** The numbers of the types (nbt.h), which come first on the wire, and the layout of every payload. */
  lemma Layout(p: Payload)
    ensures p.ByteTag? ==> Type(p) == 1 && PayloadBytes(p) == NumberBytes(p.n, 1)
    ensures p.ShortTag? ==> Type(p) == 2 && PayloadBytes(p) == NumberBytes(p.n, 2)
    ensures p.IntTag? ==> Type(p) == 3 && PayloadBytes(p) == NumberBytes(p.n, 4)
    ensures p.LongTag? ==> Type(p) == 4 && PayloadBytes(p) == NumberBytes(p.n, 8)
    ensures p.FloatTag? ==> Type(p) == 5 && PayloadBytes(p) == p.bits
    ensures p.DoubleTag? ==> Type(p) == 6 && PayloadBytes(p) == p.bits
    ensures p.ByteArray? ==> Type(p) == 7 && PayloadBytes(p) == Four(|p.bytes|) + p.bytes
    ensures p.Text? ==> Type(p) == 8 && PayloadBytes(p) == Two(|p.s|) + p.s
    ensures p.List? ==>
              Type(p) == 9 && PayloadBytes(p) ==
                [if p.items == [] then p.sentinel else Type(p.items[0].payload)] + Four(|p.items|) + NodesBytes(p.items, false)
    ensures p.Compound? ==> Type(p) == 10 && PayloadBytes(p) == NodesBytes(p.items, true) + [0]
    ensures p.IntArray? ==> Type(p) == 11 && PayloadBytes(p) == Four(|p.ints|) + IntsBytes(p.ints)
  {
    hide NumberBytes, IntsBytes, NodesBytes;
    match p {
      case ByteArray(bytes) => NumbersSpelled(|bytes|);
      case Text(s) => NumbersSpelled(|s|);
      case List(_, items) => NumbersSpelled(|items|);
      case IntArray(ints) => NumbersSpelled(|ints|);
      case _ =>
    }
  }

  /** Type, name and payload of a compound's child; children one after the other, in lists the payloads alone. */
  lemma NodeLayout(n: Node, more: seq<Node>)
    requires n.name.Some?
    ensures NodeBytes(n, true) == [Type(n.payload)] + Two(|n.name.value|) + n.name.value + PayloadBytes(n.payload)
    ensures NodesBytes([], true) == [] && NodesBytes([n] + more, true) == NodeBytes(n, true) + NodesBytes(more, true)
    ensures NodesBytes([], false) == [] &&
            NodesBytes([Node(None, n.payload)] + more, false) == PayloadBytes(n.payload) + NodesBytes(more, false)
  {
    hide NumberBytes, PayloadBytes;
    NumbersSpelled(|n.name.value|);
    assert ([n] + more)[1..] == more && ([Node(None, n.payload)] + more)[1..] == more;
    assert NodeBytes(Node(None, n.payload), false) == PayloadBytes(n.payload);
  }

  lemma IntsLayout(n: int, more: seq<int>)
    ensures IntsBytes([]) == [] && IntsBytes([n] + more) == NumberBytes(n, 4) + IntsBytes(more)
  {
    hide NumberBytes;
    assert ([n] + more)[1..] == more;
  }

  /** The int 5 named "x". */
  const FIVE := Node(Some([120]), IntTag(5))
  /** The bytes 1 and -1 in a list named "l". */
  const ONES := Node(Some([108]), List(0, [Node(None, ByteTag(1)), Node(None, ByteTag(-1))]))

  lemma FiveSpelled()
    ensures NodeBytes(FIVE, true) == [3, 0, 1, 120, 0, 0, 0, 5]
  {
    hide NodeBytes, PayloadBytes, NumberBytes;
    NodeLayout(FIVE, []);
    Layout(FIVE.payload);
    NumbersSpelled(5);
  }

  lemma OnesSpelled()
    ensures NodeBytes(ONES, true) == [9, 0, 1, 108, 1, 0, 0, 0, 2, 1, 255]
  {
    hide NodeBytes, PayloadBytes, NumberBytes, NodesBytes;
    NodeLayout(ONES, []);
    Layout(ONES.payload);
    TwoItems();
  }

  lemma TwoItems()
    ensures NodesBytes([Node(None, ByteTag(1)), Node(None, ByteTag(-1))], false) == [1, 255]
  {
    hide NodeBytes, PayloadBytes, NumberBytes, NodesBytes;
    NodeLayout(Node(Some([]), ByteTag(1)), [Node(None, ByteTag(-1))]);
    NodeLayout(Node(Some([]), ByteTag(-1)), []);
    Layout(ByteTag(1));
    Layout(ByteTag(-1));
    NumbersSpelled(1);
    NumbersSpelled(-1);
    assert [Node(None, ByteTag(1))] + [Node(None, ByteTag(-1))] == [Node(None, ByteTag(1)), Node(None, ByteTag(-1))];
    assert [Node(None, ByteTag(-1))] + [] == [Node(None, ByteTag(-1))];
  }

  /** Both in a compound with the empty name, byte by byte. */
  lemma SmallCompound()
    ensures NodeBytes(Node(Some([]), Compound([FIVE, ONES])), true) ==
              [10, 0, 0,
               3, 0, 1, 120, 0, 0, 0, 5,
               9, 0, 1, 108, 1, 0, 0, 0, 2, 1, 255,
               0]
  {
    FiveSpelled();
    OnesSpelled();
    hide NodeBytes, PayloadBytes, NumberBytes, NodesBytes;
    assert FIVE.name.Some? && ONES.name.Some?;
    NodeLayout(FIVE, [ONES]);
    NodeLayout(ONES, []);
    NodeLayout(Node(Some([]), Compound([FIVE, ONES])), []);
    Layout(Compound([FIVE, ONES]));
    assert [FIVE] + [ONES] == [FIVE, ONES] && [ONES] + [] == [ONES];
  }

  // ---------------------------------------------------------------- reading

  /** A number of `k` bytes. */
  function ParseNumber(m: Bytes, k: nat): (r: Option<(int, Bytes)>)
    ensures r.Some? ==> |r.value.1| + k == |m|
  {
    if |m| < k then None else Some((ReadSigned(m[..k]), m[k..]))
  }

  /** read_string. The result is a C string, so it ends at its first NUL. */
  function ParseString(m: Bytes): (r: Option<(Bytes, Bytes)>)
    ensures r.Some? ==> |r.value.1| < |m|
  {
    var len := ParseNumber(m, 2);
    if len.None? || len.value.0 < 0 || |len.value.1| < len.value.0 then None
    else Some((UpToNul(len.value.1[..len.value.0]), len.value.1[len.value.0..]))
  }

  /** The length of an array, not negative, whose elements of `size` bytes are all there. */
  function ParseLength(m: Bytes, size: nat): (r: Option<(nat, Bytes)>)
    ensures r.Some? ==> |r.value.1| + 4 == |m| && r.value.0 * size <= |r.value.1|
  {
    var len := ParseNumber(m, 4);
    if len.None? || len.value.0 < 0 || |len.value.1| < len.value.0 * size then None
    else Some((len.value.0, len.value.1))
  }

  function ReadInts(b: Bytes): seq<int> {
    if |b| < 4 then [] else [ReadSigned(b[..4])] + ReadInts(b[4..])
  }

  type Parsed<T> = Option<(T, Bytes)>

  function Fixed(m: Bytes, k: nat, make: int -> Payload): (r: Parsed<Payload>)
    ensures r.Some? ==> |r.value.1| + k == |m|
  {
    var n := ParseNumber(m, k);
    if n.None? then None else Some((make(n.value.0), n.value.1))
  }

  /** The payload of parse_unnamed_tag. */
  function ParsePayload(t: Byte, m: Bytes): (r: Parsed<Payload>)
    ensures r.Some? ==> |r.value.1| < |m|
    decreases |m|, 3
  {
    if t == TAG_BYTE then Fixed(m, 1, n => ByteTag(n))
    else if t == TAG_SHORT then Fixed(m, 2, n => ShortTag(n))
    else if t == TAG_INT then Fixed(m, 4, n => IntTag(n))
    else if t == TAG_LONG then Fixed(m, 8, n => LongTag(n))
    else if t == TAG_FLOAT then (if |m| < 4 then None else Some((FloatTag(m[..4]), m[4..])))
    else if t == TAG_DOUBLE then (if |m| < 8 then None else Some((DoubleTag(m[..8]), m[8..])))
    else if t == TAG_BYTE_ARRAY then
      var len := ParseLength(m, 1);
      if len.None? then None else Some((ByteArray(len.value.1[..len.value.0]), len.value.1[len.value.0..]))
    else if t == TAG_STRING then
      var s := ParseString(m);
      if s.None? then None else Some((Text(s.value.0), s.value.1))
    else if t == TAG_LIST then ParseList(m)
    else if t == TAG_COMPOUND then
      var items := ParseCompound(m);
      if items.None? then None else Some((Compound(items.value.0), items.value.1))
    else if t == TAG_INT_ARRAY then
      var len := ParseLength(m, 4);
      if len.None? then None
      else Some((IntArray(ReadInts(len.value.1[..4 * len.value.0])), len.value.1[4 * len.value.0..]))
    else None
  }

  /** read_list: a negative count stands for no items. */
  function ParseList(m: Bytes): (r: Parsed<Payload>)
    ensures r.Some? ==> |r.value.1| < |m|
    decreases |m|, 1
  {
    if m == [] then None
    else
      var count := ParseNumber(m[1..], 4);
      if count.None? then None
      else
        var items := ParseItems(m[0], count.value.0, count.value.1);
        if items.None? then None
        else Some((List(if m[0] == 0 then TAG_COMPOUND else m[0], items.value.0), items.value.1))
  }

  function ParseItems(t: Byte, count: int, m: Bytes): (r: Parsed<seq<Node>>)
    ensures r.Some? ==> |r.value.1| <= |m|
    decreases |m|, 4
  {
    if count <= 0 then Some(([], m))
    else
      var p := ParsePayload(t, m);
      if p.None? then None
      else
        var rest := ParseItems(t, count - 1, p.value.1);
        if rest.None? then None else Some(([Node(None, p.value.0)] + rest.value.0, rest.value.1))
  }

  /** The children of a compound, up to the tag that ends it. */
  function ParseCompound(m: Bytes): (r: Parsed<seq<Node>>)
    ensures r.Some? ==> |r.value.1| < |m|
    decreases |m|, 2
  {
    if m == [] then None
    else if m[0] == 0 then Some(([], m[1..]))
    else
      var child := ParseNamed(m);
      if child.None? then None
      else
        var rest := ParseCompound(child.value.1);
        if rest.None? then None else Some(([child.value.0] + rest.value.0, rest.value.1))
  }

  /** parse_named_tag: type, name and payload. */
  function ParseNamed(m: Bytes): (r: Parsed<Node>)
    requires m != []
    ensures r.Some? ==> |r.value.1| < |m|
    decreases |m|, 1
  {
    var name := ParseString(m[1..]);
    if name.None? then None
    else
      var p := ParsePayload(m[0], name.value.1);
      if p.None? then None else Some((Node(Some(name.value.0), p.value.0), p.value.1))
  }

  /** nbt_parse */
  function ParseTree(m: Bytes): Option<Node> {
    if m == [] then None
    else
      var r := ParseNamed(m);
      if r.None? then None else Some(r.value.0)
  }

  // ---------------------------------------------------------------- reading undoes writing

  /** A tree as it is read back: a list remembers its items' type. */
  function Canon(p: Payload): Payload
    decreases p
  {
    match p
    case List(sentinel, items) => List(ListType(sentinel, items), CanonAll(items))
    case Compound(items) => Compound(CanonAll(items))
    case _ => p
  }

  function CanonAll(items: seq<Node>): (r: seq<Node>)
    ensures |r| == |items|
    decreases items
  {
    if items == [] then [] else [CanonNode(items[0])] + CanonAll(items[1..])
  }

  function CanonNode(n: Node): Node
    decreases n
  {
    Node(n.name, Canon(n.payload))
  }

  lemma Front(a: Bytes, b: Bytes)
    ensures (a + b)[..|a|] == a && (a + b)[|a|..] == b && |a + b| == |a| + |b|
  {
  }

  lemma ParseNumberBack(n: int, k: nat, rest: Bytes)
    requires k > 0 && InWidth(n, k)
    ensures ParseNumber(NumberBytes(n, k) + rest, k) == Some((n, rest))
  {
    Front(NumberBytes(n, k), rest);
    NumberBack(n, k);
  }

  lemma LengthInWidth(n: nat)
    ensures n <= MAX_STRING ==> InWidth(n, 2)
    ensures n <= MAX_LENGTH ==> InWidth(n, 4)
  {
    assert Pow2(7) == 128;
    Pow2Sum(8, 7);
    Pow2Sum(16, 15);
    assert Pow2(8) == 256;
    Pow2Sum(8, 8);
  }

  lemma StringBack(s: Bytes, rest: Bytes)
    requires TextOk(s)
    ensures ParseString(StringBytes(s) + rest) == Some((s, rest))
  {
    LengthInWidth(|s|);
    ParseNumberBack(|s|, 2, s + rest);
    assert StringBytes(s) + rest == NumberBytes(|s|, 2) + (s + rest);
    Front(s, rest);
    NoNul(s);
  }

  lemma {:induction false} IntsBack(ints: seq<int>, rest: Bytes)
    requires forall i | 0 <= i < |ints| :: InWidth(ints[i], 4)
    ensures |IntsBytes(ints)| == 4 * |ints| && ReadInts(IntsBytes(ints)) == ints
  {
    if ints != [] {
      IntsBack(ints[1..], rest);
      Front(NumberBytes(ints[0], 4), IntsBytes(ints[1..]));
      NumberBack(ints[0], 4);
    }
  }

  lemma LengthBack(n: nat, size: nat, body: Bytes, rest: Bytes)
    requires n <= MAX_LENGTH && |body| == n * size
    ensures ParseLength(NumberBytes(n, 4) + body + rest, size) == Some((n, body + rest))
    ensures (body + rest)[..|body|] == body && (body + rest)[|body|..] == rest
  {
    LengthInWidth(n);
    ParseNumberBack(n, 4, body + rest);
    assert NumberBytes(n, 4) + body + rest == NumberBytes(n, 4) + (body + rest);
  }

  /** What is written is at least one byte, so what is read uses the input up. */
  lemma {:induction false} PayloadBack(p: Payload, rest: Bytes)
    requires PayloadOk(p)
    ensures ParsePayload(Type(p), PayloadBytes(p) + rest) == Some((Canon(p), rest))
    decreases p, 1
  {
    hide NumberBytes, StringBytes, ReadSigned, IntsBytes, ReadInts, ParseString, ParseLength, ParseNumber, InWidth;
    match p
    case ByteTag(n) => ParseNumberBack(n, 1, rest);
    case ShortTag(n) => ParseNumberBack(n, 2, rest);
    case IntTag(n) => ParseNumberBack(n, 4, rest);
    case LongTag(n) => ParseNumberBack(n, 8, rest);
    case FloatTag(bits) => Front(bits, rest);
    case DoubleTag(bits) => Front(bits, rest);
    case ByteArray(bytes) => LengthBack(|bytes|, 1, bytes, rest);
    case Text(s) => StringBack(s, rest);
    case IntArray(ints) =>
      IntsBack(ints, rest);
      LengthBack(|ints|, 4, IntsBytes(ints), rest);
    case List(sentinel, items) => ListBack(sentinel, items, rest);
    case Compound(items) =>
      CompoundBack(items, rest);
      assert NodesBytes(items, true) + [0] + rest == PayloadBytes(p) + rest;
  }

  lemma {:induction false} ListBack(sentinel: Byte, items: seq<Node>, rest: Bytes)
    requires PayloadOk(List(sentinel, items))
    ensures ParseList(PayloadBytes(List(sentinel, items)) + rest) == Some((Canon(List(sentinel, items)), rest))
    decreases items, 2
  {
    hide NumberBytes, ParseNumber, InWidth, NodesBytes, ParseItems, NodeOk;
    var t := ListType(sentinel, items);
    var body := NodesBytes(items, false);
    ItemsBack(t, items, rest);
    LengthInWidth(|items|);
    ParseNumberBack(|items|, 4, body + rest);
    var m := PayloadBytes(List(sentinel, items)) + rest;
    assert m[1..] == NumberBytes(|items|, 4) + (body + rest);
  }

  lemma {:induction false} ItemsBack(t: Byte, items: seq<Node>, rest: Bytes)
    requires forall i | 0 <= i < |items| :: NodeOk(items[i], false) && Type(items[i].payload) == t
    ensures ParseItems(t, |items|, NodesBytes(items, false) + rest) == Some((CanonAll(items), rest))
    decreases items, 1
  {
    hide NodeBytes, ParsePayload, Canon;
    if items == [] {
      assert NodesBytes(items, false) + rest == rest;
    } else {
      var more := NodesBytes(items[1..], false) + rest;
      ItemBack(items[0], more);
      ItemsBack(t, items[1..], rest);
      assert NodesBytes(items, false) + rest == NodeBytes(items[0], false) + more;
    }
  }

  lemma {:induction false} ItemBack(n: Node, rest: Bytes)
    requires NodeOk(n, false)
    ensures ParsePayload(Type(n.payload), NodeBytes(n, false) + rest) == Some((Canon(n.payload), rest))
    decreases n, 2
  {
    hide PayloadBytes, ParsePayload, Canon;
    assert NodeBytes(n, false) == PayloadBytes(n.payload);
    PayloadBack(n.payload, rest);
  }

  lemma {:induction false} CompoundBack(items: seq<Node>, rest: Bytes)
    requires forall i | 0 <= i < |items| :: NodeOk(items[i], true)
    ensures ParseCompound(NodesBytes(items, true) + [0] + rest) == Some((CanonAll(items), rest))
    decreases items, 1
  {
    hide NodeBytes, ParseNamed, CanonNode;
    if items == [] {
      var m := NodesBytes(items, true) + [0] + rest;
      assert m == [0] + rest && m[1..] == rest;
    } else {
      var more := NodesBytes(items[1..], true) + [0] + rest;
      NodeBack(items[0], more);
      CompoundBack(items[1..], rest);
      assert NodesBytes(items, true) + [0] + rest == NodeBytes(items[0], true) + more;
    }
  }

  lemma {:induction false} NodeBack(n: Node, rest: Bytes)
    requires NodeOk(n, true)
    ensures NodeBytes(n, true) != [] && NodeBytes(n, true)[0] == Type(n.payload) != 0
    ensures ParseNamed(NodeBytes(n, true) + rest) == Some((CanonNode(n), rest))
    decreases n, 2
  {
    hide PayloadBytes, ParsePayload, Canon, StringBytes, ParseString;
    var body := PayloadBytes(n.payload) + rest;
    PayloadBack(n.payload, rest);
    StringBack(n.name.value, body);
    var m := NodeBytes(n, true) + rest;
    assert m[1..] == StringBytes(n.name.value) + body;
  }

  /** nbt_parse of nbt_dump_binary gives the tree back, whatever follows it. */
  lemma TreeBack(n: Node, rest: Bytes)
    requires NodeOk(n, true)
    ensures ParseTree(NodeBytes(n, true) + rest) == Some(CanonNode(n))
    ensures ParseNamed(NodeBytes(n, true) + rest).value.1 == rest
  {
    NodeBack(n, rest);
  }

  // ---------------------------------------------------------------- what is read can be written

  lemma SignedInWidth(b: Bytes)
    requires |b| > 0
    ensures InWidth(ReadSigned(b), |b|)
  {
    FromBigBound(b);
    assert Pow2(8 * |b|) == 2 * Pow2(8 * |b| - 1);
  }

  lemma {:induction false} FromBigBound(b: Bytes)
    ensures FromBig(b) < Pow2(8 * |b|)
  {
    if b != [] {
      assert Pow2(8) == 256;
      Pow2Sum(8, 8 * (|b| - 1));
      FromBigBound(b[..|b| - 1]);
    }
  }

  lemma NumberBound(m: Bytes, k: nat)
    requires k > 0 && ParseNumber(m, k).Some?
    ensures InWidth(ParseNumber(m, k).value.0, k)
    ensures k == 2 ==> ParseNumber(m, k).value.0 <= MAX_STRING
    ensures k == 4 ==> ParseNumber(m, k).value.0 <= MAX_LENGTH
  {
    SignedInWidth(m[..k]);
    assert Pow2(7) == 128;
    Pow2Sum(8, 7);
    Pow2Sum(16, 15);
    assert Pow2(8) == 256;
    Pow2Sum(8, 8);
  }

  lemma {:induction false} UpToNulClean(b: Bytes)
    ensures 0 !in UpToNul(b) && |UpToNul(b)| <= |b|
  {
    if b != [] && b[0] != 0 {
      UpToNulClean(b[1..]);
    }
  }

  lemma StringOk(m: Bytes)
    requires ParseString(m).Some?
    ensures TextOk(ParseString(m).value.0)
  {
    NumberBound(m, 2);
    var len := ParseNumber(m, 2).value;
    UpToNulClean(len.1[..len.0]);
  }

  lemma {:induction false} IntsOk(b: Bytes)
    ensures |ReadInts(b)| == |b| / 4 && forall i | 0 <= i < |ReadInts(b)| :: InWidth(ReadInts(b)[i], 4)
  {
    if |b| >= 4 {
      SignedInWidth(b[..4]);
      IntsOk(b[4..]);
    }
  }

  /** Every tree that is read can be written, and is read again as it is. */
  lemma {:induction false} PayloadReadOk(t: Byte, m: Bytes)
    requires ParsePayload(t, m).Some?
    ensures var p := ParsePayload(t, m).value.0; PayloadOk(p) && Type(p) == t && Canon(p) == p
    decreases |m|, 3
  {
    hide InWidth, ReadSigned, ReadInts, ParseString, ParseNumber, TextOk;
    if t == TAG_BYTE { NumberBound(m, 1); }
    else if t == TAG_SHORT { NumberBound(m, 2); }
    else if t == TAG_INT { NumberBound(m, 4); }
    else if t == TAG_LONG { NumberBound(m, 8); }
    else if t == TAG_BYTE_ARRAY { NumberBound(m, 4); }
    else if t == TAG_STRING { StringOk(m); }
    else if t == TAG_LIST { ListReadOk(m); }
    else if t == TAG_COMPOUND { CompoundReadOk(m); }
    else if t == TAG_INT_ARRAY {
      NumberBound(m, 4);
      var len := ParseLength(m, 4).value;
      IntsOk(len.1[..4 * len.0]);
    }
  }

  lemma {:induction false} ListReadOk(m: Bytes)
    requires ParseList(m).Some?
    ensures var p := ParseList(m).value.0; PayloadOk(p) && Type(p) == TAG_LIST && Canon(p) == p
    decreases |m|, 1
  {
    hide ParseNumber, ParseItems, NodeOk;
    var count := ParseNumber(m[1..], 4);
    NumberBound(m[1..], 4);
    ItemsReadOk(m[0], count.value.0, count.value.1);
  }

  lemma {:induction false} ItemsReadOk(t: Byte, count: int, m: Bytes)
    requires ParseItems(t, count, m).Some?
    ensures var items := ParseItems(t, count, m).value.0;
            && |items| == (if count <= 0 then 0 else count) && CanonAll(items) == items && (items != [] ==> t != 0)
            && forall i | 0 <= i < |items| :: NodeOk(items[i], false) && Type(items[i].payload) == t
    decreases |m|, 4
  {
    hide ParsePayload, Canon, PayloadOk;
    if count > 0 {
      var p := ParsePayload(t, m).value;
      PayloadReadOk(t, m);
      ItemsReadOk(t, count - 1, p.1);
    }
  }

  lemma {:induction false} CompoundReadOk(m: Bytes)
    requires ParseCompound(m).Some?
    ensures var items := ParseCompound(m).value.0;
            CanonAll(items) == items && forall i | 0 <= i < |items| :: NodeOk(items[i], true)
    decreases |m|, 2
  {
    hide ParseNamed, CanonNode, NodeOk;
    if m[0] != 0 {
      NodeReadOk(m);
      CompoundReadOk(ParseNamed(m).value.1);
    }
  }

  lemma {:induction false} NodeReadOk(m: Bytes)
    requires m != [] && ParseNamed(m).Some?
    ensures NodeOk(ParseNamed(m).value.0, true) && CanonNode(ParseNamed(m).value.0) == ParseNamed(m).value.0
    decreases |m|, 1
  {
    hide ParsePayload, Canon, PayloadOk, ParseString;
    StringOk(m[1..]);
    PayloadReadOk(m[0], ParseString(m[1..]).value.1);
  }

  // ---------------------------------------------------------------- input no writer makes

  /** An empty or negative count makes an empty list, whose type 0 is read as a compound's. */
  lemma EmptyList(t: Byte, count: int, rest: Bytes)
    requires InWidth(count, 4) && count <= 0
    ensures ParsePayload(9, [t] + NumberBytes(count, 4) + rest) == Some((List(if t == 0 then 10 else t, []), rest))
  {
    hide NumberBytes, InWidth, ParseNumber;
    var m := [t] + NumberBytes(count, 4) + rest;
    ParseNumberBack(count, 4, rest);
    assert m[1..] == NumberBytes(count, 4) + rest;
    assert ParseItems(t, count, rest) == Some(([], rest));
    assert ParseList(m) == Some((List(if t == 0 then 10 else t, []), rest));
  }

  /** Items of type 0, and types above 11, are refused. */
  lemma NoSuchType(t: Byte, m: Bytes)
    requires t == 0 || t > 11
    ensures ParsePayload(t, m) == None
  {
  }

  /** A string ends at its first NUL, wherever its length says. */
  lemma StringCut(s: Bytes, rest: Bytes)
    requires |s| <= 32767
    ensures ParsePayload(8, Two(|s|) + s + rest) == Some((Text(UpToNul(s)), rest))
  {
    hide NumberBytes, InWidth, ParseNumber, ReadSigned;
    NumbersSpelled(|s|);
    LengthInWidth(|s|);
    ParseNumberBack(|s|, 2, s + rest);
    assert Two(|s|) + s + rest == NumberBytes(|s|, 2) + (s + rest);
    Front(s, rest);
  }
}
