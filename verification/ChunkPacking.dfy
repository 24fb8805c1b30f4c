/**
 The packing of a chunk section's blocks, 13 bits each, into 64-bit words. Machine words are numbers:
 `<<` multiplies and drops what does not fit, `>>` divides, `|` is `BitOr`.
 */
module ChunkPacking {
  import opened Powers

  const WORD := 0x1_0000_0000_0000_0000
  const BLOCKS := 4096
  const WORDS := 832
  const WIDTH := 13

  type Word = w: int | 0 <= w < WORD

  /** `uint16_t type_id`, `uint8_t data` */
  datatype Block = Block(typeId: nat, data: nat)

  predicate InRange(b: Block) {
    b.typeId < 0x10000 && b.data < 0x100
  }

  function BitOr(a: nat, b: nat): nat
    decreases a + b
  {
    if a == 0 then b
    else if b == 0 then a
    else 2 * BitOr(a / 2, b / 2) + if a % 2 == 1 || b % 2 == 1 then 1 else 0
  }

  /** Or of numbers that share no bit is their sum. */
  lemma {:induction false} OrDisjoint(a: nat, b: nat, k: nat)
    requires a < Pow2(k)
    ensures BitOr(a, b * Pow2(k)) == a + b * Pow2(k)
  {
    if a != 0 && b != 0 {
      var high := b * Pow2(k - 1);
      assert b * Pow2(k) == 2 * high;
      OrDisjoint(a / 2, b, k - 1);
    }
  }

  /** Or stays within any number of bits that holds both operands. */
  lemma {:induction false} OrBound(a: nat, b: nat, k: nat)
    requires a < Pow2(k) && b < Pow2(k)
    ensures BitOr(a, b) < Pow2(k)
  {
    if a != 0 && b != 0 {
      OrBound(a / 2, b / 2, k - 1);
    }
  }

  lemma Pow64()
    ensures Pow2(64) == WORD && Pow2(13) == 8192 && Pow2(4) == 16
  {
    hide Pow2;
    Pow4();
    Pow2Sum(4, 4);
    Pow2Sum(8, 8);
    Pow2Sum(16, 16);
    Pow2Sum(32, 32);
    Pow2Sum(8, 5);
  }

  lemma Pow4()
    ensures Pow2(4) == 16 && Pow2(5) == 32
  {
  }

  // ---------------------------------------------------------------- what the bits mean

  /** What one block contributes: `(type_id << 4) | data`. */
  function Encoded(b: Block): nat {
    BitOr(b.typeId * 16, b.data)
  }

  function EncodedAll(blocks: seq<Block>): (vs: seq<nat>)
    ensures |vs| == |blocks| && forall i | 0 <= i < |vs| :: vs[i] == Encoded(blocks[i])
  {
    seq(|blocks|, i requires 0 <= i < |blocks| => Encoded(blocks[i]))
  }

  /** The values as one number, `WIDTH` bits each, the first one lowest. */
  function Packed(vs: seq<nat>): nat {
    if vs == [] then 0
    else
      var n := |vs| - 1;
      Packed(vs[..n]) + Shifted(vs[n], WIDTH * n)
  }

  /** The words as one number, the first one lowest. */
  function Number(ws: seq<Word>): nat {
    if ws == [] then 0
    else
      var n := |ws| - 1;
      Number(ws[..n]) + Shifted(ws[n], 64 * n)
  }

  function Shifted(v: nat, k: nat): nat {
    v * Pow2(k)
  }

  /** The value in the `i`th group of `WIDTH` bits. */
  function Unpack(n: nat, i: nat): nat {
    n / Pow2(WIDTH * i) % Pow2(WIDTH)
  }

  predicate Fit(vs: seq<nat>) {
    forall i | 0 <= i < |vs| :: vs[i] < Pow2(WIDTH)
  }

  lemma {:induction false} PackedBound(vs: seq<nat>)
    requires Fit(vs)
    ensures Packed(vs) < Pow2(WIDTH * |vs|)
  {
    if vs != [] {
      var n := |vs| - 1;
      PackedBound(vs[..n]);
      Pow2Sum(WIDTH, WIDTH * n);
      Multiples(vs[n], Pow2(WIDTH), Pow2(WIDTH * n));
    }
  }

  /** The groups of bits are the values, as long as the values fit. */
  lemma {:induction false} UnpackPacked(vs: seq<nat>, i: nat)
    requires Fit(vs) && i < |vs|
    ensures Unpack(Packed(vs), i) == vs[i]
  {
    var n := |vs| - 1;
    var low := vs[..n];
    PackedBound(low);
    if i == n {
      QuotientIs(Packed(vs), Pow2(WIDTH * n), vs[n], Packed(low));
      QuotientIs(vs[n], Pow2(WIDTH), 0, vs[n]);
    } else {
      UnpackPacked(low, i);
      UnpackLow(Packed(low), vs[n], i, n);
    }
  }

  /** Shifting twice. */
  lemma ShiftedOn(v: nat, a: nat, b: nat)
    ensures Shifted(Shifted(v, a), b) == Shifted(v, a + b)
  {
    hide Pow2;
    Pow2Sum(a, b);
    Reassociate(v, Pow2(a), Pow2(b));
  }

  /** What is added above a group does not change it. */
  lemma UnpackLow(x: nat, v: nat, i: nat, n: nat)
    requires i < n
    ensures Unpack(x + Shifted(v, WIDTH * n), i) == Unpack(x, i)
  {
    hide Shifted;
    var m := Shifted(v, WIDTH * (n - 1 - i));
    ShiftedOn(v, WIDTH * (n - 1 - i), WIDTH);
    ShiftedOn(v, WIDTH * (n - i), WIDTH * i);
    UnpackAbove(x, m, i);
  }

  lemma UnpackAbove(x: nat, m: nat, i: nat)
    ensures Unpack(x + Shifted(Shifted(m, WIDTH), WIDTH * i), i) == Unpack(x, i)
  {
    hide Pow2;
    var p, w := Pow2(WIDTH * i), Pow2(WIDTH);
    AddMultiples(x, m * w, p);
    AddMultiples(x / p, m, w);
  }

  // ---------------------------------------------------------------- network byte order

  /** The number with its `n` bytes in reverse. */
  function Reverse(x: nat, n: nat): nat {
    if n == 0 then 0 else x % 256 * Pow2(8 * (n - 1)) + Reverse(x / 256, n - 1)
  }

  /** hton64 on a little-endian machine. */
  function Swap(w: Word): (r: Word)
  {
    ReverseBound(w, 8);
    Pow64();
    Reverse(w, 8)
  }

  lemma {:induction false} ReverseBound(x: nat, n: nat)
    ensures Reverse(x, n) < Pow2(8 * n)
  {
    if n > 0 {
      ReverseBound(x / 256, n - 1);
      ByteUp(n);
      Multiples(x % 256, 256, Pow2(8 * (n - 1)));
    }
  }

  lemma ByteUp(n: nat)
    requires n > 0
    ensures Pow2(8 * n) == 256 * Pow2(8 * (n - 1))
  {
    assert Pow2(8) == 256;
    Pow2Sum(8, 8 * (n - 1));
  }

  /** Reversing from the top: the highest byte comes first. */
  lemma {:induction false} ReverseTop(h: nat, low: nat, n: nat)
    requires h < 256 && low < Pow2(8 * n)
    ensures Reverse(h * Pow2(8 * n) + low, n + 1) == Reverse(low, n) * 256 + h
  {
    hide Pow2;
    var x := h * Pow2(8 * n) + low;
    if n == 0 {
      ReverseByte(h);
    } else {
      var p := Pow2(8 * (n - 1));
      ByteUp(n);
      Reassociate(h, p, 256);
      assert x == h * p * 256 + low;
      AddMultiples(low, h * p, 256);
      assert x / 256 == h * p + low / 256 && x % 256 == low % 256;
      ReverseTop(h, low / 256, n - 1);
      assert Reverse(x, n + 1) == low % 256 * Pow2(8 * n) + (Reverse(low / 256, n - 1) * 256 + h);
      Reassociate(low % 256, p, 256);
      Distribute(low % 256 * p, Reverse(low / 256, n - 1), 256);
    }
  }

  lemma ReverseByte(h: nat)
    requires h < 256
    ensures Pow2(0) == 1 && Reverse(h, 1) == h
  {
    assert Reverse(h, 1) == h % 256 * Pow2(0) + Reverse(h / 256, 0);
  }

  /** Swapping twice gives the word back. */
  lemma {:induction false} ReverseTwice(x: nat, n: nat)
    requires x < Pow2(8 * n)
    ensures Reverse(Reverse(x, n), n) == x
  {
    if n > 0 {
      ByteUp(n);
      ReverseBound(x / 256, n - 1);
      ReverseTop(x % 256, Reverse(x / 256, n - 1), n - 1);
      ReverseTwice(x / 256, n - 1);
    }
  }

  lemma SwapTwice(w: Word)
    ensures Swap(Swap(w)) == w
  {
    Pow64();
    ReverseTwice(w, 8);
  }

  /** The `k`th byte from below. */
  function ByteAt(x: nat, k: nat): nat {
    x / Pow2(8 * k) % 256
  }

  lemma ByteAbove(x: nat, v: nat, k: nat, n: nat)
    requires k < n
    ensures ByteAt(x + Shifted(v, 8 * n), k) == ByteAt(x, k)
  {
    hide Shifted, ByteAt;
    var m := Shifted(v, 8 * (n - 1 - k));
    ShiftedOn(v, 8 * (n - 1 - k), 8);
    ShiftedOn(v, 8 * (n - k), 8 * k);
    ByteClear(x, m, k);
  }

  lemma ByteClear(x: nat, m: nat, k: nat)
    ensures ByteAt(x + Shifted(Shifted(m, 8), 8 * k), k) == ByteAt(x, k)
  {
    assert Pow2(8) == 256 by { EightBits(); }
    hide Pow2;
    var p := Pow2(8 * k);
    AddMultiples(x, m * 256, p);
    AddMultiples(x / p, m, 256);
  }

  lemma EightBits()
    ensures Pow2(8) == 256
  {
  }

  lemma ByteDown(x: nat, k: nat)
    ensures ByteAt(x / 256, k) == ByteAt(x, k + 1)
  {
    hide Pow2;
    ByteUp(k + 1);
    DivDiv(x, 256, Pow2(8 * k));
  }

  /** Reversing puts the bytes in the opposite order. */
  lemma {:induction false} ReverseAt(x: nat, n: nat, k: nat)
    requires k < n
    ensures ByteAt(Reverse(x, n), k) == ByteAt(x, n - 1 - k)
  {
    hide ByteAt, Pow2;
    var rest := Reverse(x / 256, n - 1);
    ReverseBound(x / 256, n - 1);
    if k == n - 1 {
      TopByte(x % 256, rest, n - 1);
      LowByte(x);
    } else {
      ByteAbove(rest, x % 256, k, n - 1);
      ReverseAt(x / 256, n - 1, k);
      ByteDown(x, n - 2 - k);
    }
  }

  lemma TopByte(h: nat, low: nat, n: nat)
    requires h < 256 && low < Pow2(8 * n)
    ensures ByteAt(h * Pow2(8 * n) + low, n) == h
  {
    hide Pow2;
    QuotientIs(h * Pow2(8 * n) + low, Pow2(8 * n), h, low);
  }

  lemma LowByte(x: nat)
    ensures ByteAt(x, 0) == x % 256
  {
    assert Pow2(8 * 0) == 1;
  }

  /** The bytes of the swapped word are those of the word from the other end. */
  lemma SwapBytes(w: Word, k: nat)
    requires k < 8
    ensures Swap(w) / Pow2(8 * k) % 256 == w / Pow2(8 * (7 - k)) % 256
  {
    ReverseAt(w, 8, k);
  }

  /** A little-endian machine's memory for a word. */
  function Memory(w: Word): seq<int> {
    [w % 0x100, w / 0x100 % 0x100, w / 0x1_0000 % 0x100, w / 0x100_0000 % 0x100, w / 0x1_0000_0000 % 0x100,
     w / 0x100_0000_0000 % 0x100, w / 0x1_0000_0000_0000 % 0x100, w / 0x100_0000_0000_0000 % 0x100]
  }

  lemma BytePowers()
    ensures Pow2(0) == 1 && Pow2(8) == 0x100 && Pow2(16) == 0x1_0000 && Pow2(24) == 0x100_0000
    ensures Pow2(32) == 0x1_0000_0000 && Pow2(40) == 0x100_0000_0000 && Pow2(48) == 0x1_0000_0000_0000
    ensures Pow2(56) == 0x100_0000_0000_0000
  {
    NoBits();
    EightBits();
    hide Pow2;
    Pow2Sum(8, 8);
    Pow2Sum(16, 8);
    Pow2Sum(16, 16);
    Pow2Sum(32, 8);
    Pow2Sum(32, 16);
    Pow2Sum(32, 24);
  }

  lemma NoBits()
    ensures Pow2(0) == 1
  {
  }

  /** Network byte order: the highest byte comes first in memory. */
  lemma SwapMemory(w: Word)
    ensures Memory(Swap(w)) ==
              [w / 0x100_0000_0000_0000 % 0x100, w / 0x1_0000_0000_0000 % 0x100, w / 0x100_0000_0000 % 0x100,
               w / 0x1_0000_0000 % 0x100, w / 0x100_0000 % 0x100, w / 0x1_0000 % 0x100, w / 0x100 % 0x100, w % 0x100]
  {
    hide Swap, Pow2;
    BytePowers();
    SwapBytes(w, 0);
    SwapBytes(w, 1);
    SwapBytes(w, 2);
    SwapBytes(w, 3);
    SwapBytes(w, 4);
    SwapBytes(w, 5);
    SwapBytes(w, 6);
    SwapBytes(w, 7);
  }

  // ---------------------------------------------------------------- single bits

  /** The `q`th bit from below. */
  function BitAt(x: nat, q: nat): nat {
    x / Pow2(q) % 2
  }

  lemma BitAbove(x: nat, v: nat, q: nat, n: nat)
    requires q < n
    ensures BitAt(x + Shifted(v, n), q) == BitAt(x, q)
  {
    hide Pow2;
    var m := v * Pow2(n - 1 - q);
    BitShift(v, q, n);
    AddMultiples(x, m * 2, Pow2(q));
    AddMultiples(x / Pow2(q), m, 2);
  }

  lemma BitShift(v: nat, q: nat, n: nat)
    requires q < n
    ensures Shifted(v, n) == v * Pow2(n - 1 - q) * 2 * Pow2(q)
  {
    hide Pow2;
    ShiftedOn(v, n - 1 - q, 1);
    ShiftedOn(v, n - q, q);
    assert Pow2(1) == 2 by { OneBit(); }
  }

  lemma OneBit()
    ensures Pow2(1) == 2
  {
    assert Pow2(0) == 1;
  }

  lemma BitHigh(x: nat, a: nat, r: nat)
    ensures BitAt(x, a + r) == BitAt(ShiftRight(x, a), r)
  {
    hide Pow2;
    Pow2Sum(a, r);
    DivDiv(x, Pow2(a), Pow2(r));
  }

  lemma {:induction false} NumberBound(ws: seq<Word>)
    ensures Number(ws) < Pow2(64 * |ws|)
  {
    if ws != [] {
      var n := |ws| - 1;
      NumberBound(ws[..n]);
      Pow64();
      Pow2Sum(64, 64 * n);
      Remainder(ws[n], Number(ws[..n]), Pow2(64 * n), WORD);
    }
  }

  /** The bits of the words, lowest word first, are the bits of their number. */
  lemma {:induction false} NumberBit(ws: seq<Word>, q: nat)
    requires q < 64 * |ws|
    ensures BitAt(Number(ws), q) == BitAt(ws[q / 64], q % 64)
  {
    hide BitAt, Shifted, Pow2;
    var n := |ws| - 1;
    var low := Number(ws[..n]);
    if q < 64 * n {
      NumberBit(ws[..n], q);
      BitAbove(low, ws[n], q, 64 * n);
    } else {
      NumberBound(ws[..n]);
      TopWord(ws[n], low, n);
      BitHigh(Number(ws), 64 * n, q - 64 * n);
      assert q / 64 == n && q % 64 == q - 64 * n;
    }
  }

  lemma TopWord(w: nat, low: nat, n: nat)
    requires low < Pow2(64 * n)
    ensures ShiftRight(low + Shifted(w, 64 * n), 64 * n) == w
  {
    hide Pow2;
    QuotientIs(low + w * Pow2(64 * n), Pow2(64 * n), w, low);
  }

  /** The bits of a group of 13. */
  lemma UnpackBit(x: nat, i: nat, b: nat)
    requires b < 13
    ensures BitAt(x, 13 * i + b) == BitAt(Unpack(x, i), b)
  {
    hide BitAt, Pow2;
    BitHigh(x, 13 * i, b);
    var m := ShiftRight(x, 13 * i);
    DivMod(m, Pow2(13));
    BitAbove(m % Pow2(13), ShiftRight(m, 13), b, 13);
  }

  /** Bit `b` of block `i` is bit `13 i + b` of the words. */
  ghost predicate BitInPlace(words: seq<Word>, blocks: seq<Block>, i: nat, b: nat)
    requires i < |blocks| && b < 13 && 13 * |blocks| <= 64 * |words|
  {
    words[(13 * i + b) / 64] / Pow2((13 * i + b) % 64) % 2 == (16 * blocks[i].typeId + blocks[i].data) / Pow2(b) % 2
  }

  lemma BlockBit(blocks: seq<Block>, words: seq<Word>, i: nat, b: nat)
    requires i < |blocks| && b < 13 && 13 * |blocks| <= 64 * |words|
    requires forall j | 0 <= j < |blocks| :: InRange(blocks[j]) && blocks[j].typeId < 512 && blocks[j].data < 16
    requires Fit(EncodedAll(blocks)) ==> Number(words) == Packed(EncodedAll(blocks))
    ensures BitInPlace(words, blocks, i, b)
  {
    hide Pow2, Number, Packed, Unpack, Encoded;
    forall j | 0 <= j < |blocks| ensures Encoded(blocks[j]) < Pow2(WIDTH) {
      FitsWidth(blocks[j]);
    }
    UnpackPacked(EncodedAll(blocks), i);
    UnpackBit(Number(words), i, b);
    NumberBit(words, 13 * i + b);
    Sum(blocks[i]);
  }

  lemma Sum(b: Block)
    requires b.data < 16
    ensures Encoded(b) == 16 * b.typeId + b.data
  {
    Pow64();
    OrCommutes(b.typeId * 16, b.data);
    OrDisjoint(b.data, b.typeId, 4);
  }

  // ---------------------------------------------------------------- encode_chunk_section_blocks

  /** `v << b` in 64 bits. */
  function ShiftLeft(v: nat, b: nat): Word {
    v * Pow2(b) % WORD
  }

  /** `v >> k` */
  function ShiftRight(v: nat, k: nat): (r: nat)
    ensures r <= v
  {
    DivMod(v, Pow2(k));
    v / Pow2(k)
  }

  /** A value that fits above the bits in use is added to them. */
  lemma OrInside(tmp: nat, v: nat, b: nat)
    requires tmp < Pow2(b) && v < Pow2(WIDTH) && b + WIDTH <= 64
    ensures BitOr(tmp, ShiftLeft(v, b)) == tmp + Shifted(v, b) < Pow2(b + WIDTH)
  {
    Pow64();
    Pow2Sum(WIDTH, b);
    Multiples(v, Pow2(WIDTH), Pow2(b));
    if b + WIDTH < 64 {
      Pow2Less(b + WIDTH, 64);
    }
    QuotientIs(v * Pow2(b), WORD, 0, v * Pow2(b));
    OrDisjoint(tmp, v, b);
  }

  /** A value that does not fit is split: its low bits fill the word, the rest is `>>`'s result. */
  lemma OrAcross(tmp: nat, v: nat, b: nat)
    requires tmp < Pow2(b) && v < Pow2(WIDTH) && b < 64 < b + WIDTH
    ensures var high := ShiftRight(v, 64 - b);
            && high < Pow2(b + WIDTH - 64)
            && BitOr(tmp, ShiftLeft(v, b)) + high * WORD == tmp + Shifted(v, b)
  {
    hide Pow2, BitOr;
    Pow64();
    var p, q := Pow2(64 - b), Pow2(b);
    var high, low := v / p, v % p;
    DivMod(v, p);
    Pow2Sum(64 - b, b);
    Split(v, high, low, p, q);
    Multiples(low, p, q);
    QuotientIs(Shifted(v, b), WORD, high, low * q);
    OrDisjoint(tmp, low, b);
    Pow2Sum(b + WIDTH - 64, 64 - b);
    Bounded(high, Pow2(b + WIDTH - 64), p, v);
  }

  lemma Bounded(a: nat, b: nat, p: nat, v: nat)
    requires a * p <= v < b * p
    ensures a < b
  {
    Multiples(b, a, p);
  }

  /** A value cut in two and moved up. */
  lemma Split(v: nat, high: nat, low: nat, p: nat, q: nat)
    requires v == high * p + low && p * q == WORD
    ensures v * q == high * WORD + low * q
  {
    Distribute(high * p, low, q);
    Reassociate(high, p, q);
  }

  /** The words written and the `b` bits in `tmp` hold the first `i` values. */
  ghost predicate Holding(vs: seq<nat>, i: nat, words: seq<Word>, tmp: nat, b: nat)
    requires i <= |vs|
  {
    tmp < Pow2(b) && Number(words) + Shifted(tmp, 64 * |words|) == Packed(vs[..i])
  }

  lemma Shift(v: nat, a: nat, b: nat)
    ensures Shifted(Shifted(v, a), b) == Shifted(v, a + b)
  {
    Pow2Sum(a, b);
    Reassociate(v, Pow2(a), Pow2(b));
  }

  lemma PackedNext(vs: seq<nat>, i: nat)
    requires i < |vs|
    ensures Packed(vs[..i + 1]) == Packed(vs[..i]) + Shifted(vs[i], WIDTH * i)
  {
    assert vs[..i + 1][..i] == vs[..i];
  }

  lemma NumberNext(words: seq<Word>, w: Word)
    ensures Number(words + [w]) == Number(words) + Shifted(w, 64 * |words|)
  {
    assert (words + [w])[..|words|] == words;
  }

  /** One more value with room to spare in the word. */
  lemma HoldMore(vs: seq<nat>, i: nat, words: seq<Word>, tmp: nat, b: nat)
    requires Fit(vs) && i < |vs| && Holding(vs, i, words, tmp, b) && 64 * |words| + b == WIDTH * i && b + WIDTH <= 64
    ensures Holding(vs, i + 1, words, BitOr(tmp, ShiftLeft(vs[i], b)), b + WIDTH)
  {
    hide BitOr, ShiftLeft, Shifted, Packed, Number;
    OrInside(tmp, vs[i], b);
    PackedNext(vs, i);
    Shift(vs[i], b, 64 * |words|);
    SumShifted(tmp, Shifted(vs[i], b), 64 * |words|);
  }

  lemma SumShifted(x: nat, y: nat, k: nat)
    ensures Shifted(x + y, k) == Shifted(x, k) + Shifted(y, k)
  {
    Distribute(x, y, Pow2(k));
  }

  /** A full word is written. */
  lemma HoldFull(vs: seq<nat>, i: nat, words: seq<Word>, tmp: Word)
    requires i <= |vs| && Holding(vs, i, words, tmp, 64)
    ensures Holding(vs, i, words + [tmp], 0, 0)
  {
    NumberNext(words, tmp);
  }

  /** The value crosses into the next word. */
  lemma HoldAcross(vs: seq<nat>, i: nat, words: seq<Word>, tmp: nat, b: nat, w: Word)
    requires Fit(vs) && i < |vs| && Holding(vs, i, words, tmp, b) && 64 * |words| + b == WIDTH * i && b < 64 < b + WIDTH
    requires w == BitOr(tmp, ShiftLeft(vs[i], b))
    ensures Holding(vs, i + 1, words + [w], ShiftRight(vs[i], 64 - b), b + WIDTH - 64)
  {
    hide BitOr, ShiftLeft, ShiftRight, Shifted, Packed, Number;
    var high, k := ShiftRight(vs[i], 64 - b), 64 * |words|;
    OrAcross(tmp, vs[i], b);
    PackedNext(vs, i);
    Shift(vs[i], b, k);
    Shift(high, 64, k);
    NumberNext(words, w);
    SumShifted(tmp, Shifted(vs[i], b), k);
    SumShifted(w, Shifted(high, 64), k);
    assert Shifted(high, 64) == high * WORD by { WordShift(high); }
  }

  lemma WordShift(v: nat)
    ensures Shifted(v, 64) == v * WORD
  {
    Pow64();
  }

  lemma OrWord(tmp: Word, w: Word)
    ensures BitOr(tmp, w) < WORD
  {
    Pow64();
    OrBound(tmp, w, 64);
  }

  /** The array holds these words in network byte order. */
  ghost predicate Wrote(out: seq<Word>, words: seq<Word>)
  {
    |words| <= |out| && forall k | 0 <= k < |words| :: out[k] == Swap(words[k])
  }

  method EncodeBlocks(out: array<Word>, blocks: seq<Block>) returns (ghost words: seq<Word>)
    requires |blocks| == BLOCKS && out.Length >= WORDS && forall i | 0 <= i < BLOCKS :: InRange(blocks[i])
    modifies out
    ensures |words| == WORDS && Wrote(out[..], words)
    ensures forall k | WORDS <= k < out.Length :: out[k] == old(out[k])
    ensures Fit(EncodedAll(blocks)) ==> Number(words) == Packed(EncodedAll(blocks))
    ensures ReadsBack(words, blocks) <==> Roomy(blocks)
    ensures forall k | 0 <= k < 832 ::
              Memory(out[k]) ==
                [words[k] / 0x100_0000_0000_0000 % 0x100, words[k] / 0x1_0000_0000_0000 % 0x100,
                 words[k] / 0x100_0000_0000 % 0x100, words[k] / 0x1_0000_0000 % 0x100, words[k] / 0x100_0000 % 0x100,
                 words[k] / 0x1_0000 % 0x100, words[k] / 0x100 % 0x100, words[k] % 0x100]
    ensures (forall j | 0 <= j < 4096 :: blocks[j].typeId < 512 && blocks[j].data < 16) ==>
              forall i, b | 0 <= i < 4096 && 0 <= b < 13 :: BitInPlace(words, blocks, i, b)
  {
    hide ReadsBack, Roomy, BitOr, ShiftLeft, ShiftRight, Swap, Holding, Fit, Encoded, Pow2, EncodedAll;
    ghost var vs := EncodedAll(blocks);
    var bitsUsed, tmpResult: Word, blockDataIndex := 0, 0, 0;
    words := [];
    HoldNone(vs);
    var i := 0;
    while i < BLOCKS
      invariant 0 <= i <= BLOCKS && 0 <= bitsUsed < 64 && |words| == blockDataIndex
      invariant 64 * blockDataIndex + bitsUsed == WIDTH * i
      invariant Wrote(out[..], words)
      invariant forall k | blockDataIndex <= k < out.Length :: out[k] == old(out[k])
      invariant Fit(vs) ==> Holding(vs, i, words, tmpResult, bitsUsed)
    {
      var block := blocks[i];
      var current := BitOr(block.typeId * 16, block.data);
      assert current == vs[i] by { EncodedAt(blocks, i); }
      OrWord(tmpResult, ShiftLeft(current, bitsUsed));
      ghost var before := tmpResult;
      tmpResult := BitOr(tmpResult, ShiftLeft(current, bitsUsed));
      bitsUsed := bitsUsed + WIDTH;
      if Fit(vs) {
        HoldNext(vs, i, words, before, bitsUsed - WIDTH, tmpResult);
      }
      if bitsUsed >= 64 || i == BLOCKS - 1 {
        out[blockDataIndex] := Swap(tmpResult);
        words := words + [tmpResult];
        blockDataIndex := blockDataIndex + 1;
        if bitsUsed > 64 {
          var overflowedBits := bitsUsed - 64;
          SmallShift(block, WIDTH - overflowedBits);
          tmpResult := ShiftRight(current, WIDTH - overflowedBits);
          bitsUsed := overflowedBits;
        } else {
          bitsUsed := 0;
          tmpResult := 0;
        }
      }
      i := i + 1;
    }
    if Fit(vs) {
      HoldAll(vs, words, tmpResult);
    }
    SectionBackExactly(blocks, words);
    NetworkOrder(out[..], words);
    if forall j | 0 <= j < 4096 :: blocks[j].typeId < 512 && blocks[j].data < 16 {
      BlockBits(blocks, words);
    }
  }

  lemma NetworkOrder(out: seq<Word>, words: seq<Word>)
    requires Wrote(out, words)
    ensures forall k | 0 <= k < |words| ::
              Memory(out[k]) ==
                [words[k] / 0x100_0000_0000_0000 % 0x100, words[k] / 0x1_0000_0000_0000 % 0x100,
                 words[k] / 0x100_0000_0000 % 0x100, words[k] / 0x1_0000_0000 % 0x100, words[k] / 0x100_0000 % 0x100,
                 words[k] / 0x1_0000 % 0x100, words[k] / 0x100 % 0x100, words[k] % 0x100]
  {
    hide Swap, Memory;
    forall k | 0 <= k < |words|
      ensures Memory(out[k]) ==
                [words[k] / 0x100_0000_0000_0000 % 0x100, words[k] / 0x1_0000_0000_0000 % 0x100,
                 words[k] / 0x100_0000_0000 % 0x100, words[k] / 0x1_0000_0000 % 0x100, words[k] / 0x100_0000 % 0x100,
                 words[k] / 0x1_0000 % 0x100, words[k] / 0x100 % 0x100, words[k] % 0x100]
    {
      SwapMemory(words[k]);
    }
  }

  lemma BlockBits(blocks: seq<Block>, words: seq<Word>)
    requires |blocks| == 4096 && |words| == 832
    requires forall j | 0 <= j < |blocks| :: InRange(blocks[j]) && blocks[j].typeId < 512 && blocks[j].data < 16
    requires Fit(EncodedAll(blocks)) ==> Number(words) == Packed(EncodedAll(blocks))
    ensures forall i, b | 0 <= i < |blocks| && 0 <= b < 13 :: BitInPlace(words, blocks, i, b)
  {
    hide Pow2, Fit, EncodedAll, Number, Packed;
    forall i, b | 0 <= i < |blocks| && 0 <= b < 13 ensures BitInPlace(words, blocks, i, b) {
      BlockBit(blocks, words, i, b);
    }
  }

  /** With no bits left over the words hold all values. */
  lemma HoldAll(vs: seq<nat>, words: seq<Word>, tmp: nat)
    requires Holding(vs, |vs|, words, tmp, 0)
    ensures Number(words) == Packed(vs)
  {
    assert Pow2(0) == 1 && Shifted(0, 64 * |words|) == 0;
    assert vs[..|vs|] == vs;
  }

  lemma EncodedAt(blocks: seq<Block>, i: nat)
    requires i < |blocks|
    ensures EncodedAll(blocks)[i] == BitOr(blocks[i].typeId * 16, blocks[i].data)
  {
  }

  /** A block's value is a small number, and shifting it right keeps it small. */
  lemma SmallShift(b: Block, k: nat)
    requires InRange(b)
    ensures ShiftRight(BitOr(b.typeId * 16, b.data), k) < WORD
  {
    Pow64();
    Pow2Sum(16, 4);
    assert Pow2(8) == 256;
    Pow2Sum(8, 8);
    Pow2Less(8, 20);
    OrBound(b.typeId * 16, b.data, 20);
  }

  /** What the words and the bits hold after the next value, before a full word is written or after. */
  lemma HoldNext(vs: seq<nat>, i: nat, words: seq<Word>, tmp: nat, b: nat, w: Word)
    requires Fit(vs) && i < |vs| && Holding(vs, i, words, tmp, b) && 64 * |words| + b == WIDTH * i && b < 64
    requires w == BitOr(tmp, ShiftLeft(vs[i], b))
    ensures b + WIDTH < 64 ==> Holding(vs, i + 1, words, w, b + WIDTH)
    ensures b + WIDTH == 64 ==> Holding(vs, i + 1, words + [w], 0, 0)
    ensures b + WIDTH > 64 ==> Holding(vs, i + 1, words + [w], ShiftRight(vs[i], 64 - b), b + WIDTH - 64)
  {
    hide Holding, BitOr, ShiftLeft, ShiftRight, Pow2;
    if b + WIDTH <= 64 {
      HoldMore(vs, i, words, tmp, b);
      if b + WIDTH == 64 {
        HoldFull(vs, i + 1, words, w);
      }
    } else {
      HoldAcross(vs, i, words, tmp, b, w);
    }
  }

  lemma HoldNone(vs: seq<nat>)
    ensures Holding(vs, 0, [], 0, 0)
  {
  }

  // ---------------------------------------------------------------- reading the section back

  lemma {:induction false} OrCommutes(a: nat, b: nat)
    ensures BitOr(a, b) == BitOr(b, a)
    decreases a + b
  {
    if a != 0 && b != 0 {
      OrCommutes(a / 2, b / 2);
    }
  }

  lemma {:induction false} OrAtLeast(a: nat, b: nat)
    ensures BitOr(a, b) >= a
    decreases a + b
  {
    if a != 0 && b != 0 {
      OrAtLeast(a / 2, b / 2);
    }
  }

  /** The block a group of bits stands for. */
  function Decoded(v: nat): Block {
    Block(v / 16, v % 16)
  }

  /** A block's value fits its 13 bits exactly if the type is below 512. */
  lemma FitsWidth(b: Block)
    requires InRange(b)
    ensures Encoded(b) < Pow2(WIDTH) <==> b.typeId < 512
  {
    Pow64();
    OrAtLeast(b.typeId * 16, b.data);
    if b.typeId < 512 {
      OrBound(b.typeId * 16, b.data, 13);
    }
  }

  /** Type and data come apart again exactly if the data are below 16. */
  lemma BlockBack(b: Block)
    ensures Decoded(Encoded(b)) == b <==> b.data < 16
  {
    Pow64();
    if b.data < 16 {
      OrCommutes(b.typeId * 16, b.data);
      OrDisjoint(b.data, b.typeId, 4);
    }
  }

  /** The words, back from network byte order, hold every block. */
  lemma SectionBack(blocks: seq<Block>, words: seq<Word>, i: nat)
    requires forall j | 0 <= j < |blocks| :: InRange(blocks[j]) && blocks[j].typeId < 512 && blocks[j].data < 16
    requires i < |blocks| && Number(words) == Packed(EncodedAll(blocks))
    ensures Fit(EncodedAll(blocks)) && Decoded(Unpack(Number(words), i)) == blocks[i]
  {
    forall j | 0 <= j < |blocks| ensures Encoded(blocks[j]) < Pow2(WIDTH) {
      FitsWidth(blocks[j]);
    }
    UnpackPacked(EncodedAll(blocks), i);
    BlockBack(blocks[i]);
  }

  /** And no words at all can give back a block with a larger type or larger data. */
  lemma NeverBack(n: nat, i: nat, b: Block)
    requires Decoded(Unpack(n, i)) == b
    ensures b.typeId < 512 && b.data < 16
  {
    Pow64();
  }

  /** Reading the words back gives this section. */
  ghost predicate ReadsBack(words: seq<Word>, blocks: seq<Block>) {
    forall i | 0 <= i < |blocks| :: Decoded(Unpack(Number(words), i)) == blocks[i]
  }

  /** Types of 9 bits and data of 4 bits: what 13 bits have room for. */
  predicate Roomy(blocks: seq<Block>) {
    forall i | 0 <= i < |blocks| :: blocks[i].typeId < 512 && blocks[i].data < 16
  }

  /** What the encoder makes of a section is read back if and only if every block has room in its 13 bits. */
  lemma SectionBackExactly(blocks: seq<Block>, words: seq<Word>)
    requires forall j | 0 <= j < |blocks| :: InRange(blocks[j])
    requires Fit(EncodedAll(blocks)) ==> Number(words) == Packed(EncodedAll(blocks))
    ensures ReadsBack(words, blocks) <==> Roomy(blocks)
  {
    hide Unpack, Decoded, Number, Packed, Encoded;
    if Roomy(blocks) {
      forall j | 0 <= j < |blocks| ensures Encoded(blocks[j]) < Pow2(WIDTH) {
        FitsWidth(blocks[j]);
      }
      forall i | 0 <= i < |blocks| ensures Decoded(Unpack(Number(words), i)) == blocks[i] {
        SectionBack(blocks, words, i);
      }
    }
    if ReadsBack(words, blocks) {
      forall i | 0 <= i < |blocks| ensures blocks[i].typeId < 512 && blocks[i].data < 16 {
        NeverBack(Number(words), i, blocks[i]);
      }
    }
  }

  /** A section of blocks of type 512 is not read back, and neither is one whose blocks have 16 as data. */
  lemma SectionLost(blocks: seq<Block>, words: seq<Word>)
    requires blocks == seq(BLOCKS, i => Block(512, 0)) || blocks == seq(BLOCKS, i => Block(1, 16))
    requires Fit(EncodedAll(blocks)) ==> Number(words) == Packed(EncodedAll(blocks))
    ensures !ReadsBack(words, blocks)
  {
    hide ReadsBack, EncodedAll, Fit, Number, Packed;
    SectionBackExactly(blocks, words);
    assert !Roomy(blocks) by { assert blocks[0].typeId >= 512 || blocks[0].data >= 16; }
  }
}
