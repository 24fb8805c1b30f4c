/**
 UTF-8 as jansson encodes and checks it (RFC 3629). Bytes and code points are numbers: `x & 0x3F`
 is `x % 64`, `x >> 6` is `x / 64`, and an or of disjoint bits is a sum.
 */
module Utf8 {
  import opened Wrappers

  type Byte = b: int | 0 <= b < 256
  type Bytes = seq<Byte>

  /** The bytes of a C string: those before its first NUL. */
  function UpToNul(data: Bytes): Bytes {
    if data == [] || data[0] == 0 then [] else [data[0]] + UpToNul(data[1..])
  }

  lemma {:induction false} NoNul(b: Bytes)
    requires 0 !in b
    ensures UpToNul(b) == b
  {
    if b != [] {
      NoNul(b[1..]);
    }
  }

  /** A Unicode scalar value: a code point that is not a surrogate. */
  predicate Scalar(c: int) {
    0 <= c <= 0x10FFFF && !(0xD800 <= c <= 0xDFFF)
  }

  /** How many bytes a code point takes. */
  function Size(c: int): nat {
    if c < 0x80 then 1 else if c < 0x800 then 2 else if c < 0x10000 then 3 else 4
  }

  /** The encoding of section 3 of RFC 3629, for surrogates too. */
  function Encode(c: int): Bytes
    requires 0 <= c <= 0x10FFFF
  {
    if c < 0x80 then [c]
    else if c < 0x800 then [0xC0 + c / 64, 0x80 + c % 64]
    else if c < 0x10000 then [0xE0 + c / 64 / 64, 0x80 + c / 64 % 64, 0x80 + c % 64]
    else [0xF0 + c / 64 / 64 / 64, 0x80 + c / 64 / 64 % 64, 0x80 + c / 64 % 64, 0x80 + c % 64]
  }

  /** The table of section 3 of RFC 3629: the first byte's range, and six bits in every byte that follows. */
  lemma EncodeTable(c: int)
    requires 0 <= c <= 0x10FFFF
    ensures var e: seq<int> := Encode(c);
            && (forall i | 1 <= i < |e| :: 0x80 <= e[i] <= 0xBF)
            && (c <= 0x7F ==> e == [c])
            && (0x80 <= c <= 0x7FF ==> |e| == 2 && 0xC2 <= e[0] <= 0xDF && c == (e[0] - 0xC0) * 0x40 + (e[1] - 0x80))
            && (0x800 <= c <= 0xFFFF ==>
                  |e| == 3 && 0xE0 <= e[0] <= 0xEF && c == (e[0] - 0xE0) * 0x1000 + (e[1] - 0x80) * 0x40 + (e[2] - 0x80))
            && (0x10000 <= c ==>
                  |e| == 4 && 0xF0 <= e[0] <= 0xF4 &&
                  c == (e[0] - 0xF0) * 0x40000 + (e[1] - 0x80) * 0x1000 + (e[2] - 0x80) * 0x40 + (e[3] - 0x80))
  {
    Sextets(c);
  }

  /** Code points that can be encoded: all but the surrogates. */
  lemma ScalarRange(c: int)
    ensures Scalar(c) <==> 0 <= c <= 0xD7FF || 0xE000 <= c <= 0x10FFFF
  {
  }

  function EncodeAll(cs: seq<int>): Bytes
    requires forall i | 0 <= i < |cs| :: 0 <= cs[i] <= 0x10FFFF
  {
    if cs == [] then [] else Encode(cs[0]) + EncodeAll(cs[1..])
  }

  /** utf8_encode: writes at `at`, or refuses what is not a code point. */
  method Utf8Encode(codepoint: int, buffer: array<Byte>, at: nat) returns (ok: bool, size: nat)
    requires 0 <= codepoint <= 0x10FFFF ==> at + Size(codepoint) <= buffer.Length
    modifies buffer
    ensures ok <==> 0 <= codepoint <= 0x10FFFF
    ensures ok ==> size == Size(codepoint)
    ensures ok ==> buffer[..] == old(buffer[..at]) + Encode(codepoint) + old(buffer[at + size..])
    ensures !ok ==> buffer[..] == old(buffer[..])
  {
    hide Encode;
    ok, size := true, 0;
    ghost var before := buffer[..];
    EncodeMasked(codepoint);
    if codepoint < 0 {
      ok := false;
    } else if codepoint < 0x80 {
      buffer[at] := codepoint;
      size := 1;
    } else if codepoint < 0x800 {
      buffer[at] := 0xC0 + codepoint / 64 % 32;
      buffer[at + 1] := 0x80 + codepoint % 64;
      size := 2;
    } else if codepoint < 0x10000 {
      buffer[at] := 0xE0 + codepoint / 4096 % 16;
      buffer[at + 1] := 0x80 + codepoint / 64 % 64;
      buffer[at + 2] := 0x80 + codepoint % 64;
      size := 3;
    } else if codepoint <= 0x10FFFF {
      buffer[at] := 0xF0 + codepoint / 262144 % 8;
      buffer[at + 1] := 0x80 + codepoint / 4096 % 64;
      buffer[at + 2] := 0x80 + codepoint / 64 % 64;
      buffer[at + 3] := 0x80 + codepoint % 64;
      size := 4;
    } else {
      ok := false;
    }
    if ok {
      Spliced(before, buffer[..], at, Encode(codepoint));
    }
  }

  /** The masks of utf8_encode take nothing away. */
  lemma EncodeMasked(c: int)
    ensures 0 <= c < 0x80 ==> Encode(c) == [c]
    ensures 0x80 <= c < 0x800 ==> Encode(c) == [0xC0 + c / 64 % 32, 0x80 + c % 64]
    ensures 0x800 <= c < 0x10000 ==> Encode(c) == [0xE0 + c / 4096 % 16, 0x80 + c / 64 % 64, 0x80 + c % 64]
    ensures 0x10000 <= c <= 0x10FFFF ==>
              Encode(c) == [0xF0 + c / 262144 % 8, 0x80 + c / 4096 % 64, 0x80 + c / 64 % 64, 0x80 + c % 64]
  {
    Nested(c);
  }

  lemma Spliced(before: Bytes, after: Bytes, at: nat, e: Bytes)
    requires |before| == |after| && at + |e| <= |before|
    requires forall i | 0 <= i < |e| :: after[at + i] == e[i]
    requires forall i | 0 <= i < |before| && !(at <= i < at + |e|) :: after[i] == before[i]
    ensures after == before[..at] + e + before[at + |e|..]
  {
    assert forall i | at <= i < at + |e| :: after[i] == e[i - at];
  }

  /** utf8_check_first: the length a first byte announces, 0 for a byte that cannot come first. */
  function CheckFirst(u: Byte): (n: nat)
    ensures n <= 4
    ensures forall c | Scalar(c) && Encode(c)[0] == u :: n == Size(c)
  {
    if u < 0x80 then 1
    else if 0x80 <= u <= 0xBF then 0
    else if u == 0xC0 || u == 0xC1 then 0
    else if 0xC2 <= u <= 0xDF then 2
    else if 0xE0 <= u <= 0xEF then 3
    else if 0xF0 <= u <= 0xF4 then 4
    else 0
  }

  predicate Continuation(u: Byte) {
    0x80 <= u <= 0xBF
  }

  /** What is left of the first byte of a sequence of `size` bytes once its marker is masked. */
  function Lead(u: Byte, size: nat): int {
    u % if size == 2 then 32 else if size == 3 then 16 else 8
  }

  /** The payload bits of the first `i` bytes. */
  function Payload(s: Bytes, size: nat, i: nat): int
    requires 1 <= i <= |s|
  {
    if i == 1 then Lead(s[0], size) else 64 * Payload(s, size, i - 1) + s[i - 1] - 0x80
  }

  /** Masking a continuation byte or a first byte takes its marker away. */
  lemma Masked(u: Byte)
    ensures Continuation(u) ==> u % 64 == u - 0x80
    ensures CheckFirst(u) == 2 ==> Lead(u, 2) == u - 0xC0
    ensures CheckFirst(u) == 3 ==> Lead(u, 3) == u - 0xE0
    ensures CheckFirst(u) == 4 ==> Lead(u, 4) == u - 0xF0
  {
  }

  /** 0 is the answer for exactly the bytes that no encoding starts with. */
  lemma FirstBytes(u: Byte)
    ensures CheckFirst(u) == 0 <==> forall c | Scalar(c) :: Encode(c)[0] != u
  {
    if CheckFirst(u) > 0 {
      var c := SomeCharacter(u);
    }
  }

  /** A code point whose encoding starts with the byte. */
  lemma SomeCharacter(u: Byte) returns (c: int)
    requires CheckFirst(u) > 0
    ensures Scalar(c) && Encode(c)[0] == u
  {
    c := if u < 0x80 then u
         else if u < 0xE0 then (u - 0xC0) * 64
         else if u == 0xE0 then 0x800
         else if u < 0xF0 then (u - 0xE0) * 4096
         else if u == 0xF0 then 0x10000
         else (u - 0xF0) * 262144;
    Nested(c);
  }

  /** `s` starts with an encoding of `c` that is `n` bytes long. */
  ghost predicate Starts(s: Bytes, c: int, n: nat) {
    Scalar(c) && n == Size(c) && Encode(c) <= s
  }

  lemma EncodeSize(c: int)
    requires Scalar(c)
    ensures |Encode(c)| == Size(c) == CheckFirst(Encode(c)[0])
    ensures forall j | 1 <= j < Size(c) :: Continuation(Encode(c)[j])
  {
  }

  /** Where a byte is no continuation byte, no encoding of the announced length starts. */
  lemma NotContinued(s: Bytes, size: nat, i: nat)
    requires 1 <= i < size <= |s| && !Continuation(s[i])
    ensures forall c :: !Starts(s, c, size)
  {
    forall c | Scalar(c) && Size(c) == size ensures !(Encode(c) <= s) {
      EncodeSize(c);
      assert Encode(c)[i] != s[i];
    }
  }

  /** The checks that are left once the payload bits are put together. */
  predicate InRange(value: int, size: nat) {
    Scalar(value) && Size(value) == size
  }

  lemma Sextet(q: int, r: int)
    requires 0 <= r < 64
    ensures (64 * q + r) / 64 == q && (64 * q + r) % 64 == r
  {
  }

  lemma Nested(c: int)
    ensures c / 4096 == c / 64 / 64 && c / 262144 == c / 64 / 64 / 64
  {
  }

  lemma PayloadPrefix(s: Bytes, e: Bytes, size: nat, i: nat)
    requires 1 <= i <= |e| && e <= s
    ensures Payload(s, size, i) == Payload(e, size, i)
  {
    if i > 1 {
      PayloadPrefix(s, e, size, i - 1);
    }
  }

  /** The payload, spelled out. */
  lemma PayloadIs(s: Bytes, size: nat)
    requires 2 <= size <= |s| && size <= 4
    ensures var a := Lead(s[0], size);
            && (size == 2 ==> Payload(s, size, size) == 64 * a + s[1] - 0x80)
            && (size == 3 ==> Payload(s, size, size) == 64 * (64 * a + s[1] - 0x80) + s[2] - 0x80)
            && (size == 4 ==> Payload(s, size, size) == 64 * (64 * (64 * a + s[1] - 0x80) + s[2] - 0x80) + s[3] - 0x80)
  {
    assert Payload(s, size, 1) == Lead(s[0], size);
    assert Payload(s, size, 2) == 64 * Payload(s, size, 1) + s[1] - 0x80;
    if size >= 3 {
      assert Payload(s, size, 3) == 64 * Payload(s, size, 2) + s[2] - 0x80;
    }
    if size == 4 {
      assert Payload(s, size, 4) == 64 * Payload(s, size, 3) + s[3] - 0x80;
    }
  }

  lemma Sextets(c: int)
    ensures 64 * (c / 64) + c % 64 == c
    ensures 64 * (64 * (c / 64 / 64) + c / 64 % 64) + c % 64 == c
    ensures 64 * (64 * (64 * (c / 64 / 64 / 64) + c / 64 / 64 % 64) + c / 64 % 64) + c % 64 == c
  {
  }

  /** The payload of an encoding is the code point. */
  lemma PayloadOf(c: int)
    requires Scalar(c) && Size(c) > 1
    ensures Payload(Encode(c), Size(c), Size(c)) == c
  {
    hide Payload, Lead;
    var e, n := Encode(c), Size(c);
    EncodeSize(c);
    PayloadIs(e, n);
    Masked(e[0]);
    Sextets(c);
  }

  lemma EncodeInjective(c: int, d: int)
    requires Scalar(c) && Scalar(d) && Encode(c) == Encode(d)
    ensures c == d
  {
    hide Encode;
    EncodeSize(c);
    EncodeSize(d);
    if Size(c) > 1 {
      PayloadOf(c);
      PayloadOf(d);
    } else {
      assert c == Encode(c)[0] && d == Encode(d)[0] by { OneByte(c); OneByte(d); }
    }
  }

  lemma OneByte(c: int)
    requires Scalar(c) && Size(c) == 1
    ensures Encode(c) == [c]
  {
  }

  lemma EncodeTwo(a: int, x: int)
    requires 2 <= a < 32 && 0 <= x < 64
    ensures Size(64 * a + x) == 2 && Encode(64 * a + x) == [0xC0 + a, 0x80 + x]
  {
    Sextet(a, x);
  }

  lemma EncodeThree(a: int, x: int, y: int)
    requires 0 <= a < 16 && 0 <= x < 64 && 0 <= y < 64 && 0x800 <= 64 * (64 * a + x) + y
    ensures Size(64 * (64 * a + x) + y) == 3 && Encode(64 * (64 * a + x) + y) == [0xE0 + a, 0x80 + x, 0x80 + y]
  {
    Sextet(a, x);
    Sextet(64 * a + x, y);
  }

  lemma EncodeFour(a: int, x: int, y: int, z: int)
    requires 0 <= a < 8 && 0 <= x < 64 && 0 <= y < 64 && 0 <= z < 64
    requires 0x10000 <= 64 * (64 * (64 * a + x) + y) + z <= 0x10FFFF
    ensures var c := 64 * (64 * (64 * a + x) + y) + z;
            Size(c) == 4 && Encode(c) == [0xF0 + a, 0x80 + x, 0x80 + y, 0x80 + z]
  {
    Sextet(a, x);
    Sextet(64 * a + x, y);
    Sextet(64 * (64 * a + x) + y, z);
  }

  /** A payload in range encodes to the bytes it was put together from. */
  lemma EncodePayload(s: Bytes, size: nat)
    requires 2 <= size <= |s| && size == CheckFirst(s[0])
    requires forall j | 1 <= j < size :: Continuation(s[j])
    requires InRange(Payload(s, size, size), size)
    ensures Encode(Payload(s, size, size)) == s[..size]
  {
    hide Encode, Payload, Lead;
    PayloadIs(s, size);
    Masked(s[0]);
    var a := Lead(s[0], size);
    if size == 2 {
      EncodeTwo(a, s[1] - 0x80);
    } else if size == 3 {
      EncodeThree(a, s[1] - 0x80, s[2] - 0x80);
    } else {
      EncodeFour(a, s[1] - 0x80, s[2] - 0x80, s[3] - 0x80);
    }
  }

  /** The payload is the one code point these bytes can encode. */
  lemma Assembled(s: Bytes, size: nat)
    requires 2 <= size <= |s| && size == CheckFirst(s[0])
    requires forall j | 1 <= j < size :: Continuation(s[j])
    ensures var value := Payload(s, size, size);
            && (forall c :: Starts(s, c, size) ==> c == value)
            && (Starts(s, value, size) <==> InRange(value, size))
            && (Size(value) <= size)
  {
    hide Encode;
    forall c | Starts(s, c, size) ensures c == Payload(s, size, size) {
      EncodeSize(c);
      PayloadOf(c);
      PayloadPrefix(s, Encode(c), size, size);
    }
    if InRange(Payload(s, size, size), size) {
      EncodePayload(s, size);
    }
    PayloadBound(s, size);
  }

  lemma PayloadBound(s: Bytes, size: nat)
    requires 2 <= size <= |s| && size <= 4
    requires forall j | 1 <= j < size :: Continuation(s[j])
    ensures 0 <= Payload(s, size, size) && Size(Payload(s, size, size)) <= size
  {
    var p1: int, p2: int := Payload(s, size, 1), Payload(s, size, 2);
    assert p2 == 64 * p1 + (s[1] - 0x80);
    if size >= 3 {
      assert Payload(s, size, 3) == 64 * p2 + (s[2] - 0x80);
    }
  }

  lemma RangeChecks(value: int, size: nat)
    requires 2 <= size <= 4 && 0 <= value && Size(value) <= size
    ensures InRange(value, size) <==>
              value <= 0x10FFFF && !(0xD800 <= value <= 0xDFFF)
              && !((size == 2 && value < 0x80) || (size == 3 && value < 0x800) || (size == 4 && value < 0x10000))
  {
  }

  /** The check for any size: continuation bytes, and a code point of that size. */
  predicate Checked(s: Bytes, size: nat)
    requires |s| >= size && |s| >= 1
  {
    && 2 <= size <= 4 && (forall j | 1 <= j < size :: Continuation(s[j]))
    && InRange(Payload(s, size, size), size)
  }

  lemma CheckedStarts(s: Bytes, size: nat)
    requires |s| >= size && |s| >= 1
    ensures size == CheckFirst(s[0]) ==> (Checked(s, size) <==> size >= 2 && exists c :: Starts(s, c, size))
    ensures size == CheckFirst(s[0]) && Checked(s, size) ==> Starts(s, Payload(s, size, size), size)
    ensures 2 <= size <= 4 && (forall j | 1 <= j < size :: Continuation(s[j])) ==>
              0 <= Payload(s, size, size) && Size(Payload(s, size, size)) <= size
  {
    hide Starts;
    if 2 <= size <= 4 {
      if i :| 1 <= i < size && !Continuation(s[i]) {
        if size == CheckFirst(s[0]) {
          NotContinued(s, size, i);
        }
      } else {
        PayloadBound(s, size);
        if size == CheckFirst(s[0]) {
          Assembled(s, size);
        }
      }
    }
  }

  /**
   utf8_check_full. If the caller has taken `size` from the first byte, as all callers do, the answer is whether the
   buffer starts with an encoding of that length.
   */
  method CheckFull(buffer: Bytes, size: nat) returns (ok: bool, codepoint: int)
    requires |buffer| >= size && |buffer| >= 1
    ensures ok <==> Checked(buffer, size)
    ensures ok ==> codepoint == Payload(buffer, size, size)
    ensures size == CheckFirst(buffer[0]) ==> (ok <==> size >= 2 && exists c :: Starts(buffer, c, size))
    ensures size == CheckFirst(buffer[0]) && ok ==> Starts(buffer, codepoint, size)
  {
    CheckedStarts(buffer, size);
    hide InRange;
    hide Starts;
    var value: int := 0;
    var u := buffer[0];
    ok, codepoint := false, 0;
    Masked(u);
    if size == 2 {
      value := u % 32;
    } else if size == 3 {
      value := u % 16;
    } else if size == 4 {
      value := u % 8;
    } else {
      return;
    }
    var i := 1;
    while i < size
      invariant 1 <= i <= size
      invariant value == Payload(buffer, size, i)
      invariant forall j | 1 <= j < i :: Continuation(buffer[j])
    {
      u := buffer[i];
      if u < 0x80 || u > 0xBF {
        return;
      }
      Masked(u);
      value := value * 64 + u % 64;
      i := i + 1;
    }
    RangeChecks(value, size);
    if value > 0x10FFFF {
      return;
    } else if 0xD800 <= value <= 0xDFFF {
      return;
    } else if (size == 2 && value < 0x80) || (size == 3 && value < 0x800) || (size == 4 && value < 0x10000) {
      return;
    }
    return true, value;
  }

  // ---------------------------------------------------------------- whole strings

  lemma StartsUnique(s: Bytes, c: int, d: int, n: nat, m: nat)
    requires Starts(s, c, n) && Starts(s, d, m)
    ensures c == d && n == m
  {
    EncodeSize(c);
    EncodeSize(d);
    assert s[0] == Encode(c)[0] && s[0] == Encode(d)[0];
    assert Encode(c) == s[..n] && Encode(d) == s[..m];
    EncodeInjective(c, d);
  }

  /** The scalar value whose encoding starts the text, if there is one. */
  ghost function First(s: Bytes): (r: Option<int>)
    ensures r.Some? ==> Starts(s, r.value, Size(r.value)) && Size(r.value) <= |s|
    ensures r.None? ==> forall c :: !Starts(s, c, Size(c))
  {
    if exists c :: Starts(s, c, Size(c)) then
      var c :| Starts(s, c, Size(c));
      EncodeSize(c);
      Some(c)
    else None
  }

  lemma FirstIs(s: Bytes, c: int, n: nat)
    requires Starts(s, c, n)
    ensures First(s) == Some(c) && n == Size(c)
  {
    StartsUnique(s, c, First(s).value, n, Size(First(s).value));
  }

  /** A sequence of encodings of scalar values. */
  ghost predicate Valid(s: Bytes) {
    s == [] || (First(s).Some? && Valid(s[Size(First(s).value)..]))
  }

  ghost function Decode(s: Bytes): seq<int>
    requires Valid(s)
  {
    if s == [] then [] else [First(s).value] + Decode(s[Size(First(s).value)..])
  }

  predicate Scalars(cs: seq<int>) {
    forall i | 0 <= i < |cs| :: Scalar(cs[i])
  }

  /** What is checked valid is the encoding of the code points it decodes to ... */
  lemma {:induction false} DecodeEncode(s: Bytes)
    requires Valid(s)
    ensures Scalars(Decode(s)) && EncodeAll(Decode(s)) == s
  {
    hide Encode, First;
    if s != [] {
      var c := First(s).value;
      var n := Size(c);
      EncodeSize(c);
      DecodeEncode(s[n..]);
      assert Encode(c) == s[..n] && s == s[..n] + s[n..];
      assert Decode(s)[0] == c && Decode(s)[1..] == Decode(s[n..]);
    }
  }

  /** ... and every encoding is valid and decodes to what was encoded, in only one way. */
  lemma {:induction false} EncodeDecode(cs: seq<int>)
    requires Scalars(cs)
    ensures Valid(EncodeAll(cs)) && Decode(EncodeAll(cs)) == cs
  {
    hide Encode, Valid, Decode;
    if cs == [] {
      NothingDecoded();
    } else {
      EncodeDecode(cs[1..]);
      DecodeFirst(cs[0], EncodeAll(cs[1..]));
    }
  }

  lemma NothingDecoded()
    ensures Valid([]) && Decode([]) == []
  {
  }

  lemma DecodeFirst(c: int, more: Bytes)
    requires Scalar(c) && Valid(more)
    ensures Valid(Encode(c) + more) && Decode(Encode(c) + more) == [c] + Decode(more)
  {
    EncodeSize(c);
    hide Encode;
    FirstIs(Encode(c) + more, c, Size(c));
    assert (Encode(c) + more)[Size(c)..] == more;
  }

  /** utf8_iterate: the code point at the front, and how far to go on. */
  method Iterate(buffer: Bytes) returns (ok: bool, count: nat, codepoint: int)
    ensures buffer == [] ==> ok && count == 0
    ensures buffer != [] ==> (ok <==> First(buffer).Some?)
    ensures buffer != [] && ok ==> First(buffer) == Some(codepoint) && count == Size(codepoint) <= |buffer|
  {
    ok, count, codepoint := true, 0, 0;
    if |buffer| == 0 {
      return;
    }
    count := CheckFirst(buffer[0]);
    FirstLength(buffer);
    if count == 0 {
      ok := false;
    } else if count == 1 {
      codepoint := buffer[0];
      FirstIs(buffer, codepoint, 1);
    } else if count > |buffer| {
      ok := false;
    } else {
      ok, codepoint := CheckFull(buffer, count);
      if ok {
        FirstIs(buffer, codepoint, count);
      }
    }
  }

  /** The first byte settles how long an encoding is. */
  lemma FirstLength(s: Bytes)
    requires s != []
    ensures First(s).Some? ==> Starts(s, First(s).value, CheckFirst(s[0])) && CheckFirst(s[0]) <= |s|
  {
    if First(s).Some? {
      EncodeSize(First(s).value);
      assert s[0] == Encode(First(s).value)[0];
    }
  }

  lemma ValidStep(s: Bytes, i: nat, c: int, n: nat)
    requires i <= |s| && Starts(s[i..], c, n)
    ensures i + n <= |s| && (Valid(s[i..]) <==> Valid(s[i + n..]))
  {
    FirstIs(s[i..], c, n);
    assert s[i..][n..] == s[i + n..];
  }

  /** utf8_check_string. */
  method CheckString(s: Bytes) returns (ok: bool)
    ensures ok <==> Valid(s)
  {
    hide Starts, Encode;
    var i := 0;
    while i < |s|
      invariant 0 <= i <= |s| && (Valid(s) <==> Valid(s[i..]))
    {
      var count := CheckFirst(s[i]);
      FirstLength(s[i..]);
      if count == 0 {
        return false;
      } else if count > 1 {
        if count > |s| - i {
          return false;
        }
        var full, c := CheckFull(s[i..], count);
        if !full {
          return false;
        }
        ValidStep(s, i, c, count);
        i := i + count - 1;
      } else {
        OneByte(s[i]);
        ValidStep(s, i, s[i], 1);
      }
      i := i + 1;
    }
    ok := true;
  }
}
