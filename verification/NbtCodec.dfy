/** nbt_parsing.c: the reader with its cursor and `errno`, and the writer with its growing buffer. */
module NbtCodec {
  import opened Wrappers
  import opened Utf8
  import F = NbtFormat

  const NBT_OK := 0
  const NBT_ERR := -1

  // ---------------------------------------------------------------- byte order

  function Reverse(b: Bytes): (r: Bytes)
    ensures |r| == |b| && forall i | 0 <= i < |b| :: r[i] == b[|b| - 1 - i]
  {
    if b == [] then [] else Reverse(b[1..]) + [b[0]]
  }

  /** The number the bytes spell on a little-endian machine. */
  function FromLittle(b: Bytes): nat {
    if b == [] then 0 else b[0] + 256 * FromLittle(b[1..])
  }

  /** Swapping the bytes makes a big-endian number a native one. */
  lemma {:induction false} SwapReads(b: Bytes)
    ensures FromLittle(Reverse(b)) == F.FromBig(b)
  {
    if b != [] {
      var low := b[..|b| - 1];
      SwapReads(low);
      assert Reverse(b) == [b[|b| - 1]] + Reverse(low);
      assert Reverse(b)[1..] == Reverse(low);
    }
  }

  /** swap_bytes, in place, from both ends. */
  method SwapBytes(s: array<Byte>)
    modifies s
    ensures s[..] == Reverse(old(s[..]))
  {
    var b, e := 0, s.Length - 1;
    while b < e
      invariant 0 <= b && b + e == s.Length - 1
      invariant forall i | 0 <= i < s.Length ::
                  s[i] == old(s[i]) || !(b <= i <= e)
      invariant forall i | 0 <= i < s.Length && !(b <= i <= e) :: s[i] == old(s[s.Length - 1 - i])
      decreases e - b
    {
      var t := s[b];
      s[b] := s[e];
      s[e] := t;
      b, e := b + 1, e - 1;
    }
    assert forall i | 0 <= i < s.Length :: s[i] == old(s[s.Length - 1 - i]);
  }

  // ---------------------------------------------------------------- nbt_parse

  class Reader {
    const data: Bytes
    /** The cursor and how much is left. */
    var memory: nat
    var length: nat
    var errno: int

    constructor (data: Bytes)
      ensures Valid() && Rest() == data && errno == NBT_OK
    {
      this.data := data;
      memory, length, errno := 0, |data|, NBT_OK;
    }

    ghost predicate Valid()
      reads this
    {
      memory + length == |data|
    }

    ghost function Rest(): Bytes
      requires Valid()
      reads this
    {
      data[memory..]
    }

    /** READ_GENERIC with memscan. */
    method Scan(n: nat) returns (r: Option<Bytes>)
      requires Valid()
      modifies this`memory, this`length
      ensures Valid()
      ensures r.None? <==> |old(Rest())| < n
      ensures r.None? ==> Rest() == old(Rest())
      ensures r.Some? ==> r.value == old(Rest())[..n] && Rest() == old(Rest())[n..]
    {
      if length < n {
        return None;
      }
      r := Some(data[memory..memory + n]);
      memory, length := memory + n, length - n;
    }

    /** READ_GENERIC with swapped_memscan into a signed integer of `n` bytes. */
    method ScanNumber(n: nat) returns (r: Option<int>)
      requires Valid() && n > 0
      modifies this`memory, this`length
      ensures Valid() && (r.None? ==> Rest() == old(Rest()))
      ensures r.Some? <==> F.ParseNumber(old(Rest()), n).Some?
      ensures r.Some? ==> r.value == F.ParseNumber(old(Rest()), n).value.0 && Rest() == F.ParseNumber(old(Rest()), n).value.1
    {
      var b := Scan(n);
      if b.None? {
        return None;
      }
      var dest := new Byte[n](i requires 0 <= i < n => b.value[i]);
      assert dest[..] == b.value;
      SwapBytes(dest);
      SwapReads(b.value);
      r := Some(F.Signed(FromLittle(dest[..]), n));
    }

    /** The first error stays. */
    method Fail()
      modifies this`errno
      ensures errno != NBT_OK
    {
      if errno == NBT_OK {
        errno := NBT_ERR;
      }
    }

    method ReadString() returns (r: Option<Bytes>)
      requires Valid()
      modifies this
      ensures Valid() && |Rest()| <= |old(Rest())|
      ensures r.Some? <==> F.ParseString(old(Rest())).Some?
      ensures r.Some? ==> r.value == F.ParseString(old(Rest())).value.0 && Rest() == F.ParseString(old(Rest())).value.1
      ensures r.Some? ==> errno == old(errno)
      ensures r.None? ==> errno != NBT_OK
    {
      var n := ScanNumber(2);
      if n.None? || n.value < 0 || length < n.value {
        Fail();
        return None;
      }
      var b := Scan(n.value);
      r := Some(UpToNul(b.value));
    }

    method ReadByteArray() returns (r: Option<F.Payload>)
      requires Valid()
      modifies this
      ensures Valid() && |Rest()| <= |old(Rest())|
      ensures r.Some? <==> F.ParsePayload(F.TAG_BYTE_ARRAY, old(Rest())).Some?
      ensures r.Some? ==> F.ParsePayload(F.TAG_BYTE_ARRAY, old(Rest())) == Some((r.value, Rest()))
      ensures r.Some? ==> errno == old(errno)
      ensures r.None? ==> errno != NBT_OK
    {
      hide F.ParsePayload, F.ParseNumber;
      ByteArrayText(Rest());
      var n := ScanNumber(4);
      if n.None? || n.value < 0 {
        Fail();
        return None;
      }
      var b := Scan(n.value);
      if b.None? {
        Fail();
        return None;
      }
      r := Some(F.ByteArray(b.value));
    }

    /** Every element's bytes are swapped after the whole array is copied. */
    method ReadIntArray() returns (r: Option<F.Payload>)
      requires Valid()
      modifies this
      ensures Valid() && |Rest()| <= |old(Rest())|
      ensures r.Some? <==> F.ParsePayload(F.TAG_INT_ARRAY, old(Rest())).Some?
      ensures r.Some? ==> F.ParsePayload(F.TAG_INT_ARRAY, old(Rest())) == Some((r.value, Rest()))
      ensures r.Some? ==> errno == old(errno)
      ensures r.None? ==> errno != NBT_OK
    {
      var n := ScanNumber(4);
      if n.None? || n.value < 0 {
        Fail();
        return None;
      }
      var b := Scan(4 * n.value);
      if b.None? {
        Fail();
        return None;
      }
      var ints := SwapInts(b.value, n.value);
      r := Some(F.IntArray(ints));
    }

    /** Numbers and everything else that is no tree of its own. */
    method ReadScalar(t: Byte) returns (r: Option<F.Payload>)
      requires Valid() && t != F.TAG_LIST && t != F.TAG_COMPOUND
      modifies this
      ensures Valid() && |Rest()| <= |old(Rest())|
      ensures r.Some? <==> F.ParsePayload(t, old(Rest())).Some?
      ensures r.Some? ==> F.ParsePayload(t, old(Rest())) == Some((r.value, Rest()))
      ensures r.Some? ==> errno == old(errno)
      ensures r.None? ==> errno != NBT_OK
    {
      hide F.ParseString, F.ReadSigned, F.ReadInts;
      r := None;
      if t == F.TAG_BYTE {
        var n := ScanNumber(1);
        r := if n.Some? then Some(F.ByteTag(n.value)) else None;
      } else if t == F.TAG_SHORT {
        var n := ScanNumber(2);
        r := if n.Some? then Some(F.ShortTag(n.value)) else None;
      } else if t == F.TAG_INT {
        var n := ScanNumber(4);
        r := if n.Some? then Some(F.IntTag(n.value)) else None;
      } else if t == F.TAG_LONG {
        var n := ScanNumber(8);
        r := if n.Some? then Some(F.LongTag(n.value)) else None;
      } else if t == F.TAG_FLOAT {
        var b := Scan(4);
        r := if b.Some? then Some(F.FloatTag(b.value)) else None;
      } else if t == F.TAG_DOUBLE {
        var b := Scan(8);
        r := if b.Some? then Some(F.DoubleTag(b.value)) else None;
      } else if t == F.TAG_BYTE_ARRAY {
        r := ReadByteArray();
      } else if t == F.TAG_INT_ARRAY {
        r := ReadIntArray();
      } else if t == F.TAG_STRING {
        var s := ReadString();
        r := if s.Some? then Some(F.Text(s.value)) else None;
      }
      if r.None? {
        Fail();
      }
    }

    /** parse_unnamed_tag: an error anywhere before, even one already set, makes it fail. */
    method ParseUnnamed(t: Byte, name: Option<Bytes>) returns (r: Option<F.Node>)
      requires Valid()
      modifies this
      ensures Valid() && |Rest()| <= |old(Rest())|
      ensures old(errno) == NBT_OK ==>
                var p := F.ParsePayload(t, old(Rest()));
                (r.Some? <==> p.Some?) && (r.Some? ==> r.value == F.Node(name, p.value.0) && Rest() == p.value.1)
      ensures r.Some? <==> errno == NBT_OK
      ensures old(errno) != NBT_OK ==> errno != NBT_OK
      decreases |Rest()|, 3
    {
      hide F.ParseList, F.ParseCompound;
      var payload: Option<F.Payload>;
      if t == F.TAG_LIST {
        payload := ReadList();
      } else if t == F.TAG_COMPOUND {
        payload := ReadCompound();
      } else {
        payload := ReadScalar(t);
      }
      if payload.None? || errno != NBT_OK {
        Fail();
        return None;
      }
      r := Some(F.Node(name, payload.value));
    }

    method ReadList() returns (r: Option<F.Payload>)
      requires Valid()
      modifies this
      ensures Valid() && |Rest()| <= |old(Rest())|
      ensures old(errno) == NBT_OK ==>
                var p := F.ParseList(old(Rest()));
                (r.Some? <==> p.Some?) && (r.Some? ==> r.value == p.value.0 && Rest() == p.value.1)
      ensures old(errno) == NBT_OK ==> (r.Some? <==> errno == NBT_OK)
      ensures old(errno) != NBT_OK ==> errno != NBT_OK
      decreases |Rest()|, 1
    {
      hide F.ParseItems, F.ParsePayload, F.ParseNumber;
      var t := Scan(1);
      if t.None? {
        Fail();
        return None;
      }
      ghost var m := old(Rest())[1..];
      var elems := ScanNumber(4);
      if elems.None? {
        Fail();
        return None;
      }
      var sentinel := if t.value[0] == 0 then F.TAG_COMPOUND else t.value[0];
      ghost var start := Rest();
      var items := ReadItems(t.value[0], elems.value);
      if items.None? {
        return None;
      }
      r := Some(F.List(sentinel, items.value));
    }

    /** The loop of read_list. */
    method ReadItems(t: Byte, elems: int) returns (r: Option<seq<F.Node>>)
      requires Valid()
      modifies this
      ensures Valid() && |Rest()| <= |old(Rest())|
      ensures old(errno) == NBT_OK ==>
                var p := F.ParseItems(t, elems, old(Rest()));
                (r.Some? <==> p.Some?) && (r.Some? ==> r.value == p.value.0 && Rest() == p.value.1)
      ensures old(errno) == NBT_OK ==> (r.Some? <==> errno == NBT_OK)
      ensures old(errno) != NBT_OK ==> errno != NBT_OK
      ensures r.None? ==> errno != NBT_OK
      decreases |Rest()|, 4
    {
      hide F.ParseItems, F.ParsePayload;
      ghost var m := Rest();
      var items: seq<F.Node> := [];
      var i := 0;
      NoItems(t, elems, m);
      while i < elems
        invariant 0 <= i && (i <= elems || i == 0) && Valid() && |Rest()| <= |m|
        invariant old(errno) == NBT_OK ==> errno == NBT_OK && ItemsFrom(t, elems, m, i, items, Rest())
        invariant old(errno) != NBT_OK ==> errno != NBT_OK
        decreases elems - i
      {
        if errno == NBT_OK {
          NextItem(t, elems, m, i, items, Rest());
        }
        var new' := ParseUnnamed(t, None);
        if new'.None? {
          Fail();
          return None;
        }
        items := items + [new'.value];
        i := i + 1;
      }
      if old(errno) == NBT_OK {
        LastItem(t, elems, m, i, items, Rest());
      }
      r := Some(items);
    }

    /** read_compound: named tags until the one that ends it. */
    method ReadCompound() returns (r: Option<F.Payload>)
      requires Valid()
      modifies this
      ensures Valid() && |Rest()| <= |old(Rest())|
      ensures old(errno) == NBT_OK ==>
                var p := F.ParseCompound(old(Rest()));
                (r.Some? <==> p.Some?) && (r.Some? ==> r.value == F.Compound(p.value.0) && Rest() == p.value.1)
      ensures old(errno) == NBT_OK ==> (r.Some? <==> errno == NBT_OK)
      ensures old(errno) != NBT_OK ==> errno != NBT_OK
      decreases |Rest()|, 2
    {
      hide F.ParseCompound, F.ParsePayload, F.ParseString;
      ghost var m := Rest();
      var items: seq<F.Node> := [];
      NoChildren(m);
      while true
        invariant Valid() && |Rest()| <= |m|
        invariant old(errno) == NBT_OK ==> errno == NBT_OK && ChildrenFrom(m, items, Rest())
        invariant old(errno) != NBT_OK ==> errno != NBT_OK
        decreases |Rest()|
      {
        ghost var rest := Rest();
        if errno == NBT_OK {
          NextChild(m, items, rest);
        }
        var t := Scan(1);
        if t.None? {
          Fail();
          return None;
        }
        if t.value[0] == 0 {
          break;
        }
        var name := ReadString();
        if name.None? {
          Fail();
          return None;
        }
        var entry := ParseUnnamed(t.value[0], Some(name.value));
        if entry.None? {
          Fail();
          return None;
        }
        items := items + [entry.value];
      }
      r := Some(F.Compound(items));
    }

    /** parse_named_tag: a bad name does not stop it from reading on, but the error stays. */
    method ParseNamed() returns (r: Option<F.Node>)
      requires Valid() && errno == NBT_OK
      modifies this
      ensures Valid()
      ensures r.Some? <==> ParseAny(old(Rest())).Some?
      ensures r.Some? ==> r.value == ParseAny(old(Rest())).value.0 && Rest() == ParseAny(old(Rest())).value.1
      ensures r.Some? <==> errno == NBT_OK
    {
      hide F.ParsePayload, F.ParseString;
      var t := Scan(1);
      if t.None? {
        Fail();
        return None;
      }
      var name := ReadString();
      r := ParseUnnamed(t.value[0], name);
    }
  }

  /** parse_named_tag on any input, the empty one included. */
  function ParseAny(m: Bytes): F.Parsed<F.Node> {
    if m == [] then None else F.ParseNamed(m)
  }

  /** nbt_parse */
  method NbtParse(mem: Bytes) returns (r: Option<F.Node>)
    ensures r == F.ParseTree(mem)
  {
    var reader := new Reader(mem);
    r := reader.ParseNamed();
  }

  lemma ByteArrayText(m: Bytes)
    ensures var n := F.ParseNumber(m, 4);
            F.ParsePayload(F.TAG_BYTE_ARRAY, m) ==
            if n.None? || n.value.0 < 0 || |n.value.1| < n.value.0 then None
            else Some((F.ByteArray(n.value.1[..n.value.0]), n.value.1[n.value.0..]))
  {
    hide F.ParseNumber;
  }

  ghost predicate ChildrenFrom(m: Bytes, items: seq<F.Node>, rest: Bytes) {
    var more := F.ParseCompound(rest);
    F.ParseCompound(m) == if more.Some? then Some((items + more.value.0, more.value.1)) else None
  }

  lemma NoChildren(m: Bytes)
    ensures ChildrenFrom(m, [], m)
  {
    var all := F.ParseCompound(m);
    assert all.Some? ==> [] + all.value.0 == all.value.0;
  }

  lemma NextChild(m: Bytes, items: seq<F.Node>, rest: Bytes)
    requires ChildrenFrom(m, items, rest)
    ensures rest == [] ==> F.ParseCompound(m).None?
    ensures rest != [] && rest[0] == 0 ==> F.ParseCompound(m) == Some((items, rest[1..]))
    ensures rest != [] && rest[0] != 0 ==>
              var child := F.ParseNamed(rest);
              if child.None? then F.ParseCompound(m).None?
              else ChildrenFrom(m, items + [child.value.0], child.value.1)
  {
    hide F.ParseNamed;
    assert items + [] == items;
    if rest != [] && rest[0] != 0 && F.ParseNamed(rest).Some? {
      var child := F.ParseNamed(rest).value;
      var more := F.ParseCompound(child.1);
      if more.Some? {
        assert items + ([child.0] + more.value.0) == items + [child.0] + more.value.0;
      }
    }
  }

  /** With `i` items read the rest decides what the list will be. */
  ghost predicate ItemsFrom(t: Byte, elems: int, m: Bytes, i: int, items: seq<F.Node>, rest: Bytes) {
    var more := F.ParseItems(t, elems - i, rest);
    F.ParseItems(t, elems, m) == if more.Some? then Some((items + more.value.0, more.value.1)) else None
  }

  lemma NoItems(t: Byte, elems: int, m: Bytes)
    ensures ItemsFrom(t, elems, m, 0, [], m)
  {
    var all := F.ParseItems(t, elems, m);
    assert all.Some? ==> [] + all.value.0 == all.value.0;
  }

  lemma NextItem(t: Byte, elems: int, m: Bytes, i: int, items: seq<F.Node>, rest: Bytes)
    requires i < elems && ItemsFrom(t, elems, m, i, items, rest)
    ensures var p := F.ParsePayload(t, rest);
            if p.None? then F.ParseItems(t, elems, m).None?
            else ItemsFrom(t, elems, m, i + 1, items + [F.Node(None, p.value.0)], p.value.1)
  {
    hide F.ParsePayload;
    var p := F.ParsePayload(t, rest);
    if p.Some? {
      var more := F.ParseItems(t, elems - i - 1, p.value.1);
      var node := F.Node(None, p.value.0);
      if more.Some? {
        assert items + ([node] + more.value.0) == items + [node] + more.value.0;
      }
    }
  }

  lemma LastItem(t: Byte, elems: int, m: Bytes, i: int, items: seq<F.Node>, rest: Bytes)
    requires i >= elems && ItemsFrom(t, elems, m, i, items, rest)
    ensures F.ParseItems(t, elems, m) == Some((items, rest))
  {
    assert items + [] == items;
  }

  /** The in-place swap of an array of 32-bit integers, element by element. */
  method SwapInts(b: Bytes, n: nat) returns (ints: seq<int>)
    requires |b| == 4 * n
    ensures ints == F.ReadInts(b)
  {
    hide F.ReadInts;
    ints := [];
    var i := 0;
    NoInts(b, n);
    while i < n
      invariant 0 <= i <= n
      invariant F.ReadInts(b) == ints + F.ReadInts(b[4 * i..])
    {
      NextInt(b, i);
      var elem := new Byte[4](j requires 0 <= j < 4 => b[4 * i + j]);
      assert elem[..] == b[4 * i..][..4];
      SwapBytes(elem);
      SwapReads(b[4 * i..][..4]);
      var next := F.Signed(FromLittle(elem[..]), 4);
      Onward(ints, next, F.ReadInts(b[4 * (i + 1)..]));
      ints := ints + [next];
      i := i + 1;
    }
    assert ints + [] == ints;
  }

  lemma NoInts(b: Bytes, n: nat)
    requires |b| == 4 * n
    ensures F.ReadInts(b) == [] + F.ReadInts(b[4 * 0..]) && F.ReadInts(b[4 * n..]) == []
  {
    assert b[0..] == b;
  }

  lemma NextInt(b: Bytes, i: nat)
    requires 4 * i + 4 <= |b|
    ensures F.ReadInts(b[4 * i..]) == [F.ReadSigned(b[4 * i..][..4])] + F.ReadInts(b[4 * (i + 1)..])
  {
    assert b[4 * i..][4..] == b[4 * (i + 1)..];
  }

  lemma Onward<T>(done: seq<T>, x: T, more: seq<T>)
    ensures done + ([x] + more) == done + [x] + more
  {
  }
}
