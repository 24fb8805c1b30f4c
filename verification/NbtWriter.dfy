/** The NBT writer and the buffer it appends to. */
module NbtWriter {
  import opened Utf8
  import opened NbtCodec
  import F = NbtFormat

  // ---------------------------------------------------------------- buffer.c

  class Buffer {
    var data: array<Byte>
    var len: nat

    ghost predicate Valid()
      reads this
    {
      len <= data.Length
    }

    ghost function Contents(): Bytes
      requires Valid()
      reads this, data
    {
      data[..len]
    }

    /** BUFFER_INIT: no memory yet. */
    constructor ()
      ensures Valid() && Contents() == [] && fresh(data)
    {
      data := new Byte[0];
      len := 0;
    }

    /** buffer_reserve: the first kilobyte, then doubling; realloc keeps the old bytes. */
    method Reserve(amount: nat)
      requires Valid()
      modifies this`data
      ensures Valid() && Contents() == old(Contents()) && data.Length >= amount
      ensures data == old(data) || fresh(data)
    {
      var cap := data.Length;
      if cap == 0 {
        cap := 1024;
      }
      while cap < amount
        invariant cap >= data.Length && cap > 0
      {
        cap := cap * 2;
      }
      if cap > data.Length {
        var kept := data[..len];
        data := new Byte[cap](i => if 0 <= i < |kept| then kept[i] else 0);
      }
    }

    /** buffer_append */
    method Append(b: Bytes)
      requires Valid()
      modifies this, data
      ensures Valid() && Contents() == old(Contents()) + b
      ensures data == old(data) || fresh(data)
    {
      Reserve(len + |b|);
      var i := 0;
      while i < |b|
        invariant 0 <= i <= |b| && len == old(len) && len + |b| <= data.Length
        invariant data[..len + i] == old(Contents()) + b[..i]
        invariant data == old(data) || fresh(data)
      {
        data[len + i] := b[i];
        assert data[..len + (i + 1)] == data[..len + i] + [b[i]];
        i := i + 1;
      }
      len := len + |b|;
    }
  }

  // ---------------------------------------------------------------- what the writer accepts

  /** list_is_homogenous: 0 for a list of several types. */
  function Homogenous(sentinel: Byte, items: seq<F.Node>): Byte {
    if forall i | 0 <= i < |items| :: F.Type(items[i].payload) == F.ListType(sentinel, items)
    then F.ListType(sentinel, items) else 0
  }

  predicate NodeWritable(n: F.Node) {
    (n.name.Some? ==> F.TextOk(n.name.value)) && PayloadWritable(n.payload)
  }

  predicate PayloadWritable(p: F.Payload) {
    match p
    case Text(s) => F.TextOk(s)
    case List(sentinel, items) =>
      && |items| <= F.MAX_LENGTH && Homogenous(sentinel, items) != 0
      && forall i | 0 <= i < |items| :: NodeWritable(items[i])
    case Compound(items) => forall i | 0 <= i < |items| :: NodeWritable(items[i])
    case _ => true
  }

  /** Strings in memory end at their NUL, so the strings of the model have none. */
  predicate CStrings(n: F.Node) {
    (n.name.Some? ==> 0 !in n.name.value) &&
    match n.payload
    case Text(s) => 0 !in s
    case List(_, items) => forall i | 0 <= i < |items| :: CStrings(items[i])
    case Compound(items) => forall i | 0 <= i < |items| :: CStrings(items[i])
    case _ => true
  }

  /** A well-formed tree is accepted. */
  lemma {:induction false} OkWritable(n: F.Node, named: bool)
    requires F.NodeOk(n, named)
    ensures NodeWritable(n) && CStrings(n)
  {
    hide F.InWidth;
    match n.payload
    case List(_, items) =>
      forall i | 0 <= i < |items| ensures NodeWritable(items[i]) && CStrings(items[i]) {
        OkWritable(items[i], false);
      }
    case Compound(items) =>
      forall i | 0 <= i < |items| ensures NodeWritable(items[i]) && CStrings(items[i]) {
        OkWritable(items[i], true);
      }
    case _ =>
  }

  // ---------------------------------------------------------------- nbt_dump_binary

  /** A number as a little-endian machine holds it. */
  function ToLittle(n: nat, k: nat): (b: Bytes)
    ensures |b| == k
  {
    if k == 0 then [] else [n % 256] + ToLittle(n / 256, k - 1)
  }

  lemma {:induction false} SwapWrites(n: nat, k: nat)
    ensures Reverse(ToLittle(n, k)) == F.ToBig(n, k)
  {
    if k > 0 {
      SwapWrites(n / 256, k - 1);
      assert ToLittle(n, k)[1..] == ToLittle(n / 256, k - 1);
    }
  }

  /** DUMP_NUM and the length fields: the bytes of a copy are swapped and appended. */
  method DumpNumber(n: int, k: nat, b: Buffer)
    requires b.Valid()
    modifies b, b.data
    ensures b.Valid() && b.Contents() == old(b.Contents()) + F.NumberBytes(n, k)
    ensures b.data == old(b.data) || fresh(b.data)
  {
    var native := ToLittle(F.Unsigned(n, k), k);
    var temp := new Byte[k](i requires 0 <= i < k => native[i]);
    assert temp[..] == native;
    SwapBytes(temp);
    SwapWrites(F.Unsigned(n, k), k);
    b.Append(temp[..]);
  }

  method DumpString(s: Bytes, b: Buffer) returns (status: int)
    requires b.Valid() && 0 !in s
    modifies b, b.data
    ensures b.Valid() && old(b.Contents()) <= b.Contents()
    ensures status == NBT_OK <==> F.TextOk(s)
    ensures status == NBT_OK <==> |s| <= 32767
    ensures status == NBT_OK ==> b.Contents() == old(b.Contents()) + F.StringBytes(s)
    ensures b.data == old(b.data) || fresh(b.data)
  {
    if |s| > F.MAX_STRING {
      return NBT_ERR;
    }
    DumpNumber(|s|, 2, b);
    b.Append(s);
    status := NBT_OK;
  }

  method DumpInts(ints: seq<int>, b: Buffer)
    requires b.Valid()
    modifies b, b.data
    ensures b.Valid() && b.Contents() == old(b.Contents()) + F.NumberBytes(|ints|, 4) + F.IntsBytes(ints)
    ensures b.data == old(b.data) || fresh(b.data)
  {
    hide F.NumberBytes;
    DumpNumber(|ints|, 4, b);
    ghost var start := b.Contents();
    var i := 0;
    assert ints[0..] == ints;
    while i < |ints|
      invariant 0 <= i <= |ints| && b.Valid()
      invariant b.Contents() + F.IntsBytes(ints[i..]) == start + F.IntsBytes(ints)
      invariant b.data == old(b.data) || fresh(b.data)
    {
      assert ints[i..][1..] == ints[i + 1..];
      DumpNumber(ints[i], 4, b);
      i := i + 1;
    }
    assert b.Contents() + [] == b.Contents();
  }

  /** list_is_homogenous */
  method ListIsHomogenous(sentinel: Byte, items: seq<F.Node>) returns (t: Byte)
    ensures t == Homogenous(sentinel, items)
  {
    t := 0;
    var i := 0;
    while i < |items|
      invariant 0 <= i <= |items|
      invariant i == 0 ==> t == 0
      invariant i > 0 ==> t == F.Type(items[0].payload)
      invariant forall j | 0 <= j < i :: F.Type(items[j].payload) == t
    {
      var cur := F.Type(items[i].payload);
      if t == 0 {
        t := cur;
      }
      if t != cur {
        return 0;
      }
      i := i + 1;
    }
    if t == 0 {
      t := sentinel;
    }
  }

  /** What every part of the writer does: it says whether the tree is writable, and appends its bytes if so. */
  ghost predicate Wrote(status: int, writable: bool, before: Bytes, after: Bytes, bytes: Bytes) {
    && before <= after && (status == NBT_OK <==> writable) && (writable ==> after == before + bytes)
  }

  /** __dump_binary */
  method DumpNode(n: F.Node, withType: bool, b: Buffer) returns (status: int)
    requires b.Valid() && CStrings(n)
    modifies b, b.data
    ensures b.Valid() && Wrote(status, NodeWritable(n), old(b.Contents()), b.Contents(), F.NodeBytes(n, withType))
    ensures b.data == old(b.data) || fresh(b.data)
    decreases n, 1
  {
    hide F.StringBytes, F.PayloadBytes, PayloadWritable;
    ghost var start := b.Contents();
    if withType {
      b.Append([F.Type(n.payload)]);
    }
    if n.name.Some? {
      status := DumpString(n.name.value, b);
      if status != NBT_OK {
        return;
      }
    }
    ghost var middle := b.Contents();
    Headed(start, middle, n, withType);
    status := DumpPayload(n, b);
  }

  /** The payload of __dump_binary. */
  method DumpPayload(n: F.Node, b: Buffer) returns (status: int)
    requires b.Valid() && CStrings(n)
    modifies b, b.data
    ensures b.Valid() && Wrote(status, PayloadWritable(n.payload), old(b.Contents()), b.Contents(), F.PayloadBytes(n.payload))
    ensures b.data == old(b.data) || fresh(b.data)
    decreases n, 0
  {
    hide F.StringBytes, F.NumberBytes, F.NodesBytes, F.IntsBytes, NodeWritable;
    status := NBT_OK;
    match n.payload
    case ByteTag(x) => DumpNumber(x, 1, b);
    case ShortTag(x) => DumpNumber(x, 2, b);
    case IntTag(x) => DumpNumber(x, 4, b);
    case LongTag(x) => DumpNumber(x, 8, b);
    case FloatTag(bits) => b.Append(bits);
    case DoubleTag(bits) => b.Append(bits);
    case ByteArray(bytes) =>
      DumpNumber(|bytes|, 4, b);
      b.Append(bytes);
    case IntArray(ints) => DumpInts(ints, b);
    case Text(s) => status := DumpString(s, b);
    case List(sentinel, items) => status := DumpList(sentinel, items, b);
    case Compound(items) =>
      status := DumpNodes(items, true, b);
      if status == NBT_OK {
        b.Append([0]);
      }
  }

  /** dump_list_binary */
  method DumpList(sentinel: Byte, items: seq<F.Node>, b: Buffer) returns (status: int)
    requires b.Valid() && forall i | 0 <= i < |items| :: CStrings(items[i])
    modifies b, b.data
    ensures b.Valid()
    ensures Wrote(status, PayloadWritable(F.List(sentinel, items)), old(b.Contents()), b.Contents(),
                  F.PayloadBytes(F.List(sentinel, items)))
    ensures status == NBT_OK ==> |items| <= 2147483647
    ensures b.data == old(b.data) || fresh(b.data)
    decreases items, 2
  {
    hide F.NumberBytes, F.NodesBytes, NodeWritable, CStrings;
    var t := ListIsHomogenous(sentinel, items);
    if |items| > F.MAX_LENGTH {
      return NBT_ERR;
    }
    if t == 0 {
      return NBT_ERR;
    }
    b.Append([t]);
    DumpNumber(|items|, 4, b);
    status := DumpNodes(items, false, b);
  }

  /** The loops over the children of a list or a compound. */
  method DumpNodes(items: seq<F.Node>, withType: bool, b: Buffer) returns (status: int)
    requires b.Valid() && forall i | 0 <= i < |items| :: CStrings(items[i])
    modifies b, b.data
    ensures b.Valid()
    ensures Wrote(status, forall i | 0 <= i < |items| :: NodeWritable(items[i]), old(b.Contents()), b.Contents(),
                  F.NodesBytes(items, withType))
    ensures b.data == old(b.data) || fresh(b.data)
    decreases items, 1
  {
    hide F.NodeBytes, NodeWritable, CStrings;
    ghost var start := b.Contents();
    var i := 0;
    assert items[0..] == items;
    while i < |items|
      invariant 0 <= i <= |items| && b.Valid() && start <= b.Contents()
      invariant forall j | 0 <= j < i :: NodeWritable(items[j])
      invariant b.Contents() + F.NodesBytes(items[i..], withType) == start + F.NodesBytes(items, withType)
      invariant b.data == old(b.data) || fresh(b.data)
    {
      assert items[i..][1..] == items[i + 1..];
      status := DumpNode(items[i], withType, b);
      if status != NBT_OK {
        return;
      }
      i := i + 1;
    }
    assert b.Contents() + [] == b.Contents();
    status := NBT_OK;
  }

  lemma Headed(start: Bytes, middle: Bytes, n: F.Node, withType: bool)
    requires middle == start + (if withType then [F.Type(n.payload)] else []) + F.NameBytes(n.name)
    ensures start <= middle && middle + F.PayloadBytes(n.payload) == start + F.NodeBytes(n, withType)
  {
    hide F.NameBytes, F.PayloadBytes;
    var head := if withType then [F.Type(n.payload)] else [];
    Appended(start, head, F.NameBytes(n.name), F.PayloadBytes(n.payload));
  }

  lemma Appended(start: Bytes, a: Bytes, b: Bytes, c: Bytes)
    ensures start + a + b + c == start + (a + b + c) && start <= start + a + b
  {
  }

  /** nbt_dump_binary: the bytes written so far and errno. */
  method NbtDumpBinary(tree: F.Node) returns (r: Buffer, errno: int)
    requires CStrings(tree)
    ensures r.Valid() && (errno == NBT_OK <==> NodeWritable(tree))
    ensures errno == NBT_OK ==> r.Contents() == F.NodeBytes(tree, true)
    ensures errno == NBT_OK ==>
              r.Contents() != [] && r.Contents()[0] ==
                match tree.payload
                case ByteTag(_) => 1
                case ShortTag(_) => 2
                case IntTag(_) => 3
                case LongTag(_) => 4
                case FloatTag(_) => 5
                case DoubleTag(_) => 6
                case ByteArray(_) => 7
                case Text(_) => 8
                case List(_, _) => 9
                case Compound(_) => 10
                case IntArray(_) => 11
  {
    F.Layout(tree.payload);
    hide F.PayloadBytes;
    r := new Buffer();
    errno := DumpNode(tree, true, r);
    assert errno == NBT_OK ==> r.Contents() == [] + F.NodeBytes(tree, true);
  }
}
