/** The parser's byte stream: it checks UTF-8 as it reads and takes one character back. */
module JsonStream {
  import opened Utf8
  import opened JsonGrammar

  const EOF := -1
  const ERROR := -2

  /** The input up to its end or up to the first bytes that are not UTF-8. */
  ghost function GoodText(d: Bytes): Bytes {
    if d == [] || First(d).None? then []
    else
      var n := Size(First(d).value);
      d[..n] + GoodText(d[n..])
  }

  /** The input ends in bytes that are not UTF-8. */
  ghost predicate Spoilt(d: Bytes) {
    d != [] && (First(d).None? || Spoilt(d[Size(First(d).value)..]))
  }

  /** For UTF-8 input the text is the whole input. */
  lemma {:induction false} GoodAll(d: Bytes)
    requires Valid(d)
    ensures GoodText(d) == d && !Spoilt(d)
  {
    if d != [] {
      var n := Size(First(d).value);
      GoodAll(d[n..]);
      assert d[..n] + d[n..] == d;
    }
  }

  /** The character the stream gives next. */
  function Ahead(t: Bytes, bad: bool): int {
    if t != [] then t[0] else if bad then ERROR else EOF
  }

  /** The text starts with a character of `n` bytes. */
  ghost predicate Opens(d: Bytes, n: nat) {
    exists c :: Starts(d, c, n)
  }

  class Stream {
    /** The input's memory, a buffer or a string that ends at its first NUL, and how much of it has been taken. */
    const memory: Bytes
    const isString: bool
    var pos: nat
    /** The bytes the input has. */
    ghost const data: Bytes
    /** One character's bytes, ended by NUL. */
    const buffer: array<Byte>
    var bufferPos: nat
    var state: int
    /** Where the bytes in the buffer end. */
    ghost var fill: nat

    ghost predicate Input() {
      if isString then 0 in memory && data == UpToNul(memory) else data == memory
    }

    ghost predicate Valid()
      reads this, buffer
    {
      && Input() && buffer.Length == 5 && pos <= |data| && bufferPos <= fill <= 4
      && (state == 0 || state == EOF || state == ERROR)
      && (state == 0 ==> buffer[fill] == 0 && forall i | bufferPos <= i < fill :: buffer[i] != 0)
    }

    /** The text still to be read. */
    ghost function Rest(): Bytes
      requires Valid()
      reads this, buffer
    {
      if state == 0 then buffer[bufferPos..fill] + GoodText(data[pos..]) else []
    }

    /** Whether bytes that are not UTF-8 come after the text. */
    ghost predicate Bad()
      requires Valid()
      reads this
      reads buffer
    {
      if state == 0 then Spoilt(data[pos..]) else state == ERROR
    }

    /** stream_init */
    constructor (memory: Bytes, isString: bool)
      requires isString ==> 0 in memory
      ensures Valid()
      ensures var data := if isString then UpToNul(memory) else memory; Rest() == GoodText(data) && (Bad() <==> Spoilt(data))
      ensures fresh(buffer)
    {
      this.memory, this.isString := memory, isString;
      data := if isString then UpToNul(memory) else memory;
      buffer := new Byte[5](i => 0);
      pos, bufferPos, state, fill := 0, 0, 0, 0;
      new;
      assert data[0..] == data && buffer[0..0] + GoodText(data) == GoodText(data);
    }

    /** string_get or buffer_get; the end of a string is not passed. */
    method Next() returns (c: int)
      requires Input() && pos <= |data|
      modifies this`pos
      ensures old(pos) == |data| ==> c == EOF && pos == |data|
      ensures old(pos) < |data| ==> c == data[old(pos)] && pos == old(pos) + 1
    {
      if isString {
        StringEnd(memory);
        c := memory[pos];
        if c == 0 {
          return EOF;
        }
      } else {
        if pos >= |memory| {
          return EOF;
        }
        c := memory[pos];
      }
      pos := pos + 1;
    }

    /** The bytes of a character after its first one: the end of input reads as 0xFF. */
    method Fetch(count: nat)
      requires Input() && 1 <= pos <= |data| && buffer.Length == 5 && 2 <= count <= 4 && buffer[0] == data[pos - 1]
      modifies this`pos, buffer
      ensures old(pos) <= pos <= |data| && buffer[0] == old(buffer[0])
      ensures old(pos) - 1 + count <= |data| ==>
                pos == old(pos) - 1 + count && buffer[..count] == data[old(pos) - 1..pos]
      ensures old(pos) - 1 + count > |data| ==> buffer[count - 1] == 255 && pos == |data|
    {
      ghost var start := pos - 1;
      var i := 1;
      while i < count
        invariant 1 <= i <= count
        invariant pos == if start + i <= |data| then start + i else |data|
        invariant forall j | 0 <= j < i :: buffer[j] == if start + j < |data| then data[start + j] else 255
      {
        var c := Next();
        buffer[i] := if c == EOF then 255 else c;
        i := i + 1;
      }
    }

    /** The rest of a character whose first byte is read, checked and ended by NUL. */
    method LoadCharacter(c: Byte) returns (ok: bool, count: nat)
      requires Input() && 1 <= pos <= |data| && buffer.Length == 5 && buffer[0] == data[pos - 1] == c
      modifies this`pos, buffer
      ensures old(pos) <= pos <= |data|
      ensures !ok ==> First(data[old(pos) - 1..]).None?
      ensures ok ==> 1 <= count <= 4 && pos == old(pos) - 1 + count && buffer[..count] == data[old(pos) - 1..pos]
      ensures ok ==> buffer[count] == 0 && Opens(data[old(pos) - 1..], count)
    {
      hide First, Starts;
      ghost var start := pos - 1;
      FirstLength(data[start..]);
      ok, count := true, 1;
      if 0x80 <= c <= 0xFF {
        ok, count := false, CheckFirst(c);
        if count == 0 {
          return;
        }
        Fetch(count);
        var cp;
        ok, cp := CheckFull(buffer[..count], count);
        if ok {
          EnoughBytes(data[start..], buffer[..count], cp, count);
          buffer[count] := 0;
        } else if start + count <= |data| {
          NoCharacter(data[start..], buffer[..count], count);
        }
      } else {
        buffer[1] := 0;
        OneByteStarts(data[start..]);
      }
    }

    /** `LoadCharacter`, in terms of the text it leaves. */
    method LoadText(c: Byte) returns (ok: bool, count: nat)
      requires Input() && 1 <= pos <= |data| && buffer.Length == 5 && buffer[0] == data[pos - 1] == c
      modifies this`pos, buffer
      ensures old(pos) <= pos <= |data|
      ensures !ok ==> GoodText(data[old(pos) - 1..]) == [] && Spoilt(data[old(pos) - 1..])
      ensures ok ==> 1 <= count <= 4 && buffer[count] == 0 && (buffer[0] == 0 ==> count == 1)
      ensures ok ==> forall i | 0 < i < count :: buffer[i] != 0
      ensures ok ==> buffer[0..count] + GoodText(data[pos..]) == GoodText(data[old(pos) - 1..])
      ensures ok ==> (Spoilt(data[pos..]) <==> Spoilt(data[old(pos) - 1..]))
    {
      hide First, Starts, Opens, GoodText, Spoilt;
      ghost var d, start := data[pos - 1..], pos - 1;
      NoText(d);
      ok, count := LoadCharacter(c);
      if ok {
        Character(d, count);
        assert d[..count] == data[start..pos] && d[count..] == data[pos..];
        assert buffer[0..count] == d[..count];
        assert forall i | 0 <= i < count :: buffer[i] == buffer[0..count][i] == d[i];
      }
    }

    /** The start of stream_get: a whole character into the buffer, or the end, or an error. */
    method Refill() returns (ok: bool)
      requires Valid() && state == 0 && buffer[bufferPos] == 0
      modifies this`pos, this`bufferPos, this`state, this`fill, buffer
      ensures buffer.Length == 5 && pos <= |data|
      ensures !ok ==> Valid() && old(Rest()) == [] && state == (if old(Bad()) then ERROR else EOF)
      ensures ok ==> Loaded() && buffer[bufferPos..fill] + GoodText(data[pos..]) == old(Rest()) && (Spoilt(data[pos..]) <==> old(Bad()))
    {
      hide First, GoodText, Spoilt;
      assert bufferPos == fill;
      assert Rest() == GoodText(data[pos..]) by { assert buffer[bufferPos..fill] == []; }
      NoText(data[pos..]);
      var c := Next();
      if c == EOF {
        state := EOF;
        return false;
      }
      buffer[0] := c;
      bufferPos := 0;
      var count;
      ok, count := LoadText(c);
      fill := count;
      if !ok {
        state, fill := ERROR, 0;
      }
    }

    /** A character has just been loaded. */
    ghost predicate Loaded()
      reads this, buffer
    {
      && Input() && buffer.Length == 5 && pos <= |data| && state == 0 && bufferPos < fill <= 4 && buffer[fill] == 0
      && (forall i | bufferPos < i < fill :: buffer[i] != 0) && (buffer[bufferPos] == 0 ==> fill == bufferPos + 1)
    }

    /** The buffer's next byte. */
    method Take() returns (c: int)
      requires Loaded()
      modifies this`bufferPos
      ensures Valid() && CanUnget(c) && c == buffer[old(bufferPos)] && state == 0
      ensures [buffer[old(bufferPos)]] + Rest() == old(buffer[bufferPos..fill] + GoodText(data[pos..]))
      ensures Bad() == Spoilt(data[pos..])
    {
      hide GoodText, Spoilt;
      assert buffer[bufferPos..fill] == [buffer[bufferPos]] + buffer[bufferPos + 1..fill];
      c := buffer[bufferPos];
      bufferPos := bufferPos + 1;
    }

    /** The character just given can be taken back. */
    ghost predicate CanUnget(c: int)
      reads this, buffer
    {
      c >= 0 ==>
        && state == 0 && 0 < bufferPos <= buffer.Length && buffer[bufferPos - 1] == c
        && (c == 0 ==> fill == bufferPos)
    }

    /** stream_get */
    method Get() returns (c: int)
      requires Valid()
      modifies this, buffer
      ensures Valid() && CanUnget(c)
      ensures c == Ahead(old(Rest()), old(Bad())) && Bad() == old(Bad())
      ensures Rest() == if old(Rest()) == [] then [] else old(Rest())[1..]
    {
      hide GoodText, Spoilt;
      if state != 0 {
        return state;
      }
      ghost var text := Rest();
      if buffer[bufferPos] == 0 {
        var ok := Refill();
        if !ok {
          return state;
        }
      }
      assert Loaded() && text == buffer[bufferPos..fill] + GoodText(data[pos..]);
      c := Take();
    }

    /** stream_unget. A NUL ends the buffer, so it is not read again. */
    method Unget(c: int)
      requires Valid() && CanUnget(c) && c >= ERROR
      modifies this
      ensures Valid() && Bad() == old(Bad())
      ensures c <= 0 ==> Rest() == old(Rest())
      ensures c > 0 ==> Rest() == [buffer[old(bufferPos) - 1]] + old(Rest()) && buffer[old(bufferPos) - 1] == c
    {
      hide GoodText, Spoilt;
      if c == EOF || c == ERROR {
        return;
      }
      ghost var b := bufferPos;
      assert c == 0 ==> buffer[b..fill] == [];
      bufferPos := bufferPos - 1;
      if c == 0 {
        fill := bufferPos;
        assert buffer[bufferPos..fill] == [];
      } else {
        assert buffer[bufferPos..fill] == [buffer[bufferPos]] + buffer[b..fill];
      }
    }
  }

  /** A string's bytes are in memory up to the first NUL. */
  lemma {:induction false} StringEnd(memory: Bytes)
    requires 0 in memory
    ensures var s := UpToNul(memory);
            && |s| < |memory| && memory[|s|] == 0 && forall i | 0 <= i < |s| :: s[i] == memory[i] != 0
  {
    if memory[0] != 0 {
      StringEnd(memory[1..]);
      assert forall i | 0 < i < |UpToNul(memory)| :: memory[i] == memory[1..][i - 1];
    }
  }

  lemma NoText(d: Bytes)
    ensures First(d).None? || d == [] ==> GoodText(d) == [] && (Spoilt(d) <==> d != [])
  {
  }

  lemma OneByteStarts(d: Bytes)
    requires d != [] && d[0] < 0x80
    ensures Opens(d, 1)
  {
    assert Starts(d, d[0], 1);
  }

  /** The bytes loaded are a character, so the input had that many bytes left. */
  lemma EnoughBytes(d: Bytes, b: Bytes, c: int, n: nat)
    requires 2 <= n == |b| && Starts(b, c, n) && d != [] && b[0] == d[0]
    requires n <= |d| ==> b == d[..n]
    requires n > |d| ==> b[n - 1] == 255
    ensures n <= |d| && Opens(d, n)
  {
    EncodeSize(c);
    assert Encode(c)[n - 1] == b[n - 1];
    assert n <= |d| ==> Starts(d, c, n);
  }

  lemma NoCharacter(d: Bytes, b: Bytes, n: nat)
    requires d != [] && n == CheckFirst(d[0]) && n <= |d| && b == d[..n] && !Opens(b, n)
    ensures First(d).None?
  {
    FirstLength(d);
    if First(d).Some? {
      EncodeSize(First(d).value);
      assert Starts(b, First(d).value, n);
    }
  }

  /** The text starts with a whole character; no byte of it is NUL unless it is NUL itself. */
  lemma Character(d: Bytes, n: nat)
    requires Opens(d, n)
    ensures 1 <= n <= 4 && n <= |d|
    ensures GoodText(d) == d[..n] + GoodText(d[n..]) && (Spoilt(d) <==> Spoilt(d[n..]))
    ensures (forall i | 0 < i < n :: d[i] != 0) && (d[0] == 0 ==> n == 1)
  {
    var c :| Starts(d, c, n);
    FirstIs(d, c, n);
    EncodeSize(c);
    assert forall i | 0 <= i < n :: d[i] == Encode(c)[i];
  }
}