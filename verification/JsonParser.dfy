/** load.c's recursive-descent parser. */
module JsonParser {
  import opened Wrappers
  import opened Utf8
  import opened JsonText
  import G = JsonGrammar
  import opened JsonStream
  import opened JsonLexer

  /** The parser's flags and what comes after the text. */
  ghost predicate Runs(lex: Lexer, env: G.Env)
    reads lex.stream, lex.stream.buffer
  {
    lex.Valid() && env == G.Env(lex.flags, lex.Bad())
  }

  /** The parser's answer and what is left to read are what the grammar says. */
  ghost predicate Answers(lex: Lexer, env: G.Env, r: Option<Value>, spec: G.Parsed)
    reads lex.stream, lex.stream.buffer
  {
    && Runs(lex, env) && (r.Some? <==> spec.Some?)
    && (r.Some? ==> r.value == spec.value.0 && lex.Rest() == spec.value.1)
  }

  /** What there is left to parse, a token already scanned included. */
  ghost function Left(lex: Lexer): nat
    requires lex.Valid()
    reads lex, lex.stream, lex.stream.buffer
  {
    if G.Ended(lex.token) then 0 else |lex.Rest()| + 1
  }

  method ParseValue(lex: Lexer, ghost env: G.Env) returns (r: Option<Value>)
    requires Runs(lex, env)
    modifies lex, lex.stream, lex.stream.buffer
    ensures Answers(lex, env, r, G.ParseValue(old(lex.token), old(lex.Rest()), env, old(lex.depth)))
    ensures r.Some? ==> lex.depth == old(lex.depth)
    decreases Left(lex), 2
  {
    hide G.ParseArray, G.ParseObject;
    lex.depth := lex.depth + 1;
    if lex.depth > G.MAX_DEPTH {
      return None;
    }
    match lex.token {
      case Str(s) =>
        if !lex.flags.allowNul && 0 in s {
          return None;
        }
        r := Some(String(s));
      case Int(n) =>
        r := Some(Integer(n));
      case RealNumber(text) =>
        r := Some(Real(text));
      case TrueWord =>
        r := Some(True);
      case FalseWord =>
        r := Some(False);
      case NullWord =>
        r := Some(Null);
      case Punct(c) =>
        if c == 123 {
          r := ParseObject(lex, env);
        } else if c == 91 {
          r := ParseArray(lex, env);
        } else {
          r := None;
        }
      case _ =>
        r := None;
    }
    if r.None? {
      return;
    }
    lex.depth := lex.depth - 1;
  }

  method ParseArray(lex: Lexer, ghost env: G.Env) returns (r: Option<Value>)
    requires Runs(lex, env)
    modifies lex, lex.stream, lex.stream.buffer
    ensures Answers(lex, env, r, G.ParseArray(old(lex.Rest()), env, old(lex.depth)))
    ensures r.Some? ==> lex.depth == old(lex.depth)
    decreases |lex.Rest()| + 1, 1
  {
    hide G.Scan, G.ParseValue;
    ghost var spec, depth := G.ParseArray(lex.Rest(), env, lex.depth), lex.depth;
    lex.Scan();
    if lex.token == G.Punct(93) {
      return Some(Array([]));
    }
    var items: seq<Value> := [];
    while lex.token != G.Eof
      invariant Runs(lex, env) && lex.depth == depth
      invariant spec == if G.Ended(lex.token) then None else G.ParseItems(lex.token, lex.Rest(), items, env, depth)
      invariant Left(lex) < |old(lex.Rest())| + 1
      decreases Left(lex)
    {
      EndedValue(lex.token, lex.Rest(), env, depth);
      var item := ParseValue(lex, env);
      if item.None? {
        return None;
      }
      items := items + [item.value];
      lex.Scan();
      if lex.token != G.Punct(COMMA) {
        break;
      }
      lex.Scan();
    }
    r := if lex.token == G.Punct(93) then Some(Array(items)) else None;
  }

  /** The body of parse_object's loop: a key, a colon and a value. */
  method ParseMember(lex: Lexer, members: seq<Member>, ghost env: G.Env) returns (r: Option<Member>)
    requires Runs(lex, env)
    modifies lex, lex.stream, lex.stream.buffer
    ensures Runs(lex, env)
    ensures var spec := G.ParseMember(old(lex.token), old(lex.Rest()), members, env, old(lex.depth));
            && (r.Some? <==> spec.Some?) && (r.Some? ==> r.value == spec.value.0 && lex.Rest() == spec.value.1)
    ensures r.Some? ==> lex.depth == old(lex.depth)
    decreases Left(lex), 3
  {
    hide G.Scan, G.ParseValue, G.KeyAllowed;
    var allowed := CheckKey(lex.token, members, lex.flags);
    if !allowed {
      return None;
    }
    var key := lex.token.s;
    lex.Scan();
    if lex.token != G.Punct(COLON) {
      return None;
    }
    lex.Scan();
    EndedValue(lex.token, lex.Rest(), env, lex.depth);
    var value := ParseValue(lex, env);
    if value.None? {
      return None;
    }
    r := Some(Member(key, value.value));
  }

  method CheckKey(token: G.Token, members: seq<Member>, flags: G.LoadFlags) returns (ok: bool)
    ensures ok <==> G.KeyAllowed(token, members, flags)
    ensures ok ==> token.Str?
  {
    hide G.HasKey;
    if !token.Str? {
      return false;
    }
    if 0 in token.s {
      return false;
    }
    if flags.rejectDuplicates {
      var known := KeyKnown(members, token.s);
      if known {
        return false;
      }
    }
    ok := true;
  }

  /** json_object_get, asked only whether there is a value. */
  method KeyKnown(members: seq<Member>, key: Bytes) returns (known: bool)
    ensures known <==> G.HasKey(members, key)
  {
    var i := 0;
    while i < |members|
      invariant 0 <= i <= |members| && forall j | 0 <= j < i :: members[j].key != key
    {
      if members[i].key == key {
        return true;
      }
      i := i + 1;
    }
    known := false;
  }

  method ParseObject(lex: Lexer, ghost env: G.Env) returns (r: Option<Value>)
    requires Runs(lex, env)
    modifies lex, lex.stream, lex.stream.buffer
    ensures Answers(lex, env, r, G.ParseObject(old(lex.Rest()), env, old(lex.depth)))
    ensures r.Some? ==> lex.depth == old(lex.depth)
    decreases |lex.Rest()| + 1, 1
  {
    hide G.Scan, G.ParseMember, G.SetMember;
    ghost var spec, depth := G.ParseObject(lex.Rest(), env, lex.depth), lex.depth;
    lex.Scan();
    if lex.token == G.Punct(125) {
      return Some(Object([]));
    }
    var members: seq<Member> := [];
    while true
      invariant Runs(lex, env) && lex.depth == depth
      invariant spec == if G.Ended(lex.token) then None else G.ParseMembers(lex.token, lex.Rest(), members, env, depth)
      invariant Left(lex) < |old(lex.Rest())| + 1
      decreases Left(lex)
    {
      InvalidMember(lex.token, lex.Rest(), members, env, depth);
      var m := ParseMember(lex, members, env);
      if m.None? {
        return None;
      }
      members := G.SetMember(members, m.value.key, m.value.value);
      lex.Scan();
      if lex.token != G.Punct(COMMA) {
        break;
      }
      lex.Scan();
    }
    r := if lex.token == G.Punct(125) then Some(Object(members)) else None;
  }

  lemma InvalidMember(token: G.Token, t: Bytes, members: seq<Member>, env: G.Env, depth: nat)
    ensures G.Ended(token) ==> G.ParseMember(token, t, members, env, depth).None?
  {
  }

  /** parse_json */
  method ParseJson(lex: Lexer, ghost env: G.Env) returns (r: Option<Value>)
    requires Runs(lex, env)
    modifies lex, lex.stream, lex.stream.buffer
    ensures r == G.ParseJson(old(lex.Rest()), env)
  {
    hide G.Scan, G.ParseValue;
    lex.depth := 0;
    lex.Scan();
    if !lex.flags.decodeAny {
      if lex.token != G.Punct(91) && lex.token != G.Punct(123) {
        return None;
      }
    }
    EndedValue(lex.token, lex.Rest(), env, 0);
    r := ParseValue(lex, env);
    if r.None? {
      return;
    }
    if !lex.flags.disableEofCheck {
      lex.Scan();
      if lex.token != G.Eof {
        return None;
      }
    }
  }

  lemma EndedValue(token: G.Token, t: Bytes, env: G.Env, depth: nat)
    ensures G.Ended(token) ==> G.ParseValue(token, t, env, depth).None?
  {
  }

  /** json_loadb: bytes that are not UTF-8 are an error wherever the parser gets to them. */
  method LoadBuffer(data: Bytes, flags: G.LoadFlags) returns (r: Option<Value>)
    ensures r == G.ParseJson(GoodText(data), G.Env(flags, Spoilt(data)))
  {
    var lex := new Lexer(data, false, flags);
    r := ParseJson(lex, G.Env(flags, lex.Bad()));
  }

  /** json_loads of a string in memory, which has a NUL at its end. */
  method LoadString(memory: Bytes, flags: G.LoadFlags) returns (r: Option<Value>)
    requires 0 in memory
    ensures r == G.ParseJson(GoodText(UpToNul(memory)), G.Env(flags, Spoilt(UpToNul(memory))))
  {
    var lex := new Lexer(memory, true, flags);
    r := ParseJson(lex, G.Env(flags, lex.Bad()));
  }
}
