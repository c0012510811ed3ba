/** JSON Pointers as the tools write them (`pointer_token` in scripts/codex/inventory.py) and read
    them (`pointer` in scripts/codex/generate_fixtures.py). */
module JsonPointer {
  import opened Wrappers
  import opened Json
  import opened Text

  /** `pointer_token`. */
  function Escape(name: string): string {
    Replace(Replace(name, "~", "~0"), "/", "~1")
  }

  function Unescape(token: string): string {
    Replace(Replace(token, "~1", "/"), "~0", "~")
  }

  function EscapeAll(keys: seq<string>): (tokens: seq<string>)
    ensures |tokens| == |keys|
    ensures forall i :: 0 <= i < |keys| ==> tokens[i] == Escape(keys[i])
  {
    seq(|keys|, i requires 0 <= i < |keys| => Escape(keys[i]))
  }

  /** Each token after a slash. */
  function Slashed(tokens: seq<string>): string {
    if tokens == [] then "" else "/" + tokens[0] + Slashed(tokens[1..])
  }

  /** The text of a pointer with these unescaped keys. */
  function Render(keys: seq<string>): string {
    Slashed(EscapeAll(keys))
  }

  function UnescapeAll(tokens: seq<string>): (keys: seq<string>)
    ensures |keys| == |tokens|
    ensures forall i :: 0 <= i < |keys| ==> keys[i] == Unescape(tokens[i])
  {
    seq(|tokens|, i requires 0 <= i < |tokens| => Unescape(tokens[i]))
  }

  /** The raw tokens that `pointer` reads from a path. */
  function Tokens(path: string): seq<string> {
    if path == "" then [] else Split(StripLeft(path, '/'), '/')
  }

  function Keys(path: string): seq<string> {
    UnescapeAll(Tokens(path))
  }

  /** One lookup: a list takes an index, which may count from its end, a dict the key; anything else raises. */
  function Lookup(v: Value, key: string): Result<Value> {
    match v
    case Arr(items) =>
      (match ReadInt(key)
       case Some(n) =>
         if 0 <= n < |items| then Success(items[n])
         else if -|items| <= n < 0 then Success(items[|items| + n]) else Failure
       case None => Failure)
    case Obj(members) =>
      (match Get(members, key) case Some(x) => Success(x) case None => Failure)
    case _ => Failure
  }

  function Follow(document: Value, keys: seq<string>): Result<Value>
    decreases |keys|
  {
    if keys == [] then Success(document)
    else
      var next :- Lookup(document, keys[0]);
      Follow(next, keys[1..])
  }

  method Pointer(document: Value, path: string) returns (r: Result<Value>)
    ensures r == Follow(document, Keys(path))
  {
    var current := document;
    var tokens := Tokens(path);
    for i := 0 to |tokens|
      invariant Follow(document, Keys(path)) == Follow(current, Keys(path)[i..])
    {
      var next := Lookup(current, Unescape(tokens[i]));
      assert Keys(path)[i..][1..] == Keys(path)[i + 1..];
      if next.Failure? {
        return Failure;
      }
      current := next.value;
    }
    return Success(current);
  }

  lemma {:induction false} FollowConcat(document: Value, before: seq<string>, after: seq<string>)
    requires Follow(document, before).Success?
    ensures Follow(document, before + after) == Follow(Follow(document, before).value, after)
    decreases |before|
  {
    if before == [] {
      assert before + after == after;
    } else {
      assert (before + after)[1..] == before[1..] + after;
      FollowConcat(Lookup(document, before[0]).value, before[1..], after);
    }
  }

  /** In a list an index counts from the front, a negative one from the end, and any other raises. */
  lemma IndexLeads(items: seq<Value>, n: nat)
    ensures Lookup(Arr(items), Decimal(n)) == if n < |items| then Success(items[n]) else Failure
    ensures n > 0 ==>
      Lookup(Arr(items), "-" + Decimal(n)) == if n <= |items| then Success(items[|items| - n]) else Failure
  {
    ReadIntOfDecimal(n);
    ReadIntSigned("", n, "");
    assert "" + ("-" + Decimal(n)) + "" == "-" + Decimal(n);
  }

  // ----- Escaping

  /** No tilde is followed by a one. */
  predicate TildesEscaped(s: string) {
    forall i :: 0 <= i < |s| - 1 && s[i] == '~' ==> s[i + 1] != '1'
  }

  lemma ReplacedFirst(c: char, rest: string, before: char, after: string)
    ensures Replace([c] + rest, [before], after) ==
            (if c == before then after else [c]) + Replace(rest, [before], after)
  {
    var s := [c] + rest;
    assert s[1..] == rest && s[0] == c;
    assert [before] <= s <==> c == before;
  }

  lemma TildeWritten(rest: string)
    requires TildesEscaped(rest)
    ensures TildesEscaped("~0" + rest) && Replace("~0" + rest, "~0", "~") == "~" + Replace(rest, "~0", "~")
  {
    var t := "~0" + rest;
    assert t[2..] == rest;
    forall i | 0 <= i < |t| - 1 && t[i] == '~' ensures t[i + 1] != '1' {
      assert i >= 2 ==> rest[i - 2] == '~' && t[i + 1] == rest[i - 1];
    }
  }

  lemma OtherWritten(c: char, rest: string)
    requires TildesEscaped(rest) && c != '~'
    ensures TildesEscaped([c] + rest) && Replace([c] + rest, "~0", "~") == [c] + Replace(rest, "~0", "~")
  {
    var t := [c] + rest;
    assert t[1..] == rest && t[0] == c;
    assert rest == "" ==> t == [c] + Replace(rest, "~0", "~");
    forall i | 0 <= i < |t| - 1 && t[i] == '~' ensures t[i + 1] != '1' {
      assert rest[i - 1] == '~' && t[i + 1] == rest[i];
    }
  }

  lemma {:induction false} TildeRoundTrip(s: string)
    ensures Replace(Replace(s, "~", "~0"), "~0", "~") == s
    ensures TildesEscaped(Replace(s, "~", "~0"))
    ensures Replace(s, "~", "~0") == "" <==> s == ""
  {
    if s != "" {
      TildeRoundTrip(s[1..]);
      var rest := Replace(s[1..], "~", "~0");
      assert s == [s[0]] + s[1..];
      ReplacedFirst(s[0], s[1..], '~', "~0");
      if s[0] == '~' {
        TildeWritten(rest);
      } else {
        OtherWritten(s[0], rest);
      }
    }
  }

  lemma {:induction false} SlashRoundTrip(s: string)
    requires TildesEscaped(s)
    ensures Replace(Replace(s, "/", "~1"), "~1", "/") == s
    ensures '/' !in Replace(s, "/", "~1")
    ensures s != "" ==> Replace(s, "/", "~1") != "" && Replace(s, "/", "~1")[0] == if s[0] == '/' then '~' else s[0]
  {
    if s != "" {
      var tail := s[1..];
      assert forall i :: 0 <= i < |tail| ==> tail[i] == s[i + 1];
      SlashRoundTrip(tail);
      var rest := Replace(tail, "/", "~1");
      var t := Replace(s, "/", "~1");
      if s[0] == '/' {
        assert "/" <= s;
        assert t == "~1" + rest;
        assert "~1" <= t && t[2..] == rest;
      } else {
        assert !("/" <= s);
        assert t == [s[0]] + rest;
        assert t[1..] == rest;
        if s[0] == '~' && tail != "" {
          assert tail[0] == s[1] && rest[0] != '1';
        }
        assert !("~1" <= t);
      }
    }
  }

  /** Sections 3 and 4 of RFC 6901: reading a written token gives the name back, and a written token
      holds no slash. */
  lemma EscapeRoundTrip(name: string)
    ensures Unescape(Escape(name)) == name
    ensures '/' !in Escape(name)
    ensures Escape(name) == "" <==> name == ""
  {
    TildeRoundTrip(name);
    SlashRoundTrip(Replace(name, "~", "~0"));
  }

  /** Section 3 of RFC 6901: a tilde is written as "~0", a slash as "~1", and any other character as it is. */
  lemma EscapedFirst(c: char, rest: string)
    ensures Escape([c] + rest) == (if c == '~' then "~0" else if c == '/' then "~1" else [c]) + Escape(rest)
    ensures Escape("") == ""
  {
    var tildes := Replace(rest, "~", "~0");
    ReplacedFirst(c, rest, '~', "~0");
    if c == '~' {
      assert "~0" + tildes == ['~'] + (['0'] + tildes);
      ReplacedFirst('~', ['0'] + tildes, '/', "~1");
      ReplacedFirst('0', tildes, '/', "~1");
      assert ['~'] + (['0'] + Escape(rest)) == "~0" + Escape(rest);
    } else {
      ReplacedFirst(c, tildes, '/', "~1");
    }
  }

  // ----- Whole pointers

  predicate SlashFree(tokens: seq<string>) {
    forall i :: 0 <= i < |tokens| ==> '/' !in tokens[i]
  }

  lemma EscapedSlashFree(keys: seq<string>)
    ensures SlashFree(EscapeAll(keys))
    ensures forall i :: 0 <= i < |keys| ==> Unescape(EscapeAll(keys)[i]) == keys[i]
    ensures forall i :: 0 <= i < |keys| ==> (EscapeAll(keys)[i] == "" <==> keys[i] == "")
  {
    forall i | 0 <= i < |keys|
      ensures '/' !in EscapeAll(keys)[i] && Unescape(EscapeAll(keys)[i]) == keys[i]
      ensures EscapeAll(keys)[i] == "" <==> keys[i] == ""
    {
      EscapeRoundTrip(keys[i]);
    }
  }

  lemma SlashedFirst(tokens: seq<string>)
    requires tokens != []
    ensures Slashed(tokens) == ['/'] + (tokens[0] + Slashed(tokens[1..]))
  {
  }

  lemma {:induction false} SplitSlashed(tokens: seq<string>)
    requires tokens != [] && SlashFree(tokens)
    ensures Split(Slashed(tokens)[1..], '/') == tokens
  {
    var head, rest := tokens[0], Slashed(tokens[1..]);
    SlashedFirst(tokens);
    assert '/' !in head && Slashed(tokens)[1..] == head + rest;
    if |tokens| == 1 {
      SplitFirst(head, "", '/');
      assert head + rest == head && tokens == [head];
    } else {
      SlashedFirst(tokens[1..]);
      HeadThenSlash(head, rest);
      SplitFirst(head, rest[1..], '/');
      SplitSlashed(tokens[1..]);
      assert tokens == [head] + tokens[1..];
    }
  }

  lemma HeadThenSlash(head: string, rest: string)
    requires rest != "" && rest[0] == '/'
    ensures head + rest == head + ['/'] + rest[1..]
  {
  }

  lemma {:induction false} SlashCount(tokens: seq<string>)
    requires SlashFree(tokens)
    ensures Count(Slashed(tokens), '/') == |tokens|
  {
    if tokens != [] {
      NoneCounted(tokens[0], '/');
      SlashCount(tokens[1..]);
      CountConcat("/" + tokens[0], Slashed(tokens[1..]), '/');
      CountConcat("/", tokens[0], '/');
    }
  }

  lemma NoneCounted(s: string, c: char)
    requires c !in s
    ensures Count(s, c) == 0
  {
  }

  lemma ShorterTokens(tokens: seq<string>)
    requires SlashFree(tokens) && |tokens| > 1 && tokens[0] == ""
    ensures |Tokens(Slashed(tokens))| < |tokens|
  {
    var path, rest := Slashed(tokens), Slashed(tokens[1..]);
    SlashCount(tokens[1..]);
    assert path[0] == '/' && path[1..] == rest && rest[0] == '/';
    assert StripLeft(path, '/') == StripLeft(rest, '/') == StripLeft(rest[1..], '/');
    assert Count(rest, '/') == 1 + Count(rest[1..], '/');
  }

  lemma StripSlashed(head: string, rest: string)
    requires '/' !in head && (head == "" ==> rest == "")
    ensures StripLeft("/" + head + rest, '/') == head + rest
  {
    assert ("/" + head + rest)[1..] == head + rest;
    assert head != "" ==> (head + rest)[0] == head[0];
  }

  lemma TokensOfSlashed(tokens: seq<string>)
    requires SlashFree(tokens)
    requires |tokens| <= 1 || tokens[0] != ""
    ensures Tokens(Slashed(tokens)) == tokens
  {
    if tokens != [] {
      var rest := Slashed(tokens[1..]);
      StripSlashed(tokens[0], rest);
      assert Slashed(tokens) == "/" + tokens[0] + rest;
      assert Slashed(tokens)[1..] == tokens[0] + rest;
      SplitSlashed(tokens);
    }
  }

  /** `pointer` reads back the keys of a written pointer exactly when the pointer has at most one key or
      its first key is not empty: `lstrip` takes a leading empty key for more slashes. */
  lemma KeysOfRendered(keys: seq<string>)
    ensures Keys(Render(keys)) == keys <==> |keys| <= 1 || keys[0] != ""
  {
    EscapedSlashFree(keys);
    if |keys| > 1 && keys[0] == "" {
      ShorterTokens(EscapeAll(keys));
    } else {
      TokensOfSlashed(EscapeAll(keys));
      forall i | 0 <= i < |keys| ensures Keys(Render(keys))[i] == keys[i] {
        EscapeRoundTrip(keys[i]);
      }
    }
  }

  /** What a written pointer leads to. */
  lemma PointerReadsBack(document: Value, keys: seq<string>)
    requires |keys| <= 1 || keys[0] != ""
    ensures Follow(document, Keys(Render(keys))) == Follow(document, keys)
  {
    KeysOfRendered(keys);
  }

  /** Different key lists give different pointers. */
  lemma RenderInjective(a: seq<string>, b: seq<string>)
    requires Render(a) == Render(b)
    ensures a == b
  {
    EscapedSlashFree(a);
    EscapedSlashFree(b);
    if a != [] && b != [] {
      SplitSlashed(EscapeAll(a));
      SplitSlashed(EscapeAll(b));
      assert EscapeAll(a) == EscapeAll(b);
      forall i | 0 <= i < |a| ensures a[i] == b[i] {
        assert Unescape(EscapeAll(a)[i]) == a[i];
      }
    }
  }
}
