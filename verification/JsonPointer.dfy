/** Pointer strings of RFC 6901, as `serde_json::Value::pointer` reads them and as the
    sub-document builder's own `insert_pointer` reads them. */
module JsonPointer {
  import opened Strings
  import opened JsonValues

  predicate NoSlash(s: string) {
    '/' !in s
  }

  /** `str::split('/')`. */
  function Split(s: string): (r: seq<string>)
    ensures r != []
  {
    if s == "" then [""]
    else if s[0] == '/' then [""] + Split(s[1..])
    else var r := Split(s[1..]); [[s[0]] + r[0]] + r[1..]
  }

  lemma {:induction false} SplitFirst(token: string, rest: string)
    requires NoSlash(token)
    ensures Split(token) == [token]
    ensures Split(token + "/" + rest) == [token] + Split(rest)
  {
    if token == "" {
      assert "" + "/" + rest == "/" + rest && ("/" + rest)[1..] == rest;
    } else {
      SplitFirst(token[1..], rest);
      assert (token + "/" + rest)[1..] == token[1..] + "/" + rest;
      assert [token[0]] + token[1..] == token;
    }
  }

  lemma {:induction false} ManyTokens(s: string)
    requires !NoSlash(s)
    ensures |Split(s)| > 1
  {
    if s[0] != '/' {
      assert s == [s[0]] + s[1..];
      ManyTokens(s[1..]);
    } else {
      assert |Split(s[1..])| >= 1;
    }
  }

  // ----- token escaping ------------------------------------------------------------

  function Escape(token: string): string {
    Replace(Replace(token, "~", "~0"), "/", "~1")
  }

  function Unescape(token: string): string {
    Replace(Replace(token, "~1", "/"), "~0", "~")
  }

  /** How one character is escaped. */
  function Code(c: char): string {
    if c == '~' then "~0" else if c == '/' then "~1" else [c]
  }

  lemma EscapeCons(c: char, rest: string)
    ensures Escape([c] + rest) == Code(c) + Escape(rest)
  {
    hide Replace;
    var tilded := Replace(rest, "~", "~0");
    ReplaceChar(c, rest, '~', "~0");
    if c == '~' {
      assert "~0" + tilded == ['~'] + (['0'] + tilded);
      ReplaceChar('~', ['0'] + tilded, '/', "~1");
      ReplaceChar('0', tilded, '/', "~1");
      assert "~0" + Escape(rest) == ['~'] + (['0'] + Escape(rest));
    } else {
      ReplaceChar(c, tilded, '/', "~1");
    }
  }

  /** What the first unescaping pass leaves of an escaped character. */
  lemma FirstPassCons(c: char, rest: string)
    ensures Replace(Code(c) + rest, "~1", "/")
            == (if c == '~' then "~0" else [c]) + Replace(rest, "~1", "/")
  {
    hide Replace;
    var r := Replace(rest, "~1", "/");
    if c == '/' {
      ReplaceHit("~1", rest, "/");
    } else if c == '~' {
      var s := ['0'] + rest;
      assert "~0" + rest == ['~'] + s;
      assert (['~'] + s)[0..2][1] == '0';
      ReplaceMiss('~', s, "~1", "/");
      assert |s| >= 2 ==> s[0..2][0] == '0';
      ReplaceMiss('0', rest, "~1", "/");
      assert ['~'] + (['0'] + r) == "~0" + r;
    } else {
      var s := [c] + rest;
      assert |s| >= 2 ==> s[0..2][0] == c;
      ReplaceMiss(c, rest, "~1", "/");
    }
  }

  lemma SecondPassCons(c: char, rest: string)
    ensures Replace((if c == '~' then "~0" else [c]) + rest, "~0", "~") == [c] + Replace(rest, "~0", "~")
  {
    hide Replace;
    if c == '~' {
      ReplaceHit("~0", rest, "~");
    } else {
      var s := [c] + rest;
      assert |s| >= 2 ==> s[0..2][0] == c;
      ReplaceMiss(c, rest, "~0", "~");
    }
  }

  /** Unescaping undoes escaping, and an escaped token holds no separator (RFC 6901, section 4). */
  lemma {:induction false} TokenRoundTrip(token: string)
    ensures Unescape(Escape(token)) == token
    ensures NoSlash(Escape(token))
  {
    if token != "" {
      hide Replace, Escape, Unescape;
      var c, rest := token[0], token[1..];
      assert token == [c] + rest;
      TokenRoundTrip(rest);
      EscapeCons(c, rest);
      UnescapeCons(c, Escape(rest));
    }
  }

  lemma UnescapeCons(c: char, rest: string)
    ensures Unescape(Code(c) + rest) == [c] + Unescape(rest)
  {
    hide Replace;
    FirstPassCons(c, rest);
    SecondPassCons(c, Replace(rest, "~1", "/"));
  }

  // ----- reading a pointer ------------------------------------------------------------

  function UnescapeAll(tokens: seq<string>): (r: seq<string>)
    ensures |r| == |tokens| && forall i | 0 <= i < |r| :: r[i] == Unescape(tokens[i])
  {
    if tokens == [] then [] else [Unescape(tokens[0])] + UnescapeAll(tokens[1..])
  }

  /** The tokens `Value::pointer` follows; a non-empty pointer must start with a slash. */
  function ResolveTokens(pointer: string): Option<Path> {
    if pointer == "" then Some([])
    else if pointer[0] != '/' then None
    else Some(UnescapeAll(Split(pointer[1..])))
  }

  /** `Value::pointer`. */
  function Resolve(doc: Json, pointer: string): Option<Json> {
    match ResolveTokens(pointer)
    case Some(tokens) => Get(doc, tokens)
    case None => None
  }

  /** `trim_start_matches('/')`. */
  function TrimSlashes(s: string): string {
    if s != "" && s[0] == '/' then TrimSlashes(s[1..]) else s
  }

  /** The tokens `insert_pointer` follows. */
  function InsertTokens(pointer: string): Path {
    if pointer == "" then [] else UnescapeAll(Split(TrimSlashes(pointer)))
  }

  const COMPONENTS := "/components"

  /** What follows `/components` in a pointer: nothing, or one slash and a token. */
  predicate PlainSuffix(suffix: string) {
    suffix == "" || (suffix[0] == '/' && (|suffix| == 1 || suffix[1] != '/'))
  }

  // ----- when both readings of a pointer agree -------------------------------------------

  lemma {:induction false} TildeFree(prefix: string, rest: string)
    requires '~' !in prefix
    ensures Unescape(prefix + rest) == prefix + Unescape(rest)
  {
    if prefix == "" {
      assert prefix + rest == rest && prefix + Unescape(rest) == Unescape(rest);
    } else {
      hide Unescape;
      var c, tail := prefix[0], prefix[1..];
      TildeFree(tail, rest);
      assert prefix + rest == [c] + (tail + rest);
      if c == '/' {
        SlashUnescapes(tail + rest);
      } else {
        UnescapeCons(c, tail + rest);
      }
      assert prefix + Unescape(rest) == [c] + (tail + Unescape(rest));
    }
  }

  lemma SlashUnescapes(rest: string)
    ensures Unescape(['/'] + rest) == ['/'] + Unescape(rest)
  {
    hide Replace;
    var r := Replace(rest, "~1", "/");
    assert forall s: string | |s| >= 1 :: (['/'] + s)[0..2][0] == '/';
    ReplaceMiss('/', rest, "~1", "/");
    ReplaceMiss('/', r, "~0", "~");
  }

  lemma UnescapeFixes(token: string)
    requires '~' !in token
    ensures Unescape(token) == token
  {
    TildeFree(token, "");
    assert token + "" == token && Unescape("") == "";
  }

  lemma UnescapeNonEmpty(token: string)
    requires token != ""
    ensures Unescape(token) != ""
  {
  }

  lemma {:induction false} TrimmedSplit(s: string)
    ensures |Split(TrimSlashes(s))| <= |Split(s)|
  {
    if s != "" && s[0] == '/' {
      TrimmedSplit(s[1..]);
    }
  }

  lemma {:induction false} SplitHead(prefix: string, rest: string)
    requires NoSlash(prefix)
    ensures Split(prefix + rest)[0] == prefix + Split(rest)[0]
  {
    if prefix == "" {
      assert prefix + rest == rest && prefix + Split(rest)[0] == Split(rest)[0];
    } else {
      assert (prefix + rest)[1..] == prefix[1..] + rest;
      SplitHead(prefix[1..], rest);
      assert prefix + Split(rest)[0] == [prefix[0]] + (prefix[1..] + Split(rest)[0]);
    }
  }

  /** `insert_pointer` puts a node where `Value::pointer` looks for it exactly when the part
      after `/components` is empty or has one leading slash. */
  lemma TokensAgree(suffix: string)
    ensures PlainSuffix(suffix)
            <==> ResolveTokens(COMPONENTS + suffix) == Some(["components"] + InsertTokens(suffix))
  {
    var inner := "components";
    assert (COMPONENTS + suffix)[1..] == inner + suffix;
    UnescapeFixes(inner);
    if suffix == "" {
      assert inner + suffix == inner;
      SplitFirst(inner, "");
      assert UnescapeAll([inner]) == [inner] == [inner] + [];
    } else if suffix[0] == '/' {
      SlashSuffix(suffix[1..]);
      assert suffix == "/" + suffix[1..];
    } else {
      SplitHead(inner, suffix);
      var head := Split(suffix)[0];
      assert head != "";
      TildeFree(inner, head);
      UnescapeNonEmpty(head);
      assert UnescapeAll(Split(inner + suffix))[0] != inner;
    }
  }

  lemma SlashSuffix(rest: string)
    ensures (rest == "" || rest[0] != '/')
            <==> ResolveTokens(COMPONENTS + ("/" + rest)) == Some(["components"] + InsertTokens("/" + rest))
  {
    var inner := "components";
    assert (COMPONENTS + ("/" + rest))[1..] == inner + "/" + rest;
    UnescapeFixes(inner);
    SplitFirst(inner, rest);
    var tokens := UnescapeAll(Split(inner + "/" + rest));
    assert tokens[0] == inner;
    assert ("/" + rest)[1..] == rest;
    if rest == "" || rest[0] != '/' {
      assert TrimSlashes("/" + rest) == rest;
      assert tokens == [inner] + UnescapeAll(Split(rest));
    } else {
      TrimmedSplit(rest[1..]);
      assert |Split(rest)| == 1 + |Split(rest[1..])|;
      assert |tokens| == 1 + |Split(rest)| > 1 + |InsertTokens("/" + rest)|;
    }
  }
}
