/** JSON values, as `serde_json::Value` holds them, and addressing inside them. */
module JsonValues {
  import opened Strings

  datatype Json =
    | Null
    | Bool(b: bool)
    | Number(n: int)
    | Str(s: string)
    | Arr(items: seq<Json>)
    | Obj(fields: map<string, Json>)

  type Path = seq<string>

  /** The array position a pointer token names: digits without sign or leading zero. */
  function ParseIndex(token: string): Option<nat> {
    if token != "" && AllDigits(token) && (token[0] == '0' ==> |token| == 1) then Some(DigitsValue(token)) else None
  }

  function Child(v: Json, token: string): Option<Json> {
    match v
    case Obj(m) => if token in m then Some(m[token]) else None
    case Arr(items) =>
      var i := ParseIndex(token);
      if i.Some? && i.value < |items| then Some(items[i.value]) else None
    case _ => None
  }

  /** The node of `v` at a path of unescaped tokens. */
  function Get(v: Json, path: Path): Option<Json>
    decreases |path|
  {
    if path == [] then Some(v)
    else match Child(v, path[0])
      case Some(c) => Get(c, path[1..])
      case None => None
  }

  // ----- addressing -----------------------------------------------------------------------

  lemma {:induction false} IndexCanonical(token: string)
    requires ParseIndex(token).Some?
    ensures token == ToDecimal(ParseIndex(token).value)
  {
    var n := |token| - 1;
    var digit := token[n] as int - '0' as int;
    assert token == token[..n] + [token[n]];
    if n > 0 {
      hide ToDecimal;
      var tens := token[..n];
      assert tens[0] == token[0];
      IndexCanonical(tens);
      ZeroFirst();
      assert DigitsValue(tens) > 0;
      DecimalStep(DigitsValue(tens), digit);
    }
  }

  lemma ZeroFirst()
    ensures ToDecimal(0)[0] == '0'
  {
  }

  lemma DecimalStep(tens: nat, digit: nat)
    requires tens > 0 && digit < 10
    ensures ToDecimal(10 * tens + digit) == ToDecimal(tens) + [('0' as int + digit) as char]
  {
    assert (10 * tens + digit) / 10 == tens && (10 * tens + digit) % 10 == digit;
  }

  lemma SameIndex(a: string, b: string)
    requires ParseIndex(a).Some? && ParseIndex(a) == ParseIndex(b)
    ensures a == b
  {
    IndexCanonical(a);
    IndexCanonical(b);
  }

  lemma DecimalIndex(i: nat)
    ensures ParseIndex(ToDecimal(i)) == Some(i)
  {
  }

  lemma DecimalInjective(i: nat, j: nat)
    requires i != j
    ensures ToDecimal(i) != ToDecimal(j)
  {
    assert DigitsValue(ToDecimal(i)) == i && DigitsValue(ToDecimal(j)) == j;
  }

  lemma GetMember(m: map<string, Json>, k: string, rest: Path)
    requires k in m
    ensures Get(Obj(m), [k] + rest) == Get(m[k], rest)
  {
    assert ([k] + rest)[1..] == rest;
  }

  lemma GetHere()
    ensures forall v :: Get(v, []) == Some(v)
  {
  }

  lemma GetKey(v: Json, k: string)
    ensures v.Obj? ==> Get(v, [k]) == if k in v.fields then Some(v.fields[k]) else None
  {
    assert [k][1..] == [];
  }

  lemma GetMissing(m: map<string, Json>, k: string, rest: Path)
    requires k !in m
    ensures Get(Obj(m), [k] + rest) == None
  {
  }

  lemma GetItem(items: seq<Json>, i: nat, rest: Path)
    requires i < |items|
    ensures Get(Arr(items), [ToDecimal(i)] + rest) == Get(items[i], rest)
  {
    DecimalIndex(i);
    assert ([ToDecimal(i)] + rest)[1..] == rest;
  }
}
