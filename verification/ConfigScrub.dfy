/** Moving secrets out of a data source's configuration: every secret-bearing value is recorded in
    the secret store under its pointer and replaced in the configuration by a reference marker. */
module ConfigScrub {
  import opened Strings
  import opened JsonValues
  import opened JsonPointer
  import opened Redaction

  const STORE := "__config_secret_values"

  // ----- which values bear secrets --------------------------------------------------------

  function NormalChar(c: char): char {
    if c == '-' || c == ' ' then '_' else LowerChar(c)
  }

  /** Lower case, with `-` and ` ` read as `_`. */
  function Normalize(key: string): (r: string)
    ensures |r| == |key| && forall i | 0 <= i < |key| :: r[i] == NormalChar(key[i])
  {
    if key == "" then "" else [NormalChar(key[0])] + Normalize(key[1..])
  }

  predicate EndsWith(s: string, suffix: string) {
    |suffix| <= |s| && OccursAt(s, suffix, |s| - |suffix|)
  }

  predicate IsSecretLikeKey(key: string) {
    var name := Normalize(key);
    && name != "secret_ref" && name != "secret_version" && !EndsWith(name, "_ref")
    && (|| Occurs(name, "secret") || Occurs(name, "password") || Occurs(name, "token") || Occurs(name, "api_key")
        || Occurs(name, "apikey") || Occurs(name, "authorization") || Occurs(name, "private_key"))
  }

  /** `segment.parse::<usize>()` succeeds on a 64-bit host. */
  predicate ParsesAsUsize(segment: string) {
    var digits := if segment != "" && segment[0] == '+' then segment[1..] else segment;
    digits != "" && AllDigits(digits) && DigitsValue(digits) < 0x1_0000_0000_0000_0000
  }

  predicate MatchesHeadersValue(path: Path) {
    && |path| >= 3
    && path[|path| - 1] == "value" && path[|path| - 3] == "headers" && ParsesAsUsize(path[|path| - 2])
  }

  predicate MatchesCredentialsValue(path: Path) {
    |path| >= 2 && path[|path| - 1] == "value" && path[|path| - 2] == "credentials"
  }

  predicate IsSecretHeader(name: string) {
    ToAsciiLowercase(Trim(name)) in
      {"authorization", "proxy-authorization", "x-api-key", "api-key", "x-auth-token", "cookie"}
  }

  /** The header a name/value object names: its `name`, or else its `key`, when a string. */
  function HeaderName(parent: map<string, Json>): Option<string> {
    var named: Option<Json> :=
      if "name" in parent then Some(parent["name"])
      else if "key" in parent then Some(parent["key"])
      else None;
    match named
    case Some(Str(s)) => Some(s)
    case _ => None
  }

  /** `is_secret_bearing_config_value`; `path` ends in `key`. */
  predicate IsSecretBearing(key: string, child: Json, path: Path, parent: map<string, Json>) {
    if IsSecretLikeKey(key) then true
    else if key == "value" && MatchesHeadersValue(path) then
      HeaderName(parent).Some? && IsSecretHeader(HeaderName(parent).value)
    else key == "value" && MatchesCredentialsValue(path) && !child.Null?
  }

  predicate IsMarker(v: Json) {
    v.Obj? && "secret_ref" in v.fields && "secret_version" in v.fields
  }

  /** What a removed value is replaced by: the reference and version of the secret record. */
  datatype Reference = Reference(name: string, version: int) {
    function Marker(): Json {
      Obj(map["secret_ref" := Str(name), "secret_version" := Number(version)])
    }
  }

  /** The member is removed: it bears a secret and is not yet a marker. */
  predicate Extracted(parent: map<string, Json>, key: string, path: Path)
    requires key in parent
  {
    IsSecretBearing(key, parent[key], path + [key], parent) && !IsMarker(parent[key])
  }

  // ----- which values those are -----------------------------------------------------------

  const SECRET_WORDS :=
    {"secret", "password", "token", "api_key", "apikey", "authorization", "private_key"}

  /** By code points: `-` and the space become `_`, and A to Z move up by 32. */
  lemma NormalTable(c: char)
    ensures NormalChar(c) as int
            == if c as int in {0x20, 0x2D} then 0x5F else if 0x41 <= c as int <= 0x5A then c as int + 0x20 else c as int
  {
  }

  /** A key is like a secret's when, normalized, one of the words stands somewhere in it, and it
      neither is the name of a marker's member nor ends in `_ref`. */
  lemma SecretLikeExactly(key: string)
    ensures IsSecretLikeKey(key)
            <==> && (exists before, word, after ::
                      word in SECRET_WORDS && Normalize(key) == before + (word + after))
                 && Normalize(key) != "secret_version"
                 && !(exists before :: Normalize(key) == before + "_ref")
  {
    hide Normalize, Occurs, OccursAt, EndsWith;
    var name := Normalize(key);
    forall word ensures Occurs(name, word) <==> exists before, after :: name == before + (word + after) {
      OccursExactly(name, word);
    }
    EndsExactly(name, "_ref");
    assert "secret_ref" == "secret" + "_ref";
  }

  lemma OccursExactly(s: string, word: string)
    ensures Occurs(s, word) <==> exists before, after :: s == before + (word + after)
  {
    if i: nat :| i <= |s| && OccursAt(s, word, i) {
      assert s == s[..i] + (word + s[i + |word|..]);
    }
    if before, after :| s == before + (word + after) {
      assert s[|before|..|before| + |word|] == word;
      assert OccursAt(s, word, |before|);
    }
  }

  lemma EndsExactly(s: string, suffix: string)
    ensures EndsWith(s, suffix) <==> exists before :: s == before + suffix
  {
    if EndsWith(s, suffix) {
      assert s == s[..|s| - |suffix|] + suffix;
    }
    if before :| s == before + suffix {
      assert |s| - |suffix| == |before| && s[|before|..|before| + |suffix|] == suffix;
    }
  }

  const SECRET_HEADERS :=
    {"authorization", "proxy-authorization", "x-api-key", "api-key", "x-auth-token", "cookie"}

  /** A header's name counts in any case and with white space around it. */
  lemma SecretHeaderExactly(name: string)
    ensures IsSecretHeader(name)
            <==> exists before, core, after ::
                   && name == before + (core + after) && Blank(before) && Blank(after)
                   && ToAsciiLowercase(core) in SECRET_HEADERS
  {
    hide ToAsciiLowercase, Blank;
    if IsSecretHeader(name) {
      var before, after := TrimKeeps(name);
    }
    if before, core, after :| name == before + (core + after) && Blank(before) && Blank(after)
                              && ToAsciiLowercase(core) in SECRET_HEADERS {
      HeaderEnds(core);
      TrimPadded(before, core, after);
    }
  }

  lemma HeaderEnds(core: string)
    requires ToAsciiLowercase(core) in SECRET_HEADERS
    ensures core != "" && !IsWhitespace(core[0]) && !IsWhitespace(core[|core| - 1])
  {
    hide IsWhitespace, LowerChar, ToAsciiLowercase;
    HeaderLetters(ToAsciiLowercase(core));
    LettersNotBlank(core[0]);
    LettersNotBlank(core[|core| - 1]);
  }

  lemma HeaderLetters(name: string)
    requires name in SECRET_HEADERS
    ensures name != "" && name[0] in {'a', 'p', 'x', 'c'} && name[|name| - 1] in {'n', 'y', 'e'}
  {
  }

  lemma LettersNotBlank(c: char)
    ensures 'a' <= LowerChar(c) <= 'z' ==> !IsWhitespace(c)
  {
  }

  /** An index is one, with or without a plus sign; a text with another character is not. */
  lemma UsizeOfIndex(n: nat, segment: string)
    ensures ParsesAsUsize(ToDecimal(n)) <==> n < 0x1_0000_0000_0000_0000
    ensures ParsesAsUsize("+" + ToDecimal(n)) <==> n < 0x1_0000_0000_0000_0000
    ensures !ParsesAsUsize("") && !ParsesAsUsize("+")
    ensures (exists i | 0 < i < |segment| :: !IsDigit(segment[i])) ==> !ParsesAsUsize(segment)
  {
    hide ToDecimal, DigitsValue;
    assert ("+" + ToDecimal(n))[1..] == ToDecimal(n);
    if i :| 0 < i < |segment| && !IsDigit(segment[i]) {
      assert segment[1..][i - 1] == segment[i];
    }
  }

  /** The value of a header, an item of a list `headers` whose name is a secret header's. */
  ghost predicate IsHeaderValue(path: Path, parent: map<string, Json>) {
    exists above: Path, i, h ::
      && path == above + ["headers", i, "value"] && ParsesAsUsize(i) && IsSecretHeader(h)
      && (if "name" in parent then parent["name"] == Str(h) else "key" in parent && parent["key"] == Str(h))
  }

  /** The value of credentials, unless it is null. */
  ghost predicate IsCredentialsValue(path: Path, child: Json) {
    child != Null && exists above: Path :: path == above + ["credentials", "value"]
  }

  /** A member bears a secret by its key, as a header's value or as the value of credentials. */
  lemma BearsExactly(key: string, child: Json, above: Path, parent: map<string, Json>)
    ensures IsSecretBearing(key, child, above + [key], parent)
            <==> IsSecretLikeKey(key) || IsHeaderValue(above + [key], parent) || IsCredentialsValue(above
              + [key], child)
  {
    hide IsSecretLikeKey, IsSecretHeader, MatchesHeadersValue, MatchesCredentialsValue, IsHeaderValue,
      IsCredentialsValue;
    var path := above + [key];
    assert path[|path| - 1] == key;
    HeaderPlace(path, parent);
    CredentialsPlace(path, child);
    PlacesApart(path);
  }

  lemma HeaderPlace(path: Path, parent: map<string, Json>)
    requires path != []
    ensures IsHeaderValue(path, parent)
            <==> MatchesHeadersValue(path) && HeaderName(parent).Some? && IsSecretHeader(HeaderName(parent).value)
  {
    hide ParsesAsUsize, IsSecretHeader;
    LastThree(path);
    if a: Path, i :| path == a + ["headers", i, "value"] {
      assert path[|path| - 1] == "value" && path[|path| - 2] == i && path[|path| - 3] == "headers";
    }
  }

  lemma CredentialsPlace(path: Path, child: Json)
    requires path != []
    ensures IsCredentialsValue(path, child) <==> MatchesCredentialsValue(path) && !child.Null?
  {
    LastThree(path);
    if a: Path :| path == a + ["credentials", "value"] {
      assert path[|path| - 1] == "value" && path[|path| - 2] == "credentials";
    }
  }

  lemma PlacesApart(path: Path)
    ensures MatchesCredentialsValue(path) ==> !MatchesHeadersValue(path)
    ensures MatchesCredentialsValue(path) || MatchesHeadersValue(path) ==> path != [] && path[|path| - 1] == "value"
  {
    hide ParsesAsUsize;
    CredentialsNoIndex();
  }

  lemma LastThree(path: Path)
    ensures |path| >= 2 ==> path == path[..|path| - 2] + [path[|path| - 2], path[|path| - 1]]
    ensures |path| >= 3 ==> path == path[..|path| - 3] + [path[|path| - 3], path[|path| - 2], path[|path| - 1]]
  {
  }

  lemma CredentialsNoIndex()
    ensures !ParsesAsUsize("credentials")
  {
    assert "credentials"[0] == 'c';
  }

  // ----- the specification of the scrub -----------------------------------------------------

  /** The sanitized form of the value at `path`. */
  function Scrubbed(v: Json, r: Reference, path: Path): Json {
    match v
    case Obj(m) =>
      Obj(map k | k in m :: if Extracted(m, k, path) then r.Marker() else Scrubbed(m[k], r, path + [k]))
    case Arr(items) => Arr(seq(|items|, i requires 0 <= i < |items| => Scrubbed(items[i], r, path + [ToDecimal(i)])))
    case _ => v
  }

  /** A removed value and where it was. */
  datatype Entry = Entry(path: Path, value: Json)

  /** Everything the scrub removes from the value at `path`. */
  function Removed(v: Json, path: Path): set<Entry>
    decreases v, 0
  {
    match v
    case Obj(m) => set k, e | k in m && e in RemovedMember(m, k, path) :: e
    case Arr(items) => set i, e | 0 <= i < |items| && e in Removed(items[i], path + [ToDecimal(i)]) :: e
    case _ => {}
  }

  function RemovedMember(m: map<string, Json>, k: string, path: Path): set<Entry>
    requires k in m
    decreases m[k], 1
  {
    if Extracted(m, k, path) then {Entry(path + [k], m[k])} else Removed(m[k], path + [k])
  }

  /** `path.join("/")` after a slash: the pointer a value is recorded under, unescaped. */
  function Pointer(path: Path): string {
    if path == [] then "/" else if |path| == 1 then "/" + path[0] else "/" + path[0] + Pointer(path[1..])
  }

  /** `store_config_secret_value`. */
  function Store(secret: Json, path: Path, value: Json): Json {
    if !secret.Obj? then secret
    else
      var top := if |path| == 1 && path[0] !in secret.fields then secret.fields[path[0] := value] else secret.fields;
      var entry := if STORE in top then top[STORE] else Obj(map[]);
      Obj(top[STORE := if entry.Obj? then Obj(entry.fields[Pointer(path) := value]) else entry])
  }

  function StoreAll(secret: Json, entries: seq<Entry>): Json {
    if entries == [] then secret
    else
      var last := entries[|entries| - 1];
      Store(StoreAll(secret, entries[..|entries| - 1]), last.path, last.value)
  }

  lemma {:induction false} StoreAllAppend(secret: Json, a: seq<Entry>, b: seq<Entry>)
    ensures StoreAll(secret, a + b) == StoreAll(StoreAll(secret, a), b)
    decreases |b|
  {
    if b == [] {
      assert a + b == a;
    } else {
      var n := |b| - 1;
      assert (a + b)[..|a + b| - 1] == a + b[..n];
      StoreAllAppend(secret, a, b[..n]);
    }
  }

  // ----- the scrub --------------------------------------------------------------------------

  ghost predicate Lists(entries: seq<Entry>, removed: set<Entry>) {
    forall e :: e in entries <==> e in removed
  }

  /** The recursion's shared state: the path stack and the secret object being filled. */
  class ConfigScrubber {
    const reference: Reference
    var path: Path
    var secret: Json

    constructor (reference: Reference, secret: Json)
      ensures this.reference == reference && this.secret == secret && path == []
    {
      this.reference, this.secret, path := reference, secret, [];
    }

    /** `scrub_secret_like_config_values`: the path stack is restored, and the entries, in the
        order they were stored, are exactly the removed values. */
    method Scrub(v: Json) returns (sanitized: Json, ghost entries: seq<Entry>)
      modifies this
      ensures path == old(path)
      ensures sanitized == Scrubbed(v, reference, path)
      ensures Lists(entries, Removed(v, path))
      ensures secret == StoreAll(old(secret), entries)
      decreases v, 1
    {
      entries := [];
      match v
      case Obj(m) =>
        sanitized, entries := ScrubObject(m);
      case Arr(items) =>
        sanitized, entries := ScrubArray(items);
      case _ =>
        sanitized := v;
    }

    method ScrubObject(m: map<string, Json>) returns (sanitized: Json, ghost entries: seq<Entry>)
      modifies this
      ensures path == old(path)
      ensures sanitized == Scrubbed(Obj(m), reference, path)
      ensures Lists(entries, Removed(Obj(m), path))
      ensures secret == StoreAll(old(secret), entries)
      decreases Obj(m), 0
    {
      hide StoreAll, Scrubbed, Removed, Extracted, RemovedMember, RemovedBy;
      entries := [];
      RemovedByNone(m, path);
      var fields: map<string, Json> := map[];
      var keys := Ascending(m.Keys);
      NothingStored(secret);
      for i := 0 to |keys|
        invariant path == old(path)
        invariant fields.Keys == (set k | k in keys[..i])
        invariant forall k | k in fields :: k in m && fields[k] == ScrubbedMember(m, k, reference, path)
        invariant Lists(entries, RemovedBy(m, keys[..i], path))
        invariant secret == StoreAll(old(secret), entries)
      {
        var key := keys[i];
        assert keys[..i + 1] == keys[..i] + [key];
        assert key in m;
        var next, added := ScrubMember(m, key);
        RemovedBySnoc(m, keys[..i], key, path);
        StoreAllAppend(old(secret), entries, added);
        entries := entries + added;
        fields := fields[key := next];
      }
      assert keys[..|keys|] == keys;
      sanitized := Obj(fields);
      ObjectScrubbed(m, reference, path, fields);
      RemovedByAll(m, keys, path);
    }

    /** One turn of the object loop: push the key, remove or descend, pop. */
    method ScrubMember(m: map<string, Json>, key: string) returns (next: Json, ghost added: seq<Entry>)
      requires key in m
      modifies this
      ensures path == old(path)
      ensures next == ScrubbedMember(m, key, reference, path)
      ensures Lists(added, RemovedMember(m, key, path))
      ensures secret == StoreAll(old(secret), added)
      decreases m[key], 2
    {
      hide StoreAll, Scrubbed, Removed, IsSecretBearing, IsMarker;
      var child := m[key];
      path := path + [key];
      assert path[..|path| - 1] == old(path);
      if IsSecretBearing(key, child, path, m) && !IsMarker(child) {
        added := [Entry(path, child)];
        StoreOne(secret, Entry(path, child));
        secret := Store(secret, path, child);
        next := reference.Marker();
      } else {
        next, added := Scrub(child);
      }
      path := path[..|path| - 1];
    }

    method ScrubArray(items: seq<Json>) returns (sanitized: Json, ghost entries: seq<Entry>)
      modifies this
      ensures path == old(path)
      ensures sanitized == Scrubbed(Arr(items), reference, path)
      ensures Lists(entries, Removed(Arr(items), path))
      ensures secret == StoreAll(old(secret), entries)
      decreases Arr(items), 0
    {
      hide StoreAll, Scrubbed, Removed;
      entries := [];
      var out: seq<Json> := [];
      NothingStored(secret);
      for i := 0 to |items|
        invariant path == old(path)
        invariant |out| == i && forall j | 0 <= j < i :: out[j] == Scrubbed(items[j], reference, path + [ToDecimal(j)])
        invariant forall e :: e in entries <==> exists j | 0 <= j < i :: e in Removed(items[j], path + [ToDecimal(j)])
        invariant secret == StoreAll(old(secret), entries)
      {
        path := path + [ToDecimal(i)];
        assert path[..|path| - 1] == old(path);
        var next, added := Scrub(items[i]);
        path := path[..|path| - 1];
        StoreAllAppend(old(secret), entries, added);
        entries := entries + added;
        out := out + [next];
      }
      sanitized := Arr(out);
      ArrayScrubbed(items, reference, path, out);
      forall e ensures e in entries <==> e in Removed(Arr(items), path) {
        ArrayRemoved(items, path, e);
      }
    }
  }

  /** What the members under some keys lose. */
  function RemovedBy(m: map<string, Json>, keys: seq<string>, path: Path): set<Entry> {
    set k, e | k in keys && k in m && e in RemovedMember(m, k, path) :: e
  }

  lemma RemovedByNone(m: map<string, Json>, path: Path)
    ensures Lists([], RemovedBy(m, [], path))
  {
  }

  lemma RemovedBySnoc(m: map<string, Json>, keys: seq<string>, key: string, path: Path)
    requires key in m
    ensures RemovedBy(m, keys + [key], path) == RemovedBy(m, keys, path) + RemovedMember(m, key, path)
  {
    hide RemovedMember;
  }

  lemma RemovedByAll(m: map<string, Json>, keys: seq<string>, path: Path)
    requires forall k :: k in keys <==> k in m
    ensures RemovedBy(m, keys, path) == Removed(Obj(m), path)
  {
    hide RemovedMember;
  }

  function ScrubbedMember(m: map<string, Json>, k: string, r: Reference, path: Path): Json
    requires k in m
  {
    if Extracted(m, k, path) then r.Marker() else Scrubbed(m[k], r, path + [k])
  }

  lemma NothingStored(secret: Json)
    ensures StoreAll(secret, []) == secret
  {
  }

  lemma StoreOne(secret: Json, e: Entry)
    ensures StoreAll(secret, [e]) == Store(secret, e.path, e.value)
  {
    assert [e][..0] == [];
    NothingStored(secret);
  }

  lemma ObjectScrubbed(m: map<string, Json>, r: Reference, path: Path, fields: map<string, Json>)
    requires fields.Keys == m.Keys && forall k | k in fields :: fields[k] == ScrubbedMember(m, k, r, path)
    ensures Scrubbed(Obj(m), r, path) == Obj(fields)
  {
  }

  lemma ObjectRemoved(m: map<string, Json>, path: Path, e: Entry)
    ensures e in Removed(Obj(m), path) <==> exists k | k in m :: e in RemovedMember(m, k, path)
  {
  }

  lemma ArrayScrubbed(items: seq<Json>, r: Reference, path: Path, out: seq<Json>)
    requires |out| == |items| && forall i | 0 <= i < |items| :: out[i] == Scrubbed(items[i], r, path + [ToDecimal(i)])
    ensures Scrubbed(Arr(items), r, path) == Arr(out)
  {
  }

  lemma ArrayRemoved(items: seq<Json>, path: Path, e: Entry)
    ensures e in Removed(Arr(items), path)
            <==> exists i | 0 <= i < |items| :: e in Removed(items[i], path + [ToDecimal(i)])
  {
  }

  // ----- a scrubbed value needs no scrubbing ----------------------------------------------------

  /** Every secret-bearing member, at any depth, holds a marker. */
  predicate Marked(v: Json, path: Path) {
    match v
    case Obj(m) =>
      forall k | k in m :: (IsSecretBearing(k, m[k], path + [k], m) ==> IsMarker(m[k])) && Marked(m[k], path + [k])
    case Arr(items) => forall i | 0 <= i < |items| :: Marked(items[i], path + [ToDecimal(i)])
    case _ => true
  }

  lemma ShortKey(key: string)
    requires |key| < 5
    ensures !IsSecretLikeKey(key)
  {
  }

  lemma NormalizeFixes(key: string)
    requires forall i | 0 <= i < |key| :: key[i] == '_' || 'a' <= key[i] <= 'z'
    ensures Normalize(key) == key
  {
  }

  lemma MarkerKeys()
    ensures !IsSecretLikeKey("secret_ref") && !IsSecretLikeKey("secret_version")
  {
    hide Normalize, Occurs, EndsWith;
    NormalizeFixes("secret_ref");
    NormalizeFixes("secret_version");
  }

  lemma MarkerStable(r: Reference, r': Reference, path: Path)
    ensures Scrubbed(r.Marker(), r', path) == r.Marker()
    ensures Marked(r.Marker(), path)
  {
    hide IsSecretLikeKey;
    MarkerKeys();
    var m := r.Marker().fields;
    assert m.Keys == {"secret_ref", "secret_version"};
    forall k | k in m ensures !Extracted(m, k, path) && Scrubbed(m[k], r', path + [k]) == m[k] {
    }
    ObjectScrubbed(m, r', path, m);
  }

  /** Scrubbing keeps what decides whether a member bears a secret. */
  lemma HeaderNameKept(m: map<string, Json>, r: Reference, path: Path)
    ensures HeaderName(Scrubbed(Obj(m), r, path).fields) == HeaderName(m)
  {
    hide IsSecretLikeKey;
    ShortKey("name");
    ShortKey("key");
    var fields := Scrubbed(Obj(m), r, path).fields;
    MemberOf(m, r, path, "name");
    MemberOf(m, r, path, "key");
  }

  lemma MemberOf(m: map<string, Json>, r: Reference, path: Path, k: string)
    ensures var s := Scrubbed(Obj(m), r, path);
            && s.Obj? && s.fields.Keys == m.Keys
            && (k in m ==> s.fields[k] == ScrubbedMember(m, k, r, path))
  {
  }

  lemma MemberSettled(m: map<string, Json>, r: Reference, path: Path, k: string)
    requires k in m
    ensures var fields := Scrubbed(Obj(m), r, path).fields;
            k in fields && (IsSecretBearing(k, fields[k], path + [k], fields) ==> IsMarker(fields[k]))
  {
    hide IsSecretLikeKey, MatchesHeadersValue, MatchesCredentialsValue, IsSecretHeader, HeaderName;
    MemberOf(m, r, path, k);
    HeaderNameKept(m, r, path);
    MarkerIsMarker(r);
    ScrubKeepsKind(m[k], r, path + [k]);
  }

  lemma MarkerIsMarker(r: Reference)
    ensures IsMarker(r.Marker())
  {
  }

  lemma ScrubKeepsKind(v: Json, r: Reference, path: Path)
    ensures var s := Scrubbed(v, r, path);
            (s.Null? <==> v.Null?) && (IsMarker(s) <==> IsMarker(v))
  {
  }

  /** The scrub is complete and idempotent: its result is marked throughout... */
  lemma {:induction false} ScrubMarks(v: Json, r: Reference, path: Path)
    ensures Marked(Scrubbed(v, r, path), path)
    decreases v
  {
    match v
    case Obj(m) =>
      var fields := Scrubbed(v, r, path).fields;
      forall k | k in fields
        ensures IsSecretBearing(k, fields[k], path + [k], fields) ==> IsMarker(fields[k])
        ensures Marked(fields[k], path + [k])
      {
        hide IsSecretBearing, Marked;
        MemberSettled(m, r, path, k);
        MemberOf(m, r, path, k);
        MarkerStable(r, r, path + [k]);
        ScrubMarks(m[k], r, path + [k]);
      }
    case Arr(items) =>
      forall i | 0 <= i < |items| ensures Marked(Scrubbed(items[i], r, path + [ToDecimal(i)]), path + [ToDecimal(i)]) {
        ScrubMarks(items[i], r, path + [ToDecimal(i)]);
      }
    case _ =>
  }

  /** ...and scrubbing a value that is marked throughout, whatever the reference, removes nothing
      and changes nothing. */
  lemma {:induction false} MarkedIsFixed(v: Json, r: Reference, path: Path)
    requires Marked(v, path)
    ensures Scrubbed(v, r, path) == v && Removed(v, path) == {}
    decreases v
  {
    match v
    case Obj(m) =>
      forall k | k in m ensures ScrubbedMember(m, k, r, path) == m[k] && RemovedMember(m, k, path) == {} {
        hide IsSecretBearing;
        MarkedIsFixed(m[k], r, path + [k]);
      }
      ObjectScrubbed(m, r, path, m);
      forall e ensures e !in Removed(v, path) {
        ObjectRemoved(m, path, e);
      }
    case Arr(items) =>
      forall i | 0 <= i < |items|
        ensures Scrubbed(items[i], r, path + [ToDecimal(i)]) == items[i]
                && Removed(items[i], path + [ToDecimal(i)]) == {}
      {
        MarkedIsFixed(items[i], r, path + [ToDecimal(i)]);
      }
      ArrayScrubbed(items, r, path, items);
    case _ =>
  }

  // ----- where removed values were ---------------------------------------------------------------

  /** A removed value was strictly below the value scrubbed; below an object, under one member. */
  lemma {:induction false} RemovedBelow(v: Json, path: Path, e: Entry)
    requires e in Removed(v, path)
    ensures |path| < |e.path| && path <= e.path
    decreases v
  {
    match v
    case Obj(m) =>
      var k :| k in m && e in RemovedMember(m, k, path);
      if !Extracted(m, k, path) {
        RemovedBelow(m[k], path + [k], e);
        assert e.path[..|path|] == (path + [k])[..|path|];
      }
    case Arr(items) =>
      var i :| 0 <= i < |items| && e in Removed(items[i], path + [ToDecimal(i)]);
      RemovedBelow(items[i], path + [ToDecimal(i)], e);
      assert e.path[..|path|] == (path + [ToDecimal(i)])[..|path|];
    case _ =>
  }

  lemma MemberBelow(m: map<string, Json>, k: string, path: Path, e: Entry)
    requires k in m && e in RemovedMember(m, k, path)
    ensures |path| < |e.path| && path <= e.path && e.path[|path|] == k
  {
    if !Extracted(m, k, path) {
      RemovedBelow(m[k], path + [k], e);
      assert e.path[..|path|] == (path + [k])[..|path|];
    }
  }

  lemma ItemBelow(items: seq<Json>, i: nat, path: Path, e: Entry)
    requires i < |items| && e in Removed(items[i], path + [ToDecimal(i)])
    ensures |path| < |e.path| && path <= e.path && e.path[|path|] == ToDecimal(i)
  {
    RemovedBelow(items[i], path + [ToDecimal(i)], e);
    assert e.path[..|path|] == (path + [ToDecimal(i)])[..|path|];
  }

  /** No removed value was inside another, and no two were at one place. */
  lemma {:induction false} RemovedUnnested(v: Json, path: Path, e: Entry, f: Entry)
    requires e in Removed(v, path) && f in Removed(v, path) && e.path <= f.path
    ensures e == f
    decreases v
  {
    match v
    case Obj(m) =>
      var k :| k in m && e in RemovedMember(m, k, path);
      var j :| j in m && f in RemovedMember(m, j, path);
      MemberBelow(m, k, path, e);
      MemberBelow(m, j, path, f);
      if !Extracted(m, k, path) {
        RemovedUnnested(m[k], path + [k], e, f);
      }
    case Arr(items) =>
      var i :| 0 <= i < |items| && e in Removed(items[i], path + [ToDecimal(i)]);
      var j :| 0 <= j < |items| && f in Removed(items[j], path + [ToDecimal(j)]);
      ItemBelow(items, i, path, e);
      ItemBelow(items, j, path, f);
      assert DigitsValue(ToDecimal(i)) == i && DigitsValue(ToDecimal(j)) == j;
      RemovedUnnested(items[i], path + [ToDecimal(i)], e, f);
    case _ =>
  }

  // ----- putting removed values back -----------------------------------------------------------------

  /** The value with the node at an existing path replaced. */
  function PutAt(doc: Json, path: Path, value: Json): Json
    decreases |path|
  {
    if path == [] then value
    else match doc
      case Obj(m) => if path[0] in m then Obj(m[path[0] := PutAt(m[path[0]], path[1..], value)]) else doc
      case Arr(items) =>
        var i := ParseIndex(path[0]);
        if i.Some? && i.value < |items| then Arr(items[i.value := PutAt(items[i.value], path[1..], value)]) else doc
      case _ => doc
  }

  /** Half way back: the values removed from the places in `done` are in place again. */
  function Mixed(v: Json, r: Reference, path: Path, done: set<Path>): Json
    decreases v, 0
  {
    match v
    case Obj(m) => Obj(map k | k in m :: MixedMember(m, k, r, path, done))
    case Arr(items) => Arr(seq(|items|, i requires 0 <= i < |items| => Mixed(items[i], r, path + [ToDecimal(i)], done)))
    case _ => v
  }

  function MixedMember(m: map<string, Json>, k: string, r: Reference, path: Path, done: set<Path>): Json
    requires k in m
    decreases m[k], 1
  {
    if !Extracted(m, k, path) then Mixed(m[k], r, path + [k], done)
    else if path + [k] in done then m[k]
    else r.Marker()
  }

  lemma MixedObject(m: map<string, Json>, r: Reference, path: Path, done: set<Path>, fields: map<string, Json>)
    requires fields.Keys == m.Keys && forall k | k in fields :: fields[k] == MixedMember(m, k, r, path, done)
    ensures Mixed(Obj(m), r, path, done) == Obj(fields)
  {
    hide MixedMember;
  }

  lemma {:induction false} MixedStart(v: Json, r: Reference, path: Path)
    ensures Mixed(v, r, path, {}) == Scrubbed(v, r, path)
    decreases v
  {
    match v
    case Obj(m) =>
      hide Extracted, Scrubbed, Mixed;
      var fields := map k | k in m :: ScrubbedMember(m, k, r, path);
      forall k | k in m ensures MixedMember(m, k, r, path, {}) == ScrubbedMember(m, k, r, path) {
        MixedStart(m[k], r, path + [k]);
      }
      MixedObject(m, r, path, {}, fields);
      ObjectScrubbed(m, r, path, fields);
    case Arr(items) =>
      forall i | 0 <= i < |items|
        ensures Mixed(items[i], r, path + [ToDecimal(i)], {}) == Scrubbed(items[i], r, path + [ToDecimal(i)])
      {
        MixedStart(items[i], r, path + [ToDecimal(i)]);
      }
    case _ =>
  }

  lemma {:induction false} MixedEnd(v: Json, r: Reference, path: Path, done: set<Path>)
    requires forall e | e in Removed(v, path) :: e.path in done
    ensures Mixed(v, r, path, done) == v
    decreases v
  {
    match v
    case Obj(m) =>
      forall k | k in m ensures MixedMember(m, k, r, path, done) == m[k] {
        assert forall e | e in RemovedMember(m, k, path) :: e in Removed(v, path);
        if Extracted(m, k, path) {
          assert Entry(path + [k], m[k]) in RemovedMember(m, k, path);
        } else {
          MixedEnd(m[k], r, path + [k], done);
        }
      }
    case Arr(items) =>
      forall i | 0 <= i < |items| ensures Mixed(items[i], r, path + [ToDecimal(i)], done) == items[i] {
        assert forall e | e in Removed(items[i], path + [ToDecimal(i)]) :: e in Removed(v, path);
        MixedEnd(items[i], r, path + [ToDecimal(i)], done);
      }
    case _ =>
  }

  /** A place elsewhere does not matter. */
  lemma {:induction false} MixedElsewhere(v: Json, r: Reference, path: Path, done: set<Path>, p: Path)
    requires !(path <= p)
    ensures Mixed(v, r, path, done + {p}) == Mixed(v, r, path, done)
    decreases v
  {
    match v
    case Obj(m) =>
      forall k | k in m ensures MixedMember(m, k, r, path, done + {p}) == MixedMember(m, k, r, path, done) {
        LongerElsewhere(path, k, p);
        MixedElsewhere(m[k], r, path + [k], done, p);
      }
    case Arr(items) =>
      forall i | 0 <= i < |items|
        ensures Mixed(items[i], r, path + [ToDecimal(i)], done + {p}) == Mixed(items[i], r, path + [ToDecimal(i)], done)
      {
        LongerElsewhere(path, ToDecimal(i), p);
        MixedElsewhere(items[i], r, path + [ToDecimal(i)], done, p);
      }
    case _ =>
  }

  lemma LongerElsewhere(path: Path, token: string, p: Path)
    ensures path + [token] <= p ==> path <= p && |path| < |p| && p[|path|] == token
  {
    if path + [token] <= p {
      assert p[..|path|] == (path + [token])[..|path|];
    }
  }

  /** Putting one removed value back adds its place to those done. */
  lemma {:induction false} PutBackOne(v: Json, r: Reference, path: Path, done: set<Path>, rest: Path, value: Json)
    requires Entry(path + rest, value) in Removed(v, path)
    ensures PutAt(Mixed(v, r, path, done), rest, value) == Mixed(v, r, path, done + {path + rest})
    decreases v, 1
  {
    hide Mixed, PutAt;
    match v
    case Obj(m) => PutBackInObject(m, r, path, done, rest, value);
    case Arr(items) => PutBackInArray(items, r, path, done, rest, value);
    case _ =>
  }

  lemma PutBackInObject(m: map<string, Json>, r: Reference, path: Path, done: set<Path>, rest: Path, value: Json)
    requires Entry(path + rest, value) in Removed(Obj(m), path)
    ensures PutAt(Mixed(Obj(m), r, path, done), rest, value) == Mixed(Obj(m), r, path, done + {path + rest})
    decreases Obj(m), 0
  {
    hide Mixed;
    var e := Entry(path + rest, value);
    var k :| k in m && e in RemovedMember(m, k, path);
    MemberBelow(m, k, path, e);
    assert path + rest == (path + [k]) + rest[1..];
    if Extracted(m, k, path) {
      assert rest[1..] == [];
    } else {
      PutBackOne(m[k], r, path + [k], done, rest[1..], value);
    }
    forall j | j in m && j != k
      ensures MixedMember(m, j, r, path, done + {e.path}) == MixedMember(m, j, r, path, done)
    {
      LongerElsewhere(path, j, e.path);
      MixedElsewhere(m[j], r, path + [j], done, e.path);
    }
    PutBackMember(m, r, path, done, rest, value);
  }

  lemma PutBackInArray(items: seq<Json>, r: Reference, path: Path, done: set<Path>, rest: Path, value: Json)
    requires Entry(path + rest, value) in Removed(Arr(items), path)
    ensures PutAt(Mixed(Arr(items), r, path, done), rest, value) == Mixed(Arr(items), r, path, done + {path + rest})
    decreases Arr(items), 0
  {
    hide Mixed, PutAt, Removed, DigitsValue;
    var e := Entry(path + rest, value);
    ArrayRemoved(items, path, e);
    var i :| 0 <= i < |items| && e in Removed(items[i], path + [ToDecimal(i)]);
    ItemBelow(items, i, path, e);
    TokenMoves(path, rest);
    PutBackOne(items[i], r, path + [ToDecimal(i)], done, rest[1..], value);
    OtherItems(items, i, r, path, done, e.path);
    PutBackItem(items, i, r, path, done, rest, value);
  }

  lemma TokenMoves(path: Path, rest: Path)
    requires rest != []
    ensures path + rest == (path + [rest[0]]) + rest[1..] && (path + rest)[|path|] == rest[0]
  {
  }

  lemma OtherItems(items: seq<Json>, i: nat, r: Reference, path: Path, done: set<Path>, p: Path)
    requires i < |items| && |path| < |p| && p[|path|] == ToDecimal(i)
    ensures forall j | 0 <= j < |items| && j != i ::
              Mixed(items[j], r, path + [ToDecimal(j)], done + {p}) == Mixed(items[j], r, path + [ToDecimal(j)], done)
  {
    hide Mixed, DigitsValue;
    forall j | 0 <= j < |items| && j != i
      ensures Mixed(items[j], r, path + [ToDecimal(j)], done + {p}) == Mixed(items[j], r, path + [ToDecimal(j)], done)
    {
      DecimalInjective(i, j);
      LongerElsewhere(path, ToDecimal(j), p);
      MixedElsewhere(items[j], r, path + [ToDecimal(j)], done, p);
    }
  }

  lemma PutBackMember(m: map<string, Json>, r: Reference, path: Path, done: set<Path>, rest: Path, value: Json)
    requires rest != [] && rest[0] in m
    requires var k := rest[0];
             PutAt(MixedMember(m, k, r, path, done), rest[1..], value)
             == MixedMember(m, k, r, path, done + {path + rest})
    requires forall j | j in m && j != rest[0] ::
               MixedMember(m, j, r, path, done + {path + rest}) == MixedMember(m, j, r, path, done)
    ensures PutAt(Mixed(Obj(m), r, path, done), rest, value) == Mixed(Obj(m), r, path, done + {path + rest})
  {
    hide MixedMember, Extracted;
  }

  lemma PutBackItem(items: seq<Json>, i: nat, r: Reference, path: Path, done: set<Path>, rest: Path, value: Json)
    requires i < |items| && rest != [] && rest[0] == ToDecimal(i)
    requires var below := path + [ToDecimal(i)];
             PutAt(Mixed(items[i], r, below, done), rest[1..], value) == Mixed(items[i], r, below, done + {path + rest})
    requires forall j | 0 <= j < |items| && j != i ::
               Mixed(items[j], r, path + [ToDecimal(j)], done + {path + rest})
               == Mixed(items[j], r, path + [ToDecimal(j)], done)
    ensures PutAt(Mixed(Arr(items), r, path, done), rest, value) == Mixed(Arr(items), r, path, done + {path + rest})
  {
    hide DigitsValue;
    assert ParseIndex(rest[0]) == Some(i);
  }

  // ----- pointers --------------------------------------------------------------------------------------

  predicate SlashFree(path: Path) {
    path != [] && forall t | t in path :: NoSlash(t)
  }

  /** No key or index on the way to a removed value holds a slash. */
  predicate RemovedSlashFree(config: Json) {
    forall e | e in Removed(config, []) :: SlashFree(e.path)
  }

  /** The place a recorded pointer names: its tokens, unescaped as they are stored. */
  function PathAt(pointer: string): Path {
    if pointer == "" then [] else Split(pointer[1..])
  }

  /** Reading a pointer gives the path back, also when more pointer text follows. */
  lemma {:induction false} PointerRoundTrip(path: Path, rest: string)
    requires SlashFree(path)
    ensures Pointer(path) != "" && PathAt(Pointer(path)) == path
    ensures Pointer(path)[0] == '/' && Split(Pointer(path)[1..] + "/" + rest) == path + Split(rest)
    decreases |path|
  {
    hide Split, NoSlash;
    var token, tail := path[0], path[1..];
    assert path == [token] + tail;
    if |path| == 1 {
      assert ("/" + token)[1..] == token;
      SplitFirst(token, rest);
    } else {
      assert SlashFree(tail);
      PointerRoundTrip(tail, rest);
      var text := Pointer(tail)[1..];
      assert Pointer(tail) == "/" + text;
      assert Pointer(path)[1..] == token + "/" + text;
      SplitFirst(token, text);
      SplitFirst(token, text + "/" + rest);
      assert token + "/" + text + "/" + rest == token + "/" + (text + "/" + rest);
      assert [token] + (tail + Split(rest)) == path + Split(rest);
    }
  }

  lemma {:induction false} SplitSlashFree(s: string)
    ensures SlashFree(Split(s))
  {
    if s != "" {
      SplitSlashFree(s[1..]);
      var r := Split(s[1..]);
      forall t | t in Split(s) ensures NoSlash(t) {
        assert NoSlash(r[0]) && r == [r[0]] + r[1..];
        assert s[0] != '/' ==> t == [s[0]] + r[0] || t in r[1..];
      }
    }
  }

  /** A stored pointer names the place it was made from exactly when no token holds a slash. */
  lemma PointerNamesPath(path: Path)
    ensures PathAt(Pointer(path)) == path <==> SlashFree(path)
  {
    if SlashFree(path) {
      PointerRoundTrip(path, "");
    } else {
      assert Pointer(path) != "" by { PointerNotEmpty(path); }
      SplitSlashFree(Pointer(path)[1..]);
    }
  }

  lemma PointerNotEmpty(path: Path)
    ensures Pointer(path) != ""
  {
  }

  lemma {:induction false} SplitLength(a: string, b: string)
    ensures |Split(a + "/" + b)| == |Split(a)| + |Split(b)|
  {
    if a == "" {
      assert ("" + "/" + b)[1..] == b;
    } else {
      SplitLength(a[1..], b);
      assert (a + "/" + b)[1..] == a[1..] + "/" + b;
    }
  }

  /** A pointer reads back as no fewer tokens, and as more when some token held a slash. */
  lemma {:induction false} PointerLength(path: Path)
    requires path != []
    ensures |path| <= |PathAt(Pointer(path))|
    ensures !SlashFree(path) ==> |path| < |PathAt(Pointer(path))|
    decreases |path|
  {
    hide Split, NoSlash;
    var token, tail := path[0], path[1..];
    assert path == [token] + tail;
    if !NoSlash(token) {
      ManyTokens(token);
    }
    if |path| == 1 {
      assert ("/" + token)[1..] == token;
    } else {
      PointerLength(tail);
      var text := Pointer(tail)[1..];
      assert Pointer(tail) == "/" + text;
      assert Pointer(path)[1..] == token + "/" + text;
      SplitLength(token, text);
      assert !SlashFree(path) ==> !NoSlash(token) || !SlashFree(tail);
    }
  }

  /** Recorded pointers without slashes in their tokens are distinct and none lies under another. */
  lemma PointersUnnested(config: Json, e: Entry, f: Entry)
    requires e in Removed(config, []) && f in Removed(config, []) && SlashFree(e.path) && SlashFree(f.path)
    requires Pointer(e.path) == Pointer(f.path) || Pointer(e.path) + "/" <= Pointer(f.path)
    ensures e == f
  {
    hide Removed, Split, NoSlash;
    var p, q := Pointer(e.path), Pointer(f.path);
    PointerRoundTrip(f.path, "");
    if p == q {
      PointerRoundTrip(e.path, "");
    } else {
      var rest := q[|p| + 1..];
      PointerRoundTrip(e.path, rest);
      assert q == p + "/" + rest;
      assert q[1..] == p[1..] + "/" + rest;
      assert e.path <= f.path;
    }
    RemovedUnnested(config, [], e, f);
  }

  // ----- the secret object -----------------------------------------------------------------------------

  /** The values recorded in a secret object, by pointer. */
  function RecordedValues(secret: Json): map<string, Json> {
    if secret.Obj? && STORE in secret.fields && secret.fields[STORE].Obj? then secret.fields[STORE].fields else map[]
  }

  /** The store the first entry is recorded in: the caller's, or the first value itself when it
      was removed from the store's own key, or a new one. */
  function InitialStore(secret: Json, entries: seq<Entry>): Json
    requires secret.Obj?
  {
    if STORE in secret.fields then secret.fields[STORE]
    else if entries != [] && entries[0].path == [STORE] then entries[0].value
    else Obj(map[])
  }

  ghost predicate RecordedAt(values: map<string, Json>, base: map<string, Json>, entries: seq<Entry>, p: string)
    requires p in values
  {
    || (exists e | e in entries :: Pointer(e.path) == p && values[p] == e.value)
    || (p in base && values[p] == base[p] && forall e | e in entries :: Pointer(e.path) != p)
  }

  /** The values recorded are those of the entries and, elsewhere, those already there. */
  ghost predicate Records(values: map<string, Json>, base: map<string, Json>, entries: seq<Entry>) {
    && (forall e | e in entries :: Pointer(e.path) in values)
    && (forall p | p in base :: p in values)
    && (forall p | p in values :: RecordedAt(values, base, entries, p))
  }

  /** What the stores leave under the store's key. */
  ghost predicate StoreHolds(store: Json, initial: Json, entries: seq<Entry>) {
    if initial.Obj? then store.Obj? && Records(store.fields, initial.fields, entries) else store == initial
  }

  /** The stores record the values of the entries, unless no object is under the store's key, and
      leave the caller's other members alone. */
  lemma {:induction false} StoredValues(secret: Json, entries: seq<Entry>)
    requires secret.Obj?
    ensures var merged := StoreAll(secret, entries);
            && merged.Obj?
            && (entries != [] ==>
                  STORE in merged.fields && StoreHolds(merged.fields[STORE], InitialStore(secret, entries), entries))
            && (forall k | k in secret.fields && k != STORE ::
                  k in merged.fields && merged.fields[k] == secret.fields[k])
    decreases |entries|
  {
    hide Pointer, Store, Records;
    if entries != [] {
      var first, last := entries[..|entries| - 1], entries[|entries| - 1];
      assert entries == first + [last];
      StoredValues(secret, first);
      var before := StoreAll(secret, first);
      StoreKeepsOthers(before, last);
      if first == [] {
        StoreFirst(secret, last);
      } else {
        StoreNext(before, InitialStore(secret, entries), first, last);
      }
    }
  }

  lemma StoreKeepsOthers(secret: Json, e: Entry)
    requires secret.Obj?
    ensures var after := Store(secret, e.path, e.value);
            after.Obj? && forall k | k in secret.fields && k != STORE ::
              k in after.fields && after.fields[k] == secret.fields[k]
  {
    hide Pointer;
  }

  lemma StoreFirst(secret: Json, e: Entry)
    requires secret.Obj?
    ensures var after := Store(secret, e.path, e.value);
            after.Obj? && STORE in after.fields && StoreHolds(after.fields[STORE], InitialStore(secret, [e]), [e])
  {
    hide Pointer, Records;
    var initial := InitialStore(secret, [e]);
    assert |e.path| == 1 && e.path[0] == STORE <==> e.path == [STORE];
    if initial.Obj? {
      assert Records(initial.fields, initial.fields, []) by { RecordsNone(initial.fields); }
      RecordsStep(initial.fields, initial.fields, [], e);
      assert [] + [e] == [e];
    }
  }

  lemma RecordsNone(base: map<string, Json>)
    ensures Records(base, base, [])
  {
  }

  lemma StoreNext(secret: Json, initial: Json, entries: seq<Entry>, e: Entry)
    requires secret.Obj? && STORE in secret.fields && StoreHolds(secret.fields[STORE], initial, entries)
    ensures var after := Store(secret, e.path, e.value);
            after.Obj? && STORE in after.fields && StoreHolds(after.fields[STORE], initial, entries + [e])
  {
    hide Pointer, Records;
    if initial.Obj? {
      RecordsStep(secret.fields[STORE].fields, initial.fields, entries, e);
    }
  }

  lemma RecordsStep(values: map<string, Json>, base: map<string, Json>, entries: seq<Entry>, last: Entry)
    requires Records(values, base, entries)
    ensures Records(values[Pointer(last.path) := last.value], base, entries + [last])
  {
    hide Pointer, RecordedAt;
    var after, all := values[Pointer(last.path) := last.value], entries + [last];
    forall p | p in after ensures RecordedAt(after, base, all, p) {
      RecordedNext(values, base, entries, last, p);
    }
  }

  lemma RecordedNext(values: map<string, Json>, base: map<string, Json>, entries: seq<Entry>, last: Entry, p: string)
    requires p != Pointer(last.path) ==> p in values && RecordedAt(values, base, entries, p)
    ensures RecordedAt(values[Pointer(last.path) := last.value], base, entries + [last], p)
  {
    hide Pointer;
    var all := entries + [last];
    assert forall e :: e in all <==> e in entries || e == last;
    assert last in all;
  }

  /** The keys of the values that were removed at the top. */
  function TopKeys(entries: seq<Entry>): set<string> {
    set e | e in entries && |e.path| == 1 :: e.path[0]
  }

  /** The merged object has the caller's members, a copy of each value removed at the top whose key
      the caller did not use, and the store when anything was stored. */
  lemma {:induction false} MergedMembers(secret: Json, entries: seq<Entry>)
    requires secret.Obj?
    ensures var merged := StoreAll(secret, entries);
            && merged.Obj?
            && merged.fields.Keys == secret.fields.Keys + TopKeys(entries) + (if entries == [] then {} else {STORE})
            && forall k | k in TopKeys(entries) && k !in secret.fields && k != STORE ::
                 exists e :: e in entries && e.path == [k] && e.value == merged.fields[k]
    decreases |entries|
  {
    if entries == [] {
      NothingStored(secret);
    } else {
      hide Pointer;
      var first, last := entries[..|entries| - 1], entries[|entries| - 1];
      assert entries == first + [last];
      hide Store, TopKeys;
      MergedMembers(secret, first);
      var before, merged := StoreAll(secret, first), StoreAll(secret, entries);
      TopKeysNext(first, last);
      StoreMembers(before, last);
      forall k | k in TopKeys(entries) && k !in secret.fields && k != STORE
        ensures k in merged.fields && exists e :: e in entries && e.path == [k] && e.value == merged.fields[k]
      {
        if k in before.fields {
          var e :| e in first && e.path == [k] && e.value == before.fields[k];
          assert e in entries;
        } else {
          assert last in entries;
        }
      }
    }
  }

  lemma StoreMembers(secret: Json, e: Entry)
    requires secret.Obj?
    ensures var after := Store(secret, e.path, e.value);
            && after.Obj?
            && after.fields.Keys == secret.fields.Keys + (if |e.path| == 1 then {e.path[0]} else {}) + {STORE}
            && (forall k | k in secret.fields && k != STORE :: after.fields[k] == secret.fields[k])
            && (forall k | k in after.fields && k !in secret.fields && k != STORE ::
                  e.path == [k] && after.fields[k] == e.value)
  {
    hide Pointer;
  }

  lemma TopKeysNext(first: seq<Entry>, last: Entry)
    ensures TopKeys(first + [last]) == TopKeys(first) + (if |last.path| == 1 then {last.path[0]} else {})
  {
    assert forall e :: e in first + [last] <==> e in first || e == last;
  }

  /** The members of a configuration that are removed whole. */
  function TakenOut(config: map<string, Json>): set<string> {
    set k | k in config && Extracted(config, k, [])
  }

  /** So for a configuration: the secret object has the caller's members unchanged, besides a store
      object; each member removed whole, under its own key; and the store when anything was removed. */
  ghost predicate Merges(config: map<string, Json>, secret: map<string, Json>, merged: map<string, Json>) {
    && merged.Keys == secret.Keys + TakenOut(config) + (if Removed(Obj(config), []) == {} then {} else {STORE})
    && (forall k | k in secret && k != STORE :: merged[k] == secret[k])
    && (forall k | k in TakenOut(config) && k !in secret && k != STORE :: merged[k] == config[k])
  }

  lemma TopRemoved(config: map<string, Json>, e: Entry)
    requires e in Removed(Obj(config), []) && |e.path| == 1
    ensures e.path[0] in TakenOut(config) && e.value == config[e.path[0]]
  {
    hide Removed, IsSecretBearing, IsMarker;
    ObjectRemoved(config, [], e);
    var k :| k in config && e in RemovedMember(config, k, []);
    MemberBelow(config, k, [], e);
    if !Extracted(config, k, []) {
      RemovedBelow(config[k], [] + [k], e);
    }
  }

  lemma TakenIsRemoved(config: map<string, Json>, k: string)
    requires k in TakenOut(config)
    ensures Entry([k], config[k]) in Removed(Obj(config), [])
  {
    hide Removed, IsSecretBearing, IsMarker;
    assert [] + [k] == [k];
    assert Entry([k], config[k]) in RemovedMember(config, k, []);
    ObjectRemoved(config, [], Entry([k], config[k]));
  }

  lemma MergesConfig(config: map<string, Json>, secret: Json, entries: seq<Entry>)
    requires secret.Obj? && Lists(entries, Removed(Obj(config), []))
    ensures StoreAll(secret, entries).Obj? && Merges(config, secret.fields, StoreAll(secret, entries).fields)
  {
    hide StoreAll, Removed, Extracted, StoreHolds, InitialStore;
    MergedMembers(secret, entries);
    StoredValues(secret, entries);
    assert TopKeys(entries) == TakenOut(config) by {
      forall e | e in entries && |e.path| == 1 ensures e.path[0] in TakenOut(config) {
        TopRemoved(config, e);
      }
      forall k | k in TakenOut(config) ensures k in TopKeys(entries) {
        TakenIsRemoved(config, k);
        assert Entry([k], config[k]).path[0] == k;
      }
    }
    SomeElement(entries);
    forall k | k in TakenOut(config) && k !in secret.fields && k != STORE
      ensures StoreAll(secret, entries).fields[k] == config[k]
    {
      var e :| e in entries && e.path == [k] && e.value == StoreAll(secret, entries).fields[k];
      TopRemoved(config, e);
    }
  }

  /** A top-level member that bears a secret, end to end: a marker of exactly two members takes its
      place, and the value is in the merged object under its key and, when the store can be written,
      in the store under its pointer. */
  lemma SecretMemberMoves(config: map<string, Json>, secret: Json, r: Reference, entries: seq<Entry>, k: string)
    requires k in config && IsSecretBearing(k, config[k], [] + [k], config)
    requires config[k].Obj? ==> "secret_ref" !in config[k].fields || "secret_version" !in config[k].fields
    requires secret.Obj? && Lists(entries, Removed(Obj(config), []))
    ensures Get(Scrubbed(Obj(config), r, []), [k])
            == Some(Obj(map["secret_ref" := Str(r.name), "secret_version" := Number(r.version)]))
    ensures k !in secret.fields && k != "__config_secret_values"
            ==> Get(StoreAll(secret, entries), [k]) == Some(config[k])
    ensures NoSlash(k) && "__config_secret_values" !in config && "__config_secret_values" !in secret.fields
            ==> Get(StoreAll(secret, entries), ["__config_secret_values", "/" + k]) == Some(config[k])
  {
    hide StoreAll, Scrubbed, Removed, IsSecretBearing, Pointer, NoSlash;
    MemberOf(config, r, [], k);
    assert k in TakenOut(config);
    MergesConfig(config, secret, entries);
    TakenIsRemoved(config, k);
    GetKey(Scrubbed(Obj(config), r, []), k);
    GetKey(StoreAll(secret, entries), k);
    if NoSlash(k) && STORE !in config && STORE !in secret.fields {
      StoredUnderKey(config, secret, entries, k);
    }
  }

  lemma StoredUnderKey(config: map<string, Json>, secret: Json, entries: seq<Entry>, k: string)
    requires k in config && NoSlash(k) && STORE !in config && secret.Obj? && STORE !in secret.fields
    requires Entry([k], config[k]) in Removed(Obj(config), []) && Lists(entries, Removed(Obj(config), []))
    ensures Get(StoreAll(secret, entries), [STORE, "/" + k]) == Some(config[k])
  {
    hide StoreAll, Removed, Pointer, NoSlash, InitialStore;
    var e := Entry([k], config[k]);
    assert StoreUsable(secret, entries) by { StoreOfItsOwn(config, secret, entries); }
    var f := EntryRecorded(secret, entries, e);
    TopPointer(k);
    RemovedBelow(Obj(config), [], f);
    PointerOfKey(f.path, k);
    RemovedUnnested(Obj(config), [], e, f);
    var merged := StoreAll(secret, entries);
    GetMember(merged.fields, STORE, ["/" + k]);
    assert [STORE] + ["/" + k] == [STORE, "/" + k];
    GetKey(merged.fields[STORE], "/" + k);
  }

  lemma TopPointer(k: string)
    ensures Pointer([k]) == "/" + k
  {
  }

  /** Only the key itself has the pointer of a key without a slash. */
  lemma PointerOfKey(path: Path, k: string)
    requires path != [] && NoSlash(k) && Pointer(path) == "/" + k
    ensures path == [k]
  {
    DeepPointer(path);
    assert ("/" + k)[1..] == k;
    assert |path| == 1;
    assert ("/" + path[0])[1..] == path[0] && path == [path[0]];
  }

  lemma DeepPointer(path: Path)
    ensures |path| > 1 ==> '/' in Pointer(path)[1..]
  {
    if |path| > 1 {
      var rest := Pointer(path[1..]);
      SlashAhead(path[1..]);
      assert Pointer(path)[1..] == path[0] + rest && rest[0] in rest;
    }
  }

  lemma SlashAhead(path: Path)
    ensures Pointer(path) != "" && Pointer(path)[0] == '/'
  {
  }

  lemma StoreOfItsOwn(config: map<string, Json>, secret: Json, entries: seq<Entry>)
    requires secret.Obj? && STORE !in secret.fields && STORE !in config && Lists(entries, Removed(Obj(config), []))
    ensures StoreUsable(secret, entries)
  {
    hide Removed;
    if entries != [] && entries[0].path == [STORE] {
      TopRemoved(config, entries[0]);
    }
  }

  /** A caller's own top-level secrets survive any scrub, even when a recorded value, a non-object
      under the store's key, or the store itself is in the way. */
  lemma {:induction false} NeverOverwritten(secret: Json, entries: seq<Entry>, k: string)
    requires secret.Obj? && k in secret.fields
    requires k != STORE || !secret.fields[k].Obj?
    ensures var merged := StoreAll(secret, entries);
            merged.Obj? && k in merged.fields && merged.fields[k] == secret.fields[k]
    decreases |entries|
  {
    if entries != [] {
      NeverOverwritten(secret, entries[..|entries| - 1], k);
    }
  }

  // ----- round trip --------------------------------------------------------------------------------------

  /** Put recorded values back at their pointers, in a given order. */
  function PutBack(doc: Json, values: map<string, Json>, order: seq<string>): Json
    requires forall p | p in order :: p in values
  {
    if order == [] then doc
    else
      var n := |order| - 1;
      PutAt(PutBack(doc, values, order[..n]), PathAt(order[n]), values[order[n]])
  }

  lemma {:induction false} PutBackSome(config: Json, r: Reference, values: map<string, Json>, order: seq<string>)
    returns (done: set<Path>)
    requires forall p | p in order :: p in values && Entry(PathAt(p), values[p]) in Removed(config, [])
    ensures PutBack(Scrubbed(config, r, []), values, order) == Mixed(config, r, [], done)
    ensures done == set p | p in order :: PathAt(p)
    decreases |order|
  {
    hide PutAt, Mixed, Scrubbed, Removed, PathAt;
    if order == [] {
      MixedStart(config, r, []);
      done := {};
    } else {
      var n := |order| - 1;
      var p := order[n];
      assert order == order[..n] + [p];
      var before := PutBackSome(config, r, values, order[..n]);
      assert [] + PathAt(p) == PathAt(p);
      PutBackOne(config, r, [], before, PathAt(p), values[p]);
      done := before + {PathAt(p)};
    }
  }

  /** The entries were recorded. */
  predicate StoreUsable(secret: Json, entries: seq<Entry>) {
    secret.Obj? && InitialStore(secret, entries).Obj?
  }

  /** The pointers that were recorded for the entries, in any order and any number of times. */
  ghost predicate ListsPointers(order: seq<string>, values: map<string, Json>, entries: seq<Entry>) {
    forall p :: p in order <==> p in values && exists e | e in entries :: Pointer(e.path) == p
  }

  /** Putting the recorded values back at their pointers, in whatever order, rebuilds the original
      configuration exactly when no removed value had a slash on the way to it and its store could
      be written; or when nothing was removed. */
  lemma RoundTrip(config: Json, secret: Json, r: Reference, entries: seq<Entry>, order: seq<string>)
    requires secret.Obj? && Lists(entries, Removed(config, []))
    requires ListsPointers(order, RecordedValues(StoreAll(secret, entries)), entries)
    ensures PutBack(Scrubbed(config, r, []), RecordedValues(StoreAll(secret, entries)), order) == config
            <==> entries == [] || (StoreUsable(secret, entries) && RemovedSlashFree(config))
  {
    hide StoreAll, Scrubbed, PutBack, Removed, RecordedValues, SlashFree, RemovedSlashFree, Pointer, StoreHolds,
      InitialStore;
    var values := RecordedValues(StoreAll(secret, entries));
    if entries == [] {
      SomeElement(order);
      NothingRemoved(config, r, values);
    } else if !StoreUsable(secret, entries) {
      NothingRecorded(secret, entries);
      SomeElement(order);
      assert entries[0] in Removed(config, []);
      MarkerStays(config, r, values, order, entries[0]);
    } else if RemovedSlashFree(config) {
      PointersPutBack(config, secret, r, entries, order);
    } else {
      SlashIsLost(config, secret, r, entries, order);
    }
  }

  lemma NothingRemoved(config: Json, r: Reference, values: map<string, Json>)
    requires Removed(config, []) == {}
    ensures PutBack(Scrubbed(config, r, []), values, []) == config
  {
    hide Scrubbed, Removed, Mixed;
    MixedStart(config, r, []);
    MixedEnd(config, r, [], {});
  }

  lemma NothingRecorded(secret: Json, entries: seq<Entry>)
    requires secret.Obj? && entries != [] && !StoreUsable(secret, entries)
    ensures RecordedValues(StoreAll(secret, entries)) == map[]
  {
    hide StoreAll, InitialStore;
    StoredValues(secret, entries);
  }

  /** In a usable store every entry's pointer holds the value of an entry with that pointer. */
  lemma EntryRecorded(secret: Json, entries: seq<Entry>, e: Entry) returns (f: Entry)
    requires secret.Obj? && StoreUsable(secret, entries) && e in entries
    ensures var values := RecordedValues(StoreAll(secret, entries));
            && Pointer(e.path) in values && f in entries
            && Pointer(f.path) == Pointer(e.path) && values[Pointer(e.path)] == f.value
  {
    hide StoreAll, Pointer, InitialStore;
    StoredValues(secret, entries);
    var p, values := Pointer(e.path), RecordedValues(StoreAll(secret, entries));
    f :| f in entries && Pointer(f.path) == p && values[p] == f.value;
  }

  lemma PointersPutBack(config: Json, secret: Json, r: Reference, entries: seq<Entry>, order: seq<string>)
    requires secret.Obj? && StoreUsable(secret, entries)
    requires Lists(entries, Removed(config, [])) && RemovedSlashFree(config)
    requires ListsPointers(order, RecordedValues(StoreAll(secret, entries)), entries)
    ensures PutBack(Scrubbed(config, r, []), RecordedValues(StoreAll(secret, entries)), order) == config
  {
    hide StoreAll, Scrubbed, PutBack, Mixed, Removed, RecordedValues, PathAt, Pointer, SlashFree, StoreUsable;
    var values := RecordedValues(StoreAll(secret, entries));
    forall e | e in entries ensures PathAt(Pointer(e.path)) == e.path {
      PointerRoundTrip(e.path, "");
    }
    forall p | p in order ensures Entry(PathAt(p), values[p]) in Removed(config, []) {
      var e :| e in entries && Pointer(e.path) == p;
      var f := EntryRecorded(secret, entries, e);
      assert Entry(f.path, f.value) == f;
    }
    var done := PutBackSome(config, r, values, order);
    forall e | e in Removed(config, []) ensures e.path in done {
      var _ := EntryRecorded(secret, entries, e);
      assert Pointer(e.path) in order;
    }
    MixedEnd(config, r, [], done);
  }

  // ----- what a slash loses --------------------------------------------------------------------------------

  /** A write changes nothing at a place that is neither on the way to it nor below it. */
  lemma {:induction false} PutAtElsewhere(doc: Json, q: Path, value: Json, p: Path)
    requires !(p <= q) && !(q <= p)
    ensures Get(PutAt(doc, q, value), p) == Get(doc, p)
    decreases |q|
  {
    hide ParseIndex;
    if p[0] == q[0] {
      assert p == [p[0]] + p[1..] && q == [q[0]] + q[1..];
      match Child(doc, q[0])
      case Some(c) => PutAtElsewhere(c, q[1..], value, p[1..]);
      case None =>
    } else if ParseIndex(p[0]).Some? && ParseIndex(p[0]) == ParseIndex(q[0]) {
      SameIndex(p[0], q[0]);
    }
  }

  lemma {:induction false} RemovedWasThere(v: Json, r: Reference, path: Path, rest: Path, value: Json)
    requires Entry(path + rest, value) in Removed(v, path)
    ensures Get(v, rest) == Some(value) && !IsMarker(value)
    ensures Get(Scrubbed(v, r, path), rest) == Some(r.Marker())
    decreases v, 1
  {
    hide Scrubbed, Get, IsMarker;
    match v
    case Obj(m) => RemovedWasInObject(m, r, path, rest, value);
    case Arr(items) => RemovedWasInArray(items, r, path, rest, value);
    case _ =>
  }

  lemma RemovedWasInObject(m: map<string, Json>, r: Reference, path: Path, rest: Path, value: Json)
    requires Entry(path + rest, value) in Removed(Obj(m), path)
    ensures Get(Obj(m), rest) == Some(value) && !IsMarker(value)
    ensures Get(Scrubbed(Obj(m), r, path), rest) == Some(r.Marker())
    decreases Obj(m), 0
  {
    hide Scrubbed, Removed, IsSecretBearing, IsMarker;
    var e := Entry(path + rest, value);
    ObjectRemoved(m, path, e);
    var k :| k in m && e in RemovedMember(m, k, path);
    MemberBelow(m, k, path, e);
    TokenMoves(path, rest);
    MemberOf(m, r, path, k);
    if Extracted(m, k, path) {
      assert rest[1..] == [];
    } else {
      RemovedWasThere(m[k], r, path + [k], rest[1..], value);
    }
  }

  lemma RemovedWasInArray(items: seq<Json>, r: Reference, path: Path, rest: Path, value: Json)
    requires Entry(path + rest, value) in Removed(Arr(items), path)
    ensures Get(Arr(items), rest) == Some(value) && !IsMarker(value)
    ensures Get(Scrubbed(Arr(items), r, path), rest) == Some(r.Marker())
    decreases Arr(items), 0
  {
    hide Removed, IsMarker, ParseIndex;
    var e := Entry(path + rest, value);
    ArrayRemoved(items, path, e);
    var i :| 0 <= i < |items| && e in Removed(items[i], path + [ToDecimal(i)]);
    ItemBelow(items, i, path, e);
    TokenMoves(path, rest);
    DecimalIndex(i);
    RemovedWasThere(items[i], r, path + [ToDecimal(i)], rest[1..], value);
  }

  lemma {:induction false} PutBackElsewhere(doc: Json, values: map<string, Json>, order: seq<string>, p: Path)
    requires forall s | s in order :: s in values && !(p <= PathAt(s)) && !(PathAt(s) <= p)
    ensures Get(PutBack(doc, values, order), p) == Get(doc, p)
    decreases |order|
  {
    hide PutAt, PathAt, Get;
    if order != [] {
      var n := |order| - 1;
      PutBackElsewhere(doc, values, order[..n], p);
      PutAtElsewhere(PutBack(doc, values, order[..n]), PathAt(order[n]), values[order[n]], p);
    }
  }

  /** A removed value that no pointer touches is not restored. */
  lemma MarkerStays(config: Json, r: Reference, values: map<string, Json>, order: seq<string>, e: Entry)
    requires e in Removed(config, [])
    requires forall s | s in order :: s in values && !(e.path <= PathAt(s)) && !(PathAt(s) <= e.path)
    ensures PutBack(Scrubbed(config, r, []), values, order) != config
  {
    hide Scrubbed, Removed, PutBack, PathAt, IsMarker;
    assert [] + e.path == e.path && Entry(e.path, e.value) == e;
    RemovedWasThere(config, r, [], e.path, e.value);
    MarkerIsMarker(r);
    PutBackElsewhere(Scrubbed(config, r, []), values, order, e.path);
  }

  /** Of the removed values with a slash on the way, one at least depth. */
  lemma ShortestWithSlash(config: Json) returns (e: Entry)
    requires !RemovedSlashFree(config)
    ensures e in Removed(config, []) && !SlashFree(e.path)
    ensures forall f | f in Removed(config, []) && !SlashFree(f.path) :: |e.path| <= |f.path|
  {
    hide Removed, SlashFree;
    var all := set f | f in Removed(config, []) && !SlashFree(f.path);
    var some :| some in Removed(config, []) && !SlashFree(some.path);
    assert some in all;
    e := some;
    var rest := all - {e};
    while rest != {}
      invariant e in all && rest <= all && forall f | f in all - rest :: |e.path| <= |f.path|
    {
      var f :| f in rest;
      rest := rest - {f};
      if |f.path| < |e.path| {
        e := f;
      }
    }
  }

  /** No recorded pointer is read on the way to that value, at it or below it. */
  lemma PointersMiss(config: Json, e: Entry, f: Entry)
    requires e in Removed(config, []) && !SlashFree(e.path) && f in Removed(config, [])
    requires !SlashFree(f.path) ==> |e.path| <= |f.path|
    ensures !(e.path <= PathAt(Pointer(f.path))) && !(PathAt(Pointer(f.path)) <= e.path)
  {
    hide Removed, Pointer, NoSlash;
    RemovedBelow(config, [], e);
    RemovedBelow(config, [], f);
    PointerNotEmpty(f.path);
    var q := PathAt(Pointer(f.path));
    SplitSlashFree(Pointer(f.path)[1..]);
    if SlashFree(f.path) {
      PointerRoundTrip(f.path, "");
      if q <= e.path {
        RemovedUnnested(config, [], f, e);
      }
    } else {
      PointerLength(f.path);
    }
  }

  lemma SlashIsLost(config: Json, secret: Json, r: Reference, entries: seq<Entry>, order: seq<string>)
    requires Lists(entries, Removed(config, [])) && !RemovedSlashFree(config)
    requires ListsPointers(order, RecordedValues(StoreAll(secret, entries)), entries)
    ensures PutBack(Scrubbed(config, r, []), RecordedValues(StoreAll(secret, entries)), order) != config
  {
    hide StoreAll, Scrubbed, PutBack, Removed, RecordedValues, SlashFree, RemovedSlashFree, Pointer, PathAt;
    var e := ShortestWithSlash(config);
    forall p | p in order ensures !(e.path <= PathAt(p)) && !(PathAt(p) <= e.path) {
      var f :| f in entries && Pointer(f.path) == p;
      PointersMiss(config, e, f);
    }
    MarkerStays(config, r, RecordedValues(StoreAll(secret, entries)), order, e);
  }

  // ----- scrub, collect, redact ------------------------------------------------------------------------------

  /** A string leaf of the configuration that is gone from the sanitized one was in a removed value. */
  lemma {:induction false} LostLeafRemoved(v: Json, r: Reference, path: Path, s: string)
    requires s in StringLeaves(v) && s !in StringLeaves(Scrubbed(v, r, path))
    ensures exists e | e in Removed(v, path) :: s in StringLeaves(e.value)
    decreases v
  {
    match v
    case Obj(m) =>
      var k :| k in m && s in StringLeaves(m[k]);
      if Extracted(m, k, path) {
        assert Entry(path + [k], m[k]) in RemovedMember(m, k, path);
      } else {
        MemberOf(m, r, path, k);
        LostLeafRemoved(m[k], r, path + [k], s);
        var e :| e in Removed(m[k], path + [k]) && s in StringLeaves(e.value);
        assert e in RemovedMember(m, k, path);
      }
    case Arr(items) =>
      var i :| 0 <= i < |items| && s in StringLeaves(items[i]);
      var scrubbed := Scrubbed(v, r, path).items;
      assert scrubbed[i] == Scrubbed(items[i], r, path + [ToDecimal(i)]);
      LostLeafRemoved(items[i], r, path + [ToDecimal(i)], s);
      var e :| e in Removed(items[i], path + [ToDecimal(i)]) && s in StringLeaves(e.value);
      assert e in Removed(v, path);
    case _ =>
  }

  /** No two removed values are recorded under one pointer. */
  predicate PointersDistinct(config: Json) {
    forall e, f | e in Removed(config, []) && f in Removed(config, []) && Pointer(e.path) == Pointer(f.path) :: e == f
  }

  lemma SlashFreeDistinct(config: Json)
    requires RemovedSlashFree(config)
    ensures PointersDistinct(config)
  {
    hide Removed, Pointer, SlashFree;
    forall e, f | e in Removed(config, []) && f in Removed(config, []) && Pointer(e.path) == Pointer(f.path)
      ensures e == f
    {
      PointersUnnested(config, e, f);
    }
  }

  /** Every non-empty string the scrub takes out of a configuration is among the secrets collected
      from the merged secret object... */
  lemma RemovedIsCollected(config: Json, secret: Json, r: Reference, entries: seq<Entry>, s: string)
    requires secret.Obj? && StoreUsable(secret, entries) && PointersDistinct(config)
    requires Lists(entries, Removed(config, []))
    requires s != "" && s in StringLeaves(config) && s !in StringLeaves(Scrubbed(config, r, []))
    ensures s in CollectSecretStrings(StoreAll(secret, entries))
  {
    hide StoreAll, Scrubbed, Removed, Pointer, StoreUsable;
    LostLeafRemoved(config, r, [], s);
    var e :| e in Removed(config, []) && s in StringLeaves(e.value);
    var f := EntryRecorded(secret, entries, e);
    assert e == f;
    var merged := StoreAll(secret, entries);
    CollectedIffLeaf(merged, s);
    assert s in StringLeaves(merged.fields[STORE]);
  }

  /** ...so a value redacted with those secrets contains it nowhere. */
  lemma RemovedIsRedacted(
    config: Json, secret: Json, r: Reference, entries: seq<Entry>, s: string, output: Json, t: string)
    requires secret.Obj? && StoreUsable(secret, entries) && PointersDistinct(config)
    requires Lists(entries, Removed(config, []))
    requires s in StringLeaves(config) && s !in StringLeaves(Scrubbed(config, r, [])) && MaskSafe(s)
    requires t in StringLeaves(RedactValue(output, CollectSecretStrings(StoreAll(secret, entries))))
    ensures !Occurs(t, s)
  {
    hide StoreAll, Scrubbed, Removed, StringLeaves, CollectSecretStrings, RedactValue, MaskSafe, StoreUsable,
      PointersDistinct;
    assert s != "" by { SafeNotEmpty(s); }
    RemovedIsCollected(config, secret, r, entries, s);
    RedactedValueClean(output, CollectSecretStrings(StoreAll(secret, entries)), s, t);
  }

  lemma SafeNotEmpty(s: string)
    requires MaskSafe(s)
    ensures s != ""
  {
  }

  // ----- the entry point ----------------------------------------------------------------------------------------

  datatype Sanitized = Sanitized(config: Json, secret: Json) | InvalidInput(field: string)

  /** `sanitize_config_and_merge_secrets`. */
  method SanitizeConfigAndMergeSecrets(config: Json, secret: Json, r: Reference)
    returns (result: Sanitized, ghost entries: seq<Entry>)
    ensures result.InvalidInput? <==> !config.Obj? || !secret.Obj?
    ensures result.Sanitized? ==>
              && result.config == Scrubbed(config, r, []) && Marked(result.config, [])
              && Lists(entries, Removed(config, [])) && result.secret == StoreAll(secret, entries)
              && result.secret.Obj? && Merges(config.fields, secret.fields, result.secret.fields)
  {
    hide Scrubbed, Removed, StoreAll, Marked, Merges;
    entries := [];
    if !config.Obj? {
      return InvalidInput("config_json"), [];
    }
    if !secret.Obj? {
      return InvalidInput("secret_json"), [];
    }
    var scrubber := new ConfigScrubber(r, secret);
    var sanitized;
    sanitized, entries := scrubber.Scrub(config);
    ScrubMarks(config, r, []);
    MergesConfig(config.fields, secret, entries);
    result := Sanitized(sanitized, scrubber.secret);
  }
}
