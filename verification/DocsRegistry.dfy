/** The documentation registry: every operation of a description is closed on its own, grouped with
    the others of its category, and each category is closed as a whole. */
module DocsRegistry {
  import opened Strings
  import opened JsonValues
  import opened JsonPointer
  import opened SubDocument
  import opened OpenApiDocs

  /** The order in which the methods of a path item are visited. */
  const METHODS: seq<string> := ["get", "put", "post", "delete", "options", "head", "patch", "trace"]

  datatype Registry = Registry(
    members: map<string, seq<Operation>>,
    operationSpecs: map<string, Json>,
    categorySpecs: map<string, Json>)

  datatype Fault =
    | NoPaths
    | PathItemNotObject(path: string)
    | OperationNotObject(operation: Operation)
    | NoOperationId(operation: Operation)
    | DuplicateId(id: string)
    | NotClosed(operations: seq<Operation>, failure: Failure)

  datatype Outcome = Built(registry: Registry) | Rejected(fault: Fault)

  // ----- ids and categories ------------------------------------------------------------------

  function OperationId(paths: map<string, Json>, op: Operation): Option<string>
    requires Declares(paths, op)
  {
    var operation := OperationAt(paths, op);
    if operation.Obj? && "operationId" in operation.fields && operation.fields["operationId"].Str? then
      Some(operation.fields["operationId"].s)
    else None
  }

  function NonEmpty(tokens: seq<string>): seq<string> {
    if tokens == [] then [] else (if tokens[0] == "" then [] else [tokens[0]]) + NonEmpty(tokens[1..])
  }

  /** `derive_category`: the segment after `api`, or a category of the operation's own. */
  function Category(path: string, id: string): string {
    var segments := NonEmpty(Split(path));
    if |segments| >= 2 && segments[0] == "api" && !("{" <= segments[1]) then segments[1] else "single:" + id
  }

  function IdOf(paths: map<string, Json>, op: Operation): string {
    if Declares(paths, op) && OperationId(paths, op).Some? then OperationId(paths, op).value else ""
  }

  function CategoryOf(paths: map<string, Json>, op: Operation): string {
    Category(op.path, IdOf(paths, op))
  }

  /** The operations of one category, in order. */
  function InCategory(paths: map<string, Json>, ops: seq<Operation>, category: string): seq<Operation> {
    if ops == [] then []
    else
      var n := |ops| - 1;
      InCategory(paths, ops[..n], category) + (if CategoryOf(paths, ops[n]) == category then [ops[n]] else [])
  }

  lemma {:induction false} InCategoryExact(
    paths: map<string, Json>, ops: seq<Operation>, category: string, op: Operation)
    ensures op in InCategory(paths, ops, category) <==> op in ops && CategoryOf(paths, op) == category
  {
    hide CategoryOf;
    if ops != [] {
      var n := |ops| - 1;
      InCategoryExact(paths, ops[..n], category, op);
      assert ops == ops[..n] + [ops[n]];
    }
  }

  /** The members stand in the order of all. */
  lemma {:induction false} InCategoryInOrder(paths: map<string, Json>, ops: seq<Operation>, category: string)
    returns (at: seq<nat>)
    ensures Selects(InCategory(paths, ops, category), ops, at)
    ensures forall j: nat :: j in at <==> j < |ops| && CategoryOf(paths, ops[j]) == category
  {
    hide CategoryOf;
    if ops == [] {
      at := [];
    } else {
      var n := |ops| - 1;
      at := InCategoryInOrder(paths, ops[..n], category);
      assert ops == ops[..n] + [ops[n]];
      if CategoryOf(paths, ops[n]) == category {
        at := at + [n];
      }
    }
  }

  /** The id stands in the document under `operationId`. */
  lemma IdExactly(paths: map<string, Json>, op: Operation, id: string)
    requires Declares(paths, op)
    ensures OperationId(paths, op) == Some(id)
            <==> Get(Obj(paths), [op.path, op.verb, "operationId"]) == Some(Str(id))
  {
    hide Get;
    GetOperation(paths, op, "operationId");
  }

  // ----- categories by path --------------------------------------------------------------------

  predicate AllSlashes(s: string) {
    forall c | c in s :: c == '/'
  }

  /** After the first segment `api` the path goes on with the segment `s`; runs of slashes count as
      one, and a leading one need not be there. */
  ghost predicate UnderApi(path: string, s: string) {
    exists before, between, after ::
      && path == before + ("api" + (between + (s + after)))
      && AllSlashes(before) && AllSlashes(between) && between != ""
      && s != "" && NoSlash(s) && (after == "" || after[0] == '/')
  }

  /** The segment that makes a category of its own: not a parameter. */
  ghost predicate ApiSegment(path: string, s: string) {
    UnderApi(path, s) && !("{" <= s)
  }

  lemma {:induction false} SlashesSkipped(slashes: string, rest: string)
    requires AllSlashes(slashes)
    ensures NonEmpty(Split(slashes + rest)) == NonEmpty(Split(rest))
  {
    if slashes == "" {
      assert slashes + rest == rest;
    } else {
      assert slashes[0] in slashes && slashes == [slashes[0]] + slashes[1..];
      assert forall c | c in slashes[1..] :: c in slashes;
      SlashesSkipped(slashes[1..], rest);
      assert (slashes + rest)[1..] == slashes[1..] + rest;
      assert ([""] + Split(slashes[1..] + rest))[1..] == Split(slashes[1..] + rest);
    }
  }

  lemma SegmentTaken(s: string, after: string)
    requires s != "" && NoSlash(s) && (after == "" || after[0] == '/')
    ensures NonEmpty(Split(s + after)) == [s] + NonEmpty(Split(after))
  {
    hide Split;
    if after == "" {
      SplitFirst(s, "");
      SplitFirst("", "");
      assert s + after == s;
      assert [s][1..] == [] && [""][1..] == [];
    } else {
      var rest := after[1..];
      assert after == "/" + rest && s + after == s + "/" + rest && "" + "/" + rest == after;
      SplitFirst(s, rest);
      SplitFirst("", rest);
      assert ([s] + Split(rest))[1..] == Split(rest) && ([""] + Split(rest))[1..] == Split(rest);
    }
  }

  /** The first segment of a path, if it has one. */
  lemma {:induction false} FirstSegment(path: string) returns (before: string, s: string, after: string)
    ensures path == before + (s + after) && AllSlashes(before) && NoSlash(s) && (after == "" || after[0] == '/')
    ensures s == "" ==> after == "" && NonEmpty(Split(path)) == []
    ensures s != "" ==> NonEmpty(Split(path)) == [s] + NonEmpty(Split(after))
  {
    hide Split;
    before := LeadingSlashes(path);
    var rest := path[|before|..];
    SlashesSkipped(before, rest);
    s := UntilSlash(rest);
    after := rest[|s|..];
    if s == "" {
      NothingSplit();
    } else {
      SegmentTaken(s, after);
    }
  }

  lemma NothingSplit()
    ensures NonEmpty(Split("")) == []
  {
  }

  lemma {:induction false} LeadingSlashes(s: string) returns (slashes: string)
    ensures |slashes| <= |s| && s == slashes + s[|slashes|..] && AllSlashes(slashes)
    ensures |slashes| < |s| ==> s[|slashes|] != '/'
  {
    if s != "" && s[0] == '/' {
      var more := LeadingSlashes(s[1..]);
      slashes := ['/'] + more;
    } else {
      slashes := "";
    }
  }

  lemma {:induction false} UntilSlash(s: string) returns (segment: string)
    ensures |segment| <= |s| && s == segment + s[|segment|..] && NoSlash(segment)
    ensures |segment| < |s| ==> s[|segment|] == '/'
  {
    if s != "" && s[0] != '/' {
      var more := UntilSlash(s[1..]);
      segment := [s[0]] + more;
    } else {
      segment := "";
    }
  }

  lemma UnderApiSegments(path: string, s: string)
    requires UnderApi(path, s)
    ensures |NonEmpty(Split(path))| >= 2 && NonEmpty(Split(path))[0] == "api" && NonEmpty(Split(path))[1] == s
  {
    hide Split, NonEmpty;
    var before, between, after :|
      && path == before + ("api" + (between + (s + after)))
      && AllSlashes(before) && AllSlashes(between) && between != ""
      && s != "" && NoSlash(s) && (after == "" || after[0] == '/');
    hide NoSlash, AllSlashes;
    assert between != "" && (between + (s + after))[0] == '/' by { StartsWithSlash(between, s + after); }
    SlashesSkipped(before, "api" + (between + (s + after)));
    ApiHasNoSlash();
    SegmentTaken("api", between + (s + after));
    SlashesSkipped(between, s + after);
    SegmentTaken(s, after);
  }

  lemma StartsWithSlash(slashes: string, rest: string)
    requires AllSlashes(slashes) && slashes != ""
    ensures (slashes + rest)[0] == '/'
  {
    assert slashes[0] in slashes;
  }

  lemma ApiHasNoSlash()
    ensures NoSlash("api")
  {
  }

  lemma SegmentsUnderApi(path: string)
    requires |NonEmpty(Split(path))| >= 2 && NonEmpty(Split(path))[0] == "api"
    ensures UnderApi(path, NonEmpty(Split(path))[1])
  {
    hide Split;
    var before, api, rest := FirstSegment(path);
    var between, s, after := FirstSegment(rest);
    assert api == "api";
    SlashThere(between, s, rest, after);
    assert path == before + ("api" + (between + (s + after)));
  }

  lemma SlashThere(between: string, s: string, rest: string, after: string)
    requires rest == between + (s + after) && s != "" && NoSlash(s) && (rest == "" || rest[0] == '/')
    ensures between != ""
  {
    assert s[0] in s && (s + after)[0] == s[0];
    assert between != "" || rest == s + after;
  }

  /** The category of a path: its segment after `api`, unless that is a parameter; otherwise one of
      the operation's own. */
  lemma CategoryExactly(path: string, id: string)
    ensures forall s | ApiSegment(path, s) :: Category(path, id) == s
    ensures (forall s :: !ApiSegment(path, s)) ==> Category(path, id) == "single:" + id
  {
    hide Split, NonEmpty, UnderApi;
    forall s | ApiSegment(path, s) ensures Category(path, id) == s {
      UnderApiSegments(path, s);
    }
    var segments := NonEmpty(Split(path));
    if |segments| >= 2 && segments[0] == "api" {
      SegmentsUnderApi(path);
      UnderApiNotEmpty(path, segments[1]);
      assert ApiSegment(path, segments[1]) <==> !("{" <= segments[1]);
    }
  }

  lemma UnderApiNotEmpty(path: string, s: string)
    requires UnderApi(path, s)
    ensures s != ""
  {
  }

  lemma UsualPath(s: string, after: string, id: string)
    requires s != "" && NoSlash(s) && !("{" <= s) && (after == "" || after[0] == '/')
    ensures Category("/" + ("api" + ("/" + (s + after))), id) == s
  {
    hide Category;
    assert AllSlashes("/");
    var path := "/" + ("api" + ("/" + (s + after)));
    assert ApiSegment(path, s);
    CategoryExactly(path, id);
  }

  /** The usual paths, for every segment. */
  lemma CategoryOfApi(s: string, rest: string, id: string)
    requires s != "" && NoSlash(s) && !("{" <= s)
    ensures Category("/api/" + s, id) == s && Category("/api/" + s + "/" + rest, id) == s
  {
    hide Category;
    UsualPath(s, "", id);
    UsualPath(s, "/" + rest, id);
    assert "/" + ("api" + ("/" + (s + ""))) == "/api/" + s;
    assert "/" + ("api" + ("/" + (s + ("/" + rest)))) == "/api/" + s + "/" + rest;
  }

  ghost predicate Alone(path: string) {
    forall s :: !ApiSegment(path, s)
  }

  /** The methods visited are the eight of a path item, in this order. */
  lemma MethodOrder()
    ensures METHODS == ["get", "put", "post", "delete", "options", "head", "patch", "trace"]
    ensures forall k :: k in METHODS <==> k in HTTP_METHODS
  {
  }

  /** Every member of a path item that is one of them is an operation of the registry. */
  lemma EveryOperationVisited(doc: Json, ops: seq<Operation>, p: string, k: string)
    requires IsDocument(doc) && Covers(PathsIn(doc), ops)
    ensures Operation(p, k) in ops
            <==> k in {"get", "put", "post", "delete", "options", "head", "patch", "trace"}
                 && Get(doc, ["paths", p, k]).Some?
  {
    hide Get, METHODS;
    MethodOrder();
    GetPathMember(doc.fields, PathsIn(doc), p, k);
  }

  /** Two operations share a category exactly when they have the same segment after `api`, or are the
      same single one; or when such a segment reads as the category of a single one. */
  lemma SameCategory(paths: map<string, Json>, a: Operation, b: Operation)
    ensures CategoryOf(paths, a) == CategoryOf(paths, b)
            <==> || (exists s :: ApiSegment(a.path, s) && ApiSegment(b.path, s))
                 || (Alone(a.path) && Alone(b.path) && IdOf(paths, a) == IdOf(paths, b))
                 || (Alone(a.path) && ApiSegment(b.path, "single:" + IdOf(paths, a)))
                 || (Alone(b.path) && ApiSegment(a.path, "single:" + IdOf(paths, b)))
  {
    hide Category, ApiSegment, IdOf;
    CategoryExactly(a.path, IdOf(paths, a));
    CategoryExactly(b.path, IdOf(paths, b));
    var x, y := "single:" + IdOf(paths, a), "single:" + IdOf(paths, b);
    assert x == y ==> IdOf(paths, a) == x[7..] == y[7..] == IdOf(paths, b);
  }

  /** So in the registry: an operation's document is that of every operation with its segment. */
  lemma GroupedBySegment(
    doc: Json, ops: seq<Operation>, registry: Registry, a: Operation, b: Operation, s: string)
    requires Covers(PathsIn(doc), ops) && Grouped(PathsIn(doc), ops, registry.members)
    requires a in ops && b in ops && ApiSegment(a.path, s)
    ensures s in registry.members && a in registry.members[s]
    ensures b in registry.members[s]
            <==> ApiSegment(b.path, s) || (Alone(b.path) && s == "single:" + IdOf(PathsIn(doc), b))
  {
    hide Category, ApiSegment, IdOf, InCategory;
    CategoryExactly(a.path, IdOf(PathsIn(doc), a));
    CategoryExactly(b.path, IdOf(PathsIn(doc), b));
    InCategoryExact(PathsIn(doc), ops, s, a);
    InCategoryExact(PathsIn(doc), ops, s, b);
  }

  /** And a single operation is alone, unless a segment reads as its category. */
  lemma SingleIsAlone(doc: Json, ops: seq<Operation>, registry: Registry, a: Operation, b: Operation)
    requires Identified(PathsIn(doc), ops) && Grouped(PathsIn(doc), ops, registry.members)
    requires a in ops && b in ops && Alone(a.path)
    ensures var category := "single:" + IdOf(PathsIn(doc), a);
            && category in registry.members && a in registry.members[category]
            && (b in registry.members[category] <==> a == b || ApiSegment(b.path, category))
  {
    hide Category, ApiSegment, IdOf, InCategory, Visited, OperationId;
    var category := "single:" + IdOf(PathsIn(doc), a);
    CategoryExactly(a.path, IdOf(PathsIn(doc), a));
    CategoryExactly(b.path, IdOf(PathsIn(doc), b));
    InCategoryExact(PathsIn(doc), ops, category, a);
    InCategoryExact(PathsIn(doc), ops, category, b);
    var other := "single:" + IdOf(PathsIn(doc), b);
    assert category == other ==> IdOf(PathsIn(doc), a) == category[7..] == other[7..] == IdOf(PathsIn(doc), b);
  }

  // ----- what the registry holds ---------------------------------------------------------------

  ghost predicate IsClosure(doc: Json, ops: seq<Operation>, spec: Json) {
    Servable(doc, ops) && IsScopedDocument(doc, ops, spec)
  }

  ghost predicate Closable(doc: Json, ops: seq<Operation>) {
    Servable(doc, ops) && Plain(doc, ops) && AllThroughObjects(doc, ops)
  }

  predicate Visited(paths: map<string, Json>, op: Operation) {
    Declares(paths, op) && op.verb in METHODS
  }

  ghost predicate Identified(paths: map<string, Json>, ops: seq<Operation>) {
    && (forall op | op in ops :: Visited(paths, op) && OperationId(paths, op).Some?)
    && (forall i, j | 0 <= i < j < |ops| :: IdOf(paths, ops[i]) != IdOf(paths, ops[j]))
  }

  /** Each id names the closure of its own operation... */
  ghost predicate SpecsById(doc: Json, ops: seq<Operation>, specs: map<string, Json>) {
    && (forall op | op in ops :: IdOf(PathsIn(doc), op) in specs && IsClosure(doc, [op], specs[IdOf(PathsIn(doc), op)]))
    && (forall id | id in specs :: exists op | op in ops :: IdOf(PathsIn(doc), op) == id)
  }

  /** ...and each category lists its operations. */
  predicate Grouped(paths: map<string, Json>, ops: seq<Operation>, members: map<string, seq<Operation>>) {
    && (forall op | op in ops :: CategoryOf(paths, op) in members)
    && (forall c | c in members :: members[c] != [] && members[c] == InCategory(paths, ops, c))
  }

  ghost predicate CategoriesClosed(doc: Json, registry: Registry) {
    && registry.categorySpecs.Keys == registry.members.Keys
    && forall c | c in registry.members :: IsClosure(doc, registry.members[c], registry.categorySpecs[c])
  }

  /** Paths ascend, and the operations of one path follow the order of methods. */
  ghost predicate Before(a: Operation, b: Operation) {
    || Precedes(a.path, b.path)
    || (a.path == b.path && exists m, n | 0 <= m < n < |METHODS| :: METHODS[m] == a.verb && METHODS[n] == b.verb)
  }

  ghost predicate InDocumentOrder(ops: seq<Operation>) {
    forall i, j | 0 <= i < j < |ops| :: Before(ops[i], ops[j])
  }

  /** All operations of the document, in its order. */
  ghost predicate Covers(paths: map<string, Json>, ops: seq<Operation>) {
    && (forall p | p in paths :: paths[p].Obj?)
    && (forall op :: op in ops <==> Visited(paths, op))
    && InDocumentOrder(ops)
  }

  lemma OrderNext(ops: seq<Operation>, op: Operation)
    requires InDocumentOrder(ops) && forall x | x in ops :: Before(x, op)
    ensures InDocumentOrder(ops + [op])
  {
    hide Before;
    assert forall i | 0 <= i < |ops| :: ops[i] in ops;
  }

  /** What the reported fault says about the document. */
  ghost predicate Faulty(doc: Json, fault: Fault) {
    var paths := PathsIn(doc);
    match fault
    case NoPaths => !IsDocument(doc)
    case PathItemNotObject(p) => p in paths && !paths[p].Obj?
    case OperationNotObject(op) => Visited(paths, op) && !OperationAt(paths, op).Obj?
    case NoOperationId(op) => Visited(paths, op) && OperationId(paths, op) == None
    case DuplicateId(id) =>
      exists a, b | Visited(paths, a) && Visited(paths, b) && a != b :: IdOf(paths, a) == id == IdOf(paths, b)
    case NotClosed(ops, _) => ops != [] && AllDeclared(paths, ops) && !Closable(doc, ops)
  }

  // ----- building it -----------------------------------------------------------------------------

  /** One turn of the inner loop. */
  method Register(doc: Json, registry: Registry, op: Operation, ghost done: seq<Operation>) returns (r: Outcome)
    requires IsDocument(doc) && Visited(PathsIn(doc), op) && op !in done
    requires Identified(PathsIn(doc), done) && SpecsById(doc, done, registry.operationSpecs)
    requires Grouped(PathsIn(doc), done, registry.members)
    ensures r.Built? ==>
              && Identified(PathsIn(doc), done + [op]) && SpecsById(doc, done + [op], r.registry.operationSpecs)
              && Grouped(PathsIn(doc), done + [op], r.registry.members)
              && r.registry.categorySpecs == registry.categorySpecs
    ensures r.Rejected? ==> Faulty(doc, r.fault)
  {
    hide Identified, SpecsById, Grouped, Closable, Category, Servable, Plain, AllThroughObjects;
    var paths := PathsIn(doc);
    var operation := OperationAt(paths, op);
    if !operation.Obj? {
      return Rejected(OperationNotObject(op));
    }
    var named := OperationId(paths, op);
    if named.None? {
      return Rejected(NoOperationId(op));
    }
    var id := named.value;
    if id in registry.operationSpecs {
      IdTaken(doc, done, registry.operationSpecs, op);
      return Rejected(DuplicateId(id));
    }
    var category := Category(op.path, id);
    var before := if category in registry.members then registry.members[category] else [];
    var members := registry.members[category := before + [op]];
    GroupedStep(paths, done, registry.members, op);
    assert AllDeclared(paths, [op]);
    var closed := CloseScopedSpec(doc, [op]);
    if closed.Err? {
      NotClosable(doc, [op]);
      return Rejected(NotClosed([op], closed.failure));
    }
    assert IsClosure(doc, [op], closed.value);
    SpecsStep(doc, done, registry.operationSpecs, op, closed.value);
    r := Built(registry.(members := members, operationSpecs := registry.operationSpecs[id := closed.value]));
  }

  lemma NotClosable(doc: Json, ops: seq<Operation>)
    ensures Closable(doc, ops) ==> Servable(doc, ops) && Plain(doc, ops) && AllThroughObjects(doc, ops)
  {
  }

  lemma IdTaken(doc: Json, done: seq<Operation>, specs: map<string, Json>, op: Operation)
    requires Visited(PathsIn(doc), op) && op !in done && IdOf(PathsIn(doc), op) in specs
    requires Identified(PathsIn(doc), done) && SpecsById(doc, done, specs)
    ensures exists a, b | Visited(PathsIn(doc), a) && Visited(PathsIn(doc), b) && a != b ::
              IdOf(PathsIn(doc), a) == IdOf(PathsIn(doc), op) == IdOf(PathsIn(doc), b)
  {
    hide IdOf, IsClosure;
    var prior :| prior in done && IdOf(PathsIn(doc), prior) == IdOf(PathsIn(doc), op);
  }

  lemma GroupedStep(paths: map<string, Json>, done: seq<Operation>, members: map<string, seq<Operation>>, op: Operation)
    requires Grouped(paths, done, members)
    ensures var c := CategoryOf(paths, op);
            Grouped(paths, done + [op], members[c := (if c in members then members[c] else []) + [op]])
  {
    hide CategoryOf;
    var c, all := CategoryOf(paths, op), done + [op];
    assert all[..|done|] == done;
    if c !in members {
      if x :| x in InCategory(paths, done, c) {
        InCategoryExact(paths, done, c, x);
      }
      SomeElement(InCategory(paths, done, c));
    }
  }

  lemma SpecsStep(doc: Json, done: seq<Operation>, specs: map<string, Json>, op: Operation, spec: Json)
    requires Visited(PathsIn(doc), op) && OperationId(PathsIn(doc), op).Some?
    requires Identified(PathsIn(doc), done) && SpecsById(doc, done, specs)
    requires IdOf(PathsIn(doc), op) !in specs && IsClosure(doc, [op], spec)
    ensures Identified(PathsIn(doc), done + [op])
    ensures SpecsById(doc, done + [op], specs[IdOf(PathsIn(doc), op) := spec])
  {
    hide IdOf, IsClosure, Visited, PathsIn, SpecsById, Identified, OperationId;
    IdsOfSpecs(doc, done, specs);
    IdentifiedStep(PathsIn(doc), done, op);
    SpecAdded(doc, done, specs, op, spec);
  }

  lemma IdsOfSpecs(doc: Json, done: seq<Operation>, specs: map<string, Json>)
    requires SpecsById(doc, done, specs)
    ensures forall op | op in done :: IdOf(PathsIn(doc), op) in specs
  {
  }

  lemma IdentifiedStep(paths: map<string, Json>, done: seq<Operation>, op: Operation)
    requires Identified(paths, done) && Visited(paths, op) && OperationId(paths, op).Some?
    requires forall x | x in done :: IdOf(paths, x) != IdOf(paths, op)
    ensures Identified(paths, done + [op])
  {
    hide IdOf, Declares, OperationAt;
    var all := done + [op];
    assert forall x :: x in all <==> x in done || x == op;
    assert forall i | 0 <= i < |done| :: all[i] == done[i] && all[i] in done;
  }

  lemma SpecAdded(doc: Json, done: seq<Operation>, specs: map<string, Json>, op: Operation, spec: Json)
    requires SpecsById(doc, done, specs) && IdOf(PathsIn(doc), op) !in specs && IsClosure(doc, [op], spec)
    ensures SpecsById(doc, done + [op], specs[IdOf(PathsIn(doc), op) := spec])
  {
    hide IdOf, IsClosure, PathsIn;
    var all := done + [op];
    assert forall x :: x in all <==> x in done || x == op;
  }

  /** The grouping loops and the closing of the categories of `build_api_docs_registry`. */
  method BuildRegistry(canonical: Json) returns (r: Outcome, ghost ops: seq<Operation>)
    ensures r.Built? ==>
              && Covers(PathsIn(canonical), ops) && Identified(PathsIn(canonical), ops)
              && SpecsById(canonical, ops, r.registry.operationSpecs)
              && Grouped(PathsIn(canonical), ops, r.registry.members) && CategoriesClosed(canonical, r.registry)
    ensures r.Rejected? ==> Faulty(canonical, r.fault)
  {
    hide Identified, SpecsById, Grouped, CategoriesClosed, Closable, METHODS, InDocumentOrder, Precedes;
    ops := [];
    if !IsDocument(canonical) {
      return Rejected(NoPaths), ops;
    }
    var paths := PathsIn(canonical);
    EmptyRegistry(canonical);
    r := Built(Registry(map[], map[], map[]));
    var keys := Ascending(paths.Keys);
    for i := 0 to |keys|
      invariant r.Built? && r.registry.categorySpecs == map[]
      invariant Identified(paths, ops) && SpecsById(canonical, ops, r.registry.operationSpecs)
      invariant Grouped(paths, ops, r.registry.members)
      invariant forall p | p in keys[..i] :: paths[p].Obj?
      invariant forall op :: op in ops <==> op.path in keys[..i] && Visited(paths, op)
      invariant InDocumentOrder(ops)
    {
      var path := keys[i];
      assert path in paths;
      if !paths[path].Obj? {
        return Rejected(PathItemNotObject(path)), ops;
      }
      PrecedesIrreflexive(path);
      assert path !in keys[..i];
      assert forall p | p in keys[..i] :: Precedes(p, path);
      r, ops := RegisterItem(canonical, r.registry, path, ops);
      if r.Rejected? {
        return;
      }
      assert keys[..i + 1] == keys[..i] + [path];
    }
    assert keys[..|keys|] == keys;
    r := CloseCategories(canonical, r.registry, ops);
  }

  lemma EmptyRegistry(doc: Json)
    ensures InDocumentOrder([]) && Identified(PathsIn(doc), [])
    ensures SpecsById(doc, [], map[]) && Grouped(PathsIn(doc), [], map[])
  {
  }

  /** The inner loop: the operations of one path item. */
  method RegisterItem(doc: Json, registry: Registry, path: string, ghost before: seq<Operation>)
    returns (r: Outcome, ghost ops: seq<Operation>)
    requires IsDocument(doc) && path in PathsIn(doc) && PathsIn(doc)[path].Obj?
    requires InDocumentOrder(before) && forall op | op in before :: op.path != path && Precedes(op.path, path)
    requires Identified(PathsIn(doc), before) && SpecsById(doc, before, registry.operationSpecs)
    requires Grouped(PathsIn(doc), before, registry.members)
    ensures r.Built? ==>
              && Identified(PathsIn(doc), ops) && SpecsById(doc, ops, r.registry.operationSpecs)
              && Grouped(PathsIn(doc), ops, r.registry.members) && r.registry.categorySpecs == registry.categorySpecs
              && InDocumentOrder(ops)
              && forall op :: op in ops <==> op in before || (op.path == path && Visited(PathsIn(doc), op))
    ensures r.Rejected? ==> Faulty(doc, r.fault)
  {
    hide Identified, SpecsById, Grouped, METHODS, Faulty, InDocumentOrder, Before, Precedes;
    r, ops := Built(registry), before;
    var item := PathsIn(doc)[path].fields;
    for j := 0 to |METHODS|
      invariant r.Built? && r.registry.categorySpecs == registry.categorySpecs
      invariant Identified(PathsIn(doc), ops) && SpecsById(doc, ops, r.registry.operationSpecs)
      invariant Grouped(PathsIn(doc), ops, r.registry.members)
      invariant InDocumentOrder(ops)
      invariant forall op ::
                  op in ops <==> op in before || (op.path == path && op.verb in METHODS[..j] && op.verb in item)
    {
      var verb := METHODS[j];
      assert METHODS[..j + 1] == METHODS[..j] + [verb];
      if verb in item {
        MethodsDistinct(j);
        var op := Operation(path, verb);
        r := Register(doc, r.registry, op, ops);
        if r.Rejected? {
          return;
        }
        forall x | x in ops ensures Before(x, op) {
          ComesBefore(x, path, j);
        }
        OrderNext(ops, op);
        ops := ops + [op];
      }
    }
    assert METHODS[..|METHODS|] == METHODS;
  }

  lemma ComesBefore(x: Operation, path: string, j: nat)
    requires j < |METHODS| && (Precedes(x.path, path) || (x.path == path && x.verb in METHODS[..j]))
    ensures Before(x, Operation(path, METHODS[j]))
  {
    hide METHODS;
    if x.path == path && x.verb in METHODS[..j] {
      var m :| 0 <= m < j && METHODS[m] == x.verb;
    }
  }

  lemma MethodsDistinct(j: nat)
    requires j < |METHODS|
    ensures METHODS[j] !in METHODS[..j] && METHODS[j] in METHODS
  {
  }

  method CloseCategories(doc: Json, registry: Registry, ghost ops: seq<Operation>) returns (r: Outcome)
    requires IsDocument(doc) && registry.categorySpecs == map[]
    requires Identified(PathsIn(doc), ops) && Grouped(PathsIn(doc), ops, registry.members)
    ensures r.Built? ==>
              && r.registry == registry.(categorySpecs := r.registry.categorySpecs)
              && CategoriesClosed(doc, r.registry)
    ensures r.Rejected? ==> Faulty(doc, r.fault)
  {
    hide Closable, InCategory, CategoryOf, Servable, Plain, AllThroughObjects, IsScopedDocument;
    var specs: map<string, Json> := map[];
    var rest := registry.members.Keys;
    while rest != {}
      invariant rest <= registry.members.Keys && specs.Keys == registry.members.Keys - rest
      invariant forall c | c in specs :: IsClosure(doc, registry.members[c], specs[c])
    {
      var category :| category in rest;
      rest := rest - {category};
      var members := registry.members[category];
      MembersDeclared(PathsIn(doc), ops, category);
      var closed := CloseScopedSpec(doc, members);
      if closed.Err? {
        NotClosable(doc, members);
        return Rejected(NotClosed(members, closed.failure));
      }
      specs := specs[category := closed.value];
    }
    r := Built(registry.(categorySpecs := specs));
  }

  lemma MembersDeclared(paths: map<string, Json>, ops: seq<Operation>, category: string)
    requires Identified(paths, ops)
    ensures AllDeclared(paths, InCategory(paths, ops, category))
  {
    hide InCategory;
    forall op | op in InCategory(paths, ops, category) ensures Declares(paths, op) {
      InCategoryExact(paths, ops, category, op);
    }
  }

  // ----- what the registry is good for ---------------------------------------------------------------

  /** Every operation of the description is served under its id, and everything in its document's
      components is in those of its category's document. */
  lemma OperationWithinItsCategory(doc: Json, ops: seq<Operation>, registry: Registry, op: Operation)
    requires Identified(PathsIn(doc), ops) && SpecsById(doc, ops, registry.operationSpecs)
    requires Grouped(PathsIn(doc), ops, registry.members) && CategoriesClosed(doc, registry)
    requires op in ops && Plain(doc, InCategory(PathsIn(doc), ops, CategoryOf(PathsIn(doc), op)))
    ensures var id, category := IdOf(PathsIn(doc), op), CategoryOf(PathsIn(doc), op);
            && id in registry.operationSpecs && category in registry.categorySpecs
            && IsClosure(doc, [op], registry.operationSpecs[id])
            && IsClosure(doc, InCategory(PathsIn(doc), ops, category), registry.categorySpecs[category])
            && Within(registry.operationSpecs[id].fields["components"],
                      registry.categorySpecs[category].fields["components"])
  {
    hide Servable, Plain, IsScopedDocument, Within, IdOf, CategoryOf, InCategory;
    var paths := PathsIn(doc);
    var id, category := IdOf(paths, op), CategoryOf(paths, op);
    var group := InCategory(paths, ops, category);
    InCategoryExact(paths, ops, category, op);
    ScopedWithin(doc, op, group, registry.operationSpecs[id], registry.categorySpecs[category]);
  }

  lemma ScopedWithin(doc: Json, op: Operation, group: seq<Operation>, spec: Json, groupSpec: Json)
    requires op in group && IsClosure(doc, [op], spec) && IsClosure(doc, group, groupSpec) && Plain(doc, group)
    ensures spec.Obj? && "components" in spec.fields && groupSpec.Obj? && "components" in groupSpec.fields
    ensures Within(spec.fields["components"], groupSpec.fields["components"])
  {
    hide Plain, Within;
    OperationWithinCategory(doc, [op], group, spec, groupSpec);
  }
}
