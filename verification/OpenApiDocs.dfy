/** The sub-document of an OpenAPI description that serves chosen operations: their path items,
    the components those reach through `$ref`, and the security schemes they need. */
module OpenApiDocs {
  import opened Strings
  import opened JsonValues
  import opened JsonPointer
  import opened SubDocument

  /** A path of the description and an HTTP method under it. */
  datatype Operation = Operation(path: string, verb: string)

  datatype Failure =
    | NotADocument
    | OperationMissing(operation: Operation)
    | ExternalReference(reference: string)
    | MissingNode(reference: string)
    | OutsideComponents(reference: string)
    | PointerBlocked(reference: string)
    | MissingScheme(name: string)
    | SchemeBlocked(name: string)
    | MissingMember(name: string)

  datatype Result<+T> = Ok(value: T) | Err(failure: Failure)

  const HTTP_METHODS := {"get", "put", "post", "delete", "options", "head", "patch", "trace"}

  // ----- references -------------------------------------------------------------------

  const COMPONENTS_REF := "#/components"

  function ResolveRef(doc: Json, reference: string): Option<Json> {
    if reference != "" && reference[0] == '#' then Resolve(doc, reference[1..]) else None
  }

  predicate InComponents(reference: string) {
    COMPONENTS_REF <= reference
  }

  /** Where the node of a reference is inserted, below `components`. */
  function ComponentPath(reference: string): Path {
    if InComponents(reference) then InsertTokens(reference[|COMPONENTS_REF|..]) else []
  }

  /** The part of a reference after `#/components` is empty or has one leading slash. */
  predicate PlainPointer(reference: string) {
    InComponents(reference) && PlainSuffix(reference[|COMPONENTS_REF|..])
  }

  function ComponentPaths(references: set<string>): set<Path> {
    set r | r in references :: ComponentPath(r)
  }

  function ComponentsOf(doc: Json): Json {
    if doc.Obj? && "components" in doc.fields then doc.fields["components"] else Obj(map[])
  }

  lemma PlainResolves(doc: Json, reference: string)
    requires PlainPointer(reference) && doc.Obj?
    requires "components" in doc.fields || ComponentPath(reference) != []
    ensures ResolveRef(doc, reference) == Get(ComponentsOf(doc), ComponentPath(reference))
  {
    var suffix := reference[|COMPONENTS_REF|..];
    TokensAgree(suffix);
    assert reference[..|COMPONENTS_REF|] == COMPONENTS_REF;
    assert reference[1..] == COMPONENTS + suffix by {
      assert COMPONENTS_REF[1..] == COMPONENTS;
    }
    var path := ComponentPath(reference);
    assert (["components"] + path)[1..] == path;
  }

  // ----- reachability -------------------------------------------------------------------

  function NestedRefs(doc: Json, reference: string): set<string> {
    match ResolveRef(doc, reference)
    case Some(v) => CollectRefs(v)
    case None => {}
  }

  /** A chain of references from a root, each found in the node of the one before. */
  ghost predicate IsChain(doc: Json, roots: set<string>, chain: seq<string>) {
    && chain != [] && chain[0] in roots
    && forall i | 0 < i < |chain| :: chain[i] in NestedRefs(doc, chain[i - 1])
  }

  ghost predicate Reachable(doc: Json, roots: set<string>, reference: string) {
    exists chain :: IsChain(doc, roots, chain) && chain[|chain| - 1] == reference
  }

  ghost function Reach(doc: Json, roots: set<string>): set<string> {
    set r | r in roots + CollectRefs(doc) && Reachable(doc, roots, r)
  }

  lemma RefsInDocument(doc: Json, reference: string)
    ensures NestedRefs(doc, reference) <= CollectRefs(doc)
  {
    if ResolveRef(doc, reference).Some? {
      NodeRefs(doc, ResolveTokens(reference[1..]).value);
    }
  }

  lemma ReachRoots(doc: Json, roots: set<string>)
    ensures roots <= Reach(doc, roots)
  {
    forall r | r in roots ensures Reachable(doc, roots, r) {
      assert IsChain(doc, roots, [r]) && [r][|[r]| - 1] == r;
    }
  }

  lemma ReachStep(doc: Json, roots: set<string>, r: string)
    requires r in Reach(doc, roots)
    ensures NestedRefs(doc, r) <= Reach(doc, roots)
  {
    var chain :| IsChain(doc, roots, chain) && chain[|chain| - 1] == r;
    RefsInDocument(doc, r);
    forall n | n in NestedRefs(doc, r) ensures Reachable(doc, roots, n) {
      var longer := chain + [n];
      assert IsChain(doc, roots, longer) && longer[|longer| - 1] == n;
    }
  }

  predicate ClosedUnderRefs(doc: Json, references: set<string>) {
    forall r | r in references :: NestedRefs(doc, r) <= references
  }

  /** `Reach` is the least set that holds the roots and is closed under nested references. */
  lemma ReachIsLeast(doc: Json, roots: set<string>, closed: set<string>)
    ensures roots <= Reach(doc, roots) && ClosedUnderRefs(doc, Reach(doc, roots))
    ensures roots <= closed && ClosedUnderRefs(doc, closed) ==> Reach(doc, roots) <= closed
  {
    ReachRoots(doc, roots);
    forall r | r in Reach(doc, roots) ensures NestedRefs(doc, r) <= Reach(doc, roots) {
      ReachStep(doc, roots, r);
    }
    if roots <= closed && ClosedUnderRefs(doc, closed) {
      forall r | r in Reach(doc, roots) ensures r in closed {
        var chain :| IsChain(doc, roots, chain) && chain[|chain| - 1] == r;
        ChainStays(doc, roots, closed, chain, |chain| - 1);
      }
    }
  }

  lemma {:induction false} ChainStays(doc: Json, roots: set<string>, closed: set<string>, chain: seq<string>, i: nat)
    requires roots <= closed && ClosedUnderRefs(doc, closed) && IsChain(doc, roots, chain) && i < |chain|
    ensures chain[i] in closed
  {
    if i > 0 {
      ChainStays(doc, roots, closed, chain, i - 1);
      assert NestedRefs(doc, chain[i - 1]) <= closed;
    }
  }

  // ----- the worklist -------------------------------------------------------------------

  /** What is wrong with the reference a failed closure names. */
  ghost predicate Blames(doc: Json, reach: set<string>, failure: Failure) {
    match failure
    case ExternalReference(r) => r in reach && !("#" <= r)
    case MissingNode(r) => r in reach && ResolveRef(doc, r) == None
    case OutsideComponents(r) => r in reach && !InComponents(r)
    case PointerBlocked(r) =>
      r in reach && (AllPlain(reach) ==> !ThroughObjects(ComponentsOf(doc), ComponentPath(r)))
    case _ => false
  }

  /** `insert_pointer` of the node a reference names, below `components`. */
  function InsertRef(doc: Json, components: Json, reference: string): Result<Json> {
    if !("#" <= reference) then Err(ExternalReference(reference))
    else match ResolveRef(doc, reference)
      case None => Err(MissingNode(reference))
      case Some(v) =>
        if !InComponents(reference) then Err(OutsideComponents(reference))
        else match Insert(components, ComponentPath(reference), v)
          case Inserted(c) => Ok(c)
          case NotAnObject => Err(PointerBlocked(reference))
  }

  predicate AllPlain(references: set<string>) {
    forall r | r in references :: PlainPointer(r)
  }

  lemma InsertRefSpans(doc: Json, references: set<string>, components: Json, r: string)
    requires doc.Obj?
    requires AllPlain(references + {r}) ==> components == Span(ComponentsOf(doc), ComponentPaths(references))
    ensures match InsertRef(doc, components, r)
            case Ok(c) =>
              && ResolveRef(doc, r).Some? && InComponents(r)
              && (AllPlain(references + {r}) ==> c == Span(ComponentsOf(doc), ComponentPaths(references + {r})))
            case Err(f) => Blames(doc, references + {r}, f)
  {
    hide Span, Insert, InsertTokens;
    if InComponents(r) && ResolveRef(doc, r).Some? && AllPlain(references + {r}) {
      ComponentsPresent(doc, r);
      PlainResolves(doc, r);
      InsertSpans(ComponentsOf(doc), ComponentPaths(references), ComponentPath(r));
      assert ComponentPaths(references + {r}) == ComponentPaths(references) + {ComponentPath(r)};
    }
  }

  /** Success means every reachable reference is a component that resolves, and what was built is
      what they span (given plain pointers); failure names a reachable reference at fault. */
  ghost predicate ClosesRefs(doc: Json, reach: set<string>, r: Result<Json>) {
    match r
    case Ok(components) =>
      && (forall x | x in reach :: InComponents(x) && ResolveRef(doc, x).Some?)
      && (AllPlain(reach) ==> components == Span(ComponentsOf(doc), ComponentPaths(reach)))
    case Err(f) => Blames(doc, reach, f)
  }

  /** The insertions of some references, one after the other, into a new object. */
  function InsertAll(doc: Json, order: seq<string>): Result<Json> {
    if order == [] then Ok(Obj(map[]))
    else
      var before := InsertAll(doc, order[..|order| - 1]);
      if before.Err? then before else InsertRef(doc, before.value, order[|order| - 1])
  }

  lemma InsertAllStep(doc: Json, order: seq<string>, components: Json, r: string)
    requires InsertAll(doc, order) == Ok(components)
    ensures InsertAll(doc, order + [r]) == InsertRef(doc, components, r)
  {
    assert (order + [r])[..|order|] == order;
  }

  ghost predicate Distinct(order: seq<string>) {
    forall i, j | 0 <= i < j < |order| :: order[i] != order[j]
  }

  /** Each element of a set once. */
  ghost predicate Enumerates(order: seq<string>, all: set<string>) {
    Distinct(order) && forall x :: x in order <==> x in all
  }

  lemma {:induction false} EnumerationExists(all: set<string>) returns (order: seq<string>)
    ensures Enumerates(order, all)
  {
    if all == {} {
      order := [];
    } else {
      var x :| x in all;
      var rest := EnumerationExists(all - {x});
      EnumeratesNext(rest, all - {x}, x);
      assert all - {x} + {x} == all;
      order := rest + [x];
    }
  }

  lemma {:induction false} InsertAllFails(doc: Json, order: seq<string>, more: seq<string>)
    requires InsertAll(doc, order).Err?
    ensures InsertAll(doc, order + more) == InsertAll(doc, order)
    decreases |more|
  {
    if more == [] {
      assert order + more == order;
    } else {
      assert (order + more)[..|order + more| - 1] == order + more[..|more| - 1];
      InsertAllFails(doc, order, more[..|more| - 1]);
    }
  }

  /** A failure part of the way is one of a whole enumeration. */
  lemma FailureExtends(doc: Json, order: seq<string>, all: set<string>) returns (whole: seq<string>)
    requires Distinct(order) && (forall x | x in order :: x in all) && InsertAll(doc, order).Err?
    ensures Enumerates(whole, all) && InsertAll(doc, whole).Err?
  {
    var more := EnumerationExists(all - (set x | x in order));
    InsertAllFails(doc, order, more);
    whole := order + more;
    forall i, j | 0 <= i < j < |whole| ensures whole[i] != whole[j] {
      assert i < |order| ==> whole[i] in order;
      assert j >= |order| ==> whole[j] == more[j - |order|] && more[j - |order|] in more;
    }
  }

  /** Inserted in any order, plain references build what they span; a failure names one at fault. */
  lemma {:induction false} InsertAllSpans(doc: Json, order: seq<string>, references: set<string>)
    requires doc.Obj? && Enumerates(order, references)
    ensures ClosesRefs(doc, references, InsertAll(doc, order))
    decreases |order|
  {
    hide Span, InsertRef, InComponents, ResolveRef, Blames, PlainPointer, ComponentsOf;
    if order == [] {
      SpanNothing(ComponentsOf(doc));
      NoneEnumerated(references);
    } else {
      var first, last := order[..|order| - 1], order[|order| - 1];
      var earlier := references - {last};
      EnumeratesFirst(order, references);
      assert earlier + {last} == references;
      InsertAllSpans(doc, first, earlier);
      var before := InsertAll(doc, first);
      if before.Ok? {
        InsertRefSpans(doc, earlier, before.value, last);
      } else {
        BlamesMore(doc, earlier, references, before.failure);
      }
    }
  }

  lemma Enumerated(order: seq<string>, all: set<string>)
    requires Enumerates(order, all)
    ensures Distinct(order) && forall x :: x in order <==> x in all
  {
  }

  lemma NoneEnumerated(references: set<string>)
    requires Enumerates([], references)
    ensures references == {} && ComponentPaths(references) == {}
  {
    assert forall x :: x !in references;
  }

  lemma EnumeratesFirst(order: seq<string>, all: set<string>)
    requires Enumerates(order, all) && order != []
    ensures Enumerates(order[..|order| - 1], all - {order[|order| - 1]})
  {
    assert order == order[..|order| - 1] + [order[|order| - 1]];
  }

  lemma EnumeratesNext(order: seq<string>, all: set<string>, r: string)
    requires Enumerates(order, all) && r !in all
    ensures Enumerates(order + [r], all + {r})
  {
  }

  lemma BlamesMore(doc: Json, fewer: set<string>, more: set<string>, failure: Failure)
    requires fewer <= more && Blames(doc, fewer, failure)
    ensures Blames(doc, more, failure)
  {
    hide ResolveRef, PlainPointer, ThroughObjects;
  }

  lemma ComponentsPresent(doc: Json, r: string)
    requires doc.Obj? && PlainPointer(r) && ResolveRef(doc, r).Some?
    ensures "components" in doc.fields
  {
    var suffix := r[|COMPONENTS_REF|..];
    TokensAgree(suffix);
    assert r[1..] == COMPONENTS + suffix by {
      assert COMPONENTS_REF[1..] == COMPONENTS;
    }
  }

  /** The worklist: it inserts the reachable references in some order, each once, up to the first
      that fails. */
  method CloseRefs(canonical: Json, roots: set<string>) returns (r: Result<Json>, ghost order: seq<string>)
    requires canonical.Obj?
    ensures ClosesRefs(canonical, Reach(canonical, roots), r)
    ensures r == InsertAll(canonical, order)
    ensures r.Ok? ==> Enumerates(order, Reach(canonical, roots))
    ensures r.Err? ==> Distinct(order) && forall x | x in order :: x in Reach(canonical, roots)
  {
    hide Span, CollectRefs, InsertRef, InsertAll, Enumerates, Distinct, Reach, Blames, InComponents, ResolveRef,
      PlainPointer, Reachable, IsChain;
    ghost var reach := Reach(canonical, roots);
    ghost var universe := roots + CollectRefs(canonical);
    ReachRoots(canonical, roots);
    var components := Obj(map[]);
    var pending := Ascending(roots);
    var visited: set<string> := {};
    order := [];
    NothingInserted(canonical);
    while pending != []
      invariant visited <= reach && visited <= universe
      invariant forall x | x in pending :: x in reach && x in universe
      invariant forall x | x in roots :: x in visited || x in pending
      invariant forall x, n | x in visited && n in NestedRefs(canonical, x) :: n in visited || n in pending
      invariant Enumerates(order, visited) && InsertAll(canonical, order) == Ok(components)
      decreases universe - visited, |pending|
    {
      var reference := pending[|pending| - 1];
      ghost var before := pending;
      pending := pending[..|pending| - 1];
      assert forall x | x in before :: x in pending || x == reference;
      if reference in visited {
        continue;
      }
      var inserted := InsertRef(canonical, components, reference);
      InsertAllStep(canonical, order, components, reference);
      EnumeratesNext(order, visited, reference);
      order := order + [reference];
      if inserted.Err? {
        InsertAllSpans(canonical, order, visited + {reference});
        BlamesMore(canonical, visited + {reference}, reach, inserted.failure);
        Enumerated(order, visited + {reference});
        return Err(inserted.failure), order;
      }
      components := inserted.value;
      var nested := NestedRefs(canonical, reference);
      ReachStep(canonical, roots, reference);
      RefsInDocument(canonical, reference);
      var ordered := Ascending(nested);
      visited := visited + {reference};
      pending := pending + ordered;
    }
    ReachIsLeast(canonical, roots, visited);
    assert visited == reach;
    InsertAllSpans(canonical, order, reach);
    r := Ok(components);
  }

  lemma NothingInserted(doc: Json)
    ensures InsertAll(doc, []) == Ok(Obj(map[])) && Enumerates([], {})
  {
  }

  // ----- the scoped path items -------------------------------------------------------------

  predicate Declares(paths: map<string, Json>, op: Operation) {
    op.path in paths && paths[op.path].Obj? && op.verb in paths[op.path].fields
  }

  predicate AllDeclared(paths: map<string, Json>, ops: seq<Operation>) {
    forall op | op in ops :: Declares(paths, op)
  }

  function PathsOf(ops: seq<Operation>): set<string> {
    set op | op in ops :: op.path
  }

  /** The members of a path item that stay: the chosen operations and all that is no operation. */
  function ScopedItem(item: map<string, Json>, path: string, ops: seq<Operation>): map<string, Json> {
    map k | k in item && (Operation(path, k) in ops || k !in HTTP_METHODS) :: item[k]
  }

  function ScopedPaths(paths: map<string, Json>, ops: seq<Operation>): map<string, Json>
    requires AllDeclared(paths, ops)
  {
    map p | p in PathsOf(ops) :: Obj(ScopedItem(ItemAt(paths, p), p, ops))
  }

  function ItemAt(paths: map<string, Json>, path: string): map<string, Json> {
    if path in paths && paths[path].Obj? then paths[path].fields else map[]
  }

  /** `extract_tags`: the tags an operation names. */
  function TagsOf(operation: Json): set<string> {
    if operation.Obj? && "tags" in operation.fields && operation.fields["tags"].Arr? then
      set t | t in operation.fields["tags"].items && t.Str? :: t.s
    else {}
  }

  function TagsFor(paths: map<string, Json>, ops: seq<Operation>): set<string>
    requires AllDeclared(paths, ops)
  {
    set op, t | op in ops && t in TagsOf(OperationAt(paths, op)) :: t
  }

  method ScopePaths(paths: map<string, Json>, ops: seq<Operation>)
    returns (r: Result<map<string, Json>>, tags: set<string>)
    ensures r.Ok? <==> AllDeclared(paths, ops)
    ensures r.Ok? ==> r.value == ScopedPaths(paths, ops) && tags == TagsFor(paths, ops)
    ensures r.Err? ==>
              r.failure.OperationMissing? && r.failure.operation in ops && !Declares(paths, r.failure.operation)
  {
    hide ScopedPaths, Declares, TagsOf, TagsFor;
    NoOperations(paths);
    r, tags := Ok(map[]), {};
    for i := 0 to |ops|
      invariant r.Ok? && AllDeclared(paths, ops[..i]) && r.value == ScopedPaths(paths, ops[..i])
      invariant tags == TagsFor(paths, ops[..i])
    {
      var op := ops[i];
      r := ScopeOperation(paths, ops[..i], r.value, op);
      if r.Err? {
        assert op in ops;
        return;
      }
      TagsStep(paths, ops[..i], op);
      tags := tags + TagsOf(OperationAt(paths, op));
      assert ops[..i + 1] == ops[..i] + [op];
    }
    assert ops[..|ops|] == ops;
  }

  function OperationAt(paths: map<string, Json>, op: Operation): Json
    requires Declares(paths, op)
  {
    paths[op.path].fields[op.verb]
  }

  lemma TagsStep(paths: map<string, Json>, before: seq<Operation>, op: Operation)
    requires AllDeclared(paths, before) && Declares(paths, op)
    ensures AllDeclared(paths, before + [op])
    ensures TagsFor(paths, before + [op]) == TagsFor(paths, before) + TagsOf(OperationAt(paths, op))
  {
    hide TagsOf;
    assert forall o :: o in before + [op] <==> o in before || o == op;
  }

  lemma NoOperations(paths: map<string, Json>)
    ensures AllDeclared(paths, []) && ScopedPaths(paths, []) == map[] && TagsFor(paths, []) == {}
  {
    assert PathsOf([]) == {};
  }

  /** One turn of the loop: the path item of an operation, or the reason it cannot be served. */
  method ScopeOperation(
    paths: map<string, Json>, ghost before: seq<Operation>, scoped: map<string, Json>, op: Operation)
    returns (r: Result<map<string, Json>>)
    requires AllDeclared(paths, before) && scoped == ScopedPaths(paths, before)
    ensures r.Ok? <==> Declares(paths, op)
    ensures r.Err? ==> r.failure == OperationMissing(op)
    ensures r.Ok? ==> AllDeclared(paths, before + [op]) && r.value == ScopedPaths(paths, before + [op])
  {
    hide HTTP_METHODS;
    if !(op.path in paths && paths[op.path].Obj?) {
      return Err(OperationMissing(op));
    }
    var item := paths[op.path].fields;
    var start := if op.path in scoped then scoped[op.path].fields else map[];
    ScopedItemWithin(item, op.path, before);
    var current := CopyItem(item, start, op.verb);
    if op.verb !in item {
      return Err(OperationMissing(op));
    }
    ScopedStep(paths, before, op, current);
    r := Ok(scoped[op.path := Obj(current)]);
  }

  lemma ScopedItemWithin(item: map<string, Json>, path: string, ops: seq<Operation>)
    ensures var scoped := ScopedItem(item, path, ops);
            forall k | k in scoped :: k in item && scoped[k] == item[k]
  {
  }

  /** The inner loop: `entry(key).or_insert(value)` for each member that stays. */
  method CopyItem(item: map<string, Json>, start: map<string, Json>, verb: string) returns (current: map<string, Json>)
    requires forall k | k in start :: k in item && start[k] == item[k]
    ensures current == map k | k in item && (k in start || k == verb || k !in HTTP_METHODS) :: item[k]
  {
    hide HTTP_METHODS;
    current := start;
    var rest := item.Keys;
    while rest != {}
      invariant rest <= item.Keys
      invariant current
                == map k | k in item && (k in start || (k !in rest && (k == verb || k !in HTTP_METHODS))) :: item[k]
    {
      var key :| key in rest;
      rest := rest - {key};
      if (key == verb || key !in HTTP_METHODS) && key !in current {
        current := current[key := item[key]];
      }
    }
  }

  lemma ScopedStep(paths: map<string, Json>, before: seq<Operation>, op: Operation, current: map<string, Json>)
    requires AllDeclared(paths, before) && Declares(paths, op)
    requires var scoped, item := ScopedPaths(paths, before), ItemAt(paths, op.path);
             current == map k | k in item && ((op.path in scoped && k in scoped[op.path].fields)
                                              || k == op.verb || k !in HTTP_METHODS) :: item[k]
    ensures AllDeclared(paths, before + [op])
    ensures ScopedPaths(paths, before + [op]) == ScopedPaths(paths, before)[op.path := Obj(current)]
  {
    hide HTTP_METHODS;
    var all, item := before + [op], ItemAt(paths, op.path);
    assert PathsOf(all) == PathsOf(before) + {op.path};
    assert current == ScopedItem(item, op.path, all) by {
      forall k ensures k in current <==> k in ScopedItem(item, op.path, all) {
        assert Operation(op.path, k) in all <==> Operation(op.path, k) in before || k == op.verb;
        if op.path !in PathsOf(before) {
          assert Operation(op.path, k) !in before;
        }
      }
    }
    forall p | p in PathsOf(before) && p != op.path
      ensures ScopedItem(ItemAt(paths, p), p, all) == ScopedItem(ItemAt(paths, p), p, before)
    {
      assert forall k :: Operation(p, k) in all <==> Operation(p, k) in before;
    }
  }

  // ----- security ------------------------------------------------------------------------------

  /** The security requirements in force for an operation: its own, or the document's. */
  function Requirements(doc: map<string, Json>, paths: map<string, Json>, op: Operation): seq<Json>
    requires Declares(paths, op)
  {
    var operation := OperationAt(paths, op);
    if operation.Obj? && "security" in operation.fields && operation.fields["security"].Arr? then
      operation.fields["security"].items
    else if "security" in doc && doc["security"].Arr? then doc["security"].items
    else []
  }

  /** A list at a place of the document. */
  function ListAt(v: Json, place: Path): Option<seq<Json>> {
    match Get(v, place)
    case Some(Arr(items)) => Some(items)
    case _ => None
  }

  /** An operation without a list of its own has exactly the document's. */
  lemma RequirementsExactly(doc: map<string, Json>, paths: map<string, Json>, op: Operation)
    requires Declares(paths, op)
    ensures Requirements(doc, paths, op)
            == match ListAt(Obj(paths), [op.path, op.verb, "security"])
               case Some(own) => own
               case None => (match ListAt(Obj(doc), ["security"]) case Some(all) => all case None => [])
  {
    hide Get;
    GetOperation(paths, op, "security");
    GetField(Obj(doc), "security");
  }

  /** A member that is no index. */
  lemma GetField(v: Json, k: string)
    requires k != "" && !IsDigit(k[0])
    ensures Get(v, [k]) == if v.Obj? && k in v.fields then Some(v.fields[k]) else None
  {
    assert [k][1..] == [];
  }

  lemma GetOperation(paths: map<string, Json>, op: Operation, k: string)
    requires Declares(paths, op) && k != "" && !IsDigit(k[0])
    ensures var operation := OperationAt(paths, op);
            Get(Obj(paths), [op.path, op.verb, k])
            == if operation.Obj? && k in operation.fields then Some(operation.fields[k]) else None
  {
    hide Get;
    GetMember(paths, op.path, [op.verb, k]);
    GetMember(paths[op.path].fields, op.verb, [k]);
    assert [op.path] + [op.verb, k] == [op.path, op.verb, k] && [op.verb] + [k] == [op.verb, k];
    GetField(OperationAt(paths, op), k);
  }

  function AllRequirements(doc: map<string, Json>, paths: map<string, Json>, ops: seq<Operation>): seq<Json>
    requires AllDeclared(paths, ops)
  {
    if ops == [] then []
    else
      var n := |ops| - 1;
      AllRequirements(doc, paths, ops[..n]) + Requirements(doc, paths, ops[n])
  }

  /** A sequence without repetitions of earlier elements. */
  function FirstUses(s: seq<Json>): seq<Json> {
    if s == [] then []
    else
      var before, last := FirstUses(s[..|s| - 1]), s[|s| - 1];
      if last in before then before else before + [last]
  }

  lemma {:induction false} FirstUsesExact(s: seq<Json>, x: Json)
    ensures x in FirstUses(s) <==> x in s
    ensures forall i, j | 0 <= i < j < |FirstUses(s)| :: FirstUses(s)[i] != FirstUses(s)[j]
  {
    if s != [] {
      FirstUsesExact(s[..|s| - 1], x);
      FirstUsesExact(s[..|s| - 1], s[|s| - 1]);
      assert s == s[..|s| - 1] + [s[|s| - 1]];
    }
  }

  predicate IsFirstUse(s: seq<Json>, j: nat)
    requires j < |s|
  {
    forall i | 0 <= i < j :: s[i] != s[j]
  }

  lemma FirstUseKept(first: seq<Json>, last: Json)
    ensures forall j: nat | j < |first| :: IsFirstUse(first + [last], j) <==> IsFirstUse(first, j)
    ensures IsFirstUse(first + [last], |first|) <==> last !in first
  {
    var all := first + [last];
    assert forall i | 0 <= i < |first| :: all[i] == first[i];
    if last in first {
      var i :| 0 <= i < |first| && first[i] == last;
      assert all[i] == all[|first|];
    }
  }

  /** The elements kept are the first uses, in their order. */
  lemma {:induction false} FirstUsesInOrder(s: seq<Json>) returns (at: seq<nat>)
    ensures Selects(FirstUses(s), s, at)
    ensures forall j: nat :: j in at <==> j < |s| && IsFirstUse(s, j)
  {
    hide Selects, IsFirstUse;
    if s == [] {
      at := [];
      assert Selects(FirstUses(s), s, at) by { NothingSelected(s); }
    } else {
      hide FirstUses;
      var n := |s| - 1;
      var first, last := s[..n], s[n];
      at := FirstUsesInOrder(first);
      FirstUsesExact(first, last);
      FirstUsesNext(first, last);
      FirstUseKept(first, last);
      assert s == first + [last];
      SelectsNext(FirstUses(first), first, at, last);
      OneMoreAt(at, n);
      at := if last in first then at else at + [n];
    }
  }

  lemma {:induction false} RequiredBySome(
    doc: map<string, Json>, paths: map<string, Json>, ops: seq<Operation>, x: Json)
    requires AllDeclared(paths, ops)
    ensures x in AllRequirements(doc, paths, ops) <==> exists op | op in ops :: x in Requirements(doc, paths, op)
  {
    if ops != [] {
      hide Requirements, Declares;
      var n := |ops| - 1;
      RequiredBySome(doc, paths, ops[..n], x);
      assert ops == ops[..n] + [ops[n]];
    }
  }

  /** `collect_scoped_security_requirements`: each requirement once, in order of first use. A
      requirement stands for its own serialized signature. */
  method ScopeSecurity(doc: map<string, Json>, paths: map<string, Json>, ops: seq<Operation>)
    returns (collected: seq<Json>)
    requires AllDeclared(paths, ops)
    ensures collected == FirstUses(AllRequirements(doc, paths, ops))
  {
    hide Requirements, AllRequirements, Declares, FirstUses;
    collected := [];
    var seen: set<Json> := {};
    NoRequirements(doc, paths);
    assert ops[..0] == [];
    for i := 0 to |ops|
      invariant collected == FirstUses(AllRequirements(doc, paths, ops[..i]))
      invariant forall x :: x in seen <==> x in collected
    {
      NextRequirements(doc, paths, ops, i);
      collected, seen :=
        CollectNew(Requirements(doc, paths, ops[i]), collected, seen, AllRequirements(doc, paths, ops[..i]));
    }
    assert ops[..|ops|] == ops;
  }

  /** The inner loop: the requirements of one operation that are new. */
  method CollectNew(requirements: seq<Json>, before: seq<Json>, known: set<Json>, ghost all: seq<Json>)
    returns (collected: seq<Json>, seen: set<Json>)
    requires before == FirstUses(all) && forall x :: x in known <==> x in before
    ensures collected == FirstUses(all + requirements) && forall x :: x in seen <==> x in collected
  {
    hide FirstUses;
    collected, seen := before, known;
    assert all + requirements[..0] == all;
    for j := 0 to |requirements|
      invariant collected == FirstUses(all + requirements[..j])
      invariant forall x :: x in seen <==> x in collected
    {
      var requirement := requirements[j];
      assert all + requirements[..j + 1] == all + requirements[..j] + [requirement];
      FirstUsesNext(all + requirements[..j], requirement);
      if requirement !in seen {
        seen := seen + {requirement};
        collected := collected + [requirement];
      }
    }
    assert requirements[..|requirements|] == requirements;
  }

  lemma FirstUsesNext(s: seq<Json>, x: Json)
    ensures FirstUses(s + [x]) == if x in FirstUses(s) then FirstUses(s) else FirstUses(s) + [x]
  {
    assert (s + [x])[..|s|] == s;
  }

  lemma NoRequirements(doc: map<string, Json>, paths: map<string, Json>)
    ensures AllRequirements(doc, paths, []) == [] && FirstUses([]) == []
  {
  }

  lemma NextRequirements(doc: map<string, Json>, paths: map<string, Json>, ops: seq<Operation>, i: nat)
    requires AllDeclared(paths, ops) && i < |ops|
    ensures AllRequirements(doc, paths, ops[..i + 1])
            == AllRequirements(doc, paths, ops[..i]) + Requirements(doc, paths, ops[i])
  {
    assert ops[..i + 1][..i] == ops[..i];
  }

  /** The scheme names a list of requirements mentions. */
  function SchemeNames(requirements: seq<Json>): set<string> {
    set x, n | x in requirements && x.Obj? && n in x.fields :: n
  }

  function SchemePath(name: string): Path {
    [SCHEMES, name]
  }

  function SchemePaths(names: set<string>): set<Path> {
    set n | n in names :: SchemePath(n)
  }

  const SCHEMES := "securitySchemes"

  /** `/components/securitySchemes/<escaped name>`, where a scheme is looked up. */
  function SchemeSource(name: string): string {
    "/" + ("components" + "/" + (SCHEMES + "/" + Escape(name)))
  }

  /** `/securitySchemes/<name>`, where it is inserted below `components`. */
  function SchemeTarget(name: string): string {
    "/" + (SCHEMES + "/" + name)
  }

  /** A name that reads as itself in a pointer; every name section 4.8.7 of the OpenAPI
      Specification 3.1.0 allows does. */
  predicate PlainName(name: string) {
    NoSlash(name) && Unescape(name) == name
  }

  /** The escaped source pointer finds the scheme under its own name, whatever the name. */
  lemma SchemeResolves(doc: Json, name: string)
    ensures Resolve(doc, SchemeSource(name)) == Get(doc, ["components"] + SchemePath(name))
  {
    hide Escape, Unescape, SCHEMES;
    TokenRoundTrip(name);
    assert '~' !in SCHEMES && NoSlash(SCHEMES) by { SchemesPlain(); }
    UnescapeFixes("components");
    UnescapeFixes(SCHEMES);
    SlashTail("components" + "/" + (SCHEMES + "/" + Escape(name)));
    SplitFirst("components", SCHEMES + "/" + Escape(name));
    SplitFirst(SCHEMES, Escape(name));
    SplitFirst(Escape(name), "");
    UnescapeThree("components", SCHEMES, Escape(name));
    assert ["components"] + SchemePath(name) == ["components", SCHEMES, name];
  }

  lemma SchemesPlain()
    ensures '~' !in SCHEMES && NoSlash(SCHEMES) && SCHEMES != ""
  {
  }

  lemma SlashTail(s: string)
    ensures ("/" + s)[0] == '/' && ("/" + s)[1..] == s
  {
  }

  lemma UnescapeThree(a: string, b: string, c: string)
    ensures UnescapeAll([a] + ([b] + [c])) == [Unescape(a), Unescape(b), Unescape(c)]
  {
    hide Unescape;
    assert [a] + ([b] + [c]) == [a, b, c];
  }

  /** The unescaped target pointer puts the scheme under its own name exactly when the name is plain. */
  lemma SchemeTargetAgrees(name: string)
    ensures InsertTokens(SchemeTarget(name)) == SchemePath(name) <==> PlainName(name)
  {
    hide Unescape, SCHEMES;
    assert '~' !in SCHEMES && NoSlash(SCHEMES) && SCHEMES != "" by { SchemesPlain(); }
    var rest := SCHEMES + "/" + name;
    SlashTail(rest);
    assert TrimSlashes("/" + rest) == rest;
    SplitFirst(SCHEMES, name);
    UnescapeFixes(SCHEMES);
    UnescapeTail(SCHEMES, Split(name));
    if NoSlash(name) {
      SplitFirst(name, "");
      assert UnescapeAll([name]) == [Unescape(name)];
      assert [SCHEMES] + [Unescape(name)] == SchemePath(name) <==> Unescape(name) == name;
    } else {
      ManyTokens(name);
    }
  }

  lemma UnescapeTail(token: string, rest: seq<string>)
    ensures UnescapeAll([token] + rest) == [Unescape(token)] + UnescapeAll(rest)
  {
    assert ([token] + rest)[1..] == rest;
  }

  /** The insertion of one security scheme, found by its escaped name. */
  function InsertScheme(doc: Json, components: Json, name: string): Result<Json> {
    match Resolve(doc, SchemeSource(name))
    case None => Err(MissingScheme(name))
    case Some(scheme) =>
      match Insert(components, InsertTokens(SchemeTarget(name)), scheme)
      case Inserted(c) => Ok(c)
      case NotAnObject => Err(SchemeBlocked(name))
  }

  function InsertSchemes(doc: Json, built: Json, names: seq<string>): Result<Json> {
    if names == [] then Ok(built)
    else
      var before := InsertSchemes(doc, built, names[..|names| - 1]);
      if before.Err? then before else InsertScheme(doc, before.value, names[|names| - 1])
  }

  lemma InsertSchemesStep(doc: Json, built: Json, names: seq<string>, components: Json, name: string)
    requires InsertSchemes(doc, built, names) == Ok(components)
    ensures InsertSchemes(doc, built, names + [name]) == InsertScheme(doc, components, name)
  {
    assert (names + [name])[..|names|] == names;
  }

  lemma NoSchemesInserted(doc: Json, built: Json)
    ensures InsertSchemes(doc, built, []) == Ok(built)
  {
  }

  /** The scheme a failure names is missing, or its place is not inside objects. */
  predicate BlamesScheme(doc: Json, names: set<string>, failure: Failure, plain: bool) {
    match failure
    case MissingScheme(n) => n in names && Get(doc, ["components"] + SchemePath(n)).None?
    case SchemeBlocked(n) => n in names && (plain ==> !ThroughObjects(ComponentsOf(doc), SchemePath(n)))
    case _ => false
  }

  /** Success means every scheme was found and, given plain names, the components span its place
      too; failure names a scheme at fault. */
  ghost predicate AddsSchemes(doc: Json, names: set<string>, paths: set<Path>, plain: bool, r: Result<Json>) {
    match r
    case Ok(components) =>
      && (forall n | n in names :: Get(doc, ["components"] + SchemePath(n)).Some?)
      && (plain ==> components == Span(ComponentsOf(doc), paths + SchemePaths(names)))
    case Err(f) => BlamesScheme(doc, names, f, plain)
  }

  lemma InsertSchemeSpans(doc: Json, components: Json, name: string, paths: set<Path>, plain: bool)
    requires doc.Obj? && (plain ==> components == Span(ComponentsOf(doc), paths) && PlainName(name))
    ensures AddsSchemes(doc, {name}, paths, plain, InsertScheme(doc, components, name))
  {
    hide Span, Insert, InsertTokens, Resolve, SchemeSource, SchemeTarget, PlainName, SchemePath;
    SchemeResolves(doc, name);
    OneSchemePath(name);
    if plain && Resolve(doc, SchemeSource(name)).Some? {
      SchemeTargetAgrees(name);
      InComponentsGet(doc, SchemePath(name));
      InsertSpans(ComponentsOf(doc), paths, SchemePath(name));
    }
  }

  lemma {:induction false} InsertSchemesSpan(
    doc: Json, built: Json, names: seq<string>, all: set<string>, paths: set<Path>, plain: bool)
    requires doc.Obj? && Enumerates(names, all)
    requires plain ==> built == Span(ComponentsOf(doc), paths) && forall n | n in all :: PlainName(n)
    ensures AddsSchemes(doc, all, paths, plain, InsertSchemes(doc, built, names))
    decreases |names|
  {
    hide Span, InsertScheme, PlainName, SchemePath, Get, ComponentsOf, ThroughObjects;
    if names == [] {
      NoneEnumerated(all);
      assert paths + SchemePaths(all) == paths by { NoSchemes(); }
    } else {
      var first, last := names[..|names| - 1], names[|names| - 1];
      var earlier := all - {last};
      EnumeratesFirst(names, all);
      InsertSchemesSpan(doc, built, first, earlier, paths, plain);
      SchemePathsNext(paths, earlier, last);
      OneSchemePath(last);
      assert earlier + {last} == all;
      if InsertSchemes(doc, built, first).Ok? {
        InsertSchemeSpans(doc, InsertSchemes(doc, built, first).value, last, paths + SchemePaths(earlier), plain);
      }
    }
  }

  lemma OneSchemePath(name: string)
    ensures SchemePaths({name}) == {SchemePath(name)}
  {
    hide SchemePath;
  }

  lemma SchemePathsNext(paths: set<Path>, names: set<string>, name: string)
    ensures paths + SchemePaths(names) + {SchemePath(name)} == paths + SchemePaths(names + {name})
  {
    hide SchemePath;
    assert SchemePaths(names + {name}) == SchemePaths(names) + {SchemePath(name)};
  }

  /** The elements of a set in ascending order. */
  ghost predicate ListsAscending(ordered: seq<string>, all: set<string>) {
    (forall x :: x in ordered <==> x in all) && forall i, j | 0 <= i < j < |ordered| :: Precedes(ordered[i], ordered[j])
  }

  lemma AscendingEnumerates(ordered: seq<string>, all: set<string>)
    requires ListsAscending(ordered, all)
    ensures Enumerates(ordered, all)
  {
    forall i, j | 0 <= i < j < |ordered| ensures ordered[i] != ordered[j] {
      PrecedesIrreflexive(ordered[i]);
    }
  }

  /** Adds the security schemes after the loop, in ascending order, to what the loop built. */
  method AddSchemes(canonical: Json, built: Json, names: set<string>, ghost paths: set<Path>, ghost plain: bool)
    returns (r: Result<Json>, ghost ordered: seq<string>)
    requires canonical.Obj?
    requires plain ==> built == Span(ComponentsOf(canonical), paths) && forall n | n in names :: PlainName(n)
    ensures ListsAscending(ordered, names) && r == InsertSchemes(canonical, built, ordered)
    ensures AddsSchemes(canonical, names, paths, plain, r)
  {
    hide Span, InsertScheme, InsertSchemes, PlainName, SchemePath, Get, BlamesScheme, Precedes;
    var sorted := Ascending(names);
    ordered := sorted;
    AscendingEnumerates(ordered, names);
    InsertSchemesSpan(canonical, built, ordered, names, paths, plain);
    NoSchemesInserted(canonical, built);
    r := Ok(built);
    for i := 0 to |sorted|
      invariant r.Ok? && r == InsertSchemes(canonical, built, sorted[..i])
    {
      InsertSchemesStep(canonical, built, sorted[..i], r.value, sorted[i]);
      assert sorted[..i + 1] == sorted[..i] + [sorted[i]];
      r := InsertScheme(canonical, r.value, sorted[i]);
      if r.Err? {
        StaysFailed(canonical, built, sorted, i + 1);
        return;
      }
    }
    assert sorted[..|sorted|] == sorted;
  }

  lemma {:induction false} StaysFailed(doc: Json, built: Json, names: seq<string>, i: nat)
    requires i <= |names| && InsertSchemes(doc, built, names[..i]).Err?
    ensures InsertSchemes(doc, built, names) == InsertSchemes(doc, built, names[..i])
    decreases |names|
  {
    if i < |names| {
      assert names[..|names| - 1][..i] == names[..i];
      StaysFailed(doc, built, names[..|names| - 1], i);
    } else {
      assert names[..i] == names;
    }
  }

  lemma NoSchemes()
    ensures SchemePaths({}) == {}
  {
  }

  lemma InComponentsGet(doc: Json, path: Path)
    requires doc.Obj? && "components" in doc.fields
    ensures Get(doc, ["components"] + path) == Get(ComponentsOf(doc), path)
  {
    assert (["components"] + path)[1..] == path;
  }

  // ----- tags ------------------------------------------------------------------------------------

  predicate Named(tag: Json, names: set<string>) {
    tag.Obj? && "name" in tag.fields && tag.fields["name"].Str? && tag.fields["name"].s in names
  }

  /** The declared tags that carry one of the names, in their order. */
  function KeepNamed(tags: seq<Json>, names: set<string>): (kept: seq<Json>)
    ensures forall t :: t in kept <==> t in tags && Named(t, names)
  {
    if tags == [] then []
    else (if Named(tags[0], names) then [tags[0]] else []) + KeepNamed(tags[1..], names)
  }

  lemma NothingSelected(from: seq<Json>)
    ensures Selects([], from, [])
  {
  }

  /** They stand in the order they were declared in. */
  lemma {:induction false} KeepNamedInOrder(tags: seq<Json>, names: set<string>) returns (at: seq<nat>)
    ensures Selects(KeepNamed(tags, names), tags, at)
    ensures forall j: nat :: j in at <==> j < |tags| && Named(tags[j], names)
  {
    hide Named, Selects;
    if tags == [] {
      at := [];
      assert Selects(KeepNamed(tags, names), tags, at) by { NothingSelected(tags); }
    } else {
      hide KeepNamed;
      var n := |tags| - 1;
      var first, last := tags[..n], tags[n];
      at := KeepNamedInOrder(first, names);
      KeepNamedNext(first, last, names);
      assert tags == first + [last];
      SelectsNext(KeepNamed(first, names), first, at, last);
      OneMoreAt(at, n);
      assert KeepNamed(first, names) + [] == KeepNamed(first, names);
      assert forall j: nat | j < n :: tags[j] == first[j];
      at := if Named(last, names) then at + [n] else at;
    }
  }

  lemma {:induction false} KeepNamedNext(tags: seq<Json>, tag: Json, names: set<string>)
    ensures KeepNamed(tags + [tag], names) == KeepNamed(tags, names) + (if Named(tag, names) then [tag] else [])
  {
    hide Named;
    if tags == [] {
      assert [] + [tag] == [tag];
    } else {
      assert (tags + [tag])[1..] == tags[1..] + [tag];
      KeepNamedNext(tags[1..], tag, names);
    }
  }

  /** Kept are the declared tags so named, in their order. */
  lemma KeptTagsExactly(doc: map<string, Json>, names: set<string>) returns (at: seq<nat>)
    ensures var declared := match ListAt(Obj(doc), ["tags"]) case Some(tags) => tags case None => [];
            && Selects(KeptTags(doc, names), declared, at)
            && forall j: nat :: j in at <==> j < |declared| && Named(declared[j], names)
  {
    hide Named, Get;
    GetField(Obj(doc), "tags");
    var declared := if "tags" in doc && doc["tags"].Arr? then doc["tags"].items else [];
    at := KeepNamedInOrder(declared, names);
  }

  /** A tag is named by its member `name`, an operation's tags by the strings in its list `tags`. */
  lemma TagsExactly(tag: Json, names: set<string>, operation: Json, name: string)
    ensures Named(tag, names) <==> exists n :: n in names && Get(tag, ["name"]) == Some(Str(n))
    ensures name in TagsOf(operation)
            <==> ListAt(operation, ["tags"]).Some? && Str(name) in ListAt(operation, ["tags"]).value
  {
    GetField(tag, "name");
    GetField(operation, "tags");
  }

  function KeptTags(doc: map<string, Json>, names: set<string>): seq<Json> {
    if "tags" in doc && doc["tags"].Arr? then KeepNamed(doc["tags"].items, names) else []
  }

  // ----- the scoped document -------------------------------------------------------------------

  function PathsIn(doc: Json): map<string, Json> {
    if doc.Obj? && "paths" in doc.fields && doc.fields["paths"].Obj? then doc.fields["paths"].fields else map[]
  }

  predicate IsDocument(doc: Json) {
    doc.Obj? && "paths" in doc.fields && doc.fields["paths"].Obj?
  }

  /** The references of the scoped path items. */
  function Roots(doc: Json, ops: seq<Operation>): set<string>
    requires AllDeclared(PathsIn(doc), ops)
  {
    CollectRefs(Obj(ScopedPaths(PathsIn(doc), ops)))
  }

  /** The names of the schemes any operation requires. */
  ghost function NamesFor(doc: Json, ops: seq<Operation>): set<string>
    requires IsDocument(doc) && AllDeclared(PathsIn(doc), ops)
  {
    set op, x, n | op in ops && x in Requirements(doc.fields, PathsIn(doc), op) && x.Obj? && n in x.fields :: n
  }

  ghost function ReachFor(doc: Json, ops: seq<Operation>): set<string>
    requires AllDeclared(PathsIn(doc), ops)
  {
    Reach(doc, Roots(doc, ops))
  }

  /** The places below `components` that the operations need. */
  ghost function Needed(doc: Json, ops: seq<Operation>): set<Path>
    requires IsDocument(doc) && AllDeclared(PathsIn(doc), ops)
  {
    ComponentPaths(ReachFor(doc, ops)) + SchemePaths(NamesFor(doc, ops))
  }

  /** Both insertions put their nodes where lookups find them. */
  ghost predicate Plain(doc: Json, ops: seq<Operation>)
    requires IsDocument(doc) && AllDeclared(PathsIn(doc), ops)
  {
    && AllPlain(ReachFor(doc, ops))
    && (forall n | n in NamesFor(doc, ops) :: PlainName(n))
  }

  ghost predicate AllFound(doc: Json, ops: seq<Operation>)
    requires IsDocument(doc) && AllDeclared(PathsIn(doc), ops)
  {
    && (forall r | r in ReachFor(doc, ops) :: InComponents(r) && ResolveRef(doc, r).Some?)
    && (forall n | n in NamesFor(doc, ops) :: Get(doc, ["components"] + SchemePath(n)).Some?)
  }

  ghost predicate AllThroughObjects(doc: Json, ops: seq<Operation>)
    requires IsDocument(doc) && AllDeclared(PathsIn(doc), ops)
  {
    forall p | p in Needed(doc, ops) :: ThroughObjects(ComponentsOf(doc), p)
  }

  /** The components are built by inserting the reachable references, each once, and then the
      needed schemes in ascending order. */
  ghost predicate IsBuilt(doc: Json, ops: seq<Operation>, components: Json)
    requires IsDocument(doc) && AllDeclared(PathsIn(doc), ops)
  {
    exists order, names :: Enumerates(order, ReachFor(doc, ops)) && ListsAscending(names, NamesFor(doc, ops))
                           && Builds(doc, order, names, components)
  }

  predicate Builds(doc: Json, order: seq<string>, names: seq<string>, components: Json) {
    && InsertAll(doc, order).Ok?
    && InsertSchemes(doc, InsertAll(doc, order).value, names) == Ok(components)
  }

  /** Whatever the order of the references, all insertions succeed. */
  ghost predicate AlwaysBuilds(doc: Json, ops: seq<Operation>)
    requires IsDocument(doc) && AllDeclared(PathsIn(doc), ops)
  {
    forall order | Enumerates(order, ReachFor(doc, ops)) ::
      && InsertAll(doc, order).Ok?
      && forall names | ListsAscending(names, NamesFor(doc, ops)) ::
           InsertSchemes(doc, InsertAll(doc, order).value, names).Ok?
  }

  const MEMBERS := {"openapi", "info", "servers", "security", "paths", "components", "tags"}

  /** What a successful closure returns. */
  ghost predicate IsScopedDocument(doc: Json, ops: seq<Operation>, spec: Json)
    requires IsDocument(doc) && AllDeclared(PathsIn(doc), ops)
  {
    && spec.Obj? && spec.fields.Keys <= MEMBERS
    && "paths" in spec.fields && spec.fields["paths"] == Obj(ScopedPaths(PathsIn(doc), ops))
    && "components" in spec.fields && IsBuilt(doc, ops, spec.fields["components"])
    && (Plain(doc, ops) ==> spec.fields["components"] == Span(ComponentsOf(doc), Needed(doc, ops)))
    && (forall k | k in {"openapi", "info"} :: k in doc.fields && k in spec.fields && spec.fields[k] == doc.fields[k])
    && Child(spec, "servers") == Child(doc, "servers")
    && Child(spec, "security") == Listed(FirstUses(AllRequirements(doc.fields, PathsIn(doc), ops)))
    && Child(spec, "tags") == Listed(KeptTags(doc.fields, TagsFor(PathsIn(doc), ops)))
  }

  /** The path items of the result, place by place: of a path with a chosen operation, the chosen
      operations and every member that is no operation, as they stand in the document. */
  lemma ScopedPathsExactly(doc: Json, ops: seq<Operation>, spec: Json, p: string, k: string)
    requires IsDocument(doc) && AllDeclared(PathsIn(doc), ops) && IsScopedDocument(doc, ops, spec)
    ensures Get(spec, ["paths", p, k])
            == if Operation(p, k) in ops
                  || (k !in {"get", "put", "post", "delete", "options", "head", "patch", "trace"}
                      && exists op :: op in ops && op.path == p)
               then Get(doc, ["paths", p, k]) else None
  {
    hide Get, IsBuilt, Plain, Span, Listed, FirstUses, KeptTags;
    var scoped := ScopedPaths(PathsIn(doc), ops);
    GetPathMember(doc.fields, PathsIn(doc), p, k);
    GetPathMember(spec.fields, scoped, p, k);
    if op :| op in ops && op.path == p {
      assert Declares(PathsIn(doc), op);
      assert p in scoped && scoped[p] == Obj(ScopedItem(PathsIn(doc)[p].fields, p, ops));
    } else {
      assert p !in scoped && Operation(p, k) !in ops;
    }
  }

  lemma GetPathMember(doc: map<string, Json>, paths: map<string, Json>, p: string, k: string)
    requires "paths" in doc && doc["paths"] == Obj(paths)
    ensures p !in paths ==> Get(Obj(doc), ["paths", p, k]) == None
    ensures p in paths && paths[p].Obj? ==>
              Get(Obj(doc), ["paths", p, k]) == if k in paths[p].fields then Some(paths[p].fields[k]) else None
  {
    hide Get;
    GetMember(doc, "paths", [p, k]);
    assert ["paths"] + [p, k] == ["paths", p, k] && [p] + [k] == [p, k];
    if p in paths {
      GetMember(paths, p, [k]);
      GetKey(paths[p], k);
    } else {
      GetMissing(paths, p, [k]);
    }
  }

  /** A list that is left out when empty. */
  function Listed(items: seq<Json>): Option<Json> {
    if items == [] then None else Some(Arr(items))
  }

  /** Everything is there that the operations need. */
  ghost predicate Servable(doc: Json, ops: seq<Operation>) {
    && IsDocument(doc) && AllDeclared(PathsIn(doc), ops)
    && AllFound(doc, ops)
    && "openapi" in doc.fields && "info" in doc.fields
  }

  /** What a failed closure reports. */
  ghost predicate Explains(doc: Json, ops: seq<Operation>, failure: Failure) {
    match failure
    case NotADocument => !IsDocument(doc)
    case OperationMissing(op) => op in ops && !Declares(PathsIn(doc), op)
    case MissingMember(k) => doc.Obj? && k in {"openapi", "info"} && k !in doc.fields
    case _ =>
      && IsDocument(doc) && AllDeclared(PathsIn(doc), ops)
      && (Blames(doc, ReachFor(doc, ops), failure) || BlamesScheme(doc, NamesFor(doc, ops), failure, Plain(doc, ops)))
  }

  /** `close_scoped_spec`. */
  method CloseScopedSpec(canonical: Json, ops: seq<Operation>) returns (r: Result<Json>)
    ensures r.Ok? ==> Servable(canonical, ops) && IsScopedDocument(canonical, ops, r.value)
    ensures r.Err? ==> Explains(canonical, ops, r.failure)
    ensures Servable(canonical, ops) && AlwaysBuilds(canonical, ops) ==> r.Ok?
    ensures Servable(canonical, ops) && Plain(canonical, ops) && AllThroughObjects(canonical, ops) ==> r.Ok?
  {
    hide Span, CollectRefs, Requirements, AllRequirements, FirstUses, ScopedPaths, Declares, Reach, PlainPointer,
      PlainName, ResolveRef, InComponents, ThroughObjects, Get, TagsFor, KeptTags, InsertAll, InsertSchemes,
      Enumerates, Distinct, ListsAscending, Blames, BlamesScheme, IsBuilt;
    if !IsDocument(canonical) {
      return Err(NotADocument);
    }
    var doc, paths := canonical.fields, PathsIn(canonical);
    var scoped, tags := ScopePaths(paths, ops);
    if scoped.Err? {
      return Err(scoped.failure);
    }
    var security := ScopeSecurity(doc, paths, ops);
    var names := SchemeNames(security);
    NamesCollected(canonical, ops, security);
    var roots := CollectRefs(Obj(scoped.value));
    var closed, order := CloseRefs(canonical, roots);
    if closed.Err? {
      BlamedNotServable(canonical, ops, closed.failure);
      ghost var whole := FailureExtends(canonical, order, ReachFor(canonical, ops));
      return closed;
    }
    ghost var plain := Plain(canonical, ops);
    var full, ordered := AddSchemes(canonical, closed.value, names, ComponentPaths(ReachFor(canonical, ops)), plain);
    if full.Err? {
      SchemeNotServable(canonical, ops, full.failure);
      return full;
    }
    if "openapi" !in doc {
      return Err(MissingMember("openapi"));
    }
    if "info" !in doc {
      return Err(MissingMember("info"));
    }
    BuiltInOrder(canonical, ops, order, ordered, full.value);
    AssembleIs(canonical, ops, security, full.value);
    r := Ok(Obj(Assemble(doc, security, scoped.value, full.value, KeptTags(doc, tags))));
  }

  lemma BuiltInOrder(doc: Json, ops: seq<Operation>, order: seq<string>, names: seq<string>, components: Json)
    requires IsDocument(doc) && AllDeclared(PathsIn(doc), ops)
    requires Enumerates(order, ReachFor(doc, ops)) && ListsAscending(names, NamesFor(doc, ops))
    requires InsertAll(doc, order).Ok? && InsertSchemes(doc, InsertAll(doc, order).value, names) == Ok(components)
    ensures IsBuilt(doc, ops, components)
  {
    hide Enumerates, ListsAscending, InsertAll, InsertSchemes, ReachFor, NamesFor;
    assert Builds(doc, order, names, components);
  }

  /** The members that are inserted into the result. */
  function SpecMember(
    doc: map<string, Json>, security: seq<Json>, paths: map<string, Json>, components: Json, tags: seq<Json>, k: string)
    : Option<Json>
  {
    match k
    case "openapi" => Child(Obj(doc), k)
    case "info" => Child(Obj(doc), k)
    case "servers" => Child(Obj(doc), k)
    case "security" => Listed(security)
    case "paths" => Some(Obj(paths))
    case "components" => Some(components)
    case "tags" => Listed(tags)
    case _ => None
  }

  function Assemble(
    doc: map<string, Json>, security: seq<Json>, paths: map<string, Json>, components: Json, tags: seq<Json>)
    : map<string, Json>
  {
    map k | k in MEMBERS && SpecMember(doc, security, paths, components, tags, k).Some?
      :: SpecMember(doc, security, paths, components, tags, k).value
  }

  lemma Assembled(
    doc: map<string, Json>, security: seq<Json>, paths: map<string, Json>, components: Json, tags: seq<Json>, k: string)
    requires k in MEMBERS
    ensures var spec := Obj(Assemble(doc, security, paths, components, tags));
            spec.fields.Keys <= MEMBERS && Child(spec, k) == SpecMember(doc, security, paths, components, tags, k)
  {
    hide MEMBERS, SpecMember;
  }

  lemma AssembleIs(doc: Json, ops: seq<Operation>, security: seq<Json>, components: Json)
    requires IsDocument(doc) && AllDeclared(PathsIn(doc), ops)
    requires security == FirstUses(AllRequirements(doc.fields, PathsIn(doc), ops))
    requires "openapi" in doc.fields && "info" in doc.fields
    requires IsBuilt(doc, ops, components)
    requires Plain(doc, ops) ==> components == Span(ComponentsOf(doc), Needed(doc, ops))
    ensures var tags := KeptTags(doc.fields, TagsFor(PathsIn(doc), ops));
            var scoped := ScopedPaths(PathsIn(doc), ops);
            IsScopedDocument(doc, ops, Obj(Assemble(doc.fields, security, scoped, components, tags)))
  {
    hide KeptTags, TagsFor, Plain, FirstUses, AllRequirements, Span, Needed, ScopedPaths, AllDeclared, ComponentsOf,
      PathsIn, Assemble, IsBuilt, Listed;
    var scoped, tags := ScopedPaths(PathsIn(doc), ops), KeptTags(doc.fields, TagsFor(PathsIn(doc), ops));
    forall k | k in MEMBERS
      ensures var spec := Obj(Assemble(doc.fields, security, scoped, components, tags));
              && spec.fields.Keys <= MEMBERS
              && Child(spec, k) == SpecMember(doc.fields, security, scoped, components, tags, k)
    {
      Assembled(doc.fields, security, scoped, components, tags, k);
    }
  }

  lemma NamesCollected(doc: Json, ops: seq<Operation>, collected: seq<Json>)
    requires IsDocument(doc) && AllDeclared(PathsIn(doc), ops)
    requires collected == FirstUses(AllRequirements(doc.fields, PathsIn(doc), ops))
    ensures SchemeNames(collected) == NamesFor(doc, ops)
  {
    hide Requirements, AllRequirements, FirstUses;
    forall x ensures x in collected <==> exists op | op in ops :: x in Requirements(doc.fields, PathsIn(doc), op) {
      FirstUsesExact(AllRequirements(doc.fields, PathsIn(doc), ops), x);
      RequiredBySome(doc.fields, PathsIn(doc), ops, x);
    }
  }

  lemma BlamedNotServable(doc: Json, ops: seq<Operation>, failure: Failure)
    requires IsDocument(doc) && AllDeclared(PathsIn(doc), ops)
    requires Blames(doc, ReachFor(doc, ops), failure)
    ensures Explains(doc, ops, failure)
    ensures !(AllFound(doc, ops) && Plain(doc, ops) && AllThroughObjects(doc, ops))
  {
    hide Reach, Roots, NamesFor, ThroughObjects, ComponentPath, PlainPointer, PlainName, Get;
    if failure.PointerBlocked? {
      assert ComponentPath(failure.reference) in ComponentPaths(ReachFor(doc, ops));
    }
  }

  lemma SchemeNotServable(doc: Json, ops: seq<Operation>, failure: Failure)
    requires IsDocument(doc) && AllDeclared(PathsIn(doc), ops)
    requires BlamesScheme(doc, NamesFor(doc, ops), failure, Plain(doc, ops))
    ensures Explains(doc, ops, failure)
    ensures !(AllFound(doc, ops) && Plain(doc, ops) && AllThroughObjects(doc, ops))
  {
    hide Reach, Roots, NamesFor, ThroughObjects, ComponentPath, PlainPointer, PlainName, Get, SchemePath;
    assert SchemePath(failure.name) in SchemePaths(NamesFor(doc, ops));
  }

  // ----- what the components hold -----------------------------------------------------------------

  /** Each needed scheme is in the result under its own name. */
  lemma SchemesPresent(doc: Json, ops: seq<Operation>, spec: Json, name: string)
    requires Servable(doc, ops) && Plain(doc, ops) && IsScopedDocument(doc, ops, spec)
    requires name in NamesFor(doc, ops)
    ensures Get(doc, ["components", "securitySchemes", name]).Some?
    ensures Get(spec, ["components", "securitySchemes", name]) == Get(doc, ["components", "securitySchemes", name])
  {
    hide Span, CollectRefs, ReachFor, NamesFor, ScopedPaths, PlainName, PlainPointer, Requirements, Get, IsBuilt,
      TagsFor, KeptTags, FirstUses, AllRequirements, Listed, ComponentPaths;
    var p := SchemePath(name);
    assert ["components"] + p == ["components", "securitySchemes", name];
    assert p in Needed(doc, ops);
    SchemeInComponents(doc, name);
    InComponentsGet(doc, p);
    InComponentsGet(spec, p);
    SpanGet(ComponentsOf(doc), Needed(doc, ops), p);
  }

  /** The components are least: they are part of those of any document in which the reachable
      references and the needed schemes are in place. */
  lemma ComponentsAreLeast(doc: Json, ops: seq<Operation>, spec: Json, other: Json)
    requires Servable(doc, ops) && Plain(doc, ops) && IsScopedDocument(doc, ops, spec)
    requires forall p | p in Needed(doc, ops) :: Get(other, p) == Get(ComponentsOf(doc), p)
    ensures Within(spec.fields["components"], other)
  {
    NeededResolves(doc, ops);
    SpanIsLeast(ComponentsOf(doc), Needed(doc, ops), other);
  }

  lemma NeededResolves(doc: Json, ops: seq<Operation>)
    requires Servable(doc, ops) && Plain(doc, ops)
    ensures Resolves(ComponentsOf(doc), Needed(doc, ops))
  {
    hide Get, CollectRefs, Reach, Roots, NamesFor, ScopedPaths, SchemePath, ComponentPath, PlainPointer, PlainName,
      Resolve;
    forall p | p in Needed(doc, ops) ensures Get(ComponentsOf(doc), p).Some? {
      if p in ComponentPaths(ReachFor(doc, ops)) {
        var x :| x in ReachFor(doc, ops) && ComponentPath(x) == p;
        ComponentsPresent(doc, x);
        PlainResolves(doc, x);
      } else {
        var n :| n in NamesFor(doc, ops) && SchemePath(n) == p;
        SchemeInComponents(doc, n);
      }
    }
  }

  lemma SchemeInComponents(doc: Json, name: string)
    requires doc.Obj? && Get(doc, ["components"] + SchemePath(name)).Some?
    ensures "components" in doc.fields && Get(ComponentsOf(doc), SchemePath(name)).Some?
  {
    assert (["components"] + SchemePath(name))[0] == "components";
    InComponentsGet(doc, SchemePath(name));
  }

  // ----- operations and their category ----------------------------------------------------------

  lemma RefsOfFewer(fewer: map<string, Json>, more: map<string, Json>)
    requires forall k | k in fewer :: k in more && CollectRefs(fewer[k]) <= CollectRefs(more[k])
    requires REF in fewer && fewer[REF].Str? ==> more[REF] == fewer[REF]
    ensures CollectRefs(Obj(fewer)) <= CollectRefs(Obj(more))
  {
  }

  lemma RootsGrow(doc: Json, few: seq<Operation>, many: seq<Operation>)
    requires AllDeclared(PathsIn(doc), many) && forall op | op in few :: op in many
    ensures AllDeclared(PathsIn(doc), few)
    ensures Roots(doc, few) <= Roots(doc, many)
  {
    hide CollectRefs, HTTP_METHODS, Declares;
    var paths := PathsIn(doc);
    assert AllDeclared(paths, few);
    var fewer, more := ScopedPaths(paths, few), ScopedPaths(paths, many);
    forall p | p in fewer ensures p in more && CollectRefs(fewer[p]) <= CollectRefs(more[p]) {
      var item := ItemAt(paths, p);
      RefsOfFewer(ScopedItem(item, p, few), ScopedItem(item, p, many));
    }
    RefsOfFewer(fewer, more);
  }

  lemma ReachGrows(doc: Json, few: seq<Operation>, many: seq<Operation>)
    requires AllDeclared(PathsIn(doc), many) && forall op | op in few :: op in many
    ensures AllDeclared(PathsIn(doc), few) && ReachFor(doc, few) <= ReachFor(doc, many)
  {
    hide Reach, NestedRefs, Roots;
    RootsGrow(doc, few, many);
    ReachIsLeast(doc, Roots(doc, many), {});
    ReachIsLeast(doc, Roots(doc, few), ReachFor(doc, many));
  }

  /** The components of an operation's document are part of those of every larger group's, so of
      its category's; and if the group's closure succeeds, so do the hypotheses for the operation. */
  lemma OperationWithinCategory(doc: Json, few: seq<Operation>, many: seq<Operation>, fewSpec: Json, manySpec: Json)
    requires Servable(doc, many) && Plain(doc, many) && forall op | op in few :: op in many
    requires AllDeclared(PathsIn(doc), few)
    requires IsScopedDocument(doc, few, fewSpec) && IsScopedDocument(doc, many, manySpec)
    ensures Servable(doc, few) && Plain(doc, few)
    ensures Within(fewSpec.fields["components"], manySpec.fields["components"])
  {
    hide Span, ScopedPaths, Requirements, Reach, Roots, ComponentPath, SchemePath, PlainPointer, PlainName, Get,
      ResolveRef, Within;
    ReachGrows(doc, few, many);
    assert NamesFor(doc, few) <= NamesFor(doc, many);
    assert Needed(doc, few) <= Needed(doc, many);
    NeededResolves(doc, many);
    SpanGrows(ComponentsOf(doc), Needed(doc, few), Needed(doc, many));
  }
}
