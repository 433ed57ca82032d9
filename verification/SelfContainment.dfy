/** What a scoped document is good for: which references resolve inside it, and when all do. */
module SelfContainment {
  import opened Strings
  import opened JsonValues
  import opened JsonPointer
  import opened SubDocument
  import opened OpenApiDocs

  // ----- the references of the result --------------------------------------------------------------

  /** The references the needed places give. */
  ghost function GivenRefs(doc: Json, ops: seq<Operation>): set<string>
    requires IsDocument(doc) && AllDeclared(PathsIn(doc), ops)
  {
    set p, r | p in Needed(doc, ops) && r in RefsAt(ComponentsOf(doc), p) :: r
  }

  /** Those among them that the worklist does not follow. */
  ghost function Unfollowed(doc: Json, ops: seq<Operation>): set<string>
    requires IsDocument(doc) && AllDeclared(PathsIn(doc), ops)
  {
    GivenRefs(doc, ops) - ReachFor(doc, ops)
  }

  /** The references inside the result. */
  function SpecRefs(spec: Json): set<string>
    requires spec.Obj? && "paths" in spec.fields && "components" in spec.fields
  {
    CollectRefs(spec.fields["paths"]) + CollectRefs(spec.fields["components"])
  }

  /** The references inside the components of the result are those the needed places give. */
  lemma ComponentRefs(doc: Json, ops: seq<Operation>, spec: Json)
    requires Servable(doc, ops) && Plain(doc, ops) && IsScopedDocument(doc, ops, spec)
    ensures CollectRefs(spec.fields["components"]) == GivenRefs(doc, ops)
  {
    hide Span, CollectRefs, RefsAt, Needed, Plain, ScopedPaths, ComponentsOf, TagsFor, KeptTags, FirstUses,
      AllRequirements, AllFound, IsBuilt;
    NeededResolves(doc, ops);
    forall r ensures r in CollectRefs(spec.fields["components"]) <==> r in GivenRefs(doc, ops) {
      SpanRefs(ComponentsOf(doc), Needed(doc, ops), r);
    }
  }

  lemma GivenIsSpecRef(doc: Json, ops: seq<Operation>, spec: Json, r: string)
    requires Servable(doc, ops) && Plain(doc, ops) && IsScopedDocument(doc, ops, spec)
    requires r in GivenRefs(doc, ops)
    ensures r in SpecRefs(spec)
  {
    hide GivenRefs, Plain, Needed, CollectRefs, Servable, ScopedPaths, ComponentsOf, TagsFor, KeptTags, FirstUses,
      AllRequirements, Span, IsBuilt;
    ComponentRefs(doc, ops, spec);
  }

  /** The worklist leaves out exactly the references of needed schemes, and needed places that are
      themselves a string member `$ref`, unless it reaches them otherwise. */
  lemma UnfollowedExactly(doc: Json, ops: seq<Operation>, r: string)
    requires Servable(doc, ops) && Plain(doc, ops)
    ensures r in Unfollowed(doc, ops)
            <==> r !in ReachFor(doc, ops) && (InScheme(doc, ops, r) || IsNeededMember(doc, ops, r))
  {
    hide Get, CollectRefs, Reach, Roots, NamesFor, ScopedPaths, SchemePath, ComponentPath, PlainPointer, Resolve,
      EndsInRef, AllFound, AllPlain;
    if r in Unfollowed(doc, ops) {
      var p :| p in Needed(doc, ops) && r in RefsAt(ComponentsOf(doc), p);
      if p in ComponentPaths(ReachFor(doc, ops)) {
        NodeRefsReached(doc, ops, p, r);
      } else {
        var n :| n in NamesFor(doc, ops) && SchemePath(n) == p;
      }
    }
    if n :| n in NamesFor(doc, ops) && r in RefsAt(ComponentsOf(doc), SchemePath(n)) {
      assert SchemePath(n) in Needed(doc, ops);
    }
    if p :| p in Needed(doc, ops) && IsRefMember(ComponentsOf(doc), p, r) {
      assert r in RefsAt(ComponentsOf(doc), p);
    }
  }

  ghost predicate InScheme(doc: Json, ops: seq<Operation>, r: string)
    requires IsDocument(doc) && AllDeclared(PathsIn(doc), ops)
  {
    exists n :: n in NamesFor(doc, ops) && r in RefsAt(ComponentsOf(doc), SchemePath(n))
  }

  ghost predicate IsNeededMember(doc: Json, ops: seq<Operation>, r: string)
    requires IsDocument(doc) && AllDeclared(PathsIn(doc), ops)
  {
    exists p :: p in Needed(doc, ops) && IsRefMember(ComponentsOf(doc), p, r)
  }

  predicate IsRefMember(v: Json, p: Path, r: string) {
    EndsInRef(p) && Get(v, p) == Some(Str(r))
  }

  /** The references in the node of a reachable reference are reachable. */
  lemma NodeRefsReached(doc: Json, ops: seq<Operation>, p: Path, r: string)
    requires Servable(doc, ops) && Plain(doc, ops) && p in ComponentPaths(ReachFor(doc, ops))
    requires r in RefsAt(ComponentsOf(doc), p)
    ensures r in ReachFor(doc, ops) || IsRefMember(ComponentsOf(doc), p, r)
  {
    hide Get, CollectRefs, Reach, Roots, NamesFor, ScopedPaths, SchemePath, ComponentPath, PlainPointer, Resolve,
      EndsInRef;
    var x :| x in ReachFor(doc, ops) && ComponentPath(x) == p;
    ComponentsPresent(doc, x);
    PlainResolves(doc, x);
    ReachStep(doc, Roots(doc, ops), x);
  }

  // ----- which references resolve in the result ------------------------------------------------------

  /** The tokens a reference is followed by. */
  function RefTokens(reference: string): Option<Path> {
    if reference != "" && reference[0] == '#' then ResolveTokens(reference[1..]) else None
  }

  /** The places of the path items that are kept. */
  function KeptPlaces(paths: map<string, Json>, ops: seq<Operation>): set<Path> {
    set p, k | p in PathsOf(ops) && k in ScopedItem(ItemAt(paths, p), p, ops) :: [p, k]
  }

  function MemberPlaces(item: map<string, Json>): set<Path> {
    set k | k in item :: [k]
  }

  lemma KeptBelow(paths: map<string, Json>, ops: seq<Operation>, p: string)
    requires AllDeclared(paths, ops)
    ensures [] !in KeptPlaces(paths, ops)
    ensures p in Heads(KeptPlaces(paths, ops)) <==> p in PathsOf(ops)
    ensures p in PathsOf(ops) ==> Below(KeptPlaces(paths, ops), p) == MemberPlaces(ScopedItem(ItemAt(paths, p), p, ops))
  {
    hide HTTP_METHODS;
    var kept := KeptPlaces(paths, ops);
    if p in PathsOf(ops) {
      var op :| op in ops && op.path == p;
      assert op.verb in ScopedItem(ItemAt(paths, p), p, ops);
      assert [p, op.verb] in kept;
      forall q ensures q in Below(kept, p) <==> q in MemberPlaces(ScopedItem(ItemAt(paths, p), p, ops)) {
        BelowMember(kept, p, q);
        assert |q| == 1 ==> [p] + q == [p, q[0]] && q == [q[0]];
        assert ([p] + q)[1..] == q;
        assert forall a: string, b: string | [p] + q == [a, b] :: q == [a, b][1..] == [b] && a == p;
      }
    }
  }

  lemma ItemSpan(item: map<string, Json>, part: map<string, Json>)
    requires forall k | k in part :: k in item && part[k] == item[k]
    ensures Span(Obj(item), MemberPlaces(part)) == Obj(part)
  {
    hide Span;
    var places := MemberPlaces(part);
    SpanMember(Obj(item), places, "");
    forall k ensures k in part <==> k in Span(Obj(item), places).fields {
      SpanMember(Obj(item), places, k);
      assert k in part ==> [k] in places && [k][0] == k;
    }
    forall k | k in part ensures Span(Obj(item), places).fields[k] == part[k] {
      SpanMember(Obj(item), places, k);
      BelowMember(places, k, []);
      assert [k] + [] == [k] && [k] in places;
      WholeSpan(item[k], Below(places, k));
    }
  }

  /** The scoped path items are what their kept places span. */
  lemma ScopedPathsSpan(paths: map<string, Json>, ops: seq<Operation>)
    requires AllDeclared(paths, ops)
    ensures Obj(ScopedPaths(paths, ops)) == Span(Obj(paths), KeptPlaces(paths, ops))
  {
    hide Span, ScopedItem, KeptPlaces, Heads, Below, MemberPlaces;
    var kept, scoped := KeptPlaces(paths, ops), ScopedPaths(paths, ops);
    KeptBelow(paths, ops, "");
    SpanMember(Obj(paths), kept, "");
    forall p
      ensures p in scoped <==> p in Span(Obj(paths), kept).fields
      ensures p in scoped ==> scoped[p] == Span(Obj(paths), kept).fields[p]
    {
      KeptBelow(paths, ops, p);
      SpanMember(Obj(paths), kept, p);
      if p in PathsOf(ops) {
        ScopedItemWithin(ItemAt(paths, p), p, ops);
        ItemSpan(ItemAt(paths, p), ScopedItem(ItemAt(paths, p), p, ops));
      }
    }
  }

  predicate ListedAlike(items: seq<Json>, own: Json, rest: Path) {
    items != [] && Get(Arr(items), rest) == Get(own, rest)
  }

  /** What the result keeps of a member of the document: all of some members, the kept path items,
      what the needed places hold, and as much of the lists as collecting them leaves in place. */
  ghost predicate MemberHeld(doc: Json, ops: seq<Operation>, k: string, rest: Path)
    requires IsDocument(doc) && AllDeclared(PathsIn(doc), ops) && k in doc.fields
  {
    match k
    case "openapi" => true
    case "info" => true
    case "servers" => true
    case "paths" => Holds(doc.fields[k], KeptPlaces(PathsIn(doc), ops), rest)
    case "components" => Holds(doc.fields[k], Needed(doc, ops), rest)
    case "security" => ListedAlike(FirstUses(AllRequirements(doc.fields, PathsIn(doc), ops)), doc.fields[k], rest)
    case "tags" => ListedAlike(KeptTags(doc.fields, TagsFor(PathsIn(doc), ops)), doc.fields[k], rest)
    case _ => false
  }

  /** The node at a place of the document stays what it is; the document as a whole only when every
      member does and none is added. */
  ghost predicate HeldAt(doc: Json, ops: seq<Operation>, place: Path)
    requires IsDocument(doc) && AllDeclared(PathsIn(doc), ops)
  {
    if place == [] then
      && "components" in doc.fields
      && (FirstUses(AllRequirements(doc.fields, PathsIn(doc), ops)) != [] ==> "security" in doc.fields)
      && forall k | k in doc.fields :: MemberHeld(doc, ops, k, [])
    else place[0] in doc.fields && MemberHeld(doc, ops, place[0], place[1..])
  }

  lemma MemberKept(doc: Json, ops: seq<Operation>, spec: Json, k: string, rest: Path)
    requires Servable(doc, ops) && Plain(doc, ops) && IsScopedDocument(doc, ops, spec)
    requires k in doc.fields && Get(doc.fields[k], rest).Some?
    ensures MemberHeld(doc, ops, k, rest) <==> k in spec.fields && Get(spec.fields[k], rest) == Get(doc.fields[k], rest)
  {
    hide Span, Get, Needed, ScopedPaths, KeptPlaces, Holds, TagsFor, KeptTags, FirstUses, AllRequirements,
      AllFound, Plain, IsBuilt, AllDeclared;
    if k == "paths" {
      ScopedPathsSpan(PathsIn(doc), ops);
      SpanGetExactly(doc.fields[k], KeptPlaces(PathsIn(doc), ops), rest);
    } else if k == "components" {
      SpanGetExactly(doc.fields[k], Needed(doc, ops), rest);
    }
  }

  lemma WholeKept(doc: Json, ops: seq<Operation>, spec: Json)
    requires Servable(doc, ops) && Plain(doc, ops) && IsScopedDocument(doc, ops, spec)
    ensures HeldAt(doc, ops, []) <==> spec == doc
  {
    hide Span, Needed, ScopedPaths, KeptPlaces, TagsFor, FirstUses, AllRequirements, AllFound, Plain, IsBuilt,
      AllDeclared, MemberHeld, KeepNamed;
    forall k | k in doc.fields
      ensures MemberHeld(doc, ops, k, []) <==> k in spec.fields && spec.fields[k] == doc.fields[k]
    {
      MemberKept(doc, ops, spec, k, []);
    }
    assert "tags" in spec.fields ==> "tags" in doc.fields;
    if HeldAt(doc, ops, []) {
      forall k | k in spec.fields ensures k in doc.fields {
      }
      assert spec.fields == doc.fields;
    }
  }

  /** The result has what the reference names, and it is the canonical node. */
  predicate ResolvesIn(doc: Json, spec: Json, r: string) {
    ResolveRef(doc, r).Some? && ResolveRef(spec, r) == ResolveRef(doc, r)
  }

  /** A reference, wherever it leads, resolves in the result as in the canonical document exactly
      when its node is held. */
  lemma ResolvesExactly(doc: Json, ops: seq<Operation>, spec: Json, r: string)
    requires Servable(doc, ops) && Plain(doc, ops) && IsScopedDocument(doc, ops, spec)
    requires ResolveRef(doc, r).Some?
    ensures RefTokens(r).Some?
    ensures ResolvesIn(doc, spec, r) <==> HeldAt(doc, ops, RefTokens(r).value)
  {
    hide Span, Needed, ScopedPaths, KeptPlaces, TagsFor, FirstUses, AllRequirements, AllFound, Plain, IsBuilt,
      AllDeclared, MemberHeld, KeptTags, Listed, ResolveTokens;
    var place := RefTokens(r).value;
    if place == [] {
      WholeKept(doc, ops, spec);
    } else {
      MemberKept(doc, ops, spec, place[0], place[1..]);
    }
  }

  /** For a plain component reference that means that the needed places hold its node. */
  lemma PlainHeld(doc: Json, ops: seq<Operation>, r: string)
    requires IsDocument(doc) && AllDeclared(PathsIn(doc), ops)
    requires PlainPointer(r) && ResolveRef(doc, r).Some?
    ensures RefTokens(r).Some?
    ensures HeldAt(doc, ops, RefTokens(r).value) <==> Holds(ComponentsOf(doc), Needed(doc, ops), ComponentPath(r))
  {
    hide Needed, Holds, ScopedPaths, KeptPlaces, TagsFor, FirstUses, AllRequirements, AllDeclared, KeptTags, Listed;
    var suffix := r[|COMPONENTS_REF|..];
    TokensAgree(suffix);
    ComponentsPresent(doc, r);
    assert r[1..] == COMPONENTS + suffix by {
      assert COMPONENTS_REF[1..] == COMPONENTS;
    }
    var path := ComponentPath(r);
    assert (["components"] + path)[1..] == path;
  }

  // ----- self-containment ----------------------------------------------------------------------------

  /** Each reference the worklist does not follow leads to a node that is held. */
  ghost predicate Clean(doc: Json, ops: seq<Operation>)
    requires IsDocument(doc) && AllDeclared(PathsIn(doc), ops)
  {
    forall r | r in Unfollowed(doc, ops) ::
      ResolveRef(doc, r).Some? && HeldAt(doc, ops, RefTokens(r).value)
  }

  /** Every reference in the paths and components of the result resolves, inside the result, to
      exactly the canonical node, if and only if the document is clean. */
  lemma SelfContainedExactly(doc: Json, ops: seq<Operation>, spec: Json)
    requires Servable(doc, ops) && Plain(doc, ops) && IsScopedDocument(doc, ops, spec)
    ensures (forall r | r in SpecRefs(spec) :: ResolvesIn(doc, spec, r)) <==> Clean(doc, ops)
  {
    hide Plain, Needed, SpecRefs, HeldAt, AllFound, Reach, Span, TagsFor, KeptTags, FirstUses, AllRequirements,
      ScopedPaths, IsBuilt, GivenRefs, Get, ResolveTokens;
    if Clean(doc, ops) {
      forall r | r in SpecRefs(spec) ensures ResolvesIn(doc, spec, r) {
        SelfContained(doc, ops, spec, r);
      }
    }
    if forall r | r in SpecRefs(spec) :: ResolvesIn(doc, spec, r) {
      forall r | r in Unfollowed(doc, ops) ensures ResolveRef(doc, r).Some? && HeldAt(doc, ops, RefTokens(r).value) {
        GivenIsSpecRef(doc, ops, spec, r);
        ResolvesExactly(doc, ops, spec, r);
      }
    }
  }

  lemma SelfContained(doc: Json, ops: seq<Operation>, spec: Json, r: string)
    requires Servable(doc, ops) && Plain(doc, ops) && Clean(doc, ops) && IsScopedDocument(doc, ops, spec)
    requires r in SpecRefs(spec)
    ensures ResolvesIn(doc, spec, r)
  {
    hide Span, Get, CollectRefs, Reach, Roots, NamesFor, ScopedPaths, SchemePath, ComponentPath, Child, HeldAt,
      ResolveRef, Needed, IsBuilt, RefTokens, TagsFor, KeptTags, FirstUses, AllRequirements;
    if r in CollectRefs(spec.fields["paths"]) {
      assert CollectRefs(spec.fields["paths"]) == Roots(doc, ops) by { PathsAreRoots(doc, ops); }
      ReachRoots(doc, Roots(doc, ops));
    } else {
      ComponentRefs(doc, ops, spec);
    }
    if r in ReachFor(doc, ops) {
      ReachedResolves(doc, ops, spec, r);
    } else {
      ResolvesExactly(doc, ops, spec, r);
    }
  }

  /** So it is when no needed place is a string member `$ref` and no needed scheme refers to
      anything. */
  lemma CleanWithoutSchemeRefs(doc: Json, ops: seq<Operation>)
    requires Servable(doc, ops) && Plain(doc, ops)
    requires forall p | p in Needed(doc, ops) :: !EndsInRef(p)
    requires forall n | n in NamesFor(doc, ops) :: RefsAt(ComponentsOf(doc), SchemePath(n)) == {}
    ensures Unfollowed(doc, ops) == {} && Clean(doc, ops)
  {
    hide AllFound, Plain, Needed, EndsInRef, RefsAt, NamesFor, ReachFor, HeldAt, ComponentsOf, Unfollowed, Get,
      SchemePath;
    forall r ensures r !in Unfollowed(doc, ops) {
      UnfollowedExactly(doc, ops, r);
    }
  }

  lemma PathsAreRoots(doc: Json, ops: seq<Operation>)
    requires AllDeclared(PathsIn(doc), ops)
    ensures CollectRefs(Obj(ScopedPaths(PathsIn(doc), ops))) == Roots(doc, ops)
  {
  }

  lemma ReachedResolves(doc: Json, ops: seq<Operation>, spec: Json, r: string)
    requires Servable(doc, ops) && Plain(doc, ops) && IsScopedDocument(doc, ops, spec)
    requires r in ReachFor(doc, ops)
    ensures ResolveRef(doc, r).Some? && ResolveRef(spec, r) == ResolveRef(doc, r)
  {
    hide Span, Get, CollectRefs, Reach, Roots, NamesFor, ScopedPaths, SchemePath, ComponentPath, PlainPointer,
      Resolve, Child;
    var p := ComponentPath(r);
    assert p in Needed(doc, ops);
    ComponentsPresent(doc, r);
    PlainResolves(doc, r);
    PlainResolves(spec, r);
    SpanGet(ComponentsOf(doc), Needed(doc, ops), p);
  }

  // ----- references that dangle -----------------------------------------------------------------

  const GET := Operation("/x", "get")

  /** A document with one operation. */
  function Sample(operation: Json, components: map<string, Json>): Json {
    Obj(map["openapi" := Null, "info" := Null, "components" := Obj(components),
            "paths" := Obj(map[GET.path := Obj(map[GET.verb := operation])])])
  }

  lemma SampleScoped(operation: Json, components: map<string, Json>)
    ensures var doc := Sample(operation, components);
            && IsDocument(doc) && AllDeclared(PathsIn(doc), [GET])
            && OperationAt(PathsIn(doc), GET) == operation && ComponentsOf(doc) == Obj(components)
            && Roots(doc, [GET]) == CollectRefs(operation)
  {
    hide CollectRefs;
    var doc := Sample(operation, components);
    var item := map[GET.verb := operation];
    assert GET in [GET];
    assert PathsOf([GET]) == {GET.path};
    assert ScopedItem(item, GET.path, [GET]) == item;
    assert ScopedPaths(PathsIn(doc), [GET]) == map[GET.path := Obj(item)];
    OnlyMemberRefs(GET.verb, operation);
    OnlyMemberRefs(GET.path, Obj(item));
  }

  lemma OnlyMemberRefs(k: string, v: Json)
    ensures k != REF ==> CollectRefs(Obj(map[k := v])) == CollectRefs(v)
    ensures k == REF && v.Str? ==> CollectRefs(Obj(map[k := v])) == {v.s}
  {
    hide CollectRefs;
    var m := map[k := v];
    assert k in m && m[k] == v;
    forall r ensures r in CollectRefs(Obj(m)) <==> r in CollectRefs(v) || (k == REF && v == Str(r)) {
      ObjectRefs(m, r);
    }
    if v.Str? {
      StringRefs(v.s);
    }
  }

  /** `#/components/s/b`, and the pointer of a `$ref` member beside it. */
  const BESIDE := COMPONENTS_REF + "/s/b"
  const MEMBER := COMPONENTS_REF + "/s/a/$ref"

  lemma BesidePointer()
    ensures PlainPointer(BESIDE) && ComponentPath(BESIDE) == ["s", "b"]
  {
    hide Unescape, Split;
    PlainToken("s", "b");
    PlainToken("b", "");
    assert BESIDE[|COMPONENTS_REF|..] == "/s/b" && "/s/b"[1..] == "s/b" == "s" + "/" + "b";
    assert TrimSlashes("/s/b") == "s/b";
    assert ["s"] + ["b"] == ["s", "b"];
  }

  lemma MemberPointer()
    ensures PlainPointer(MEMBER) && ComponentPath(MEMBER) == ["s", "a", REF]
  {
    hide Unescape, Split, TrimSlashes, UnescapeAll;
    PlainToken("s", "a/$ref");
    PlainToken("a", "$ref");
    PlainToken("$ref", "");
    assert MEMBER[|COMPONENTS_REF|..] == "/s/a/$ref";
    TrimOne("s/a/$ref");
    assert "/" + "s/a/$ref" == "/s/a/$ref";
    assert "s/a/$ref" == "s" + "/" + "a/$ref" && "a/$ref" == "a" + "/" + "$ref";
    assert ["s"] + (["a"] + [REF]) == ["s", "a", REF];
  }

  lemma TrimOne(s: string)
    requires s != "" && s[0] != '/'
    ensures TrimSlashes("/" + s) == s
  {
  }

  lemma PlainToken(token: string, rest: string)
    requires NoSlash(token) && '~' !in token
    ensures UnescapeAll(Split(token)) == [token]
    ensures UnescapeAll(Split(token + "/" + rest)) == [token] + UnescapeAll(Split(rest))
  {
    hide Unescape, Split;
    SplitFirst(token, rest);
    UnescapeFixes(token);
    UnescapeTail(token, Split(rest));
  }

  /** With one needed place, what lies beside it is not in the result. */
  lemma BesideDangles(doc: Json, ops: seq<Operation>, spec: Json, p: Path, r: string)
    requires Servable(doc, ops) && Plain(doc, ops) && IsScopedDocument(doc, ops, spec)
    requires Needed(doc, ops) == {p} && PlainPointer(r)
    requires var q := ComponentPath(r); q != [] && !(p <= q) && !(q <= p)
    ensures ResolveRef(spec, r) == None
  {
    hide Span, Get, CollectRefs, Needed, ScopedPaths, ComponentPath, PlainPointer, Child, TagsFor, KeptTags,
      FirstUses, AllRequirements, ResolveRef, AllFound, Plain;
    NothingBeside(ComponentsOf(doc), Needed(doc, ops), ComponentPath(r));
    PlainResolves(spec, r);
  }

  /** A string member `$ref`, and the node it names beside it. */
  const NODES := Obj(map["a" := Obj(map[REF := Str(BESIDE)]), "b" := Null])

  lemma SampleNodes(components: map<string, Json>)
    requires "s" in components && components["s"] == NODES
    ensures Get(Obj(components), ["s", "b"]) == Some(Null)
    ensures Get(Obj(components), ["s", "a", REF]) == Some(Str(BESIDE))
  {
    hide Get;
    GetMember(components, "s", ["b"]);
    GetMember(NODES.fields, "b", []);
    GetMember(components, "s", ["a", REF]);
    GetMember(NODES.fields, "a", [REF]);
    GetMember(NODES.fields["a"].fields, REF, []);
    assert forall v :: Get(v, []) == Some(v) by { GetHere(); }
    assert ["s"] + ["b"] == ["s", "b"] && ["b"] + [] == ["b"];
    assert ["s"] + ["a", REF] == ["s", "a", REF] && ["a"] + [REF] == ["a", REF] && [REF] + [] == [REF];
  }

  lemma NodesThrough(components: map<string, Json>)
    requires "s" in components && components["s"] == NODES
    ensures ThroughObjects(Obj(components), ["s", "a", REF])
  {
    hide ThroughObjects;
    ThroughMember(components, "s", ["a", REF]);
    ThroughMember(NODES.fields, "a", [REF]);
    ThroughMember(NODES.fields["a"].fields, REF, []);
    assert ["s"] + ["a", REF] == ["s", "a", REF] && ["a"] + [REF] == ["a", REF] && [REF] + [] == [REF];
    ThroughHere(NODES.fields["a"].fields[REF]);
  }

  lemma ThroughMember(m: map<string, Json>, k: string, rest: Path)
    requires k in m
    ensures ThroughObjects(Obj(m), [k] + rest) == ThroughObjects(m[k], rest)
  {
    assert ([k] + rest)[1..] == rest;
  }

  lemma ThroughHere(v: Json)
    ensures ThroughObjects(v, [])
  {
  }

  lemma StringRefs(s: string)
    ensures CollectRefs(Str(s)) == {}
  {
  }

  /** A document whose operation refers to the `$ref` member. */
  function MemberSample(): Json {
    Sample(Obj(map[REF := Str(MEMBER)]), map["s" := NODES])
  }

  lemma MemberSampleNeeds()
    ensures var doc := MemberSample();
            && Servable(doc, [GET]) && Plain(doc, [GET]) && AllThroughObjects(doc, [GET])
            && ReachFor(doc, [GET]) == {MEMBER} && NamesFor(doc, [GET]) == {}
            && Needed(doc, [GET]) == {["s", "a", REF]}
            && ResolveRef(doc, BESIDE).Some? && Get(ComponentsOf(doc), ["s", "a", REF]) == Some(Str(BESIDE))
  {
    hide CollectRefs, Reach, Get, Resolve, ResolveRef, Split, ComponentPath, PlainPointer, ScopedPaths, NODES,
      Roots;
    var doc := MemberSample();
    MemberReach();
    MemberPointer();
    assert Requirements(doc.fields, PathsIn(doc), GET) == [];
    assert NamesFor(doc, [GET]) == {};
    assert InComponents(MEMBER) by { InPlain(MEMBER); }
    OnePath(MEMBER);
    assert Needed(doc, [GET]) == {["s", "a", REF]};
    NodesThrough(map["s" := NODES]);
  }

  lemma InPlain(r: string)
    requires PlainPointer(r)
    ensures InComponents(r)
  {
  }

  lemma OnePath(r: string)
    ensures ComponentPaths({r}) + SchemePaths({}) == {ComponentPath(r)}
  {
    hide ComponentPath;
  }

  lemma MemberReach()
    ensures var doc := MemberSample();
            && AllDeclared(PathsIn(doc), [GET]) && ReachFor(doc, [GET]) == {MEMBER} && ResolveRef(doc, MEMBER).Some?
            && ResolveRef(doc, BESIDE).Some? && Get(ComponentsOf(doc), ["s", "a", REF]) == Some(Str(BESIDE))
  {
    hide CollectRefs, Reach, Get, Resolve, ResolveRef, Split, ComponentPath, PlainPointer, ScopedPaths, NODES,
      Roots;
    var operation, components := Obj(map[REF := Str(MEMBER)]), map["s" := NODES];
    var doc := MemberSample();
    SampleScoped(operation, components);
    BesidePointer();
    MemberPointer();
    OnlyMemberRefs(REF, Str(MEMBER));
    SampleNodes(components);
    PlainResolves(doc, MEMBER);
    PlainResolves(doc, BESIDE);
    StringRefs(BESIDE);
    assert NestedRefs(doc, MEMBER) == {};
    ReachIsLeast(doc, {MEMBER}, {MEMBER});
    assert Roots(doc, [GET]) == {MEMBER};
    assert ReachFor(doc, [GET]) == {MEMBER};
  }

  /** What enumerations of the reachable references and the needed schemes build. */
  lemma BuiltSpans(doc: Json, ops: seq<Operation>, order: seq<string>, names: seq<string>)
    requires Servable(doc, ops) && Enumerates(order, ReachFor(doc, ops)) && ListsAscending(names, NamesFor(doc, ops))
    ensures var built := InsertAll(doc, order);
            && ClosesRefs(doc, ReachFor(doc, ops), built)
            && (built.Ok? ==> AddsSchemes(doc, NamesFor(doc, ops), ComponentPaths(ReachFor(doc, ops)), Plain(doc, ops),
                                          InsertSchemes(doc, built.value, names)))
  {
    hide Span, InsertAll, InsertSchemes, Enumerates, ListsAscending, ReachFor, NamesFor, AddsSchemes, AllFound;
    InsertAllSpans(doc, order, ReachFor(doc, ops));
    AscendingEnumerates(names, NamesFor(doc, ops));
    var built := InsertAll(doc, order);
    if built.Ok? {
      var needed, schemes := ComponentPaths(ReachFor(doc, ops)), NamesFor(doc, ops);
      InsertSchemesSpan(doc, built.value, names, schemes, needed, Plain(doc, ops));
    }
  }

  /** Plain pointers through objects can be inserted in every order. */
  lemma PlainBuilds(doc: Json, ops: seq<Operation>)
    requires Servable(doc, ops) && Plain(doc, ops) && AllThroughObjects(doc, ops)
    ensures AlwaysBuilds(doc, ops)
  {
    hide InsertAll, InsertSchemes, Enumerates, ListsAscending, ReachFor, NamesFor, Plain, AllThroughObjects,
      AllFound, Blames, BlamesScheme;
    forall order | Enumerates(order, ReachFor(doc, ops))
      ensures InsertAll(doc, order).Ok?
      ensures forall names | ListsAscending(names, NamesFor(doc, ops)) ::
                InsertSchemes(doc, InsertAll(doc, order).value, names).Ok?
    {
      var built := InsertAll(doc, order);
      InsertAllSpans(doc, order, ReachFor(doc, ops));
      if built.Err? {
        BlamedNotServable(doc, ops, built.failure);
      }
      forall names | ListsAscending(names, NamesFor(doc, ops)) ensures InsertSchemes(doc, built.value, names).Ok? {
        BuiltSpans(doc, ops, order, names);
        var full := InsertSchemes(doc, built.value, names);
        if full.Err? {
          SchemeNotServable(doc, ops, full.failure);
        }
      }
    }
  }

  /** The document a successful closure returns. */
  lemma ClosedSpec(doc: Json, ops: seq<Operation>, order: seq<string>, names: seq<string>) returns (spec: Json)
    requires Servable(doc, ops) && AlwaysBuilds(doc, ops)
    requires Enumerates(order, ReachFor(doc, ops)) && ListsAscending(names, NamesFor(doc, ops))
    ensures IsScopedDocument(doc, ops, spec)
    ensures InsertAll(doc, order).Ok?
    ensures InsertSchemes(doc, InsertAll(doc, order).value, names) == Ok(spec.fields["components"])
  {
    hide InsertAll, InsertSchemes, Enumerates, ListsAscending, ReachFor, NamesFor, Plain, AllFound, FirstUses,
      Blames, AllRequirements, ScopedPaths, KeptTags, TagsFor, IsBuilt, Span, Assemble, ComponentsOf, SchemePaths,
      ComponentPaths;
    var security := FirstUses(AllRequirements(doc.fields, PathsIn(doc), ops));
    var components := InsertSchemes(doc, InsertAll(doc, order).value, names).value;
    BuiltSpans(doc, ops, order, names);
    BuiltInOrder(doc, ops, order, names, components);
    AssembleIs(doc, ops, security, components);
    var scoped, tags := ScopedPaths(PathsIn(doc), ops), KeptTags(doc.fields, TagsFor(PathsIn(doc), ops));
    spec := Obj(Assemble(doc.fields, security, scoped, components, tags));
    Assembled(doc.fields, security, scoped, components, tags, "components");
  }

  lemma GivenByPlace(doc: Json, ops: seq<Operation>, spec: Json, p: Path, r: string)
    requires Servable(doc, ops) && Plain(doc, ops) && IsScopedDocument(doc, ops, spec)
    requires p in Needed(doc, ops) && r in RefsAt(ComponentsOf(doc), p)
    ensures r in SpecRefs(spec)
  {
    hide RefsAt, Needed, SpecRefs, Plain, AllFound, IsScopedDocument;
    GivenIsSpecRef(doc, ops, spec, r);
  }

  lemma OneEnumerated(x: string)
    ensures Enumerates([x], {x}) && ListsAscending([x], {x})
  {
  }

  lemma NothingEnumerated()
    ensures Enumerates([], {}) && ListsAscending([], {})
  {
  }

  /** An operation that refers to a `$ref` member: the closure succeeds, and its result holds a
      reference to a node it does not have. */
  lemma RefMemberDangles() returns (doc: Json, ops: seq<Operation>, spec: Json, r: string)
    ensures Servable(doc, ops) && Plain(doc, ops) && AllThroughObjects(doc, ops) && IsScopedDocument(doc, ops, spec)
    ensures NamesFor(doc, ops) == {}
    ensures r in SpecRefs(spec) && ResolveRef(doc, r).Some? && ResolveRef(spec, r) == None
  {
    hide MemberSample, Servable, Plain, AllThroughObjects, ReachFor, NamesFor, IsScopedDocument, SpecRefs,
      ResolveRef, Needed, ComponentPath, PlainPointer, Get, CollectRefs, ComponentsOf, Enumerates, ListsAscending,
      AlwaysBuilds, InsertAll, InsertSchemes;
    doc, ops, r := MemberSample(), [GET], BESIDE;
    MemberSampleNeeds();
    BesidePointer();
    PlainBuilds(doc, ops);
    OneEnumerated(MEMBER);
    NothingEnumerated();
    spec := ClosedSpec(doc, ops, [MEMBER], []);
    var p := ["s", "a", REF];
    GivenByPlace(doc, ops, spec, p, r);
    assert p[1] == "a" && ["s", "b"][1] == "b";
    BesideDangles(doc, ops, spec, p, r);
  }

  /** A document whose operation requires a scheme that refers to a component. */
  function SchemeSample(): Json {
    Sample(Obj(map["security" := Arr([REQUIREMENT])]), map[SCHEMES := Obj(map["k" := SCHEME]), "s" := NODES])
  }

  const REQUIREMENT := Obj(map["k" := Null])
  const SCHEME := Obj(map[REF := Str(BESIDE)])

  lemma NoSecurityRefs()
    ensures CollectRefs(Obj(map["security" := Arr([REQUIREMENT])])) == {}
  {
    hide CollectRefs;
    OnlyMemberRefs("k", Null);
    OneItemRefs(REQUIREMENT);
    OnlyMemberRefs("security", Arr([REQUIREMENT]));
    NullRefs();
  }

  lemma OneItemRefs(v: Json)
    ensures CollectRefs(Arr([v])) == CollectRefs(v)
  {
    assert [v][0] == v;
  }

  lemma NullRefs()
    ensures CollectRefs(Null) == {}
  {
  }

  lemma SchemeReach()
    ensures var doc := SchemeSample();
            && AllDeclared(PathsIn(doc), [GET]) && ReachFor(doc, [GET]) == {} && ResolveRef(doc, BESIDE).Some?
            && OperationAt(PathsIn(doc), GET) == Obj(map["security" := Arr([REQUIREMENT])])
  {
    hide CollectRefs, Reach, Get, Resolve, ResolveRef, Split, ComponentPath, PlainPointer, ScopedPaths, NODES,
      Roots, REQUIREMENT, SCHEME;
    var components := map[SCHEMES := Obj(map["k" := SCHEME]), "s" := NODES];
    var doc := SchemeSample();
    SampleScoped(Obj(map["security" := Arr([REQUIREMENT])]), components);
    BesidePointer();
    SampleNodes(components);
    PlainResolves(doc, BESIDE);
    NoSecurityRefs();
    ReachIsLeast(doc, {}, {});
    assert Roots(doc, [GET]) == {};
    assert ReachFor(doc, [GET]) == {};
  }

  lemma SchemeAt()
    ensures var doc := SchemeSample();
            && Get(doc, ["components"] + SchemePath("k")) == Some(SCHEME) == Get(ComponentsOf(doc), SchemePath("k"))
            && ThroughObjects(ComponentsOf(doc), SchemePath("k"))
  {
    hide Get, ThroughObjects, SCHEME, NODES;
    var doc := SchemeSample();
    InComponentsGet(doc, SchemePath("k"));
    var components := map[SCHEMES := Obj(map["k" := SCHEME]), "s" := NODES];
    GetMember(components, SCHEMES, ["k"]);
    GetMember(map["k" := SCHEME], "k", []);
    GetHere();
    ThroughMember(components, SCHEMES, ["k"]);
    ThroughMember(map["k" := SCHEME], "k", []);
    ThroughHere(SCHEME);
    assert SchemePath("k") == [SCHEMES] + ["k"] && ["k"] == ["k"] + [];
  }

  lemma SchemeSampleNeeds()
    ensures var doc := SchemeSample();
            && Servable(doc, [GET]) && Plain(doc, [GET]) && AllThroughObjects(doc, [GET])
            && ReachFor(doc, [GET]) == {} && NamesFor(doc, [GET]) == {"k"}
            && Needed(doc, [GET]) == {SchemePath("k")} && !EndsInRef(SchemePath("k"))
            && ResolveRef(doc, BESIDE).Some? && Get(ComponentsOf(doc), SchemePath("k")) == Some(SCHEME)
  {
    hide Reach, Get, Resolve, ResolveRef, NODES, Roots, SCHEME, Unescape, SchemePath;
    var doc := SchemeSample();
    SchemeReach();
    SchemeAt();
    UnescapeFixes("k");
    assert Requirements(doc.fields, PathsIn(doc), GET) == [REQUIREMENT];
    assert REQUIREMENT in [REQUIREMENT] && GET in [GET] && "k" in REQUIREMENT.fields;
    assert "k" in NamesFor(doc, [GET]);
    assert NamesFor(doc, [GET]) == {"k"};
    OneScheme("k");
    assert Needed(doc, [GET]) == {SchemePath("k")};
  }

  lemma OneScheme(name: string)
    ensures ComponentPaths({}) + SchemePaths({name}) == {SchemePath(name)}
    ensures name != REF ==> !EndsInRef(SchemePath(name))
  {
  }

  /** A required security scheme that refers to a component: the worklist does not follow it, so
      the result of a successful closure need not have that component. */
  lemma SchemeRefDangles() returns (doc: Json, ops: seq<Operation>, spec: Json, r: string)
    ensures Servable(doc, ops) && Plain(doc, ops) && AllThroughObjects(doc, ops) && IsScopedDocument(doc, ops, spec)
    ensures ReachFor(doc, ops) == {} && forall p | p in Needed(doc, ops) :: !EndsInRef(p)
    ensures r in SpecRefs(spec) && ResolveRef(doc, r).Some? && ResolveRef(spec, r) == None
  {
    hide SchemeSample, Servable, Plain, AllThroughObjects, ReachFor, NamesFor, IsScopedDocument, SpecRefs,
      ResolveRef, Needed, ComponentPath, PlainPointer, Get, CollectRefs, ComponentsOf, Enumerates, ListsAscending,
      AlwaysBuilds, InsertAll, InsertSchemes;
    doc, ops, r := SchemeSample(), [GET], BESIDE;
    SchemeSampleNeeds();
    BesidePointer();
    PlainBuilds(doc, ops);
    OneEnumerated("k");
    NothingEnumerated();
    spec := ClosedSpec(doc, ops, [], ["k"]);
    OnlyMemberRefs(REF, Str(BESIDE));
    GivenByPlace(doc, ops, spec, SchemePath("k"), r);
    BesideDangles(doc, ops, spec, SchemePath("k"), r);
  }

  // ----- a pointer that is not plain --------------------------------------------------------------------

  /** `#/components//b`, looked up below an empty name and inserted without it. */
  const DOUBLED := COMPONENTS_REF + "//b"

  lemma DoubledPointer()
    ensures InComponents(DOUBLED) && !PlainPointer(DOUBLED) && ComponentPath(DOUBLED) == ["b"]
    ensures RefTokens(DOUBLED) == Some(["components", "", "b"])
  {
    hide Unescape, Split, TrimSlashes, UnescapeAll, ResolveTokens;
    DoubledTokens();
    assert DOUBLED[|COMPONENTS_REF|..] == "//b" && DOUBLED[1..] == "/components//b";
  }

  lemma DoubledTokens()
    ensures InsertTokens("//b") == ["b"]
    ensures ResolveTokens("/components//b") == Some(["components", "", "b"])
  {
    hide Unescape, Split;
    PlainToken("components", "" + "/" + "b");
    PlainToken("", "b");
    PlainToken("b", "");
    assert "/components//b"[1..] == "components" + "/" + ("" + "/" + "b");
    assert "//b"[1..] == "/b" && "/b"[1..] == "b";
    assert TrimSlashes("//b") == "b";
    assert ["components"] + ([""] + ["b"]) == ["components", "", "b"];
  }

  function DoubledSample(): Json {
    Sample(Obj(map[REF := Str(DOUBLED)]), map["" := Obj(map["b" := Null])])
  }

  lemma DoubledResolves(v: Json)
    requires v.Obj? && "components" in v.fields && v.fields["components"].Obj?
    ensures var m := v.fields["components"].fields;
            && ("" !in m ==> ResolveRef(v, DOUBLED) == None)
            && (m == map["" := Obj(map["b" := Null])] ==> ResolveRef(v, DOUBLED) == Some(Null))
  {
    hide Get, ResolveTokens;
    DoubledPointer();
    var m := v.fields["components"].fields;
    GetMember(v.fields, "components", ["", "b"]);
    assert ["components"] + ["", "b"] == ["components", "", "b"] && [""] + ["b"] == ["", "b"] && ["b"] + [] == ["b"];
    GetHere();
    if "" in m {
      GetMember(m, "", ["b"]);
      if m[""] == Obj(map["b" := Null]) {
        GetMember(map["b" := Null], "b", []);
      }
    } else {
      GetMissing(m, "", ["b"]);
    }
  }

  lemma DoubledReach()
    ensures var doc := DoubledSample();
            && Servable(doc, [GET]) && ReachFor(doc, [GET]) == {DOUBLED} && NamesFor(doc, [GET]) == {}
            && Roots(doc, [GET]) == {DOUBLED} && ResolveRef(doc, DOUBLED) == Some(Null)
  {
    hide CollectRefs, Reach, Get, Resolve, ResolveRef, Split, ScopedPaths, Roots, COMPONENTS_REF;
    var operation, components := Obj(map[REF := Str(DOUBLED)]), map["" := Obj(map["b" := Null])];
    var doc := DoubledSample();
    SampleScoped(operation, components);
    DoubledPointer();
    DoubledResolves(doc);
    OnlyMemberRefs(REF, Str(DOUBLED));
    NullRefs();
    assert NestedRefs(doc, DOUBLED) == {};
    ReachIsLeast(doc, {DOUBLED}, {DOUBLED});
    assert Roots(doc, [GET]) == {DOUBLED};
    assert ReachFor(doc, [GET]) == {DOUBLED};
    assert Requirements(doc.fields, PathsIn(doc), GET) == [];
    assert NamesFor(doc, [GET]) == {};
  }

  lemma OnlyEnumeration(order: seq<string>, x: string)
    requires Enumerates(order, {x})
    ensures order == [x]
  {
    assert x in order;
    var n := |order| - 1;
    assert order[n] in order;
    EnumeratesFirst(order, {x});
    SomeElement(order[..n]);
    assert order == order[..n] + [order[n]];
  }

  lemma NothingListed(names: seq<string>)
    requires ListsAscending(names, {})
    ensures names == []
  {
    SomeElement(names);
  }

  lemma DoubledBuilds()
    ensures var doc := DoubledSample();
            && Servable(doc, [GET]) && AlwaysBuilds(doc, [GET])
            && InsertAll(doc, [DOUBLED]) == Ok(Obj(map["b" := Null]))
            && InsertSchemes(doc, Obj(map["b" := Null]), []) == Ok(Obj(map["b" := Null]))
  {
    hide AllFound, ReachFor, NamesFor, ResolveRef, DoubledSample, Enumerates, ListsAscending, ComponentPath,
      COMPONENTS_REF, AllDeclared;
    var doc, built := DoubledSample(), Obj(map["b" := Null]);
    DoubledReach();
    DoubledPointer();
    NothingInserted(doc);
    NoSchemesInserted(doc, built);
    InsertAllStep(doc, [], Obj(map[]), DOUBLED);
    assert [] + [DOUBLED] == [DOUBLED];
    assert "#" <= DOUBLED by { DoubledStarts(); }
    assert Insert(Obj(map[]), ["b"], Null) == Inserted(built);
    forall order | Enumerates(order, ReachFor(doc, [GET]))
      ensures InsertAll(doc, order) == Ok(built)
      ensures forall names | ListsAscending(names, NamesFor(doc, [GET])) :: InsertSchemes(doc, built, names).Ok?
    {
      OnlyEnumeration(order, DOUBLED);
      forall names | ListsAscending(names, NamesFor(doc, [GET])) ensures InsertSchemes(doc, built, names).Ok? {
        NothingListed(names);
      }
    }
  }

  lemma DoubledStarts()
    ensures "#" <= DOUBLED
  {
  }

  /** An operation that refers to a node by a pointer that is not plain: the closure succeeds, and
      that very reference does not resolve in its result. */
  lemma DoubledDangles() returns (doc: Json, ops: seq<Operation>, spec: Json, r: string)
    ensures Servable(doc, ops) && AlwaysBuilds(doc, ops) && !Plain(doc, ops) && IsScopedDocument(doc, ops, spec)
    ensures r in SpecRefs(spec) && ResolveRef(doc, r).Some? && ResolveRef(spec, r) == None
  {
    hide DoubledSample, AllFound, ReachFor, NamesFor, AlwaysBuilds, ResolveRef, Enumerates, ListsAscending,
      InsertAll, InsertSchemes, ScopedPaths, CollectRefs, PlainPointer, COMPONENTS_REF, IsBuilt, Roots, TagsFor,
      KeptTags, FirstUses, AllRequirements, AllDeclared, Span;
    doc, ops, r := DoubledSample(), [GET], DOUBLED;
    DoubledReach();
    DoubledBuilds();
    DoubledPointer();
    OneEnumerated(DOUBLED);
    NothingEnumerated();
    spec := ClosedSpec(doc, ops, [DOUBLED], []);
    assert CollectRefs(spec.fields["paths"]) == Roots(doc, ops) by { PathsAreRoots(doc, ops); }
    DoubledResolves(spec);
  }
}
