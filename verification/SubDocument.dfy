/** Sub-documents of a JSON value: the least document that holds chosen nodes at their own
    places, and the insertion that builds it one pointer at a time. */
module SubDocument {
  import opened Strings
  import opened JsonValues

  datatype Insertion = Inserted(doc: Json) | NotAnObject

  /** `insert_pointer` along already parsed tokens: missing containers are created, a container
      that is not an object is an error. */
  function Insert(target: Json, path: Path, value: Json): Insertion
    decreases |path|
  {
    if path == [] then Inserted(value)
    else match target
      case Obj(m) =>
        (match Insert(if path[0] in m then m[path[0]] else Obj(map[]), path[1..], value)
         case Inserted(doc) => Inserted(Obj(m[path[0] := doc]))
         case NotAnObject => NotAnObject)
      case _ => NotAnObject
  }

  function Heads(paths: set<Path>): set<string> {
    set p | p in paths && p != [] :: p[0]
  }

  function Below(paths: set<Path>, token: string): set<Path> {
    set p | p in paths && p != [] && p[0] == token :: p[1..]
  }

  /** The part of `v` that `paths` span: whole nodes at the paths, bare objects above them. */
  function Span(v: Json, paths: set<Path>): Json
    decreases v
  {
    if [] in paths then v
    else Obj(map k | k in Heads(paths) && Child(v, k).Some? :: Span(Child(v, k).value, Below(paths, k)))
  }

  predicate Resolves(v: Json, paths: set<Path>) {
    forall p | p in paths :: Get(v, p).Some?
  }

  /** Every proper prefix of the path addresses an object. */
  predicate ThroughObjects(v: Json, path: Path)
    decreases |path|
  {
    path == [] || (v.Obj? && path[0] in v.fields && ThroughObjects(v.fields[path[0]], path[1..]))
  }

  lemma BelowMember(paths: set<Path>, k: string, q: Path)
    ensures q in Below(paths, k) <==> [k] + q in paths
  {
    assert ([k] + q)[1..] == q;
    if q in Below(paths, k) {
      var p :| p in paths && p != [] && p[0] == k && p[1..] == q;
      assert p == [k] + q;
    }
  }

  lemma BelowInsert(paths: set<Path>, k: string, p: Path)
    ensures Below(paths + {[k] + p}, k) == Below(paths, k) + {p}
    ensures Heads(paths + {[k] + p}) == Heads(paths) + {k}
    ensures forall j | j != k :: Below(paths + {[k] + p}, j) == Below(paths, j)
  {
    var all := paths + {[k] + p};
    forall q ensures q in Below(all, k) <==> q in Below(paths, k) + {p} {
      BelowMember(all, k, q);
      BelowMember(paths, k, q);
      assert [k] + q == [k] + p <==> q == p by {
        assert ([k] + q)[1..] == q && ([k] + p)[1..] == p;
      }
    }
    assert [k] + p in all && ([k] + p)[0] == k;
  }

  lemma SpanNothing(v: Json)
    ensures Span(v, {}) == Obj(map[])
  {
  }

  /** Inserting a node of `v` at its own place adds its path to what is spanned, whatever was
      inserted before; it can fail only on a path that leaves the objects of `v`. */
  lemma {:induction false} InsertSpans(v: Json, paths: set<Path>, p: Path)
    requires Get(v, p).Some?
    ensures InsertionSpans(v, paths, p, Insert(Span(v, paths), p, Get(v, p).value))
    decreases |p|
  {
    hide Span;
    if p == [] {
      WholeSpan(v, paths + {[]});
    } else {
      var k, rest := p[0], p[1..];
      var c := Child(v, k).value;
      assert p == [k] + rest;
      if [] in paths {
        InsertSpans(c, {[]}, rest);
        WholeSpan(v, paths);
        WholeSpan(v, paths + {p});
        WholeSpan(c, {[]});
        WholeSpan(c, {[]} + {rest});
        if v.Obj? {
          assert v.fields[k := c] == v.fields;
        }
      } else {
        InsertSpans(c, Below(paths, k), rest);
        SpanAt(v, paths, k);
        SpanStep(v, paths, k, rest);
      }
    }
  }

  predicate InsertionSpans(v: Json, paths: set<Path>, p: Path, r: Insertion) {
    match r
    case Inserted(doc) => doc == Span(v, paths + {p})
    case NotAnObject => !ThroughObjects(v, p)
  }

  lemma WholeSpan(v: Json, paths: set<Path>)
    requires [] in paths
    ensures Span(v, paths) == v
  {
  }

  lemma SpanMember(v: Json, paths: set<Path>, j: string)
    requires [] !in paths
    ensures var span := Span(v, paths);
            && span.Obj?
            && (j in span.fields <==> j in Heads(paths) && Child(v, j).Some?)
            && (j in span.fields ==> span.fields[j] == Span(Child(v, j).value, Below(paths, j)))
  {
  }

  lemma SpanAt(v: Json, paths: set<Path>, k: string)
    requires [] !in paths && Child(v, k).Some?
    ensures var span := Span(v, paths);
            && span.Obj?
            && (if k in span.fields then span.fields[k] else Obj(map[])) == Span(Child(v, k).value, Below(paths, k))
  {
    SpanNothing(Child(v, k).value);
    assert k !in Heads(paths) ==> Below(paths, k) == {};
  }

  /** Adding a path below `k` changes the spanned object at `k` only. */
  lemma SpanStep(v: Json, paths: set<Path>, k: string, rest: Path)
    requires [] !in paths && Child(v, k).Some?
    ensures var span := Span(v, paths);
            && span.Obj?
            && Span(v, paths + {[k] + rest}) == Obj(span.fields[k := Span(Child(v, k).value, Below(paths, k) + {rest})])
  {
    hide Span, Heads, Below, Child;
    BelowInsert(paths, k, rest);
    var more := paths + {[k] + rest};
    SpanMember(v, paths, k);
    SpanMember(v, more, k);
    var before, after := Span(v, paths).fields, Span(v, more).fields;
    forall j ensures j in after <==> j in before || j == k {
      SpanMember(v, paths, j);
      SpanMember(v, more, j);
    }
    forall j | j in before && j != k ensures after[j] == before[j] {
      SpanMember(v, paths, j);
      SpanMember(v, more, j);
    }
  }

  /** The references a spanned place gives: those in its node, and, when it is itself a string
      member `$ref`, that string, since the bare container above it then reads as a reference. */
  function RefsAt(v: Json, p: Path): set<string> {
    match Get(v, p)
    case Some(node) => CollectRefs(node) + (if EndsInRef(p) && node.Str? then {node.s} else {})
    case None => {}
  }

  /** The references inside a spanned document are exactly those its places give. */
  lemma {:induction false} SpanRefs(v: Json, paths: set<Path>, r: string)
    requires Resolves(v, paths)
    ensures r in CollectRefs(Span(v, paths)) <==> exists p :: p in paths && r in RefsAt(v, p)
    decreases v
  {
    hide CollectRefs;
    if [] in paths {
      WholeRefs(v, paths, r);
    } else {
      forall k | Child(v, k).Some?
        ensures Resolves(Child(v, k).value, Below(paths, k))
        ensures r in CollectRefs(Span(Child(v, k).value, Below(paths, k)))
                <==> exists q :: q in Below(paths, k) && r in RefsAt(Child(v, k).value, q)
      {
        ResolvesBelow(v, paths, k);
        ChildSmaller(v, k);
        SpanRefs(Child(v, k).value, Below(paths, k), r);
      }
      SpannedRefs(v, paths, r);
      if p :| p in paths && r in RefsAt(v, p) {
        GivenBelow(v, paths, r, p);
      }
      if k :| Child(v, k).Some? && r in MemberRefs(v, paths, k) {
        GivenAbove(v, paths, r, k);
      }
    }
  }

  lemma ChildSmaller(v: Json, k: string)
    requires Child(v, k).Some?
    ensures Child(v, k).value < v
  {
  }

  lemma ResolvesBelow(v: Json, paths: set<Path>, k: string)
    requires Resolves(v, paths) && Child(v, k).Some?
    ensures Resolves(Child(v, k).value, Below(paths, k))
  {
    forall q | q in Below(paths, k) ensures Get(Child(v, k).value, q).Some? {
      BelowMember(paths, k, q);
      assert ([k] + q)[1..] == q && Get(v, [k] + q).Some?;
    }
  }

  lemma WholeRefs(v: Json, paths: set<Path>, r: string)
    requires [] in paths && Resolves(v, paths)
    ensures r in CollectRefs(Span(v, paths)) <==> exists p :: p in paths && r in RefsAt(v, p)
  {
    hide CollectRefs;
    assert RefsAt(v, []) == CollectRefs(v);
    forall p | p in paths ensures RefsAt(v, p) <= CollectRefs(v) {
      NodeRefs(v, p);
    }
  }

  /** The member `k` of a spanned object contributes what is in it, and itself when it is `$ref`. */
  function MemberRefs(v: Json, paths: set<Path>, k: string): set<string>
    requires Child(v, k).Some?
  {
    var span := Span(Child(v, k).value, Below(paths, k));
    if k !in Heads(paths) then {} else CollectRefs(span) + (if k == REF && span.Str? then {span.s} else {})
  }

  lemma SpannedRefs(v: Json, paths: set<Path>, r: string)
    requires [] !in paths
    ensures r in CollectRefs(Span(v, paths)) <==> exists k :: Child(v, k).Some? && r in MemberRefs(v, paths, k)
  {
    hide Below, Child, Heads, Span, CollectRefs;
    var span := Span(v, paths);
    SpanMember(v, paths, "");
    forall k ensures k in span.fields <==> k in Heads(paths) && Child(v, k).Some? {
      SpanMember(v, paths, k);
    }
    forall k | k in span.fields ensures span.fields[k] == Span(Child(v, k).value, Below(paths, k)) {
      SpanMember(v, paths, k);
    }
    ObjectRefs(span.fields, r);
  }

  lemma ObjectRefs(m: map<string, Json>, r: string)
    ensures r in CollectRefs(Obj(m))
            <==> exists k | k in m :: r in CollectRefs(m[k]) || (k == REF && m[k] == Str(r))
  {
  }

  /** What is given below the member `k` is given by the whole... */
  lemma GivenAbove(v: Json, paths: set<Path>, r: string, k: string)
    requires [] !in paths && Child(v, k).Some? && r in MemberRefs(v, paths, k)
    requires r in CollectRefs(Span(Child(v, k).value, Below(paths, k)))
             <==> exists q :: q in Below(paths, k) && r in RefsAt(Child(v, k).value, q)
    ensures exists p :: p in paths && r in RefsAt(v, p)
  {
    hide CollectRefs;
    var c := Child(v, k).value;
    if q :| q in Below(paths, k) && r in RefsAt(c, q) {
      BelowMember(paths, k, q);
      RefsAtMember(v, k, q);
    } else {
      var span := Span(c, Below(paths, k));
      assert k == REF && span == Str(r);
      assert [] in Below(paths, k);
      BelowMember(paths, k, []);
      RefsAtMember(v, k, []);
      WholeSpan(c, Below(paths, k));
    }
  }

  /** ...and what a place gives is given by the member it leads through. */
  lemma GivenBelow(v: Json, paths: set<Path>, r: string, p: Path)
    requires [] !in paths && p in paths && r in RefsAt(v, p)
    requires forall k | Child(v, k).Some? ::
               r in CollectRefs(Span(Child(v, k).value, Below(paths, k)))
               <==> exists q :: q in Below(paths, k) && r in RefsAt(Child(v, k).value, q)
    ensures exists k :: Child(v, k).Some? && r in MemberRefs(v, paths, k)
  {
    hide CollectRefs;
    var k, q := p[0], p[1..];
    assert p == [k] + q;
    BelowMember(paths, k, q);
    RefsAtMember(v, k, q);
    var c := Child(v, k).value;
    assert k in Heads(paths);
    if r !in RefsAt(c, q) {
      WholeSpan(c, Below(paths, k));
      assert Span(c, Below(paths, k)) == Str(r);
    }
    assert r in MemberRefs(v, paths, k);
  }

  lemma RefsAtMember(v: Json, k: string, q: Path)
    ensures Child(v, k).None? ==> RefsAt(v, [k] + q) == {}
    ensures Child(v, k).Some? ==>
              RefsAt(v, [k] + q) == RefsAt(Child(v, k).value, q)
                                    + (if q == [] && k == REF && Child(v, k).value.Str? then {Child(v, k).value.s}
                                       else {})
  {
    hide CollectRefs;
    assert ([k] + q)[1..] == q;
    assert q != [] ==> ([k] + q)[|q|] == q[|q| - 1];
  }

  const REF := "$ref"

  predicate EndsInRef(p: Path) {
    p != [] && p[|p| - 1] == REF
  }

  /** `collect_refs`: the targets of all `$ref` members anywhere in a value. */
  function CollectRefs(v: Json): set<string> {
    match v
    case Obj(m) =>
      (if REF in m && m[REF].Str? then {m[REF].s} else {}) + (set k, r | k in m && r in CollectRefs(m[k]) :: r)
    case Arr(items) => set i, r | 0 <= i < |items| && r in CollectRefs(items[i]) :: r
    case _ => {}
  }

  /** The references in a value are the strings at places that end in `$ref`. */
  lemma RefsExactly(v: Json, r: string)
    ensures r in CollectRefs(v) <==> exists p: Path :: Get(v, p + ["$ref"]) == Some(Str(r))
  {
    hide CollectRefs, Get;
    if r in CollectRefs(v) {
      var p := PlaceOfRef(v, r);
    }
    if p: Path :| Get(v, p + ["$ref"]) == Some(Str(r)) {
      NodeRefs(v, p + ["$ref"]);
    }
  }

  lemma {:induction false} PlaceOfRef(v: Json, r: string) returns (p: Path)
    requires r in CollectRefs(v)
    ensures Get(v, p + ["$ref"]) == Some(Str(r))
    decreases v
  {
    hide Get, ToDecimal;
    match v
    case Obj(m) =>
      if k :| k in m && r in CollectRefs(m[k]) {
        p := PlaceOfRef(m[k], r);
        GetMember(m, k, p + ["$ref"]);
        p := [k] + p;
        Associative([k], p[1..], ["$ref"]);
      } else {
        p := [];
        GetMember(m, "$ref", []);
        GetHere();
        assert [] + ["$ref"] == ["$ref"] + [];
      }
    case Arr(items) =>
      var i: nat :| i < |items| && r in CollectRefs(items[i]);
      p := PlaceOfRef(items[i], r);
      GetItem(items, i, p + ["$ref"]);
      p := [ToDecimal(i)] + p;
      Associative([ToDecimal(i)], p[1..], ["$ref"]);
    case _ =>
  }

  /** What a place gives is among the references of the whole. */
  lemma {:induction false} NodeRefs(v: Json, p: Path)
    ensures RefsAt(v, p) <= CollectRefs(v)
    decreases |p|
  {
    if p != [] && Child(v, p[0]).Some? {
      var k := p[0];
      var c := Child(v, k).value;
      assert p == [k] + p[1..];
      RefsAtMember(v, k, p[1..]);
      NodeRefs(c, p[1..]);
      ChildRefs(v, k);
    }
  }

  lemma ChildRefs(v: Json, k: string)
    requires Child(v, k).Some?
    ensures CollectRefs(Child(v, k).value) <= CollectRefs(v)
    ensures k == REF && Child(v, k).value.Str? ==> Child(v, k).value.s in CollectRefs(v)
  {
    hide ParseIndex;
    assert ParseIndex(REF) == None by { RefIsNoIndex(); }
  }

  lemma RefIsNoIndex()
    ensures ParseIndex(REF) == None
  {
    assert REF[0] == '$';
  }

  /** A spanned path addresses the same node as in `v`. */
  lemma {:induction false} SpanGet(v: Json, paths: set<Path>, p: Path)
    requires p in paths && Get(v, p).Some?
    ensures Get(Span(v, paths), p) == Get(v, p)
    decreases |p|
  {
    if [] !in paths {
      var k := p[0];
      assert p[1..] in Below(paths, k) && k in Heads(paths);
      SpanGet(Child(v, k).value, Below(paths, k), p[1..]);
    }
  }

  /** Every part of `v` lies at or below one of the paths, apart from the objects above them. */
  predicate Whole(v: Json, paths: set<Path>)
    decreases v
  {
    [] in paths || (v.Obj? && forall k | k in v.fields :: k in Heads(paths) && Whole(v.fields[k], Below(paths, k)))
  }

  /** The path leads to or into a spanned node, or to an object that is spanned piece by piece. */
  predicate Holds(v: Json, paths: set<Path>, path: Path)
    decreases |path|
  {
    if path == [] then Whole(v, paths)
    else
      || [] in paths
      || (&& path[0] in Heads(paths) && Child(v, path[0]).Some?
          && Holds(Child(v, path[0]).value, Below(paths, path[0]), path[1..]))
  }

  lemma {:induction false} SpanWhole(v: Json, paths: set<Path>)
    ensures Span(v, paths) == v <==> Whole(v, paths)
    decreases v
  {
    if [] !in paths && v.Obj? {
      hide Heads, Below;
      var span := Span(v, paths);
      forall k | k in v.fields
        ensures k in span.fields <==> k in Heads(paths)
        ensures k in span.fields ==> (span.fields[k] == v.fields[k] <==> Whole(v.fields[k], Below(paths, k)))
      {
        SpanMember(v, paths, k);
        SpanWhole(v.fields[k], Below(paths, k));
      }
      forall k | k in span.fields ensures k in v.fields {
        SpanMember(v, paths, k);
      }
      assert span == v <==> span.fields == v.fields;
    }
  }

  /** A node of `v` is in its place in the spanned document exactly when the paths hold it. */
  lemma {:induction false} SpanGetExactly(v: Json, paths: set<Path>, path: Path)
    requires Get(v, path).Some?
    ensures Get(Span(v, paths), path) == Get(v, path) <==> Holds(v, paths, path)
    decreases |path|
  {
    hide Span, Whole, Heads, Below;
    SpanWhole(v, paths);
    if path != [] {
      var k := path[0];
      SpanChild(v, paths, k);
      SpanGetExactly(Child(v, k).value, Below(paths, k), path[1..]);
    }
  }

  lemma SpanChild(v: Json, paths: set<Path>, k: string)
    requires Child(v, k).Some?
    ensures Child(Span(v, paths), k)
            == if [] in paths then Child(v, k)
               else if k in Heads(paths) then Some(Span(Child(v, k).value, Below(paths, k))) else None
  {
    hide Heads, Below, Span;
    if [] in paths {
      WholeSpan(v, paths);
    } else {
      SpanMember(v, paths, k);
    }
  }

  /** `Span` is least: it is part of every document that has the spanned nodes in place. */
  lemma {:induction false} SpanIsLeast(v: Json, paths: set<Path>, doc: Json)
    requires Resolves(v, paths) && forall p | p in paths :: Get(doc, p) == Get(v, p)
    ensures Within(Span(v, paths), doc)
    decreases v
  {
    if [] in paths {
      assert Get(doc, []) == Get(v, []);
    } else {
      var span := Span(v, paths);
      forall k | k in span.fields
        ensures Child(doc, k).Some? && Within(span.fields[k], Child(doc, k).value)
      {
        var c := Child(v, k).value;
        forall q | q in Below(paths, k)
          ensures Child(doc, k).Some? && Get(c, q).Some? && Get(Child(doc, k).value, q) == Get(c, q)
        {
          BelowMember(paths, k, q);
          assert ([k] + q)[1..] == q;
          assert Get(doc, [k] + q) == Get(v, [k] + q);
        }
        var p :| p in paths && p != [] && p[0] == k;
        assert p[1..] in Below(paths, k);
        SpanIsLeast(c, Below(paths, k), Child(doc, k).value);
      }
    }
  }

  /** `a` is part of `b`: the same value, or an object whose members are parts of `b`'s. */
  predicate Within(a: Json, b: Json) {
    a == b || (a.Obj? && forall k | k in a.fields :: Child(b, k).Some? && Within(a.fields[k], Child(b, k).value))
  }

  /** Spanning fewer paths gives a part of what more paths span. */
  lemma SpanGrows(v: Json, fewer: set<Path>, more: set<Path>)
    requires fewer <= more && Resolves(v, more)
    ensures Within(Span(v, fewer), Span(v, more))
  {
    forall p | p in fewer ensures Get(Span(v, more), p) == Get(v, p) {
      SpanGet(v, more, p);
    }
    SpanIsLeast(v, fewer, Span(v, more));
  }

  /** A spanned path that ends in a string member `$ref` makes its bare container read as a
      reference to that string... */
  lemma RefMemberReadsAsRef(v: Json, paths: set<Path>, p: Path, target: string)
    requires Resolves(v, paths) && p in paths && EndsInRef(p) && Get(v, p) == Some(Str(target))
    ensures target in CollectRefs(Span(v, paths))
  {
    hide CollectRefs, Span;
    SpanRefs(v, paths, target);
    assert target in RefsAt(v, p);
  }

  /** ...and nothing is at a place that lies beside all spanned paths. */
  lemma {:induction false} NothingBeside(v: Json, paths: set<Path>, q: Path)
    requires q != [] && forall p | p in paths :: !(p <= q) && !(q <= p)
    ensures Get(Span(v, paths), q) == None
    decreases |q|
  {
    hide Span;
    var k, rest := q[0], q[1..];
    assert q == [k] + rest;
    SpanMember(v, paths, k);
    if k in Heads(paths) && Child(v, k).Some? {
      var p :| p in paths && p != [] && p[0] == k;
      assert p == [k] + p[1..];
      forall b | b in Below(paths, k) ensures !(b <= rest) && !(rest <= b) {
        BelowMember(paths, k, b);
        assert !([k] + b <= [k] + rest) && !([k] + rest <= [k] + b);
      }
      assert rest != [] by {
        assert p[1..] in Below(paths, k);
      }
      NothingBeside(Child(v, k).value, Below(paths, k), rest);
    }
  }
}
