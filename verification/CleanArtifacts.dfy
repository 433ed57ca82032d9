/** De-duplicating nested clean-up targets, and the byte total computed from what is kept. Paths
    are absolute and normalized, given by their segments. */
module CleanArtifacts {
  import opened Strings

  type Path = seq<string>

  datatype Target = Target(path: Path, sizeBytes: nat)

  // ----- paths -------------------------------------------------------------------------

  /** Length of a string in UTF-16 code units. */
  function Units(s: string): nat {
    if s == "" then 0 else (if s[0] as int < 0x10000 then 1 else 2) + Units(s[1..])
  }

  /** The length of the absolute path, each segment with its slash. */
  function PathLength(path: Path): nat {
    if path == [] then 0 else PathLength(path[..|path| - 1]) + 1 + Units(path[|path| - 1])
  }

  function CommonLength(a: Path, b: Path): (k: nat)
    ensures k <= |a| && k <= |b| && a[..k] == b[..k]
    ensures k < |a| && k < |b| ==> a[k] != b[k]
  {
    if a == [] || b == [] || a[0] != b[0] then 0
    else
      var k := CommonLength(a[1..], b[1..]);
      assert a[..k + 1] == [a[0]] + a[1..][..k] && b[..k + 1] == [b[0]] + b[1..][..k];
      k + 1
  }

  /** The segments of `path.relative(from, to)`. */
  function Relative(from: Path, to: Path): Path {
    var k := CommonLength(from, to);
    seq(|from| - k, _ => "..") + to[k..]
  }

  /** The test of the selection loop: the relative path is not empty and does not start with `..`;
      between absolute paths it is never absolute. */
  predicate IsNested(outer: Path, inner: Path) {
    var relative := Relative(outer, inner);
    relative != [] && !(".." <= relative[0])
  }

  predicate Under(outer: Path, inner: Path) {
    outer <= inner && outer != inner
  }

  /** The test means lying strictly below, except that a next segment starting with `..` reads as
      a way out. */
  lemma NestedMeansUnder(outer: Path, inner: Path)
    ensures IsNested(outer, inner) <==> Under(outer, inner) && !(".." <= inner[|outer|])
  {
    var k := CommonLength(outer, inner);
    if k < |outer| {
      assert Relative(outer, inner)[0] == "..";
    } else {
      assert Relative(outer, inner) == inner[k..];
      assert outer == inner[..k];
    }
  }

  predicate PlainPath(path: Path) {
    forall s | s in path :: !(".." <= s)
  }

  lemma PlainNested(outer: Path, inner: Path)
    requires PlainPath(inner)
    ensures IsNested(outer, inner) <==> Under(outer, inner)
  {
    NestedMeansUnder(outer, inner);
    assert Under(outer, inner) ==> inner[|outer|] in inner;
  }

  lemma {:induction false} UnderIsLonger(outer: Path, inner: Path)
    requires Under(outer, inner)
    ensures PathLength(outer) < PathLength(inner)
    decreases |inner|
  {
    var last := inner[..|inner| - 1];
    if last != outer {
      assert outer == inner[..|outer|] == last[..|outer|];
      UnderIsLonger(outer, last);
    }
  }

  // ----- selection -------------------------------------------------------------------------

  predicate SortedByLength(s: seq<Target>) {
    forall i, j | 0 <= i < j < |s| :: PathLength(s[i].path) <= PathLength(s[j].path)
  }

  /** The targets by ascending path length. */
  method SortByLength(targets: seq<Target>) returns (sorted: seq<Target>)
    ensures SortedByLength(sorted) && multiset(sorted) == multiset(targets)
  {
    hide PathLength;
    sorted := [];
    for i := 0 to |targets|
      invariant SortedByLength(sorted) && multiset(sorted) == multiset(targets[..i])
    {
      assert targets[..i + 1] == targets[..i] + [targets[i]];
      sorted := InsertByLength(sorted, targets[i]);
    }
    assert targets[..|targets|] == targets;
  }

  method InsertByLength(s: seq<Target>, t: Target) returns (r: seq<Target>)
    requires SortedByLength(s)
    ensures SortedByLength(r) && multiset(r) == multiset(s) + multiset{t}
  {
    hide PathLength, SortedByLength;
    var k := |s|;
    while k > 0 && PathLength(s[k - 1].path) > PathLength(t.path)
      invariant 0 <= k <= |s| && forall i | k <= i < |s| :: PathLength(s[i].path) > PathLength(t.path)
    {
      k := k - 1;
    }
    InsertedSorted(s, t, k);
    r := s[..k] + [t] + s[k..];
    assert s == s[..k] + s[k..];
  }

  lemma InsertedSorted(s: seq<Target>, t: Target, k: nat)
    requires SortedByLength(s) && k <= |s|
    requires forall i | k <= i < |s| :: PathLength(s[i].path) > PathLength(t.path)
    requires k > 0 ==> PathLength(s[k - 1].path) <= PathLength(t.path)
    ensures SortedByLength(s[..k] + [t] + s[k..])
  {
    hide PathLength;
    var r := s[..k] + [t] + s[k..];
    assert forall i | 0 <= i < k :: PathLength(s[i].path) <= PathLength(t.path);
    assert forall i | 0 <= i < |r| :: r[i] == if i < k then s[i] else if i == k then t else s[i - 1];
  }

  predicate NestedInSome(selected: seq<Target>, t: Target) {
    exists s | s in selected :: IsNested(s.path, t.path)
  }

  /** Nesting, as the code tests it, passes on. */
  lemma NestedTransitive(a: Path, b: Path, c: Path)
    requires IsNested(a, b) && IsNested(b, c)
    ensures IsNested(a, c)
  {
    NestedMeansUnder(a, b);
    NestedMeansUnder(b, c);
    NestedMeansUnder(a, c);
    assert a == b[..|a|] == c[..|b|][..|a|] && c[|a|] == c[..|b|][|a|];
  }

  /** Exactly the targets nested in none are kept, as often as they are given. */
  ghost predicate KeepsOutermost(selected: seq<Target>, seen: seq<Target>, targets: seq<Target>) {
    forall t :: multiset(selected)[t] == if NestedInSome(targets, t) then 0 else multiset(seen)[t]
  }

  /** The selection loop, over the targets by ascending length: what is kept are the targets nested
      in no other, and everything else lies in something kept. */
  method SelectOutermost(targets: seq<Target>) returns (selected: seq<Target>)
    ensures KeepsOutermost(selected, targets, targets)
    ensures forall i, j | 0 <= i < |selected| && 0 <= j < |selected| :: !IsNested(selected[i].path, selected[j].path)
    ensures forall t | t in targets :: t in selected || NestedInSome(selected, t)
    ensures SortedByLength(selected)
  {
    hide PathLength, IsNested, KeepsOutermost, SortedByLength;
    var sorted := SortByLength(targets);
    selected := [];
    NoneKept(sorted);
    for k := 0 to |sorted|
      invariant forall t | t in selected :: t in sorted[..k]
      invariant forall t | t in sorted[..k] :: t in selected || NestedInSome(selected, t)
      invariant KeepsOutermost(selected, sorted[..k], sorted)
      invariant SortedByLength(selected)
    {
      var t := sorted[k];
      assert sorted[..k + 1] == sorted[..k] + [t];
      NestedInKept(sorted, k, selected);
      if !NestedInSome(selected, t) {
        OneKept(selected, sorted[..k], sorted, t);
        LongestLast(sorted, k, selected);
        selected := selected + [t];
      } else {
        OneLeftOut(selected, sorted[..k], sorted, t);
      }
    }
    assert sorted[..|sorted|] == sorted;
    SameTargets(selected, sorted, targets);
    KeptUnnested(selected, targets);
  }

  /** How a locale orders the texts two paths are shown as: `collate(a, b)` when that of `a` does not
      come after that of `b`. */
  ghost predicate Collation(collate: (Path, Path) -> bool) {
    && (forall a, b :: collate(a, b) || collate(b, a))
    && (forall a, b, c | collate(a, b) && collate(b, c) :: collate(a, c))
  }

  predicate InDisplayOrder(s: seq<Target>, collate: (Path, Path) -> bool) {
    forall i, j | 0 <= i < j < |s| :: collate(s[i].path, s[j].path)
  }

  /** `dedupeNestedTargets`: the targets nested in no other, in display order. */
  method DedupeNestedTargets(targets: seq<Target>, collate: (Path, Path) -> bool) returns (selected: seq<Target>)
    requires Collation(collate)
    ensures KeepsOutermost(selected, targets, targets)
    ensures forall i, j | 0 <= i < |selected| && 0 <= j < |selected| :: !IsNested(selected[i].path, selected[j].path)
    ensures forall t | t in targets :: t in selected || NestedInSome(selected, t)
    ensures InDisplayOrder(selected, collate)
  {
    hide IsNested, Collation, InDisplayOrder, NestedInSome, KeepsOutermost;
    var outermost := SelectOutermost(targets);
    selected := SortForDisplay(outermost, collate);
    SameKept(outermost, selected, targets);
    KeptUnnested(selected, targets);
  }

  lemma SameKept(a: seq<Target>, b: seq<Target>, targets: seq<Target>)
    requires multiset(a) == multiset(b) && KeepsOutermost(a, targets, targets)
    requires forall t | t in targets :: t in a || NestedInSome(a, t)
    ensures KeepsOutermost(b, targets, targets)
    ensures forall t | t in targets :: t in b || NestedInSome(b, t)
  {
    hide IsNested;
    SameElements(a, b);
  }

  lemma SameElements(a: seq<Target>, b: seq<Target>)
    requires multiset(a) == multiset(b)
    ensures forall t :: t in a <==> t in b
  {
    forall t ensures t in a <==> t in b {
      assert t in a <==> t in multiset(a);
      assert t in b <==> t in multiset(b);
    }
  }

  method SortForDisplay(targets: seq<Target>, collate: (Path, Path) -> bool) returns (sorted: seq<Target>)
    requires Collation(collate)
    ensures InDisplayOrder(sorted, collate) && multiset(sorted) == multiset(targets)
  {
    hide Collation, InDisplayOrder;
    sorted := [];
    assert InDisplayOrder([], collate) by { NothingInOrder(collate); }
    for i := 0 to |targets|
      invariant InDisplayOrder(sorted, collate) && multiset(sorted) == multiset(targets[..i])
    {
      assert targets[..i + 1] == targets[..i] + [targets[i]];
      sorted := InsertForDisplay(sorted, targets[i], collate);
    }
    assert targets[..|targets|] == targets;
  }

  lemma NothingInOrder(collate: (Path, Path) -> bool)
    ensures InDisplayOrder([], collate)
  {
  }

  method InsertForDisplay(s: seq<Target>, t: Target, collate: (Path, Path) -> bool) returns (r: seq<Target>)
    requires Collation(collate) && InDisplayOrder(s, collate)
    ensures InDisplayOrder(r, collate) && multiset(r) == multiset(s) + multiset{t}
  {
    hide Collation, InDisplayOrder;
    var k := |s|;
    while k > 0 && !collate(s[k - 1].path, t.path)
      invariant 0 <= k <= |s| && forall i | k <= i < |s| :: !collate(s[i].path, t.path)
    {
      k := k - 1;
    }
    InsertedInOrder(s, t, k, collate);
    r := s[..k] + [t] + s[k..];
    assert s == s[..k] + s[k..];
  }

  lemma InsertedInOrder(s: seq<Target>, t: Target, k: nat, collate: (Path, Path) -> bool)
    requires Collation(collate) && InDisplayOrder(s, collate) && k <= |s|
    requires forall i | k <= i < |s| :: !collate(s[i].path, t.path)
    requires k > 0 ==> collate(s[k - 1].path, t.path)
    ensures InDisplayOrder(s[..k] + [t] + s[k..], collate)
  {
    var r := s[..k] + [t] + s[k..];
    assert forall i | 0 <= i < k :: collate(s[i].path, t.path);
    assert forall i | 0 <= i < |r| :: r[i] == if i < k then s[i] else if i == k then t else s[i - 1];
  }

  lemma NoneKept(sorted: seq<Target>)
    ensures KeepsOutermost([], sorted[..0], sorted) && SortedByLength([])
  {
  }

  /** A target nested in any target is nested in one that was kept. */
  lemma NestedInKept(sorted: seq<Target>, k: nat, selected: seq<Target>)
    requires SortedByLength(sorted) && k < |sorted|
    requires forall t | t in selected :: t in sorted[..k]
    requires forall t | t in sorted[..k] :: t in selected || NestedInSome(selected, t)
    ensures NestedInSome(selected, sorted[k]) <==> NestedInSome(sorted, sorted[k])
  {
    hide PathLength, IsNested;
    var t := sorted[k];
    if NestedInSome(sorted, t) {
      var i :| 0 <= i < |sorted| && IsNested(sorted[i].path, t.path);
      if i >= k {
        NotInShorter(sorted[i].path, t.path);
      }
      var s := sorted[i];
      assert s in sorted[..k];
      if s !in selected {
        var u :| u in selected && IsNested(u.path, s.path);
        NestedTransitive(u.path, s.path, t.path);
      }
    }
    if NestedInSome(selected, t) {
      var s :| s in selected && IsNested(s.path, t.path);
      assert s in sorted;
    }
  }

  lemma OneKept(selected: seq<Target>, seen: seq<Target>, sorted: seq<Target>, t: Target)
    requires KeepsOutermost(selected, seen, sorted) && !NestedInSome(sorted, t)
    ensures KeepsOutermost(selected + [t], seen + [t], sorted)
  {
    hide NestedInSome;
  }

  lemma OneLeftOut(selected: seq<Target>, seen: seq<Target>, sorted: seq<Target>, t: Target)
    requires KeepsOutermost(selected, seen, sorted) && NestedInSome(sorted, t)
    ensures KeepsOutermost(selected, seen + [t], sorted)
  {
    hide NestedInSome;
  }

  lemma LongestLast(sorted: seq<Target>, k: nat, selected: seq<Target>)
    requires SortedByLength(sorted) && SortedByLength(selected) && k < |sorted|
    requires forall t | t in selected :: t in sorted[..k]
    ensures SortedByLength(selected + [sorted[k]])
  {
    hide PathLength;
    forall i | 0 <= i < |selected| ensures PathLength(selected[i].path) <= PathLength(sorted[k].path) {
      assert selected[i] in sorted[..k];
    }
  }

  lemma SameTargets(selected: seq<Target>, sorted: seq<Target>, targets: seq<Target>)
    requires KeepsOutermost(selected, sorted, sorted) && multiset(sorted) == multiset(targets)
    ensures KeepsOutermost(selected, targets, targets)
    ensures forall t :: t in sorted <==> t in targets
  {
    hide IsNested;
    forall t ensures t in sorted <==> t in targets {
      assert t in sorted <==> t in multiset(sorted);
      assert t in targets <==> t in multiset(targets);
    }
    assert forall t :: NestedInSome(sorted, t) <==> NestedInSome(targets, t);
  }

  lemma KeptIsOutermost(selected: seq<Target>, targets: seq<Target>, t: Target)
    requires KeepsOutermost(selected, targets, targets)
    ensures t in selected <==> t in targets && !NestedInSome(targets, t)
  {
    hide NestedInSome;
    assert t in selected <==> multiset(selected)[t] > 0;
    assert t in targets <==> multiset(targets)[t] > 0;
  }

  lemma KeptUnnested(selected: seq<Target>, targets: seq<Target>)
    requires KeepsOutermost(selected, targets, targets)
    ensures forall i, j | 0 <= i < |selected| && 0 <= j < |selected| :: !IsNested(selected[i].path, selected[j].path)
  {
    hide IsNested, KeepsOutermost;
    forall i, j | 0 <= i < |selected| && 0 <= j < |selected| ensures !IsNested(selected[i].path, selected[j].path) {
      KeptIsOutermost(selected, targets, selected[i]);
      KeptIsOutermost(selected, targets, selected[j]);
    }
  }

  lemma NotInShorter(outer: Path, inner: Path)
    requires PathLength(inner) <= PathLength(outer)
    ensures !IsNested(outer, inner)
  {
    NestedMeansUnder(outer, inner);
    if Under(outer, inner) {
      UnderIsLonger(outer, inner);
    }
  }

  // ----- sizes -------------------------------------------------------------------------------

  /** A file, a link with its own size, which may dangle, or a directory with its own size and its
      entries in listing order. */
  datatype Node = File(size: nat) | Link(size: nat, resolves: bool) | Dir(size: nat, entries: seq<Entry>)

  datatype Entry = Entry(name: string, node: Node)

  predicate DistinctNames(node: Node) {
    node.Dir? ==>
      && (forall i, j | 0 <= i < j < |node.entries| :: node.entries[i].name != node.entries[j].name)
      && (forall e | e in node.entries :: DistinctNames(e.node))
  }

  function SizeOf(node: Node): nat {
    match node
    case File(size) => size
    case Link(size, _) => size
    case Dir(size, entries) => size + SizeOfAll(entries)
  }

  function SizeOfAll(entries: seq<Entry>): nat {
    if entries == [] then 0 else SizeOf(entries[0].node) + SizeOfAll(entries[1..])
  }

  function Find(entries: seq<Entry>, name: string): Option<Node> {
    if entries == [] then None else if entries[0].name == name then Some(entries[0].node) else Find(entries[1..], name)
  }

  function At(node: Node, path: Path): Option<Node>
    decreases |path|
  {
    if path == [] then Some(node)
    else if !node.Dir? then None
    else match Find(node.entries, path[0]) case Some(child) => At(child, path[1..]) case None => None
  }

  /** `getPathSizeBytes`: nothing counts 0. */
  function PathSize(root: Node, path: Path): nat {
    match At(root, path) case Some(node) => SizeOf(node) case None => 0
  }

  /** `existsSync`, which follows a link. */
  predicate Exists(root: Node, path: Path) {
    match At(root, path)
    case Some(Link(_, resolves)) => resolves
    case Some(_) => true
    case None => false
  }

  lemma {:induction false} DirectoryAbove(node: Node, outer: Path, inner: Path)
    requires Under(outer, inner) && At(node, inner).Some?
    ensures At(node, outer).Some? && At(node, outer).value.Dir?
    decreases |outer|
  {
    if outer != [] {
      assert outer[0] == inner[0] && outer[1..] <= inner[1..] && outer[1..] != inner[1..];
      DirectoryAbove(Find(node.entries, outer[0]).value, outer[1..], inner[1..]);
    }
  }

  lemma ExistsAbove(root: Node, outer: Path, inner: Path)
    requires outer <= inner && Exists(root, inner)
    ensures Exists(root, outer)
  {
    if outer != inner {
      DirectoryAbove(root, outer, inner);
    }
  }

  predicate Covered(path: Path, targets: set<Path>) {
    exists t | t in targets :: t <= path
  }

  /** The size of the union of the targets: one walk of the tree that counts every node at or
      below some target once. */
  function UnionSize(node: Node, path: Path, targets: set<Path>): nat
    decreases node, 1
  {
    (if Covered(path, targets) then node.size else 0)
    + match node
      case Dir(_, entries) => UnionSizeAll(entries, path, targets)
      case _ => 0
  }

  function UnionSizeAll(entries: seq<Entry>, path: Path, targets: set<Path>): nat
    decreases entries, 0
  {
    if entries == [] then 0
    else UnionSize(entries[0].node, path + [entries[0].name], targets) + UnionSizeAll(entries[1..], path, targets)
  }

  lemma CoveredBelow(path: Path, name: string, targets: set<Path>)
    requires Covered(path, targets)
    ensures Covered(path + [name], targets)
  {
    var t :| t in targets && t <= path;
    assert t == path[..|t|] == (path + [name])[..|t|];
  }

  lemma {:induction false} CoveredCountsAll(node: Node, path: Path, targets: set<Path>)
    requires Covered(path, targets)
    ensures UnionSize(node, path, targets) == SizeOf(node)
    decreases node, 1
  {
    if node.Dir? {
      CoveredCountsEntries(node.entries, path, targets);
    }
  }

  lemma {:induction false} CoveredCountsEntries(entries: seq<Entry>, path: Path, targets: set<Path>)
    requires Covered(path, targets)
    ensures UnionSizeAll(entries, path, targets) == SizeOfAll(entries)
    decreases entries, 0
  {
    if entries != [] {
      CoveredBelow(path, entries[0].name, targets);
      CoveredCountsAll(entries[0].node, path + [entries[0].name], targets);
      CoveredCountsEntries(entries[1..], path, targets);
    }
  }

  /** Only what is covered matters. */
  lemma {:induction false} SameCover(node: Node, path: Path, s: set<Path>, t: set<Path>)
    requires forall p :: Covered(p, s) <==> Covered(p, t)
    ensures UnionSize(node, path, s) == UnionSize(node, path, t)
    decreases node, 1
  {
    hide Covered;
    if node.Dir? {
      SameCoverEntries(node.entries, path, s, t);
    }
  }

  lemma {:induction false} SameCoverEntries(entries: seq<Entry>, path: Path, s: set<Path>, t: set<Path>)
    requires forall p :: Covered(p, s) <==> Covered(p, t)
    ensures UnionSizeAll(entries, path, s) == UnionSizeAll(entries, path, t)
    decreases entries, 0
  {
    hide Covered;
    if entries != [] {
      SameCover(entries[0].node, path + [entries[0].name], s, t);
      SameCoverEntries(entries[1..], path, s, t);
    }
  }

  /** A target that neither contains nor lies in any other adds its own subtree. */
  lemma {:induction false} UnionAdds(node: Node, path: Path, targets: set<Path>, t: Path)
    requires forall s | s in targets :: !(s <= t) && !(t <= s)
    ensures UnionSize(node, path, targets + {t}) == UnionSize(node, path, targets) + UnionSize(node, path, {t})
    decreases node, 1
  {
    CoverSplits(path, targets, t);
    if node.Dir? {
      hide Covered;
      UnionAddsEntries(node.entries, path, targets, t);
    }
  }

  lemma {:induction false} UnionAddsEntries(entries: seq<Entry>, path: Path, targets: set<Path>, t: Path)
    requires forall s | s in targets :: !(s <= t) && !(t <= s)
    ensures UnionSizeAll(entries, path, targets + {t})
            == UnionSizeAll(entries, path, targets) + UnionSizeAll(entries, path, {t})
    decreases entries, 0
  {
    hide Covered;
    if entries != [] {
      UnionAdds(entries[0].node, path + [entries[0].name], targets, t);
      UnionAddsEntries(entries[1..], path, targets, t);
    }
  }

  lemma CoverSplits(path: Path, targets: set<Path>, t: Path)
    requires forall s | s in targets :: !(s <= t) && !(t <= s)
    ensures Covered(path, targets + {t}) <==> Covered(path, targets) || t <= path
    ensures Covered(path, {t}) <==> t <= path
    ensures !(Covered(path, targets) && t <= path)
  {
    assert t in targets + {t};
    forall s | s in targets ensures !(s <= path && t <= path) {
      if s <= path && t <= path {
        PrefixesCompare(s, t, path);
      }
    }
  }

  lemma PrefixesCompare(s: Path, t: Path, path: Path)
    requires s <= path && t <= path
    ensures s <= t || t <= s
  {
    assert s == path[..|s|] && t == path[..|t|];
    assert |s| <= |t| ==> s == path[..|t|][..|s|];
    assert |t| <= |s| ==> t == path[..|s|][..|t|];
  }

  lemma PrefixOfPrefix(a: Path, b: Path, c: Path)
    requires a <= b
    ensures b <= c ==> a <= c
  {
  }

  /** Away from the way to a target nothing counts. */
  lemma {:induction false} NothingElsewhere(node: Node, path: Path, t: Path)
    requires !(path <= t) && !(t <= path)
    ensures UnionSize(node, path, {t}) == 0
    decreases node, 1
  {
    if node.Dir? {
      NothingElsewhereEntries(node.entries, path, t);
    }
  }

  lemma {:induction false} NothingElsewhereEntries(entries: seq<Entry>, path: Path, t: Path)
    requires !(path <= t) && !(t <= path)
    ensures UnionSizeAll(entries, path, {t}) == 0
    decreases entries, 0
  {
    if entries != [] {
      var below := path + [entries[0].name];
      assert below[..|path|] == path;
      assert t <= below ==> t <= path || t == below by {
        assert |t| <= |path| ==> below[..|t|] == path[..|t|];
      }
      PrefixOfPrefix(path, below, t);
      NothingElsewhere(entries[0].node, below, t);
      NothingElsewhereEntries(entries[1..], path, t);
    }
  }

  /** The union of one target is its subtree. */
  lemma {:induction false} UnionOfOne(node: Node, path: Path, rest: Path)
    requires DistinctNames(node)
    ensures UnionSize(node, path, {path + rest}) == PathSize(node, rest)
    decreases node, 1
  {
    if rest == [] {
      assert path + rest == path && path <= path;
      CoveredCountsAll(node, path, {path + rest});
    } else {
      assert !(path + rest <= path);
      if node.Dir? {
        UnionOfOneEntries(node.entries, path, rest);
      }
    }
  }

  function EntrySize(entries: seq<Entry>, rest: Path): nat
    requires rest != []
  {
    match Find(entries, rest[0]) case Some(child) => PathSize(child, rest[1..]) case None => 0
  }

  lemma {:induction false} UnionOfOneEntries(entries: seq<Entry>, path: Path, rest: Path)
    requires rest != [] && forall e | e in entries :: DistinctNames(e.node)
    requires forall i, j | 0 <= i < j < |entries| :: entries[i].name != entries[j].name
    ensures UnionSizeAll(entries, path, {path + rest}) == EntrySize(entries, rest)
    decreases entries, 0
  {
    if entries != [] {
      var e, t := entries[0], path + rest;
      var below := path + [e.name];
      if e.name == rest[0] {
        assert t == below + rest[1..];
        UnionOfOne(e.node, below, rest[1..]);
        NoOtherEntry(entries[1..], path, rest);
      } else {
        assert t[|path|] == rest[0] && below[|path|] == e.name;
        assert !(below <= t) && !(t <= below);
        NothingElsewhere(e.node, below, t);
        UnionOfOneEntries(entries[1..], path, rest);
      }
    }
  }

  lemma {:induction false} NoOtherEntry(entries: seq<Entry>, path: Path, rest: Path)
    requires rest != [] && forall e | e in entries :: e.name != rest[0]
    ensures UnionSizeAll(entries, path, {path + rest}) == 0
  {
    if entries != [] {
      var below, t := path + [entries[0].name], path + rest;
      assert t[|path|] == rest[0] && below[|path|] == entries[0].name;
      assert !(below <= t) && !(t <= below);
      NothingElsewhere(entries[0].node, below, t);
      NoOtherEntry(entries[1..], path, rest);
    }
  }

  // ----- the total ---------------------------------------------------------------------------------

  function PathsOf(targets: seq<Target>): set<Path> {
    set t | t in targets :: t.path
  }

  predicate DistinctPaths(targets: seq<Target>) {
    forall i, j | 0 <= i < j < |targets| :: targets[i].path != targets[j].path
  }

  /** No target repeats or lies under an earlier one, except where there is nothing to count. */
  predicate NoOverlap(targets: seq<Target>) {
    forall i, j | 0 <= i < j < |targets| && targets[i].path <= targets[j].path :: targets[j].sizeBytes == 0
  }

  function Total(targets: seq<Target>): nat {
    if targets == [] then 0 else Total(targets[..|targets| - 1]) + targets[|targets| - 1].sizeBytes
  }

  /** `collectTargetStates`: what does not exist has size 0, a dangling link too. */
  predicate Measured(root: Node, targets: seq<Target>) {
    forall t | t in targets :: t.sizeBytes == if Exists(root, t.path) then PathSize(root, t.path) else 0
  }

  /** What a target counts: a missing path and a dangling link nothing, another link and a file their
      own size, a directory its own and all below it. */
  lemma MeasuredExactly(root: Node, targets: seq<Target>, t: Target)
    requires Measured(root, targets) && t in targets
    ensures match At(root, t.path)
            case None => t.sizeBytes == 0 && !Exists(root, t.path)
            case Some(Link(size, resolves)) => t.sizeBytes == (if resolves then size else 0)
              && Exists(root, t.path) == resolves
            case Some(File(size)) => t.sizeBytes == size && Exists(root, t.path)
            case Some(Dir(size, entries)) => t.sizeBytes == size + SizeOfAll(entries) && Exists(root, t.path)
  {
  }

  /** The targets that exist. */
  function Existing(root: Node, targets: seq<Target>): set<Path> {
    set t | t in targets && Exists(root, t.path) :: t.path
  }

  /** Of targets by ascending length the total is never below the union, and equal to it exactly
      when nothing overlaps. */
  lemma {:induction false} TotalAgainstUnion(root: Node, targets: seq<Target>)
    requires DistinctNames(root) && SortedByLength(targets) && Measured(root, targets)
    ensures Total(targets) >= UnionSize(root, [], Existing(root, targets))
    ensures Total(targets) == UnionSize(root, [], Existing(root, targets)) <==> NoOverlap(targets)
  {
    hide UnionSize, PathSize, DistinctNames, PathLength, Exists, Existing, NoOverlap, Covered, Total, PathsOf;
    if targets == [] {
      NoneExisting(root);
      EmptyUnion(root, []);
    } else {
      var n := |targets| - 1;
      var first, last := targets[..n], targets[n];
      assert targets == first + [last];
      assert last in targets;
      TotalAgainstUnion(root, first);
      OverlapStep(first, last);
      ExistingNext(root, first, last);
      TotalNext(first, last);
      if Exists(root, last.path) {
        ExistingCover(root, first, last.path);
        UnionStep(root, first, last);
      }
    }
  }

  /** The total does not depend on the order. */
  lemma {:induction false} TotalSame(a: seq<Target>, b: seq<Target>)
    requires multiset(a) == multiset(b)
    ensures Total(a) == Total(b)
    decreases |a|
  {
    if a == [] {
      assert b == [] by { EmptyToo(b); }
    } else {
      var n := |a| - 1;
      assert a == a[..n] + [a[n]];
      var k := Without(a[..n], a[n], b);
      TotalWithout(b, k);
      TotalNext(a[..n], a[n]);
      TotalSame(a[..n], b[..k] + b[k + 1..]);
    }
  }

  lemma EmptyToo(b: seq<Target>)
    requires multiset(b) == multiset{}
    ensures b == []
  {
    assert |multiset(b)| == |b|;
  }

  lemma Without(first: seq<Target>, last: Target, b: seq<Target>) returns (k: nat)
    requires multiset(first + [last]) == multiset(b)
    ensures k < |b| && b[k] == last && multiset(b[..k] + b[k + 1..]) == multiset(first)
  {
    assert last in multiset(first + [last]);
    assert last in multiset(b);
    k :| k < |b| && b[k] == last;
    assert b == b[..k] + [b[k]] + b[k + 1..];
    assert multiset(b) == multiset(b[..k]) + multiset{last} + multiset(b[k + 1..]);
    assert multiset(first + [last]) == multiset(first) + multiset{last};
    assert multiset(b[..k] + b[k + 1..]) == multiset(b[..k]) + multiset(b[k + 1..]);
    assert multiset(first) == multiset(first + [last]) - multiset{last};
  }

  lemma {:induction false} TotalWithout(s: seq<Target>, k: nat)
    requires k < |s|
    ensures Total(s) == Total(s[..k] + s[k + 1..]) + s[k].sizeBytes
    decreases |s|
  {
    var n := |s| - 1;
    if k < n {
      TotalWithout(s[..n], k);
      TotalNext(s[..n][..k] + s[..n][k + 1..], s[n]);
      assert s[..n][..k] + s[..n][k + 1..] + [s[n]] == s[..k] + s[k + 1..];
    } else {
      assert s[..k] + s[k + 1..] == s[..n];
    }
  }

  lemma TotalNext(first: seq<Target>, last: Target)
    ensures Total(first + [last]) == Total(first) + last.sizeBytes
  {
    assert (first + [last])[..|first|] == first;
  }

  lemma NoneExisting(root: Node)
    ensures Existing(root, []) == {} && NoOverlap([]) && Total([]) == 0
  {
  }

  lemma ExistingNext(root: Node, first: seq<Target>, last: Target)
    ensures Existing(root, first + [last])
            == if Exists(root, last.path) then Existing(root, first) + {last.path} else Existing(root, first)
  {
    hide Exists;
    assert forall t :: t in first + [last] <==> t in first || t == last;
  }

  /** What exists is covered by targets that exist. */
  lemma ExistingCover(root: Node, targets: seq<Target>, path: Path)
    requires Exists(root, path)
    ensures Covered(path, Existing(root, targets)) <==> Covered(path, PathsOf(targets))
  {
    hide Exists;
    if p :| p in PathsOf(targets) && p <= path {
      ExistsAbove(root, p, path);
      assert p in Existing(root, targets);
    }
    if p :| p in Existing(root, targets) && p <= path {
      assert p in PathsOf(targets);
    }
  }

  lemma OverlapStep(first: seq<Target>, last: Target)
    ensures NoOverlap(first + [last])
            <==> NoOverlap(first) && (Covered(last.path, PathsOf(first)) ==> last.sizeBytes == 0)
  {
    var all := first + [last];
    assert forall i | 0 <= i < |first| :: all[i] == first[i];
    if Covered(last.path, PathsOf(first)) {
      var p :| p in PathsOf(first) && p <= last.path;
      var i :| 0 <= i < |first| && first[i].path == p;
      assert all[i].path <= all[|first|].path;
    }
    forall i | 0 <= i < |first| && first[i].path <= last.path ensures Covered(last.path, PathsOf(first)) {
      assert first[i].path in PathsOf(first);
    }
  }

  lemma UnionStep(root: Node, first: seq<Target>, last: Target)
    requires DistinctNames(root) && SortedByLength(first + [last]) && last.sizeBytes == PathSize(root, last.path)
    requires Covered(last.path, Existing(root, first)) <==> Covered(last.path, PathsOf(first))
    ensures UnionSize(root, [], Existing(root, first) + {last.path})
            == UnionSize(root, [], Existing(root, first))
               + (if Covered(last.path, PathsOf(first)) then 0 else last.sizeBytes)
  {
    hide UnionSize, PathSize, DistinctNames, PathLength, Covered, Exists;
    var paths := Existing(root, first);
    if Covered(last.path, paths) {
      CoveredAdds(paths, last.path);
      SameCover(root, [], paths + {last.path}, paths);
    } else {
      forall p | p in paths ensures !(p <= last.path) && !(last.path <= p) {
        assert p in PathsOf(first);
        NotAbove(first, last, p);
      }
      UnionAdds(root, [], paths, last.path);
      assert [] + last.path == last.path;
      UnionOfOne(root, [], last.path);
    }
  }

  lemma CoveredAdds(paths: set<Path>, path: Path)
    requires Covered(path, paths)
    ensures forall p :: Covered(p, paths + {path}) <==> Covered(p, paths)
  {
    var t :| t in paths && t <= path;
    forall p ensures Covered(p, paths + {path}) <==> Covered(p, paths) {
      PrefixOfPrefix(t, path, p);
      if Covered(p, paths) {
        var u :| u in paths && u <= p;
        assert u in paths + {path};
      }
    }
  }

  lemma NotAbove(first: seq<Target>, last: Target, p: Path)
    requires SortedByLength(first + [last]) && p in PathsOf(first) && !Covered(last.path, PathsOf(first))
    ensures !(p <= last.path) && !(last.path <= p)
  {
    hide PathLength;
    var i :| 0 <= i < |first| && first[i].path == p;
    assert (first + [last])[i] == first[i] && (first + [last])[|first|] == last;
    if last.path <= p {
      UnderIsLonger(last.path, p);
    }
  }

  lemma {:induction false} EmptyUnion(node: Node, path: Path)
    ensures UnionSize(node, path, {}) == 0
    decreases node, 1
  {
    if node.Dir? {
      EmptyUnionEntries(node.entries, path);
    }
  }

  lemma {:induction false} EmptyUnionEntries(entries: seq<Entry>, path: Path)
    ensures UnionSizeAll(entries, path, {}) == 0
    decreases entries, 0
  {
    if entries != [] {
      EmptyUnion(entries[0].node, path + [entries[0].name]);
      EmptyUnionEntries(entries[1..], path);
    }
  }

  /** Each target that has something to count and is not skipped as nested is given once, and
      lies under no other target. */
  predicate CountedOnce(targets: seq<Target>) {
    forall t | t in targets && t.sizeBytes > 0 && !NestedInSome(targets, t) ::
      multiset(targets)[t] == 1 && forall s | s in targets :: !Under(s.path, t.path)
  }

  lemma OverlapMeansTwice(root: Node, selected: seq<Target>, targets: seq<Target>)
    requires SortedByLength(selected) && KeepsOutermost(selected, targets, targets) && Measured(root, targets)
    requires CountedOnce(targets)
    ensures NoOverlap(selected)
  {
    hide PathLength, NestedInSome, KeepsOutermost, PathSize;
    forall i, j | 0 <= i < j < |selected| && selected[i].path <= selected[j].path ensures selected[j].sizeBytes == 0 {
      var s, t := selected[i], selected[j];
      KeptIsOutermost(selected, targets, s);
      KeptIsOutermost(selected, targets, t);
      if s.path == t.path {
        assert s == t;
        TwiceCounted(selected, i, j);
        KeptCount(selected, targets, t);
      }
    }
  }

  lemma KeptCount(selected: seq<Target>, targets: seq<Target>, t: Target)
    requires KeepsOutermost(selected, targets, targets)
    ensures multiset(selected)[t] <= multiset(targets)[t]
    ensures !NestedInSome(targets, t) ==> multiset(selected)[t] == multiset(targets)[t]
  {
    hide NestedInSome;
  }

  lemma TwiceMeansOverlap(selected: seq<Target>, targets: seq<Target>, t: Target)
    requires SortedByLength(selected) && KeepsOutermost(selected, targets, targets) && NoOverlap(selected)
    requires forall s | s in targets :: s in selected || NestedInSome(selected, s)
    requires t in targets && t.sizeBytes > 0 && !NestedInSome(targets, t)
    ensures multiset(targets)[t] == 1 && forall s | s in targets :: !Under(s.path, t.path)
  {
    hide PathLength, IsNested, KeepsOutermost, SortedByLength;
    KeptIsOutermost(selected, targets, t);
    KeptCount(selected, targets, t);
    var j :| 0 <= j < |selected| && selected[j] == t;
    if multiset(targets)[t] > 1 {
      var i, k := Twice(selected, t);
    }
    forall s | s in targets ensures !Under(s.path, t.path) {
      if Under(s.path, t.path) {
        var i := KeptAbove(selected, s);
        PrefixOfPrefix(selected[i].path, s.path, t.path);
        ShorterComesFirst(selected, i, j);
      }
    }
  }

  /** Above every target, or at it, something was kept. */
  lemma KeptAbove(selected: seq<Target>, s: Target) returns (i: nat)
    requires s in selected || NestedInSome(selected, s)
    ensures i < |selected| && selected[i].path <= s.path
  {
    hide IsNested;
    if s in selected {
      i :| i < |selected| && selected[i] == s;
    } else {
      i :| i < |selected| && IsNested(selected[i].path, s.path);
      NestedMeansUnder(selected[i].path, s.path);
    }
  }

  lemma ShorterComesFirst(selected: seq<Target>, i: nat, j: nat)
    requires SortedByLength(selected) && i < |selected| && j < |selected| && Under(selected[i].path, selected[j].path)
    ensures i < j
  {
    hide PathLength;
    UnderIsLonger(selected[i].path, selected[j].path);
    assert i != j;
  }

  lemma Twice(s: seq<Target>, t: Target) returns (i: nat, j: nat)
    requires multiset(s)[t] > 1
    ensures i < j < |s| && s[i] == t == s[j]
  {
    j := |s| - 1;
    var rest := s;
    while rest[|rest| - 1] != t
      invariant 0 < |rest| <= |s| && rest == s[..|rest|] && multiset(rest)[t] > 1
      decreases |rest|
    {
      assert rest == rest[..|rest| - 1] + [rest[|rest| - 1]];
      rest := rest[..|rest| - 1];
    }
    j := |rest| - 1;
    assert rest == rest[..j] + [rest[j]];
    assert t in multiset(rest[..j]);
    i :| i < j && rest[..j][i] == t;
  }

  lemma TwiceCounted(s: seq<Target>, i: nat, j: nat)
    requires i < j < |s| && s[i] == s[j]
    ensures multiset(s)[s[i]] >= 2
  {
    assert s == s[..j] + [s[j]] + s[j + 1..];
    assert s[i] in s[..j];
  }

  lemma {:induction false} OnceCounted(s: seq<Target>, t: Target)
    requires DistinctPaths(s)
    ensures multiset(s)[t] <= 1
  {
    if s != [] {
      var n := |s| - 1;
      OnceCounted(s[..n], t);
      assert s == s[..n] + [s[n]];
      if t == s[n] {
        assert t !in s[..n];
      }
    }
  }

  /** Targets with distinct paths, none of whose segments starts with `..`, are counted once. */
  lemma PlainCountedOnce(targets: seq<Target>)
    requires DistinctPaths(targets) && forall t | t in targets :: PlainPath(t.path)
    ensures CountedOnce(targets)
  {
    hide IsNested, PlainPath;
    forall t | t in targets && t.sizeBytes > 0 && !NestedInSome(targets, t)
      ensures multiset(targets)[t] == 1 && forall s | s in targets :: !Under(s.path, t.path)
    {
      OnceCounted(targets, t);
      assert t in multiset(targets);
      forall s | s in targets ensures !Under(s.path, t.path) {
        PlainNested(s.path, t.path);
      }
    }
  }

  /** `sumTargetBytes`: of the targets that exist no byte is missed, and none is counted twice exactly
      when each target that is not skipped, and has something to count, is given once and lies under
      no other. */
  method SumTargetBytes(targets: seq<Target>, collate: (Path, Path) -> bool, ghost root: Node) returns (total: nat)
    requires Collation(collate) && DistinctNames(root) && Measured(root, targets)
    ensures total >= UnionSize(root, [], Existing(root, targets))
    ensures total == UnionSize(root, [], Existing(root, targets)) <==> CountedOnce(targets)
  {
    hide UnionSize, PathSize, DistinctNames, IsNested, KeepsOutermost, NestedInSome, CountedOnce, Existing, Exists;
    var selected := DedupeNestedTargets(targets, collate);
    total := 0;
    for i := 0 to |selected|
      invariant total == Total(selected[..i])
    {
      assert selected[..i + 1][..i] == selected[..i];
      total := total + selected[i].sizeBytes;
    }
    assert selected[..|selected|] == selected;
    TotalOfKept(selected, targets, root);
  }

  lemma TotalOfKept(selected: seq<Target>, targets: seq<Target>, root: Node)
    requires DistinctNames(root) && Measured(root, targets) && KeepsOutermost(selected, targets, targets)
    requires forall t | t in targets :: t in selected || NestedInSome(selected, t)
    ensures Total(selected) >= UnionSize(root, [], Existing(root, targets))
    ensures Total(selected) == UnionSize(root, [], Existing(root, targets)) <==> CountedOnce(targets)
  {
    hide UnionSize, PathSize, DistinctNames, IsNested, KeepsOutermost, SortedByLength, NoOverlap, CountedOnce,
      Existing, Covered, Exists, NestedInSome, PathLength;
    var sorted := SortedPermutation(selected);
    TotalSame(selected, sorted);
    SameKept(selected, sorted, targets);
    forall t | t in sorted ensures t in targets {
      KeptIsOutermost(sorted, targets, t);
    }
    SelectedCovers(root, sorted, targets);
    SameCover(root, [], Existing(root, sorted), Existing(root, targets));
    TotalAgainstUnion(root, sorted);
    OverlapExactly(root, sorted, targets);
  }

  lemma {:induction false} SortedPermutation(s: seq<Target>) returns (sorted: seq<Target>)
    ensures SortedByLength(sorted) && multiset(sorted) == multiset(s)
    decreases |s|
  {
    hide PathLength, SortedByLength;
    if s == [] {
      sorted := [];
      NoneKept([]);
    } else {
      var n := |s| - 1;
      assert s == s[..n] + [s[n]];
      var before := SortedPermutation(s[..n]);
      sorted := SortedWith(before, s[n]);
    }
  }

  lemma SortedWith(s: seq<Target>, t: Target) returns (sorted: seq<Target>)
    requires SortedByLength(s)
    ensures SortedByLength(sorted) && multiset(sorted) == multiset(s) + multiset{t}
  {
    hide PathLength, SortedByLength;
    var k := |s|;
    while k > 0 && PathLength(s[k - 1].path) > PathLength(t.path)
      invariant 0 <= k <= |s|
      invariant forall i | k <= i < |s| :: PathLength(s[i].path) > PathLength(t.path)
    {
      k := k - 1;
    }
    InsertedSorted(s, t, k);
    sorted := s[..k] + [t] + s[k..];
    assert s == s[..k] + s[k..];
  }

  lemma OverlapExactly(root: Node, selected: seq<Target>, targets: seq<Target>)
    requires SortedByLength(selected) && KeepsOutermost(selected, targets, targets) && Measured(root, targets)
    requires forall s | s in targets :: s in selected || NestedInSome(selected, s)
    ensures NoOverlap(selected) <==> CountedOnce(targets)
  {
    hide SortedByLength, KeepsOutermost, NoOverlap, NestedInSome, Measured;
    if CountedOnce(targets) {
      OverlapMeansTwice(root, selected, targets);
    }
    if NoOverlap(selected) {
      forall t | t in targets && t.sizeBytes > 0 && !NestedInSome(targets, t)
        ensures multiset(targets)[t] == 1 && forall s | s in targets :: !Under(s.path, t.path)
      {
        TwiceMeansOverlap(selected, targets, t);
      }
    }
  }

  lemma SelectedCovers(root: Node, selected: seq<Target>, targets: seq<Target>)
    requires forall t | t in selected :: t in targets
    requires forall t | t in targets :: t in selected || NestedInSome(selected, t)
    ensures forall p :: Covered(p, Existing(root, selected)) <==> Covered(p, Existing(root, targets))
  {
    hide IsNested, Exists;
    forall p ensures Covered(p, Existing(root, selected)) <==> Covered(p, Existing(root, targets)) {
      if Covered(p, Existing(root, targets)) {
        var t :| t in targets && Exists(root, t.path) && t.path <= p;
        if t !in selected {
          var s :| s in selected && IsNested(s.path, t.path);
          NestedMeansUnder(s.path, t.path);
          ExistsAbove(root, s.path, t.path);
          assert s.path == t.path[..|s.path|] == p[..|s.path|];
          assert s.path in Existing(root, selected);
        } else {
          assert t.path in Existing(root, selected);
        }
      }
      if Covered(p, Existing(root, selected)) {
        var q :| q in Existing(root, selected) && q <= p;
        assert q in Existing(root, targets);
      }
    }
  }
}
