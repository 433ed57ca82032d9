/** The plugin runner's cache of loaded provider packages: two maps, by plugin id, of packages and
    of the sources they came from, and a reload that is skipped when the source has not changed. */
module ProviderHosts {
  import opened Strings

  /** A loaded package; `content` stands for everything read from its directory. */
  datatype Package = Package(id: string, root: string, content: string)

  datatype Source = Source(root: string, identity: Option<string>) {
    predicate CanSkipReload(requested: Source) {
      identity.Some? && this == requested
    }
  }

  datatype Failure =
    | CannotResolve(path: string)
    | CannotLoad(root: string)
    | WrongPlugin(loaded: string, expected: string)
    | NotLoaded(id: string)

  datatype Result = Ok(id: string) | Err(failure: Failure)

  // ----- the package store --------------------------------------------------------------

  /** What is at a canonical root: nothing, or content under an identity, which may not load. */
  datatype Site = Gone | Site(identity: string, package: Option<Package>)

  /** The package directories, and the other paths that lead to them. */
  datatype Disk = Disk(sites: map<string, Site>, links: map<string, string>) {
    predicate Valid() {
      forall p | p in links :: p !in sites && links[p] in sites
    }

    /** `fs::canonicalize`. */
    function Canonicalize(path: string): Option<string> {
      var root := if path in links then links[path] else path;
      if root in sites && sites[root].Site? then Some(root) else None
    }

    /** `PackageLoader::load`. */
    function Load(path: string): Option<Package> {
      match Canonicalize(path)
      case Some(root) => if root in sites && sites[root].Site? then sites[root].package else None
      case None => None
    }

    /** The identity of the content at a root. */
    function IdentityAt(root: string): Option<string> {
      if root in sites && sites[root].Site? then Some(sites[root].identity) else None
    }
  }

  // ----- what a call does to the cache ---------------------------------------------------------

  datatype Cache = Cache(packages: map<string, Package>, sources: map<string, Source>) {
    function Insert(package: Package, source: Source): Cache {
      Cache(packages[package.id := package], sources[package.id := source])
    }
  }

  const EMPTY := Cache(map[], map[])

  /** The two maps have the same keys, and each key is its package's own id. */
  predicate InStep(cache: Cache) {
    cache.packages.Keys == cache.sources.Keys && forall id | id in cache.packages :: cache.packages[id].id == id
  }

  datatype Call =
    | LoadCall(path: string)
    | IfNeededCall(id: string, path: string, identity: Option<string>)
    | ReloadCall(id: string)

  function LoadFrom(cache: Cache, disk: Disk, source: Source, expected: Option<string>): (Cache, Result) {
    match disk.Load(source.root)
    case None => (cache, Err(CannotLoad(source.root)))
    case Some(package) =>
      if expected.Some? && package.id != expected.value then (cache, Err(WrongPlugin(package.id, expected.value)))
      else (cache.Insert(package, source), Ok(package.id))
  }

  /** The call is answered from the cache. */
  predicate Skips(cache: Cache, disk: Disk, id: string, path: string, identity: Option<string>) {
    var root := disk.Canonicalize(path);
    root.Some? && id in cache.sources && cache.sources[id].CanSkipReload(Source(root.value, identity))
  }

  function Perform(cache: Cache, disk: Disk, call: Call): (Cache, Result) {
    match call
    case LoadCall(path) =>
      (match disk.Canonicalize(path)
       case None => (cache, Err(CannotResolve(path)))
       case Some(root) => LoadFrom(cache, disk, Source(root, None), None))
    case IfNeededCall(id, path, identity) =>
      (match disk.Canonicalize(path)
       case None => (cache, Err(CannotResolve(path)))
       case Some(root) =>
         if Skips(cache, disk, id, path, identity) then (cache, Ok(id))
         else LoadFrom(cache, disk, Source(root, identity), Some(id)))
    case ReloadCall(id) =>
      if id !in cache.packages then (cache, Err(NotLoaded(id)))
      else
        var source := if id in cache.sources then cache.sources[id] else Source(cache.packages[id].root, None);
        LoadFrom(cache, disk, source, Some(id))
  }

  /** What a call means to its caller: failure changes nothing; success under an id leaves all other
      ids alone and the maps in step. */
  predicate Effect(before: Cache, after: Cache, r: Result) {
    match r
    case Err(_) => after == before
    case Ok(id) =>
      && id in after.packages && id in after.sources
      && after == Cache(before.packages[id := after.packages[id]], before.sources[id := after.sources[id]])
      && (InStep(before) ==> InStep(after))
  }

  lemma PerformEffect(cache: Cache, disk: Disk, call: Call)
    requires InStep(cache)
    ensures Effect(cache, Perform(cache, disk, call).0, Perform(cache, disk, call).1)
  {
    var (after, r) := Perform(cache, disk, call);
    if r.Ok? && after == cache {
      assert cache.packages[r.id := cache.packages[r.id]] == cache.packages;
      assert cache.sources[r.id := cache.sources[r.id]] == cache.sources;
    }
  }

  // ----- what a cache remembers of the store's history ------------------------------------------

  /** A call that names an identity names the present one of the root its path leads to. */
  predicate Truthful(disk: Disk, call: Call) {
    call.IfNeededCall? && call.identity.Some? && disk.Canonicalize(call.path).Some? ==>
      disk.IdentityAt(disk.Canonicalize(call.path).value) == call.identity
  }

  predicate Loadable(disk: Disk, root: string, id: string) {
    disk.Load(root).Some? && disk.Load(root).value.id == id
  }

  /** The package was read from the root at time `t2`; the identity was the root's at an earlier
      time `t1`, when the root also held this plugin. */
  predicate ReadAt(history: seq<Disk>, id: string, source: Source, package: Package, t1: nat, t2: nat) {
    && t1 <= t2 < |history|
    && history[t1].IdentityAt(source.root) == source.identity && Loadable(history[t1], source.root, id)
    && history[t2].Load(source.root) == Some(package) && package.id == id
  }

  ghost predicate Remembers(history: seq<Disk>, cache: Cache) {
    && InStep(cache)
    && forall id | id in cache.sources && cache.sources[id].identity.Some? ::
         exists t1: nat, t2: nat :: ReadAt(history, id, cache.sources[id], cache.packages[id], t1, t2)
  }

  lemma RemembersLonger(history: seq<Disk>, more: seq<Disk>, cache: Cache)
    requires Remembers(history, cache) && history <= more
    ensures Remembers(more, cache)
  {
    forall id | id in cache.sources && cache.sources[id].identity.Some?
      ensures exists t1: nat, t2: nat :: ReadAt(more, id, cache.sources[id], cache.packages[id], t1, t2)
    {
      var t1: nat, t2: nat :| ReadAt(history, id, cache.sources[id], cache.packages[id], t1, t2);
      assert ReadAt(more, id, cache.sources[id], cache.packages[id], t1, t2);
    }
  }

  lemma ResolvedLoad(disk: Disk, path: string)
    requires disk.Valid() && disk.Canonicalize(path).Some?
    ensures disk.Load(disk.Canonicalize(path).value) == disk.Load(path)
  {
  }

  /** Every truthful call, at the last moment of a history, keeps that memory true. */
  lemma CallKeepsMemory(history: seq<Disk>, cache: Cache, call: Call)
    requires history != [] && history[|history| - 1].Valid()
    requires Remembers(history, cache) && Truthful(history[|history| - 1], call)
    ensures Remembers(history, Perform(cache, history[|history| - 1], call).0)
  {
    var now := |history| - 1;
    var disk := history[now];
    var (after, r) := Perform(cache, disk, call);
    PerformEffect(cache, disk, call);
    if r.Ok? && after != cache {
      var id, source, package := r.id, after.sources[r.id], after.packages[r.id];
      if source.identity.Some? {
        if call.IfNeededCall? {
          ResolvedLoad(disk, call.path);
          assert ReadAt(history, id, source, package, now, now);
        } else {
          var t1: nat, t2: nat :| ReadAt(history, id, source, cache.packages[id], t1, t2);
          assert ReadAt(history, id, source, package, t1, now);
        }
      }
      forall k | k in after.sources && k != id && after.sources[k].identity.Some?
        ensures exists t1: nat, t2: nat :: ReadAt(history, k, after.sources[k], after.packages[k], t1, t2)
      {
        assert after.sources[k] == cache.sources[k] && after.packages[k] == cache.packages[k];
      }
    }
  }

  // ----- when a skipped load is fresh --------------------------------------------------------------

  /** The content read from a root between two moments of one identity is the content at the later
      one; it matters only where the root holds one plugin, the first time and in between. */
  ghost predicate Stable(history: seq<Disk>) {
    forall root, id, t1: nat, t2: nat, t3: nat | t1 <= t2 <= t3 < |history| && Rereads(history, root, id, t1, t2, t3) ::
      history[t3].Load(root) == history[t2].Load(root)
  }

  predicate Rereads(history: seq<Disk>, root: string, id: string, t1: nat, t2: nat, t3: nat)
    requires t1 <= t2 <= t3 < |history|
  {
    && history[t1].IdentityAt(root).Some? && history[t3].IdentityAt(root) == history[t1].IdentityAt(root)
    && Loadable(history[t1], root, id) && Loadable(history[t2], root, id)
  }

  /** The package cached for the call is what a fresh load of its path gives. */
  predicate Fresh(cache: Cache, disk: Disk, id: string, path: string) {
    id in cache.packages && disk.Load(path) == Some(cache.packages[id])
  }

  lemma SkippedLoadIsFresh(history: seq<Disk>, cache: Cache, id: string, path: string, identity: Option<string>)
    requires history != [] && history[|history| - 1].Valid() && Remembers(history, cache) && Stable(history)
    requires var disk, call := history[|history| - 1], IfNeededCall(id, path, identity);
             Truthful(disk, call) && Perform(cache, disk, call).1.Ok?
    ensures var disk := history[|history| - 1];
            Fresh(Perform(cache, disk, IfNeededCall(id, path, identity)).0, disk, id, path)
  {
    var now := |history| - 1;
    var disk := history[now];
    ResolvedLoad(disk, path);
    if Skips(cache, disk, id, path, identity) {
      var source := cache.sources[id];
      var t1: nat, t2: nat :| ReadAt(history, id, source, cache.packages[id], t1, t2);
      assert Rereads(history, source.root, id, t1, t2, now);
    }
  }

  /** A successful reload caches what is at the recorded root now, and touches nothing else. */
  lemma ReloadIsFresh(cache: Cache, disk: Disk, id: string)
    requires InStep(cache) && Perform(cache, disk, ReloadCall(id)).1.Ok?
    ensures var after := Perform(cache, disk, ReloadCall(id)).0;
            && id in cache.sources && after.sources == cache.sources
            && Fresh(after, disk, id, cache.sources[id].root)
            && after.packages == cache.packages[id := after.packages[id]]
  {
    assert cache.sources[id := cache.sources[id]] == cache.sources;
  }

  /** What a failure says. */
  lemma FailureExplained(cache: Cache, disk: Disk, call: Call)
    requires disk.Valid()
    ensures var r := Perform(cache, disk, call).1;
            r.Err? ==>
              match r.failure
              case CannotResolve(path) => !call.ReloadCall? && call.path == path && disk.Canonicalize(path) == None
              case CannotLoad(root) => disk.Load(root) == None
              case WrongPlugin(loaded, expected) =>
                && !call.LoadCall? && call.id == expected && loaded != expected
                && exists root :: disk.Load(root).Some? && disk.Load(root).value.id == loaded
              case NotLoaded(id) => call == ReloadCall(id) && id !in cache.packages
  {
  }

  // ----- the host ----------------------------------------------------------------------------

  class ProviderHost {
    var loadedPackages: map<string, Package>
    var loadedSources: map<string, Source>
    /** The store at each call so far. */
    ghost var history: seq<Disk>

    constructor ()
      ensures State() == EMPTY && history == [] && Remembers(history, State())
    {
      loadedPackages, loadedSources, history := map[], map[], [];
    }

    function State(): Cache
      reads this
    {
      Cache(loadedPackages, loadedSources)
    }

    /** Loads what is at a root: on success the package there is cached under its own id with its
        source, and no other id changes; on failure nothing does. */
    method LoadSource(disk: Disk, source: Source, expected: Option<string>) returns (r: Result)
      modifies this`loadedPackages, this`loadedSources
      ensures (State(), r) == LoadFrom(old(State()), disk, source, expected)
      ensures r.Err? ==> State() == old(State())
      ensures r.Ok? <==> && disk.Load(source.root).Some?
                         && (expected.None? || disk.Load(source.root).value.id == expected.value)
      ensures r.Ok? ==>
                && r.id in loadedPackages && disk.Load(source.root) == Some(loadedPackages[r.id])
                && r.id in loadedSources && loadedSources[r.id] == source && loadedPackages[r.id].id == r.id
                && (forall id | id != r.id :: id in loadedPackages <==> id in old(loadedPackages))
                && (forall id | id != r.id && id in loadedPackages :: loadedPackages[id] == old(loadedPackages)[id])
                && (forall id | id != r.id :: id in loadedSources <==> id in old(loadedSources))
                && (forall id | id != r.id && id in loadedSources :: loadedSources[id] == old(loadedSources)[id])
      ensures old(InStep(State())) ==> InStep(State())
    {
      var loaded := disk.Load(source.root);
      if loaded.None? {
        return Err(CannotLoad(source.root));
      }
      var id := loaded.value.id;
      if expected.Some? && id != expected.value {
        return Err(WrongPlugin(id, expected.value));
      }
      loadedPackages := loadedPackages[id := loaded.value];
      loadedSources := loadedSources[id := source];
      r := Ok(id);
    }

    /** Loads a path without an identity: the package there is cached, and never skipped later. */
    method Load(disk: Disk, path: string) returns (r: Result)
      requires disk.Valid()
      modifies this
      ensures (State(), r) == Perform(old(State()), disk, LoadCall(path)) && history == old(history) + [disk]
      ensures r.Ok? <==> disk.Load(path).Some?
      ensures r.Ok? ==>
                && Fresh(State(), disk, r.id, path) && loadedSources[r.id].identity == None
                && disk.Canonicalize(path) == Some(loadedSources[r.id].root)
      ensures r.Err? ==> State() == old(State())
      ensures old(Remembers(history, State())) ==> Remembers(history, State())
    {
      Called(disk, LoadCall(path));
      var root := disk.Canonicalize(path);
      if root.None? {
        return Err(CannotResolve(path));
      }
      ResolvedLoad(disk, path);
      r := LoadSource(disk, Source(root.value, None), None);
    }

    /** Records the store of a call. */
    ghost method Called(disk: Disk, call: Call)
      requires disk.Valid()
      modifies this`history
      ensures history == old(history) + [disk]
      ensures old(Remembers(history, State())) && Truthful(disk, call) ==>
                Remembers(history, State()) && Remembers(history, Perform(State(), disk, call).0)
    {
      var before := history;
      history := history + [disk];
      if old(Remembers(history, State())) && Truthful(disk, call) {
        RemembersLonger(before, history, State());
        CallKeepsMemory(history, State(), call);
      }
    }

    /** Whoever calls truthfully, over a store that is stable at the calls, finds cached what a
        fresh load would give. */
    method LoadIfNeeded(disk: Disk, id: string, path: string, identity: Option<string>) returns (r: Result)
      requires disk.Valid()
      modifies this
      ensures (State(), r) == Perform(old(State()), disk, IfNeededCall(id, path, identity))
              && history == old(history) + [disk]
      ensures r.Ok? ==> r.id == id && id in loadedSources && disk.Canonicalize(path) == Some(loadedSources[id].root)
                        && loadedSources[id].identity == identity
      ensures r.Ok? <==> var root := disk.Canonicalize(path);
                         && root.Some?
                         && (|| (identity.Some? && id in old(loadedSources)
                                 && old(loadedSources)[id] == Source(root.value, identity))
                             || Loadable(disk, root.value, id))
      ensures r.Ok? && identity.Some? && id in old(loadedSources)
              && Some(old(loadedSources)[id].root) == disk.Canonicalize(path)
                 && old(loadedSources)[id].identity == identity
              ==> State() == old(State())
      ensures r.Err? ==> State() == old(State())
      ensures old(Remembers(history, State())) && Truthful(disk, IfNeededCall(id, path, identity))
              ==> Remembers(history, State())
      ensures r.Ok? && (identity.None? || !old(Skips(State(), disk, id, path, identity)))
              ==> Fresh(State(), disk, id, path)
      ensures r.Ok? && old(Remembers(history, State())) && Truthful(disk, IfNeededCall(id, path, identity))
              && Stable(history)
              ==> Fresh(State(), disk, id, path)
    {
      Called(disk, IfNeededCall(id, path, identity));
      ghost var before := State();
      var root := disk.Canonicalize(path);
      if root.None? {
        return Err(CannotResolve(path));
      }
      ResolvedLoad(disk, path);
      var requested := Source(root.value, identity);
      if id in loadedSources && loadedSources[id].CanSkipReload(requested) {
        r := Ok(id);
      } else {
        r := LoadSource(disk, requested, Some(id));
      }
      if r.Ok? && old(Remembers(history, State())) && Truthful(disk, IfNeededCall(id, path, identity))
        && Stable(history) {
        SkippedLoadIsFresh(history, before, id, path, identity);
      }
    }

    /** Reloads the recorded source: on success what is at its root now is cached, sources and all
        other packages stay; a plugin never loaded is refused. */
    method Reload(disk: Disk, id: string) returns (r: Result)
      requires disk.Valid()
      modifies this
      ensures (State(), r) == Perform(old(State()), disk, ReloadCall(id)) && history == old(history) + [disk]
      ensures r.Err? ==> State() == old(State())
      ensures old(InStep(State())) ==>
                (r.Ok? <==> id in loadedSources && Loadable(disk, loadedSources[id].root, id))
      ensures old(InStep(State())) && r.Ok? ==>
                && r.id == id && id in old(loadedSources) && loadedSources == old(loadedSources)
                && Fresh(State(), disk, id, loadedSources[id].root)
                && loadedPackages == old(loadedPackages)[id := loadedPackages[id]]
      ensures old(Remembers(history, State())) ==> Remembers(history, State())
    {
      Called(disk, ReloadCall(id));
      var source;
      if id in loadedSources {
        source := loadedSources[id];
        assert loadedSources[id := source] == loadedSources;
      } else if id in loadedPackages {
        source := Source(loadedPackages[id].root, None);
      } else {
        return Err(NotLoaded(id));
      }
      if id !in loadedPackages {
        return Err(NotLoaded(id));
      }
      r := LoadSource(disk, source, Some(id));
    }
  }

  // ----- all call sequences over a store's history ---------------------------------------------------

  /** A call at a moment of the history. */
  datatype Timed = Timed(at: nat, call: Call)

  /** Truthful calls in the order of time. */
  ghost predicate IsSchedule(history: seq<Disk>, calls: seq<Timed>) {
    && (forall i | 0 <= i < |calls| :: calls[i].at < |history| && Truthful(history[calls[i].at], calls[i].call))
    && (forall i, j | 0 <= i < j < |calls| :: calls[i].at <= calls[j].at)
  }

  /** The cache of a host that began empty and answered these calls. */
  ghost function Answered(history: seq<Disk>, calls: seq<Timed>): Cache
    requires IsSchedule(history, calls)
    decreases |calls|
  {
    if calls == [] then EMPTY
    else
      var n := |calls| - 1;
      Perform(Answered(history, calls[..n]), history[calls[n].at], calls[n].call).0
  }

  /** A truthful call at a moment no earlier than those before it. */
  ghost predicate Follows(history: seq<Disk>, calls: seq<Timed>, t: nat, call: Call) {
    && IsSchedule(history, calls) && t < |history| && Truthful(history[t], call)
    && forall i | 0 <= i < |calls| :: calls[i].at <= t
  }

  /** After these calls, this one, if it succeeds, leaves a fresh package. */
  ghost predicate AnswersFresh(
    history: seq<Disk>, calls: seq<Timed>, t: nat, id: string, path: string, identity: Option<string>)
    requires Follows(history, calls, t, IfNeededCall(id, path, identity))
  {
    var (after, r) := Perform(Answered(history, calls), history[t], IfNeededCall(id, path, identity));
    r.Ok? ==> Fresh(after, history[t], id, path)
  }

  /** Whatever the truthful calls before, a truthful `load_if_needed` that succeeds leaves cached
      what a fresh load of its path would give. */
  ghost predicate AlwaysFresh(history: seq<Disk>) {
    forall calls, t: nat, id, path, identity | Follows(history, calls, t, IfNeededCall(id, path, identity)) ::
      AnswersFresh(history, calls, t, id, path, identity)
  }

  ghost predicate AllValid(history: seq<Disk>) {
    forall i | 0 <= i < |history| :: history[i].Valid()
  }

  lemma {:induction false} AnsweredRemembers(history: seq<Disk>, calls: seq<Timed>, t: nat)
    requires AllValid(history) && IsSchedule(history, calls) && t < |history|
    requires forall i | 0 <= i < |calls| :: calls[i].at <= t
    ensures Remembers(history[..t + 1], Answered(history, calls))
    decreases |calls|
  {
    if calls != [] {
      var n := |calls| - 1;
      var at := calls[n].at;
      AnsweredRemembers(history, calls[..n], at);
      CallKeepsMemory(history[..at + 1], Answered(history, calls[..n]), calls[n].call);
      RemembersLonger(history[..at + 1], history[..t + 1], Answered(history, calls));
    }
  }

  lemma StablePrefix(history: seq<Disk>, n: nat)
    requires Stable(history) && n <= |history|
    ensures Stable(history[..n])
  {
    hide Loadable;
    forall root, id, t1: nat, t2: nat, t3: nat | t1 <= t2 <= t3 < n && Rereads(history[..n], root, id, t1, t2, t3)
      ensures history[..n][t3].Load(root) == history[..n][t2].Load(root)
    {
      assert Rereads(history, root, id, t1, t2, t3);
    }
  }

  /** The calls that show an unstable history unfresh: load at `t1`, reload at `t2`, ask at `t3`. */
  lemma UnstableServesStale(history: seq<Disk>, root: string, id: string, t1: nat, t2: nat, t3: nat)
    requires AllValid(history) && t1 <= t2 <= t3 < |history| && Rereads(history, root, id, t1, t2, t3)
    ensures var identity := history[t1].IdentityAt(root);
            var calls := [Timed(t1, IfNeededCall(id, root, identity)), Timed(t2, ReloadCall(id))];
            && Follows(history, calls, t3, IfNeededCall(id, root, identity))
            && Perform(Answered(history, calls), history[t3], IfNeededCall(id, root, identity))
               == (Answered(history, calls), Ok(id))
            && id in Answered(history, calls).packages
            && Some(Answered(history, calls).packages[id]) == history[t2].Load(root)
  {
    hide Answered, Perform, IsSchedule, Truthful, Loadable;
    var identity := history[t1].IdentityAt(root);
    var first, second := Timed(t1, IfNeededCall(id, root, identity)), Timed(t2, ReloadCall(id));
    TruthfulAtRoot(history[t1], root, id);
    TruthfulAtRoot(history[t3], root, id);
    TruthfulReload(history[t2], id);
    AnsweredNone(history);
    AnsweredNext(history, [], first);
    AnsweredNext(history, [] + [first], second);
    assert [] + [first] + [second] == [first, second];
    LoadsThenReloads(history[t1], history[t2], history[t3], root, id);
  }

  lemma TruthfulAtRoot(disk: Disk, root: string, id: string)
    requires disk.Valid() && disk.IdentityAt(root).Some?
    ensures Truthful(disk, IfNeededCall(id, root, disk.IdentityAt(root)))
  {
  }

  lemma TruthfulReload(disk: Disk, id: string)
    ensures Truthful(disk, ReloadCall(id))
  {
  }

  lemma AnsweredNone(history: seq<Disk>)
    ensures IsSchedule(history, []) && Answered(history, []) == EMPTY
  {
  }

  lemma AnsweredNext(history: seq<Disk>, calls: seq<Timed>, c: Timed)
    requires Follows(history, calls, c.at, c.call)
    ensures IsSchedule(history, calls + [c])
    ensures Answered(history, calls + [c]) == Perform(Answered(history, calls), history[c.at], c.call).0
  {
    hide Truthful, Perform;
    var all := calls + [c];
    assert forall i | 0 <= i < |all| :: all[i] == if i < |calls| then calls[i] else c;
    assert all[..|calls|] == calls;
  }

  lemma LoadsThenReloads(d1: Disk, d2: Disk, d3: Disk, root: string, id: string)
    requires d1.Valid() && d2.Valid() && d3.Valid()
    requires d1.IdentityAt(root).Some? && d3.IdentityAt(root) == d1.IdentityAt(root)
    requires Loadable(d1, root, id) && Loadable(d2, root, id)
    ensures var call := IfNeededCall(id, root, d1.IdentityAt(root));
            var reloaded := Perform(Perform(EMPTY, d1, call).0, d2, ReloadCall(id)).0;
            && Perform(reloaded, d3, call) == (reloaded, Ok(id))
            && id in reloaded.packages && Some(reloaded.packages[id]) == d2.Load(root)
  {
    var source := Source(root, d1.IdentityAt(root));
    var loaded := EMPTY.Insert(d1.Load(root).value, source);
    assert Perform(EMPTY, d1, IfNeededCall(id, root, d1.IdentityAt(root))).0 == loaded;
    assert Perform(loaded, d2, ReloadCall(id)).0 == loaded.Insert(d2.Load(root).value, source);
  }

  /** The exact condition: over a history of the store, every call sequence is served fresh if and
      only if, per root, what can be read between two moments of one identity is what is there at
      the later one. */
  lemma FreshExactly(history: seq<Disk>)
    requires AllValid(history)
    ensures AlwaysFresh(history) <==> Stable(history)
  {
    if Stable(history) {
      forall calls, t: nat, id, path, identity | Follows(history, calls, t, IfNeededCall(id, path, identity))
        ensures AnswersFresh(history, calls, t, id, path, identity)
      {
        StableAnswersFresh(history, calls, t, id, path, identity);
      }
    }
    if AlwaysFresh(history) {
      forall root, id, t1: nat, t2: nat, t3: nat | t1 <= t2 <= t3 < |history| && Rereads(history, root, id, t1, t2, t3)
        ensures history[t3].Load(root) == history[t2].Load(root)
      {
        UnstableServesStale(history, root, id, t1, t2, t3);
        var identity := history[t1].IdentityAt(root);
        var calls := [Timed(t1, IfNeededCall(id, root, identity)), Timed(t2, ReloadCall(id))];
        assert AnswersFresh(history, calls, t3, id, root, identity);
      }
    }
  }

  lemma StableAnswersFresh(
    history: seq<Disk>, calls: seq<Timed>, t: nat, id: string, path: string, identity: Option<string>)
    requires AllValid(history) && Stable(history) && Follows(history, calls, t, IfNeededCall(id, path, identity))
    ensures AnswersFresh(history, calls, t, id, path, identity)
  {
    hide Perform, Answered, Stable, Fresh;
    var (after, r) := Perform(Answered(history, calls), history[t], IfNeededCall(id, path, identity));
    if r.Ok? {
      AnsweredRemembers(history, calls, t);
      StablePrefix(history, t + 1);
      SkippedLoadIsFresh(history[..t + 1], Answered(history, calls), id, path, identity);
    }
  }

  /** One identity at one root always means one content. */
  ghost predicate Meaningful(history: seq<Disk>) {
    forall root, t1: nat, t2: nat |
      t1 <= t2 < |history| && history[t1].IdentityAt(root).Some?
        && history[t2].IdentityAt(root) == history[t1].IdentityAt(root) ::
      history[t1].Load(root) == history[t2].Load(root)
  }

  /** An identity that a root has lost it never has again. */
  ghost predicate NeverReused(history: seq<Disk>) {
    forall root, t1: nat, t2: nat, t3: nat |
      t1 <= t2 <= t3 < |history| && history[t1].IdentityAt(root).Some?
        && history[t3].IdentityAt(root) == history[t1].IdentityAt(root) ::
      history[t2].IdentityAt(root) == history[t1].IdentityAt(root)
  }

  /** The usual discipline of a package store is enough. */
  lemma NeverReusedIsStable(history: seq<Disk>)
    requires AllValid(history) && Meaningful(history) && NeverReused(history)
    ensures Stable(history)
  {
    forall root, id, t1: nat, t2: nat, t3: nat | t1 <= t2 <= t3 < |history| && Rereads(history, root, id, t1, t2, t3)
      ensures history[t3].Load(root) == history[t2].Load(root)
    {
      assert history[t2].IdentityAt(root) == history[t1].IdentityAt(root);
    }
  }

  // ----- two ways to be served stale content ------------------------------------------------------------

  function Holding(root: string, identity: string, package: Package): Disk {
    Disk(map[root := Site.Site(identity, Some(package))], map[])
  }

  /** New content under an old identity: the skip serves the old package. */
  lemma ReusedIdentityServesStale(root: string, identity: string, v1: Package, v2: Package)
    requires v1.id == v2.id && v1 != v2
    ensures !AlwaysFresh([Holding(root, identity, v1), Holding(root, identity, v2)])
  {
    var history := [Holding(root, identity, v1), Holding(root, identity, v2)];
    assert Rereads(history, root, v1.id, 0, 0, 1);
    assert history[1].Load(root) != history[0].Load(root);
    FreshExactly(history);
  }

  /** Each identity always meaning one content is not enough: a reload keeps the recorded identity
      while it reads newer content, and after a rollback to the old content and its identity the
      skip serves the newer package. */
  lemma RollbackServesStale(root: string, a: string, b: string, v1: Package, v2: Package)
    requires v1.id == v2.id && v1 != v2 && a != b
    ensures !AlwaysFresh([Holding(root, a, v1), Holding(root, b, v2), Holding(root, a, v1)])
  {
    var history := [Holding(root, a, v1), Holding(root, b, v2), Holding(root, a, v1)];
    assert Rereads(history, root, v1.id, 0, 1, 2);
    assert history[2].Load(root) != history[1].Load(root);
    FreshExactly(history);
  }
}
