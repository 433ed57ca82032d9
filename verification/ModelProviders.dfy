/** The lifecycle of a model-provider instance: what create, update and validate write, and what
    the run-time resolver may rely on. */
module ModelProviders {
  import opened Strings

  datatype Status = Draft | Ready | Invalid | Disabled

  datatype ConfiguredModel = ConfiguredModel(modelId: string, enabled: bool, contextWindow: Option<nat>)

  datatype Instance = Instance(providerCode: string, status: Status, configuredModels: seq<ConfiguredModel>,
                               enabledModelIds: seq<string>, includedInMain: bool)

  // ----- normalizing the models ---------------------------------------------------------------

  /** Ids trimmed, blank and repeated ones dropped, in order of first use. */
  function NormalizedIds(ids: seq<string>): seq<string> {
    if ids == [] then []
    else
      var before, id := NormalizedIds(ids[..|ids| - 1]), Trim(ids[|ids| - 1]);
      if id == "" || id in before then before else before + [id]
  }

  function ModelIds(models: seq<ConfiguredModel>): (ids: seq<string>)
    ensures |ids| == |models| && forall i | 0 <= i < |ids| :: ids[i] == models[i].modelId
  {
    if models == [] then [] else [models[0].modelId] + ModelIds(models[1..])
  }

  /** The first model of each id, under its trimmed id. */
  function NormalizedModels(models: seq<ConfiguredModel>): seq<ConfiguredModel> {
    if models == [] then []
    else
      var before, last := NormalizedModels(models[..|models| - 1]), models[|models| - 1];
      var id := Trim(last.modelId);
      if id == "" || id in ModelIds(before) then before else before + [last.(modelId := id)]
  }

  function AllEnabled(ids: seq<string>): (models: seq<ConfiguredModel>)
    ensures |models| == |ids| && forall i | 0 <= i < |ids| :: models[i] == ConfiguredModel(ids[i], true, None)
  {
    if ids == [] then [] else [ConfiguredModel(ids[0], true, None)] + AllEnabled(ids[1..])
  }

  /** The models an input stands for: those given, or the given ids all enabled. */
  function ModelsFor(models: seq<ConfiguredModel>, ids: seq<string>): seq<ConfiguredModel> {
    if models == [] then AllEnabled(NormalizedIds(ids)) else NormalizedModels(models)
  }

  method NormalizeEnabledModelIds(ids: seq<string>) returns (normalized: seq<string>)
    ensures normalized == NormalizedIds(ids)
  {
    normalized := [];
    var seen: set<string> := {};
    for i := 0 to |ids|
      invariant normalized == NormalizedIds(ids[..i]) && forall x :: x in seen <==> x in normalized
    {
      assert ids[..i + 1][..i] == ids[..i];
      var trimmed := Trim(ids[i]);
      if trimmed == "" || trimmed in seen {
        continue;
      }
      seen := seen + {trimmed};
      normalized := normalized + [trimmed];
    }
    assert ids[..|ids|] == ids;
  }

  method NormalizeConfiguredModels(models: seq<ConfiguredModel>, ids: seq<string>)
    returns (normalized: seq<ConfiguredModel>)
    ensures normalized == ModelsFor(models, ids)
    ensures models != [] ==> exists at: seq<nat> :: KeepsFirst(normalized, models, at)
    ensures models == [] ==>
              && |normalized| == |NormalizedIds(ids)|
              && forall i | 0 <= i < |normalized| :: normalized[i] == ConfiguredModel(NormalizedIds(ids)[i], true, None)
  {
    if models == [] {
      var normalizedIds := NormalizeEnabledModelIds(ids);
      normalized := AllEnabled(normalizedIds);
      return;
    }
    ghost var at := FirstsKept(models);
    normalized := [];
    var seen: set<string> := {};
    for i := 0 to |models|
      invariant normalized == NormalizedModels(models[..i]) && forall x :: x in seen <==> x in ModelIds(normalized)
    {
      assert models[..i + 1][..i] == models[..i];
      var trimmed := Trim(models[i].modelId);
      if trimmed == "" || trimmed in seen {
        continue;
      }
      seen := seen + {trimmed};
      ModelIdsSnoc(normalized, models[i].(modelId := trimmed));
      normalized := normalized + [models[i].(modelId := trimmed)];
    }
    assert models[..|models|] == models;
  }

  lemma ModelIdsSnoc(models: seq<ConfiguredModel>, m: ConfiguredModel)
    ensures ModelIds(models + [m]) == ModelIds(models) + [m.modelId]
  {
  }

  /** No earlier model has the same id, and it is not blank. */
  predicate IsFirst(models: seq<ConfiguredModel>, j: nat)
    requires j < |models|
  {
    && Trim(models[j].modelId) != ""
    && forall i | 0 <= i < j :: Trim(models[i].modelId) != Trim(models[j].modelId)
  }

  /** The first model of each id is kept, in order, under its trimmed id and with everything else as
      it was; `at` says which models these are. */
  ghost predicate KeepsFirst(kept: seq<ConfiguredModel>, models: seq<ConfiguredModel>, at: seq<nat>) {
    && |at| == |kept|
    && (forall i | 0 <= i < |at| :: at[i] < |models| && IsFirst(models, at[i]))
    && (forall i | 0 <= i < |at| :: kept[i] == models[at[i]].(modelId := Trim(models[at[i]].modelId)))
    && (forall i, j | 0 <= i < j < |at| :: at[i] < at[j])
    && (forall j: nat | j < |models| && IsFirst(models, j) :: j in at)
  }

  lemma {:induction false} FirstsKept(models: seq<ConfiguredModel>) returns (at: seq<nat>)
    ensures KeepsFirst(NormalizedModels(models), models, at)
  {
    hide Trim, KeepsFirst;
    if models == [] {
      at := [];
      assert KeepsFirst([], [], []) by { NoneFirst(); }
    } else {
      var n := |models| - 1;
      var first, last := models[..n], models[n];
      at := FirstsKept(first);
      assert models == first + [last];
      var kept := NormalizedModels(first);
      KeptIds(kept, first, at, Trim(last.modelId));
      if Trim(last.modelId) == "" || Trim(last.modelId) in ModelIds(kept) {
        FirstsSame(kept, first, at, last);
      } else {
        FirstsNext(kept, first, at, last);
        at := at + [n];
      }
    }
  }

  lemma NoneFirst()
    ensures KeepsFirst([], [], [])
  {
  }

  /** The ids kept are those used. */
  lemma {:induction false} KeptIds(kept: seq<ConfiguredModel>, models: seq<ConfiguredModel>, at: seq<nat>, id: string)
    requires KeepsFirst(kept, models, at)
    ensures id != "" ==> (id in ModelIds(kept) <==> exists i | 0 <= i < |models| :: Trim(models[i].modelId) == id)
  {
    hide Trim;
    if id in ModelIds(kept) {
      var i :| 0 <= i < |kept| && kept[i].modelId == id;
      assert Trim(models[at[i]].modelId) == id;
    }
    if id != "" && exists i | 0 <= i < |models| :: Trim(models[i].modelId) == id {
      var j := FirstUse(models, id);
      var i :| 0 <= i < |at| && at[i] == j;
      assert ModelIds(kept)[i] == id;
    }
  }

  lemma FirstUse(models: seq<ConfiguredModel>, id: string) returns (j: nat)
    requires id != "" && exists i | 0 <= i < |models| :: Trim(models[i].modelId) == id
    ensures j < |models| && IsFirst(models, j) && Trim(models[j].modelId) == id
  {
    hide Trim;
    j := 0;
    while Trim(models[j].modelId) != id
      invariant j < |models| && forall i | 0 <= i < j :: Trim(models[i].modelId) != id
      invariant exists i | j <= i < |models| :: Trim(models[i].modelId) == id
      decreases |models| - j
    {
      j := j + 1;
    }
  }

  lemma FirstsSame(kept: seq<ConfiguredModel>, models: seq<ConfiguredModel>, at: seq<nat>, last: ConfiguredModel)
    requires KeepsFirst(kept, models, at)
    requires Trim(last.modelId) == "" || exists i | 0 <= i < |models| :: Trim(models[i].modelId) == Trim(last.modelId)
    ensures KeepsFirst(kept, models + [last], at)
  {
    hide Trim;
    var all := models + [last];
    assert forall i | 0 <= i < |models| :: all[i] == models[i];
    assert forall j: nat | j < |models| :: IsFirst(all, j) <==> IsFirst(models, j);
    assert !IsFirst(all, |models|);
  }

  lemma FirstsNext(kept: seq<ConfiguredModel>, models: seq<ConfiguredModel>, at: seq<nat>, last: ConfiguredModel)
    requires KeepsFirst(kept, models, at)
    requires Trim(last.modelId) != "" && forall i | 0 <= i < |models| :: Trim(models[i].modelId) != Trim(last.modelId)
    ensures KeepsFirst(kept + [last.(modelId := Trim(last.modelId))], models + [last], at + [|models|])
  {
    hide Trim;
    var all, places := models + [last], at + [|models|];
    assert forall i | 0 <= i < |models| :: all[i] == models[i];
    assert forall j: nat | j < |models| :: IsFirst(all, j) <==> IsFirst(models, j);
    assert IsFirst(all, |models|) && places[|at|] == |models|;
    assert forall j :: j in places <==> j in at || j == |models|;
  }

  predicate Distinct(ids: seq<string>) {
    forall i, j | 0 <= i < j < |ids| :: ids[i] != ids[j]
  }

  lemma {:induction false} NormalizedIdsDistinct(ids: seq<string>)
    ensures Distinct(NormalizedIds(ids))
  {
    if ids != [] {
      NormalizedIdsDistinct(ids[..|ids| - 1]);
    }
  }

  /** The normalized list holds each trimmed non-blank id, and no other. */
  lemma {:induction false} NormalizedIdsExact(ids: seq<string>, x: string)
    ensures x in NormalizedIds(ids) <==> x != "" && exists i | 0 <= i < |ids| :: Trim(ids[i]) == x
  {
    if ids != [] {
      var n := |ids| - 1;
      var first, last := ids[..n], ids[n];
      NormalizedIdsExact(first, x);
      assert forall i | 0 <= i < n :: ids[i] == first[i];
      if Trim(last) == x {
        assert Trim(ids[n]) == x;
      }
    }
  }

  /** Normalizing keeps the order of first use: before the first use of an id there is no use of
      any id listed later. */
  lemma {:induction false} NormalizedIdsInOrder(ids: seq<string>, i: nat, j: nat) returns (p: nat)
    requires i < j < |NormalizedIds(ids)|
    ensures p < |ids| && Trim(ids[p]) == NormalizedIds(ids)[i]
    ensures forall q | 0 <= q <= p :: Trim(ids[q]) != NormalizedIds(ids)[j]
  {
    var n := |ids| - 1;
    var before := NormalizedIds(ids[..n]);
    if j < |before| {
      p := NormalizedIdsInOrder(ids[..n], i, j);
      assert forall q | 0 <= q <= p :: ids[q] == ids[..n][q];
    } else {
      NormalizedIdsExact(ids[..n], before[i]);
      NormalizedIdsExact(ids[..n], Trim(ids[n]));
      p :| 0 <= p < n && Trim(ids[..n][p]) == before[i];
      assert forall q | 0 <= q < n :: ids[q] == ids[..n][q];
    }
  }

  lemma {:induction false} NormalizedModelsDistinct(models: seq<ConfiguredModel>)
    ensures Distinct(ModelIds(NormalizedModels(models))) && "" !in ModelIds(NormalizedModels(models))
  {
    if models != [] {
      var n := |models| - 1;
      NormalizedModelsDistinct(models[..n]);
      ModelIdsSnoc(NormalizedModels(models[..n]), models[n].(modelId := Trim(models[n].modelId)));
    }
  }

  lemma ModelsForDistinct(models: seq<ConfiguredModel>, ids: seq<string>)
    ensures Distinct(ModelIds(ModelsFor(models, ids))) && "" !in ModelIds(ModelsFor(models, ids))
  {
    NormalizedModelsDistinct(models);
    NormalizedIdsExact(ids, "");
    NormalizedIdsDistinct(ids);
    assert ModelIds(AllEnabled(NormalizedIds(ids))) == NormalizedIds(ids);
  }

  /** `configured_models_to_enabled_model_ids`. */
  function EnabledIds(models: seq<ConfiguredModel>): seq<string> {
    if models == [] then []
    else (if models[0].enabled then [models[0].modelId] else []) + EnabledIds(models[1..])
  }

  /** An id is enabled exactly when some model with that id is. */
  lemma {:induction false} EnabledIdsExact(models: seq<ConfiguredModel>, x: string)
    ensures x in EnabledIds(models) <==> exists m | m in models :: m.enabled && m.modelId == x
  {
    if models != [] {
      EnabledIdsExact(models[1..], x);
      assert models == [models[0]] + models[1..];
    }
  }

  lemma {:induction false} EnabledAmongIds(models: seq<ConfiguredModel>, x: string)
    requires x in EnabledIds(models)
    ensures x in ModelIds(models)
  {
    if models[0].modelId != x {
      EnabledAmongIds(models[1..], x);
    }
  }

  lemma {:induction false} EnabledIdsDistinct(models: seq<ConfiguredModel>)
    requires Distinct(ModelIds(models))
    ensures Distinct(EnabledIds(models))
  {
    if models != [] {
      var ids, rest := ModelIds(models), ModelIds(models[1..]);
      assert ids == [models[0].modelId] + rest;
      assert forall i | 0 <= i < |rest| :: rest[i] == ids[i + 1];
      EnabledIdsDistinct(models[1..]);
      if models[0].modelId in EnabledIds(models[1..]) {
        EnabledAmongIds(models[1..], models[0].modelId);
      }
    }
  }

  /** The enabled ids stand in the order of the models. */
  lemma {:induction false} EnabledIdsInOrder(models: seq<ConfiguredModel>) returns (at: seq<nat>)
    ensures Selects(EnabledIds(models), ModelIds(models), at)
    ensures forall j: nat :: j in at <==> j < |models| && models[j].enabled
  {
    if models == [] {
      at := [];
    } else {
      hide Selects;
      var rest := EnabledIdsInOrder(models[1..]);
      var later := OneLater(rest);
      at := if models[0].enabled then [0] + later else later;
      assert forall j: nat | 0 < j < |models| :: models[j] == models[1..][j - 1];
      NoneFirstLater(EnabledIds(models[1..]), later);
      SelectsLater(EnabledIds(models[1..]), ModelIds(models[1..]), rest, later, models[0].modelId);
      assert ModelIds(models) == [models[0].modelId] + ModelIds(models[1..]);
    }
  }

  lemma NoneFirstLater(ids: seq<string>, later: seq<nat>)
    ensures [] + ids == ids && forall j :: j in [0] + later <==> j == 0 || j in later
  {
  }

  lemma {:induction false} OneLater(at: seq<nat>) returns (later: seq<nat>)
    ensures |later| == |at| && forall i | 0 <= i < |at| :: later[i] == at[i] + 1
    ensures forall j: nat :: j in later <==> j > 0 && j - 1 in at
  {
    if at == [] {
      later := [];
    } else {
      var rest := OneLater(at[1..]);
      later := [at[0] + 1] + rest;
      assert at == [at[0]] + at[1..];
    }
  }

  lemma SelectsLater(picked: seq<string>, from: seq<string>, at: seq<nat>, later: seq<nat>, x: string)
    requires Selects(picked, from, at)
    requires |later| == |at| && forall i | 0 <= i < |at| :: later[i] == at[i] + 1
    ensures Selects(picked, [x] + from, later) && Selects([x] + picked, [x] + from, [0] + later)
  {
  }

  // ----- status -------------------------------------------------------------------------------------

  function DeriveStatus(disabled: bool, enabledModelIds: seq<string>): Status {
    if disabled then Disabled else if enabledModelIds == [] then Draft else Ready
  }

  /** `ensure_model_provider_instance_transition`. */
  predicate TransitionAllowed(from: Status, to: Status) {
    (from, to) in {(Draft, Draft), (Draft, Ready), (Draft, Invalid), (Ready, Draft), (Ready, Ready), (Ready, Invalid),
                   (Invalid, Draft), (Invalid, Ready), (Invalid, Invalid), (Disabled, Disabled)}
  }

  // ----- runs of the writers ---------------------------------------------------------------------

  /** The stored instances, and the operations that have read one and not yet written. */
  datatype State = State(instances: map<nat, Instance>, pending: map<nat, Read>)

  datatype Read = Read(id: nat, existing: Instance)

  datatype Step =
    | Create(id: nat, providerCode: string, models: seq<ConfiguredModel>, ids: seq<string>, included: bool)
    | Begin(op: nat, id: nat)
    | Update(op: nat, models: seq<ConfiguredModel>, ids: seq<string>, included: bool)
    | ValidateOk(op: nat)
    | ValidateFailed(op: nat)
    | Disable(id: nat) // by whoever administers the stored records

  /** The operation whose read the step writes back. */
  function Writer(step: Step): Option<nat> {
    match step
    case Update(op, _, _, _) => Some(op)
    case ValidateOk(op) => Some(op)
    case ValidateFailed(op) => Some(op)
    case _ => None
  }

  /** What an update writes over the instance it read, if the transition is allowed. */
  function Updated(existing: Instance, models: seq<ConfiguredModel>, ids: seq<string>, included: bool)
    : Option<Instance>
  {
    var configured := ModelsFor(models, ids);
    var enabled := EnabledIds(configured);
    var next := DeriveStatus(existing.status == Disabled, enabled);
    if TransitionAllowed(existing.status, next)
    then Some(Instance(existing.providerCode, next, configured, enabled, included))
    else None
  }

  /** What a validation that reached the provider writes. */
  function Validated(existing: Instance): Option<Instance> {
    var next := DeriveStatus(false, existing.enabledModelIds);
    if TransitionAllowed(existing.status, Ready) && TransitionAllowed(existing.status, next)
    then Some(existing.(status := next)) else None
  }

  /** What a validation that failed after its first check writes. */
  function Failed(existing: Instance): Option<Instance> {
    if TransitionAllowed(existing.status, Ready) && TransitionAllowed(existing.status, Invalid)
    then Some(existing.(status := Invalid)) else None
  }

  /** Write over whatever is stored by now; a refused write stores nothing. */
  function Write(s: State, op: nat, written: Option<Instance>): State
    requires op in s.pending
  {
    match written
    case Some(instance) => State(s.instances[s.pending[op].id := instance], s.pending - {op})
    case None => s.(pending := s.pending - {op})
  }

  function Next(s: State, step: Step): Option<State> {
    match step
    case Create(id, providerCode, models, ids, included) =>
      if id in s.instances then None
      else
        var configured := ModelsFor(models, ids);
        var enabled := EnabledIds(configured);
        var created := Instance(providerCode, DeriveStatus(false, enabled), configured, enabled, included);
        Some(s.(instances := s.instances[id := created]))
    case Begin(op, id) =>
      if op in s.pending || id !in s.instances then None
      else Some(s.(pending := s.pending[op := Read(id, s.instances[id])]))
    case Update(op, models, ids, included) =>
      if op !in s.pending then None else Some(Write(s, op, Updated(s.pending[op].existing, models, ids, included)))
    case ValidateOk(op) =>
      // A later failure of the same validation may still write, so its read stays.
      if op !in s.pending then None
      else Some(Write(s, op, Validated(s.pending[op].existing)).(pending := s.pending))
    case ValidateFailed(op) => if op !in s.pending then None else Some(Write(s, op, Failed(s.pending[op].existing)))
    case Disable(id) =>
      if id !in s.instances then None
      else Some(s.(instances := s.instances[id := s.instances[id].(status := Disabled)]))
  }

  /** Status and models agree. */
  predicate Consistent(i: Instance) {
    && i.enabledModelIds == EnabledIds(i.configuredModels)
    && Distinct(i.enabledModelIds) && "" !in i.enabledModelIds
    && (i.status == Ready ==> i.enabledModelIds != [])
    && (i.status == Draft ==> i.enabledModelIds == [])
  }

  predicate AllConsistent(s: State) {
    && (forall id | id in s.instances :: Consistent(s.instances[id]))
    && (forall op | op in s.pending :: Consistent(s.pending[op].existing))
  }

  lemma ModelsConsistent(code: string, models: seq<ConfiguredModel>, ids: seq<string>, included: bool, disabled: bool)
    ensures var configured := ModelsFor(models, ids);
            var enabled := EnabledIds(configured);
            Consistent(Instance(code, DeriveStatus(disabled, enabled), configured, enabled, included))
  {
    hide ModelsFor, EnabledIds;
    var configured := ModelsFor(models, ids);
    ModelsForDistinct(models, ids);
    EnabledIdsDistinct(configured);
    if "" in EnabledIds(configured) {
      EnabledAmongIds(configured, "");
    }
  }

  lemma StepKeepsConsistent(s: State, step: Step, s': State)
    requires AllConsistent(s) && Next(s, step) == Some(s')
    ensures AllConsistent(s')
  {
    hide ModelsFor, EnabledIds, Distinct, TransitionAllowed;
    match step
    case Create(id, code, models, ids, included) => ModelsConsistent(code, models, ids, included, false);
    case Begin(op, id) =>
    case Update(op, models, ids, included) =>
      var existing := s.pending[op].existing;
      ModelsConsistent(existing.providerCode, models, ids, included, existing.status == Disabled);
    case ValidateOk(op) =>
    case ValidateFailed(op) =>
    case Disable(id) =>
  }

  ghost predicate IsRun(states: seq<State>, steps: seq<Step>) {
    && |states| == |steps| + 1 && states[0] == State(map[], map[])
    && forall i | 0 <= i < |steps| :: Next(states[i], steps[i]) == Some(states[i + 1])
  }

  /** In every state of every interleaving of the writers, stale reads included. */
  lemma {:induction false} RunConsistent(states: seq<State>, steps: seq<Step>, n: nat)
    requires IsRun(states, steps) && n < |states|
    ensures AllConsistent(states[n])
  {
    if n > 0 {
      RunConsistent(states, steps, n - 1);
      assert Next(states[n - 1], steps[n - 1]) == Some(states[n]);
      StepKeepsConsistent(states[n - 1], steps[n - 1], states[n]);
    }
  }

  // ----- what an input offers ---------------------------------------------------------------------

  /** The models and ids of an input offer a model: among given models the first with that id is
      enabled; without any, the id is among the given ones. */
  ghost predicate Offers(models: seq<ConfiguredModel>, ids: seq<string>, model: string) {
    if models == [] then model != "" && exists i | 0 <= i < |ids| :: Trim(ids[i]) == model
    else exists j: nat | j < |models| :: IsFirst(models, j) && Trim(models[j].modelId) == model && models[j].enabled
  }

  lemma OfferedIsEnabled(models: seq<ConfiguredModel>, ids: seq<string>, model: string)
    ensures model in EnabledIds(ModelsFor(models, ids)) <==> Offers(models, ids, model)
  {
    hide Trim, NormalizedIds, NormalizedModels, EnabledIds;
    var configured := ModelsFor(models, ids);
    EnabledIdsExact(configured, model);
    if models == [] {
      NormalizedIdsExact(ids, model);
      AllEnabledHas(NormalizedIds(ids), model);
    } else {
      var at := FirstsKept(models);
      KeptOffers(configured, models, at, model);
    }
  }

  lemma AllEnabledHas(ids: seq<string>, model: string)
    ensures (exists m | m in AllEnabled(ids) :: m.enabled && m.modelId == model) <==> model in ids
  {
    if model in ids {
      var i :| 0 <= i < |ids| && ids[i] == model;
      assert AllEnabled(ids)[i].modelId == model && AllEnabled(ids)[i] in AllEnabled(ids);
    }
  }

  lemma KeptOffers(kept: seq<ConfiguredModel>, models: seq<ConfiguredModel>, at: seq<nat>, model: string)
    requires KeepsFirst(kept, models, at)
    ensures (exists m | m in kept :: m.enabled && m.modelId == model)
            <==> exists j: nat | j < |models| ::
              IsFirst(models, j) && Trim(models[j].modelId) == model && models[j].enabled
  {
    hide Trim, IsFirst;
    if m :| m in kept && m.enabled && m.modelId == model {
      var i :| 0 <= i < |kept| && kept[i] == m;
      assert IsFirst(models, at[i]) && models[at[i]].enabled;
    }
    if j: nat :| j < |models| && IsFirst(models, j) && Trim(models[j].modelId) == model && models[j].enabled {
      var i :| 0 <= i < |at| && at[i] == j;
      assert kept[i] in kept;
    }
  }

  /** What a create or an enabled update stores: ready exactly when the input offers some model. */
  ghost predicate StoresInput(
    i: Instance, providerCode: string, models: seq<ConfiguredModel>, ids: seq<string>, included: bool) {
    && i.providerCode == providerCode && i.includedInMain == included && i.configuredModels == ModelsFor(models, ids)
    && i.status == (if exists model :: Offers(models, ids, model) then Ready else Draft)
    && forall model :: model in i.enabledModelIds <==> Offers(models, ids, model)
  }

  lemma InputStored(code: string, models: seq<ConfiguredModel>, ids: seq<string>, included: bool)
    ensures var configured := ModelsFor(models, ids);
            var enabled := EnabledIds(configured);
            StoresInput(Instance(code, DeriveStatus(false, enabled), configured, enabled, included),
                        code, models, ids, included)
  {
    hide ModelsFor, EnabledIds, Offers;
    var enabled := EnabledIds(ModelsFor(models, ids));
    forall model ensures model in enabled <==> Offers(models, ids, model) {
      OfferedIsEnabled(models, ids, model);
    }
    SomeElement(enabled);
  }

  /** After a create, and after an update of an instance that was read enabled, the resolver accepts
      exactly what the input offers, when the input includes the instance. */
  lemma InputAccepted(
    i: Instance, code: string, models: seq<ConfiguredModel>, ids: seq<string>, included: bool,
    providerCode: string, model: string, installed: bool)
    requires StoresInput(i, code, models, ids, included)
    ensures Accepts(i, providerCode, model, installed)
            <==> installed && included && providerCode == code && Offers(models, ids, model)
  {
    hide Offers;
  }

  /** What each step stores, given what it read. */
  lemma StepStores(s: State, step: Step, s': State)
    requires Next(s, step) == Some(s')
    ensures s'.pending == match step
                          case Begin(op, id) =>
                            if id in s.instances then s.pending[op := Read(id, s.instances[id])] else s.pending
                          case Update(op, _, _, _) => s.pending - {op}
                          case ValidateFailed(op) => s.pending - {op}
                          case _ => s.pending
    ensures step.Begin? ==> step.op !in s.pending && s'.instances == s.instances
    ensures match step
            case Create(id, code, models, ids, included) =>
              && id !in s.instances && id in s'.instances && s'.instances == s.instances[id := s'.instances[id]]
              && StoresInput(s'.instances[id], code, models, ids, included)
            case Begin(op, id) => id in s.instances
            case Update(op, models, ids, included) =>
              && op in s.pending && s.pending[op].id in s'.instances
              && s'.instances == s.instances[s.pending[op].id := s'.instances[s.pending[op].id]]
              && var read, written := s.pending[op].existing, s'.instances[s.pending[op].id];
              if read.status == Disabled then
                && written.status == Disabled && written.includedInMain == included
                && written.providerCode == read.providerCode && written.configuredModels == ModelsFor(models, ids)
              else StoresInput(written, read.providerCode, models, ids, included)
            case ValidateOk(op) =>
              && op in s.pending
              && var read := s.pending[op];
              s'.instances
              == if read.existing.status == Disabled then s.instances
                 else s.instances[read.id := read.existing.(status :=
                                    if read.existing.enabledModelIds == [] then Draft else Ready)]
            case ValidateFailed(op) =>
              && op in s.pending
              && var read := s.pending[op];
              s'.instances
              == if read.existing.status == Disabled then s.instances
                 else s.instances[read.id := read.existing.(status := Invalid)]
            case Disable(id) =>
              id in s.instances && s'.instances == s.instances[id := s.instances[id].(status := Disabled)]
  {
    hide ModelsFor, EnabledIds, StoresInput, Offers;
    match step
    case Create(id, code, models, ids, included) => InputStored(code, models, ids, included);
    case Update(op, models, ids, included) => InputStored(s.pending[op].existing.providerCode, models, ids, included);
    case _ =>
  }

  /** The instance holds the models and the inclusion that the step was given. */
  ghost predicate GivenBy(i: Instance, step: Step) {
    match step
    case Create(_, code, models, ids, included) =>
      i.providerCode == code && i.configuredModels == ModelsFor(models, ids) && i.includedInMain == included
    case Update(_, models, ids, included) =>
      i.configuredModels == ModelsFor(models, ids) && i.includedInMain == included
    case _ => false
  }

  ghost predicate AllGiven(s: State, steps: seq<Step>) {
    && (forall id | id in s.instances :: GivenBySome(s.instances[id], steps))
    && (forall op | op in s.pending :: GivenBySome(s.pending[op].existing, steps))
  }

  ghost predicate GivenBySome(i: Instance, steps: seq<Step>) {
    exists k | 0 <= k < |steps| :: GivenBy(i, steps[k])
  }

  lemma GivenLater(i: Instance, status: Status, steps: seq<Step>, step: Step)
    requires GivenBySome(i, steps)
    ensures GivenBySome(i.(status := status), steps + [step])
  {
    var k :| 0 <= k < |steps| && GivenBy(i, steps[k]);
    assert (steps + [step])[k] == steps[k];
    assert GivenBy(i.(status := status), steps[k]);
  }

  /** What a step writes is what it was given, or what it read with another status. */
  lemma StepWrites(s: State, step: Step, s': State, id: nat)
    requires Next(s, step) == Some(s') && id in s'.instances
    ensures var i := s'.instances[id];
            || GivenBy(i, step)
            || (id in s.instances && i == s.instances[id].(status := i.status))
            || (Writer(step).Some? && Writer(step).value in s.pending
                && i == s.pending[Writer(step).value].existing.(status := i.status))
  {
    hide ModelsFor, EnabledIds, DeriveStatus, TransitionAllowed;
  }

  lemma StepReads(s: State, step: Step, s': State, op: nat)
    requires Next(s, step) == Some(s') && op in s'.pending
    ensures (op in s.pending && s'.pending[op] == s.pending[op])
            || (s'.pending[op].id in s.instances && s'.pending[op].existing == s.instances[s'.pending[op].id])
  {
    hide Updated, Validated, Failed, ModelsFor, EnabledIds;
  }

  lemma GivenStep(s: State, step: Step, s': State, steps: seq<Step>)
    requires AllGiven(s, steps) && Next(s, step) == Some(s')
    ensures AllGiven(s', steps + [step])
  {
    hide Next, GivenBy, GivenBySome;
    forall id | id in s'.instances ensures GivenBySome(s'.instances[id], steps + [step]) {
      var i := s'.instances[id];
      StepWrites(s, step, s', id);
      if GivenBy(i, step) {
        GivenNow(i, steps, step);
      } else if id in s.instances && i == s.instances[id].(status := i.status) {
        GivenLater(s.instances[id], i.status, steps, step);
      } else {
        GivenLater(s.pending[Writer(step).value].existing, i.status, steps, step);
      }
    }
    forall op | op in s'.pending ensures GivenBySome(s'.pending[op].existing, steps + [step]) {
      StepReads(s, step, s', op);
      var read := s'.pending[op].existing;
      GivenLater(read, read.status, steps, step);
    }
  }

  lemma GivenNow(i: Instance, steps: seq<Step>, step: Step)
    requires GivenBy(i, step)
    ensures GivenBySome(i, steps + [step])
  {
    assert (steps + [step])[|steps|] == step;
  }

  lemma OneMore(steps: seq<Step>, n: nat)
    requires n < |steps|
    ensures steps[..n + 1] == steps[..n] + [steps[n]]
  {
  }

  lemma NothingGiven()
    ensures AllGiven(State(map[], map[]), [])
  {
  }

  lemma {:induction false} RunGiven(states: seq<State>, steps: seq<Step>, n: nat)
    requires IsRun(states, steps) && n < |states|
    ensures AllGiven(states[n], steps[..n])
  {
    hide Next, AllGiven, GivenBySome;
    if n == 0 {
      NothingGiven();
    } else {
      RunGiven(states, steps, n - 1);
      StepOf(states, steps, n - 1);
      OneMore(steps, n - 1);
      GivenStep(states[n - 1], steps[n - 1], states[n], steps[..n - 1]);
    }
  }

  /** In every reachable state the resolver accepts a model only if some create or update before
      offered it and included the instance. */
  lemma AcceptedWasOffered(
    states: seq<State>, steps: seq<Step>, n: nat, id: nat, providerCode: string, model: string, installed: bool)
    returns (k: nat)
    requires IsRun(states, steps) && n < |states| && id in states[n].instances
    requires Accepts(states[n].instances[id], providerCode, model, installed)
    ensures k < n && (steps[k].Create? || steps[k].Update?) && steps[k].included
    ensures Offers(steps[k].models, steps[k].ids, model) && GivenBy(states[n].instances[id], steps[k])
  {
    hide Offers, ModelsFor, EnabledIds;
    var i := states[n].instances[id];
    RunGiven(states, steps, n);
    RunConsistent(states, steps, n);
    assert GivenBySome(i, steps[..n]);
    k :| k < n && GivenBy(i, steps[..n][k]);
    OfferedIsEnabled(steps[k].models, steps[k].ids, model);
  }

  // ----- disabled instances ------------------------------------------------------------------------------------

  /** Nothing is written over a disabled record, and no disabled one over another. */
  predicate WritesEnabled(existing: Instance, written: Option<Instance>) {
    if existing.status == Disabled then written == None else written.Some? && written.value.status != Disabled
  }

  /** An update writes a disabled record if and only if it read one; validations never do. */
  lemma WritesAsRead(existing: Instance, step: Step)
    ensures match step
            case Update(_, models, ids, included) =>
              var written := Updated(existing, models, ids, included);
              written.Some? && (written.value.status == Disabled <==> existing.status == Disabled)
            case _ => true
    ensures WritesEnabled(existing, Validated(existing)) && WritesEnabled(existing, Failed(existing))
  {
    hide ModelsFor, EnabledIds;
  }

  predicate IsDisabled(s: State, id: nat) {
    id in s.instances && s.instances[id].status == Disabled
  }

  /** A step brings a disabled instance back exactly when it writes what was read before. */
  lemma RevivesFromRead(s: State, step: Step, s': State, id: nat)
    requires Next(s, step) == Some(s') && IsDisabled(s, id)
    ensures !IsDisabled(s', id)
            <==> Writer(step).Some? && s.pending[Writer(step).value].id == id
                 && s.pending[Writer(step).value].existing.status != Disabled
  {
    hide Updated, Validated, Failed;
    if Writer(step).Some? {
      var existing := s.pending[Writer(step).value].existing;
      WritesAsRead(existing, step);
    }
  }

  /** The operation read the instance in step `b` and still holds that read in state `n`. */
  ghost predicate HoldsRead(states: seq<State>, steps: seq<Step>, op: nat, id: nat, b: nat, n: nat) {
    && b < n < |states| && |states| == |steps| + 1
    && steps[b] == Begin(op, id) && id in states[b].instances
    && forall k | b < k <= n :: op in states[k].pending && states[k].pending[op] == Read(id, states[b].instances[id])
  }

  lemma {:induction false} ReadWasTaken(states: seq<State>, steps: seq<Step>, op: nat, n: nat) returns (b: nat)
    requires IsRun(states, steps) && n < |states| && op in states[n].pending
    ensures HoldsRead(states, steps, op, states[n].pending[op].id, b, n)
  {
    hide Updated, Validated, Failed, ModelsFor, EnabledIds;
    var m := n - 1;
    assert Next(states[m], steps[m]) == Some(states[n]);
    if steps[m].Begin? && steps[m].op == op {
      b := m;
    } else {
      ReadKept(states[m], steps[m], states[n], op);
      b := ReadWasTaken(states, steps, op, m);
    }
  }

  lemma ReadKept(s: State, step: Step, s': State, op: nat)
    requires Next(s, step) == Some(s') && op in s'.pending && !(step.Begin? && step.op == op)
    ensures op in s.pending && s.pending[op] == s'.pending[op]
  {
    hide Updated, Validated, Failed, ModelsFor, EnabledIds;
  }

  /** In every run a step brings a disabled instance back if and only if it writes over it from a
      read taken while the instance was not disabled; and then it was disabled in between. */
  lemma RevivesExactly(states: seq<State>, steps: seq<Step>, n: nat, id: nat)
    requires IsRun(states, steps) && n < |steps| && IsDisabled(states[n], id)
    ensures !IsDisabled(states[n + 1], id)
            <==> Writer(steps[n]).Some?
                 && exists b: nat ::
                      HoldsRead(states, steps, Writer(steps[n]).value, id, b, n) && !IsDisabled(states[b], id)
    ensures !IsDisabled(states[n + 1], id)
            ==> exists b: nat, d: nat ::
                  && HoldsRead(states, steps, Writer(steps[n]).value, id, b, n) && !IsDisabled(states[b], id)
                  && b < d < n && !IsDisabled(states[d], id) && IsDisabled(states[d + 1], id)
  {
    hide Next, IsRun;
    StepOf(states, steps, n);
    RevivesFromRead(states[n], steps[n], states[n + 1], id);
    if Writer(steps[n]).Some? {
      var op := Writer(steps[n]).value;
      WriterPending(states[n], steps[n], states[n + 1]);
      if !IsDisabled(states[n + 1], id) {
        var b := ReadWasTaken(states, steps, op, n);
        assert states[n].pending[op] == Read(id, states[b].instances[id]);
        BeginChangesNothing(states, steps, b);
        var d := DisabledBetween(states, b + 1, n, id);
      }
    }
  }

  lemma StepOf(states: seq<State>, steps: seq<Step>, n: nat)
    requires IsRun(states, steps) && n < |steps|
    ensures |states| == |steps| + 1 && Next(states[n], steps[n]) == Some(states[n + 1])
  {
  }

  lemma WriterPending(s: State, step: Step, s': State)
    requires Next(s, step) == Some(s') && Writer(step).Some?
    ensures Writer(step).value in s.pending
  {
  }

  lemma BeginChangesNothing(states: seq<State>, steps: seq<Step>, b: nat)
    requires IsRun(states, steps) && b < |steps| && steps[b].Begin?
    ensures states[b + 1].instances == states[b].instances
  {
    StepOf(states, steps, b);
  }

  lemma {:induction false} DisabledBetween(states: seq<State>, from: nat, to: nat, id: nat) returns (d: nat)
    requires from <= to < |states| && !IsDisabled(states[from], id) && IsDisabled(states[to], id)
    ensures from <= d < to && !IsDisabled(states[d], id) && IsDisabled(states[d + 1], id)
    decreases |states| - from
  {
    assert from != to;
    if IsDisabled(states[from + 1], id) {
      d := from;
    } else {
      d := DisabledBetween(states, from + 1, to, id);
    }
  }

  /** Without a disabling step no record, stored or read, is ever disabled. */
  lemma {:induction false} NeverDisabledUnasked(states: seq<State>, steps: seq<Step>, n: nat)
    requires IsRun(states, steps) && n < |states|
    requires forall k | 0 <= k < |steps| :: !steps[k].Disable?
    ensures forall id | id in states[n].instances :: states[n].instances[id].status != Disabled
    ensures forall op | op in states[n].pending :: states[n].pending[op].existing.status != Disabled
  {
    if n > 0 {
      hide Updated, Validated, Failed, ModelsFor, EnabledIds;
      NeverDisabledUnasked(states, steps, n - 1);
      var s, step := states[n - 1], steps[n - 1];
      assert Next(s, step) == Some(states[n]);
      if Writer(step).Some? {
        WritesAsRead(s.pending[Writer(step).value].existing, step);
      }
    }
  }

  /** Reviving does happen: an update that read before the disabling and writes after it. */
  lemma StaleUpdateRevives(code: string, models: seq<ConfiguredModel>, ids: seq<string>)
    returns (states: seq<State>, steps: seq<Step>)
    ensures IsRun(states, steps) && |steps| == 4 && IsDisabled(states[3], 0) && !IsDisabled(states[4], 0)
  {
    hide ModelsFor, EnabledIds;
    steps := [Create(0, code, models, ids, true), Begin(0, 0), Disable(0), Update(0, models, ids, true)];
    var s0 := State(map[], map[]);
    var s1 := Next(s0, steps[0]).value;
    var s2 := Next(s1, steps[1]).value;
    var s3 := Next(s2, steps[2]).value;
    var s4 := Next(s3, steps[3]).value;
    states := [s0, s1, s2, s3, s4];
  }

  // ----- the resolver ----------------------------------------------------------------------------------------

  /** The checks of `resolve_llm_instance` on the instance; `installed` stands for those on the
      plugin installation and its assignment. */
  predicate Accepts(i: Instance, providerCode: string, model: string, installed: bool) {
    && i.providerCode == providerCode && i.status == Ready && i.includedInMain && installed
    && (i.enabledModelIds == [] || model in i.enabledModelIds)
  }

  /** The resolver accepts only models the instance's configuration enables. */
  lemma AcceptedIsEnabled(
    states: seq<State>, steps: seq<Step>, n: nat, id: nat, providerCode: string, model: string, installed: bool)
    requires IsRun(states, steps) && n < |states| && id in states[n].instances
    requires Accepts(states[n].instances[id], providerCode, model, installed)
    ensures var i := states[n].instances[id];
            && model in i.enabledModelIds
            && exists m | m in i.configuredModels :: m.enabled && m.modelId == model
  {
    RunConsistent(states, steps, n);
    EnabledIdsExact(states[n].instances[id].configuredModels, model);
  }

  /** The check alone does not give that: a ready instance without enabled models accepts any. */
  lemma EmptyListAcceptsAny(i: Instance, model: string)
    requires i.status == Ready && i.includedInMain && i.enabledModelIds == []
    ensures Accepts(i, i.providerCode, model, true)
  {
  }
}
