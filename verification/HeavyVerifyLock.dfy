/** The lock that keeps two heavy verification runs from overlapping: a directory published by
    an atomic rename, cleaned when its owner is dead, re-entered by token, waited for with a
    timeout. A transition system over any number of acquisitions in any number of processes;
    every file-system call of an acquisition is a step of its own, so others act in between. */
module HeavyVerifyLock {
  import opened Strings

  /** The part of `owner.json` decisions depend on. */
  datatype Owner = Owner(token: string, pid: nat)

  datatype Config = Config(waitTimeoutMs: nat, pollIntervalMs: nat) {
    predicate Valid() {
      waitTimeoutMs > 0 && pollIntervalMs > 0
    }
  }

  /** Where an acquisition, or the handle it ended with, stands. */
  datatype Phase =
    | Looking                 // about to test whether the lock directory exists
    | Reading                 // the directory was there (or the rename collided): about to read the owner
    | Cleaning                // judged stale: about to remove the directory
    | Publishing              // no directory seen: about to rename the staging directory
    | Sleeping(until: nat)
    | Holding                 // has the non-reentrant handle, not yet released
    | Releasing               // found its own record, or none: about to remove the directory
    | Reentrant               // has a handle whose release does nothing
    | Released
    | TimedOut
    | Crashed

  datatype Client = Client(pid: nat, token: string, startedAt: nat, phase: Phase, sleeps: nat) {
    /** The record this acquisition publishes. */
    function Record(): Owner {
      Owner(token, pid)
    }

    /** Has the non-reentrant handle and has not finished releasing it. */
    predicate Owns() {
      phase == Holding || phase == Releasing
    }
  }

  /** The lock directory (its owner record, if the directory exists), the acquisitions so far,
      the live processes and the clock. */
  datatype State = State(dir: Option<Owner>, clients: map<nat, Client>, alive: set<nat>, clock: nat) {
    predicate In(c: nat, phase: Phase) {
      c in clients && clients[c].phase == phase
    }

    predicate HeldBy(c: nat) {
      c in clients && clients[c].Owns()
    }

    function Move(c: nat, phase: Phase): State
      requires c in clients
    {
      this.(clients := clients[c := clients[c].(phase := phase)])
    }
  }

  datatype Step =
    | Spawn(pid: nat)
    | Crash(pid: nat)
    | Tick(ms: nat)
    | Start(c: nat, pid: nat, token: string)
    | Look(c: nat)
    | Read(c: nat)
    | Clean(c: nat)
    | Publish(c: nat)
    | Wake(c: nat)
    | Release(c: nat)
    | Remove(c: nat)

  const INITIAL := State(None, map[], {}, 0)

  // ----- steps ----------------------------------------------------------------------------

  /** What one read of the owner record decides. */
  function AfterRead(s: State, config: Config, c: nat): State
    requires c in s.clients
  {
    var client := s.clients[c];
    if s.dir.None? then s.Move(c, Cleaning)
    else if s.dir.value.token == client.token then s.Move(c, Reentrant)
    else if s.dir.value.pid !in s.alive then s.Move(c, Cleaning)
    else if s.clock >= client.startedAt + config.waitTimeoutMs then s.Move(c, TimedOut)
    else
      var asleep := client.(phase := Sleeping(s.clock + config.pollIntervalMs), sleeps := client.sleeps + 1);
      s.(clients := s.clients[c := asleep])
  }

  /** What `removeHeavyVerifyLock` decides from one read of the owner record, on a first release. */
  function AfterRelease(s: State, c: nat): State
    requires c in s.clients
  {
    if s.dir.Some? && s.dir.value.token != s.clients[c].token then s.Move(c, Released) else s.Move(c, Releasing)
  }

  function CrashClient(client: Client, pid: nat): Client {
    if client.pid == pid then client.(phase := Crashed) else client
  }

  function Next(s: State, config: Config, step: Step): Option<State> {
    match step
    case Spawn(pid) => if pid in s.alive then None else Some(s.(alive := s.alive + {pid}))
    case Crash(pid) =>
      if pid !in s.alive then None
      else Some(s.(alive := s.alive - {pid}, clients := map c | c in s.clients :: CrashClient(s.clients[c], pid)))
    case Tick(ms) => Some(s.(clock := s.clock + ms))
    case Start(c, pid, token) =>
      if c in s.clients || pid !in s.alive then None
      else Some(s.(clients := s.clients[c := Client(pid, token, s.clock, Looking, 0)]))
    case Look(c) =>
      if !s.In(c, Looking) then None
      else Some(s.Move(c, if s.dir.Some? then Reading else Publishing))
    case Read(c) => if !s.In(c, Reading) then None else Some(AfterRead(s, config, c))
    case Clean(c) => if !s.In(c, Cleaning) then None else Some(s.Move(c, Looking).(dir := None))
    case Publish(c) =>
      if !s.In(c, Publishing) then None
      else if s.dir.Some? then Some(s.Move(c, Reading))
      else Some(s.Move(c, Holding).(dir := Some(s.clients[c].Record())))
    case Wake(c) =>
      if c in s.clients && s.clients[c].phase.Sleeping? && s.clients[c].phase.until <= s.clock then
        Some(s.Move(c, Looking))
      else None
    case Release(c) =>
      if s.In(c, Holding) then Some(AfterRelease(s, c))
      else if s.In(c, Reentrant) || s.In(c, Releasing) || s.In(c, Released) then Some(s)
      else None
    case Remove(c) => if !s.In(c, Releasing) then None else Some(s.Move(c, Released).(dir := None))
  }

  /** A run: states, and the step between each two. */
  ghost predicate IsRun(config: Config, states: seq<State>, steps: seq<Step>) {
    && |states| == |steps| + 1 && states[0] == INITIAL
    && forall i | 0 <= i < |steps| :: Next(states[i], config, steps[i]) == Some(states[i + 1])
  }

  // ----- mutual exclusion --------------------------------------------------------------------

  /** Whoever holds the lock non-reentrantly is alive and alone, and the published record is his. */
  ghost predicate Exclusive(s: State) {
    && (forall c | c in s.clients :: s.clients[c].phase == Crashed || s.clients[c].pid in s.alive)
    && (forall c | c in s.clients && s.clients[c].Owns() :: s.dir == Some(s.clients[c].Record()))
    && (forall c, d | c in s.clients && d in s.clients && s.clients[c].Owns() && s.clients[d].Owns() :: c == d)
  }

  ghost predicate SomeoneHolds(s: State) {
    exists c :: s.HeldBy(c)
  }

  /** The directory judged stale is removed only after a live process has taken it. */
  ghost predicate LateRemoval(s: State, step: Step) {
    step.Clean? && SomeoneHolds(s)
  }

  /** From an exclusive state, a step loses exclusion exactly when it is a late removal. */
  lemma StepExclusive(s: State, config: Config, step: Step, s': State)
    requires Exclusive(s) && Next(s, config, step) == Some(s')
    ensures Exclusive(s') <==> !LateRemoval(s, step)
  {
    hide Next, Exclusive, SomeoneHolds;
    match step
    case Clean(c) => CleanExclusive(s, config, c, s');
    case Remove(c) => RemoveExclusive(s, config, c, s');
    case Publish(c) => PublishExclusive(s, config, c, s');
    case Crash(pid) => CrashExclusive(s, config, pid, s');
    case Read(c) => ReadExclusive(s, config, c, s');
    case _ => QuietExclusive(s, config, step, s');
  }

  /** A step that leaves the directory alone and makes nobody an owner. */
  lemma NoNewOwner(s: State, s': State)
    requires Exclusive(s) && s'.dir == s.dir && s'.alive == s.alive
    requires forall c | c in s'.clients :: c in s.clients || (!s'.clients[c].Owns() && s'.clients[c].pid in s.alive)
    requires forall c | c in s'.clients && c in s.clients ::
               && s'.clients[c].Record() == s.clients[c].Record()
               && (s'.clients[c].Owns() ==> s.clients[c].Owns())
               && (s.clients[c].phase == Crashed ==> s'.clients[c].phase == Crashed)
    ensures Exclusive(s')
  {
  }

  lemma QuietExclusive(s: State, config: Config, step: Step, s': State)
    requires Exclusive(s) && Next(s, config, step) == Some(s')
    requires step.Spawn? || step.Tick? || step.Start? || step.Look? || step.Wake? || step.Release?
    ensures Exclusive(s')
  {
    if !step.Spawn? {
      hide Exclusive;
      NoNewOwner(s, s');
    }
  }

  lemma CleanExclusive(s: State, config: Config, c: nat, s': State)
    requires Exclusive(s) && Next(s, config, Clean(c)) == Some(s')
    ensures Exclusive(s') <==> !SomeoneHolds(s)
  {
    if SomeoneHolds(s) {
      var h :| s.HeldBy(h);
      assert s'.HeldBy(h) && s'.dir == None;
    } else {
      assert forall d | d in s'.clients && s'.clients[d].Owns() :: s.HeldBy(d);
    }
  }

  lemma PublishExclusive(s: State, config: Config, c: nat, s': State)
    requires Exclusive(s) && Next(s, config, Publish(c)) == Some(s')
    ensures Exclusive(s')
  {
  }

  lemma CrashExclusive(s: State, config: Config, pid: nat, s': State)
    requires Exclusive(s) && Next(s, config, Crash(pid)) == Some(s')
    ensures Exclusive(s')
  {
    assert forall c | c in s'.clients && s'.clients[c].Owns() :: s.clients[c] == s'.clients[c];
  }

  lemma ReadExclusive(s: State, config: Config, c: nat, s': State)
    requires Exclusive(s) && Next(s, config, Read(c)) == Some(s')
    ensures Exclusive(s')
  {
    hide Exclusive;
    NoNewOwner(s, s');
  }

  lemma RemoveExclusive(s: State, config: Config, c: nat, s': State)
    requires Exclusive(s) && Next(s, config, Remove(c)) == Some(s')
    ensures Exclusive(s')
  {
    forall d | d in s'.clients ensures !s'.clients[d].Owns() {
      assert d != c ==> s'.clients[d] == s.clients[d];
      assert d == c ==> s'.clients[d].phase == Released;
    }
  }

  /** Mutual exclusion over whole runs: it holds in every state up to the first late removal. */
  lemma {:induction false} RunExclusive(config: Config, states: seq<State>, steps: seq<Step>, n: nat)
    requires IsRun(config, states, steps) && n < |states|
    requires forall i | 0 <= i < n :: !LateRemoval(states[i], steps[i])
    ensures Exclusive(states[n])
  {
    if n > 0 {
      RunExclusive(config, states, steps, n - 1);
      StepExclusive(states[n - 1], config, steps[n - 1], states[n]);
    }
  }

  /** The first late removal of a run does end exclusion. */
  lemma FirstLateRemoval(config: Config, states: seq<State>, steps: seq<Step>, n: nat)
    requires IsRun(config, states, steps) && n < |steps|
    requires LateRemoval(states[n], steps[n])
    requires forall i | 0 <= i < n :: !LateRemoval(states[i], steps[i])
    ensures Exclusive(states[n]) && !Exclusive(states[n + 1])
  {
    RunExclusive(config, states, steps, n);
    StepExclusive(states[n], config, steps[n], states[n + 1]);
  }

  /** What a late removal permits: three steps later the remover holds the lock as well. */
  lemma LateRemovalAdmitsSecond(s: State, config: Config, c: nat, h: nat)
    requires s.In(c, Cleaning) && s.In(h, Holding)
    ensures exists s1, s2, s3 ::
              && Next(s, config, Clean(c)) == Some(s1) && Next(s1, config, Look(c)) == Some(s2)
              && Next(s2, config, Publish(c)) == Some(s3)
              && s3.In(c, Holding) && s3.In(h, Holding) && c != h
  {
    var s1 := Next(s, config, Clean(c)).value;
    var s2 := Next(s1, config, Look(c)).value;
    var s3 := Next(s2, config, Publish(c)).value;
    assert s3.In(c, Holding) && s3.In(h, Holding);
  }

  /** The state after some steps, if each is possible. */
  function Play(s: State, config: Config, steps: seq<Step>): Option<State> {
    if steps == [] then Some(s)
    else
      var before := Play(s, config, steps[..|steps| - 1]);
      if before.None? then None else Next(before.value, config, steps[|steps| - 1])
  }

  lemma PlayStep(s: State, config: Config, steps: seq<Step>, mid: State, step: Step)
    requires Play(s, config, steps) == Some(mid)
    ensures Play(s, config, steps + [step]) == Next(mid, config, step)
  {
    assert (steps + [step])[..|steps|] == steps;
  }

  lemma PlayNothing(s: State, config: Config)
    ensures Play(s, config, []) == Some(s)
  {
  }

  lemma {:induction false} RunOf(config: Config, steps: seq<Step>) returns (states: seq<State>)
    requires Play(INITIAL, config, steps).Some?
    ensures IsRun(config, states, steps) && states[|steps|] == Play(INITIAL, config, steps).value
    decreases |steps|
  {
    if steps == [] {
      states := [INITIAL];
    } else {
      var n := |steps| - 1;
      var before := RunOf(config, steps[..n]);
      states := before + [Play(INITIAL, config, steps).value];
      forall i | 0 <= i < |steps| ensures Next(states[i], config, steps[i]) == Some(states[i + 1]) {
        if i < n {
          RunStep(config, before, steps[..n], i);
        }
      }
    }
  }

  /** Acquisition 0 takes the lock. */
  lemma TakesFirst(config: Config) returns (steps: seq<Step>, s: State)
    ensures Play(INITIAL, config, steps) == Some(s)
    ensures s == State(Some(Owner("a", 1)), map[0 := Client(1, "a", 0, Holding, 0)], {1}, 0)
  {
    hide Play;
    steps := [];
    PlayNothing(INITIAL, config);
    var s0 := INITIAL.(alive := {} + {1});
    PlayStep(INITIAL, config, steps, INITIAL, Spawn(1));
    var s1 := s0.(clients := s0.clients[0 := Client(1, "a", 0, Looking, 0)]);
    PlayStep(INITIAL, config, [] + [Spawn(1)], s0, Start(0, 1, "a"));
    steps := [] + [Spawn(1)] + [Start(0, 1, "a")];
    var s2 := s1.Move(0, Publishing);
    PlayStep(INITIAL, config, steps, s1, Look(0));
    s := s2.Move(0, Holding).(dir := Some(Owner("a", 1)));
    PlayStep(INITIAL, config, steps + [Look(0)], s2, Publish(0));
    steps := steps + [Look(0)] + [Publish(0)];
  }

  /** Then acquisition 1 finds the directory there, and 0 releases it. */
  lemma ReadsAfterRelease(config: Config) returns (steps: seq<Step>, s: State)
    ensures Play(INITIAL, config, steps) == Some(s)
    ensures s.dir == None && s.In(1, Reading) && 2 !in s.clients && 1 in s.alive
  {
    hide Play;
    var s3;
    steps, s3 := TakesFirst(config);
    var s4 := s3.(clients := s3.clients[1 := Client(1, "b", 0, Looking, 0)]);
    PlayStep(INITIAL, config, steps, s3, Start(1, 1, "b"));
    var s5 := s4.Move(1, Reading);
    PlayStep(INITIAL, config, steps + [Start(1, 1, "b")], s4, Look(1));
    steps := steps + [Start(1, 1, "b")] + [Look(1)];
    var s6 := s5.Move(0, Releasing);
    PlayStep(INITIAL, config, steps, s5, Release(0));
    s := s6.Move(0, Released).(dir := None);
    PlayStep(INITIAL, config, steps + [Release(0)], s6, Remove(0));
    steps := steps + [Release(0)] + [Remove(0)];
  }

  /** Late removals do happen when the read and the removal are apart: an acquisition finds the
      directory, the holder releases it, the acquisition reads no owner, another takes the lock,
      and the first then removes it. No process needs to die. */
  lemma LateRemovalHappens(config: Config)
    ensures exists states, steps, n: nat ::
              IsRun(config, states, steps) && n < |steps| && LateRemoval(states[n], steps[n])
  {
    hide Play;
    var steps, s := ReadsAfterRelease(config);
    var s1 := s.Move(1, Cleaning);
    PlayStep(INITIAL, config, steps, s, Read(1));
    var s2 := s1.(clients := s1.clients[2 := Client(1, "c", s.clock, Looking, 0)]);
    PlayStep(INITIAL, config, steps + [Read(1)], s1, Start(2, 1, "c"));
    steps := steps + [Read(1)] + [Start(2, 1, "c")];
    var s3 := s2.Move(2, Publishing);
    PlayStep(INITIAL, config, steps, s2, Look(2));
    var s4 := s3.Move(2, Holding).(dir := Some(Owner("c", 1)));
    PlayStep(INITIAL, config, steps + [Look(2)], s3, Publish(2));
    steps := steps + [Look(2)] + [Publish(2)];
    PlayStep(INITIAL, config, steps, s4, Clean(1));
    var states := RunOf(config, steps + [Clean(1)]);
    LastButOne(config, states, steps, Clean(1), s4);
    assert s4.HeldBy(2);
    assert LateRemoval(states[|steps|], (steps + [Clean(1)])[|steps|]);
  }

  lemma {:induction false} RunDetermined(config: Config, states: seq<State>, steps: seq<Step>, n: nat)
    requires IsRun(config, states, steps) && n <= |steps|
    ensures Play(INITIAL, config, steps[..n]) == Some(states[n])
  {
    if n > 0 {
      RunDetermined(config, states, steps, n - 1);
      assert steps[..n][..n - 1] == steps[..n - 1];
      RunStep(config, states, steps, n - 1);
    }
  }

  lemma LastButOne(config: Config, states: seq<State>, steps: seq<Step>, step: Step, s: State)
    requires IsRun(config, states, steps + [step]) && Play(INITIAL, config, steps) == Some(s)
    ensures states[|steps|] == s
  {
    RunDetermined(config, states, steps + [step], |steps|);
    assert (steps + [step])[..|steps|] == steps;
  }

  /** When each removal directly follows the read that judged the directory stale, no removal is late. */
  ghost predicate CleansAtOnce(steps: seq<Step>) {
    forall i | 0 <= i < |steps| && steps[i].Clean? :: i > 0 && steps[i - 1] == Read(steps[i].c)
  }

  lemma {:induction false} AtomicCleaningIsNeverLate(config: Config, states: seq<State>, steps: seq<Step>, n: nat)
    requires IsRun(config, states, steps) && CleansAtOnce(steps) && n < |states|
    ensures Exclusive(states[n])
    ensures n < |steps| ==> !LateRemoval(states[n], steps[n])
  {
    hide Next, Exclusive, SomeoneHolds;
    if n == 0 {
      InitiallyExclusive();
    } else {
      AtomicCleaningIsNeverLate(config, states, steps, n - 1);
      RunStep(config, states, steps, n - 1);
      StepExclusive(states[n - 1], config, steps[n - 1], states[n]);
      if n < |steps| && steps[n].Clean? {
        RunStep(config, states, steps, n);
        CleansWhenJudged(states[n], config, steps[n].c, states[n + 1]);
        JudgedStale(states[n - 1], config, steps[n].c, states[n]);
      }
    }
  }

  lemma InitiallyExclusive()
    ensures Exclusive(INITIAL)
  {
  }

  lemma CleansWhenJudged(s: State, config: Config, c: nat, s': State)
    requires Next(s, config, Clean(c)) == Some(s')
    ensures s.In(c, Cleaning)
  {
  }

  lemma RunStep(config: Config, states: seq<State>, steps: seq<Step>, i: nat)
    requires IsRun(config, states, steps) && i < |steps|
    ensures Next(states[i], config, steps[i]) == Some(states[i + 1])
  {
  }

  /** Right after a read judged the directory stale, nobody holds the lock. */
  lemma JudgedStale(s: State, config: Config, c: nat, s': State)
    requires Exclusive(s) && Next(s, config, Read(c)) == Some(s') && s'.In(c, Cleaning)
    ensures !SomeoneHolds(s')
  {
    if SomeoneHolds(s') {
      var h :| s'.HeldBy(h);
      HolderUnchanged(s, config, c, s', h);
    }
  }

  lemma HolderUnchanged(s: State, config: Config, c: nat, s': State, h: nat)
    requires Next(s, config, Read(c)) == Some(s') && s'.HeldBy(h)
    ensures h in s.clients && s.clients[h] == s'.clients[h]
  {
  }

  // ----- why a removal is late ------------------------------------------------------------------

  lemma BeforeCleaning(s: State, config: Config, step: Step, s': State, c: nat)
    requires Next(s, config, step) == Some(s') && s'.In(c, Cleaning)
    ensures s.In(c, Cleaning) || step == Read(c)
  {
  }

  /** The read after which a client is about to remove the directory. */
  lemma {:induction false} LastRead(config: Config, states: seq<State>, steps: seq<Step>, n: nat, c: nat)
    returns (m: nat)
    requires IsRun(config, states, steps) && n < |states| && states[n].In(c, Cleaning)
    ensures m < n && steps[m] == Read(c) && forall i | m < i <= n :: states[i].In(c, Cleaning)
  {
    RunStep(config, states, steps, n - 1);
    BeforeCleaning(states[n - 1], config, steps[n - 1], states[n], c);
    if steps[n - 1] == Read(c) {
      m := n - 1;
    } else {
      m := LastRead(config, states, steps, n - 1, c);
    }
  }

  lemma BecomesOwner(s: State, config: Config, step: Step, s': State, h: nat)
    requires Next(s, config, step) == Some(s') && s'.HeldBy(h)
    ensures s.HeldBy(h) || step == Publish(h)
  {
  }

  lemma {:induction false} Published(config: Config, states: seq<State>, steps: seq<Step>, from: nat, n: nat, h: nat)
    returns (k: nat)
    requires IsRun(config, states, steps) && from <= n < |states| && !states[from].HeldBy(h) && states[n].HeldBy(h)
    ensures from <= k < n && steps[k] == Publish(h) && forall i | k < i <= n :: states[i].HeldBy(h)
  {
    assert from != n;
    RunStep(config, states, steps, n - 1);
    BecomesOwner(states[n - 1], config, steps[n - 1], states[n], h);
    if states[n - 1].HeldBy(h) {
      k := Published(config, states, steps, from, n - 1, h);
    } else {
      k := n - 1;
    }
  }

  /** At the first late removal of a run the holder published the directory after the remover's
      last read of it, and has held the lock since. */
  lemma PublishedSinceRead(config: Config, states: seq<State>, steps: seq<Step>, n: nat, h: nat)
    returns (m: nat, k: nat)
    requires IsRun(config, states, steps) && n < |steps| && steps[n].Clean? && states[n].HeldBy(h)
    requires forall i | 0 <= i < n :: !LateRemoval(states[i], steps[i])
    ensures m < k < n && steps[m] == Read(steps[n].c) && steps[k] == Publish(h)
    ensures forall i | m < i <= n :: states[i].In(steps[n].c, Cleaning)
    ensures forall i | k < i <= n :: states[i].HeldBy(h)
  {
    var c := steps[n].c;
    RunStep(config, states, steps, n);
    m := LastRead(config, states, steps, n, c);
    RunExclusive(config, states, steps, m);
    RunStep(config, states, steps, m);
    JudgedStale(states[m], config, c, states[m + 1]);
    assert !states[m + 1].HeldBy(h);
    k := Published(config, states, steps, m + 1, n, h);
  }

  // ----- how an acquisition ends ------------------------------------------------------------------

  /** A rename that collides leads where a look at the directory leads, to a read of its owner. */
  lemma CollisionLooks(s: State, config: Config, c: nat)
    requires s.In(c, Publishing) && s.dir.Some?
    ensures Next(s, config, Publish(c)) == Next(s.Move(c, Looking), config, Look(c)) == Some(s.Move(c, Reading))
  {
    assert s.Move(c, Looking).Move(c, Reading) == s.Move(c, Reading);
  }

  /** The read that ended an acquisition found a live owner with another token, past the deadline. */
  ghost predicate GaveUp(s: State, config: Config, c: nat) {
    && s.In(c, Reading) && s.dir.Some?
    && s.dir.value.token != s.clients[c].token && s.dir.value.pid in s.alive
    && s.clock >= s.clients[c].startedAt + config.waitTimeoutMs
  }

  lemma BeforeTimedOut(s: State, config: Config, step: Step, s': State, c: nat)
    requires Next(s, config, step) == Some(s') && s'.In(c, TimedOut)
    ensures s'.clock >= s.clock
    ensures if s.In(c, TimedOut) then s'.clients[c] == s.clients[c]
            else step == Read(c) && GaveUp(s, config, c) && s' == s.Move(c, TimedOut)
  {
  }

  /** In every run an acquisition gives up only by a read of its own that found the directory held by
      a live process with another token, no sooner than its deadline. */
  lemma {:induction false} TimedOutByRead(config: Config, states: seq<State>, steps: seq<Step>, n: nat, c: nat)
    returns (m: nat)
    requires IsRun(config, states, steps) && n < |states| && states[n].In(c, TimedOut)
    ensures m < n && steps[m] == Read(c) && GaveUp(states[m], config, c)
    ensures states[n].clients[c] == states[m].clients[c].(phase := TimedOut)
    ensures states[n].clock >= states[n].clients[c].startedAt + config.waitTimeoutMs
  {
    hide Next, GaveUp;
    RunStep(config, states, steps, n - 1);
    BeforeTimedOut(states[n - 1], config, steps[n - 1], states[n], c);
    if states[n - 1].In(c, TimedOut) {
      m := TimedOutByRead(config, states, steps, n - 1, c);
    } else {
      m := n - 1;
      PastDeadline(states[m], config, c);
    }
  }

  lemma PastDeadline(s: State, config: Config, c: nat)
    requires GaveUp(s, config, c)
    ensures c in s.clients && s.clock >= s.clients[c].startedAt + config.waitTimeoutMs
  {
  }

  lemma BeforeReentrant(s: State, config: Config, step: Step, s': State, c: nat)
    requires Next(s, config, step) == Some(s') && s'.In(c, Reentrant)
    ensures (s.In(c, Reentrant) && s'.clients[c] == s.clients[c])
            || (step == Read(c) && s.In(c, Reading) && s.dir.Some? && s.dir.value.token == s.clients[c].token)
  {
  }

  /** And it ends reentrant only by a read of its own that found its own token. */
  lemma {:induction false} ReentrantByRead(config: Config, states: seq<State>, steps: seq<Step>, n: nat, c: nat)
    returns (m: nat)
    requires IsRun(config, states, steps) && n < |states| && states[n].In(c, Reentrant)
    ensures m < n && steps[m] == Read(c) && states[m].In(c, Reading)
    ensures states[m].dir.Some? && states[m].dir.value.token == states[m].clients[c].token
  {
    hide Next;
    RunStep(config, states, steps, n - 1);
    BeforeReentrant(states[n - 1], config, steps[n - 1], states[n], c);
    if states[n - 1].In(c, Reentrant) {
      m := ReentrantByRead(config, states, steps, n - 1, c);
    } else {
      m := n - 1;
    }
  }

  /** The client whose step it is. */
  function Actor(step: Step): Option<nat> {
    match step
    case Spawn(_) => None
    case Crash(_) => None
    case Tick(_) => None
    case Start(c, _, _) => Some(c)
    case Look(c) => Some(c)
    case Read(c) => Some(c)
    case Clean(c) => Some(c)
    case Publish(c) => Some(c)
    case Wake(c) => Some(c)
    case Release(c) => Some(c)
    case Remove(c) => Some(c)
  }

  /** What a step leaves alone: other acquisitions, unless their process dies; the directory, unless
      it is published where there was none, or removed; and a dead process's directory stays. */
  lemma StepFrame(s: State, config: Config, step: Step, s': State, d: nat)
    requires Next(s, config, step) == Some(s') && d in s.clients
    ensures d in s'.clients && s'.clients[d].Record() == s.clients[d].Record()
    ensures Actor(step) != Some(d) ==>
              s'.clients[d] == if step == Crash(s.clients[d].pid) then s.clients[d].(phase := Crashed) else s.clients[d]
    ensures s'.dir == s.dir || (s'.dir == None && (step.Clean? || step.Remove?))
            || (s.dir == None && step.Publish? && s'.dir == Some(s.clients[step.c].Record()))
    ensures s'.alive == match step case Spawn(p) => s.alive + {p} case Crash(p) => s.alive - {p} case _ => s.alive
    ensures s'.clock == if step.Tick? then s.clock + step.ms else s.clock
  {
  }

  // ----- handles -------------------------------------------------------------------------------

  /** A release that found another's record, or a finished one, is never undone. */
  lemma StaysReleased(s: State, config: Config, step: Step, s': State, c: nat)
    requires Next(s, config, step) == Some(s') && (s.In(c, Released) || s.In(c, Crashed))
    ensures s'.In(c, Released) || s'.In(c, Crashed)
  {
  }

  lemma {:induction false} RunStaysReleased(
    config: Config, states: seq<State>, steps: seq<Step>, i: nat, n: nat, c: nat)
    requires IsRun(config, states, steps) && i <= n < |states|
             && (states[i].In(c, Released) || states[i].In(c, Crashed))
    ensures states[n].In(c, Released) || states[n].In(c, Crashed)
  {
    if i < n {
      RunStaysReleased(config, states, steps, i, n - 1, c);
      RunStep(config, states, steps, n - 1);
      StaysReleased(states[n - 1], config, steps[n - 1], states[n], c);
    }
  }

  /** A handle removes the directory at most once, however often it is released. */
  lemma RemovesOnce(config: Config, states: seq<State>, steps: seq<Step>, i: nat, j: nat, c: nat)
    requires IsRun(config, states, steps) && i < j < |steps| && steps[i] == Remove(c)
    ensures steps[j] != Remove(c)
  {
    RunStep(config, states, steps, i);
    RunStep(config, states, steps, j);
    RunStaysReleased(config, states, steps, i + 1, j, c);
  }

  lemma StaysLetGo(s: State, config: Config, step: Step, s': State, c: nat)
    requires Next(s, config, step) == Some(s') && c in s.clients
    requires s.clients[c].phase in {Reentrant, Releasing, Released, Crashed}
    ensures c in s'.clients && s'.clients[c].phase in {Reentrant, Releasing, Released, Crashed}
  {
  }

  lemma {:induction false} RunStaysLetGo(config: Config, states: seq<State>, steps: seq<Step>, i: nat, n: nat, c: nat)
    requires IsRun(config, states, steps) && i <= n < |states|
    requires c in states[i].clients && states[i].clients[c].phase in {Reentrant, Releasing, Released, Crashed}
    ensures c in states[n].clients && states[n].clients[c].phase in {Reentrant, Releasing, Released, Crashed}
  {
    if i < n {
      RunStaysLetGo(config, states, steps, i, n - 1, c);
      RunStep(config, states, steps, n - 1);
      StaysLetGo(states[n - 1], config, steps[n - 1], states[n], c);
    }
  }

  /** Every release of a handle after its first changes nothing. */
  lemma ReleasesOnce(config: Config, states: seq<State>, steps: seq<Step>, i: nat, j: nat, c: nat)
    requires IsRun(config, states, steps) && i < j < |steps| && steps[i] == Release(c) == steps[j]
    ensures states[j + 1] == states[j]
  {
    RunStep(config, states, steps, i);
    RunStep(config, states, steps, j);
    FirstRelease(states[i], config, c, states[i + 1]);
    RunStaysLetGo(config, states, steps, i + 1, j, c);
  }

  lemma FirstRelease(s: State, config: Config, c: nat, s': State)
    requires Next(s, config, Release(c)) == Some(s')
    ensures c in s'.clients && s'.clients[c].phase in {Reentrant, Releasing, Released, Crashed}
  {
  }

  lemma StaysReentrant(s: State, config: Config, step: Step, s': State, c: nat)
    requires Next(s, config, step) == Some(s') && (s.In(c, Reentrant) || s.In(c, Crashed))
    ensures s'.In(c, Reentrant) || s'.In(c, Crashed)
    ensures step != Remove(c) && (step == Release(c) ==> s' == s)
  {
  }

  /** A reentrant handle stays one, however often it is released, and never removes the directory. */
  lemma {:induction false} ReentrantNeverRemoves(
    config: Config, states: seq<State>, steps: seq<Step>, i: nat, n: nat, c: nat)
    requires IsRun(config, states, steps) && i <= n < |states|
    requires states[i].In(c, Reentrant) || states[i].In(c, Crashed)
    ensures states[n].In(c, Reentrant) || states[n].In(c, Crashed)
    ensures n < |steps| ==> steps[n] != Remove(c) && (steps[n] == Release(c) ==> states[n + 1] == states[n])
  {
    hide Next;
    if i < n {
      ReentrantNeverRemoves(config, states, steps, i, n - 1, c);
      RunStep(config, states, steps, n - 1);
      StaysReentrant(states[n - 1], config, steps[n - 1], states[n], c);
    }
    if n < |steps| {
      RunStep(config, states, steps, n);
      StaysReentrant(states[n], config, steps[n], states[n + 1], c);
    }
  }

  /** Up to the first late removal, a handle that removes the directory removes its own lock, which
      it still held, and touches no other acquisition. */
  lemma RemovesOwn(config: Config, states: seq<State>, steps: seq<Step>, n: nat, c: nat)
    requires IsRun(config, states, steps) && n < |steps| && steps[n] == Remove(c)
    requires forall i | 0 <= i < n :: !LateRemoval(states[i], steps[i])
    ensures states[n].HeldBy(c) && states[n].dir == Some(states[n].clients[c].Record()) && states[n + 1].dir == None
    ensures forall d | d in states[n].clients && d != c ::
              !states[n].HeldBy(d) && d in states[n + 1].clients && states[n + 1].clients[d] == states[n].clients[d]
  {
    RunExclusive(config, states, steps, n);
    RunStep(config, states, steps, n);
  }

  /** The release of a holder starts the removal exactly when no other token is in the directory;
      a reentrant or repeated release changes nothing. */
  lemma ReleaseEffect(s: State, config: Config, c: nat, s': State)
    requires Next(s, config, Release(c)) == Some(s')
    ensures s'.dir == s.dir
    ensures s.In(c, Holding) ==>
              if s.dir.None? || s.dir.value.token == s.clients[c].token then s'.In(c, Releasing)
              else s'.In(c, Released)
    ensures s.In(c, Holding) && Exclusive(s) ==> s'.In(c, Releasing) && Exclusive(s')
    ensures !s.In(c, Holding) ==> s' == s
    ensures forall d | d in s.clients && d != c :: d in s'.clients && s'.clients[d] == s.clients[d]
  {
  }

  // ----- waiting ---------------------------------------------------------------------------------

  /** Each sleep began before the deadline and lasted at least one poll interval. */
  ghost predicate WaitsBounded(s: State, config: Config) {
    forall c | c in s.clients :: ClientWaits(s.clients[c], s.clock, config)
  }

  predicate ClientWaits(client: Client, clock: nat, config: Config) {
    && (client.sleeps > 0 ==> (client.sleeps - 1) * config.pollIntervalMs < config.waitTimeoutMs)
    && (client.startedAt + client.sleeps * config.pollIntervalMs
       <= (match client.phase case Sleeping(until) => until case _ => clock)
       || client.phase == Crashed)
  }

  lemma StepWaits(s: State, config: Config, step: Step, s': State)
    requires config.Valid() && WaitsBounded(s, config) && Next(s, config, step) == Some(s')
    ensures WaitsBounded(s', config)
  {
  }

  lemma {:induction false} RunWaits(config: Config, states: seq<State>, steps: seq<Step>, n: nat)
    requires config.Valid() && IsRun(config, states, steps) && n < |states|
    ensures WaitsBounded(states[n], config)
  {
    if n > 0 {
      RunWaits(config, states, steps, n - 1);
      StepWaits(states[n - 1], config, steps[n - 1], states[n]);
    }
  }

  /** One acquisition sleeps at most ceil(waitTimeoutMs / pollIntervalMs) times. */
  lemma SleepsBounded(config: Config, states: seq<State>, steps: seq<Step>, n: nat, c: nat)
    requires config.Valid() && IsRun(config, states, steps) && n < |states| && c in states[n].clients
    ensures states[n].clients[c].sleeps <= CeilDiv(config.waitTimeoutMs, config.pollIntervalMs)
  {
    RunWaits(config, states, steps, n);
    assert ClientWaits(states[n].clients[c], states[n].clock, config);
    CeilBound(states[n].clients[c].sleeps, config.pollIntervalMs, config.waitTimeoutMs);
  }

  lemma CeilBound(k: nat, p: nat, w: nat)
    requires p > 0 && w > 0 && (k > 0 ==> (k - 1) * p < w)
    ensures k <= CeilDiv(w, p)
  {
    var q := (w + p - 1) / p;
    assert w + p - 1 < (q + 1) * p;
    if k > q {
      MulMonotone(q + 1, k, p);
    }
  }

  lemma MulMonotone(a: nat, b: nat, p: nat)
    requires a <= b
    ensures a * p <= b * p
  {
  }

  // ----- one acquisition, undisturbed ------------------------------------------------------------------

  lemma PositiveFactor(k: nat, p: nat)
    requires k * p > 0
    ensures k > 0
  {
  }

  function CeilDiv(a: nat, b: nat): nat
    requires b > 0
  {
    (a + b - 1) / b
  }

  lemma CeilReached(k: nat, p: nat, w: nat)
    requires p > 0 && w > 0 && k > 0 && (k - 1) * p < w <= k * p
    ensures k == CeilDiv(w, p)
  {
    var q := CeilDiv(w, p);
    assert q * p <= w + p - 1 < (q + 1) * p;
    CeilBound(k, p, w);
    if k < q {
      MulMonotone(k + 1, q, p);
    }
  }

  /** How an acquisition that nobody disturbs ends. */
  function Alone(s: State, token: string): Phase {
    if s.dir.None? || (s.dir.value.token != token && s.dir.value.pid !in s.alive) then Holding
    else if s.dir.value.token == token then Reentrant
    else TimedOut
  }

  /** At the head of the loop: as many polls have passed as the acquisition slept, none past the
      deadline, and only a stale directory is gone. */
  ghost predicate Waiting(start: State, config: Config, c: nat, pid: nat, token: string, s: State) {
    && c !in start.clients && c in s.clients && s.alive == start.alive
    && (forall d | d in start.clients :: d in s.clients && s.clients[d] == start.clients[d])
    && var client := s.clients[c];
       && client == Client(pid, token, start.clock, Looking, client.sleeps)
       && s.clock == start.clock + client.sleeps * config.pollIntervalMs
       && (client.sleeps > 0 ==> (client.sleeps - 1) * config.pollIntervalMs < config.waitTimeoutMs)
       && (client.sleeps > 0 ==> Alone(start, token) == TimedOut)
       && (s.dir == start.dir || (s.dir == None && Alone(start, token) == Holding))
  }

  /** What is left to wait for. */
  function Remaining(start: State, config: Config, s: State): nat {
    if s.dir.None? then 0
    else if s.dir.value.pid !in s.alive then 1
    else 2 + (if start.clock + config.waitTimeoutMs > s.clock then start.clock + config.waitTimeoutMs - s.clock else 0)
  }

  /** The end of an undisturbed acquisition. */
  ghost predicate Ended(start: State, config: Config, c: nat, pid: nat, token: string, phase: Phase, s: State)
    requires config.Valid()
  {
    && s.In(c, phase) && phase == Alone(start, token)
    && (phase == Holding ==> s.dir == Some(Owner(token, pid)) && s.clients[c].sleeps == 0)
    && (phase != Holding ==> s.dir == start.dir)
    && (phase == TimedOut ==> s.clients[c].sleeps == CeilDiv(config.waitTimeoutMs, config.pollIntervalMs))
    && (forall d | d in start.clients :: d in s.clients && s.clients[d] == start.clients[d])
  }

  lemma Begins(start: State, config: Config, c: nat, pid: nat, token: string)
    requires c !in start.clients && pid in start.alive
    ensures var s := Next(start, config, Start(c, pid, token));
            s.Some? && Waiting(start, config, c, pid, token, s.value)
  {
  }

  lemma TakesFree(start: State, config: Config, c: nat, pid: nat, token: string, s: State)
    requires config.Valid() && Waiting(start, config, c, pid, token, s) && s.dir.None?
    ensures var s1 := Next(s, config, Look(c));
            && s1.Some?
            && var s2 := Next(s1.value, config, Publish(c));
            s2.Some? && Ended(start, config, c, pid, token, Holding, s2.value)
  {
    hide CeilDiv;
  }

  lemma FindsDirectory(start: State, config: Config, c: nat, pid: nat, token: string, s: State)
    requires config.Valid() && Waiting(start, config, c, pid, token, s) && s.dir.Some?
    ensures var s1 := Next(s, config, Look(c));
            && s1.Some? && var s2 := Next(s1.value, config, Read(c));
            && s2.Some? && s1.value == s.Move(c, Reading)
            && s2.value == AfterRead(s1.value, config, c) && c in s2.value.clients
  {
  }

  lemma CleansStale(start: State, config: Config, c: nat, pid: nat, token: string, s: State, s2: State)
    requires config.Valid() && Waiting(start, config, c, pid, token, s) && s.dir.Some?
    requires s2 == AfterRead(s.Move(c, Reading), config, c) && s2.In(c, Cleaning)
    ensures var s3 := Next(s2, config, Clean(c));
            && s3.Some? && Waiting(start, config, c, pid, token, s3.value)
            && Remaining(start, config, s3.value) < Remaining(start, config, s)
  {
  }

  lemma SleepsOnce(start: State, config: Config, c: nat, pid: nat, token: string, s: State, s2: State)
    requires config.Valid() && Waiting(start, config, c, pid, token, s) && s.dir.Some?
    requires s2 == AfterRead(s.Move(c, Reading), config, c) && c in s2.clients && s2.clients[c].phase.Sleeping?
    ensures var s3 := Next(s2, config, Tick(config.pollIntervalMs));
            && s3.Some? && var s4 := Next(s3.value, config, Wake(c));
            && s4.Some? && Waiting(start, config, c, pid, token, s4.value)
            && Remaining(start, config, s4.value) < Remaining(start, config, s)
  {
    var k, p := s.clients[c].sleeps, config.pollIntervalMs;
    assert (k + 1) * p == k * p + p;
  }

  lemma GivesUpOrReenters(start: State, config: Config, c: nat, pid: nat, token: string, s: State, s2: State)
    requires config.Valid() && Waiting(start, config, c, pid, token, s) && s.dir.Some?
    requires s2 == AfterRead(s.Move(c, Reading), config, c) && c in s2.clients
    requires !s2.clients[c].phase.Sleeping? && s2.clients[c].phase != Cleaning
    ensures Ended(start, config, c, pid, token, s2.clients[c].phase, s2)
  {
    hide CeilDiv;
    if s2.clients[c].phase == TimedOut {
      PositiveFactor(s.clients[c].sleeps, config.pollIntervalMs);
      CeilReached(s.clients[c].sleeps, config.pollIntervalMs, config.waitTimeoutMs);
    }
  }

  class LockHost {
    var state: State

    constructor (state: State)
      ensures this.state == state
    {
      this.state := state;
    }

    /** One step, recorded. */
    method Do(config: Config, step: Step, ghost start: State, ghost steps: seq<Step>) returns (ghost more: seq<Step>)
      requires Play(start, config, steps) == Some(state) && Next(state, config, step).Some?
      modifies this
      ensures Some(state) == old(Next(state, config, step))
      ensures Play(start, config, more) == Some(state)
    {
      PlayStep(start, config, steps, state, step);
      more := steps + [step];
      state := Next(state, config, step).value;
    }

    /** The loop of `acquireHeavyVerifyLock` with no other process acting: a run of the transition
        system whose outcome depends on the owner found, sleeping as often as the bound allows
        before it gives up. */
    method Acquire(config: Config, c: nat, pid: nat, token: string) returns (phase: Phase, ghost steps: seq<Step>)
      requires config.Valid() && c !in state.clients && pid in state.alive
      modifies this
      ensures Play(old(state), config, steps) == Some(state)
      ensures Ended(old(state), config, c, pid, token, phase, state)
    {
      hide Play, Next, AfterRead, Waiting, Ended, Remaining;
      ghost var start := state;
      PlayNothing(start, config);
      Begins(start, config, c, pid, token);
      steps := Do(config, Start(c, pid, token), start, []);
      while true
        invariant Play(start, config, steps) == Some(state)
        invariant Waiting(start, config, c, pid, token, state)
        decreases Remaining(start, config, state)
      {
        ghost var s := state;
        var lockDirExists := state.dir.Some?;
        if !lockDirExists {
          TakesFree(start, config, c, pid, token, s);
          steps := Do(config, Look(c), start, steps);
          steps := Do(config, Publish(c), start, steps);
          return Holding, steps;
        }
        FindsDirectory(start, config, c, pid, token, s);
        steps := Do(config, Look(c), start, steps);
        steps := Do(config, Read(c), start, steps);
        var now := state.clients[c].phase;
        if now == Cleaning {
          CleansStale(start, config, c, pid, token, s, state);
          steps := Do(config, Clean(c), start, steps);
        } else if now.Sleeping? {
          SleepsOnce(start, config, c, pid, token, s, state);
          steps := Do(config, Tick(config.pollIntervalMs), start, steps);
          steps := Do(config, Wake(c), start, steps);
        } else {
          GivesUpOrReenters(start, config, c, pid, token, s, state);
          return now, steps;
        }
      }
    }
  }
}
