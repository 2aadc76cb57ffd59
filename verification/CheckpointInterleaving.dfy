/**
 * Checkpoints written by parallel agents, step by step: an agent reads the
 * newest commit, later writes its record, later prunes. Any number of agents
 * may be between two of these steps.
 */
module CheckpointInterleaving {
  import opened Options
  import opened CheckpointState
  import opened Retention
  import opened CheckpointStore
  import opened CheckpointRuns
  import Sums
  import Text

  type Agent = nat

  datatype Pending =
    | HasRead(kind: Kind, task: string, fields: Fields, unique: string, base: Option<ResumeState>)
    | HasWritten(kind: Kind, task: string)

  datatype Config = Config(world: World, agents: map<Agent, Pending>)

  datatype Step =
    | ReadBase(agent: Agent, kind: Kind, task: string, fields: Fields, unique: string)
    | Write(agent: Agent)
    | Prune(agent: Agent)
    | Whole(op: Op)

  const Initial := Config(World(map[], map[], 0, []), map[])

  /** What `Write` makes of what the agent has read. */
  function Built(w: World, p: Pending): Result<Checkpoint>
    requires p.HasRead?
  {
    NewCheckpoint(w, p.kind, p.task, p.fields, CheckpointIri(p.task, p.kind, p.unique), p.base)
  }

  function Appended(w: World, c: Checkpoint): World {
    World(w.store[c.iri := Stored(c)], w.contracts, w.clock + 1, w.history + [c])
  }

  function AfterWrite(x: Config, agent: Agent, p: Pending): Config
    requires p.HasRead?
  {
    var r := Built(x.world, p);
    if r.Err? then Config(x.world, x.agents - {agent})
    else Config(Appended(x.world, r.value), x.agents[agent := HasWritten(p.kind, p.task)])
  }

  /** One step of one agent; deletions and registrations happen at once. */
  ghost predicate Moves(x: Config, step: Step, x': Config) {
    match step
    case ReadBase(agent, kind, task, f, unique) =>
      && agent !in x.agents
      && exists base ::
           IsBase(x.world.store, task, base)
           && x' == x.(agents := x.agents[agent := HasRead(kind, task, f, unique, base)])
    case Write(agent) =>
      && agent in x.agents && x.agents[agent].HasRead?
      && var p := x.agents[agent];
         CheckpointIri(p.task, p.kind, p.unique) !in x.world.store && x' == AfterWrite(x, agent, p)
    case Prune(agent) =>
      && agent in x.agents && x.agents[agent].HasWritten?
      && var p := x.agents[agent];
         x' == Config(x.world.(store := Pruned(x.world.store, p.task, p.kind)), x.agents - {agent})
    case Whole(op) => !op.Create? && x'.agents == x.agents && Next(x.world, op, x'.world)
  }

  // ----- what every interleaving keeps -----

  ghost predicate GoodWorld(w: World, tasks: set<string>) {
    && Clocked(w.store, w.clock) && WellKeyed(w.store, tasks) && AllSound(w.store)
    && Remembered(w.store, w.history) && Provenance(w.history) && "" !in w.contracts
  }

  /** What an agent has read was committed at some time, even if it is no longer the newest or is gone. */
  ghost predicate GoodPending(p: Pending, history: seq<Checkpoint>, tasks: set<string>) {
    && p.task in tasks
    && (p.HasRead? ==>
          && CommittedBase(p.base)
          && (p.base.Some? ==> CommittedBefore(history, |history|, p.task, p.base.value)))
  }

  /** The agents that have written a record of the task and kind and not pruned yet. */
  function Writers(agents: map<Agent, Pending>, task: string, kind: Kind): set<Agent> {
    set a | a in agents && agents[a] == HasWritten(kind, task)
  }

  /** Retention is late by no more than the agents that have not pruned yet. */
  ghost predicate AlmostBounded(x: Config, tasks: set<string>) {
    forall t, kind :: t in tasks ==>
      |RecordTimes(x.world.store, t, kind)| <= MAX_CHECKPOINTS_PER_TASK + |Writers(x.agents, t, kind)|
  }

  ghost predicate Safe(x: Config, tasks: set<string>) {
    && GoodWorld(x.world, tasks)
    && (forall a :: a in x.agents ==> GoodPending(x.agents[a], x.world.history, tasks))
    && AlmostBounded(x, tasks)
  }

  predicate StepTaskIn(step: Step, tasks: set<string>) {
    step.ReadBase? ==> step.task in tasks
  }

  lemma HistoryGrows(p: Pending, history: seq<Checkpoint>, c: Checkpoint, tasks: set<string>)
    requires GoodPending(p, history, tasks)
    ensures GoodPending(p, history + [c], tasks)
  {
    if p.HasRead? && p.base.Some? {
      var j :| 0 <= j < |history| && history[j].kind == TaskRuntime && history[j].task == p.task
        && history[j].state == Some(p.base.value) && IsCommit(p.base.value.name);
      assert (history + [c])[j] == history[j];
    }
  }

  lemma ReadIsSafe(x: Config, step: Step, x': Config, tasks: set<string>)
    requires Safe(x, tasks) && step.ReadBase? && StepTaskIn(step, tasks) && Moves(x, step, x')
    ensures Safe(x', tasks)
  {
    hide GoodWorld, IsBase, CommittedBase, CommittedBefore, RecordTimes;
    var base :| IsBase(x.world.store, step.task, base)
      && x' == x.(agents := x.agents[step.agent := HasRead(step.kind, step.task, step.fields, step.unique, base)]);
    BaseIsGood(x.world, tasks, step.task, base);
    forall t, kind
      ensures Writers(x'.agents, t, kind) == Writers(x.agents, t, kind)
    {
    }
  }

  lemma BaseIsGood(w: World, tasks: set<string>, task: string, base: Option<ResumeState>)
    requires GoodWorld(w, tasks) && IsBase(w.store, task, base)
    ensures CommittedBase(base) && (base.Some? ==> CommittedBefore(w.history, |w.history|, task, base.value))
  {
    hide IsBase, CommittedBase, CommittedBefore, AllSound, Provenance, WellKeyed, Clocked, Remembered;
    BaseIsCommitted(w.store, task, base);
    if base.Some? {
      BaseWasCreated(w, task, base.value);
    }
  }

  lemma WriteKeepsWorld(w: World, p: Pending, tasks: set<string>)
    requires GoodWorld(w, tasks) && p.HasRead? && GoodPending(p, w.history, tasks)
    requires CheckpointIri(p.task, p.kind, p.unique) !in w.store && Built(w, p).Ok?
    ensures GoodWorld(Appended(w, Built(w, p).value), tasks)
    ensures Built(w, p).value.task == p.task && Built(w, p).value.kind == p.kind
    ensures Built(w, p).value.iri == CheckpointIri(p.task, p.kind, p.unique)
  {
    hide Clocked, WellKeyed, AllSound, Remembered, Provenance, Sound, Prefix, CheckpointIri, FromFields,
         CommittedBase, CommittedBefore, BuildsOn, IsCommit;
    var iri, c := CheckpointIri(p.task, p.kind, p.unique), Built(w, p).value;
    IriHasPrefix(p.task, p.kind, p.unique);
    NewRecordIsSound(w, p.kind, p.task, p.fields, iri, p.base);
    AddKeepsRecords(w, c, tasks);
    if p.kind == TaskRuntime && !IsCommit(p.fields.name) {
      NewRecordBuildsOnBase(w, p.task, p.fields, iri, p.base);
    }
    ProvenanceExtends(w.history, c, p.base);
  }

  lemma OneMoreWriter(agents: map<Agent, Pending>, a: Agent, p: Pending, task: string, kind: Kind)
    requires a in agents && agents[a].HasRead? && p.HasWritten?
    ensures |Writers(agents[a := p], task, kind)|
            == |Writers(agents, task, kind)| + (if p == HasWritten(kind, task) then 1 else 0)
  {
    assert Writers(agents[a := p], task, kind)
           == Writers(agents, task, kind) + (if p == HasWritten(kind, task) then {a} else {});
  }

  lemma OneMoreRecord(s: Store, c: Checkpoint, task: string, kind: Kind)
    requires c.iri !in s
    ensures |RecordTimes(s[c.iri := Stored(c)], task, kind)|
            <= |RecordTimes(s, task, kind)| + (if c.task == task && c.kind == kind then 1 else 0)
  {
    if c.task == task && c.kind == kind {
      AddedToRecords(s, c, task, kind);
      hide RecordTimes;
      var before, after := RecordTimes(s, task, kind), RecordTimes(s[c.iri := Stored(c)], task, kind);
      assert after.Keys == before.Keys + {c.iri};
      assert |after| == |after.Keys| && |before| == |before.Keys|;
    } else {
      AddedRecords(s, c, task, kind);
    }
  }

  lemma AddedToRecords(s: Store, c: Checkpoint, task: string, kind: Kind)
    requires c.iri !in s && c.task == task && c.kind == kind
    ensures RecordTimes(s[c.iri := Stored(c)], task, kind) == RecordTimes(s, task, kind)[c.iri := c.createdAt]
  {
  }

  lemma WriteIsSafe(x: Config, agent: Agent, x': Config, tasks: set<string>)
    requires Safe(x, tasks) && Moves(x, Write(agent), x')
    ensures Safe(x', tasks)
  {
    hide GoodWorld, GoodPending, RecordTimes, Built, Writers, CheckpointIri;
    var w, p := x.world, x.agents[agent];
    var r := Built(w, p);
    if r.Err? {
      forall t, kind
        ensures Writers(x'.agents, t, kind) == Writers(x.agents, t, kind)
      {
        NotAWriter(x.agents, agent, t, kind);
      }
    } else {
      WriteKeepsWorld(w, p, tasks);
      forall a | a in x'.agents
        ensures GoodPending(x'.agents[a], x'.world.history, tasks)
      {
        HistoryGrows(x.agents[a], w.history, r.value, tasks);
        WrittenIsGood(p, x'.world.history, w.history, tasks);
      }
      forall t, kind | t in tasks
        ensures |RecordTimes(x'.world.store, t, kind)| <= MAX_CHECKPOINTS_PER_TASK + |Writers(x'.agents, t, kind)|
      {
        OneMoreRecord(w.store, r.value, t, kind);
        OneMoreWriter(x.agents, agent, HasWritten(p.kind, p.task), t, kind);
      }
    }
  }

  lemma WrittenIsGood(p: Pending, later: seq<Checkpoint>, history: seq<Checkpoint>, tasks: set<string>)
    requires GoodPending(p, history, tasks)
    ensures GoodPending(HasWritten(p.kind, p.task), later, tasks)
  {
  }

  lemma NotAWriter(agents: map<Agent, Pending>, a: Agent, task: string, kind: Kind)
    requires a in agents && agents[a] != HasWritten(kind, task)
    ensures Writers(agents - {a}, task, kind) == Writers(agents, task, kind)
  {
  }

  lemma PruneIsSafe(x: Config, agent: Agent, x': Config, tasks: set<string>)
    requires Safe(x, tasks) && Separate(tasks) && Moves(x, Prune(agent), x')
    ensures Safe(x', tasks)
  {
    hide Clocked, WellKeyed, AllSound, Remembered, Provenance, RecordTimes, Pruned, Writers, Separate;
    var w, p := x.world, x.agents[agent];
    assert GoodPending(p, w.history, tasks);
    var s, t := w.store, Pruned(w.store, p.task, p.kind);
    PruneKeepsNewest(s, tasks, p.task, p.kind);
    SubstoreKeeps(s, t, w.history, tasks);
    ClockedSubset(s, t, w.clock);
    RecordTimesDistinct(s, p.task, p.kind, w.clock);
    NewestSize(RecordTimes(s, p.task, p.kind), MAX_CHECKPOINTS_PER_TASK);
    assert |RecordTimes(t, p.task, p.kind)| == |RecordTimes(t, p.task, p.kind).Keys|;
    forall u, kind | u in tasks
      ensures |RecordTimes(t, u, kind)| <= MAX_CHECKPOINTS_PER_TASK + |Writers(x'.agents, u, kind)|
    {
      if u != p.task || kind != p.kind {
        NotAWriter(x.agents, agent, u, kind);
      }
    }
  }

  lemma WholeIsSafe(x: Config, op: Op, x': Config, tasks: set<string>)
    requires Safe(x, tasks) && Moves(x, Whole(op), x')
    ensures Safe(x', tasks)
  {
    hide Clocked, WellKeyed, AllSound, Remembered, Provenance, RecordTimes, Writers, GoodPending;
    var s, t := x.world.store, x'.world.store;
    SubstoreKeeps(s, t, x.world.history, tasks);
    ClockedSubset(s, t, x.world.clock);
    forall u, kind
      ensures |RecordTimes(t, u, kind)| <= |RecordTimes(s, u, kind)|
    {
      SubstoreIsSmaller(s, t, u, kind);
    }
    NoTaskIsBlank();
  }

  lemma SubstoreIsSmaller(s: Store, t: Store, task: string, kind: Kind)
    requires forall i :: i in t ==> i in s && t[i] == s[i]
    ensures |RecordTimes(t, task, kind)| <= |RecordTimes(s, task, kind)|
  {
    Sums.SubsetSize(RecordTimes(t, task, kind).Keys, RecordTimes(s, task, kind).Keys);
  }

  lemma NoTaskIsBlank()
    ensures Text.Trim("") == ""
  {
  }

  /** Every step of every agent keeps the invariant. */
  lemma MovesAreSafe(x: Config, step: Step, x': Config, tasks: set<string>)
    requires Safe(x, tasks) && Separate(tasks) && StepTaskIn(step, tasks) && Moves(x, step, x')
    ensures Safe(x', tasks)
  {
    hide Safe, Moves, Separate;
    match step
    case ReadBase(_, _, _, _, _) => ReadIsSafe(x, step, x', tasks);
    case Write(agent) => WriteIsSafe(x, agent, x', tasks);
    case Prune(agent) => PruneIsSafe(x, agent, x', tasks);
    case Whole(op) => WholeIsSafe(x, op, x', tasks);
  }

  ghost predicate IsInterleaving(xs: seq<Config>, steps: seq<Step>, tasks: set<string>) {
    && |xs| == |steps| + 1 && xs[0] == Initial
    && forall k :: 0 <= k < |steps| ==> StepTaskIn(steps[k], tasks) && Moves(xs[k], steps[k], xs[k + 1])
  }

  lemma InitialIsSafe(tasks: set<string>)
    ensures Safe(Initial, tasks)
  {
    EmptyInv(tasks);
  }

  /** The invariant holds at every point of every interleaving. */
  lemma {:induction false} InterleavingsAreSafe(xs: seq<Config>, steps: seq<Step>, tasks: set<string>, k: nat)
    requires IsInterleaving(xs, steps, tasks) && Separate(tasks) && k < |xs|
    ensures Safe(xs[k], tasks)
  {
    hide Safe, Moves, Separate;
    if k == 0 {
      InitialIsSafe(tasks);
    } else {
      InterleavingsAreSafe(xs, steps, tasks, k - 1);
      MovesAreSafe(xs[k - 1], steps[k - 1], xs[k], tasks);
    }
  }

  // ----- what follows at every point of an interleaving -----

  /** Whatever is under way, a receipt in an in-flight record is its own or was committed by its task before. */
  lemma NoLeakBetweenAgents(xs: seq<Config>, steps: seq<Step>, tasks: set<string>, k: nat, i: string, a: Action)
    requires IsInterleaving(xs, steps, tasks) && Separate(tasks) && k < |xs| && Readable(xs[k].world.store, i)
    requires var c := xs[k].world.store[i].checkpoint;
             c.kind == TaskRuntime && !IsCommit(c.name) && c.state.Some? && a in c.state.value.tracked
    ensures var w, c := xs[k].world, xs[k].world.store[i].checkpoint;
            || (c.actions.Present? && HasId(c.actions.value, a.id))
            || exists base :: CommittedBefore(w.history, |w.history|, c.task, base) && a.id in base.committed
  {
    hide IsInterleaving, Separate, CommittedBefore, IsCommit, AlmostBounded, AllSound, Provenance;
    InterleavingsAreSafe(xs, steps, tasks, k);
    ReceiptsAreCommitted(xs[k].world, i, a);
  }

  /** Once no agent has its pruning outstanding, no task holds more than the maximum of a kind. */
  lemma BoundedAtRest(xs: seq<Config>, steps: seq<Step>, tasks: set<string>, k: nat, task: string, kind: Kind)
    requires IsInterleaving(xs, steps, tasks) && Separate(tasks) && k < |xs| && task in tasks
    requires forall a :: a in xs[k].agents ==> xs[k].agents[a] != HasWritten(kind, task)
    ensures |RecordTimes(xs[k].world.store, task, kind)| <= MAX_CHECKPOINTS_PER_TASK
  {
    hide IsInterleaving, Separate, GoodWorld, GoodPending, RecordTimes;
    InterleavingsAreSafe(xs, steps, tasks, k);
    assert Writers(xs[k].agents, task, kind) == {};
  }

  /** What an agent holds is what it read at some earlier step. */
  lemma {:induction false} HoldsWhatItRead(xs: seq<Config>, steps: seq<Step>, tasks: set<string>, k: nat, agent: Agent)
      returns (j: nat)
    requires IsInterleaving(xs, steps, tasks) && k < |xs| && agent in xs[k].agents && xs[k].agents[agent].HasRead?
    ensures var p := xs[k].agents[agent];
            && j < k && steps[j] == ReadBase(agent, p.kind, p.task, p.fields, p.unique)
            && IsBase(xs[j].world.store, p.task, p.base)
  {
    hide IsBase, AfterWrite, Next, Pruned;
    assert k > 0;
    var step := steps[k - 1];
    assert Moves(xs[k - 1], step, xs[k]);
    if step.ReadBase? && step.agent == agent {
      j := k - 1;
    } else {
      OthersStay(xs[k - 1], step, xs[k], agent);
      j := HoldsWhatItRead(xs, steps, tasks, k - 1, agent);
    }
  }

  lemma OthersStay(x: Config, step: Step, x': Config, agent: Agent)
    requires Moves(x, step, x') && agent in x'.agents && x'.agents[agent].HasRead?
    requires !(step.ReadBase? && step.agent == agent)
    ensures agent in x.agents && x.agents[agent] == x'.agents[agent]
  {
    hide IsBase, Built, Next, Pruned;
  }

  predicate WritesInFlight(x: Config, step: Step) {
    && step.Write? && step.agent in x.agents && x.agents[step.agent].HasRead?
    && x.agents[step.agent].kind == TaskRuntime && !IsCommit(x.agents[step.agent].fields.name)
  }

  /**
   * An accepted in-flight record carries exactly its own receipts and those of
   * the commit that was the newest when its agent read the store.
   */
  lemma WriteCarriesWhatWasRead(xs: seq<Config>, steps: seq<Step>, tasks: set<string>, k: nat)
      returns (j: nat, c: Checkpoint)
    requires IsInterleaving(xs, steps, tasks) && Separate(tasks) && k < |steps| && WritesInFlight(xs[k], steps[k])
    requires xs[k + 1].world != xs[k].world
    ensures var p := xs[k].agents[steps[k].agent];
            && j < k && steps[j] == ReadBase(steps[k].agent, p.kind, p.task, p.fields, p.unique)
            && xs[k + 1].world == Appended(xs[k].world, c) && c.task == p.task && c.state.Some?
            && exists base :: IsBase(xs[j].world.store, p.task, base)
                 && CarriesBase(c.state.value, base, OwnActions(p.fields))
  {
    hide IsBase, Next, Pruned, NewCheckpoint, CheckpointIri, CarriesBase, CommittedBase, CommittedBefore, GoodWorld,
         Appended, AlmostBounded, Separate, IsCommit;
    var x, agent := xs[k], steps[k].agent;
    assert Moves(x, steps[k], xs[k + 1]);
    var p := x.agents[agent];
    j := HoldsWhatItRead(xs, steps, tasks, k, agent);
    InterleavingsAreSafe(xs, steps, tasks, k);
    assert GoodPending(p, x.world.history, tasks);
    c := Built(x.world, p).value;
    AcceptedCarriesBase(x.world, p.task, p.fields, CheckpointIri(p.task, p.kind, p.unique), p.base);
  }
}
