/**
 * What every run of creates, deletes and registrations keeps: where a record's
 * receipts come from, how many records a task holds, and what a restore finds.
 */
module CheckpointRuns {
  import opened Options
  import opened Text
  import opened CheckpointState
  import opened Retention
  import opened CheckpointStore
  import Sums

  // ----- tasks whose identifiers do not nest -----

  /** No task's path is a path prefix of another's. */
  ghost predicate Separate(tasks: set<string>) {
    forall t, u :: t in tasks && u in tasks && t != u ==> !(Stripped(t) + "/" <= Stripped(u) + "/")
  }

  lemma PrefixesComparable(x: string, y: string, s: string)
    requires x <= s && y <= s
    ensures x <= y || y <= x
  {
    if |x| <= |y| {
      assert x == s[..|x|] && y[..|x|] == s[..|x|];
    } else {
      assert y == s[..|y|] && x[..|y|] == s[..|y|];
    }
  }

  lemma CommonHead(head: string, x: string, y: string)
    requires head + x <= head + y
    ensures x <= y
  {
    assert forall i :: 0 <= i < |x| ==> x[i] == (head + x)[|head| + i] == (head + y)[|head| + i] == y[i];
  }

  /** For tasks that do not nest, the prefix of a record's identifier gives away its task. */
  lemma PrefixGivesTask(tasks: set<string>, t: string, u: string, i: string)
    requires Separate(tasks) && t in tasks && u in tasks && Prefix(u) <= i
    ensures Prefix(t) <= i <==> t == u
  {
    if Prefix(t) <= i && t != u {
      PrefixesComparable(Prefix(t), Prefix(u), i);
      if Prefix(t) <= Prefix(u) {
        CommonHead("iri://checkpoint/", Stripped(t) + "/", Stripped(u) + "/");
      } else {
        CommonHead("iri://checkpoint/", Stripped(u) + "/", Stripped(t) + "/");
      }
    }
  }

  // ----- the invariant -----

  /** The records of a task and kind, with their times. */
  function RecordTimes(s: Store, task: string, kind: Kind): map<string, nat> {
    map i | i in s && Readable(s, i) && s[i].checkpoint.task == task && s[i].checkpoint.kind == kind
      :: s[i].checkpoint.createdAt
  }

  /** Every record sits under its own identifier, which starts with its task's prefix. */
  ghost predicate WellKeyed(s: Store, tasks: set<string>) {
    forall i :: Readable(s, i) ==>
      var c := s[i].checkpoint;
      c.iri == i && c.task in tasks && Prefix(c.task) <= i
  }

  /** A record as an accepted create leaves it. */
  ghost predicate Sound(c: Checkpoint) {
    if c.kind == BizOrchestration then c.state.None?
    else
      && c.task != "" && c.state.Some?
      && ValidForTranscript(c.state.value, c.transcript)
      && c.state.value.name == c.name && c.state.value.iri == c.iri
      && Accounted(c.state.value, if c.actions.Present? then c.actions.value else [])
  }

  /** `c` builds on `base`: the commitments and counters of an in-flight record are exactly the base's. */
  ghost predicate BuildsOn(c: Checkpoint, base: Option<ResumeState>)
    requires c.state.Some?
  {
    && BaseTracked(base) <= c.state.value.tracked
    && c.state.value.committed == BaseCommitted(base)
    && c.state.value.totals == BaseTotals(base)
  }

  /** `state` belongs to an earlier commit of the task. */
  ghost predicate CommittedBefore(history: seq<Checkpoint>, k: nat, task: string, state: ResumeState) {
    exists j :: 0 <= j < k && j < |history| && history[j].kind == TaskRuntime && history[j].task == task
      && history[j].state == Some(state) && IsCommit(state.name)
  }

  /** Every in-flight record ever created builds on nothing or on an earlier commit of its own task. */
  ghost predicate Provenance(history: seq<Checkpoint>) {
    forall k :: 0 <= k < |history| && history[k].kind == TaskRuntime && !IsCommit(history[k].name) ==>
      history[k].state.Some?
      && (BuildsOn(history[k], None)
          || exists base :: CommittedBefore(history, k, history[k].task, base) && BuildsOn(history[k], Some(base)))
  }

  ghost predicate Bounded(s: Store, tasks: set<string>) {
    forall t, kind :: t in tasks ==> |RecordTimes(s, t, kind)| <= MAX_CHECKPOINTS_PER_TASK
  }

  ghost predicate Remembered(s: Store, history: seq<Checkpoint>) {
    forall i :: Readable(s, i) ==> s[i].checkpoint in history
  }

  ghost predicate AllSound(s: Store) {
    forall i :: Readable(s, i) ==> Sound(s[i].checkpoint)
  }

  ghost predicate Inv(w: World, tasks: set<string>) {
    && Clocked(w.store, w.clock)
    && WellKeyed(w.store, tasks)
    && AllSound(w.store)
    && Bounded(w.store, tasks)
    && Remembered(w.store, w.history)
    && Provenance(w.history)
    && "" !in w.contracts
  }

  // ----- creating a record -----

  /** A commit in a sound store has all its receipts committed. */
  lemma BaseIsCommitted(s: Store, task: string, base: Option<ResumeState>)
    requires AllSound(s) && IsBase(s, task, base)
    ensures CommittedBase(base)
  {
    hide Ids, UniqueIds, ValidForTranscript, ValidForResume;
    if base.Some? {
      var i :| CommitAt(s, task, i) && Restored(s[i].checkpoint) == base;
      assert Sound(s[i].checkpoint);
    }
  }

  lemma NewRecordIsSound(w: World, kind: Kind, task: string, f: Fields, iri: string, base: Option<ResumeState>)
    requires CommittedBase(base) && "" !in w.contracts
    requires NewCheckpoint(w, kind, task, f, iri, base).Ok?
    ensures Sound(NewCheckpoint(w, kind, task, f, iri, base).value)
  {
    hide Accounted, ValidForTranscript, Merged, CommittedBase, IsCommit;
    if kind == TaskRuntime {
      var contract := w.contracts[task];
      if IsCommit(f.name) {
        CommitAcceptsItsReceipts(iri, f, base, contract);
      } else {
        InFlightInheritsBase(iri, f, base, contract);
      }
    }
  }

  lemma NewRecordBuildsOnBase(w: World, task: string, f: Fields, iri: string, base: Option<ResumeState>)
    requires CommittedBase(base) && !IsCommit(f.name)
    requires NewCheckpoint(w, TaskRuntime, task, f, iri, base).Ok?
    ensures BuildsOn(NewCheckpoint(w, TaskRuntime, task, f, iri, base).value, base)
  {
    hide Accounted, ValidForTranscript, Merged, CommittedBase, IsCommit;
    InFlightInheritsBase(iri, f, base, w.contracts[task]);
  }

  /** A base found in the store is an earlier commit of the task. */
  lemma BaseWasCreated(w: World, task: string, base: ResumeState)
    requires Remembered(w.store, w.history) && IsBase(w.store, task, Some(base))
    ensures CommittedBefore(w.history, |w.history|, task, base)
  {
    hide ValidForTranscript, ValidForResume, IsCommit;
    var i :| CommitAt(w.store, task, i) && Restored(w.store[i].checkpoint) == Some(base);
    assert w.store[i].checkpoint in w.history;
  }

  lemma ProvenanceExtends(history: seq<Checkpoint>, c: Checkpoint, base: Option<ResumeState>)
    requires Provenance(history)
    requires c.kind == TaskRuntime && !IsCommit(c.name) ==>
      && c.state.Some? && BuildsOn(c, base)
      && (base.Some? ==> CommittedBefore(history, |history|, c.task, base.value))
    ensures Provenance(history + [c])
  {
    hide BuildsOn, IsCommit;
    var longer := history + [c];
    assert forall k :: 0 <= k < |history| ==> longer[k] == history[k];
    forall k, task, state | 0 <= k <= |history| && CommittedBefore(history, k, task, state)
      ensures CommittedBefore(longer, k, task, state)
    {
      var j :| 0 <= j < k && j < |history| && history[j].kind == TaskRuntime && history[j].task == task
        && history[j].state == Some(state) && IsCommit(state.name);
      assert longer[j] == history[j];
    }
    if c.kind == TaskRuntime && !IsCommit(c.name) && base.Some? {
      assert CommittedBefore(longer, |history|, c.task, base.value);
    }
  }

  // ----- retention -----

  /** For well-keyed records of tasks that do not nest, the prefix scan sees exactly the task's records. */
  lemma MatchesAreRecords(s: Store, tasks: set<string>, task: string, kind: Kind)
    requires WellKeyed(s, tasks) && Separate(tasks) && task in tasks
    ensures MatchTimes(s, task, kind) == RecordTimes(s, task, kind)
    ensures forall i :: Matches(s, task, kind, i) <==> i in RecordTimes(s, task, kind)
  {
    hide Prefix, Separate;
    forall i | Readable(s, i)
      ensures Prefix(task) <= i <==> s[i].checkpoint.task == task
    {
      PrefixGivesTask(tasks, task, s[i].checkpoint.task, i);
    }
  }

  /** Pruning keeps exactly the newest records of the task and kind, and everything else. */
  lemma PruneKeepsNewest(s: Store, tasks: set<string>, task: string, kind: Kind)
    requires WellKeyed(s, tasks) && Separate(tasks) && task in tasks
    ensures RecordTimes(Pruned(s, task, kind), task, kind).Keys
            == Newest(RecordTimes(s, task, kind), MAX_CHECKPOINTS_PER_TASK)
    ensures forall u, k2 :: u in tasks && (u != task || k2 != kind) ==>
      RecordTimes(Pruned(s, task, kind), u, k2) == RecordTimes(s, u, k2)
    ensures forall i :: i in Pruned(s, task, kind) ==> i in s && Pruned(s, task, kind)[i] == s[i]
  {
    hide Prefix, Newest, Separate, WellKeyed;
    MatchesAreRecords(s, tasks, task, kind);
    NewestAreKeys(RecordTimes(s, task, kind), MAX_CHECKPOINTS_PER_TASK);
  }

  lemma PruneIsBounded(s: Store, tasks: set<string>, task: string, kind: Kind, clock: nat)
    requires WellKeyed(s, tasks) && Separate(tasks) && task in tasks && Clocked(s, clock)
    requires BoundedElsewhere(s, tasks, task, kind)
    ensures Bounded(Pruned(s, task, kind), tasks)
  {
    hide Prefix, Newest, Separate, WellKeyed, RecordTimes, Pruned;
    PruneKeepsNewest(s, tasks, task, kind);
    RecordTimesDistinct(s, task, kind, clock);
    NewestSize(RecordTimes(s, task, kind), MAX_CHECKPOINTS_PER_TASK);
    assert |RecordTimes(Pruned(s, task, kind), task, kind)|
           == |RecordTimes(Pruned(s, task, kind), task, kind).Keys|;
  }

  lemma RecordTimesDistinct(s: Store, task: string, kind: Kind, clock: nat)
    requires Clocked(s, clock)
    ensures Distinct(RecordTimes(s, task, kind))
  {
  }

  // ----- preservation -----

  lemma AddedRecords(s: Store, c: Checkpoint, task: string, kind: Kind)
    requires c.iri !in s && (c.task != task || c.kind != kind)
    ensures RecordTimes(s[c.iri := Stored(c)], task, kind) == RecordTimes(s, task, kind)
  {
  }

  lemma IriHasPrefix(task: string, kind: Kind, unique: string)
    ensures Prefix(task) <= CheckpointIri(task, kind, unique)
  {
    hide Prefix;
    var p := Prefix(task);
    assert p + PathSegment(kind) + "/" + unique == p + (PathSegment(kind) + "/" + unique);
  }

  lemma SubstoreKeeps(s: Store, t: Store, history: seq<Checkpoint>, tasks: set<string>)
    requires WellKeyed(s, tasks) && AllSound(s) && Remembered(s, history)
    requires forall i :: i in t ==> i in s && t[i] == s[i]
    ensures WellKeyed(t, tasks) && AllSound(t) && Remembered(t, history)
  {
    hide Sound, Prefix;
  }

  lemma DeleteKeepsInv(w: World, iri: string, tasks: set<string>)
    requires Inv(w, tasks)
    ensures Inv(w.(store := w.store - {iri}), tasks)
  {
    hide Provenance, WellKeyed, AllSound, Remembered, Clocked;
    var t := w.store - {iri};
    SubstoreKeeps(w.store, t, w.history, tasks);
    ClockedSubset(w.store, t, w.clock);
    forall u, kind | u in tasks
      ensures |RecordTimes(t, u, kind)| <= MAX_CHECKPOINTS_PER_TASK
    {
      Sums.SubsetSize(RecordTimes(t, u, kind).Keys, RecordTimes(w.store, u, kind).Keys);
    }
  }

  /** What holds of a store between the addition of a record and the pruning that follows. */
  ghost predicate Unpruned(s: Store, clock: nat, history: seq<Checkpoint>, tasks: set<string>, task: string, kind: Kind)
  {
    && Clocked(s, clock) && WellKeyed(s, tasks) && AllSound(s) && Remembered(s, history)
    && BoundedElsewhere(s, tasks, task, kind)
  }

  ghost predicate BoundedElsewhere(s: Store, tasks: set<string>, task: string, kind: Kind) {
    forall u, k2 :: u in tasks && (u != task || k2 != kind) ==> |RecordTimes(s, u, k2)| <= MAX_CHECKPOINTS_PER_TASK
  }

  lemma AddKeepsRecords(w: World, c: Checkpoint, tasks: set<string>)
    requires Clocked(w.store, w.clock) && WellKeyed(w.store, tasks) && AllSound(w.store)
    requires Remembered(w.store, w.history) && c.iri !in w.store && c.createdAt == w.clock
    requires c.task in tasks && Prefix(c.task) <= c.iri && Sound(c)
    ensures var s := w.store[c.iri := Stored(c)];
            Clocked(s, w.clock + 1) && WellKeyed(s, tasks) && AllSound(s) && Remembered(s, w.history + [c])
  {
    hide Sound, Prefix;
    ClockedAfterAdd(w.store, w.clock, c);
  }

  lemma AddKeepsBounds(s: Store, c: Checkpoint, tasks: set<string>)
    requires Bounded(s, tasks) && c.iri !in s
    ensures BoundedElsewhere(s[c.iri := Stored(c)], tasks, c.task, c.kind)
  {
    var t := s[c.iri := Stored(c)];
    forall u, k2 | u in tasks && (u != c.task || k2 != c.kind)
      ensures |RecordTimes(t, u, k2)| <= MAX_CHECKPOINTS_PER_TASK
    {
      AddedRecords(s, c, u, k2);
    }
  }

  /** An accepted create adds a sound record in the right place. */
  lemma NewRecordIsAdded(w: World, kind: Kind, task: string, f: Fields, unique: string, base: Option<ResumeState>,
                         tasks: set<string>)
    requires Inv(w, tasks) && task in tasks && IsBase(w.store, task, base)
    requires CheckpointIri(task, kind, unique) !in w.store
    requires NewCheckpoint(w, kind, task, f, CheckpointIri(task, kind, unique), base).Ok?
    ensures var c := NewCheckpoint(w, kind, task, f, CheckpointIri(task, kind, unique), base).value;
            && c.iri == CheckpointIri(task, kind, unique) && c.task == task && c.kind == kind && c.name == f.name
            && Unpruned(w.store[c.iri := Stored(c)], w.clock + 1, w.history + [c], tasks, task, kind)
  {
    hide IsBase, Provenance, WellKeyed, AllSound, Remembered, Clocked, Bounded, BoundedElsewhere, Sound, Prefix,
         CheckpointIri, FromFields, CommittedBase;
    var iri := CheckpointIri(task, kind, unique);
    IriHasPrefix(task, kind, unique);
    BaseIsCommitted(w.store, task, base);
    NewRecordIsSound(w, kind, task, f, iri, base);
    var c := NewCheckpoint(w, kind, task, f, iri, base).value;
    AddKeepsRecords(w, c, tasks);
    AddKeepsBounds(w.store, c, tasks);
  }

  lemma CreateKeepsInv(w: World, kind: Kind, task: string, f: Fields, unique: string, base: Option<ResumeState>,
                       tasks: set<string>)
    requires Inv(w, tasks) && Separate(tasks) && task in tasks && IsBase(w.store, task, base)
    requires CheckpointIri(task, kind, unique) !in w.store
    ensures Inv(AfterCreate(w, NewCheckpoint(w, kind, task, f, CheckpointIri(task, kind, unique), base)), tasks)
  {
    hide IsBase, Provenance, WellKeyed, AllSound, Remembered, Clocked, Bounded, BoundedElsewhere, CheckpointIri,
         NewCheckpoint, Pruned, Separate;
    var iri := CheckpointIri(task, kind, unique);
    var r := NewCheckpoint(w, kind, task, f, iri, base);
    if r.Ok? {
      var c := r.value;
      var s := w.store[iri := Stored(c)];
      NewRecordIsAdded(w, kind, task, f, unique, base, tasks);
      PruneIsBounded(s, tasks, task, kind, w.clock + 1);
      PruneKeepsNewest(s, tasks, task, kind);
      SubstoreKeeps(s, Pruned(s, task, kind), w.history + [c], tasks);
      ClockedSubset(s, Pruned(s, task, kind), w.clock + 1);
      NewRecordHasProvenance(w, kind, task, f, iri, base);
    }
  }

  lemma NewRecordHasProvenance(w: World, kind: Kind, task: string, f: Fields, iri: string, base: Option<ResumeState>)
    requires AllSound(w.store) && Remembered(w.store, w.history) && Provenance(w.history)
    requires IsBase(w.store, task, base) && NewCheckpoint(w, kind, task, f, iri, base).Ok?
    ensures Provenance(w.history + [NewCheckpoint(w, kind, task, f, iri, base).value])
  {
    hide IsBase, Provenance, AllSound, Remembered, FromFields, CommittedBase, BuildsOn, CommittedBefore, IsCommit;
    if kind == TaskRuntime && !IsCommit(f.name) {
      BaseIsCommitted(w.store, task, base);
      NewRecordBuildsOnBase(w, task, f, iri, base);
      if base.Some? {
        BaseWasCreated(w, task, base.value);
      }
    }
    ProvenanceExtends(w.history, NewCheckpoint(w, kind, task, f, iri, base).value, base);
  }

  predicate OpTaskIn(op: Op, tasks: set<string>) {
    op.Create? ==> op.task in tasks
  }

  /** A new record never reuses an identifier. */
  predicate FreshFor(w: World, op: Op) {
    op.Create? ==> CheckpointIri(op.task, op.kind, op.unique) !in w.store
  }

  /** Every operation keeps the invariant. */
  lemma NextKeepsInv(w: World, op: Op, w': World, tasks: set<string>)
    requires Inv(w, tasks) && Separate(tasks) && OpTaskIn(op, tasks) && FreshFor(w, op) && Next(w, op, w')
    ensures Inv(w', tasks)
  {
    hide Inv, IsBase, AfterCreate, NewCheckpoint, CheckpointIri;
    match op
    case Register(task, contract) => RegisterKeepsInv(w, task, contract, tasks);
    case Delete(iri) => DeleteKeepsInv(w, iri, tasks);
    case Create(kind, task, f, unique) =>
      var base :| IsBase(w.store, task, base)
                  && w' == AfterCreate(w, NewCheckpoint(w, kind, task, f, CheckpointIri(task, kind, unique), base));
      CreateKeepsInv(w, kind, task, f, unique, base, tasks);
  }

  lemma RegisterKeepsInv(w: World, task: string, contract: Contract, tasks: set<string>)
    requires Inv(w, tasks)
    ensures Inv(if Trim(task) == "" || !contract.valid then w else w.(contracts := w.contracts[task := contract]), tasks)
  {
    hide Provenance, WellKeyed, AllSound, Remembered, Clocked, Bounded;
    assert task == "" ==> Trim(task) == "";
  }

  /** A run: each world follows from the one before by one operation. */
  ghost predicate IsRun(worlds: seq<World>, ops: seq<Op>, tasks: set<string>) {
    && |worlds| == |ops| + 1
    && worlds[0] == World(map[], map[], 0, [])
    && forall k :: 0 <= k < |ops| ==>
         OpTaskIn(ops[k], tasks) && FreshFor(worlds[k], ops[k]) && Next(worlds[k], ops[k], worlds[k + 1])
  }

  /** The invariant holds at every point of every run. */
  lemma {:induction false} RunsKeepInv(worlds: seq<World>, ops: seq<Op>, tasks: set<string>, k: nat)
    requires IsRun(worlds, ops, tasks) && Separate(tasks) && k < |worlds|
    ensures Inv(worlds[k], tasks)
  {
    hide Next, Separate;
    if k == 0 {
      EmptyInv(tasks);
    } else {
      hide Inv;
      RunsKeepInv(worlds, ops, tasks, k - 1);
      NextKeepsInv(worlds[k - 1], ops[k - 1], worlds[k], tasks);
    }
  }

  lemma EmptyInv(tasks: set<string>)
    ensures Inv(World(map[], map[], 0, []), tasks)
  {
    forall t, kind
      ensures RecordTimes(map[], t, kind) == map[]
    {
    }
  }

  // ----- what follows at every point of a run -----

  /** `s` carries the receipts of `base` and then those of `own` that are new, none twice, and nothing else of its own. */
  ghost predicate CarriesBase(s: ResumeState, base: Option<ResumeState>, own: seq<Action>) {
    && BaseTracked(base) <= s.tracked && UniqueIds(s.tracked)
    && Ids(s.tracked) == Ids(BaseTracked(base)) + Ids(own)
    && (forall i :: |BaseTracked(base)| <= i < |s.tracked| ==> s.tracked[i] in own)
    && s.committed == BaseCommitted(base) && s.totals == BaseTotals(base)
  }

  /**
   * In every run, at every step: an in-flight record that is accepted carries
   * exactly the receipts of the newest commit then in the store and its own,
   * without duplicates, and that commit's commitments and counters.
   */
  lemma InFlightCarriesNewestCommit(worlds: seq<World>, ops: seq<Op>, tasks: set<string>, k: nat)
    requires IsRun(worlds, ops, tasks) && Separate(tasks) && k < |ops| && ops[k].Create?
    requires ops[k].kind == TaskRuntime && !IsCommit(ops[k].fields.name) && worlds[k + 1] != worlds[k]
    ensures exists base, c ::
      && IsBase(worlds[k].store, ops[k].task, base)
      && worlds[k + 1] == AfterCreate(worlds[k], Ok(c))
      && c.kind == TaskRuntime && c.task == ops[k].task && c.name == ops[k].fields.name
      && c.state.Some? && CarriesBase(c.state.value, base, OwnActions(ops[k].fields))
  {
    hide Inv, Separate, IsBase, AfterCreate, NewCheckpoint, CheckpointIri, CarriesBase, CommittedBase, IsCommit;
    var Create(kind, task, f, unique) := ops[k];
    var w, iri := worlds[k], CheckpointIri(task, kind, unique);
    RunsKeepInv(worlds, ops, tasks, k);
    var base :| IsBase(w.store, task, base) && worlds[k + 1] == AfterCreate(w, NewCheckpoint(w, kind, task, f, iri, base));
    BaseIsSound(w, tasks, task, base);
    RefusalChangesNothing(w, NewCheckpoint(w, kind, task, f, iri, base));
    AcceptedCarriesBase(w, task, f, iri, base);
  }

  lemma BaseIsSound(w: World, tasks: set<string>, task: string, base: Option<ResumeState>)
    requires Inv(w, tasks) && IsBase(w.store, task, base)
    ensures CommittedBase(base)
  {
    hide IsBase, CommittedBase, AllSound;
    BaseIsCommitted(w.store, task, base);
  }

  lemma RefusalChangesNothing(w: World, r: Result<Checkpoint>)
    ensures r.Err? ==> AfterCreate(w, r) == w
  {
  }

  lemma AcceptedCarriesBase(w: World, task: string, f: Fields, iri: string, base: Option<ResumeState>)
    requires CommittedBase(base) && !IsCommit(f.name)
    requires NewCheckpoint(w, TaskRuntime, task, f, iri, base).Ok?
    ensures var c := NewCheckpoint(w, TaskRuntime, task, f, iri, base).value;
            && c.kind == TaskRuntime && c.task == task && c.name == f.name
            && c.state.Some? && CarriesBase(c.state.value, base, OwnActions(f))
  {
    hide ValidForTranscript, Merged, CommittedBase, IsCommit, FromFields, Ids, UniqueIds;
    InFlightInheritsBase(iri, f, base, w.contracts[task]);
    FromFieldsKeepsName(iri, f, base, w.contracts[task]);
  }

  lemma FromFieldsKeepsName(iri: string, f: Fields, base: Option<ResumeState>, contract: Contract)
    requires FromFields(iri, f, base, contract).Ok?
    ensures FromFields(iri, f, base, contract).value.name == f.name
  {
    hide ValidForTranscript, Merged, Refused;
  }

  /** Step `j` created `c`, of the caller's fields and contract. */
  ghost predicate CreatedAt(worlds: seq<World>, ops: seq<Op>, j: nat, c: Checkpoint)
    requires |worlds| == |ops| + 1
  {
    && j < |ops| && ops[j].Create? && worlds[j + 1] == AfterCreate(worlds[j], Ok(c))
    && ops[j].kind == c.kind && ops[j].task == c.task && ops[j].fields.name == c.name
    && c.transcript == ops[j].fields.transcript && c.actions == ops[j].fields.actions && c.createdAt == worlds[j].clock
    && (c.kind == TaskRuntime ==>
          && c.task in worlds[j].contracts && c.state.Some?
          && (IsCommit(c.name) ==> ops[j].fields.dag.Present?)
          && exists base ::
               && IsBase(worlds[j].store, c.task, base)
               && TakesFields(c.state.value, c.iri, ops[j].fields, base, worlds[j].contracts[c.task])
               && TakesCounters(c.state.value, ops[j].fields, base)
               && TakesReceipts(c.state.value, ops[j].fields, base))
  }

  lemma AcceptedTakesAll(w: World, kind: Kind, task: string, f: Fields, iri: string, base: Option<ResumeState>)
    requires NewCheckpoint(w, kind, task, f, iri, base).Ok?
    ensures var c := NewCheckpoint(w, kind, task, f, iri, base).value;
            && c.kind == kind && c.task == task && c.name == f.name && c.iri == iri
            && c.transcript == f.transcript && c.actions == f.actions && c.createdAt == w.clock
            && (kind == TaskRuntime ==>
                  && task in w.contracts && c.state.Some? && (IsCommit(f.name) ==> f.dag.Present?)
                  && TakesFields(c.state.value, iri, f, base, w.contracts[task])
                  && TakesCounters(c.state.value, f, base) && TakesReceipts(c.state.value, f, base))
  {
    hide TakesFields, TakesCounters, TakesReceipts, ValidForTranscript, Derived;
    if kind == TaskRuntime {
      AcceptedTakesParts(iri, f, base, w.contracts[task]);
    }
  }

  lemma CreateIsCreated(worlds: seq<World>, ops: seq<Op>, tasks: set<string>, j: nat) returns (c: Checkpoint)
    requires IsRun(worlds, ops, tasks) && j < |ops| && ops[j].Create? && worlds[j + 1] != worlds[j]
    ensures CreatedAt(worlds, ops, j, c)
  {
    hide IsBase, AfterCreate, NewCheckpoint, CheckpointIri, TakesFields, TakesCounters, TakesReceipts;
    var Create(kind, task, f, unique) := ops[j];
    var w, iri := worlds[j], CheckpointIri(task, kind, unique);
    var base :| IsBase(w.store, task, base) && worlds[j + 1] == AfterCreate(w, NewCheckpoint(w, kind, task, f, iri, base));
    RefusalChangesNothing(w, NewCheckpoint(w, kind, task, f, iri, base));
    AcceptedTakesAll(w, kind, task, f, iri, base);
    c := NewCheckpoint(w, kind, task, f, iri, base).value;
  }

  lemma OnlyCreatesAdd(w: World, op: Op, w': World, i: string)
    requires Next(w, op, w') && Readable(w'.store, i) && !(Readable(w.store, i) && w.store[i] == w'.store[i])
    ensures op.Create? && w' != w
    ensures forall c :: w' == AfterCreate(w, Ok(c)) ==> w'.store[i] == Stored(c)
  {
    hide IsBase, NewCheckpoint, CheckpointIri, Newest;
  }

  /** Every stored record was created at some step of the run. */
  lemma {:induction false} StoredWasCreated(worlds: seq<World>, ops: seq<Op>, tasks: set<string>, k: nat, i: string)
      returns (j: nat)
    requires IsRun(worlds, ops, tasks) && k < |worlds| && Readable(worlds[k].store, i)
    ensures j < k && CreatedAt(worlds, ops, j, worlds[k].store[i].checkpoint)
    decreases k
  {
    hide CreatedAt, Next, FreshFor;
    assert k > 0;
    var w, w' := worlds[k - 1], worlds[k];
    if Readable(w.store, i) && w.store[i] == w'.store[i] {
      j := StoredWasCreated(worlds, ops, tasks, k - 1, i);
    } else {
      assert Next(w, ops[k - 1], worlds[k - 1 + 1]);
      OnlyCreatesAdd(w, ops[k - 1], w', i);
      var c := CreateIsCreated(worlds, ops, tasks, k - 1);
      CreatedGives(worlds, ops, k - 1, c);
      j := k - 1;
    }
  }

  lemma CreatedGives(worlds: seq<World>, ops: seq<Op>, j: nat, c: Checkpoint)
    requires |worlds| == |ops| + 1 && CreatedAt(worlds, ops, j, c)
    ensures worlds[j + 1] == AfterCreate(worlds[j], Ok(c))
  {
  }

  /** `i` is the newest commit of the task in the store. */
  ghost predicate NewestCommit(s: Store, task: string, i: string) {
    CommitAt(s, task, i) && forall j :: CommitAt(s, task, j) ==> s[j].checkpoint.createdAt <= s[i].checkpoint.createdAt
  }

  /**
   * An in-flight record without a DAG carries the DAG that was handed in with
   * the newest commit in the store, whichever step that was; the empty one when
   * there is no commit.
   */
  lemma InFlightCarriesHandedDag(worlds: seq<World>, ops: seq<Op>, tasks: set<string>, k: nat)
      returns (c: Checkpoint, i: string, j: nat)
    requires IsRun(worlds, ops, tasks) && k < |ops| && ops[k].Create? && worlds[k + 1] != worlds[k]
    requires ops[k].kind == TaskRuntime && !IsCommit(ops[k].fields.name) && ops[k].fields.dag.Absent?
    ensures CreatedAt(worlds, ops, k, c)
    ensures (forall n :: !CommitAt(worlds[k].store, ops[k].task, n)) ==> c.state.value.dag == Dag(map[], {})
    ensures (exists n :: CommitAt(worlds[k].store, ops[k].task, n)) ==>
      && NewestCommit(worlds[k].store, ops[k].task, i)
      && j < k && CreatedAt(worlds, ops, j, worlds[k].store[i].checkpoint)
      && ops[j].fields.dag == Present(c.state.value.dag)
  {
    hide Next, FreshFor, AfterCreate, TakesCounters, TakesReceipts, CommitAt, NewestCommit;
    c := CreateIsCreated(worlds, ops, tasks, k);
    var s, task := worlds[k].store, ops[k].task;
    var base :| IsBase(s, task, base) && TakesFields(c.state.value, c.iri, ops[k].fields, base, worlds[k].contracts[task]);
    i, j := "", 0;
    if base.Some? {
      i := BaseIsNewest(s, task, base);
      j := StoredWasCreated(worlds, ops, tasks, k, i);
      CommitHasDag(worlds, ops, tasks, j, s[i].checkpoint);
    }
  }

  lemma BaseIsNewest(s: Store, task: string, base: Option<ResumeState>) returns (i: string)
    requires IsBase(s, task, base) && base.Some?
    ensures NewestCommit(s, task, i) && Readable(s, i)
    ensures var c := s[i].checkpoint; c.kind == TaskRuntime && c.task == task && IsCommit(c.name) && c.state == base
  {
    hide ValidForTranscript, ValidForResume, Prefix;
    i :| CommitAt(s, task, i) && Restored(s[i].checkpoint) == base
      && forall j :: CommitAt(s, task, j) ==> s[j].checkpoint.createdAt <= s[i].checkpoint.createdAt;
  }

  lemma CommitHasDag(worlds: seq<World>, ops: seq<Op>, tasks: set<string>, j: nat, c: Checkpoint)
    requires |worlds| == |ops| + 1 && CreatedAt(worlds, ops, j, c) && c.kind == TaskRuntime && IsCommit(c.name)
    ensures ops[j].fields.dag == Present(c.state.value.dag)
  {
    hide IsBase, AfterCreate, TakesCounters, TakesReceipts;
  }

  /** Every receipt of a stored in-flight record is its own or crossed a commit of its task earlier. */
  lemma NoSiblingLeak(w: World, tasks: set<string>, i: string, a: Action)
    requires Inv(w, tasks) && Readable(w.store, i)
    requires var c := w.store[i].checkpoint;
             c.kind == TaskRuntime && !IsCommit(c.name) && c.state.Some? && a in c.state.value.tracked
    ensures var c := w.store[i].checkpoint;
            || (c.actions.Present? && HasId(c.actions.value, a.id))
            || exists base :: CommittedBefore(w.history, |w.history|, c.task, base) && a.id in base.committed
  {
    hide Clocked, WellKeyed, Bounded, Sound, Provenance, CommittedBefore;
    ReceiptsAreCommitted(w, i, a);
  }

  lemma ReceiptsAreCommitted(w: World, i: string, a: Action)
    requires AllSound(w.store) && Remembered(w.store, w.history) && Provenance(w.history) && Readable(w.store, i)
    requires var c := w.store[i].checkpoint;
             c.kind == TaskRuntime && !IsCommit(c.name) && c.state.Some? && a in c.state.value.tracked
    ensures var c := w.store[i].checkpoint;
            || (c.actions.Present? && HasId(c.actions.value, a.id))
            || exists base :: CommittedBefore(w.history, |w.history|, c.task, base) && a.id in base.committed
  {
    hide IsCommit, ValidForTranscript, UniqueIds, Prefix;
    var c := w.store[i].checkpoint;
    var own := if c.actions.Present? then c.actions.value else [];
    assert Sound(c);
    assert a.id in Ids(c.state.value.tracked);
    if !HasId(own, a.id) {
      assert a.id !in Ids(own);
      assert a.id in c.state.value.committed;
      assert c in w.history;
      var k :| 0 <= k < |w.history| && w.history[k] == c;
      var base :| CommittedBefore(w.history, k, c.task, base) && BuildsOn(w.history[k], Some(base));
      assert CommittedBefore(w.history, |w.history|, c.task, base);
    }
  }

  /** After a create of a kind, the task holds exactly the newest of its records of that kind, at most twenty. */
  lemma CreateKeepsNewest(w: World, kind: Kind, task: string, f: Fields, unique: string, base: Option<ResumeState>,
                          tasks: set<string>)
    requires Inv(w, tasks) && Separate(tasks) && task in tasks && IsBase(w.store, task, base)
    requires CheckpointIri(task, kind, unique) !in w.store
    requires NewCheckpoint(w, kind, task, f, CheckpointIri(task, kind, unique), base).Ok?
    ensures var c := NewCheckpoint(w, kind, task, f, CheckpointIri(task, kind, unique), base);
            var w' := AfterCreate(w, c);
            var before := RecordTimes(w.store[c.value.iri := Stored(c.value)], task, kind);
            && RecordTimes(w'.store, task, kind).Keys == Newest(before, MAX_CHECKPOINTS_PER_TASK)
            && |RecordTimes(w'.store, task, kind)| <= MAX_CHECKPOINTS_PER_TASK
            && c.value.iri in w'.store
  {
    hide IsBase, Provenance, AllSound, Remembered, Sound, Prefix, CheckpointIri, FromFields, Pruned, Separate,
         CommittedBase, Newest, Bounded;
    var iri := CheckpointIri(task, kind, unique);
    var c := NewCheckpoint(w, kind, task, f, iri, base).value;
    var s := w.store[iri := Stored(c)];
    NewRecordIsAdded(w, kind, task, f, unique, base, tasks);
    PruneIsBounded(s, tasks, task, kind, w.clock + 1);
    PruneKeepsNewest(s, tasks, task, kind);
    NewestKeepsLatest(s, task, kind, iri, w.clock + 1);
    BoundedAt(Pruned(s, task, kind), tasks, task, kind);
  }

  lemma BoundedAt(s: Store, tasks: set<string>, task: string, kind: Kind)
    requires Bounded(s, tasks) && task in tasks
    ensures |RecordTimes(s, task, kind)| <= MAX_CHECKPOINTS_PER_TASK
  {
  }

  /** The record with the latest time is always among the newest. */
  lemma NewestKeepsLatest(s: Store, task: string, kind: Kind, i: string, clock: nat)
    requires Clocked(s, clock) && i in RecordTimes(s, task, kind) && s[i].checkpoint.createdAt + 1 == clock
    ensures i in Newest(RecordTimes(s, task, kind), MAX_CHECKPOINTS_PER_TASK)
  {
    assert Newer(RecordTimes(s, task, kind), s[i].checkpoint.createdAt) == {};
  }

  // ----- restoring a task -----

  /** The runtime records of a task. */
  function RuntimeRecords(s: Store, task: string): map<string, Checkpoint> {
    map i | i in s && Readable(s, i) && s[i].checkpoint.task == task && s[i].checkpoint.kind == TaskRuntime
      :: s[i].checkpoint
  }

  /** `r` is the newest record that can be resumed from among `records`, if there is any. */
  ghost predicate IsNewestRestorable(records: map<string, Checkpoint>, r: Option<Checkpoint>) {
    if r.None? then forall i :: i in records ==> Restored(records[i]).None?
    else exists i :: i in records && records[i] == r.value && Restored(r.value).Some?
           && forall j :: j in records && Restored(records[j]).Some? ==> records[j].createdAt <= r.value.createdAt
  }

  /** In a reachable store every runtime record of the task is a candidate for restoring. */
  lemma AllRecordsAreListed(w: World, tasks: set<string>, task: string)
    requires Inv(w, tasks) && task in tasks
    ensures ListTimes(w.store, task, TaskRuntime) == RecordTimes(w.store, task, TaskRuntime)
    ensures forall i :: i in RecordTimes(w.store, task, TaskRuntime) ==>
      i in Newest(ListTimes(w.store, task, TaskRuntime), MAX_CHECKPOINTS_PER_TASK)
  {
    hide Provenance, Remembered, Clocked, Accounted, ValidState, Prefix, Newest;
    forall i | Readable(w.store, i) && w.store[i].checkpoint.task == task && w.store[i].checkpoint.kind == TaskRuntime
      ensures Listed(w.store, task, TaskRuntime, i)
    {
      assert Sound(w.store[i].checkpoint);
      NonEmptyPrefix(task);
    }
    assert ListTimes(w.store, task, TaskRuntime) == RecordTimes(w.store, task, TaskRuntime);
    forall i | i in RecordTimes(w.store, task, TaskRuntime)
      ensures i in Newest(ListTimes(w.store, task, TaskRuntime), MAX_CHECKPOINTS_PER_TASK)
    {
      FewAreAllNewest(RecordTimes(w.store, task, TaskRuntime), MAX_CHECKPOINTS_PER_TASK, i);
    }
  }

  lemma NonEmptyPrefix(task: string)
    ensures |Prefix(task)| > 0
  {
  }

  /**
   * Despite its limit, a restore returns the newest record of the whole store
   * that can be resumed from, and nothing only when there is none; what it
   * returns carries no uncommitted substantive effect.
   */
  lemma RestoreFindsNewest(w: World, tasks: set<string>, task: string, r: Option<Checkpoint>)
    requires Inv(w, tasks) && task in tasks && IsRestorable(w.store, task, r)
    ensures IsNewestRestorable(RuntimeRecords(w.store, task), r)
    ensures r.Some? ==> r.value.state.Some? && !HasUncommittedEffect(r.value.state.value)
  {
    hide Inv, Newest, ValidForTranscript, ValidState, HasUncommittedEffect;
    AllRecordsAreListed(w, tasks, task);
    NewestAreKeys(ListTimes(w.store, task, TaskRuntime), MAX_CHECKPOINTS_PER_TASK);
    hide Restored;
    assert r.Some? ==> Restored(r.value).Some?;
    RestoredIsClean(r);
  }

  lemma RestoredIsClean(r: Option<Checkpoint>)
    ensures r.Some? && Restored(r.value).Some? ==> r.value.state.Some? && !HasUncommittedEffect(r.value.state.value)
  {
  }

  /** Two stores with the same runtime records of a task restore the same record. */
  lemma RestoreDependsOnTask(records: map<string, Checkpoint>, x: Option<Checkpoint>, y: Option<Checkpoint>)
    requires IsNewestRestorable(records, x) && IsNewestRestorable(records, y)
    requires forall i, j :: i in records && j in records && i != j ==> records[i].createdAt != records[j].createdAt
    ensures x == y
  {
    hide Restored;
  }

  /** Creating a record of another task, or of the other kind, leaves a task's runtime records as they are. */
  lemma OthersDoNotInterfere(w: World, kind: Kind, other: string, f: Fields, unique: string,
                             base: Option<ResumeState>, tasks: set<string>, task: string)
    requires Inv(w, tasks) && Separate(tasks) && task in tasks && other in tasks && IsBase(w.store, other, base)
    requires CheckpointIri(other, kind, unique) !in w.store
    requires other != task || kind == BizOrchestration
    ensures var w' := AfterCreate(w, NewCheckpoint(w, kind, other, f, CheckpointIri(other, kind, unique), base));
            RuntimeRecords(w'.store, task) == RuntimeRecords(w.store, task)
  {
    hide IsBase, Inv, AllSound, Remembered, CheckpointIri, FromFields, Separate, Clocked, WellKeyed, Pruned,
         RuntimeRecords, BoundedElsewhere;
    var iri := CheckpointIri(other, kind, unique);
    var r := NewCheckpoint(w, kind, other, f, iri, base);
    if r.Ok? {
      var c := r.value;
      var s := w.store[iri := Stored(c)];
      NewRecordIsAdded(w, kind, other, f, unique, base, tasks);
      AddedElsewhere(w.store, c, task);
      PrunedElsewhere(s, tasks, other, kind, task);
    }
  }

  lemma AddedElsewhere(s: Store, c: Checkpoint, task: string)
    requires c.iri !in s && (c.task != task || c.kind == BizOrchestration)
    ensures RuntimeRecords(s[c.iri := Stored(c)], task) == RuntimeRecords(s, task)
  {
  }

  lemma PrunedElsewhere(s: Store, tasks: set<string>, other: string, kind: Kind, task: string)
    requires WellKeyed(s, tasks) && Separate(tasks) && task in tasks && other in tasks
    requires other != task || kind == BizOrchestration
    ensures RuntimeRecords(Pruned(s, other, kind), task) == RuntimeRecords(s, task)
  {
    hide Prefix, Separate, Newest, WellKeyed;
    MatchesAreRecords(s, tasks, other, kind);
  }

  /** So a restore of the task finds the same record before and after. */
  lemma RestoreUnaffectedByOthers(w: World, kind: Kind, other: string, f: Fields, unique: string,
                                  base: Option<ResumeState>, tasks: set<string>, task: string,
                                  x: Option<Checkpoint>, y: Option<Checkpoint>)
    requires Inv(w, tasks) && Separate(tasks) && task in tasks && other in tasks && IsBase(w.store, other, base)
    requires CheckpointIri(other, kind, unique) !in w.store
    requires other != task || kind == BizOrchestration
    requires IsRestorable(w.store, task, x)
    requires IsRestorable(
      AfterCreate(w, NewCheckpoint(w, kind, other, f, CheckpointIri(other, kind, unique), base)).store, task, y)
    ensures x == y
  {
    var w' := AfterCreate(w, NewCheckpoint(w, kind, other, f, CheckpointIri(other, kind, unique), base));
    assert forall i, j :: i in RuntimeRecords(w.store, task) && j in RuntimeRecords(w.store, task) && i != j ==>
      RuntimeRecords(w.store, task)[i].createdAt != RuntimeRecords(w.store, task)[j].createdAt;
    hide Inv, IsRestorable, IsBase, AfterCreate, NewCheckpoint, CheckpointIri, Separate, RuntimeRecords,
         IsNewestRestorable;
    OthersDoNotInterfere(w, kind, other, f, unique, base, tasks, task);
    CreateKeepsInv(w, kind, other, f, unique, base, tasks);
    RestoreFindsNewest(w, tasks, task, x);
    RestoreFindsNewest(w', tasks, task, y);
    RestoreDependsOnTask(RuntimeRecords(w.store, task), x, y);
  }

  // ----- siblings -----

  /**
   * What an in-flight create of one agent does to the base of its siblings:
   * nothing, unless retention evicts the newest commit, and then no commit is
   * left at all.
   */
  lemma SiblingsShareTheCommit(w: World, task: string, f: Fields, unique: string, base: Option<ResumeState>,
                               tasks: set<string>, i: string)
    requires Inv(w, tasks) && Separate(tasks) && task in tasks && !IsCommit(f.name)
    requires CheckpointIri(task, TaskRuntime, unique) !in w.store
    requires CommitAt(w.store, task, i) && Restored(w.store[i].checkpoint) == base
    requires forall j :: CommitAt(w.store, task, j) ==>
      w.store[j].checkpoint.createdAt <= w.store[i].checkpoint.createdAt
    requires NewCheckpoint(w, TaskRuntime, task, f, CheckpointIri(task, TaskRuntime, unique), base).Ok?
    ensures IsBase(w.store, task, base)
    ensures var c := NewCheckpoint(w, TaskRuntime, task, f, CheckpointIri(task, TaskRuntime, unique), base);
            var after := AfterCreate(w, c).store;
            var times := RecordTimes(w.store[c.value.iri := Stored(c.value)], task, TaskRuntime);
            && IsBase(after, task, if i in after then base else None)
            && (i in after <==> |Newer(times, w.store[i].checkpoint.createdAt)| < MAX_CHECKPOINTS_PER_TASK)
  {
    hide IsBase, Provenance, AllSound, Remembered, Sound, Prefix, CheckpointIri, FromFields, Separate,
         CommittedBase, Bounded, Clocked, IsCommit, WellKeyed, Inv;
    var iri := CheckpointIri(task, TaskRuntime, unique);
    var c := NewCheckpoint(w, TaskRuntime, task, f, iri, base).value;
    var s := w.store[iri := Stored(c)];
    var after := Pruned(s, task, TaskRuntime);
    FoundIsBase(w.store, task, base, i);
    NewRecordIsAdded(w, TaskRuntime, task, f, unique, base, tasks);
    MatchesAreRecords(s, tasks, task, TaskRuntime);
    InFlightIsNoCommit(s, task, iri);
    EvictedTogether(w.store, s, after, task, iri, i, base);
  }

  lemma FoundIsBase(s: Store, task: string, base: Option<ResumeState>, i: string)
    requires CommitAt(s, task, i) && Restored(s[i].checkpoint) == base
    requires forall j :: CommitAt(s, task, j) ==> s[j].checkpoint.createdAt <= s[i].checkpoint.createdAt
    ensures IsBase(s, task, base)
  {
  }

  lemma InFlightIsNoCommit(s: Store, task: string, i: string)
    requires Readable(s, i) && !IsCommit(s[i].checkpoint.name)
    ensures !CommitAt(s, task, i)
  {
  }

  /** When the newest commit goes, the older ones have gone with it. */
  lemma EvictedTogether(before: Store, s: Store, after: Store, task: string, added: string, i: string,
                        base: Option<ResumeState>)
    requires added !in before && added in s && s - {added} == before && !CommitAt(s, task, added)
    requires after == Pruned(s, task, TaskRuntime)
    requires MatchTimes(s, task, TaskRuntime) == RecordTimes(s, task, TaskRuntime)
    requires CommitAt(before, task, i) && Restored(before[i].checkpoint) == base
    requires forall j :: CommitAt(before, task, j) ==> before[j].checkpoint.createdAt <= before[i].checkpoint.createdAt
    ensures IsBase(after, task, if i in after then base else None)
    ensures i in after <==>
      |Newer(RecordTimes(s, task, TaskRuntime), before[i].checkpoint.createdAt)| < MAX_CHECKPOINTS_PER_TASK
  {
    hide Restored, RecordTimes, IsCommit, Prefix;
    var times := MatchTimes(s, task, TaskRuntime);
    assert forall j :: j in before ==> j in s && s[j] == before[j];
    assert Matches(s, task, TaskRuntime, i) && i in times;
    forall j | CommitAt(after, task, j)
      ensures CommitAt(before, task, j) && i in after
    {
      assert s[j] == after[j] && CommitAt(s, task, j) && j != added;
      assert j in times && j in Newest(times, MAX_CHECKPOINTS_PER_TASK);
      NewestIsUpward(times, MAX_CHECKPOINTS_PER_TASK, j, i);
    }
    if i in after {
      assert CommitAt(after, task, i);
    }
  }
}
