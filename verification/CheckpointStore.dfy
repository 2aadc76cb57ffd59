/**
 * The checkpoint manager over a durable store: creation with retention,
 * deletion, and restoration of a task. Time is an increasing counter; every
 * record gets a fresh identifier.
 */
module CheckpointStore {
  import opened Options
  import opened Text
  import opened CheckpointState
  import opened Retention
  import Sorting

  const MAX_CHECKPOINTS_PER_TASK: nat := 20

  datatype Checkpoint = Checkpoint(
    kind: Kind, iri: string, task: string, name: string, createdAt: nat, transcript: Transcript,
    actions: Field<seq<Action>>, state: Option<ResumeState>)

  /** A stored value that may not deserialize. */
  datatype Entry = Stored(checkpoint: Checkpoint) | Unreadable

  type Store = map<string, Entry>

  // ----- identifiers -----

  function PathSegment(kind: Kind): string {
    if kind == TaskRuntime then "task_runtime" else "biz_orchestration"
  }

  function Stripped(task: string): string {
    if "iri://" <= task then task[6..] else task
  }

  /** What a scan for the records of a task asks for. */
  function Prefix(task: string): string {
    "iri://checkpoint/" + (Stripped(task) + "/")
  }

  function CheckpointIri(task: string, kind: Kind, unique: string): string {
    Prefix(task) + PathSegment(kind) + "/" + unique
  }

  // ----- which records an operation sees -----

  predicate Readable(s: Store, i: string) {
    i in s && s[i].Stored?
  }

  /** What retention counts: the prefix and the kind, not the task. */
  predicate Matches(s: Store, task: string, kind: Kind, i: string) {
    Readable(s, i) && Prefix(task) <= i && s[i].checkpoint.kind == kind
  }

  function MatchTimes(s: Store, task: string, kind: Kind): map<string, nat> {
    map i | i in s && Matches(s, task, kind, i) :: s[i].checkpoint.createdAt
  }

  /** The store without the matching records that have the maximum of newer ones. */
  function Pruned(s: Store, task: string, kind: Kind): Store {
    map i | i in s && (Matches(s, task, kind, i) ==> i in Newest(MatchTimes(s, task, kind), MAX_CHECKPOINTS_PER_TASK))
      :: s[i]
  }

  /** The state to resume from, if the record is fit for it. */
  function Restored(c: Checkpoint): Option<ResumeState> {
    if c.kind == TaskRuntime && c.task != "" && c.iri != "" && c.transcript.messages.Some? && c.state.Some?
       && ValidForTranscript(c.state.value, c.transcript) && ValidForResume(c.state.value)
       && c.state.value.name == c.name && c.state.value.iri == c.iri
    then c.state else None
  }

  /** What deserialization checks before a record becomes a candidate. */
  predicate Loadable(c: Checkpoint) {
    && c.task != "" && c.iri != ""
    && (if c.kind == TaskRuntime then c.state.Some? && ValidState(c.state.value) else c.state.None?)
  }

  predicate Listed(s: Store, task: string, kind: Kind, i: string) {
    Matches(s, task, kind, i) && Loadable(s[i].checkpoint) && s[i].checkpoint.task == task
  }

  function ListTimes(s: Store, task: string, kind: Kind): map<string, nat> {
    map i | i in s && Listed(s, task, kind, i) :: s[i].checkpoint.createdAt
  }

  predicate CommitAt(s: Store, task: string, i: string) {
    && Matches(s, task, TaskRuntime, i) && s[i].checkpoint.task == task
    && Restored(s[i].checkpoint).Some? && IsCommit(Restored(s[i].checkpoint).value.name)
  }

  /** `base` is the state of the newest commit of the task in the store, if there is one. */
  ghost predicate IsBase(s: Store, task: string, base: Option<ResumeState>) {
    if base.None? then forall i :: !CommitAt(s, task, i)
    else exists i :: CommitAt(s, task, i) && Restored(s[i].checkpoint) == base
           && forall j :: CommitAt(s, task, j) ==> s[j].checkpoint.createdAt <= s[i].checkpoint.createdAt
  }

  /** Timestamps lie before the clock and never repeat. */
  ghost predicate Clocked(s: Store, clock: nat) {
    && (forall i :: Readable(s, i) ==> s[i].checkpoint.createdAt < clock)
    && (forall i, j :: Readable(s, i) && Readable(s, j) && i != j ==>
          s[i].checkpoint.createdAt != s[j].checkpoint.createdAt)
  }

  /** A restorable record among the newest listed ones; all newer ones of those cannot be resumed from. */
  ghost predicate IsRestorable(s: Store, task: string, r: Option<Checkpoint>) {
    var newest := Newest(ListTimes(s, task, TaskRuntime), MAX_CHECKPOINTS_PER_TASK);
    if r.None? then forall i :: i in newest ==> Restored(s[i].checkpoint).None?
    else exists i :: i in newest && s[i].checkpoint == r.value && Restored(r.value).Some?
           && forall j :: j in newest && Restored(s[j].checkpoint).Some? ==>
                s[j].checkpoint.createdAt <= r.value.createdAt
  }

  // ----- transitions -----

  datatype Op =
    | Create(kind: Kind, task: string, fields: Fields, unique: string)
    | Delete(iri: string)
    | Register(task: string, contract: Contract)

  /** The store, the registered contracts, the clock, and every record ever created. */
  datatype World = World(store: Store, contracts: map<string, Contract>, clock: nat, history: seq<Checkpoint>)

  function NewCheckpoint(w: World, kind: Kind, task: string, f: Fields, iri: string,
                         base: Option<ResumeState>): Result<Checkpoint>
  {
    if kind == BizOrchestration then
      Ok(Checkpoint(kind, iri, task, f.name, w.clock, f.transcript, f.actions, None))
    else if task !in w.contracts || !w.contracts[task].valid then Err("canonical resume contract is not registered")
    else
      var state := FromFields(iri, f, base, w.contracts[task]);
      if state.Err? then Err(state.message)
      else Ok(Checkpoint(kind, iri, task, f.name, w.clock, f.transcript, f.actions, Some(state.value)))
  }

  function AfterCreate(w: World, c: Result<Checkpoint>): World {
    if c.Err? then w
    else World(Pruned(w.store[c.value.iri := Stored(c.value)], c.value.task, c.value.kind), w.contracts,
               w.clock + 1, w.history + [c.value])
  }

  /** One operation of the manager. */
  ghost predicate Next(w: World, op: Op, w': World) {
    match op
    case Register(task, contract) =>
      w' == if Trim(task) == "" || !contract.valid then w else w.(contracts := w.contracts[task := contract])
    case Delete(iri) => w' == w.(store := w.store - {iri})
    case Create(kind, task, f, unique) =>
      exists base ::
        IsBase(w.store, task, base)
        && w' == AfterCreate(w, NewCheckpoint(w, kind, task, f, CheckpointIri(task, kind, unique), base))
  }

  class CheckpointManager {
    var store: Store
    var contracts: map<string, Contract>
    var clock: nat
    ghost var history: seq<Checkpoint>

    ghost function Current(): World
      reads this
    {
      World(store, contracts, clock, history)
    }

    constructor ()
      ensures Current() == World(map[], map[], 0, [])
    {
      store, contracts, clock, history := map[], map[], 0, [];
    }

    method RegisterTaskContract(task: string, contract: Contract) returns (r: Result<()>)
      modifies this`contracts
      ensures Next(old(Current()), Register(task, contract), Current())
      ensures r.Ok? <==> Trim(task) != "" && contract.valid
    {
      if Trim(task) == "" {
        return Err("cannot register a resume contract without a task");
      }
      if !contract.valid {
        return Err("invalid contract");
      }
      contracts := contracts[task := contract];
      r := Ok(());
    }

    method DeleteCheckpoint(iri: string) returns (r: Result<()>)
      modifies this`store
      ensures Next(old(Current()), Delete(iri), Current())
      ensures r.Ok? <==> iri in old(store)
    {
      if iri !in store {
        assert store - {iri} == store;
        return Err("checkpoint not found");
      }
      store := store - {iri};
      r := Ok(());
    }

    /** The newest commit is the only base for a new record. */
    method LatestCommittedRuntimeState(task: string) returns (base: Option<ResumeState>)
      ensures IsBase(store, task, base)
    {
      hide CommitAt, Restored;
      OnlyStoredCommit(store, task);
      base := None;
      ghost var at := "";
      var newest := 0;
      var remaining := store.Keys;
      while remaining != {}
        invariant remaining <= store.Keys
        invariant base.None? ==> forall i :: i in store.Keys - remaining ==> !CommitAt(store, task, i)
        invariant base.Some? ==>
          && at in store.Keys - remaining && CommitAt(store, task, at) && Restored(store[at].checkpoint) == base
          && newest == store[at].checkpoint.createdAt
          && forall j :: j in store.Keys - remaining && CommitAt(store, task, j) ==>
               store[j].checkpoint.createdAt <= newest
        decreases remaining
      {
        var i :| i in remaining;
        if CommitAt(store, task, i) && (base.None? || store[i].checkpoint.createdAt >= newest) {
          CommitIsRestorable(store, task, i);
          base := Restored(store[i].checkpoint);
          newest := store[i].checkpoint.createdAt;
          at := i;
        }
        remaining := remaining - {i};
      }
    }

    method CreateCheckpoint(kind: Kind, task: string, f: Fields, unique: string) returns (r: Result<Checkpoint>)
      requires Clocked(store, clock) && CheckpointIri(task, kind, unique) !in store
      modifies this
      ensures Next(old(Current()), Create(kind, task, f, unique), Current())
      ensures exists base ::
        IsBase(old(store), task, base)
        && r == NewCheckpoint(old(Current()), kind, task, f, CheckpointIri(task, kind, unique), base)
        && Current() == AfterCreate(old(Current()), r)
      ensures Clocked(store, clock)
    {
      hide Pruned, CheckpointIri, IsBase, FromFields, Prefix;
      var iri := CheckpointIri(task, kind, unique);
      ghost var before := Current();
      var base := LatestCommittedRuntimeState(task);
      var state: Option<ResumeState> := None;
      if kind == TaskRuntime {
        if task !in contracts || !contracts[task].valid {
          r := Err("canonical resume contract is not registered");
          assert r == NewCheckpoint(before, kind, task, f, iri, base);
          return;
        }
        var built := BuildState(iri, f, base, contracts[task]);
        if built.Err? {
          r := Err(built.message);
          assert r == NewCheckpoint(before, kind, task, f, iri, base);
          return;
        }
        state := Some(built.value);
      }
      var c := Checkpoint(kind, iri, task, f.name, clock, f.transcript, f.actions, state);
      r := Ok(c);
      assert r == NewCheckpoint(before, kind, task, f, iri, base);
      ClockedAfterAdd(store, clock, c);
      store := store[iri := Stored(c)];
      clock := clock + 1;
      history := history + [c];
      PruneOldest(task, kind);
      assert Current() == AfterCreate(before, r);
    }

    /** Sorts the matching records by age and deletes the oldest beyond the limit. */
    method PruneOldest(task: string, kind: Kind)
      requires Clocked(store, clock)
      modifies this`store
      ensures store == Pruned(old(store), task, kind)
      ensures Clocked(store, clock)
    {
      hide Matches, Newest, Listing;
      var checkpoints := MatchingByAge(task, kind);
      var removeCount := if |checkpoints| > MAX_CHECKPOINTS_PER_TASK then |checkpoints| - MAX_CHECKPOINTS_PER_TASK else 0;
      for k := 0 to removeCount
        invariant store == old(store) - Keys(checkpoints[..k])
      {
        KeysStep(checkpoints, k);
        store := store - {checkpoints[k].0};
      }
      OldestAreEvicted(store, old(store), task, kind, checkpoints, removeCount, clock);
    }

    /** The identifiers and times of the matching records, oldest first. */
    method MatchingByAge(task: string, kind: Kind) returns (sorted: seq<(string, nat)>)
      ensures Listing(sorted, MatchTimes(store, task, kind))
      ensures forall i, j :: 0 <= i < j < |sorted| ==> sorted[i].1 <= sorted[j].1
    {
      var pairs := Pairs(MatchTimes(store, task, kind));
      sorted := Sorting.Sort(pairs, OlderFirst);
      SortedAscending(pairs, MatchTimes(store, task, kind));
    }

    /** The records of one kind, newest first, up to the limit. */
    method ListByKind(task: string, kind: Kind, limit: nat) returns (listed: seq<string>)
      requires Clocked(store, clock)
      ensures forall k :: 0 <= k < |listed| ==> listed[k] in Newest(ListTimes(store, task, kind), limit)
      ensures forall i :: i in Newest(ListTimes(store, task, kind), limit) ==> i in listed
      ensures forall j, k :: 0 <= j < k < |listed| ==>
        listed[j] in store && listed[k] in store
        && store[listed[j]].Stored? && store[listed[k]].Stored?
        && store[listed[j]].checkpoint.createdAt > store[listed[k]].checkpoint.createdAt
    {
      hide Listed;
      var pairs := Pairs(ListTimes(store, task, kind));
      var sorted := Sorting.Sort(pairs, NewerFirst);
      ghost var times := ListTimes(store, task, kind);
      SortedDescending(pairs, times);
      TimesDistinct(store, task, kind, clock);
      var count := if |sorted| > limit then limit else |sorted|;
      listed := seq(count, k requires 0 <= k < count => sorted[k].0);
      FirstAreNewest(sorted, times, limit, listed);
      ListedAreStored(store, task, kind);
    }

    /** The newest record that can be resumed from; records that cannot are skipped. */
    method RestoreTask(task: string) returns (r: Option<Checkpoint>)
      requires Clocked(store, clock)
      ensures IsRestorable(store, task, r)
    {
      hide Newest, Restored, Listed;
      var listed := ListByKind(task, TaskRuntime, MAX_CHECKPOINTS_PER_TASK);
      ListedAreStored(store, task, TaskRuntime);
      NewestAreKeys(ListTimes(store, task, TaskRuntime), MAX_CHECKPOINTS_PER_TASK);
      for k := 0 to |listed|
        invariant forall j :: 0 <= j < k ==> Restored(store[listed[j]].checkpoint).None?
      {
        assert listed[k] in Newest(ListTimes(store, task, TaskRuntime), MAX_CHECKPOINTS_PER_TASK);
        var c := store[listed[k]].checkpoint;
        if Restored(c).Some? {
          forall i | i in Newest(ListTimes(store, task, TaskRuntime), MAX_CHECKPOINTS_PER_TASK)
                     && Restored(store[i].checkpoint).Some?
            ensures store[i].checkpoint.createdAt <= c.createdAt
          {
            assert i in listed;
            var j :| 0 <= j < |listed| && listed[j] == i;
          }
          return Some(c);
        }
      }
      r := None;
    }
  }

  // ----- lemmas of the methods -----

  /** A map as a list, in no particular order. */
  method Pairs(times: map<string, nat>) returns (pairs: seq<(string, nat)>)
    ensures Listing(pairs, times)
  {
    pairs := [];
    var remaining := times.Keys;
    while remaining != {}
      invariant remaining <= times.Keys
      invariant forall i, j :: 0 <= i < j < |pairs| ==> pairs[i].0 != pairs[j].0
      invariant forall i :: 0 <= i < |pairs| ==> pairs[i].0 in times.Keys - remaining && times[pairs[i].0] == pairs[i].1
      invariant forall x :: x in times.Keys - remaining ==> (x, times[x]) in pairs
      decreases remaining
    {
      var x :| x in remaining;
      ghost var before := pairs;
      pairs := pairs + [(x, times[x])];
      assert pairs[|before|] == (x, times[x]);
      assert forall e :: e in before ==> e in pairs;
      remaining := remaining - {x};
    }
  }

  lemma CommitIsRestorable(s: Store, task: string, i: string)
    requires CommitAt(s, task, i)
    ensures i in s && s[i].Stored? && Restored(s[i].checkpoint).Some?
  {
  }

  lemma OnlyStoredCommit(s: Store, task: string)
    ensures forall i :: CommitAt(s, task, i) ==> i in s && s[i].Stored?
  {
  }

  lemma ClockedAfterAdd(s: Store, clock: nat, c: Checkpoint)
    requires Clocked(s, clock) && c.createdAt == clock && c.iri !in s
    ensures Clocked(s[c.iri := Stored(c)], clock + 1)
  {
  }

  lemma ClockedSubset(s: Store, t: Store, clock: nat)
    requires Clocked(s, clock) && forall i :: i in t ==> i in s && t[i] == s[i]
    ensures Clocked(t, clock)
  {
  }

  lemma TimesDistinct(s: Store, task: string, kind: Kind, clock: nat)
    requires Clocked(s, clock)
    ensures Distinct(MatchTimes(s, task, kind)) && Distinct(ListTimes(s, task, kind))
  {
  }

  lemma KeysStep(s: seq<(string, nat)>, k: nat)
    requires k < |s|
    ensures Keys(s[..k + 1]) == Keys(s[..k]) + {s[k].0}
  {
    var longer := s[..k + 1];
    assert longer[k] == s[k];
    assert forall i :: 0 <= i < k ==> longer[i] == s[..k][i];
  }

  lemma OldestAreEvicted(now: Store, before: Store, task: string, kind: Kind, sorted: seq<(string, nat)>,
                         removeCount: nat, clock: nat)
    requires Clocked(before, clock)
    requires Listing(sorted, MatchTimes(before, task, kind))
    requires forall i, j :: 0 <= i < j < |sorted| ==> sorted[i].1 <= sorted[j].1
    requires removeCount
             == if |sorted| > MAX_CHECKPOINTS_PER_TASK then |sorted| - MAX_CHECKPOINTS_PER_TASK else 0
    requires now == before - Keys(sorted[..removeCount])
    ensures now == Pruned(before, task, kind)
    ensures Clocked(now, clock)
  {
    hide Matches, Newest, Listing, Keys;
    var times := MatchTimes(before, task, kind);
    TimesDistinct(before, task, kind, clock);
    EvictedAreOld(sorted, times, removeCount);
    assert forall i :: i in times <==> i in before && Matches(before, task, kind, i);
    ClockedSubset(before, now, clock);
  }

  /** The first entries of a list from old to new are those that are not among the newest. */
  lemma EvictedAreOld(sorted: seq<(string, nat)>, times: map<string, nat>, removeCount: nat)
    requires Listing(sorted, times) && Distinct(times)
    requires forall i, j :: 0 <= i < j < |sorted| ==> sorted[i].1 <= sorted[j].1
    requires removeCount
             == if |sorted| > MAX_CHECKPOINTS_PER_TASK then |sorted| - MAX_CHECKPOINTS_PER_TASK else 0
    ensures forall i :: i in Keys(sorted[..removeCount])
                        <==> i in times && i !in Newest(times, MAX_CHECKPOINTS_PER_TASK)
  {
    forall i | i in times
      ensures i in Keys(sorted[..removeCount]) <==> i !in Newest(times, MAX_CHECKPOINTS_PER_TASK)
    {
      assert (i, times[i]) in sorted;
      var k :| 0 <= k < |sorted| && sorted[k] == (i, times[i]);
      NewerInAscending(sorted, times, k);
      OnlyPlace(sorted, removeCount, k);
    }
    forall i | i in Keys(sorted[..removeCount])
      ensures i in times
    {
      var k :| 0 <= k < removeCount && sorted[..removeCount][k].0 == i;
      assert sorted[k].0 == i;
    }
  }

  lemma OnlyPlace(s: seq<(string, nat)>, n: nat, k: nat)
    requires n <= |s| && k < |s| && forall i, j :: 0 <= i < j < |s| ==> s[i].0 != s[j].0
    ensures s[k].0 in Keys(s[..n]) <==> k < n
  {
    if k < n {
      assert s[..n][k].0 == s[k].0;
    }
    assert forall i :: 0 <= i < n ==> s[..n][i] == s[i];
  }

  lemma FirstAreNewest(sorted: seq<(string, nat)>, times: map<string, nat>, limit: nat, listed: seq<string>)
    requires Listing(sorted, times) && Distinct(times)
    requires forall i, j :: 0 <= i < j < |sorted| ==> sorted[i].1 >= sorted[j].1
    requires |listed| == if |sorted| > limit then limit else |sorted|
    requires forall k :: 0 <= k < |listed| ==> listed[k] == sorted[k].0
    ensures forall k :: 0 <= k < |listed| ==> listed[k] in Newest(times, limit)
    ensures forall i :: i in Newest(times, limit) ==> i in listed
    ensures forall j, k :: 0 <= j < k < |listed| ==>
      listed[j] in times && listed[k] in times && times[listed[j]] > times[listed[k]]
  {
    forall k | 0 <= k < |sorted|
      ensures |Newer(times, sorted[k].1)| == k
    {
      NewerInDescending(sorted, times, k);
    }
    forall i | i in Newest(times, limit)
      ensures i in listed
    {
      assert (i, times[i]) in sorted;
      var k :| 0 <= k < |sorted| && sorted[k] == (i, times[i]);
      assert listed[k] == i;
    }
  }

  lemma ListedAreStored(s: Store, task: string, kind: Kind)
    ensures forall i :: i in ListTimes(s, task, kind) ==>
      i in s && s[i].Stored? && ListTimes(s, task, kind)[i] == s[i].checkpoint.createdAt
  {
  }

  lemma NewestAreKeys(times: map<string, nat>, limit: nat)
    ensures forall i :: i in Newest(times, limit) ==> i in times
  {
  }

  // ----- identifiers and the fitness of stored records -----

  /** How identifiers read. */
  lemma IriReads(name: string, kind: Kind, unique: string)
    requires !("iri://" <= name)
    ensures CheckpointIri("iri://" + name, kind, unique) == CheckpointIri(name, kind, unique)
    ensures CheckpointIri(name, kind, unique)
            == "iri://checkpoint/" + (name + "/") + (if kind == TaskRuntime then "task_runtime" else "biz_orchestration")
               + "/" + unique
  {
    assert ("iri://" + name)[6..] == name;
  }

  /** A runtime record that can be resumed from: it fits itself and its transcript, and no substantive effect is open. */
  ghost predicate CanResume(c: Checkpoint) {
    && c.kind == TaskRuntime && c.task != "" && c.iri != "" && c.transcript.messages.Some? && c.state.Some?
    && var s := c.state.value;
       && FitsItself(s) && s.name == c.name && s.iri == c.iri
       && (if s.active.Some? then s.active.value.transcriptDigest == c.transcript.digest
           else c.transcript.messages == Some([]))
       && forall i :: 0 <= i < |s.tracked| && s.tracked[i].substantive ==> s.tracked[i].id in s.committed
  }

  /** A record is restored, with the state it holds, exactly when it can be resumed from. */
  lemma RestoredExactlyWhen(c: Checkpoint)
    ensures Restored(c) == if CanResume(c) then c.state else None
  {
    hide FitsItself, ValidState;
    if c.state.Some? {
      ValidExactlyWhen(c.state.value);
    }
  }

  /** A record is a candidate exactly when it reads back and belongs to the task, whatever its transcript. */
  lemma ListedExactlyWhen(s: Store, task: string, kind: Kind, i: string)
    ensures Listed(s, task, kind, i)
            <==> && i in s && s[i].Stored? && Prefix(task) <= i && task != ""
                 && var c := s[i].checkpoint;
                    && c.kind == kind && c.task == task && c.iri != ""
                    && if kind == TaskRuntime then c.state.Some? && FitsItself(c.state.value) else c.state.None?
  {
    hide FitsItself, ValidState, Prefix;
    if Readable(s, i) && s[i].checkpoint.state.Some? {
      ValidExactlyWhen(s[i].checkpoint.state.value);
    }
  }

  /** A commit to build on is a record of the task, found by its prefix, that can be resumed from and is named as a commit. */
  lemma CommitExactlyWhen(s: Store, task: string, i: string)
    ensures CommitAt(s, task, i)
            <==> && i in s && s[i].Stored? && Prefix(task) <= i && s[i].checkpoint.task == task
                 && CanResume(s[i].checkpoint) && "step_complete_" <= s[i].checkpoint.name
  {
    hide CanResume, Restored, Prefix;
    if Readable(s, i) {
      RestoredExactlyWhen(s[i].checkpoint);
      ResumableIsNamed(s[i].checkpoint);
    }
  }

  lemma ResumableIsNamed(c: Checkpoint)
    ensures CanResume(c) ==> c.kind == TaskRuntime && c.state.Some? && c.state.value.name == c.name
  {
    hide FitsItself;
  }
}
