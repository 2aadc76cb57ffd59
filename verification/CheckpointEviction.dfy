/**
 * A run in which retention evicts the only commit of a task: one commit, then
 * twenty in-flight records.
 */
module CheckpointEviction {
  import opened Options
  import opened Text
  import opened CheckpointState
  import opened Retention
  import opened CheckpointStore
  import opened CheckpointRuns
  import Sums

  const Task := "t"
  const Plan := Contract("", true, {})
  const CommitFields :=
    Fields("step_complete_1", Transcript("", Some([])), Totals(1, 1), Absent, None, None, Present(Dag(map[], {})), Absent)
  const AgentFields :=
    Fields("agent", Transcript("d", None), Totals(1, 1), Present(Continuation(true, "r", "d", 1, 1)), None, None,
           Absent, Absent)

  /** A string that occurs once: as many letters as records before. */
  function Unique(n: nat): string {
    seq(n, _ => 'x')
  }

  function Iri(n: nat): string {
    CheckpointIri(Task, TaskRuntime, Unique(n))
  }

  function FieldsAt(n: nat): Fields {
    if n == 0 then CommitFields else AgentFields
  }

  /** The state of the commit, which is the base of all later records. */
  function CommitState(): ResumeState {
    Derived(Iri(0), CommitFields, None, Plan)
  }

  function BaseAt(n: nat): Option<ResumeState> {
    if n == 0 then None else Some(CommitState())
  }

  /** Record `n`: the commit, or one of the in-flight records after it. */
  function Record(n: nat): Checkpoint {
    Checkpoint(TaskRuntime, Iri(n), Task, FieldsAt(n).name, n, FieldsAt(n).transcript, Absent,
               Some(Derived(Iri(n), FieldsAt(n), BaseAt(n), Plan)))
  }

  function Records(n: nat): Store {
    if n == 0 then map[] else Records(n - 1)[Iri(n - 1) := Stored(Record(n - 1))]
  }

  function History(n: nat): seq<Checkpoint> {
    seq(n, i requires 0 <= i < n => Record(i))
  }

  /** The world once the contract is registered and `n` records are written, all of them kept. */
  function Filled(n: nat): World {
    World(Records(n), map[Task := Plan], n, History(n))
  }

  function OpAt(n: nat): Op {
    Create(TaskRuntime, Task, FieldsAt(n), Unique(n))
  }

  lemma IrisDiffer(i: nat, j: nat)
    ensures Iri(i) == Iri(j) <==> i == j
  {
    assert |Iri(i)| - |Iri(j)| == i - j;
  }

  lemma {:induction false} RecordAt(n: nat, i: nat)
    ensures Iri(i) in Records(n) <==> i < n
    ensures i < n ==> Records(n)[Iri(i)] == Stored(Record(i))
  {
    hide Iri, Record;
    if n > 0 {
      RecordAt(n - 1, i);
      IrisDiffer(i, n - 1);
    }
  }

  lemma {:induction false} KeyIsIri(n: nat, key: string)
    ensures key in Records(n) ==> exists i: nat :: i < n && key == Iri(i)
  {
    hide Iri, Record;
    if n > 0 {
      KeyIsIri(n - 1, key);
    }
  }

  lemma {:induction false} RecordsSize(n: nat)
    ensures |Records(n).Keys| == n
  {
    hide Iri, Record, Records;
    if n == 0 {
      NoRecords();
    } else {
      RecordsSize(n - 1);
      RecordAt(n - 1, n - 1);
      RecordsNext(n - 1);
      assert Records(n).Keys == Records(n - 1).Keys + {Iri(n - 1)};
    }
  }

  lemma NoRecords()
    ensures Records(0) == map[]
  {
  }

  lemma RecordsNext(n: nat)
    ensures Records(n + 1) == Records(n)[Iri(n) := Stored(Record(n))]
  {
  }

  // ----- every record is accepted -----

  lemma StatesAreValid(n: nat)
    ensures FromFields(Iri(n), FieldsAt(n), BaseAt(n), Plan).Ok?
    ensures var s := Derived(Iri(n), FieldsAt(n), BaseAt(n), Plan);
            && FromFields(Iri(n), FieldsAt(n), BaseAt(n), Plan) == Ok(s)
            && s.name == FieldsAt(n).name && s.iri == Iri(n) && s.tracked == [] && s.committed == {}
  {
    hide Iri;
    IriIsNotEmpty(n);
    IriIsNotEmpty(0);
    assert Ids([]) == {};
    assert Merged([], []) == [];
    CommitNames();
    assert !Refused(FieldsAt(n));
    assert CommitState().tracked == [] && CommitState().committed == {} && CommitState().dag == Dag(map[], {});
  }

  lemma IriIsNotEmpty(n: nat)
    ensures Iri(n) != "" && Prefix(Task) <= Iri(n)
  {
    IriHasPrefix(Task, TaskRuntime, Unique(n));
    assert |Prefix(Task)| > 0;
  }

  lemma CommitNames()
    ensures IsCommit("step_complete_1") && !IsCommit("agent")
  {
    assert "agent"[0] != "step_complete_"[0];
  }

  /** The commit is what a new record builds on, as long as it is stored. */
  lemma CommitIsBase(s: Store, n: nat)
    requires forall key :: key in s ==> key in Records(n) && s[key] == Records(n)[key]
    ensures IsBase(s, Task, if Iri(0) in s then Some(CommitState()) else None)
  {
    hide Iri, Records, Prefix, Record, ValidForTranscript, ValidForResume, CommitState;
    forall key | key in s
      ensures CommitAt(s, Task, key) <==> key == Iri(0)
      ensures key == Iri(0) ==> Restored(s[key].checkpoint) == Some(CommitState())
    {
      KeyIsIri(n, key);
      var i: nat :| i < n && key == Iri(i);
      RecordAt(n, i);
      IrisDiffer(i, 0);
      OnlyFirstCommits(i);
      IriIsNotEmpty(i);
      assert s[key] == Stored(Record(i));
      RecordParts(i);
    }
  }

  lemma RecordParts(i: nat)
    ensures Record(i).kind == TaskRuntime && Record(i).task == Task && Record(i).createdAt == i && Record(i).iri == Iri(i)
  {
  }

  lemma OnlyFirstCommits(i: nat)
    ensures i == 0 ==> Restored(Record(i)) == Some(CommitState()) && IsCommit(CommitState().name)
    ensures i > 0 ==> Restored(Record(i)).Some? ==> !IsCommit(Restored(Record(i)).value.name)
  {
    hide Iri;
    StatesAreValid(i);
    IriIsNotEmpty(i);
    CommitNames();
  }

  // ----- retention -----

  lemma TimesOfRecords(n: nat)
    ensures MatchTimes(Records(n), Task, TaskRuntime).Keys == Records(n).Keys
    ensures |MatchTimes(Records(n), Task, TaskRuntime)| == n
    ensures forall i: nat :: i < n ==> Iri(i) in Records(n) && MatchTimes(Records(n), Task, TaskRuntime)[Iri(i)] == i
  {
    hide Iri, Records, Prefix, Record;
    var times := MatchTimes(Records(n), Task, TaskRuntime);
    RecordsSize(n);
    forall key | key in Records(n)
      ensures key in times
    {
      KeyIsIri(n, key);
      var i: nat :| i < n && key == Iri(i);
      RecordAt(n, i);
      RecordParts(i);
      IriIsNotEmpty(i);
    }
    forall i: nat | i < n
      ensures Iri(i) in Records(n) && times[Iri(i)] == i
    {
      RecordAt(n, i);
      RecordParts(i);
    }
    assert times.Keys == Records(n).Keys && |times| == |times.Keys|;
  }

  lemma FewAreKept(n: nat)
    requires n <= MAX_CHECKPOINTS_PER_TASK
    ensures Pruned(Records(n), Task, TaskRuntime) == Records(n)
  {
    hide Iri, Records, Prefix, Record, Matches, Newest;
    TimesOfRecords(n);
    forall key | key in Records(n)
      ensures key in Newest(MatchTimes(Records(n), Task, TaskRuntime), MAX_CHECKPOINTS_PER_TASK)
    {
      FewAreAllNewest(MatchTimes(Records(n), Task, TaskRuntime), MAX_CHECKPOINTS_PER_TASK, key);
    }
  }

  lemma CommitIsEvicted()
    ensures Iri(0) !in Pruned(Records(21), Task, TaskRuntime)
  {
    hide Iri, Records, Prefix, Record, Matches, MatchTimes;
    var times := MatchTimes(Records(21), Task, TaskRuntime);
    TimesOfRecords(21);
    forall key | key in times
      ensures times[key] == 0 <==> key == Iri(0)
    {
      KeyIsIri(21, key);
      var i: nat :| i < 21 && key == Iri(i);
      assert times[Iri(i)] == i;
    }
    assert Newer(times, 0) == times.Keys - {Iri(0)};
    assert |times.Keys| == 21;
    assert times[Iri(0)] == 0 && |Newer(times, 0)| == 20;
    IriMatches();
  }

  lemma IriMatches()
    ensures Matches(Records(21), Task, TaskRuntime, Iri(0))
  {
    hide Iri, Records, Prefix, Record;
    RecordAt(21, 0);
    RecordParts(0);
    IriIsNotEmpty(0);
  }

  // ----- the run -----

  lemma RecordIsNew(n: nat)
    ensures NewCheckpoint(Filled(n), TaskRuntime, Task, FieldsAt(n), Iri(n), BaseAt(n)) == Ok(Record(n))
    ensures Iri(n) !in Filled(n).store
  {
    hide Iri, Records, FromFields, History;
    StatesAreValid(n);
    RecordAt(n, n);
  }

  /** What writing record `n` leaves behind. */
  function Written(n: nat): World {
    AfterCreate(Filled(n), Ok(Record(n)))
  }

  lemma WritesRecord(n: nat)
    ensures Next(Filled(n), OpAt(n), Written(n)) && FreshFor(Filled(n), OpAt(n))
    ensures Written(n).store == Pruned(Records(n + 1), Task, TaskRuntime)
    ensures n < MAX_CHECKPOINTS_PER_TASK ==> Written(n) == Filled(n + 1)
  {
    hide Iri, NewCheckpoint, IsBase, Pruned, FieldsAt, Record, Records, History, CommitState, CheckpointIri;
    RecordIsNew(n);
    RecordParts(n);
    BaseIsStored(n);
    IriIs(n);
    RecordsNext(n);
    HistoryNext(n);
    if n < MAX_CHECKPOINTS_PER_TASK {
      FewAreKept(n + 1);
    }
  }

  lemma HistoryNext(n: nat)
    ensures History(n) + [Record(n)] == History(n + 1)
  {
  }

  lemma IriIs(n: nat)
    ensures Iri(n) == CheckpointIri(Task, TaskRuntime, Unique(n))
  {
  }

  lemma BaseIsStored(n: nat)
    ensures IsBase(Records(n), Task, BaseAt(n))
  {
    hide Iri, IsBase;
    CommitIsBase(Records(n), n);
    RecordAt(n, 0);
  }

  /**
   * Retention can evict the newest commit: in this run it is the base for
   * twenty in-flight records, and writing the twentieth leaves no base at all.
   */
  lemma CommitCanBeEvicted() returns (worlds: seq<World>, ops: seq<Op>)
    ensures IsRun(worlds, ops, {Task}) && Separate({Task}) && |ops| == 22
    ensures ops[21].Create? && ops[21].kind == TaskRuntime && !IsCommit(ops[21].fields.name)
    ensures exists commit :: IsBase(worlds[21].store, Task, Some(commit)) && IsCommit(commit.name)
    ensures IsBase(worlds[22].store, Task, None)
  {
    hide Next, Iri, IsBase, Pruned, Records, Record, FreshFor, History, CommitState;
    worlds := [World(map[], map[], 0, [])] + seq(21, n requires 0 <= n < 21 => Filled(n)) + [Written(20)];
    ops := [Register(Task, Plan)] + seq(21, n requires 0 <= n < 21 => OpAt(n));
    RegistersPlan();
    forall k | 0 <= k < |ops|
      ensures OpTaskIn(ops[k], {Task}) && FreshFor(worlds[k], ops[k]) && Next(worlds[k], ops[k], worlds[k + 1])
    {
      if k > 0 {
        WritesRecord(k - 1);
      }
    }
    WritesRecord(20);
    BaseIsStored(20);
    CommitNames();
    OnlyFirstCommits(0);
    CommitIsEvicted();
    CommitIsBase(worlds[22].store, 21) by {
      PrunedIsPart(Records(21));
    }
  }

  lemma PrunedIsPart(s: Store)
    ensures forall key :: key in Pruned(s, Task, TaskRuntime) ==> key in s && Pruned(s, Task, TaskRuntime)[key] == s[key]
  {
  }

  lemma RegistersPlan()
    ensures Next(World(map[], map[], 0, []), Register(Task, Plan), Filled(0))
    ensures FreshFor(World(map[], map[], 0, []), Register(Task, Plan))
  {
    assert Trim(Task) == "t";
  }
}
