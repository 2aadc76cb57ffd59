/**
 * What a checkpoint records for resumption, how it is derived from the newest
 * commit and the caller's fields, and when it may be resumed from. A
 * serialized transcript stands for what the code can see of it: its SHA-256
 * receipt and the messages it parses to.
 */
module CheckpointState {
  import opened Options

  type NodeId = string
  type ActionId = string

  const RESUME_STATE_SCHEMA_VERSION: nat := 8

  datatype Kind = TaskRuntime | BizOrchestration

  /** A serialized field: missing, not parseable, or a value. */
  datatype Field<+T> = Absent | Malformed | Present(value: T)

  datatype Action = Action(id: ActionId, substantive: bool)

  datatype NodeResult = NodeResult(nodeId: NodeId, outcome: string)

  datatype Transcript = Transcript(digest: string, messages: Option<seq<string>>)

  /** The task authority: whether it validates, and the nodes of its plan. */
  datatype Contract = Contract(body: string, valid: bool, planNodes: set<NodeId>)

  /** The receipt of an interrupted agent; `complete` covers its version, identity and digest formats. */
  datatype Continuation =
    Continuation(complete: bool, role: string, transcriptDigest: string, localTurns: nat, localTools: nat)

  datatype Totals = Totals(turns: nat, tools: nat)

  datatype Dag = Dag(completed: map<NodeId, NodeResult>, skipped: set<NodeId>)

  /** What the caller of a create hands in. */
  datatype Fields = Fields(
    name: string, transcript: Transcript, local: Totals, active: Field<Continuation>, role: Option<string>,
    prevSummary: Option<string>, dag: Field<Dag>, actions: Field<seq<Action>>)

  datatype ResumeState = ResumeState(
    schemaVersion: nat, iri: string, name: string, totals: Totals, active: Option<Continuation>,
    role: Option<string>, prevSummary: Option<string>, tracked: seq<Action>, committed: set<ActionId>,
    dag: Dag, contract: Contract)

  /** Names of supervisor commits. */
  predicate IsCommit(name: string) {
    "step_complete_" <= name
  }

  // ----- receipts -----

  function Ids(actions: seq<Action>): set<ActionId> {
    set i | 0 <= i < |actions| :: actions[i].id
  }

  ghost predicate UniqueIds(actions: seq<Action>) {
    forall i, j :: 0 <= i < j < |actions| ==> actions[i].id != actions[j].id
  }

  predicate HasId(actions: seq<Action>, id: ActionId) {
    exists i :: 0 <= i < |actions| && actions[i].id == id
  }

  /** `base`, followed by those of `own` whose id is not yet there. */
  function Merged(base: seq<Action>, own: seq<Action>): seq<Action> {
    if own == [] then base
    else
      var earlier, last := Merged(base, own[..|own| - 1]), own[|own| - 1];
      if HasId(earlier, last.id) then earlier else earlier + [last]
  }

  method MergeActions(base: seq<Action>, own: seq<Action>) returns (tracked: seq<Action>)
    ensures tracked == Merged(base, own)
  {
    tracked := base;
    for i := 0 to |own|
      invariant tracked == Merged(base, own[..i])
    {
      assert own[..i + 1][..i] == own[..i];
      if !HasId(tracked, own[i].id) {
        tracked := tracked + [own[i]];
      }
    }
    assert own[..|own|] == own;
  }

  lemma IdsAppend(actions: seq<Action>, a: Action)
    ensures Ids(actions + [a]) == Ids(actions) + {a.id}
    ensures HasId(actions, a.id) <==> a.id in Ids(actions)
  {
    var more := actions + [a];
    assert more[|actions|] == a;
    assert forall i :: 0 <= i < |actions| ==> more[i] == actions[i];
  }

  /** Merging keeps the base in front, adds exactly the own ids, and repeats none. */
  lemma {:induction false} MergedIsExact(base: seq<Action>, own: seq<Action>)
    ensures base <= Merged(base, own)
    ensures Ids(Merged(base, own)) == Ids(base) + Ids(own)
    ensures UniqueIds(base) ==> UniqueIds(Merged(base, own))
    ensures forall a :: a in Merged(base, own) ==> a in base || a in own
  {
    if own != [] {
      hide Ids, HasId;
      var init, last := own[..|own| - 1], own[|own| - 1];
      MergedIsExact(base, init);
      assert own == init + [last];
      IdsAppend(init, last);
      IdsAppend(Merged(base, init), last);
      if UniqueIds(base) && !HasId(Merged(base, init), last.id) {
        UniqueAppend(Merged(base, init), last);
      }
    } else {
      assert Ids([]) == {};
    }
  }

  lemma UniqueAppend(actions: seq<Action>, a: Action)
    requires UniqueIds(actions) && !HasId(actions, a.id)
    ensures UniqueIds(actions + [a])
  {
  }

  // ----- deriving a state -----

  function OwnActions(f: Fields): seq<Action> {
    if f.actions.Present? then f.actions.value else []
  }

  /** The receipts, counters and commitments a new record builds on: those of the newest commit, if any. */
  function BaseTracked(previous: Option<ResumeState>): seq<Action> {
    if previous.Some? then previous.value.tracked else []
  }

  function BaseCommitted(previous: Option<ResumeState>): set<ActionId> {
    if previous.Some? then previous.value.committed else {}
  }

  function BaseTotals(previous: Option<ResumeState>): Totals {
    if previous.Some? then previous.value.totals else Totals(0, 0)
  }

  function BaseDag(previous: Option<ResumeState>): Dag {
    if previous.Some? then previous.value.dag else Dag(map[], {})
  }

  function BaseSummary(previous: Option<ResumeState>): Option<string> {
    if previous.Some? then previous.value.prevSummary else None
  }

  /** Fields that contradict the kind of boundary they are for. */
  predicate Refused(f: Fields) {
    || f.active.Malformed? || f.dag.Malformed? || f.actions.Malformed?
    || (IsCommit(f.name) && (f.active.Present? || f.dag.Absent?))
    || (!IsCommit(f.name) && f.active.Absent?)
  }

  function Assemble(iri: string, f: Fields, previous: Option<ResumeState>, contract: Contract,
                    tracked: seq<Action>): ResumeState
  {
    ResumeState(
      RESUME_STATE_SCHEMA_VERSION, iri, f.name,
      if IsCommit(f.name) then f.local else BaseTotals(previous),
      if f.active.Present? then Some(f.active.value) else None,
      f.role,
      if f.prevSummary.Some? then f.prevSummary else BaseSummary(previous),
      tracked,
      if IsCommit(f.name) then Ids(tracked) else BaseCommitted(previous),
      if f.dag.Present? then f.dag.value else BaseDag(previous),
      contract)
  }

  /** The state of a new record; a commit starts from its own receipts alone. */
  function Derived(iri: string, f: Fields, previous: Option<ResumeState>, contract: Contract): ResumeState {
    Assemble(iri, f, previous, contract,
             Merged(if IsCommit(f.name) then [] else BaseTracked(previous), OwnActions(f)))
  }

  function FromFields(iri: string, f: Fields, previous: Option<ResumeState>, contract: Contract): Result<ResumeState> {
    if Refused(f) then Err("the fields do not fit the checkpoint boundary")
    else
      var state := Derived(iri, f, previous, contract);
      if ValidForTranscript(state, f.transcript) then Ok(state) else Err("invalid resume state")
  }

  method BuildState(iri: string, f: Fields, previous: Option<ResumeState>, contract: Contract)
      returns (r: Result<ResumeState>)
    ensures r == FromFields(iri, f, previous, contract)
  {
    if Refused(f) {
      return Err("the fields do not fit the checkpoint boundary");
    }
    var base := if IsCommit(f.name) then [] else BaseTracked(previous);
    var tracked := MergeActions(base, OwnActions(f));
    var state := Assemble(iri, f, previous, contract, tracked);
    r := if ValidForTranscript(state, f.transcript) then Ok(state) else Err("invalid resume state");
  }

  // ----- validity -----

  predicate ValidContinuation(c: Continuation, role: Option<string>) {
    c.complete && (role.Some? ==> role.value == c.role)
  }

  predicate ValidState(s: ResumeState) {
    && s.schemaVersion == RESUME_STATE_SCHEMA_VERSION
    && s.iri != "" && s.name != ""
    && (IsCommit(s.name) <==> s.active.None?)
    && (s.active.Some? ==> ValidContinuation(s.active.value, s.role))
    && s.committed <= Ids(s.tracked)
    && (forall n :: n in s.dag.completed ==> s.dag.completed[n].nodeId == n)
    && s.dag.completed.Keys + s.dag.skipped <= s.contract.planNodes
    && s.contract.valid
  }

  predicate ValidForTranscript(s: ResumeState, t: Transcript) {
    && ValidState(s)
    && match s.active
       case Some(c) => c.transcriptDigest == t.digest
       case None => t.messages == Some([])
  }

  /** Some substantive effect has not crossed a commit boundary. */
  predicate HasUncommittedEffect(s: ResumeState) {
    exists i :: 0 <= i < |s.tracked| && s.tracked[i].substantive && s.tracked[i].id !in s.committed
  }

  predicate ValidForResume(s: ResumeState) {
    ValidState(s) && !HasUncommittedEffect(s)
  }

  // ----- what an accepted record carries -----

  /** The receipts of a record: all committed at a commit; else the committed ones and its own. */
  ghost predicate Accounted(s: ResumeState, own: seq<Action>) {
    && UniqueIds(s.tracked)
    && (if IsCommit(s.name) then s.committed == Ids(s.tracked) && Ids(s.tracked) == Ids(own)
        else Ids(s.tracked) == s.committed + Ids(own))
  }

  /** A commit whose receipts are all committed, or nothing at all. */
  ghost predicate CommittedBase(previous: Option<ResumeState>) {
    previous.Some? ==> UniqueIds(previous.value.tracked) && previous.value.committed == Ids(previous.value.tracked)
  }

  /**
   * An accepted in-flight record: the base's receipts, untouched and in front,
   * then its own new ones, no id twice; commitments, counters and (unless
   * given) the DAG exactly those of the base.
   */
  lemma InFlightInheritsBase(iri: string, f: Fields, previous: Option<ResumeState>, contract: Contract)
    requires FromFields(iri, f, previous, contract).Ok? && !IsCommit(f.name) && CommittedBase(previous)
    ensures var s := FromFields(iri, f, previous, contract).value;
            && BaseTracked(previous) <= s.tracked
            && Ids(s.tracked) == Ids(BaseTracked(previous)) + Ids(OwnActions(f))
            && (forall i :: |BaseTracked(previous)| <= i < |s.tracked| ==> s.tracked[i] in OwnActions(f))
            && s.committed == BaseCommitted(previous) && s.totals == BaseTotals(previous)
            && (f.dag.Absent? ==> s.dag == BaseDag(previous))
            && Accounted(s, OwnActions(f))
  {
    hide Ids;
    var s := FromFields(iri, f, previous, contract).value;
    MergedIsExact(BaseTracked(previous), OwnActions(f));
    NewOnesAreOwn(BaseTracked(previous), OwnActions(f));
    if previous.None? {
      assert Ids([]) == {} by {
        NoIds();
      }
    }
  }

  lemma NoIds()
    ensures Ids([]) == {}
  {
  }

  lemma {:induction false} NewOnesAreOwn(base: seq<Action>, own: seq<Action>)
    ensures |base| <= |Merged(base, own)|
    ensures forall i :: |base| <= i < |Merged(base, own)| ==> Merged(base, own)[i] in own
  {
    if own != [] {
      hide HasId;
      var init := own[..|own| - 1];
      assert own == init + [own[|own| - 1]];
      NewOnesAreOwn(base, init);
    }
  }

  /** An accepted commit: the caller's receipts alone, all of them committed. */
  lemma CommitAcceptsItsReceipts(iri: string, f: Fields, previous: Option<ResumeState>, contract: Contract)
    requires FromFields(iri, f, previous, contract).Ok? && IsCommit(f.name)
    ensures var s := FromFields(iri, f, previous, contract).value;
            && Accounted(s, OwnActions(f)) && s.totals == f.local
            && ValidForResume(s) && CommittedBase(Some(s))
  {
    var s := FromFields(iri, f, previous, contract).value;
    MergedIsExact([], OwnActions(f));
    assert forall i :: 0 <= i < |s.tracked| ==> s.tracked[i].id in Ids(s.tracked);
  }

  lemma NotInBase(base: seq<Action>, tracked: seq<Action>, i: nat)
    requires UniqueIds(tracked) && base <= tracked && |base| <= i < |tracked|
    ensures tracked[i].id !in Ids(base)
  {
    assert forall j :: 0 <= j < |base| ==> base[j] == tracked[j] && tracked[j].id != tracked[i].id;
  }

  /** An accepted in-flight record can be resumed from exactly when none of its own new receipts is substantive. */
  lemma InFlightResumable(iri: string, f: Fields, previous: Option<ResumeState>, contract: Contract)
    requires FromFields(iri, f, previous, contract).Ok? && !IsCommit(f.name) && CommittedBase(previous)
    ensures var s := FromFields(iri, f, previous, contract).value;
            ValidForResume(s)
            <==> forall i :: |BaseTracked(previous)| <= i < |s.tracked| ==> !s.tracked[i].substantive
  {
    var s := FromFields(iri, f, previous, contract).value;
    var base := BaseTracked(previous);
    InFlightInheritsBase(iri, f, previous, contract);
    assert forall i :: 0 <= i < |base| ==> s.tracked[i] == base[i] && base[i].id in Ids(base);
    forall i | |base| <= i < |s.tracked|
      ensures s.tracked[i].id !in s.committed
    {
      NotInBase(base, s.tracked, i);
    }
  }

  // ----- which fields go where, and what is refused -----

  /** Where an accepted state gets what is not a receipt: from the caller first, then from the commit it builds on. */
  ghost predicate TakesFields(s: ResumeState, iri: string, f: Fields, previous: Option<ResumeState>, contract: Contract) {
    && s.schemaVersion == 8 && s.iri == iri && s.name == f.name && s.role == f.role && s.contract == contract
    && (match f.active
        case Present(c) => s.active == Some(c)
        case Absent => s.active == None
        case Malformed => false)
    && (match f.dag
        case Present(d) => s.dag == d
        case Absent => s.dag == if previous.Some? then previous.value.dag else Dag(map[], {})
        case Malformed => false)
    && (match f.prevSummary
        case Some(text) => s.prevSummary == Some(text)
        case None => s.prevSummary == if previous.Some? then previous.value.prevSummary else None)
  }

  /** The counters and commitments: the caller's and all receipts at a commit, else those of the commit it builds on. */
  ghost predicate TakesCounters(s: ResumeState, f: Fields, previous: Option<ResumeState>) {
    if "step_complete_" <= f.name then
      && s.totals == f.local
      && forall id :: id in s.committed <==> exists i :: 0 <= i < |s.tracked| && s.tracked[i].id == id
    else
      && s.totals == (if previous.Some? then previous.value.totals else Totals(0, 0))
      && s.committed == (if previous.Some? then previous.value.committed else {})
  }

  /** The receipts: those of the commit it builds on, none at a commit, and then the caller's that are new. */
  ghost predicate TakesReceipts(s: ResumeState, f: Fields, previous: Option<ResumeState>) {
    var base := if previous.Some? && !("step_complete_" <= f.name) then previous.value.tracked else [];
    var own := match f.actions case Present(actions) => actions case _ => [];
    && base <= s.tracked
    && (forall i :: |base| <= i < |s.tracked| ==> s.tracked[i] in own)
    && (forall a :: a in own ==> exists i :: 0 <= i < |s.tracked| && s.tracked[i].id == a.id)
    && (forall i, j :: 0 <= i < j < |s.tracked| && |base| <= j ==> s.tracked[i].id != s.tracked[j].id)
  }

  lemma {:induction false} NewOnesAreNew(base: seq<Action>, own: seq<Action>)
    ensures |base| <= |Merged(base, own)|
    ensures forall i, j :: 0 <= i < j < |Merged(base, own)| && |base| <= j ==>
      Merged(base, own)[i].id != Merged(base, own)[j].id
  {
    if own != [] {
      var init, last := own[..|own| - 1], own[|own| - 1];
      assert own == init + [last];
      NewOnesAreNew(base, init);
    }
  }

  lemma IdsMeaning(actions: seq<Action>)
    ensures forall id :: id in Ids(actions) <==> exists i :: 0 <= i < |actions| && actions[i].id == id
  {
  }

  /** Every accepted state, commit or in flight, takes each of its parts from where it should. */
  lemma AcceptedTakesParts(iri: string, f: Fields, previous: Option<ResumeState>, contract: Contract)
    requires FromFields(iri, f, previous, contract).Ok?
    ensures var s := FromFields(iri, f, previous, contract).value;
            TakesFields(s, iri, f, previous, contract) && TakesCounters(s, f, previous) && TakesReceipts(s, f, previous)
  {
    hide Merged, ValidForTranscript, HasId, UniqueIds, Ids;
    var s := FromFields(iri, f, previous, contract).value;
    var base := if IsCommit(f.name) then [] else BaseTracked(previous);
    MergedIsExact(base, OwnActions(f));
    NewOnesAreOwn(base, OwnActions(f));
    NewOnesAreNew(base, OwnActions(f));
    IdsMeaning(s.tracked);
    IdsMeaning(OwnActions(f));
    forall a | a in OwnActions(f)
      ensures exists i :: 0 <= i < |s.tracked| && s.tracked[i].id == a.id
    {
      var k :| 0 <= k < |OwnActions(f)| && OwnActions(f)[k] == a;
      assert OwnActions(f)[k].id in Ids(OwnActions(f));
      assert a.id in Ids(s.tracked);
    }
  }

  /** What the caller must hand in: parseable fields that suit the boundary, a fit receipt, a DAG of the plan's nodes. */
  ghost predicate Acceptable(iri: string, f: Fields, previous: Option<ResumeState>, contract: Contract) {
    && iri != "" && f.name != "" && contract.valid
    && f.actions != Malformed
    && (if "step_complete_" <= f.name then
          f.active == Absent && f.dag.Present? && f.transcript.messages == Some([])
        else
          && f.dag != Malformed
          && f.active.Present? && f.active.value.complete
          && f.active.value.transcriptDigest == f.transcript.digest
          && (f.role.Some? ==> f.role.value == f.active.value.role))
    && var dag := if f.dag.Present? then f.dag.value
                  else if previous.Some? then previous.value.dag else Dag(map[], {});
       && (forall n :: n in dag.completed ==> dag.completed[n].nodeId == n && n in contract.planNodes)
       && (forall n :: n in dag.skipped ==> n in contract.planNodes)
  }

  /** A create is accepted exactly when what the caller hands in is acceptable. */
  lemma AcceptedExactlyWhen(iri: string, f: Fields, previous: Option<ResumeState>, contract: Contract)
    requires CommittedBase(previous)
    ensures FromFields(iri, f, previous, contract).Ok? <==> Acceptable(iri, f, previous, contract)
  {
    hide Merged, HasId, UniqueIds, Ids;
    var base := if IsCommit(f.name) then [] else BaseTracked(previous);
    MergedIsExact(base, OwnActions(f));
    var s := Derived(iri, f, previous, contract);
    assert Ids([]) == {} by {
      NoIds();
    }
    assert s.committed <= Ids(s.tracked);
    var dag := if f.dag.Present? then f.dag.value
               else if previous.Some? then previous.value.dag else Dag(map[], {});
    assert !Refused(f) ==> s.dag == dag;
    assert dag.completed.Keys + dag.skipped <= contract.planNodes
      <==> (forall n :: n in dag.completed ==> n in contract.planNodes) && (forall n :: n in dag.skipped ==> n in contract.planNodes);
    if Acceptable(iri, f, previous, contract) {
      assert !Refused(f);
      assert ValidState(s);
      assert ValidForTranscript(s, f.transcript);
    }
    if !Refused(f) && ValidForTranscript(s, f.transcript) {
      assert Acceptable(iri, f, previous, contract);
    }
  }

  /** What a stored state must be to be read back: the form of its boundary, known receipts, and nodes of its plan. */
  ghost predicate FitsItself(s: ResumeState) {
    && s.schemaVersion == 8 && s.iri != "" && s.name != "" && s.contract.valid
    && (if "step_complete_" <= s.name then s.active == None
        else s.active.Some? && s.active.value.complete && (s.role.Some? ==> s.role.value == s.active.value.role))
    && (forall id :: id in s.committed ==> exists i :: 0 <= i < |s.tracked| && s.tracked[i].id == id)
    && (forall n :: n in s.dag.completed ==> s.dag.completed[n].nodeId == n && n in s.contract.planNodes)
    && (forall n :: n in s.dag.skipped ==> n in s.contract.planNodes)
  }

  lemma ValidExactlyWhen(s: ResumeState)
    ensures ValidState(s) <==> FitsItself(s)
  {
    hide Ids;
    IdsMeaning(s.tracked);
    assert s.dag.completed.Keys + s.dag.skipped <= s.contract.planNodes
      <==> (forall n :: n in s.dag.completed ==> n in s.contract.planNodes)
           && (forall n :: n in s.dag.skipped ==> n in s.contract.planNodes);
  }
}
