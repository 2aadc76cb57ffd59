/**
 * The tool-result compressor: one deque shared by all agent sessions. Contents
 * are byte strings (one `char` per byte); the summary text is a parameter.
 */
module ToolResults {
  import Sums

  type Scope = string

  datatype Entry = Entry(turn: nat, toolName: string, routingKey: string, scope: Scope,
                         content: string, isCompressed: bool, readerAvailable: bool)

  datatype Settings = Settings(maxFullResults: nat, maxSummaryLength: nat, compressionTrigger: nat,
                               summarize: Entry -> string)

  // ----- the state transitions, as functions -----

  /** The entries of one session, in order. */
  function Project(results: seq<Entry>, scope: Scope): seq<Entry> {
    if results == [] then []
    else
      var earlier, last := Project(results[..|results| - 1], scope), results[|results| - 1];
      if last.scope == scope then earlier + [last] else earlier
  }

  /** The entries of all other sessions, in order. */
  function Without(results: seq<Entry>, scope: Scope): seq<Entry> {
    if results == [] then []
    else
      var earlier, last := Without(results[..|results| - 1], scope), results[|results| - 1];
      if last.scope == scope then earlier else earlier + [last]
  }

  /** The turns met when scanning a session backwards, until `limit` distinct ones are known. */
  function RecentTurns(session: seq<Entry>, limit: nat, known: set<nat>): set<nat> {
    if session == [] || |known| >= limit then known
    else RecentTurns(session[..|session| - 1], limit, known + {session[|session| - 1].turn})
  }

  predicate Oversized(s: Settings, e: Entry) {
    !e.isCompressed && |e.content| > s.maxSummaryLength
  }

  function Shrink(s: Settings, e: Entry): Entry {
    if Oversized(s, e) then e.(content := s.summarize(e), isCompressed := true) else e
  }

  /** Shrinks the entries of one session outside the turns to keep. */
  function ShrinkOutside(s: Settings, results: seq<Entry>, scope: Scope, kept: set<nat>): (r: seq<Entry>)
    ensures |r| == |results|
  {
    if results == [] then []
    else
      var last := results[|results| - 1];
      ShrinkOutside(s, results[..|results| - 1], scope, kept)
      + [if last.scope == scope && last.turn !in kept then Shrink(s, last) else last]
  }

  function Compacted(s: Settings, results: seq<Entry>, scope: Scope): seq<Entry> {
    var session := Project(results, scope);
    if |session| <= s.maxFullResults then results
    else ShrinkOutside(s, results, scope, RecentTurns(session, s.maxFullResults, {}))
  }

  function Added(s: Settings, results: seq<Entry>, e: Entry): seq<Entry> {
    var all := results + [e];
    if |Project(all, e.scope)| >= s.compressionTrigger then Compacted(s, all, e.scope) else all
  }

  // ----- the compressor -----

  class ToolResultCompressor {
    const settings: Settings
    var results: seq<Entry>

    constructor (settings: Settings)
      ensures this.settings == settings && results == []
    {
      this.settings := settings;
      results := [];
    }

    method AddResult(turn: nat, toolName: string, routingKey: string, scope: Scope, content: string,
                     readerAvailable: bool)
      modifies this
      ensures results == Added(settings, old(results),
                               Entry(turn, toolName, routingKey, scope, content, false, readerAvailable))
    {
      results := results + [Entry(turn, toolName, routingKey, scope, content, false, readerAvailable)];
      var indices := SessionIndices(scope);
      if |indices| >= settings.compressionTrigger {
        CompressOldResults(scope);
      }
    }

    /** Where the entries of a session sit in the deque. */
    method SessionIndices(scope: Scope) returns (indices: seq<nat>)
      ensures |indices| == |Project(results, scope)|
      ensures forall k :: 0 <= k < |indices| ==>
        indices[k] < |results| && results[indices[k]] == Project(results, scope)[k]
    {
      indices := [];
      for i := 0 to |results|
        invariant |indices| == |Project(results[..i], scope)|
        invariant forall k :: 0 <= k < |indices| ==>
          indices[k] < i && results[indices[k]] == Project(results[..i], scope)[k]
      {
        assert results[..i + 1][..i] == results[..i];
        if results[i].scope == scope {
          indices := indices + [i];
        }
      }
      assert results[..|results|] == results;
    }

    method CompressOldResults(scope: Scope)
      modifies this
      ensures results == Compacted(settings, old(results), scope)
    {
      hide Project, RecentTurns, ShrinkOutside, Oversized;
      var indices := SessionIndices(scope);
      if |indices| <= settings.maxFullResults {
        return;
      }
      var kept := ProtectedTurns(scope, indices);
      var summaries := Summaries(scope, kept);
      ghost var target := ShrinkOutside(settings, results, scope, kept);
      ShrinkOutsideAt(settings, results, scope, kept);
      for k := 0 to |summaries|
        invariant |results| == |target|
        invariant forall i :: 0 <= i < |results| ==>
          results[i] == if exists j :: 0 <= j < k && summaries[j].0 == i then target[i] else old(results)[i]
      {
        var (i, summary) := summaries[k];
        assert results[i] == old(results)[i];
        results := results[i := results[i].(content := summary, isCompressed := true)];
      }
      assert results == target;
    }

    /** The turns of the newest batches, read off the session backwards. */
    method ProtectedTurns(scope: Scope, indices: seq<nat>) returns (kept: set<nat>)
      requires |indices| == |Project(results, scope)|
      requires forall k :: 0 <= k < |indices| ==>
        indices[k] < |results| && results[indices[k]] == Project(results, scope)[k]
      ensures kept == RecentTurns(Project(results, scope), settings.maxFullResults, {})
    {
      hide Project;
      kept := {};
      ghost var session := Project(results, scope);
      if settings.maxFullResults > 0 {
        var n := |indices|;
        assert session[..n] == session;
        while n > 0
          invariant n <= |indices| && |kept| < settings.maxFullResults
          invariant RecentTurns(session[..n], settings.maxFullResults, kept)
                    == RecentTurns(session, settings.maxFullResults, {})
        {
          n := n - 1;
          assert session[..n + 1][..n] == session[..n];
          kept := kept + {results[indices[n]].turn};
          if |kept| == settings.maxFullResults {
            break;
          }
        }
      }
    }

    /** The summaries to write back, by position; each position occurs once. */
    method Summaries(scope: Scope, kept: set<nat>) returns (summaries: seq<(nat, string)>)
      ensures forall j, k :: 0 <= j < k < |summaries| ==> summaries[j].0 < summaries[k].0
      ensures forall k :: 0 <= k < |summaries| ==>
        var (i, summary) := summaries[k];
        && i < |results| && results[i].scope == scope && results[i].turn !in kept
        && Oversized(settings, results[i]) && summary == settings.summarize(results[i])
      ensures forall i :: 0 <= i < |results| && results[i].scope == scope && results[i].turn !in kept
                          && Oversized(settings, results[i])
                          ==> exists k :: 0 <= k < |summaries| && summaries[k].0 == i
    {
      summaries := [];
      for i := 0 to |results|
        invariant forall j, k :: 0 <= j < k < |summaries| ==> summaries[j].0 < summaries[k].0
        invariant forall k :: 0 <= k < |summaries| ==>
          && summaries[k].0 < i && results[summaries[k].0].scope == scope && results[summaries[k].0].turn !in kept
          && Oversized(settings, results[summaries[k].0])
          && summaries[k].1 == settings.summarize(results[summaries[k].0])
        invariant forall n :: 0 <= n < i && results[n].scope == scope && results[n].turn !in kept
                              && Oversized(settings, results[n])
                              ==> exists k :: 0 <= k < |summaries| && summaries[k].0 == n
      {
        var e := results[i];
        if e.scope == scope && e.turn !in kept && Oversized(settings, e) {
          ghost var before := summaries;
          summaries := summaries + [(i, settings.summarize(e))];
          assert summaries[|before|].0 == i;
          assert forall k :: 0 <= k < |before| ==> summaries[k] == before[k];
        }
      }
    }

    /** Ends one session; no other entry moves or changes. */
    method RemoveSession(scope: Scope)
      modifies this
      ensures results == Without(old(results), scope)
      ensures forall sc :: Project(results, sc) == if sc == scope then [] else Project(old(results), sc)
    {
      forall sc
        ensures Project(Without(results, scope), sc) == if sc == scope then [] else Project(results, sc)
      {
        ProjectWithout(results, sc, scope);
      }
      results := Without(results, scope);
    }

    method Clear()
      modifies this
      ensures results == []
    {
      results := [];
    }
  }

  lemma {:induction false} ShrinkOutsideAt(s: Settings, results: seq<Entry>, scope: Scope, kept: set<nat>)
    ensures forall i :: 0 <= i < |results| ==>
      ShrinkOutside(s, results, scope, kept)[i]
      == if results[i].scope == scope && results[i].turn !in kept then Shrink(s, results[i]) else results[i]
  {
    if results != [] {
      ShrinkOutsideAt(s, results[..|results| - 1], scope, kept);
    }
  }

  // ----- one shared deque against one private deque per session -----

  datatype Call = Add(entry: Entry) | Remove(scope: Scope) | Reset

  /** An entry as it is when it is first recorded. */
  function Recorded(e: Entry): Entry {
    e.(isCompressed := false)
  }

  function Apply(s: Settings, results: seq<Entry>, call: Call): seq<Entry> {
    match call
    case Add(e) => Added(s, results, Recorded(e))
    case Remove(scope) => Without(results, scope)
    case Reset => []
  }

  /** The deque after a sequence of calls from any number of sessions. */
  function Run(s: Settings, calls: seq<Call>): seq<Entry> {
    if calls == [] then [] else Apply(s, Run(s, calls[..|calls| - 1]), calls[|calls| - 1])
  }

  predicate Concerns(call: Call, scope: Scope) {
    match call
    case Add(e) => e.scope == scope
    case Remove(sc) => sc == scope
    case Reset => true
  }

  function CallsOf(calls: seq<Call>, scope: Scope): seq<Call> {
    if calls == [] then []
    else
      var earlier, last := CallsOf(calls[..|calls| - 1], scope), calls[|calls| - 1];
      if Concerns(last, scope) then earlier + [last] else earlier
  }

  lemma ProjectAppend(results: seq<Entry>, e: Entry, scope: Scope)
    ensures Project(results + [e], scope)
            == if e.scope == scope then Project(results, scope) + [e] else Project(results, scope)
  {
    assert (results + [e])[..|results|] == results;
  }

  lemma {:induction false} ProjectIdempotent(results: seq<Entry>, scope: Scope)
    ensures Project(Project(results, scope), scope) == Project(results, scope)
  {
    if results != [] {
      var init, last := results[..|results| - 1], results[|results| - 1];
      ProjectIdempotent(init, scope);
      if last.scope == scope {
        ProjectAppend(Project(init, scope), last, scope);
      }
    }
  }

  lemma ShrinkOutsideAppend(s: Settings, results: seq<Entry>, e: Entry, scope: Scope, kept: set<nat>)
    ensures ShrinkOutside(s, results + [e], scope, kept)
            == ShrinkOutside(s, results, scope, kept)
               + [if e.scope == scope && e.turn !in kept then Shrink(s, e) else e]
  {
    assert (results + [e])[..|results|] == results;
  }

  /** Shrinking one session and looking at a session commute. */
  lemma {:induction false} ProjectShrink(s: Settings, results: seq<Entry>, mine: Scope, shrunk: Scope, kept: set<nat>)
    ensures Project(ShrinkOutside(s, results, shrunk, kept), mine)
            == if mine == shrunk then ShrinkOutside(s, Project(results, mine), shrunk, kept) else Project(results, mine)
  {
    if results != [] {
      var init, last := results[..|results| - 1], results[|results| - 1];
      ProjectShrink(s, init, mine, shrunk, kept);
      ProjectAppend(ShrinkOutside(s, init, shrunk, kept),
                    if last.scope == shrunk && last.turn !in kept then Shrink(s, last) else last, mine);
      if mine == shrunk && last.scope == mine {
        ShrinkOutsideAppend(s, Project(init, mine), last, shrunk, kept);
      }
    }
  }

  lemma ProjectAdded(s: Settings, results: seq<Entry>, e: Entry, mine: Scope)
    ensures Project(Added(s, results, e), mine)
            == if e.scope == mine then Added(s, Project(results, mine), e) else Project(results, mine)
  {
    var all := results + [e];
    ProjectAppend(results, e, mine);
    ProjectIdempotent(all, e.scope);
    ProjectShrink(s, all, mine, e.scope, RecentTurns(Project(all, e.scope), s.maxFullResults, {}));
  }

  lemma {:induction false} ProjectWithout(results: seq<Entry>, mine: Scope, gone: Scope)
    ensures Project(Without(results, gone), mine) == if mine == gone then [] else Project(results, mine)
    ensures Without(Project(results, gone), gone) == []
  {
    if results != [] {
      var init, last := results[..|results| - 1], results[|results| - 1];
      ProjectWithout(init, mine, gone);
      if last.scope != gone {
        ProjectAppend(Without(init, gone), last, mine);
      } else {
        assert (Project(init, gone) + [last])[..|Project(init, gone)|] == Project(init, gone);
      }
    }
  }

  lemma ProjectApply(s: Settings, results: seq<Entry>, call: Call, mine: Scope)
    ensures Project(Apply(s, results, call), mine)
            == if Concerns(call, mine) then Apply(s, Project(results, mine), call) else Project(results, mine)
  {
    match call
    case Add(e) => ProjectAdded(s, results, Recorded(e), mine);
    case Remove(scope) => ProjectWithout(results, mine, scope);
    case Reset =>
  }

  /** Whatever the interleaving, each session sees what a private compressor would show it. */
  lemma {:induction false} SessionsAreIsolated(s: Settings, calls: seq<Call>, mine: Scope)
    ensures Project(Run(s, calls), mine) == Run(s, CallsOf(calls, mine))
  {
    if calls != [] {
      hide Apply, Concerns, Project;
      var init, last := calls[..|calls| - 1], calls[|calls| - 1];
      SessionsAreIsolated(s, init, mine);
      ProjectApply(s, Run(s, init), last, mine);
      if Concerns(last, mine) {
        assert (CallsOf(init, mine) + [last])[..|CallsOf(init, mine)|] == CallsOf(init, mine);
      }
    } else {
      assert Project([], mine) == [];
    }
  }

  // ----- exactly which entries are compressed -----

  /** What a session recorded since it last started afresh. */
  function Recordings(calls: seq<Call>, scope: Scope): seq<Entry> {
    if calls == [] then []
    else
      var earlier := Recordings(calls[..|calls| - 1], scope);
      match calls[|calls| - 1]
      case Add(e) => if e.scope == scope then earlier + [Recorded(e)] else earlier
      case Remove(sc) => if sc == scope then [] else earlier
      case Reset => []
  }

  /** Compression runs after the add that makes the session this long. */
  predicate CompressesAt(s: Settings, history: seq<Entry>, k: nat)
    requires k <= |history|
  {
    k >= s.compressionTrigger && k > s.maxFullResults
  }

  /** Some compression after entry `i` was recorded found its turn unprotected. */
  ghost predicate FellBehind(s: Settings, history: seq<Entry>, i: nat)
    requires i < |history|
  {
    exists k :: i < k <= |history| && CompressesAt(s, history, k)
      && history[i].turn !in RecentTurns(history[..k], s.maxFullResults, {})
  }

  /** Each entry is as recorded, or shrunk once if it fell behind. */
  ghost predicate Mirrors(s: Settings, state: seq<Entry>, history: seq<Entry>) {
    && |state| == |history|
    && forall i :: 0 <= i < |history| ==>
         state[i] == if FellBehind(s, history, i) then Shrink(s, history[i]) else history[i]
  }

  lemma {:induction false} SameTurns(x: seq<Entry>, y: seq<Entry>, limit: nat, known: set<nat>)
    requires |x| == |y| && forall i :: 0 <= i < |x| ==> x[i].turn == y[i].turn
    ensures RecentTurns(x, limit, known) == RecentTurns(y, limit, known)
  {
    if x != [] && |known| < limit {
      SameTurns(x[..|x| - 1], y[..|y| - 1], limit, known + {x[|x| - 1].turn});
    }
  }

  lemma {:induction false} AllMine(results: seq<Entry>, scope: Scope)
    requires forall i :: 0 <= i < |results| ==> results[i].scope == scope
    ensures Project(results, scope) == results
  {
    if results != [] {
      AllMine(results[..|results| - 1], scope);
    }
  }

  /** Adding `e` can only make earlier entries fall behind at the new length. */
  lemma FellBehindStep(s: Settings, history: seq<Entry>, e: Entry, i: nat)
    requires i <= |history|
    ensures var h := history + [e];
            FellBehind(s, h, i)
            <==> (i < |history| && FellBehind(s, history, i))
                 || (CompressesAt(s, h, |h|) && h[i].turn !in RecentTurns(h, s.maxFullResults, {}))
  {
    hide RecentTurns;
    var h := history + [e];
    assert h[..|h|] == h;
    forall k | 0 <= k <= |history|
      ensures h[..k] == history[..k]
    {
    }
    if k :| i < k <= |h| && CompressesAt(s, h, k) && h[i].turn !in RecentTurns(h[..k], s.maxFullResults, {}) {
      if k <= |history| {
        assert CompressesAt(s, history, k);
      }
    }
    if i < |history| && FellBehind(s, history, i) {
      var k :| i < k <= |history| && CompressesAt(s, history, k)
               && history[i].turn !in RecentTurns(history[..k], s.maxFullResults, {});
      assert CompressesAt(s, h, k);
    }
    if CompressesAt(s, h, |h|) && h[i].turn !in RecentTurns(h, s.maxFullResults, {}) {
      assert h[i].turn !in RecentTurns(h[..|h|], s.maxFullResults, {});
    }
  }

  lemma ShrinkOnce(s: Settings, e: Entry)
    ensures Shrink(s, Shrink(s, e)) == Shrink(s, e)
    ensures Shrink(s, e).turn == e.turn && Shrink(s, e).scope == e.scope
  {
  }

  lemma MirrorsAdded(s: Settings, state: seq<Entry>, history: seq<Entry>, e: Entry)
    requires Mirrors(s, state, history) && !e.isCompressed
    requires forall i :: 0 <= i < |history| ==> history[i].scope == e.scope
    ensures Mirrors(s, Added(s, state, e), history + [e])
  {
    hide FellBehind, RecentTurns;
    var all, h := state + [e], history + [e];
    forall i | 0 <= i < |state|
      ensures state[i].turn == history[i].turn && state[i].scope == e.scope
    {
      ShrinkOnce(s, history[i]);
    }
    AllMine(all, e.scope);
    SameTurns(all, h, s.maxFullResults, {});
    var kept := RecentTurns(h, s.maxFullResults, {});
    ShrinkOutsideAt(s, all, e.scope, kept);
    forall i | 0 <= i < |h|
      ensures Added(s, state, e)[i] == if FellBehind(s, h, i) then Shrink(s, h[i]) else h[i]
    {
      FellBehindStep(s, history, e, i);
      ShrinkOnce(s, h[i]);
      if i < |history| {
        assert all[i] == state[i] && h[i] == history[i];
      }
    }
  }

  lemma {:induction false} RecordingsScope(calls: seq<Call>, scope: Scope)
    ensures forall i :: 0 <= i < |Recordings(calls, scope)| ==>
      Recordings(calls, scope)[i].scope == scope && !Recordings(calls, scope)[i].isCompressed
  {
    if calls != [] {
      RecordingsScope(calls[..|calls| - 1], scope);
    }
  }

  /** In every run, what a session sees is its own recordings, shrunk exactly where they fell behind. */
  lemma {:induction false} SessionMirrorsRecordings(s: Settings, calls: seq<Call>, mine: Scope)
    ensures Mirrors(s, Project(Run(s, calls), mine), Recordings(calls, mine))
  {
    if calls != [] {
      hide Mirrors, Added, Without, Project;
      var init, last := calls[..|calls| - 1], calls[|calls| - 1];
      SessionMirrorsRecordings(s, init, mine);
      ProjectApply(s, Run(s, init), last, mine);
      RecordingsScope(init, mine);
      if last.Add? && last.entry.scope == mine {
        MirrorsAdded(s, Project(Run(s, init), mine), Recordings(init, mine), Recorded(last.entry));
      } else if Concerns(last, mine) {
        ProjectWithout(Run(s, init), mine, mine);
        NothingMirrors(s, mine);
      }
    } else {
      NothingMirrors(s, mine);
    }
  }

  lemma NothingMirrors(s: Settings, scope: Scope)
    ensures Mirrors(s, [], []) && Project([], scope) == []
  {
  }

  // ----- with turns that never go back -----

  predicate TurnsAscend(history: seq<Entry>) {
    forall i, j :: 0 <= i < j < |history| ==> history[i].turn <= history[j].turn
  }

  function Turns(history: seq<Entry>): set<nat> {
    set i | 0 <= i < |history| :: history[i].turn
  }

  function Above(turns: set<nat>, t: nat): set<nat> {
    set u | u in turns && u > t
  }

  /** `t` is among the `limit` largest of `turns`. */
  predicate AmongNewest(turns: set<nat>, t: nat, limit: nat) {
    t in turns && |Above(turns, t)| < limit
  }

  /** Where the backward scan stops, it holds the newest turns. */
  lemma ScanStops(turns: set<nat>, limit: nat, known: set<nat>)
    requires |known| <= limit && (turns == {} || |known| == limit)
    requires forall t, u :: t in turns && u in known ==> t <= u
    ensures forall t :: t in known <==> AmongNewest(turns + known, t, limit)
  {
    var all := turns + known;
    forall t
      ensures t in known <==> AmongNewest(all, t, limit)
    {
      if t in known {
        assert Above(all, t) <= known - {t};
        Sums.SubsetSize(Above(all, t), known - {t});
      } else if t in turns {
        assert known <= Above(all, t);
        Sums.SubsetSize(known, Above(all, t));
      }
    }
  }

  lemma TurnsLast(history: seq<Entry>, e: Entry)
    ensures Turns(history + [e]) == Turns(history) + {e.turn}
  {
    var h := history + [e];
    assert forall i :: 0 <= i < |history| ==> h[i] == history[i];
    assert h[|history|] == e;
  }

  /** The backward scan finds the newest distinct turns. */
  lemma {:induction false} ScanFindsNewest(history: seq<Entry>, limit: nat, known: set<nat>)
    requires TurnsAscend(history) && |known| <= limit
    requires forall i, u :: 0 <= i < |history| && u in known ==> history[i].turn <= u
    ensures forall t :: t in RecentTurns(history, limit, known) <==> AmongNewest(Turns(history) + known, t, limit)
    decreases |history|
  {
    hide AmongNewest;
    if history == [] || |known| >= limit {
      ScanStops(Turns(history), limit, known);
    } else {
      var init, last := history[..|history| - 1], history[|history| - 1];
      assert history == init + [last];
      TurnsLast(init, last);
      assert Turns(history) + known == Turns(init) + (known + {last.turn});
      ScanFindsNewest(init, limit, known + {last.turn});
    }
  }

  /** With ascending turns, a turn that is still recent at the end was recent all along. */
  lemma RecentStaysRecent(history: seq<Entry>, i: nat, k: nat, limit: nat)
    requires TurnsAscend(history) && i < k <= |history|
    requires history[i].turn in RecentTurns(history, limit, {})
    ensures history[i].turn in RecentTurns(history[..k], limit, {})
  {
    hide RecentTurns;
    var t := history[i].turn;
    ScanFindsNewest(history, limit, {});
    ScanFindsNewest(history[..k], limit, {});
    assert Turns(history) + {} == Turns(history) && Turns(history[..k]) + {} == Turns(history[..k]);
    assert history[..k][i] == history[i];
    assert Above(Turns(history[..k]), t) <= Above(Turns(history), t) by {
      forall u | u in Turns(history[..k])
        ensures u in Turns(history)
      {
        var n :| 0 <= n < k && history[..k][n].turn == u;
        assert history[n].turn == u;
      }
    }
    Sums.SubsetSize(Above(Turns(history[..k]), t), Above(Turns(history), t));
  }

  /** A session no longer than `limit` has no more than `limit` distinct turns. */
  lemma {:induction false} FewTurns(history: seq<Entry>)
    ensures |Turns(history)| <= |history|
  {
    if history != [] {
      var init, last := history[..|history| - 1], history[|history| - 1];
      FewTurns(init);
      assert history == init + [last];
      TurnsLast(init, last);
    }
  }

  /**
   * When turns never go back, an entry has fallen behind exactly when the
   * session has reached the trigger and the entry's turn is not among the
   * newest `maxFullResults` distinct turns.
   */
  lemma FellBehindNow(s: Settings, history: seq<Entry>, i: nat)
    requires TurnsAscend(history) && i < |history|
    ensures FellBehind(s, history, i)
            <==> |history| >= s.compressionTrigger
                 && !AmongNewest(Turns(history), history[i].turn, s.maxFullResults)
  {
    hide RecentTurns;
    var n := |history|;
    assert history[..n] == history && Turns(history) + {} == Turns(history);
    ScanFindsNewest(history, s.maxFullResults, {});
    assert history[i].turn in Turns(history);
    if FellBehind(s, history, i) {
      var k :| i < k <= n && CompressesAt(s, history, k)
               && history[i].turn !in RecentTurns(history[..k], s.maxFullResults, {});
      if history[i].turn in RecentTurns(history, s.maxFullResults, {}) {
        RecentStaysRecent(history, i, k, s.maxFullResults);
        assert false;
      }
    }
    if n >= s.compressionTrigger && !AmongNewest(Turns(history), history[i].turn, s.maxFullResults) {
      FewTurns(history);
      assert Above(Turns(history), history[i].turn) <= Turns(history) - {history[i].turn};
      Sums.SubsetSize(Above(Turns(history), history[i].turn), Turns(history) - {history[i].turn});
      assert CompressesAt(s, history, n);
      assert history[i].turn !in RecentTurns(history[..n], s.maxFullResults, {});
    }
  }

  /**
   * After any run in which a session's turns never go back: each of its
   * entries is either exactly as recorded or the summary of what was recorded,
   * and it is the summary iff the session has reached the trigger, the entry's
   * turn is not among the newest, and what was recorded is too long.
   */
  lemma CompressedExactlyWhen(s: Settings, calls: seq<Call>, mine: Scope, i: nat)
    requires TurnsAscend(Recordings(calls, mine)) && i < |Recordings(calls, mine)|
    ensures var history, state := Recordings(calls, mine), Project(Run(s, calls), mine);
            && |state| == |history|
            && (state[i].isCompressed
                <==> |history| >= s.compressionTrigger
                     && !AmongNewest(Turns(history), history[i].turn, s.maxFullResults)
                     && |history[i].content| > s.maxSummaryLength)
            && state[i] == if state[i].isCompressed
                           then history[i].(content := s.summarize(history[i]), isCompressed := true)
                           else history[i]
  {
    hide Run, Project, FellBehind, AmongNewest;
    SessionMirrorsRecordings(s, calls, mine);
    RecordingsScope(calls, mine);
    FellBehindNow(s, Recordings(calls, mine), i);
  }

  /** Results of one turn are compressed together: a batch of long siblings is never split. */
  lemma SiblingsStayTogether(s: Settings, calls: seq<Call>, mine: Scope, i: nat, j: nat)
    requires TurnsAscend(Recordings(calls, mine))
    requires i < |Recordings(calls, mine)| && j < |Recordings(calls, mine)|
    requires Recordings(calls, mine)[i].turn == Recordings(calls, mine)[j].turn
    requires |Recordings(calls, mine)[i].content| > s.maxSummaryLength
    requires |Recordings(calls, mine)[j].content| > s.maxSummaryLength
    ensures |Project(Run(s, calls), mine)| == |Recordings(calls, mine)|
    ensures Project(Run(s, calls), mine)[i].isCompressed == Project(Run(s, calls), mine)[j].isCompressed
  {
    hide Run, Project, AmongNewest;
    CompressedExactlyWhen(s, calls, mine, i);
    CompressedExactlyWhen(s, calls, mine, j);
  }

  // ----- when turns do go back -----

  /** No turn has both a summary and an entry that is still too long. */
  ghost predicate NoSplit(s: Settings, session: seq<Entry>) {
    forall i, j :: 0 <= i < |session| && 0 <= j < |session| ==>
      session[i].turn == session[j].turn && session[i].isCompressed ==> !Oversized(s, session[j])
  }

  /** A long result comes in for a turn that was summarised already, and something is protected. */
  predicate ReturnsToSummary(s: Settings, session: seq<Entry>, e: Entry) {
    && s.maxFullResults > 0 && |e.content| > s.maxSummaryLength
    && exists i :: 0 <= i < |session| && session[i].isCompressed && session[i].turn == e.turn
  }

  lemma {:induction false} KnownAreRecent(session: seq<Entry>, limit: nat, known: set<nat>)
    ensures known <= RecentTurns(session, limit, known)
  {
    if session != [] && |known| < limit {
      KnownAreRecent(session[..|session| - 1], limit, known + {session[|session| - 1].turn});
    }
  }

  /** The newest entry is protected as soon as anything is. */
  lemma LastIsRecent(session: seq<Entry>, limit: nat)
    requires session != []
    ensures limit > 0 ==> session[|session| - 1].turn in RecentTurns(session, limit, {})
    ensures limit == 0 ==> RecentTurns(session, limit, {}) == {}
  {
    if limit > 0 {
      KnownAreRecent(session[..|session| - 1], limit, {} + {session[|session| - 1].turn});
    }
  }

  /** Shrinking whole turns splits none, and mends only the ones it shrinks. */
  lemma ShrinkAndSplit(s: Settings, session: seq<Entry>, shrunk: seq<Entry>, kept: set<nat>)
    requires |shrunk| == |session|
    requires forall i :: 0 <= i < |session| ==>
      shrunk[i] == if session[i].turn !in kept then Shrink(s, session[i]) else session[i]
    ensures NoSplit(s, session) ==> NoSplit(s, shrunk)
    ensures kept == {} ==> NoSplit(s, shrunk)
    ensures forall i, j :: 0 <= i < |session| && 0 <= j < |session| ==>
      session[i].turn == session[j].turn && session[i].turn in kept && session[i].isCompressed
      && Oversized(s, session[j]) ==>
        !NoSplit(s, shrunk)
  {
    forall i, j | 0 <= i < |session| && 0 <= j < |session| && session[i].turn == session[j].turn
                  && session[i].turn in kept && session[i].isCompressed && Oversized(s, session[j])
      ensures !NoSplit(s, shrunk)
    {
      assert shrunk[i] == session[i] && shrunk[j] == session[j];
    }
  }

  lemma AppendAndSplit(s: Settings, session: seq<Entry>, e: Entry)
    requires NoSplit(s, session) && !e.isCompressed
    ensures NoSplit(s, session + [e])
            <==> !(Oversized(s, e) && exists i :: 0 <= i < |session| && session[i].isCompressed && session[i].turn == e.turn)
  {
    var all := session + [e];
    if i :| 0 <= i < |session| && session[i].isCompressed && session[i].turn == e.turn && Oversized(s, e) {
      assert all[i] == session[i] && all[|session|] == e;
    }
  }

  /** What one add does to a session that mirrors its history and has no split turn. */
  lemma AddedSplitsExactlyWhen(s: Settings, session: seq<Entry>, history: seq<Entry>, e: Entry)
    requires Mirrors(s, session, history) && NoSplit(s, session) && !e.isCompressed
    requires forall i :: 0 <= i < |history| ==> history[i].scope == e.scope && !history[i].isCompressed
    ensures NoSplit(s, Added(s, session, e)) <==> !ReturnsToSummary(s, session, e)
  {
    hide RecentTurns, NoSplit;
    var all := session + [e];
    SummaryMeansTrigger(s, session, history);
    forall i | 0 <= i < |all|
      ensures all[i].scope == e.scope
    {
      if i < |history| {
        ShrinkOnce(s, history[i]);
      }
    }
    AllMine(all, e.scope);
    AppendAndSplit(s, session, e);
    LastIsRecent(all, s.maxFullResults);
    var kept := RecentTurns(all, s.maxFullResults, {});
    ShrinkOutsideAt(s, all, e.scope, kept);
    var shrunk := ShrinkOutside(s, all, e.scope, kept);
    ShrinkAndSplit(s, all, shrunk, kept);
    if i :| 0 <= i < |session| && session[i].isCompressed && session[i].turn == e.turn {
      assert all[i] == session[i] && all[|session|] == e;
    }
  }

  lemma SummaryMeansTrigger(s: Settings, session: seq<Entry>, history: seq<Entry>)
    requires Mirrors(s, session, history) && forall i :: 0 <= i < |history| ==> !history[i].isCompressed
    ensures forall i :: 0 <= i < |session| && session[i].isCompressed ==>
      |session| >= s.compressionTrigger && |session| > s.maxFullResults
  {
    hide RecentTurns;
    forall i | 0 <= i < |session| && session[i].isCompressed
      ensures |session| >= s.compressionTrigger && |session| > s.maxFullResults
    {
      assert FellBehind(s, history, i);
    }
  }

  predicate CallReturns(s: Settings, results: seq<Entry>, call: Call, mine: Scope) {
    call.Add? && call.entry.scope == mine && ReturnsToSummary(s, Project(results, mine), call.entry)
  }

  /** One call splits a turn of a session exactly when it returns to a summary. */
  lemma CallSplitsExactlyWhen(s: Settings, calls: seq<Call>, call: Call, mine: Scope)
    requires NoSplit(s, Project(Run(s, calls), mine))
    ensures NoSplit(s, Project(Run(s, calls + [call]), mine)) <==> !CallReturns(s, Run(s, calls), call, mine)
  {
    hide NoSplit, Project, Mirrors, Added, Without, ReturnsToSummary, Run;
    RunLast(s, calls, call);
    ProjectApply(s, Run(s, calls), call, mine);
    if call.Add? && call.entry.scope == mine {
      SessionMirrorsRecordings(s, calls, mine);
      RecordingsScope(calls, mine);
      AddedSplitsExactlyWhen(s, Project(Run(s, calls), mine), Recordings(calls, mine), Recorded(call.entry));
      ReturnsAsRecorded(s, Project(Run(s, calls), mine), call.entry);
    } else if Concerns(call, mine) {
      ProjectWithout(Run(s, calls), mine, mine);
      NothingSplit(s);
    }
  }

  lemma RunLast(s: Settings, calls: seq<Call>, call: Call)
    ensures Run(s, calls + [call]) == Apply(s, Run(s, calls), call)
  {
    assert (calls + [call])[..|calls|] == calls;
  }

  lemma ReturnsAsRecorded(s: Settings, session: seq<Entry>, e: Entry)
    ensures ReturnsToSummary(s, session, Recorded(e)) == ReturnsToSummary(s, session, e)
  {
  }

  lemma NothingSplit(s: Settings)
    ensures NoSplit(s, [])
  {
  }

  /**
   * Whatever the order of turns: the long results of a turn are summarised
   * together at every point of a run exactly when no call returns to a turn
   * that its session has summarised.
   */
  lemma {:induction false} NeverSplitExactlyWhen(s: Settings, calls: seq<Call>, mine: Scope)
    ensures (forall n :: 0 <= n <= |calls| ==> NoSplit(s, Project(Run(s, calls[..n]), mine)))
            <==> (forall n :: 0 <= n < |calls| ==> !CallReturns(s, Run(s, calls[..n]), calls[n], mine))
  {
    hide NoSplit, Project, Run, CallReturns;
    if calls == [] {
      EmptyRun(s, mine);
    } else {
      var init, last := calls[..|calls| - 1], calls[|calls| - 1];
      NeverSplitExactlyWhen(s, init, mine);
      assert calls == init + [last] && calls[..|calls|] == calls && init[..|init|] == init;
      assert forall n :: 0 <= n <= |init| ==> calls[..n] == init[..n];
      assert forall n :: 0 <= n < |init| ==> calls[n] == init[n];
      if NoSplit(s, Project(Run(s, init), mine)) {
        CallSplitsExactlyWhen(s, init, last, mine);
      }
    }
  }

  lemma EmptyRun(s: Settings, mine: Scope)
    ensures NoSplit(s, Project(Run(s, []), mine))
  {
  }

  /** Turns 1, 2, 1 with one protected turn: the first long result is a summary, its late sibling is not. */
  lemma ReturningTurnIsSplit(s: Settings, first: Entry, second: Entry, third: Entry)
    requires s.maxFullResults == 1 && s.compressionTrigger <= 2
    requires first.turn == third.turn == 1 && second.turn == 2
    requires first.scope == second.scope == third.scope
    requires |first.content| > s.maxSummaryLength && |third.content| > s.maxSummaryLength
    ensures var session := Project(Run(s, [Add(first), Add(second), Add(third)]), first.scope);
            && |session| == 3 && session[0].turn == session[2].turn == 1
            && session[0] == Recorded(first).(content := s.summarize(Recorded(first)), isCompressed := true)
            && session[2] == Recorded(third)
  {
    hide Run, Project, FellBehind, RecentTurns;
    var mine, calls := first.scope, [Add(first), Add(second), Add(third)];
    var history := [Recorded(first), Recorded(second), Recorded(third)];
    ThreeRecordings(first, second, third);
    SessionMirrorsRecordings(s, calls, mine);
    ReturningTurnIsBehind(s, history);
  }

  lemma ThreeRecordings(first: Entry, second: Entry, third: Entry)
    requires first.scope == second.scope == third.scope
    ensures Recordings([Add(first), Add(second), Add(third)], first.scope)
            == [Recorded(first), Recorded(second), Recorded(third)]
  {
    var calls, mine := [Add(first), Add(second), Add(third)], first.scope;
    assert calls[..2] == [Add(first), Add(second)] && calls[..2][..1] == [Add(first)];
    assert Recordings([Add(first)], mine) == [Recorded(first)];
    assert Recordings(calls[..2], mine) == [Recorded(first), Recorded(second)];
  }

  lemma ReturningTurnIsBehind(s: Settings, history: seq<Entry>)
    requires s.maxFullResults == 1 && s.compressionTrigger <= 2
    requires |history| == 3 && history[0].turn == history[2].turn == 1 && history[1].turn == 2
    ensures FellBehind(s, history, 0) && !FellBehind(s, history, 2)
  {
    assert RecentTurns(history[..2], 1, {}) == RecentTurns(history[..2][..1], 1, {} + {2}) == {2};
    assert CompressesAt(s, history, 2) && history[0].turn !in RecentTurns(history[..2], 1, {});
    LastIsRecent(history, 1);
    assert history[..3] == history;
  }
}
