/**
 * The in-memory failure statistics of the causal engine. Counts are natural
 * numbers, probabilities are reals.
 */
module CausalStore {
  import opened Options
  import opened Graphs
  import opened Sums
  import opened Products
  import Sorting

  type Counts = map<(Node, Node), nat>
  type Profile = map<string, nat>

  datatype Observation = Observation(skill: Node, signature: string, propagationFrom: Option<Node>)

  /** What happened to a store since it was last cleared. */
  datatype Event = Observed(obs: Observation) | Propagated(source: Node, target: Node)

  datatype PropagationEdge = PropagationEdge(weight: real, count: nat)

  // ----- the history that the indexes summarise -----

  function Occurrences(log: seq<Event>, skill: Node, signature: string): nat {
    if log == [] then 0
    else
      var e := log[|log| - 1];
      Occurrences(log[..|log| - 1], skill, signature)
      + (if e.Observed? && e.obs.skill == skill && e.obs.signature == signature then 1 else 0)
  }

  predicate Propagates(e: Event, source: Node, target: Node) {
    match e
    case Observed(obs) => obs.propagationFrom == Some(source) && obs.skill == target
    case Propagated(s, t) => s == source && t == target
  }

  function Propagations(log: seq<Event>, source: Node, target: Node): nat {
    if log == [] then 0
    else
      Propagations(log[..|log| - 1], source, target)
      + (if Propagates(log[|log| - 1], source, target) then 1 else 0)
  }

  function ObservationCount(log: seq<Event>): nat {
    if log == [] then 0
    else ObservationCount(log[..|log| - 1]) + (if log[|log| - 1].Observed? then 1 else 0)
  }

  lemma LogGrows(log: seq<Event>, e: Event)
    ensures forall s, sig :: Occurrences(log + [e], s, sig)
                             == Occurrences(log, s, sig)
                                + (if e.Observed? && e.obs.skill == s && e.obs.signature == sig then 1 else 0)
    ensures forall s, t :: Propagations(log + [e], s, t)
                           == Propagations(log, s, t) + (if Propagates(e, s, t) then 1 else 0)
    ensures ObservationCount(log + [e]) == ObservationCount(log) + (if e.Observed? then 1 else 0)
  {
    assert (log + [e])[..|log|] == log;
  }

  // ----- reading the maps -----

  function CountOf<K>(m: map<K, nat>, k: K): nat {
    if k in m then m[k] else 0
  }

  function ProfileOf(profiles: map<Node, Profile>, skill: Node): Profile {
    if skill in profiles then profiles[skill] else map[]
  }

  /** The count an index entry list holds for a skill; the first entry wins. */
  function EntryCount(entries: seq<(Node, nat)>, skill: Node): nat {
    if entries == [] then 0
    else if entries[0].0 == skill then entries[0].1
    else EntryCount(entries[1..], skill)
  }

  function Entries(index: map<string, seq<(Node, nat)>>, signature: string): seq<(Node, nat)> {
    if signature in index then index[signature] else []
  }

  ghost predicate DistinctSkills(entries: seq<(Node, nat)>) {
    forall i, j :: 0 <= i < j < |entries| ==> entries[i].0 != entries[j].0
  }

  ghost predicate AllPositive(entries: seq<(Node, nat)>) {
    forall i :: 0 <= i < |entries| ==> entries[i].1 > 0
  }

  ghost function ProfileTotal(p: Profile): nat {
    SumOf(p, p.Keys)
  }

  ghost function ProfileTotals(profiles: map<Node, Profile>): map<Node, nat> {
    map s | s in profiles :: ProfileTotal(profiles[s])
  }

  // ----- propagation probabilities -----

  ghost function OutKeys(counts: Counts, source: Node): set<(Node, Node)> {
    set k | k in counts && k.0 == source
  }

  ghost function OutTotal(counts: Counts, source: Node): nat {
    SumOf(counts, OutKeys(counts, source))
  }

  ghost function Probability(counts: Counts, source: Node, target: Node): real {
    if OutTotal(counts, source) == 0 then 0.0
    else CountOf(counts, (source, target)) as real / OutTotal(counts, source) as real
  }

  lemma CountWithinTotal(counts: Counts, source: Node, target: Node)
    ensures CountOf(counts, (source, target)) <= OutTotal(counts, source)
  {
    if (source, target) in counts {
      SumBoundsMember(counts, OutKeys(counts, source), (source, target));
    }
  }

  lemma QuotientInUnit(c: nat, t: nat)
    requires c <= t && t > 0
    ensures 0.0 <= c as real / t as real <= 1.0
    ensures c as real / t as real == 0.0 <==> c == 0
  {
    var q := c as real / t as real;
    assert q * t as real == c as real;
  }

  /** Every probability the store can supply lies in [0,1], and is 0 exactly for pairs never recorded. */
  lemma ProbabilityInUnit(counts: Counts, source: Node, target: Node)
    ensures 0.0 <= Probability(counts, source, target) <= 1.0
    ensures Probability(counts, source, target) == 0.0 <==> CountOf(counts, (source, target)) == 0
  {
    CountWithinTotal(counts, source, target);
    if OutTotal(counts, source) != 0 {
      QuotientInUnit(CountOf(counts, (source, target)), OutTotal(counts, source));
    }
  }

  /** The probabilities along a set of recorded edges out of one source. */
  ghost function ProbabilitySum(counts: Counts, source: Node, keys: set<(Node, Node)>): real
    requires keys <= OutKeys(counts, source)
  {
    if keys == {} then 0.0
    else
      var k :| k in keys;
      Probability(counts, source, k.1) + ProbabilitySum(counts, source, keys - {k})
  }

  lemma QuotientsAdd(a: nat, b: nat, t: nat)
    requires t > 0
    ensures a as real / t as real + b as real / t as real == (a + b) as real / t as real
  {
  }

  lemma {:induction false} ProbabilitySumIsShare(counts: Counts, source: Node, keys: set<(Node, Node)>)
    requires keys <= OutKeys(counts, source) && OutTotal(counts, source) > 0
    ensures ProbabilitySum(counts, source, keys) == SumOf(counts, keys) as real / OutTotal(counts, source) as real
    decreases keys
  {
    if keys == {} {
      QuotientInUnit(0, OutTotal(counts, source));
    } else {
      var k :| k in keys
               && ProbabilitySum(counts, source, keys)
                  == Probability(counts, source, k.1) + ProbabilitySum(counts, source, keys - {k});
      ProbabilitySumIsShare(counts, source, keys - {k});
      SumTake(counts, keys, k);
      assert k == (source, k.1);
      var rest, total := SumOf(counts, keys - {k}), OutTotal(counts, source);
      assert Probability(counts, source, k.1) == counts[k] as real / total as real;
      QuotientsAdd(counts[k], rest, total);
      assert SumOf(counts, keys) == counts[k] + rest;
    }
  }

  lemma WholeShare(t: nat)
    requires t > 0
    ensures t as real / t as real == 1.0
  {
  }

  /** A source with recorded edges spreads exactly probability 1 over its targets. */
  lemma ProbabilitiesSumToOne(counts: Counts, source: Node)
    requires exists target :: CountOf(counts, (source, target)) > 0
    ensures ProbabilitySum(counts, source, OutKeys(counts, source)) == 1.0
  {
    var target :| CountOf(counts, (source, target)) > 0;
    CountWithinTotal(counts, source, target);
    ProbabilitySumIsShare(counts, source, OutKeys(counts, source));
    WholeShare(OutTotal(counts, source));
  }

  // ----- small steps used by the recording methods -----

  lemma {:induction false} EntryCountAt(entries: seq<(Node, nat)>, i: nat)
    requires DistinctSkills(entries) && i < |entries|
    ensures EntryCount(entries, entries[i].0) == entries[i].1
  {
    if i > 0 {
      EntryCountAt(entries[1..], i - 1);
    }
  }

  lemma {:induction false} EntryCountAbsent(entries: seq<(Node, nat)>, skill: Node)
    requires forall i :: 0 <= i < |entries| ==> entries[i].0 != skill
    ensures EntryCount(entries, skill) == 0
  {
    if entries != [] {
      EntryCountAbsent(entries[1..], skill);
    }
  }

  lemma {:induction false} EntryPresent(entries: seq<(Node, nat)>, skill: Node)
    requires EntryCount(entries, skill) > 0
    ensures (skill, EntryCount(entries, skill)) in entries
  {
    if entries[0].0 != skill {
      EntryPresent(entries[1..], skill);
    }
  }

  lemma EntryCountChange(before: seq<(Node, nat)>, after: seq<(Node, nat)>, skill: Node, other: Node)
    requires DistinctSkills(before) && DistinctSkills(after) && other != skill
    requires |before| <= |after|
    requires forall i :: 0 <= i < |before| ==>
      before[i].0 == after[i].0 && (before[i].0 != skill ==> before[i].1 == after[i].1)
    requires forall i :: |before| <= i < |after| ==> after[i].0 == skill
    ensures EntryCount(before, other) == EntryCount(after, other)
  {
    if i :| 0 <= i < |before| && before[i].0 == other {
      EntryCountAt(before, i);
      EntryCountAt(after, i);
    } else {
      EntryCountAbsent(before, other);
      EntryCountAbsent(after, other);
    }
  }

  /** Raising the entry of a skill, or appending one, raises its count alone. */
  lemma EntriesBumped(before: seq<(Node, nat)>, after: seq<(Node, nat)>, skill: Node, pos: nat)
    requires DistinctSkills(before) && pos <= |before|
    requires forall i :: 0 <= i < pos ==> before[i].0 != skill
    requires pos < |before| ==> before[pos].0 == skill
    requires after == if pos < |before| then before[pos := (skill, before[pos].1 + 1)] else before + [(skill, 1)]
    ensures DistinctSkills(after) && (AllPositive(before) ==> AllPositive(after))
    ensures forall s :: EntryCount(after, s) == EntryCount(before, s) + (if s == skill then 1 else 0)
  {
    hide EntryCount;
    EntryCountAt(after, pos);
    if pos < |before| {
      EntryCountAt(before, pos);
    } else {
      EntryCountAbsent(before, skill);
    }
    forall s | s != skill
      ensures EntryCount(before, s) == EntryCount(after, s)
    {
      EntryCountChange(before, after, skill, s);
    }
  }

  lemma ProfileTotalRaise(profile: Profile, signature: string)
    ensures ProfileTotal(profile[signature := CountOf(profile, signature) + 1]) == ProfileTotal(profile) + 1
  {
    SumRaise(profile, profile.Keys, signature, CountOf(profile, signature) + 1);
    assert profile[signature := CountOf(profile, signature) + 1].Keys == profile.Keys + {signature};
  }

  ghost function GrandTotal(profiles: map<Node, Profile>): nat {
    SumOf(ProfileTotals(profiles), profiles.Keys)
  }

  /** Replacing a profile by one that totals one more raises the grand total by one. */
  lemma GrandTotalRaise(profiles: map<Node, Profile>, skill: Node, profile: Profile)
    requires ProfileTotal(profile) == ProfileTotal(ProfileOf(profiles, skill)) + 1
    ensures GrandTotal(profiles[skill := profile]) == GrandTotal(profiles) + 1
  {
    var totals := ProfileTotals(profiles);
    var raised := profiles[skill := profile];
    assert ProfileTotals(raised) == totals[skill := ProfileTotal(profile)];
    assert raised.Keys == profiles.Keys + {skill} && totals.Keys == profiles.Keys;
    SumRaise(totals, totals.Keys, skill, ProfileTotal(profile));
  }

  // ----- what it means for an index to summarise a history -----

  ghost predicate IndexMatches(index: map<string, seq<(Node, nat)>>, log: seq<Event>) {
    forall sig :: DistinctSkills(Entries(index, sig)) && AllPositive(Entries(index, sig))
      && forall s :: EntryCount(Entries(index, sig), s) == Occurrences(log, s, sig)
  }

  ghost predicate ProfilesMatch(profiles: map<Node, Profile>, log: seq<Event>) {
    && (forall s, sig :: CountOf(ProfileOf(profiles, s), sig) == Occurrences(log, s, sig))
    && GrandTotal(profiles) == ObservationCount(log)
  }

  ghost predicate EdgesMatch(edges: Counts, log: seq<Event>) {
    && (forall k :: k in edges ==> edges[k] > 0)
    && (forall s, t :: CountOf(edges, (s, t)) == Propagations(log, s, t))
  }

  /** `after` is `before` with one more occurrence of `skill` under `signature`. */
  ghost predicate IndexBumped(before: map<string, seq<(Node, nat)>>, after: map<string, seq<(Node, nat)>>,
                              skill: Node, signature: string)
  {
    forall sig :: DistinctSkills(Entries(after, sig))
      && (AllPositive(Entries(before, sig)) ==> AllPositive(Entries(after, sig)))
      && forall s :: EntryCount(Entries(after, sig), s)
                     == EntryCount(Entries(before, sig), s) + (if s == skill && sig == signature then 1 else 0)
  }

  ghost predicate EdgeBumped(before: Counts, after: Counts, source: Node, target: Node) {
    && ((forall k :: k in before ==> before[k] > 0) ==> forall k :: k in after ==> after[k] > 0)
    && forall s, t :: CountOf(after, (s, t)) == CountOf(before, (s, t)) + (if s == source && t == target then 1 else 0)
  }

  /** Bumping the edge that `e` propagates along, if any, keeps the edge counts in step. */
  lemma EdgesFollowLog(before: Counts, after: Counts, log: seq<Event>, e: Event)
    requires EdgesMatch(before, log)
    requires match e
             case Observed(obs) =>
               if obs.propagationFrom.Some? then EdgeBumped(before, after, obs.propagationFrom.value, obs.skill)
               else after == before
             case Propagated(s, t) => EdgeBumped(before, after, s, t)
    ensures EdgesMatch(after, log + [e])
  {
    LogGrows(log, e);
  }

  /** How often the history propagates out of a skill, whatever the target. */
  function Departures(log: seq<Event>, source: Node): nat {
    if log == [] then 0
    else
      Departures(log[..|log| - 1], source)
      + (match log[|log| - 1]
         case Observed(obs) => if obs.propagationFrom == Some(source) then 1 else 0
         case Propagated(s, _) => if s == source then 1 else 0)
  }

  /** What a store that saw the history has counted. */
  ghost function CountsOf(log: seq<Event>): Counts {
    if log == [] then map[]
    else
      var before := CountsOf(log[..|log| - 1]);
      match log[|log| - 1]
      case Observed(obs) => if obs.propagationFrom.Some? then Bumped(before, (obs.propagationFrom.value, obs.skill)) else before
      case Propagated(s, t) => Bumped(before, (s, t))
  }

  function Bumped(counts: Counts, k: (Node, Node)): Counts {
    counts[k := CountOf(counts, k) + 1]
  }

  lemma BumpedTotal(counts: Counts, k: (Node, Node), source: Node)
    ensures OutTotal(Bumped(counts, k), source) == OutTotal(counts, source) + (if k.0 == source then 1 else 0)
  {
    var after := Bumped(counts, k);
    if k.0 == source {
      assert OutKeys(after, source) == OutKeys(counts, source) + {k};
      SumRaise(counts, OutKeys(counts, source), k, CountOf(counts, k) + 1);
    } else {
      assert OutKeys(after, source) == OutKeys(counts, source);
      SumAgree(counts, after, OutKeys(counts, source));
    }
  }

  lemma {:induction false} CountsSummarise(log: seq<Event>, source: Node)
    ensures EdgesMatch(CountsOf(log), log)
    ensures OutTotal(CountsOf(log), source) == Departures(log, source)
  {
    hide OutTotal;
    if log == [] {
      NothingCounted(source);
    } else {
      var init, e := log[..|log| - 1], log[|log| - 1];
      CountsSummarise(init, source);
      assert log == init + [e];
      EdgesFollowLog(CountsOf(init), CountsOf(log), init, e);
      match e
      case Observed(obs) =>
        if obs.propagationFrom.Some? {
          BumpedTotal(CountsOf(init), (obs.propagationFrom.value, obs.skill), source);
        }
      case Propagated(s, t) => BumpedTotal(CountsOf(init), (s, t), source);
    }
  }

  lemma NothingCounted(source: Node)
    ensures OutTotal(map[], source) == 0
  {
    assert OutKeys(map[], source) == {};
  }

  /** A history has one set of counts. */
  lemma CountsUnique(x: Counts, y: Counts, log: seq<Event>)
    requires EdgesMatch(x, log) && EdgesMatch(y, log)
    ensures x == y
  {
    forall k | k in x
      ensures k in y && y[k] == x[k]
    {
      assert k == (k.0, k.1) && CountOf(x, (k.0, k.1)) == CountOf(y, (k.0, k.1));
    }
    forall k | k in y
      ensures k in x
    {
      assert k == (k.0, k.1) && CountOf(x, (k.0, k.1)) == CountOf(y, (k.0, k.1));
    }
  }

  /** The total of a skill's edges is the number of times the history propagates out of it. */
  lemma TotalsFollowLog(edges: Counts, log: seq<Event>, source: Node)
    requires EdgesMatch(edges, log)
    ensures OutTotal(edges, source) == Departures(log, source)
  {
    hide EdgesMatch, OutTotal;
    CountsSummarise(log, source);
    CountsUnique(edges, CountsOf(log), log);
  }

  lemma IndexFollowsLog(before: map<string, seq<(Node, nat)>>, after: map<string, seq<(Node, nat)>>,
                        log: seq<Event>, obs: Observation)
    requires IndexMatches(before, log) && IndexBumped(before, after, obs.skill, obs.signature)
    ensures IndexMatches(after, log + [Observed(obs)])
  {
    LogGrows(log, Observed(obs));
  }

  lemma IndexIgnoresPropagation(index: map<string, seq<(Node, nat)>>, profiles: map<Node, Profile>,
                                log: seq<Event>, source: Node, target: Node)
    requires IndexMatches(index, log) && ProfilesMatch(profiles, log)
    ensures IndexMatches(index, log + [Propagated(source, target)])
    ensures ProfilesMatch(profiles, log + [Propagated(source, target)])
  {
    LogGrows(log, Propagated(source, target));
  }

  function AtLeastOne(totals: map<Node, nat>, source: Node): nat {
    var total := if source in totals then totals[source] else 1;
    if total > 1 then total else 1
  }

  function Clamp(x: real): real {
    if x < 0.001 then 0.001 else if x > 0.999 then 0.999 else x
  }

  /** `p` is the value in [0.001, 0.999] that lies closest to `x`. */
  ghost predicate Nearest(p: real, x: real) {
    && 0.001 <= p <= 0.999
    && forall q :: 0.001 <= q <= 0.999 ==> Distance(p, x) <= Distance(q, x)
  }

  function Distance(x: real, y: real): real {
    if x < y then y - x else x - y
  }

  lemma ClampIsNearest(x: real, p: real)
    ensures Nearest(p, x) <==> p == Clamp(x)
  {
    if Nearest(p, x) {
      assert Distance(p, x) <= Distance(Clamp(x), x);
    }
  }

  /** The last rate given for a skill decides its prior: the share of the failure mass, moved into the range. */
  lemma {:induction false} LastRateDecides(priors: map<Node, real>, rates: seq<(Node, real)>, total: real, k: nat, share: real)
    requires total > 0.0 && k < |rates| && (forall i :: k < i < |rates| ==> rates[i].0 != rates[k].0)
    requires Times(share, total) == 1.0 - rates[k].1
    ensures rates[k].0 in PriorsFrom(priors, rates, total)
    ensures Nearest(PriorsFrom(priors, rates, total)[rates[k].0], share)
    decreases |rates|
  {
    if k == |rates| - 1 {
      QuotientTimes(1.0 - rates[k].1, total);
      SameFactor(share, (1.0 - rates[k].1) / total, total);
      hide Clamp, Times;
      ClampIsNearest(share, Clamp(share));
    } else {
      hide Clamp, Times, Nearest;
      LastRateDecides(priors, rates[..|rates| - 1], total, k, share);
    }
  }

  /** A skill without a rate keeps its prior. */
  lemma {:induction false} NoRateKeepsPrior(priors: map<Node, real>, rates: seq<(Node, real)>, total: real, skill: Node)
    requires total > 0.0 && forall i :: 0 <= i < |rates| ==> rates[i].0 != skill
    ensures skill in PriorsFrom(priors, rates, total) <==> skill in priors
    ensures skill in priors ==> PriorsFrom(priors, rates, total)[skill] == priors[skill]
    decreases |rates|
  {
    hide Clamp;
    if rates != [] {
      NoRateKeepsPrior(priors, rates[..|rates| - 1], total, skill);
    }
  }

  function PriorOf(priors: map<Node, real>, skill: Node): real {
    if skill in priors then priors[skill] else 0.001
  }

  predicate MoreFrequent(x: (Node, nat), y: (Node, nat)) {
    x.1 >= y.1
  }

  function SkillOf(entry: (Node, nat)): Node {
    entry.0
  }

  /** Sorting the entries of an error keeps each skill once, with its count. */
  lemma RankedEntries(entries: seq<(Node, nat)>, ranked: seq<(Node, nat)>)
    requires DistinctSkills(entries) && multiset(ranked) == multiset(entries) && Sorting.SortedBy(ranked, MoreFrequent)
    ensures forall i, j :: 0 <= i < j < |ranked| ==> ranked[i].1 >= ranked[j].1 && ranked[i].0 != ranked[j].0
    ensures forall s, n :: (s, n) in ranked ==> n == EntryCount(entries, s)
    ensures AllPositive(entries) ==> AllPositive(ranked)
    ensures forall s :: EntryCount(entries, s) > 0 ==> (s, EntryCount(entries, s)) in ranked
  {
    hide EntryCount;
    Sorting.SameElements(entries, ranked);
    Sorting.DistinctRearranged(entries, ranked, SkillOf);
    forall i, j | 0 <= i < j < |ranked|
      ensures ranked[i].1 >= ranked[j].1 && ranked[i].0 != ranked[j].0
    {
      assert MoreFrequent(ranked[i], ranked[j]) && SkillOf(ranked[i]) != SkillOf(ranked[j]);
    }
    if AllPositive(entries) {
      forall i | 0 <= i < |ranked|
        ensures ranked[i].1 > 0
      {
        assert ranked[i] in entries;
      }
    }
    forall s, n | (s, n) in ranked
      ensures n == EntryCount(entries, s)
    {
      var i :| 0 <= i < |entries| && entries[i] == (s, n);
      EntryCountAt(entries, i);
    }
    forall s | EntryCount(entries, s) > 0
      ensures (s, EntryCount(entries, s)) in ranked
    {
      EntryPresent(entries, s);
    }
  }

  /** The failure mass that the priors are normalised by. */
  function FailureTotal(rates: seq<(Node, real)>): real {
    if rates == [] then 0.0
    else FailureTotal(rates[..|rates| - 1]) + (1.0 - rates[|rates| - 1].1)
  }

  function PriorsFrom(priors: map<Node, real>, rates: seq<(Node, real)>, total: real): map<Node, real>
    requires total > 0.0
  {
    if rates == [] then priors
    else
      var (skill, rate) := rates[|rates| - 1];
      PriorsFrom(priors, rates[..|rates| - 1], total)[skill := Clamp((1.0 - rate) / total)]
  }

  class CausalModelStore {
    var errorIndex: map<string, seq<(Node, nat)>>
    var errorProfiles: map<Node, Profile>
    var edges: Counts
    var priors: map<Node, real>
    ghost var log: seq<Event>

    /** Every index is the count of the same history. */
    ghost predicate Valid()
      reads this
    {
      && IndexMatches(errorIndex, log)
      && ProfilesMatch(errorProfiles, log)
      && EdgesMatch(edges, log)
      && forall s :: s in priors ==> 0.001 <= priors[s] <= 0.999
    }

    constructor ()
      ensures Valid() && log == [] && priors == map[]
    {
      errorIndex, errorProfiles, edges, priors, log := map[], map[], map[], map[], [];
    }

    // ----- recording -----

    /** Bumps the entry of `skill` under `signature`, or appends a new one. */
    method BumpIndex(skill: Node, signature: string)
      requires IndexMatches(errorIndex, log)
      modifies this`errorIndex
      ensures IndexBumped(old(errorIndex), errorIndex, skill, signature)
    {
      var entries := Entries(errorIndex, signature);
      assert DistinctSkills(entries);
      var pos := 0;
      while pos < |entries| && entries[pos].0 != skill
        invariant 0 <= pos <= |entries|
        invariant forall i :: 0 <= i < pos ==> entries[i].0 != skill
      {
        pos := pos + 1;
      }
      var after :=
        if pos < |entries| then entries[pos := (skill, entries[pos].1 + 1)] else entries + [(skill, 1)];
      errorIndex := errorIndex[signature := after];
      EntriesBumped(entries, after, skill, pos);
      hide DistinctSkills, AllPositive, EntryCount;
      forall sig
        ensures DistinctSkills(Entries(errorIndex, sig))
        ensures AllPositive(Entries(old(errorIndex), sig)) ==> AllPositive(Entries(errorIndex, sig))
      {
        assert old(DistinctSkills(Entries(errorIndex, sig)));
      }
    }

    method BumpEdge(source: Node, target: Node)
      modifies this`edges
      ensures EdgeBumped(old(edges), edges, source, target)
    {
      edges := edges[(source, target) := CountOf(edges, (source, target)) + 1];
    }

    method BumpProfile(obs: Observation)
      requires ProfilesMatch(errorProfiles, log)
      modifies this`errorProfiles
      ensures ProfilesMatch(errorProfiles, log + [Observed(obs)])
    {
      var profile := ProfileOf(errorProfiles, obs.skill);
      var raised := profile[obs.signature := CountOf(profile, obs.signature) + 1];
      ProfileTotalRaise(profile, obs.signature);
      GrandTotalRaise(errorProfiles, obs.skill, raised);
      LogGrows(log, Observed(obs));
      errorProfiles := errorProfiles[obs.skill := raised];
    }

    method RecordObservation(obs: Observation)
      requires Valid()
      modifies this
      ensures Valid() && log == old(log) + [Observed(obs)] && priors == old(priors)
    {
      hide IndexMatches, IndexBumped, ProfilesMatch, EdgesMatch, EdgeBumped;
      BumpIndex(obs.skill, obs.signature);
      IndexFollowsLog(old(errorIndex), errorIndex, log, obs);
      BumpProfile(obs);
      if obs.propagationFrom.Some? {
        BumpEdge(obs.propagationFrom.value, obs.skill);
      }
      EdgesFollowLog(old(edges), edges, log, Observed(obs));
      log := log + [Observed(obs)];
    }

    method RecordPropagation(source: Node, target: Node)
      requires Valid()
      modifies this
      ensures Valid() && log == old(log) + [Propagated(source, target)] && priors == old(priors)
    {
      BumpEdge(source, target);
      IndexIgnoresPropagation(errorIndex, errorProfiles, log, source, target);
      EdgesFollowLog(old(edges), edges, log, Propagated(source, target));
      log := log + [Propagated(source, target)];
    }

    method SetPrior(skill: Node, probability: real)
      requires Valid()
      modifies this`priors
      ensures Valid() && forall s :: s in priors <==> s in old(priors) || s == skill
      ensures forall s :: s in priors && s != skill ==> priors[s] == old(priors)[s]
      ensures Nearest(priors[skill], probability)
    {
      ClampIsNearest(probability, Clamp(probability));
      priors := priors[skill := Clamp(probability)];
    }

    /** Priors from success rates; a later entry for the same skill wins. */
    method UpdatePriorsFromSuccessRates(rates: seq<(Node, real)>)
      requires Valid()
      modifies this`priors
      ensures Valid()
      ensures var sum := FailureTotal(rates);
              priors == PriorsFrom(old(priors), rates, if sum > 0.001 then sum else 0.001)
    {
      hide IndexMatches, ProfilesMatch, EdgesMatch;
      var sum := 0.0;
      for i := 0 to |rates|
        invariant sum == FailureTotal(rates[..i])
      {
        assert rates[..i + 1][..i] == rates[..i];
        sum := sum + (1.0 - rates[i].1);
      }
      var total := if sum > 0.001 then sum else 0.001;
      for i := 0 to |rates|
        invariant priors == PriorsFrom(old(priors), rates[..i], total)
        invariant forall s :: s in priors ==> 0.001 <= priors[s] <= 0.999
      {
        assert rates[..i + 1][..i] == rates[..i];
        priors := priors[rates[i].0 := Clamp((1.0 - rates[i].1) / total)];
      }
      assert rates[..|rates|] == rates;
    }

    method Clear()
      modifies this
      ensures Valid() && log == []
      ensures errorIndex == map[] && errorProfiles == map[] && edges == map[] && priors == map[]
    {
      errorIndex, errorProfiles, edges, priors, log := map[], map[], map[], map[], [];
    }

    // ----- queries -----

    method Prior(skill: Node) returns (p: real)
      requires Valid()
      ensures p == if skill in priors then priors[skill] else 0.001
      ensures 0.001 <= p <= 0.999
    {
      p := PriorOf(priors, skill);
    }

    /** Exactly the skills that showed an error, each once with its count, most frequent first. */
    method FindSkillsByError(signature: string) returns (skills: seq<(Node, nat)>)
      requires Valid()
      ensures forall i, j :: 0 <= i < j < |skills| ==> skills[i].1 >= skills[j].1 && skills[i].0 != skills[j].0
      ensures forall s, n :: (s, n) in skills <==> n == Occurrences(log, s, signature) && n > 0
    {
      hide EntryCount, ProfilesMatch, EdgesMatch, DistinctSkills;
      var entries := Entries(errorIndex, signature);
      skills := Sorting.Sort(entries, MoreFrequent);
      Sorting.SortIsSorted(entries, MoreFrequent);
      assert DistinctSkills(entries);
      RankedEntries(entries, skills);
    }

    method PropagationProbability(source: Node, target: Node) returns (p: real)
      ensures p == Probability(edges, source, target)
    {
      var total := 0;
      var remaining := edges.Keys;
      while remaining != {}
        invariant remaining <= edges.Keys
        invariant total == SumOf(edges, OutKeys(edges, source) - remaining)
        decreases remaining
      {
        var k :| k in remaining;
        if k.0 == source {
          total := total + edges[k];
          SumTake(edges, OutKeys(edges, source) - (remaining - {k}), k);
          assert OutKeys(edges, source) - (remaining - {k}) - {k} == OutKeys(edges, source) - remaining;
        } else {
          assert OutKeys(edges, source) - (remaining - {k}) == OutKeys(edges, source) - remaining;
        }
        remaining := remaining - {k};
      }
      assert OutKeys(edges, source) - {} == OutKeys(edges, source);
      var count := CountOf(edges, (source, target));
      p := if total == 0 then 0.0 else count as real / total as real;
    }

    /** One entry per recorded target, weighted as `PropagationProbability` would weigh it. */
    method OutgoingEdges(source: Node) returns (out: map<Node, PropagationEdge>)
      ensures forall t :: t in out <==> (source, t) in edges
      ensures forall t :: t in out ==>
        out[t].count == edges[(source, t)] && out[t].weight == Probability(edges, source, t)
    {
      var total := 0;
      var targets: map<Node, nat> := map[];
      var remaining := edges.Keys;
      while remaining != {}
        invariant remaining <= edges.Keys
        invariant total == SumOf(edges, OutKeys(edges, source) - remaining)
        invariant forall t :: t in targets <==> (source, t) in edges.Keys - remaining
        invariant forall t :: t in targets ==> targets[t] == edges[(source, t)]
        decreases remaining
      {
        var k :| k in remaining;
        if k.0 == source {
          assert k == (source, k.1);
          total := total + edges[k];
          targets := targets[k.1 := edges[k]];
          SumTake(edges, OutKeys(edges, source) - (remaining - {k}), k);
          assert OutKeys(edges, source) - (remaining - {k}) - {k} == OutKeys(edges, source) - remaining;
        } else {
          assert OutKeys(edges, source) - (remaining - {k}) == OutKeys(edges, source) - remaining;
        }
        remaining := remaining - {k};
      }
      assert OutKeys(edges, source) - {} == OutKeys(edges, source);
      out := map t | t in targets ::
        PropagationEdge(if total > 0 then targets[t] as real / total as real else 0.0, targets[t]);
    }

    /** The outgoing counts of every source, summed in one pass. */
    method SourceTotals() returns (totals: map<Node, nat>)
      ensures forall s :: CountOf(totals, s) == OutTotal(edges, s)
      ensures forall s, t :: (s, t) in edges ==> s in totals
    {
      totals := map[];
      var remaining := edges.Keys;
      while remaining != {}
        invariant remaining <= edges.Keys
        invariant forall s :: CountOf(totals, s) == SumOf(edges, OutKeys(edges, s) - remaining)
        invariant forall s, t :: (s, t) in edges.Keys - remaining ==> s in totals
        decreases remaining
      {
        var k :| k in remaining;
        totals := totals[k.0 := CountOf(totals, k.0) + edges[k]];
        forall s
          ensures CountOf(totals, s) == SumOf(edges, OutKeys(edges, s) - (remaining - {k}))
        {
          if s == k.0 {
            SumTake(edges, OutKeys(edges, s) - (remaining - {k}), k);
            assert OutKeys(edges, s) - (remaining - {k}) - {k} == OutKeys(edges, s) - remaining;
          } else {
            assert OutKeys(edges, s) - (remaining - {k}) == OutKeys(edges, s) - remaining;
          }
        }
        remaining := remaining - {k};
      }
      forall s
        ensures CountOf(totals, s) == OutTotal(edges, s)
      {
        assert OutKeys(edges, s) - {} == OutKeys(edges, s);
      }
    }

    /** Every recorded edge, weighted as `PropagationProbability` would weigh it. */
    method AllPropagationEdges() returns (all: map<(Node, Node), real>)
      requires Valid()
      ensures all.Keys == edges.Keys
      ensures forall k :: k in all ==> all[k] == Probability(edges, k.0, k.1)
    {
      var totals := SourceTotals();
      all := map k | k in edges :: edges[k] as real / AtLeastOne(totals, k.0) as real;
      forall k | k in edges
        ensures all[k] == Probability(edges, k.0, k.1)
      {
        assert k == (k.0, k.1);
        assert CountOf(totals, k.0) == OutTotal(edges, k.0);
        CountWithinTotal(edges, k.0, k.1);
      }
    }

    /** The number of observations recorded since the store was last cleared. */
    method TotalObservations() returns (n: nat)
      requires Valid()
      ensures n == ObservationCount(log)
    {
      n := 0;
      ghost var totals := ProfileTotals(errorProfiles);
      var remaining := errorProfiles.Keys;
      while remaining != {}
        invariant remaining <= errorProfiles.Keys
        invariant n == SumOf(totals, totals.Keys - remaining)
        decreases remaining
      {
        var s :| s in remaining;
        var subtotal := SumProfile(errorProfiles[s]);
        SumTake(totals, totals.Keys - (remaining - {s}), s);
        assert totals.Keys - (remaining - {s}) - {s} == totals.Keys - remaining;
        n := n + subtotal;
        remaining := remaining - {s};
      }
      assert totals.Keys - {} == errorProfiles.Keys;
    }

    static method SumProfile(p: Profile) returns (n: nat)
      ensures n == ProfileTotal(p)
    {
      n := 0;
      var remaining := p.Keys;
      while remaining != {}
        invariant remaining <= p.Keys
        invariant n == SumOf(p, p.Keys - remaining)
        decreases remaining
      {
        var k :| k in remaining;
        SumTake(p, p.Keys - (remaining - {k}), k);
        assert p.Keys - (remaining - {k}) - {k} == p.Keys - remaining;
        n := n + p[k];
        remaining := remaining - {k};
      }
      assert p.Keys - {} == p.Keys;
    }

    /** The two error indexes never disagree. */
    lemma IndexesAgree(skill: Node, signature: string)
      requires Valid()
      ensures EntryCount(Entries(errorIndex, signature), skill)
              == CountOf(ProfileOf(errorProfiles, skill), signature)
      ensures forall i, j :: 0 <= i < j < |Entries(errorIndex, signature)| ==>
        Entries(errorIndex, signature)[i].0 != Entries(errorIndex, signature)[j].0
    {
      assert DistinctSkills(Entries(errorIndex, signature));
    }
  }
}
