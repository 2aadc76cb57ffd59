/** Products of propagation probabilities along walks. */
module CausalWeights {
  import opened Graphs
  import opened CausalStore
  import opened Products

  function OrOneHalf(p: real): real {
    if p == 0.0 then 0.5 else p
  }

  /** The weight the searches give an edge: an unobserved edge counts as one half. */
  ghost function Effective(counts: Counts, a: Node, b: Node): (r: real)
    ensures 0.0 < r <= 1.0
  {
    ProbabilityInUnit(counts, a, b);
    OrOneHalf(Probability(counts, a, b))
  }

  lemma ObservedOrOneHalf(counts: Counts, a: Node, b: Node)
    ensures OrOneHalf(Probability(counts, a, b)) == Effective(counts, a, b)
  {
  }

  /** The product of the effective weights along a walk. */
  ghost function Weight(counts: Counts, p: seq<Node>): (r: real)
    ensures 0.0 < r <= 1.0
  {
    if |p| <= 1 then 1.0
    else
      TimesUnit(Effective(counts, p[0], p[1]), Weight(counts, p[1..]));
      Times(Effective(counts, p[0], p[1]), Weight(counts, p[1..]))
  }

  // ----- what a weight is of -----

  /** A recorded edge weighs its share of all that was recorded out of its source; any other weighs one half. */
  lemma EffectiveIsShare(counts: Counts, a: Node, b: Node)
    ensures CountOf(counts, (a, b)) > 0 ==>
      Times(Effective(counts, a, b), OutTotal(counts, a) as real) == CountOf(counts, (a, b)) as real
    ensures CountOf(counts, (a, b)) == 0 ==> Effective(counts, a, b) == 0.5
  {
    ProbabilityInUnit(counts, a, b);
    CountWithinTotal(counts, a, b);
    if CountOf(counts, (a, b)) > 0 {
      QuotientTimes(CountOf(counts, (a, b)) as real, OutTotal(counts, a) as real);
    }
  }

  /** The same on the history a store has seen. */
  lemma EffectiveFollowsLog(edges: Counts, log: seq<Event>, a: Node, b: Node)
    requires EdgesMatch(edges, log)
    ensures Propagations(log, a, b) > 0 ==>
      Times(Effective(edges, a, b), Departures(log, a) as real) == Propagations(log, a, b) as real
    ensures Propagations(log, a, b) == 0 ==> Effective(edges, a, b) == 0.5
  {
    hide Effective, Times, OutTotal;
    EffectiveIsShare(edges, a, b);
    TotalsFollowLog(edges, log, a);
    assert CountOf(edges, (a, b)) == Propagations(log, a, b);
  }

  /** Along a walk, the product of how often each step was taken; a step never taken counts as one time. */
  function TakenAlong(log: seq<Event>, p: seq<Node>): nat {
    if |p| <= 1 then 1
    else (if Propagations(log, p[0], p[1]) > 0 then Propagations(log, p[0], p[1]) else 1) * TakenAlong(log, p[1..])
  }

  /** The product of how often each node was left when its step is recorded; otherwise it counts as two times. */
  function LeftAlong(log: seq<Event>, p: seq<Node>): nat {
    if |p| <= 1 then 1
    else (if Propagations(log, p[0], p[1]) > 0 then Departures(log, p[0]) else 2) * LeftAlong(log, p[1..])
  }

  /** The weight of a walk is the fraction of what was taken along it by what could have been. */
  lemma {:induction false} WeightFollowsLog(edges: Counts, log: seq<Event>, p: seq<Node>)
    requires EdgesMatch(edges, log)
    ensures Times(Weight(edges, p), LeftAlong(log, p) as real) == TakenAlong(log, p) as real
  {
    hide Effective, Times, EdgesMatch, Departures, Propagations;
    if |p| <= 1 {
      TimesDistributes(0.0, 0.0, 1.0);
    } else {
      var a, b, rest := p[0], p[1], p[1..];
      WeightFollowsLog(edges, log, rest);
      EffectiveFollowsLog(edges, log, a, b);
      var taken := if Propagations(log, a, b) > 0 then Propagations(log, a, b) else 1;
      var left := if Propagations(log, a, b) > 0 then Departures(log, a) else 2;
      HalfOfTwo();
      FractionsMultiply(Effective(edges, a, b), left, taken, Weight(edges, rest), LeftAlong(log, rest), TakenAlong(log, rest));
    }
  }

  lemma WeightOfOne(counts: Counts, a: Node)
    ensures Weight(counts, [a]) == 1.0
  {
  }

  /** One more step at the end multiplies the weight by that step's weight. */
  lemma {:induction false} WeightOfStep(counts: Counts, p: seq<Node>, b: Node)
    requires |p| > 0
    ensures Weight(counts, p + [b]) == Times(Weight(counts, p), Effective(counts, p[|p| - 1], b))
  {
    hide Times, Effective;
    var q := p + [b];
    assert q[1..] == p[1..] + [b];
    if |p| == 1 {
      assert Weight(counts, q[1..]) == 1.0;
      TimesAssociative(Effective(counts, p[0], b), 1.0, 1.0);
    } else {
      WeightOfStep(counts, p[1..], b);
      TimesAssociative(Effective(counts, p[0], p[1]), Weight(counts, p[1..]), Effective(counts, p[|p| - 1], b));
    }
  }

  /** A suffix of a walk weighs at least as much as the walk. */
  lemma {:induction false} SuffixWeighsMore(counts: Counts, p: seq<Node>, i: nat)
    requires i <= |p|
    ensures Weight(counts, p) <= Weight(counts, p[i..])
  {
    hide Times, Effective;
    if i > 0 && |p| > 1 {
      var first, rest := Effective(counts, p[0], p[1]), Weight(counts, p[1..]);
      TimesUnit(rest, first);
      TimesAssociative(first, rest, 1.0);
      SuffixWeighsMore(counts, p[1..], i - 1);
      assert p[1..][i - 1..] == p[i..];
    } else if i == 0 {
      assert p[i..] == p;
    }
  }

  /** Replacing a tail by a heavier one with the same start makes the walk heavier. */
  lemma {:induction false} PrefixKeepsOrder(counts: Counts, pre: seq<Node>, x: seq<Node>, y: seq<Node>)
    requires |x| > 0 && |y| > 0 && x[0] == y[0]
    requires Weight(counts, x) <= Weight(counts, y)
    ensures Weight(counts, pre + x) <= Weight(counts, pre + y)
  {
    hide Times, Effective;
    if pre == [] {
      assert pre + x == x && pre + y == y;
    } else {
      PrefixKeepsOrder(counts, pre[1..], x, y);
      assert (pre + x)[1..] == pre[1..] + x && (pre + y)[1..] == pre[1..] + y;
      assert (pre + x)[1] == (pre + y)[1];
      TimesMonotone(Effective(counts, pre[0], (pre + x)[1]),
                    Weight(counts, pre[1..] + x), Weight(counts, pre[1..] + y));
    }
  }

  /** Every walk is dominated by a walk with the same ends that repeats no node. */
  lemma {:induction false} SimpleDominates(adj: Adjacency, counts: Counts, a: Node, b: Node, p: seq<Node>)
      returns (q: seq<Node>)
    requires WalkBetween(adj, a, b, p)
    ensures WalkBetween(adj, a, b, q) && NoRepeats(q)
    ensures Weight(counts, p) <= Weight(counts, q)
    decreases |p|
  {
    hide Weight, HasArc;
    if NoRepeats(p) {
      q := p;
    } else {
      var i, j :| 0 <= i < j < |p| && p[i] == p[j];
      CutCycle(adj, a, b, p, i, j);
      SuffixWeighsMore(counts, p[i..], j - i);
      assert p[i..][j - i..] == p[j..];
      PrefixKeepsOrder(counts, p[..i], p[i..], p[j..]);
      assert p[..i] + p[i..] == p;
      q := SimpleDominates(adj, counts, a, b, p[..i] + p[j..]);
    }
  }

  /** `best` is the largest weight of any walk from `a` to `b`, and 0 when there is none. */
  ghost predicate IsBestWeight(adj: Adjacency, counts: Counts, a: Node, b: Node, best: real) {
    && (forall p :: WalkBetween(adj, a, b, p) ==> Weight(counts, p) <= best)
    && (if Reachable(adj, a, b)
        then exists p :: WalkBetween(adj, a, b, p) && Weight(counts, p) == best
        else best == 0.0)
  }

  lemma BestWeightUnique(adj: Adjacency, counts: Counts, a: Node, b: Node, x: real, y: real)
    requires IsBestWeight(adj, counts, a, b, x) && IsBestWeight(adj, counts, a, b, y)
    ensures x == y
  {
  }

  // ----- there is a best weight -----

  /** The sequences over `nodes` of length `n` at most. */
  ghost function Sequences(nodes: set<Node>, n: nat): set<seq<Node>> {
    if n == 0 then {[]} else {[]} + set p, x | p in Sequences(nodes, n - 1) && x in nodes :: p + [x]
  }

  lemma {:induction false} InSequences(nodes: set<Node>, p: seq<Node>, n: nat)
    requires |p| <= n && forall x :: x in p ==> x in nodes
    ensures p in Sequences(nodes, n)
  {
    if p != [] {
      InSequences(nodes, p[..|p| - 1], n - 1);
      assert p == p[..|p| - 1] + [p[|p| - 1]];
    }
  }

  lemma {:induction false} Heaviest(counts: Counts, ps: set<seq<Node>>) returns (h: seq<Node>)
    requires ps != {}
    ensures h in ps && forall p :: p in ps ==> Weight(counts, p) <= Weight(counts, h)
    decreases |ps|
  {
    hide Weight;
    var p :| p in ps;
    if ps == {p} {
      h := p;
    } else {
      var q := Heaviest(counts, ps - {p});
      h := if Weight(counts, p) <= Weight(counts, q) then q else p;
    }
  }

  lemma WalkStaysInside(adj: Adjacency, a: Node, b: Node, p: seq<Node>)
    requires WalkBetween(adj, a, b, p)
    ensures forall x :: x in p ==> x in Universe(adj) + {a}
  {
    forall x | x in p
      ensures x in Universe(adj) + {a}
    {
      var i :| 0 <= i < |p| && p[i] == x;
      if i > 0 {
        assert HasArc(adj, p[i - 1], p[i - 1 + 1]);
        ArcTargetsInUniverse(adj, p[i - 1], p[i]);
      }
    }
  }

  /** The walks without repeats, among which the heaviest walk must be. */
  ghost function SimpleWalks(adj: Adjacency, a: Node, b: Node): set<seq<Node>> {
    set p | p in Sequences(Universe(adj) + {a}, |Universe(adj) + {a}|) && WalkBetween(adj, a, b, p)
  }

  lemma InSimpleWalks(adj: Adjacency, a: Node, b: Node, p: seq<Node>)
    requires WalkBetween(adj, a, b, p) && NoRepeats(p)
    ensures p in SimpleWalks(adj, a, b)
  {
    hide HasArc, Universe, Sequences;
    var inside := Universe(adj) + {a};
    WalkStaysInside(adj, a, b, p);
    NoRepeatsFits(p, inside);
    InSequences(inside, p, |inside|);
  }

  lemma HeaviestIsBest(adj: Adjacency, counts: Counts, a: Node, b: Node, h: seq<Node>)
    requires WalkBetween(adj, a, b, h)
    requires forall p :: p in SimpleWalks(adj, a, b) ==> Weight(counts, p) <= Weight(counts, h)
    ensures IsBestWeight(adj, counts, a, b, Weight(counts, h))
  {
    hide Weight, SimpleWalks, WalkBetween, NoRepeats;
    forall p | WalkBetween(adj, a, b, p)
      ensures Weight(counts, p) <= Weight(counts, h)
    {
      var q := SimpleDominates(adj, counts, a, b, p);
      InSimpleWalks(adj, a, b, q);
    }
  }

  /** Between any two nodes there is a heaviest walk, although there may be infinitely many walks. */
  lemma BestWeightExists(adj: Adjacency, counts: Counts, a: Node, b: Node) returns (best: real)
    ensures IsBestWeight(adj, counts, a, b, best)
  {
    hide Weight, WalkBetween, NoRepeats, Sequences;
    if p :| WalkBetween(adj, a, b, p) {
      var q := SimpleDominates(adj, counts, a, b, p);
      InSimpleWalks(adj, a, b, q);
      var h := Heaviest(counts, SimpleWalks(adj, a, b));
      HeaviestIsBest(adj, counts, a, b, h);
      best := Weight(counts, h);
    } else {
      best := 0.0;
    }
  }
}
