/**
 * How likely a reconstructed path is: against all other walks between its ends,
 * and against the value of the depth-first search.
 */
module PathLikelihood {
  import opened Graphs
  import opened Sums
  import opened CausalStore
  import opened CausalWeights
  import opened CausalSearch
  import opened Products

  // ----- counts recorded along one walk alone -----

  /** What a store holds when every step of `p` has been recorded once and nothing else has. */
  function CountsAlong(p: seq<Node>): Counts {
    if |p| < 2 then map[] else CountsAlong(p[1..])[(p[0], p[1]) := 1]
  }

  ghost predicate IsStep(p: seq<Node>, i: nat, source: Node, target: Node) {
    i < |p| - 1 && p[i] == source && p[i + 1] == target
  }

  lemma {:induction false} StepsAlong(p: seq<Node>, source: Node, target: Node)
    ensures (source, target) in CountsAlong(p) <==> exists i: nat :: IsStep(p, i, source, target)
    ensures (source, target) in CountsAlong(p) ==> CountsAlong(p)[(source, target)] == 1
  {
    if |p| >= 2 {
      var rest := p[1..];
      StepsAlong(rest, source, target);
      if p[0] == source && p[1] == target {
        assert IsStep(p, 0, source, target);
      } else if i: nat :| IsStep(rest, i, source, target) {
        assert IsStep(p, i + 1, source, target);
      } else if i: nat :| IsStep(p, i, source, target) {
        assert IsStep(rest, i - 1, source, target);
      }
    } else {
      assert forall i: nat :: !IsStep(p, i, source, target);
    }
  }

  /** A walk without repeats leaves each of its nodes once, so its own step takes all the probability. */
  lemma EffectiveAlong(p: seq<Node>, i: nat, t: Node)
    requires NoRepeats(p) && i < |p| - 1
    ensures Effective(CountsAlong(p), p[i], t) == if t == p[i + 1] then 1.0 else 0.5
  {
    hide CountsAlong;
    var counts := CountsAlong(p);
    var key := (p[i], p[i + 1]);
    assert IsStep(p, i, p[i], p[i + 1]);
    StepsAlong(p, p[i], p[i + 1]);
    StepsAlong(p, p[i], t);
    forall k | k in OutKeys(counts, p[i])
      ensures k == key
    {
      StepsAlong(p, k.0, k.1);
      var j: nat :| IsStep(p, j, k.0, k.1);
      assert p[j] == p[i];
    }
    assert OutKeys(counts, p[i]) == {key};
    SumTake(counts, {key}, key);
    assert {key} - {key} == {};
    assert OutTotal(counts, p[i]) == 1;
  }

  lemma {:induction false} WeightAlong(p: seq<Node>, i: nat)
    requires NoRepeats(p) && i < |p|
    ensures Weight(CountsAlong(p), p[i..]) == 1.0
    decreases |p| - i
  {
    hide Effective, CountsAlong, Times;
    if i < |p| - 1 {
      WeightAlong(p, i + 1);
      EffectiveAlong(p, i, p[i + 1]);
      assert p[i..][1..] == p[i + 1..];
      TimesUnit(1.0, 1.0);
    }
  }

  /** A step that was never recorded halves a walk. */
  lemma UnrecordedStepHalves(counts: Counts, h: seq<Node>, i: nat)
    requires i < |h| - 1 && Effective(counts, h[i], h[i + 1]) == 0.5
    ensures Weight(counts, h) <= 0.5
  {
    hide Effective, Times;
    SuffixWeighsMore(counts, h, i);
    assert h[i..][1..] == h[i + 1..];
    TimesUnit(0.5, Weight(counts, h[i + 1..]));
  }

  // ----- the reported path against all other walks -----

  lemma PrefixIsAll(x: seq<Node>, y: seq<Node>)
    requires x != [] && x <= y && NoRepeats(y) && x[|x| - 1] == y[|y| - 1]
    ensures x == y
  {
    assert x[|x| - 1] == y[|x| - 1];
  }

  /** Two ways without repeats between the same ends part at some node. */
  lemma PartingStep(h: seq<Node>, r: seq<Node>, k: nat) returns (i: nat)
    requires NoRepeats(h) && NoRepeats(r) && h != r
    requires 0 < k <= |h| && k <= |r| && h[..k] == r[..k] && h[|h| - 1] == r[|r| - 1]
    ensures i < |h| - 1 && i < |r| - 1 && h[i] == r[i] && h[i + 1] != r[i + 1]
    decreases |h| - k
  {
    assert h[..|h|] == h && r[..|r|] == r;
    if k == |h| {
      PrefixIsAll(h, r);
    }
    if k == |r| {
      PrefixIsAll(r, h);
    }
    if h[k] == r[k] {
      i := PartingStep(h, r, k + 1);
    } else {
      i := k - 1;
      assert h[..k][i] == r[..k][i];
    }
  }

  /** Whatever has been recorded, no walk between the ends of `h` weighs more. */
  ghost predicate AlwaysMostLikely(adj: Adjacency, a: Node, b: Node, h: seq<Node>) {
    forall counts: Counts, p: seq<Node> :: WalkBetween(adj, a, b, p) ==> Weight(counts, p) <= Weight(counts, h)
  }

  /** There is no second way from `a` to `b` without repeats. */
  ghost predicate OneWay(adj: Adjacency, a: Node, b: Node) {
    forall p, q :: WalkBetween(adj, a, b, p) && NoRepeats(p) && WalkBetween(adj, a, b, q) && NoRepeats(q) ==> p == q
  }

  /** With the steps of another way recorded, that way has weight 1 and `h` at most one half. */
  lemma OtherWayIsLikelier(h: seq<Node>, r: seq<Node>)
    requires h != [] && r != [] && NoRepeats(h) && NoRepeats(r) && h != r
    requires h[0] == r[0] && h[|h| - 1] == r[|r| - 1]
    ensures Weight(CountsAlong(r), r) == 1.0 && Weight(CountsAlong(r), h) <= 0.5
  {
    hide Effective, CountsAlong, Weight;
    var i := PartingStep(h, r, 1);
    EffectiveAlong(r, i, h[i + 1]);
    UnrecordedStepHalves(CountsAlong(r), h, i);
    WeightAlong(r, 0);
    assert r[0..] == r;
  }

  /** A way without repeats is the most likely one under all recordings exactly when it is the only one. */
  lemma MostLikelyExactlyWhen(adj: Adjacency, a: Node, b: Node, h: seq<Node>)
    requires WalkBetween(adj, a, b, h) && NoRepeats(h)
    ensures AlwaysMostLikely(adj, a, b, h) <==> OneWay(adj, a, b)
  {
    hide Weight, HasArc, CountsAlong;
    if OneWay(adj, a, b) {
      forall counts: Counts, p: seq<Node> | WalkBetween(adj, a, b, p)
        ensures Weight(counts, p) <= Weight(counts, h)
      {
        var q := SimpleDominates(adj, counts, a, b, p);
      }
    } else {
      var p, q :| WalkBetween(adj, a, b, p) && NoRepeats(p) && WalkBetween(adj, a, b, q) && NoRepeats(q) && p != q;
      var r := if p == h then q else p;
      OtherWayIsLikelier(h, r);
      assert Weight(CountsAlong(r), r) > Weight(CountsAlong(r), h);
    }
  }

  /** Every chain of fewest edges is, under the counts it was found with, as likely as any walk. */
  ghost predicate ReportsMostLikely(adj: Adjacency, a: Node, b: Node) {
    forall counts: Counts, hops: seq<Hop>, p: seq<Node> ::
      ShortestChain(adj, counts, a, b, hops) && WalkBetween(adj, a, b, p) ==> Weight(counts, p) <= Confidence(hops)
  }

  lemma {:induction false} WalkIsChain(adj: Adjacency, counts: Counts, a: Node, b: Node, p: seq<Node>)
      returns (hops: seq<Hop>)
    requires WalkBetween(adj, a, b, p)
    ensures HopChain(adj, counts, a, b, hops) && [a] + Nodes(hops) == p
    decreases |p|
  {
    hide Effective;
    if |p| == 1 {
      hops := [];
    } else {
      var init, m := p[..|p| - 1], p[|p| - 2];
      assert HasArc(adj, p[|p| - 2], p[|p| - 2 + 1]);
      var arc :| arc in ArcsFrom(adj, m) && arc.target == b;
      var earlier := WalkIsChain(adj, counts, a, m, init);
      var hop := Hop(b, arc.link, Effective(counts, m, b));
      ExtendChain(adj, counts, a, m, earlier, hop);
      hops := earlier + [hop];
      assert Nodes(hops) == Nodes(earlier) + [b];
      assert p == init + [b];
    }
  }

  /** A shortest walk, reported under any counts. */
  lemma {:induction false} ShortestWalk(adj: Adjacency, a: Node, b: Node, p: seq<Node>) returns (h: seq<Node>)
    requires WalkBetween(adj, a, b, p)
    ensures WalkBetween(adj, a, b, h) && NoRepeats(h) && forall q :: WalkBetween(adj, a, b, q) ==> |h| <= |q|
    decreases |p|
  {
    hide HasArc;
    if q :| WalkBetween(adj, a, b, q) && |q| < |p| {
      h := ShortestWalk(adj, a, b, q);
    } else {
      h := p;
      ShortestIsSimple(adj, a, b, p);
    }
  }

  lemma ReportedUnder(adj: Adjacency, counts: Counts, a: Node, b: Node, h: seq<Node>) returns (hops: seq<Hop>)
    requires WalkBetween(adj, a, b, h) && NoRepeats(h) && forall q :: WalkBetween(adj, a, b, q) ==> |h| <= |q|
    ensures ShortestChain(adj, counts, a, b, hops) && Confidence(hops) == Weight(counts, h)
  {
    hide HasArc, HopChain, Weight, Confidence;
    hops := WalkIsChain(adj, counts, a, b, h);
    assert |h| == |hops| + 1;
    ConfidenceIsWeight(adj, counts, a, b, hops);
  }

  /**
   * Path reconstruction reports a most likely path, whatever has been
   * recorded, exactly when there is only one way between the two skills.
   */
  lemma ReportsMostLikelyExactlyWhen(adj: Adjacency, a: Node, b: Node)
    ensures ReportsMostLikely(adj, a, b) <==> OneWay(adj, a, b)
  {
    hide Weight, HasArc, Confidence, HopChain, CountsAlong;
    if OneWay(adj, a, b) {
      forall counts: Counts, hops: seq<Hop>, p: seq<Node>
        | ShortestChain(adj, counts, a, b, hops) && WalkBetween(adj, a, b, p)
        ensures Weight(counts, p) <= Confidence(hops)
      {
        ChainIsWalk(adj, counts, a, b, hops);
        ConfidenceIsWeight(adj, counts, a, b, hops);
        MostLikelyExactlyWhen(adj, a, b, [a] + Nodes(hops));
      }
    } else {
      var p, q :| WalkBetween(adj, a, b, p) && NoRepeats(p) && WalkBetween(adj, a, b, q) && NoRepeats(q) && p != q;
      var h := ShortestWalk(adj, a, b, p);
      var r := if p == h then q else p;
      OtherWayIsLikelier(h, r);
      var hops := ReportedUnder(adj, CountsAlong(r), a, b, h);
      assert Weight(CountsAlong(r), r) > Confidence(hops);
    }
  }

  /** One edge against a recorded detour: the reported path has confidence one half, the detour weight 1. */
  lemma DetourIsLikelier()
    ensures var edges := [Edge("a", "b", "Extends"), Edge("a", "c", "Extends"), Edge("c", "b", "Extends")];
            var adj, counts := AdjacencyOf(edges, AnyKind), map[("a", "c") := 1, ("c", "b") := 1];
            && ShortestChain(adj, counts, "a", "b", [Hop("b", Extends, 0.5)])
            && Confidence([Hop("b", Extends, 0.5)]) == 0.5
            && WalkBetween(adj, "a", "b", ["a", "c", "b"]) && Weight(counts, ["a", "c", "b"]) == 1.0
  {
    var edges := [Edge("a", "b", "Extends"), Edge("a", "c", "Extends"), Edge("c", "b", "Extends")];
    var adj, detour := AdjacencyOf(edges, AnyKind), ["a", "c", "b"];
    DetourCounts();
    ThreeEdges(edges);
    hide AdjacencyOf, ShortestChain, CountsAlong, Weight, Confidence, Effective, HasArc;
    DetourIsWay(adj);
    OtherWayIsLikelier(["a", "b"], detour);
    EffectiveAlong(detour, 0, "b");
    OneHop(adj, CountsAlong(detour), "a", "b", Extends);
  }

  lemma DetourIsWay(adj: Adjacency)
    requires adj == map["a" := [Arc("b", Extends), Arc("c", Extends)], "c" := [Arc("b", Extends)]]
    ensures WalkBetween(adj, "a", "b", ["a", "c", "b"])
    ensures NoRepeats(["a", "b"]) && NoRepeats(["a", "c", "b"])
  {
    var detour := ["a", "c", "b"];
    assert HasArc(adj, "a", "c") && HasArc(adj, "c", "b");
    assert forall i :: 0 <= i < 2 ==> HasArc(adj, detour[i], detour[i + 1]);
  }

  lemma DetourCounts()
    ensures CountsAlong(["a", "c", "b"]) == map[("a", "c") := 1, ("c", "b") := 1]
  {
    var detour := ["a", "c", "b"];
    assert detour[1..] == ["c", "b"] && ["c", "b"][1..] == ["b"];
    assert CountsAlong(["c", "b"]) == map[("c", "b") := 1];
  }

  /** A single arc is a shortest chain between two different nodes. */
  lemma OneHop(adj: Adjacency, counts: Counts, a: Node, b: Node, link: LinkKind)
    requires a != b && Arc(b, link) in ArcsFrom(adj, a)
    ensures var hops := [Hop(b, link, Effective(counts, a, b))];
            ShortestChain(adj, counts, a, b, hops) && Confidence(hops) == Effective(counts, a, b)
  {
    hide Effective, Times, HasArc;
    var hop := Hop(b, link, Effective(counts, a, b));
    assert HopChain(adj, counts, a, a, []);
    ExtendChain(adj, counts, a, a, [], hop);
    assert [] + [hop] == [hop] && [hop][..0] == [];
    hide HopChain;
    assert [a] + Nodes([hop]) == [a, b];
    TimesAssociative(hop.probability, 1.0, 1.0);
    TimesUnit(hop.probability, 1.0);
    assert Confidence([]) == 1.0;
  }

  lemma ThreeEdges(edges: seq<Edge>)
    requires edges == [Edge("a", "b", "Extends"), Edge("a", "c", "Extends"), Edge("c", "b", "Extends")]
    ensures AdjacencyOf(edges, AnyKind)
            == map["a" := [Arc("b", Extends), Arc("c", Extends)], "c" := [Arc("b", Extends)]]
  {
    SingleEdge(edges[0], AnyKind);
    var two := edges[..2];
    assert two[..1] == [edges[0]];
    var one: Adjacency := map["a" := [Arc("b", Extends)]];
    assert AdjacencyOf(two[..|two| - 1], AnyKind) == one;
    assert ArcsFrom(one, "a") + [Arc("c", Extends)] == [Arc("b", Extends), Arc("c", Extends)];
    assert AdjacencyOf(two, AnyKind) == map["a" := [Arc("b", Extends), Arc("c", Extends)]];
    assert edges[..|edges| - 1] == two;
    assert ArcsFrom(AdjacencyOf(two, AnyKind), "c") + [Arc("b", Extends)] == [Arc("b", Extends)];
  }

  // ----- the reported path against the depth-first value -----

  /** No path that reconstruction may report is more confident than the depth-first value. */
  ghost predicate ConfidenceBounded(nodes: seq<Node>, edges: seq<Edge>) {
    forall counts: Counts, a: Node, b: Node, hops: seq<Hop>, best: real ::
      ShortestChain(AdjacencyOf(edges, AnyKind), counts, a, b, hops)
      && IsPropagationValue(nodes, edges, counts, a, b, best) ==>
        Confidence(hops) <= best
  }

  /** Every edge between two nodes joins registered ones and has a propagating edge beside it. */
  ghost predicate Accompanied(nodes: seq<Node>, edges: seq<Edge>) {
    forall e :: e in edges && e.source != e.target ==>
      e.source in nodes && e.target in nodes && HasEdge(edges, IsPropagating, e.source, e.target)
  }

  /** A walk without repeats over any edges is then one over propagating edges. */
  lemma AccompaniedWalk(nodes: seq<Node>, edges: seq<Edge>, a: Node, b: Node, p: seq<Node>)
    requires Accompanied(nodes, edges) && WalkBetween(AdjacencyOf(edges, AnyKind), a, b, p) && NoRepeats(p)
    ensures WalkBetween(AdjacencyOf(edges, IsPropagating), a, b, p)
    ensures a != b ==> a in nodes && b in nodes
  {
    hide HasArc, AdjacencyOf, Accompanied;
    forall i | 0 <= i < |p| - 1
      ensures HasArc(AdjacencyOf(edges, IsPropagating), p[i], p[i + 1])
    {
      AccompaniedStep(nodes, edges, p, i);
    }
    if |p| > 1 {
      AccompaniedStep(nodes, edges, p, 0);
      AccompaniedStep(nodes, edges, p, |p| - 2);
    }
  }

  lemma AccompaniedStep(nodes: seq<Node>, edges: seq<Edge>, p: seq<Node>, i: nat)
    requires Accompanied(nodes, edges) && Walk(AdjacencyOf(edges, AnyKind), p) && NoRepeats(p) && i < |p| - 1
    ensures HasArc(AdjacencyOf(edges, IsPropagating), p[i], p[i + 1]) && p[i] in nodes && p[i + 1] in nodes
  {
    hide HasArc, AdjacencyOf;
    assert HasArc(AdjacencyOf(edges, AnyKind), p[i], p[i + 1]);
    ArcsAreEdges(edges, AnyKind, p[i], p[i + 1]);
    ArcsAreEdges(edges, IsPropagating, p[i], p[i + 1]);
  }

  lemma AccompaniedIsBounded(nodes: seq<Node>, edges: seq<Edge>)
    requires Accompanied(nodes, edges)
    ensures ConfidenceBounded(nodes, edges)
  {
    hide HasArc, AdjacencyOf, Confidence, Weight, HopChain, Accompanied;
    forall counts: Counts, a: Node, b: Node, hops: seq<Hop>, best: real
      | ShortestChain(AdjacencyOf(edges, AnyKind), counts, a, b, hops)
        && IsPropagationValue(nodes, edges, counts, a, b, best)
      ensures Confidence(hops) <= best
    {
      ChainIsWalk(AdjacencyOf(edges, AnyKind), counts, a, b, hops);
      ConfidenceIsWeight(AdjacencyOf(edges, AnyKind), counts, a, b, hops);
      AccompaniedWalk(nodes, edges, a, b, [a] + Nodes(hops));
    }
  }

  /** Without an arc from `a` to `b`, a recorded step from `a` to `b` leaves every walk at one half or less. */
  lemma NoArcHalves(adj: Adjacency, a: Node, b: Node, p: seq<Node>)
    requires a != b && !HasArc(adj, a, b) && WalkBetween(adj, a, b, p)
    ensures Weight(CountsAlong([a, b]), p) <= 0.5
  {
    hide Effective, CountsAlong, Weight, HasArc;
    assert HasArc(adj, p[0], p[0 + 1]);
    assert NoRepeats([a, b]) && [a, b][0] == a && [a, b][1] == b;
    EffectiveAlong([a, b], 0, p[1]);
    UnrecordedStepHalves(CountsAlong([a, b]), p, 0);
  }

  /** An edge that is not accompanied is itself reported with confidence 1, and the depth-first value is less. */
  lemma UnaccompaniedExceeds(nodes: seq<Node>, edges: seq<Edge>, e: Edge) returns (hops: seq<Hop>, best: real)
    requires e in edges && e.source != e.target
    requires !(e.source in nodes && e.target in nodes && HasEdge(edges, IsPropagating, e.source, e.target))
    ensures ShortestChain(AdjacencyOf(edges, AnyKind), CountsAlong([e.source, e.target]), e.source, e.target, hops)
    ensures IsPropagationValue(nodes, edges, CountsAlong([e.source, e.target]), e.source, e.target, best)
    ensures Confidence(hops) == 1.0 && best <= 0.5
  {
    hide Effective, CountsAlong, Weight, HasArc, AdjacencyOf, Confidence, ShortestChain, IsPropagating;
    var a, b := e.source, e.target;
    var adj, spec, counts := AdjacencyOf(edges, AnyKind), AdjacencyOf(edges, IsPropagating), CountsAlong([a, b]);
    ArcsAreEdges(edges, AnyKind, a, b);
    var link := ArcLink(adj, a, b);
    OneHop(adj, counts, a, b, link);
    assert NoRepeats([a, b]) && [a, b][0] == a && [a, b][1] == b;
    EffectiveAlong([a, b], 0, b);
    hops := [Hop(b, link, Effective(counts, a, b))];
    if a in nodes && b in nodes {
      best := BestWeightExists(spec, counts, a, b);
      ArcsAreEdges(edges, IsPropagating, a, b);
      forall p | WalkBetween(spec, a, b, p)
        ensures Weight(counts, p) <= 0.5
      {
        NoArcHalves(spec, a, b, p);
      }
    } else {
      best := 0.0;
    }
  }

  lemma ArcLink(adj: Adjacency, a: Node, b: Node) returns (link: LinkKind)
    requires HasArc(adj, a, b)
    ensures Arc(b, link) in ArcsFrom(adj, a)
  {
    var arc :| arc in ArcsFrom(adj, a) && arc.target == b;
    link := arc.link;
  }

  /**
   * The confidence of a reported path never exceeds the depth-first value,
   * whatever has been recorded, exactly when every edge is accompanied by a
   * propagating one between registered nodes.
   */
  lemma ConfidenceBoundedExactlyWhen(nodes: seq<Node>, edges: seq<Edge>)
    ensures ConfidenceBounded(nodes, edges) <==> Accompanied(nodes, edges)
  {
    hide AdjacencyOf, ShortestChain, IsPropagationValue, Confidence, HasEdge, CountsAlong;
    if Accompanied(nodes, edges) {
      AccompaniedIsBounded(nodes, edges);
    } else {
      var e :| e in edges && e.source != e.target
               && !(e.source in nodes && e.target in nodes && HasEdge(edges, IsPropagating, e.source, e.target));
      var hops, best := UnaccompaniedExceeds(nodes, edges, e);
      assert Confidence(hops) > best;
    }
  }
}
