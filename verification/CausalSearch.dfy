/**
 * The searches of the causal engine, each proved against the walks of the
 * dependency graph.
 */
module CausalSearch {
  import opened Options
  import opened Graphs
  import opened CausalStore
  import opened CausalWeights
  import opened Products
  import Sorting

  datatype Hop = Hop(node: Node, link: LinkKind, probability: real)

  datatype Pending = Pending(node: Node, hops: seq<Hop>)

  // ----- depth-first search: walks that avoid the visited nodes -----

  ghost predicate FreeWalk(adj: Adjacency, a: Node, b: Node, visited: set<Node>, p: seq<Node>) {
    WalkBetween(adj, a, b, p) && NoRepeats(p) && forall x :: x in p ==> x !in visited
  }

  lemma TailIsFree(adj: Adjacency, a: Node, b: Node, visited: set<Node>, p: seq<Node>)
    requires FreeWalk(adj, a, b, visited, p) && |p| > 1
    ensures FreeWalk(adj, p[1], b, visited + {a}, p[1..])
    ensures HasArc(adj, a, p[1]) && p[1] !in visited && p[1] != a
    ensures p == [a] + p[1..]
  {
    var q := p[1..];
    assert p[0] == a;
    assert HasArc(adj, p[0], p[1]);
    forall i | 0 <= i < |q| - 1
      ensures HasArc(adj, q[i], q[i + 1])
    {
      assert HasArc(adj, p[i + 1], p[i + 2]);
    }
  }

  lemma ExtendFree(adj: Adjacency, a: Node, next: Node, b: Node, visited: set<Node>, q: seq<Node>)
    requires FreeWalk(adj, next, b, visited + {a}, q) && HasArc(adj, a, next) && a !in visited
    ensures FreeWalk(adj, a, b, visited, [a] + q)
  {
    var p := [a] + q;
    assert forall i :: 0 <= i < |q| ==> q[i] in q;
    forall i | 0 <= i < |p| - 1
      ensures HasArc(adj, p[i], p[i + 1])
    {
      if i > 0 {
        assert HasArc(adj, q[i - 1], q[i]);
      }
    }
  }

  lemma WeightOfExtension(counts: Counts, scale: real, a: Node, q: seq<Node>)
    requires |q| > 0
    ensures Times(scale, Weight(counts, [a] + q)) == Times(Times(scale, Effective(counts, a, q[0])), Weight(counts, q))
  {
    hide Times;
    assert ([a] + q)[1..] == q;
    TimesAssociative(scale, Effective(counts, a, q[0]), Weight(counts, q));
  }

  /** No walk that avoids `visited`, scaled by the path so far, beats `best`. */
  ghost predicate Covered(adj: Adjacency, counts: Counts, a: Node, b: Node, visited: set<Node>, scale: real, best: real) {
    forall p :: FreeWalk(adj, a, b, visited, p) ==> Times(scale, Weight(counts, p)) <= best
  }

  /** `best` is the scaled weight of some walk that avoids `visited`. */
  ghost predicate Attained(adj: Adjacency, counts: Counts, a: Node, b: Node, visited: set<Node>, scale: real, best: real) {
    exists p :: FreeWalk(adj, a, b, visited, p) && best == Times(scale, Weight(counts, p))
  }

  /** As `Covered`, for the walks that leave `a` through one of its first `i` arcs. */
  ghost predicate CoveredVia(adj: Adjacency, counts: Counts, a: Node, b: Node, visited: set<Node>, scale: real,
                             best: real, i: nat)
  {
    forall p, k :: FreeWalk(adj, a, b, visited, p) && |p| > 1
      && 0 <= k < i && k < |ArcsFrom(adj, a)| && ArcsFrom(adj, a)[k].target == p[1]
      ==> Times(scale, Weight(counts, p)) <= best
  }

  lemma PruningIsSound(adj: Adjacency, counts: Counts, a: Node, b: Node, visited: set<Node>, scale: real, best: real)
    requires 0.0 < scale <= best
    ensures Covered(adj, counts, a, b, visited, scale, best)
  {
    hide Times, Weight;
    forall p | FreeWalk(adj, a, b, visited, p)
      ensures Times(scale, Weight(counts, p)) <= best
    {
      TimesUnit(scale, Weight(counts, p));
    }
  }

  lemma TargetAttained(adj: Adjacency, counts: Counts, a: Node, visited: set<Node>, scale: real)
    requires 0.0 < scale && a !in visited
    ensures Attained(adj, counts, a, a, visited, scale, scale)
  {
    hide Times;
    assert FreeWalk(adj, a, a, visited, [a]);
    assert Weight(counts, [a]) == 1.0;
    TimesUnit(scale, 1.0);
  }

  lemma NothingLeft(adj: Adjacency, counts: Counts, a: Node, b: Node, visited: set<Node>, scale: real, best: real)
    ensures CoveredVia(adj, counts, a, b, visited, scale, best, 0)
  {
  }

  lemma SkippedArc(adj: Adjacency, counts: Counts, a: Node, b: Node, visited: set<Node>, scale: real, best: real, i: nat)
    requires CoveredVia(adj, counts, a, b, visited, scale, best, i)
    requires i < |ArcsFrom(adj, a)| && ArcsFrom(adj, a)[i].target in visited + {a}
    ensures CoveredVia(adj, counts, a, b, visited, scale, best, i + 1)
  {
    hide Times, Weight;
    forall p | FreeWalk(adj, a, b, visited, p) && |p| > 1
      ensures p[1] != ArcsFrom(adj, a)[i].target
    {
      TailIsFree(adj, a, b, visited, p);
    }
  }

  lemma FollowedArc(adj: Adjacency, counts: Counts, a: Node, b: Node, visited: set<Node>, scale: real,
                    before: real, best: real, i: nat)
    requires CoveredVia(adj, counts, a, b, visited, scale, before, i) && before <= best
    requires i < |ArcsFrom(adj, a)|
    requires var next := ArcsFrom(adj, a)[i].target;
             Covered(adj, counts, next, b, visited + {a}, Times(scale, Effective(counts, a, next)), best)
    ensures CoveredVia(adj, counts, a, b, visited, scale, best, i + 1)
  {
    hide Times, Weight, FreeWalk, Effective, HasArc;
    var next := ArcsFrom(adj, a)[i].target;
    forall p | FreeWalk(adj, a, b, visited, p) && |p| > 1 && p[1] == next
      ensures Times(scale, Weight(counts, p)) <= best
    {
      TailIsFree(adj, a, b, visited, p);
      WeightOfExtension(counts, scale, a, p[1..]);
    }
  }

  lemma AttainedThroughArc(adj: Adjacency, counts: Counts, a: Node, next: Node, b: Node, visited: set<Node>,
                           scale: real, best: real)
    requires HasArc(adj, a, next) && a !in visited
    requires Attained(adj, counts, next, b, visited + {a}, Times(scale, Effective(counts, a, next)), best)
    ensures Attained(adj, counts, a, b, visited, scale, best)
  {
    hide Times, Weight;
    var q :| FreeWalk(adj, next, b, visited + {a}, q)
             && best == Times(Times(scale, Effective(counts, a, next)), Weight(counts, q));
    ExtendFree(adj, a, next, b, visited, q);
    WeightOfExtension(counts, scale, a, q);
  }

  lemma AllArcsCover(adj: Adjacency, counts: Counts, a: Node, b: Node, visited: set<Node>, scale: real, best: real)
    requires CoveredVia(adj, counts, a, b, visited, scale, best, |ArcsFrom(adj, a)|) && a != b
    ensures Covered(adj, counts, a, b, visited, scale, best)
  {
    hide Times, Weight;
    forall p | FreeWalk(adj, a, b, visited, p)
      ensures Times(scale, Weight(counts, p)) <= best
    {
      assert |p| > 1;
      TailIsFree(adj, a, b, visited, p);
      var arc :| arc in ArcsFrom(adj, a) && arc.target == p[1];
      var k :| 0 <= k < |ArcsFrom(adj, a)| && ArcsFrom(adj, a)[k] == arc;
    }
  }

  /** The best over walks that repeat no node is the best over all walks. */
  lemma BestFromSearch(adj: Adjacency, counts: Counts, a: Node, b: Node, best: real)
    requires Covered(adj, counts, a, b, {}, 1.0, best)
    requires best == 0.0 || Attained(adj, counts, a, b, {}, 1.0, best)
    ensures IsBestWeight(adj, counts, a, b, best)
  {
    hide Times, Weight, HasArc;
    forall p | WalkBetween(adj, a, b, p)
      ensures Weight(counts, p) <= best && best != 0.0
    {
      var q := SimpleDominates(adj, counts, a, b, p);
      assert FreeWalk(adj, a, b, {}, q);
      TimesUnit(Weight(counts, q), 1.0);
      TimesAssociative(Weight(counts, q), 1.0, 1.0);
    }
    if best != 0.0 {
      var q :| FreeWalk(adj, a, b, {}, q) && best == Times(1.0, Weight(counts, q));
      TimesUnit(Weight(counts, q), 1.0);
      TimesAssociative(Weight(counts, q), 1.0, 1.0);
    }
  }

  /** What `MaxPropagationProbability` promises: the best walk between registered nodes, else 0. */
  ghost predicate IsPropagationValue(nodes: seq<Node>, edges: seq<Edge>, counts: Counts, a: Node, b: Node, best: real) {
    if a == b || (a in nodes && b in nodes) then
      IsBestWeight(AdjacencyOf(edges, IsPropagating), counts, a, b, best)
    else best == 0.0
  }

  // ----- breadth-first search: what a queue knows -----

  ghost predicate Queued(queue: seq<Pending>, n: Node) {
    exists i :: 0 <= i < |queue| && queue[i].node == n
  }

  function Nodes(hops: seq<Hop>): seq<Node> {
    seq(|hops|, i requires 0 <= i < |hops| => hops[i].node)
  }

  /** `hop` follows an arc out of `m` and carries the engine's weight for it. */
  ghost predicate GoodHop(adj: Adjacency, counts: Counts, m: Node, hop: Hop) {
    && Arc(hop.node, hop.link) in ArcsFrom(adj, m)
    && hop.probability == Effective(counts, m, hop.node)
  }

  /** Where a hop list that starts at `a` ends. */
  function EndOf(a: Node, hops: seq<Hop>): Node {
    if hops == [] then a else hops[|hops| - 1].node
  }

  /** `hops` is a chain of real arcs from `a` to `b`. */
  ghost predicate HopChain(adj: Adjacency, counts: Counts, a: Node, b: Node, hops: seq<Hop>)
    decreases |hops|
  {
    && EndOf(a, hops) == b
    && (hops != [] ==>
          var init, last := hops[..|hops| - 1], hops[|hops| - 1];
          HopChain(adj, counts, a, EndOf(a, init), init) && GoodHop(adj, counts, EndOf(a, init), last))
  }

  lemma {:induction false} ChainIsWalk(adj: Adjacency, counts: Counts, a: Node, b: Node, hops: seq<Hop>)
    requires HopChain(adj, counts, a, b, hops)
    ensures WalkBetween(adj, a, b, [a] + Nodes(hops))
    decreases |hops|
  {
    if hops != [] {
      hide Effective, HasArc;
      var init := hops[..|hops| - 1];
      var m := EndOf(a, init);
      ChainIsWalk(adj, counts, a, m, init);
      ArcHolds(adj, m, Arc(b, hops[|hops| - 1].link));
      var p, q := [a] + Nodes(init), [a] + Nodes(hops);
      assert q == p + [b];
      forall i | 0 <= i < |q| - 1
        ensures HasArc(adj, q[i], q[i + 1])
      {
        if i < |p| - 1 {
          assert HasArc(adj, p[i], p[i + 1]);
        }
      }
    }
  }

  lemma ExtendChain(adj: Adjacency, counts: Counts, a: Node, m: Node, hops: seq<Hop>, hop: Hop)
    requires HopChain(adj, counts, a, m, hops) && GoodHop(adj, counts, m, hop)
    ensures HopChain(adj, counts, a, hop.node, hops + [hop])
  {
    hide GoodHop;
    assert (hops + [hop])[..|hops|] == hops;
  }

  /** The breadth-first queue: chains of minimal length, in non-decreasing order over two levels at most. */
  ghost predicate Frontier(adj: Adjacency, counts: Counts, a: Node, queue: seq<Pending>, visited: set<Node>) {
    && (forall i :: 0 <= i < |queue| ==> HopChain(adj, counts, a, queue[i].node, queue[i].hops))
    && (forall i :: 0 <= i < |queue| ==> queue[i].node in visited)
    && (forall i, n: nat :: 0 <= i < |queue| && ReachIn(adj, a, queue[i].node, n) ==> |queue[i].hops| <= n)
    && (forall i, j :: 0 <= i < j < |queue| ==> |queue[i].hops| <= |queue[j].hops|)
    && (forall i :: 0 <= i < |queue| ==> |queue[i].hops| <= |queue[0].hops| + 1)
  }

  /** Everything within `d` steps of `a` has been seen. */
  ghost predicate SeenWithin(adj: Adjacency, a: Node, visited: set<Node>, d: nat) {
    forall v, n: nat :: n <= d && ReachIn(adj, a, v, n) ==> v in visited
  }

  /** Visited nodes other than `current` are either waiting or have had all their arcs followed. */
  ghost predicate ExpandedBut(adj: Adjacency, queue: seq<Pending>, visited: set<Node>, current: Option<Node>) {
    forall v, b :: v in visited && Some(v) != current && HasArc(adj, v, b) ==> b in visited || Queued(queue, v)
  }

  lemma PushKeepsFrontier(adj: Adjacency, counts: Counts, a: Node, queue: seq<Pending>, visited: set<Node>, hop: Hop)
    requires queue != [] && Frontier(adj, counts, a, queue, visited)
    requires SeenWithin(adj, a, visited, |queue[0].hops|)
    requires hop.node !in visited && GoodHop(adj, counts, queue[0].node, hop)
    ensures Frontier(adj, counts, a, queue + [Pending(hop.node, queue[0].hops + [hop])], visited + {hop.node})
  {
    hide HopChain, GoodHop, ReachIn;
    ExtendChain(adj, counts, a, queue[0].node, queue[0].hops, hop);
  }

  lemma PushKeepsExpanded(adj: Adjacency, queue: seq<Pending>, visited: set<Node>, current: Node, entry: Pending)
    requires ExpandedBut(adj, queue, visited, Some(current))
    ensures ExpandedBut(adj, queue + [entry], visited + {entry.node}, Some(current))
  {
    hide HasArc;
    var longer := queue + [entry];
    assert longer[|queue|].node == entry.node;
    forall v | Queued(queue, v)
      ensures Queued(longer, v)
    {
      var k :| 0 <= k < |queue| && queue[k].node == v;
      assert longer[k].node == v;
    }
  }

  lemma PopKeepsFrontier(adj: Adjacency, counts: Counts, a: Node, queue: seq<Pending>, visited: set<Node>)
    requires queue != [] && Frontier(adj, counts, a, queue, visited)
    ensures Frontier(adj, counts, a, queue[1..], visited)
  {
    hide HopChain, ReachIn;
    var rest := queue[1..];
    assert forall i :: 0 <= i < |rest| ==> rest[i] == queue[i + 1];
  }

  lemma PopKeepsExpanded(adj: Adjacency, queue: seq<Pending>, visited: set<Node>)
    requires queue != [] && ExpandedBut(adj, queue, visited, None)
    ensures ExpandedBut(adj, queue[1..], visited, Some(queue[0].node))
  {
    hide HasArc;
    var rest := queue[1..];
    forall v | Queued(queue, v) && v != queue[0].node
      ensures Queued(rest, v)
    {
      var k :| 0 <= k < |queue| && queue[k].node == v;
      assert rest[k - 1].node == v;
    }
  }

  lemma FinishCurrent(adj: Adjacency, queue: seq<Pending>, visited: set<Node>, current: Node)
    requires ExpandedBut(adj, queue, visited, Some(current))
    requires forall k :: 0 <= k < |ArcsFrom(adj, current)| ==> ArcsFrom(adj, current)[k].target in visited
    ensures ExpandedBut(adj, queue, visited, None)
  {
    forall b | HasArc(adj, current, b)
      ensures b in visited
    {
      ArcIndex(adj, current, b);
    }
  }

  /** Once only entries deeper than `d` are left, everything within `d + 1` steps has been seen. */
  lemma NextLevelSeen(adj: Adjacency, counts: Counts, a: Node, queue: seq<Pending>, visited: set<Node>, d: nat)
    requires Frontier(adj, counts, a, queue, visited) && ExpandedBut(adj, queue, visited, None)
    requires SeenWithin(adj, a, visited, d)
    requires queue != [] && |queue[0].hops| > d
    ensures SeenWithin(adj, a, visited, d + 1)
  {
    hide HopChain, ReachIn, HasArc;
    forall v, n: nat | n == d + 1 && ReachIn(adj, a, v, n)
      ensures v in visited
    {
      var m := ReachBack(adj, a, v, d);
      assert m in visited;
      assert forall i :: 0 <= i < |queue| ==> |queue[i].hops| > d;
      assert !Queued(queue, m);
    }
  }

  /** An empty queue has seen everything that can be reached. */
  lemma ExhaustedQueue(adj: Adjacency, a: Node, b: Node, visited: set<Node>)
    requires ExpandedBut(adj, [], visited, None) && a in visited && b !in visited
    ensures !Reachable(adj, a, b)
  {
    if Reachable(adj, a, b) {
      ReachableMeansSteps(adj, a, b);
      var n: nat :| ReachIn(adj, a, b, n);
      assert forall v :: !Queued([], v);
      ClosedContainsReachable(adj, a, b, n, visited);
    }
  }

  /** The product of the probabilities of a hop list: its path confidence. */
  function Confidence(hops: seq<Hop>): real {
    if hops == [] then 1.0
    else Times(Confidence(hops[..|hops| - 1]), hops[|hops| - 1].probability)
  }

  lemma {:induction false} ConfidenceIsWeight(adj: Adjacency, counts: Counts, a: Node, b: Node, hops: seq<Hop>)
    requires HopChain(adj, counts, a, b, hops)
    ensures Confidence(hops) == Weight(counts, [a] + Nodes(hops))
    decreases |hops|
  {
    hide Times, Effective, Weight;
    if hops != [] {
      var init := hops[..|hops| - 1];
      ConfidenceIsWeight(adj, counts, a, EndOf(a, init), init);
      assert [a] + Nodes(hops) == [a] + Nodes(init) + [b];
      WeightOfStep(counts, [a] + Nodes(init), b);
    } else {
      assert [a] + Nodes(hops) == [a];
      WeightOfOne(counts, a);
    }
  }

  /** `hops` is a shortest chain from `a` to `b`; it repeats no node. */
  ghost predicate ShortestChain(adj: Adjacency, counts: Counts, a: Node, b: Node, hops: seq<Hop>) {
    && HopChain(adj, counts, a, b, hops)
    && NoRepeats([a] + Nodes(hops))
    && forall p :: WalkBetween(adj, a, b, p) ==> |hops| + 1 <= |p|
  }

  /** Reaching an unseen node one step beyond what has been seen is a shortest way to it. */
  lemma FirstSightIsShortest(adj: Adjacency, counts: Counts, a: Node, b: Node, visited: set<Node>, hops: seq<Hop>)
    requires hops != [] && HopChain(adj, counts, a, b, hops)
    requires SeenWithin(adj, a, visited, |hops| - 1) && b !in visited
    ensures ShortestChain(adj, counts, a, b, hops)
  {
    hide HopChain, HasArc;
    ChainIsWalk(adj, counts, a, b, hops);
    forall p | WalkBetween(adj, a, b, p)
      ensures |hops| + 1 <= |p|
    {
      assert ReachIn(adj, a, b, |p| - 1);
    }
    ShortestIsSimple(adj, a, b, [a] + Nodes(hops));
  }

  lemma ShortestIsReachable(adj: Adjacency, counts: Counts, a: Node, b: Node, hops: seq<Hop>)
    requires ShortestChain(adj, counts, a, b, hops)
    ensures Reachable(adj, a, b)
  {
    ChainIsWalk(adj, counts, a, b, hops);
  }

  lemma FrontChain(adj: Adjacency, counts: Counts, a: Node, queue: seq<Pending>, visited: set<Node>)
    requires queue != [] && Frontier(adj, counts, a, queue, visited)
    ensures HopChain(adj, counts, a, queue[0].node, queue[0].hops)
  {
  }

  lemma FrontDepth(adj: Adjacency, counts: Counts, a: Node, queue: seq<Pending>, visited: set<Node>)
    requires |queue| > 1 && Frontier(adj, counts, a, queue, visited)
    ensures |queue[0].hops| <= |queue[1].hops| <= |queue[0].hops| + 1
  {
  }

  lemma ArcHolds(adj: Adjacency, m: Node, arc: Arc)
    requires arc in ArcsFrom(adj, m)
    ensures HasArc(adj, m, arc.target)
  {
  }

  lemma SeenGrows(adj: Adjacency, a: Node, visited: set<Node>, next: Node, d: nat)
    requires SeenWithin(adj, a, visited, d)
    ensures SeenWithin(adj, a, visited + {next}, d)
  {
  }

  /** The state in which the breadth-first search starts. */
  lemma SearchStart(adj: Adjacency, counts: Counts, a: Node)
    ensures Frontier(adj, counts, a, [Pending(a, [])], {a})
    ensures ExpandedBut(adj, [Pending(a, [])], {a}, None)
    ensures SeenWithin(adj, a, {a}, 0)
    ensures ShortestChain(adj, counts, a, a, [])
    ensures Reachable(adj, a, a)
  {
    var queue := [Pending(a, [])];
    assert queue[0].node == a;
    forall v
      ensures ReachIn(adj, a, v, 0) <==> a == v
    {
      ReachZero(adj, a, v);
    }
    assert WalkBetween(adj, a, a, [a]);
  }

  // ----- path confidence against the best walk -----

  predicate OnlyPropagating(nodes: seq<Node>, edges: seq<Edge>) {
    forall e :: e in edges ==> IsPropagating(e.kind) && e.source in nodes && e.target in nodes
  }

  lemma {:induction false} SameAdjacency(edges: seq<Edge>, keep: string -> bool, more: string -> bool)
    requires forall e :: e in edges ==> keep(e.kind) && more(e.kind)
    ensures AdjacencyOf(edges, keep) == AdjacencyOf(edges, more)
  {
    if edges != [] {
      assert edges[|edges| - 1] in edges;
      SameAdjacency(edges[..|edges| - 1], keep, more);
    }
  }

  /**
   * When every edge propagates between registered nodes, no reconstructed
   * path is more confident than the depth-first value for its endpoints.
   */
  lemma ConfidenceWithinBest(nodes: seq<Node>, edges: seq<Edge>, counts: Counts, a: Node, b: Node,
                             hops: seq<Hop>, best: real)
    requires OnlyPropagating(nodes, edges)
    requires HopChain(AdjacencyOf(edges, AnyKind), counts, a, b, hops)
    requires IsPropagationValue(nodes, edges, counts, a, b, best)
    ensures Confidence(hops) <= best
  {
    hide Times, HasArc, Weight;
    var adj := AdjacencyOf(edges, AnyKind);
    SameAdjacency(edges, AnyKind, IsPropagating);
    ChainIsWalk(adj, counts, a, b, hops);
    ConfidenceIsWeight(adj, counts, a, b, hops);
    var p := [a] + Nodes(hops);
    if |p| > 1 {
      ArcsAreEdges(edges, AnyKind, p[0], p[1]);
      ArcsAreEdges(edges, AnyKind, p[|p| - 2], p[|p| - 1]);
      assert HasArc(adj, p[0], p[0 + 1]) && HasArc(adj, p[|p| - 2], p[(|p| - 2) + 1]);
    }
  }

  lemma SingleEdge(e: Edge, keep: string -> bool)
    ensures AdjacencyOf([e], keep) == if keep(e.kind) then map[e.source := [Arc(e.target, ParseLinkKind(e.kind))]] else map[]
  {
    var edges, empty: Adjacency := [e], map[];
    assert edges[..|edges| - 1] == [];
    assert AdjacencyOf(edges[..|edges| - 1], keep) == empty;
    var arc := Arc(e.target, ParseLinkKind(e.kind));
    assert ArcsFrom(empty, e.source) + [arc] == [arc];
  }

  /** With a `Generalization` edge the bound fails: the path search follows it, the weight search does not. */
  lemma ConfidenceCanExceedBest(best: real)
    requires IsPropagationValue(["a", "b"], [Edge("a", "b", "Generalization")], map[], "a", "b", best)
    ensures var hops := [Hop("b", Generalization, 0.5)];
            HopChain(AdjacencyOf([Edge("a", "b", "Generalization")], AnyKind), map[], "a", "b", hops)
            && Confidence(hops) > best
  {
    var edges := [Edge("a", "b", "Generalization")];
    var counts: Counts := map[];
    var hop := Hop("b", Generalization, 0.5);
    var adj := AdjacencyOf(edges, AnyKind);
    SingleEdge(edges[0], AnyKind);
    SingleEdge(edges[0], IsPropagating);
    assert OutKeys(counts, "a") == {} && OutTotal(counts, "a") == 0;
    assert Effective(counts, "a", "b") == 0.5;
    assert HopChain(adj, counts, "a", "a", []);
    assert [hop][..0] == [];
    assert Confidence([hop]) == Times(1.0, 0.5);
    forall p
      ensures !WalkBetween(map[], "a", "b", p)
    {
      assert |p| > 1 ==> !HasArc(map[], p[0], p[0 + 1]);
    }
  }

  // ----- candidates and scoring -----

  datatype PropagationPath = PropagationPath(hops: seq<Hop>, observed: Node, confidence: real)

  datatype Inference = Inference(root: Node, confidence: real, paths: seq<PropagationPath>, explained: nat)

  ghost predicate ReachableFromAny(adj: Adjacency, sources: seq<Node>, b: Node) {
    exists a :: a in sources && Reachable(adj, a, b)
  }

  /** The observed skills for which a path is reported, in order. */
  ghost function Explained(adj: Adjacency, candidate: Node, observed: seq<Node>): seq<Node> {
    if observed == [] then []
    else
      var o := observed[|observed| - 1];
      Explained(adj, candidate, observed[..|observed| - 1])
      + (if o != candidate && Reachable(adj, candidate, o) then [o] else [])
  }

  function Targets(paths: seq<PropagationPath>): seq<Node> {
    seq(|paths|, i requires 0 <= i < |paths| => paths[i].observed)
  }

  /** The factor one observation contributes: 0.01 when the candidate cannot reach it. */
  function Discount(best: real): real {
    if best > 0.0 then best else 0.01
  }

  /** `r` is the product of the discounts of the observations other than the candidate itself. */
  ghost predicate IsLikelihood(nodes: seq<Node>, edges: seq<Edge>, counts: Counts, candidate: Node,
                               observed: seq<Node>, r: real)
  {
    if observed == [] then r == 1.0
    else
      var o, init := observed[|observed| - 1], observed[..|observed| - 1];
      if o == candidate then IsLikelihood(nodes, edges, counts, candidate, init, r)
      else exists best, rest ::
        && IsPropagationValue(nodes, edges, counts, candidate, o, best)
        && IsLikelihood(nodes, edges, counts, candidate, init, rest)
        && r == Times(rest, Discount(best))
  }

  /** Prior times likelihood. */
  ghost predicate IsPosterior(nodes: seq<Node>, edges: seq<Edge>, counts: Counts, priors: map<Node, real>,
                              candidate: Node, observed: seq<Node>, r: real)
  {
    exists likelihood ::
      && IsLikelihood(nodes, edges, counts, candidate, observed, likelihood)
      && r == Times(PriorOf(priors, candidate), likelihood)
  }

  lemma {:induction false} LikelihoodUnique(nodes: seq<Node>, edges: seq<Edge>, counts: Counts, candidate: Node,
                                            observed: seq<Node>, x: real, y: real)
    requires IsLikelihood(nodes, edges, counts, candidate, observed, x)
    requires IsLikelihood(nodes, edges, counts, candidate, observed, y)
    ensures x == y
    decreases |observed|
  {
    hide Times, Discount, IsPropagationValue;
    if observed != [] {
      var o, init := observed[|observed| - 1], observed[..|observed| - 1];
      if o == candidate {
        LikelihoodUnique(nodes, edges, counts, candidate, init, x, y);
      } else {
        var bestX, rx :| IsPropagationValue(nodes, edges, counts, candidate, o, bestX)
          && IsLikelihood(nodes, edges, counts, candidate, init, rx) && x == Times(rx, Discount(bestX));
        var bestY, ry :| IsPropagationValue(nodes, edges, counts, candidate, o, bestY)
          && IsLikelihood(nodes, edges, counts, candidate, init, ry) && y == Times(ry, Discount(bestY));
        ValueUnique(nodes, edges, counts, candidate, o, bestX, bestY);
        LikelihoodUnique(nodes, edges, counts, candidate, init, rx, ry);
      }
    }
  }

  lemma ValueUnique(nodes: seq<Node>, edges: seq<Edge>, counts: Counts, a: Node, b: Node, x: real, y: real)
    requires IsPropagationValue(nodes, edges, counts, a, b, x) && IsPropagationValue(nodes, edges, counts, a, b, y)
    ensures x == y
  {
    hide IsBestWeight;
    if a == b || (a in nodes && b in nodes) {
      BestWeightUnique(AdjacencyOf(edges, IsPropagating), counts, a, b, x, y);
    }
  }

  lemma ValueIsPositive(nodes: seq<Node>, edges: seq<Edge>, counts: Counts, a: Node, b: Node, best: real)
    requires IsPropagationValue(nodes, edges, counts, a, b, best) && a != b
    ensures if a in nodes && b in nodes && Reachable(AdjacencyOf(edges, IsPropagating), a, b) then best > 0.0 else best == 0.0
  {
    hide HasArc, AdjacencyOf;
  }

  /** The factor of one observation: the best product to it, 0.01 when nothing propagates to it, none for the candidate. */
  lemma ObservationScales(nodes: seq<Node>, edges: seq<Edge>, counts: Counts, candidate: Node, observed: seq<Node>,
                          o: Node, rest: real, best: real, r: real)
    requires IsLikelihood(nodes, edges, counts, candidate, observed, rest)
    requires IsLikelihood(nodes, edges, counts, candidate, observed + [o], r)
    requires IsPropagationValue(nodes, edges, counts, candidate, o, best)
    ensures o == candidate ==> r == rest
    ensures o != candidate ==>
      r == if o in nodes && candidate in nodes && Reachable(AdjacencyOf(edges, IsPropagating), candidate, o)
           then Times(rest, best) else Times(rest, 0.01)
  {
    hide Times, IsPropagationValue, AdjacencyOf, Reachable;
    LikelihoodStep(nodes, edges, counts, candidate, observed, o, rest, best);
    LikelihoodUnique(nodes, edges, counts, candidate, observed + [o], r,
                     if o == candidate then rest else Times(rest, Discount(best)));
    if o != candidate {
      ValueIsPositive(nodes, edges, counts, candidate, o, best);
    }
  }

  lemma LikelihoodStep(nodes: seq<Node>, edges: seq<Edge>, counts: Counts, candidate: Node,
                       observed: seq<Node>, o: Node, rest: real, best: real)
    requires IsLikelihood(nodes, edges, counts, candidate, observed, rest)
    requires o != candidate ==> IsPropagationValue(nodes, edges, counts, candidate, o, best)
    ensures IsLikelihood(nodes, edges, counts, candidate, observed + [o],
                         if o == candidate then rest else Times(rest, Discount(best)))
  {
    hide Times, IsPropagationValue;
    assert (observed + [o])[..|observed|] == observed;
  }

  /** What `ReconstructPaths` reports for a candidate. */
  ghost predicate ArePaths(edges: seq<Edge>, counts: Counts, candidate: Node, observed: seq<Node>,
                           paths: seq<PropagationPath>)
  {
    && Targets(paths) == Explained(AdjacencyOf(edges, AnyKind), candidate, observed)
    && forall p :: p in paths ==>
         && ShortestChain(AdjacencyOf(edges, AnyKind), counts, candidate, p.observed, p.hops)
         && p.confidence == Confidence(p.hops)
  }

  function RootOf(r: Inference): Node {
    r.root
  }

  predicate MoreConfident(x: Inference, y: Inference) {
    x.confidence >= y.confidence
  }

  lemma BestIsUnit(nodes: seq<Node>, edges: seq<Edge>, counts: Counts, a: Node, b: Node, best: real)
    requires IsPropagationValue(nodes, edges, counts, a, b, best)
    ensures 0.0 <= best <= 1.0
  {
  }

  lemma ArcIndex(adj: Adjacency, m: Node, b: Node)
    requires HasArc(adj, m, b)
    ensures exists k :: 0 <= k < |ArcsFrom(adj, m)| && ArcsFrom(adj, m)[k].target == b
  {
    var arc :| arc in ArcsFrom(adj, m) && arc.target == b;
    var k :| 0 <= k < |ArcsFrom(adj, m)| && ArcsFrom(adj, m)[k] == arc;
  }

  /** The candidates found so far: the visited nodes that were not observed, all of them reachable. */
  ghost predicate Collected(adj: Adjacency, observed: seq<Node>, candidates: set<Node>, visited: set<Node>) {
    && (forall v :: v in observed ==> v in visited)
    && (forall v :: v in candidates <==> v in visited && v !in observed)
    && (forall v :: v in visited ==> ReachableFromAny(adj, observed, v))
  }

  /** Visited nodes other than `current` are either waiting or have had all their arcs followed. */
  ghost predicate WaitingBut(adj: Adjacency, queue: seq<Node>, visited: set<Node>, current: Option<Node>) {
    && (forall v :: v in queue ==> v in visited)
    && (forall v, b :: v in visited && Some(v) != current && HasArc(adj, v, b) ==> b in visited || v in queue)
  }

  lemma CollectStart(adj: Adjacency, observed: seq<Node>, queue: seq<Node>, visited: set<Node>)
    requires forall v :: v in visited <==> v in observed
    requires forall v :: v in visited <==> v in queue
    ensures Collected(adj, observed, {}, visited) && WaitingBut(adj, queue, visited, None)
  {
    forall v | v in visited
      ensures ReachableFromAny(adj, observed, v)
    {
      assert WalkBetween(adj, v, v, [v]);
      assert Reachable(adj, v, v);
    }
  }

  lemma CollectPop(adj: Adjacency, queue: seq<Node>, visited: set<Node>)
    requires queue != [] && WaitingBut(adj, queue, visited, None)
    ensures WaitingBut(adj, queue[1..], visited, Some(queue[0])) && queue[0] in visited
  {
    hide HasArc;
    assert queue == [queue[0]] + queue[1..];
  }

  lemma ReachOneMore(adj: Adjacency, sources: seq<Node>, m: Node, b: Node)
    requires ReachableFromAny(adj, sources, m) && HasArc(adj, m, b)
    ensures ReachableFromAny(adj, sources, b)
  {
    hide HasArc, Reachable;
    var a :| a in sources && Reachable(adj, a, m);
    ReachableMeansSteps(adj, a, m);
    var n: nat :| ReachIn(adj, a, m, n);
    ReachStep(adj, a, m, b, n);
    ReachableMeansSteps(adj, a, b);
  }

  lemma CollectPush(adj: Adjacency, observed: seq<Node>, candidates: set<Node>, queue: seq<Node>, visited: set<Node>,
                    current: Node, dep: Node)
    requires Collected(adj, observed, candidates, visited) && WaitingBut(adj, queue, visited, Some(current))
    requires current in visited && HasArc(adj, current, dep) && dep !in visited
    ensures Collected(adj, observed, candidates + {dep}, visited + {dep})
    ensures WaitingBut(adj, queue + [dep], visited + {dep}, Some(current))
  {
    hide HasArc, ReachableFromAny;
    ReachOneMore(adj, observed, current, dep);
  }

  lemma CollectFinish(adj: Adjacency, queue: seq<Node>, visited: set<Node>, current: Node)
    requires WaitingBut(adj, queue, visited, Some(current))
    requires forall k :: 0 <= k < |ArcsFrom(adj, current)| ==> ArcsFrom(adj, current)[k].target in visited
    ensures WaitingBut(adj, queue, visited, None)
  {
    forall b | HasArc(adj, current, b)
      ensures b in visited
    {
      ArcIndex(adj, current, b);
    }
  }

  lemma CollectDone(adj: Adjacency, observed: seq<Node>, candidates: set<Node>, visited: set<Node>)
    requires Collected(adj, observed, candidates, visited) && WaitingBut(adj, [], visited, None)
    ensures forall v :: v in candidates <==> v !in observed && ReachableFromAny(adj, observed, v)
  {
    hide HasArc, Reachable;
    forall v | ReachableFromAny(adj, observed, v)
      ensures v in visited
    {
      var a :| a in observed && Reachable(adj, a, v);
      ReachableMeansSteps(adj, a, v);
      var n: nat :| ReachIn(adj, a, v, n);
      ClosedContainsReachable(adj, a, v, n, visited);
    }
  }

  class CausalEngine {
    const store: CausalModelStore
    /** What the graph backend reports. */
    const nodes: seq<Node>
    const edges: seq<Edge>

    constructor (store: CausalModelStore, nodes: seq<Node>, edges: seq<Edge>)
      ensures this.store == store && this.nodes == nodes && this.edges == edges
    {
      this.store, this.nodes, this.edges := store, nodes, edges;
    }

    /**
     * Branch-and-bound search. `visited` and `best` are passed in and handed
     * back, as the mutable references of the original are; `all` bounds the
     * recursion.
     */
    method Propagate(current: Node, target: Node, adj: Adjacency, visitedIn: set<Node>, pathProb: real,
                     bestIn: real, ghost all: set<Node>)
        returns (visited: set<Node>, best: real)
      requires current !in visitedIn && 0.0 < pathProb
      requires Universe(adj) <= all && current in all && visitedIn <= all
      ensures visited == visitedIn
      ensures bestIn <= best
      ensures best == bestIn || Attained(adj, store.edges, current, target, visitedIn, pathProb, best)
      ensures Covered(adj, store.edges, current, target, visitedIn, pathProb, best)
      decreases all - visitedIn
    {
      hide Times, Covered, Attained, CoveredVia, Universe, Effective, Probability;
      visited, best := visitedIn, bestIn;
      ghost var counts := store.edges;
      if pathProb <= best {
        PruningIsSound(adj, counts, current, target, visitedIn, pathProb, best);
        return;
      }
      if current == target {
        best := pathProb;
        PruningIsSound(adj, counts, current, target, visitedIn, pathProb, best);
        TargetAttained(adj, counts, current, visitedIn, pathProb);
        return;
      }

      visited := visited + {current};
      var neighbors := ArcsFrom(adj, current);
      NothingLeft(adj, counts, current, target, visitedIn, pathProb, best);
      for i := 0 to |neighbors|
        invariant visited == visitedIn + {current}
        invariant bestIn <= best
        invariant best == bestIn || Attained(adj, counts, current, target, visitedIn, pathProb, best)
        invariant CoveredVia(adj, counts, current, target, visitedIn, pathProb, best, i)
      {
        var next := neighbors[i].target;
        assert neighbors[i] in ArcsFrom(adj, current);
        ArcTargetsInUniverse(adj, current, next);
        if next !in visited {
          var edgeProb := store.PropagationProbability(current, next);
          var effective := OrOneHalf(edgeProb);
          ObservedOrOneHalf(counts, current, next);
          TimesUnit(pathProb, effective);
          ghost var before := best;
          visited, best := Propagate(next, target, adj, visited, Times(pathProb, effective), best, all);
          FollowedArc(adj, counts, current, target, visitedIn, pathProb, before, best, i);
          if best != before {
            AttainedThroughArc(adj, counts, current, next, target, visitedIn, pathProb, best);
          }
        } else {
          SkippedArc(adj, counts, current, target, visitedIn, pathProb, best, i);
        }
      }
      AllArcsCover(adj, counts, current, target, visitedIn, pathProb, best);

      visited := visited - {current};
      assert visited == visitedIn;
    }

    /**
     * The largest product of edge weights over all walks between two
     * registered nodes, however long and whether or not they repeat nodes.
     */
    method MaxPropagationProbability(from: Node, to: Node) returns (best: real)
      ensures IsPropagationValue(nodes, edges, store.edges, from, to, best)
    {
      hide Times, HasArc;
      ghost var spec := AdjacencyOf(edges, IsPropagating);
      if from == to {
        assert WalkBetween(spec, from, to, [from]);
        assert Weight(store.edges, [from]) == 1.0;
        return 1.0;
      }
      if from !in nodes || to !in nodes {
        return 0.0;
      }
      var adj := BuildAdjacency(edges, IsPropagating);
      var visited;
      visited, best := Propagate(from, to, adj, {}, 1.0, 0.0, Universe(adj) + {from});
      BestFromSearch(adj, store.edges, from, to, best);
    }

    /** Breadth-first search for a chain with the fewest edges, of any kind. */
    method BfsShortestPath(from: Node, to: Node, adj: Adjacency) returns (path: Option<seq<Hop>>)
      ensures path.None? <==> !Reachable(adj, from, to)
      ensures path.Some? ==> ShortestChain(adj, store.edges, from, to, path.value)
    {
      hide Frontier, ExpandedBut, SeenWithin, Reachable, ShortestChain, Universe, HopChain, Effective, HasArc;
      ghost var counts := store.edges;
      SearchStart(adj, counts, from);
      if from == to {
        return Some([]);
      }
      var visited: set<Node> := {from};
      var queue := [Pending(from, [])];
      ghost var all := Universe(adj) + {from};
      while queue != []
        invariant from in visited && to !in visited && visited <= all
        invariant Frontier(adj, counts, from, queue, visited)
        invariant ExpandedBut(adj, queue, visited, None)
        invariant queue != [] ==> SeenWithin(adj, from, visited, |queue[0].hops|)
        decreases all - visited, |queue|
      {
        var current, hops := queue[0].node, queue[0].hops;
        ghost var front := queue[0];
        ghost var waiting, seen := queue[1..], visited;
        PopKeepsExpanded(adj, queue, visited);
        assert [front] + queue[1..] == queue;
        queue := queue[1..];
        var neighbors := ArcsFrom(adj, current);
        for i := 0 to |neighbors|
          invariant from in visited && to !in visited && seen <= visited <= all
          invariant visited == seen ==> queue == waiting
          invariant Frontier(adj, counts, from, [front] + queue, visited)
          invariant ExpandedBut(adj, queue, visited, Some(current))
          invariant SeenWithin(adj, from, visited, |hops|)
          invariant forall k :: 0 <= k < i ==> neighbors[k].target in visited
        {
          var next := neighbors[i].target;
          if next !in visited {
            var prob := store.PropagationProbability(current, next);
            var hop := Hop(next, neighbors[i].link, OrOneHalf(prob));
            var newHops := hops + [hop];
            ObservedOrOneHalf(counts, current, next);
            assert neighbors[i] == Arc(next, neighbors[i].link);
            ArcHolds(adj, current, neighbors[i]);
            if next == to {
              FrontChain(adj, counts, from, [front] + queue, visited);
              ExtendChain(adj, counts, from, current, hops, hop);
              FirstSightIsShortest(adj, counts, from, to, visited, newHops);
              ShortestIsReachable(adj, counts, from, to, newHops);
              return Some(newHops);
            }
            ArcTargetsInUniverse(adj, current, next);
            PushKeepsFrontier(adj, counts, from, [front] + queue, visited, hop);
            PushKeepsExpanded(adj, queue, visited, current, Pending(next, newHops));
            SeenGrows(adj, from, visited, next, |hops|);
            assert [front] + queue + [Pending(next, newHops)] == [front] + (queue + [Pending(next, newHops)]);
            visited := visited + {next};
            queue := queue + [Pending(next, newHops)];
          }
        }
        FinishCurrent(adj, queue, visited, current);
        PopKeepsFrontier(adj, counts, from, [front] + queue, visited);
        assert ([front] + queue)[1..] == queue;
        if queue != [] {
          FrontDepth(adj, counts, from, [front] + queue, visited);
          if |queue[0].hops| > |hops| {
            NextLevelSeen(adj, counts, from, queue, visited, |hops|);
          }
        }
      }
      ExhaustedQueue(adj, from, to, visited);
      path := None;
    }

    /** The observed skills, each once, as the start of the search. */
    static method SeedQueue(observed: seq<Node>) returns (queue: seq<Node>, visited: set<Node>)
      ensures forall v :: v in visited <==> v in observed
      ensures forall v :: v in visited <==> v in queue
      ensures NoRepeats(queue)
    {
      queue, visited := [], {};
      for i := 0 to |observed|
        invariant forall v :: v in visited <==> v in observed[..i]
        invariant forall v :: v in visited <==> v in queue
        invariant NoRepeats(queue)
      {
        if observed[i] !in visited {
          visited := visited + {observed[i]};
          queue := queue + [observed[i]];
        }
      }
      assert observed[..|observed|] == observed;
    }

    /**
     * The nodes reachable from the observed skills along dependency edges,
     * without the observed skills themselves. The engine walks the edges from
     * source to target.
     */
    method ExtractCandidates(observed: seq<Node>) returns (candidates: set<Node>)
      ensures forall v :: v in candidates <==>
        v !in observed && ReachableFromAny(AdjacencyOf(edges, IsDependency), observed, v)
    {
      hide Universe, Collected, WaitingBut, HasArc, ReachableFromAny, IsDependency, AdjacencyOf;
      var adj := BuildAdjacency(edges, IsDependency);
      candidates := {};
      var queue, visited := SeedQueue(observed);
      ghost var all := Universe(adj) + visited;
      CollectStart(adj, observed, queue, visited);
      while queue != []
        invariant visited <= all
        invariant Collected(adj, observed, candidates, visited)
        invariant WaitingBut(adj, queue, visited, None)
        decreases all - visited, |queue|
      {
        var current := queue[0];
        ghost var waiting, seen := queue[1..], visited;
        CollectPop(adj, queue, visited);
        queue := queue[1..];
        var deps := ArcsFrom(adj, current);
        for i := 0 to |deps|
          invariant current in seen && seen <= visited <= all && (visited == seen ==> queue == waiting)
          invariant Collected(adj, observed, candidates, visited)
          invariant WaitingBut(adj, queue, visited, Some(current))
          invariant forall k :: 0 <= k < i ==> deps[k].target in visited
        {
          var dep := deps[i].target;
          if dep !in visited {
            ArcHolds(adj, current, deps[i]);
            ArcTargetsInUniverse(adj, current, dep);
            CollectPush(adj, observed, candidates, queue, visited, current, dep);
            visited := visited + {dep};
            candidates := candidates + {dep};
            queue := queue + [dep];
          }
        }
        CollectFinish(adj, queue, visited, current);
      }
      CollectDone(adj, observed, candidates, visited);
    }

    /** One shortest path to each observed skill the candidate reaches, other than itself. */
    method ReconstructPaths(candidate: Node, observed: seq<Node>) returns (paths: seq<PropagationPath>)
      ensures ArePaths(edges, store.edges, candidate, observed, paths)
    {
      hide ShortestChain, Reachable;
      var adj := BuildAdjacency(edges, AnyKind);
      paths := [];
      for i := 0 to |observed|
        invariant Targets(paths) == Explained(adj, candidate, observed[..i])
        invariant forall p :: p in paths ==>
          && ShortestChain(adj, store.edges, candidate, p.observed, p.hops)
          && p.confidence == Confidence(p.hops)
      {
        assert observed[..i + 1][..i] == observed[..i];
        if observed[i] != candidate {
          var path := BfsShortestPath(candidate, observed[i], adj);
          if path.Some? {
            var confidence := HopProduct(path.value);
            ghost var before := paths;
            paths := paths + [PropagationPath(path.value, observed[i], confidence)];
            assert Targets(paths) == Targets(before) + [observed[i]];
          }
        }
      }
      assert observed[..|observed|] == observed;
    }

    static method HopProduct(hops: seq<Hop>) returns (product: real)
      ensures product == Confidence(hops)
    {
      product := 1.0;
      for i := 0 to |hops|
        invariant product == Confidence(hops[..i])
      {
        assert hops[..i + 1][..i] == hops[..i];
        product := Times(product, hops[i].probability);
      }
      assert hops[..|hops|] == hops;
    }

    /** The score of a candidate: its prior, discounted once per observation, and never 0. */
    method ComputePosterior(candidate: Node, observed: seq<Node>) returns (posterior: real)
      requires store.Valid()
      ensures IsPosterior(nodes, edges, store.edges, store.priors, candidate, observed, posterior)
      ensures 0.0 < posterior <= 0.999
    {
      hide Times, IsPropagationValue, IsLikelihood;
      var prior := store.Prior(candidate);
      var likelihood := 1.0;
      LikelihoodStart(nodes, edges, store.edges, candidate);
      for i := 0 to |observed|
        invariant 0.0 < likelihood <= 1.0
        invariant IsLikelihood(nodes, edges, store.edges, candidate, observed[..i], likelihood)
      {
        assert observed[..i + 1] == observed[..i] + [observed[i]];
        var best := 0.0;
        ghost var rest := likelihood;
        if observed[i] != candidate {
          best := MaxPropagationProbability(candidate, observed[i]);
          BestIsUnit(nodes, edges, store.edges, candidate, observed[i], best);
          TimesUnit(likelihood, Discount(best));
          likelihood := Times(likelihood, Discount(best));
        }
        LikelihoodStep(nodes, edges, store.edges, candidate, observed[..i], observed[i], rest, best);
      }
      assert observed[..|observed|] == observed;
      TimesUnit(prior, likelihood);
      posterior := Times(prior, likelihood);
    }

    /** A candidate with its score and its paths. */
    ghost predicate Scored(r: Inference, observed: seq<Node>)
      reads store
    {
      && IsPosterior(nodes, edges, store.edges, store.priors, r.root, observed, r.confidence)
      && ArePaths(edges, store.edges, r.root, observed, r.paths)
      && r.explained == |observed|
    }

    method ScoreOne(candidate: Node, observed: seq<Node>) returns (r: Inference)
      requires store.Valid()
      ensures r.root == candidate && Scored(r, observed)
    {
      hide IsPosterior, ArePaths;
      var posterior := ComputePosterior(candidate, observed);
      var paths := ReconstructPaths(candidate, observed);
      r := Inference(candidate, posterior, paths, |observed|);
    }

    method ScoreCandidates(candidates: set<Node>, observed: seq<Node>) returns (scored: seq<Inference>)
      requires store.Valid()
      ensures |scored| == |candidates| && Sorting.DistinctBy(scored, RootOf)
      ensures RootSet(scored) == candidates
      ensures forall r :: r in scored ==> Scored(r, observed)
    {
      hide Scored, Sorting.DistinctBy;
      scored := [];
      var remaining := candidates;
      NoRoots();
      while remaining != {}
        invariant remaining <= candidates && |scored| + |remaining| == |candidates|
        invariant RootSet(scored) == candidates - remaining && Sorting.DistinctBy(scored, RootOf)
        invariant forall r :: r in scored ==> Scored(r, observed)
        decreases remaining
      {
        var c :| c in remaining;
        var r := ScoreOne(c, observed);
        OneMoreRoot(scored, r);
        scored := scored + [r];
        remaining := remaining - {c};
      }
    }

    /**
     * The `topK` best-scored candidates, best first. No candidate is filtered
     * out, because no posterior is 0; every observation is counted as
     * explained whether or not the candidate reaches it.
     */
    method InferRootCause(observed: seq<Node>, topK: nat)
        returns (results: seq<Inference>, ghost candidates: set<Node>)
      requires store.Valid()
      ensures forall v :: v in candidates <==>
        v !in observed && ReachableFromAny(AdjacencyOf(edges, IsDependency), observed, v)
      ensures |results| == if topK < |candidates| then topK else |candidates|
      ensures forall i, j :: 0 <= i < j < |results| ==>
        results[i].root != results[j].root && results[i].confidence >= results[j].confidence
      ensures RootSet(results) <= candidates && forall r :: r in results ==> Scored(r, observed)
      ensures forall c :: c in candidates && c !in RootSet(results) ==>
        exists s: Inference ::
          s.root == c && Scored(s, observed) && forall r :: r in results ==> r.confidence >= s.confidence
    {
      hide Scored, ReachableFromAny, AdjacencyOf, Sorting.DistinctBy, Sorting.SortedBy, MoreConfident, RootSet;
      var found := ExtractCandidates(observed);
      candidates := found;
      var scored := ScoreCandidates(found, observed);
      var ranked := Sorting.Sort(scored, MoreConfident);
      results := if topK < |ranked| then ranked[..topK] else ranked;
      assert results == ranked[..|results|];
      TopRanked(scored, |results|);
      RankedMeans(results);
    }
  }

  lemma RankedMeans(results: seq<Inference>)
    requires Sorting.DistinctBy(results, RootOf) && Sorting.SortedBy(results, MoreConfident)
    ensures forall i, j :: 0 <= i < j < |results| ==>
      results[i].root != results[j].root && results[i].confidence >= results[j].confidence
    ensures forall r, s :: MoreConfident(r, s) ==> r.confidence >= s.confidence
  {
    forall i, j | 0 <= i < j < |results|
      ensures results[i].root != results[j].root && results[i].confidence >= results[j].confidence
    {
      assert RootOf(results[i]) != RootOf(results[j]) && MoreConfident(results[i], results[j]);
    }
  }

  lemma LikelihoodStart(nodes: seq<Node>, edges: seq<Edge>, counts: Counts, candidate: Node)
    ensures IsLikelihood(nodes, edges, counts, candidate, [], 1.0)
  {
  }

  ghost function RootSet(scored: seq<Inference>): set<Node> {
    set r | r in scored :: r.root
  }

  lemma NoRoots()
    ensures RootSet([]) == {} && Sorting.DistinctBy([], RootOf)
  {
  }

  lemma OneMoreRoot(scored: seq<Inference>, r: Inference)
    requires Sorting.DistinctBy(scored, RootOf) && r.root !in RootSet(scored)
    ensures RootSet(scored + [r]) == RootSet(scored) + {r.root}
    ensures Sorting.DistinctBy(scored + [r], RootOf)
  {
    assert forall i :: 0 <= i < |scored| ==> scored[i] in scored;
    assert r in scored + [r] && forall x :: x in scored ==> x in scored + [r];
  }

  /** The first `cut` of the ranking: sorted, distinct, and nothing left out beats them. */
  lemma TopRanked(scored: seq<Inference>, cut: nat)
    requires cut <= |Sorting.Sort(scored, MoreConfident)| && Sorting.DistinctBy(scored, RootOf)
    ensures |Sorting.Sort(scored, MoreConfident)| == |scored|
    ensures var top := Sorting.Sort(scored, MoreConfident)[..cut];
            && Sorting.DistinctBy(top, RootOf) && Sorting.SortedBy(top, MoreConfident)
            && RootSet(top) <= RootSet(scored)
            && (forall r :: r in top ==> r in scored)
            && (forall c :: c in RootSet(scored) && c !in RootSet(top) ==>
                  exists s: Inference :: s in scored && s.root == c && forall r :: r in top ==> MoreConfident(r, s))
  {
    var ranked := Sorting.Sort(scored, MoreConfident);
    var top := ranked[..cut];
    Sorting.SortIsSorted(scored, MoreConfident);
    Sorting.SameElements(scored, ranked);
    Sorting.DistinctRearranged(scored, ranked, RootOf);
    forall c | c in RootSet(scored) && c !in RootSet(top)
      ensures exists s: Inference :: s in scored && s.root == c && forall r :: r in top ==> MoreConfident(r, s)
    {
      var s :| s in scored && s.root == c;
      assert forall i :: 0 <= i < cut ==> top[i] == ranked[i] && top[i] in top && top[i].root in RootSet(top);
      RankedBelow(ranked, cut, s);
    }
  }

  /** What is ranked but cut off is no more confident than what is kept. */
  lemma RankedBelow(ranked: seq<Inference>, cut: nat, s: Inference)
    requires cut <= |ranked| && Sorting.SortedBy(ranked, MoreConfident)
    requires s in ranked && forall i :: 0 <= i < cut ==> ranked[i] != s
    ensures forall r :: r in ranked[..cut] ==> MoreConfident(r, s)
  {
    var k :| 0 <= k < |ranked| && ranked[k] == s;
    forall r | r in ranked[..cut]
      ensures MoreConfident(r, s)
    {
      var i :| 0 <= i < cut && ranked[..cut][i] == r;
      assert MoreConfident(ranked[i], ranked[k]);
    }
  }
}
