/**
 * The depth-limited traversal used when the causal and the trace view are
 * fused. Its result is described level by level, and each level by the
 * distance of its nodes from the seed.
 */
module BoundedSearch {
  import opened Graphs
  import opened CausalSearch

  function Elements(s: seq<Node>): set<Node> {
    set x | x in s
  }

  lemma ElementsConcat(s: seq<Node>, t: seq<Node>)
    ensures Elements(s + t) == Elements(s) + Elements(t)
  {
  }

  /** The unseen targets among `arcs`, each once, in arc order. */
  function Discover(arcs: seq<Arc>, visited: set<Node>): seq<Node> {
    if arcs == [] then []
    else
      var init := Discover(arcs[..|arcs| - 1], visited);
      var t := arcs[|arcs| - 1].target;
      if t in visited || t in init then init else init + [t]
  }

  /** The nodes that a whole level discovers. */
  function DiscoverAll(adj: Adjacency, level: seq<Node>, visited: set<Node>): seq<Node> {
    if level == [] then []
    else
      var init := DiscoverAll(adj, level[..|level| - 1], visited);
      init + Discover(ArcsFrom(adj, level[|level| - 1]), visited + Elements(init))
  }

  lemma DiscoverAllLast(adj: Adjacency, level: seq<Node>, last: Node, visited: set<Node>)
    ensures var init := DiscoverAll(adj, level, visited);
            DiscoverAll(adj, level + [last], visited)
            == init + Discover(ArcsFrom(adj, last), visited + Elements(init))
  {
    assert (level + [last])[..|level|] == level;
  }

  /** What has been found after some levels, and the nodes of the last level. */
  datatype Sweep = Sweep(found: seq<Node>, level: seq<Node>)

  function SweepTo(adj: Adjacency, seed: Node, depth: nat): Sweep {
    if depth == 0 then Sweep([], [seed])
    else
      var s := SweepTo(adj, seed, depth - 1);
      var next := DiscoverAll(adj, s.level, {seed} + Elements(s.found));
      Sweep(s.found + next, next)
  }

  function Within(adj: Adjacency, seed: Node, depth: nat): seq<Node> {
    SweepTo(adj, seed, depth).found
  }

  /** The shortest way from `a` to `b` takes `n` steps. */
  ghost predicate AtDistance(adj: Adjacency, a: Node, b: Node, n: nat) {
    ReachIn(adj, a, b, n) && forall k: nat :: k < n ==> !ReachIn(adj, a, b, k)
  }

  lemma {:induction false} DiscoverIsExact(arcs: seq<Arc>, visited: set<Node>)
    ensures NoRepeats(Discover(arcs, visited))
    ensures forall x :: x in Discover(arcs, visited) <==> x !in visited && HasTarget(arcs, x)
  {
    if arcs != [] {
      var init, last := arcs[..|arcs| - 1], arcs[|arcs| - 1];
      assert arcs == init + [last];
      DiscoverIsExact(init, visited);
      forall x
        ensures HasTarget(arcs, x) <==> HasTarget(init, x) || last.target == x
      {
        if HasTarget(init, x) {
          var arc :| arc in init && arc.target == x;
          assert arc in arcs;
        }
        assert last in arcs;
      }
    }
  }

  lemma NoRepeatsConcat(s: seq<Node>, t: seq<Node>)
    requires NoRepeats(s) && NoRepeats(t) && forall x :: x in s ==> x !in t
    ensures NoRepeats(s + t)
  {
    forall i, j | 0 <= i < j < |s + t|
      ensures (s + t)[i] != (s + t)[j]
    {
      if i < |s| <= j {
        assert s[i] in s && t[j - |s|] in t;
      }
    }
  }

  ghost predicate Follows(adj: Adjacency, level: seq<Node>, x: Node) {
    exists m :: m in level && HasArc(adj, m, x)
  }

  lemma FollowsLast(adj: Adjacency, level: seq<Node>, last: Node, x: Node)
    ensures Follows(adj, level + [last], x) <==> Follows(adj, level, x) || HasArc(adj, last, x)
  {
    hide HasArc;
    if Follows(adj, level, x) {
      var m :| m in level && HasArc(adj, m, x);
      assert m in level + [last];
    }
    assert last in level + [last];
  }

  /** A level discovers exactly the unseen successors of its nodes, each once. */
  lemma {:induction false} DiscoverAllIsExact(adj: Adjacency, level: seq<Node>, visited: set<Node>)
    ensures NoRepeats(DiscoverAll(adj, level, visited))
    ensures forall x :: x in DiscoverAll(adj, level, visited) <==> x !in visited && Follows(adj, level, x)
  {
    if level != [] {
      hide HasTarget, Discover;
      var init, last := level[..|level| - 1], level[|level| - 1];
      DiscoverAllIsExact(adj, init, visited);
      var found := DiscoverAll(adj, init, visited);
      var more := Discover(ArcsFrom(adj, last), visited + Elements(found));
      DiscoverIsExact(ArcsFrom(adj, last), visited + Elements(found));
      NoRepeatsConcat(found, more);
      hide Follows, NoRepeats;
      assert level == init + [last];
      forall x
        ensures x in found + more <==> x !in visited && Follows(adj, level, x)
      {
        FollowsLast(adj, init, last, x);
      }
    }
  }

  /** The nodes at distance `n + 1` are the unseen successors of those at distance `n`. */
  lemma DistanceStep(adj: Adjacency, a: Node, x: Node, n: nat)
    ensures AtDistance(adj, a, x, n + 1)
            <==> (forall k: nat :: k <= n ==> !ReachIn(adj, a, x, k))
                 && exists m :: AtDistance(adj, a, m, n) && HasArc(adj, m, x)
  {
    hide ReachIn, HasArc;
    if AtDistance(adj, a, x, n + 1) {
      var m := ReachBack(adj, a, x, n);
      forall k: nat | k < n
        ensures !ReachIn(adj, a, m, k)
      {
        if ReachIn(adj, a, m, k) {
          ReachStep(adj, a, m, x, k);
        }
      }
      assert AtDistance(adj, a, m, n);
    }
    if m :| AtDistance(adj, a, m, n) && HasArc(adj, m, x) {
      ReachStep(adj, a, m, x, n);
    }
  }

  ghost predicate Near(adj: Adjacency, a: Node, b: Node, n: nat) {
    exists k: nat :: k <= n && ReachIn(adj, a, b, k)
  }

  /** What a sweep knows after `depth` levels. */
  ghost predicate ExactSweep(adj: Adjacency, seed: Node, s: Sweep, depth: nat) {
    && (forall x :: x in s.level <==> AtDistance(adj, seed, x, depth))
    && (forall x :: x == seed || x in s.found <==> Near(adj, seed, x, depth))
    && NoRepeats(s.found) && seed !in s.found
  }

  lemma NewLevelIsExact(adj: Adjacency, seed: Node, s: Sweep, depth: nat, next: seq<Node>)
    requires ExactSweep(adj, seed, s, depth)
    requires forall x :: x in next <==> x !in {seed} + Elements(s.found) && Follows(adj, s.level, x)
    ensures forall x :: x in next <==> AtDistance(adj, seed, x, depth + 1)
  {
    hide ReachIn, HasArc, NoRepeats;
    forall x
      ensures x in next <==> AtDistance(adj, seed, x, depth + 1)
    {
      DistanceStep(adj, seed, x, depth);
      assert Near(adj, seed, x, depth) <==> x in {seed} + Elements(s.found);
    }
  }

  lemma SweepStep(adj: Adjacency, seed: Node, s: Sweep, depth: nat, next: seq<Node>)
    requires ExactSweep(adj, seed, s, depth)
    requires forall x :: x in next <==> AtDistance(adj, seed, x, depth + 1)
    requires NoRepeats(next)
    ensures ExactSweep(adj, seed, Sweep(s.found + next, next), depth + 1)
  {
    hide ReachIn;
    forall x
      ensures Near(adj, seed, x, depth + 1) <==> Near(adj, seed, x, depth) || x in next
    {
      if Near(adj, seed, x, depth + 1) && !Near(adj, seed, x, depth) {
        assert ReachIn(adj, seed, x, depth + 1);
      }
    }
    assert forall x :: x in next ==> !Near(adj, seed, x, depth);
    NoRepeatsConcat(s.found, next);
  }

  lemma SweepStart(adj: Adjacency, seed: Node)
    ensures ExactSweep(adj, seed, Sweep([], [seed]), 0)
  {
    hide ReachIn;
    forall x
      ensures ReachIn(adj, seed, x, 0) <==> seed == x
      ensures Near(adj, seed, x, 0) <==> seed == x
    {
      ReachZero(adj, seed, x);
    }
  }

  /** After `depth` levels: the last level is the nodes at that distance, the rest those nearer. */
  lemma {:induction false} SweepIsExact(adj: Adjacency, seed: Node, depth: nat)
    ensures ExactSweep(adj, seed, SweepTo(adj, seed, depth), depth)
  {
    hide ExactSweep, DiscoverAll, NoRepeats, AtDistance;
    if depth == 0 {
      SweepStart(adj, seed);
    } else {
      SweepIsExact(adj, seed, depth - 1);
      var s := SweepTo(adj, seed, depth - 1);
      DiscoverAllIsExact(adj, s.level, {seed} + Elements(s.found));
      var next := DiscoverAll(adj, s.level, {seed} + Elements(s.found));
      NewLevelIsExact(adj, seed, s, depth - 1, next);
      SweepStep(adj, seed, s, depth - 1, next);
    }
  }

  /** Going one level deeper only appends. */
  lemma DeeperExtends(adj: Adjacency, seed: Node, depth: nat)
    ensures Within(adj, seed, depth) <= Within(adj, seed, depth + 1)
  {
  }

  /** Every node within `depth` steps, other than the seed, once; and nothing else. */
  lemma WithinIsExact(adj: Adjacency, seed: Node, depth: nat)
    ensures NoRepeats(Within(adj, seed, depth))
    ensures forall x :: x in Within(adj, seed, depth) <==> exists n: nat :: 1 <= n <= depth && AtDistance(adj, seed, x, n)
  {
    hide ReachIn, NoRepeats, SweepTo;
    SweepIsExact(adj, seed, depth);
    forall x
      ensures x in Within(adj, seed, depth) <==> exists n: nat :: 1 <= n <= depth && AtDistance(adj, seed, x, n)
    {
      ReachZero(adj, seed, x);
      if Near(adj, seed, x, depth) {
        var k: nat :| k <= depth && ReachIn(adj, seed, x, k);
        var n := Nearest(adj, seed, x, k);
      }
    }
  }

  lemma {:induction false} Nearest(adj: Adjacency, a: Node, b: Node, k: nat) returns (n: nat)
    requires ReachIn(adj, a, b, k)
    ensures n <= k && AtDistance(adj, a, b, n)
    decreases k
  {
    hide ReachIn;
    if j: nat :| j < k && ReachIn(adj, a, b, j) {
      n := Nearest(adj, a, b, j);
    } else {
      n := k;
    }
  }

  /** Nodes come in order of distance. */
  lemma {:induction false} WithinIsOrdered(adj: Adjacency, seed: Node, depth: nat, i: nat, j: nat, m: nat, n: nat)
    requires i < j < |Within(adj, seed, depth)|
    requires AtDistance(adj, seed, Within(adj, seed, depth)[i], m)
    requires AtDistance(adj, seed, Within(adj, seed, depth)[j], n)
    ensures m <= n
    decreases depth
  {
    hide ReachIn, HasArc, DiscoverAll;
    if depth > 0 {
      var s := SweepTo(adj, seed, depth - 1);
      SweepIsExact(adj, seed, depth);
      WithinIsExact(adj, seed, depth);
      var found := Within(adj, seed, depth);
      if j < |s.found| {
        WithinIsOrdered(adj, seed, depth - 1, i, j, m, n);
      } else {
        var next := SweepTo(adj, seed, depth).level;
        assert found == s.found + next;
        assert found[j] == next[j - |s.found|] && found[j] in next;
        assert AtDistance(adj, seed, found[j], depth);
        assert found[i] in found;
        var k: nat :| 1 <= k <= depth && AtDistance(adj, seed, found[i], k);
        DistanceUnique(adj, seed, found[i], k, m);
        DistanceUnique(adj, seed, found[j], depth, n);
      }
    }
  }

  lemma DistanceUnique(adj: Adjacency, a: Node, b: Node, m: nat, n: nat)
    requires AtDistance(adj, a, b, m) && AtDistance(adj, a, b, n)
    ensures m == n
  {
  }

  /** At a depth of at least the node count, the traversal finds everything the seed reaches. */
  lemma DeepEnoughFindsAll(adj: Adjacency, seed: Node, depth: nat)
    requires |Universe(adj)| <= depth
    ensures forall x :: x in Within(adj, seed, depth) <==> x != seed && Reachable(adj, seed, x)
  {
    hide ReachIn, Reachable, Within;
    WithinIsExact(adj, seed, depth);
    forall x
      ensures x in Within(adj, seed, depth) <==> x != seed && Reachable(adj, seed, x)
    {
      ReachZero(adj, seed, x);
      ReachableMeansSteps(adj, seed, x);
      if x != seed && Reachable(adj, seed, x) {
        var n: nat :| ReachIn(adj, seed, x, n);
        var k := ReachWithinUniverse(adj, seed, x, n);
        var d := Nearest(adj, seed, x, k);
      }
    }
  }

  /**
   * For one observed skill and dependency edges only, the candidate search and
   * the depth-limited traversal find the same nodes once the depth reaches the
   * node count.
   */
  lemma CandidatesAreDeepTraversal(edges: seq<Edge>, seed: Node, depth: nat, candidates: set<Node>)
    requires forall e :: e in edges ==> IsDependency(e.kind)
    requires |Universe(AdjacencyOf(edges, AnyKind))| <= depth
    requires forall v :: v in candidates <==>
      v !in [seed] && ReachableFromAny(AdjacencyOf(edges, IsDependency), [seed], v)
    ensures candidates == Elements(Within(AdjacencyOf(edges, AnyKind), seed, depth))
  {
    hide Reachable, Within, Universe;
    SameAdjacency(edges, IsDependency, AnyKind);
    var adj := AdjacencyOf(edges, AnyKind);
    DeepEnoughFindsAll(adj, seed, depth);
    forall v
      ensures ReachableFromAny(adj, [seed], v) <==> Reachable(adj, seed, v)
    {
      assert seed in [seed];
    }
  }

  // ----- the direction of the candidates -----

  /** The candidates would be the skills that lead to an observed one. */
  ghost predicate CandidatesAreCauses(edges: seq<Edge>) {
    var adj := AdjacencyOf(edges, IsDependency);
    forall observed: seq<Node>, v: Node :: v !in observed ==>
      (ReachableFromAny(adj, observed, v) <==> exists o :: o in observed && Reachable(adj, v, o))
  }

  /** Every dependency edge has a way back. */
  ghost predicate EdgesLieOnCycles(edges: seq<Edge>) {
    forall e :: e in edges && IsDependency(e.kind) ==>
      Reachable(AdjacencyOf(edges, IsDependency), e.target, e.source)
  }

  lemma ReachableTransitive(adj: Adjacency, a: Node, b: Node, c: Node)
    requires Reachable(adj, a, b) && Reachable(adj, b, c)
    ensures Reachable(adj, a, c)
  {
    hide HasArc;
    var p :| WalkBetween(adj, a, b, p);
    var q :| WalkBetween(adj, b, c, q);
    var both := p + q[1..];
    forall i | 0 <= i < |both| - 1
      ensures HasArc(adj, both[i], both[i + 1])
    {
      if i < |p| - 1 {
        assert HasArc(adj, p[i], p[i + 1]);
      } else {
        var j := i - |p| + 1;
        assert both[i] == q[j] && HasArc(adj, q[j], q[j + 1]);
      }
    }
    assert WalkBetween(adj, a, c, both);
  }

  lemma {:induction false} WayBack(edges: seq<Edge>, a: Node, b: Node, n: nat)
    requires EdgesLieOnCycles(edges) && ReachIn(AdjacencyOf(edges, IsDependency), a, b, n)
    ensures Reachable(AdjacencyOf(edges, IsDependency), b, a)
    decreases n
  {
    hide HasArc, AdjacencyOf, Reachable, ReachIn, IsDependency;
    var adj := AdjacencyOf(edges, IsDependency);
    if n == 0 {
      ReachZero(adj, a, b);
      ReachableMeansSteps(adj, b, a);
      ReachZero(adj, b, a);
    } else {
      var m := ReachBack(adj, a, b, n - 1);
      WayBack(edges, a, m, n - 1);
      ArcsAreEdges(edges, IsDependency, m, b);
      ReachableTransitive(adj, b, m, a);
    }
  }

  /** The candidates are the skills that lead to an observed one exactly when every dependency edge lies on a cycle. */
  lemma CandidatesAreCausesExactlyWhen(edges: seq<Edge>)
    ensures CandidatesAreCauses(edges) <==> EdgesLieOnCycles(edges)
  {
    hide HasArc, AdjacencyOf, Reachable, IsDependency;
    var adj := AdjacencyOf(edges, IsDependency);
    if CandidatesAreCauses(edges) {
      forall e | e in edges && IsDependency(e.kind)
        ensures Reachable(adj, e.target, e.source)
      {
        EdgeReaches(edges, e);
        if e.source != e.target {
          assert ReachableFromAny(adj, [e.source], e.target);
        }
      }
    }
    if EdgesLieOnCycles(edges) {
      forall x, y | Reachable(adj, x, y)
        ensures Reachable(adj, y, x)
      {
        ReachableMeansSteps(adj, x, y);
        var n: nat :| ReachIn(adj, x, y, n);
        WayBack(edges, x, y, n);
      }
    }
  }

  lemma EdgeReaches(edges: seq<Edge>, e: Edge)
    requires e in edges && IsDependency(e.kind)
    ensures Reachable(AdjacencyOf(edges, IsDependency), e.source, e.target)
  {
    hide AdjacencyOf, IsDependency, HasArc;
    ArcsAreEdges(edges, IsDependency, e.source, e.target);
    assert WalkBetween(AdjacencyOf(edges, IsDependency), e.source, e.target, [e.source, e.target]);
  }

  /** One prerequisite edge: the skill that leads to the observed one is no candidate. */
  lemma CauseIsNoCandidate(candidates: set<Node>)
    requires var adj := AdjacencyOf([Edge("cause", "effect", "Prerequisite")], IsDependency);
             forall v :: v in candidates <==> v !in ["effect"] && ReachableFromAny(adj, ["effect"], v)
    ensures Reachable(AdjacencyOf([Edge("cause", "effect", "Prerequisite")], IsDependency), "cause", "effect")
    ensures candidates == {}
  {
    var edge := Edge("cause", "effect", "Prerequisite");
    var adj := AdjacencyOf([edge], IsDependency);
    EdgeReaches([edge], edge);
    SingleEdge(edge, IsDependency);
    forall p, v | WalkBetween(adj, "effect", v, p)
      ensures v == "effect"
    {
      assert |p| > 1 ==> HasArc(adj, p[0], p[0 + 1]);
    }
  }


  lemma {:induction false} NoArcsNothingFound(adj: Adjacency, seed: Node, depth: nat)
    requires seed !in adj
    ensures Within(adj, seed, depth) == []
    ensures SweepTo(adj, seed, depth).level == if depth == 0 then [seed] else []
  {
    if depth > 0 {
      NoArcsNothingFound(adj, seed, depth - 1);
      DiscoverAllLast(adj, [], seed, {seed} + Elements([]));
      assert [] + [seed] == [seed];
    }
  }

  /** One node's neighbours: the unseen ones are marked, queued and reported. */
  method VisitNeighbors(neighbors: seq<Arc>, visitedIn: set<Node>, queueIn: seq<Node>, resultIn: seq<Node>)
      returns (visited: set<Node>, queue: seq<Node>, result: seq<Node>)
    ensures var found := Discover(neighbors, visitedIn);
            visited == visitedIn + Elements(found) && queue == queueIn + found && result == resultIn + found
  {
    visited, queue, result := visitedIn, queueIn, resultIn;
    for i := 0 to |neighbors|
      invariant var found := Discover(neighbors[..i], visitedIn);
                visited == visitedIn + Elements(found) && queue == queueIn + found && result == resultIn + found
    {
      var n := neighbors[i].target;
      assert neighbors[..i + 1][..i] == neighbors[..i];
      if n !in visited {
        ElementsConcat(Discover(neighbors[..i], visitedIn), [n]);
        visited := visited + {n};
        queue := queue + [n];
        result := result + [n];
      }
    }
    assert neighbors[..|neighbors|] == neighbors;
  }

  /** One level: exactly the entries queued when it starts are expanded. */
  method DrainLevel(adj: Adjacency, level: seq<Node>, visitedIn: set<Node>, resultIn: seq<Node>)
      returns (visited: set<Node>, queue: seq<Node>, result: seq<Node>)
    ensures var found := DiscoverAll(adj, level, visitedIn);
            visited == visitedIn + Elements(found) && queue == found && result == resultIn + found
  {
    hide Discover, DiscoverAll, Elements;
    visited, queue, result := visitedIn, level, resultIn;
    ghost var found: seq<Node> := [];
    NothingDiscovered(adj, visitedIn);
    for k := 0 to |level|
      invariant found == DiscoverAll(adj, level[..k], visitedIn)
      invariant visited == visitedIn + Elements(found)
      invariant queue == level[k..] + found
      invariant result == resultIn + found
    {
      var current := queue[0];
      assert current == level[k];
      assert level[..k + 1] == level[..k] + [current];
      DiscoverAllLast(adj, level[..k], current, visitedIn);
      ghost var more := Discover(ArcsFrom(adj, current), visited);
      ElementsConcat(found, more);
      assert queue[1..] + more == level[k + 1..] + (found + more);
      visited, queue, result := VisitNeighbors(ArcsFrom(adj, current), visited, queue[1..], result);
      found := found + more;
    }
    assert level[..|level|] == level;
  }

  lemma NothingDiscovered(adj: Adjacency, visited: set<Node>)
    ensures DiscoverAll(adj, [], visited) == [] && Elements([]) == {}
  {
  }

  /** The traversal itself: a queue drained one level at a time. */
  method BfsFrom(seed: Node, edges: seq<Edge>, depth: nat) returns (result: seq<Node>)
    ensures result == Within(AdjacencyOf(edges, AnyKind), seed, depth)
  {
    var adj := BuildAdjacency(edges, AnyKind);
    if seed !in adj {
      NoArcsNothingFound(adj, seed, depth);
      return [];
    }
    var visited := {seed};
    var queue := [seed];
    result := [];
    for lvl := 0 to depth
      invariant Sweep(result, queue) == SweepTo(adj, seed, lvl)
      invariant visited == {seed} + Elements(result)
    {
      ElementsConcat(result, DiscoverAll(adj, queue, visited));
      visited, queue, result := DrainLevel(adj, queue, visited, result);
    }
  }
}
