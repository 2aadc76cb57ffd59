/**
 * The skill dependency graph as the causal engine sees it: an edge list, the
 * adjacency built from it, and the walks that the search theorems speak about.
 */
module Graphs {
  type Node = string

  datatype LinkKind = Prerequisite | Composition | Related | Alternative | Extends | Generalization

  /** An edge as the graph backend reports it; the kind is still a string. */
  datatype Edge = Edge(source: Node, target: Node, kind: string)

  datatype Arc = Arc(target: Node, link: LinkKind)

  type Adjacency = map<Node, seq<Arc>>

  /** Unknown edge kinds count as `Related`. */
  function ParseLinkKind(kind: string): LinkKind {
    if kind == "Prerequisite" then Prerequisite
    else if kind == "Composition" then Composition
    else if kind == "Related" then Related
    else if kind == "Alternative" then Alternative
    else if kind == "Extends" then Extends
    else if kind == "Generalization" then Generalization
    else Related
  }

  predicate AnyKind(kind: string) { true }

  predicate IsDependency(kind: string) {
    kind == "Prerequisite" || kind == "Extends" || kind == "Generalization"
  }

  predicate IsPropagating(kind: string) {
    kind == "Prerequisite" || kind == "Composition" || kind == "Extends" || kind == "Related"
  }

  /** Which kinds the candidate search follows, and which the depth-first search does: two of them both. */
  lemma KindsFollowed(kind: string)
    ensures kind in {"Prerequisite", "Extends"} ==> IsDependency(kind) && IsPropagating(kind)
    ensures kind == "Generalization" ==> IsDependency(kind) && !IsPropagating(kind)
    ensures kind in {"Composition", "Related"} ==> !IsDependency(kind) && IsPropagating(kind)
    ensures kind !in {"Prerequisite", "Extends", "Generalization", "Composition", "Related"} ==>
      !IsDependency(kind) && !IsPropagating(kind)
  {
  }

  /** Known kinds are told apart; everything else, and nothing but, counts as `Related` with its name. */
  lemma KindsParsed(kind: string, other: string)
    ensures ParseLinkKind(kind) == Prerequisite <==> kind == "Prerequisite"
    ensures ParseLinkKind(kind) == Composition <==> kind == "Composition"
    ensures ParseLinkKind(kind) == Alternative <==> kind == "Alternative"
    ensures ParseLinkKind(kind) == Extends <==> kind == "Extends"
    ensures ParseLinkKind(kind) == Generalization <==> kind == "Generalization"
    ensures ParseLinkKind(kind) == ParseLinkKind(other) ==> kind == other || ParseLinkKind(kind) == Related
  {
  }

  // ----- adjacency -----

  function ArcsFrom(adj: Adjacency, n: Node): seq<Arc> {
    if n in adj then adj[n] else []
  }

  predicate HasTarget(arcs: seq<Arc>, b: Node) {
    exists arc :: arc in arcs && arc.target == b
  }

  predicate HasArc(adj: Adjacency, a: Node, b: Node) {
    HasTarget(ArcsFrom(adj, a), b)
  }

  function AddEdge(adj: Adjacency, e: Edge): Adjacency {
    adj[e.source := ArcsFrom(adj, e.source) + [Arc(e.target, ParseLinkKind(e.kind))]]
  }

  /** The adjacency of the edges whose kind `keep` accepts, in edge order. */
  function AdjacencyOf(edges: seq<Edge>, keep: string -> bool): Adjacency {
    if edges == [] then map[]
    else
      var last := edges[|edges| - 1];
      var rest := AdjacencyOf(edges[..|edges| - 1], keep);
      if keep(last.kind) then AddEdge(rest, last) else rest
  }

  /** The loop that all four searches run before they start. */
  method BuildAdjacency(edges: seq<Edge>, keep: string -> bool) returns (adj: Adjacency)
    ensures adj == AdjacencyOf(edges, keep)
  {
    adj := map[];
    for i := 0 to |edges|
      invariant adj == AdjacencyOf(edges[..i], keep)
    {
      assert edges[..i + 1][..i] == edges[..i];
      if keep(edges[i].kind) {
        adj := AddEdge(adj, edges[i]);
      }
    }
    assert edges[..|edges|] == edges;
  }

  /** `edges` has an accepted edge from `a` to `b`. */
  ghost predicate HasEdge(edges: seq<Edge>, keep: string -> bool, a: Node, b: Node) {
    exists e :: e in edges && keep(e.kind) && e.source == a && e.target == b
  }

  lemma {:induction false} ArcsAreEdges(edges: seq<Edge>, keep: string -> bool, a: Node, b: Node)
    ensures HasArc(AdjacencyOf(edges, keep), a, b) <==> HasEdge(edges, keep, a, b)
  {
    if edges != [] {
      var rest := edges[..|edges| - 1];
      var last := edges[|edges| - 1];
      assert edges == rest + [last];
      ArcsAreEdges(rest, keep, a, b);
      var before, after := AdjacencyOf(rest, keep), AdjacencyOf(edges, keep);
      if HasArc(before, a, b) {
        var arc :| arc in ArcsFrom(before, a) && arc.target == b;
        assert arc in ArcsFrom(after, a);
      }
      if keep(last.kind) && last.source == a && last.target == b {
        var arc := Arc(b, ParseLinkKind(last.kind));
        assert arc in ArcsFrom(after, a);
      }
      if HasArc(after, a, b) && !HasArc(before, a, b) {
        var arc :| arc in ArcsFrom(after, a) && arc.target == b;
        assert last in edges && keep(last.kind) && last.source == a && last.target == b;
      }
    }
  }

  /** Every node mentioned by the adjacency. */
  ghost function Universe(adj: Adjacency): set<Node> {
    adj.Keys + set a, arc | a in adj && arc in adj[a] :: arc.target
  }

  lemma ArcTargetsInUniverse(adj: Adjacency, a: Node, b: Node)
    requires HasArc(adj, a, b)
    ensures a in Universe(adj) && b in Universe(adj)
  {
    var arc :| arc in ArcsFrom(adj, a) && arc.target == b;
    assert a in adj && arc in adj[a];
  }

  // ----- walks -----

  /** A chain of real edges. It may visit a node more than once. */
  ghost predicate Walk(adj: Adjacency, p: seq<Node>) {
    |p| > 0 && forall i :: 0 <= i < |p| - 1 ==> HasArc(adj, p[i], p[i + 1])
  }

  ghost predicate WalkBetween(adj: Adjacency, a: Node, b: Node, p: seq<Node>) {
    Walk(adj, p) && p[0] == a && p[|p| - 1] == b
  }

  ghost predicate NoRepeats<T>(p: seq<T>) {
    forall i, j :: 0 <= i < j < |p| ==> p[i] != p[j]
  }

  ghost predicate Reachable(adj: Adjacency, a: Node, b: Node) {
    exists p :: WalkBetween(adj, a, b, p)
  }

  /** `b` can be reached from `a` in exactly `n` steps. */
  ghost predicate ReachIn(adj: Adjacency, a: Node, b: Node, n: nat) {
    exists p :: WalkBetween(adj, a, b, p) && |p| == n + 1
  }

  lemma ReachZero(adj: Adjacency, a: Node, b: Node)
    ensures ReachIn(adj, a, b, 0) <==> a == b
  {
    if a == b {
      assert WalkBetween(adj, a, b, [a]);
    }
  }

  lemma ReachStep(adj: Adjacency, a: Node, m: Node, b: Node, n: nat)
    requires ReachIn(adj, a, m, n) && HasArc(adj, m, b)
    ensures ReachIn(adj, a, b, n + 1)
  {
    var p :| WalkBetween(adj, a, m, p) && |p| == n + 1;
    assert WalkBetween(adj, a, b, p + [b]);
  }

  lemma ReachBack(adj: Adjacency, a: Node, b: Node, n: nat) returns (m: Node)
    requires ReachIn(adj, a, b, n + 1)
    ensures ReachIn(adj, a, m, n) && HasArc(adj, m, b)
  {
    var p :| WalkBetween(adj, a, b, p) && |p| == n + 2;
    m := p[n];
    assert HasArc(adj, p[n], p[n + 1]);
    assert WalkBetween(adj, a, m, p[..n + 1]);
  }

  lemma ReachableMeansSteps(adj: Adjacency, a: Node, b: Node)
    ensures Reachable(adj, a, b) <==> exists n: nat :: ReachIn(adj, a, b, n)
  {
    if Reachable(adj, a, b) {
      var p :| WalkBetween(adj, a, b, p);
      assert ReachIn(adj, a, b, |p| - 1);
    }
  }

  /** A set that holds `a` and is closed under arcs holds all that `a` reaches. */
  lemma {:induction false} ClosedContainsReachable(adj: Adjacency, a: Node, b: Node, n: nat, s: set<Node>)
    requires a in s && ReachIn(adj, a, b, n)
    requires forall x, y :: x in s && HasArc(adj, x, y) ==> y in s
    ensures b in s
    decreases n
  {
    if n == 0 {
      ReachZero(adj, a, b);
    } else {
      var m := ReachBack(adj, a, b, n - 1);
      ClosedContainsReachable(adj, a, m, n - 1, s);
    }
  }

  /** Cutting a cycle out of a walk leaves a walk with the same ends. */
  lemma CutCycle(adj: Adjacency, a: Node, b: Node, p: seq<Node>, i: nat, j: nat)
    requires WalkBetween(adj, a, b, p) && i < j < |p| && p[i] == p[j]
    ensures WalkBetween(adj, a, b, p[..i] + p[j..])
  {
    var q := p[..i] + p[j..];
    forall k | 0 <= k < |q| - 1
      ensures HasArc(adj, q[k], q[k + 1])
    {
      if k < i {
        assert q[k] == p[k] && q[k + 1] == p[k + 1];
      } else {
        assert q[k] == p[k - i + j] && q[k + 1] == p[k - i + j + 1];
      }
    }
  }

  /** A shortest walk repeats no node. */
  lemma ShortestIsSimple(adj: Adjacency, a: Node, b: Node, p: seq<Node>)
    requires WalkBetween(adj, a, b, p)
    requires forall q :: WalkBetween(adj, a, b, q) ==> |p| <= |q|
    ensures NoRepeats(p)
  {
    forall i, j | 0 <= i < j < |p|
      ensures p[i] != p[j]
    {
      if p[i] == p[j] {
        CutCycle(adj, a, b, p, i, j);
        assert false;
      }
    }
  }

  /** A sequence without repeats over `s` is no longer than `s`. */
  lemma {:induction false} NoRepeatsFits<T>(p: seq<T>, s: set<T>)
    requires NoRepeats(p) && forall x :: x in p ==> x in s
    ensures |p| <= |s|
  {
    if p != [] {
      var rest := p[..|p| - 1];
      var last := p[|p| - 1];
      assert forall x :: x in rest ==> x in s - {last};
      NoRepeatsFits(rest, s - {last});
    }
  }

  /** A reachable node is reached in at most one step less than there are nodes. */
  lemma {:induction false} ReachWithinUniverse(adj: Adjacency, a: Node, b: Node, n: nat) returns (k: nat)
    requires ReachIn(adj, a, b, n)
    ensures k <= n && (k == 0 || k < |Universe(adj)|) && ReachIn(adj, a, b, k)
    decreases n
  {
    var p :| WalkBetween(adj, a, b, p) && |p| == n + 1;
    if NoRepeats(p) {
      k := n;
      if n > 0 {
        forall x | x in p
          ensures x in Universe(adj)
        {
          var i :| 0 <= i < |p| && p[i] == x;
          if i < n {
            ArcTargetsInUniverse(adj, p[i], p[i + 1]);
          } else {
            ArcTargetsInUniverse(adj, p[i - 1], p[i]);
          }
        }
        NoRepeatsFits(p, Universe(adj));
      }
    } else {
      var i, j :| 0 <= i < j < |p| && p[i] == p[j];
      CutCycle(adj, a, b, p, i, j);
      var q := p[..i] + p[j..];
      assert WalkBetween(adj, a, b, q) && |q| == (|q| - 1) + 1;
      k := ReachWithinUniverse(adj, a, b, |q| - 1);
    }
  }
}
