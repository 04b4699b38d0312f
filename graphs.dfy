/** Directed graphs over dense vertex ids, walks, reachability and shortest distances. */
module Graphs {

  /** g[u] is the successor set of vertex u; the vertices are 0 .. |g| - 1. */
  type Graph = seq<set<nat>>

  /** Every successor is itself a vertex of the graph. */
  ghost predicate WellFormed(g: Graph) {
    forall u, v :: 0 <= u < |g| && v in g[u] ==> v < |g|
  }

  /** A non-empty sequence of vertices in which each one is a successor of the one before. */
  ghost predicate IsWalk(g: Graph, p: seq<nat>) {
    && |p| > 0
    && (forall i :: 0 <= i < |p| ==> p[i] < |g|)
    && (forall i :: 0 <= i < |p| - 1 ==> p[i + 1] in g[p[i]])
  }

  ghost predicate WalkFrom(g: Graph, p: seq<nat>, x: nat, y: nat) {
    IsWalk(g, p) && p[0] == x && p[|p| - 1] == y
  }

  /** The elements of p are pairwise distinct. */
  ghost predicate Distinct(p: seq<nat>) {
    forall a, b :: 0 <= a < b < |p| ==> p[a] != p[b]
  }

  /** y can be reached from x by following zero or more edges. */
  ghost predicate Reachable(g: Graph, x: nat, y: nat) {
    exists p :: WalkFrom(g, p, x, y)
  }

  ghost predicate Mutual(g: Graph, x: nat, y: nat) {
    Reachable(g, x, y) && Reachable(g, y, x)
  }

  /** Every vertex on a walk is a vertex of the graph. */
  lemma ReachableInGraph(g: Graph, x: nat, y: nat)
    requires Reachable(g, x, y)
    ensures x < |g| && y < |g|
  {
    var p :| WalkFrom(g, p, x, y);
    assert p[0] < |g| && p[|p| - 1] < |g|;
  }

  lemma ReachableRefl(g: Graph, x: nat)
    requires x < |g|
    ensures Reachable(g, x, x)
  {
    assert WalkFrom(g, [x], x, x);
  }

  lemma ReachableEdge(g: Graph, x: nat, y: nat)
    requires x < |g| && y < |g| && y in g[x]
    ensures Reachable(g, x, y)
  {
    assert WalkFrom(g, [x, y], x, y);
  }

  /** Gluing two walks that meet in a vertex. */
  lemma WalkConcat(g: Graph, p: seq<nat>, q: seq<nat>, x: nat, y: nat, z: nat)
    requires WalkFrom(g, p, x, y) && WalkFrom(g, q, y, z)
    ensures WalkFrom(g, p + q[1..], x, z) && |p + q[1..]| == |p| + |q| - 1
  {
    var r := p + q[1..];
    forall i | 0 <= i < |r| - 1
      ensures r[i + 1] in g[r[i]]
    {
      if i + 1 < |p| {
      } else {
        assert r[i + 1] == q[i + 1 - |p| + 1];
        assert r[i] == q[i - |p| + 1];
      }
    }
  }

  lemma ReachableTrans(g: Graph, x: nat, y: nat, z: nat)
    requires Reachable(g, x, y) && Reachable(g, y, z)
    ensures Reachable(g, x, z)
  {
    var p :| WalkFrom(g, p, x, y);
    var q :| WalkFrom(g, q, y, z);
    WalkConcat(g, p, q, x, y, z);
  }

  /** The shortest walk from s to v has exactly k edges. */
  ghost predicate IsShortest(g: Graph, s: nat, v: nat, k: nat) {
    && (exists p :: WalkFrom(g, p, s, v) && |p| == k + 1)
    && (forall p :: WalkFrom(g, p, s, v) ==> k + 1 <= |p|)
  }

  /** Whenever v is reachable from s there is a shortest walk. */
  lemma {:induction false} ShortestExists(g: Graph, s: nat, v: nat, p: seq<nat>)
    requires WalkFrom(g, p, s, v)
    ensures exists k: nat :: k < |p| && IsShortest(g, s, v, k)
    decreases |p|
  {
    if forall q :: WalkFrom(g, q, s, v) ==> |p| <= |q| {
      assert IsShortest(g, s, v, |p| - 1);
    } else {
      var q :| WalkFrom(g, q, s, v) && |q| < |p|;
      ShortestExists(g, s, v, q);
    }
  }

  /** The shortest hop count from s to v, or -1 when v cannot be reached from s. */
  ghost function Dist(g: Graph, s: nat, v: nat): int {
    if Reachable(g, s, v) then
      var p :| WalkFrom(g, p, s, v);
      ShortestExists(g, s, v, p);
      var k: nat :| IsShortest(g, s, v, k);
      k
    else
      -1
  }

  /** Dist is -1 exactly for unreachable vertices and otherwise the shortest length. */
  lemma DistSpec(g: Graph, s: nat, v: nat)
    ensures Dist(g, s, v) == -1 <==> !Reachable(g, s, v)
    ensures Dist(g, s, v) >= 0 ==> IsShortest(g, s, v, Dist(g, s, v))
  {
  }

  /** The shortest length is unique, so any shortest length is the distance. */
  lemma ShortestIsDist(g: Graph, s: nat, v: nat, k: nat)
    requires IsShortest(g, s, v, k)
    ensures Dist(g, s, v) == k
  {
    var p :| WalkFrom(g, p, s, v) && |p| == k + 1;
    DistSpec(g, s, v);
    var d := Dist(g, s, v);
    var q :| WalkFrom(g, q, s, v) && |q| == d + 1;
  }

  /** Every vertex is at distance 0 from itself. */
  lemma DistSelf(g: Graph, v: nat)
    requires v < |g|
    ensures Dist(g, v, v) == 0
  {
    assert WalkFrom(g, [v], v, v);
    assert IsShortest(g, v, v, 0);
    ShortestIsDist(g, v, v, 0);
  }

  /** Triangle inequality for finite distances. */
  lemma DistTriangle(g: Graph, a: nat, b: nat, c: nat)
    requires Dist(g, a, b) >= 0 && Dist(g, b, c) >= 0
    ensures 0 <= Dist(g, a, c) <= Dist(g, a, b) + Dist(g, b, c)
  {
    DistSpec(g, a, b);
    DistSpec(g, b, c);
    DistSpec(g, a, c);
    var p :| WalkFrom(g, p, a, b) && |p| == Dist(g, a, b) + 1;
    var q :| WalkFrom(g, q, b, c) && |q| == Dist(g, b, c) + 1;
    WalkConcat(g, p, q, a, b, c);
  }

  /** One more edge adds at most one hop. */
  lemma DistEdge(g: Graph, s: nat, u: nat, w: nat)
    requires Dist(g, s, u) >= 0 && u < |g| && w < |g| && w in g[u]
    ensures 0 <= Dist(g, s, w) <= Dist(g, s, u) + 1
  {
    assert WalkFrom(g, [u, w], u, w);
    ShortestIsDistAtMost(g, u, w, [u, w]);
    DistTriangle(g, s, u, w);
  }

  lemma ShortestIsDistAtMost(g: Graph, s: nat, v: nat, p: seq<nat>)
    requires WalkFrom(g, p, s, v)
    ensures 0 <= Dist(g, s, v) < |p|
  {
    DistSpec(g, s, v);
  }
}
