/** Strongly connected components: what a correct decomposition of a graph into components is. */
module Components {
  import opened Graphs

  /** v occurs in one of the components. */
  ghost predicate InSome(comps: seq<seq<nat>>, v: nat) {
    exists i :: 0 <= i < |comps| && v in comps[i]
  }

  /** K is non-empty and holds exactly the vertices mutually reachable with its last vertex. */
  ghost predicate IsScc(g: Graph, K: seq<nat>) {
    |K| > 0 && forall z: nat :: z in K <==> Mutual(g, K[|K| - 1], z)
  }

  /** No vertex occurs in two different components. */
  ghost predicate Disjoint(comps: seq<seq<nat>>) {
    forall i, j, z :: 0 <= i < j < |comps| && z in comps[i] ==> z !in comps[j]
  }

  /**
   * comps is the decomposition of g into strongly connected components: each is a full class
   * of mutual reachability listed without repeats, no vertex is in two, and every vertex is in one.
   */
  ghost predicate IsSccPartition(g: Graph, comps: seq<seq<nat>>) {
    && (forall i :: 0 <= i < |comps| ==> IsScc(g, comps[i]) && Distinct(comps[i]))
    && Disjoint(comps)
    && (forall v :: 0 <= v < |g| ==> InSome(comps, v))
  }

  lemma MutualSymm(g: Graph, x: nat, y: nat)
    requires Mutual(g, x, y)
    ensures Mutual(g, y, x)
  {
  }

  lemma MutualTrans(g: Graph, x: nat, y: nat, z: nat)
    requires Mutual(g, x, y) && Mutual(g, y, z)
    ensures Mutual(g, x, z)
  {
    ReachableTrans(g, x, y, z);
    ReachableTrans(g, z, y, x);
  }

  /** Two vertices share a component of a decomposition exactly when they are mutually reachable. */
  lemma SameComponentIffMutual(g: Graph, comps: seq<seq<nat>>, i: nat, x: nat, y: nat)
    requires IsSccPartition(g, comps) && i < |comps| && x in comps[i]
    ensures y in comps[i] <==> Mutual(g, x, y)
  {
    var r := comps[i][|comps[i]| - 1];
    assert Mutual(g, r, x);
    MutualSymm(g, r, x);
    if y in comps[i] {
      assert Mutual(g, r, y);
      MutualTrans(g, x, r, y);
    }
    if Mutual(g, x, y) {
      MutualTrans(g, r, x, y);
    }
  }

  /** Every vertex lies in exactly one component of a decomposition, and occurs there once. */
  lemma ExactlyOnce(g: Graph, comps: seq<seq<nat>>, v: nat)
    requires IsSccPartition(g, comps) && v < |g|
    ensures exists i :: 0 <= i < |comps| && v in comps[i]
    ensures forall i, j :: 0 <= i < |comps| && 0 <= j < |comps| && v in comps[i] && v in comps[j] ==> i == j
    ensures forall i, a, b :: 0 <= i < |comps| && 0 <= a < b < |comps[i]| ==> comps[i][a] != comps[i][b]
  {
    assert InSome(comps, v);
    forall i, a, b | 0 <= i < |comps| && 0 <= a < b < |comps[i]|
      ensures comps[i][a] != comps[i][b]
    {
      assert Distinct(comps[i]);
    }
  }

  /**
   * Closure: if every step out of C to a vertex mutually reachable with r stays in C, then every
   * vertex mutually reachable with r is in C.
   */
  lemma MutualInClosed(g: Graph, C: set<nat>, r: nat, y: nat)
    requires r in C
    requires forall z, z' :: z in C && z < |g| && z' in g[z] && Mutual(g, r, z') ==> z' in C
    requires Mutual(g, r, y)
    ensures y in C
  {
    var p :| WalkFrom(g, p, r, y);
    PrefixInClosed(g, C, r, y, p, |p| - 1);
  }

  /** Every vertex of a walk from r back to r's class stays in a closed set containing r. */
  lemma {:induction false} PrefixInClosed(g: Graph, C: set<nat>, r: nat, y: nat, p: seq<nat>, k: nat)
    requires r in C && Reachable(g, y, r) && WalkFrom(g, p, r, y) && k < |p|
    requires forall z, z' :: z in C && z < |g| && z' in g[z] && Mutual(g, r, z') ==> z' in C
    ensures p[k] in C
    decreases k
  {
    if k > 0 {
      PrefixInClosed(g, C, r, y, p, k - 1);
      var z, z' := p[k - 1], p[k];
      assert WalkFrom(g, p[..k + 1], r, z');
      assert WalkFrom(g, p[k..], z', y);
      ReachableTrans(g, z', y, r);
      assert z < |g| && z' in g[z];
    }
  }
}
