/** What breadth-first search computes: distance vectors, eccentricities and graph centers. */
module Traversal {
  import opened Graphs

  /** d is the distance vector of source s: one entry per vertex, -1 where the vertex is unreachable. */
  ghost predicate IsDistanceVector(g: Graph, s: nat, d: seq<int>) {
    |d| == |g| && forall v :: 0 <= v < |g| ==> d[v] == Dist(g, s, v)
  }

  /** Along any walk out of s, a vector that relaxes every edge never exceeds the walk's length. */
  lemma {:induction false} RelaxedBound(g: Graph, s: nat, d: seq<int>, p: seq<nat>, v: nat)
    requires WellFormed(g) && |d| == |g| && s < |g| && d[s] == 0
    requires forall u, w :: 0 <= u < |g| && d[u] >= 0 && w in g[u] ==> d[w] >= 0 && d[w] <= d[u] + 1
    requires WalkFrom(g, p, s, v)
    ensures 0 <= d[v] <= |p| - 1
    decreases |p|
  {
    if |p| > 1 {
      var q := p[..|p| - 1];
      var u := p[|p| - 2];
      assert WalkFrom(g, q, s, u);
      RelaxedBound(g, s, d, q, u);
      assert v in g[u];
    }
  }

  /**
   * A vector whose finite entries are realised by walks and which relaxes every edge
   * is exactly the distance vector.
   */
  lemma RelaxedIsDistance(g: Graph, s: nat, d: seq<int>, paths: map<nat, seq<nat>>)
    requires WellFormed(g) && |d| == |g| && s < |g| && d[s] == 0
    requires forall v :: 0 <= v < |g| ==> d[v] >= -1
    requires forall u, w :: 0 <= u < |g| && d[u] >= 0 && w in g[u] ==> d[w] >= 0 && d[w] <= d[u] + 1
    requires forall v :: 0 <= v < |g| && d[v] >= 0 ==>
               v in paths && WalkFrom(g, paths[v], s, v) && |paths[v]| == d[v] + 1
    ensures IsDistanceVector(g, s, d)
  {
    forall v | 0 <= v < |g|
      ensures d[v] == Dist(g, s, v)
    {
      DistSpec(g, s, v);
      assert d[v] >= 0 ==> Reachable(g, s, v) by {
        if d[v] >= 0 {
          assert WalkFrom(g, paths[v], s, v);
        }
      }
      if Reachable(g, s, v) {
        var p :| WalkFrom(g, p, s, v);
        RelaxedBound(g, s, d, p, v);
        forall q | WalkFrom(g, q, s, v)
          ensures d[v] + 1 <= |q|
        {
          RelaxedBound(g, s, d, q, v);
        }
        assert WalkFrom(g, paths[v], s, v);
        assert IsShortest(g, s, v, d[v]);
        ShortestIsDist(g, s, v, d[v]);
      }
    }
  }

  // The state of breadth-first search from s: a distance vector d (-1 = not yet seen), the
  // queue q, the set done of vertices whose successors were all enqueued, and a walk
  // realising every finite entry of d.

  ghost predicate BfsBase(g: Graph, s: nat, d: seq<int>, paths: map<nat, seq<nat>>) {
    && WellFormed(g) && |d| == |g| && s < |g| && d[s] == 0
    && (forall v :: 0 <= v < |g| ==> d[v] >= -1)
    && (forall v :: 0 <= v < |g| && d[v] >= 0 ==>
          v in paths && WalkFrom(g, paths[v], s, v) && |paths[v]| == d[v] + 1)
  }

  ghost predicate QueueOk(g: Graph, d: seq<int>, q: seq<nat>) {
    && |d| == |g|
    && (forall i :: 0 <= i < |q| ==> q[i] < |g| && d[q[i]] >= 0)
    && (forall i, j :: 0 <= i <= j < |q| ==> d[q[i]] <= d[q[j]] <= d[q[i]] + 1)
  }

  /** Every vertex in done is seen, and so are its successors, at most one hop further. */
  ghost predicate DoneOk(g: Graph, d: seq<int>, done: set<nat>) {
    && |d| == |g|
    && (forall v :: v in done ==> v < |g| && d[v] >= 0)
    && (forall v, w :: v in done && w in g[v] ==> w < |g| && d[w] >= 0 && d[w] <= d[v] + 1)
  }

  /** The invariant between two iterations of the outer loop. */
  ghost predicate BfsOuter(g: Graph, s: nat, d: seq<int>, q: seq<nat>, done: set<nat>, paths: map<nat, seq<nat>>) {
    && BfsBase(g, s, d, paths)
    && QueueOk(g, d, q)
    && DoneOk(g, d, done)
    && (forall v :: 0 <= v < |g| && d[v] >= 0 ==> v in done || v in q)
    && (q != [] ==> forall v :: v in done ==> d[v] <= d[q[0]])
  }

  /** The invariant while the successors of u are enqueued; rest holds those not yet looked at. */
  ghost predicate BfsInner(g: Graph, s: nat, d: seq<int>, q: seq<nat>, done: set<nat>, paths: map<nat, seq<nat>>,
                           u: nat, rest: set<nat>) {
    && BfsBase(g, s, d, paths)
    && u < |g| && d[u] >= 0 && rest <= g[u]
    && (forall i :: 0 <= i < |q| ==> q[i] < |g| && d[u] <= d[q[i]] <= d[u] + 1)
    && (forall i, j :: 0 <= i <= j < |q| ==> d[q[i]] <= d[q[j]])
    && DoneOk(g, d, done)
    && (forall v :: v in done ==> d[v] <= d[u])
    && (forall v :: 0 <= v < |g| && d[v] >= 0 ==> d[v] <= d[u] + 1 && (v in done || v in q || v == u))
    && (forall w :: w in g[u] - rest ==> w < |g| && d[w] >= 0 && d[w] <= d[u] + 1)
  }

  lemma BfsStart(g: Graph, s: nat, d: seq<int>)
    requires WellFormed(g) && s < |g| && |d| == |g|
    requires forall v :: 0 <= v < |g| ==> d[v] == if v == s then 0 else -1
    ensures BfsOuter(g, s, d, [s], {}, map[s := [s]])
  {
    assert WalkFrom(g, [s], s, s);
  }

  lemma BfsPop(g: Graph, s: nat, d: seq<int>, q: seq<nat>, done: set<nat>, paths: map<nat, seq<nat>>)
    requires BfsOuter(g, s, d, q, done, paths) && q != []
    ensures q[0] < |g| && BfsInner(g, s, d, q[1..], done, paths, q[0], g[q[0]])
  {
    var u := q[0];
    forall v | 0 <= v < |g| && d[v] >= 0
      ensures d[v] <= d[u] + 1 && (v in done || v in q[1..] || v == u)
    {
      if v !in done {
        var i :| 0 <= i < |q| && q[i] == v;
        if i > 0 {
          assert v == q[1..][i - 1];
        }
      }
    }
  }

  lemma BfsVisit(g: Graph, s: nat, d: seq<int>, q: seq<nat>, done: set<nat>, paths: map<nat, seq<nat>>,
                 u: nat, rest: set<nat>, w: nat)
    requires BfsInner(g, s, d, q, done, paths, u, rest) && w in rest && d[w] == -1
    ensures w < |g| && w != u
    ensures BfsInner(g, s, d[w := d[u] + 1], q + [w], done, paths[w := paths[u] + [w]], u, rest - {w})
  {
    VisitBase(g, s, d, paths, u, w);
    VisitQueue(g, d, q, u, w);
    var d' := d[w := d[u] + 1];
    assert DoneOk(g, d', done);
    forall v | 0 <= v < |g| && d'[v] >= 0
      ensures d'[v] <= d'[u] + 1 && (v in done || v in q + [w] || v == u)
    {
      if v != w {
        assert v in q ==> v in q + [w];
      }
    }
  }

  lemma VisitQueue(g: Graph, d: seq<int>, q: seq<nat>, u: nat, w: nat)
    requires |d| == |g| && u < |g| && w < |g| && w != u && d[u] >= 0 && d[w] == -1
    requires forall i :: 0 <= i < |q| ==> q[i] < |g| && d[u] <= d[q[i]] <= d[u] + 1
    requires forall i, j :: 0 <= i <= j < |q| ==> d[q[i]] <= d[q[j]]
    ensures var d', q' := d[w := d[u] + 1], q + [w];
      && (forall i :: 0 <= i < |q'| ==> q'[i] < |g| && d'[u] <= d'[q'[i]] <= d'[u] + 1)
      && (forall i, j :: 0 <= i <= j < |q'| ==> d'[q'[i]] <= d'[q'[j]])
  {
    var d', q' := d[w := d[u] + 1], q + [w];
    forall i | 0 <= i < |q'|
      ensures q'[i] < |g| && d'[u] <= d'[q'[i]] <= d'[u] + 1
    {
      if i < |q| { assert q'[i] == q[i] != w; }
    }
    forall i, j | 0 <= i <= j < |q'|
      ensures d'[q'[i]] <= d'[q'[j]]
    {
      if j < |q| { assert q'[i] == q[i] != w && q'[j] == q[j] != w; }
      else if i < |q| { assert q'[i] == q[i] != w; }
    }
  }

  lemma VisitBase(g: Graph, s: nat, d: seq<int>, paths: map<nat, seq<nat>>, u: nat, w: nat)
    requires BfsBase(g, s, d, paths) && u < |g| && d[u] >= 0 && w in g[u] && d[w] == -1
    ensures w < |g| && w != u
    ensures BfsBase(g, s, d[w := d[u] + 1], paths[w := paths[u] + [w]])
  {
    var d' := d[w := d[u] + 1];
    var paths' := paths[w := paths[u] + [w]];
    assert WalkFrom(g, [u, w], u, w);
    WalkConcat(g, paths[u], [u, w], s, u, w);
    assert paths[u] + [u, w][1..] == paths[u] + [w];
    forall v | 0 <= v < |g| && d'[v] >= 0
      ensures v in paths' && WalkFrom(g, paths'[v], s, v) && |paths'[v]| == d'[v] + 1
    {
    }
  }

  lemma BfsSkip(g: Graph, s: nat, d: seq<int>, q: seq<nat>, done: set<nat>, paths: map<nat, seq<nat>>,
                u: nat, rest: set<nat>, w: nat)
    requires BfsInner(g, s, d, q, done, paths, u, rest) && w in rest && d[w] != -1
    ensures BfsInner(g, s, d, q, done, paths, u, rest - {w})
  {
  }

  lemma BfsFinish(g: Graph, s: nat, d: seq<int>, q: seq<nat>, done: set<nat>, paths: map<nat, seq<nat>>, u: nat)
    requires BfsInner(g, s, d, q, done, paths, u, {})
    ensures BfsOuter(g, s, d, q, done + {u}, paths)
  {
  }

  lemma BfsEnd(g: Graph, s: nat, d: seq<int>, done: set<nat>, paths: map<nat, seq<nat>>)
    requires BfsOuter(g, s, d, [], done, paths)
    ensures IsDistanceVector(g, s, d)
  {
    RelaxedIsDistance(g, s, d, paths);
  }

  /** The largest entry of s, or -1 when s is empty (a stream maximum that falls back to -1). */
  function MaxOf(s: seq<int>): int {
    if |s| == 0 then -1
    else if |s| == 1 then s[0]
    else
      var m := MaxOf(s[..|s| - 1]);
      if s[|s| - 1] > m then s[|s| - 1] else m
  }

  /** MaxOf is -1 on the empty sequence and otherwise an entry that bounds every entry. */
  lemma {:induction false} MaxOfSpec(s: seq<int>)
    ensures |s| == 0 ==> MaxOf(s) == -1
    ensures |s| > 0 ==> (exists k :: 0 <= k < |s| && s[k] == MaxOf(s)) && forall k :: 0 <= k < |s| ==> s[k] <= MaxOf(s)
  {
    if |s| > 1 {
      MaxOfSpec(s[..|s| - 1]);
      if s[|s| - 1] <= MaxOf(s[..|s| - 1]) {
        var k :| 0 <= k < |s| - 1 && s[..|s| - 1][k] == MaxOf(s[..|s| - 1]);
        assert s[k] == MaxOf(s);
      }
    } else if |s| == 1 {
      assert s[0] == MaxOf(s);
    }
  }

  /** The smallest entry of a non-empty s. */
  function MinOf(s: seq<int>): int
    requires |s| > 0
  {
    if |s| == 1 then s[0]
    else
      var m := MinOf(s[..|s| - 1]);
      if s[|s| - 1] < m then s[|s| - 1] else m
  }

  /** MinOf is an entry of s bounded above by every entry. */
  lemma {:induction false} MinOfSpec(s: seq<int>)
    requires |s| > 0
    ensures (exists k :: 0 <= k < |s| && s[k] == MinOf(s)) && forall k :: 0 <= k < |s| ==> MinOf(s) <= s[k]
  {
    if |s| > 1 {
      MinOfSpec(s[..|s| - 1]);
      if s[|s| - 1] >= MinOf(s[..|s| - 1]) {
        var k :| 0 <= k < |s| - 1 && s[..|s| - 1][k] == MinOf(s[..|s| - 1]);
        assert s[k] == MinOf(s);
      }
    } else {
      assert s[0] == MinOf(s);
    }
  }

  /** Folding one more entry into a running minimum. */
  lemma MinOfSnoc(s: seq<int>, x: int)
    requires |s| > 0
    ensures MinOf(s + [x]) == if x < MinOf(s) then x else MinOf(s)
  {
    assert (s + [x])[..|s|] == s;
  }

  /** The distance vector of v. */
  ghost function DistRow(g: Graph, v: nat): (d: seq<int>)
    ensures |d| == |g|
  {
    seq(|g|, w requires 0 <= w < |g| => Dist(g, v, w))
  }

  /** The eccentricity of v: the largest entry of its distance vector. */
  ghost function Ecc(g: Graph, v: nat): int {
    MaxOf(DistRow(g, v))
  }

  /**
   * The eccentricity of a vertex is never negative (its own distance is 0) and is the largest
   * distance to a vertex it reaches: unreachable vertices play no part.
   */
  lemma EccIsMaxReachable(g: Graph, v: nat)
    requires v < |g|
    ensures Ecc(g, v) >= 0
    ensures forall w :: 0 <= w < |g| && Reachable(g, v, w) ==> Dist(g, v, w) <= Ecc(g, v)
    ensures exists w :: 0 <= w < |g| && Reachable(g, v, w) && Dist(g, v, w) == Ecc(g, v)
  {
    var row := DistRow(g, v);
    MaxOfSpec(row);
    DistSelf(g, v);
    assert row[v] == 0;
    forall w | 0 <= w < |g|
      ensures Dist(g, v, w) <= Ecc(g, v)
    {
      assert row[w] == Dist(g, v, w);
    }
    var k :| 0 <= k < |row| && row[k] == Ecc(g, v);
    assert Dist(g, v, k) == Ecc(g, v);
    DistSpec(g, v, k);
  }

  ghost function EccRow(g: Graph): (r: seq<int>)
    ensures |r| == |g|
  {
    seq(|g|, v requires 0 <= v < |g| => Ecc(g, v))
  }

  /** The eccentricity is the maximum of any correct distance vector. */
  lemma EccOfVector(g: Graph, v: nat, d: seq<int>)
    requires v < |g| && IsDistanceVector(g, v, d)
    ensures MaxOf(d) == EccRow(g)[v]
  {
    assert d == DistRow(g, v);
  }

  /** The radius: the least eccentricity over all vertices of a non-empty graph. */
  ghost function Radius(g: Graph): int
    requires |g| > 0
  {
    MinOf(EccRow(g))
  }

  /** The indices below i at which row holds its minimum, in increasing order. */
  function MinIndicesUpTo(row: seq<int>, i: nat): (r: seq<nat>)
    requires 0 < |row| && i <= |row|
    ensures forall k :: 0 <= k < |r| ==> r[k] < i
  {
    if i == 0 then []
    else MinIndicesUpTo(row, i - 1) + (if row[i - 1] == MinOf(row) then [i - 1] else [])
  }

  lemma {:induction false} MinIndicesUpToSpec(row: seq<int>, i: nat)
    requires 0 < |row| && i <= |row|
    ensures forall k, l :: 0 <= k < l < |MinIndicesUpTo(row, i)| ==> MinIndicesUpTo(row, i)[k] < MinIndicesUpTo(row, i)[l]
    ensures forall v: nat :: v in MinIndicesUpTo(row, i) <==> v < i && row[v] == MinOf(row)
  {
    if i > 0 {
      MinIndicesUpToSpec(row, i - 1);
    }
  }

  /** The centers of the graph: the vertices whose eccentricity equals the radius, in increasing id order. */
  ghost function CentersOf(g: Graph): (r: seq<nat>)
    ensures forall k :: 0 <= k < |r| ==> r[k] < |g|
  {
    if |g| == 0 then [] else MinIndicesUpTo(EccRow(g), |g|)
  }

  /**
   * A vertex is returned as a center exactly when no vertex has a smaller eccentricity; the
   * centers come in increasing id order, and there is at least one in a non-empty graph.
   */
  lemma CentersAreMinimal(g: Graph)
    ensures forall v: nat :: v in CentersOf(g) <==> v < |g| && forall u :: 0 <= u < |g| ==> EccRow(g)[v] <= EccRow(g)[u]
    ensures forall k, l :: 0 <= k < l < |CentersOf(g)| ==> CentersOf(g)[k] < CentersOf(g)[l]
    ensures |g| > 0 <==> CentersOf(g) != []
  {
    if |g| > 0 {
      var row := EccRow(g);
      MinIndicesUpToSpec(row, |g|);
      MinOfSpec(row);
      var k :| 0 <= k < |row| && row[k] == MinOf(row);
      assert k in CentersOf(g);
      forall v: nat | v < |g| && (forall u :: 0 <= u < |g| ==> row[v] <= row[u])
        ensures v in CentersOf(g)
      {
        assert row[v] <= row[k];
      }
    }
  }
}
