/**
 * The Hamiltonian-path search: what the memoised search over (vertex, vertex-set) pairs
 * decides, what its memo and successor tables hold, and the path read back from them.
 * A vertex set is the search's mask of vertices still to visit: vertex v is in the set exactly
 * when bit v of the mask is set.
 */
module Hamiltonian {
  import opened Graphs

  /** The mask with every vertex 0 .. n - 1 set. */
  function All(n: nat): (s: set<nat>)
    ensures forall v: nat :: v in s <==> v < n
  {
    if n == 0 then {} else All(n - 1) + {n - 1}
  }

  /**
   * The answer of the search from i over S: true on the singleton {i}; otherwise true when
   * some successor k of i lies in S (in S itself, not in S without i) and the search from k
   * over S without i succeeds.
   */
  ghost predicate Succeeds(g: Graph, i: nat, S: set<nat>)
    requires WellFormed(g) && i < |g|
    decreases |S|, if i in S then 0 else 1
  {
    if S == {i} then true
    else exists k :: k in g[i] && k in S && Succeeds(g, k, S - {i})
  }

  /** No vertex is its own successor. */
  ghost predicate NoSelfLoops(g: Graph) {
    forall u :: 0 <= u < |g| ==> u !in g[u]
  }

  /** p is a path through exactly the vertices of S, each visited once. */
  ghost predicate HamPath(g: Graph, p: seq<nat>, S: set<nat>) {
    && IsWalk(g, p)
    && Distinct(p)
    && (forall x :: x in p <==> x in S)
  }

  /** A successful search from a vertex of S yields a path through S visiting each vertex once. */
  lemma {:induction false} SucceedsSound(g: Graph, i: nat, S: set<nat>)
    requires WellFormed(g) && i < |g| && i in S && Succeeds(g, i, S)
    ensures exists p :: HamPath(g, p, S) && p[0] == i
    decreases |S|
  {
    if S == {i} {
      assert HamPath(g, [i], S);
    } else {
      var k :| k in g[i] && k in S && Succeeds(g, k, S - {i});
      var p: seq<nat>;
      if k == i {
        // The self-loop: the search from i over S without i goes on to a successor in that set.
        assert Succeeds(g, i, S - {i});
        assert S - {i} != {i} && (S - {i}) - {i} == S - {i};
        var k' :| k' in g[i] && k' in S - {i} && Succeeds(g, k', (S - {i}) - {i});
        SucceedsSound(g, k', S - {i});
        p :| HamPath(g, p, S - {i}) && p[0] == k';
      } else {
        SucceedsSound(g, k, S - {i});
        p :| HamPath(g, p, S - {i}) && p[0] == k;
      }
      PrependPath(g, i, p, S);
    }
  }

  /** Putting i in front of a path through S without i, starting at a successor of i. */
  lemma PrependPath(g: Graph, i: nat, p: seq<nat>, S: set<nat>)
    requires WellFormed(g) && i < |g| && i in S
    requires HamPath(g, p, S - {i}) && p[0] in g[i]
    ensures HamPath(g, [i] + p, S) && ([i] + p)[0] == i
  {
    var q := [i] + p;
    forall a | 0 <= a < |q| - 1
      ensures q[a + 1] in g[q[a]]
    {
      if a > 0 {
        assert q[a + 1] == p[a] && q[a] == p[a - 1];
      }
    }
    forall x
      ensures x in q <==> x in S
    {
      assert x in q <==> x == i || x in p;
    }
    forall a, b | 0 <= a < b < |q|
      ensures q[a] != q[b]
    {
      if a == 0 {
        assert q[b] == p[b - 1] && q[b] in S - {i};
      } else {
        assert q[a] == p[a - 1] && q[b] == p[b - 1];
      }
    }
  }

  /** Every path through S visiting each vertex once makes the search from its first vertex succeed. */
  lemma {:induction false} SucceedsComplete(g: Graph, p: seq<nat>, S: set<nat>)
    requires WellFormed(g) && HamPath(g, p, S)
    ensures Succeeds(g, p[0], S)
    decreases |p|
  {
    var i := p[0];
    if |p| == 1 {
      assert S == {i} by {
        forall x
          ensures x in S <==> x == i
        {
          assert x in p <==> x == i;
        }
      }
    } else {
      var rest := p[1..];
      assert p[1] in S && p[1] != i;
      assert HamPath(g, rest, S - {i}) by {
        forall a | 0 <= a < |rest| - 1
          ensures rest[a + 1] in g[rest[a]]
        {
          assert rest[a + 1] == p[a + 2] && rest[a] == p[a + 1];
        }
        forall x
          ensures x in rest <==> x in S - {i}
        {
          if x in rest {
            var b :| 0 <= b < |rest| && rest[b] == x;
            assert p[b + 1] == x && p[0] != p[b + 1];
          }
          if x in S - {i} {
            assert x in p;
            var b :| 0 <= b < |p| && p[b] == x;
            assert b > 0 && rest[b - 1] == x;
          }
        }
        forall a, b | 0 <= a < b < |rest|
          ensures rest[a] != rest[b]
        {
          assert rest[a] == p[a + 1] && rest[b] == p[b + 1];
        }
      }
      SucceedsComplete(g, rest, S - {i});
      assert p[1] in g[i] && p[1] in S && Succeeds(g, p[1], S - {i});
    }
  }

  /** The search from a vertex of S succeeds exactly when a path through S visiting each vertex once starts there. */
  lemma SucceedsIffHamPath(g: Graph, i: nat, S: set<nat>)
    requires WellFormed(g) && i < |g| && i in S
    ensures Succeeds(g, i, S) <==> exists p :: HamPath(g, p, S) && p[0] == i
  {
    if Succeeds(g, i, S) {
      SucceedsSound(g, i, S);
    }
    if exists p :: HamPath(g, p, S) && p[0] == i {
      var p :| HamPath(g, p, S) && p[0] == i;
      SucceedsComplete(g, p, S);
    }
  }

  type Key = (nat, set<nat>)

  /**
   * The tables the search fills: every memo entry is the answer of the search for its key;
   * every successful key that is not a singleton has a successor entry; and every successor
   * entry names a successor of the key's vertex inside the key's set whose own search (over the
   * set without the key's vertex) is memoised and succeeds.
   */
  ghost predicate MemoOk(g: Graph, memo: map<Key, bool>, successor: map<Key, nat>)
    requires WellFormed(g)
  {
    && (forall key :: key in memo ==> key.0 < |g| && memo[key] == Succeeds(g, key.0, key.1))
    && (forall key :: key in memo && memo[key] && key.1 != {key.0} ==> key in successor)
    && (forall key :: key in successor ==>
          && key in memo && memo[key] && key.1 != {key.0}
          && successor[key] in g[key.0] && successor[key] in key.1
          && (successor[key], key.1 - {key.0}) in memo && memo[(successor[key], key.1 - {key.0})])
  }

  /** Recording a singleton key as successful keeps the tables consistent. */
  lemma MemoAddBase(g: Graph, memo: map<Key, bool>, successor: map<Key, nat>, i: nat)
    requires WellFormed(g) && i < |g| && MemoOk(g, memo, successor)
    ensures Succeeds(g, i, {i}) && MemoOk(g, memo[(i, {i}) := true], successor)
  {
  }

  /** Recording a successful key with the successor that made it succeed keeps the tables consistent. */
  lemma MemoAddFound(g: Graph, memo: map<Key, bool>, successor: map<Key, nat>, i: nat, S: set<nat>, k: nat)
    requires WellFormed(g) && i < |g| && MemoOk(g, memo, successor)
    requires S != {i} && k in g[i] && k in S && (k, S - {i}) in memo && memo[(k, S - {i})]
    ensures Succeeds(g, i, S)
    ensures MemoOk(g, memo[(i, S) := true], successor[(i, S) := k])
  {
    assert Succeeds(g, k, S - {i});
    var memo', successor' := memo[(i, S) := true], successor[(i, S) := k];
    forall key: Key | key in memo'
      ensures key.0 < |g| && memo'[key] == Succeeds(g, key.0, key.1)
    {
      if key != (i, S) {
        assert memo'[key] == memo[key];
      }
    }
    forall key: Key | key in memo' && memo'[key] && key.1 != {key.0}
      ensures key in successor'
    {
      if key != (i, S) {
        assert key in memo && memo[key];
      }
    }
    forall key: Key | key in successor'
      ensures && key in memo' && memo'[key] && key.1 != {key.0}
              && successor'[key] in g[key.0] && successor'[key] in key.1
              && (successor'[key], key.1 - {key.0}) in memo' && memo'[(successor'[key], key.1 - {key.0})]
    {
      if key != (i, S) {
        assert key in successor && successor'[key] == successor[key];
        var next: Key := (successor[key], key.1 - {key.0});
        assert next in memo && memo[next];
        assert memo'[next] == Succeeds(g, next.0, next.1);
      } else {
        var next: Key := (k, S - {i});
        assert next in memo && memo[next];
        assert memo'[next] == Succeeds(g, next.0, next.1);
      }
    }
  }

  /** Recording a key none of whose candidate successors succeeds as failed keeps the tables consistent. */
  lemma MemoAddFailed(g: Graph, memo: map<Key, bool>, successor: map<Key, nat>, i: nat, S: set<nat>)
    requires WellFormed(g) && i < |g| && MemoOk(g, memo, successor)
    requires S != {i} && forall k :: k in g[i] && k in S ==> !Succeeds(g, k, S - {i})
    ensures !Succeeds(g, i, S)
    ensures MemoOk(g, memo[(i, S) := false], successor)
  {
  }

  /** The successor table read with -1 for an empty slot. */
  function SuccessorOf(successor: map<Key, nat>, i: nat, S: set<nat>): (c: int)
    ensures c == -1 <==> (i, S) !in successor
    ensures c != -1 ==> c == successor[(i, S)]
  {
    if (i, S) in successor then successor[(i, S)] else -1
  }

  /**
   * The vertices the read-back loop emits from i over S: while S is not empty, emit i, look up
   * the successor of (i, S), remove i from S and move to the successor when there is one.
   */
  ghost function Trace(g: Graph, memo: map<Key, bool>, successor: map<Key, nat>, i: nat, S: set<nat>): seq<nat>
    requires WellFormed(g) && MemoOk(g, memo, successor)
    requires S != {} ==> (i, S) in memo && memo[(i, S)]
    decreases |S|, if i in S then 0 else 1
  {
    if S == {} then []
    else
      var child := SuccessorOf(successor, i, S);
      [i] + Trace(g, memo, successor, if child != -1 then child else i, S - {i})
  }

  /** One step of the read-back from a successful key that is not a singleton. */
  lemma TraceStep(g: Graph, memo: map<Key, bool>, successor: map<Key, nat>, i: nat, S: set<nat>)
    requires WellFormed(g) && MemoOk(g, memo, successor)
    requires S != {} && S != {i} && (i, S) in memo && memo[(i, S)]
    ensures var child := SuccessorOf(successor, i, S);
      && child != -1 && i < |g| && child in g[i] && child in S
      && S - {i} != {} && (child, S - {i}) in memo && memo[(child, S - {i})]
      && Trace(g, memo, successor, i, S) == [i] + Trace(g, memo, successor, child, S - {i})
  {
  }

  /**
   * One iteration of the read-back loop from a successful key: the next key is successful
   * (or the set is used up), the emitted sequence continues from it, and the loop measure drops.
   */
  lemma TraceUnfold(g: Graph, memo: map<Key, bool>, successor: map<Key, nat>, i: nat, S: set<nat>)
    requires WellFormed(g) && MemoOk(g, memo, successor)
    requires S != {} && (i, S) in memo && memo[(i, S)]
    ensures var child := SuccessorOf(successor, i, S);
      var next: nat := if child != -1 then child else i;
      && i < |g|
      && (S - {i} != {} ==> (next, S - {i}) in memo && memo[(next, S - {i})])
      && Trace(g, memo, successor, i, S) == [i] + Trace(g, memo, successor, next, S - {i})
      && (|S - {i}| < |S| || (i !in S && S - {i} == S && next in S))
  {
    if S != {i} {
      TraceStep(g, memo, successor, i, S);
    }
  }

  /** A successor of i put in front of a walk. */
  lemma PrependWalk(g: Graph, i: nat, p: seq<nat>)
    requires i < |g| && IsWalk(g, p) && p[0] in g[i]
    ensures IsWalk(g, [i] + p)
  {
    var q := [i] + p;
    forall a | 0 <= a < |q| - 1
      ensures q[a + 1] in g[q[a]]
    {
      if a > 0 {
        assert q[a + 1] == p[a] && q[a] == p[a - 1];
      }
    }
  }

  /** A vertex that is not in a sequence of distinct vertices put in front of it. */
  lemma PrependDistinct(i: nat, p: seq<nat>)
    requires Distinct(p) && i !in p
    ensures Distinct([i] + p)
  {
    var q := [i] + p;
    forall a, b | 0 <= a < b < |q|
      ensures q[a] != q[b]
    {
      if a == 0 {
        assert q[b] == p[b - 1];
      } else {
        assert q[a] == p[a - 1] && q[b] == p[b - 1];
      }
    }
  }

  /**
   * The read-back from a successful key is a walk from i through exactly S and i; without
   * self-loops and with i in S it visits every vertex of S exactly once.
   */
  lemma {:induction false} TraceIsWalk(g: Graph, memo: map<Key, bool>, successor: map<Key, nat>, i: nat, S: set<nat>)
    requires WellFormed(g) && MemoOk(g, memo, successor)
    requires S != {} && (i, S) in memo && memo[(i, S)]
    ensures var p := Trace(g, memo, successor, i, S);
      && IsWalk(g, p) && p[0] == i
      && (forall x :: x in p <==> x in S || x == i)
      && (NoSelfLoops(g) && i in S ==> Distinct(p))
    decreases |S|, if i in S then 0 else 1
  {
    var p := Trace(g, memo, successor, i, S);
    if S == {i} {
      assert (i, S) !in successor;
      assert S - {i} == {};
      assert Trace(g, memo, successor, i, {}) == [];
      assert p == [i];
    } else {
      TraceStep(g, memo, successor, i, S);
      var child := SuccessorOf(successor, i, S);
      var rest := Trace(g, memo, successor, child, S - {i});
      TraceIsWalk(g, memo, successor, child, S - {i});
      PrependWalk(g, i, rest);
      assert forall x :: x in p <==> x == i || x in rest;
      if NoSelfLoops(g) && i in S {
        assert child != i && child in S - {i};
        PrependDistinct(i, rest);
      }
    }
  }

  /**
   * What the path returned for a graph promises: a walk through every vertex, starting at the
   * least vertex from which the search over all vertices succeeds; without self-loops it visits
   * each vertex exactly once.
   */
  ghost predicate FirstPath(g: Graph, p: seq<nat>)
    requires WellFormed(g)
  {
    && IsWalk(g, p)
    && Succeeds(g, p[0], All(|g|))
    && (forall v :: 0 <= v < p[0] ==> !Succeeds(g, v, All(|g|)))
    && (forall v: nat :: v in p <==> v < |g|)
    && (NoSelfLoops(g) ==> HamPath(g, p, All(|g|)))
  }

  /** Reading back from the first vertex whose search over all vertices succeeds gives such a path. */
  lemma ReadBackIsFirstPath(g: Graph, memo: map<Key, bool>, successor: map<Key, nat>, i: nat)
    requires WellFormed(g) && MemoOk(g, memo, successor) && i < |g|
    requires (i, All(|g|)) in memo && memo[(i, All(|g|))]
    requires forall v :: 0 <= v < i ==> !Succeeds(g, v, All(|g|))
    ensures FirstPath(g, Trace(g, memo, successor, i, All(|g|)))
  {
    TraceIsWalk(g, memo, successor, i, All(|g|));
  }

  /** The graph with the self-loop 0 -> 0 and the edge 0 -> 1. */
  function LoopGraph(): Graph {
    [{0, 1}, {}]
  }

  /** The tables a search leaves on LoopGraph when it tries the self-loop first. */
  function LoopMemo(): map<Key, bool> {
    map[(0, {0, 1}) := true, (0, {1}) := true, (1, {1}) := true]
  }

  function LoopSuccessor(): map<Key, nat> {
    map[(0, {0, 1}) := 0, (0, {1}) := 1]
  }

  /** Those tables are consistent: each recorded key does succeed, through the recorded successor. */
  lemma LoopTablesOk()
    ensures WellFormed(LoopGraph()) && MemoOk(LoopGraph(), LoopMemo(), LoopSuccessor())
  {
    var g := LoopGraph();
    assert Succeeds(g, 1, {1});
    assert {1} - {0} == {1};
    assert Succeeds(g, 0, {1}) by {
      assert 1 in g[0] && 1 in {1} && Succeeds(g, 1, {1} - {0});
    }
    assert {0, 1} - {0} == {1};
    assert Succeeds(g, 0, {0, 1}) by {
      assert 0 in g[0] && 0 in {0, 1} && Succeeds(g, 0, {0, 1} - {0});
    }
    assert {0, 1} != {0} && {1} != {0};
  }

  /**
   * With the self-loop 0 -> 0 and the edge 0 -> 1, a search that tries the self-loop first
   * leaves tables from which the read-back emits vertex 0 twice: [0, 0, 1].
   */
  lemma SelfLoopRepeatsVertex()
    ensures WellFormed(LoopGraph()) && MemoOk(LoopGraph(), LoopMemo(), LoopSuccessor())
    ensures Trace(LoopGraph(), LoopMemo(), LoopSuccessor(), 0, {0, 1}) == [0, 0, 1]
    ensures !Distinct(Trace(LoopGraph(), LoopMemo(), LoopSuccessor(), 0, {0, 1}))
  {
    LoopTablesOk();
    var g, memo, successor := LoopGraph(), LoopMemo(), LoopSuccessor();
    assert {1} - {1} == {};
    assert {0, 1} - {0} == {1} && {1} - {0} == {1};
    assert Trace(g, memo, successor, 1, {1}) == [1];
    assert Trace(g, memo, successor, 0, {1}) == [0, 1];
    var p := Trace(g, memo, successor, 0, {0, 1});
    assert p == [0, 0, 1];
    assert p[0] == p[1];
  }
}
