/** The step lemmas of the strongly-connected-components search: each step keeps Inv. */
module TarjanSteps {
  import opened Graphs
  import opened Components
  import opened Tarjan

  /** The initial state satisfies the invariant, with every vertex undiscovered. */
  lemma InitOk(g: Graph)
    requires WellFormed(g)
    ensures Inv(g, Init(|g|))
    ensures forall u: nat :: u in Unvisited(Init(|g|).num) <==> u < |g|
  {
    var s := Init(|g|);
    forall v | 0 <= v < |g|
      ensures !InSome(s.comps, v)
    {
    }
  }

  // ---- Visit -------------------------------------------------------------------------------

  lemma VisitNumbering(g: Graph, s: TState, v: nat)
    requires Sized(g, s) && Numbering(g, s.num, s.order) && v < |g| && s.num[v] == 0
    ensures Sized(g, Visit(s, v)) && Numbering(g, Visit(s, v).num, Visit(s, v).order)
  {
    VisitOrder(g, s, v);
    VisitIndex(g, s, v);
  }

  /** After the visit of v, the j-th vertex entered still carries number j + 1. */
  lemma VisitOrder(g: Graph, s: TState, v: nat)
    requires Sized(g, s) && Numbering(g, s.num, s.order) && v < |g| && s.num[v] == 0
    ensures var s' := Visit(s, v); forall j :: 0 <= j < |s'.order| ==> s'.order[j] < |g| && s'.num[s'.order[j]] == j + 1
  {
    var s' := Visit(s, v);
    forall j | 0 <= j < |s'.order|
      ensures s'.order[j] < |g| && s'.num[s'.order[j]] == j + 1
    {
      if j < |s.order| {
        assert s.order[j] != v;
      }
    }
  }

  /** After the visit of v, each discovered vertex is entered at the place its number names. */
  lemma VisitIndex(g: Graph, s: TState, v: nat)
    requires Sized(g, s) && Numbering(g, s.num, s.order) && v < |g| && s.num[v] == 0
    ensures var s' := Visit(s, v); forall u :: 0 <= u < |g| && s'.num[u] > 0 ==> s'.order[s'.num[u] - 1] == u
  {
    var s' := Visit(s, v);
    forall u | 0 <= u < |g| && s'.num[u] > 0
      ensures s'.order[s'.num[u] - 1] == u
    {
      if u != v {
        assert s.num[u] > 0 && s'.order[s.num[u] - 1] == s.order[s.num[u] - 1];
      }
    }
  }

  lemma VisitSorted(g: Graph, s: TState, v: nat)
    requires Sized(g, s) && Numbering(g, s.num, s.order) && StackShape(g, s.num, s.on, s.stack, s.comps, s.gray) && v < |g| && s.num[v] == 0 && v !in s.stack
    ensures forall a, b :: 0 <= a < b < |Visit(s, v).stack| ==> Visit(s, v).num[Visit(s, v).stack[a]] < Visit(s, v).num[Visit(s, v).stack[b]]
  {
    var s' := Visit(s, v);
    forall a, b | 0 <= a < b < |s'.stack|
      ensures s'.num[s'.stack[a]] < s'.num[s'.stack[b]]
    {
      assert s'.stack[a] == s.stack[a] && s.stack[a] != v;
      if b < |s.stack| {
        assert s'.stack[b] == s.stack[b] && s.stack[b] != v;
      }
    }
  }

  lemma VisitShape(g: Graph, s: TState, v: nat)
    requires Sized(g, s) && Numbering(g, s.num, s.order) && StackShape(g, s.num, s.on, s.stack, s.comps, s.gray) && v < |g| && s.num[v] == 0
    ensures Sized(g, Visit(s, v)) && StackShape(g, Visit(s, v).num, Visit(s, v).on, Visit(s, v).stack, Visit(s, v).comps, Visit(s, v).gray)
    ensures v !in s.stack && v !in s.gray
  {
    var s' := Visit(s, v);
    assert !InSome(s.comps, v) && v !in s.stack;
    VisitSorted(g, s, v);
    forall u | 0 <= u < |g|
      ensures s'.num[u] > 0 <==> u in s'.stack || InSome(s'.comps, u)
    {
      assert u in s'.stack <==> u in s.stack || u == v;
    }
  }

  lemma VisitLowOld(g: Graph, s: TState, v: nat, x: nat)
    requires Sized(g, s) && LowOk(g, s.num, s.low, s.stack, s.order) && v < |g| && x < |g|
    requires x in s.stack && x != v
    ensures var s' := Visit(s, v);
      && 1 <= s'.low[x] <= s'.num[x] <= |s'.order|
      && s'.order[s'.low[x] - 1] in s'.stack
      && Reachable(g, x, s'.order[s'.low[x] - 1])
  {
    var s' := Visit(s, v);
    assert s'.order[s'.low[x] - 1] == s.order[s.low[x] - 1];
  }

  lemma VisitLow(g: Graph, s: TState, v: nat)
    requires Sized(g, s) && LowOk(g, s.num, s.low, s.stack, s.order) && v < |g| && s.num[v] == 0 && v !in s.stack
    ensures Sized(g, Visit(s, v)) && LowOk(g, Visit(s, v).num, Visit(s, v).low, Visit(s, v).stack, Visit(s, v).order)
  {
    var s' := Visit(s, v);
    ReachableRefl(g, v);
    assert s'.order[s'.low[v] - 1] == v;
    forall x {:trigger s'.low[x]} | x in s'.stack && x < |g|
      ensures && 1 <= s'.low[x] <= s'.num[x] <= |s'.order|
              && s'.order[s'.low[x] - 1] in s'.stack
              && Reachable(g, x, s'.order[s'.low[x] - 1])
    {
      if x != v {
        VisitLowOld(g, s, v, x);
      }
    }
  }

  lemma VisitFinished(g: Graph, s: TState, v: nat)
    requires Sized(g, s) && StackShape(g, s.num, s.on, s.stack, s.comps, s.gray) && FinishedOk(g, s.num, s.low, s.stack, s.gray) && v < |g| && s.num[v] == 0
    ensures Sized(g, Visit(s, v)) && FinishedOk(g, Visit(s, v).num, Visit(s, v).low, Visit(s, v).stack, Visit(s, v).gray)
  {
    var s' := Visit(s, v);
    forall x {:trigger x in s'.gray} | x in s'.stack && x < |g| && x !in s'.gray
      ensures && s'.low[x] < s'.num[x]
              && forall y :: y in g[x] ==> s'.num[y] > 0 && (y in s'.stack ==> s'.low[x] <= s'.num[y])
    {
      assert x in s.stack && x != v;
      forall y | y in g[x]
        ensures s'.num[y] > 0 && (y in s'.stack ==> s'.low[x] <= s'.num[y])
      {
        assert y != v;
      }
    }
  }

  lemma VisitLoop(g: Graph, s: TState, v: nat)
    requires Inv(g, s) && v < |g| && s.num[v] == 0 && v !in s.gray && Inv(g, Visit(s, v))
    ensures DfsLoop(g, s, Visit(s, v), v, {})
  {
    var s' := Visit(s, v);
    assert Frame(g, s, s') by {
      assert s'.order[..|s.order|] == s.order;
    }
    forall u | 0 <= u < |g| && s'.num[u] >= s.c
      ensures Reachable(g, v, u)
    {
      assert u == v;
      ReachableRefl(g, v);
    }
    assert s'.stack[..|s.stack|] == s.stack;
  }

  /** Numbering the next vertex keeps the invariant and opens its search. */
  lemma VisitStep(g: Graph, s: TState, v: nat)
    requires Inv(g, s) && v < |g| && s.num[v] == 0
    ensures Inv(g, Visit(s, v)) && DfsLoop(g, s, Visit(s, v), v, {})
  {
    VisitNumbering(g, s, v);
    VisitShape(g, s, v);
    VisitLow(g, s, v);
    VisitFinished(g, s, v);
    VisitLoop(g, s, v);
  }

  /** Between two states of a search, numbers are only added, so fewer vertices are undiscovered. */
  lemma UnvisitedShrinks(g: Graph, s0: TState, s: TState, x: nat)
    requires Sized(g, s0) && Sized(g, s) && Numbering(g, s0.num, s0.order) && Frame(g, s0, s)
    requires x < |g| && s0.num[x] == 0 && s.num[x] > 0
    ensures Unvisited(s.num) < Unvisited(s0.num) && |Unvisited(s.num)| < |Unvisited(s0.num)|
  {
    assert forall u :: u in Unvisited(s.num) ==> u < |g| && s.num[u] == 0;
    assert x in Unvisited(s0.num) && x !in Unvisited(s.num);
    assert Unvisited(s0.num) == Unvisited(s.num) + (Unvisited(s0.num) - Unvisited(s.num));
  }

  // ---- Lowering the low link of the vertex in progress ---------------------------------------

  lemma LowerLowLow(g: Graph, num: seq<int>, low: seq<int>, stack: seq<nat>, order: seq<nat>, x: nat, val: int, w: nat)
    requires |num| == |g| && |low| == |g| && LowOk(g, num, low, stack, order)
    requires x < |g| && x in stack
    requires val >= low[x] || (w < |g| && 1 <= val <= |order| && order[val - 1] == w && w in stack && Reachable(g, x, w))
    ensures LowOk(g, num, low[x := if val < low[x] then val else low[x]], stack, order)
  {
    var low' := low[x := if val < low[x] then val else low[x]];
    forall z {:trigger low'[z]} | z in stack && z < |g|
      ensures && 1 <= low'[z] <= num[z] <= |order|
              && order[low'[z] - 1] in stack
              && Reachable(g, z, order[low'[z] - 1])
    {
      if z == x && val < low[x] {
        assert low'[z] == val;
      } else {
        assert low'[z] == low[z];
      }
    }
  }

  lemma LowerLowFinished(g: Graph, num: seq<int>, low: seq<int>, stack: seq<nat>, gray: set<nat>, x: nat, val: int)
    requires WellFormed(g) && |num| == |g| && |low| == |g| && FinishedOk(g, num, low, stack, gray)
    requires x < |g| && x in gray
    ensures FinishedOk(g, num, low[x := if val < low[x] then val else low[x]], stack, gray)
  {
  }

  /**
   * Lowering the low link of the vertex in progress x to val keeps the invariant when val is at
   * least x's low link, or numbers a stacked vertex x reaches.
   */
  lemma LowerLowOk(g: Graph, s: TState, x: nat, val: int, w: nat)
    requires Inv(g, s) && x < |g| && x in s.stack && x in s.gray
    requires val >= s.low[x] || (w < |g| && val == s.num[w] && 1 <= val && w in s.stack && Reachable(g, x, w))
    ensures Inv(g, LowerLow(s, x, val))
  {
    if val < s.low[x] {
      assert s.order[s.num[w] - 1] == w;
    }
    LowerLowLow(g, s.num, s.low, s.stack, s.order, x, val, w);
    LowerLowFinished(g, s.num, s.low, s.stack, s.gray, x, val);
  }

  /** Lowering the low link of x keeps the search of x on track. */
  lemma LowerLowLoop(g: Graph, s0: TState, s: TState, x: nat, val: int, explored: set<nat>)
    requires Sized(g, s0) && Sized(g, s) && DfsLoop(g, s0, s, x, explored)
    requires StackShape(g, s.num, s.on, s.stack, s.comps, s.gray)
    ensures Sized(g, LowerLow(s, x, val)) && DfsLoop(g, s0, LowerLow(s, x, val), x, explored)
  {
    var s' := LowerLow(s, x, val);
    forall k | |s0.stack| < k < |s'.stack| && s'.stack[k] < |g|
      ensures s'.low[x] <= s'.low[s'.stack[k]]
    {
      assert s.num[s.stack[|s0.stack|]] < s.num[s.stack[k]];
    }
  }

  /** A successor already on the stack lowers the low link to its number, keeping the invariant... */
  lemma BackInv(g: Graph, s0: TState, s: TState, x: nat, y: nat, explored: set<nat>)
    requires Sized(g, s0) && Inv(g, s) && DfsLoop(g, s0, s, x, explored)
    requires y in g[x] && s.num[y] > 0 && s.on[y]
    ensures Inv(g, LowerLow(s, x, s.num[y]))
  {
    assert y < |g| && y in s.stack;
    assert x in s.stack && x in s.gray;
    ReachableEdge(g, x, y);
    LowerLowOk(g, s, x, s.num[y], y);
  }

  /** ...and the search of x, with y explored. */
  lemma BackLoop(g: Graph, s0: TState, s: TState, x: nat, y: nat, explored: set<nat>)
    requires Sized(g, s0) && Sized(g, s) && StackShape(g, s.num, s.on, s.stack, s.comps, s.gray)
    requires DfsLoop(g, s0, s, x, explored)
    requires y in g[x] && s.num[y] > 0
    ensures DfsLoop(g, s0, LowerLow(s, x, s.num[y]), x, explored + {y})
  {
    LowerLowLoop(g, s0, s, x, s.num[y], explored);
  }

  /** A successor that is discovered and no longer stacked changes nothing. */
  lemma SkipStep(g: Graph, s0: TState, s: TState, x: nat, y: nat, explored: set<nat>)
    requires Sized(g, s0) && Sized(g, s) && DfsLoop(g, s0, s, x, explored)
    requires y in g[x] && s.num[y] > 0 && y !in s.stack
    ensures DfsLoop(g, s0, s, x, explored + {y})
  {
  }

  // ---- Returning from the search of an undiscovered successor -------------------------------

  /** The situation after the search of x recursed into its undiscovered successor y (s1 to s2). */
  ghost predicate AfterChild(g: Graph, s0: TState, s1: TState, s2: TState, x: nat, y: nat, explored: set<nat>) {
    && Sized(g, s0) && Sized(g, s1) && Sized(g, s2)
    && DfsLoop(g, s0, s1, x, explored)
    && y in g[x] && s1.num[y] == 0
    && DfsPost(g, s1, s2, y)
  }

  /** AfterChild, with the numbering and stack shape of both states. */
  ghost predicate ChildCtx(g: Graph, s0: TState, s1: TState, s2: TState, x: nat, y: nat, explored: set<nat>) {
    && AfterChild(g, s0, s1, s2, x, y, explored)
    && Numbering(g, s1.num, s1.order) && Numbering(g, s2.num, s2.order)
    && StackShape(g, s1.num, s1.on, s1.stack, s1.comps, s1.gray)
    && StackShape(g, s2.num, s2.on, s2.stack, s2.comps, s2.gray)
  }

  /*
   * The lemmas below state their facts under the hypothesis ChildCtx(...) ==> rather than as a
   * precondition, so that a caller holding ChildCtx uses them without re-proving its parts.
   */

  /** x is where the search of x left it, with its number and low link untouched. */
  lemma ChildKeepsX(g: Graph, s0: TState, s1: TState, s2: TState, x: nat, y: nat, explored: set<nat>)
    ensures AfterChild(g, s0, s1, s2, x, y, explored) ==>
      && |s2.stack| > |s0.stack| && s2.stack[..|s0.stack|] == s0.stack && s2.stack[|s0.stack|] == x
      && x in s2.stack && x in s2.gray && s2.gray == s0.gray + {x}
      && s2.num[x] == s1.num[x] == s0.c && s2.low[x] == s1.low[x]
  {
    if AfterChild(g, s0, s1, s2, x, y, explored) {
      assert s2.stack[..|s1.stack|] == s1.stack;
      assert s2.stack[|s0.stack|] == s1.stack[|s0.stack|];
      assert s2.stack[..|s0.stack|] == s1.stack[..|s0.stack|];
    }
  }

  /** The vertices pushed by the search of y were all discovered during it. */
  lemma ChildPushesNew(g: Graph, s1: TState, s2: TState, y: nat)
    requires Sized(g, s1) && Sized(g, s2) && DfsPost(g, s1, s2, y)
    requires StackShape(g, s2.num, s2.on, s2.stack, s2.comps, s2.gray)
    ensures forall k :: |s1.stack| <= k < |s2.stack| ==> s2.num[s2.stack[k]] >= s1.c
  {
    forall k | |s1.stack| <= k < |s2.stack|
      ensures s2.num[s2.stack[k]] >= s1.c
    {
      if k > |s1.stack| {
        assert s2.num[s2.stack[|s1.stack|]] < s2.num[s2.stack[k]];
      }
    }
  }

  /** The low link y hands back to x numbers a stacked vertex x reaches, or does not lower x's. */
  lemma ChildTarget(g: Graph, s0: TState, s1: TState, s2: TState, x: nat, y: nat, explored: set<nat>) returns (w: nat)
    requires AfterChild(g, s0, s1, s2, x, y, explored)
    requires Numbering(g, s1.num, s1.order) && LowOk(g, s1.num, s1.low, s1.stack, s1.order)
    requires Numbering(g, s2.num, s2.order) && LowOk(g, s2.num, s2.low, s2.stack, s2.order)
    ensures s2.low[y] >= s2.low[x] || (w < |g| && s2.low[y] == s2.num[w] && 1 <= s2.low[y] && w in s2.stack && Reachable(g, x, w))
  {
    ChildKeepsX(g, s0, s1, s2, x, y, explored);
    w := 0;
    assert x in s1.stack;
    assert s1.low[x] <= s1.num[x] <= |s1.order|;
    if s2.low[y] < s2.num[y] {
      assert y == s2.stack[|s1.stack|] && y in s2.stack;
      w := s2.order[s2.low[y] - 1];
      assert s2.num[w] == s2.low[y];
      ReachableEdge(g, x, y);
      ReachableTrans(g, x, y, w);
    }
  }

  /** Returning from y and lowering x's low link to y's keeps the invariant. */
  lemma ChildInv(g: Graph, s0: TState, s1: TState, s2: TState, x: nat, y: nat, explored: set<nat>)
    requires AfterChild(g, s0, s1, s2, x, y, explored)
    requires Inv(g, s1) && Inv(g, s2)
    ensures Inv(g, LowerLow(s2, x, s2.low[y]))
  {
    ChildKeepsX(g, s0, s1, s2, x, y, explored);
    var w := ChildTarget(g, s0, s1, s2, x, y, explored);
    LowerLowOk(g, s2, x, s2.low[y], w);
  }

  /** Composing the frames of x's search so far and of y's search. */
  lemma ChildFrame(g: Graph, s0: TState, s1: TState, s2: TState, x: nat, y: nat, explored: set<nat>)
    ensures AfterChild(g, s0, s1, s2, x, y, explored) ==>
      Sized(g, LowerLow(s2, x, s2.low[y])) && Frame(g, s0, LowerLow(s2, x, s2.low[y]))
  {
    if AfterChild(g, s0, s1, s2, x, y, explored) {
      var s3 := LowerLow(s2, x, s2.low[y]);
      assert s3.order[..|s0.order|] == s2.order[..|s1.order|][..|s0.order|];
      forall u {:trigger s3.low[u]} | 0 <= u < |g| && s0.num[u] > 0
        ensures s3.low[u] == s0.low[u]
      {
        assert u != x && s1.num[u] > 0;
      }
      forall u {:trigger s3.num[u]} | 0 <= u < |g| && s0.num[u] > 0
        ensures s3.num[u] == s0.num[u]
      {
        assert s1.num[u] > 0;
      }
    }
  }

  /** x reaches everything discovered since its search began: directly, or through y. */
  lemma ChildReaches(g: Graph, s0: TState, s1: TState, s2: TState, x: nat, y: nat, explored: set<nat>)
    ensures AfterChild(g, s0, s1, s2, x, y, explored) && Numbering(g, s1.num, s1.order) && Numbering(g, s2.num, s2.order) ==> ReachesNew(g, s0, s2, x)
  {
    if AfterChild(g, s0, s1, s2, x, y, explored) && Numbering(g, s1.num, s1.order) && Numbering(g, s2.num, s2.order) {
      forall u | 0 <= u < |g| && s2.num[u] >= s0.c
        ensures Reachable(g, x, u)
      {
        if s2.num[u] >= s1.c {
          ReachableEdge(g, x, y);
          ReachableTrans(g, x, y, u);
        } else {
          var j := s2.num[u] - 1;
          assert s2.order[j] == u;
          assert s2.order[..|s1.order|] == s1.order;
          assert s1.order[j] == u;
          assert s1.num[u] == s2.num[u];
        }
      }
    }
  }

  /** The low links above x stay no smaller than x's. */
  lemma ChildBound(g: Graph, s0: TState, s1: TState, s2: TState, x: nat, y: nat, explored: set<nat>)
    ensures AfterChild(g, s0, s1, s2, x, y, explored) && StackSorted(s1.num, s1.stack) && StackSorted(s2.num, s2.stack) ==>
      var s3 := LowerLow(s2, x, s2.low[y]);
      forall k {:trigger s3.low[s3.stack[k]]} :: |s0.stack| < k < |s3.stack| && s3.stack[k] < |g| ==> s3.low[x] <= s3.low[s3.stack[k]]
  {
    if AfterChild(g, s0, s1, s2, x, y, explored) && StackSorted(s1.num, s1.stack) && StackSorted(s2.num, s2.stack) {
      ChildKeepsX(g, s0, s1, s2, x, y, explored);
      var s3 := LowerLow(s2, x, s2.low[y]);
      forall k | |s0.stack| < k < |s3.stack| && s3.stack[k] < |g|
        ensures s3.low[x] <= s3.low[s3.stack[k]]
      {
        var z := s2.stack[k];
        assert s2.num[s2.stack[|s0.stack|]] < s2.num[z];
        assert z != x;
        if k < |s1.stack| {
          assert z == s1.stack[k] && s1.stack[|s0.stack|] == x;
          assert s1.num[x] < s1.num[z];
          assert s1.low[x] <= s1.low[z];
        }
      }
    }
  }

  /** ChildBound, under ChildCtx. */
  lemma ChildCtxBound(g: Graph, s0: TState, s1: TState, s2: TState, x: nat, y: nat, explored: set<nat>)
    requires ChildCtx(g, s0, s1, s2, x, y, explored)
    ensures var s3 := LowerLow(s2, x, s2.low[y]);
      forall k {:trigger s3.low[s3.stack[k]]} :: |s0.stack| < k < |s3.stack| && s3.stack[k] < |g| ==> s3.low[x] <= s3.low[s3.stack[k]]
  {
    assert StackSorted(s1.num, s1.stack) && StackSorted(s2.num, s2.stack);
    ChildBound(g, s0, s1, s2, x, y, explored);
  }

  /** Every explored successor of x is discovered and, while stacked, bounds x's low link from above. */
  ghost predicate ExploredBound(s: TState, x: nat, explored: set<nat>) {
    && x < |s.low|
    && forall z :: z in explored ==> z < |s.num| && s.num[z] > 0 && (z in s.stack ==> s.low[x] <= s.num[z])
  }

  /**
   * ExploredBound carries over the search of a successor y of x, from s1 to s2, and then covers y
   * once x's low link has been lowered to y's.
   */
  lemma ExploredCarry(g: Graph, s1: TState, s2: TState, x: nat, y: nat, explored: set<nat>)
    requires Sized(g, s1) && Sized(g, s2) && Frame(g, s1, s2) && Numbering(g, s1.num, s1.order)
    requires x < |g| && s1.num[x] > 0 && explored <= g[x]
    requires forall z :: z in explored ==> s1.num[z] > 0 && (z in s1.stack ==> s1.low[x] <= s1.num[z])
    requires |s2.stack| >= |s1.stack| && s2.stack[..|s1.stack|] == s1.stack
    requires forall k :: |s1.stack| <= k < |s2.stack| ==> s2.stack[k] < |g| && s2.num[s2.stack[k]] >= s1.c
    requires y < |g| && s2.num[y] > 0 && s2.low[y] <= s2.num[y]
    ensures ExploredBound(LowerLow(s2, x, s2.low[y]), x, explored + {y})
  {
    var s3 := LowerLow(s2, x, s2.low[y]);
    forall z | z in explored + {y}
      ensures z < |s3.num| && s3.num[z] > 0 && (z in s3.stack ==> s3.low[x] <= s3.num[z])
    {
      if z != y {
        assert z < |g| && s1.num[z] <= |s1.order|;
        if z in s3.stack {
          var k :| 0 <= k < |s2.stack| && s2.stack[k] == z;
          assert s2.num[s2.stack[k]] < s1.c;
          assert k < |s1.stack| && s1.stack[k] == z;
        }
      }
    }
  }

  /** Returning from y keeps the search of x on track, with y explored. */
  lemma ChildLoop(g: Graph, s0: TState, s1: TState, s2: TState, x: nat, y: nat, explored: set<nat>)
    requires ChildCtx(g, s0, s1, s2, x, y, explored)
    ensures Sized(g, LowerLow(s2, x, s2.low[y])) && DfsLoop(g, s0, LowerLow(s2, x, s2.low[y]), x, explored + {y})
  {
    var s3 := LowerLow(s2, x, s2.low[y]);
    ChildFrameCtx(g, s0, s1, s2, x, y, explored);
    ChildPlaceCtx(g, s0, s1, s2, x, y, explored);
    ChildReachesCtx(g, s0, s1, s2, x, y, explored);
    ChildExploredCtx(g, s0, s1, s2, x, y, explored);
    ChildCtxBound(g, s0, s1, s2, x, y, explored);
    DfsLoopIntro(g, s0, s3, x, explored + {y});
  }

  /** ChildFrame, under ChildCtx. */
  lemma ChildFrameCtx(g: Graph, s0: TState, s1: TState, s2: TState, x: nat, y: nat, explored: set<nat>)
    requires ChildCtx(g, s0, s1, s2, x, y, explored)
    ensures var s3 := LowerLow(s2, x, s2.low[y]);
      && Sized(g, s0) && Sized(g, s3) && Frame(g, s0, s3)
  {
    ChildFrame(g, s0, s1, s2, x, y, explored);
  }

  /** ChildKeepsX, under ChildCtx: x keeps its place, number and progress mark, and y is a successor. */
  lemma ChildPlaceCtx(g: Graph, s0: TState, s1: TState, s2: TState, x: nat, y: nat, explored: set<nat>)
    requires ChildCtx(g, s0, s1, s2, x, y, explored)
    ensures var s3 := LowerLow(s2, x, s2.low[y]);
      && x < |g| && s0.num[x] == 0 && s3.num[x] == s0.c
      && s3.gray == s0.gray + {x}
      && |s3.stack| > |s0.stack| && s3.stack[..|s0.stack|] == s0.stack && s3.stack[|s0.stack|] == x
      && explored + {y} <= g[x]
  {
    ChildKeepsX(g, s0, s1, s2, x, y, explored);
  }

  /** ChildReaches, under ChildCtx, for the lowered state. */
  lemma ChildReachesCtx(g: Graph, s0: TState, s1: TState, s2: TState, x: nat, y: nat, explored: set<nat>)
    requires ChildCtx(g, s0, s1, s2, x, y, explored)
    ensures Sized(g, LowerLow(s2, x, s2.low[y])) && ReachesNew(g, s0, LowerLow(s2, x, s2.low[y]), x)
  {
    ChildReaches(g, s0, s1, s2, x, y, explored);
  }

  /** ExploredCarry, under ChildCtx. */
  lemma ChildExploredCtx(g: Graph, s0: TState, s1: TState, s2: TState, x: nat, y: nat, explored: set<nat>)
    requires ChildCtx(g, s0, s1, s2, x, y, explored)
    ensures x < |s2.low| && y < |s2.low| && ExploredBound(LowerLow(s2, x, s2.low[y]), x, explored + {y})
  {
    ChildKeepsX(g, s0, s1, s2, x, y, explored);
    ChildPushesNew(g, s1, s2, y);
    ExploredCarry(g, s1, s2, x, y, explored);
  }

  /** DfsLoop from its parts. */
  lemma DfsLoopIntro(g: Graph, s0: TState, s: TState, x: nat, explored: set<nat>)
    requires Sized(g, s0) && Sized(g, s) && Frame(g, s0, s)
    requires x < |g| && s0.num[x] == 0 && s.num[x] == s0.c
    requires s.gray == s0.gray + {x}
    requires |s.stack| > |s0.stack| && s.stack[..|s0.stack|] == s0.stack && s.stack[|s0.stack|] == x
    requires forall k {:trigger s.low[s.stack[k]]} :: |s0.stack| < k < |s.stack| && s.stack[k] < |g| ==> s.low[x] <= s.low[s.stack[k]]
    requires ReachesNew(g, s0, s, x) && explored <= g[x]
    requires ExploredBound(s, x, explored)
    ensures DfsLoop(g, s0, s, x, explored)
  {
  }

  // ---- Leaving the search of a vertex that is not a root -------------------------------------

  /** Declaring x finished keeps FinishedOk when x has what a finished vertex needs. */
  lemma FinishFinished(g: Graph, num: seq<int>, low: seq<int>, stack: seq<nat>, gray: set<nat>, x: nat)
    requires WellFormed(g) && |num| == |g| && |low| == |g| && FinishedOk(g, num, low, stack, gray)
    requires x < |g| && low[x] < num[x]
    requires forall y :: y in g[x] ==> num[y] > 0 && (y in stack ==> low[x] <= num[y])
    ensures FinishedOk(g, num, low, stack, gray - {x})
  {
    forall z {:trigger z in gray - {x}} | z in stack && z < |g| && z !in gray - {x}
      ensures && low[z] < num[z]
              && forall y :: y in g[z] ==> num[y] > 0 && (y in stack ==> low[z] <= num[y])
    {
      if z != x {
        assert z !in gray;
      }
    }
  }

  /** x, all its successors explored and its low link below its number, stays on the stack finished. */
  lemma FinishInv(g: Graph, s0: TState, s: TState, x: nat)
    requires Sized(g, s0) && Inv(g, s) && x < |g| && DfsLoop(g, s0, s, x, g[x]) && s.low[x] < s.num[x]
    ensures Inv(g, Finish(s, x))
  {
    FinishFinished(g, s.num, s.low, s.stack, s.gray, x);
  }

  lemma FinishPost(g: Graph, s0: TState, s: TState, x: nat)
    requires Sized(g, s0) && StackShape(g, s0.num, s0.on, s0.stack, s0.comps, s0.gray)
    requires Sized(g, s) && x < |g| && DfsLoop(g, s0, s, x, g[x]) && s.low[x] < s.num[x]
    ensures Sized(g, Finish(s, x)) && DfsPost(g, s0, Finish(s, x), x)
  {
    assert x !in s0.stack;
  }

  // ---- Leaving the search of a root: emitting its component ----------------------------------

  /**
   * The search of x is complete and x is the root of its component: all successors explored,
   * low link equal to number.
   */
  ghost predicate AtRoot(g: Graph, s0: TState, s: TState, x: nat) {
    && Sized(g, s0) && Sized(g, s)
    && x < |g| && DfsLoop(g, s0, s, x, g[x]) && s.low[x] == s.num[x]
  }

  /** A sorted stack: a vertex numbered at least as high as the one at index k lies at or above k. */
  lemma AboveIndex(num: seq<int>, stack: seq<nat>, k: nat, w: nat) returns (i: nat)
    requires StackSorted(num, stack) && k < |stack| && w < |num| && w in stack && num[w] >= num[stack[k]]
    ensures k <= i < |stack| && stack[i] == w
  {
    i :| 0 <= i < |stack| && stack[i] == w;
  }

  /** Above the root, the stack holds only finished vertices. */
  lemma NoneInProgressAbove(g: Graph, s0: TState, s: TState, x: nat)
    requires Sized(g, s0) && (forall v {:trigger v in s0.gray} :: v in s0.gray ==> v in s0.stack)
    requires Sized(g, s) && StackShape(g, s.num, s.on, s.stack, s.comps, s.gray)
    requires x < |g| && DfsLoop(g, s0, s, x, g[x])
    ensures forall j :: |s0.stack| < j < |s.stack| ==> s.stack[j] !in s.gray
  {
    var k := |s0.stack|;
    forall j | k < j < |s.stack|
      ensures s.stack[j] !in s.gray
    {
      var z := s.stack[j];
      assert s.num[s.stack[k]] < s.num[z];
      forall i | 0 <= i < k
        ensures s.stack[..k][i] != z
      {
        assert s.num[s.stack[i]] < s.num[s.stack[j]];
      }
      assert z !in s0.stack;
      assert z !in s0.gray;
    }
  }

  /** What the stack above a root looks like once the root's search is complete. */
  ghost predicate RootStack(g: Graph, s0: TState, s: TState, x: nat) {
    && AtRoot(g, s0, s, x)
    && Numbering(g, s.num, s.order) && StackShape(g, s.num, s.on, s.stack, s.comps, s.gray)
    && LowOk(g, s.num, s.low, s.stack, s.order) && FinishedOk(g, s.num, s.low, s.stack, s.gray)
    && (forall i {:trigger s.stack[i] in s.gray} :: |s0.stack| < i < |s.stack| ==> s.stack[i] !in s.gray)
  }

  /** A vertex strictly above the root reaches a lower-numbered vertex still above or at the root. */
  lemma LowChainStep(g: Graph, s0: TState, s: TState, x: nat, j: nat) returns (i: nat)
    requires RootStack(g, s0, s, x) && |s0.stack| < j < |s.stack|
    ensures |s0.stack| <= i < |s.stack| && s.num[s.stack[i]] < s.num[s.stack[j]]
    ensures Reachable(g, s.stack[j], s.stack[i])
  {
    var z := s.stack[j];
    assert z < |g| && z in s.stack && z !in s.gray;
    assert StackSorted(s.num, s.stack) && s.num[s.stack[|s0.stack|]] <= s.low[z] < s.num[z];
    i := LowLinkBelow(g, s, |s0.stack|, j);
  }

  /**
   * A stacked vertex whose low link lies between the number of the vertex at index k and its
   * own number reaches a lower-numbered vertex at or above k.
   */
  lemma LowLinkBelow(g: Graph, s: TState, k: nat, j: nat) returns (i: nat)
    requires Sized(g, s) && Numbering(g, s.num, s.order) && LowOk(g, s.num, s.low, s.stack, s.order)
    requires StackSorted(s.num, s.stack) && k < j < |s.stack|
    requires s.num[s.stack[k]] <= s.low[s.stack[j]] < s.num[s.stack[j]]
    ensures k <= i < |s.stack| && s.num[s.stack[i]] < s.num[s.stack[j]]
    ensures Reachable(g, s.stack[j], s.stack[i])
  {
    var z := s.stack[j];
    var w := s.order[s.low[z] - 1];
    assert s.num[w] == s.low[z];
    i := AboveIndex(s.num, s.stack, k, w);
  }

  /** A sorted stack: a vertex numbered lower than the one at index k lies below k. */
  lemma BelowIndex(num: seq<int>, stack: seq<nat>, k: nat, w: nat)
    requires StackSorted(num, stack) && k < |stack| && w < |num| && w in stack && num[w] < num[stack[k]]
    ensures w in stack[..k]
  {
    var i :| 0 <= i < |stack| && stack[i] == w;
    assert stack[..k][i] == w;
  }

  /** Every vertex above the root on the stack reaches the root, through its low-link chain. */
  lemma {:induction false} AboveReachesRoot(g: Graph, s0: TState, s: TState, x: nat, j: nat)
    requires RootStack(g, s0, s, x) && |s0.stack| <= j < |s.stack|
    ensures Reachable(g, s.stack[j], x)
    decreases s.num[s.stack[j]]
  {
    if j == |s0.stack| {
      ReachableRefl(g, x);
    } else {
      var i := LowChainStep(g, s0, s, x, j);
      AboveReachesRoot(g, s0, s, x, i);
      ReachableTrans(g, s.stack[j], s.stack[i], x);
    }
  }

  /** A member of a suffix of xs sits at an index of xs inside that suffix. */
  lemma SuffixIndex(xs: seq<nat>, k: nat, z: nat) returns (i: nat)
    requires k <= |xs| && z in xs[k..]
    ensures k <= i < |xs| && xs[i] == z
  {
    var j :| 0 <= j < |xs[k..]| && xs[k..][j] == z;
    i := k + j;
  }

  /** The root reaches every vertex above it on the stack: they were all discovered in its search. */
  lemma RootReachesAbove(g: Graph, s0: TState, s: TState, x: nat, z: nat)
    requires AtRoot(g, s0, s, x) && StackShape(g, s.num, s.on, s.stack, s.comps, s.gray)
    requires z in s.stack[|s0.stack|..]
    ensures Reachable(g, x, z)
  {
    var k := |s0.stack|;
    var i := SuffixIndex(s.stack, k, z);
    if i > k {
      assert s.num[s.stack[k]] < s.num[z];
    }
  }

  /** Whatever lies in an emitted component and is mutually reachable with x puts x there too. */
  lemma OtherComponent(g: Graph, comps: seq<seq<nat>>, x: nat, z: nat)
    requires CompsOk(g, comps) && Mutual(g, x, z)
    ensures InSome(comps, z) ==> InSome(comps, x)
  {
    if InSome(comps, z) {
      var i :| 0 <= i < |comps| && z in comps[i];
      var r := comps[i][|comps[i]| - 1];
      assert Mutual(g, r, z);
      MutualSymm(g, x, z);
      MutualTrans(g, r, z, x);
      assert x in comps[i];
    }
  }

  /** What RootClosed needs: x is the root, the stack is well shaped, the emitted components correct. */
  ghost predicate ClosedCtx(g: Graph, s0: TState, s: TState, x: nat) {
    && AtRoot(g, s0, s, x)
    && StackShape(g, s.num, s.on, s.stack, s.comps, s.gray) && FinishedOk(g, s.num, s.low, s.stack, s.gray)
    && CompsOk(g, s.comps)
    && (forall i :: |s0.stack| < i < |s.stack| ==> s.stack[i] !in s.gray)
  }

  /** No edge leaves the stack above the root towards a vertex mutually reachable with the root. */
  lemma RootClosed(g: Graph, s0: TState, s: TState, x: nat, C: set<nat>)
    requires ClosedCtx(g, s0, s, x)
    requires C == set z | z in s.stack[|s0.stack|..]
    ensures forall z, z' :: z in C && z < |g| && z' in g[z] && Mutual(g, x, z') ==> z' in C
  {
    var k := |s0.stack|;
    forall z, z' | z in C && z < |g| && z' in g[z] && Mutual(g, x, z')
      ensures z' in C
    {
      var j :| 0 <= j < |s.stack[k..]| && s.stack[k..][j] == z;
      assert s.stack[k + j] == z;
      var i := RootClosedAt(g, s0, s, x, k + j, z');
      assert s.stack[k..][i - k] == z';
    }
  }

  /** The successor z' of the vertex at index j above the root, mutually reachable with the root, lies above it too. */
  lemma RootClosedAt(g: Graph, s0: TState, s: TState, x: nat, j: nat, z': nat) returns (i: nat)
    requires ClosedCtx(g, s0, s, x)
    requires |s0.stack| <= j < |s.stack| && s.stack[j] < |g| && z' in g[s.stack[j]] && Mutual(g, x, z')
    ensures |s0.stack| <= i < |s.stack| && s.stack[i] == z'
  {
    var k := |s0.stack|;
    var z := s.stack[j];
    assert z' < |g|;
    if j > k {
      assert z !in s.gray;
      assert s.low[x] <= s.low[z];
    }
    assert s.num[z'] > 0;
    OtherComponent(g, s.comps, x, z');
    assert z' in s.stack;
    assert s.low[x] <= s.num[z'];
    assert StackSorted(s.num, s.stack);
    i := AboveIndex(s.num, s.stack, k, z');
  }

  lemma ReverseHas(xs: seq<nat>, v: nat)
    ensures v in Reverse(xs) <==> v in xs
  {
    var r := Reverse(xs);
    if v in xs {
      var i :| 0 <= i < |xs| && xs[i] == v;
      assert r[|xs| - 1 - i] == v;
    }
    if v in r {
      var i :| 0 <= i < |r| && r[i] == v;
      assert xs[|xs| - 1 - i] == v;
    }
  }

  lemma InSomeSnoc(comps: seq<seq<nat>>, C: seq<nat>, v: nat)
    ensures InSome(comps + [C], v) <==> InSome(comps, v) || v in C
  {
    var comps' := comps + [C];
    if InSome(comps, v) {
      var i :| 0 <= i < |comps| && v in comps[i];
      assert comps'[i] == comps[i];
    }
    if v in C {
      assert comps'[|comps|] == C;
    }
    if InSome(comps', v) {
      var i :| 0 <= i < |comps'| && v in comps'[i];
      if i < |comps| {
        assert comps'[i] == comps[i];
      }
    }
  }

  /** The stack's vertices have numbers, increasing from bottom to top. */
  ghost predicate StackSorted(num: seq<int>, stack: seq<nat>) {
    && (forall i :: 0 <= i < |stack| ==> stack[i] < |num|)
    && (forall a, b :: 0 <= a < b < |stack| ==> num[stack[a]] < num[stack[b]])
  }

  /** On a sorted stack, a vertex lies either below index k or at or above it, never both. */
  lemma StackSplit(num: seq<int>, stack: seq<nat>, k: nat, v: nat)
    requires k <= |stack| && StackSorted(num, stack)
    ensures v in stack <==> v in stack[..k] || v in stack[k..]
    ensures !(v in stack[..k] && v in stack[k..])
  {
    if v in stack {
      var i :| 0 <= i < |stack| && stack[i] == v;
      if i < k {
        assert stack[..k][i] == v;
      } else {
        assert stack[k..][i - k] == v;
      }
    }
    if v in stack[..k] {
      var i :| 0 <= i < k && stack[..k][i] == v;
      assert stack[i] == v;
      forall j | 0 <= j < |stack| - k
        ensures stack[k..][j] != v
      {
        assert num[stack[i]] < num[stack[k + j]];
      }
    }
    assert stack == stack[..k] + stack[k..];
  }

  /** Popping the root's part of the stack into a component keeps the stack's shape. */
  lemma EmitShape(g: Graph, s0: TState, s: TState, x: nat)
    requires AtRoot(g, s0, s, x) && (forall v {:trigger v in s0.gray} :: v in s0.gray ==> v in s0.stack)
    requires StackShape(g, s.num, s.on, s.stack, s.comps, s.gray)
    ensures Sized(g, Emit(s, |s0.stack|))
    ensures var s' := Emit(s, |s0.stack|); StackShape(g, s'.num, s'.on, s'.stack, s'.comps, s'.gray)
  {
    var k := |s0.stack|;
    var s' := Emit(s, k);
    var C := s.stack[k..];
    assert StackSorted(s.num, s.stack);
    assert x in C by {
      assert C[0] == x;
    }
    forall v | 0 <= v < |g|
      ensures (s'.on[v] <==> v in s'.stack)
      ensures (s'.num[v] > 0 <==> v in s'.stack || InSome(s'.comps, v))
    {
      StackSplit(s.num, s.stack, k, v);
      ReverseHas(C, v);
      InSomeSnoc(s.comps, Reverse(C), v);
    }
    forall v | v in s'.stack
      ensures !InSome(s'.comps, v)
    {
      StackSplit(s.num, s.stack, k, v);
      ReverseHas(C, v);
      InSomeSnoc(s.comps, Reverse(C), v);
    }
    forall v {:trigger v in s'.gray} | v in s'.gray
      ensures v in s'.stack
    {
      assert v in s0.gray;
    }
  }

  /** Below the root, low links name vertices below the root, so they survive the pop. */
  lemma EmitLow(g: Graph, s0: TState, s: TState, x: nat)
    requires AtRoot(g, s0, s, x)
    requires Numbering(g, s.num, s.order) && StackShape(g, s.num, s.on, s.stack, s.comps, s.gray)
    requires LowOk(g, s.num, s.low, s.stack, s.order)
    ensures LowOk(g, s.num, s.low, s.stack[..|s0.stack|], s.order)
  {
    var k := |s0.stack|;
    assert StackSorted(s.num, s.stack);
    forall z {:trigger s.low[z]} | z in s.stack[..k] && z < |g|
      ensures && 1 <= s.low[z] <= s.num[z] <= |s.order|
              && s.order[s.low[z] - 1] in s.stack[..k]
              && Reachable(g, z, s.order[s.low[z] - 1])
    {
      StackSplit(s.num, s.stack, k, z);
      EmitLowAt(g, s, k, z);
    }
  }

  /** A vertex below index k on a sorted stack has its low link naming a vertex below k. */
  lemma EmitLowAt(g: Graph, s: TState, k: nat, z: nat)
    requires Sized(g, s) && Numbering(g, s.num, s.order) && LowOk(g, s.num, s.low, s.stack, s.order)
    requires StackSorted(s.num, s.stack) && k < |s.stack| && z < |g| && z in s.stack[..k]
    ensures 1 <= s.low[z] <= s.num[z] <= |s.order| && s.order[s.low[z] - 1] in s.stack[..k]
  {
    var i :| 0 <= i < k && s.stack[..k][i] == z;
    assert s.stack[i] == z;
    assert s.num[z] < s.num[s.stack[k]];
    var w := s.order[s.low[z] - 1];
    assert s.num[w] == s.low[z];
    BelowIndex(s.num, s.stack, k, w);
  }

  /** The finished vertices below the root keep what they had. */
  lemma EmitFinished(g: Graph, s0: TState, s: TState, x: nat)
    requires AtRoot(g, s0, s, x)
    requires StackShape(g, s.num, s.on, s.stack, s.comps, s.gray) && FinishedOk(g, s.num, s.low, s.stack, s.gray)
    ensures FinishedOk(g, s.num, s.low, s.stack[..|s0.stack|], s.gray - {x})
  {
    var k := |s0.stack|;
    assert s.stack[k..][0] == x;
    assert StackSorted(s.num, s.stack);
    forall z {:trigger z in s.gray - {x}} | z in s.stack[..k] && z < |g| && z !in s.gray - {x}
      ensures && s.low[z] < s.num[z]
              && forall y :: y in g[z] ==> s.num[y] > 0 && (y in s.stack[..k] ==> s.low[z] <= s.num[y])
    {
      StackSplit(s.num, s.stack, k, z);
      assert z in s.stack && z !in s.gray;
      forall y | y in g[z] && y in s.stack[..k]
        ensures y in s.stack
      {
        StackSplit(s.num, s.stack, k, y);
      }
    }
  }

  /** Above-root vertices are mutually reachable with the root. */
  lemma AboveIsMutual(g: Graph, s0: TState, s: TState, x: nat, z: nat)
    requires RootStack(g, s0, s, x) && z in s.stack[|s0.stack|..]
    ensures Mutual(g, x, z)
  {
    var i := SuffixIndex(s.stack, |s0.stack|, z);
    AboveReachesRoot(g, s0, s, x, i);
    RootReachesAbove(g, s0, s, x, z);
  }

  /** Every vertex mutually reachable with the root lies above it on the stack. */
  lemma MutualIsAbove(g: Graph, s0: TState, s: TState, x: nat, z: nat)
    requires RootStack(g, s0, s, x) && CompsOk(g, s.comps) && Mutual(g, x, z)
    ensures z in s.stack[|s0.stack|..]
  {
    var k := |s0.stack|;
    var Cset := set v | v in s.stack[k..];
    assert s.stack[k..][0] == x;
    RootClosed(g, s0, s, x, Cset);
    MutualInClosed(g, Cset, x, z);
  }

  /**
   * Emitting from the root stack[k] adds one component, the stack from the root up read top
   * first: it ends with the root and holds exactly the popped vertices.
   */
  lemma EmitEndsWithRoot(s: TState, k: nat)
    requires k < |s.stack|
    ensures var C := Emit(s, k).comps;
      && |C| == |s.comps| + 1 && C[..|s.comps|] == s.comps
      && |C[|s.comps|]| == |s.stack| - k && C[|s.comps|][|s.stack| - k - 1] == s.stack[k]
      && forall z :: z in C[|s.comps|] <==> z in s.stack[k..]
  {
    var R := Reverse(s.stack[k..]);
    forall z | z in s.stack[k..]
      ensures z in R
    {
      var i :| 0 <= i < |s.stack[k..]| && s.stack[k..][i] == z;
      assert R[|s.stack[k..]| - 1 - i] == z;
    }
  }

  /** The popped part of the stack, read top first, is exactly the root's class of mutual reachability. */
  lemma EmitScc(g: Graph, s0: TState, s: TState, x: nat)
    requires RootStack(g, s0, s, x) && CompsOk(g, s.comps)
    ensures IsScc(g, Reverse(s.stack[|s0.stack|..]))
  {
    var k := |s0.stack|;
    var C := s.stack[k..];
    var K := Reverse(C);
    assert K[|K| - 1] == x;
    forall z: nat
      ensures z in K <==> Mutual(g, x, z)
    {
      ReverseHas(C, z);
      if z in C {
        AboveIsMutual(g, s0, s, x, z);
      }
      if Mutual(g, x, z) {
        MutualIsAbove(g, s0, s, x, z);
      }
    }
  }

  /** The popped part of a sorted stack has no repeats. */
  lemma EmitDistinct(num: seq<int>, stack: seq<nat>, k: nat)
    requires StackSorted(num, stack) && k <= |stack|
    ensures Distinct(Reverse(stack[k..]))
  {
    var C := stack[k..];
    var K := Reverse(C);
    forall a, b | 0 <= a < b < |K|
      ensures K[a] != K[b]
    {
      assert K[a] == stack[k + (|C| - 1 - a)] && K[b] == stack[k + (|C| - 1 - b)];
      assert num[stack[k + (|C| - 1 - b)]] < num[stack[k + (|C| - 1 - a)]];
    }
  }

  /** Appending the new component keeps the emitted components correct and disjoint. */
  lemma EmitComps(g: Graph, s0: TState, s: TState, x: nat)
    requires RootStack(g, s0, s, x) && CompsOk(g, s.comps)
    ensures CompsOk(g, s.comps + [Reverse(s.stack[|s0.stack|..])])
  {
    EmitScc(g, s0, s, x);
    assert StackSorted(s.num, s.stack);
    EmitDistinct(s.num, s.stack, |s0.stack|);
    EmitDisjoint(g, s, |s0.stack|);
  }

  /** The popped part of the stack shares no vertex with the components emitted before. */
  lemma EmitDisjoint(g: Graph, s: TState, k: nat)
    requires Sized(g, s) && StackShape(g, s.num, s.on, s.stack, s.comps, s.gray) && k <= |s.stack|
    requires Disjoint(s.comps)
    ensures Disjoint(s.comps + [Reverse(s.stack[k..])])
  {
    var comps' := s.comps + [Reverse(s.stack[k..])];
    assert StackSorted(s.num, s.stack);
    forall i, j, z | 0 <= i < j < |comps'| && z in comps'[i]
      ensures z !in comps'[j]
    {
      if j == |s.comps| {
        assert z in s.comps[i] && InSome(s.comps, z);
        assert z !in s.stack;
        StackSplit(s.num, s.stack, k, z);
        ReverseHas(s.stack[k..], z);
      }
    }
  }

  /** The root sits just above the stack the search of it began with, and nowhere higher. */
  lemma StackAboveRoot(g: Graph, s0: TState, s: TState, x: nat)
    requires Sized(g, s0) && Sized(g, s) && StackShape(g, s.num, s.on, s.stack, s.comps, s.gray)
    requires x < |g| && DfsLoop(g, s0, s, x, g[x])
    ensures |s0.stack| < |s.stack| && s.stack[|s0.stack|] == x
    ensures forall i :: |s0.stack| < i < |s.stack| ==> s.stack[i] != x
  {
    forall i | |s0.stack| < i < |s.stack|
      ensures s.stack[i] != x
    {
      assert s.num[s.stack[|s0.stack|]] < s.num[s.stack[i]];
    }
  }

  /** Emitting the root's component keeps the invariant. */
  lemma EmitInv(g: Graph, s0: TState, s: TState, x: nat)
    requires AtRoot(g, s0, s, x) && Inv(g, s)
    requires forall v {:trigger v in s0.gray} :: v in s0.gray ==> v in s0.stack
    ensures Inv(g, Emit(s, |s0.stack|))
  {
    var k := |s0.stack|;
    assert s.stack[k] == x;
    NoneInProgressAbove(g, s0, s, x);
    assert RootStack(g, s0, s, x);
    EmitShape(g, s0, s, x);
    EmitLow(g, s0, s, x);
    EmitFinished(g, s0, s, x);
    EmitComps(g, s0, s, x);
  }

  /** Emitting the root's component completes the search of the root. */
  lemma EmitPost(g: Graph, s0: TState, s: TState, x: nat)
    requires AtRoot(g, s0, s, x) && StackShape(g, s0.num, s0.on, s0.stack, s0.comps, s0.gray)
    ensures Sized(g, Emit(s, |s0.stack|)) && DfsPost(g, s0, Emit(s, |s0.stack|), x)
  {
    var k := |s0.stack|;
    assert s.stack[k] == x;
    assert x !in s0.stack;
    assert Emit(s, k).stack[..k] == s0.stack;
  }

  // ---- The outer loop ---------------------------------------------------------------------

  /** The bottom vertex of the stack has the smallest number, so it is the root of its component. */
  lemma BottomIsRoot(g: Graph, s: TState)
    requires Inv(g, s)
    ensures |s.stack| > 0 ==> s.low[s.stack[0]] == s.num[s.stack[0]]
  {
    if |s.stack| > 0 {
      var u := s.stack[0];
      var w := s.order[s.low[u] - 1];
      assert s.num[w] == s.low[u];
      var i :| 0 <= i < |s.stack| && s.stack[i] == w;
      assert s.num[s.stack[0]] <= s.num[s.stack[i]];
    }
  }

  /** A search started from an empty stack ends with an empty stack: its start vertex is a root. */
  lemma TopStep(g: Graph, s: TState, s': TState, v: nat)
    requires Sized(g, s) && s.stack == [] && Inv(g, s') && DfsPost(g, s, s', v)
    ensures s'.stack == [] && s'.gray == s.gray
  {
    BottomIsRoot(g, s');
  }

  /** When every vertex is discovered and the stack is empty, the emitted components are the decomposition. */
  lemma TopEnd(g: Graph, s: TState)
    requires Inv(g, s) && s.stack == [] && forall v :: 0 <= v < |g| ==> s.num[v] > 0
    ensures IsSccPartition(g, s.comps)
  {
  }
}
