/**
 * The graph engine: a label registry, an adjacency store and the four queries
 * (shortest path, centers, strongly connected components, Hamiltonian path).
 */
module Project {
  import opened Graphs
  import opened Traversal
  import opened Hamiltonian
  import opened Components
  import Tarjan
  import TarjanSteps
  import Registry

  /** The two ways a shortest-path query fails. */
  datatype Error = UnknownLabel | NoPath

  datatype Result<T> = Ok(value: T) | Err(error: Error)

  /** Math.min on ints. */
  function Min(a: int, b: int): (m: int)
    ensures m <= a && m <= b && (m == a || m == b)
  {
    if a <= b then a else b
  }

  /*
   * Tarjan's search as the class runs it. SearchInv, Exploring and Searched name Tarjan.Inv,
   * Tarjan.InSearch and Tarjan.SearchDone as facts of this module, and the lemmas below take
   * them to the hypotheses of the TarjanSteps lemmas, grouping the steps each statement needs.
   * The class's search methods rely on both: with the Tarjan predicates named directly, or
   * with several lemma calls per statement in the heap's context, ExploreSuccessors and its
   * callees no longer verify within the resource bound.
   */

  /** The search's invariant (see Tarjan.Inv). */
  ghost predicate SearchInv(g: Graph, s: Tarjan.TState) {
    Tarjan.Inv(g, s)
  }

  /** Inside the search of x, begun in state s0 (see Tarjan.DfsLoop). */
  ghost predicate Exploring(g: Graph, s0: Tarjan.TState, s: Tarjan.TState, x: nat, explored: set<nat>) {
    Tarjan.InSearch(g, s0, s, x, explored)
  }

  /** The search of v, begun in state s0, is complete (see Tarjan.DfsPost). */
  ghost predicate Searched(g: Graph, s0: Tarjan.TState, s: Tarjan.TState, v: nat) {
    Tarjan.SearchDone(g, s0, s, v)
  }

  /** The search begins with every vertex undiscovered. */
  lemma StartStep(g: Graph)
    requires WellFormed(g)
    ensures SearchInv(g, Tarjan.Init(|g|))
  {
    TarjanSteps.InitOk(g);
  }

  /** Numbering and pushing v begins its search. */
  lemma EnterStep(g: Graph, s: Tarjan.TState, v: nat)
    requires SearchInv(g, s) && v < |g| && v < |s.num| && s.num[v] == 0
    ensures SearchInv(g, Tarjan.Visit(s, v)) && Exploring(g, s, Tarjan.Visit(s, v), v, {})
  {
    TarjanSteps.VisitStep(g, s, v);
  }

  /** Within the search of x, fewer vertices are undiscovered than when it began. */
  lemma ShrinkStep(g: Graph, s0: Tarjan.TState, s: Tarjan.TState, x: nat, explored: set<nat>)
    requires SearchInv(g, s0) && Exploring(g, s0, s, x, explored)
    ensures |Tarjan.Unvisited(s.num)| < |Tarjan.Unvisited(s0.num)|
  {
    TarjanSteps.UnvisitedShrinks(g, s0, s, x);
  }

  /** Returning from the search of the undiscovered successor y of x and taking its low link. */
  lemma ChildStep(g: Graph, s0: Tarjan.TState, s1: Tarjan.TState, s2: Tarjan.TState, x: nat, y: nat, explored: set<nat>)
    requires SearchInv(g, s1) && SearchInv(g, s2) && Exploring(g, s0, s1, x, explored)
    requires y in g[x] && y < |s1.num| && s1.num[y] == 0 && Searched(g, s1, s2, y)
    ensures x < |s2.low| && y < |s2.low|
    ensures SearchInv(g, Tarjan.LowerLow(s2, x, s2.low[y]))
    ensures Exploring(g, s0, Tarjan.LowerLow(s2, x, s2.low[y]), x, explored + {y})
  {
    TarjanSteps.ChildInv(g, s0, s1, s2, x, y, explored);
    TarjanSteps.ChildLoop(g, s0, s1, s2, x, y, explored);
  }

  /** A successor y of x that is still on the stack: x's low link takes y's number. */
  lemma BackStep(g: Graph, s0: Tarjan.TState, s: Tarjan.TState, x: nat, y: nat, explored: set<nat>)
    requires SearchInv(g, s) && Exploring(g, s0, s, x, explored)
    requires y in g[x] && y < |s.num| && s.num[y] > 0 && s.on[y]
    ensures SearchInv(g, Tarjan.LowerLow(s, x, s.num[y]))
    ensures Exploring(g, s0, Tarjan.LowerLow(s, x, s.num[y]), x, explored + {y})
  {
    TarjanSteps.BackInv(g, s0, s, x, y, explored);
    TarjanSteps.BackLoop(g, s0, s, x, y, explored);
  }

  /** A successor y of x that is discovered and off the stack changes nothing. */
  lemma PassStep(g: Graph, s0: Tarjan.TState, s: Tarjan.TState, x: nat, y: nat, explored: set<nat>)
    requires SearchInv(g, s) && Exploring(g, s0, s, x, explored)
    requires y in g[x] && y < |s.num| && s.num[y] > 0 && !s.on[y]
    ensures Exploring(g, s0, s, x, explored + {y})
  {
    TarjanSteps.SkipStep(g, s0, s, x, y, explored);
  }

  /**
   * The search of x ends with x the root of its component: x sits just above s0's stack and
   * nowhere higher, on a stack of vertices.
   */
  lemma RootStep(g: Graph, s0: Tarjan.TState, s: Tarjan.TState, x: nat)
    requires SearchInv(g, s0) && SearchInv(g, s) && x < |g| && Exploring(g, s0, s, x, g[x])
    requires s.low[x] == s.num[x]
    ensures |s0.stack| < |s.stack| && s.stack[|s0.stack|] == x
    ensures forall i :: |s0.stack| < i < |s.stack| ==> s.stack[i] != x
    ensures forall i :: 0 <= i < |s.stack| ==> s.stack[i] < |g|
  {
    TarjanSteps.StackAboveRoot(g, s0, s, x);
  }

  /** When x is the root of its component, emitting what lies from x up completes the search of x. */
  lemma RootEmitStep(g: Graph, s0: Tarjan.TState, s: Tarjan.TState, x: nat)
    requires SearchInv(g, s0) && SearchInv(g, s) && x < |g| && Exploring(g, s0, s, x, g[x])
    requires s.low[x] == s.num[x]
    ensures SearchInv(g, Tarjan.Emit(s, |s0.stack|)) && Searched(g, s0, Tarjan.Emit(s, |s0.stack|), x)
  {
    TarjanSteps.StackAboveRoot(g, s0, s, x);
    TarjanSteps.EmitInv(g, s0, s, x);
    TarjanSteps.EmitPost(g, s0, s, x);
  }

  /** The search of x ends with x not a root: x stays on the stack. */
  lemma EndStep(g: Graph, s0: Tarjan.TState, s: Tarjan.TState, x: nat)
    requires SearchInv(g, s0) && SearchInv(g, s) && x < |g| && Exploring(g, s0, s, x, g[x])
    requires s.low[x] != s.num[x]
    ensures SearchInv(g, Tarjan.Finish(s, x)) && Searched(g, s0, Tarjan.Finish(s, x), x)
  {
    TarjanSteps.FinishInv(g, s0, s, x);
    TarjanSteps.FinishPost(g, s0, s, x);
  }

  /**
   * A search begun on an empty stack leaves the stack empty, and every vertex discovered
   * before it still discovered.
   */
  lemma OuterStep(g: Graph, s: Tarjan.TState, s': Tarjan.TState, v: nat)
    requires s.stack == [] && SearchInv(g, s') && Searched(g, s, s', v)
    requires forall u :: 0 <= u < v ==> s.num[u] > 0
    ensures s'.stack == [] && v < |s'.num| && forall u :: 0 <= u < v + 1 ==> s'.num[u] > 0
  {
    TarjanSteps.TopStep(g, s, s', v);
  }

  /** Once every vertex is discovered, the components emitted are the decomposition of g. */
  lemma FinalStep(g: Graph, s: Tarjan.TState)
    requires SearchInv(g, s) && s.stack == [] && forall v :: 0 <= v < |s.num| ==> s.num[v] > 0
    ensures IsSccPartition(g, s.comps)
  {
    TarjanSteps.TopEnd(g, s);
  }

  /*
   * Breadth-first search as getDistances runs it: Marked and UnseenAre tie the visited flags
   * and the set of unseen vertices to the distance array.
   */

  /** A vertex is flagged visited exactly when it has a distance. */
  ghost predicate Marked(visited: seq<bool>, d: seq<int>) {
    |visited| == |d| && forall v :: 0 <= v < |d| ==> (visited[v] <==> d[v] != -1)
  }

  /** unseen holds exactly the vertices without a distance. */
  ghost predicate UnseenAre(unseen: set<nat>, d: seq<int>) {
    forall v: nat :: v in unseen <==> v < |d| && d[v] == -1
  }

  /** Giving the unvisited vertex w a distance flags it and removes it from unseen. */
  lemma MarkStep(visited: seq<bool>, d: seq<int>, unseen: set<nat>, w: nat, val: int)
    requires Marked(visited, d) && UnseenAre(unseen, d) && w < |d| && !visited[w] && val != -1
    ensures Marked(visited[w := true], d[w := val]) && UnseenAre(unseen - {w}, d[w := val])
    ensures |unseen - {w}| == |unseen| - 1
  {
    assert w in unseen;
  }

  /** A graph followed by k fresh vertices without successors. */
  function Padded(adj: Graph, k: nat): (r: Graph)
    ensures |r| == |adj| + k && r[..|adj|] == adj
    ensures forall v :: |adj| <= v < |r| ==> r[v] == {}
  {
    adj + seq(k, _ => {})
  }

  /** Extending the scanned prefix of row by one entry: the running minimum of getCenters. */
  lemma MinStep(row: seq<int>, i: nat, m: int)
    requires i < |row| && (i > 0 ==> m == MinOf(row[..i]))
    ensures row[..i + 1] == row[..i] + [row[i]]
    ensures MinOf(row[..i + 1]) == if i == 0 || row[i] < m then row[i] else m
  {
    assert row[..i + 1] == row[..i] + [row[i]];
    if i > 0 {
      MinOfSnoc(row[..i], row[i]);
    }
  }

  /**
   * The keys the search from i over S may add to the tables: (i, S) itself, and keys whose set
   * lies below S, either strictly smaller or S itself entered from a vertex of S when i is not in S.
   */
  ghost predicate Beneath(key: Key, i: nat, S: set<nat>) {
    key == (i, S) || Below(key, i, S)
  }

  /** The keys the search from i over S adds through its nested searches, never (i, S) itself. */
  ghost predicate Below(key: Key, i: nat, S: set<nat>) {
    key.1 <= S && (|key.1| < |S| || (key.1 == S && key.0 in S && i !in S))
  }

  /** Every entry of the tables m0 and s0 is still in m and s, with the same value. */
  ghost predicate Kept(m0: map<Key, bool>, s0: map<Key, nat>, m: map<Key, bool>, s: map<Key, nat>) {
    && (forall key :: key in m0 ==> key in m && m[key] == m0[key])
    && (forall key :: key in s0 ==> key in s && s[key] == s0[key])
  }

  /** Every key that m adds to m0 lies below (i, S). */
  ghost predicate AddedBelow(m0: map<Key, bool>, m: map<Key, bool>, i: nat, S: set<nat>) {
    forall key :: key in m && key !in m0 ==> Below(key, i, S)
  }

  /** Two steps that keep the tables and add keys below (i, S) make one such step. */
  lemma KeptTrans(m0: map<Key, bool>, s0: map<Key, nat>, m1: map<Key, bool>, s1: map<Key, nat>,
                  m2: map<Key, bool>, s2: map<Key, nat>, i: nat, S: set<nat>)
    requires Kept(m0, s0, m1, s1) && Kept(m1, s1, m2, s2)
    requires AddedBelow(m0, m1, i, S) && AddedBelow(m1, m2, i, S)
    ensures Kept(m0, s0, m2, s2) && AddedBelow(m0, m2, i, S)
  {
  }

  /** Every key that m adds to m0 is (i, S) or lies below it. */
  ghost predicate AddedBeneath(m0: map<Key, bool>, m: map<Key, bool>, i: nat, S: set<nat>) {
    forall key :: key in m && key !in m0 ==> Beneath(key, i, S)
  }

  /** Recording the key (i, S), new to the tables, keeps the earlier entries and adds only (i, S). */
  lemma KeptRecord(m0: map<Key, bool>, s0: map<Key, nat>, m: map<Key, bool>, s: map<Key, nat>,
                   i: nat, S: set<nat>, found: bool, k: nat)
    requires Kept(m0, s0, m, s) && AddedBelow(m0, m, i, S) && (i, S) !in m && (i, S) !in s
    ensures Kept(m0, s0, m[(i, S) := found], s) && Kept(m0, s0, m[(i, S) := found], s[(i, S) := k])
    ensures AddedBeneath(m0, m[(i, S) := found], i, S)
  {
  }

  /** A subset is no larger than its superset. */
  lemma {:induction false} SubsetSize(A: set<nat>, B: set<nat>)
    requires A <= B
    ensures |A| <= |B|
    decreases |B|
  {
    if A != {} {
      var x :| x in A;
      SubsetSize(A - {x}, B - {x});
    }
  }

  /** A key added by the nested search from a successor k in S over S without i lies below (i, S). */
  lemma NestedBelow(key: Key, i: nat, S: set<nat>, k: nat)
    requires k in S && Beneath(key, k, S - {i})
    ensures Below(key, i, S)
  {
    if i in S {
      SubsetSize(key.1, S - {i});
      assert |S - {i}| < |S| by { assert S == (S - {i}) + {i}; }
    } else {
      assert S - {i} == S;
      if key.1 == S && key != (k, S) {
        assert k in S;
        SubsetSize(key.1, S);
      }
    }
  }

  /** Emitting the label of ids[n] extends a path that labels the first n entries of ids to the first n + 1. */
  lemma LabelStep(path: seq<string>, ids: seq<nat>, labels: seq<string>, n: nat)
    requires n < |ids| && |path| == n && ids[n] < |labels|
    requires forall k :: 0 <= k < n ==> ids[k] < |labels| && path[k] == labels[ids[k]]
    ensures forall k :: 0 <= k < n + 1 ==> ids[k] < |labels| && (path + [labels[ids[n]]])[k] == labels[ids[k]]
  {
  }

  /** A suffix of a sequence that starts with x: x is the entry there, and the rest is the next suffix. */
  lemma SuffixStep(full: seq<nat>, n: nat, x: nat, rest: seq<nat>)
    requires n <= |full| && full[n..] == [x] + rest
    ensures n < |full| && full[n] == x && full[n + 1..] == rest
  {
    assert full[n..][0] == x;
    assert full[n + 1..] == full[n..][1..];
  }

  /**
   * The read-back loop of getHamiltonianPath: from start, emit the label of the current vertex,
   * look up its successor for the current set, remove it from the set and move on, until the set
   * is empty.
   */
  method ReadPath(g: Graph, memo: map<Key, bool>, successor: map<Key, nat>, labels: seq<string>, start: nat, allSet: set<nat>)
    returns (path: seq<string>, ghost ids: seq<nat>)
    requires WellFormed(g) && MemoOk(g, memo, successor) && |labels| == |g|
    requires allSet != {} && (start, allSet) in memo && memo[(start, allSet)]
    ensures ids == Trace(g, memo, successor, start, allSet)
    ensures forall k :: 0 <= k < |ids| ==> ids[k] < |g|
    ensures |path| == |ids| && forall k :: 0 <= k < |ids| ==> path[k] == labels[ids[k]]
  {
    ids := Trace(g, memo, successor, start, allSet);
    ghost var n := 0;
    var i: nat := start;
    var vertexSet := allSet;
    path := [];
    while vertexSet != {}
      invariant vertexSet != {} ==> (i, vertexSet) in memo && memo[(i, vertexSet)]
      invariant n <= |ids| && ids[n..] == Trace(g, memo, successor, i, vertexSet)
      invariant |path| == n && forall k :: 0 <= k < n ==> ids[k] < |labels| && path[k] == labels[ids[k]]
      decreases |vertexSet|, if i in vertexSet then 0 else 1
    {
      ghost var current, emitted := i, path;
      i, vertexSet, path := ReadStep(g, memo, successor, labels, i, vertexSet, path);
      SuffixStep(ids, n, current, Trace(g, memo, successor, i, vertexSet));
      LabelStep(emitted, ids, labels, n);
      n := n + 1;
    }
  }

  /**
   * One iteration of the read-back loop: emit the label of i, look up the successor of
   * (i, vertexSet), remove i from the set and move to the successor when there is one. The
   * vertices still to emit are then those after i, and the loop measure drops.
   */
  method ReadStep(g: Graph, memo: map<Key, bool>, successor: map<Key, nat>, labels: seq<string>,
                  i: nat, vertexSet: set<nat>, path: seq<string>)
    returns (i': nat, vertexSet': set<nat>, path': seq<string>)
    requires WellFormed(g) && MemoOk(g, memo, successor) && |labels| == |g|
    requires vertexSet != {} && (i, vertexSet) in memo && memo[(i, vertexSet)]
    ensures i < |g| && path' == path + [labels[i]]
    ensures vertexSet' != {} ==> (i', vertexSet') in memo && memo[(i', vertexSet')]
    ensures Trace(g, memo, successor, i, vertexSet) == [i] + Trace(g, memo, successor, i', vertexSet')
    ensures |vertexSet'| < |vertexSet| || (vertexSet' == vertexSet && i !in vertexSet && i' in vertexSet)
  {
    TraceUnfold(g, memo, successor, i, vertexSet);
    path' := path + [labels[i]];
    var childVertex := SuccessorOf(successor, i, vertexSet);
    vertexSet' := vertexSet - {i};
    i' := i;
    if childVertex != -1 {
      i' := childVertex;
    }
  }

  /*
   * The two set identities of ExploreSuccessors' loop, kept as lemmas: asserted inside the
   * loop, they put that method over the resource bound.
   */

  /** Moving n from rest to the explored successors. */
  lemma ExploredGrows(all: set<nat>, rest: set<nat>, n: nat)
    requires n in rest && rest <= all
    ensures all - (rest - {n}) == (all - rest) + {n}
  {
  }

  /** With nothing left, every successor is explored. */
  lemma ExploredAll(all: set<nat>)
    ensures all - {} == all
  {
  }

  /** Arrays of zeros and false, with nothing stacked or emitted and the next number 1, are the initial state. */
  lemma InitState(num: seq<int>, low: seq<int>, on: seq<bool>, n: nat)
    requires |num| == n && |low| == n && |on| == n
    requires forall v :: 0 <= v < n ==> num[v] == 0 && low[v] == 0 && !on[v]
    ensures Tarjan.TState(num, low, on, [], [], 1, [], {}) == Tarjan.Init(n)
  {
    assert num == seq(n, _ => 0) && low == seq(n, _ => 0) && on == seq(n, _ => false);
  }

  class MyCITS2200Project {
    /** Label registry: label -> id, id -> label. */
    var urlToIDMap: map<string, nat>
    var idToURLList: seq<string>
    /** Adjacency store: adjacencyList[u] is the successor set of vertex u. */
    var adjacencyList: Graph
    /** The number of vertices, and the id the next new label receives. */
    var vertexID: nat
    /**
     * The Hamiltonian search's tables, keyed by (vertex, vertex set). A key missing from memo is a
     * slot not yet decided; a key missing from successor is a slot holding -1, no successor recorded.
     */
    var memo: map<Key, bool>
    var successor: map<Key, nat>
    /** The strongly-connected-components search's state: discovery numbers, low links, on-stack flags, stack (top = last), the components found so far, as labels, and the next discovery number. */
    var dfsOrderID: array<int>
    var lowLink: array<int>
    var onStack: array<bool>
    var dfsStack: seq<nat>
    var sccList: seq<seq<string>>
    var dfsCounter: int
    /** The components of sccList as vertex ids, the vertices in discovery order, and the vertices whose search is in progress. */
    ghost var comps: seq<seq<nat>>
    ghost var order: seq<nat>
    ghost var gray: set<nat>

    /** The registry is a bijection between the labels and 0 .. vertexID - 1, and every edge ends at a vertex. */
    ghost predicate Valid()
      reads this`urlToIDMap, this`idToURLList, this`adjacencyList, this`vertexID
    {
      Registry.Consistent(urlToIDMap, idToURLList, adjacencyList, vertexID)
    }

    /** The labels of a sequence of vertex ids. */
    function LabelsOf(ids: seq<nat>): (r: seq<string>)
      reads this`idToURLList
      requires forall k :: 0 <= k < |ids| ==> ids[k] < |idToURLList|
      ensures |r| == |ids| && forall k :: 0 <= k < |ids| ==> r[k] == idToURLList[ids[k]]
    {
      Registry.Labels(idToURLList, ids)
    }

    constructor ()
      ensures Valid() && vertexID == 0
      ensures urlToIDMap == map[] && idToURLList == [] && adjacencyList == []
    {
      urlToIDMap := map[];
      idToURLList := [];
      adjacencyList := [];
      vertexID := 0;
      memo := map[];
      successor := map[];
      dfsOrderID := new int[0];
      lowLink := new int[0];
      onStack := new bool[0];
      dfsStack := [];
      sccList := [];
      dfsCounter := 1;
      comps := [];
      order := [];
      gray := {};
    }

    /** Returns the id of url, giving it the next id (and no successors) when it is new. */
    method addVert(url: string) returns (id: nat)
      requires Valid()
      modifies this`urlToIDMap, this`idToURLList, this`adjacencyList, this`vertexID
      ensures Valid()
      ensures url in urlToIDMap && id == urlToIDMap[url] && id < vertexID
      ensures url in old(urlToIDMap) ==>
        && id == old(urlToIDMap)[url]
        && unchanged(this`urlToIDMap, this`idToURLList, this`adjacencyList, this`vertexID)
      ensures url !in old(urlToIDMap) ==>
        && id == old(vertexID)
        && vertexID == old(vertexID) + 1
        && urlToIDMap == old(urlToIDMap)[url := id]
        && idToURLList == old(idToURLList) + [url]
        && adjacencyList == old(adjacencyList) + [{}]
    {
      if url !in urlToIDMap {
        urlToIDMap := urlToIDMap[url := vertexID];
        idToURLList := idToURLList + [url];
        adjacencyList := adjacencyList + [{}];
        vertexID := vertexID + 1;
      }
      id := urlToIDMap[url];
    }

    /** Registers both labels as needed and adds the directed edge between them. */
    method addEdge(urlFrom: string, urlTo: string)
      requires Valid()
      modifies this`urlToIDMap, this`idToURLList, this`adjacencyList, this`vertexID
      ensures Valid()
      ensures urlToIDMap.Keys == old(urlToIDMap).Keys + {urlFrom, urlTo}
      ensures forall u :: u in old(urlToIDMap) ==> urlToIDMap[u] == old(urlToIDMap)[u]
      ensures old(vertexID) <= vertexID && idToURLList[..old(vertexID)] == old(idToURLList)
      ensures urlFrom !in old(urlToIDMap) ==> urlToIDMap[urlFrom] == old(vertexID)
      ensures urlTo !in old(urlToIDMap) && urlTo != urlFrom ==>
                urlToIDMap[urlTo] == old(vertexID) + (if urlFrom in old(urlToIDMap) then 0 else 1)
      ensures var grown := Padded(old(adjacencyList), vertexID - old(vertexID));
              var startID := urlToIDMap[urlFrom];
              adjacencyList == grown[startID := grown[startID] + {urlToIDMap[urlTo]}]
      ensures old(urlFrom in urlToIDMap && urlTo in urlToIDMap
                  && urlToIDMap[urlTo] in adjacencyList[urlToIDMap[urlFrom]])
              ==> unchanged(this`urlToIDMap, this`idToURLList, this`adjacencyList, this`vertexID)
    {
      var startID, endID := RegisterBoth(urlFrom, urlTo);
      Link(startID, endID);
    }

    /** The two addVert calls of addEdge: both labels registered, new ones after the old ids. */
    method RegisterBoth(urlFrom: string, urlTo: string) returns (startID: nat, endID: nat)
      requires Valid()
      modifies this`urlToIDMap, this`idToURLList, this`adjacencyList, this`vertexID
      ensures Valid() && startID < vertexID && endID < vertexID
      ensures urlFrom in urlToIDMap && startID == urlToIDMap[urlFrom]
      ensures urlTo in urlToIDMap && endID == urlToIDMap[urlTo]
      ensures urlToIDMap.Keys == old(urlToIDMap).Keys + {urlFrom, urlTo}
      ensures forall u :: u in old(urlToIDMap) ==> urlToIDMap[u] == old(urlToIDMap)[u]
      ensures old(vertexID) <= vertexID && idToURLList[..old(vertexID)] == old(idToURLList)
      ensures urlFrom !in old(urlToIDMap) ==> startID == old(vertexID)
      ensures urlTo !in old(urlToIDMap) && urlTo != urlFrom ==>
                endID == old(vertexID) + (if urlFrom in old(urlToIDMap) then 0 else 1)
      ensures adjacencyList == Padded(old(adjacencyList), vertexID - old(vertexID))
      ensures old(urlFrom in urlToIDMap && urlTo in urlToIDMap)
              ==> unchanged(this`urlToIDMap, this`idToURLList, this`adjacencyList, this`vertexID)
    {
      ghost var adj0, n0 := adjacencyList, vertexID;
      startID := addVert(urlFrom);
      ghost var n1 := vertexID;
      assert adjacencyList == Padded(adj0, n1 - n0) by {
        assert adj0 == Padded(adj0, 0);
        if n1 != n0 { assert Padded(adj0, 0) + [{}] == Padded(adj0, 1); }
      }
      endID := addVert(urlTo);
      assert adjacencyList == Padded(adj0, vertexID - n0) by {
        if vertexID != n1 { assert Padded(adj0, n1 - n0) + [{}] == Padded(adj0, n1 - n0 + 1); }
      }
    }

    /** Adds the edge from startID to endID; adding an edge already present changes nothing. */
    method Link(startID: nat, endID: nat)
      requires Valid() && startID < vertexID && endID < vertexID
      modifies this`adjacencyList
      ensures Valid()
      ensures adjacencyList == old(adjacencyList)[startID := old(adjacencyList)[startID] + {endID}]
      ensures endID in old(adjacencyList)[startID] ==> adjacencyList == old(adjacencyList)
    {
      ghost var before := adjacencyList;
      adjacencyList := adjacencyList[startID := adjacencyList[startID] + {endID}];
      if endID in before[startID] {
        assert before[startID] + {endID} == before[startID];
        assert adjacencyList == before;
      }
    }

    /** Breadth-first search from startVert: the hop distance to every vertex, -1 where unreachable. */
    method getDistances(startVert: nat) returns (distances: array<int>)
      requires Valid() && startVert < vertexID
      ensures fresh(distances) && distances.Length == vertexID
      ensures IsDistanceVector(adjacencyList, startVert, distances[..])
    {
      var vertexCount := vertexID;
      ghost var g := adjacencyList;
      distances := new int[vertexCount](_ => -1);
      var visited := new bool[vertexCount](_ => false);
      var vertexQueue: seq<nat> := [startVert];
      visited[startVert] := true;
      distances[startVert] := 0;
      // Ghost bookkeeping: the vertices whose successors were all enqueued, a walk
      // realising each finite distance, and the vertices not yet seen.
      ghost var done: set<nat> := {};
      ghost var paths: map<nat, seq<nat>> := map[startVert := [startVert]];
      ghost var unseen: set<nat> := set v: nat | v < vertexCount && distances[v] == -1;
      assert BfsOuter(g, startVert, distances[..], vertexQueue, done, paths) by {
        BfsStart(g, startVert, distances[..]);
      }

      while vertexQueue != []
        invariant distances.Length == vertexCount && visited.Length == vertexCount
        invariant BfsOuter(g, startVert, distances[..], vertexQueue, done, paths)
        invariant Marked(visited[..], distances[..]) && UnseenAre(unseen, distances[..])
        decreases |unseen| + |vertexQueue|
      {
        assert vertexQueue[0] < vertexCount
          && BfsInner(g, startVert, distances[..], vertexQueue[1..], done, paths, vertexQueue[0], g[vertexQueue[0]]) by {
          BfsPop(g, startVert, distances[..], vertexQueue, done, paths);
        }
        var currentNode := vertexQueue[0];
        vertexQueue := vertexQueue[1..];
        vertexQueue, paths, unseen :=
          EnqueueUnvisited(startVert, currentNode, distances, visited, vertexQueue, done, paths, unseen);
        done := done + {currentNode};
      }
      assert IsDistanceVector(g, startVert, distances[..]) by {
        BfsEnd(g, startVert, distances[..], done, paths);
      }
    }

    /**
     * The inner loop of getDistances: every successor of currentNode not yet visited is
     * enqueued one hop further than currentNode.
     */
    method EnqueueUnvisited(startVert: nat, currentNode: nat, distances: array<int>, visited: array<bool>,
                            queue: seq<nat>, ghost done: set<nat>, ghost paths: map<nat, seq<nat>>,
                            ghost unseen: set<nat>)
      returns (vertexQueue: seq<nat>, ghost paths': map<nat, seq<nat>>, ghost unseen': set<nat>)
      requires Valid() && distances.Length == visited.Length == vertexID && currentNode < vertexID
      requires BfsInner(adjacencyList, startVert, distances[..], queue, done, paths, currentNode, adjacencyList[currentNode])
      requires Marked(visited[..], distances[..]) && UnseenAre(unseen, distances[..])
      modifies distances, visited
      ensures BfsOuter(adjacencyList, startVert, distances[..], vertexQueue, done + {currentNode}, paths')
      ensures Marked(visited[..], distances[..]) && UnseenAre(unseen', distances[..])
      ensures |unseen'| + |vertexQueue| == |unseen| + |queue|
    {
      ghost var g := adjacencyList;
      vertexQueue, paths', unseen' := queue, paths, unseen;
      var rest := adjacencyList[currentNode];
      while rest != {}
        invariant BfsInner(g, startVert, distances[..], vertexQueue, done, paths', currentNode, rest)
        invariant Marked(visited[..], distances[..]) && UnseenAre(unseen', distances[..])
        invariant |unseen'| + |vertexQueue| == |unseen| + |queue|
        decreases rest
      {
        var neighbour :| neighbour in rest;
        if !visited[neighbour] {
          vertexQueue, paths', unseen' :=
            VisitNeighbour(startVert, currentNode, neighbour, distances, visited, vertexQueue, done, paths', unseen', rest);
        } else {
          assert BfsInner(g, startVert, distances[..], vertexQueue, done, paths', currentNode, rest - {neighbour}) by {
            BfsSkip(g, startVert, distances[..], vertexQueue, done, paths', currentNode, rest, neighbour);
          }
        }
        rest := rest - {neighbour};
      }
      assert BfsOuter(g, startVert, distances[..], vertexQueue, done + {currentNode}, paths') by {
        BfsFinish(g, startVert, distances[..], vertexQueue, done, paths', currentNode);
      }
    }

    /** One unvisited successor: it is flagged, given currentNode's distance plus one, and enqueued. */
    method VisitNeighbour(startVert: nat, currentNode: nat, neighbour: nat, distances: array<int>, visited: array<bool>,
                          queue: seq<nat>, ghost done: set<nat>, ghost paths: map<nat, seq<nat>>,
                          ghost unseen: set<nat>, ghost rest: set<nat>)
      returns (vertexQueue: seq<nat>, ghost paths': map<nat, seq<nat>>, ghost unseen': set<nat>)
      requires Valid() && distances.Length == visited.Length == vertexID && currentNode < vertexID
      requires neighbour in rest && neighbour < vertexID && !visited[neighbour]
      requires BfsInner(adjacencyList, startVert, distances[..], queue, done, paths, currentNode, rest)
      requires Marked(visited[..], distances[..]) && UnseenAre(unseen, distances[..])
      modifies distances, visited
      ensures BfsInner(adjacencyList, startVert, distances[..], vertexQueue, done, paths', currentNode, rest - {neighbour})
      ensures Marked(visited[..], distances[..]) && UnseenAre(unseen', distances[..])
      ensures |unseen'| + |vertexQueue| == |unseen| + |queue|
    {
      ghost var g := adjacencyList;
      ghost var d := distances[..];
      ghost var marks := visited[..];
      ghost var d' := d[neighbour := d[currentNode] + 1];
      assert d[currentNode] >= 0
        && BfsInner(g, startVert, d', queue + [neighbour], done,
                     paths[neighbour := paths[currentNode] + [neighbour]], currentNode, rest - {neighbour}) by {
        BfsVisit(g, startVert, d, queue, done, paths, currentNode, rest, neighbour);
      }
      assert Marked(marks[neighbour := true], d') && UnseenAre(unseen - {neighbour}, d')
        && |unseen - {neighbour}| == |unseen| - 1 by {
        MarkStep(marks, d, unseen, neighbour, d[currentNode] + 1);
      }
      vertexQueue := queue + [neighbour];
      visited[neighbour] := true;
      distances[neighbour] := distances[currentNode] + 1;
      paths' := paths[neighbour := paths[currentNode] + [neighbour]];
      unseen' := unseen - {neighbour};
      assert distances[..] == d' && visited[..] == marks[neighbour := true];
    }

    /** The hop count of a shortest path between two labels. */
    method getShortestPath(urlFrom: string, urlTo: string) returns (r: Result<int>)
      requires Valid()
      ensures urlFrom !in urlToIDMap || urlTo !in urlToIDMap <==> r == Err(UnknownLabel)
      ensures urlFrom in urlToIDMap && urlTo in urlToIDMap ==>
        var d := Dist(adjacencyList, urlToIDMap[urlFrom], urlToIDMap[urlTo]);
        && (d == -1 <==> r == Err(NoPath))
        && (d >= 0 <==> r == Ok(d))
    {
      if urlFrom !in urlToIDMap || urlTo !in urlToIDMap {
        return Err(UnknownLabel);
      }
      var startID := urlToIDMap[urlFrom];
      var endID := urlToIDMap[urlTo];
      var distances := getDistances(startID);
      if distances[endID] == -1 {
        return Err(NoPath);
      }
      return Ok(distances[endID]);
    }
  
    /** The labels of the minimum-eccentricity vertices, in increasing id order. */
    method getCenters() returns (centers: seq<string>)
      requires Valid()
      ensures centers == LabelsOf(CentersOf(adjacencyList))
    {
      var eccentricity, minEccentricity := Eccentricities();
      centers := SelectCenters(eccentricity, minEccentricity);
    }

    /** The second loop of getCenters: the labels of the vertices of least eccentricity, in id order. */
    method SelectCenters(eccentricity: array<int>, minEccentricity: int) returns (centers: seq<string>)
      requires Valid() && eccentricity.Length == vertexID
      requires vertexID > 0 ==> minEccentricity == MinOf(eccentricity[..])
      ensures vertexID == 0 ==> centers == []
      ensures vertexID > 0 ==> centers == LabelsOf(MinIndicesUpTo(eccentricity[..], vertexID))
    {
      var vertexCount := vertexID;
      centers := [];
      ghost var ids: seq<nat> := [];
      for i := 0 to vertexCount
        invariant vertexCount > 0 ==> ids == MinIndicesUpTo(eccentricity[..], i)
        invariant vertexCount == 0 ==> ids == []
        invariant |centers| == |ids| && forall k :: 0 <= k < |ids| ==> ids[k] < i && centers[k] == idToURLList[ids[k]]
      {
        if eccentricity[i] == minEccentricity {
          centers := centers + [idToURLList[i]];
          ids := ids + [i];
        }
      }
    }

    /** The first loop of getCenters: every vertex's eccentricity and the least of them. */
    method Eccentricities() returns (eccentricity: array<int>, minEccentricity: int)
      requires Valid()
      ensures fresh(eccentricity) && eccentricity[..] == EccRow(adjacencyList)
      ensures vertexID > 0 ==> minEccentricity == MinOf(EccRow(adjacencyList))
    {
      ghost var row := EccRow(adjacencyList);
      var vertexCount := vertexID;
      eccentricity := new int[vertexCount];
      // Stands for Integer.MAX_VALUE until the first vertex has been measured.
      minEccentricity := 0;
      for i := 0 to vertexCount
        invariant eccentricity[..i] == row[..i]
        invariant i > 0 ==> minEccentricity == MinOf(row[..i])
      {
        var e := Eccentricity(i);
        assert row[..i + 1] == row[..i] + [e] && MinOf(row[..i + 1]) == if i == 0 || e < minEccentricity then e else minEccentricity by {
          MinStep(row, i, minEccentricity);
        }
        eccentricity[i] := e;
        if i == 0 || e < minEccentricity {
          minEccentricity := e;
        }
        assert eccentricity[..i + 1] == eccentricity[..i] + [e];
      }
      assert eccentricity[..] == eccentricity[..vertexCount];
      assert row[..vertexCount] == row;
    }

    /** The body of that loop: the largest entry of the distances from i, its eccentricity. */
    method Eccentricity(i: nat) returns (e: int)
      requires Valid() && i < vertexID
      ensures e == EccRow(adjacencyList)[i]
    {
      var distances := getDistances(i);
      e := MaxOf(distances[..]);
      EccOfVector(adjacencyList, i, distances[..]);
    }
  
    /**
     * The memoised search: whether a path from i visits every vertex of vertexSet, trying the
     * successors of i in the order the adjacency set yields them and recording the first that works.
     */
    method hasHamiltonianPath(i: nat, vertexSet: set<nat>) returns (found: bool)
      requires Valid() && i < vertexID && MemoOk(adjacencyList, memo, successor)
      modifies this`memo, this`successor
      ensures MemoOk(adjacencyList, memo, successor)
      ensures found == Succeeds(adjacencyList, i, vertexSet)
      ensures (i, vertexSet) in memo
      ensures Kept(old(memo), old(successor), memo, successor) && AddedBeneath(old(memo), memo, i, vertexSet)
      decreases |vertexSet|, if i in vertexSet then 0 else 1, 1
    {
      if (i, vertexSet) in memo {
        return memo[(i, vertexSet)];
      }
      ghost var g := adjacencyList;
      if vertexSet == {i} {
        MemoAddBase(g, memo, successor, i);
        KeptRecord(memo, successor, memo, successor, i, vertexSet, true, 0);
        memo := memo[(i, vertexSet) := true];
        return true;
      }
      var newSet := vertexSet - {i};
      var neighbours := adjacencyList[i];
      var rest := neighbours;
      while rest != {}
        invariant rest <= neighbours
        invariant MemoOk(g, memo, successor) && (i, vertexSet) !in memo
        invariant Kept(old(memo), old(successor), memo, successor) && AddedBelow(old(memo), memo, i, vertexSet)
        invariant forall k :: k in neighbours - rest && k in vertexSet ==> !Succeeds(g, k, newSet)
        decreases rest
      {
        var k :| k in rest;
        if k in vertexSet {
          ghost var memo1, successor1 := memo, successor;
          var sub := TryThrough(i, vertexSet, k);
          KeptTrans(old(memo), old(successor), memo1, successor1, memo, successor, i, vertexSet);
          if sub {
            KeptRecord(old(memo), old(successor), memo, successor, i, vertexSet, true, k);
            RecordFound(i, vertexSet, k);
            return true;
          }
        }
        rest := rest - {k};
      }
      MemoAddFailed(g, memo, successor, i, vertexSet);
      KeptRecord(old(memo), old(successor), memo, successor, i, vertexSet, false, 0);
      memo := memo[(i, vertexSet) := false];
      return false;
    }

    /** The nested search of the loop above: from the successor k of i, over vertexSet without i. */
    method TryThrough(i: nat, vertexSet: set<nat>, k: nat) returns (sub: bool)
      requires Valid() && i < vertexID && k in adjacencyList[i] && k in vertexSet
      requires MemoOk(adjacencyList, memo, successor) && (i, vertexSet) !in memo
      modifies this`memo, this`successor
      ensures MemoOk(adjacencyList, memo, successor) && (i, vertexSet) !in memo
      ensures sub == Succeeds(adjacencyList, k, vertexSet - {i})
      ensures (k, vertexSet - {i}) in memo
      ensures Kept(old(memo), old(successor), memo, successor) && AddedBelow(old(memo), memo, i, vertexSet)
      decreases |vertexSet|, if i in vertexSet then 0 else 1, 0
    {
      sub := hasHamiltonianPath(k, vertexSet - {i});
      forall key | key in memo && key !in old(memo)
        ensures Below(key, i, vertexSet)
      {
        NestedBelow(key, i, vertexSet, k);
      }
    }

    /** Records that the search from i over vertexSet succeeds through its successor k. */
    method RecordFound(i: nat, vertexSet: set<nat>, k: nat)
      requires Valid() && i < vertexID && k in adjacencyList[i] && k in vertexSet && vertexSet != {i}
      requires MemoOk(adjacencyList, memo, successor) && (i, vertexSet) !in memo
      requires (k, vertexSet - {i}) in memo && memo[(k, vertexSet - {i})]
      modifies this`memo, this`successor
      ensures MemoOk(adjacencyList, memo, successor) && Succeeds(adjacencyList, i, vertexSet)
      ensures memo == old(memo)[(i, vertexSet) := true] && successor == old(successor)[(i, vertexSet) := k]
    {
      MemoAddFound(adjacencyList, memo, successor, i, vertexSet, k);
      memo := memo[(i, vertexSet) := true];
      successor := successor[(i, vertexSet) := k];
    }

    /** One search of getHamiltonianPath's loop (:138), stated without the frame of the tables. */
    method Attempt(i: nat, vertexSet: set<nat>) returns (found: bool)
      requires Valid() && i < vertexID && MemoOk(adjacencyList, memo, successor)
      modifies this`memo, this`successor
      ensures MemoOk(adjacencyList, memo, successor)
      ensures found == Succeeds(adjacencyList, i, vertexSet) && (i, vertexSet) in memo
    {
      found := hasHamiltonianPath(i, vertexSet);
    }

    /**
     * A path that visits every vertex: the search runs from each vertex in id order, and the
     * path of the first that succeeds is read back from the successor table; empty when none does.
     */
    method getHamiltonianPath() returns (path: seq<string>, ghost ids: seq<nat>)
      requires Valid()
      modifies this`memo, this`successor
      ensures forall k :: 0 <= k < |ids| ==> ids[k] < vertexID
      ensures path == LabelsOf(ids)
      ensures ids == [] <==> forall v :: 0 <= v < vertexID ==> !Succeeds(adjacencyList, v, All(vertexID))
      ensures ids != [] ==> FirstPath(adjacencyList, ids)
    {
      var vertexCount := vertexID;
      var allSet := All(vertexCount);
      ghost var g := adjacencyList;
      memo := map[];
      successor := map[];
      for i := 0 to vertexCount
        invariant MemoOk(g, memo, successor)
        invariant forall v :: 0 <= v < i ==> !Succeeds(g, v, allSet)
      {
        var found := Attempt(i, allSet);
        if found {
          path, ids := ReadPath(adjacencyList, memo, successor, idToURLList, i, allSet);
          assert path == LabelsOf(ids);
          ReadBackIsFirstPath(g, memo, successor, i);
          assert Succeeds(g, ids[0], allSet);
          return;
        }
      }
      path, ids := [], [];
    }

    /** The search's arrays and collections, as one value. */
    ghost function State(): Tarjan.TState
      reads this`dfsOrderID, this`lowLink, this`onStack, this`dfsStack, this`comps, this`dfsCounter, this`order, this`gray
      reads dfsOrderID, lowLink, onStack
    {
      Tarjan.TState(dfsOrderID[..], lowLink[..], onStack[..], dfsStack, comps, dfsCounter, order, gray)
    }

    /**
     * The search's arrays are separate and sized to the graph, and sccList holds the labels of
     * the components found, each a list of vertices of the graph.
     */
    ghost predicate SccReady()
      reads this`urlToIDMap, this`idToURLList, this`adjacencyList, this`vertexID
      reads this`dfsOrderID, this`lowLink, this`onStack, this`sccList, this`comps
    {
      && Valid()
      && dfsOrderID != lowLink
      && Registry.Tables(idToURLList, dfsOrderID.Length, lowLink.Length, onStack.Length, sccList, comps)
    }

    /** The search's invariant holds of its current state, and sccList mirrors the components found. */
    ghost predicate Searching()
      reads this`urlToIDMap, this`idToURLList, this`adjacencyList, this`vertexID
      reads this`dfsOrderID, this`lowLink, this`onStack, this`dfsStack, this`sccList, this`dfsCounter
      reads this`comps, this`order, this`gray, dfsOrderID, lowLink, onStack
    {
      SccReady() && SearchInv(adjacencyList, State())
    }

    /**
     * The search of currentNode: number it, push it, handle each successor (search the
     * undiscovered ones, take the number of those still on the stack into the low link), and,
     * when currentNode is the root of its component, pop that component off the stack.
     */
    method DFS(currentNode: nat)
      requires Searching() && currentNode < vertexID && dfsOrderID[currentNode] == 0
      modifies this`dfsStack, this`sccList, this`dfsCounter, this`comps, this`order, this`gray
      modifies dfsOrderID, lowLink, onStack
      ensures Searching() && Searched(adjacencyList, old(State()), State(), currentNode)
      decreases |Tarjan.Unvisited(dfsOrderID[..])|, 3
    {
      ghost var g := adjacencyList;
      ghost var s0 := State();
      Enter(currentNode);
      ExploreSuccessors(currentNode, s0);
      LeaveVertex(currentNode, s0);
    }

    /** DFS's loop over the successors of currentNode, each handled by HandleNeighbour. */
    method ExploreSuccessors(currentNode: nat, ghost s0: Tarjan.TState)
      requires Searching() && SearchInv(adjacencyList, s0) && currentNode < vertexID
      requires Exploring(adjacencyList, s0, State(), currentNode, {})
      modifies this`dfsStack, this`sccList, this`dfsCounter, this`comps, this`order, this`gray
      modifies dfsOrderID, lowLink, onStack
      ensures Searching() && Exploring(adjacencyList, s0, State(), currentNode, adjacencyList[currentNode])
      decreases |Tarjan.Unvisited(s0.num)|, 2
    {
      var neighbours := adjacencyList[currentNode];
      var rest := neighbours;
      while rest != {}
        invariant rest <= neighbours
        invariant Searching() && Exploring(adjacencyList, s0, State(), currentNode, neighbours - rest)
        decreases rest
      {
        var neighbour :| neighbour in rest;
        HandleNeighbour(currentNode, neighbour, s0, neighbours - rest);
        ExploredGrows(neighbours, rest, neighbour);
        rest := rest - {neighbour};
      }
      ExploredAll(neighbours);
    }

    /** The start of DFS: number currentNode, push it and flag it as on the stack. */
    method Enter(currentNode: nat)
      requires Searching() && currentNode < vertexID && dfsOrderID[currentNode] == 0
      modifies this`dfsStack, this`dfsCounter, this`order, this`gray, dfsOrderID, lowLink, onStack
      ensures Searching() && SearchInv(adjacencyList, old(State()))
      ensures Exploring(adjacencyList, old(State()), State(), currentNode, {})
    {
      ghost var g := adjacencyList;
      ghost var s0 := State();
      Number(currentNode);
      Push(currentNode);
      ghost var s1 := Tarjan.Visit(s0, currentNode);
      assert State() == s1;
      assert SearchInv(g, s1) && Exploring(g, s0, s1, currentNode, {}) by {
        EnterStep(g, s0, currentNode);
      }
    }

    /** Gives currentNode the next number as its number and low link. */
    method Number(currentNode: nat)
      requires SccReady() && currentNode < vertexID
      modifies this`dfsCounter, dfsOrderID, lowLink
      ensures SccReady()
      ensures dfsCounter == old(dfsCounter) + 1
      ensures dfsOrderID[..] == old(dfsOrderID[..])[currentNode := old(dfsCounter)]
      ensures lowLink[..] == old(lowLink[..])[currentNode := old(dfsCounter)]
    {
      dfsOrderID[currentNode] := dfsCounter;
      lowLink[currentNode] := dfsCounter;
      dfsCounter := dfsCounter + 1;
    }

    /**
     * Pushes currentNode on the stack, then flags it as on the stack; records it as entered and
     * not yet left.
     */
    method Push(currentNode: nat)
      requires SccReady() && currentNode < vertexID
      modifies this`dfsStack, this`order, this`gray, onStack
      ensures SccReady()
      ensures dfsStack == old(dfsStack) + [currentNode]
      ensures onStack[..] == old(onStack[..])[currentNode := true]
      ensures order == old(order) + [currentNode] && gray == old(gray) + {currentNode}
    {
      dfsStack := dfsStack + [currentNode];
      onStack[currentNode] := true;
      order := order + [currentNode];
      gray := gray + {currentNode};
    }

    /**
     * The body of DFS's loop over the successors of currentNode: search neighbour if it is
     * undiscovered and lower currentNode's low link to neighbour's, or, if neighbour is still on
     * the stack, lower it to neighbour's number.
     */
    method HandleNeighbour(currentNode: nat, neighbour: nat, ghost s0: Tarjan.TState, ghost explored: set<nat>)
      requires Searching() && SearchInv(adjacencyList, s0)
      requires currentNode < vertexID && neighbour in adjacencyList[currentNode]
      requires Exploring(adjacencyList, s0, State(), currentNode, explored)
      modifies this`dfsStack, this`sccList, this`dfsCounter, this`comps, this`order, this`gray
      modifies dfsOrderID, lowLink, onStack
      ensures Searching() && Exploring(adjacencyList, s0, State(), currentNode, explored + {neighbour})
      decreases |Tarjan.Unvisited(s0.num)|, 1
    {
      if dfsOrderID[neighbour] == 0 {
        SearchChild(currentNode, neighbour, s0, explored);
      } else if onStack[neighbour] {
        LowerToStacked(currentNode, neighbour, s0, explored);
      } else {
        assert Exploring(adjacencyList, s0, State(), currentNode, explored + {neighbour}) by {
          PassStep(adjacencyList, s0, State(), currentNode, neighbour, explored);
        }
      }
    }

    /** A successor still on the stack: take its number into currentNode's low link. */
    method LowerToStacked(currentNode: nat, neighbour: nat, ghost s0: Tarjan.TState, ghost explored: set<nat>)
      requires Searching() && SearchInv(adjacencyList, s0)
      requires currentNode < vertexID && neighbour in adjacencyList[currentNode]
      requires Exploring(adjacencyList, s0, State(), currentNode, explored)
      requires dfsOrderID[neighbour] != 0 && onStack[neighbour]
      modifies lowLink
      ensures Searching() && Exploring(adjacencyList, s0, State(), currentNode, explored + {neighbour})
    {
      ghost var g := adjacencyList;
      ghost var s1 := State();
      lowLink[currentNode] := Min(lowLink[currentNode], dfsOrderID[neighbour]);
      ghost var s' := Tarjan.LowerLow(s1, currentNode, s1.num[neighbour]);
      assert SearchInv(g, s') && Exploring(g, s0, s', currentNode, explored + {neighbour}) by {
        BackStep(g, s0, s1, currentNode, neighbour, explored);
      }
      assert State() == s';
    }

    /** An undiscovered successor: search it, then take its low link into currentNode's. */
    method SearchChild(currentNode: nat, neighbour: nat, ghost s0: Tarjan.TState, ghost explored: set<nat>)
      requires Searching() && SearchInv(adjacencyList, s0)
      requires currentNode < vertexID && neighbour in adjacencyList[currentNode]
      requires Exploring(adjacencyList, s0, State(), currentNode, explored)
      requires dfsOrderID[neighbour] == 0
      modifies this`dfsStack, this`sccList, this`dfsCounter, this`comps, this`order, this`gray
      modifies dfsOrderID, lowLink, onStack
      ensures Searching() && Exploring(adjacencyList, s0, State(), currentNode, explored + {neighbour})
      decreases |Tarjan.Unvisited(s0.num)|, 0
    {
      ghost var s1 := State();
      assert |Tarjan.Unvisited(dfsOrderID[..])| < |Tarjan.Unvisited(s0.num)| by {
        ShrinkStep(adjacencyList, s0, s1, currentNode, explored);
      }
      DFS(neighbour);
      TakeChildLow(currentNode, neighbour, s0, s1, explored);
    }

    /** After the search of the successor neighbour: lowLink[currentNode] := min(lowLink[currentNode], lowLink[neighbour]). */
    method TakeChildLow(currentNode: nat, neighbour: nat, ghost s0: Tarjan.TState, ghost s1: Tarjan.TState, ghost explored: set<nat>)
      requires Searching() && SearchInv(adjacencyList, s1)
      requires currentNode < vertexID && neighbour in adjacencyList[currentNode]
      requires Exploring(adjacencyList, s0, s1, currentNode, explored)
      requires neighbour < |s1.num| && s1.num[neighbour] == 0 && Searched(adjacencyList, s1, State(), neighbour)
      modifies lowLink
      ensures Searching() && Exploring(adjacencyList, s0, State(), currentNode, explored + {neighbour})
    {
      ghost var g := adjacencyList;
      ghost var s2 := State();
      lowLink[currentNode] := Min(lowLink[currentNode], lowLink[neighbour]);
      ghost var s' := Tarjan.LowerLow(s2, currentNode, s2.low[neighbour]);
      assert SearchInv(g, s') && Exploring(g, s0, s', currentNode, explored + {neighbour}) by {
        ChildStep(g, s0, s1, s2, currentNode, neighbour, explored);
      }
      assert State() == s';
    }

    /**
     * The end of DFS: when currentNode's low link equals its number it is the root of a
     * component, which is popped off the stack; otherwise its search simply ends.
     */
    method LeaveVertex(currentNode: nat, ghost s0: Tarjan.TState)
      requires Searching() && SearchInv(adjacencyList, s0) && currentNode < vertexID
      requires Exploring(adjacencyList, s0, State(), currentNode, adjacencyList[currentNode])
      modifies this`dfsStack, this`sccList, this`comps, this`gray, onStack
      ensures Searching() && Searched(adjacencyList, s0, State(), currentNode)
    {
      if lowLink[currentNode] == dfsOrderID[currentNode] {
        CloseRoot(currentNode, s0);
      } else {
        ghost var g := adjacencyList;
        ghost var s := State();
        ghost var s' := Tarjan.Finish(s, currentNode);
        assert SearchInv(g, s') && Searched(g, s0, s', currentNode) by {
          EndStep(g, s0, s, currentNode);
        }
        gray := gray - {currentNode};
        assert State() == s';
      }
    }

    /** The end of DFS when currentNode is the root of its component. */
    method CloseRoot(currentNode: nat, ghost s0: Tarjan.TState)
      requires Searching() && SearchInv(adjacencyList, s0) && currentNode < vertexID
      requires Exploring(adjacencyList, s0, State(), currentNode, adjacencyList[currentNode])
      requires lowLink[currentNode] == dfsOrderID[currentNode]
      modifies this`dfsStack, this`sccList, this`comps, this`gray, onStack
      ensures Searching() && Searched(adjacencyList, s0, State(), currentNode)
    {
      ghost var g := adjacencyList;
      ghost var s := State();
      ghost var k := |s0.stack|;
      assert k < |dfsStack| && dfsStack[k] == currentNode
        && (forall i :: 0 <= i < |dfsStack| ==> dfsStack[i] < vertexID)
        && (forall i :: k < i < |dfsStack| ==> dfsStack[i] != currentNode) by {
        RootStep(g, s0, s, currentNode);
      }
      PopComponent(currentNode, k);
      assert SearchInv(g, State()) && Searched(g, s0, State(), currentNode) by {
        RootEmitStep(g, s0, s, currentNode);
      }
    }

    /**
     * The pop loop of DFS and what follows it: pops the stack down to and including root (which
     * sits at index k), clearing the flags, and records the popped labels, top first, as one
     * more component.
     */
    method PopComponent(root: nat, ghost k: nat)
      requires SccReady() && k < |dfsStack| && dfsStack[k] == root
      requires forall i :: 0 <= i < |dfsStack| ==> dfsStack[i] < vertexID
      requires forall i :: k < i < |dfsStack| ==> dfsStack[i] != root
      modifies this`dfsStack, this`sccList, this`comps, this`gray, onStack
      ensures SccReady()
      ensures State() == Tarjan.Emit(old(State()), k)
      ensures sccList == old(sccList) + [LabelsOf(Tarjan.Reverse(old(dfsStack)[k..]))]
    {
      ghost var C := dfsStack[k..];
      var scc := PopUntil(root, k);
      sccList := sccList + [scc];
      comps := comps + [Tarjan.Reverse(C)];
      gray := gray - {root};
    }

    /** The pop loop itself: pops down to root, clearing flags and collecting labels. */
    method PopUntil(root: nat, ghost k: nat) returns (scc: seq<string>)
      requires k < |dfsStack| && dfsStack[k] == root
      requires forall i :: 0 <= i < |dfsStack| ==> dfsStack[i] < |idToURLList| && dfsStack[i] < onStack.Length
      requires forall i :: k < i < |dfsStack| ==> dfsStack[i] != root
      modifies this`dfsStack, onStack
      ensures dfsStack == old(dfsStack)[..k]
      ensures onStack[..] == Tarjan.Clear(old(onStack[..]), old(dfsStack)[k..])
      ensures scc == LabelsOf(Tarjan.Reverse(old(dfsStack)[k..]))
    {
      ghost var stack0 := dfsStack;
      scc := [];
      var popped := false;
      while !popped
        invariant k <= |dfsStack| <= |stack0| && dfsStack == stack0[..|dfsStack|]
        invariant popped <==> |dfsStack| == k
        invariant |scc| == |stack0| - |dfsStack|
        invariant forall i :: 0 <= i < |scc| ==> scc[i] == idToURLList[stack0[|stack0| - 1 - i]]
        invariant forall v :: 0 <= v < onStack.Length ==> onStack[v] == (old(onStack[v]) && v !in stack0[|dfsStack|..])
        decreases |dfsStack|
      {
        var node := dfsStack[|dfsStack| - 1];
        assert stack0[|dfsStack| - 1..] == [node] + stack0[|dfsStack|..];
        dfsStack := dfsStack[..|dfsStack| - 1];
        onStack[node] := false;
        scc := scc + [idToURLList[node]];
        popped := node == root;
      }
      assert onStack[..] == Tarjan.Clear(old(onStack[..]), stack0[k..]);
    }

    /** Every vertex's strongly connected component, as lists of labels. */
    method getStronglyConnectedComponents() returns (sccArray: seq<seq<string>>)
      requires Valid()
      modifies this`dfsOrderID, this`lowLink, this`onStack, this`dfsStack, this`sccList, this`dfsCounter
      modifies this`comps, this`order, this`gray
      ensures Valid() && IsSccPartition(adjacencyList, comps)
      ensures Registry.LabelsMirror(idToURLList, sccArray, comps)
    {
      ResetSearch();
      SearchAll();
      assert IsSccPartition(adjacencyList, comps) by {
        FinalStep(adjacencyList, State());
      }
      sccArray := sccList;
    }

    /** The set-up of getStronglyConnectedComponents: fresh arrays of zeros and false, an empty stack, no components, the first number 1. */
    method ResetSearch()
      requires Valid()
      modifies this`dfsOrderID, this`lowLink, this`onStack, this`dfsStack, this`sccList, this`dfsCounter
      modifies this`comps, this`order, this`gray
      ensures fresh(dfsOrderID) && fresh(lowLink) && fresh(onStack)
      ensures Searching() && dfsStack == []
    {
      AllocateTables();
      ClearSearch();
      assert SearchInv(adjacencyList, State()) by {
        InitState(dfsOrderID[..], lowLink[..], onStack[..], vertexID);
        StartStep(adjacencyList);
      }
    }

    /** The three arrays of the search, one entry per vertex, all 0 and false. */
    method AllocateTables()
      modifies this`dfsOrderID, this`lowLink, this`onStack
      ensures fresh(dfsOrderID) && fresh(lowLink) && fresh(onStack) && dfsOrderID != lowLink
      ensures dfsOrderID.Length == vertexID && lowLink.Length == vertexID && onStack.Length == vertexID
      ensures forall v :: 0 <= v < vertexID ==> dfsOrderID[v] == 0 && lowLink[v] == 0 && !onStack[v]
    {
      var vertexCount := vertexID;
      dfsOrderID := new int[vertexCount](_ => 0);
      lowLink := new int[vertexCount](_ => 0);
      onStack := new bool[vertexCount](_ => false);
    }

    /** The stack, the counter and the ghost record of the search, all back to their start. */
    method ClearSearch()
      modifies this`dfsStack, this`sccList, this`dfsCounter, this`comps, this`order, this`gray
      ensures dfsStack == [] && sccList == [] && dfsCounter == 1 && comps == [] && order == [] && gray == {}
    {
      dfsStack := [];
      sccList := [];
      dfsCounter := 1;
      comps := [];
      order := [];
      gray := {};
    }

    /** The loop of getStronglyConnectedComponents: a search from every vertex still undiscovered. */
    method SearchAll()
      requires Searching() && dfsStack == []
      modifies this`dfsStack, this`sccList, this`dfsCounter, this`comps, this`order, this`gray
      modifies dfsOrderID, lowLink, onStack
      ensures Searching() && dfsStack == [] && forall v :: 0 <= v < vertexID ==> dfsOrderID[v] > 0
    {
      for i := 0 to vertexID
        invariant Searching() && dfsStack == []
        invariant forall v :: 0 <= v < i ==> dfsOrderID[v] > 0
      {
        SearchFrom(i);
      }
    }

    /** One round of that loop: search from vertex i unless it is already discovered. */
    method SearchFrom(i: nat)
      requires Searching() && dfsStack == [] && i < vertexID
      requires forall v :: 0 <= v < i ==> dfsOrderID[v] > 0
      modifies this`dfsStack, this`sccList, this`dfsCounter, this`comps, this`order, this`gray
      modifies dfsOrderID, lowLink, onStack
      ensures Searching() && dfsStack == []
      ensures forall v :: 0 <= v < i + 1 ==> dfsOrderID[v] > 0
    {
      if dfsOrderID[i] == 0 {
        ghost var s := State();
        DFS(i);
        assert dfsStack == [] && forall u :: 0 <= u < i + 1 ==> State().num[u] > 0 by {
          OuterStep(adjacencyList, s, State(), i);
        }
      }
    }
  }
}
