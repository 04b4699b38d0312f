/** The label registry of the project class, and the labelling of vertex-id sequences, as values. */
module Registry {
  import opened Graphs

  /**
   * The registry is a bijection between the labels and 0 .. n - 1 (urlToID one way, idToURL
   * the other), and adj has one successor set per vertex, every edge ending at a vertex.
   */
  ghost predicate Consistent(urlToID: map<string, nat>, idToURL: seq<string>, adj: Graph, n: nat) {
    && |idToURL| == n
    && |adj| == n
    && (forall u :: u in urlToID ==> urlToID[u] < n && idToURL[urlToID[u]] == u)
    && (forall i :: 0 <= i < n ==> idToURL[i] in urlToID && urlToID[idToURL[i]] == i)
    && WellFormed(adj)
  }

  /** The labels of a sequence of vertex ids. */
  function Labels(idToURL: seq<string>, ids: seq<nat>): (r: seq<string>)
    requires forall k :: 0 <= k < |ids| ==> ids[k] < |idToURL|
    ensures |r| == |ids| && forall k :: 0 <= k < |ids| ==> r[k] == idToURL[ids[k]]
  {
    seq(|ids|, k requires 0 <= k < |ids| => idToURL[ids[k]])
  }

  /** Each entry of labelled is the labelling of the id sequence at the same index of comps. */
  ghost predicate LabelsMirror(idToURL: seq<string>, labelled: seq<seq<string>>, comps: seq<seq<nat>>) {
    && |labelled| == |comps|
    && (forall i :: 0 <= i < |comps| ==>
          (forall k :: 0 <= k < |comps[i]| ==> comps[i][k] < |idToURL|) && labelled[i] == Labels(idToURL, comps[i]))
  }

  /**
   * The strongly-connected-components search's tables: the three arrays have one entry per
   * label, and labelled holds the labels of comps.
   */
  ghost predicate Tables(idToURL: seq<string>, numLen: nat, lowLen: nat, onLen: nat,
                         labelled: seq<seq<string>>, comps: seq<seq<nat>>) {
    numLen == |idToURL| && lowLen == |idToURL| && onLen == |idToURL| && LabelsMirror(idToURL, labelled, comps)
  }
}
