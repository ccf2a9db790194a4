/**
 * The clusters dictionary that `name_clusters` and `plot_vos_map` read: each
 * cluster id maps to a list of `(term, count)` tuples, and the dictionary's
 * insertion order is the order of the sequence.
 */
module Clusters {
  /** One `(term, count)` tuple. */
  datatype Ranked = Ranked(term: string, count: int)

  /** One cluster: its id and its ranked terms. */
  datatype RankedCluster = RankedCluster(id: string, keywords: seq<Ranked>)

  /** `[kw for kw, _ in keywords]`. */
  function Terms(keywords: seq<Ranked>): (ts: seq<string>)
    ensures |ts| == |keywords|
    ensures forall k :: 0 <= k < |keywords| ==> ts[k] == keywords[k].term
  {
    seq(|keywords|, k requires 0 <= k < |keywords| => keywords[k].term)
  }
}
