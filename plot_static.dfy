/**
 * The graph-building part of the static keyword map
 * (scripts/visualize/vosmapper/plot_static.py): the colour table over the
 * cluster labels, the loop that adds nodes, term frequencies and weighted
 * edges, the edge colours and the label font sizes. Drawing is left out.
 */
module PlotStatic {
  import opened Wrappers
  import opened Builtins
  import opened Clusters
  import opened Cooccurrence
  import VosUtils

  /** `cluster_names`: `None` and an empty dictionary are both falsy and behave alike. */
  type Names = map<string, string>

  /** The labels that get a colour: the names' values when there are names, else the cluster ids. */
  function ColouredLabels(clusters: seq<RankedCluster>, names: Names): set<string> {
    if |names| > 0 then names.Values else set c | c in clusters :: c.id
  }

  /** The label a cluster's nodes get: its name, or its id when it has none. */
  function PlotLabel(names: Names, id: string): string {
    if |names| > 0 && id in names then names[id] else id
  }

  /** Whether the colour lookup `label_color_map[label]` succeeds for cluster `c`. */
  predicate HasColour(clusters: seq<RankedCluster>, names: Names, c: int)
    requires 0 <= c < |clusters|
  {
    PlotLabel(names, clusters[c].id) in ColouredLabels(clusters, names)
  }

  /**
   * The lookup fails exactly when there are names, the cluster id is not one
   * of their keys, and the id is not itself one of their values.
   */
  lemma ColourLookupFails(clusters: seq<RankedCluster>, names: Names, c: nat)
    requires c < |clusters|
    ensures !HasColour(clusters, names, c)
      <==> |names| > 0 && clusters[c].id !in names && clusters[c].id !in names.Values
  {
    var id := clusters[c].id;
    if |names| > 0 && id in names {
      assert names[id] in names.Values;
    }
    if |names| == 0 {
      assert id in set d | d in clusters :: d.id by {
        assert clusters[c] in clusters;
      }
    }
  }

  /** Every cluster's colour lookup succeeds. */
  predicate AllColoured(clusters: seq<RankedCluster>, names: Names) {
    forall c :: 0 <= c < |clusters| ==> HasColour(clusters, names, c)
  }

  /** Cluster `c` is the first whose colour lookup fails. */
  predicate FirstUncoloured(clusters: seq<RankedCluster>, names: Names, c: int) {
    && 0 <= c < |clusters| && !HasColour(clusters, names, c)
    && forall d :: 0 <= d < c ==> HasColour(clusters, names, d)
  }

  /** One node sighting in loop order: a term, the label of its cluster and its count there. */
  datatype Sighting = Sighting(term: string, clusterLabel: string, count: int)

  function ClusterSightings(c: RankedCluster, names: Names): (ss: seq<Sighting>)
    ensures |ss| == |c.keywords|
    ensures forall k :: 0 <= k < |ss| ==> ss[k] == Sighting(c.keywords[k].term, PlotLabel(names, c.id), c.keywords[k].count)
  {
    seq(|c.keywords|, k requires 0 <= k < |c.keywords| =>
      Sighting(c.keywords[k].term, PlotLabel(names, c.id), c.keywords[k].count))
  }

  /** Every `(term, count)` of every cluster, in loop order. */
  function Sightings(clusters: seq<RankedCluster>, names: Names): seq<Sighting> {
    if clusters == [] then []
    else Sightings(clusters[..|clusters| - 1], names) + ClusterSightings(clusters[|clusters| - 1], names)
  }

  /** Node labels: a term keeps the label of the first sighting (`if kw not in seen_terms`). */
  function FirstLabels(ss: seq<Sighting>): map<string, string> {
    if ss == [] then map[]
    else
      var m := FirstLabels(ss[..|ss| - 1]);
      var s := ss[|ss| - 1];
      if s.term in m then m else m[s.term := s.clusterLabel]
  }

  /** `term_freq`: every sighting overwrites the count (`term_freq[kw] = count`). */
  function LastCounts(ss: seq<Sighting>): map<string, int> {
    if ss == [] then map[]
    else
      var s := ss[|ss| - 1];
      LastCounts(ss[..|ss| - 1])[s.term := s.count]
  }

  /** The clusters as the edge count sees them: the raw terms, uncleaned. */
  function PlotGroups(clusters: seq<RankedCluster>): (gs: seq<Group>)
    ensures |gs| == |clusters|
    ensures forall c :: 0 <= c < |clusters| ==> gs[c] == Group(clusters[c].id, Terms(clusters[c].keywords))
  {
    seq(|clusters|, c requires 0 <= c < |clusters| => Group(clusters[c].id, Terms(clusters[c].keywords)))
  }

  /** The graph the loop builds. */
  datatype PlotGraph = PlotGraph(nodes: map<string, string>, termFreq: map<string, int>, weights: map<Edge, nat>)

  /**
   * The loop of `plot_vos_map` over the clusters: the colour lookup, then
   * nodes (first label wins), term frequencies (last count wins) and the
   * co-occurrence edges. A failed colour lookup stops the function with the
   * missing label.
   */
  method BuildPlotGraph(clusters: seq<RankedCluster>, names: Names) returns (r: Result<PlotGraph, string>)
    ensures r.Failure? <==> !AllColoured(clusters, names)
    ensures r.Failure? ==> exists c :: FirstUncoloured(clusters, names, c) && r.error == PlotLabel(names, clusters[c].id)
    ensures r.Success? ==> r.value.nodes == FirstLabels(Sightings(clusters, names))
    ensures r.Success? ==> r.value.termFreq == LastCounts(Sightings(clusters, names))
    ensures r.Success? ==> forall e :: Weight(r.value.weights, e) == TotalHits(PlotGroups(clusters), e)
  {
    var coloured := ColouredLabels(clusters, names);
    var g := PlotGraph(map[], map[], map[]);
    var c := 0;
    while c < |clusters|
      invariant 0 <= c <= |clusters|
      invariant forall d :: 0 <= d < c ==> HasColour(clusters, names, d)
      invariant Built(clusters, names, c, g)
    {
      var clusterLabel := PlotLabel(names, clusters[c].id);
      if clusterLabel !in coloured {
        assert FirstUncoloured(clusters, names, c);
        r := Failure(clusterLabel);
        return;
      }
      g := AddCluster(clusters, names, c, g, clusterLabel);
      c := c + 1;
    }
    assert clusters[..c] == clusters;
    return Success(g);
  }

  /** The graph after the loop has handled the first `c` clusters. */
  ghost predicate Built(clusters: seq<RankedCluster>, names: Names, c: nat, g: PlotGraph)
    requires c <= |clusters|
  {
    && g.nodes == FirstLabels(Sightings(clusters[..c], names))
    && g.termFreq == LastCounts(Sightings(clusters[..c], names))
    && (forall e :: Weight(g.weights, e) == TotalHits(PlotGroups(clusters[..c]), e))
    && (forall e :: e in g.weights ==> g.weights[e] >= 1)
  }

  /** One turn of the loop once the colour lookup has succeeded: the terms, then the edges. */
  method AddCluster(clusters: seq<RankedCluster>, names: Names, c: nat, g: PlotGraph, clusterLabel: string)
    returns (g': PlotGraph)
    requires c < |clusters| && Built(clusters, names, c, g)
    requires clusterLabel == PlotLabel(names, clusters[c].id)
    ensures Built(clusters, names, c + 1, g')
  {
    var nodes, termFreq := AddTerms(g.nodes, g.termFreq, Sightings(clusters[..c], names), clusters[c], names, clusterLabel);
    SightingsSnoc(clusters, names, c);
    var weights := AddClusterEdges(g.weights, Terms(clusters[c].keywords));
    PlotGroupsSnoc(clusters, c);
    g' := PlotGraph(nodes, termFreq, weights);
  }

  /** The loop over one cluster's `(kw, count)` tuples. */
  method AddTerms(nodes0: map<string, string>, termFreq0: map<string, int>, ghost before: seq<Sighting>,
                  cluster: RankedCluster, names: Names, clusterLabel: string)
    returns (nodes: map<string, string>, termFreq: map<string, int>)
    requires nodes0 == FirstLabels(before) && termFreq0 == LastCounts(before)
    requires clusterLabel == PlotLabel(names, cluster.id)
    ensures nodes == FirstLabels(before + ClusterSightings(cluster, names))
    ensures termFreq == LastCounts(before + ClusterSightings(cluster, names))
  {
    ghost var here := ClusterSightings(cluster, names);
    var keywords := cluster.keywords;
    nodes, termFreq := nodes0, termFreq0;
    var k := 0;
    assert before + here[..0] == before;
    while k < |keywords|
      invariant 0 <= k <= |keywords|
      invariant nodes == FirstLabels(before + here[..k])
      invariant termFreq == LastCounts(before + here[..k])
    {
      assert before + here[..k + 1] == (before + here[..k]) + [here[k]];
      SightingsStep(before + here[..k], here[k]);
      var kw := keywords[k].term;
      termFreq := termFreq[kw := keywords[k].count];
      if kw !in nodes {
        nodes := nodes[kw := clusterLabel];
      }
      k := k + 1;
    }
    assert here[..k] == here;
  }

  /** One more sighting: its term gets a label unless it has one, and its count in any case. */
  lemma SightingsStep(ss: seq<Sighting>, s: Sighting)
    ensures FirstLabels(ss + [s])
      == if s.term in FirstLabels(ss) then FirstLabels(ss) else FirstLabels(ss)[s.term := s.clusterLabel]
    ensures LastCounts(ss + [s]) == LastCounts(ss)[s.term := s.count]
  {
    assert (ss + [s])[..|ss|] == ss;
  }

  lemma SightingsSnoc(clusters: seq<RankedCluster>, names: Names, c: nat)
    requires c < |clusters|
    ensures Sightings(clusters[..c + 1], names) == Sightings(clusters[..c], names) + ClusterSightings(clusters[c], names)
  {
    assert clusters[..c + 1][..c] == clusters[..c];
  }

  lemma PlotGroupsSnoc(clusters: seq<RankedCluster>, c: nat)
    requires c < |clusters|
    ensures forall e ::
      TotalHits(PlotGroups(clusters[..c + 1]), e) == TotalHits(PlotGroups(clusters[..c]), e) + Hits(Terms(clusters[c].keywords), e)
  {
    assert PlotGroups(clusters[..c + 1])[..c] == PlotGroups(clusters[..c]);
  }

  // ---------------------------------------------------------------------------
  // Properties.

  /** A node keeps the label of the FIRST sighting of its term (unlike `build_graph`). */
  lemma {:induction false} FirstSightingWins(ss: seq<Sighting>, i: nat)
    requires i < |ss|
    requires forall j :: 0 <= j < i ==> ss[j].term != ss[i].term
    ensures ss[i].term in FirstLabels(ss)
    ensures FirstLabels(ss)[ss[i].term] == ss[i].clusterLabel
  {
    var n := |ss| - 1;
    if i < n {
      FirstSightingWins(ss[..n], i);
    } else {
      NotSeen(ss[..n], ss[i].term);
    }
  }

  lemma {:induction false} NotSeen(ss: seq<Sighting>, w: string)
    requires forall j :: 0 <= j < |ss| ==> ss[j].term != w
    ensures w !in FirstLabels(ss)
  {
    if ss != [] {
      NotSeen(ss[..|ss| - 1], w);
    }
  }

  /** `term_freq[kw]` is the count of the LAST sighting of the term. */
  lemma {:induction false} LastCountWins(ss: seq<Sighting>, i: nat)
    requires i < |ss|
    requires forall j :: i < j < |ss| ==> ss[j].term != ss[i].term
    ensures ss[i].term in LastCounts(ss)
    ensures LastCounts(ss)[ss[i].term] == ss[i].count
  {
    var n := |ss| - 1;
    if i < n {
      LastCountWins(ss[..n], i);
    }
  }

  /** Every node has a frequency: the node and frequency tables have the same terms. */
  lemma {:induction false} SameTerms(ss: seq<Sighting>)
    ensures FirstLabels(ss).Keys == LastCounts(ss).Keys
  {
    if ss != [] {
      SameTerms(ss[..|ss| - 1]);
    }
  }

  /** Whether both end points of an edge carry the same cluster label. */
  predicate SameLabel(nodes: map<string, string>, e: Edge) {
    forall u, v :: u in e && v in e ==> u in nodes && v in nodes && nodes[u] == nodes[v]
  }

  /** The edge colours: black inside one cluster label, gray across labels. */
  function EdgeColours(nodes: map<string, string>, weights: map<Edge, nat>): map<Edge, string> {
    map e | e in weights :: if SameLabel(nodes, e) then "black" else "gray"
  }

  /** An edge `{u, v}` between two nodes is black exactly when `u` and `v` share a label. */
  lemma EdgeColourRule(nodes: map<string, string>, weights: map<Edge, nat>, u: string, v: string)
    requires {u, v} in weights && u in nodes && v in nodes
    ensures EdgeColours(nodes, weights)[{u, v}] == "black" <==> nodes[u] == nodes[v]
    ensures EdgeColours(nodes, weights)[{u, v}] == "gray" <==> nodes[u] != nodes[v]
  {
    if nodes[u] != nodes[v] {
      assert !SameLabel(nodes, {u, v}) by {
        assert u in {u, v} && v in {u, v};
      }
    }
  }

  /** `font_size_from_node_size`: `int(size / 60)` clamped to [6, 7]. */
  function FontSize(size: int): (f: int)
    ensures 6 <= f <= 7
    ensures size >= 0 ==> (f == 7 <==> size >= 420)
  {
    VosUtils.SizeOver60IsDivision(size);
    VosUtils.Max(6, VosUtils.Min(7, VosUtils.SizeOver60(size)))
  }

  /** `term_freq.get(n, 1)`. */
  function Freq(g: PlotGraph, n: string): int {
    if n in g.termFreq then g.termFreq[n] else 1
  }

  /** `node_size_map`: each node's size from its frequency, 1 when it has none. */
  function NodeSizes(g: PlotGraph, scale: real): (sizes: map<string, int>)
    ensures sizes.Keys == g.nodes.Keys
    ensures forall n :: n in sizes ==> sizes[n] == VosUtils.BucketSize(Freq(g, n), scale)
  {
    map n | n in g.nodes :: VosUtils.BucketSize(Freq(g, n), scale)
  }

  /**
   * For a non-negative scale a more frequent node is never drawn smaller, and
   * a node without a recorded frequency gets the smallest size.
   */
  lemma NodeSizesOrdered(g: PlotGraph, scale: real, m: string, n: string)
    requires scale >= 0.0 && m in g.nodes && n in g.nodes
    ensures Freq(g, m) <= Freq(g, n) ==> NodeSizes(g, scale)[m] <= NodeSizes(g, scale)[n]
    ensures m !in g.termFreq ==> NodeSizes(g, scale)[m] <= NodeSizes(g, scale)[n]
  {
    if Freq(g, m) <= Freq(g, n) {
      VosUtils.BucketSizeMonotone(Freq(g, m), Freq(g, n), scale);
    }
    if Freq(g, n) >= 1 {
      VosUtils.BucketSizeMonotone(1, Freq(g, n), scale);
    }
  }

  /**
   * At the default scale 1.0 a label is drawn at size 6 for a term seen fewer
   * than 15 times and at size 7 otherwise.
   */
  lemma LabelSizes(g: PlotGraph, n: string)
    requires n in g.nodes && n in g.termFreq
    ensures var f := FontSize(NodeSizes(g, 1.0)[n]);
      (f == 7 <==> g.termFreq[n] >= 15)
  {
    assert 50.0 * 1.0 == 50.0 && 200.0 * 1.0 == 200.0 && 900.0 * 1.0 == 900.0;
  }
}
