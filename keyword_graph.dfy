/**
 * The keyword map graph (scripts/visualize/vosmapper/build_graph.py): one node
 * per cleaned keyword labelled with its cluster, an edge for every pair of
 * keywords that occur together in a cluster, weighted by how often they do,
 * and every weight divided by the largest one.
 */
module KeywordGraph {
  import opened Wrappers
  import opened Builtins
  import opened Cooccurrence

  /** A cluster keyword: a bare string or a `(term, count)` tuple. */
  datatype Keyword = Plain(text: string) | Counted(term: string, count: int)

  /** A cluster: its id and its keywords, in the order the clusters dictionary holds them. */
  datatype Cluster = Cluster(id: string, keywords: seq<Keyword>)

  /** The keyword's term: the string itself, or the tuple's first element. */
  function Term(kw: Keyword): string {
    match kw
    case Plain(text) => text
    case Counted(term, _) => term
  }

  /** `clean_kw`: the term, stripped and lower-cased. */
  function CleanKw(kw: Keyword): string {
    Lower(Strip(Term(kw)))
  }

  /** A cleaned keyword is lower-case and has no whitespace at either end. */
  lemma CleanKwShape(kw: Keyword)
    ensures var r := CleanKw(kw);
      && Lower(r) == r
      && (r == [] || (!IsSpace(r[0]) && !IsSpace(r[|r| - 1])))
  {
    LowerIdempotent(Strip(Term(kw)));
    LowerKeepsSpace(Strip(Term(kw)));
  }

  /** Lower-casing keeps whitespace and non-whitespace where they were. */
  lemma LowerKeepsSpace(s: string)
    ensures forall k :: 0 <= k < |s| ==> (IsSpace(Lower(s)[k]) <==> IsSpace(s[k]))
  {
  }

  /** Cleaning a cleaned keyword changes nothing. */
  lemma CleanKwIdempotent(kw: Keyword)
    ensures CleanKw(Plain(CleanKw(kw))) == CleanKw(kw)
  {
    var r := CleanKw(kw);
    CleanKwShape(kw);
    StripUnchanged(r);
  }

  /** A cluster's keywords after cleaning. */
  function Cleaned(kws: seq<Keyword>): (r: seq<string>)
    ensures |r| == |kws|
    ensures forall i :: 0 <= i < |kws| ==> r[i] == CleanKw(kws[i])
  {
    seq(|kws|, i requires 0 <= i < |kws| => CleanKw(kws[i]))
  }

  /** `cluster_names.get(cluster_id, f"Cluster {cluster_id}")`. */
  function ClusterLabel(names: map<string, string>, id: string): string {
    if id in names then names[id] else "Cluster " + id
  }

  /** Every term of `ws` labelled `clusterLabel`. */
  function LabelAll(ws: seq<string>, clusterLabel: string): (m: map<string, string>)
    ensures forall w :: w in m <==> w in ws
    ensures forall w :: w in m ==> m[w] == clusterLabel
  {
    map w | w in ws :: clusterLabel
  }

  /** `m` with each term of `ws` set to `clusterLabel`, one update at a time. */
  function Relabel(m: map<string, string>, ws: seq<string>, clusterLabel: string): map<string, string> {
    if ws == [] then m
    else Relabel(m, ws[..|ws| - 1], clusterLabel)[ws[|ws| - 1] := clusterLabel]
  }

  /** The updates one at a time amount to labelling all the terms at once. */
  lemma {:induction false} RelabelIsUnion(m: map<string, string>, ws: seq<string>, clusterLabel: string)
    ensures Relabel(m, ws, clusterLabel) == m + LabelAll(ws, clusterLabel)
  {
    if ws != [] {
      var init, w := ws[..|ws| - 1], ws[|ws| - 1];
      RelabelIsUnion(m, init, clusterLabel);
      assert ws == init + [w];
      assert m + LabelAll(ws, clusterLabel) == (m + LabelAll(init, clusterLabel))[w := clusterLabel];
    }
  }

  /** The clusters with their keywords cleaned, as both loops see them. */
  function Groups(clusters: seq<Cluster>): (gs: seq<Group>)
    ensures |gs| == |clusters|
    ensures forall c :: 0 <= c < |clusters| ==> gs[c] == Group(clusters[c].id, Cleaned(clusters[c].keywords))
  {
    seq(|clusters|, c requires 0 <= c < |clusters| => Group(clusters[c].id, Cleaned(clusters[c].keywords)))
  }

  /** The node labels after the node loop: a later cluster relabels a keyword it shares with an earlier one. */
  function NodeLabels(groups: seq<Group>, names: map<string, string>): map<string, string> {
    if groups == [] then map[]
    else
      var last := groups[|groups| - 1];
      NodeLabels(groups[..|groups| - 1], names) + LabelAll(last.terms, ClusterLabel(names, last.id))
  }

  /** The graph `build_graph` returns. */
  datatype Graph = Graph(nodes: map<string, string>, weights: map<Edge, nat>, norms: map<Edge, real>)

  /**
   * `max()` of nothing raises `ValueError`; its message differs between
   * Python versions, so only the exception type is kept.
   */
  const EmptyMax: string := "ValueError"

  /**
   * `build_graph`: the node loop, the edge loop, then the normalised weights;
   * a graph without edges fails at `max`.
   */
  method BuildGraph(clusters: seq<Cluster>, names: map<string, string>) returns (r: Result<Graph, string>)
    ensures r.Failure? <==> forall e :: TotalHits(Groups(clusters), e) == 0
    ensures r.Failure? ==> r.error == EmptyMax
    ensures r.Success? ==> r.value.nodes == NodeLabels(Groups(clusters), names)
    ensures r.Success? ==> forall e :: Weight(r.value.weights, e) == TotalHits(Groups(clusters), e)
    ensures r.Success? ==> forall e :: e in r.value.weights ==> r.value.weights[e] >= 1
    ensures r.Success? ==> NormalisedBy(r.value.weights, r.value.norms)
  {
    var nodes := AddNodes(clusters, names);
    var weights := AddEdges(Groups(clusters));
    var norms := Normalise(weights);
    match norms
    case Failure(err) =>
      assert forall e :: TotalHits(Groups(clusters), e) == 0 by {
        forall e ensures TotalHits(Groups(clusters), e) == 0 {
          assert Weight(weights, e) == 0;
        }
      }
      r := Failure(err);
    case Success(ns) =>
      var e :| e in weights;
      assert TotalHits(Groups(clusters), e) != 0;
      r := Success(Graph(nodes, weights, ns));
  }

  /** The node loop: `add_node` on a node that exists relabels it. */
  method AddNodes(clusters: seq<Cluster>, names: map<string, string>) returns (nodes: map<string, string>)
    ensures nodes == NodeLabels(Groups(clusters), names)
  {
    nodes := map[];
    var c := 0;
    while c < |clusters|
      invariant 0 <= c <= |clusters|
      invariant nodes == NodeLabels(Groups(clusters[..c]), names)
    {
      nodes := LabelCluster(nodes, clusters[c].keywords, ClusterLabel(names, clusters[c].id));
      NodeLabelsSnoc(clusters, c, names);
      c := c + 1;
    }
    assert clusters[..c] == clusters;
  }

  /** One cluster of the node loop: each cleaned keyword gets the cluster's label. */
  method LabelCluster(nodes0: map<string, string>, kws: seq<Keyword>, clusterLabel: string) returns (nodes: map<string, string>)
    ensures nodes == nodes0 + LabelAll(Cleaned(kws), clusterLabel)
  {
    nodes := nodes0;
    var k := 0;
    while k < |kws|
      invariant 0 <= k <= |kws|
      invariant nodes == Relabel(nodes0, Cleaned(kws[..k]), clusterLabel)
    {
      nodes := nodes[CleanKw(kws[k]) := clusterLabel];
      assert Cleaned(kws[..k + 1])[..k] == Cleaned(kws[..k]);
      k := k + 1;
    }
    assert kws[..k] == kws;
    RelabelIsUnion(nodes0, Cleaned(kws), clusterLabel);
  }

  lemma NodeLabelsSnoc(clusters: seq<Cluster>, c: nat, names: map<string, string>)
    requires c < |clusters|
    ensures NodeLabels(Groups(clusters[..c + 1]), names)
      == NodeLabels(Groups(clusters[..c]), names) + LabelAll(Cleaned(clusters[c].keywords), ClusterLabel(names, clusters[c].id))
  {
    GroupsSnoc(clusters, c);
    var gs := Groups(clusters[..c + 1]);
    assert gs[..|gs| - 1] == Groups(clusters[..c]);
  }

  lemma GroupsSnoc(clusters: seq<Cluster>, c: nat)
    requires c < |clusters|
    ensures Groups(clusters[..c + 1]) == Groups(clusters[..c]) + [Group(clusters[c].id, Cleaned(clusters[c].keywords))]
  {
  }

  /**
   * `norms` is `weights` divided by the largest weight: same edges, each value
   * in (0, 1], 1 on a heaviest edge, and the weights' ratios kept.
   */
  predicate NormalisedBy(weights: map<Edge, nat>, norms: map<Edge, real>) {
    && norms.Keys == weights.Keys
    && (forall e :: e in norms ==> 0.0 < norms[e] <= 1.0)
    && (exists e :: e in norms && norms[e] == 1.0)
    && (forall e, f :: e in norms && f in norms ==> norms[e] * weights[f] as real == norms[f] * weights[e] as real)
  }

  /** `max_weight`, then `weight_norm = weight / max_weight` on every edge. */
  method Normalise(weights: map<Edge, nat>) returns (r: Result<map<Edge, real>, string>)
    requires forall e :: e in weights ==> weights[e] >= 1
    ensures r.Failure? <==> weights == map[]
    ensures r.Failure? ==> r.error == EmptyMax
    ensures r.Success? ==> NormalisedBy(weights, r.value)
  {
    if weights == map[] {
      return Failure(EmptyMax);
    }
    var top: nat := 0;
    var todo := weights.Keys;
    ghost var heaviest: Edge := {};
    while todo != {}
      invariant todo <= weights.Keys
      invariant forall e :: e in weights && e !in todo ==> weights[e] <= top
      invariant todo == weights.Keys || (heaviest in weights && weights[heaviest] == top)
      decreases |todo|
    {
      var e :| e in todo;
      if weights[e] > top || todo == weights.Keys {
        top := weights[e];
        heaviest := e;
      }
      todo := todo - {e};
    }
    assert heaviest in weights by {
      var some :| some in weights;
      assert some in weights.Keys;
    }
    DivideNormalises(weights, heaviest);
    return Success(Divide(weights, top));
  }

  /** Every weight divided by `top`. */
  function Divide(weights: map<Edge, nat>, top: nat): map<Edge, real>
    requires top > 0
  {
    map e | e in weights :: weights[e] as real / top as real
  }

  /** Dividing by the weight of a heaviest edge normalises. */
  lemma DivideNormalises(weights: map<Edge, nat>, heaviest: Edge)
    requires forall e :: e in weights ==> 1 <= weights[e] <= Weight(weights, heaviest)
    requires heaviest in weights
    ensures NormalisedBy(weights, Divide(weights, weights[heaviest]))
  {
    var top := weights[heaviest];
    var ns := Divide(weights, top);
    assert ns.Keys == weights.Keys;
    forall e | e in ns
      ensures 0.0 < ns[e] <= 1.0
    {
      FractionBounds(weights[e] as real, top as real);
    }
    assert ns[heaviest] == 1.0 by {
      SelfRatio(top as real);
    }
    forall e, f | e in ns && f in ns
      ensures ns[e] * weights[f] as real == ns[f] * weights[e] as real
    {
      ScaledRatio(weights[e] as real, weights[f] as real, top as real);
    }
  }

  lemma FractionBounds(a: real, t: real)
    requires 1.0 <= a <= t
    ensures 0.0 < a / t <= 1.0
  {
    assert a / t * t == a;
  }

  lemma SelfRatio(t: real)
    requires t > 0.0
    ensures t / t == 1.0
  {
  }

  lemma ScaledRatio(a: real, b: real, t: real)
    requires t > 0.0
    ensures (a / t) * b == (b / t) * a
  {
    assert a / t * b == a * b / t;
    assert b / t * a == a * b / t;
  }

  // ---------------------------------------------------------------------------
  // Properties of the graph.

  /** Term `w` is among cluster `c`'s terms. */
  predicate InGroup(groups: seq<Group>, c: int, w: string) {
    0 <= c < |groups| && w in groups[c].terms
  }

  /** The nodes are exactly the cleaned keywords of all clusters. */
  lemma {:induction false} NodesAreKeywords(groups: seq<Group>, names: map<string, string>, w: string)
    ensures w in NodeLabels(groups, names) <==> exists c :: InGroup(groups, c, w)
  {
    if groups != [] {
      var n := |groups| - 1;
      var init := groups[..n];
      NodesAreKeywords(init, names, w);
      if w in NodeLabels(groups, names) {
        if w in groups[n].terms {
          assert InGroup(groups, n, w);
        } else {
          var c :| InGroup(init, c, w);
          assert init[c] == groups[c];
          assert InGroup(groups, c, w);
        }
      } else {
        forall c | InGroup(groups, c, w) ensures false {
          assert c < n;
          assert init[c] == groups[c];
          assert InGroup(init, c, w);
        }
      }
    }
  }

  /** A keyword takes the label of the LAST cluster that contains it. */
  lemma {:induction false} LastClusterWins(groups: seq<Group>, names: map<string, string>, c: nat, w: string)
    requires InGroup(groups, c, w)
    requires forall d :: c < d < |groups| ==> !InGroup(groups, d, w)
    ensures w in NodeLabels(groups, names)
    ensures NodeLabels(groups, names)[w] == ClusterLabel(names, groups[c].id)
  {
    var n := |groups| - 1;
    var init := groups[..n];
    if c < n {
      assert !InGroup(groups, n, w);
      assert init[c] == groups[c];
      forall d | c < d < n ensures !InGroup(init, d, w) {
        assert init[d] == groups[d];
        assert !InGroup(groups, d, w);
      }
      LastClusterWins(init, names, c, w);
    }
  }
}
