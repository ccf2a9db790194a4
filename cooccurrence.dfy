/**
 * The keyword co-occurrence count shared by `build_graph`
 * (scripts/visualize/vosmapper/build_graph.py) and `plot_vos_map`
 * (scripts/visualize/vosmapper/plot_static.py): for every position pair
 * i < j of one cluster's terms, the undirected edge between the two terms
 * gains one unit of weight, and an edge is created with weight 1 the first
 * time.
 */
module Cooccurrence {
  /** An undirected edge, as the set of its end points; a self-loop is a singleton. */
  type Edge = set<string>

  /** The weight the graph gives an edge, 0 when there is no such edge. */
  function Weight(weights: map<Edge, nat>, e: Edge): nat {
    if e in weights then weights[e] else 0
  }

  /** How many terms `y` of `rest` make the edge `{x, y}` equal to `e`. */
  function Partner(x: string, rest: seq<string>, e: Edge): nat {
    if rest == [] then 0
    else
      var last := if {x, rest[|rest| - 1]} == e then 1 else 0;
      Partner(x, rest[..|rest| - 1], e) + last
  }

  /** The pairs whose first position is below `i`. */
  function Done(terms: seq<string>, i: nat, e: Edge): nat
    requires i <= |terms|
  {
    if i == 0 then 0 else Done(terms, i - 1, e) + Partner(terms[i - 1], terms[i..], e)
  }

  /** The number of position pairs i < j with `{terms[i], terms[j]} == e`. */
  function Hits(terms: seq<string>, e: Edge): nat {
    Done(terms, |terms|, e)
  }

  /** Positions `i < j` of `terms` whose two terms are the end points of `e`. */
  predicate PairAt(terms: seq<string>, i: int, j: int, e: Edge) {
    0 <= i < j < |terms| && {terms[i], terms[j]} == e
  }

  /**
   * The double loop over one cluster's terms: each position pair adds one to
   * its edge, and every edge of the graph keeps a weight of at least 1.
   */
  method AddClusterEdges(weights0: map<Edge, nat>, terms: seq<string>) returns (weights: map<Edge, nat>)
    requires forall e :: e in weights0 ==> weights0[e] >= 1
    ensures forall e :: Weight(weights, e) == Weight(weights0, e) + Hits(terms, e)
    ensures forall e :: e in weights ==> weights[e] >= 1
    ensures forall e :: e in weights <==> e in weights0 || Hits(terms, e) > 0
  {
    weights := weights0;
    var i := 0;
    while i < |terms|
      invariant 0 <= i <= |terms|
      invariant forall e :: Weight(weights, e) == Weight(weights0, e) + Done(terms, i, e)
      invariant forall e :: e in weights ==> weights[e] >= 1
    {
      weights := AddPartnerEdges(weights, terms[i], terms[i + 1..]);
      i := i + 1;
    }
    forall e ensures e in weights <==> e in weights0 || Hits(terms, e) > 0 {
      assert Weight(weights, e) == Weight(weights0, e) + Hits(terms, e);
    }
  }

  /** The inner loop: the edge from `x` to each later term gains one unit. */
  method AddPartnerEdges(weights0: map<Edge, nat>, x: string, rest: seq<string>) returns (weights: map<Edge, nat>)
    requires forall e :: e in weights0 ==> weights0[e] >= 1
    ensures forall e :: Weight(weights, e) == Weight(weights0, e) + Partner(x, rest, e)
    ensures forall e :: e in weights ==> weights[e] >= 1
  {
    weights := weights0;
    var j := 0;
    while j < |rest|
      invariant 0 <= j <= |rest|
      invariant forall e :: Weight(weights, e) == Weight(weights0, e) + Partner(x, rest[..j], e)
      invariant forall e :: e in weights ==> weights[e] >= 1
    {
      var edge := {x, rest[j]};
      weights := weights[edge := Weight(weights, edge) + 1];
      assert rest[..j + 1][..j] == rest[..j];
      j := j + 1;
    }
    assert rest[..j] == rest;
  }

  lemma {:induction false} PartnerPositive(x: string, rest: seq<string>, k: nat)
    requires k < |rest|
    ensures Partner(x, rest, {x, rest[k]}) >= 1
  {
    if k < |rest| - 1 {
      PartnerPositive(x, rest[..|rest| - 1], k);
    }
  }

  lemma {:induction false} DoneMonotone(terms: seq<string>, i: nat, k: nat, e: Edge)
    requires i <= k <= |terms|
    ensures Done(terms, i, e) <= Done(terms, k, e)
    decreases k - i
  {
    if i < k {
      DoneMonotone(terms, i, k - 1, e);
    }
  }

  /** Any two positions `i < j` give an edge between their terms; equal terms give a self-loop. */
  lemma PairMakesEdge(terms: seq<string>, i: nat, j: nat)
    requires i < j < |terms|
    ensures Hits(terms, {terms[i], terms[j]}) >= 1
    ensures terms[i] == terms[j] ==> Hits(terms, {terms[i]}) >= 1
  {
    var e := {terms[i], terms[j]};
    assert terms[i + 1..][j - i - 1] == terms[j];
    PartnerPositive(terms[i], terms[i + 1..], j - i - 1);
    DoneMonotone(terms, i + 1, |terms|, e);
    if terms[i] == terms[j] {
      assert e == {terms[i]};
    }
  }

  lemma {:induction false} PartnerWitness(x: string, rest: seq<string>, e: Edge) returns (k: nat)
    requires Partner(x, rest, e) > 0
    ensures k < |rest| && {x, rest[k]} == e
  {
    if {x, rest[|rest| - 1]} == e {
      k := |rest| - 1;
    } else {
      k := PartnerWitness(x, rest[..|rest| - 1], e);
    }
  }

  lemma {:induction false} DoneWitness(terms: seq<string>, n: nat, e: Edge) returns (i: nat, j: nat)
    requires n <= |terms| && Done(terms, n, e) > 0
    ensures PairAt(terms, i, j, e)
  {
    if Partner(terms[n - 1], terms[n..], e) > 0 {
      var k := PartnerWitness(terms[n - 1], terms[n..], e);
      i, j := n - 1, n + k;
    } else {
      i, j := DoneWitness(terms, n - 1, e);
    }
  }

  /** An edge only ever joins two terms that occur at two positions of the cluster. */
  lemma EdgeHasPair(terms: seq<string>, e: Edge)
    requires Hits(terms, e) > 0
    ensures exists i, j :: PairAt(terms, i, j, e)
  {
    var i, j := DoneWitness(terms, |terms|, e);
  }

  // ---------------------------------------------------------------------------
  // All clusters.

  /** A cluster reduced to what the edge count reads: its id and its terms in order. */
  datatype Group = Group(id: string, terms: seq<string>)

  /** The total weight of an edge over all clusters. */
  function TotalHits(groups: seq<Group>, e: Edge): nat {
    if groups == [] then 0
    else TotalHits(groups[..|groups| - 1], e) + Hits(groups[|groups| - 1].terms, e)
  }

  /** The edge loop over all clusters. */
  method AddEdges(groups: seq<Group>) returns (weights: map<Edge, nat>)
    ensures forall e :: Weight(weights, e) == TotalHits(groups, e)
    ensures forall e :: e in weights ==> weights[e] >= 1
  {
    weights := map[];
    var c := 0;
    while c < |groups|
      invariant 0 <= c <= |groups|
      invariant forall e :: Weight(weights, e) == TotalHits(groups[..c], e)
      invariant forall e :: e in weights ==> weights[e] >= 1
    {
      weights := AddClusterEdges(weights, groups[c].terms);
      assert groups[..c + 1][..c] == groups[..c];
      c := c + 1;
    }
    assert groups[..c] == groups;
  }

  /** Positions `i < j` of cluster `c` whose terms are the end points of `e`. */
  predicate PairIn(groups: seq<Group>, c: int, i: int, j: int, e: Edge) {
    0 <= c < |groups| && PairAt(groups[c].terms, i, j, e)
  }

  lemma {:induction false} PairGivesEdge(groups: seq<Group>, c: int, i: int, j: int, e: Edge)
    requires PairIn(groups, c, i, j, e)
    ensures TotalHits(groups, e) > 0
  {
    var n := |groups| - 1;
    if c == n {
      PairMakesEdge(groups[c].terms, i, j);
    } else {
      var init := groups[..n];
      assert init[c] == groups[c];
      PairGivesEdge(init, c, i, j, e);
    }
  }

  /** There is an edge iff some cluster holds its end points at two positions. */
  lemma {:induction false} EdgeIffPair(groups: seq<Group>, e: Edge)
    ensures TotalHits(groups, e) > 0 <==> exists c, i, j :: PairIn(groups, c, i, j, e)
  {
    if groups != [] {
      var n := |groups| - 1;
      var init := groups[..n];
      EdgeIffPair(init, e);
      if TotalHits(groups, e) > 0 {
        if Hits(groups[n].terms, e) > 0 {
          EdgeHasPair(groups[n].terms, e);
          var i, j :| PairAt(groups[n].terms, i, j, e);
          assert PairIn(groups, n, i, j, e);
        } else {
          var c, i, j :| PairIn(init, c, i, j, e);
          assert init[c] == groups[c];
          assert PairIn(groups, c, i, j, e);
        }
      } else {
        forall c, i, j | PairIn(groups, c, i, j, e)
          ensures false
        {
          PairGivesEdge(groups, c, i, j, e);
        }
      }
    }
  }
}
