/**
 * Cluster naming (scripts/analysis/name_clusters.py): every cluster gets the
 * theme whose keyword set its terms hit hardest, terms among the first five
 * counting double; a cluster no theme scores at least 2 for gets an
 * "Emergent Theme" label built from its alphabetic top terms, reworked until
 * it is unused. Each label gets the palette colour, or gray when the palette
 * has none.
 */
module NameClusters {
  import opened Wrappers
  import opened Builtins
  import opened Clusters

  /** A theme: its name and its keyword set. */
  datatype Theme = Theme(name: string, terms: set<string>)

  /** The seven themes, in the order the scoring loop visits them. */
  const Themes: seq<Theme> := [
    Theme("Community-Centered Logistics & Access", {
      "community", "access", "delivery", "service", "shared", "inclusive",
      "last mile", "neighborhood", "participation", "livelihood",
      "public service", "micro-logistics", "local", "hub", "pickup", "drop-off"}),
    Theme("Hybrid Automation & Micro-Mobility Systems", {
      "automated", "hybrid", "robotics", "micro-mobility", "autonomous",
      "vehicle", "fleet", "routing", "cycle", "cargo", "driver",
      "ride-hailing", "platform", "dispatch", "navigation", "sensor"}),
    Theme("Urban Mid-Block Morphology", {
      "mid-block", "urban", "block", "space", "vacant", "underused",
      "activation", "redevelopment", "density", "built environment",
      "land use", "spatial", "zoning", "urban design", "public space",
      "interstitial", "alley", "courtyard", "passage", "threshold"}),
    Theme("Governance, Planning & Open Systems", {
      "governance", "policy", "planning", "regulation", "framework",
      "open data", "smart city", "participation", "decision-making",
      "institutional", "transparency", "stakeholder", "accessibility",
      "urban planning", "city planning", "adaptive", "resilience"}),
    Theme("Infrastructure Risk & Spatial Interference", {
      "interference", "conflict", "risk", "resilience", "vulnerability",
      "disruption", "hazard", "traffic", "congestion", "storm", "flood",
      "critical", "adaptation", "mitigation", "safety", "pedestrian",
      "collision", "obstruction", "visibility", "navigation"}),
    Theme("Computational Modeling & Responsive Systems", {
      "data", "model", "simulation", "network", "algorithm", "ai",
      "machine learning", "optimization", "digital twin", "computational",
      "predictive", "responsive", "system", "architecture", "pipeline",
      "feedback", "sensor", "real-time", "analytics"}),
    Theme("Environmental Integration & Urban Sustainability", {
      "climate", "pollution", "air", "emissions", "toxicity", "exposure",
      "green", "sustainable", "ecosystem", "environmental health",
      "urban ecology", "heat", "drought", "wildfire", "contamination",
      "environmental hazard", "atmospheric", "low-carbon", "energy"})
  ]

  /** The theme colours; the eighth entry names a label the naming never produces. */
  const Palette: map<string, string> := map[
    "Community-Centered Logistics & Access" := "#FF7F0E",
    "Hybrid Automation & Micro-Mobility Systems" := "#1F77B4",
    "Urban Mid-Block Morphology" := "#2CA02C",
    "Governance, Planning & Open Systems" := "#9467BD",
    "Infrastructure Risk & Spatial Interference" := "#AA0D0D",
    "Computational Modeling & Responsive Systems" := "#F87B62",
    "Environmental Integration & Urban Sustainability" := "#E377C2",
    "Emerging CLuster" := "#7F7F7F"
  ]

  const FallbackColour: string := "#999999"
  const FallbackPrefix: string := "Emergent Theme: "

  // ---------------------------------------------------------------------------
  // Scoring.

  /** `[kw.lower() for kw, _ in keywords]`. */
  function Lowered(keywords: seq<Ranked>): (ts: seq<string>)
    ensures |ts| == |keywords|
    ensures forall k :: 0 <= k < |keywords| ==> ts[k] == Lower(keywords[k].term)
  {
    seq(|keywords|, k requires 0 <= k < |keywords| => Lower(keywords[k].term))
  }

  /** `terms[:5]`. */
  function Top(terms: seq<string>): (top: seq<string>)
    ensures |top| == (if |terms| < 5 then |terms| else 5)
    ensures top <= terms
  {
    if |terms| <= 5 then terms else terms[..5]
  }

  /**
   * `sum(2 if t in top_terms else 1 for t in term_set if t in theme_terms)`,
   * walking `terms` and counting each distinct term at its first position.
   */
  function Score(terms: seq<string>, theme: set<string>, top: seq<string>): nat {
    if terms == [] then 0
    else
      var init := terms[..|terms| - 1];
      var t := terms[|terms| - 1];
      Score(init, theme, top) + (if t in init || t !in theme then 0 else if t in top then 2 else 1)
  }

  /** The theme terms the cluster hits. */
  function Hit(terms: seq<string>, theme: set<string>): set<string> {
    set t | t in terms && t in theme
  }

  /** The theme terms the cluster hits among `top`. */
  function HitTop(terms: seq<string>, theme: set<string>, top: seq<string>): set<string> {
    set t | t in terms && t in theme && t in top
  }

  /** The score is one point per theme term hit and one more per hit among the top terms. */
  lemma {:induction false} ScoreCounts(terms: seq<string>, theme: set<string>, top: seq<string>)
    ensures Score(terms, theme, top) == |Hit(terms, theme)| + |HitTop(terms, theme, top)|
  {
    if terms != [] {
      var init := terms[..|terms| - 1];
      var t := terms[|terms| - 1];
      ScoreCounts(init, theme, top);
      assert terms == init + [t];
      if t in init || t !in theme {
        assert Hit(terms, theme) == Hit(init, theme);
        assert HitTop(terms, theme, top) == HitTop(init, theme, top);
      } else {
        assert Hit(terms, theme) == Hit(init, theme) + {t};
        assert t !in Hit(init, theme);
        if t in top {
          assert HitTop(terms, theme, top) == HitTop(init, theme, top) + {t};
          assert t !in HitTop(init, theme, top);
        } else {
          assert HitTop(terms, theme, top) == HitTop(init, theme, top);
        }
      }
    }
  }

  /** Repeating a term never changes the score: only the term set counts. */
  lemma RepeatIgnored(terms: seq<string>, theme: set<string>, top: seq<string>, k: nat)
    requires k < |terms|
    ensures Score(terms + [terms[k]], theme, top) == Score(terms, theme, top)
  {
    var more := terms + [terms[k]];
    assert more[..|more| - 1] == terms;
  }

  /** The score of a theme for a cluster's lower-cased terms. */
  function ThemeScore(theme: Theme, terms: seq<string>): nat {
    Score(terms, theme.terms, Top(terms))
  }

  /** The best theme so far and its score. */
  datatype Pick = Pick(best: Option<nat>, score: nat)

  /** The scoring loop over the first `n` themes: a strictly higher score replaces the best. */
  function Winner(themes: seq<Theme>, terms: seq<string>, n: nat): (p: Pick)
    requires n <= |themes|
    ensures p.best.Some? ==> p.best.value < n && p.score == ThemeScore(themes[p.best.value], terms)
  {
    if n == 0 then Pick(None, 0)
    else
      var p := Winner(themes, terms, n - 1);
      var s := ThemeScore(themes[n - 1], terms);
      if s > p.score then Pick(Some(n - 1), s) else p
  }

  /** Theme `i` has the highest score and is the first to reach it. */
  predicate FirstBest(themes: seq<Theme>, terms: seq<string>, i: int) {
    && 0 <= i < |themes|
    && (forall j :: 0 <= j < |themes| ==> ThemeScore(themes[j], terms) <= ThemeScore(themes[i], terms))
    && (forall j :: 0 <= j < i ==> ThemeScore(themes[j], terms) < ThemeScore(themes[i], terms))
  }

  /**
   * The loop keeps the highest score; it names no theme exactly when every
   * score is 0, and otherwise the first theme with the highest score.
   */
  lemma {:induction false} WinnerIsFirstBest(themes: seq<Theme>, terms: seq<string>, n: nat)
    requires n <= |themes|
    ensures forall j :: 0 <= j < n ==> ThemeScore(themes[j], terms) <= Winner(themes, terms, n).score
    ensures Winner(themes, terms, n).best.None? <==> Winner(themes, terms, n).score == 0
    ensures Winner(themes, terms, n).best.Some? ==> FirstBest(themes[..n], terms, Winner(themes, terms, n).best.value)
  {
    if n > 0 {
      WinnerIsFirstBest(themes, terms, n - 1);
      var p := Winner(themes, terms, n - 1);
      var i := Winner(themes, terms, n).best;
      if i.Some? {
        var pre := themes[..n];
        forall j | 0 <= j < n
          ensures ThemeScore(pre[j], terms) <= ThemeScore(pre[i.value], terms)
        {
          assert pre[j] == themes[j];
        }
        forall j | 0 <= j < i.value
          ensures ThemeScore(pre[j], terms) < ThemeScore(pre[i.value], terms)
        {
          assert pre[j] == themes[j];
          assert themes[..n - 1][j] == themes[j];
        }
      }
    }
  }

  /** The theme loop: `best_match` as an index into `themes`, and `best_score`. */
  method PickTheme(themes: seq<Theme>, terms: seq<string>) returns (best: Option<nat>, bestScore: nat)
    ensures Pick(best, bestScore) == Winner(themes, terms, |themes|)
  {
    best, bestScore := None, 0;
    var i := 0;
    while i < |themes|
      invariant 0 <= i <= |themes|
      invariant Pick(best, bestScore) == Winner(themes, terms, i)
    {
      var score := ThemeScore(themes[i], terms);
      if score > bestScore {
        best, bestScore := Some(i), score;
      }
      i := i + 1;
    }
  }

  /** A cluster with no terms scores 0 everywhere and names no theme. */
  lemma {:induction false} NoTermsNoTheme(themes: seq<Theme>, n: nat)
    requires n <= |themes|
    ensures Winner(themes, [], n) == Pick(None, 0)
  {
    if n > 0 {
      NoTermsNoTheme(themes, n - 1);
    }
  }

  // ---------------------------------------------------------------------------
  // The fallback label.

  /** `[kw for kw in top_terms if kw.isalpha()]`. */
  function Alphabetic(ts: seq<string>): (r: seq<string>)
    ensures |r| <= |ts|
    ensures forall t :: t in r <==> t in ts && IsAlpha(t)
  {
    if ts == [] then []
    else
      var t := ts[|ts| - 1];
      Alphabetic(ts[..|ts| - 1]) + (if IsAlpha(t) then [t] else [])
  }

  /** `ts[i]` is the first alphabetic term of `ts`. */
  predicate FirstAlphaAt(ts: seq<string>, i: int) {
    0 <= i < |ts| && IsAlpha(ts[i]) && forall j :: 0 <= j < i ==> !IsAlpha(ts[j])
  }

  /** The alphabetic terms keep their order: the first one is the first alphabetic term. */
  lemma {:induction false} AlphabeticFirst(ts: seq<string>)
    ensures Alphabetic(ts) != [] ==> exists i :: FirstAlphaAt(ts, i) && Alphabetic(ts)[0] == ts[i]
  {
    if ts != [] {
      var init := ts[..|ts| - 1];
      var t := ts[|ts| - 1];
      var fb := Alphabetic(init);
      assert Alphabetic(ts) == fb + (if IsAlpha(t) then [t] else []);
      AlphabeticFirst(init);
      if fb != [] {
        var i :| FirstAlphaAt(init, i) && fb[0] == init[i];
        FirstAlphaExtends(ts, i);
        assert Alphabetic(ts)[0] == ts[i];
      } else if IsAlpha(t) {
        NoAlphaBefore(ts);
        assert FirstAlphaAt(ts, |ts| - 1);
      }
    }
  }

  /** The first alphabetic term of all but the last term is the first of all of them. */
  lemma FirstAlphaExtends(ts: seq<string>, i: int)
    requires ts != [] && FirstAlphaAt(ts[..|ts| - 1], i)
    ensures FirstAlphaAt(ts, i)
  {
    var init := ts[..|ts| - 1];
    forall j | 0 <= j <= i ensures ts[j] == init[j] { }
  }

  /** With no alphabetic term before the last, none of them is alphabetic. */
  lemma NoAlphaBefore(ts: seq<string>)
    requires ts != [] && Alphabetic(ts[..|ts| - 1]) == []
    ensures forall j :: 0 <= j < |ts| - 1 ==> !IsAlpha(ts[j])
  {
    var init := ts[..|ts| - 1];
    forall j | 0 <= j < |ts| - 1 ensures !IsAlpha(ts[j]) {
      assert ts[j] == init[j] && init[j] in init;
    }
  }

  /** There is at most one first alphabetic term. */
  lemma FirstAlphaUnique(ts: seq<string>, i: int, j: int)
    requires FirstAlphaAt(ts, i) && FirstAlphaAt(ts, j)
    ensures i == j
  {
  }

  /** `f"Emergent Theme: {' / '.join(fallback_terms[:1])}"`. */
  function FallbackLabel(fb: seq<string>): string {
    FallbackPrefix + Join(if |fb| <= 1 then fb else fb[..1], " / ")
  }

  /** The fallback label is the prefix and the first fallback term, or the bare prefix. */
  lemma FallbackLabelShape(fb: seq<string>)
    ensures fb == [] ==> FallbackLabel(fb) == FallbackPrefix
    ensures fb != [] ==> FallbackLabel(fb) == FallbackPrefix + fb[0]
  {
  }

  /**
   * A cluster's first fallback label names the first alphabetic term among
   * its top five, and is the bare prefix when there is none.
   */
  lemma FallbackLabelOfTerms(terms: seq<string>)
    ensures (forall i :: 0 <= i < |Top(terms)| ==> !IsAlpha(terms[i])) ==>
      FallbackLabel(Alphabetic(Top(terms))) == FallbackPrefix
    ensures forall i :: FirstAlphaAt(Top(terms), i) ==>
      FallbackLabel(Alphabetic(Top(terms))) == FallbackPrefix + terms[i]
  {
    var top := Top(terms);
    var fb := Alphabetic(top);
    FallbackLabelShape(fb);
    AlphabeticFirst(top);
    if fb != [] {
      var i :| FirstAlphaAt(top, i) && fb[0] == top[i];
      assert top[i] == terms[i] && top[i] in top && IsAlpha(top[i]);
      forall i' | FirstAlphaAt(top, i') ensures i' == i {
        FirstAlphaUnique(top, i, i');
      }
    } else {
      forall i | 0 <= i < |top| ensures !IsAlpha(terms[i]) {
        assert top[i] == terms[i] && top[i] in top;
      }
    }
  }

  /** `fallback_terms[1:] + terms[len(fallback_terms):len(fallback_terms)+1]`. */
  function Shift(fb: seq<string>, terms: seq<string>): (r: seq<string>)
    ensures forall k :: 0 <= k < |fb| - 1 ==> k < |r| && r[k] == fb[k + 1]
    ensures |fb| < |terms| ==> |r| == (if fb == [] then 1 else |fb|) && r[|r| - 1] == terms[|fb|]
    ensures |terms| <= |fb| ==> |r| == (if fb == [] then 0 else |fb| - 1)
  {
    (if fb == [] then [] else fb[1..]) + (if |fb| < |terms| then [terms[|fb|]] else [])
  }

  /**
   * The uniqueness loop with at most `fuel` reworkings; `None` stands for a
   * loop that has not ended within them.
   */
  function Unique(fb: seq<string>, terms: seq<string>, used: set<string>, fuel: nat): Option<string>
    decreases fuel
  {
    if FallbackLabel(fb) !in used then Some(FallbackLabel(fb))
    else if fuel == 0 then None
    else Unique(Shift(fb, terms), terms, used, fuel - 1)
  }

  /** A label the loop settles on is unused and has the fallback prefix. */
  lemma {:induction false} UniqueFresh(fb: seq<string>, terms: seq<string>, used: set<string>, fuel: nat)
    requires Unique(fb, terms, used, fuel).Some?
    ensures Unique(fb, terms, used, fuel).value !in used
    ensures FallbackPrefix <= Unique(fb, terms, used, fuel).value
    decreases fuel
  {
    if FallbackLabel(fb) in used {
      UniqueFresh(Shift(fb, terms), terms, used, fuel - 1);
    }
  }

  /** More reworkings never change a label the loop already settled on. */
  lemma {:induction false} UniqueFuelMonotone(fb: seq<string>, terms: seq<string>, used: set<string>, fuel: nat, more: nat)
    requires Unique(fb, terms, used, fuel).Some? && fuel <= more
    ensures Unique(fb, terms, used, more) == Unique(fb, terms, used, fuel)
    decreases fuel
  {
    if FallbackLabel(fb) in used {
      UniqueFuelMonotone(Shift(fb, terms), terms, used, fuel - 1, more - 1);
    }
  }

  /**
   * A cluster without terms whose label "Emergent Theme: " is already taken
   * never leaves the loop: the fallback list stays empty.
   */
  lemma {:induction false} EmptyClusterLoopsForever(used: set<string>, fuel: nat)
    requires FallbackPrefix in used
    ensures Unique([], [], used, fuel) == None
    decreases fuel
  {
    assert FallbackLabel([]) == FallbackPrefix;
    if fuel > 0 {
      assert Shift([], []) == [];
      EmptyClusterLoopsForever(used, fuel - 1);
    }
  }

  /** The `while label in used_labels` loop. */
  method Disambiguate(fb0: seq<string>, terms: seq<string>, used: set<string>, fuel: nat) returns (r: Option<string>)
    ensures r == Unique(fb0, terms, used, fuel)
  {
    var fb := fb0;
    var candidate := FallbackLabel(fb);
    var left := fuel;
    while candidate in used
      invariant candidate == FallbackLabel(fb)
      invariant Unique(fb, terms, used, left) == Unique(fb0, terms, used, fuel)
      decreases left
    {
      if left == 0 {
        return None;
      }
      fb := Shift(fb, terms);
      candidate := FallbackLabel(fb);
      left := left - 1;
    }
    return Some(candidate);
  }

  // ---------------------------------------------------------------------------
  // All clusters.

  /** The label of one cluster, given the labels used before it. */
  function ChooseLabel(themes: seq<Theme>, c: RankedCluster, used: set<string>, fuel: nat): Option<string> {
    var terms := Lowered(c.keywords);
    var p := Winner(themes, terms, |themes|);
    if p.best.Some? && themes[p.best.value].name != [] && p.score >= 2 then Some(themes[p.best.value].name)
    else Unique(Alphabetic(Top(terms)), terms, used, fuel)
  }

  /** `used_labels`: the labels given so far. */
  function Used(ls: seq<string>): (u: set<string>)
    ensures forall l :: l in u <==> l in ls
  {
    set l | l in ls
  }

  /** The labels of the clusters in order; `None` when some uniqueness loop does not end. */
  function LabelsOf(themes: seq<Theme>, clusters: seq<RankedCluster>, fuel: nat): (r: Option<seq<string>>)
    ensures r.Some? ==> |r.value| == |clusters|
  {
    if clusters == [] then Some([])
    else
      match LabelsOf(themes, clusters[..|clusters| - 1], fuel)
      case None => None
      case Some(ls) =>
        match ChooseLabel(themes, clusters[|clusters| - 1], Used(ls), fuel)
        case None => None
        case Some(l) => Some(ls + [l])
  }

  /** `labels`: cluster id to label, a repeated id keeping its last label. */
  function IdMap(clusters: seq<RankedCluster>, ls: seq<string>): map<string, string>
    requires |ls| == |clusters|
  {
    if clusters == [] then map[]
    else IdMap(clusters[..|clusters| - 1], ls[..|ls| - 1])[clusters[|clusters| - 1].id := ls[|ls| - 1]]
  }

  lemma IdMapSnoc(clusters: seq<RankedCluster>, ls: seq<string>, c: nat, l: string)
    requires c < |clusters| && |ls| == c
    ensures IdMap(clusters[..c + 1], ls + [l]) == IdMap(clusters[..c], ls)[clusters[c].id := l]
  {
    assert clusters[..c + 1][..c] == clusters[..c];
    assert (ls + [l])[..c] == ls;
  }

  /** The colour of a label: its palette entry, gray otherwise. */
  function Colour(candidate: string): string {
    if candidate in Palette then Palette[candidate] else FallbackColour
  }

  /** `colors`: every label used, with its colour. */
  function Colours(ls: seq<string>): (m: map<string, string>)
    ensures m.Keys == set l | l in ls
  {
    map l | l in ls :: Colour(l)
  }

  lemma UsedColoursSnoc(ls: seq<string>, l: string)
    ensures Used(ls + [l]) == Used(ls) + {l}
    ensures Colours(ls + [l]) == Colours(ls)[l := Colour(l)]
  {
  }

  /** What `name_clusters` returns. */
  datatype Naming = Naming(labels: map<string, string>, colors: map<string, string>)

  /**
   * `name_clusters`: the loop over the clusters with `labels`, `colors` and
   * `used_labels`. `None` stands for a uniqueness loop still running after
   * `fuel` reworkings.
   */
  method NameAll(themes: seq<Theme>, clusters: seq<RankedCluster>, fuel: nat) returns (r: Option<Naming>)
    ensures r.None? <==> LabelsOf(themes, clusters, fuel).None?
    ensures r.Some? ==> r.value.labels == IdMap(clusters, LabelsOf(themes, clusters, fuel).value)
    ensures r.Some? ==> r.value.colors == Colours(LabelsOf(themes, clusters, fuel).value)
  {
    var labels: map<string, string> := map[];
    var colors: map<string, string> := map[];
    var used: set<string> := {};
    ghost var ls: seq<string> := [];
    var c := 0;
    while c < |clusters|
      invariant 0 <= c <= |clusters|
      invariant Named(themes, clusters, fuel, c, ls, labels, colors, used)
    {
      var candidate := NameOne(themes, clusters[c], used, fuel);
      if candidate.None? {
        LabelsSnoc(themes, clusters, c, fuel, ls);
        LabelsStop(themes, clusters, c + 1, fuel);
        return None;
      }
      NamedStep(themes, clusters, fuel, c, ls, labels, colors, used, candidate.value);
      labels := labels[clusters[c].id := candidate.value];
      colors := colors[candidate.value := Colour(candidate.value)];
      used := used + {candidate.value};
      ls := ls + [candidate.value];
      c := c + 1;
    }
    assert clusters[..c] == clusters;
    return Some(Naming(labels, colors));
  }

  /** The loop state of `name_clusters` after the first `c` clusters. */
  ghost predicate Named(themes: seq<Theme>, clusters: seq<RankedCluster>, fuel: nat, c: nat, ls: seq<string>,
                        labels: map<string, string>, colors: map<string, string>, used: set<string>)
  {
    c <= |clusters| && |ls| == c &&
    LabelsOf(themes, clusters[..c], fuel) == Some(ls) &&
    labels == IdMap(clusters[..c], ls) && colors == Colours(ls) && used == Used(ls)
  }

  /** One named cluster keeps the loop state. */
  lemma NamedStep(themes: seq<Theme>, clusters: seq<RankedCluster>, fuel: nat, c: nat, ls: seq<string>,
                  labels: map<string, string>, colors: map<string, string>, used: set<string>, l: string)
    requires c < |clusters| && Named(themes, clusters, fuel, c, ls, labels, colors, used)
    requires ChooseLabel(themes, clusters[c], used, fuel) == Some(l)
    ensures Named(themes, clusters, fuel, c + 1, ls + [l], labels[clusters[c].id := l], colors[l := Colour(l)], used + {l})
  {
    LabelsSnoc(themes, clusters, c, fuel, ls);
    IdMapSnoc(clusters, ls, c, l);
    UsedColoursSnoc(ls, l);
  }

  /** One pass of the cluster loop: score the themes, else fall back. */
  method NameOne(themes: seq<Theme>, cluster: RankedCluster, used: set<string>, fuel: nat) returns (candidate: Option<string>)
    ensures candidate == ChooseLabel(themes, cluster, used, fuel)
  {
    var terms := Lowered(cluster.keywords);
    var best, bestScore := PickTheme(themes, terms);
    if best.Some? && themes[best.value].name != [] && bestScore >= 2 {
      candidate := Some(themes[best.value].name);
    } else {
      var fallbackTerms := Alphabetic(Top(terms));
      candidate := Disambiguate(fallbackTerms, terms, used, fuel);
    }
  }

  /** Naming one more cluster extends the labels by its label. */
  lemma LabelsSnoc(themes: seq<Theme>, clusters: seq<RankedCluster>, c: nat, fuel: nat, ls: seq<string>)
    requires c < |clusters| && LabelsOf(themes, clusters[..c], fuel) == Some(ls)
    ensures ChooseLabel(themes, clusters[c], Used(ls), fuel).None? ==> LabelsOf(themes, clusters[..c + 1], fuel).None?
    ensures ChooseLabel(themes, clusters[c], Used(ls), fuel).Some? ==>
      LabelsOf(themes, clusters[..c + 1], fuel) == Some(ls + [ChooseLabel(themes, clusters[c], Used(ls), fuel).value])
  {
    assert clusters[..c + 1][..c] == clusters[..c];
  }

  /** Once one cluster's loop does not end, no later cluster is named. */
  lemma {:induction false} LabelsStop(themes: seq<Theme>, clusters: seq<RankedCluster>, n: nat, fuel: nat)
    requires 0 < n <= |clusters| && LabelsOf(themes, clusters[..n], fuel).None?
    ensures LabelsOf(themes, clusters, fuel).None?
    decreases |clusters| - n
  {
    if n < |clusters| {
      assert clusters[..n + 1][..n] == clusters[..n];
      LabelsStop(themes, clusters, n + 1, fuel);
    } else {
      assert clusters[..n] == clusters;
    }
  }

  // ---------------------------------------------------------------------------
  // Properties.

  /**
   * A cluster is labelled with a theme exactly when its best score is at
   * least 2 (and the theme name is not empty), and then with the first theme
   * that reaches the best score.
   */
  lemma ThemeChosen(themes: seq<Theme>, c: RankedCluster, used: set<string>, fuel: nat, i: nat)
    requires FirstBest(themes, Lowered(c.keywords), i)
    requires themes[i].name != []
    ensures ThemeScore(themes[i], Lowered(c.keywords)) >= 2 ==> ChooseLabel(themes, c, used, fuel) == Some(themes[i].name)
    ensures ThemeScore(themes[i], Lowered(c.keywords)) < 2 ==>
      ChooseLabel(themes, c, used, fuel) == Unique(Alphabetic(Top(Lowered(c.keywords))), Lowered(c.keywords), used, fuel)
  {
    var terms := Lowered(c.keywords);
    WinnerIsFirstBest(themes, terms, |themes|);
    assert themes[..|themes|] == themes;
    var p := Winner(themes, terms, |themes|);
    if p.best.Some? {
      FirstBestUnique(themes, terms, p.best.value, i);
    } else {
      assert ThemeScore(themes[i], terms) <= 0;
    }
  }

  /** At most one theme is the first to reach the highest score. */
  lemma FirstBestUnique(themes: seq<Theme>, terms: seq<string>, i: nat, k: nat)
    requires FirstBest(themes, terms, i) && FirstBest(themes, terms, k)
    ensures i == k
  {
    assert ThemeScore(themes[k], terms) <= ThemeScore(themes[i], terms);
    assert ThemeScore(themes[i], terms) <= ThemeScore(themes[k], terms);
  }

  /**
   * A label that is no theme name came out of the uniqueness loop: it differs
   * from every label before it.
   */
  lemma {:induction false} FallbackLabelsFresh(themes: seq<Theme>, clusters: seq<RankedCluster>, fuel: nat, j: nat)
    requires LabelsOf(themes, clusters, fuel).Some?
    requires j < |clusters|
    requires forall i :: 0 <= i < |themes| ==> themes[i].name != LabelsOf(themes, clusters, fuel).value[j]
    ensures LabelsOf(themes, clusters, fuel).value[j] !in LabelsOf(themes, clusters, fuel).value[..j]
    ensures FallbackPrefix <= LabelsOf(themes, clusters, fuel).value[j]
  {
    var n := |clusters| - 1;
    var init := clusters[..n];
    var ls := LabelsOf(themes, clusters, fuel).value;
    var pre := LabelsOf(themes, init, fuel).value;
    assert ls == pre + [ls[n]];
    if j < n {
      assert ls[j] == pre[j];
      assert ls[..j] == pre[..j];
      FallbackLabelsFresh(themes, init, fuel, j);
    } else {
      var terms := Lowered(clusters[n].keywords);
      UniqueFresh(Alphabetic(Top(terms)), terms, Used(pre), fuel);
      assert ls[..j] == pre;
    }
  }

  /** The cluster's winning theme is named `name` and scores at least 2. */
  predicate WinsTheme(themes: seq<Theme>, c: RankedCluster, name: string) {
    var p := Winner(themes, Lowered(c.keywords), |themes|);
    p.best.Some? && p.score >= 2 && themes[p.best.value].name == name
  }

  /**
   * Theme labels are not made unique: two clusters, whatever their ids,
   * whose winning themes have the same non-empty name are both labelled with it.
   */
  lemma ThemeLabelsRepeat(themes: seq<Theme>, c1: RankedCluster, c2: RankedCluster, name: string, fuel: nat)
    requires name != []
    requires WinsTheme(themes, c1, name) && WinsTheme(themes, c2, name)
    ensures LabelsOf(themes, [c1, c2], fuel) == Some([name, name])
  {
    assert ChooseLabel(themes, c1, Used([]), fuel) == Some(name);
    assert ChooseLabel(themes, c2, Used([name]), fuel) == Some(name);
    assert [c1][..0] == [];
    assert LabelsOf(themes, [], fuel) == Some([]);
    assert [] + [name] == [name];
    assert LabelsOf(themes, [c1], fuel) == Some([name]);
    assert [c1, c2][..1] == [c1] && [c1, c2][1] == c2;
    assert [name] + [name] == [name, name];
  }

  /** Every theme name is in the palette with a colour of its own. */
  lemma ThemesColoured(i: nat)
    requires i < |Themes|
    ensures Themes[i].name in Palette
    ensures Colour(Themes[i].name) == Palette[Themes[i].name] != FallbackColour
  {
  }

  /** No fallback label is in the palette: fallback labels are drawn gray. */
  lemma FallbackGray(s: string)
    ensures Colour(FallbackPrefix + s) == FallbackColour
  {
    var l := FallbackPrefix + s;
    assert l[1] == 'm' && l[5] == 'e';
  }

  /**
   * Two clusters without keywords: the second one's label "Emergent Theme: "
   * is taken by the first, so the naming never finishes.
   */
  lemma TwoEmptyClustersHang(a: string, b: string, fuel: nat)
    ensures LabelsOf(Themes, [RankedCluster(a, []), RankedCluster(b, [])], fuel).None?
  {
    var c1, c2 := RankedCluster(a, []), RankedCluster(b, []);
    var cs := [c1, c2];
    NoTermsNoTheme(Themes, |Themes|);
    assert Lowered([]) == [];
    assert Alphabetic(Top([])) == [];
    assert FallbackLabel([]) == FallbackPrefix;
    var none: seq<string> := [];
    assert cs[..0] == [];
    assert Used(none) == {};
    assert ChooseLabel(Themes, c1, {}, fuel) == Some(FallbackPrefix);
    LabelsSnoc(Themes, cs, 0, fuel, none);
    assert none + [FallbackPrefix] == [FallbackPrefix];
    assert Used([FallbackPrefix]) == {FallbackPrefix};
    EmptyClusterLoopsForever({FallbackPrefix}, fuel);
    assert ChooseLabel(Themes, c2, {FallbackPrefix}, fuel) == None;
    LabelsSnoc(Themes, cs, 1, fuel, [FallbackPrefix]);
    assert cs[..2] == cs;
  }
}
