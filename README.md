# Research_Insights pipeline core in Dafny

This project models the deterministic core of the Research_Insights scripts, a
Python pipeline for a systematic literature review. The pipeline screens
bibliographic records, keeps PRISMA 2020 bookkeeping, counts keyword and
co-author co-occurrences, and names keyword clusters. The modelled parts are:

- **Screening** (`check_criteria.dfy`, module `CheckCriteria`). A record is
  checked against a criteria dictionary. The six exclusion rules run first,
  in a fixed order, then the six inclusion rules. The first rule that fires
  gives the reason code.
- **RIS parsing** (`parse_ris.dfy`, module `ParseRis`). The line loop runs over
  a mutable `RisRecord` object that the output list aliases. A value-level
  fold states what it computes.
- **PRISMA bookkeeping** (`prisma.dfy`, module `Prisma`). It covers the decision
  log (a class whose `LogDecision` appends), the stage counts and the
  seven-row flow-diagram table.
- **Co-occurrence counting.**
  - `author_matrix.dfy`: the symmetric co-author table.
  - `cooccurrence.dfy`: the keyword edge-weight double loop that two files
    share.
  - `keyword_graph.dfy`: `build_graph`, where a node keeps the label of the
    last cluster it appears in and weights are normalised.
  - `plot_static.dfy`: the graph-building loop of `plot_vos_map`, where the
    first cluster's label wins, and its edge-colour and size rules.
  - `vos_utils.dfy`: the node-size and font-size helpers. The `bucket_size` of scripts/visualize/vosmapper/plot_static.py:18-24 is the same as the one in scripts/visualize/vosmapper/utils.py:3-9, and both are `VosUtils.BucketSize`.
- **Cluster naming** (`name_clusters.dfy`, module `NameClusters`). It covers
  theme scoring, the first-best tie rule, the threshold, the fallback label and
  the uniqueness loop, which need not end. It also covers colour assignment.
- **Cleaning** (`cleaning.dfy`). It models the three table-cleaning functions
  over rows keyed by column name. Tables are values, so the input table is
  never changed, as the source's `df.copy()` ensures.
- **Mendeley** (`mendeley.dfy`). It models the `extract_metadata` projection
  and the extraction of the OAuth code from a redirect URL.
- **Shared modules.** `builtins.dfy` models the Python string built-ins the
  scripts use. `wrappers.dfy` holds `Option` and `Result`. `clusters.dfy`
  holds the clusters dictionary as `name_clusters` and `plot_vos_map` read it.

Files on disk are modelled as values. A file that may be missing is an
`Option`. A Python exception is the `Failure` of a `Result`, carrying the
exception's name or message. A `Failure` that names a column stands for
pandas' `KeyError` on that column.

## Model

| member | source | states |
|---|---|---|
| CheckCriteria.MatchAny | scripts/clean/check_criteria.py:16-23 | false on empty text; otherwise true iff some non-empty pattern occurs, lower-cased, in the lower-cased text |
| CheckCriteria.AnyPatternIn | scripts/clean/check_criteria.py:20-23 | the pattern loop returns true iff some non-empty pattern's lower-case form is a substring of the text |
| CheckCriteria.Normalize | scripts/clean/check_criteria.py:26-29 | the result is lower-case; `None` gives ""; a list gives its items joined by single spaces, lower-cased; a string gives its lower-case form; `True`/`False` give "true"/"false" |
| CheckCriteria.ToInt | scripts/clean/check_criteria.py:76 | `int()` of an integer is itself, of a bool 1 or 0, of a float its truncation; a string is read iff its stripped form is a digit literal (single `_` allowed between digits) after an optional `+` or `-`, and gives that literal's value, negated after `-`; a blank string gives nothing; `None` and lists cannot be read |
| CheckCriteria.RecordYear | scripts/clean/check_criteria.py:51-61 | integers are kept, bools read as 1 or 0 and floats truncated; a string gives a year iff it is non-empty and its first four characters (all of it when shorter) are digits, and that year is their value, in 0..9999; `None` and lists give none |
| CheckCriteria.YearBeforeOutcome | scripts/clean/check_criteria.py:74-79 | `excl_year_before` fires iff the year is known, the `before` bound is truthy and readable, and the year is below it; an unreadable bound is passed over |
| CheckCriteria.YearBoundsOutcome | scripts/clean/check_criteria.py:108-120 | no `year` entry gives nothing; `year_too_early` iff a truthy readable `min` exceeds the year; `year_too_recent` iff the `min` test passes and a truthy readable `max` is below the year; `invalid_year` iff the year is unknown, or a truthy `min` cannot be read, or the `min` test passes and a truthy `max` cannot be read; falsy bounds are ignored |
| CheckCriteria.GroupedBoundIsRead | scripts/clean/check_criteria.py:113 | a bound written in digit groups, such as `"2_019"`, is read as the number its digits spell, 2019 |
| CheckCriteria.GroupedBoundDecides | scripts/clean/check_criteria.py:113-114 | with such a `min` and no `max`, a year is too early iff it is below the grouped number, and otherwise passes |
| CheckCriteria.LowerNonEmpty | scripts/clean/check_criteria.py:89 | a value is in the list iff it is the lower-case form of some non-empty allowed value |
| CheckCriteria.Check | scripts/clean/check_criteria.py:32-127 | the record is included exactly when no reason is given; empty criteria include with no reason |
| CheckCriteria.ExclusionRules | scripts/clean/check_criteria.py:63-84 | six rule verdicts in source order, every one that fires an exclusion reason |
| CheckCriteria.InclusionRules | scripts/clean/check_criteria.py:86-125 | six rule verdicts in source order, none an exclusion reason |
| CheckCriteria.FirstFired | scripts/clean/check_criteria.py:63-125 | a verdict is given iff some rule fires, and it is one of the rules' verdicts |
| CheckCriteria.FirstFiredIsFirst | scripts/clean/check_criteria.py:63-125 | the rule that fires with none before it decides the verdict |
| CheckCriteria.FirstFiredAppend | scripts/clean/check_criteria.py:63-125 | over two rule lists in a row, the first list decides when one of its rules fires, else the second |
| CheckCriteria.ExclusionCheckIsFirstFired | scripts/clean/check_criteria.py:64-84 | the exclusion section's early returns give the first exclusion rule that fires |
| CheckCriteria.InclusionCheckIsFirstFired | scripts/clean/check_criteria.py:87-125 | the inclusion section's early returns give the first inclusion rule that fires |
| CheckCriteria.ReasonIsFirstFiredRule | scripts/clean/check_criteria.py:32-127 | for non-empty criteria the reason is the verdict of the first of the twelve rules, exclusion before inclusion, that fires |
| CheckCriteria.ExclusionTakesPriority | scripts/clean/check_criteria.py:63-86 | when any exclusion rule fires the record is excluded, with the first exclusion reason, whatever the inclusion section says |
| CheckCriteria.UnknownYearNeverExcludedByYear | scripts/clean/check_criteria.py:74 | a record without a readable year is never given `excl_year_before` |
| CheckCriteria.ExactEqualityRules | scripts/clean/check_criteria.py:82-125 | study-design, publication-type and language rejections mean a non-empty field unequal to every lower-cased allowed value; a language exclusion means equality with some listed language |
| ParseRis.BlankIffStripEmpty | scripts/extraction/parse_ris.py:10-11 | a line is skipped as blank exactly when stripping it leaves nothing |
| ParseRis.SplitTagTrimmed | scripts/extraction/parse_ris.py:17-19 | tag and value have no whitespace at either end; without the separator the tag is the stripped line and the value is empty |
| ParseRis.AddTag | scripts/extraction/parse_ris.py:20-23 | the tag becomes a key and every other tag keeps its value |
| ParseRis.Project | scripts/extraction/parse_ris.py:25-30 | a row's title, abstract, year and tags are the record's TI, AB, PY and KW, "" when absent |
| ParseRis.Rows | scripts/extraction/parse_ris.py:7-15 | the emitted rows are the finished ones followed by the current record once per `ER` since the last `TY` |
| ParseRis.Parse | scripts/extraction/parse_ris.py:3-32 | the line loop over the aliased record object yields one projected row per record of the value-level fold, in order |
| ParseRis.RisRecord.constructor | scripts/extraction/parse_ris.py:13 | a fresh record is empty |
| ParseRis.ProjectAll | scripts/extraction/parse_ris.py:25-30 | one projected row per collected record, in order |
| ParseRis.RowCount | scripts/extraction/parse_ris.py:14-15 | the number of rows equals the number of `ER  -` lines |
| ParseRis.StartClearsRecord | scripts/extraction/parse_ris.py:12-13 | after a `TY  -` line the current record is empty and no row is added |
| ParseRis.RepeatedTagsJoined | scripts/extraction/parse_ris.py:20-23 | a tag's value is all its values in file order joined by "; "; a tag never read is absent |
| ParseRis.RecordIsFed | scripts/extraction/parse_ris.py:12-23 | after `TY` the tag lines build the current record one `AddTag` at a time |
| ParseRis.TagAfterEndChangesEmittedRow | scripts/extraction/parse_ris.py:12-15 | a tag line after `ER` adds no row but changes the last row emitted |
| ParseRis.StandardTagLine | scripts/extraction/parse_ris.py:17-19 | a line `XY  - value` splits into the two-character tag and the stripped value |
| ParseRis.ClassifyStandardLine | scripts/extraction/parse_ris.py:10-19 | such a line, other than `TY`/`ER`, is read as tag `XY` with the stripped value |
| ParseRis.AliasingExample | scripts/extraction/parse_ris.py:12-15 | for `TY`, tag a, `ER`, tag b, the one row emitted holds both tags |
| Prisma.DecisionLog.LogDecision | scripts/analysis/log_prisma_decision.py:7-17 | the log gains exactly one entry, holding the arguments and the timestamp, after the earlier entries unchanged; a missing log is created |
| Prisma.CountMatching | scripts/analysis/count_prisma_stages.py:13-16 | the count never exceeds the number of entries |
| Prisma.CountStageDecisions | scripts/analysis/count_prisma_stages.py:9-16 | a missing log counts 0 |
| Prisma.CountIsCardinality | scripts/analysis/count_prisma_stages.py:13-16 | the count is the number of log positions whose stage and decision match |
| Prisma.LogThenCount | scripts/analysis/log_prisma_decision.py:7-17 | logging a decision raises its own (stage, decision) count by one and leaves every other count unchanged |
| Prisma.CountLoaded | scripts/analysis/count_prisma_stages.py:18-22 | the number of metadata records, 0 for a missing file |
| Prisma.UpdateCounts | scripts/analysis/count_prisma_stages.py:24-33 | exactly the seven keys; the three logged counts; screened, eligibility and included as the successive differences, so included = identified - (duplicates + both exclusions) |
| Prisma.NegativeCounts | scripts/analysis/count_prisma_stages.py:31-33 | nothing clamps: one logged duplicate and no metadata make screened and included -1 |
| Prisma.TableFrom | scripts/analysis/generate_prisma_csv.py:19-90 | seven rows, row i being box i's constants with `n` = the counts value of its key, 0 when absent |
| Prisma.GenerateCsv | scripts/analysis/generate_prisma_csv.py:5-90 | a missing counts file fails with the source's message; otherwise seven rows in box order with url "NA" and `n` read from the written key, 0 when absent |
| Prisma.RowOrder | scripts/analysis/generate_prisma_csv.py:19-90 | the rows run records_identified, duplicates, records_screened, records_excluded, reports_assessed, reports_excluded, studies_included |
| Prisma.OnlyCountsVary | scripts/analysis/generate_prisma_csv.py:19-90 | two tables differ only in `n` |
| Prisma.PipelineLosesCounts | scripts/analysis/generate_prisma_csv.py:28-88 | on the map `update_counts` writes, six rows get n = 0 and only the duplicates row shows its count |
| Prisma.GenerateCsvCorrected | scripts/analysis/generate_prisma_csv.py:19-90 | as `GenerateCsv`, with each row reading the key `update_counts` writes for its stage |
| Prisma.CorrectedPipelineShowsFlow | scripts/analysis/count_prisma_stages.py:24-33 | with the corrected keys each box shows its stage and included = identified - (duplicates + both exclusions) |
| AuthorMatrix.AuthorSet | scripts/analysis/co_author/build_author_matrix.py:8-9 | the distinct authors of an entry; none without an `authors` key |
| AuthorMatrix.CoCount | scripts/analysis/co_author/build_author_matrix.py:7-11 | a pair's count is at most the number of entries |
| AuthorMatrix.BuildAuthorMatrix | scripts/analysis/co_author/build_author_matrix.py:5-13 | every cell, absent ones read as 0, is the number of entries naming both authors, and only positive cells are stored |
| AuthorMatrix.AddEntry | scripts/analysis/co_author/build_author_matrix.py:9-11 | one entry adds 1 to each ordered pair of its distinct authors, in both directions, and changes nothing else |
| AuthorMatrix.CoCountSymmetric | scripts/analysis/co_author/build_author_matrix.py:10-11 | count[a][b] = count[b][a] |
| AuthorMatrix.NoSelfPairs | scripts/analysis/co_author/build_author_matrix.py:9 | no author is paired with themself |
| AuthorMatrix.SmallEntryAddsNothing | scripts/analysis/co_author/build_author_matrix.py:8-9 | an entry with fewer than two distinct authors, or none, adds nothing |
| AuthorMatrix.CoCountAppend | scripts/analysis/co_author/build_author_matrix.py:7-11 | counts add up over concatenated entry lists |
| AuthorMatrix.CoCountOrderFree | scripts/analysis/co_author/build_author_matrix.py:7-12 | any reordering of the entries gives the same table |
| Cooccurrence.AddClusterEdges | scripts/visualize/vosmapper/build_graph.py:16-22 | each edge gains exactly the number of position pairs i < j of the cluster on its end points; every weight stays at least 1; the edges are the old ones plus those hit |
| Cooccurrence.AddPartnerEdges | scripts/visualize/vosmapper/build_graph.py:18-22 | the inner loop adds, per edge, the number of later terms that pair with the current one |
| Cooccurrence.PairMakesEdge | scripts/visualize/vosmapper/build_graph.py:16-22 | any two positions give their terms an edge; a repeated term gives a self-loop |
| Cooccurrence.EdgeHasPair | scripts/visualize/vosmapper/build_graph.py:17-22 | a weighted edge always comes from two positions of the cluster |
| Cooccurrence.AddEdges | scripts/visualize/vosmapper/build_graph.py:15-22 | every weight is the total number of within-cluster position pairs i < j on its end points, and at least 1 |
| Cooccurrence.PairGivesEdge | scripts/visualize/vosmapper/build_graph.py:15-22 | a pair of positions in any cluster gives a positive weight |
| Cooccurrence.EdgeIffPair | scripts/visualize/vosmapper/build_graph.py:15-22 | an edge exists iff some cluster holds its end points at two positions |
| KeywordGraph.CleanKwShape | scripts/visualize/vosmapper/build_graph.py:3-4 | a cleaned keyword is lower-case with no whitespace at either end |
| KeywordGraph.CleanKwIdempotent | scripts/visualize/vosmapper/build_graph.py:3-4 | cleaning a cleaned keyword string changes nothing |
| KeywordGraph.Cleaned | scripts/visualize/vosmapper/build_graph.py:16 | the cleaned keywords, one per keyword, in order |
| KeywordGraph.RelabelIsUnion | scripts/visualize/vosmapper/build_graph.py:11-13 | relabelling the terms one `add_node` at a time is labelling them all with the cluster's label |
| KeywordGraph.BuildGraph | scripts/visualize/vosmapper/build_graph.py:6-28 | fails with `max`'s error iff no cluster has two keyword positions, so that the graph has no edge; otherwise the nodes are the last-wins labels, each weight is the total co-occurrence count and at least 1, and the norms normalise the weights |
| KeywordGraph.AddNodes | scripts/visualize/vosmapper/build_graph.py:9-13 | the node loop gives each cleaned keyword the label of the last cluster holding it |
| KeywordGraph.LabelCluster | scripts/visualize/vosmapper/build_graph.py:11-13 | one cluster's keywords all get its label, overriding earlier labels |
| KeywordGraph.Normalise | scripts/visualize/vosmapper/build_graph.py:24-26 | fails iff there are no edges; otherwise the norms have the same edges, lie in (0, 1], equal 1 on a heaviest edge and keep the weights' ratios |
| KeywordGraph.DivideNormalises | scripts/visualize/vosmapper/build_graph.py:25-26 | dividing by the weight of a heaviest edge normalises |
| KeywordGraph.NodesAreKeywords | scripts/visualize/vosmapper/build_graph.py:9-13 | the nodes are exactly the cleaned keywords of all clusters |
| KeywordGraph.LastClusterWins | scripts/visualize/vosmapper/build_graph.py:9-13 | a keyword's node label is that of the last cluster containing it, `cluster_names[id]` or "Cluster {id}" |
| VosUtils.BucketSize | scripts/visualize/vosmapper/utils.py:3-9 | for a non-negative scale the size is the band's base (50 below 3, 200 below 15, else 900) times the scale with the fraction dropped, so between 0 and 900 times the scale; a negative scale gives no positive size |
| VosUtils.BucketSizeMonotone | scripts/visualize/vosmapper/utils.py:3-9 | for a non-negative scale a higher frequency never gives a smaller node |
| VosUtils.DefaultBuckets | scripts/visualize/vosmapper/utils.py:3-9 | at the default scale 0.8 the bands give 40, 160 and 720 |
| VosUtils.SizeOver60IsDivision | scripts/visualize/vosmapper/utils.py:12 | `int(size / 60)` is floor division for non-negative sizes |
| VosUtils.FontSize | scripts/visualize/vosmapper/utils.py:11-12 | the font size lies in [6, 16] and is exactly size / 60 for 360 <= size < 1020 |
| PlotStatic.ColourLookupFails | scripts/visualize/vosmapper/plot_static.py:33-43 | the colour lookup fails exactly when names are given, the cluster id is not a key, and the id is not itself a name |
| PlotStatic.BuildPlotGraph | scripts/visualize/vosmapper/plot_static.py:41-57 | fails iff some colour lookup fails, with the first such cluster's label; otherwise first-sighting node labels, last-sighting frequencies and total co-occurrence weights |
| PlotStatic.AddCluster | scripts/visualize/vosmapper/plot_static.py:44-57 | one loop turn extends nodes, frequencies and weights by that cluster's sightings and pairs |
| PlotStatic.AddTerms | scripts/visualize/vosmapper/plot_static.py:46-50 | the tuple loop leaves the first-wins labels and last-wins counts of the sightings so far |
| PlotStatic.SightingsStep | scripts/visualize/vosmapper/plot_static.py:47-50 | one sighting labels its term only if unlabelled, and sets its count in any case |
| PlotStatic.FirstSightingWins | scripts/visualize/vosmapper/plot_static.py:48-50 | a node keeps the label of the first sighting of its term |
| PlotStatic.NotSeen | scripts/visualize/vosmapper/plot_static.py:48-50 | a term never sighted has no node |
| PlotStatic.LastCountWins | scripts/visualize/vosmapper/plot_static.py:47 | `term_freq[kw]` is the count of the term's last sighting |
| PlotStatic.SameTerms | scripts/visualize/vosmapper/plot_static.py:46-50 | the node table and the frequency table have the same terms |
| PlotStatic.EdgeColourRule | scripts/visualize/vosmapper/plot_static.py:81-84 | an edge is black iff its end points share a cluster label, gray otherwise |
| PlotStatic.FontSize | scripts/visualize/vosmapper/plot_static.py:26-27 | the label font size lies in [6, 7] and is 7 iff a non-negative size is at least 420 |
| PlotStatic.NodeSizes | scripts/visualize/vosmapper/plot_static.py:65 | every node, and only nodes, gets a size: the bucket size of its frequency, 1 when it has none, at the given scale |
| PlotStatic.NodeSizesOrdered | scripts/visualize/vosmapper/plot_static.py:65 | for a non-negative scale a more frequent node is never drawn smaller, and a node without a frequency gets the smallest size |
| PlotStatic.LabelSizes | scripts/visualize/vosmapper/plot_static.py:96-100 | at scale 1.0 a label is drawn at 7 iff its term was seen at least 15 times |
| NameClusters.Lowered | scripts/analysis/name_clusters.py:66 | the lower-cased terms, one per keyword tuple, in order |
| NameClusters.Top | scripts/analysis/name_clusters.py:67 | the first min(5, n) terms: a prefix of exactly that length |
| NameClusters.ScoreCounts | scripts/analysis/name_clusters.py:74 | a theme's score is the number of distinct theme terms hit plus the number of those among the first five |
| NameClusters.RepeatIgnored | scripts/analysis/name_clusters.py:68-74 | repeating a term does not change the score: only the term set counts |
| NameClusters.Winner | scripts/analysis/name_clusters.py:71-77 | a chosen theme is one of those scored, and the best score is its score |
| NameClusters.WinnerIsFirstBest | scripts/analysis/name_clusters.py:73-77 | the best score bounds every theme's; no theme is chosen iff it is 0; otherwise the chosen theme is the first with the highest score |
| NameClusters.FirstBestUnique | scripts/analysis/name_clusters.py:73-77 | at most one theme is the first to reach the highest score |
| NameClusters.PickTheme | scripts/analysis/name_clusters.py:71-77 | the scoring loop computes the winning theme and score |
| NameClusters.NoTermsNoTheme | scripts/analysis/name_clusters.py:71-77 | a cluster without terms scores 0 and gets no theme |
| NameClusters.Alphabetic | scripts/analysis/name_clusters.py:83 | the fallback terms are exactly the alphabetic top terms |
| NameClusters.AlphabeticFirst | scripts/analysis/name_clusters.py:83 | the filter keeps order: the first fallback term is the first alphabetic term |
| NameClusters.FallbackLabelShape | scripts/analysis/name_clusters.py:84 | the label is "Emergent Theme: " followed by the first fallback term, or nothing |
| NameClusters.FallbackLabelOfTerms | scripts/analysis/name_clusters.py:67-84 | a cluster's first fallback label is "Emergent Theme: " followed by the first alphabetic term among its top five, or the bare prefix when there is none |
| NameClusters.Shift | scripts/analysis/name_clusters.py:88 | the rework drops the first fallback term and appends `terms[len(fallback_terms)]` when it exists; an empty list takes `terms[0]` |
| NameClusters.UniqueFresh | scripts/analysis/name_clusters.py:87-89 | a label the loop settles on is unused and starts with "Emergent Theme: " |
| NameClusters.UniqueFuelMonotone | scripts/analysis/name_clusters.py:87-89 | once the loop has ended, more iterations change nothing |
| NameClusters.EmptyClusterLoopsForever | scripts/analysis/name_clusters.py:87-89 | a cluster without terms whose label is taken never leaves the loop |
| NameClusters.Disambiguate | scripts/analysis/name_clusters.py:86-89 | the `while` loop computes the uniqueness function |
| NameClusters.Used | scripts/analysis/name_clusters.py:103 | `used_labels` holds exactly the labels given so far |
| NameClusters.LabelsOf | scripts/analysis/name_clusters.py:65-93 | when every loop ends there is exactly one label per cluster |
| NameClusters.Colours | scripts/analysis/name_clusters.py:95-101 | `colors` has exactly the labels given as keys |
| NameClusters.NameAll | scripts/analysis/name_clusters.py:1-108 | the cluster loop ends iff every uniqueness loop does; `labels` maps each id to its label (the last for a repeated id); `colors` gives each label its palette colour or gray |
| NameClusters.NameOne | scripts/analysis/name_clusters.py:65-89 | one cluster's label: the winning theme when its score is at least 2, else the fallback loop's label |
| NameClusters.LabelsSnoc | scripts/analysis/name_clusters.py:65-103 | naming one more cluster appends its label, chosen against the labels used before it |
| NameClusters.LabelsStop | scripts/analysis/name_clusters.py:87-89 | once one cluster's loop does not end, the function does not return |
| NameClusters.ThemeChosen | scripts/analysis/name_clusters.py:79-84 | the first best theme is the label iff its score is at least 2; otherwise the fallback loop decides |
| NameClusters.FallbackLabelsFresh | scripts/analysis/name_clusters.py:86-89 | a label that is no theme name has the fallback prefix and differs from every label before it |
| NameClusters.ThemeLabelsRepeat | scripts/analysis/name_clusters.py:80-81 | theme labels are not made unique: two clusters, whatever their ids, whose winning themes share a name both get that name |
| NameClusters.ThemesColoured | scripts/analysis/name_clusters.py:8-17 | every theme name has a palette colour of its own, never the gray fallback |
| NameClusters.FallbackGray | scripts/analysis/name_clusters.py:96-101 | every fallback label is drawn in "#999999" |
| NameClusters.TwoEmptyClustersHang | scripts/analysis/name_clusters.py:87-89 | two clusters without keywords make the function run forever, whatever the iteration bound |
| Cleaning.StripCellShape | scripts/clean/clean_data.py:12-14 | a stripped string stays a string with no whitespace at either end, and stripping again changes nothing |
| Cleaning.TagsCellShape | scripts/clean/clean_data.py:16 | a cleaned tags string is the original with only its outer whitespace dropped and each ";" turned into ","; so no ";" and no whitespace at either end remain; a non-string gives missing |
| Cleaning.FirstYearFrom | scripts/clean/clean_data.py:18 | the first position at or after i where four digits start, none when there is none |
| Cleaning.YearCell | scripts/clean/clean_data.py:18 | the year cell is missing or exactly four digits |
| Cleaning.YearCellFirst | scripts/clean/clean_data.py:18 | the year is missing iff the text has no four digits in a row; otherwise it is the first such run |
| Cleaning.YearCellIdempotent | scripts/clean/clean_data.py:18 | extracting the year again gives it back |
| Cleaning.NumberYear | scripts/clean/clean_data.py:18 | a four-digit number's year is its decimal text |
| Cleaning.CleanRowEffect | scripts/clean/clean_data.py:10-18 | the row keeps its columns; title, abstract, tags and year are transformed when present; every other cell is unchanged |
| Cleaning.KeptFrom | scripts/clean/clean_data.py:11 | the kept positions increase, each has the column present, and every present position is kept |
| Cleaning.DropMissing | scripts/clean/clean_data.py:11 | never more rows than before |
| Cleaning.CleanRows | scripts/clean/clean_data.py:12-18 | every row cleaned, in order |
| Cleaning.CleanDataframe | scripts/clean/clean_data.py:9-19 | the columns are kept, none added or required |
| Cleaning.CleanDataframeRows | scripts/clean/clean_data.py:10-18 | with an abstract column, exactly the rows with a present abstract, in order, each cleaned; without one, every row cleaned |
| Cleaning.CleanDataframeAbstracts | scripts/clean/clean_data.py:10-12 | a surviving abstract was present and is stripped |
| Cleaning.CleanContract | scripts/cleaning/clean_data.py:1-7 | fails iff a required column is missing, naming the first of title, abstract, tags, year; otherwise every row, in order, cleaned |
| Cleaning.CleanAgreesWithCleanDataframe | scripts/cleaning/clean_data.py:1-7 | with all four columns and no missing abstract, `clean` and `clean_dataframe` agree |
| Cleaning.AllKept | scripts/clean/clean_data.py:11 | when every row has the column, all positions are kept |
| Cleaning.CleanDataframeBackupContract | scripts/_backup_cleanup/clean_data_clean.py:1-4 | fails iff there is no abstract column; otherwise the rows with a present abstract, in order, the abstract stripped and every other cell unchanged |
| Mendeley.LastNames | scripts/extract/mendeley_manual.py:35 | succeeds iff every author is a dictionary, else `AttributeError`; then one `last_name`, or `None`, per author, in order |
| Mendeley.ExtractMetadata | scripts/extract/mendeley_manual.py:30-44 | succeeds iff every document can be projected, giving one entry per document in order; otherwise the first failing document's exception |
| Mendeley.NoAuthorsKey | scripts/extract/mendeley_manual.py:33-41 | a document without `authors` gets an empty author list and its other six fields, `None` when absent |
| Mendeley.AuthorsInOrder | scripts/extract/mendeley_manual.py:35 | a list of author dictionaries gives their last names in order, `None` where missing |
| Mendeley.UpToFirst | scripts/extract/mendeley_manual.py:56 | `split("&")[0]` is a prefix without "&" that ends at the first "&" or at the end |
| Mendeley.AfterLastSpec | scripts/extract/mendeley_manual.py:56 | `split("code=")[-1]` is a suffix holding no occurrence, and it is the whole URL or follows an occurrence |
| Mendeley.AfterLastShorter | scripts/extract/mendeley_manual.py:56 | when the pattern occurs, the last piece follows an occurrence and is shorter than the URL |
| Mendeley.AfterLastUnique | scripts/extract/mendeley_manual.py:56 | for "code=" that suffix is the only one after an occurrence and free of occurrences |
| Mendeley.ExtractCodeShape | scripts/extract/mendeley_manual.py:56 | the code has no "&" and is a prefix of the part after the last "code=", or of the whole URL when there is none |
| Mendeley.SplitShape | scripts/extract/mendeley_manual.py:56 | the same, for any non-empty pattern |
| Mendeley.ExtractCodeRoundTrip | scripts/extract/mendeley_manual.py:56 | a URL carrying `code` after its last "code=", up to "&" or the end, gives `code` back |
| Mendeley.SplitRoundTrip | scripts/extract/mendeley_manual.py:56 | the same round trip for any pattern whose first character does not recur in it |
| Builtins.TrimLeftSpec | scripts/clean/clean_data.py:12 | `lstrip` keeps the longest suffix not starting with whitespace, and drops only whitespace |
| Builtins.TrimRightSpec | scripts/clean/clean_data.py:12 | `rstrip` keeps the longest prefix not ending with whitespace, and drops only whitespace |
| Builtins.StripDropsOnlySpace | scripts/clean/clean_data.py:12 | `strip` keeps a contiguous middle piece and drops only whitespace on either side |
| Builtins.StripIdempotent | scripts/clean/clean_data.py:12 | stripping twice is stripping once |
| Builtins.ContainsIff | scripts/clean/check_criteria.py:21 | `pat in txt` iff the pattern occurs at some position |
| Builtins.Find | scripts/extraction/parse_ris.py:17 | the first occurrence of the separator, none iff it never occurs |
| Builtins.ParseInt | scripts/clean/check_criteria.py:76 | `int()` of a string: read iff, once stripped, it is a literal (digit groups joined by single underscores) after an optional `+` or `-`; the value is the literal's digits, negated after `-`; a blank string cannot be read |
| Builtins.SignedReadable | scripts/clean/check_criteria.py:76 | stripped text is read iff it is a literal after an optional sign, and the sign applies to the value |
| Builtins.NegatedText | scripts/clean/check_criteria.py:76 | a minus sign before a literal negates its value |
| Builtins.ParseIntRefuses | scripts/clean/check_criteria.py:76 | text that is no literal, such as "abc", "1.5", "20 19" or a lone "-", cannot be read |
| Builtins.ParseIntGrouped | scripts/clean/check_criteria.py:76 | two digit groups joined by one underscore read as the groups written together: `int("2_019") == int("2019")` |
| Builtins.GroupedLiteral | scripts/clean/check_criteria.py:76 | two digit groups joined by one underscore form a valid literal whose digits are the groups' |
| Builtins.ParseIntBadGroups | scripts/clean/check_criteria.py:76 | any string whose digits, after stripping and an optional sign, have a doubled, leading or trailing underscore cannot be read |
| Builtins.ParseIntRoundTrip | scripts/clean/check_criteria.py:76 | `int(str(i)) == i` |
| Builtins.ReplaceChar | scripts/clean/clean_data.py:16 | same length, each ";" becomes ",", every other character kept |
| Builtins.Trunc | scripts/clean/check_criteria.py:55 | `int()` of a float truncates toward zero |

## Left out

- File and console I/O is not modelled. This covers reading and writing the log, metadata, counts and CSV files, `json.dump` and every `print`. Files are values, and a missing file is `None`.
- `load_criteria` (scripts/clean/check_criteria.py:6-13) is not modelled. It only reads a JSON file, so the criteria are a datatype instead.
- The network and OAuth calls are not modelled: `get_access_token`, `fetch_documents`, `save_metadata` and the interactive `__main__` block of scripts/extract/mendeley_manual.py. The credentials are not part of this model.
- The clock is not modelled: the log timestamp is a parameter of `LogDecision`.
- All drawing is not modelled: layout, matplotlib and alphashape calls, and `draw_cluster_shape`. `get_color_map` and the seaborn palette are not modelled either. Only whether a colour lookup succeeds is modelled.
- The edge widths of `plot_vos_map` and its `max_weight` fallback of 1 (scripts/visualize/vosmapper/plot_static.py:78-80) are not modelled. They are floating-point drawing parameters.
- Python's full Unicode tables are not modelled. `lower`, `isdigit`, `isalpha` and the regex `\d` are ASCII-only here, while `strip` uses Python's whitespace set.
- CheckCriteria.Normalize: `str()` of a float is the float's stored `repr` field, which the model takes as given. List items are strings, so `map(str, ...)` over other item types is not modelled. Its contract says nothing about numbers.
- CheckCriteria.RecordYear: a float year is a real number, so `int()` of NaN or infinity, which raises, is not modelled.
- CheckCriteria.Check: a `year` criterion is a pair of optional bounds. An inclusion or exclusion `year` entry that is `null` or not a dictionary makes `.get` raise `AttributeError` (scripts/clean/check_criteria.py:74, 110-111). The model cannot write such an entry, so it has no failure for it.
- AuthorMatrix.AuthorSet: authors are strings. `"authors": null`, or a `None` author next to a string author, makes `sorted(set(authors))` raise `TypeError` (scripts/analysis/co_author/build_author_matrix.py:8-9). That input is not representable here. Mendeley produces such a `None` for an author without `last_name`.
- VosUtils.BucketSize: the scale is an exact real. The floating-point rounding of `50 * scale`, `200 * scale` and `900 * scale` is not modelled. Python gives `int(50 * 0.58) == 28`, while the exact product is 29. The two agree at the scales 0.8 and 1.0 that the scripts use.
- KeywordGraph.Normalise: the weights are divided over exact reals. Its bounds (0, 1], the norm 1 on a heaviest edge and the kept ratios hold for those reals, not for floating-point division.
- Cleaning.CleanDataframe: `dropna` keeps the surviving rows' original index labels. The model's rows are a sequence, so after a drop they are numbered afresh from 0.
- Cleaning.YearCell: cells are strings, integers or missing. Float cells (for which `astype(str)` prints "2019.0") are not modelled.
- Cleaning.StripCellShape: a non-string cell under `.str.strip()` becomes missing, as pandas does in an object column. A column with no strings at all, where the `.str` accessor raises instead, is not modelled. The same holds for Cleaning.TagsCellShape and `.str.replace`.
- AuthorMatrix.BuildAuthorMatrix: the DataFrame's row and column order, from `sorted`, is not modelled. The table is a map from author pairs.
- NameClusters.NameAll: the uniqueness loop has an iteration bound `fuel`, and `None` means "has not ended within it". Non-termination is shown for every bound, not as a diverging computation.
- Mendeley: JSON numbers are integers; floats are not modelled.
- Mendeley.AfterLast requires a non-empty pattern. The source only splits on "code=".

## Findings

| source | as written | input that shows it | evidently intended | confidence | as-written member | corrected member |
|---|---|---|---|---|---|---|
| scripts/analysis/generate_prisma_csv.py:28-88 | six of the seven rows read keys (`records_identified`, `records_screened`, `records_excluded`, `reports_assessed`, `reports_excluded`, `studies_included`) that the counts file written by `update_counts` never holds, so they show 0 | any log and metadata: the counts map has only identified, duplicates_removed, excluded_screening, excluded_eligibility, screened, eligibility, included | each row reads the stage count `update_counts` writes for it | high, not executed | Prisma.PipelineLosesCounts | Prisma.CorrectedPipelineShowsFlow |
