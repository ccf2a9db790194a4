/**
 * The PRISMA bookkeeping: the decision log that screening appends to
 * (scripts/analysis/log_prisma_decision.py), the stage counts derived from it
 * (scripts/analysis/count_prisma_stages.py) and the seven-row table drawn as a
 * PRISMA 2020 flow diagram (scripts/analysis/generate_prisma_csv.py).
 *
 * Files are values: a file that may be missing is an `Option`, the JSON-lines
 * log is the sequence of its entries, the metadata file is the list it holds.
 */
module Prisma {
  import opened Wrappers

  /** One line of the decision log. */
  datatype Entry = Entry(id: string, stage: string, decision: string, reason: string, timestamp: string)

  /** The log's entries; a log file that does not exist yet has none. */
  function Contents(file: Option<seq<Entry>>): seq<Entry> {
    match file
    case None => []
    case Some(entries) => entries
  }

  /** The decision log file, which `log_decision` creates on first use and then appends to. */
  class DecisionLog {
    var file: Option<seq<Entry>>

    constructor ()
      ensures file == None
    {
      file := None;
    }

    /**
     * `log_decision`: one new line holding the arguments; the timestamp, read
     * from the clock in the source, is a parameter here.
     */
    method LogDecision(recordId: string, stage: string, decision: string, reason: string, timestamp: string)
      modifies this
      ensures file == Some(Contents(old(file)) + [Entry(recordId, stage, decision, reason, timestamp)])
    {
      file := Some(Contents(file) + [Entry(recordId, stage, decision, reason, timestamp)]);
    }
  }

  // ---------------------------------------------------------------------------
  // count_prisma_stages.py

  predicate Matches(e: Entry, stage: string, decision: string) {
    e.stage == stage && e.decision == decision
  }

  /** The number of entries with this stage and decision. */
  function CountMatching(entries: seq<Entry>, stage: string, decision: string): (r: nat)
    ensures r <= |entries|
  {
    if entries == [] then 0
    else
      var last := if Matches(entries[|entries| - 1], stage, decision) then 1 else 0;
      CountMatching(entries[..|entries| - 1], stage, decision) + last
  }

  /** `count_stage_decisions`: a missing log counts 0. */
  function CountStageDecisions(log: Option<seq<Entry>>, stage: string, decision: string): (r: nat)
    ensures log.None? ==> r == 0
    ensures r <= |Contents(log)|
  {
    CountMatching(Contents(log), stage, decision)
  }

  /** The positions of the entries with this stage and decision. */
  function MatchingPositions(entries: seq<Entry>, stage: string, decision: string): set<nat> {
    set i: nat | i < |entries| && Matches(entries[i], stage, decision)
  }

  /** The count is the number of matching entries, wherever they sit in the log. */
  lemma {:induction false} CountIsCardinality(entries: seq<Entry>, stage: string, decision: string)
    ensures CountMatching(entries, stage, decision) == |MatchingPositions(entries, stage, decision)|
  {
    if entries != [] {
      var n := |entries| - 1;
      var init := entries[..n];
      CountIsCardinality(init, stage, decision);
      var before := MatchingPositions(init, stage, decision);
      var after := MatchingPositions(entries, stage, decision);
      if Matches(entries[n], stage, decision) {
        assert after == before + {n};
        assert n !in before;
      } else {
        assert after == before;
      }
    }
  }

  /**
   * Appending one entry (what `log_decision` does) raises the count of its own
   * stage and decision by one and leaves every other count as it was; this
   * holds also when the log did not exist yet.
   */
  lemma LogThenCount(log: Option<seq<Entry>>, e: Entry, stage: string, decision: string)
    ensures CountStageDecisions(Some(Contents(log) + [e]), stage, decision)
      == CountStageDecisions(log, stage, decision) + if Matches(e, stage, decision) then 1 else 0
  {
    assert (Contents(log) + [e])[..|Contents(log)|] == Contents(log);
  }

  /** `count_loaded`: the length of the metadata list, 0 for a missing file. */
  function CountLoaded<T>(metadata: Option<seq<T>>): (r: nat)
    ensures metadata.None? ==> r == 0
    ensures metadata.Some? ==> r == |metadata.value|
  {
    match metadata
    case None => 0
    case Some(records) => |records|
  }

  /** The seven keys of the counts file `update_counts` writes. */
  const CountKeys: set<string> :=
    {"identified", "duplicates_removed", "excluded_screening", "excluded_eligibility", "screened", "eligibility", "included"}

  /**
   * `update_counts`: the counts dictionary, filled key by key. Derived stages
   * are differences of logged numbers and are not clamped at 0.
   */
  method UpdateCounts<T>(log: Option<seq<Entry>>, metadata: Option<seq<T>>) returns (counts: map<string, int>)
    ensures counts.Keys == CountKeys
    ensures counts["identified"] == CountLoaded(metadata)
    ensures counts["duplicates_removed"] == CountStageDecisions(log, "screening", "exclude_duplicate")
    ensures counts["excluded_screening"] == CountStageDecisions(log, "screening", "exclude_irrelevant")
    ensures counts["excluded_eligibility"] == CountStageDecisions(log, "eligibility", "exclude_scope")
    ensures counts["screened"] == counts["identified"] - counts["duplicates_removed"]
    ensures counts["eligibility"] == counts["screened"] - counts["excluded_screening"]
    ensures counts["included"] == counts["identified"]
      - (counts["duplicates_removed"] + counts["excluded_screening"] + counts["excluded_eligibility"])
    ensures counts == StageCounts(log, metadata)
  {
    counts := map[
      "identified" := CountLoaded(metadata),
      "duplicates_removed" := CountStageDecisions(log, "screening", "exclude_duplicate"),
      "excluded_screening" := CountStageDecisions(log, "screening", "exclude_irrelevant"),
      "excluded_eligibility" := CountStageDecisions(log, "eligibility", "exclude_scope")
    ];
    counts := counts["screened" := counts["identified"] - counts["duplicates_removed"]];
    counts := counts["eligibility" := counts["screened"] - counts["excluded_screening"]];
    counts := counts["included" := counts["eligibility"] - counts["excluded_eligibility"]];
  }

  /** The counts `update_counts` writes, as a value, for the lemmas below. */
  function StageCounts<T>(log: Option<seq<Entry>>, metadata: Option<seq<T>>): map<string, int> {
    var identified := CountLoaded(metadata);
    var duplicates := CountStageDecisions(log, "screening", "exclude_duplicate");
    var excludedScreening := CountStageDecisions(log, "screening", "exclude_irrelevant");
    var excludedEligibility := CountStageDecisions(log, "eligibility", "exclude_scope");
    map[
      "identified" := identified,
      "duplicates_removed" := duplicates,
      "excluded_screening" := excludedScreening,
      "excluded_eligibility" := excludedEligibility,
      "screened" := identified - duplicates,
      "eligibility" := identified - duplicates - excludedScreening,
      "included" := identified - duplicates - excludedScreening - excludedEligibility
    ]
  }

  /**
   * Nothing clamps: with no metadata file and one logged duplicate the counts
   * say -1 records were screened and included.
   */
  lemma NegativeCounts(e: Entry)
    requires e.stage == "screening" && e.decision == "exclude_duplicate"
    ensures var counts := StageCounts<string>(Some([e]), None);
      counts["screened"] == -1 && counts["included"] == -1
  {
    assert [e][..0] == [];
    assert !Matches(e, "screening", "exclude_irrelevant");
    assert !Matches(e, "eligibility", "exclude_scope");
  }

  // ---------------------------------------------------------------------------
  // generate_prisma_csv.py

  /** One row of the diagram table, with the eight CSV columns in header order. */
  datatype CsvRow = CsvRow(
    data: string, node: string, box: string, description: string,
    boxtext: string, tooltips: string, url: string, n: int)

  const FieldNames: seq<string> := ["data", "node", "box", "description", "boxtext", "tooltips", "url", "n"]

  /** The fixed part of a row: everything except `n`. */
  datatype Box = Box(data: string, node: string, box: string, description: string, boxtext: string, tooltips: string)

  /** The seven boxes of the flow diagram, in table order. */
  const Boxes: seq<Box> := [
    Box("records_identified", "node7", "box2", "Records identified from: Mendeley",
      "Records identified", "Metadata records retrieved from Mendeley"),
    Box("duplicates", "node8", "box3", "Duplicate records removed",
      "Duplicate records", "Removed based on duplicate identifiers"),
    Box("records_screened", "node9", "box4", "Records screened for relevance",
      "Records screened", "Screening based on title, abstract, and year"),
    Box("records_excluded", "node10", "box5", "Records excluded during screening",
      "Records excluded", "Excluded due to missing abstract, title, or invalid year"),
    Box("reports_assessed", "node13", "box8", "Reports assessed for eligibility",
      "Reports assessed", "Eligibility based on scope and availability"),
    Box("reports_excluded", "node14", "box9", "Reports excluded during eligibility",
      "Reports excluded", "Out of scope or inaccessible"),
    Box("studies_included", "node15", "box10", "Studies included in synthesis",
      "Studies included", "Included in final analysis and visualisation")
  ]

  /** The counts key each row reads, as the code is written. */
  const ReadKeys: seq<string> := [
    "records_identified", "duplicates_removed", "records_screened", "records_excluded",
    "reports_assessed", "reports_excluded", "studies_included"
  ]

  /** The counts key each row evidently means: the key `update_counts` writes for that stage. */
  const StageKeys: seq<string> := [
    "identified", "duplicates_removed", "screened", "excluded_screening",
    "eligibility", "excluded_eligibility", "included"
  ]

  const MissingCounts: string := "Missing prisma_counts.json. Run count_prisma_stages.py first."

  /** `counts.get(key, 0)`. */
  function GetOrZero(counts: map<string, int>, key: string): int {
    if key in counts then counts[key] else 0
  }

  function MakeRow(b: Box, n: int): CsvRow {
    CsvRow(b.data, b.node, b.box, b.description, b.boxtext, b.tooltips, "NA", n)
  }

  /** The rows built from a counts map, each row reading `keys[i]`. */
  function TableFrom(counts: map<string, int>, keys: seq<string>): (rows: seq<CsvRow>)
    requires |keys| == |Boxes|
    ensures |rows| == |Boxes|
    ensures forall i :: 0 <= i < |rows| ==> rows[i] == MakeRow(Boxes[i], GetOrZero(counts, keys[i]))
  {
    seq(|Boxes|, i requires 0 <= i < |Boxes| => MakeRow(Boxes[i], GetOrZero(counts, keys[i])))
  }

  /**
   * `generate_csv` as written: a missing counts file is an error before
   * anything is written; otherwise seven rows, each reading its `ReadKeys` key.
   */
  function GenerateCsv(countsFile: Option<map<string, int>>): (r: Result<seq<CsvRow>, string>)
    ensures countsFile.None? <==> r.Failure?
    ensures r.Failure? ==> r.error == MissingCounts
    ensures r.Success? ==> |r.value| == 7
    ensures r.Success? ==> forall i :: 0 <= i < 7 ==> r.value[i].data == Boxes[i].data && r.value[i].url == "NA"
    ensures r.Success? ==> forall i :: 0 <= i < 7 ==> r.value[i].n == GetOrZero(countsFile.value, ReadKeys[i])
  {
    match countsFile
    case None => Failure(MissingCounts)
    case Some(counts) => Success(TableFrom(counts, ReadKeys))
  }

  /** The row order of the diagram. */
  lemma RowOrder(counts: map<string, int>)
    ensures var rows := GenerateCsv(Some(counts)).value;
      && rows[0].data == "records_identified" && rows[1].data == "duplicates"
      && rows[2].data == "records_screened" && rows[3].data == "records_excluded"
      && rows[4].data == "reports_assessed" && rows[5].data == "reports_excluded"
      && rows[6].data == "studies_included"
  {
  }

  /** Only `n` depends on the counts: two tables differ in nothing else. */
  lemma OnlyCountsVary(c1: map<string, int>, c2: map<string, int>)
    ensures var r1, r2 := GenerateCsv(Some(c1)).value, GenerateCsv(Some(c2)).value;
      forall i :: 0 <= i < 7 ==> r1[i].(n := 0) == r2[i].(n := 0)
  {
  }

  /**
   * The two files together, as written: of the seven keys the table reads,
   * only `duplicates_removed` is one `update_counts` writes, so six rows get
   * 0 whatever the log and the metadata hold.
   */
  lemma PipelineLosesCounts<T>(log: Option<seq<Entry>>, metadata: Option<seq<T>>)
    ensures var rows := GenerateCsv(Some(StageCounts(log, metadata))).value;
      && (forall i :: 0 <= i < 7 && i != 1 ==> rows[i].n == 0)
      && rows[1].n == CountStageDecisions(log, "screening", "exclude_duplicate")
  {
    var counts := StageCounts(log, metadata);
    assert counts.Keys == CountKeys;
    forall i | 0 <= i < 7 && i != 1
      ensures ReadKeys[i] !in counts
    {
    }
  }

  /** `generate_csv` reading the keys `update_counts` writes. */
  function GenerateCsvCorrected(countsFile: Option<map<string, int>>): (r: Result<seq<CsvRow>, string>)
    ensures countsFile.None? <==> r.Failure?
    ensures r.Failure? ==> r.error == MissingCounts
    ensures r.Success? ==> |r.value| == 7
    ensures r.Success? ==> forall i :: 0 <= i < 7 ==> r.value[i].data == Boxes[i].data && r.value[i].url == "NA"
    ensures r.Success? ==> forall i :: 0 <= i < 7 ==> r.value[i].n == GetOrZero(countsFile.value, StageKeys[i])
  {
    match countsFile
    case None => Failure(MissingCounts)
    case Some(counts) => Success(TableFrom(counts, StageKeys))
  }

  /**
   * With the corrected keys every box shows its stage: identified, removed,
   * screened and excluded records, assessed and excluded reports, and the
   * included studies, which are the identified records less every exclusion.
   */
  lemma CorrectedPipelineShowsFlow<T>(log: Option<seq<Entry>>, metadata: Option<seq<T>>)
    ensures var rows := GenerateCsvCorrected(Some(StageCounts(log, metadata))).value;
      var dup := CountStageDecisions(log, "screening", "exclude_duplicate");
      var exS := CountStageDecisions(log, "screening", "exclude_irrelevant");
      var exE := CountStageDecisions(log, "eligibility", "exclude_scope");
      && rows[0].n == CountLoaded(metadata)
      && rows[1].n == dup && rows[3].n == exS && rows[5].n == exE
      && rows[2].n == rows[0].n - rows[1].n
      && rows[4].n == rows[2].n - rows[3].n
      && rows[6].n == rows[4].n - rows[5].n
      && rows[6].n == CountLoaded(metadata) - (dup + exS + exE)
  {
    var counts := StageCounts(log, metadata);
    assert forall i :: 0 <= i < 7 ==> StageKeys[i] in counts;
  }
}
