/**
 * The line-driven RIS parser (scripts/extraction/parse_ris.py). A `TY  -` line
 * starts a fresh record, an `ER  -` line appends the current record to the
 * output, and every other non-blank line adds a tag to the current record.
 * The record is NOT reset at `ER`, so the object already appended stays the
 * parser's current record until the next `TY`: tag lines in between change the
 * row already emitted.
 */
module ParseRis {
  import opened Wrappers
  import opened Builtins

  /** The parser's mutable `record` dictionary, an object the output list aliases. */
  class RisRecord {
    var tags: map<string, string>

    constructor ()
      ensures tags == map[]
    {
      tags := map[];
    }
  }

  /** One output row: the four columns taken from TI, AB, PY and KW. */
  datatype Row = Row(title: string, abstractText: string, year: string, keywords: string)

  const Separator: string := "  - "

  /** `not line.strip()`: the line is whitespace only (see `BlankIffStripEmpty`). */
  predicate IsBlank(line: string) {
    forall k :: 0 <= k < |line| ==> IsSpace(line[k])
  }

  /** A line is blank exactly when stripping it leaves nothing. */
  lemma BlankIffStripEmpty(line: string)
    ensures IsBlank(line) <==> Strip(line) == []
  {
    StripDropsOnlySpace(line);
    if Strip(line) != [] {
      var i := |line| - |TrimLeft(line)|;
      assert line[i] == Strip(line)[0];
    }
  }

  predicate StartsRecord(line: string) {
    "TY  -" <= line
  }

  predicate EndsRecord(line: string) {
    "ER  -" <= line
  }

  /** A line the parser reads as `TAG  - value`. */
  predicate IsTagLine(line: string) {
    !IsBlank(line) && !StartsRecord(line) && !EndsRecord(line)
  }

  /**
   * `line.partition("  - ")` with both sides stripped: the text before the first
   * separator is the tag, the text after it the value; without a separator the
   * whole line is the tag and the value is empty.
   */
  function SplitTag(line: string): (string, string) {
    match Find(line, Separator)
    case None => (Strip(line), [])
    case Some(i) => (Strip(line[..i]), Strip(line[i + |Separator|..]))
  }

  /** Tag and value come out with no whitespace at either end. */
  lemma SplitTagTrimmed(line: string)
    ensures var (tag, value) := SplitTag(line);
      && (tag == [] || (!IsSpace(tag[0]) && !IsSpace(tag[|tag| - 1])))
      && (value == [] || (!IsSpace(value[0]) && !IsSpace(value[|value| - 1])))
    ensures Find(line, Separator).None? ==> SplitTag(line) == (Strip(line), [])
  {
  }

  /** Adding one tag: a repeated tag gets `"; " + value` appended. */
  function AddTag(tags: map<string, string>, tag: string, value: string): (r: map<string, string>)
    ensures r.Keys == tags.Keys + {tag}
    ensures forall t :: t in tags && t != tag ==> r[t] == tags[t]
  {
    if tag in tags then tags[tag := tags[tag] + "; " + value] else tags[tag := value]
  }

  /** `r.get(key, "")`. */
  function Lookup(tags: map<string, string>, key: string): string {
    if key in tags then tags[key] else []
  }

  /** The projection of a finished record onto the four output columns. */
  function Project(tags: map<string, string>): (row: Row)
    ensures row.title == Lookup(tags, "TI") && row.abstractText == Lookup(tags, "AB")
    ensures row.year == Lookup(tags, "PY") && row.keywords == Lookup(tags, "KW")
  {
    Row(Lookup(tags, "TI"), Lookup(tags, "AB"), Lookup(tags, "PY"), Lookup(tags, "KW"))
  }

  // ---------------------------------------------------------------------------
  // Reference semantics on values. Aliasing is made explicit: the rows emitted
  // since the last `TY` are all the current record, so the state keeps the
  // rows that can no longer change, the current record, and how many times the
  // current record has been emitted.

  datatype State = State(finished: seq<map<string, string>>, current: map<string, string>, pending: nat)

  const Initial: State := State([], map[], 0)

  /** The rows the parser holds in a state, in emission order. */
  function Rows(st: State): (rows: seq<map<string, string>>)
    ensures |rows| == |st.finished| + st.pending
    ensures rows[..|st.finished|] == st.finished
    ensures forall i :: |st.finished| <= i < |rows| ==> rows[i] == st.current
  {
    st.finished + seq(st.pending, _ => st.current)
  }

  /** How the parser reads one line. */
  datatype LineKind = Blank | Start | End | Tagged(tag: string, value: string)

  function Classify(line: string): LineKind {
    if IsBlank(line) then Blank
    else if StartsRecord(line) then Start
    else if EndsRecord(line) then End
    else Tagged(SplitTag(line).0, SplitTag(line).1)
  }

  function Step(st: State, kind: LineKind): State {
    match kind
    case Blank => st
    case Start => State(Rows(st), map[], 0)
    case End => st.(pending := st.pending + 1)
    case Tagged(tag, value) => st.(current := AddTag(st.current, tag, value))
  }

  function Run(lines: seq<string>): State {
    if lines == [] then Initial else Step(Run(lines[..|lines| - 1]), Classify(lines[|lines| - 1]))
  }

  lemma RunSnoc(lines: seq<string>, n: nat)
    requires n < |lines|
    ensures Run(lines[..n + 1]) == Step(Run(lines[..n]), Classify(lines[n]))
  {
    assert lines[..n + 1][..n] == lines[..n];
  }

  /** The records `parse_ris` collects from a file's lines. */
  function Records(lines: seq<string>): seq<map<string, string>> {
    Rows(Run(lines))
  }

  /**
   * `parse_ris`: the loop over the lines, with the current record an object that
   * `records` aliases, then the four-column projection of every record.
   */
  method Parse(lines: seq<string>) returns (rows: seq<Row>)
    ensures |rows| == |Records(lines)|
    ensures forall i :: 0 <= i < |rows| ==> rows[i] == Project(Records(lines)[i])
  {
    var records: seq<RisRecord> := [];
    var record := new RisRecord();
    ghost var finished: seq<map<string, string>> := [];
    var n := 0;
    assert lines[..0] == [];
    assert Run(lines[..0]) == State(finished, record.tags, 0);
    while n < |lines|
      invariant 0 <= n <= |lines|
      invariant fresh(record)
      invariant |finished| <= |records|
      invariant Run(lines[..n]) == State(finished, record.tags, |records| - |finished|)
      invariant forall i :: 0 <= i < |finished| ==> records[i] != record && records[i].tags == finished[i]
      invariant forall i :: |finished| <= i < |records| ==> records[i] == record
    {
      ghost var st := State(finished, record.tags, |records| - |finished|);
      RunSnoc(lines, n);
      var kind := Classify(lines[n]);
      match kind {
        case Blank =>
        case Start =>
          finished := Rows(st);
          record := new RisRecord();
        case End =>
          records := records + [record];
        case Tagged(tag, value) =>
          record.tags := AddTag(record.tags, tag, value);
      }
      n := n + 1;
    }
    assert lines[..n] == lines;
    rows := ProjectAll(records);
  }

  /** The DataFrame built from the collected records: one projected row per record. */
  method ProjectAll(records: seq<RisRecord>) returns (rows: seq<Row>)
    ensures |rows| == |records|
    ensures forall k :: 0 <= k < |records| ==> rows[k] == Project(records[k].tags)
  {
    rows := [];
    var i := 0;
    while i < |records|
      invariant 0 <= i <= |records|
      invariant |rows| == i
      invariant forall k :: 0 <= k < i ==> rows[k] == Project(records[k].tags)
    {
      rows := rows + [Project(records[i].tags)];
      i := i + 1;
    }
  }

  // ---------------------------------------------------------------------------
  // Properties of the parser.

  /** The number of `ER  -` lines. */
  function CountEnds(lines: seq<string>): nat {
    if lines == [] then 0
    else CountEnds(lines[..|lines| - 1]) + if EndsRecord(lines[|lines| - 1]) then 1 else 0
  }

  /** One row per `ER  -` line: blank, `TY` and tag lines emit nothing. */
  lemma {:induction false} RowCount(lines: seq<string>)
    ensures |Records(lines)| == CountEnds(lines)
  {
    if lines != [] {
      var last := lines[|lines| - 1];
      RowCount(lines[..|lines| - 1]);
      assert !(EndsRecord(last) && IsBlank(last)) by {
        if EndsRecord(last) {
          assert last[0] == 'E';
        }
      }
      assert !(EndsRecord(last) && StartsRecord(last)) by {
        if EndsRecord(last) { assert last[0] == 'E'; }
      }
    }
  }

  /** The current record is empty right after a `TY` line: its value is not stored. */
  lemma StartClearsRecord(lines: seq<string>, line: string)
    requires StartsRecord(line)
    ensures Run(lines + [line]).current == map[] && Run(lines + [line]).pending == 0
    ensures Records(lines + [line]) == Records(lines)
  {
    assert (lines + [line])[..|lines|] == lines;
    assert !IsBlank(line) by {
      assert line[0] == 'T';
    }
  }

  /** Feeding tag lines to a record, one `AddTag` per line. */
  function Feed(tags: map<string, string>, ls: seq<string>): map<string, string> {
    if ls == [] then tags
    else AddTag(Feed(tags, ls[..|ls| - 1]), SplitTag(ls[|ls| - 1]).0, SplitTag(ls[|ls| - 1]).1)
  }

  /** The values of the lines in `ls` whose tag is `tag`, in file order. */
  function TagValues(ls: seq<string>, tag: string): seq<string> {
    if ls == [] then []
    else TagValues(ls[..|ls| - 1], tag) + if SplitTag(ls[|ls| - 1]).0 == tag then [SplitTag(ls[|ls| - 1]).1] else []
  }

  /** `Join(vs + [v], sep)` extends `Join(vs, sep)` by the separator and `v`. */
  lemma {:induction false} JoinSnoc(vs: seq<string>, v: string, sep: string)
    requires vs != []
    ensures Join(vs + [v], sep) == Join(vs, sep) + sep + v
  {
    if |vs| == 1 {
      assert vs + [v] == [vs[0], v];
    } else {
      assert (vs + [v])[1..] == vs[1..] + [v];
      JoinSnoc(vs[1..], v, sep);
    }
  }

  /**
   * A tag repeated within a record holds its values joined with "; " in file
   * order; a tag that never occurs is absent.
   */
  lemma {:induction false} RepeatedTagsJoined(ls: seq<string>, tag: string)
    ensures TagValues(ls, tag) == [] ==> tag !in Feed(map[], ls)
    ensures TagValues(ls, tag) != [] ==> tag in Feed(map[], ls) && Feed(map[], ls)[tag] == Join(TagValues(ls, tag), "; ")
  {
    if ls != [] {
      var init := ls[..|ls| - 1];
      RepeatedTagsJoined(init, tag);
      var f := Feed(map[], init);
      var vs := TagValues(init, tag);
      var sp := SplitTag(ls[|ls| - 1]);
      assert Feed(map[], ls) == AddTag(f, sp.0, sp.1);
      assert TagValues(ls, tag) == vs + if sp.0 == tag then [sp.1] else [];
      if sp.0 == tag {
        if vs != [] {
          JoinSnoc(vs, sp.1, "; ");
        } else {
          assert TagValues(ls, tag) == [sp.1];
        }
      } else {
        assert TagValues(ls, tag) == vs;
      }
    }
  }

  /** Tag lines after a `TY` line build the current record by `Feed`. */
  lemma {:induction false} RecordIsFed(pre: seq<string>, ty: string, ls: seq<string>)
    requires StartsRecord(ty)
    requires forall k :: 0 <= k < |ls| ==> IsTagLine(ls[k])
    ensures Run(pre + [ty] + ls).current == Feed(map[], ls)
    ensures Run(pre + [ty] + ls).pending == 0
  {
    if ls == [] {
      assert pre + [ty] + ls == pre + [ty];
      StartClearsRecord(pre, ty);
    } else {
      var init := ls[..|ls| - 1];
      assert (pre + [ty] + ls)[..|pre + [ty] + ls| - 1] == pre + [ty] + init;
      RecordIsFed(pre, ty, init);
    }
  }

  /**
   * Aliasing: a tag line after an `ER` line (and before the next `TY`) changes
   * the row already emitted, and no row is added.
   */
  lemma TagAfterEndChangesEmittedRow(lines: seq<string>, line: string)
    requires Run(lines).pending > 0
    requires IsTagLine(line)
    ensures |Records(lines + [line])| == |Records(lines)|
    ensures var before, after := Records(lines), Records(lines + [line]);
      after[|after| - 1] == AddTag(before[|before| - 1], SplitTag(line).0, SplitTag(line).1)
  {
    assert (lines + [line])[..|lines|] == lines;
  }

  lemma SeparatorAfterTag(tag: string, value: string)
    requires |tag| == 2 && !IsSpace(tag[0]) && !IsSpace(tag[1])
    ensures Find(tag + Separator + value, Separator) == Some(2)
  {
    var line := tag + Separator + value;
    assert line[2..6] == Separator;
    assert OccursAt(line, Separator, 2);
    assert !OccursAt(line, Separator, 0) by {
      assert line[0..4][0] == tag[0];
    }
    assert !OccursAt(line, Separator, 1) by {
      assert line[1..5][0] == tag[1];
    }
  }

  /** A standard RIS line `XY  - value` splits into the two-character tag and the stripped value. */
  lemma StandardTagLine(tag: string, value: string)
    requires |tag| == 2 && !IsSpace(tag[0]) && !IsSpace(tag[1])
    ensures SplitTag(tag + Separator + value) == (tag, Strip(value))
  {
    var line := tag + Separator + value;
    SeparatorAfterTag(tag, value);
    assert line[..2] == tag && line[2 + |Separator|..] == value;
    StripUnchanged(tag);
  }

  /** A standard `XY  - value` line other than `TY`/`ER` is read as the tag `XY` with the stripped value. */
  lemma ClassifyStandardLine(tag: string, value: string)
    requires |tag| == 2 && !IsSpace(tag[0]) && !IsSpace(tag[1])
    requires tag != "TY" && tag != "ER"
    ensures Classify(tag + Separator + value) == Tagged(tag, Strip(value))
  {
    var line := tag + Separator + value;
    StandardTagLine(tag, value);
    assert !IsBlank(line) by { assert line[0] == tag[0]; }
    assert line[..2] == tag;
  }

  /**
   * The aliasing in a four-line file `TY`, tag `a`, `ER`, tag `b`: one row is
   * emitted and it holds both tags, the one read after `ER` included.
   */
  lemma AliasingExample(ty: string, t1: string, er: string, t2: string)
    requires Classify(ty) == Start && Classify(er) == End
    requires Classify(t1).Tagged? && Classify(t2).Tagged? && Classify(t1).tag != Classify(t2).tag
    ensures Records([ty, t1, er, t2]) == [map[Classify(t1).tag := Classify(t1).value, Classify(t2).tag := Classify(t2).value]]
  {
    var lines := [ty, t1, er, t2];
    var a, b := Classify(t1), Classify(t2);
    assert lines[..1][..0] == [];
    assert lines[..2][..1] == lines[..1];
    assert lines[..3][..2] == lines[..2];
    assert lines[..4][..3] == lines[..3] && lines[..4] == lines;
    assert Run(lines[..1]) == State([], map[], 0);
    assert Run(lines[..2]) == State([], map[a.tag := a.value], 0);
    assert Run(lines[..3]) == State([], map[a.tag := a.value], 1);
    assert Run(lines) == State([], map[a.tag := a.value, b.tag := b.value], 1);
  }
}
