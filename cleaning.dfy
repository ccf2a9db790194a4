/**
 * The three record-cleaning functions, over a table of rows keyed by column
 * name: `clean_dataframe` (scripts/clean/clean_data.py), `clean`
 * (scripts/cleaning/clean_data.py) and the older `clean_dataframe`
 * (scripts/_backup_cleanup/clean_data_clean.py). Each works on a copy, so
 * here each is a function from the input table to a new one.
 */
module Cleaning {
  import opened Wrappers
  import opened Builtins

  /** A table cell: missing (`NaN`/`None`), a string, or a number. */
  datatype Cell = Missing | Text(s: string) | Number(n: int)

  /** One row: column name to cell. */
  type Row = map<string, Cell>

  /** A table: its column names and its rows in order. */
  datatype Table = Table(columns: set<string>, rows: seq<Row>)

  /** Every row has a cell in every column, and no other. */
  predicate WellFormed(t: Table) {
    forall i :: 0 <= i < |t.rows| ==> t.rows[i].Keys == t.columns
  }

  // ---------------------------------------------------------------------------
  // Cell transforms.

  /** `.str.strip()`: a string is stripped, anything else becomes missing. */
  function StripCell(c: Cell): Cell {
    if c.Text? then Text(Strip(c.s)) else Missing
  }

  /** A stripped cell is missing or a string with no whitespace at either end, and stripping again changes nothing. */
  lemma StripCellShape(c: Cell)
    ensures StripCell(c).Text? <==> c.Text?
    ensures StripCell(c).Text? ==> Strip(StripCell(c).s) == StripCell(c).s
    ensures StripCell(StripCell(c)) == StripCell(c)
  {
    if c.Text? {
      StripIdempotent(c.s);
    }
  }

  /** `.str.replace(";", ",").str.strip()`. */
  function TagsCell(c: Cell): Cell {
    if c.Text? then Text(Strip(ReplaceChar(c.s, ';', ','))) else Missing
  }

  /**
   * `r` is `s[i..]` cut to `|r|` characters with every `;` read as `,`, and
   * only whitespace of `s` lies outside that window.
   */
  predicate TagsWindow(s: string, r: string, i: int) {
    && 0 <= i && i + |r| <= |s|
    && (forall k :: 0 <= k < |r| ==> r[k] == (if s[i + k] == ';' then ',' else s[i + k]))
    && (forall k :: 0 <= k < i ==> IsSpace(s[k]))
    && (forall k :: i + |r| <= k < |s| ==> IsSpace(s[k]))
  }

  /**
   * A cleaned tags string is the original with its outer whitespace dropped
   * and each `;` turned into `,`: no semicolon is left and no whitespace at
   * either end.
   */
  lemma TagsCellShape(c: Cell)
    ensures TagsCell(c).Text? <==> c.Text?
    ensures c.Text? ==> exists i :: TagsWindow(c.s, TagsCell(c).s, i)
    ensures TagsCell(c).Text? ==> ';' !in TagsCell(c).s
    ensures TagsCell(c).Text? ==> Strip(TagsCell(c).s) == TagsCell(c).s
  {
    if c.Text? {
      var t := ReplaceChar(c.s, ';', ',');
      StripDropsOnlySpace(t);
      var r := Strip(t);
      var i := |t| - |TrimLeft(t)|;
      forall k | 0 <= k < |r| ensures r[k] == (if c.s[i + k] == ';' then ',' else c.s[i + k]) && r[k] != ';' {
        assert r[k] == t[i + k];
      }
      forall k | 0 <= k < |t| && IsSpace(t[k]) ensures IsSpace(c.s[k]) {
        assert c.s[k] != ';';
      }
      assert TagsWindow(c.s, r, i);
      StripIdempotent(t);
    }
  }

  /** `.astype(str)`: the text of a cell; a missing value prints as `nan`. */
  function Str(c: Cell): string {
    match c
    case Missing => "nan"
    case Text(s) => s
    case Number(n) => IntToString(n)
  }

  /** Four digits start at position `i` of `s`. */
  predicate YearAt(s: string, i: int) {
    0 <= i && i + 4 <= |s| && forall k :: i <= k < i + 4 ==> IsDigit(s[k])
  }

  /** The first position at or after `i` where four digits start, as `re.search(r"\d{4}")` finds it. */
  function FirstYearFrom(s: string, i: nat): (r: Option<nat>)
    requires i <= |s|
    ensures r.Some? ==> i <= r.value && YearAt(s, r.value)
    ensures r.Some? ==> forall j :: i <= j < r.value ==> !YearAt(s, j)
    ensures r.None? ==> forall j :: i <= j ==> !YearAt(s, j)
    decreases |s| - i
  {
    if i + 4 > |s| then None
    else if YearAt(s, i) then Some(i)
    else FirstYearFrom(s, i + 1)
  }

  /** `.astype(str).str.extract(r"(\d{4})")`: the first four-digit run of the cell's text, else missing. */
  function YearCell(c: Cell): (r: Cell)
    ensures r.Missing? || r.Text?
    ensures r.Text? ==> |r.s| == 4 && forall k :: 0 <= k < 4 ==> IsDigit(r.s[k])
  {
    match FirstYearFrom(Str(c), 0)
    case Some(i) => Text(Str(c)[i..i + 4])
    case None => Missing
  }

  /**
   * The year is the FIRST four-digit run of the cell's text; it is missing
   * exactly when the text holds no four digits in a row.
   */
  lemma YearCellFirst(c: Cell)
    ensures YearCell(c).Missing? <==> forall j :: !YearAt(Str(c), j)
    ensures YearCell(c).Text? ==>
      exists i :: (YearAt(Str(c), i) && Str(c)[i..i + 4] == YearCell(c).s && forall j :: 0 <= j < i ==> !YearAt(Str(c), j))
  {
    var s := Str(c);
    match FirstYearFrom(s, 0)
    case Some(i) =>
      assert YearAt(s, i) && s[i..i + 4] == YearCell(c).s;
    case None =>
  }

  /** Extracting the year from an extracted year gives it back. */
  lemma YearCellIdempotent(c: Cell)
    ensures YearCell(YearCell(c)) == YearCell(c)
  {
    var y := YearCell(c);
    if y.Text? {
      assert YearAt(y.s, 0);
      assert y.s[0..4] == y.s;
    } else {
      assert Str(y) == "nan";
      assert !YearAt("nan", 0);
    }
  }

  /** A number's year is its first four digits, e.g. 2019 gives "2019". */
  lemma NumberYear(n: nat)
    requires 1000 <= n < 10000
    ensures YearCell(Number(n)) == Text(NatToString(n))
  {
    var s := NatToString(n);
    assert n / 1000 < 10 && n / 100 >= 10 && n / 10 >= 10;
    assert n / 10 / 10 == n / 100 && n / 100 / 10 == n / 1000;
    assert s == NatToString(n / 10) + [DigitChar(n % 10)];
    assert NatToString(n / 10) == NatToString(n / 100) + [DigitChar(n / 10 % 10)];
    assert NatToString(n / 100) == NatToString(n / 1000) + [DigitChar(n / 100 % 10)];
    assert |s| == 4;
    assert YearAt(s, 0);
    assert s[0..4] == s;
  }

  // ---------------------------------------------------------------------------
  // Row transforms and filters.

  /** The cell of column `col` transformed by `f`, when the row has the column. */
  function Apply(row: Row, col: string, f: Cell -> Cell): Row {
    if col in row then row[col := f(row[col])] else row
  }

  /** The per-row part of `clean_dataframe`: each step only when its column exists. */
  function CleanRow(cols: set<string>, row: Row): Row {
    var r1 := if "abstract" in cols then Apply(row, "abstract", StripCell) else row;
    var r2 := if "title" in cols then Apply(r1, "title", StripCell) else r1;
    var r3 := if "tags" in cols then Apply(r2, "tags", TagsCell) else r2;
    if "year" in cols then Apply(r3, "year", YearCell) else r3
  }

  /**
   * What cleaning does to one row of a well-formed table: title and abstract
   * stripped, tags rewritten, year extracted, each only when the column
   * exists; no column added or removed, every other cell unchanged.
   */
  lemma CleanRowEffect(cols: set<string>, row: Row)
    requires row.Keys == cols
    ensures CleanRow(cols, row).Keys == cols
    ensures "title" in cols ==> CleanRow(cols, row)["title"] == StripCell(row["title"])
    ensures "abstract" in cols ==> CleanRow(cols, row)["abstract"] == StripCell(row["abstract"])
    ensures "tags" in cols ==> CleanRow(cols, row)["tags"] == TagsCell(row["tags"])
    ensures "year" in cols ==> CleanRow(cols, row)["year"] == YearCell(row["year"])
    ensures forall col :: col in cols && col !in {"title", "abstract", "tags", "year"} ==> CleanRow(cols, row)[col] == row[col]
  {
  }

  /** A cell is present: the row has the column and the value is not missing. */
  predicate Present(row: Row, col: string) {
    col in row && !row[col].Missing?
  }

  /** The positions at or after `i` of the rows whose `col` is present, in order. */
  function KeptFrom(rows: seq<Row>, col: string, i: nat): (idx: seq<nat>)
    requires i <= |rows|
    ensures |idx| <= |rows| - i
    ensures forall k :: 0 <= k < |idx| ==> i <= idx[k] < |rows| && Present(rows[idx[k]], col)
    ensures forall k, l :: 0 <= k < l < |idx| ==> idx[k] < idx[l]
    ensures forall j :: i <= j < |rows| && Present(rows[j], col) ==> j in idx
    decreases |rows| - i
  {
    if i == |rows| then []
    else if Present(rows[i], col) then [i] + KeptFrom(rows, col, i + 1)
    else KeptFrom(rows, col, i + 1)
  }

  /** `dropna(subset=[col])`: the rows with `col` present, in their original order. */
  function DropMissing(rows: seq<Row>, col: string): (kept: seq<Row>)
    ensures |kept| <= |rows|
  {
    var idx := KeptFrom(rows, col, 0);
    seq(|idx|, k requires 0 <= k < |idx| => rows[idx[k]])
  }

  /** Every row cleaned. */
  function CleanRows(cols: set<string>, rows: seq<Row>): (r: seq<Row>)
    ensures |r| == |rows|
    ensures forall k :: 0 <= k < |rows| ==> r[k] == CleanRow(cols, rows[k])
  {
    seq(|rows|, k requires 0 <= k < |rows| => CleanRow(cols, rows[k]))
  }

  /** Dropping rows keeps a table well formed. */
  lemma DropMissingWellFormed(t: Table, col: string)
    requires WellFormed(t)
    ensures WellFormed(Table(t.columns, DropMissing(t.rows, col)))
  {
  }

  // ---------------------------------------------------------------------------
  // The three cleaning functions.

  /** `clean_dataframe` (scripts/clean/clean_data.py). */
  function CleanDataframe(t: Table): (r: Table)
    requires WellFormed(t)
    ensures r.columns == t.columns
  {
    var rows := if "abstract" in t.columns then DropMissing(t.rows, "abstract") else t.rows;
    Table(t.columns, CleanRows(t.columns, rows))
  }

  /**
   * With an abstract column the output holds, in order, exactly the rows
   * whose abstract is present, each cleaned; without one every row is kept.
   */
  lemma CleanDataframeRows(t: Table)
    requires WellFormed(t)
    ensures WellFormed(CleanDataframe(t))
    ensures "abstract" in t.columns ==>
      var idx := KeptFrom(t.rows, "abstract", 0);
      && |CleanDataframe(t).rows| == |idx|
      && (forall k :: 0 <= k < |idx| ==> CleanDataframe(t).rows[k] == CleanRow(t.columns, t.rows[idx[k]]))
      && (forall k, l :: 0 <= k < l < |idx| ==> idx[k] < idx[l])
      && (forall j :: 0 <= j < |t.rows| ==> (j in idx <==> Present(t.rows[j], "abstract")))
    ensures "abstract" !in t.columns ==>
      && |CleanDataframe(t).rows| == |t.rows|
      && forall k :: 0 <= k < |t.rows| ==> CleanDataframe(t).rows[k] == CleanRow(t.columns, t.rows[k])
  {
    var r := CleanDataframe(t);
    forall k | 0 <= k < |r.rows| ensures r.rows[k].Keys == t.columns {
      if "abstract" in t.columns {
        var idx := KeptFrom(t.rows, "abstract", 0);
        CleanRowEffect(t.columns, t.rows[idx[k]]);
      } else {
        CleanRowEffect(t.columns, t.rows[k]);
      }
    }
  }

  /**
   * A surviving abstract was present in the input; after stripping it is a
   * string again unless it was a number.
   */
  lemma CleanDataframeAbstracts(t: Table, k: nat)
    requires WellFormed(t) && "abstract" in t.columns
    requires k < |CleanDataframe(t).rows|
    ensures var idx := KeptFrom(t.rows, "abstract", 0);
      && Present(t.rows[idx[k]], "abstract")
      && "abstract" in CleanDataframe(t).rows[k]
      && CleanDataframe(t).rows[k]["abstract"] == StripCell(t.rows[idx[k]]["abstract"])
  {
    var idx := KeptFrom(t.rows, "abstract", 0);
    CleanRowEffect(t.columns, t.rows[idx[k]]);
  }

  /** `clean` (scripts/cleaning/clean_data.py): all four columns are required; no row is dropped. */
  function Clean(t: Table): (r: Result<Table, string>)
    requires WellFormed(t)
  {
    if "title" !in t.columns then Failure("title")
    else if "abstract" !in t.columns then Failure("abstract")
    else if "tags" !in t.columns then Failure("tags")
    else if "year" !in t.columns then Failure("year")
    else Success(Table(t.columns, CleanRows(t.columns, t.rows)))
  }

  /**
   * `clean` fails exactly when one of the four columns is missing, naming
   * the first in the order title, abstract, tags, year; otherwise it keeps
   * every row, in order, each cleaned.
   */
  lemma CleanContract(t: Table)
    requires WellFormed(t)
    ensures Clean(t).Failure? <==> !({"title", "abstract", "tags", "year"} <= t.columns)
    ensures Clean(t).Failure? ==> (Clean(t).error !in t.columns && Clean(t).error in ["title", "abstract", "tags", "year"])
    ensures Clean(t) == Failure("abstract") ==> "title" in t.columns
    ensures Clean(t) == Failure("tags") ==> "title" in t.columns && "abstract" in t.columns
    ensures Clean(t) == Failure("year") ==> "title" in t.columns && "abstract" in t.columns && "tags" in t.columns
    ensures Clean(t).Success? ==>
      && Clean(t).value.columns == t.columns
      && |Clean(t).value.rows| == |t.rows|
      && forall k :: 0 <= k < |t.rows| ==> Clean(t).value.rows[k] == CleanRow(t.columns, t.rows[k])
  {
  }

  /** On a table with all four columns, `clean` and `clean_dataframe` agree when no abstract is missing. */
  lemma CleanAgreesWithCleanDataframe(t: Table)
    requires WellFormed(t) && {"title", "abstract", "tags", "year"} <= t.columns
    requires forall j :: 0 <= j < |t.rows| ==> Present(t.rows[j], "abstract")
    ensures Clean(t) == Success(CleanDataframe(t))
  {
    AllKept(t.rows, "abstract", 0);
    var d := DropMissing(t.rows, "abstract");
    assert |d| == |t.rows|;
    assert d == t.rows;
  }

  /** The positions `i`, `i + 1`, ..., `n - 1`. */
  function Upto(i: nat, n: nat): (r: seq<nat>)
    requires i <= n
    ensures |r| == n - i
    ensures forall k :: 0 <= k < |r| ==> r[k] == i + k
    decreases n - i
  {
    if i == n then [] else [i] + Upto(i + 1, n)
  }

  /** When every row is kept the positions are all of them. */
  lemma {:induction false} AllKept(rows: seq<Row>, col: string, i: nat)
    requires i <= |rows|
    requires forall j :: i <= j < |rows| ==> Present(rows[j], col)
    ensures KeptFrom(rows, col, i) == Upto(i, |rows|)
    decreases |rows| - i
  {
    if i < |rows| {
      AllKept(rows, col, i + 1);
      assert Present(rows[i], col);
      assert KeptFrom(rows, col, i) == [i] + KeptFrom(rows, col, i + 1);
      assert Upto(i, |rows|) == [i] + Upto(i + 1, |rows|);
    }
  }

  /** `clean_dataframe` (scripts/_backup_cleanup/clean_data_clean.py): drop missing abstracts, strip the rest. */
  function CleanDataframeBackup(t: Table): (r: Result<Table, string>)
    requires WellFormed(t)
  {
    if "abstract" !in t.columns then Failure("abstract")
    else
      var rows := DropMissing(t.rows, "abstract");
      Success(Table(t.columns, seq(|rows|, k requires 0 <= k < |rows| => Apply(rows[k], "abstract", StripCell))))
  }

  /**
   * The older cleaner needs an abstract column; it keeps, in order, the rows
   * whose abstract is present, strips the abstract and leaves every other
   * cell alone.
   */
  lemma CleanDataframeBackupContract(t: Table)
    requires WellFormed(t)
    ensures CleanDataframeBackup(t).Failure? <==> "abstract" !in t.columns
    ensures CleanDataframeBackup(t).Success? ==>
      var idx := KeptFrom(t.rows, "abstract", 0);
      var out := CleanDataframeBackup(t).value.rows;
      && |out| == |idx|
      && forall k :: 0 <= k < |idx| ==>
        && out[k].Keys == t.columns
        && out[k]["abstract"] == StripCell(t.rows[idx[k]]["abstract"])
        && forall col :: col in t.columns && col != "abstract" ==> out[k][col] == t.rows[idx[k]][col]
  {
  }
}
