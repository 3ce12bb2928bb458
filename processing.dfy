/**
 * `process_dataframe` and `format_regression_df`: the regression table is
 * obtained from the raw one by dropping columns, keeping the rows of the
 * chosen decades, dropping rows with missing values, adding log columns and
 * standardizing columns, in that order; the targets are then taken from it.
 * The logarithm and the per-column standardization are parameters.
 */
module Processing {
  import opened Wrappers
  import opened Frames
  import opened Selection

  /** `(x - mean) / std` for one cell, given all the cells of its column. */
  type Standardizer = (seq<Cell>, Cell) -> Cell

  const DEFAULT_DROP: seq<Column> := ["name", "revenue", "has_common_character_name",
    "has_common_language", "language_number", "character_number"]
  const DEFAULT_POST_DROP: seq<Column> := ["release_date", "num_votes", "runtime", "decade",
    "average_rating", "combinned_best_rating"]
  /** The VIF above which `filter_multicolinearity` drops a column by default. */
  const VIF_THRESHOLD: real := 5.0

  /** The parameter dictionary; `format_regression_df` writes its `decades` entry. */
  class Parameters {
    var drop: seq<Column>
    var nanFiltering: seq<Column>
    var decades: seq<int>
    var log: seq<Column>
    var standardize: seq<Column>
    var postDrop: seq<Column>

    /** `DEFAULT_PARAMETERS`. */
    constructor Default()
      ensures drop == DEFAULT_DROP && nanFiltering == ["all"] && decades == []
      ensures log == [] && standardize == ["title_length"] && postDrop == DEFAULT_POST_DROP
    {
      drop := DEFAULT_DROP;
      nanFiltering := ["all"];
      decades := [];
      log := [];
      standardize := ["title_length"];
      postDrop := DEFAULT_POST_DROP;
    }
  }

  // ---------------------------------------------------------------------
  // Row filters
  // ---------------------------------------------------------------------

  /** `decade.isin(decades)`: the row's decade equals one of the listed decades (NaN never does). */
  predicate InDecades(row: Row, decades: seq<int>) {
    var c := CellOf(row, "decade");
    c.Some? && c.value.Num? && exists d :: d in decades && c.value.x == d as real
  }

  /** The row has a value in each of the given columns. */
  predicate NoMissing(row: Row, cols: seq<Column>) {
    forall c :: c in cols ==> CellOf(row, c).Some?
  }

  /** Keeps the rows of the listed decades; an empty list keeps every row. */
  function DecadeFilter(t: Table, decades: seq<int>): (r: Result<Table>)
    requires WellFormed(t)
    ensures r.Failure? <==> |decades| != 0 && "decade" !in t.columns
    ensures r.Failure? ==> r.error == KeyError("decade")
    ensures r.Success? ==> WellFormed(r.value) && r.value.columns == t.columns
    ensures r.Success? ==> Subseq(Ids(r.value.rows), Ids(t.rows))
    ensures r.Success? && |decades| == 0 ==> r.value == t
    ensures r.Success? ==> forall row :: row in r.value.rows <==>
      row in t.rows && (|decades| == 0 || InDecades(row, decades))
  {
    if |decades| == 0 then
      SubseqRefl(Ids(t.rows));
      Success(t)
    else if "decade" !in t.columns then Failure(KeyError("decade"))
    else
      FilterIdsSubseq(t.rows, row => InDecades(row, decades));
      Success(FilterRows(t, row => InDecades(row, decades)))
  }

  /** The columns `dropna` looks at: all of them if the first entry is "all". */
  function NanColumns(t: Table, nanFiltering: seq<Column>): seq<Column>
    requires |nanFiltering| > 0
  {
    if nanFiltering[0] == "all" then t.columns else nanFiltering
  }

  /**
   * `dropna(how="any")` when the first entry is "all", otherwise
   * `dropna(subset=nanFiltering)`, which raises KeyError for a label that
   * is not a column; nothing is filtered when the list is empty.
   */
  function NanFilter(t: Table, nanFiltering: seq<Column>): (r: Result<Table>)
    requires WellFormed(t)
    ensures r.Failure? <==> (|nanFiltering| != 0 && nanFiltering[0] != "all" &&
      exists c :: c in nanFiltering && c !in t.columns)
    ensures r.Failure? ==> r.error.KeyError? && r.error.key in nanFiltering && r.error.key !in t.columns
    ensures r.Success? ==> WellFormed(r.value) && r.value.columns == t.columns
    ensures r.Success? ==> Subseq(Ids(r.value.rows), Ids(t.rows))
    ensures r.Success? && |nanFiltering| == 0 ==> r.value == t
    ensures r.Success? ==> forall row :: row in r.value.rows <==>
      row in t.rows && (|nanFiltering| == 0 || NoMissing(row, NanColumns(t, nanFiltering)))
  {
    if |nanFiltering| == 0 then
      SubseqRefl(Ids(t.rows));
      Success(t)
    else
      var missing := FirstMissing(nanFiltering, t.columns);
      if nanFiltering[0] != "all" && missing.Some? then Failure(KeyError(missing.value))
      else
        var cols := NanColumns(t, nanFiltering);
        FilterIdsSubseq(t.rows, row => NoMissing(row, cols));
        Success(FilterRows(t, row => NoMissing(row, cols)))
  }

  /** Drop, then the decade filter, then the missing-value filter. */
  function Selected(t: Table, drop: seq<Column>, decades: seq<int>, nanFiltering: seq<Column>): (r: Result<Table>)
    requires WellFormed(t)
    ensures r.Success? ==> WellFormed(r.value)
  {
    var dropped := DropColumns(t, drop);
    if dropped.Failure? then Failure(dropped.error)
    else
      var byDecade := DecadeFilter(dropped.value, decades);
      if byDecade.Failure? then byDecade
      else NanFilter(byDecade.value, nanFiltering)
  }

  /**
   * What `Selected` keeps: an order-preserving subset of the rows, the
   * columns without the dropped ones, only rows of the listed decades, and
   * only rows with a value in each filtered column; with no decade and no
   * missing-value filter, every row is kept.
   */
  lemma SelectedMeaning(t: Table, drop: seq<Column>, decades: seq<int>, nanFiltering: seq<Column>)
    requires WellFormed(t)
    requires Selected(t, drop, decades, nanFiltering).Success?
    ensures var s := Selected(t, drop, decades, nanFiltering).value;
      && s.columns == Filter(t.columns, c => c !in drop)
      && Subseq(Ids(s.rows), Ids(t.rows))
      && (|decades| != 0 ==> forall row :: row in s.rows ==> InDecades(row, decades))
      && (|nanFiltering| != 0 ==> forall row :: row in s.rows ==> NoMissing(row, NanColumns(s, nanFiltering)))
      && (|decades| == 0 && |nanFiltering| == 0 ==> Ids(s.rows) == Ids(t.rows))
  {
    var dropped := DropColumns(t, drop).value;
    var byDecade := DecadeFilter(dropped, decades).value;
    var s := NanFilter(byDecade, nanFiltering).value;
    SubseqTrans(Ids(s.rows), Ids(byDecade.rows), Ids(dropped.rows));
    SubseqRefl(Ids(t.rows));
  }

  /** The missing-value filter reads the table after the decade filter, with all its columns. */
  lemma SelectedFailure(t: Table, drop: seq<Column>, decades: seq<int>, nanFiltering: seq<Column>)
    requires WellFormed(t)
    ensures Selected(t, drop, decades, nanFiltering).Failure? <==>
      || (exists c :: c in drop && c !in t.columns)
      || (|decades| != 0 && ("decade" !in t.columns || "decade" in drop))
      || (|nanFiltering| != 0 && nanFiltering[0] != "all" &&
          exists c :: c in nanFiltering && (c !in t.columns || c in drop))
  {
    var dropped := DropColumns(t, drop);
    if dropped.Success? {
      assert forall c :: c in dropped.value.columns <==> c in t.columns && c !in drop;
    }
  }

  // ---------------------------------------------------------------------
  // Log columns and standardization
  // ---------------------------------------------------------------------

  function LogName(c: Column): Column {
    "log_" + c
  }

  lemma LogNameInjective(a: Column, b: Column)
    requires LogName(a) == LogName(b)
    ensures a == b
  {
    assert a == LogName(a)[4..] && b == LogName(b)[4..];
  }

  /** `np.log`: applied to a number; NaN stays NaN (a non-numeric cell is taken as NaN). */
  function LogCell(ln: real -> real, c: Cell): Cell {
    if c.Some? && c.value.Num? then Some(Num(ln(c.value.x))) else None
  }

  /** `df["log_" + c] = df[c].apply(np.log)`, or KeyError if `c` is not a column. */
  function LogStep(t: Table, c: Column, ln: real -> real): (r: Result<Table>)
    requires WellFormed(t)
    ensures r.Failure? <==> c !in t.columns
    ensures r.Success? ==> WellFormed(r.value) && r.value.columns == AddLabel(t.columns, LogName(c))
    ensures r.Success? ==> KeepsOthers(t, r.value, {LogName(c)})
    ensures r.Success? ==> forall k :: 0 <= k < |t.rows| ==>
      CellOf(r.value.rows[k], LogName(c)) == LogCell(ln, CellOf(t.rows[k], c))
  {
    if c !in t.columns then Failure(KeyError(c))
    else Success(WithColumn(t, LogName(c), row => LogCell(ln, CellOf(row, c))))
  }

  function LogNames(cols: seq<Column>): (names: set<Column>) {
    set c | c in cols :: LogName(c)
  }

  /** The log loop: one `LogStep` per listed column, in order, stopping at the first error. */
  function LogColumns(t: Table, cols: seq<Column>, ln: real -> real): (r: Result<Table>)
    requires WellFormed(t)
    ensures (forall c :: c in cols ==> c in t.columns) ==> r.Success?
    ensures r.Success? ==> WellFormed(r.value)
    ensures r.Success? ==> forall c :: c in t.columns ==> c in r.value.columns
    ensures r.Success? ==> forall c :: c in r.value.columns ==> c in t.columns || c in LogNames(cols)
    ensures r.Success? ==> KeepsOthers(t, r.value, LogNames(cols))
    decreases |cols|
  {
    if cols == [] then Success(t)
    else
      var init := cols[..|cols| - 1];
      var last := cols[|cols| - 1];
      assert forall c :: c in init ==> c in cols;
      var prev := LogColumns(t, init, ln);
      if prev.Failure? then prev
      else
        var r := LogStep(prev.value, last, ln);
        if r.Success? then
          assert LogNames(cols) == LogNames(init) + {LogName(last)};
          KeepsOthersTrans(t, prev.value, r.value, LogNames(init), {LogName(last)});
          r
        else r
  }

  /** No log column is written over a listed source column. */
  ghost predicate NoChain(cols: seq<Column>) {
    forall a, b :: a in cols && b in cols ==> LogName(a) != b
  }

  /** `log_c` holds the log of the cell of `c` in `t`, for every listed `c`. */
  ghost predicate LogCellsHold(t: Table, r: Table, cols: seq<Column>, ln: real -> real) {
    |r.rows| == |t.rows| &&
    forall k, c :: 0 <= k < |t.rows| && c in cols ==>
      CellOf(r.rows[k], LogName(c)) == LogCell(ln, CellOf(t.rows[k], c))
  }

  /**
   * When no log column overwrites a listed column, the log loop succeeds
   * exactly when every listed column exists, and `log_c` holds the log of
   * the ORIGINAL cell of `c`.
   */
  lemma {:induction false} LogColumnsMeaning(t: Table, cols: seq<Column>, ln: real -> real)
    requires WellFormed(t) && NoChain(cols)
    ensures LogColumns(t, cols, ln).Success? <==> forall c :: c in cols ==> c in t.columns
    ensures LogColumns(t, cols, ln).Success? ==> LogCellsHold(t, LogColumns(t, cols, ln).value, cols, ln)
    decreases |cols|
  {
    if cols != [] {
      var init := cols[..|cols| - 1];
      var last := cols[|cols| - 1];
      assert cols == init + [last];
      assert forall c :: c in init ==> c in cols;
      LogColumnsMeaning(t, init, ln);
      var prev := LogColumns(t, init, ln);
      if prev.Success? {
        assert last in cols;
        forall a | a in init ensures LogName(a) != last {
          assert a in cols;
        }
        LogMeaningStep(t, prev.value, init, last, ln);
      }
    }
  }

  lemma LogMeaningStep(t: Table, p: Table, init: seq<Column>, last: Column, ln: real -> real)
    requires WellFormed(t) && WellFormed(p)
    requires KeepsOthers(t, p, LogNames(init)) && LogCellsHold(t, p, init, ln)
    requires forall a :: a in init ==> LogName(a) != last
    requires forall c :: c in t.columns ==> c in p.columns
    requires forall c :: c in p.columns ==> c in t.columns || c in LogNames(init)
    ensures LogStep(p, last, ln).Success? <==> last in t.columns
    ensures LogStep(p, last, ln).Success? ==> LogCellsHold(t, LogStep(p, last, ln).value, init + [last], ln)
  {
    assert last !in LogNames(init);
    var r := LogStep(p, last, ln);
    if r.Success? {
      forall k | 0 <= k < |t.rows| ensures CellOf(p.rows[k], last) == CellOf(t.rows[k], last) {
        assert last in t.rows[k].cells;
      }
      forall k, c | 0 <= k < |t.rows| && c in init + [last]
        ensures CellOf(r.value.rows[k], LogName(c)) == LogCell(ln, CellOf(t.rows[k], c))
      {
        if LogName(c) == LogName(last) {
          LogNameInjective(c, last);
        } else {
          assert c in init;
        }
      }
    }
  }

  /** `standardize_column(df, c)`: overwrites column `c` by its z-scores, or KeyError. */
  function StandardizeStep(t: Table, c: Column, zscore: Standardizer): (r: Result<Table>)
    requires WellFormed(t)
    ensures r.Failure? <==> c !in t.columns
    ensures r.Success? ==> WellFormed(r.value) && r.value.columns == t.columns
    ensures r.Success? ==> KeepsOthers(t, r.value, {c})
    ensures r.Success? ==> forall k :: 0 <= k < |t.rows| ==>
      CellOf(r.value.rows[k], c) == zscore(ColumnCells(t, c), CellOf(t.rows[k], c))
  {
    if c !in t.columns then Failure(KeyError(c))
    else
      var cells := ColumnCells(t, c);
      Success(WithColumn(t, c, row => zscore(cells, CellOf(row, c))))
  }

  /**
   * The standardization loop: it succeeds exactly when every listed column
   * exists, keeps the columns, and changes no cell outside them.
   */
  function StandardizeColumns(t: Table, cols: seq<Column>, zscore: Standardizer): (r: Result<Table>)
    requires WellFormed(t)
    ensures r.Success? <==> forall c :: c in cols ==> c in t.columns
    ensures r.Success? ==> WellFormed(r.value) && r.value.columns == t.columns
    ensures r.Success? ==> KeepsOthers(t, r.value, set c | c in cols)
    decreases |cols|
  {
    if cols == [] then Success(t)
    else
      var init := cols[..|cols| - 1];
      var last := cols[|cols| - 1];
      assert forall c :: c in cols <==> c in init || c == last;
      var prev := StandardizeColumns(t, init, zscore);
      if prev.Failure? then prev
      else
        var r := StandardizeStep(prev.value, last, zscore);
        if r.Success? then
          KeepsOthersTrans(t, prev.value, r.value, set c | c in init, {last});
          assert (set c | c in cols) == (set c | c in init) + {last};
          r
        else r
  }

  /** Each listed column of `r` holds the z-scores of the cells of `t`. */
  ghost predicate ZScoresHold(t: Table, r: Table, cols: seq<Column>, zscore: Standardizer) {
    |r.rows| == |t.rows| &&
    forall k, c :: 0 <= k < |t.rows| && c in cols ==>
      CellOf(r.rows[k], c) == zscore(ColumnCells(t, c), CellOf(t.rows[k], c))
  }

  /** Each listed column (listed once) holds the z-scores of its ORIGINAL cells. */
  lemma {:induction false} StandardizeColumnsMeaning(t: Table, cols: seq<Column>, zscore: Standardizer)
    requires WellFormed(t) && Distinct(cols)
    requires StandardizeColumns(t, cols, zscore).Success?
    ensures ZScoresHold(t, StandardizeColumns(t, cols, zscore).value, cols, zscore)
    decreases |cols|
  {
    if cols != [] {
      var init := cols[..|cols| - 1];
      var last := cols[|cols| - 1];
      assert cols == init + [last];
      DistinctInit(cols);
      StandardizeColumnsMeaning(t, init, zscore);
      StandardizeMeaningStep(t, StandardizeColumns(t, init, zscore).value, init, last, zscore);
    }
  }

  lemma DistinctInit(s: seq<Column>)
    requires Distinct(s) && s != []
    ensures Distinct(s[..|s| - 1]) && s[|s| - 1] !in s[..|s| - 1]
  {
    var init := s[..|s| - 1];
    assert forall i :: 0 <= i < |init| ==> init[i] == s[i];
  }

  lemma StandardizeMeaningStep(t: Table, p: Table, init: seq<Column>, last: Column, zscore: Standardizer)
    requires WellFormed(t) && WellFormed(p) && p.columns == t.columns
    requires KeepsOthers(t, p, set c | c in init) && ZScoresHold(t, p, init, zscore)
    requires last !in init && last in t.columns
    ensures ZScoresHold(t, StandardizeStep(p, last, zscore).value, init + [last], zscore)
  {
    assert last !in (set c | c in init);
    forall k | 0 <= k < |t.rows| ensures CellOf(p.rows[k], last) == CellOf(t.rows[k], last) {
      assert last in t.rows[k].cells;
      KeepsOthersAt(t, p, (set c | c in init), k, last);
    }
    assert ColumnCells(p, last) == ColumnCells(t, last);
    var r := StandardizeStep(p, last, zscore).value;
    forall k, c | 0 <= k < |t.rows| && c in init + [last]
      ensures CellOf(r.rows[k], c) == zscore(ColumnCells(t, c), CellOf(t.rows[k], c))
    {
      if c != last {
        assert c in init;
      }
    }
  }

  /** Everything `process_dataframe` does, as one definition. */
  function Processed(t: Table, drop: seq<Column>, decades: seq<int>, nanFiltering: seq<Column>,
                     log: seq<Column>, standardize: seq<Column>,
                     ln: real -> real, zscore: Standardizer): (r: Result<Table>)
    requires WellFormed(t)
    ensures r.Success? ==> WellFormed(r.value)
  {
    var s := Selected(t, drop, decades, nanFiltering);
    if s.Failure? then s
    else
      var logged := LogColumns(s.value, log, ln);
      if logged.Failure? then logged
      else StandardizeColumns(logged.value, standardize, zscore)
  }

  /**
   * The processed table has exactly the selected rows, in order, and every
   * selected cell outside the log and standardized columns; a dropped
   * column is gone unless a log column of that name was added back.
   */
  lemma ProcessedKeepsSelection(t: Table, drop: seq<Column>, decades: seq<int>, nanFiltering: seq<Column>,
                                log: seq<Column>, standardize: seq<Column>,
                                ln: real -> real, zscore: Standardizer)
    requires WellFormed(t)
    requires Processed(t, drop, decades, nanFiltering, log, standardize, ln, zscore).Success?
    ensures Selected(t, drop, decades, nanFiltering).Success?
    ensures var s := Selected(t, drop, decades, nanFiltering).value;
      var r := Processed(t, drop, decades, nanFiltering, log, standardize, ln, zscore).value;
      && Ids(r.rows) == Ids(s.rows)
      && KeepsOthers(s, r, LogNames(log) + set c | c in standardize)
      && forall c :: c in drop && c in r.columns ==> c in LogNames(log)
  {
    var s := Selected(t, drop, decades, nanFiltering).value;
    var logged := LogColumns(s, log, ln).value;
    var r := StandardizeColumns(logged, standardize, zscore).value;
    KeepsOthersTrans(s, logged, r, LogNames(log), set c | c in standardize);
    SelectedMeaning(t, drop, decades, nanFiltering);
  }

  /**
   * `process_dataframe`: the steps in the order of the source, on a new
   * table (the input is a value and is never changed).
   */
  method ProcessDataframe(t: Table, p: Parameters, ln: real -> real, zscore: Standardizer)
    returns (r: Result<Table>)
    requires WellFormed(t)
    ensures r == Processed(t, p.drop, p.decades, p.nanFiltering, p.log, p.standardize, ln, zscore)
  {
    var dropped := DropColumns(t, p.drop);
    if dropped.Failure? {
      return Failure(dropped.error);
    }
    var df := dropped.value;
    var decades := p.decades;
    if |decades| != 0 {
      if "decade" !in df.columns {
        return Failure(KeyError("decade"));
      }
      df := FilterRows(df, row => InDecades(row, decades));
    }
    assert df == DecadeFilter(dropped.value, decades).value;
    var nanFiltering := p.nanFiltering;
    if |nanFiltering| != 0 {
      if nanFiltering[0] == "all" {
        var cols := df.columns;
        df := FilterRows(df, row => NoMissing(row, cols));
      } else {
        var missing := FirstMissing(nanFiltering, df.columns);
        if missing.Some? {
          return Failure(KeyError(missing.value));
        }
        df := FilterRows(df, row => NoMissing(row, nanFiltering));
      }
    }
    assert Selected(t, p.drop, decades, nanFiltering) == Success(df);
    var logged := AddLogColumns(df, p.log, ln);
    if logged.Failure? {
      return logged;
    }
    r := StandardizeAll(logged.value, p.standardize, zscore);
  }

  /** `for col in log: df["log_" + col] = df[col].apply(np.log)`. */
  method AddLogColumns(t: Table, log: seq<Column>, ln: real -> real) returns (r: Result<Table>)
    requires WellFormed(t)
    ensures r == LogColumns(t, log, ln)
  {
    var df := t;
    for j := 0 to |log|
      invariant LogColumns(t, log[..j], ln) == Success(df)
    {
      assert log[..j + 1][..j] == log[..j];
      var col := log[j];
      if col !in df.columns {
        LogColumnsSticky(t, log, j + 1, ln);
        return Failure(KeyError(col));
      }
      df := WithColumn(df, LogName(col), row => LogCell(ln, CellOf(row, col)));
    }
    assert log[..|log|] == log;
    return Success(df);
  }

  /** `for col in standardize: standardize_column(df, col)`. */
  method StandardizeAll(t: Table, standardize: seq<Column>, zscore: Standardizer) returns (r: Result<Table>)
    requires WellFormed(t)
    ensures r == StandardizeColumns(t, standardize, zscore)
  {
    var df := t;
    for j := 0 to |standardize|
      invariant StandardizeColumns(t, standardize[..j], zscore) == Success(df)
    {
      assert standardize[..j + 1][..j] == standardize[..j];
      var col := standardize[j];
      if col !in df.columns {
        StandardizeColumnsSticky(t, standardize, j + 1, zscore);
        return Failure(KeyError(col));
      }
      var cells := ColumnCells(df, col);
      df := WithColumn(df, col, row => zscore(cells, CellOf(row, col)));
    }
    assert standardize[..|standardize|] == standardize;
    return Success(df);
  }

  /** The first error of the log loop is its result. */
  lemma {:induction false} LogColumnsSticky(t: Table, cols: seq<Column>, n: nat, ln: real -> real)
    requires WellFormed(t) && n <= |cols|
    requires LogColumns(t, cols[..n], ln).Failure?
    ensures LogColumns(t, cols, ln) == LogColumns(t, cols[..n], ln)
    decreases |cols|
  {
    if n < |cols| {
      var init := cols[..|cols| - 1];
      assert init[..n] == cols[..n];
      LogColumnsSticky(t, init, n, ln);
    } else {
      assert cols[..n] == cols;
    }
  }

  /** The first error of the standardization loop is its result. */
  lemma {:induction false} StandardizeColumnsSticky(t: Table, cols: seq<Column>, n: nat, zscore: Standardizer)
    requires WellFormed(t) && n <= |cols|
    requires StandardizeColumns(t, cols[..n], zscore).Failure?
    ensures StandardizeColumns(t, cols, zscore) == StandardizeColumns(t, cols[..n], zscore)
    decreases |cols|
  {
    if n < |cols| {
      var init := cols[..|cols| - 1];
      assert init[..n] == cols[..n];
      StandardizeColumnsSticky(t, init, n, zscore);
    } else {
      assert cols[..n] == cols;
    }
  }

  // ---------------------------------------------------------------------
  // The binary target
  // ---------------------------------------------------------------------

  /** First pass: `binary[binary < threshold] = 0`. */
  function BelowToZero(c: Cell, threshold: real): Cell {
    if c.Some? && c.value.Num? && c.value.x < threshold then Some(Num(0.0)) else c
  }

  /** Second pass: `binary[binary >= threshold] = 1`. */
  function AtLeastToOne(c: Cell, threshold: real): Cell {
    if c.Some? && c.value.Num? && c.value.x >= threshold then Some(Num(1.0)) else c
  }

  /** `1 - binary`; NaN stays NaN. */
  function Complement(c: Cell): Cell {
    if c.Some? && c.value.Num? then Some(Num(1.0 - c.value.x)) else c
  }

  /** The two passes, then the optional flip, cell by cell. */
  function BinaryCell(c: Cell, threshold: real, badMovies: bool): Cell {
    var b := AtLeastToOne(BelowToZero(c, threshold), threshold);
    if badMovies then Complement(b) else b
  }

  function BinaryTarget(target: seq<Cell>, threshold: real, badMovies: bool): (b: seq<Cell>)
    ensures |b| == |target|
    ensures forall i :: 0 <= i < |target| ==> b[i] == BinaryCell(target[i], threshold, badMovies)
  {
    seq(|target|, i requires 0 <= i < |target| => BinaryCell(target[i], threshold, badMovies))
  }

  /**
   * For a positive threshold the binary target is the indicator of
   * `rating >= threshold` (flipped for bad movies); missing ratings stay missing.
   */
  lemma BinaryTargetMeaning(target: seq<Cell>, threshold: real, badMovies: bool, i: nat)
    requires threshold > 0.0 && i < |target|
    ensures target[i].Some? && target[i].value.Num? ==>
      BinaryTarget(target, threshold, badMovies)[i] ==
        Some(Num(if (target[i].value.x >= threshold) != badMovies then 1.0 else 0.0))
    ensures target[i].None? ==> BinaryTarget(target, threshold, badMovies)[i].None?
  {
  }

  /**
   * For a threshold at or below 0 the zeros of the first pass are turned
   * into ones by the second: every rating, even one below the threshold,
   * gets 1 (0 for bad movies).
   */
  lemma BinaryTargetNonPositive(target: seq<Cell>, threshold: real, badMovies: bool, i: nat)
    requires threshold <= 0.0 && i < |target|
    requires target[i].Some? && target[i].value.Num?
    ensures BinaryTarget(target, threshold, badMovies)[i] == Some(Num(if badMovies then 0.0 else 1.0))
  {
  }

  /** `binary_target[binary_target < t] = 0; binary_target[binary_target >= t] = 1`, then the flip. */
  method ThresholdInPlace(a: array<Cell>, threshold: real, badMovies: bool)
    modifies a
    ensures a[..] == BinaryTarget(old(a[..]), threshold, badMovies)
  {
    ghost var target := a[..];
    for i := 0 to a.Length
      invariant forall k :: 0 <= k < i ==> a[k] == BelowToZero(target[k], threshold)
      invariant forall k :: i <= k < a.Length ==> a[k] == target[k]
    {
      if a[i].Some? && a[i].value.Num? && a[i].value.x < threshold {
        a[i] := Some(Num(0.0));
      }
    }
    for i := 0 to a.Length
      invariant forall k :: 0 <= k < i ==> a[k] == AtLeastToOne(BelowToZero(target[k], threshold), threshold)
      invariant forall k :: i <= k < a.Length ==> a[k] == BelowToZero(target[k], threshold)
    {
      if a[i].Some? && a[i].value.Num? && a[i].value.x >= threshold {
        a[i] := Some(Num(1.0));
      }
    }
    if badMovies {
      for i := 0 to a.Length
        invariant forall k :: 0 <= k < i ==> a[k] == BinaryCell(target[k], threshold, true)
        invariant forall k :: i <= k < a.Length ==> a[k] == AtLeastToOne(BelowToZero(target[k], threshold), threshold)
      {
        a[i] := Complement(a[i]);
      }
    }
  }

  // ---------------------------------------------------------------------
  // format_regression_df
  // ---------------------------------------------------------------------

  /** The regression table, the raw and binary targets and the vote counts. */
  datatype Regression = Regression(table: Table, target: seq<Cell>, binary: seq<Cell>, numVotes: seq<Cell>)

  /** Everything `format_regression_df` computes, as one definition. */
  function Formatted(t: Table, drop: seq<Column>, decades: seq<int>, nanFiltering: seq<Column>,
                     log: seq<Column>, standardize: seq<Column>, postDrop: seq<Column>,
                     threshold: real, badMovies: bool,
                     ln: real -> real, zscore: Standardizer, vif: Vif): (r: Result<Regression>)
    requires WellFormed(t)
    ensures r.Success? ==>
      var df := Processed(t, drop, decades, nanFiltering, log, standardize, ln, zscore);
      df.Success? && "average_rating" in df.value.columns && "num_votes" in df.value.columns &&
      r.value.target == ColumnCells(df.value, "average_rating") &&
      r.value.binary == BinaryTarget(r.value.target, threshold, badMovies)
  {
    var processed := Processed(t, drop, decades, nanFiltering, log, standardize, ln, zscore);
    if processed.Failure? then Failure(processed.error)
    else
      var df := processed.value;
      if "average_rating" !in df.columns then Failure(KeyError("average_rating"))
      else if "num_votes" !in df.columns then Failure(KeyError("num_votes"))
      else
        var target := ColumnCells(df, "average_rating");
        var dropped := DropColumns(df, postDrop);
        if dropped.Failure? then Failure(dropped.error)
        else
          Success(Regression(PruneColumns(dropped.value, vif, VIF_THRESHOLD), target,
            BinaryTarget(target, threshold, badMovies), ColumnCells(df, "num_votes")))
  }

  /**
   * The targets are aligned with the rows of the returned table, the binary
   * target is derived from the raw one, no post-drop column remains and no
   * remaining column has a VIF above the threshold.
   */
  lemma FormattedMeaning(t: Table, drop: seq<Column>, decades: seq<int>, nanFiltering: seq<Column>,
                         log: seq<Column>, standardize: seq<Column>, postDrop: seq<Column>,
                         threshold: real, badMovies: bool,
                         ln: real -> real, zscore: Standardizer, vif: Vif)
    requires WellFormed(t)
    requires Formatted(t, drop, decades, nanFiltering, log, standardize, postDrop,
                       threshold, badMovies, ln, zscore, vif).Success?
    ensures var g := Formatted(t, drop, decades, nanFiltering, log, standardize, postDrop,
                               threshold, badMovies, ln, zscore, vif).value;
      var df := Processed(t, drop, decades, nanFiltering, log, standardize, ln, zscore).value;
      && |g.target| == |g.table.rows| && |g.binary| == |g.table.rows| && |g.numVotes| == |g.table.rows|
      && Ids(g.table.rows) == Ids(df.rows)
      && (forall k :: 0 <= k < |g.table.rows| ==>
            g.target[k] == CellOf(df.rows[k], "average_rating") &&
            g.numVotes[k] == CellOf(df.rows[k], "num_votes") &&
            g.binary[k] == BinaryCell(g.target[k], threshold, badMovies))
      && (forall c :: c in postDrop ==> c !in g.table.columns)
      && (forall i :: 0 <= i < |g.table.columns| ==> vif(g.table, i) <= VIF_THRESHOLD)
  {
    var df := Processed(t, drop, decades, nanFiltering, log, standardize, ln, zscore).value;
    var dropped := DropColumns(df, postDrop).value;
    var pruned := PruneColumns(dropped, vif, VIF_THRESHOLD);
    assert |Ids(pruned.rows)| == |Ids(df.rows)|;
  }

  /**
   * `format_regression_df`: stores `decades` into the caller's parameter
   * object (with the default argument, into the shared `DEFAULT_PARAMETERS`),
   * processes the table, takes the targets, derives the binary target in
   * place on a copy, drops the post-drop columns and prunes by VIF.
   */
  method FormatRegression(t: Table, decades: seq<int>, p: Parameters, threshold: real, badMovies: bool,
                          ln: real -> real, zscore: Standardizer, vif: Vif)
    returns (r: Result<Regression>)
    requires WellFormed(t)
    modifies p
    ensures p.decades == decades
    ensures p.drop == old(p.drop) && p.nanFiltering == old(p.nanFiltering) && p.log == old(p.log)
    ensures p.standardize == old(p.standardize) && p.postDrop == old(p.postDrop)
    ensures r == Formatted(t, p.drop, decades, p.nanFiltering, p.log, p.standardize, p.postDrop,
                           threshold, badMovies, ln, zscore, vif)
  {
    p.decades := decades;
    var processed := ProcessDataframe(t, p, ln, zscore);
    if processed.Failure? {
      return Failure(processed.error);
    }
    var df := processed.value;
    if "average_rating" !in df.columns {
      return Failure(KeyError("average_rating"));
    }
    if "num_votes" !in df.columns {
      return Failure(KeyError("num_votes"));
    }
    var target := ColumnCells(df, "average_rating");
    var numVotes := ColumnCells(df, "num_votes");
    var binary := new Cell[|target|](i requires 0 <= i < |target| => target[i]);
    assert binary[..] == target;
    ThresholdInPlace(binary, threshold, badMovies);
    var dropped := DropColumns(df, p.postDrop);
    if dropped.Failure? {
      return Failure(dropped.error);
    }
    var pruned, _ := FilterMulticolinearity(dropped.value, vif, VIF_THRESHOLD);
    return Success(Regression(pruned, target, binary[..], numVotes));
  }
}
