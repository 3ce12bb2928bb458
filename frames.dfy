/**
 * A value-level model of the pandas DataFrames the pipeline works on: an
 * ordered list of distinct column labels and an ordered list of rows, each
 * row carrying its index label (a movie id) and one cell per column. A
 * missing cell (NaN / NaT) is `None`.
 */
module Frames {
  import opened Wrappers

  /** A calendar date; pandas compares timestamps chronologically. */
  datatype Date = Date(year: int, month: int, day: int)

  predicate Earlier(a: Date, b: Date) {
    a.year < b.year || (a.year == b.year && (a.month < b.month || (a.month == b.month && a.day < b.day)))
  }

  /** `a < b` on timestamps that may be NaT: any comparison with NaT is false. */
  predicate EarlierCell(a: Option<Date>, b: Option<Date>) {
    a.Some? && b.Some? && Earlier(a.value, b.value)
  }

  lemma EarlierTransitive(a: Date, b: Date, c: Date)
    requires Earlier(a, b) && Earlier(b, c)
    ensures Earlier(a, c)
  {
  }

  /** The values a cell can hold: numbers, strings and timestamps. */
  datatype Value = Num(x: real) | Text(s: string) | Day(d: Date)

  type Cell = Option<Value>
  type Column = string
  type MovieId = int

  datatype Row = Row(id: MovieId, cells: map<Column, Cell>)
  datatype Table = Table(columns: seq<Column>, rows: seq<Row>)

  ghost predicate Distinct<T>(s: seq<T>) {
    forall i, j :: 0 <= i < j < |s| ==> s[i] != s[j]
  }

  /** Column labels are distinct and every row has exactly one cell per column. */
  ghost predicate WellFormed(t: Table) {
    Distinct(t.columns) &&
    forall k :: 0 <= k < |t.rows| ==> t.rows[k].cells.Keys == set c | c in t.columns
  }

  /** The index labels of the rows, in order. */
  function Ids(rows: seq<Row>): (ids: seq<MovieId>)
    ensures |ids| == |rows|
    ensures forall k :: 0 <= k < |rows| ==> ids[k] == rows[k].id
  {
    seq(|rows|, k requires 0 <= k < |rows| => rows[k].id)
  }

  /** The cell of column `c` in row `r` (missing if the row has no such cell). */
  function CellOf(r: Row, c: Column): Cell {
    if c in r.cells then r.cells[c] else None
  }

  /** The cells of one column, top to bottom. */
  function ColumnCells(t: Table, c: Column): (cells: seq<Cell>)
    ensures |cells| == |t.rows|
    ensures forall k :: 0 <= k < |t.rows| ==> cells[k] == CellOf(t.rows[k], c)
  {
    seq(|t.rows|, k requires 0 <= k < |t.rows| => CellOf(t.rows[k], c))
  }

  // ---------------------------------------------------------------------
  // Order-preserving selection
  // ---------------------------------------------------------------------

  /** The elements of `s` that satisfy `p`, in their original order. */
  function Filter<T>(s: seq<T>, p: T -> bool): (r: seq<T>)
    ensures |r| <= |s|
    ensures forall k :: 0 <= k < |r| ==> p(r[k])
    ensures forall k :: 0 <= k < |r| ==> r[k] in s
    ensures forall k :: 0 <= k < |s| && p(s[k]) ==> s[k] in r
    decreases |s|
  {
    if s == [] then []
    else if p(s[0]) then [s[0]] + Filter(s[1..], p)
    else Filter(s[1..], p)
  }

  /** `a` is obtained from `b` by deleting elements (order is kept). */
  ghost predicate Subseq<T>(a: seq<T>, b: seq<T>)
    decreases |b|
  {
    a == [] ||
    (b != [] && ((a[0] == b[0] && Subseq(a[1..], b[1..])) || Subseq(a, b[1..])))
  }

  /** Filtering keeps an order-preserving subset of the rows. */
  lemma {:induction false} FilterIdsSubseq(rows: seq<Row>, p: Row -> bool)
    ensures Subseq(Ids(Filter(rows, p)), Ids(rows))
    decreases |rows|
  {
    if rows != [] {
      FilterIdsSubseq(rows[1..], p);
      IdsTail(rows);
      var f := Filter(rows, p);
      if p(rows[0]) {
        assert f == [rows[0]] + Filter(rows[1..], p);
        assert f[1..] == Filter(rows[1..], p);
        IdsTail(f);
      } else {
        assert f == Filter(rows[1..], p);
      }
    }
  }

  lemma IdsTail(rows: seq<Row>)
    requires rows != []
    ensures Ids(rows)[0] == rows[0].id && Ids(rows)[1..] == Ids(rows[1..])
  {
  }

  /** Two filters in a row are one filter on the conjunction. */
  lemma {:induction false} FilterFilter<T>(s: seq<T>, p: T -> bool, q: T -> bool)
    ensures Filter(Filter(s, p), q) == Filter(s, x => p(x) && q(x))
    decreases |s|
  {
    if s != [] {
      FilterFilter(s[1..], p, q);
      if p(s[0]) {
        assert Filter(s, p) == [s[0]] + Filter(s[1..], p);
        assert (Filter(s, p))[1..] == Filter(s[1..], p);
      }
    }
  }

  /** A weaker filter keeps at least as many elements. */
  lemma {:induction false} FilterLengthMonotone<T>(s: seq<T>, p: T -> bool, q: T -> bool)
    requires forall k :: 0 <= k < |s| && p(s[k]) ==> q(s[k])
    ensures |Filter(s, p)| <= |Filter(s, q)|
    decreases |s|
  {
    if s != [] {
      assert forall k :: 1 <= k < |s| ==> s[1..][k - 1] == s[k];
      FilterLengthMonotone(s[1..], p, q);
    }
  }

  /** Filters that agree on every element of `s` select the same elements. */
  lemma {:induction false} FilterCongruent<T>(s: seq<T>, p: T -> bool, q: T -> bool)
    requires forall k :: 0 <= k < |s| ==> p(s[k]) == q(s[k])
    ensures Filter(s, p) == Filter(s, q)
    decreases |s|
  {
    if s != [] {
      assert forall k :: 1 <= k < |s| ==> s[1..][k - 1] == s[k];
      FilterCongruent(s[1..], p, q);
    }
  }

  lemma {:induction false} FilterDistinct<T>(s: seq<T>, p: T -> bool)
    requires Distinct(s)
    ensures Distinct(Filter(s, p))
    decreases |s|
  {
    if s != [] {
      DistinctTail(s);
      FilterDistinct(s[1..], p);
      if p(s[0]) {
        var rest := Filter(s[1..], p);
        assert Filter(s, p) == [s[0]] + rest;
        assert s[0] !in rest;
      }
    }
  }

  /** The tail of a distinct sequence is distinct and does not hold the head. */
  lemma DistinctTail<T>(s: seq<T>)
    requires Distinct(s) && s != []
    ensures Distinct(s[1..]) && s[0] !in s[1..]
  {
    forall i, j | 0 <= i < j < |s[1..]| ensures s[1..][i] != s[1..][j] {
      assert s[1..][i] == s[i + 1] && s[1..][j] == s[j + 1];
    }
    forall k | 0 <= k < |s[1..]| ensures s[1..][k] != s[0] {
      assert s[1..][k] == s[k + 1];
    }
  }

  /** A filtered sequence is a subsequence of the original. */
  lemma {:induction false} FilterSubseq<T>(s: seq<T>, p: T -> bool)
    ensures Subseq(Filter(s, p), s)
    decreases |s|
  {
    if s != [] {
      FilterSubseq(s[1..], p);
      if p(s[0]) {
        var r := Filter(s, p);
        assert r == [s[0]] + Filter(s[1..], p);
        assert r[1..] == Filter(s[1..], p);
      }
    }
  }

  lemma {:induction false} SubseqRefl<T>(s: seq<T>)
    ensures Subseq(s, s)
    decreases |s|
  {
    if s != [] {
      SubseqRefl(s[1..]);
    }
  }

  lemma {:induction false} SubseqTrans<T>(a: seq<T>, b: seq<T>, c: seq<T>)
    requires Subseq(a, b) && Subseq(b, c)
    ensures Subseq(a, c)
    decreases |c|
  {
    if a != [] {
      if b[0] == c[0] && Subseq(b[1..], c[1..]) {
        if a[0] == b[0] && Subseq(a[1..], b[1..]) {
          SubseqTrans(a[1..], b[1..], c[1..]);
        } else {
          SubseqTrans(a, b[1..], c[1..]);
        }
      } else {
        SubseqTrans(a, b, c[1..]);
      }
    }
  }

  /** A filter that rejects some element drops at least one element. */
  lemma {:induction false} FilterShorter<T>(s: seq<T>, p: T -> bool, k: nat)
    requires k < |s| && !p(s[k])
    ensures |Filter(s, p)| < |s|
    decreases |s|
  {
    if k == 0 {
      assert Filter(s, p) == Filter(s[1..], p);
    } else {
      assert s[1..][k - 1] == s[k];
      FilterShorter(s[1..], p, k - 1);
    }
  }

  /** A filter every element passes keeps the sequence whole. */
  lemma {:induction false} FilterAll<T>(s: seq<T>, p: T -> bool)
    requires forall k :: 0 <= k < |s| ==> p(s[k])
    ensures Filter(s, p) == s
    decreases |s|
  {
    if s != [] {
      assert forall k :: 1 <= k < |s| ==> s[1..][k - 1] == s[k];
      FilterAll(s[1..], p);
    }
  }

  /** Filtering out the head of a distinct sequence leaves its tail. */
  lemma FilterRemoveHead<T>(s: seq<T>, p: T -> bool)
    requires Distinct(s) && s != []
    requires forall k :: 0 <= k < |s| ==> (p(s[k]) <==> s[k] != s[0])
    ensures Filter(s, p) == s[1..]
  {
    var t := s[1..];
    forall k | 0 <= k < |t| ensures p(t[k]) {
      assert t[k] == s[k + 1] && s[k + 1] != s[0];
    }
    FilterAll(t, p);
  }

  /** Filtering out the value at `i` of a distinct sequence removes exactly position `i`. */
  lemma {:induction false} FilterRemoveAt<T>(s: seq<T>, p: T -> bool, i: nat)
    requires Distinct(s) && i < |s|
    requires forall k :: 0 <= k < |s| ==> (p(s[k]) <==> s[k] != s[i])
    ensures Filter(s, p) == s[..i] + s[i + 1..]
    decreases |s|
  {
    if i == 0 {
      FilterRemoveHead(s, p);
    } else {
      FilterRemoveStep(s, p, i);
    }
  }

  lemma {:induction false} FilterRemoveStep<T>(s: seq<T>, p: T -> bool, i: nat)
    requires Distinct(s) && 0 < i < |s|
    requires forall k :: 0 <= k < |s| ==> (p(s[k]) <==> s[k] != s[i])
    ensures Filter(s, p) == s[..i] + s[i + 1..]
    decreases |s|, 0
  {
    DistinctTail(s);
    var t := s[1..];
    assert p(s[0]);
    assert Filter(s, p) == [s[0]] + Filter(t, p);
    forall k | 0 <= k < |t| ensures p(t[k]) <==> t[k] != t[i - 1] {
      assert t[k] == s[k + 1];
    }
    FilterRemoveAt(t, p, i - 1);
    SpliceTail(s, i);
  }

  /** Removing position `i > 0` commutes with taking the tail. */
  lemma SpliceTail<T>(s: seq<T>, i: nat)
    requires 0 < i < |s|
    ensures [s[0]] + (s[1..][..i - 1] + s[1..][i..]) == s[..i] + s[i + 1..]
  {
    assert s[1..][..i - 1] == s[1..i];
    assert s[1..][i..] == s[i + 1..];
    assert s[..i] == [s[0]] + s[1..i];
  }

  // ---------------------------------------------------------------------
  // Column operations
  // ---------------------------------------------------------------------

  /** The row restricted to the given columns. */
  function ProjectRow(r: Row, keep: set<Column>): (p: Row)
    ensures p.id == r.id
    ensures p.cells.Keys == r.cells.Keys * keep
    ensures forall c :: c in p.cells ==> p.cells[c] == r.cells[c]
  {
    Row(r.id, map c | c in r.cells && c in keep :: r.cells[c])
  }

  /** The first label of `labels` that is not a column, if any. */
  function FirstMissing(labels: seq<Column>, columns: seq<Column>): (r: Option<Column>)
    ensures r.None? <==> forall l :: l in labels ==> l in columns
    ensures r.Some? ==> r.value in labels && r.value !in columns
    decreases |labels|
  {
    if labels == [] then None
    else if labels[0] !in columns then Some(labels[0])
    else FirstMissing(labels[1..], columns)
  }

  /**
   * `df.drop(labels, axis=1)`: raises KeyError if a label is not a column;
   * otherwise removes those columns and keeps the rows and their order.
   */
  function DropColumns(t: Table, labels: seq<Column>): (r: Result<Table>)
    requires WellFormed(t)
    ensures r.Failure? <==> exists l :: l in labels && l !in t.columns
    ensures r.Success? ==> WellFormed(r.value)
    ensures r.Success? ==> r.value.columns == Filter(t.columns, c => c !in labels)
    ensures r.Success? ==> |r.value.rows| == |t.rows| && Ids(r.value.rows) == Ids(t.rows)
    ensures r.Success? ==> forall k, c :: 0 <= k < |t.rows| && c in t.columns && c !in labels ==>
      c in r.value.rows[k].cells && r.value.rows[k].cells[c] == t.rows[k].cells[c]
  {
    var missing := FirstMissing(labels, t.columns);
    if missing.Some? then Failure(KeyError(missing.value))
    else
      var cols := Filter(t.columns, c => c !in labels);
      var keep := set c | c in t.columns && c !in labels;
      FilterDistinct(t.columns, c => c !in labels);
      assert keep == set c | c in cols;
      Success(Table(cols, seq(|t.rows|, k requires 0 <= k < |t.rows| => ProjectRow(t.rows[k], keep))))
  }

  /**
   * `df[name] = values`: overwrites the column in place if it exists and
   * appends it at the end otherwise; `cellOf` gives each row's new cell.
   */
  function WithColumn(t: Table, name: Column, cellOf: Row -> Cell): (r: Table)
    requires WellFormed(t)
    ensures WellFormed(r)
    ensures r.columns == AddLabel(t.columns, name)
    ensures |r.rows| == |t.rows| && Ids(r.rows) == Ids(t.rows)
    ensures forall k :: 0 <= k < |t.rows| ==> name in r.rows[k].cells && r.rows[k].cells[name] == cellOf(t.rows[k])
    ensures KeepsOthers(t, r, {name})
    ensures forall k, c :: 0 <= k < |t.rows| && c != name && c in t.rows[k].cells ==>
      c in r.rows[k].cells && r.rows[k].cells[c] == t.rows[k].cells[c]
  {
    var cols := if name in t.columns then t.columns else t.columns + [name];
    assert Distinct(cols);
    assert (set c | c in cols) == (set c | c in t.columns) + {name};
    Table(cols, seq(|t.rows|, k requires 0 <= k < |t.rows| =>
      Row(t.rows[k].id, t.rows[k].cells[name := cellOf(t.rows[k])])))
  }

  /**
   * `df[name] = series` for a series indexed by movie id: rows are aligned on
   * their index label, and rows the series does not cover get NaN.
   */
  function AssignSeries(t: Table, name: Column, series: map<MovieId, Value>): (r: Table)
    requires WellFormed(t)
    ensures WellFormed(r)
    ensures r.columns == AddLabel(t.columns, name)
    ensures |r.rows| == |t.rows| && Ids(r.rows) == Ids(t.rows)
    ensures forall k :: 0 <= k < |t.rows| ==>
      name in r.rows[k].cells && r.rows[k].cells[name] == Aligned(series, t.rows[k].id)
    ensures KeepsOthers(t, r, {name})
    ensures forall k, c :: 0 <= k < |t.rows| && c != name && c in t.rows[k].cells ==>
      c in r.rows[k].cells && r.rows[k].cells[c] == t.rows[k].cells[c]
  {
    WithColumn(t, name, (row: Row) => if row.id in series then Some(series[row.id]) else None)
  }

  /** The value a series indexed by movie id gives the row `id` on assignment (NaN if absent). */
  function Aligned(series: map<MovieId, Value>, id: MovieId): (c: Cell)
    ensures c.Some? <==> id in series
    ensures c.Some? ==> c.value == series[id]
  {
    if id in series then Some(series[id]) else None
  }

  /** The column list after assigning the column `name`. */
  function AddLabel(columns: seq<Column>, name: Column): seq<Column> {
    if name in columns then columns else columns + [name]
  }

  /** The column list after assigning the columns `names`, in order. */
  function AddLabels(columns: seq<Column>, names: seq<Column>): (r: seq<Column>)
    ensures forall c :: c in columns ==> c in r
    ensures forall c :: c in names ==> c in r
    ensures forall c :: c in r ==> c in columns || c in names
    decreases |names|
  {
    if names == [] then columns
    else AddLabel(AddLabels(columns, names[..|names| - 1]), names[|names| - 1])
  }

  /** Appending one more name is one more assignment. */
  lemma AddLabelsSnoc(columns: seq<Column>, names: seq<Column>, name: Column)
    ensures AddLabels(columns, names + [name]) == AddLabel(AddLabels(columns, names), name)
  {
    assert (names + [name])[..|names|] == names;
  }

  /** Assigning `a` then `b` is assigning `a + b`. */
  lemma {:induction false} AddLabelsAppend(columns: seq<Column>, a: seq<Column>, b: seq<Column>)
    ensures AddLabels(AddLabels(columns, a), b) == AddLabels(columns, a + b)
    decreases |b|
  {
    if b == [] {
      assert a + b == a;
    } else {
      var b' := b[..|b| - 1];
      AddLabelsAppend(columns, a, b');
      assert (a + b)[..|a + b| - 1] == a + b';
      assert (a + b)[|a + b| - 1] == b[|b| - 1];
    }
  }

  /**
   * `r` has the rows of `t`, in the same order, and every cell of `t` outside
   * the columns `names` is still there with the same value.
   */
  ghost predicate KeepsOthers(t: Table, r: Table, names: set<Column>) {
    && |r.rows| == |t.rows|
    && (forall k :: 0 <= k < |t.rows| ==> r.rows[k].id == t.rows[k].id)
    && (forall k, c :: 0 <= k < |t.rows| && c in t.rows[k].cells && c !in names ==>
          c in r.rows[k].cells && r.rows[k].cells[c] == t.rows[k].cells[c])
  }

  lemma KeepsOthersAt(t: Table, r: Table, names: set<Column>, k: nat, c: Column)
    requires KeepsOthers(t, r, names) && k < |t.rows| && c in t.rows[k].cells && c !in names
    ensures c in r.rows[k].cells && r.rows[k].cells[c] == t.rows[k].cells[c]
  {
  }

  lemma KeepsOthersTrans(a: Table, b: Table, c: Table, n1: set<Column>, n2: set<Column>)
    requires KeepsOthers(a, b, n1) && KeepsOthers(b, c, n2)
    ensures KeepsOthers(a, c, n1 + n2)
  {
  }

  /** Keep the rows satisfying `p`, in order; columns are unchanged. */
  function FilterRows(t: Table, p: Row -> bool): (r: Table)
    requires WellFormed(t)
    ensures WellFormed(r)
    ensures r.columns == t.columns
    ensures r.rows == Filter(t.rows, p)
  {
    var rows := Filter(t.rows, p);
    assert forall k :: 0 <= k < |rows| ==> rows[k] in t.rows;
    Table(t.columns, rows)
  }

  // ---------------------------------------------------------------------
  // Building a table column by column
  // ---------------------------------------------------------------------

  /** Every row of `t` holds, in each of the columns `names`, the cell `want` prescribes. */
  ghost predicate Assigned(t0: Table, t: Table, names: seq<Column>, want: (Column, nat) -> Cell) {
    |t.rows| == |t0.rows| &&
    forall k, c :: 0 <= k < |t.rows| && c in names ==> c in t.rows[k].cells && t.rows[k].cells[c] == want(c, k)
  }

  /**
   * The state after assigning the columns `names` to `t0`: the columns were
   * added in order, every other cell is intact, and every assigned cell is
   * the one `want` prescribes.
   */
  ghost predicate Progress(t0: Table, t: Table, names: seq<Column>, want: (Column, nat) -> Cell) {
    && WellFormed(t0) && WellFormed(t)
    && t.columns == AddLabels(t0.columns, names)
    && KeepsOthers(t0, t, set c | c in names)
    && Assigned(t0, t, names, want)
  }

  /** Nothing assigned yet. */
  lemma ProgressStart(t0: Table, want: (Column, nat) -> Cell)
    requires WellFormed(t0)
    ensures Progress(t0, t0, [], want)
  {
  }

  /** One more column, assigned as `want` prescribes. */
  lemma Step(t0: Table, r: Table, next: Table, names: seq<Column>, name: Column, want: (Column, nat) -> Cell)
    requires Progress(t0, r, names, want) && name !in names
    requires WellFormed(next) && next.columns == AddLabel(r.columns, name) && KeepsOthers(r, next, {name})
    requires forall k :: 0 <= k < |next.rows| ==> name in next.rows[k].cells && next.rows[k].cells[name] == want(name, k)
    ensures Progress(t0, next, names + [name], want)
  {
    AddLabelsSnoc(t0.columns, names, name);
    KeepsOthersTrans(t0, r, next, set c | c in names, {name});
    assert (set c | c in names + [name]) == (set c | c in names) + {name};
    forall k, c | 0 <= k < |next.rows| && c in names + [name]
      ensures c in next.rows[k].cells && next.rows[k].cells[c] == want(c, k)
    {
      if c != name {
        KeepsOthersAt(r, next, {name}, k, c);
      }
    }
  }

  /** A column that was not assigned reads as it did in `t0`. */
  lemma Untouched(t0: Table, t: Table, names: seq<Column>, want: (Column, nat) -> Cell, k: nat, c: Column)
    requires Progress(t0, t, names, want) && k < |t0.rows| && c !in names
    ensures t.rows[k].id == t0.rows[k].id && CellOf(t.rows[k], c) == CellOf(t0.rows[k], c)
  {
    assert c !in (set x | x in names);
    if c in t0.rows[k].cells {
      KeepsOthersAt(t0, t, (set x | x in names), k, c);
    } else {
      assert c !in t0.columns;
      assert c !in t.columns;
      assert t.rows[k].cells.Keys == set x | x in t.columns;
    }
  }

  /** An assigned column reads as `want` prescribes. */
  lemma AssignedAt(t0: Table, t: Table, names: seq<Column>, want: (Column, nat) -> Cell, k: nat, c: Column)
    requires Progress(t0, t, names, want) && k < |t0.rows| && c in names
    ensures CellOf(t.rows[k], c) == want(c, k)
  {
  }

  /**
   * `for j, name in enumerate(names): df[name] = seriesOf(j)`: assigns the
   * columns one after the other, each aligned on the movie id.
   */
  method AssignSeriesColumns(t0: Table, t: Table, before: seq<Column>, names: seq<Column>,
                             seriesOf: nat --> map<MovieId, Value>, ghost want: (Column, nat) -> Cell)
    returns (r: Table)
    requires Progress(t0, t, before, want) && Distinct(names)
    requires forall c :: c in names ==> c !in before
    requires forall j :: 0 <= j < |names| ==> seriesOf.requires(j)
    requires forall j, k :: 0 <= j < |names| && 0 <= k < |t0.rows| ==>
      want(names[j], k) == Aligned(seriesOf(j), t0.rows[k].id)
    ensures Progress(t0, r, before + names, want)
  {
    r := t;
    assert before + names[..0] == before;
    for j := 0 to |names|
      invariant Progress(t0, r, before + names[..j], want)
    {
      var next := AssignSeries(r, names[j], seriesOf(j));
      assert names[j] !in names[..j];
      Step(t0, r, next, before + names[..j], names[j], want);
      assert before + names[..j] + [names[j]] == before + names[..j + 1];
      r := next;
    }
    assert names[..|names|] == names;
  }
}
