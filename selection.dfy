/**
 * Greedy forward feature selection and the variance-inflation filter.
 * The statistics (an OLS fit's R-squared and p-values, a VIF) are not
 * modelled: they are parameters, functions of the data they are computed on.
 */
module Selection {
  import opened Frames

  /** R-squared of the OLS fit of `target` on the given columns of the table. */
  type Rsquared = (Table, seq<Cell>, seq<Column>) -> real
  /** p-value of the coefficient of `col` in the OLS fit of `target` on the given columns. */
  type PValue = (Table, seq<Cell>, seq<Column>, Column) -> real
  /** Variance inflation factor of the `i`-th column of the table. */
  type Vif = (Table, nat) -> real

  /** The stop value `select_next_feature` returns when nothing is admissible. */
  const NO_FEATURE: Column := "None"

  // ---------------------------------------------------------------------
  // select_next_feature and forward_selection
  // ---------------------------------------------------------------------

  /**
   * `col` is a candidate for the next step: a column of the table, not yet
   * in the model nor ignored, whose coefficient is significant at `alpha`
   * once it is added to the model.
   */
  predicate Admissible(t: Table, target: seq<Cell>, current: seq<Column>, ignored: seq<Column>,
                       pval: PValue, alpha: real, col: Column)
  {
    col in t.columns && col !in current + ignored && pval(t, target, current + [col], col) < alpha
  }

  /** `col` is admissible and no admissible column gives a larger R-squared. */
  ghost predicate Best(t: Table, target: seq<Cell>, current: seq<Column>, ignored: seq<Column>,
                       rsq: Rsquared, pval: PValue, alpha: real, col: Column)
  {
    && Admissible(t, target, current, ignored, pval, alpha, col)
    && forall c :: Admissible(t, target, current, ignored, pval, alpha, c) ==>
         rsq(t, target, current + [c]) <= rsq(t, target, current + [col])
  }

  /**
   * `select_next_feature`: scores every column outside `current + ignored`,
   * keeps those with p-value below `alpha` and returns the one with the
   * largest R-squared, or the string "None" if none is kept. Among equal
   * R-squared values the column met first is returned.
   */
  method SelectNextFeature(t: Table, target: seq<Cell>, current: seq<Column>, ignored: seq<Column>,
                           rsq: Rsquared, pval: PValue, alpha: real) returns (feature: Column)
    ensures (forall c :: !Admissible(t, target, current, ignored, pval, alpha, c)) ==> feature == NO_FEATURE
    ensures (exists c :: Admissible(t, target, current, ignored, pval, alpha, c)) ==>
      Best(t, target, current, ignored, rsq, pval, alpha, feature)
  {
    feature := NO_FEATURE;
    var found := false;
    var best := 0.0;
    for i := 0 to |t.columns|
      invariant !found ==> feature == NO_FEATURE
      invariant found ==> Admissible(t, target, current, ignored, pval, alpha, feature)
      invariant found ==> best == rsq(t, target, current + [feature])
      invariant found <==> exists j :: 0 <= j < i && Admissible(t, target, current, ignored, pval, alpha, t.columns[j])
      invariant forall j :: 0 <= j < i && Admissible(t, target, current, ignored, pval, alpha, t.columns[j]) ==>
        rsq(t, target, current + [t.columns[j]]) <= best
    {
      var col := t.columns[i];
      if col !in current + ignored {
        var r2 := rsq(t, target, current + [col]);
        var p := pval(t, target, current + [col], col);
        if p < alpha && (!found || r2 > best) {
          feature, best, found := col, r2, true;
        }
      }
    }
  }

  /**
   * `forward_selection`: starting from no feature, repeatedly adds the next
   * selected feature while `|ignored| + |current|` is below the number of ROWS
   * of the table and the last answer was not "None".
   */
  method ForwardSelection(t: Table, target: seq<Cell>, ignored: seq<Column>,
                          rsq: Rsquared, pval: PValue, alpha: real) returns (current: seq<Column>)
    ensures Distinct(current)
    ensures forall i :: 0 <= i < |current| ==>
      current[i] in t.columns && current[i] !in ignored && current[i] != NO_FEATURE
    ensures forall i :: 0 <= i < |current| ==>
      Best(t, target, current[..i], ignored, rsq, pval, alpha, current[i])
    ensures current == [] || |ignored| + |current| <= |t.rows|
    ensures |ignored| + |current| < |t.rows| ==>
      forall c :: Admissible(t, target, current, ignored, pval, alpha, c) ==>
        Best(t, target, current, ignored, rsq, pval, alpha, NO_FEATURE)
  {
    var last: Column := "";
    current := [];
    while |ignored| + |current| < |t.rows| && last != NO_FEATURE
      invariant Distinct(current)
      invariant forall i :: 0 <= i < |current| ==>
        current[i] in t.columns && current[i] !in ignored && current[i] != NO_FEATURE
      invariant forall i :: 0 <= i < |current| ==>
        Best(t, target, current[..i], ignored, rsq, pval, alpha, current[i])
      invariant current == [] || |ignored| + |current| <= |t.rows|
      invariant last == NO_FEATURE ==>
        forall c :: Admissible(t, target, current, ignored, pval, alpha, c) ==>
          Best(t, target, current, ignored, rsq, pval, alpha, NO_FEATURE)
      decreases |t.rows| - |ignored| - |current|, if last == NO_FEATURE then 0 else 1
    {
      last := SelectNextFeature(t, target, current, ignored, rsq, pval, alpha);
      if last != NO_FEATURE {
        Appended(t, target, current, ignored, rsq, pval, alpha, last);
        current := current + [last];
      }
    }
  }

  /** Appending a best, non-"None" feature keeps the invariants of `ForwardSelection`. */
  lemma Appended(t: Table, target: seq<Cell>, current: seq<Column>, ignored: seq<Column>,
                 rsq: Rsquared, pval: PValue, alpha: real, f: Column)
    requires Distinct(current)
    requires forall i :: 0 <= i < |current| ==>
      Best(t, target, current[..i], ignored, rsq, pval, alpha, current[i])
    requires Best(t, target, current, ignored, rsq, pval, alpha, f)
    ensures Distinct(current + [f])
    ensures forall i :: 0 <= i < |current + [f]| ==>
      Best(t, target, (current + [f])[..i], ignored, rsq, pval, alpha, (current + [f])[i])
  {
    var next := current + [f];
    assert next[..|current|] == current;
    forall i | 0 <= i < |current|
      ensures Best(t, target, next[..i], ignored, rsq, pval, alpha, next[i])
    {
      assert next[..i] == current[..i];
    }
  }

  // ---------------------------------------------------------------------
  // create_VIF_dataframe and filter_multicolinearity
  // ---------------------------------------------------------------------

  /** `create_VIF_dataframe`: the VIF of every column, in column order. */
  function VifValues(t: Table, vif: Vif): (v: seq<real>)
    ensures |v| == |t.columns|
    ensures forall i :: 0 <= i < |t.columns| ==> v[i] == vif(t, i)
  {
    seq(|t.columns|, i requires 0 <= i < |t.columns| => vif(t, i))
  }

  /** `(vif > threshold).sum()`: how many values exceed the threshold. */
  function Exceeding(v: seq<real>, threshold: real): (n: nat)
    ensures n <= |v|
    ensures n == 0 <==> forall i :: 0 <= i < |v| ==> v[i] <= threshold
    decreases |v|
  {
    if v == [] then 0
    else
      assert forall i :: 1 <= i < |v| ==> v[1..][i - 1] == v[i];
      (if v[0] > threshold then 1 else 0) + Exceeding(v[1..], threshold)
  }

  /** `argmax`: the FIRST position holding the largest value. */
  function ArgMax(v: seq<real>): (i: nat)
    requires |v| > 0
    ensures i < |v|
    ensures forall j :: 0 <= j < |v| ==> v[j] <= v[i]
    ensures forall j :: 0 <= j < i ==> v[j] < v[i]
    decreases |v|
  {
    if |v| == 1 then 0
    else
      var i := ArgMax(v[..|v| - 1]);
      assert forall j :: 0 <= j < |v| - 1 ==> v[..|v| - 1][j] == v[j];
      if v[|v| - 1] > v[i] then |v| - 1 else i
  }

  /** The column `filter_multicolinearity` drops next: the first holding the largest VIF. */
  function Worst(t: Table, vif: Vif): (c: Column)
    requires |t.columns| > 0
    ensures c in t.columns
  {
    t.columns[ArgMax(VifValues(t, vif))]
  }

  /**
   * The loop of `filter_multicolinearity` as a recursive definition: while a
   * VIF exceeds the threshold, drop the worst column and recompute. What it
   * returns has no VIF above the threshold, and its columns are an
   * order-preserving subset of the input's, with the same rows and cells.
   */
  function PruneColumns(t: Table, vif: Vif, threshold: real): (r: Table)
    requires WellFormed(t)
    ensures WellFormed(r)
    ensures forall i :: 0 <= i < |r.columns| ==> vif(r, i) <= threshold
    ensures Subseq(r.columns, t.columns)
    ensures forall c :: c in r.columns ==> c in t.columns
    ensures Ids(r.rows) == Ids(t.rows)
    ensures forall k, c :: 0 <= k < |t.rows| && c in r.columns ==> CellOf(r.rows[k], c) == CellOf(t.rows[k], c)
    decreases |t.columns|
  {
    var v := VifValues(t, vif);
    if Exceeding(v, threshold) == 0 then
      assert Subseq(t.columns, t.columns) by { SubseqRefl(t.columns); }
      t
    else
      var worst := Worst(t, vif);
      var d := DropColumns(t, [worst]).value;
      FilterShorter(t.columns, c => c !in [worst], ArgMax(v));
      FilterSubseq(t.columns, c => c !in [worst]);
      var r := PruneColumns(d, vif, threshold);
      SubseqTrans(r.columns, d.columns, t.columns);
      r
  }

  /**
   * While some VIF exceeds the threshold, one step drops exactly one column,
   * the first holding the largest VIF, and the result is that of the rest.
   */
  lemma PruneDropsWorst(t: Table, vif: Vif, threshold: real)
    requires WellFormed(t)
    requires Exceeding(VifValues(t, vif), threshold) != 0
    ensures var i := ArgMax(VifValues(t, vif));
      var d := DropColumns(t, [t.columns[i]]);
      && d.Success?
      && d.value.columns == t.columns[..i] + t.columns[i + 1..]
      && PruneColumns(t, vif, threshold) == PruneColumns(d.value, vif, threshold)
  {
    var i := ArgMax(VifValues(t, vif));
    FilterRemoveAt(t.columns, c => c !in [t.columns[i]], i);
  }

  /**
   * `filter_multicolinearity`: works on a copy, dropping the worst column
   * while any VIF exceeds `threshold`; returns the pruned table and its VIFs.
   */
  method FilterMulticolinearity(t: Table, vif: Vif, threshold: real) returns (r: Table, vifs: seq<real>)
    requires WellFormed(t)
    ensures r == PruneColumns(t, vif, threshold)
    ensures vifs == VifValues(r, vif)
    ensures forall i :: 0 <= i < |vifs| ==> vifs[i] <= threshold
  {
    r := t;
    vifs := VifValues(r, vif);
    var high := Exceeding(vifs, threshold);
    while high != 0
      invariant WellFormed(r)
      invariant PruneColumns(r, vif, threshold) == PruneColumns(t, vif, threshold)
      invariant vifs == VifValues(r, vif)
      invariant high == Exceeding(vifs, threshold)
      decreases |r.columns|
    {
      var worst := r.columns[ArgMax(vifs)];
      FilterShorter(r.columns, c => c !in [worst], ArgMax(vifs));
      r := DropColumns(r, [worst]).value;
      vifs := VifValues(r, vif);
      high := Exceeding(vifs, threshold);
    }
  }
}
