/**
 * The small helpers of the data loaders: the column-to-dtype map, the
 * comma-separated list parser, and the value cleaning applied to freshly
 * read tables (the release-date typo fix, filling missing values with 0,
 * and turning invalid runtimes into 0). Reading the files is not modelled.
 */
module DataLoad {
  import opened Wrappers

  // ---------------------------------------------------------------------
  // dtypes_map
  // ---------------------------------------------------------------------

  /** `cols[i]` is not repeated later in `cols`: its entry survives `dict(zip(...))`. */
  ghost predicate LastOccurrence(cols: seq<string>, i: int)
    requires 0 <= i < |cols|
  {
    forall j :: i < j < |cols| ==> cols[j] != cols[i]
  }

  /** `dict(zip(cols, dtypes))`: later pairs overwrite earlier ones with the same key. */
  function ZipToMap<T>(cols: seq<string>, dtypes: seq<T>): (m: map<string, T>)
    requires |cols| == |dtypes|
    ensures m.Keys == set c | c in cols
    ensures forall i :: 0 <= i < |cols| && LastOccurrence(cols, i) ==> m[cols[i]] == dtypes[i]
    decreases |cols|
  {
    if cols == [] then map[]
    else
      var n := |cols| - 1;
      var prefix := ZipToMap(cols[..n], dtypes[..n]);
      ZipSnoc(cols, dtypes, cols[..n], dtypes[..n], prefix);
      prefix[cols[n] := dtypes[n]]
  }

  /** Adding the last pair to the map of the other pairs. */
  lemma ZipSnoc<T>(cols: seq<string>, dtypes: seq<T>, init: seq<string>, dinit: seq<T>, prefix: map<string, T>)
    requires |cols| == |dtypes| && cols != []
    requires init == cols[..|cols| - 1] && dinit == dtypes[..|cols| - 1]
    requires prefix.Keys == set x | x in init
    requires forall i :: 0 <= i < |init| && LastOccurrence(init, i) ==> prefix[init[i]] == dinit[i]
    ensures prefix[cols[|cols| - 1] := dtypes[|cols| - 1]].Keys == set x | x in cols
    ensures forall i :: 0 <= i < |cols| && LastOccurrence(cols, i) ==>
      prefix[cols[|cols| - 1] := dtypes[|cols| - 1]][cols[i]] == dtypes[i]
  {
    var n := |cols| - 1;
    var m := prefix[cols[n] := dtypes[n]];
    ZipKeys(cols, init);
    forall i | 0 <= i < |cols| && LastOccurrence(cols, i) ensures m[cols[i]] == dtypes[i] {
      if i < n {
        LastOccurrenceInit(cols, init, i);
        assert dinit[i] == dtypes[i];
      }
    }
  }

  lemma ZipKeys(cols: seq<string>, init: seq<string>)
    requires cols != [] && init == cols[..|cols| - 1]
    ensures (set x | x in cols) == (set x | x in init) + {cols[|cols| - 1]}
  {
    assert cols == init + [cols[|cols| - 1]];
  }

  lemma LastOccurrenceInit(cols: seq<string>, init: seq<string>, i: nat)
    requires cols != [] && init == cols[..|cols| - 1] && i < |init|
    requires LastOccurrence(cols, i)
    ensures LastOccurrence(init, i) && init[i] == cols[i] && cols[i] != cols[|cols| - 1]
  {
    forall j | i < j < |init| ensures init[j] != init[i] {
      assert init[j] == cols[j];
    }
  }

  /**
   * dtypes_map: asserts that both lists have the same length, then zips the
   * column names with the dtypes.
   */
  function DtypesMap<T>(dtypes: seq<T>, cols: seq<string>): (r: Result<map<string, T>>)
    ensures r.Failure? <==> |dtypes| != |cols|
    ensures r.Failure? ==> r.error == AssertionError
    ensures r.Success? ==> r.value.Keys == set c | c in cols
    ensures r.Success? ==>
      forall i :: 0 <= i < |cols| && LastOccurrence(cols, i) ==> r.value[cols[i]] == dtypes[i]
  {
    if |dtypes| != |cols| then Failure(AssertionError) else Success(ZipToMap(cols, dtypes))
  }

  /** With duplicate column names the dtype paired with the last occurrence wins. */
  lemma DtypesMapLastWins<T>(dtypes: seq<T>, cols: seq<string>, i: int, j: int)
    requires |dtypes| == |cols|
    requires 0 <= i < j < |cols| && cols[i] == cols[j] && LastOccurrence(cols, j)
    ensures DtypesMap(dtypes, cols).Success?
    ensures DtypesMap(dtypes, cols).value[cols[i]] == dtypes[j]
  {
  }

  // ---------------------------------------------------------------------
  // parse_imdb_list: Python's str.split(",")
  // ---------------------------------------------------------------------

  const COMMA: char := ','

  /** Python's `s.split(sep)` with an explicit one-character separator. */
  function Split(s: string, sep: char): (parts: seq<string>)
    ensures |parts| >= 1
    decreases |s|
  {
    if s == [] then [""]
    else if s[0] == sep then [""] + Split(s[1..], sep)
    else
      var rest := Split(s[1..], sep);
      [[s[0]] + rest[0]] + rest[1..]
  }

  /** Python's `sep.join(parts)`. */
  function Join(parts: seq<string>, sep: char): string
    decreases |parts|
  {
    if parts == [] then ""
    else if |parts| == 1 then parts[0]
    else parts[0] + [sep] + Join(parts[1..], sep)
  }

  /** The number of occurrences of `c` in `s`. */
  function Occurrences(s: string, c: char): nat
    decreases |s|
  {
    if s == [] then 0 else (if s[0] == c then 1 else 0) + Occurrences(s[1..], c)
  }

  /** parse_imdb_list: split the cell text on commas. */
  function ParseImdbList(x: string): (parts: seq<string>)
    ensures |parts| >= 1
  {
    Split(x, COMMA)
  }

  /** Joining the parts back with the separator gives the original text. */
  lemma {:induction false} JoinSplit(s: string, sep: char)
    ensures Join(Split(s, sep), sep) == s
    decreases |s|
  {
    if s == [] {
    } else if s[0] == sep {
      var rest := Split(s[1..], sep);
      JoinSplit(s[1..], sep);
      assert Split(s, sep) == [""] + rest;
      if |rest| == 1 {
        assert Join(Split(s, sep), sep) == "" + [sep] + rest[0];
      } else {
        assert ([""] + rest)[1..] == rest;
      }
    } else {
      var rest := Split(s[1..], sep);
      JoinSplit(s[1..], sep);
      var parts := [[s[0]] + rest[0]] + rest[1..];
      assert Split(s, sep) == parts;
      if |rest| == 1 {
        assert Join(parts, sep) == [s[0]] + rest[0];
        assert s == [s[0]] + s[1..];
      } else {
        assert parts[1..] == rest[1..];
        assert Join(rest, sep) == rest[0] + [sep] + Join(rest[1..], sep);
        assert s == [s[0]] + s[1..];
      }
    }
  }

  /** Splitting yields one part more than there are separators. */
  lemma {:induction false} SplitLength(s: string, sep: char)
    ensures |Split(s, sep)| == Occurrences(s, sep) + 1
    decreases |s|
  {
    if s != [] {
      SplitLength(s[1..], sep);
    }
  }

  /** No part contains the separator. */
  lemma {:induction false} SplitPartsHaveNoSeparator(s: string, sep: char)
    ensures forall k :: 0 <= k < |Split(s, sep)| ==> sep !in Split(s, sep)[k]
    decreases |s|
  {
    if s != [] {
      SplitPartsHaveNoSeparator(s[1..], sep);
      var rest := Split(s[1..], sep);
      if s[0] != sep {
        assert sep !in [s[0]] + rest[0];
      }
    }
  }

  /** Conversely, splitting a join of separator-free parts gives the parts back. */
  lemma {:induction false} SplitJoin(parts: seq<string>, sep: char)
    requires |parts| >= 1
    requires forall k :: 0 <= k < |parts| ==> sep !in parts[k]
    ensures Split(Join(parts, sep), sep) == parts
    decreases |parts|, |parts[0]|
  {
    if parts[0] == [] {
      if |parts| > 1 {
        SplitJoin(parts[1..], sep);
        assert Join(parts, sep) == [sep] + Join(parts[1..], sep);
        assert ([sep] + Join(parts[1..], sep))[1..] == Join(parts[1..], sep);
        assert [""] + parts[1..] == parts;
      }
    } else {
      var p := parts[0];
      var shorter := [p[1..]] + parts[1..];
      assert forall k :: 0 <= k < |shorter| ==> sep !in shorter[k] by {
        assert forall k :: 1 <= k < |shorter| ==> shorter[k] == parts[k];
        assert forall c :: c in p[1..] ==> c in p;
      }
      SplitJoin(shorter, sep);
      assert p[0] in p;
      if |parts| == 1 {
        assert Join(parts, sep) == p;
        assert Join(shorter, sep) == p[1..];
        assert Split(p, sep) == [[p[0]] + p[1..]] + shorter[1..];
        assert [p[0]] + p[1..] == p;
      } else {
        assert Join(parts, sep) == p + [sep] + Join(parts[1..], sep);
        assert shorter[1..] == parts[1..];
        assert Join(shorter, sep) == p[1..] + [sep] + Join(parts[1..], sep);
        assert (p + [sep] + Join(parts[1..], sep))[1..] == p[1..] + [sep] + Join(parts[1..], sep);
        assert [p[0]] + p[1..] == p;
        assert parts == [p] + parts[1..];
      }
    }
  }

  /**
   * `column.map(parse_imdb_list, na_action='ignore')`: missing cells stay
   * missing, present cells are parsed.
   */
  function ParseListColumn(column: seq<Option<string>>): (r: seq<Option<seq<string>>>)
    ensures |r| == |column|
    ensures forall i :: 0 <= i < |column| ==> (r[i].None? <==> column[i].None?)
    ensures forall i :: 0 <= i < |column| && column[i].Some? ==>
      Join(r[i].value, COMMA) == column[i].value &&
      |r[i].value| == Occurrences(column[i].value, COMMA) + 1
  {
    SplitFacts();
    seq(|column|, i requires 0 <= i < |column| =>
      match column[i]
      case None => None
      case Some(x) => Some(ParseImdbList(x)))
  }

  lemma SplitFacts()
    ensures forall x :: Join(Split(x, COMMA), COMMA) == x && |Split(x, COMMA)| == Occurrences(x, COMMA) + 1
  {
    forall x ensures Join(Split(x, COMMA), COMMA) == x && |Split(x, COMMA)| == Occurrences(x, COMMA) + 1 {
      JoinSplit(x, COMMA);
      SplitLength(x, COMMA);
    }
  }

  // ---------------------------------------------------------------------
  // Cleaning rules applied after reading
  // ---------------------------------------------------------------------

  const TYPO_RELEASE_DATE: string := "1010-12-02"
  const FIXED_RELEASE_DATE: string := "2010-12-02"

  /** `df.release_date.replace("1010-12-02", "2010-12-02", inplace=True)`. */
  method FixReleaseDates(dates: array<Option<string>>)
    modifies dates
    ensures forall i :: 0 <= i < dates.Length ==>
      dates[i] == (if old(dates[i]) == Some(TYPO_RELEASE_DATE) then Some(FIXED_RELEASE_DATE) else old(dates[i]))
  {
    for i := 0 to dates.Length
      invariant forall k :: 0 <= k < i ==>
        dates[k] == (if old(dates[k]) == Some(TYPO_RELEASE_DATE) then Some(FIXED_RELEASE_DATE) else old(dates[k]))
      invariant forall k :: i <= k < dates.Length ==> dates[k] == old(dates[k])
    {
      if dates[i] == Some(TYPO_RELEASE_DATE) {
        dates[i] := Some(FIXED_RELEASE_DATE);
      }
    }
  }

  /** `column.fillna(zero, inplace=True)`: used with 0 for ages and runtimes. */
  method FillMissing<T>(column: array<Option<T>>, zero: T)
    modifies column
    ensures forall i :: 0 <= i < column.Length ==>
      column[i] == Some(if old(column[i]).Some? then old(column[i]).value else zero)
  {
    for i := 0 to column.Length
      invariant forall k :: 0 <= k < i ==>
        column[k] == Some(if old(column[k]).Some? then old(column[k]).value else zero)
      invariant forall k :: i <= k < column.Length ==> column[k] == old(column[k])
    {
      if column[i].None? {
        column[i] := Some(zero);
      }
    }
  }

  /**
   * A raw `runtime_minutes` cell as read from the file: either text that
   * spells a whole number of minutes, or some other label (misaligned rows
   * put genre names in this column).
   */
  datatype RawRuntime = Minutes(n: int) | Label(text: string)

  /** The labels the loader treats as invalid runtimes. */
  const INVALID_RUNTIMES: seq<string> :=
    ["Reality-TV", "Talk-Show", "Documentary", "Game-Show", "Animation,Comedy,Family", "Game-Show,Reality-TV"]

  ghost predicate IsInvalidRuntime(c: Option<RawRuntime>) {
    c.Some? && c.value.Label? && c.value.text in INVALID_RUNTIMES
  }

  /** A label the integer conversion cannot read. */
  ghost predicate IsUnconvertible(c: Option<RawRuntime>) {
    c.Some? && c.value.Label? && c.value.text !in INVALID_RUNTIMES
  }

  /**
   * `runtime_minutes.map(lambda r: NaN if r in invalids else r).astype(Int64)`:
   * invalid labels become missing, numbers are kept, and any other label
   * makes the conversion raise.
   */
  function InvalidRuntimesToMissing(raw: seq<Option<RawRuntime>>): (r: Result<seq<Option<int>>>)
    ensures r.Failure? <==> exists i :: 0 <= i < |raw| && IsUnconvertible(raw[i])
    ensures r.Success? ==> |r.value| == |raw|
    ensures r.Success? ==> forall i :: 0 <= i < |raw| ==>
      r.value[i] == (if raw[i].Some? && raw[i].value.Minutes? then Some(raw[i].value.n) else None)
    decreases |raw|
  {
    if raw == [] then Success([])
    else
      var head: Result<Option<int>> :=
        match raw[0]
        case None => Success(None)
        case Some(Minutes(n)) => Success(Some(n))
        case Some(Label(t)) => if t in INVALID_RUNTIMES then Success(None) else Failure(ValueError(t));
      var tail := InvalidRuntimesToMissing(raw[1..]);
      if head.Failure? then Failure(head.error)
      else if tail.Failure? then
        assert forall i :: 0 <= i < |raw[1..]| ==> raw[1..][i] == raw[i + 1];
        Failure(tail.error)
      else
        Success([head.value] + tail.value)
  }

  /**
   * The runtime cleaning of the title-basics loader: invalid labels become
   * missing and then 0, missing values become 0, numbers are unchanged.
   */
  method CleanRuntimeMinutes(raw: seq<Option<RawRuntime>>) returns (r: Result<seq<int>>)
    ensures r.Failure? <==> exists i :: 0 <= i < |raw| && IsUnconvertible(raw[i])
    ensures r.Success? ==> |r.value| == |raw|
    ensures r.Success? ==> forall i :: 0 <= i < |raw| ==>
      r.value[i] == (if raw[i].Some? && raw[i].value.Minutes? then raw[i].value.n else 0)
    ensures r.Success? ==> forall i :: 0 <= i < |raw| && IsInvalidRuntime(raw[i]) ==> r.value[i] == 0
  {
    var converted := InvalidRuntimesToMissing(raw);
    if converted.Failure? {
      return Failure(converted.error);
    }
    var cells := converted.value;
    var column := new Option<int>[|cells|](i requires 0 <= i < |cells| => cells[i]);
    FillMissing(column, 0);
    var filled := column[..];
    assert forall i :: 0 <= i < |filled| ==> filled[i].Some?;
    r := Success(seq(|filled|, i requires 0 <= i < |filled| && filled[i].Some? => filled[i].value));
  }
}
