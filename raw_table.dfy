/**
 * `get_raw_regression_df`: the movie table with `freebase_id` and `plot`
 * dropped, extended column by column with the crafted features. Each block
 * of the source is one method below; `Feature` says what every new cell
 * holds, and `RawTableSpec` is the promise about the finished table.
 */
module RawTable {
  import opened Wrappers
  import opened Frames
  import opened Encoding
  import opened Aggregation
  import opened DirectorHistory

  /** The relation tables and the given values the features are computed from. */
  datatype Sources = Sources(
    countries: seq<Link<string>>,       // comes_from: movie -> country name
    appearances: seq<Link<int>>,        // appears_in: movie -> actor id
    famous: set<int>,                   // actors at or above the movie-count percentile
    meanActorAge: map<MovieId, Value>,  // groupby mean of the actor ages
    genderRatio: map<MovieId, Value>,   // groupby mean of the gender codes
    genres: seq<Link<string>>,          // is_of_type: movie -> raw genre
    languages: seq<Link<string>>,       // spoken_languages: movie -> language name
    topLanguages: set<string>,          // the K_LANGUAGES most spoken languages
    characters: seq<Link<int>>,         // belongs_to: movie -> character id
    commonCharacters: set<int>,         // characters bearing a K_CHARACTERS most common name
    directed: seq<Link<DirectorId>>)    // is_directed_by: movie -> director id

  const DROPPED: seq<Column> := ["freebase_id", "plot"]
  const ACTOR_FEATURES: seq<Column> := ["actor_number", "mean_actor_age", "gender_ratio", "has_famous_actor"]
  const GENRE_NUMBER: Column := "genre_number"
  const LANGUAGE_FEATURES: seq<Column> := ["has_common_language", "language_number"]
  const CHARACTER_FEATURES: seq<Column> := ["has_common_character_name", "character_number"]
  const DECADE: Column := "decade"
  const TITLE_LENGTH: Column := "title_length"
  const DIRECTOR_FEATURES: seq<Column> :=
    ["combinned_movie_num", "combinned_best_rating", "num_directors", "combinned_movie_success"]

  /** The base columns the features are read from. */
  const BASE_INPUTS: seq<Column> := ["name", "release_date", "average_rating", "num_votes"]

  /** The new columns, in the order the source assigns them. */
  function FeatureNames(e: Encoder): seq<Column> {
    e.continents + ACTOR_FEATURES + (e.genres + [GENRE_NUMBER]) + LANGUAGE_FEATURES + CHARACTER_FEATURES +
    [DECADE, TITLE_LENGTH] + DIRECTOR_FEATURES
  }

  /** The feature columns with a fixed name. */
  const FIXED_FEATURES: seq<Column> :=
    ["actor_number", "mean_actor_age", "gender_ratio", "has_famous_actor", "genre_number",
     "has_common_language", "language_number", "has_common_character_name", "character_number",
     "decade", "title_length", "combinned_movie_num", "combinned_best_rating", "num_directors",
     "combinned_movie_success"]

  /**
   * The feature columns are distinct (so no block overwrites another's
   * column) and none of them is a base column a later block reads.
   */
  ghost predicate NamesOk(e: Encoder) {
    && Distinct(e.continents) && Distinct(e.genres)
    && (forall c :: c in e.continents ==> c !in e.genres)
    && (forall c :: c in FIXED_FEATURES ==> c !in e.continents && c !in e.genres)
    && (forall c :: c in BASE_INPUTS ==> c !in e.continents && c !in e.genres)
  }

  /** Every country and raw genre of the relation tables has an encoding. */
  ghost predicate Encodable(e: Encoder, src: Sources) {
    CountriesEncodable(e, src.countries) && GenresEncodable(e, src.genres)
  }

  /** `decade`: NaT gives NaN. */
  function DecadeCell(row: Row): (c: Cell)
    ensures c.Some? <==> DateOf(row).Some?
    ensures c.Some? ==> exists d :: c == Some(Num(d as real)) && d % 10 == 0 &&
                                    d <= DateOf(row).value.year < d + 10
  {
    match CellOf(row, "release_date")
    case Some(Day(d)) =>
      assert Decade(d.year) % 10 == 0;
      Some(Num(Decade(d.year) as real))
    case _ => None
  }

  /** `title_length` of a row whose name is a string. */
  function TitleCell(row: Row): (c: Cell)
    ensures (exists n :: CellOf(row, "name") == Some(Text(n))) ==> c.Some?
  {
    match CellOf(row, "name")
    case Some(Text(n)) => Some(Num(TitleLength(n) as real))
    case _ => None
  }

  /** The director metrics of a directed movie; NaN for a movie without a director. */
  function MetricsNum(t: Table, directed: seq<Link<DirectorId>>, row: Row): (c: Cell)
    ensures c.Some? <==> row.id in LinkedMovies(directed)
  {
    if row.id in LinkedMovies(directed) then Some(Num(MovieMetrics(t, directed, row).0 as real)) else None
  }

  function MetricsBest(t: Table, directed: seq<Link<DirectorId>>, row: Row): (c: Cell)
    ensures c.Some? ==> row.id in LinkedMovies(directed)
  {
    if row.id in LinkedMovies(directed) then
      match MovieMetrics(t, directed, row).1
      case Some(x) => Some(Num(x))
      case None => None
    else None
  }

  /** `has_famous_actor`: some actor of the movie is famous. */
  function FamousFlags(src: Sources): (g: map<MovieId, int>)
    ensures forall m :: m in g ==>
      (g[m] == 1 <==> exists k :: 0 <= k < |src.appearances| && src.appearances[k].movie == m &&
                                  src.appearances[k].key in src.famous)
  {
    HasFlag(src.appearances, a => a in src.famous)
  }

  /** `has_common_language`: some language of the movie is a top language. */
  function CommonLanguageFlags(src: Sources): (g: map<MovieId, int>)
    ensures forall m :: m in g ==>
      (g[m] == 1 <==> exists k :: 0 <= k < |src.languages| && src.languages[k].movie == m &&
                                  src.languages[k].key in src.topLanguages)
  {
    HasFlag(src.languages, l => l in src.topLanguages)
  }

  /** `has_common_character_name`: some character of the movie bears a common name. */
  function CommonCharacterFlags(src: Sources): (g: map<MovieId, int>)
    ensures forall m :: m in g ==>
      (g[m] == 1 <==> exists k :: 0 <= k < |src.characters| && src.characters[k].movie == m &&
                                  src.characters[k].key in src.commonCharacters)
  {
    HasFlag(src.characters, ch => ch in src.commonCharacters)
  }

  /**
   * The cell the source computes for feature column `c` in row `k`, in terms
   * of the movie table `t0` (after the drop) and the relation tables.
   */
  ghost function Feature(e: Encoder, src: Sources, t0: Table, c: Column, k: nat): (r: Cell)
    requires Encodable(e, src) && k < |t0.rows|
    ensures r.Some? ==> c in FeatureNames(e)
  {
    var row := t0.rows[k];
    var id := row.id;
    if c == "actor_number" then Aligned(AsValues(GroupCount(src.appearances)), id)
    else if c == "mean_actor_age" then Aligned(src.meanActorAge, id)
    else if c == "gender_ratio" then Aligned(src.genderRatio, id)
    else if c == "has_famous_actor" then Aligned(AsValues(FamousFlags(src)), id)
    else if c == GENRE_NUMBER then Aligned(AsValues(GroupCount(src.genres)), id)
    else if c == "has_common_language" then
      Aligned(AsValues(CommonLanguageFlags(src)), id)
    else if c == "language_number" then Aligned(AsValues(GroupCount(src.languages)), id)
    else if c == "has_common_character_name" then
      Aligned(AsValues(CommonCharacterFlags(src)), id)
    else if c == "character_number" then Aligned(AsValues(GroupCount(src.characters)), id)
    else if c == DECADE then DecadeCell(row)
    else if c == TITLE_LENGTH then TitleCell(row)
    else if c == "combinned_movie_num" then MetricsNum(t0, src.directed, row)
    else if c == "combinned_best_rating" then MetricsBest(t0, src.directed, row)
    else if c == "num_directors" then Aligned(AsValues(GroupCount(src.directed)), id)
    else if c == "combinned_movie_success" then
      Some(Num(SuccessFlag(MetricsBest(t0, src.directed, row)) as real))
    else if c in e.continents then Aligned(AsValues(ContinentSeries(e, src.countries, IndexOf(e.continents, c))), id)
    else if c in e.genres then Aligned(AsValues(GenreSeries(e, src.genres, IndexOf(e.genres, c))), id)
    else None
  }

  /** `Feature` as a function of the column and the row index. */
  ghost function Want(e: Encoder, src: Sources, t0: Table): (Column, nat) -> Cell {
    (c: Column, k: nat) => if Encodable(e, src) && k < |t0.rows| then Feature(e, src, t0, c, k) else None
  }

  /** `t` has the rows of `t0`, and the base columns the features read are unchanged. */
  ghost predicate BaseAgrees(t0: Table, t: Table) {
    |t.rows| == |t0.rows| &&
    forall k :: 0 <= k < |t0.rows| ==>
      t.rows[k].id == t0.rows[k].id &&
      forall c :: c in BASE_INPUTS ==> CellOf(t.rows[k], c) == CellOf(t0.rows[k], c)
  }

  /** Assigning feature columns leaves the base columns as they were. */
  lemma ProgressBase(t0: Table, t: Table, names: seq<Column>, want: (Column, nat) -> Cell)
    requires Progress(t0, t, names, want)
    requires forall c :: c in BASE_INPUTS ==> c !in names
    ensures BaseAgrees(t0, t)
  {
    forall k, c | 0 <= k < |t0.rows| && c in BASE_INPUTS
      ensures CellOf(t.rows[k], c) == CellOf(t0.rows[k], c)
    {
      Untouched(t0, t, names, want, k, c);
    }
  }

  // -----------------------------------------------------------------------
  // The blocks of get_raw_regression_df
  // -----------------------------------------------------------------------

  /** The prescribed cells of the continent columns. */
  lemma ContinentFeatureValues(e: Encoder, src: Sources, t0: Table)
    requires Encodable(e, src) && NamesOk(e)
    ensures forall k, j :: 0 <= k < |t0.rows| && 0 <= j < |e.continents| ==>
      Feature(e, src, t0, e.continents[j], k) == Aligned(AsValues(ContinentSeries(e, src.countries, j)), t0.rows[k].id)
  {
    forall k, j | 0 <= k < |t0.rows| && 0 <= j < |e.continents|
      ensures Feature(e, src, t0, e.continents[j], k) ==
        Aligned(AsValues(ContinentSeries(e, src.countries, j)), t0.rows[k].id)
    {
      IndexOfDistinct(e.continents, j);
      EncodedFeature(e, src, t0, e.continents[j], k);
    }
  }

  /** A continent or genre column is none of the fixed feature names, so `Feature` reaches its last branches. */
  lemma EncodedFeature(e: Encoder, src: Sources, t0: Table, c: Column, k: nat)
    requires Encodable(e, src) && NamesOk(e) && k < |t0.rows|
    requires c in e.continents || c in e.genres
    ensures Feature(e, src, t0, c, k) ==
      if c in e.continents then Aligned(AsValues(ContinentSeries(e, src.countries, IndexOf(e.continents, c))), t0.rows[k].id)
      else Aligned(AsValues(GenreSeries(e, src.genres, IndexOf(e.genres, c))), t0.rows[k].id)
  {
    assert c !in FIXED_FEATURES;
    FixedFeatures(c);
  }

  /** Membership in the fixed feature names, spelled out. */
  lemma FixedFeatures(c: Column)
    ensures c in FIXED_FEATURES <==>
      c == "actor_number" || c == "mean_actor_age" || c == "gender_ratio" || c == "has_famous_actor" ||
      c == GENRE_NUMBER || c == "has_common_language" || c == "language_number" ||
      c == "has_common_character_name" || c == "character_number" || c == DECADE || c == TITLE_LENGTH ||
      c == "combinned_movie_num" || c == "combinned_best_rating" || c == "num_directors" ||
      c == "combinned_movie_success"
  {
  }

  /** Country features: for each continent in list order, the groupby max of its one-hot slot. */
  method AddCountryFeatures(e: Encoder, src: Sources, t0: Table, t: Table, before: seq<Column>)
    returns (r: Table)
    requires Encodable(e, src) && NamesOk(e)
    requires Progress(t0, t, before, Want(e, src, t0))
    requires forall c :: c in e.continents ==> c !in before
    ensures Progress(t0, r, before + e.continents, Want(e, src, t0))
  {
    ContinentFeatureValues(e, src, t0);
    r := AssignSeriesColumns(t0, t, before, e.continents,
      (j: nat) requires j < |e.continents| && CountriesEncodable(e, src.countries) =>
        AsValues(ContinentSeries(e, src.countries, j)),
      Want(e, src, t0));
  }

  /** `df[name] = series` for a feature column whose prescribed cells are the aligned series. */
  method AssignFeature(e: Encoder, src: Sources, t0: Table, t: Table, before: seq<Column>,
                       name: Column, series: map<MovieId, Value>)
    returns (r: Table)
    requires Progress(t0, t, before, Want(e, src, t0)) && name !in before
    requires Encodable(e, src)
    requires forall k :: 0 <= k < |t0.rows| ==> Feature(e, src, t0, name, k) == Aligned(series, t0.rows[k].id)
    ensures Progress(t0, r, before + [name], Want(e, src, t0))
  {
    r := AssignSeries(t, name, series);
    Step(t0, t, r, before, name, Want(e, src, t0));
  }

  /** The prescribed cells of the actor columns. */
  lemma ActorFeatureValues(e: Encoder, src: Sources, t0: Table)
    requires Encodable(e, src) && NamesOk(e)
    ensures forall k :: 0 <= k < |t0.rows| ==>
      && Feature(e, src, t0, "actor_number", k) == Aligned(AsValues(GroupCount(src.appearances)), t0.rows[k].id)
      && Feature(e, src, t0, "mean_actor_age", k) == Aligned(src.meanActorAge, t0.rows[k].id)
      && Feature(e, src, t0, "gender_ratio", k) == Aligned(src.genderRatio, t0.rows[k].id)
      && Feature(e, src, t0, "has_famous_actor", k) == Aligned(AsValues(FamousFlags(src)), t0.rows[k].id)
  {
  }

  /** The prescribed cells of the genre columns. */
  lemma GenreFeatureValues(e: Encoder, src: Sources, t0: Table)
    requires Encodable(e, src) && NamesOk(e)
    ensures forall k, j :: 0 <= k < |t0.rows| && 0 <= j < |e.genres| ==>
      Feature(e, src, t0, e.genres[j], k) == Aligned(AsValues(GenreSeries(e, src.genres, j)), t0.rows[k].id)
    ensures forall k :: 0 <= k < |t0.rows| ==>
      Feature(e, src, t0, GENRE_NUMBER, k) == Aligned(AsValues(GroupCount(src.genres)), t0.rows[k].id)
  {
    forall k, j | 0 <= k < |t0.rows| && 0 <= j < |e.genres|
      ensures Feature(e, src, t0, e.genres[j], k) == Aligned(AsValues(GenreSeries(e, src.genres, j)), t0.rows[k].id)
    {
      IndexOfDistinct(e.genres, j);
      EncodedFeature(e, src, t0, e.genres[j], k);
    }
  }

  /** The prescribed cells of the language and character columns. */
  lemma FlagFeatureValues(e: Encoder, src: Sources, t0: Table)
    requires Encodable(e, src) && NamesOk(e)
    ensures forall k :: 0 <= k < |t0.rows| ==>
      && Feature(e, src, t0, "has_common_language", k) == Aligned(AsValues(CommonLanguageFlags(src)), t0.rows[k].id)
      && Feature(e, src, t0, "language_number", k) == Aligned(AsValues(GroupCount(src.languages)), t0.rows[k].id)
      && Feature(e, src, t0, "has_common_character_name", k) ==
           Aligned(AsValues(CommonCharacterFlags(src)), t0.rows[k].id)
      && Feature(e, src, t0, "character_number", k) == Aligned(AsValues(GroupCount(src.characters)), t0.rows[k].id)
  {
  }

  /** The prescribed cells of the decade and title-length columns. */
  lemma RowFeatureValues(e: Encoder, src: Sources, t0: Table)
    requires Encodable(e, src) && NamesOk(e)
    ensures forall k :: 0 <= k < |t0.rows| ==>
      && Feature(e, src, t0, DECADE, k) == DecadeCell(t0.rows[k])
      && Feature(e, src, t0, TITLE_LENGTH, k) == TitleCell(t0.rows[k])
  {
  }

  /** Actor features: counts, the given means, and the famous-actor flag. */
  method AddActorFeatures(e: Encoder, src: Sources, t0: Table, t: Table, before: seq<Column>)
    returns (r: Table)
    requires Encodable(e, src) && NamesOk(e)
    requires Progress(t0, t, before, Want(e, src, t0))
    requires forall c :: c in ACTOR_FEATURES ==> c !in before
    ensures Progress(t0, r, before + ACTOR_FEATURES, Want(e, src, t0))
  {
    ActorFeatureValues(e, src, t0);
    var t1 := AssignFeature(e, src, t0, t, before, "actor_number", AsValues(GroupCount(src.appearances)));
    var t2 := AssignFeature(e, src, t0, t1, before + ["actor_number"], "mean_actor_age", src.meanActorAge);
    assert before + ["actor_number"] + ["mean_actor_age"] == before + ["actor_number", "mean_actor_age"];
    var t3 := AssignFeature(e, src, t0, t2, before + ["actor_number", "mean_actor_age"], "gender_ratio", src.genderRatio);
    assert before + ["actor_number", "mean_actor_age"] + ["gender_ratio"] ==
           before + ["actor_number", "mean_actor_age", "gender_ratio"];
    r := AssignFeature(e, src, t0, t3, before + ["actor_number", "mean_actor_age", "gender_ratio"],
                       "has_famous_actor", AsValues(FamousFlags(src)));
    assert before + ACTOR_FEATURES == before + ["actor_number", "mean_actor_age", "gender_ratio"] + ["has_famous_actor"];
  }

  /** Genre features: for each genre column in list order, the groupby max of its slot; then the count. */
  method AddGenreFeatures(e: Encoder, src: Sources, t0: Table, t: Table, before: seq<Column>)
    returns (r: Table)
    requires Encodable(e, src) && NamesOk(e)
    requires Progress(t0, t, before, Want(e, src, t0))
    requires forall c :: c in e.genres + [GENRE_NUMBER] ==> c !in before
    ensures Progress(t0, r, before + (e.genres + [GENRE_NUMBER]), Want(e, src, t0))
  {
    GenreFeatureValues(e, src, t0);
    r := AssignSeriesColumns(t0, t, before, e.genres,
      (j: nat) requires j < |e.genres| && GenresEncodable(e, src.genres) => AsValues(GenreSeries(e, src.genres, j)),
      Want(e, src, t0));
    r := AssignFeature(e, src, t0, r, before + e.genres, GENRE_NUMBER, AsValues(GroupCount(src.genres)));
    assert before + e.genres + [GENRE_NUMBER] == before + (e.genres + [GENRE_NUMBER]);
  }

  /** Language features: the common-language flag and the language count. */
  method AddLanguageFeatures(e: Encoder, src: Sources, t0: Table, t: Table, before: seq<Column>)
    returns (r: Table)
    requires Encodable(e, src) && NamesOk(e)
    requires Progress(t0, t, before, Want(e, src, t0))
    requires forall c :: c in LANGUAGE_FEATURES ==> c !in before
    ensures Progress(t0, r, before + LANGUAGE_FEATURES, Want(e, src, t0))
  {
    FlagFeatureValues(e, src, t0);
    var t1 := AssignFeature(e, src, t0, t, before, "has_common_language", AsValues(CommonLanguageFlags(src)));
    r := AssignFeature(e, src, t0, t1, before + ["has_common_language"], "language_number",
                       AsValues(GroupCount(src.languages)));
    assert before + ["has_common_language"] + ["language_number"] == before + LANGUAGE_FEATURES;
  }

  /**
   * Character features: the common-character flag and the character count
   * (the source writes the flag as True/False first and replaces it by 1/0
   * after the count; the end result is the same).
   */
  method AddCharacterFeatures(e: Encoder, src: Sources, t0: Table, t: Table, before: seq<Column>)
    returns (r: Table)
    requires Encodable(e, src) && NamesOk(e)
    requires Progress(t0, t, before, Want(e, src, t0))
    requires forall c :: c in CHARACTER_FEATURES ==> c !in before
    ensures Progress(t0, r, before + CHARACTER_FEATURES, Want(e, src, t0))
  {
    FlagFeatureValues(e, src, t0);
    var t1 := AssignFeature(e, src, t0, t, before, "has_common_character_name", AsValues(CommonCharacterFlags(src)));
    r := AssignFeature(e, src, t0, t1, before + ["has_common_character_name"], "character_number",
                       AsValues(GroupCount(src.characters)));
    assert before + ["has_common_character_name"] + ["character_number"] == before + CHARACTER_FEATURES;
  }

  /** `df[name] = df.apply(cellOf)` for a feature column computed from each row. */
  method AssignRowFeature(e: Encoder, src: Sources, t0: Table, t: Table, before: seq<Column>,
                          name: Column, cellOf: Row -> Cell)
    returns (r: Table)
    requires Progress(t0, t, before, Want(e, src, t0)) && name !in before
    requires Encodable(e, src)
    requires forall k :: 0 <= k < |t0.rows| ==> Feature(e, src, t0, name, k) == cellOf(t.rows[k])
    ensures Progress(t0, r, before + [name], Want(e, src, t0))
  {
    r := WithColumn(t, name, cellOf);
    Step(t0, t, r, before, name, Want(e, src, t0));
  }

  /** The base cells a feature reads are those of the dropped movie table. */
  lemma BaseCells(t0: Table, t: Table, k: nat)
    requires BaseAgrees(t0, t) && k < |t0.rows|
    ensures t.rows[k].id == t0.rows[k].id
    ensures CellOf(t.rows[k], "name") == CellOf(t0.rows[k], "name")
    ensures CellOf(t.rows[k], "release_date") == CellOf(t0.rows[k], "release_date")
    ensures CellOf(t.rows[k], "average_rating") == CellOf(t0.rows[k], "average_rating")
  {
    assert BASE_INPUTS[0] == "name" && BASE_INPUTS[1] == "release_date" && BASE_INPUTS[2] == "average_rating";
  }

  /** Decade and title length, read from the row's release date and name. */
  method AddRowFeatures(e: Encoder, src: Sources, t0: Table, t: Table, before: seq<Column>)
    returns (r: Table)
    requires Encodable(e, src) && NamesOk(e)
    requires Progress(t0, t, before, Want(e, src, t0))
    requires forall c :: c in BASE_INPUTS ==> c !in before
    requires DECADE !in before && TITLE_LENGTH !in before
    ensures Progress(t0, r, before + [DECADE, TITLE_LENGTH], Want(e, src, t0))
  {
    RowFeatureValues(e, src, t0);
    ProgressBase(t0, t, before, Want(e, src, t0));
    forall k | 0 <= k < |t0.rows| ensures DecadeCell(t.rows[k]) == DecadeCell(t0.rows[k]) {
      BaseCells(t0, t, k);
    }
    var t1 := AssignRowFeature(e, src, t0, t, before, DECADE, DecadeCell);
    ProgressBase(t0, t1, before + [DECADE], Want(e, src, t0));
    forall k | 0 <= k < |t0.rows| ensures TitleCell(t1.rows[k]) == TitleCell(t0.rows[k]) {
      BaseCells(t0, t1, k);
    }
    r := AssignRowFeature(e, src, t0, t1, before + [DECADE], TITLE_LENGTH, TitleCell);
    assert before + [DECADE] + [TITLE_LENGTH] == before + [DECADE, TITLE_LENGTH];
  }

  /** The prescribed cells of the director columns. */
  lemma DirectorFeatureValues(e: Encoder, src: Sources, t0: Table)
    requires Encodable(e, src) && NamesOk(e)
    ensures forall k :: 0 <= k < |t0.rows| ==>
      && Feature(e, src, t0, "combinned_movie_num", k) == MetricsNum(t0, src.directed, t0.rows[k])
      && Feature(e, src, t0, "combinned_best_rating", k) == MetricsBest(t0, src.directed, t0.rows[k])
      && Feature(e, src, t0, "num_directors", k) == Aligned(AsValues(GroupCount(src.directed)), t0.rows[k].id)
      && Feature(e, src, t0, "combinned_movie_success", k) ==
           Some(Num(SuccessFlag(MetricsBest(t0, src.directed, t0.rows[k])) as real))
  {
  }

  /** The director history read from `t` is the one read from `t0`. */
  lemma PastsAgree(t0: Table, t: Table)
    requires BaseAgrees(t0, t)
    ensures Pasts(t) == Pasts(t0)
  {
    forall k | 0 <= k < |t0.rows| ensures Pasts(t)[k] == Pasts(t0)[k] {
      BaseCells(t0, t, k);
    }
  }

  /**
   * The director metrics computed on the table as it stands when the block
   * starts are those of the dropped movie table.
   */
  lemma MetricsAgree(t0: Table, t: Table, t1: Table, directed: seq<Link<DirectorId>>, k: nat)
    requires BaseAgrees(t0, t) && BaseAgrees(t0, t1) && k < |t0.rows|
    ensures MetricsNum(t, directed, t1.rows[k]) == MetricsNum(t0, directed, t0.rows[k])
    ensures MetricsBest(t, directed, t1.rows[k]) == MetricsBest(t0, directed, t0.rows[k])
  {
    PastsAgree(t0, t);
    BaseCells(t0, t1, k);
    assert DateOf(t1.rows[k]) == DateOf(t0.rows[k]);
  }

  /** The success flag read from the best-rating column already assigned. */
  lemma SuccessFromBest(e: Encoder, src: Sources, t0: Table, t: Table, names: seq<Column>, k: nat)
    requires Encodable(e, src) && NamesOk(e) && k < |t0.rows|
    requires Progress(t0, t, names, Want(e, src, t0)) && "combinned_best_rating" in names
    ensures Feature(e, src, t0, "combinned_movie_success", k) ==
            Some(Num(SuccessFlag(CellOf(t.rows[k], "combinned_best_rating")) as real))
  {
    AssignedAt(t0, t, names, Want(e, src, t0), k, "combinned_best_rating");
    DirectorFeatureValues(e, src, t0);
  }

  /**
   * Director features: the team's film count and best rating before the
   * release date, the number of directors, and whether the best rating
   * exceeds the success threshold.
   */
  method AddDirectorFeatures(e: Encoder, src: Sources, t0: Table, t: Table, before: seq<Column>)
    returns (r: Table)
    requires Encodable(e, src) && NamesOk(e)
    requires Progress(t0, t, before, Want(e, src, t0))
    requires forall c :: c in BASE_INPUTS ==> c !in before
    requires forall c :: c in DIRECTOR_FEATURES ==> c !in before
    ensures Progress(t0, r, before + DIRECTOR_FEATURES, Want(e, src, t0))
  {
    DirectorNames(before);
    DirectorFeatureValues(e, src, t0);
    var names2 := before + ["combinned_movie_num", "combinned_best_rating"];
    var t2 := AddDirectorHistory(e, src, t0, t, before);
    var names3 := names2 + ["num_directors"];
    var t3 := AssignFeature(e, src, t0, t2, names2, "num_directors", AsValues(GroupCount(src.directed)));
    r := AddSuccessFlag(e, src, t0, t3, names3);
  }

  /** The director block's names, one at a time. */
  lemma DirectorNames(before: seq<Column>)
    requires forall c :: c in DIRECTOR_FEATURES ==> c !in before
    ensures "combinned_movie_num" !in before && "combinned_best_rating" !in before
    ensures "num_directors" !in before + ["combinned_movie_num", "combinned_best_rating"]
    ensures "combinned_best_rating" in before + ["combinned_movie_num", "combinned_best_rating"] + ["num_directors"]
    ensures "combinned_movie_success" !in before + ["combinned_movie_num", "combinned_best_rating"] + ["num_directors"]
    ensures before + ["combinned_movie_num", "combinned_best_rating"] + ["num_directors"] + ["combinned_movie_success"] ==
            before + DIRECTOR_FEATURES
  {
  }

  /** `combinned_movie_success`: the best-rating column compared with the threshold, as 1/0. */
  method AddSuccessFlag(e: Encoder, src: Sources, t0: Table, t: Table, before: seq<Column>)
    returns (r: Table)
    requires Encodable(e, src) && NamesOk(e)
    requires Progress(t0, t, before, Want(e, src, t0))
    requires "combinned_best_rating" in before && "combinned_movie_success" !in before
    ensures Progress(t0, r, before + ["combinned_movie_success"], Want(e, src, t0))
  {
    forall k | 0 <= k < |t0.rows|
      ensures Feature(e, src, t0, "combinned_movie_success", k) ==
              Some(Num(SuccessFlag(CellOf(t.rows[k], "combinned_best_rating")) as real))
    {
      SuccessFromBest(e, src, t0, t, before, k);
    }
    r := AssignRowFeature(e, src, t0, t, before, "combinned_movie_success",
                          row => Some(Num(SuccessFlag(CellOf(row, "combinned_best_rating")) as real)));
  }

  /**
   * The first two director columns, both read from the director metrics
   * computed on the table as it stands when the block starts.
   */
  method AddDirectorHistory(e: Encoder, src: Sources, t0: Table, t: Table, before: seq<Column>)
    returns (r: Table)
    requires Encodable(e, src) && NamesOk(e)
    requires Progress(t0, t, before, Want(e, src, t0))
    requires forall c :: c in BASE_INPUTS ==> c !in before
    requires "combinned_movie_num" !in before && "combinned_best_rating" !in before
    ensures Progress(t0, r, before + ["combinned_movie_num", "combinned_best_rating"], Want(e, src, t0))
  {
    DirectorFeatureValues(e, src, t0);
    ProgressBase(t0, t, before, Want(e, src, t0));
    forall k | 0 <= k < |t0.rows| ensures MetricsNum(t, src.directed, t.rows[k]) == MetricsNum(t0, src.directed, t0.rows[k]) {
      MetricsAgree(t0, t, t, src.directed, k);
    }
    var names1 := before + ["combinned_movie_num"];
    var t1 := AssignRowFeature(e, src, t0, t, before, "combinned_movie_num", row => MetricsNum(t, src.directed, row));
    ProgressBase(t0, t1, names1, Want(e, src, t0));
    forall k | 0 <= k < |t0.rows| ensures MetricsBest(t, src.directed, t1.rows[k]) == MetricsBest(t0, src.directed, t0.rows[k]) {
      MetricsAgree(t0, t, t1, src.directed, k);
    }
    r := AssignRowFeature(e, src, t0, t1, names1, "combinned_best_rating", row => MetricsBest(t, src.directed, row));
    assert names1 + ["combinned_best_rating"] == before + ["combinned_movie_num", "combinned_best_rating"];
  }

  // -----------------------------------------------------------------------
  // The whole function
  // -----------------------------------------------------------------------

  /** numpy's float-to-integer cast: truncation toward zero. */
  function TruncateToInt(x: real): (n: int)
    ensures 0.0 <= x ==> 0 <= n && n as real <= x < n as real + 1.0
    ensures x < 0.0 ==> n <= 0 && n as real - 1.0 < x <= n as real
  {
    if 0.0 <= x then x.Floor else -((-x).Floor)
  }

  /** The vote count holds a number (the cast raises on NaN). */
  predicate VotesCastable(row: Row) {
    CellOf(row, "num_votes").Some? && CellOf(row, "num_votes").value.Num?
  }

  /** `num_votes.astype(np.int32)` on one row. */
  function CastVotes(row: Row): (c: Cell)
    ensures VotesCastable(row) ==> c == Some(Num(TruncateToInt(CellOf(row, "num_votes").value.x) as real))
  {
    match CellOf(row, "num_votes")
    case Some(Num(x)) => Some(Num(TruncateToInt(x) as real))
    case _ => None
  }

  /** The row's release date is a timestamp or NaT (`.year` raises AttributeError on anything else). */
  predicate DateOrNaT(row: Row) {
    CellOf(row, "release_date").None? || CellOf(row, "release_date").value.Day?
  }

  /** The row's title is a string (`split` raises AttributeError on anything else). */
  predicate HasTitle(row: Row) {
    CellOf(row, "name").Some? && CellOf(row, "name").value.Text?
  }

  /** The first key, in row order, that the lookup table does not have. */
  function FirstUnknown(links: seq<Link<string>>, known: set<string>): (r: Option<string>)
    ensures r.None? <==> forall k :: 0 <= k < |links| ==> links[k].key in known
    ensures r.Some? ==> exists k :: 0 <= k < |links| && links[k].key == r.value && r.value !in known &&
                                    forall i :: 0 <= i < k ==> links[i].key in known
    decreases |links|
  {
    if links == [] then None
    else if links[0].key !in known then Some(links[0].key)
    else
      var rest := FirstUnknown(links[1..], known);
      FirstUnknownShift(links, known, rest);
      rest
  }

  /** What the search of the tail says about the whole sequence. */
  lemma FirstUnknownShift(links: seq<Link<string>>, known: set<string>, rest: Option<string>)
    requires links != [] && links[0].key in known
    requires rest.None? <==> forall k :: 0 <= k < |links[1..]| ==> links[1..][k].key in known
    requires rest.Some? ==> exists k :: (0 <= k < |links[1..]| && links[1..][k].key == rest.value &&
      rest.value !in known && forall i :: 0 <= i < k ==> links[1..][i].key in known)
    ensures rest.None? <==> forall k :: 0 <= k < |links| ==> links[k].key in known
    ensures rest.Some? ==> exists k :: 0 <= k < |links| && links[k].key == rest.value && rest.value !in known &&
                                       forall i :: 0 <= i < k ==> links[i].key in known
  {
    if rest.Some? {
      var k :| 0 <= k < |links[1..]| && links[1..][k].key == rest.value && rest.value !in known &&
               forall i :: 0 <= i < k ==> links[1..][i].key in known;
      assert links[k + 1].key == rest.value;
      forall i | 0 <= i < k + 1 ensures links[i].key in known {
        if i > 0 { assert links[i] == links[1..][i - 1]; }
      }
    } else {
      forall k | 0 <= k < |links| ensures links[k].key in known {
        if k > 0 { assert links[k] == links[1..][k - 1]; }
      }
    }
  }

  /**
   * The exception the source raises, in the order of its statements: the
   * drop, the vote cast, the country and genre lookups, the decade and title
   * columns with the date's `year` and the title split, and the merge reading the ratings.
   */
  ghost function RaisedError(e: Encoder, movies: Table, src: Sources): (r: Option<Error>)
    requires WellFormed(movies)
    ensures r.None? ==> Prepared(movies).Success? && "release_date" in movies.columns &&
                        "name" in movies.columns && "average_rating" in movies.columns
  {
    if Prepared(movies).Failure? then Some(Prepared(movies).error)
    else if FirstUnknown(src.countries, e.countryContinent.Keys).Some? then
      Some(KeyError(FirstUnknown(src.countries, e.countryContinent.Keys).value))
    else if FirstUnknown(src.genres, e.genreMapping.Keys).Some? then
      Some(KeyError(FirstUnknown(src.genres, e.genreMapping.Keys).value))
    else ReadError(movies)
  }

  /**
   * The exception the statements reading the movie table's own columns raise
   * first: the decade (`release_date` and its `year`), the title length
   * (`name` and its `split`) and the merge (`average_rating`).
   */
  ghost function ReadError(movies: Table): (r: Option<Error>)
    ensures r.None? <==>
      && "release_date" in movies.columns
      && (forall k :: 0 <= k < |movies.rows| ==> DateOrNaT(movies.rows[k]))
      && "name" in movies.columns
      && (forall k :: 0 <= k < |movies.rows| ==> HasTitle(movies.rows[k]))
      && "average_rating" in movies.columns
  {
    if "release_date" !in movies.columns then Some(KeyError("release_date"))
    else if exists k :: 0 <= k < |movies.rows| && !DateOrNaT(movies.rows[k]) then
      Some(AttributeError("year"))
    else if "name" !in movies.columns then Some(KeyError("name"))
    else if exists k :: 0 <= k < |movies.rows| && !HasTitle(movies.rows[k]) then
      Some(AttributeError("split"))
    else if "average_rating" !in movies.columns then Some(KeyError("average_rating"))
    else None
  }

  /**
   * The table after the drop and the vote cast, from which every feature is
   * read; the cast raises on a missing column or a missing vote count.
   */
  function Prepared(movies: Table): (r: Result<Table>)
    requires WellFormed(movies)
    ensures r.Success? ==> "num_votes" in r.value.columns && (forall c :: c in DROPPED ==> c !in r.value.columns)
    ensures r.Success? ==> Ids(r.value.rows) == Ids(movies.rows)
  {
    var dropped := DropColumns(movies, DROPPED);
    if dropped.Failure? then dropped
    else if "num_votes" !in movies.columns then Failure(KeyError("num_votes"))
    else if exists k :: 0 <= k < |movies.rows| && !VotesCastable(movies.rows[k]) then
      Failure(ValueError("cannot convert NaN to an integer"))
    else Success(WithColumn(dropped.value, "num_votes", CastVotes))
  }

  /**
   * The finished table: the prepared movie table with every feature column
   * added in source order, each cell as `Feature` prescribes.
   */
  ghost predicate RawTableSpec(e: Encoder, movies: Table, src: Sources, r: Table)
    requires WellFormed(movies)
  {
    && Prepared(movies).Success?
    && Encodable(e, src)
    && Progress(Prepared(movies).value, r, FeatureNames(e), Want(e, src, Prepared(movies).value))
  }

  /** `get_raw_regression_df` on the loaded tables, with its exceptions. */
  method GetRawRegressionTable(e: Encoder, movies: Table, src: Sources) returns (r: Result<Table>)
    requires WellFormed(movies) && e.Valid() && NamesOk(e)
    ensures r.Failure? ==> RaisedError(e, movies, src) == Some(r.error)
    ensures r.Success? ==> RaisedError(e, movies, src) == None && RawTableSpec(e, movies, src, r.value)
  {
    var prepared := Prepared(movies);
    if prepared.Failure? {
      return Failure(prepared.error);
    }
    var unknownCountry := FirstUnknown(src.countries, e.countryContinent.Keys);
    if unknownCountry.Some? {
      return Failure(KeyError(unknownCountry.value));
    }
    var unknownGenre := FirstUnknown(src.genres, e.genreMapping.Keys);
    if unknownGenre.Some? {
      return Failure(KeyError(unknownGenre.value));
    }
    if "release_date" !in movies.columns {
      return Failure(KeyError("release_date"));
    }
    if exists k :: 0 <= k < |movies.rows| && !DateOrNaT(movies.rows[k]) {
      return Failure(AttributeError("year"));
    }
    if "name" !in movies.columns {
      return Failure(KeyError("name"));
    }
    if exists k :: 0 <= k < |movies.rows| && !HasTitle(movies.rows[k]) {
      return Failure(AttributeError("split"));
    }
    if "average_rating" !in movies.columns {
      return Failure(KeyError("average_rating"));
    }
    var t0 := prepared.value;
    EncodableFromKeys(e, src);
    var t := BuildFeatures(e, src, t0);
    return Success(t);
  }

  /** Under the encoder's shape, the lookups that did not raise encode every row. */
  lemma EncodableFromKeys(e: Encoder, src: Sources)
    requires e.Valid()
    requires FirstUnknown(src.countries, e.countryContinent.Keys).None?
    requires FirstUnknown(src.genres, e.genreMapping.Keys).None?
    ensures Encodable(e, src)
  {
  }

  /** The feature blocks, in source order. */
  method BuildFeatures(e: Encoder, src: Sources, t0: Table) returns (r: Table)
    requires WellFormed(t0) && Encodable(e, src) && NamesOk(e)
    ensures Progress(t0, r, FeatureNames(e), Want(e, src, t0))
  {
    ghost var want := Want(e, src, t0);
    ProgressStart(t0, want);
    var t := AddCountryFeatures(e, src, t0, t0, []);
    assert [] + e.continents == e.continents;
    ActorNamesFresh(e);
    t := AddActorFeatures(e, src, t0, t, e.continents);
    GenreNamesFresh(e);
    t := AddGenreFeatures(e, src, t0, t, e.continents + ACTOR_FEATURES);
    LanguageNamesFresh(e);
    t := AddLanguageFeatures(e, src, t0, t, e.continents + ACTOR_FEATURES + (e.genres + [GENRE_NUMBER]));
    CharacterNamesFresh(e);
    t := AddCharacterFeatures(e, src, t0, t,
                              e.continents + ACTOR_FEATURES + (e.genres + [GENRE_NUMBER]) + LANGUAGE_FEATURES);
    RowNamesFresh(e);
    t := AddRowFeatures(e, src, t0, t,
           e.continents + ACTOR_FEATURES + (e.genres + [GENRE_NUMBER]) + LANGUAGE_FEATURES + CHARACTER_FEATURES);
    DirectorNamesFresh(e);
    r := AddDirectorFeatures(e, src, t0, t,
           e.continents + ACTOR_FEATURES + (e.genres + [GENRE_NUMBER]) + LANGUAGE_FEATURES + CHARACTER_FEATURES +
           [DECADE, TITLE_LENGTH]);
  }

  // Each block's columns are new, and the base columns are never assigned.

  lemma ActorNamesFresh(e: Encoder)
    requires NamesOk(e)
    ensures forall c :: c in ACTOR_FEATURES ==> c !in e.continents
  {
    assert forall c :: c in ACTOR_FEATURES ==> c in FIXED_FEATURES;
  }

  lemma GenreNamesFresh(e: Encoder)
    requires NamesOk(e)
    ensures forall c :: c in e.genres + [GENRE_NUMBER] ==> c !in e.continents + ACTOR_FEATURES
  {
    assert GENRE_NUMBER in FIXED_FEATURES;
    assert forall c :: c in ACTOR_FEATURES ==> c in FIXED_FEATURES;
  }

  lemma LanguageNamesFresh(e: Encoder)
    requires NamesOk(e)
    ensures forall c :: c in LANGUAGE_FEATURES ==> c !in e.continents + ACTOR_FEATURES + (e.genres + [GENRE_NUMBER])
  {
    assert forall c :: c in LANGUAGE_FEATURES ==> c in FIXED_FEATURES;
  }

  lemma CharacterNamesFresh(e: Encoder)
    requires NamesOk(e)
    ensures forall c :: c in CHARACTER_FEATURES ==>
      c !in e.continents + ACTOR_FEATURES + (e.genres + [GENRE_NUMBER]) + LANGUAGE_FEATURES
  {
    assert forall c :: c in CHARACTER_FEATURES ==> c in FIXED_FEATURES;
  }

  lemma RowNamesFresh(e: Encoder)
    requires NamesOk(e)
    ensures forall c :: c in BASE_INPUTS ==>
      c !in e.continents + ACTOR_FEATURES + (e.genres + [GENRE_NUMBER]) + LANGUAGE_FEATURES + CHARACTER_FEATURES
    ensures forall c :: c in [DECADE, TITLE_LENGTH] ==>
      c !in e.continents + ACTOR_FEATURES + (e.genres + [GENRE_NUMBER]) + LANGUAGE_FEATURES + CHARACTER_FEATURES
  {
    assert DECADE in FIXED_FEATURES && TITLE_LENGTH in FIXED_FEATURES;
  }

  lemma DirectorNamesFresh(e: Encoder)
    requires NamesOk(e)
    ensures forall c :: c in BASE_INPUTS ==>
      c !in e.continents + ACTOR_FEATURES + (e.genres + [GENRE_NUMBER]) + LANGUAGE_FEATURES + CHARACTER_FEATURES +
            [DECADE, TITLE_LENGTH]
    ensures forall c :: c in DIRECTOR_FEATURES ==>
      c !in e.continents + ACTOR_FEATURES + (e.genres + [GENRE_NUMBER]) + LANGUAGE_FEATURES + CHARACTER_FEATURES +
            [DECADE, TITLE_LENGTH]
  {
    assert forall c :: c in DIRECTOR_FEATURES ==> c in FIXED_FEATURES;
  }
}
