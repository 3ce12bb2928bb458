/**
 * What the cells of the table `get_raw_regression_df` returns mean, stated
 * on the loaded movie table and the relation tables, and when it raises.
 */
module RawTableFacts {
  import opened Wrappers
  import opened Frames
  import opened Encoding
  import opened Aggregation
  import opened DirectorHistory
  import opened RawTable

  /** The source's own lookup tables satisfy the naming conditions. */
  lemma SourceEncoderNamesOk()
    ensures NamesOk(SOURCE_ENCODER)
  {
    GenreListDistinct();
    SourceEncoderValid();
    ContinentsAreNotGenres();
    FixedNamesAreNew();
    BaseNamesAreNew();
  }

  lemma ContinentsAreNotGenres()
    ensures forall c :: c in CONTINENT_LIST ==> c !in GENRE_LIST
  {
  }

  lemma FixedNamesAreNew()
    ensures forall c :: c in FIXED_FEATURES ==> c !in CONTINENT_LIST && c !in GENRE_LIST
  {
  }

  lemma BaseNamesAreNew()
    ensures forall c :: c in BASE_INPUTS ==> c !in CONTINENT_LIST && c !in GENRE_LIST
  {
  }

  /**
   * The function returns a table exactly when every input column exists,
   * every vote count is a number, every release date is a timestamp or NaT,
   * every title is a string, and every country and raw genre has a mapping
   * entry.
   */
  lemma RaisesIff(e: Encoder, movies: Table, src: Sources)
    requires WellFormed(movies)
    ensures RaisedError(e, movies, src).None? <==>
      && (forall c :: c in DROPPED ==> c in movies.columns)
      && (forall c :: c in BASE_INPUTS ==> c in movies.columns)
      && (forall k :: 0 <= k < |movies.rows| ==>
            VotesCastable(movies.rows[k]) && DateOrNaT(movies.rows[k]) && HasTitle(movies.rows[k]))
      && (forall i :: 0 <= i < |src.countries| ==> src.countries[i].key in e.countryContinent)
      && (forall i :: 0 <= i < |src.genres| ==> src.genres[i].key in e.genreMapping)
  {
    RaisedNone(e, movies, src);
    BaseInputsAre();
    PreparedSucceeds(movies);
  }

  /** The statements of the function, in order, each pass. */
  lemma RaisedNone(e: Encoder, movies: Table, src: Sources)
    requires WellFormed(movies)
    ensures RaisedError(e, movies, src).None? <==>
      && Prepared(movies).Success?
      && (forall i :: 0 <= i < |src.countries| ==> src.countries[i].key in e.countryContinent.Keys)
      && (forall i :: 0 <= i < |src.genres| ==> src.genres[i].key in e.genreMapping.Keys)
      && "release_date" in movies.columns
      && (forall k :: 0 <= k < |movies.rows| ==> DateOrNaT(movies.rows[k]))
      && "name" in movies.columns
      && (forall k :: 0 <= k < |movies.rows| ==> HasTitle(movies.rows[k]))
      && "average_rating" in movies.columns
  {
  }

  lemma BaseInputsAre()
    ensures forall c :: c in BASE_INPUTS <==>
      c == "name" || c == "release_date" || c == "average_rating" || c == "num_votes"
  {
    assert BASE_INPUTS == ["name", "release_date", "average_rating", "num_votes"];
  }

  /** The drop and the vote cast succeed exactly when the columns exist and every vote count is a number. */
  lemma PreparedSucceeds(movies: Table)
    requires WellFormed(movies)
    ensures Prepared(movies).Success? <==>
      && (forall c :: c in DROPPED ==> c in movies.columns)
      && "num_votes" in movies.columns
      && (forall k :: 0 <= k < |movies.rows| ==> VotesCastable(movies.rows[k]))
  {
  }

  /** An unknown country raises KeyError naming the first one, once the earlier statements pass. */
  lemma UnknownCountryRaises(e: Encoder, movies: Table, src: Sources, i: nat)
    requires WellFormed(movies)
    requires forall c :: c in DROPPED ==> c in movies.columns
    requires "num_votes" in movies.columns
    requires forall k :: 0 <= k < |movies.rows| ==> VotesCastable(movies.rows[k])
    requires i < |src.countries| && src.countries[i].key !in e.countryContinent
    ensures RaisedError(e, movies, src).Some?
    ensures exists j :: 0 <= j <= i && RaisedError(e, movies, src) == Some(KeyError(src.countries[j].key)) &&
                        src.countries[j].key !in e.countryContinent
  {
    var first := FirstUnknown(src.countries, e.countryContinent.Keys);
    var j :| 0 <= j < |src.countries| && src.countries[j].key == first.value && first.value !in e.countryContinent.Keys &&
             forall x :: 0 <= x < j ==> src.countries[x].key in e.countryContinent.Keys;
  }

  /** A release date that is neither a timestamp nor NaT raises on `.year`, once the earlier statements pass. */
  lemma NonDateRaises(e: Encoder, movies: Table, src: Sources, k: nat)
    requires WellFormed(movies)
    requires forall c :: c in DROPPED ==> c in movies.columns
    requires "num_votes" in movies.columns && "release_date" in movies.columns
    requires forall j :: 0 <= j < |movies.rows| ==> VotesCastable(movies.rows[j])
    requires forall i :: 0 <= i < |src.countries| ==> src.countries[i].key in e.countryContinent
    requires forall i :: 0 <= i < |src.genres| ==> src.genres[i].key in e.genreMapping
    requires k < |movies.rows| && !DateOrNaT(movies.rows[k])
    ensures RaisedError(e, movies, src) == Some(AttributeError("year"))
  {
    PreparedSucceeds(movies);
    assert Prepared(movies).Success?;
    assert FirstUnknown(src.countries, e.countryContinent.Keys).None?;
    assert FirstUnknown(src.genres, e.genreMapping.Keys).None?;
    assert exists j :: 0 <= j < |movies.rows| && !DateOrNaT(movies.rows[j]);
  }

  /** The prepared table has the input's rows, and every kept column except the vote count is unchanged. */
  lemma PreparedRows(movies: Table, k: nat, c: Column)
    requires WellFormed(movies) && Prepared(movies).Success? && k < |movies.rows|
    ensures |Prepared(movies).value.rows| == |movies.rows|
    ensures Prepared(movies).value.rows[k].id == movies.rows[k].id
    ensures c !in DROPPED && c != "num_votes" ==> CellOf(Prepared(movies).value.rows[k], c) == CellOf(movies.rows[k], c)
    ensures CellOf(Prepared(movies).value.rows[k], "num_votes") == CastVotes(movies.rows[k])
  {
    var dropped := DropColumns(movies, DROPPED).value;
    var t0 := Prepared(movies).value;
    assert Ids(dropped.rows)[k] == Ids(movies.rows)[k];
    assert "num_votes" !in DROPPED;
    assert dropped.rows[k].cells["num_votes"] == movies.rows[k].cells["num_votes"];
    if c !in DROPPED && c != "num_votes" {
      if c in movies.columns {
        KeepsOthersAt(dropped, t0, {"num_votes"}, k, c);
      } else {
        assert c !in set x | x in dropped.columns;
        assert c !in Filter(movies.columns, x => x !in DROPPED);
        assert c !in set x | x in t0.columns;
      }
    }
  }

  /** The rows the director history reads are those of the input table. */
  lemma PreparedPasts(movies: Table)
    requires WellFormed(movies) && Prepared(movies).Success?
    ensures Pasts(Prepared(movies).value) == Pasts(movies)
  {
    var t0 := Prepared(movies).value;
    forall k | 0 <= k < |movies.rows| ensures Pasts(t0)[k] == Pasts(movies)[k] {
      PreparedRows(movies, k, "average_rating");
      PreparedRows(movies, k, "release_date");
    }
  }

  /** The fixed feature columns are among the new columns. */
  lemma FeatureNamesHold(e: Encoder)
    ensures "actor_number" in FeatureNames(e) && GENRE_NUMBER in FeatureNames(e)
    ensures DECADE in FeatureNames(e) && TITLE_LENGTH in FeatureNames(e)
    ensures "combinned_movie_num" in FeatureNames(e) && "combinned_best_rating" in FeatureNames(e)
    ensures "combinned_movie_success" in FeatureNames(e)
  {
    assert ACTOR_FEATURES[0] == "actor_number";
    assert (e.genres + [GENRE_NUMBER])[|e.genres|] == GENRE_NUMBER;
    assert DIRECTOR_FEATURES[0] == "combinned_movie_num" && DIRECTOR_FEATURES[1] == "combinned_best_rating";
    assert DIRECTOR_FEATURES[3] == "combinned_movie_success";
  }

  /** Every feature cell of the finished table is the one `Feature` prescribes. */
  lemma RawCell(e: Encoder, movies: Table, src: Sources, r: Table, k: nat, c: Column)
    requires WellFormed(movies) && RawTableSpec(e, movies, src, r)
    requires k < |movies.rows| && c in FeatureNames(e)
    ensures |r.rows| == |movies.rows| && r.rows[k].id == movies.rows[k].id
    ensures CellOf(r.rows[k], c) == Feature(e, src, Prepared(movies).value, c, k)
  {
    var t0 := Prepared(movies).value;
    PreparedRows(movies, k, c);
    AssignedAt(t0, r, FeatureNames(e), Want(e, src, t0), k, c);
  }

  /** The columns of the finished table: the kept input columns, then every new feature column in order. */
  lemma RawColumns(e: Encoder, movies: Table, src: Sources, r: Table)
    requires WellFormed(movies) && RawTableSpec(e, movies, src, r)
    ensures r.columns == AddLabels(Filter(movies.columns, c => c !in DROPPED), FeatureNames(e))
    ensures Ids(r.rows) == Ids(movies.rows)
  {
    var dropped := DropColumns(movies, DROPPED).value;
    var t0 := Prepared(movies).value;
    assert "num_votes" in dropped.columns;
    assert t0.columns == dropped.columns;
    forall k | 0 <= k < |movies.rows| ensures r.rows[k].id == movies.rows[k].id {
      PreparedRows(movies, k, "name");
    }
  }

  /**
   * Columns the function neither drops nor assigns read as in the input;
   * the vote count is truncated to an integer.
   */
  lemma RawKeepsInput(e: Encoder, movies: Table, src: Sources, r: Table, k: nat, c: Column)
    requires WellFormed(movies) && RawTableSpec(e, movies, src, r) && k < |movies.rows|
    requires c !in FeatureNames(e)
    ensures c !in DROPPED && c != "num_votes" ==> CellOf(r.rows[k], c) == CellOf(movies.rows[k], c)
    ensures "num_votes" !in FeatureNames(e) ==> CellOf(r.rows[k], "num_votes") == CastVotes(movies.rows[k])
  {
    var t0 := Prepared(movies).value;
    PreparedRows(movies, k, c);
    Untouched(t0, r, FeatureNames(e), Want(e, src, t0), k, c);
    if "num_votes" !in FeatureNames(e) {
      Untouched(t0, r, FeatureNames(e), Want(e, src, t0), k, "num_votes");
    }
  }

  /** A continent cell is the movie's entry in the groupby max of that continent's slot. */
  lemma RawContinentSeries(e: Encoder, movies: Table, src: Sources, r: Table, k: nat, j: nat)
    requires WellFormed(movies) && NamesOk(e) && RawTableSpec(e, movies, src, r)
    requires k < |movies.rows| && j < |e.continents|
    ensures CellOf(r.rows[k], e.continents[j]) == Aligned(AsValues(ContinentSeries(e, src.countries, j)), movies.rows[k].id)
  {
    var t0 := Prepared(movies).value;
    RawCell(e, movies, src, r, k, e.continents[j]);
    ContinentFeatureValues(e, src, t0);
  }

  /** A genre cell is the movie's entry in the groupby max of that genre's slot. */
  lemma RawGenreSeries(e: Encoder, movies: Table, src: Sources, r: Table, k: nat, j: nat)
    requires WellFormed(movies) && NamesOk(e) && RawTableSpec(e, movies, src, r)
    requires k < |movies.rows| && j < |e.genres|
    ensures CellOf(r.rows[k], e.genres[j]) == Aligned(AsValues(GenreSeries(e, src.genres, j)), movies.rows[k].id)
  {
    var t0 := Prepared(movies).value;
    assert e.genres[j] in FeatureNames(e);
    RawCell(e, movies, src, r, k, e.genres[j]);
    GenreFeatureValues(e, src, t0);
  }

  /**
   * A continent column is NaN for a movie without a country row; otherwise
   * it is 1 if one of the movie's countries lies on that continent and 0 if
   * none does.
   */
  lemma RawContinentCell(e: Encoder, movies: Table, src: Sources, r: Table, k: nat, j: nat)
    requires WellFormed(movies) && e.Valid() && NamesOk(e) && Encodable(e, src) && RawTableSpec(e, movies, src, r)
    requires k < |movies.rows| && j < |e.continents|
    ensures movies.rows[k].id !in LinkedMovies(src.countries) ==> CellOf(r.rows[k], e.continents[j]) == None
    ensures movies.rows[k].id in LinkedMovies(src.countries) ==>
      (CellOf(r.rows[k], e.continents[j]) == Some(Num(1.0)) || CellOf(r.rows[k], e.continents[j]) == Some(Num(0.0)))
    ensures CellOf(r.rows[k], e.continents[j]) == Some(Num(1.0)) <==>
      exists i :: 0 <= i < |src.countries| && src.countries[i].movie == movies.rows[k].id &&
                  src.countries[i].key in e.countryContinent &&
                  e.countryContinent[src.countries[i].key] == e.continents[j]
  {
    RawContinentSeries(e, movies, src, r, k, j);
    ContinentCellMeaning(e, src.countries, j, movies.rows[k].id);
  }

  /** The aligned continent series, cell by cell. */
  lemma ContinentCellMeaning(e: Encoder, countries: seq<Link<string>>, j: nat, m: MovieId)
    requires e.CountryValid() && CountriesEncodable(e, countries) && j < |e.continents|
    ensures m !in LinkedMovies(countries) ==> Aligned(AsValues(ContinentSeries(e, countries, j)), m) == None
    ensures m in LinkedMovies(countries) ==>
      (Aligned(AsValues(ContinentSeries(e, countries, j)), m) == Some(Num(1.0)) ||
       Aligned(AsValues(ContinentSeries(e, countries, j)), m) == Some(Num(0.0)))
    ensures Aligned(AsValues(ContinentSeries(e, countries, j)), m) == Some(Num(1.0)) <==>
      exists i :: 0 <= i < |countries| && countries[i].movie == m && countries[i].key in e.countryContinent &&
                  e.countryContinent[countries[i].key] == e.continents[j]
  {
    if m in LinkedMovies(countries) {
      ContinentCellLinked(e, countries, j, m);
    } else {
      forall i | 0 <= i < |countries| ensures countries[i].movie != m {
        assert countries[i].movie in LinkedMovies(countries);
      }
    }
  }

  lemma ContinentCellLinked(e: Encoder, countries: seq<Link<string>>, j: nat, m: MovieId)
    requires e.CountryValid() && CountriesEncodable(e, countries) && j < |e.continents|
    requires m in LinkedMovies(countries)
    ensures Aligned(AsValues(ContinentSeries(e, countries, j)), m) == Some(Num(1.0)) ||
            Aligned(AsValues(ContinentSeries(e, countries, j)), m) == Some(Num(0.0))
    ensures Aligned(AsValues(ContinentSeries(e, countries, j)), m) == Some(Num(1.0)) <==>
      exists i :: 0 <= i < |countries| && countries[i].movie == m && countries[i].key in e.countryContinent &&
                  e.countryContinent[countries[i].key] == e.continents[j]
  {
    var series := ContinentSeries(e, countries, j);
    assert m in series;
    assert Aligned(AsValues(series), m) == Some(Num(series[m] as real));
    assert Aligned(AsValues(series), m) == Some(Num(1.0)) <==> series[m] == 1;
    ContinentColumn(e, countries, j, m);
    ContinentKeysKnown(e, countries);
  }

  lemma ContinentKeysKnown(e: Encoder, countries: seq<Link<string>>)
    requires e.CountryValid() && CountriesEncodable(e, countries)
    ensures forall i :: 0 <= i < |countries| ==> countries[i].key in e.countryContinent
  {
    forall i | 0 <= i < |countries| ensures countries[i].key in e.countryContinent {
      assert e.EncodeCountry(countries[i].key).Some?;
    }
  }

  /**
   * A genre column is NaN for a movie without a genre row; otherwise it is
   * 1 if one of the movie's raw genres lists a group owning that column and
   * 0 if none does.
   */
  lemma RawGenreCell(e: Encoder, movies: Table, src: Sources, r: Table, k: nat, j: nat)
    requires WellFormed(movies) && e.Valid() && NamesOk(e) && Encodable(e, src) && RawTableSpec(e, movies, src, r)
    requires k < |movies.rows| && j < |e.genres|
    ensures movies.rows[k].id !in LinkedMovies(src.genres) ==> CellOf(r.rows[k], e.genres[j]) == None
    ensures movies.rows[k].id in LinkedMovies(src.genres) ==>
      (CellOf(r.rows[k], e.genres[j]) == Some(Num(1.0)) || CellOf(r.rows[k], e.genres[j]) == Some(Num(0.0)))
    ensures CellOf(r.rows[k], e.genres[j]) == Some(Num(1.0)) <==>
      exists i, g :: 0 <= i < |src.genres| && src.genres[i].movie == movies.rows[k].id &&
                     src.genres[i].key in e.genreMapping && g in e.genreMapping[src.genres[i].key] &&
                     g in e.genreEncoding && j < |e.genreEncoding[g]| && e.genreEncoding[g][j] == 1
  {
    RawGenreSeries(e, movies, src, r, k, j);
    GenreCellMeaning(e, src.genres, j, movies.rows[k].id);
  }

  /** Every raw genre of the relation has a mapping entry whose groups all have a full-length vector. */
  lemma GenreRowsEncoded(e: Encoder, genres: seq<Link<string>>)
    requires e.GenreValid() && GenresEncodable(e, genres)
    ensures forall i :: 0 <= i < |genres| ==> genres[i].key in e.genreMapping
    ensures forall i, g :: 0 <= i < |genres| && g in e.genreMapping[genres[i].key] ==>
      g in e.genreEncoding && |e.genreEncoding[g]| == |e.genres|
  {
    forall i | 0 <= i < |genres| ensures genres[i].key in e.genreMapping {
      assert e.EncodeGenre(genres[i].key).Some?;
    }
  }

  /** The aligned genre series, cell by cell. */
  lemma GenreCellMeaning(e: Encoder, genres: seq<Link<string>>, j: nat, m: MovieId)
    requires e.GenreValid() && GenresEncodable(e, genres) && j < |e.genres|
    ensures m !in LinkedMovies(genres) ==> Aligned(AsValues(GenreSeries(e, genres, j)), m) == None
    ensures m in LinkedMovies(genres) ==>
      (Aligned(AsValues(GenreSeries(e, genres, j)), m) == Some(Num(1.0)) ||
       Aligned(AsValues(GenreSeries(e, genres, j)), m) == Some(Num(0.0)))
    ensures Aligned(AsValues(GenreSeries(e, genres, j)), m) == Some(Num(1.0)) <==>
      exists i, g :: 0 <= i < |genres| && genres[i].movie == m &&
                     genres[i].key in e.genreMapping && g in e.genreMapping[genres[i].key] &&
                     g in e.genreEncoding && j < |e.genreEncoding[g]| && e.genreEncoding[g][j] == 1
  {
    GenreRowsEncoded(e, genres);
    if m in LinkedMovies(genres) {
      GenreCellLinked(e, genres, j, m);
    } else {
      forall i | 0 <= i < |genres| ensures genres[i].movie != m {
        assert genres[i].movie in LinkedMovies(genres);
      }
    }
  }

  lemma GenreCellLinked(e: Encoder, genres: seq<Link<string>>, j: nat, m: MovieId)
    requires e.GenreValid() && GenresEncodable(e, genres) && j < |e.genres|
    requires m in LinkedMovies(genres)
    ensures Aligned(AsValues(GenreSeries(e, genres, j)), m) == Some(Num(1.0)) ||
            Aligned(AsValues(GenreSeries(e, genres, j)), m) == Some(Num(0.0))
    ensures Aligned(AsValues(GenreSeries(e, genres, j)), m) == Some(Num(1.0)) <==>
      exists i, g :: 0 <= i < |genres| && genres[i].movie == m &&
                     g in e.genreMapping[genres[i].key] && e.genreEncoding[g][j] == 1
  {
    var series := GenreSeries(e, genres, j);
    GenreCellValue(e, genres, j, m);
    assert Aligned(AsValues(series), m) == Some(Num(1.0)) <==> series[m] == 1;
    GenreColumn(e, genres, j, m);
  }

  lemma GenreCellValue(e: Encoder, genres: seq<Link<string>>, j: nat, m: MovieId)
    requires GenresEncodable(e, genres) && j < |e.genres| && m in LinkedMovies(genres)
    ensures m in GenreSeries(e, genres, j)
    ensures Aligned(AsValues(GenreSeries(e, genres, j)), m) == Some(Num(GenreSeries(e, genres, j)[m] as real))
  {
  }

  /** `genre_number`: NaN without genre rows, else the number of the movie's genre rows. */
  lemma RawGenreCount(e: Encoder, movies: Table, src: Sources, r: Table, k: nat)
    requires WellFormed(movies) && NamesOk(e) && RawTableSpec(e, movies, src, r) && k < |movies.rows|
    ensures var m := movies.rows[k].id;
      CellOf(r.rows[k], GENRE_NUMBER) ==
        (if m in LinkedMovies(src.genres) then Some(Num(|Filter(src.genres, (l: Link<string>) => l.movie == m)| as real))
         else None)
  {
    var t0 := Prepared(movies).value;
    FeatureNamesHold(e);
    RawCell(e, movies, src, r, k, GENRE_NUMBER);
    GenreFeatureValues(e, src, t0);
    GroupCountIsFilterLength(src.genres, movies.rows[k].id);
  }

  /** `actor_number`: NaN without cast rows, else the number of the movie's cast rows. */
  lemma RawActorCount(e: Encoder, movies: Table, src: Sources, r: Table, k: nat)
    requires WellFormed(movies) && NamesOk(e) && RawTableSpec(e, movies, src, r) && k < |movies.rows|
    ensures var m := movies.rows[k].id;
      CellOf(r.rows[k], "actor_number") ==
        (if m in LinkedMovies(src.appearances)
         then Some(Num(|Filter(src.appearances, (l: Link<int>) => l.movie == m)| as real))
         else None)
  {
    var t0 := Prepared(movies).value;
    FeatureNamesHold(e);
    RawCell(e, movies, src, r, k, "actor_number");
    ActorFeatureValues(e, src, t0);
    GroupCountIsFilterLength(src.appearances, movies.rows[k].id);
  }

  /**
   * `decade`: NaN without a release date; otherwise the multiple of ten at
   * or below the release year, less than ten years before it.
   */
  lemma RawDecadeCell(e: Encoder, movies: Table, src: Sources, r: Table, k: nat)
    requires WellFormed(movies) && NamesOk(e) && RawTableSpec(e, movies, src, r) && k < |movies.rows|
    ensures CellOf(r.rows[k], DECADE).Some? <==> DateOf(movies.rows[k]).Some?
    ensures DateOf(movies.rows[k]).Some? ==>
      exists d :: CellOf(r.rows[k], DECADE) == Some(Num(d as real)) && d % 10 == 0 &&
                  d <= DateOf(movies.rows[k]).value.year < d + 10
  {
    RawDecadeIs(e, movies, src, r, k);
  }

  lemma RawDecadeIs(e: Encoder, movies: Table, src: Sources, r: Table, k: nat)
    requires WellFormed(movies) && NamesOk(e) && RawTableSpec(e, movies, src, r) && k < |movies.rows|
    ensures CellOf(r.rows[k], DECADE) == DecadeCell(movies.rows[k])
  {
    var t0 := Prepared(movies).value;
    FeatureNamesHold(e);
    RawCell(e, movies, src, r, k, DECADE);
    RowFeatureValues(e, src, t0);
    PreparedDecade(movies, k);
  }

  /** The prepared row has the release date, hence the decade, of the input row. */
  lemma PreparedDecade(movies: Table, k: nat)
    requires WellFormed(movies) && Prepared(movies).Success? && k < |movies.rows|
    ensures DecadeCell(Prepared(movies).value.rows[k]) == DecadeCell(movies.rows[k])
  {
    assert "release_date" !in DROPPED;
    PreparedRows(movies, k, "release_date");
    DecadeReadsDate(Prepared(movies).value.rows[k], movies.rows[k]);
  }

  /** The decade depends on the release date alone. */
  lemma DecadeReadsDate(a: Row, b: Row)
    requires CellOf(a, "release_date") == CellOf(b, "release_date")
    ensures DecadeCell(a) == DecadeCell(b)
  {
  }

  /** `title_length`: the number of whitespace-separated words of the title. */
  lemma RawTitleCell(e: Encoder, movies: Table, src: Sources, r: Table, k: nat)
    requires WellFormed(movies) && NamesOk(e) && RawTableSpec(e, movies, src, r) && k < |movies.rows|
    requires HasTitle(movies.rows[k])
    ensures CellOf(r.rows[k], TITLE_LENGTH) == Some(Num(|Words(CellOf(movies.rows[k], "name").value.s)| as real))
  {
    var t0 := Prepared(movies).value;
    FeatureNamesHold(e);
    RawCell(e, movies, src, r, k, TITLE_LENGTH);
    RowFeatureValues(e, src, t0);
    PreparedRows(movies, k, "name");
  }

  /**
   * The director columns: NaN for a movie without a director; otherwise
   * the count and best rating of the team's films released strictly
   * before the movie, read from the input table.
   */
  lemma RawDirectorCells(e: Encoder, movies: Table, src: Sources, r: Table, k: nat)
    requires WellFormed(movies) && NamesOk(e) && RawTableSpec(e, movies, src, r) && k < |movies.rows|
    ensures var row := movies.rows[k];
      CellOf(r.rows[k], "combinned_movie_num") ==
        (if row.id in LinkedMovies(src.directed) then Some(Num(MovieMetrics(movies, src.directed, row).0 as real))
         else None)
    ensures CellOf(r.rows[k], "combinned_best_rating") == MetricsBest(movies, src.directed, movies.rows[k])
  {
    var t0 := Prepared(movies).value;
    FeatureNamesHold(e);
    RawCell(e, movies, src, r, k, "combinned_movie_num");
    RawCell(e, movies, src, r, k, "combinned_best_rating");
    DirectorFeatureValues(e, src, t0);
    MetricsOfPrepared(movies, src.directed, k);
  }

  /** The director metrics of the prepared table are those of the input. */
  lemma MetricsOfPrepared(movies: Table, directed: seq<Link<DirectorId>>, k: nat)
    requires WellFormed(movies) && Prepared(movies).Success? && k < |movies.rows|
    ensures MetricsNum(Prepared(movies).value, directed, Prepared(movies).value.rows[k]) ==
            MetricsNum(movies, directed, movies.rows[k])
    ensures MetricsBest(Prepared(movies).value, directed, Prepared(movies).value.rows[k]) ==
            MetricsBest(movies, directed, movies.rows[k])
  {
    var t0 := Prepared(movies).value;
    PreparedPasts(movies);
    PreparedRows(movies, k, "release_date");
    assert DateOf(t0.rows[k]) == DateOf(movies.rows[k]);
    assert History(t0, directed) == History(movies, directed);
  }

  /** `combinned_movie_success` is 1 exactly when the best rating exceeds 7.5, and 0 otherwise (NaN included). */
  lemma RawSuccessCell(e: Encoder, movies: Table, src: Sources, r: Table, k: nat)
    requires WellFormed(movies) && NamesOk(e) && RawTableSpec(e, movies, src, r) && k < |movies.rows|
    ensures CellOf(r.rows[k], "combinned_movie_success") == Some(Num(1.0)) ||
            CellOf(r.rows[k], "combinned_movie_success") == Some(Num(0.0))
    ensures CellOf(r.rows[k], "combinned_movie_success") == Some(Num(1.0)) <==>
      exists x :: CellOf(r.rows[k], "combinned_best_rating") == Some(Num(x)) && x > SUCCESS_THRESHOLD
  {
    var t0 := Prepared(movies).value;
    FeatureNamesHold(e);
    RawCell(e, movies, src, r, k, "combinned_movie_success");
    RawCell(e, movies, src, r, k, "combinned_best_rating");
    DirectorFeatureValues(e, src, t0);
  }
}
