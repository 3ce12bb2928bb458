/**
 * The category encoding tables: country -> continent -> one-hot vector over
 * the six continents, and raw genre -> list of genre groups -> indicator
 * vectors over the eleven genre columns. The source's tables have some 350
 * entries; the model keeps a representative excerpt of the two raw-label
 * tables, the full continent and group tables, and states the shape the
 * aggregation relies on as the predicate `Encoder.Valid`.
 */
module Encoding {
  import opened Wrappers
  import opened Frames

  type Vector = seq<int>

  /** Python's `list.index(x)` for an element known to be in the list. */
  function IndexOf(s: seq<string>, x: string): (i: nat)
    requires x in s
    ensures i < |s| && s[i] == x
    ensures forall j :: 0 <= j < i ==> s[j] != x
  {
    if s[0] == x then 0 else 1 + IndexOf(s[1..], x)
  }

  /** In a list without repetitions, `index` inverts indexing. */
  lemma IndexOfDistinct(s: seq<string>, i: nat)
    requires Distinct(s) && i < |s|
    ensures IndexOf(s, s[i]) == i
  {
  }

  /** `v` has length `n`, a 1 at position `k` and 0 everywhere else. */
  ghost predicate OneHotAt(v: Vector, n: nat, k: nat) {
    |v| == n && k < n && forall i :: 0 <= i < n ==> v[i] == (if i == k then 1 else 0)
  }

  /** `v` has length `n` and only 0/1 entries. */
  ghost predicate Indicator(v: Vector, n: nat) {
    |v| == n && forall i :: 0 <= i < n ==> v[i] == 0 || v[i] == 1
  }

  /** The lookup tables the aggregation is parameterised by. */
  datatype Encoder = Encoder(
    countryContinent: map<string, string>,   // COUNTRY_CONTINENT_MAPPING
    countryEncoding: map<string, Vector>,    // COUNTRY_ENCODING
    continents: seq<string>,                 // CONTINENT_LIST (the column names)
    genreMapping: map<string, seq<string>>,  // GENRE_MAPPING
    genreEncoding: map<string, Vector>,      // GENRE_ENCODING
    genres: seq<string>)                     // GENRE_LIST (the column names)
  {
    /**
     * The shape the aggregation needs: each continent vector is one-hot at
     * the continent's position in the column list; each country maps to an
     * encoded continent; each group vector is a 0/1 vector over the genre
     * columns and no two groups share a 1; each raw genre lists distinct,
     * encoded groups.
     */
    ghost predicate Valid() {
      CountryValid() && GenreValid()
    }

    /** The country half of `Valid`. */
    ghost predicate CountryValid() {
      && Distinct(continents)
      && (forall c :: c in countryEncoding ==>
            c in continents && OneHotAt(countryEncoding[c], |continents|, IndexOf(continents, c)))
      && (forall c :: c in countryContinent ==> countryContinent[c] in countryEncoding)
    }

    /** The genre half of `Valid`. */
    ghost predicate GenreValid() {
      && Distinct(genres)
      && (forall g :: g in genreEncoding ==> Indicator(genreEncoding[g], |genres|))
      && (forall g, h, i ::
            (g in genreEncoding && h in genreEncoding && 0 <= i < |genres| &&
             genreEncoding[g][i] == 1 && genreEncoding[h][i] == 1) ==> g == h)
      && (forall raw :: raw in genreMapping ==>
            |genreMapping[raw]| > 0 && Distinct(genreMapping[raw]) &&
            forall g :: g in genreMapping[raw] ==> g in genreEncoding)
    }

    /**
     * `COUNTRY_ENCODING[COUNTRY_CONTINENT_MAPPING[c]]`: None where a lookup
     * raises KeyError or the vector is too short to index every column.
     */
    function EncodeCountry(country: string): (r: Option<Vector>)
      ensures r.Some? ==> |r.value| == |continents|
      ensures CountryValid() ==> (r.Some? <==> country in countryContinent)
    {
      if country !in countryContinent then None
      else
        var continent := countryContinent[country];
        if continent !in countryEncoding || |countryEncoding[continent]| != |continents| then None
        else Some(countryEncoding[continent])
    }

    /** The continent column `i` of an encoded country is 1 exactly for its own continent. */
    lemma EncodeCountrySlot(country: string, i: nat)
      requires CountryValid() && country in countryContinent && i < |continents|
      ensures EncodeCountry(country).Some?
      ensures var v := EncodeCountry(country).value;
        v[IndexOf(continents, continents[i])] == (if countryContinent[country] == continents[i] then 1 else 0)
    {
      var continent := countryContinent[country];
      IndexOfDistinct(continents, i);
      var k := IndexOf(continents, continent);
      assert continents[k] == continent;
    }

    /** `np.sum([GENRE_ENCODING[g] for g in groups], axis=0)` for groups known to be encoded. */
    function SumGroupVectors(groups: seq<string>, n: nat): (v: Vector)
      requires forall g :: g in groups ==> g in genreEncoding && |genreEncoding[g]| == n
      ensures |v| == n
      decreases |groups|
    {
      if groups == [] then seq(n, _ => 0)
      else
        var rest := SumGroupVectors(groups[1..], n);
        seq(n, i requires 0 <= i < n => genreEncoding[groups[0]][i] + rest[i])
    }

    /**
     * With distinct groups whose vectors never share a 1, the sum is again a
     * 0/1 vector, and column `i` is 1 exactly when some group has a 1 there.
     */
    lemma {:induction false} SumOfDistinctGroups(groups: seq<string>, i: nat)
      requires GenreValid() && Distinct(groups) && i < |genres|
      requires forall g :: g in groups ==> g in genreEncoding
      ensures SumGroupVectors(groups, |genres|)[i] == 0 || SumGroupVectors(groups, |genres|)[i] == 1
      ensures SumGroupVectors(groups, |genres|)[i] == 1 <==>
        exists g :: g in groups && genreEncoding[g][i] == 1
      decreases |groups|
    {
      if groups != [] {
        var rest := groups[1..];
        assert Distinct(rest) by {
          forall a, b | 0 <= a < b < |rest| ensures rest[a] != rest[b] {
            assert rest[a] == groups[a + 1] && rest[b] == groups[b + 1];
          }
        }
        assert forall g :: g in rest ==> g in groups;
        SumOfDistinctGroups(rest, i);
        var g0 := groups[0];
        assert Indicator(genreEncoding[g0], |genres|);
        if genreEncoding[g0][i] == 1 {
          forall g | g in rest ensures genreEncoding[g][i] != 1 {
            var k :| 0 <= k < |rest| && rest[k] == g;
            assert groups[k + 1] == g;
            assert Indicator(genreEncoding[g], |genres|);
          }
        }
        assert forall g :: g in groups ==> g == g0 || g in rest;
      }
    }

    /**
     * The genre vector of a raw genre: None where the raw label or a group is
     * not in the tables (KeyError), where the group list is empty (the sum is
     * then a scalar that cannot be indexed), or where a vector is too short.
     */
    function EncodeGenre(raw: string): (r: Option<Vector>)
      ensures r.Some? ==> |r.value| == |genres|
      ensures GenreValid() ==> (r.Some? <==> raw in genreMapping)
    {
      if raw !in genreMapping then None
      else
        var groups := genreMapping[raw];
        if groups == [] ||
           exists g :: g in groups && (g !in genreEncoding || |genreEncoding[g]| != |genres|)
        then None
        else Some(SumGroupVectors(groups, |genres|))
    }

    /** The genre column `i` of an encoded raw genre is 1 exactly when one of its groups owns column `i`. */
    lemma EncodeGenreSlot(raw: string, i: nat)
      requires GenreValid() && raw in genreMapping && i < |genres|
      ensures EncodeGenre(raw).Some?
      ensures var v := EncodeGenre(raw).value;
        IndexOf(genres, genres[i]) == i &&
        (v[i] == 0 || v[i] == 1) &&
        (v[i] == 1 <==> exists g :: g in genreMapping[raw] && genreEncoding[g][i] == 1)
    {
      IndexOfDistinct(genres, i);
      var groups := genreMapping[raw];
      assert forall g :: g in groups ==> g in genreEncoding && Indicator(genreEncoding[g], |genres|);
      SumOfDistinctGroups(groups, i);
    }
  }

  // -----------------------------------------------------------------------
  // The source's tables (raw-label tables as an excerpt)
  // -----------------------------------------------------------------------

  const NORTH_AMERICA: string := "North America and Australia"
  const WESTERN_EUROPE: string := "Western Europe"
  const ASIA: string := "Asia"
  const AFRICA_MIDDLE_EAST: string := "Africa and Middle-East"
  const EASTERN_EUROPE: string := "Eastern Europe and Russia"
  const LATIN_AMERICA: string := "Central and South America"

  const CONTINENT_LIST: seq<string> :=
    [NORTH_AMERICA, WESTERN_EUROPE, ASIA, AFRICA_MIDDLE_EAST, EASTERN_EUROPE, LATIN_AMERICA]

  const COUNTRY_ENCODING: map<string, Vector> := map[
    NORTH_AMERICA      := [1, 0, 0, 0, 0, 0],
    WESTERN_EUROPE     := [0, 1, 0, 0, 0, 0],
    ASIA               := [0, 0, 1, 0, 0, 0],
    AFRICA_MIDDLE_EAST := [0, 0, 0, 1, 0, 0],
    EASTERN_EUROPE     := [0, 0, 0, 0, 1, 0],
    LATIN_AMERICA      := [0, 0, 0, 0, 0, 1]]

  /** An excerpt of COUNTRY_CONTINENT_MAPPING, including its 'crime' entry. */
  const COUNTRY_CONTINENT_MAPPING: map<string, string> := map[
    "australia"                := NORTH_AMERICA,
    "brazil"                   := LATIN_AMERICA,
    "crime"                    := EASTERN_EUROPE,
    "egypt"                    := AFRICA_MIDDLE_EAST,
    "france"                   := WESTERN_EUROPE,
    "india"                    := ASIA,
    "japan"                    := ASIA,
    "nigeria"                  := AFRICA_MIDDLE_EAST,
    "russia"                   := EASTERN_EUROPE,
    "united states of america" := NORTH_AMERICA]

  const GENRE_ENCODING: map<string, Vector> := map[
    "action"    := [1, 0, 0, 0, 0, 0, 0, 0, 0, 0, 0],
    "adventure" := [0, 1, 0, 0, 0, 0, 0, 0, 0, 0, 0],
    "comedy"    := [0, 0, 1, 0, 0, 0, 0, 0, 0, 0, 0],
    "drama"     := [0, 0, 0, 1, 0, 0, 0, 0, 0, 0, 0],
    "thriller"  := [0, 0, 0, 0, 1, 0, 0, 0, 0, 0, 0],
    "horror"    := [0, 0, 0, 0, 0, 1, 0, 0, 0, 0, 0],
    "animation" := [0, 0, 0, 0, 0, 0, 1, 0, 0, 0, 0],
    "family"    := [0, 0, 0, 0, 0, 0, 0, 1, 0, 0, 0],
    "adult"     := [0, 0, 0, 0, 0, 0, 0, 0, 1, 0, 0],
    "fantasy"   := [0, 0, 0, 0, 0, 0, 0, 0, 0, 1, 0],
    "genre"     := [0, 0, 0, 0, 0, 0, 0, 0, 0, 0, 1],
    "other"     := [0, 0, 0, 0, 0, 0, 0, 0, 0, 0, 0]]

  /** The genre column names; slot 7 is called "children" although its group is "family". */
  const GENRE_LIST: seq<string> :=
    ["action", "adventure", "comedy", "drama", "thriller", "horror",
     "animation", "children", "adult", "fantasy", "genre"]

  /** An excerpt of GENRE_MAPPING. */
  const GENRE_MAPPING: map<string, seq<string>> := map[
    "absurdism"               := ["comedy"],
    "action comedy"           := ["action", "comedy"],
    "adult"                   := ["adult"],
    "anthology"               := ["genre"],
    "children's fantasy"      := ["family", "fantasy"],
    "crime drama"             := ["thriller", "drama"],
    "documentary"             := ["other"],
    "science fiction western" := ["adventure", "fantasy", "action"]]

  const SOURCE_ENCODER: Encoder :=
    Encoder(COUNTRY_CONTINENT_MAPPING, COUNTRY_ENCODING, CONTINENT_LIST,
            GENRE_MAPPING, GENRE_ENCODING, GENRE_LIST)

  // -----------------------------------------------------------------------
  // The tables have the shape the aggregation relies on
  // -----------------------------------------------------------------------

  /** Each COUNTRY_ENCODING[c] is one-hot at CONTINENT_LIST.index(c). */
  lemma CountryEncodingIsOneHot()
    ensures Distinct(CONTINENT_LIST)
    ensures forall c :: c in COUNTRY_ENCODING ==>
      c in CONTINENT_LIST && OneHotAt(COUNTRY_ENCODING[c], 6, IndexOf(CONTINENT_LIST, c))
  {
    assert Distinct(CONTINENT_LIST);
    forall i | 0 <= i < 6
      ensures CONTINENT_LIST[i] in COUNTRY_ENCODING
      ensures OneHotAt(COUNTRY_ENCODING[CONTINENT_LIST[i]], 6, IndexOf(CONTINENT_LIST, CONTINENT_LIST[i]))
    {
      IndexOfDistinct(CONTINENT_LIST, i);
    }
    forall c | c in COUNTRY_ENCODING
      ensures c == CONTINENT_LIST[0] || c == CONTINENT_LIST[1] || c == CONTINENT_LIST[2] ||
              c == CONTINENT_LIST[3] || c == CONTINENT_LIST[4] || c == CONTINENT_LIST[5]
    {
    }
  }

  /** The group owning each genre column, in column order. */
  const GENRE_OWNER: seq<string> :=
    ["action", "adventure", "comedy", "drama", "thriller", "horror",
     "animation", "family", "adult", "fantasy", "genre"]

  /** Every group vector is a 0/1 vector, and a 1 in column i belongs to GENRE_OWNER[i]. */
  lemma GenreEncodingOwners()
    ensures forall g :: g in GENRE_ENCODING ==> Indicator(GENRE_ENCODING[g], 11)
    ensures forall g, i :: g in GENRE_ENCODING && 0 <= i < 11 && GENRE_ENCODING[g][i] == 1 ==>
      g == GENRE_OWNER[i]
  {
    forall g | g in GENRE_ENCODING
      ensures Indicator(GENRE_ENCODING[g], 11)
      ensures forall i :: 0 <= i < 11 && GENRE_ENCODING[g][i] == 1 ==> g == GENRE_OWNER[i]
    {
    }
  }

  /** Every raw genre of the excerpt lists distinct, encoded groups. */
  lemma GenreMappingShape()
    ensures forall raw :: raw in GENRE_MAPPING ==>
      |GENRE_MAPPING[raw]| > 0 && Distinct(GENRE_MAPPING[raw]) &&
      forall g :: g in GENRE_MAPPING[raw] ==> g in GENRE_ENCODING
  {
    forall raw | raw in GENRE_MAPPING
      ensures |GENRE_MAPPING[raw]| > 0 && Distinct(GENRE_MAPPING[raw])
      ensures forall g :: g in GENRE_MAPPING[raw] ==> g in GENRE_ENCODING
    {
    }
  }

  /** Every country of the excerpt maps to an encoded continent. */
  lemma CountryMappingShape()
    ensures forall c :: c in COUNTRY_CONTINENT_MAPPING ==> COUNTRY_CONTINENT_MAPPING[c] in COUNTRY_ENCODING
  {
  }

  /** No two groups own the same genre column. */
  lemma GenreEncodingDisjoint()
    ensures forall g, h, i ::
      (g in GENRE_ENCODING && h in GENRE_ENCODING && 0 <= i < 11 &&
       GENRE_ENCODING[g][i] == 1 && GENRE_ENCODING[h][i] == 1) ==> g == h
  {
    GenreEncodingOwners();
    forall g, h, i | g in GENRE_ENCODING && h in GENRE_ENCODING && 0 <= i < 11 &&
      GENRE_ENCODING[g][i] == 1 && GENRE_ENCODING[h][i] == 1
      ensures g == h
    {
      assert g == GENRE_OWNER[i] && h == GENRE_OWNER[i];
    }
  }

  lemma GenreListDistinct()
    ensures Distinct(GENRE_LIST)
  {
  }

  /** The excerpt tables satisfy the shape invariant. */
  lemma SourceEncoderValid()
    ensures SOURCE_ENCODER.Valid()
  {
    CountryEncodingIsOneHot();
    GenreEncodingOwners();
    GenreMappingShape();
    CountryMappingShape();
    GenreListDistinct();
    GenreEncodingDisjoint();
  }

  /** "other" encodes to the all-zero vector, so it sets no genre column. */
  lemma OtherEncodesToZero()
    ensures "other" in GENRE_ENCODING
    ensures forall i :: 0 <= i < |GENRE_LIST| ==> GENRE_ENCODING["other"][i] == 0
    ensures SOURCE_ENCODER.EncodeGenre("documentary") == Some(seq(11, _ => 0))
  {
    var e := SOURCE_ENCODER;
    assert ["other"][1..] == [];
    var v := e.SumGroupVectors(["other"], 11);
    assert forall i :: 0 <= i < 11 ==> v[i] == 0;
    assert v == seq(11, _ => 0);
  }

  /**
   * The "family" group owns slot 7, but the column list calls slot 7
   * "children": family membership ends up in a column named "children".
   */
  lemma FamilySlotIsNamedChildren()
    ensures GENRE_ENCODING["family"][7] == 1 && GENRE_LIST[7] == "children"
    ensures "family" !in GENRE_LIST && "children" !in GENRE_ENCODING
  {
  }

  /** 'crime' is listed as a country (of Eastern Europe) as well as being a genre. */
  lemma CrimeIsACountry()
    ensures SOURCE_ENCODER.EncodeCountry("crime") == Some(COUNTRY_ENCODING[EASTERN_EUROPE])
    ensures "crime" in COUNTRY_CONTINENT_MAPPING && "crime" !in COUNTRY_ENCODING
  {
  }
}
