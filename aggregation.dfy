/**
 * The per-movie aggregation rules behind the raw regression table: relation
 * tables (movie -> country, movie -> actor, ...) are grouped by movie id and
 * reduced with `max` (membership flags and one-hot columns) or `count`; the
 * decade and the title length are derived from a movie's own row.
 */
module Aggregation {
  import opened Wrappers
  import opened Frames
  import opened Encoding

  /** One row of a relation table: a movie and the thing it is linked to. */
  datatype Link<K> = Link(movie: MovieId, key: K)

  /** The movie ids a relation table mentions (the groups of `groupby("movie_id")`). */
  function LinkedMovies<K>(links: seq<Link<K>>): (ms: set<MovieId>)
    ensures forall k :: 0 <= k < |links| ==> links[k].movie in ms
    ensures forall m :: m in ms ==> exists k :: 0 <= k < |links| && links[k].movie == m
  {
    set k | 0 <= k < |links| :: links[k].movie
  }

  // -----------------------------------------------------------------------
  // groupby(...).max()
  // -----------------------------------------------------------------------

  /** Some pair of `pairs` belongs to movie `m` and carries the value `v`. */
  ghost predicate Attained(pairs: seq<(MovieId, int)>, m: MovieId, v: int) {
    exists k :: 0 <= k < |pairs| && pairs[k].0 == m && pairs[k].1 == v
  }

  /**
   * `groupby("movie_id")[col].max()` on (movie id, value) pairs: one entry per
   * movie that has a pair, holding the largest of its values.
   */
  function GroupMax(pairs: seq<(MovieId, int)>): (g: map<MovieId, int>)
    ensures forall k :: 0 <= k < |pairs| ==> pairs[k].0 in g && pairs[k].1 <= g[pairs[k].0]
    ensures forall m :: m in g ==> Attained(pairs, m, g[m])
    decreases |pairs|
  {
    if pairs == [] then map[]
    else
      var rest := GroupMax(pairs[1..]);
      var m := pairs[0].0;
      var x := pairs[0].1;
      var g := if m in rest && x <= rest[m] then rest else rest[m := x];
      assert forall k :: 1 <= k < |pairs| ==> pairs[k] == pairs[1..][k - 1];
      assert forall n, v :: Attained(pairs[1..], n, v) ==> Attained(pairs, n, v) by {
        forall n, v | Attained(pairs[1..], n, v) ensures Attained(pairs, n, v) {
          var k :| 0 <= k < |pairs[1..]| && pairs[1..][k].0 == n && pairs[1..][k].1 == v;
          assert pairs[k + 1].0 == n && pairs[k + 1].1 == v;
        }
      }
      assert Attained(pairs, m, x) by { assert pairs[0].0 == m && pairs[0].1 == x; }
      g
  }

  /** A groupby max taken over 0/1 values is 1 exactly when some value of the movie is 1. */
  lemma MaxOfFlags(pairs: seq<(MovieId, int)>, m: MovieId)
    requires forall k :: 0 <= k < |pairs| ==> pairs[k].1 == 0 || pairs[k].1 == 1
    requires m in GroupMax(pairs)
    ensures GroupMax(pairs)[m] == 0 || GroupMax(pairs)[m] == 1
    ensures GroupMax(pairs)[m] == 1 <==> exists k :: 0 <= k < |pairs| && pairs[k].0 == m && pairs[k].1 == 1
  {
    var g := GroupMax(pairs);
    assert Attained(pairs, m, g[m]);
  }

  /** The keys of a groupby max are exactly the movies that have a pair. */
  lemma GroupMaxKeys(pairs: seq<(MovieId, int)>, m: MovieId)
    ensures m in GroupMax(pairs) <==> exists k :: 0 <= k < |pairs| && pairs[k].0 == m
  {
    if m in GroupMax(pairs) {
      assert Attained(pairs, m, GroupMax(pairs)[m]);
    }
  }

  // -----------------------------------------------------------------------
  // groupby(...).count()
  // -----------------------------------------------------------------------

  /** `groupby("movie_id")[col].count()`: the number of rows of each linked movie. */
  function GroupCount<K>(links: seq<Link<K>>): (g: map<MovieId, nat>)
    ensures g.Keys == LinkedMovies(links)
    ensures forall m :: m in g ==> 1 <= g[m] <= |links|
    decreases |links|
  {
    if links == [] then map[]
    else
      var rest := GroupCount(links[1..]);
      var m := links[0].movie;
      assert LinkedMovies(links) == LinkedMovies(links[1..]) + {m} by {
        assert forall k :: 1 <= k < |links| ==> links[k] == links[1..][k - 1];
        assert links[0].movie == m;
      }
      rest[m := (if m in rest then rest[m] else 0) + 1]
  }

  /** The count of a movie is the number of its rows, stated by filtering the relation. */
  lemma {:induction false} GroupCountIsFilterLength<K>(links: seq<Link<K>>, m: MovieId)
    ensures (m in GroupCount(links) ==> GroupCount(links)[m] == |Filter(links, (l: Link<K>) => l.movie == m)|)
    ensures (m !in GroupCount(links) ==> Filter(links, (l: Link<K>) => l.movie == m) == [])
    decreases |links|
  {
    if links != [] {
      GroupCountIsFilterLength(links[1..], m);
    }
  }

  // -----------------------------------------------------------------------
  // Membership flags: groupby max of a boolean, replaced by 1 / 0
  // -----------------------------------------------------------------------

  /** Each relation row as (movie, 1 if its key satisfies `p` else 0). */
  function FlagPairs<K>(links: seq<Link<K>>, p: K -> bool): (pairs: seq<(MovieId, int)>)
    ensures |pairs| == |links|
    ensures forall k :: 0 <= k < |links| ==>
      pairs[k].0 == links[k].movie && (pairs[k].1 == 1 <==> p(links[k].key)) &&
      (pairs[k].1 == 0 || pairs[k].1 == 1)
  {
    seq(|links|, k requires 0 <= k < |links| => (links[k].movie, if p(links[k].key) then 1 else 0))
  }

  /**
   * `has_famous_actor`, `has_common_language`, `has_common_character_name`:
   * for each linked movie, 1 iff one of its rows satisfies `p`, else 0.
   */
  function HasFlag<K>(links: seq<Link<K>>, p: K -> bool): (g: map<MovieId, int>)
    ensures forall m :: m in g <==> m in LinkedMovies(links)
    ensures forall m :: m in g ==> (g[m] == 0 || g[m] == 1)
    ensures forall m :: m in g ==>
      (g[m] == 1 <==> exists k :: 0 <= k < |links| && links[k].movie == m && p(links[k].key))
  {
    var pairs := FlagPairs(links, p);
    var g := GroupMax(pairs);
    forall m | m in g
      ensures (g[m] == 0 || g[m] == 1)
      ensures g[m] == 1 <==> exists k :: 0 <= k < |links| && links[k].movie == m && p(links[k].key)
    {
      MaxOfFlags(pairs, m);
    }
    forall m ensures m in g <==> m in LinkedMovies(links) {
      GroupMaxKeys(pairs, m);
    }
    g
  }

  // -----------------------------------------------------------------------
  // Continent and genre columns
  // -----------------------------------------------------------------------

  /** Every country row can be encoded (otherwise a lookup raises). */
  ghost predicate CountriesEncodable(e: Encoder, countries: seq<Link<string>>) {
    forall k :: 0 <= k < |countries| ==> e.EncodeCountry(countries[k].key).Some?
  }

  /** Every genre row can be encoded (otherwise a lookup or an index raises). */
  ghost predicate GenresEncodable(e: Encoder, genres: seq<Link<string>>) {
    forall k :: 0 <= k < |genres| ==> e.EncodeGenre(genres[k].key).Some?
  }

  /** The pairs (movie, slot `CONTINENT_LIST.index(continent)` of the country's vector). */
  function ContinentPairs(e: Encoder, countries: seq<Link<string>>, j: nat): (pairs: seq<(MovieId, int)>)
    requires CountriesEncodable(e, countries) && j < |e.continents|
    ensures |pairs| == |countries|
    ensures forall k :: 0 <= k < |countries| ==> pairs[k].0 == countries[k].movie
  {
    var slot := IndexOf(e.continents, e.continents[j]);
    seq(|countries|, k requires 0 <= k < |countries| =>
      (countries[k].movie, e.EncodeCountry(countries[k].key).value[slot]))
  }

  /** The continent column `e.continents[j]`: the groupby max of its slot. */
  function ContinentSeries(e: Encoder, countries: seq<Link<string>>, j: nat): (g: map<MovieId, int>)
    requires CountriesEncodable(e, countries) && j < |e.continents|
    ensures forall m :: m in g <==> m in LinkedMovies(countries)
  {
    var pairs := ContinentPairs(e, countries, j);
    forall m ensures m in GroupMax(pairs) <==> m in LinkedMovies(countries) {
      GroupMaxKeys(pairs, m);
    }
    GroupMax(pairs)
  }

  /**
   * A movie's continent column is 1 iff one of its countries maps to that
   * continent, and 0 otherwise; movies without a country row get no value.
   */
  lemma ContinentColumn(e: Encoder, countries: seq<Link<string>>, j: nat, m: MovieId)
    requires e.CountryValid() && CountriesEncodable(e, countries) && j < |e.continents|
    requires m in ContinentSeries(e, countries, j)
    ensures ContinentSeries(e, countries, j)[m] == 0 || ContinentSeries(e, countries, j)[m] == 1
    ensures ContinentSeries(e, countries, j)[m] == 1 <==>
      exists k :: 0 <= k < |countries| && countries[k].movie == m &&
                  e.countryContinent[countries[k].key] == e.continents[j]
  {
    var pairs := ContinentPairs(e, countries, j);
    ContinentPairSlots(e, countries, j);
    MaxOfFlags(pairs, m);
  }

  /** Each country row contributes 1 to its own continent's column and 0 to the others. */
  lemma ContinentPairSlots(e: Encoder, countries: seq<Link<string>>, j: nat)
    requires e.CountryValid() && CountriesEncodable(e, countries) && j < |e.continents|
    ensures forall k :: 0 <= k < |countries| ==>
      countries[k].key in e.countryContinent &&
      (ContinentPairs(e, countries, j)[k].1 == 0 || ContinentPairs(e, countries, j)[k].1 == 1) &&
      (ContinentPairs(e, countries, j)[k].1 == 1 <==> e.countryContinent[countries[k].key] == e.continents[j])
  {
    var pairs := ContinentPairs(e, countries, j);
    forall k | 0 <= k < |countries|
      ensures countries[k].key in e.countryContinent
      ensures pairs[k].1 == (if e.countryContinent[countries[k].key] == e.continents[j] then 1 else 0)
    {
      e.EncodeCountrySlot(countries[k].key, j);
    }
  }

  /** The pairs (movie, slot `GENRE_LIST.index(genre)` of the summed group vector). */
  function GenrePairs(e: Encoder, genres: seq<Link<string>>, j: nat): (pairs: seq<(MovieId, int)>)
    requires GenresEncodable(e, genres) && j < |e.genres|
    ensures |pairs| == |genres|
    ensures forall k :: 0 <= k < |genres| ==> pairs[k].0 == genres[k].movie
  {
    var slot := IndexOf(e.genres, e.genres[j]);
    seq(|genres|, k requires 0 <= k < |genres| =>
      (genres[k].movie, e.EncodeGenre(genres[k].key).value[slot]))
  }

  /** The genre column `e.genres[j]`: the groupby max of its slot. */
  function GenreSeries(e: Encoder, genres: seq<Link<string>>, j: nat): (g: map<MovieId, int>)
    requires GenresEncodable(e, genres) && j < |e.genres|
    ensures forall m :: m in g <==> m in LinkedMovies(genres)
  {
    var pairs := GenrePairs(e, genres, j);
    forall m ensures m in GroupMax(pairs) <==> m in LinkedMovies(genres) {
      GroupMaxKeys(pairs, m);
    }
    GroupMax(pairs)
  }

  /**
   * A movie's genre column is 1 iff one of its raw genres lists a group
   * owning that column, and 0 otherwise.
   */
  lemma GenreColumn(e: Encoder, genres: seq<Link<string>>, j: nat, m: MovieId)
    requires e.GenreValid() && GenresEncodable(e, genres) && j < |e.genres|
    requires m in GenreSeries(e, genres, j)
    ensures GenreSeries(e, genres, j)[m] == 0 || GenreSeries(e, genres, j)[m] == 1
    ensures GenreSeries(e, genres, j)[m] == 1 <==>
      exists k, g :: 0 <= k < |genres| && genres[k].movie == m &&
                     g in e.genreMapping[genres[k].key] && e.genreEncoding[g][j] == 1
  {
    var pairs := GenrePairs(e, genres, j);
    forall k | 0 <= k < |genres|
      ensures genres[k].key in e.genreMapping
      ensures pairs[k].1 == 0 || pairs[k].1 == 1
      ensures pairs[k].1 == 1 <==>
        exists g :: g in e.genreMapping[genres[k].key] && e.genreEncoding[g][j] == 1
    {
      e.EncodeGenreSlot(genres[k].key, j);
    }
    MaxOfFlags(pairs, m);
  }

  /** The integer series as cells, for assignment into the movie table. */
  function AsValues(g: map<MovieId, int>): (s: map<MovieId, Value>)
    ensures s.Keys == g.Keys
    ensures forall m :: m in g ==> s[m] == Num(g[m] as real)
  {
    map m | m in g :: Num(g[m] as real)
  }

  // -----------------------------------------------------------------------
  // Decade
  // -----------------------------------------------------------------------

  /** `y - y % 10` (Python's `%` agrees with Dafny's for the divisor 10). */
  function Decade(y: int): (d: int)
    ensures d % 10 == 0 && d <= y < d + 10
  {
    y - y % 10
  }

  /** The decade is the only multiple of ten within ten years below or at `y`. */
  lemma DecadeUnique(y: int, d: int)
    requires d % 10 == 0 && d <= y < d + 10
    ensures d == Decade(y)
  {
    var e := Decade(y);
    assert e % 10 == 0 && e <= y < e + 10;
    assert (d - e) % 10 == 0;
    assert -10 < d - e < 10;
  }

  /** The decade of a decade is itself. */
  lemma DecadeIdempotent(y: int)
    ensures Decade(Decade(y)) == Decade(y)
  {
    DecadeUnique(Decade(y), Decade(y));
  }

  // -----------------------------------------------------------------------
  // Title length: len(name.split())
  // -----------------------------------------------------------------------

  /** The characters Python's `str.isspace` accepts, which `str.split()` separates on. */
  predicate IsSpace(c: char) {
    || '\t' <= c <= '\r'              // tab, line feed, vertical tab, form feed, carriage return
    || '\U{001C}' <= c <= ' '             // the four separators U+001C..U+001F, and space
    || c == '\U{0085}' || c == '\U{00A0}' || c == '\U{1680}'
    || '\U{2000}' <= c <= '\U{200A}'
    || c == '\U{2028}' || c == '\U{2029}' || c == '\U{202F}' || c == '\U{205F}' || c == '\U{3000}'
  }

  ghost predicate IsWord(w: string) {
    |w| > 0 && forall i :: 0 <= i < |w| ==> !IsSpace(w[i])
  }

  /** The longest prefix of `s` without whitespace. */
  function LeadingWord(s: string): (w: string)
    ensures |w| <= |s| && w == s[..|w|]
    ensures forall i :: 0 <= i < |w| ==> !IsSpace(w[i])
    ensures |w| < |s| ==> IsSpace(s[|w|])
    decreases |s|
  {
    if s == [] || IsSpace(s[0]) then [] else [s[0]] + LeadingWord(s[1..])
  }

  /** `str.split()` with no separator: the maximal runs of non-whitespace. */
  function Words(s: string): (ws: seq<string>)
    ensures forall k :: 0 <= k < |ws| ==> IsWord(ws[k])
    decreases |s|
  {
    if s == [] then []
    else if IsSpace(s[0]) then Words(s[1..])
    else
      var w := LeadingWord(s);
      [w] + Words(s[|w|..])
  }

  /** `title_length`: the number of whitespace-separated words of the title. */
  function TitleLength(name: string): (n: nat)
    ensures n <= |name|
  {
    WordsBound(name);
    |Words(name)|
  }

  lemma {:induction false} WordsBound(s: string)
    ensures |Words(s)| <= |s|
    decreases |s|
  {
    if s != [] {
      if IsSpace(s[0]) {
        WordsBound(s[1..]);
      } else {
        WordsBound(s[|LeadingWord(s)|..]);
      }
    }
  }

  /** A title without any non-whitespace character has length 0. */
  lemma {:induction false} BlankTitleHasNoWords(s: string)
    ensures |Words(s)| == 0 <==> forall i :: 0 <= i < |s| ==> IsSpace(s[i])
    decreases |s|
  {
    if s != [] {
      if IsSpace(s[0]) {
        BlankTitleHasNoWords(s[1..]);
        assert forall i :: 1 <= i < |s| ==> s[i] == s[1..][i - 1];
      }
    }
  }

  /** Words joined by single spaces. */
  function JoinWords(ws: seq<string>): (s: string)
    decreases |ws|
  {
    if ws == [] then []
    else if |ws| == 1 then ws[0]
    else ws[0] + " " + JoinWords(ws[1..])
  }

  lemma {:induction false} LeadingWordOf(w: string, rest: string)
    requires IsWord(w)
    requires rest == [] || IsSpace(rest[0])
    ensures LeadingWord(w + rest) == w
    decreases |w|
  {
    if |w| > 1 {
      assert (w + rest)[1..] == w[1..] + rest;
      LeadingWordOf(w[1..], rest);
    } else {
      assert (w + rest)[1..] == rest;
    }
  }

  /** Splitting words joined by single spaces gives back the words. */
  lemma {:induction false} WordsOfJoin(ws: seq<string>)
    requires forall k :: 0 <= k < |ws| ==> IsWord(ws[k])
    ensures Words(JoinWords(ws)) == ws
    decreases |ws|
  {
    if ws == [] {
    } else if |ws| == 1 {
      LeadingWordOf(ws[0], []);
      assert ws[0] + [] == ws[0];
      assert ws[0][|ws[0]|..] == [];
    } else {
      var s := JoinWords(ws);
      var tail := " " + JoinWords(ws[1..]);
      assert s == ws[0] + tail;
      LeadingWordOf(ws[0], tail);
      assert s[|ws[0]|..] == tail;
      assert tail[1..] == JoinWords(ws[1..]);
      WordsOfJoin(ws[1..]);
      assert Words(tail) == Words(JoinWords(ws[1..]));
      assert Words(s) == [ws[0]] + ws[1..];
    }
  }
}
