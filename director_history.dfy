/**
 * The directing team's track record before a movie's release: the union of
 * the filmographies of everyone who directed the movie, restricted to movies
 * released strictly before it, summarised as (number of movies, best rating).
 */
module DirectorHistory {
  import opened Wrappers
  import opened Frames
  import opened Aggregation

  type DirectorId = int

  /** `SUCCESS_THRESHOLD`: a rating above this counts as a success. */
  const SUCCESS_THRESHOLD: real := 7.5

  /** `director_movies_mapping[d]`: the movies director `d` is credited on. */
  function Filmography(directed: seq<Link<DirectorId>>, d: DirectorId): (films: set<MovieId>)
    ensures forall k :: 0 <= k < |directed| && directed[k].key == d ==> directed[k].movie in films
    ensures forall x :: x in films ==>
      exists k :: 0 <= k < |directed| && directed[k].key == d && directed[k].movie == x
  {
    set k | 0 <= k < |directed| && directed[k].key == d :: directed[k].movie
  }

  /** Director `d` is credited on movie `m`. */
  ghost predicate Directs(directed: seq<Link<DirectorId>>, d: DirectorId, m: MovieId) {
    exists k :: 0 <= k < |directed| && directed[k].key == d && directed[k].movie == m
  }

  /** The team filmography of `m`: the union of its directors' filmographies. */
  function TeamFilmography(directed: seq<Link<DirectorId>>, m: MovieId): (films: set<MovieId>)
    ensures forall x :: x in films <==> exists d :: Directs(directed, d, m) && x in Filmography(directed, d)
  {
    var films := set k, i | 0 <= k < |directed| && 0 <= i < |directed| &&
                            directed[i].movie == m && directed[k].key == directed[i].key :: directed[k].movie;
    forall x | x in films ensures exists d :: Directs(directed, d, m) && x in Filmography(directed, d) {
      var k, i :| 0 <= k < |directed| && 0 <= i < |directed| &&
                  directed[i].movie == m && directed[k].key == directed[i].key && directed[k].movie == x;
      assert Directs(directed, directed[i].key, m);
    }
    forall x, d | Directs(directed, d, m) && x in Filmography(directed, d) ensures x in films {
      var i :| 0 <= i < |directed| && directed[i].key == d && directed[i].movie == m;
      var k :| 0 <= k < |directed| && directed[k].key == d && directed[k].movie == x;
      assert x == directed[k].movie;
    }
    films
  }

  /** A directed movie belongs to its own team filmography. */
  lemma OwnMovieInTeam(directed: seq<Link<DirectorId>>, m: MovieId)
    requires m in LinkedMovies(directed)
    ensures m in TeamFilmography(directed, m)
  {
    var i :| 0 <= i < |directed| && directed[i].movie == m;
    assert m in Filmography(directed, directed[i].key);
    assert Directs(directed, directed[i].key, m);
  }

  /** One movie of the history table: its id, its rating and its release date (None for NaN / NaT). */
  datatype Past = Past(movie: MovieId, rating: Option<real>, date: Option<Date>)

  /** The history rows counted for the set `films` before `cutoff`. */
  predicate Counted(p: Past, films: set<MovieId>, cutoff: Option<Date>) {
    p.movie in films && EarlierCell(p.date, cutoff)
  }

  /** Some row of `ps` has rating `r`. */
  ghost predicate RatingOccurs(ps: seq<Past>, r: real) {
    exists k :: 0 <= k < |ps| && ps[k].rating == Some(r)
  }

  /** `Series.max()`: the largest present rating; NaN (None) when every rating is missing. */
  function BestRating(ps: seq<Past>): (best: Option<real>)
    ensures best.None? <==> forall k :: 0 <= k < |ps| ==> ps[k].rating.None?
    ensures best.Some? ==> forall k :: 0 <= k < |ps| && ps[k].rating.Some? ==> ps[k].rating.value <= best.value
    ensures best.Some? ==> RatingOccurs(ps, best.value)
    decreases |ps|
  {
    if ps == [] then None
    else
      var rest := BestRating(ps[1..]);
      assert forall k :: 1 <= k < |ps| ==> ps[1..][k - 1] == ps[k];
      assert rest.Some? ==> RatingOccurs(ps, rest.value) by {
        if rest.Some? {
          var k :| 0 <= k < |ps[1..]| && ps[1..][k].rating == Some(rest.value);
          assert ps[k + 1].rating == Some(rest.value);
        }
      }
      assert ps[0].rating.Some? ==> RatingOccurs(ps, ps[0].rating.value) by {
        assert ps[0] == ps[0];
      }
      if ps[0].rating.None? then rest
      else if rest.None? || rest.value < ps[0].rating.value then ps[0].rating
      else rest
  }

  /**
   * `director_metrics_up_to_date`: the history rows whose movie is in
   * `films` and whose release date is strictly before `cutoff`, summarised
   * as their number and their best rating, or (0, None) when there are none.
   */
  function DirectorMetrics(history: seq<Past>, films: set<MovieId>, cutoff: Option<Date>): (r: (nat, Option<real>))
    ensures r.0 == 0 <==> forall k :: 0 <= k < |history| ==> !Counted(history[k], films, cutoff)
    ensures r.0 == 0 ==> r.1.None?
    ensures r.1.Some? ==> forall k ::
      (0 <= k < |history| && Counted(history[k], films, cutoff) && history[k].rating.Some?) ==>
        history[k].rating.value <= r.1.value
    ensures r.1.Some? ==> exists k ::
      (0 <= k < |history| && Counted(history[k], films, cutoff) && history[k].rating == r.1)
    ensures r.0 > 0 && r.1.None? ==> forall k :: 0 <= k < |history| && Counted(history[k], films, cutoff) ==>
      history[k].rating.None?
  {
    var counted := Filter(history, (p: Past) => Counted(p, films, cutoff));
    if |counted| == 0 then
      (0, None)
    else
      var best := BestRating(counted);
      assert counted[0] in history;
      forall k | 0 <= k < |history| && Counted(history[k], films, cutoff)
        ensures exists i :: 0 <= i < |counted| && counted[i] == history[k]
      {
        assert history[k] in counted;
      }
      assert best.Some? ==> exists k ::
        (0 <= k < |history| && Counted(history[k], films, cutoff) && history[k].rating == best) by {
        if best.Some? {
          var i :| 0 <= i < |counted| && counted[i].rating == Some(best.value);
          assert counted[i] in history;
        }
      }
      (|counted|, best)
  }

  /** The count is the number of counted history rows. */
  lemma MetricsCount(history: seq<Past>, films: set<MovieId>, cutoff: Option<Date>)
    ensures DirectorMetrics(history, films, cutoff).0 ==
      |Filter(history, (p: Past) => Counted(p, films, cutoff))|
  {
  }

  /** Both cutoffs are present and `early` is not after `late`. */
  predicate NotAfter(early: Option<Date>, late: Option<Date>) {
    early.Some? && late.Some? && !Earlier(late.value, early.value)
  }

  /** Moving the cutoff later never decreases the count. */
  lemma CountMonotone(history: seq<Past>, films: set<MovieId>, early: Option<Date>, late: Option<Date>)
    requires NotAfter(early, late)
    ensures DirectorMetrics(history, films, early).0 <= DirectorMetrics(history, films, late).0
  {
    var p := (x: Past) => Counted(x, films, early);
    var q := (x: Past) => Counted(x, films, late);
    assert forall k :: 0 <= k < |history| && p(history[k]) ==> q(history[k]);
    FilterLengthMonotone(history, p, q);
    MetricsCount(history, films, early);
    MetricsCount(history, films, late);
  }

  /**
   * The cutoff is strict: when the scored movie's own history rows carry its
   * release date, removing it from the team filmography changes nothing.
   */
  lemma OwnMovieNeverCounted(history: seq<Past>, films: set<MovieId>, m: MovieId, release: Option<Date>)
    requires forall k :: 0 <= k < |history| && history[k].movie == m ==> history[k].date == release
    ensures DirectorMetrics(history, films, release) == DirectorMetrics(history, films - {m}, release)
  {
    var p := (x: Past) => Counted(x, films, release);
    var q := (x: Past) => Counted(x, films - {m}, release);
    forall k | 0 <= k < |history| ensures p(history[k]) == q(history[k]) {
      if history[k].movie == m && history[k].date.Some? && release.Some? {
        assert !Earlier(release.value, release.value);
      }
    }
    FilterCongruent(history, p, q);
  }

  /** `combinned_movie_success`: 1 when the best rating exceeds the threshold; NaN compares false, giving 0. */
  function SuccessFlag(best: Cell): (flag: int)
    ensures flag == 0 || flag == 1
    ensures flag == 1 <==> exists x :: best == Some(Num(x)) && x > SUCCESS_THRESHOLD
  {
    match best
    case Some(Num(x)) => if x > SUCCESS_THRESHOLD then 1 else 0
    case _ => 0
  }

  // -----------------------------------------------------------------------
  // The history table drawn from the movie table
  // -----------------------------------------------------------------------

  /** A rating cell as a number (None for NaN). */
  function RatingOf(row: Row): (r: Option<real>)
    ensures r.Some? <==> exists x :: CellOf(row, "average_rating") == Some(Num(x))
  {
    match CellOf(row, "average_rating")
    case Some(Num(x)) => Some(x)
    case _ => None
  }

  /** A release-date cell as a date (None for NaT). */
  function DateOf(row: Row): (d: Option<Date>)
    ensures d.Some? <==> exists x :: CellOf(row, "release_date") == Some(Day(x))
  {
    match CellOf(row, "release_date")
    case Some(Day(x)) => Some(x)
    case _ => None
  }

  /** Every row of the table as a history row. */
  function Pasts(t: Table): (ps: seq<Past>)
    ensures |ps| == |t.rows|
    ensures forall k :: 0 <= k < |t.rows| ==> ps[k] == Past(t.rows[k].id, RatingOf(t.rows[k]), DateOf(t.rows[k]))
  {
    seq(|t.rows|, k requires 0 <= k < |t.rows| => Past(t.rows[k].id, RatingOf(t.rows[k]), DateOf(t.rows[k])))
  }

  /**
   * The history the metrics are computed over: the movies of the table that
   * have a director, with their rating and release date, in table order.
   * (Directed movies missing from the table would carry NaT and never count.)
   */
  function History(t: Table, directed: seq<Link<DirectorId>>): (h: seq<Past>)
    ensures |h| <= |t.rows|
    ensures forall k :: 0 <= k < |h| ==> h[k].movie in LinkedMovies(directed) && h[k] in Pasts(t)
  {
    Filter(Pasts(t), (p: Past) => p.movie in LinkedMovies(directed))
  }

  /** The metrics of one movie of the table: its team's record before its release date. */
  function MovieMetrics(t: Table, directed: seq<Link<DirectorId>>, row: Row): (r: (nat, Option<real>))
    ensures r.0 == 0 <==> forall k :: 0 <= k < |History(t, directed)| ==>
      !Counted(History(t, directed)[k], TeamFilmography(directed, row.id), DateOf(row))
  {
    DirectorMetrics(History(t, directed), TeamFilmography(directed, row.id), DateOf(row))
  }

  /**
   * With one row per movie id, a movie's own row is never in its history
   * count, although the movie is part of its team filmography.
   */
  lemma MovieMetricsExcludeSelf(t: Table, directed: seq<Link<DirectorId>>, i: nat)
    requires i < |t.rows| && t.rows[i].id in LinkedMovies(directed)
    requires forall a, b :: 0 <= a < b < |t.rows| ==> t.rows[a].id != t.rows[b].id
    ensures t.rows[i].id in TeamFilmography(directed, t.rows[i].id)
    ensures MovieMetrics(t, directed, t.rows[i]) ==
      DirectorMetrics(History(t, directed), TeamFilmography(directed, t.rows[i].id) - {t.rows[i].id},
                      DateOf(t.rows[i]))
  {
    var row := t.rows[i];
    OwnMovieInTeam(directed, row.id);
    var h := History(t, directed);
    forall k | 0 <= k < |h| && h[k].movie == row.id ensures h[k].date == DateOf(row) {
      var ps := Pasts(t);
      var a :| 0 <= a < |ps| && ps[a] == h[k];
      assert t.rows[a].id == row.id;
      assert a == i;
    }
    OwnMovieNeverCounted(h, TeamFilmography(directed, row.id), row.id, DateOf(row));
  }
}
