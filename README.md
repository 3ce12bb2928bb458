# Movie regression features: a Dafny model

This project models the feature-engineering and regression-preparation core
of a movie-success analysis written in Python with pandas. It covers:

- `src/features_engineering/feature_and_regression.py`:
  - the category encoding tables (country, continent and one-hot vector; raw genre, genre groups and summed indicator vector);
  - `get_raw_regression_df`, which builds the raw regression table column by column;
  - `director_metrics_up_to_date`, the directing team's record before a release date;
  - `process_dataframe` and `format_regression_df`, which select columns and rows, add log columns, standardize, and derive the raw and binary targets;
  - `select_next_feature` and `forward_selection`, greedy forward selection;
  - `create_VIF_dataframe` and `filter_multicolinearity`, the pruning of multicollinear columns.
- `src/utils/data_load.py`:
  - `dtypes_map`;
  - `parse_imdb_list`;
  - the cleaning applied to freshly read tables (the release-date typo, `fillna(0)`, invalid runtimes).

A DataFrame is a value, `Frames.Table`: an ordered list of distinct column labels and a list of rows. Each row has an index label (a movie id) and one cell per column. A cell is `Option<Value>`, where `None` is NaN/NaT. Exceptions are a `Result` with `KeyError`, `AssertionError`, `ValueError` or `AttributeError`.

The statistics are parameters of the model:

- R-squared and p-values of an OLS fit (`Selection.Rsquared`, `Selection.PValue`);
- the variance inflation factor (`Selection.Vif`);
- `np.log`;
- the per-column z-score (`Processing.Standardizer`).

The relation tables are sequences of (movie, key) links. The percentile and top-K choices arrive as given sets.

The code mutates state in three places, and each becomes imperative Dafny:

- The parameter dictionary that `format_regression_df` writes into is a class, `Processing.Parameters`.
- The binary target is thresholded in place in an `array` (`Processing.ThresholdInPlace`).
- The cleaning rules of the loaders update arrays in place (`DataLoad.FixReleaseDates`, `DataLoad.FillMissing`).

The loops become methods with invariants, proved against recursive specification functions:

- `forward_selection`, `filter_multicolinearity`;
- the log and standardize loops of `process_dataframe`;
- the column-by-column build of `get_raw_regression_df`.

The model reproduces these quirks of the code, each stated as a lemma or contract:

- `GENRE_LIST` calls slot 7 "children" while its group is "family" (`Encoding.FamilySlotIsNamedChildren`).
- 'crime' is listed as a country (`Encoding.CrimeIsACountry`).
- "other" encodes to the zero vector (`Encoding.OtherEncodesToZero`).
- `forward_selection` bounds its loop by the number of rows, not columns (`Selection.ForwardSelection`).
- A column literally named "None" is read as the stop value (`Selection.SelectNextFeature`, `Selection.ForwardSelection`).
- `format_regression_df` overwrites the caller's `decades` entry; with the default argument that is the shared `DEFAULT_PARAMETERS` (`Processing.FormatRegression`).
- The two-pass binary target is the indicator of `rating >= threshold` only for a positive threshold (`Processing.BinaryTargetMeaning`, `Processing.BinaryTargetNonPositive`).

Where the code and its description disagree, the model follows the code. A movie with no country row gets NaN in every continent column, not 0. The reason is that the groupby result is aligned on the movie index (`RawTableFacts.RawContinentCell`). The same holds for the genre columns and for every count and flag column, with one exception. `combinned_movie_success` is 0, not NaN, for a movie without a director or without earlier films, because `NaN > 7.5` is false (`RawTableFacts.RawSuccessCell`).

## Model

| member | source | states |
|---|---|---|
| Aggregation.LinkedMovies | src/features_engineering/feature_and_regression.py:801 | the groups of `groupby("movie_id")` are exactly the movies the relation mentions |
| Aggregation.GroupMax | src/features_engineering/feature_and_regression.py:801 | one entry per linked movie, at least every value of the movie and equal to one of them |
| Aggregation.MaxOfFlags | src/features_engineering/feature_and_regression.py:814-815 | a max over 0/1 values is 0/1, and is 1 iff some row of the movie has 1 |
| Aggregation.GroupMaxKeys | src/features_engineering/feature_and_regression.py:801 | a movie has a max iff it has a row |
| Aggregation.GroupCount | src/features_engineering/feature_and_regression.py:811 | the keys are the linked movies; each count is between 1 and the relation size |
| Aggregation.GroupCountIsFilterLength | src/features_engineering/feature_and_regression.py:811 | the count of a movie is the number of its rows; a movie without rows has none |
| Aggregation.FlagPairs | src/features_engineering/feature_and_regression.py:810 | each relation row as (movie, 1 iff its key satisfies the predicate) |
| Aggregation.HasFlag | src/features_engineering/feature_and_regression.py:810-815 | `has_X` flags: defined exactly for linked movies, 0/1, 1 iff one of the movie's rows satisfies the predicate |
| Aggregation.ContinentPairs | src/features_engineering/feature_and_regression.py:798-800 | each country row paired with slot `CONTINENT_LIST.index(continent)` of its vector |
| Aggregation.ContinentSeries | src/features_engineering/feature_and_regression.py:801 | the groupby max of that slot is defined exactly for the movies with a country row |
| Aggregation.ContinentColumn | src/features_engineering/feature_and_regression.py:794-801 | a continent column is 0/1, and is 1 iff some country of the movie maps to that continent |
| Aggregation.ContinentPairSlots | src/features_engineering/feature_and_regression.py:796-800 | each country row contributes 1 to its own continent's slot and 0 to the others |
| Aggregation.GenrePairs | src/features_engineering/feature_and_regression.py:821-823 | each genre row paired with slot `GENRE_LIST.index(genre)` of its summed vector |
| Aggregation.GenreSeries | src/features_engineering/feature_and_regression.py:824 | the groupby max of that slot is defined exactly for the movies with a genre row |
| Aggregation.GenreColumn | src/features_engineering/feature_and_regression.py:818-824 | a genre column is 0/1, and is 1 iff some raw genre of the movie lists a group owning that slot |
| Aggregation.AsValues | src/features_engineering/feature_and_regression.py:801 | definition: an integer series as numeric cells, with the same keys; meaning in ContinentColumn, GenreColumn and the RawTableFacts cell lemmas |
| Aggregation.Decade | src/features_engineering/feature_and_regression.py:846 | `y - y % 10` is a multiple of 10 with `d <= y < d + 10` |
| Aggregation.DecadeUnique | src/features_engineering/feature_and_regression.py:846 | the decade is the only such multiple of 10 |
| Aggregation.DecadeIdempotent | src/features_engineering/feature_and_regression.py:846 | the decade of a decade is itself |
| Aggregation.LeadingWord | src/features_engineering/feature_and_regression.py:848 | the longest whitespace-free prefix, followed by whitespace or the end |
| Aggregation.Words | src/features_engineering/feature_and_regression.py:848 | `str.split()`: every part is a non-empty, whitespace-free word |
| Aggregation.TitleLength | src/features_engineering/feature_and_regression.py:848 | the word count is at most the title length |
| Aggregation.WordsBound | src/features_engineering/feature_and_regression.py:848 | a string has no more words than characters |
| Aggregation.BlankTitleHasNoWords | src/features_engineering/feature_and_regression.py:848 | the title length is 0 iff the title is all whitespace |
| Aggregation.LeadingWordOf | src/features_engineering/feature_and_regression.py:848 | a word followed by whitespace or the end is the leading word |
| Aggregation.WordsOfJoin | src/features_engineering/feature_and_regression.py:848 | splitting words joined by single spaces gives the words back |
| Encoding.IndexOf | src/features_engineering/feature_and_regression.py:800 | `list.index`: the first position holding the element |
| Encoding.IndexOfDistinct | src/features_engineering/feature_and_regression.py:823 | in a list without repeats, `index` inverts indexing |
| Encoding.Encoder.EncodeCountry | src/features_engineering/feature_and_regression.py:794-797 | the continent vector of a country; under the table shape it exists iff the country is in the mapping |
| Encoding.Encoder.EncodeCountrySlot | src/features_engineering/feature_and_regression.py:796-800 | slot `index(continent)` of a country's vector is 1 exactly for its own continent |
| Encoding.Encoder.SumGroupVectors | src/features_engineering/feature_and_regression.py:819-820 | the axis-0 sum of the group vectors has the column count as length |
| Encoding.Encoder.SumOfDistinctGroups | src/features_engineering/feature_and_regression.py:819-820 | for distinct groups with disjoint 1s, the sum is 0/1 and slot i is 1 iff some group has a 1 there |
| Encoding.Encoder.EncodeGenre | src/features_engineering/feature_and_regression.py:818-820 | the summed vector of a raw genre; under the table shape it exists iff the raw genre is in the mapping |
| Encoding.Encoder.EncodeGenreSlot | src/features_engineering/feature_and_regression.py:818-823 | slot i of an encoded raw genre is 0/1, and is 1 iff one of its groups owns slot i |
| Encoding.CountryEncodingIsOneHot | src/features_engineering/feature_and_regression.py:138-149 | each `COUNTRY_ENCODING[c]` has a single 1, at `CONTINENT_LIST.index(c)` |
| Encoding.GenreEncodingOwners | src/features_engineering/feature_and_regression.py:506-519 | every group vector is 0/1, and a 1 in slot i belongs to that slot's owner group |
| Encoding.GenreMappingShape | src/features_engineering/feature_and_regression.py:151-446 | every raw genre of the excerpt lists distinct, encoded groups |
| Encoding.CountryMappingShape | src/features_engineering/feature_and_regression.py:16-128 | every country of the excerpt maps to an encoded continent |
| Encoding.GenreEncodingDisjoint | src/features_engineering/feature_and_regression.py:506-519 | no two groups share a 1 |
| Encoding.GenreListDistinct | src/features_engineering/feature_and_regression.py:521-522 | the genre column names are distinct |
| Encoding.SourceEncoderValid | src/features_engineering/feature_and_regression.py:138-149 | the tables satisfy the shape the aggregation relies on |
| Encoding.OtherEncodesToZero | src/features_engineering/feature_and_regression.py:518 | "other" is the zero vector, so "documentary" sets no genre column |
| Encoding.FamilySlotIsNamedChildren | src/features_engineering/feature_and_regression.py:514-522 | the "family" slot 7 is named "children"; neither name appears in the other table |
| Encoding.CrimeIsACountry | src/features_engineering/feature_and_regression.py:45 | 'crime' is a country of Eastern Europe and encodes as one |
| DirectorHistory.Filmography | src/features_engineering/feature_and_regression.py:850 | the movies of a director are exactly those it is credited on |
| DirectorHistory.TeamFilmography | src/features_engineering/feature_and_regression.py:852-857 | the union of the filmographies of the movie's directors |
| DirectorHistory.OwnMovieInTeam | src/features_engineering/feature_and_regression.py:852-857 | a directed movie is in its own team filmography |
| DirectorHistory.BestRating | src/features_engineering/feature_and_regression.py:577 | `max()` skips NaN: None iff every rating is missing, else at least each rating and equal to one |
| DirectorHistory.DirectorMetrics | src/features_engineering/feature_and_regression.py:572-578 | count 0 iff no film of the set is strictly before the cutoff, and then None; the best rating is the largest counted rating and is attained |
| DirectorHistory.MetricsCount | src/features_engineering/feature_and_regression.py:574 | the count is the number of counted history rows |
| DirectorHistory.CountMonotone | src/features_engineering/feature_and_regression.py:573-574 | a later cutoff never gives a smaller count |
| DirectorHistory.OwnMovieNeverCounted | src/features_engineering/feature_and_regression.py:573 | with the strict cutoff, removing the scored movie from the set changes nothing |
| DirectorHistory.SuccessFlag | src/features_engineering/feature_and_regression.py:869-871 | 0/1, and 1 iff the best rating is a number above 7.5 (NaN gives 0) |
| DirectorHistory.RatingOf | src/features_engineering/feature_and_regression.py:861 | the rating is present iff the cell is a number |
| DirectorHistory.DateOf | src/features_engineering/feature_and_regression.py:861 | the date is present iff the cell is a timestamp |
| DirectorHistory.Pasts | src/features_engineering/feature_and_regression.py:860-861 | definition: each movie row as (id, rating, release date); meaning in MovieMetrics and RawTableFacts.RawDirectorCells |
| DirectorHistory.History | src/features_engineering/feature_and_regression.py:855-861 | the directed movies of the table, in table order |
| DirectorHistory.MovieMetrics | src/features_engineering/feature_and_regression.py:864-865 | a movie's count is 0 iff no history row of its team precedes its release |
| DirectorHistory.MovieMetricsExcludeSelf | src/features_engineering/feature_and_regression.py:853-865 | the movie is in its team filmography, yet its metrics are those of the set without it |
| Frames.Ids | src/features_engineering/feature_and_regression.py:609 | definition: the index labels of the rows, in order; meaning in FilterIdsSubseq and the Ids clauses of DropColumns and FilterRows |
| Frames.ColumnCells | src/features_engineering/feature_and_regression.py:752 | definition: `df[c]`, the cells of one column, top to bottom; meaning in Processing.FormattedMeaning |
| Frames.Filter | src/features_engineering/feature_and_regression.py:614-615 | boolean indexing keeps exactly the satisfying elements, in order |
| Frames.FilterIdsSubseq | src/features_engineering/feature_and_regression.py:614-621 | filtering rows keeps an order-preserving subset of the index |
| Frames.FilterSubseq | src/features_engineering/feature_and_regression.py:729 | a filter is an order-preserving subset |
| Frames.FilterShorter | src/features_engineering/feature_and_regression.py:729 | filtering out an element that is present makes the list shorter |
| Frames.FilterRemoveAt | src/features_engineering/feature_and_regression.py:729 | dropping one label of distinct columns removes exactly its position |
| Frames.FirstMissing | src/features_engineering/feature_and_regression.py:611 | the first label that is not a column, or None iff every label is a column |
| Frames.DropColumns | src/features_engineering/feature_and_regression.py:611 | `drop(axis=1)`: KeyError iff a label is missing; otherwise the other columns in order, the same rows and their cells |
| Frames.WithColumn | src/features_engineering/feature_and_regression.py:624 | `df[name] = values`: overwrites in place or appends; sets the new cells and keeps every other cell |
| Frames.AssignSeries | src/features_engineering/feature_and_regression.py:801 | `df[name] = series`: aligned on the index, NaN where the series has no entry, all else unchanged |
| Frames.Aligned | src/features_engineering/feature_and_regression.py:801 | the aligned cell is present iff the series has the movie |
| Frames.AddLabels | src/features_engineering/feature_and_regression.py:792-871 | the columns after a sequence of assignments are the old ones plus the new names |
| Frames.FilterRows | src/features_engineering/feature_and_regression.py:614-619 | keeping rows keeps the columns; the rows are the filter of the rows |
| Frames.Step | src/features_engineering/feature_and_regression.py:792-871 | one more correct column assignment extends the build invariant |
| Frames.Untouched | src/features_engineering/feature_and_regression.py:792-871 | a column the build did not assign reads as in the start table |
| Frames.AssignSeriesColumns | src/features_engineering/feature_and_regression.py:798-801 | assigning one aligned series per name, in loop order, extends the build invariant by those names |
| Processing.Parameters.Default | src/features_engineering/feature_and_regression.py:534-542 | the fields of `DEFAULT_PARAMETERS` |
| Processing.DecadeFilter | src/features_engineering/feature_and_regression.py:613-615 | KeyError("decade") iff decades are given and there is no decade column; kept rows are exactly the rows of a listed decade, in order; no decades keeps all |
| Processing.NanFilter | src/features_engineering/feature_and_regression.py:617-621 | KeyError iff an explicit subset names a missing column; kept rows are exactly those with no missing cell in the filtered columns (all columns for "all"), in order |
| Processing.Selected | src/features_engineering/feature_and_regression.py:611-621 | definition of the drop, decade and NaN steps, in order; the result is a well-formed table; meaning in SelectedMeaning and SelectedFailure |
| Processing.SelectedMeaning | src/features_engineering/feature_and_regression.py:609-621 | drop, then decades, then NaN: columns without the dropped ones, an ordered row subset, only listed decades, no missing values; no filters keeps every row |
| Processing.SelectedFailure | src/features_engineering/feature_and_regression.py:611-621 | the selection raises iff a dropped label is missing, or the decade column is missing or dropped, or a NaN-subset column is missing or dropped |
| Processing.LogNameInjective | src/features_engineering/feature_and_regression.py:624 | distinct columns get distinct `log_` names |
| Processing.LogStep | src/features_engineering/feature_and_regression.py:624 | KeyError iff the column is missing; otherwise `log_c` holds the log of each cell and nothing else changes |
| Processing.LogColumns | src/features_engineering/feature_and_regression.py:623-624 | all listed columns present implies success; keeps every column and every cell outside the log columns |
| Processing.LogColumnsMeaning | src/features_engineering/feature_and_regression.py:623-624 | with no `log_` name overwriting a listed column: success iff every listed column exists, and `log_c` holds the log of the original cell of c |
| Processing.StandardizeStep | src/features_engineering/feature_and_regression.py:580-589 | `standardize_column`: KeyError iff the column is missing; otherwise the column holds the z-scores of its cells and nothing else changes |
| Processing.StandardizeColumns | src/features_engineering/feature_and_regression.py:626-627 | success iff every listed column exists; the columns stay and no other cell changes |
| Processing.StandardizeColumnsMeaning | src/features_engineering/feature_and_regression.py:626-627 | each listed column (listed once) holds the z-scores of its original cells |
| Processing.Processed | src/features_engineering/feature_and_regression.py:609-628 | definition of `process_dataframe`: the selection, then the log columns, then standardization; the result is a well-formed table; meaning in ProcessedKeepsSelection |
| Processing.ProcessedKeepsSelection | src/features_engineering/feature_and_regression.py:609-627 | the processed table has the selected rows in order, every selected cell outside the log and standardized columns, and no dropped column except a re-added `log_` one |
| Processing.ProcessDataframe | src/features_engineering/feature_and_regression.py:591-628 | the in-order steps compute `Processed` |
| Processing.AddLogColumns | src/features_engineering/feature_and_regression.py:623-624 | the log loop computes `LogColumns` |
| Processing.StandardizeAll | src/features_engineering/feature_and_regression.py:626-627 | the standardize loop computes `StandardizeColumns` |
| Processing.LogColumnsSticky | src/features_engineering/feature_and_regression.py:623-624 | the first error of the log loop is its result |
| Processing.StandardizeColumnsSticky | src/features_engineering/feature_and_regression.py:626-627 | the first error of the standardize loop is its result |
| Processing.BinaryTarget | src/features_engineering/feature_and_regression.py:753-757 | definition: the target cell by cell, with the target's length; meaning in BinaryTargetMeaning and BinaryTargetNonPositive |
| Processing.BinaryTargetMeaning | src/features_engineering/feature_and_regression.py:753-757 | for threshold > 0: 1 iff rating >= threshold, else 0, flipped for bad movies; NaN stays NaN |
| Processing.BinaryTargetNonPositive | src/features_engineering/feature_and_regression.py:754-755 | for threshold <= 0 every rating gets 1 (0 for bad movies), even one below the threshold |
| Processing.ThresholdInPlace | src/features_engineering/feature_and_regression.py:753-757 | the two in-place passes and the flip leave the array equal to `BinaryTarget` of its old contents |
| Processing.Formatted | src/features_engineering/feature_and_regression.py:750-761 | definition of `format_regression_df`: a success reads `average_rating` and `num_votes` from the processed table, the target is its rating column and the binary target is derived from it; meaning in FormattedMeaning |
| Processing.FormattedMeaning | src/features_engineering/feature_and_regression.py:750-760 | the targets are aligned with the returned rows, the binary target is derived from the raw one, no post-drop column remains, every VIF <= 5 |
| Processing.FormatRegression | src/features_engineering/feature_and_regression.py:734-761 | writes `decades` into the parameters and nothing else there, and returns `Formatted` |
| Selection.SelectNextFeature | src/features_engineering/feature_and_regression.py:630-669 | "None" when no column is admissible; otherwise an admissible column with maximal R-squared |
| Selection.ForwardSelection | src/features_engineering/feature_and_regression.py:671-696 | duplicate-free, disjoint from ignored, never "None", each element the best given its prefix; the length is bounded by the ROW count; stopping early means nothing admissible remains, or the column named "None" is the best |
| Selection.Appended | src/features_engineering/feature_and_regression.py:694-695 | appending a best feature keeps the list duplicate-free and greedy |
| Selection.VifValues | src/features_engineering/feature_and_regression.py:698-711 | definition: one VIF per column, in column order; meaning in PruneColumns and FilterMulticolinearity |
| Selection.Exceeding | src/features_engineering/feature_and_regression.py:725 | the count of VIFs above the threshold is 0 iff all are at most the threshold |
| Selection.ArgMax | src/features_engineering/feature_and_regression.py:727-728 | `argmax`: a maximal position, and the first such |
| Selection.Worst | src/features_engineering/feature_and_regression.py:727-728 | the dropped predictor is a column of the table |
| Selection.PruneColumns | src/features_engineering/feature_and_regression.py:723-732 | no remaining VIF exceeds the threshold; the columns are an ordered subset; rows and kept cells unchanged |
| Selection.PruneDropsWorst | src/features_engineering/feature_and_regression.py:726-731 | each step removes exactly one column, the first holding the largest VIF |
| Selection.FilterMulticolinearity | src/features_engineering/feature_and_regression.py:713-732 | the loop returns `PruneColumns` of its input and the VIFs of the result, all at most the threshold |
| RawTable.DecadeCell | src/features_engineering/feature_and_regression.py:846 | NaN for NaT; otherwise a multiple of 10 within ten years at or below the release year (any other cell raises first, see RaisedError) |
| RawTable.TitleCell | src/features_engineering/feature_and_regression.py:848 | a string title always gets a length |
| RawTable.MetricsNum | src/features_engineering/feature_and_regression.py:866 | present iff the movie has a director (the merge leaves the others NaN) |
| RawTable.MetricsBest | src/features_engineering/feature_and_regression.py:867 | present only for directed movies |
| RawTable.FamousFlags | src/features_engineering/feature_and_regression.py:810-815 | 1 iff one of the movie's actors is famous |
| RawTable.CommonLanguageFlags | src/features_engineering/feature_and_regression.py:830-832 | 1 iff one of the movie's languages is a top language |
| RawTable.CommonCharacterFlags | src/features_engineering/feature_and_regression.py:838-844 | 1 iff one of the movie's characters bears a common name |
| RawTable.ContinentFeatureValues | src/features_engineering/feature_and_regression.py:798-801 | the prescribed cell of continent column j is the aligned j-th continent series |
| RawTable.AddCountryFeatures | src/features_engineering/feature_and_regression.py:793-801 | the country block appends the continent columns with their prescribed cells |
| RawTable.AssignFeature | src/features_engineering/feature_and_regression.py:811-814 | assigning an aligned series whose cells are prescribed extends the build |
| RawTable.ActorFeatureValues | src/features_engineering/feature_and_regression.py:811-815 | the prescribed actor cells: count, given means, famous flag |
| RawTable.AddActorFeatures | src/features_engineering/feature_and_regression.py:803-815 | the actor block appends its four columns with their prescribed cells |
| RawTable.GenreFeatureValues | src/features_engineering/feature_and_regression.py:821-825 | the prescribed genre cells and the genre count |
| RawTable.AddGenreFeatures | src/features_engineering/feature_and_regression.py:817-825 | the genre block appends the genre columns, then `genre_number` |
| RawTable.FlagFeatureValues | src/features_engineering/feature_and_regression.py:827-844 | the prescribed language and character cells |
| RawTable.AddLanguageFeatures | src/features_engineering/feature_and_regression.py:827-833 | the language block appends its flag and its count |
| RawTable.AddCharacterFeatures | src/features_engineering/feature_and_regression.py:835-844 | the character block appends its flag and its count |
| RawTable.RowFeatureValues | src/features_engineering/feature_and_regression.py:846-848 | the prescribed decade and title-length cells |
| RawTable.AddRowFeatures | src/features_engineering/feature_and_regression.py:846-848 | decade and title length are read from the row's own, never overwritten, date and name |
| RawTable.DirectorFeatureValues | src/features_engineering/feature_and_regression.py:850-871 | the prescribed director cells |
| RawTable.AddDirectorFeatures | src/features_engineering/feature_and_regression.py:850-871 | the director block appends its four columns |
| RawTable.AddDirectorHistory | src/features_engineering/feature_and_regression.py:860-867 | metrics computed on the table as it stands equal those of the movie table |
| RawTable.AddSuccessFlag | src/features_engineering/feature_and_regression.py:869-871 | the success flag is read from the best-rating column already assigned |
| RawTable.TruncateToInt | src/features_engineering/feature_and_regression.py:791 | the cast truncates toward zero |
| RawTable.CastVotes | src/features_engineering/feature_and_regression.py:791 | a numeric vote count becomes its truncation |
| RawTable.Feature | src/features_engineering/feature_and_regression.py:792-871 | the cell each feature column gets in each row; only feature names get a cell |
| RawTable.Prepared | src/features_engineering/feature_and_regression.py:790-791 | the drop and the vote cast: a success has `num_votes`, neither dropped column, and the input's index |
| RawTable.RaisedError | src/features_engineering/feature_and_regression.py:790-861 | the exception raised first, in statement order; None only if the drop and cast succeed and `release_date`, `name` and `average_rating` exist |
| RawTable.ReadError | src/features_engineering/feature_and_regression.py:846-861 | None iff `release_date` exists, every release date is a timestamp or NaT, `name` exists, every title is a string, and `average_rating` exists; otherwise the first of those to fail |
| RawTable.FirstUnknown | src/features_engineering/feature_and_regression.py:794-795 | None iff every key is known; otherwise the first unknown key in row order |
| RawTable.GetRawRegressionTable | src/features_engineering/feature_and_regression.py:765-872 | on failure, the exception the statements raise first; on success, the prepared table is extended by every feature column in source order, each cell as prescribed |
| RawTable.BuildFeatures | src/features_engineering/feature_and_regression.py:792-871 | the blocks in source order assign every feature name |
| RawTableFacts.SourceEncoderNamesOk | src/features_engineering/feature_and_regression.py:147-149 | the source's continent and genre names do not clash with each other or with the fixed feature and base columns |
| RawTableFacts.RaisesIff | src/features_engineering/feature_and_regression.py:790-861 | the function returns a table iff every input column exists, every vote count is a number, every release date a timestamp or NaT, every title a string, and every country and raw genre is mapped |
| RawTableFacts.PreparedSucceeds | src/features_engineering/feature_and_regression.py:790-791 | the drop and cast succeed iff the columns exist and every vote count is a number |
| RawTableFacts.NonDateRaises | src/features_engineering/feature_and_regression.py:846 | once the earlier statements pass, a release date that is neither a timestamp nor NaT raises AttributeError on `.year` |
| RawTableFacts.UnknownCountryRaises | src/features_engineering/feature_and_regression.py:794-795 | an unmapped country raises KeyError naming an unmapped country at or before it |
| RawTableFacts.PreparedRows | src/features_engineering/feature_and_regression.py:790-791 | the drop and cast keep the rows and every other cell; the votes are truncated |
| RawTableFacts.RawCell | src/features_engineering/feature_and_regression.py:792-871 | every feature cell of the result is the prescribed one |
| RawTableFacts.RawColumns | src/features_engineering/feature_and_regression.py:790-871 | the columns are the kept input columns, then every feature name in order; same index |
| RawTableFacts.RawKeepsInput | src/features_engineering/feature_and_regression.py:790-791 | columns neither dropped nor assigned read as in the input; votes are truncated |
| RawTableFacts.RawContinentSeries | src/features_engineering/feature_and_regression.py:801 | a continent cell is the movie's entry of that continent's groupby max |
| RawTableFacts.RawContinentCell | src/features_engineering/feature_and_regression.py:793-801 | NaN for a movie without a country row; otherwise 0/1, and 1 iff one of its countries lies on the continent |
| RawTableFacts.ContinentCellMeaning | src/features_engineering/feature_and_regression.py:794-801 | the aligned continent series: NaN, or 1 iff some country of the movie maps to the continent |
| RawTableFacts.RawGenreSeries | src/features_engineering/feature_and_regression.py:824 | a genre cell is the movie's entry of that genre's groupby max |
| RawTableFacts.RawGenreCell | src/features_engineering/feature_and_regression.py:817-824 | NaN for a movie without a genre row; otherwise 0/1, and 1 iff one of its raw genres lists the owning group |
| RawTableFacts.GenreCellMeaning | src/features_engineering/feature_and_regression.py:818-824 | the aligned genre series: NaN, or 1 iff a mapped group owns the slot |
| RawTableFacts.RawGenreCount | src/features_engineering/feature_and_regression.py:825 | NaN without genre rows, else the number of the movie's genre rows |
| RawTableFacts.RawActorCount | src/features_engineering/feature_and_regression.py:811 | NaN without cast rows, else the number of the movie's cast rows |
| RawTableFacts.RawDecadeCell | src/features_engineering/feature_and_regression.py:846 | NaN iff no release date; else a multiple of 10 with `d <= year < d + 10` |
| RawTableFacts.RawDecadeIs | src/features_engineering/feature_and_regression.py:846 | the decade cell is that of the input row |
| RawTableFacts.RawTitleCell | src/features_engineering/feature_and_regression.py:848 | the title-length cell is the word count of the input title |
| RawTableFacts.RawDirectorCells | src/features_engineering/feature_and_regression.py:860-867 | count and best rating of the team's films strictly before the release, read from the input table; NaN for undirected movies |
| RawTableFacts.RawSuccessCell | src/features_engineering/feature_and_regression.py:869-871 | the success cell is 0/1, and 1 iff the best rating is a number above 7.5 |
| DataLoad.ZipToMap | src/utils/data_load.py:70 | `dict(zip)`: the keys are the columns; each last occurrence maps to its dtype |
| DataLoad.DtypesMap | src/utils/data_load.py:60-70 | AssertionError iff the lengths differ; otherwise keys exactly `cols`, `cols[i]` to `dtypes[i]` for its last occurrence |
| DataLoad.DtypesMapLastWins | src/utils/data_load.py:70 | on duplicate names the later dtype wins |
| DataLoad.Split | src/utils/data_load.py:92 | `split(",")` always has at least one part |
| DataLoad.ParseImdbList | src/utils/data_load.py:84-92 | the parsed list is non-empty |
| DataLoad.JoinSplit | src/utils/data_load.py:92 | joining the parts with the separator gives the text back |
| DataLoad.SplitLength | src/utils/data_load.py:92 | one part more than there are commas |
| DataLoad.SplitPartsHaveNoSeparator | src/utils/data_load.py:92 | no part contains a comma |
| DataLoad.SplitJoin | src/utils/data_load.py:92 | splitting a join of comma-free parts gives the parts back |
| DataLoad.ParseListColumn | src/utils/data_load.py:190-193 | `map(parse_imdb_list, na_action='ignore')`: missing stays missing; each parsed cell joins back to its text and has commas + 1 parts |
| DataLoad.FixReleaseDates | src/utils/data_load.py:106 | every "1010-12-02" becomes "2010-12-02"; every other value is unchanged |
| DataLoad.FillMissing | src/utils/data_load.py:109 | missing values become the fill value; present ones are unchanged |
| DataLoad.InvalidRuntimesToMissing | src/utils/data_load.py:207-211 | invalid labels become missing, numbers are kept, and any other label makes the conversion raise |
| DataLoad.CleanRuntimeMinutes | src/utils/data_load.py:207-213 | invalid labels and missing values become 0; numbers are unchanged; another label raises |

## Left out

- File access (`pd.read_pickle`, `pd.read_csv`) is not modelled. The loaded tables are inputs.
- The statistics are uninterpreted parameters: the OLS fit, its R-squared and p-values, and `variance_inflation_factor`. The AIC is computed by the source but never read, so it is left out.
- The `float32` cast before `argmax` in `filter_multicolinearity` is not modelled. The VIFs are compared as exact reals.
- `np.log` and the mean/std of `standardize_column` are parameters. So are the actor ages and gender ratios: the groupby means arrive as given series. This avoids floating point and the pandas mixed-type mean.
- The famous-actor percentile, the positional boolean indexing of `actor_df`, and the top-K language and character choices arrive as given sets. Their tie order is unspecified in the source.
- `parse_dict` and the `eval` calls in the loaders evaluate strings as Python. They are foreign code. The unused constants `CONTINENT_ID`, `NE_FULL_LIST` and `EPSILON` are left out too.
- The category tables are an excerpt: all six continents and all twelve genre groups, but ten countries and eight raw genres. The aggregation is proved for any tables of that shape (`Encoding.Encoder.Valid`).
- `decade_pipeline`, `simple_regression` and the printing of summaries are output plumbing and are not modelled. Their one quirk is noted here: the whole `decades` list is passed on every iteration, so every decade gets the same model.
- Selection.SelectNextFeature: among equal R-squared values it returns the first column in column order. The source's descending sort does not fix an order among ties, so the contract states only "admissible and maximal".
- RawTable.CastVotes: does not model the int32 wrap-around for counts beyond 2^31. The cast is a truncation toward zero on unbounded integers.
- RawTable.GetRawRegressionTable: every error condition is checked before any column is built. Since the function raises instead of returning, the outcome matches the source. The order of the conditions follows the source's statements.
- RawTable.GetRawRegressionTable: assumes the movie ids are unique, as the movie table's index is.
- Frames.DropColumns: the KeyError names the first missing label. pandas lists all of them.
- Processing.NanFilter: the KeyError of `dropna(subset=...)` likewise names only the first missing column, where pandas lists all of them.
- Processing.LogStep: a non-numeric cell under `log` is taken as NaN rather than raising.
- Processing.BinaryTarget: a non-numeric target cell is left as it is.
- The model takes inputs as values, so "the input is unchanged" (`copy()` in `process_dataframe` and `filter_multicolinearity`) holds by construction. It is not a separate claim.
- DirectorHistory.History: the history holds the directed movies found in the movie table. A directed movie missing from the table would carry NaT in the source and never counts, so it is left out.
- The `gender` recoding (M to -1, F to 1) is not modelled, because the gender ratio is a given series.
