# Codeforces problem recommender: the data pipeline

This project models the data pipeline inside `ml/recommender.py`, the Python
service that recommends Codeforces problems to a user. Underneath its web,
caching and machine-learning layers the service does four things:

1. **Catalog enrichment** (`fetch_problems`). It builds a dictionary from
   problem key to solved count out of `problemStatistics`, then stamps every
   catalog problem with its `solvedCount`. The count is 0 when no statistic
   matches. A problem key is the string `f"{contestId}_{index}"`.
2. **Solved-set extraction** (`create_user_vector` and `get_recommendations`).
   It keeps the submissions whose verdict is `'OK'` and collects their problem
   keys into a set.
3. **Solved-row lookup** (`create_user_vector`). It lists, in catalog order,
   the rows whose key is solved. The user vector is the mean of those rows'
   feature vectors, or of all rows when there are none.
4. **Recommendation selection** (`get_recommendations`). It takes a copy of
   the catalog with one similarity score per row. It drops solved problems,
   applies the optional `min_rating`/`max_rating` bounds and the tag filter,
   sorts by similarity descending and returns the first `n` rows.

Modules:

- `Wrappers`: `Option`.
- `ProblemKeys`: `str(int)` and the key format. It proves that the key is
  injective, so matching by key matches by (contest, index).
- `Codeforces`: the records that are read.
- `Enrichment`: part 1. The dictionary loop is a method, and the in-place
  stamping loop is a method over an `array`.
- `Seqs`: the order-preserving filter, which is what a boolean mask on a
  DataFrame does.
- `Solved`: parts 2 and 3. Both are methods with loops, proved against
  specification functions.
- `Selection`: part 4, written as functions and lemmas.
- `Recommender`: the `CodeforcesRecommender` class. Its fields are the
  catalog and the user-vector cache, and its methods are `FetchProblems`,
  `CreateUserVector` and `GetRecommendations`.

Requests to the Codeforces API are parameters of type `Option`. `None` stands
for a request that raised, and also for a reply whose `status` is not `'OK'`.
The code treats those two cases the same way everywhere. A submission whose
`verdict` field is missing (it is still being judged) makes the list
comprehension `sub['verdict']` raise `KeyError`. The surrounding `try` catches
it, so the model treats it like a failed request (`SolvedKeys` is `None`). As
a result, a user with a pending submission and no cached vector gets no
recommendations. A user with a cached vector gets recommendations with nothing
excluded.

`get_recommendations` excludes only problems with an `'OK'` submission
(line 239). Problems tried with other verdicts remain eligible.

Two exceptions escape `get_recommendations` and are modelled as the `Raised`
outcome:

- A cached user vector with no catalog loaded. `cosine_similarity` with no
  second matrix compares the user vector with itself (line 210), so the
  exception that escapes is the `AttributeError` from `self.problems_df.copy()`
  on `None` at line 232. A handle that is not cached gets no records instead,
  because `create_user_vector` catches the failure and caches nothing.
- A tag list given when no row survives the solved and rating filters (line
  254). `apply` over the empty `tags` column at line 250 yields an empty
  object-typed Series, which pandas reads as a column selection, not as a
  boolean mask. The frame therefore loses its `similarity` column, and
  `sort_values` raises `KeyError`.

The specification functions the lemmas below are about:

- `ProblemKeys.Key`: the key format of lines 72, 77, 166, 177, 225 and 237.
- `Enrichment.StatsMap`: the dictionary of lines 70-73.
- `Enrichment.Enriched`: the stamped catalog of lines 76-78.
- `Solved.SolvedKeys`: the solved set of lines 161-167 and 222-226.
- `Solved.RowsIn`: the row list of lines 175-179.
- `Recommender.UserVectorFor`: the vector of lines 154-187.
- `Selection.Prefiltered`, `Selection.Candidates` and `Selection.Recommend`: the
  filter, sort and head chain of lines 232-258.
- `Selection.Recommendations`: that chain with its raise at line 254.

Each function is specified by the lemma and method rows that name it.

## Model

| member | source | states |
|---|---|---|
| ProblemKeys.KeyInjective | ml/recommender.py:72-77 | two `contestId_index` keys are equal only when contest and index are both equal, because the decimal part holds no underscore |
| Enrichment.StatsMapKeys | ml/recommender.py:70-73 | a key is in the statistics dictionary exactly when some statistic carries that key |
| Enrichment.StatsMapValues | ml/recommender.py:70-73 | the dictionary maps each key to the count of the LAST statistic with that key (a later statistic overwrites an earlier one) |
| Enrichment.BuildStatsDict | ml/recommender.py:70-73 | the loop's dictionary has exactly the statistics' keys, each mapped to the last such statistic's `solvedCount`, or 0 when that field is missing |
| Enrichment.StampSolvedCounts | ml/recommender.py:76-78 | the in-place loop over the problem records leaves the array equal to the stamped catalog, element by element |
| Enrichment.EnrichedMeaning | ml/recommender.py:70-78 | after enrichment the catalog has the same length; every field of each problem except `solvedCount` is unchanged; `solvedCount` is the last matching statistic's count, or 0 when no statistic has the key |
| Enrichment.MissingCountIsZero | ml/recommender.py:73 | a matching statistic with no `solvedCount` stamps 0, the same as a missing statistic |
| Solved.AcceptedSubmissions | ml/recommender.py:161 | the comprehension fails exactly when some submission has no verdict; otherwise it keeps exactly the submissions with verdict `'OK'` |
| Solved.SolvedKeysSnoc | ml/recommender.py:161-167 | one more submission: a missing verdict spoils the set; an accepted one adds its key (a repeated key changes nothing); any other verdict contributes nothing |
| Solved.AcceptedKeys | ml/recommender.py:161-167 | the keys of the filtered accepted list are exactly the keys of the `'OK'` submissions of the original list |
| Solved.CollectSolved | ml/recommender.py:161-167 | the set-building loop (repeated at lines 222-226) yields a set exactly when every submission has a verdict; a key is in it iff some submission with that key has verdict `'OK'` |
| Solved.RowsInMembers | ml/recommender.py:175-179 | a row index is listed exactly when it is a catalog position whose key is in the solved set |
| Solved.RowsInAscending | ml/recommender.py:175-179 | the listed row indices are strictly ascending |
| Solved.SolvedRows | ml/recommender.py:175-179 | the `iterrows`/`append` loop returns the strictly ascending list of exactly the catalog positions whose key is solved |
| Recommender.UserVectorMeaning | ml/recommender.py:154-187 | no vector when the request fails or a verdict is missing; the all-rows default when no catalog row is solved; otherwise the mean over a non-empty, ascending list of exactly the solved rows |
| Recommender.ExcludedKeysMeaning | ml/recommender.py:213-229 | a failed or rejected fetch, or a missing verdict, excludes nothing instead of raising; otherwise the excluded keys are exactly those with an `'OK'` submission |
| Selection.DropSolved | ml/recommender.py:236-239 | every copy of a row whose key is not solved is kept, and no row whose key is solved |
| Selection.KeepAtLeast | ml/recommender.py:242-243 | with a bound, exactly the rated rows at or above it are kept (NaN fails the comparison); without one, all rows are kept |
| Selection.KeepAtMost | ml/recommender.py:245-246 | with a bound, exactly the rated rows at or below it are kept; without one, all rows are kept |
| Selection.KeepTagged | ml/recommender.py:248-251 | with a tag list, exactly the rows sharing at least one listed tag are kept; without one, all rows are kept |
| Selection.PrefilteredMembers | ml/recommender.py:235-246 | a scored row reaches the tag filter exactly when its key is unsolved and its rating meets every given bound |
| Selection.PrefilteredEmpty | ml/recommender.py:235-246 | the frame reaching the tag filter is empty exactly when no catalog problem is unsolved and within the given bounds |
| Selection.RecommendationsRaise | ml/recommender.py:248-254 | the selection raises exactly when a tag list is given and no catalog problem survives the solved and rating filters; it raises only where the records would have been empty, so the `Recommend` lemmas describe the records whenever there are records |
| Selection.CandidatesMeaning | ml/recommender.py:235-251 | the filtered frame's multiset is the scored catalog's restricted to the rows that pass every given filter |
| Selection.SortBySimilarity | ml/recommender.py:254 | the sorted rows are non-increasing in similarity and a permutation of the input (no tie order is promised) |
| Selection.Head | ml/recommender.py:255 | `head(n)` is a prefix of length min(n, len) for n >= 0, and max(0, len + n) for a negative n |
| Selection.TopFromRows | ml/recommender.py:254-255 | the first n rows after sorting form a sub-multiset of the rows |
| Selection.TopShape | ml/recommender.py:254-255 | the first n rows after sorting are non-increasing, min(n, len) of them for n >= 0, and are all the rows when n covers them |
| Selection.TopScoresHighest | ml/recommender.py:254-255 | those rows are the n highest: a row that is left out scores no higher than any row that is kept |
| Selection.RecommendFromCandidates | ml/recommender.py:232-258 | every recommended record is a scored catalog row that passes all given filters, and a sub-multiset of the candidates |
| Selection.RecommendUnsolved | ml/recommender.py:236-239 | no recommended problem's key is in the solved set |
| Selection.RecommendWithinRatings | ml/recommender.py:242-246 | when a bound is given, every result is rated and its rating lies within the bound, inclusive |
| Selection.RecommendSharesTag | ml/recommender.py:248-251 | when a tag list is given, every result carries at least one of the listed tags |
| Selection.EmptyTagsRecommendNothing | ml/recommender.py:248-254 | an empty (not absent) tag list lets nothing through, because `any` over no tags is false: the call returns no records, or raises when the frame reaching the tag filter is empty |
| Selection.RecommendFromCatalog | ml/recommender.py:232-233 | every result is a catalog problem paired with that same row's similarity score |
| Selection.RecommendShape | ml/recommender.py:254-255 | the result is non-increasing in similarity; its length is min(n, number of candidates) for n >= 0; when n covers the candidates it is a permutation of them |
| Selection.RecommendTopN | ml/recommender.py:254-255 | a candidate left out of the result scores no higher than any recommended row |
| Selection.NothingSolvedExcludesNothing | ml/recommender.py:236-239 | with an empty solved set, no filters and n covering the catalog, every catalog row is recommended |
| Recommender.CodeforcesRecommender.constructor | ml/recommender.py:28-33 | a new recommender has no catalog (`problems_df` is None) and an empty user-vector cache |
| Recommender.CodeforcesRecommender.FetchProblems | ml/recommender.py:59-94 | on an `'OK'` reply it returns true and the catalog is loaded as the enriched problem list (missing `problemStatistics` read as empty); otherwise it returns false and leaves the catalog unchanged |
| Recommender.CodeforcesRecommender.CreateUserVector | ml/recommender.py:147-197 | it returns the vector for the loaded catalog and caches it under the handle. With no catalog loaded, or on a failed request or a missing verdict, it returns None and caches nothing |
| Recommender.CodeforcesRecommender.GetRecommendations | ml/recommender.py:199-260 | it uses the cached vector, or else creates one. With no vector it returns no records. A cached vector with no catalog raises, because `problems_df.copy()` fails on `None` (line 232). Otherwise it gives the selection over the unchanged catalog, scored against that vector, excluding the second fetch's solved set (empty when that fetch fails), and raises where the selection does (line 254) |

## Left out

- The Flask routes `/recommend`, `/refresh` and `/health` (lines 265-311) are not modelled. This covers query-string parsing, `int(count)` and the 400 reply for a missing handle. They are web plumbing.
- The HTTP requests (lines 62, 151, 214) and JSON decoding are not modelled. Their outcomes enter as `Option` parameters.
- `initialize` (lines 36-57) is not modelled. This covers the file cache checked against `CACHE_TIME` with `os.path.getmtime`, the JSON and joblib dumps and loads (lines 84-85, 191-192) and `last_update` (line 87). They are file I/O and clock state. The constructor starts from the state before anything is loaded: no catalog (`problems` is None) and an empty user-vector cache.
- The TF-IDF vectoriser, `MinMaxScaler`, `np.hstack`, `np.mean` and `cosine_similarity` (lines 96-145, 172-187, 210) are not modelled. They are floating-point numerics inside numpy and scikit-learn. A user vector is kept as the set of rows it averages (`MeanOfAll` or `MeanOfRows`). The per-row similarity is an opaque integer that a function parameter supplies.
- Selection.SortBySimilarity: the model has to place tied rows in some order. Pandas' default sort is not stable, so no lemma relies on tie order, and only the order by score and the permutation are promised.
- Similarity scores are integers, so NaN scores and their placement by `sort_values` are not modelled.
- Only the fields the pipeline reads are modelled: `contestId`, `index`, `rating`, `tags` and `solvedCount`. The returned records also carry the catalog's other fields, `problem_id` and `tags_text`. Those extra columns are not modelled.
- A `KeyError` from a record missing `contestId`, `index` or `problem` is not modelled, because the model's records always have these fields. A missing `verdict` is modelled.
- The `isinstance(..., list)` test at line 202 always holds in the model, because every cached vector is one the model stored.
- The problem feature vectors are assumed to exist exactly when a catalog is loaded, and to have one row per catalog row. Two situations fall outside that assumption and are not modelled:
  - a catalog loaded by `/refresh` after a start whose fetch failed, where `process_problem_features` finds no vectoriser and leaves the vectors missing;
  - a fetch whose feature rebuild fails, which leaves vectors for an older catalog and makes the `similarity` assignment at line 233 raise on a length mismatch.
- A loaded but empty catalog is treated like any other catalog. The behaviour of the row-wise `apply` at line 236 on an empty frame is not modelled.
- Recommender.CodeforcesRecommender.GetRecommendations: `n` is always passed explicitly. The default `n_recommendations=10` (line 199) is not modelled, and the `/recommend` route always passes a count, itself defaulting to 10 (line 272).
- The browser-side statistics, streaks, learning path and rule-based daily suggestion are not part of this model. Their source files are not among the files modelled.
