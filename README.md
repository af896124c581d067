# Movie recommender: the ranking step, in Dafny

The project models `recommend_movies` from the movie recommender demo
(`main.py`). The function ranks titles for one user in three steps:

1. **Catalog.** Take the distinct title ids of the loaded frame, in the order
   they first appear (`df['id'].unique()`).
2. **Candidates.** Drop every title the user has a row for. This is an
   order-preserving filter over the catalog.
3. **Rank.** Predict a score for each candidate, argsort the scores, keep the
   last five indices, reverse them, and map them back to title ids.

The model is pure: datatypes, functions and lemmas. The code builds its result
from list comprehensions and non-mutating numpy/pandas calls, so nothing is
updated in place.

The modules are:

- `Seqs` (`seqs.dfy`): shared sequence facts, plus Python's `s[-k:]`
  (`FromEnd`) and `s[::-1]` (`Reverse`).
- `Frame` (`frame.dfy`): the frame as a sequence of `Row(user, item)`. It
  defines pandas `unique()` (`Unique`), the catalog (`Catalog`), and the
  rated-by query (`RatedBy`). It also defines two set views of the frame:
  `AllItems` (every title id in it) and `ItemsRatedBy` (the ids of one
  user's rows).
- `ArgSort` (`argsort.dfy`): what `np.argsort` promises (`IsArgsort`). The
  result is a permutation of the indices that reads the scores in ascending
  order. Equal scores may come in any order. `SortedIndices` is an insertion
  sort that shows such a permutation always exists.
- `Recommender` (`recommender.dfy`): the candidate filter, the predictions,
  the top-k selection, `RecommendMovies`, and its properties.

The predictor is a parameter `model: (U, I) -> real`, a total function from a
(user, title) pair to a score. The argsort result is a parameter `order`, and
the only thing required of it is `IsArgsort`. Because of that, every lemma
holds for every tie order numpy might produce. User and title ids are type
parameters that only need equality.

Where the code behaves differently from what a recommender of this kind is
usually expected to do, the model follows the code:

- **Catalog.** The frame is the interaction table left-merged with the titles.
  So the catalog holds only titles that occur in some interaction row, not
  every title in the titles table.
- **Ties.** numpy's default sort is not stable, so the order of titles with
  equal scores is left open.
- **k = 0.** `[-0:]` is the whole list, so a count of 0 would keep every
  candidate rather than none. The code always uses 5, and `TopKKeepsAll`
  records what 0 would do.
- **Failing predictions.** The code has no guard around `model.predict`, so
  a failing prediction is not skipped; the model's predictor is total.

## Model

| member | source | states |
|---|---|---|
| `Frame.Unique` | main.py:41 | `unique()` returns each value of the column exactly once: no repeats, nothing added, nothing lost, never longer than the column |
| `Frame.UniqueOrder` | main.py:41 | `unique()` lists values in the order of their first appearance in the column |
| `Frame.UniqueOfDistinct` | main.py:41 | a column without repeats is its own `unique()` |
| `Frame.ItemColumnElems` | main.py:41 | the `id` column holds exactly the frame's title ids (`AllItems`) |
| `Frame.CatalogSpec` | main.py:41 | the catalog lists every title id of the frame exactly once, in order of first appearance |
| `Frame.RatedBySpec` | main.py:42 | the ids selected by `df['user_id'] == user_id` are exactly the titles the user has rows for (`ItemsRatedBy`) |
| `Frame.RatedByNewUser` | main.py:42 | a user with no rows has rated nothing |
| `Recommender.UnratedSpec` | main.py:43 | the comprehension keeps a title if and only if it is in the catalog and not rated; from a catalog without repeats it keeps each title once, in catalog order |
| `Recommender.UnratedNoneRated` | main.py:43 | when no catalog title is rated, the filter returns the whole catalog unchanged |
| `Recommender.CandidatesSpec` | main.py:41-43 | the candidates are distinct, are exactly `allItems - itemsRatedBy(user)`, and keep the catalog's order |
| `Recommender.NewUserCandidates` | main.py:41-43 | for a user with no rows, the candidates are the whole catalog |
| `ArgSort.SortedIndices` | main.py:46 | for any list of scores there is a result of `np.argsort`: a permutation of the indices that reads the scores in ascending order |
| `Seqs.FromEndIsPythonSlice` | main.py:46 | `FromEnd(s, k)` equals Python's `s[-k:]`: the slice from `-k` counted from the end and clamped to the list, which for `k = 0` starts at 0 and keeps everything |
| `Recommender.TopK` | main.py:46-48 | the selection has as many titles as `[-k:]` keeps of the argsort |
| `Recommender.TopKDescending` | main.py:45-46 | after the reversal, the selected titles come in non-increasing predicted score |
| `Recommender.TopKDistinct` | main.py:46-48 | from distinct candidates, the selected titles are distinct and are all candidates |
| `Recommender.TopKDominance` | main.py:46 | no candidate left out scores higher than any selected title |
| `Recommender.TopKKeepsAll` | main.py:46 | when `[-k:]` keeps the whole argsort (`k = 0`, or `k` at least the number of candidates), every candidate is selected |
| `Recommender.RecommendMoviesDefined` | main.py:44-46 | for every user, model and frame the candidates' scores have an argsort, so the precondition of `RecommendMovies` can always be met |
| `Recommender.RecommendMoviesSpec` | main.py:40-48 | the result has no rated title, only frame titles, and no repeats; it has `min(5, #unrated titles)` entries in non-increasing score order; no unrated title left out scores higher than a recommended one |
| `Recommender.RatedUserExample` | main.py:40-48 | catalog 1..5, user rated 1 and 3, scores 4.5, 2.0, 9.1 for 2, 4, 5: the result is `[5, 2, 4]` for every argsort |
| `Recommender.NewUserExample` | main.py:40-48 | a user with no rows, same catalog, scores 1.0, 4.5, 3.0, 2.0, 9.1 for 1..5: the result is `[5, 2, 3, 4, 1]` for every argsort |

## Left out

- `load_data` (main.py:8-28) reads CSV files and joins them with pandas. The
  model is given the merged frame directly, as a sequence of `(user, item)`
  rows. The credit columns play no part in the ranking.
- `load_model` (main.py:33-35) deserialises the trained model with joblib. The
  predictor is a parameter.
- The SVD predictor's internals and its `.est` field (main.py:5, main.py:45)
  are floating-point matrix factorisation in a library not available here.
  Scores are exact `real` values. NaN, rounding and the ordering of equal
  floats are not modelled.
- numpy's sorting algorithm is not modelled, only what it guarantees about its
  output. The tie order among equal scores is deliberately left open.
- The Streamlit UI and caching decorators (main.py:8, main.py:33,
  main.py:51-61) are presentation and caching.
- An exception raised by the predictor is not modelled: the predictor is a
  total function.
