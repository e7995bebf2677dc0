# Hybrid movie recommender: the ranking rule

This project models `hybrid_recommend`, the ranking rule of a small hybrid
movie recommender, and proves properties of it in Dafny. Given a seed title,
a user name and `top_n`, the rule works in six steps:

1. It checks the title against the catalog, then the user against the rating
   table. On a miss it returns the one-element list `["Movie not found!"]` or
   `["User not found!"]`.
2. It reads the seed's row of the content similarity matrix. The seed's row is
   the first catalog position holding that title.
3. It sorts the user's column of the user similarity matrix from highest to
   lowest, drops the first entry, and takes the next one as the neighbour.
   With fewer than two users this raises `IndexError`.
4. It collects the titles the neighbour rated 4 or more (the liked titles).
5. It builds one `(title, score)` pair per catalog entry, in catalog order.
   The score is the content score, plus 0.5 when the title is liked.
6. It sorts the pairs stably from highest score to lowest and returns the
   titles at ranks 1 to `top_n`. Rank 0 is dropped.

The model has three modules:

- `PySeq` (`pyseq.dfy`) holds the list primitives the rule relies on: the first
  position of a value, and Python's slice `s[lo:hi]` with negative and
  out-of-range bounds.
- `Ranking` (`ranking.dfy`) holds Python's stable descending sort by score,
  written as an insertion sort. It proves that the result is descending, is a
  permutation of the input, and is stable. It also proves that the sort is
  the only list with these properties.
- `Recommender` (`recommender.dfy`) holds the tables, the neighbour choice,
  the liked set, the loop that combines the scores (a method with a loop
  invariant), the rule as the function `Recommend`, and `HybridRecommend`,
  the step-by-step method proved equal to `Recommend`.

Design decisions:

- **Inputs.** The catalog, the rating table and both similarity matrices are
  caller-supplied values. Scores are Dafny `real`s. `Tables.Valid` states only
  the shapes the tables have by construction and that user labels are
  distinct. What a repeated label does in the code is listed under
  "Left out".
- **Neighbour tie-break.** The sort at line 51 is pandas' default quicksort,
  which is not stable. The rule therefore takes the sorted order of user
  positions as an extra input, `order`. `OrderFits` admits any order that
  lists each user once with similarities from highest to lowest. The
  neighbour is `order[1]`. `NeighbourScoreDetermined` proves that every
  admitted order gives a neighbour with the same similarity. Which user that
  is can differ, and so can the result.
- **Errors.** The code reports an unknown title or user by returning a
  one-element message list (lines 41-44). With only one user, the neighbour
  lookup at line 52 raises an `IndexError` that nothing catches. `Outcome` is
  therefore `Returns(list)` or `IndexError`.
- **The dropped rank.** Line 64 drops whatever ranks first, which need not be
  the seed. `HeadNotRecommended` proves that, with distinct catalog titles,
  the title at rank 0 is never returned. `SeedCanBeRecommended` gives two
  titles with identical genres, where the neighbour liked only the other one.
  The other title takes rank 0 and is dropped, and the result is the seed
  itself. `SeedExcludedWhenStrictlyBest` proves that the seed is not returned
  when its combined score is strictly the highest and catalog titles are
  distinct.
- **The neighbour.** Line 51 drops the first entry of the sorted similarity
  column, whoever it is, and line 52 takes the next. `NeighbourIsOtherUser`
  shows that this first entry is the user when the user is strictly most
  similar to themself.
- **`top_n`.** `top_n` is an `int` with Python slice semantics. The lemmas
  about length assume `top_n >= 0`. The default of 3 is declared at line 40;
  the call at line 77 leaves the argument out. The model has no defaults and
  takes `top_n` as an explicit argument.

## Model

| member | source | states |
|---|---|---|
| `PySeq.IndexOf` | interactive_recommendation.py:41-47 | the lookup result is None exactly when the value is not in the list; otherwise it is the first position holding the value (`.index[0]` of the title mask) |
| `PySeq.SliceFromOne` | interactive_recommendation.py:64 | for `top_n >= 0`, the slice `[1:top_n+1]` of a non-empty list is its positions 1 up to `min(top_n + 1, length)`, and of an empty list is empty |
| `Ranking.SortByScore` | interactive_recommendation.py:63 | the sorted list has non-increasing scores, is a permutation (same multiset) of the combined list, and has the same length |
| `Ranking.SortByScoreStable` | interactive_recommendation.py:63 | stability: for every score value, the entries with that score appear in the sorted list in the same order as in the input |
| `Ranking.SortByScoreUnique` | interactive_recommendation.py:63 | any descending list with the same per-score subsequences as the input equals the sort's result, so the model is the stable descending sort Python's `sorted(..., reverse=True)` specifies |
| `Ranking.StrictBestRanksFirst` | interactive_recommendation.py:63 | an entry whose score is strictly above all others takes rank 0 |
| `Ranking.SortByScoreKeepsTitlesUnique` | interactive_recommendation.py:63 | if no two input entries share a title, no two ranks of the sorted list share one |
| `Recommender.NeighbourScore` | interactive_recommendation.py:51-52 | the neighbour (position 1 of the sorted column) is a different user from position 0, and its similarity is at least that of every user except the one at position 0 |
| `Recommender.NeighbourScoreDetermined` | interactive_recommendation.py:51-52 | any two admissible tie-breaks of the sort give neighbours with equal similarity |
| `Recommender.NeighbourIsOtherUser` | interactive_recommendation.py:51-52 | when the user is strictly more similar to themself than to anyone else, position 0 is the user and the neighbour is another user |
| `Recommender.Liked` | interactive_recommendation.py:54 | a title is liked exactly when the neighbour's rating for that title's column is at least 4 |
| `Recommender.CombinedAt` | interactive_recommendation.py:57-61 | the combined list has exactly one entry per catalog position, in catalog order; entry i holds catalog title i and score row[i] plus 0.5 if the title is liked, plus 0 otherwise |
| `Recommender.CombineScores` | interactive_recommendation.py:57-61 | the appending loop produces exactly the combined list that `CombinedAt` characterises |
| `Recommender.RankedEntries` | interactive_recommendation.py:47-63 | an entry is in the ranking exactly when it is some catalog position's title scored by the seed row's entry at that position plus its bonus |
| `Recommender.Recommend` | interactive_recommendation.py:40-64 | the rule as a function: the title check comes first, then the user check, then `IndexError` when the ordering has fewer than two users, and otherwise the titles of the stably sorted combined list from rank 1 to `top_n`; its contract says every returned string is a catalog title or one of the two messages. `LookupMessages`, `IndexErrorExactly`, `RecommendRanks`, `RecommendInCatalog` and `HeadNotRecommended` characterise it further |
| `Recommender.SliceTitlesInCatalog` | interactive_recommendation.py:63-64 | every title in any slice `[1:top_n+1]` of the ranking is a catalog title |
| `Recommender.HybridRecommend` | interactive_recommendation.py:40-64 | the step-by-step rule, with the loop, returns exactly the outcome of `Recommend` |
| `Recommender.LookupMessages` | interactive_recommendation.py:41-44 | an unknown title yields `["Movie not found!"]` whatever the user, so the title check wins; a known title with an unknown user yields `["User not found!"]` |
| `Recommender.IndexErrorExactly` | interactive_recommendation.py:41-52 | the rule raises IndexError exactly when title and user are both known and there are fewer than two users |
| `Recommender.RecommendRanks` | interactive_recommendation.py:63-64 | on success the result is the titles at ranks 1 to `top_n` of the sorted list; its length is `min(top_n, N - 1)` |
| `Recommender.RecommendInCatalog` | interactive_recommendation.py:57-64 | on success every returned title is a catalog title |
| `Recommender.RankedTitlesUnique` | interactive_recommendation.py:57-63 | with distinct catalog titles, no two ranks of the sorted combined list carry the same title |
| `Recommender.HeadNotRecommended` | interactive_recommendation.py:63-64 | with distinct catalog titles, the title at rank 0 of the sorted list is never in the result, whichever title that is |
| `Recommender.SeedExcludedWhenStrictlyBest` | interactive_recommendation.py:63-64 | with distinct titles and the seed's combined score strictly highest, the seed is not returned |
| `Recommender.SeedCanBeRecommended` | interactive_recommendation.py:57-64 | a concrete pair of tables where the dropped rank 0 is another title and the result is exactly the seed |

## Left out

- Genre tokenisation and cosine similarity (lines 30-36). These come from a
  foreign numeric library and use floating point with square roots. The two
  similarity matrices are inputs. No symmetry or unit diagonal is assumed,
  because no lemma needs one.
- Floating point. Scores are exact reals, so rounding that could make two
  similarities compare equal or unequal is not modelled.
- The hardcoded catalog and rating data (lines 6-28). They are caller-supplied
  sequences. `Example` uses two titles and two users in their shape.
- pandas DataFrame mechanics (lines 16, 28, 37). The catalog is a sequence of
  `Movie`. The rating table is a list of users, a list of rated titles and a
  list of rows. Rows are picked by position, which is the same as picking by
  label because labels are distinct.
- Repeated user labels in the rating table. `Tables.Valid` requires distinct
  labels, so neither of the two outcomes a repeated label has in the code is
  modelled:
  - If the queried user's own label repeats, line 51 selects a frame rather
    than a column, and `sort_values` without `by` fails on it.
  - If only the neighbour's label repeats, line 54's `loc` returns a
    several-row frame. Masking it keeps its shape, so `.index.tolist()` yields
    user labels instead of titles. No title gets the bonus, and the call
    quietly returns a ranking by content score alone.
- The tie-break of pandas' unstable sort at line 51. It is an input (`order`)
  constrained only to be a valid descending order.
- The terminal front end (lines 66-80): banner, movie list, `input`, `strip`
  and printing.
- Idempotence: `Recommend` is a function of its inputs, so it holds by
  construction and no lemma is stated.
