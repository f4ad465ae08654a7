# Movie recommender core in Dafny

A model of the recommendation engine in `app.py` of the Streamlit movie
recommender:

- **genre normalisation**, in both variants: the query variant
  (`x.strip().lower()`, app.py:44-70) and the display variant
  (`x.strip()`, app.py:105-127). Each handles a genre field that is a
  string holding a Python literal, a string that does not parse, a native
  list, or any other value.
- **the genre vocabulary**: `sorted(set(...))` of the display tokens of
  every non-missing field (app.py:103-132).
- **the genre query** `recommenderFnVoteBased` (app.py:39-80). It scans
  the scored table in order, stops at the third match, and returns a
  message naming the genre when nothing matches.
- **the title query** `recommend` (app.py:33-37). It takes the first row
  with the title and stable-sorts that row's `(index, similarity)` pairs
  by similarity, descending. It keeps sorted positions 1 to 5.
- **the weighted rating** of `compute_scores` (app.py:24-28). The corpus
  mean `C` and the vote threshold `m` are parameters.

The files are:

- `wrappers.dfy`: `Option`, `Result` and the two Python exceptions that
  can escape (`AttributeError`, `IndexError`).
- `text.dfy`: Python's `str.strip()` (the full `str.isspace()` set),
  ASCII `str.lower()`, `str.split(" ")` and `" ".join`.
- `order.dfy`: Python's `<` on strings, and strictly increasing lists.
- `genres.dfy`: genre fields, both normalisers and the vocabulary.
- `rating.dfy`: the weighted rating over the reals.
- `ranking.dfy`: the similarity-row ranking, as written and corrected.
- `recommender.dfy`: the movie table and the two queries.

A `literal_eval` result is part of the input (`Field.Encoded` carries the
raw string and what it parsed to, or `None` when parsing raised). So are
the similarity matrix and the `str()` of non-string values.

Three behaviours of the code are worth stating, because they are easy to
misread:

- When `v + m == 0` (a movie without votes and a threshold `m` of zero),
  the formula is numpy's 0/0: the score is NaN, and the code has no guard.
- A native list holding a mapping whose `'name'` is not a string raises
  `AttributeError`, although the vocabulary code calls itself "safe"
  (app.py:102). Inside a string, the same element is caught by the bare
  `except`, and the string is split on spaces instead.
- `[1:6]` drops sorted position 0, whichever movie that is. The page
  presents the result as "Movies similar to" the selected title
  (app.py:94), but with a tie the selected movie itself can be returned.
  See "Findings".

## Model

| member | source | states |
|---|---|---|
| Text.Strip | app.py:55 | the result has no whitespace (Python's `isspace` set) at either end, and sits in the input with only whitespace before and after it |
| Text.Split | app.py:61 | `split(" ")` yields at least one piece, and no piece contains a space |
| Text.JoinSplit | app.py:61 | joining the pieces of `split(" ")` with single spaces gives back the string, so no character is lost |
| Text.SplitJoin | app.py:61 | splitting space-free pieces joined by single spaces gives back exactly those pieces, empty ones included |
| Text.LowerStrip | app.py:55 | stripping then lower-casing equals lower-casing then stripping |
| Text.StripIdempotent | app.py:113 | stripping twice is stripping once |
| Text.Lower | app.py:55 | `lower()` keeps the length and lower-cases each character in place, ASCII letters only |
| Text.Key | app.py:40 | the normal form `strip().lower()` has no surrounding whitespace and no upper-case ASCII letter |
| Text.KeyInsensitive | app.py:40 | the normal form ignores the case and the surrounding whitespace of its input, and is its own normal form |
| Order.BelowIrreflexive | app.py:132 | no string is below itself |
| Order.BelowAsymmetric | app.py:132 | of two strings at most one is below the other |
| Order.BelowTransitive | app.py:132 | Python's string order is transitive |
| Order.BelowTotal | app.py:132 | any two different strings are ordered one way or the other |
| Order.Insert | app.py:130 | adding a genre to a sorted set keeps it strictly increasing; its elements become the old ones plus the new genre |
| Order.InsertAll | app.py:129-130 | adding a token list keeps the set strictly increasing; its elements become the old ones plus the list's |
| Order.IncreasingUnique | app.py:132 | two strictly increasing lists with the same elements are equal, so `sorted(set(...))` is determined by the set |
| Genres.QueryItems | app.py:53-57 | a list yields tokens exactly when no mapping has a non-string name; then it yields one token per element, in order, each normalised |
| Genres.DisplayItems | app.py:111-115 | the display variant of the same: tokens exactly when no mapping has a non-string name, one stripped token per element |
| Genres.QueryTokens | app.py:44-70 | the query normaliser fails exactly on a native list holding a mapping with a non-string name; every other field, a string holding such a list included, yields tokens |
| Genres.DisplayTokens | app.py:105-127 | the display normaliser fails on exactly the same fields |
| Genres.QueryTokensNormal | app.py:72 | every query token is already in normal form |
| Genres.EncodedListAgreesWithNative | app.py:49-68 | a string that parses to a list gives the same tokens as the list held natively; when the list has a bad name, the native list raises and the string falls back to its space-split pieces |
| Genres.ListTokensPerItem | app.py:64-68 | element `i` of a list gives token `i`: the normalised name of a mapping, otherwise the normalised value |
| Genres.UnparsedSplitsOnSpaces | app.py:60-61 | an unparsable string yields its single-space-separated pieces, each normalised, empty pieces included |
| Genres.ScalarIsOneToken | app.py:58-70 | a parsed non-list, a missing value and any other scalar give exactly one token: its `str()` stripped and lower-cased for queries, and only stripped for display (app.py:116-127) |
| Genres.DisplayLowersToQuery | app.py:107-127 | the display variant fails exactly when the query variant fails; otherwise lower-casing each display token gives the query tokens |
| Genres.EncodingsAgreeExample | app.py:49-68 | a stringified list of mappings, a native list and a space-separated string naming Action and Drama all give `["action", "drama"]` |
| Genres.Collect | app.py:103-131 | accumulating the fields raises exactly when some field's normalisation raises; otherwise the result is strictly increasing and holds the accumulator plus every display token of every non-missing field |
| Genres.Vocabulary | app.py:103-132 | the genre list raises exactly when some field raises; otherwise it is strictly increasing and holds exactly the display tokens of the non-missing fields |
| Genres.VocabularyIsSortedSet | app.py:132 | any strictly increasing listing of those tokens is the vocabulary, so the order the fields are read in does not matter |
| Rating.WeightedRating | app.py:26-28 | for a threshold `m` that is never negative (a quantile of vote counts), the score is NaN exactly when the movie has no votes and `m` is zero |
| Rating.ShrinkForm | app.py:27-28 | the score is the mean moved towards the movie's average by the movie's share `v/(v+m)`; equally, it is the average moved towards the mean by the mean's share |
| Rating.WeightBounds | app.py:27-28 | with `m >= 0`, both shares lie in [0, 1] |
| Rating.ScoreIsConvex | app.py:27-28 | with `m >= 0`, the score lies between the movie's average and the corpus mean |
| Rating.ScoreAtMean | app.py:27-28 | a movie whose average is the mean scores the mean |
| Rating.ScoreExtremes | app.py:27-28 | a movie without votes scores the mean; with `m == 0`, a movie scores its own average |
| Rating.WeightMonotone | app.py:27-28 | more votes give the movie's average more weight and the mean less |
| Rating.ScoreMonotoneInVotes | app.py:27-28 | for the same average, more votes move the score away from the mean, towards the average |
| Ranking.Enumerate | app.py:36 | `enumerate(row)` pairs each position with its similarity |
| Ranking.SortDesc | app.py:36 | the sort is a permutation of its input, with non-increasing similarities |
| Ranking.Ranked | app.py:36 | the ranking is a permutation of `enumerate(row)` with non-increasing similarities |
| Ranking.SortIsStable | app.py:36 | sorting enumerated pairs puts equal similarities in index order, as Python's stable `sorted(reverse=True)` does |
| Ranking.RankedFacts | app.py:36 | the ranking lists every movie of the row exactly once, each with its own similarity, in that order |
| Ranking.NeighboursAsWritten | app.py:36 | `[1:6]` keeps `min(5, n-1)` movies of an `n`-movie row |
| Ranking.NeighboursAsWrittenSpec | app.py:36 | the code drops the best-ranked movie; the picks are the next best in order, each ahead of every other movie not picked |
| Ranking.Neighbours | app.py:36 | the intended neighbours: `min(5, n-1)` movies, never the query movie |
| Ranking.NeighboursSpec | app.py:36 | the intended picks are valid movies in ranking order, each ahead of every movie other than the query that was not picked |
| Ranking.AsWrittenAgreesWhenQueryRanksFirst | app.py:36 | when the query movie is ahead of every other movie of its own row (higher similarity, or equal similarity and lower index), the code's picks are the intended ones |
| Ranking.AsWrittenRecommendsQueryOnTie | app.py:36 | for the all-zero row `[0, 0]` of movie 1, the code picks movie 1 itself; the intended pick is movie 0 |
| Recommender.ScoreAll | app.py:24-29 | the scored table keeps every movie in place and gives each its weighted rating |
| Recommender.ScoresBetweenAverageAndMean | app.py:24-28 | every score in the table lies between the movie's average and the mean |
| Recommender.SelectLength | app.py:72-73 | the scan keeps at most one hit per row |
| Recommender.SelectEmpty | app.py:72-73 | nothing is kept exactly when no row is accepted |
| Recommender.SelectSound | app.py:72-73 | every hit is the title and score of an accepted row |
| Recommender.SelectComplete | app.py:72-73 | every accepted row gives a hit |
| Recommender.SelectPrefix | app.py:72-76 | scanning a prefix of the table gives a prefix of the hits, so stopping early keeps the first ones |
| Recommender.HitsAreMatches | app.py:72-74 | the hits are exactly the rows whose query tokens contain the genre: none exactly when no row matches, each from a matching row, every matching row among them |
| Recommender.RecommendByGenre | app.py:39-80 | it raises `AttributeError` exactly when a row that raises is reached before three matches are found. Otherwise it returns the message naming the genre as given when no row matches, and the first `min(3, k)` of the `k` matches in table order when some do |
| Recommender.GenreQueryInsensitive | app.py:40 | the hits do not depend on the case or surrounding whitespace of the genre asked for |
| Recommender.NoMoviesMessage | app.py:78-79 | the message holds the genre as it was asked for, not its normal form, in double quotes after a fixed text |
| Recommender.FirstIndex | app.py:34 | the lookup finds a row exactly when the title occurs; then it is the first row with that title |
| Recommender.TitlesOf | app.py:37 | one title per picked row, in order, each the title of its row |
| Recommender.RecommendAsWritten | app.py:33-37 | it raises `IndexError` exactly when no movie has the title; otherwise it returns `min(5, n-1)` titles |
| Recommender.RecommendAsWrittenSpec | app.py:33-37 | the code drops the movie ranked first in the row of the first movie with the title, whichever it is; the titles are those of the next best movies in descending similarity with ties to the lower row, and no movie left out, other than the dropped one, is more similar than one recommended |
| Recommender.Recommend | app.py:33-37 | the same error and length, for the corrected neighbours |
| Recommender.RecommendsTitleToItselfOnTie | app.py:33-37 | for titles `A`, `B` where `B` has an all-zero similarity row, the code recommends `["B"]` for `B`; the corrected query recommends `["A"]` |
| Recommender.RecommendSpec | app.py:33-37 | the corrected titles belong to movies other than the one asked for, in descending similarity with ties to the lower row; no movie left out is more similar than one recommended |

## Left out

- The Streamlit user interface, its widgets and `@st.cache_data` (app.py:1-23, 82-144) are presentation and caching, outside the engine.
- Reading the CSV and `fillna('')` on overviews (app.py:8-11) are file I/O; the model starts from a loaded table.
- TF-IDF and cosine similarity (app.py:16-19) are floating-point library code. The similarity matrix is an input, and only its shape is assumed (`Recommender.Square`).
- Computing `C` (a mean) and `m` (a 0.90 quantile) (app.py:25-26) is pandas statistics. Both are parameters of the score.
- `ast.literal_eval` is not modelled. A genre string comes with what it parses to, or with `None` when parsing raises.
- `str()` of a value that is not a string is part of the input: the genre field and list elements carry the text they print as.
- Recommender.RecommendByGenre: the score in a hit is the unrounded score, not `round(score, 2)` (app.py:73), because float64 rounding is not modelled.
- Rating.WeightedRating: works over exact reals, not float64, so rounding error is not modelled; a NaN average vote is not modelled.
- Rating.WeightedRating: requires a threshold `m >= 0`. `m` is a 0.90 quantile of vote counts (app.py:26), so it is never negative; with a negative `m` and `v == -m` numpy would give an infinity, which is not modelled.
- Text.Lower: lower-cases ASCII letters only; Python's `str.lower()` also maps non-ASCII letters.
- A `'name'` that is a `bytes` value would not raise at `.strip()` in Python; the model treats every non-string name as raising.
- Row labels are taken to be positions (the default `RangeIndex` of `read_csv`), so the `.index[0]` label of app.py:34 is the row position used by `similarity[ind]` and `iloc`.

## Findings

| source | as written | input that shows it | evidently intended | confidence | as-written member | corrected member |
|---|---|---|---|---|---|---|
| app.py:36 | `sorted(...)[1:6]` drops sorted position 0, assuming it is the query movie | a row that ties the query movie with a lower-indexed movie. Example: the all-zero row `[0.0, 0.0]` of movie 1 (an empty overview gives an all-zero row); the code recommends movie 1 to itself | drop the query movie itself and return the five most similar other movies | not executed; the stable sort puts the tie at position 0 | Recommender.RecommendsTitleToItselfOnTie | Recommender.RecommendSpec |
