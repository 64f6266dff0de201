# Recipe match engine, modelled in Dafny

This project models `find_recipe_tfidf`, the search engine of a recipe server. The engine takes a
list of search terms and a corpus of recipes. Each recipe has a title, display payloads for its
ingredients and directions, and a list of normalised ingredient names (the NER list).

The engine runs one pass per combination size r, from the number of terms down to 1. In pass r it
tries every r-combination of the terms, chosen by position. For each combination it keeps the
recipes that do both of these:

- pass a coarse similarity filter;
- fully match: every term of the combination is a case-insensitive substring of some ingredient
  name.

Every kept recipe is tagged with two columns: `MatchedCount` and `IngredientCount`. The rows of
one pass are sorted by ingredient count and appended to a running table. Between passes, the
engine stops once that table holds at least `min_recipes` rows. The table is then deduplicated by
title, with the first row of each title kept, and cut to `min_recipes` rows. The result is the
title, ingredients, directions and matched count of each row.

Files and modules:

- `text.dfy` (`Text`): ASCII lower-casing and the substring test.
- `combinations.dfy` (`Combinatorics`): `itertools.combinations` in its own order, binomial
  counts, subsequences.
- `recipes.dfy` (`Recipes`): the records the engine reads and returns, the coarse-filter type and
  the error result.
- `frames.dfy` (`Frames`): the table operations. These are the sort by ingredient count,
  `drop_duplicates` by title, `head`, and the projection to the returned columns.
- `matching.dfy` (`Matching`): `full_match`, `MatchedCount`, the rows one combination admits,
  and the empty coarse set on which a combination fails.
- `search.dfy` (`RecipeSearch`): the engine as an imperative method with its two loops, and
  lemmas about what it returns.
- `scenarios.dfy` (`Scenarios`): a worked query against a one-recipe corpus, any query against
  an empty corpus, and the empty query, each also run through the engine method itself.

The coarse filter is a parameter, `coarse(combination, index)`. It stands for the TF-IDF cosine
similarity of the query `" ".join(combination)` against corpus row `index`, at threshold 0.1.

`FindRecipeTfidf` returns a ghost value, `blocks`: the sorted block of each pass that ran. Its
contract pins down each block only up to its order among equal ingredient counts. Any such order
is allowed, because the source's sort is not stable.

An empty list of terms does not give an empty result. No pass runs, so the running table stays
a `DataFrame` with no columns. `drop_duplicates` and `head` pass an empty frame through
unchanged. Selecting the four returned columns from it then fails with a missing column error,
and `title` is the first column named. The method returns `Err(MissingColumn("title"))` exactly
when the terms are empty.

A combination whose coarse filter keeps no corpus row also fails, and the whole call fails with
it. This always happens against an empty corpus. The steps in pandas:

- `df.loc[mask]` is empty, and so is the `FullMatch` column built from it;
- that empty column holds objects, not booleans, so `filtered_df[filtered_df["FullMatch"]]`
  reads it as a list of column labels and selects no columns;
- reading `full_match_df["NERList"]` then fails with a missing column error.

A coarse set that is not empty but has no full match is fine: its `FullMatch` column is boolean.
The failure happens only in a pass that runs, at its first such combination. The method then
returns `Err(MissingColumn("NERList"))`, and its ghost `blocks` are the passes completed before
that one.

A non-positive `min_recipes` is modelled as pandas handles it:

- the first pass always meets the stop check;
- `head(0)` keeps nothing;
- `head(-n)` drops the last n rows.

## Model

| member | source | states |
|---|---|---|
| Text.LowerChar | recipe_search.py:35 | lower-casing one character maps `A`..`Z` to `a`..`z` and leaves every other character unchanged |
| Text.Lower | recipe_search.py:35 | `str.lower` on ASCII keeps the length, leaves no upper-case letter, moves each of `A`..`Z` down to its lower-case letter, and leaves every other character unchanged |
| Text.LowerIdempotent | recipe_search.py:35 | lower-casing twice is lower-casing once |
| Text.ContainsIffWindow | recipe_search.py:35 | the recursive substring test `term in ingredient` holds exactly when the term occurs at some position of the ingredient |
| Text.EmptyContained | recipe_search.py:35 | the empty term is contained in every ingredient name |
| Text.ContainsBounded | recipe_search.py:35 | a contained term is no longer than the ingredient name |
| Matching.TermMatches | recipe_search.py:35 | a term matches when its lower-cased form is contained in the lower-cased form of some ingredient name |
| Matching.TermMatchesIffWindow | recipe_search.py:35 | a term matches exactly when its lower-cased form occurs at some position of some lower-cased ingredient name |
| Combinatorics.Combinations | recipe_search.py:23 | pass r tries C(n, r) combinations, each of size r |
| Combinatorics.BinomialPositive | recipe_search.py:22-23 | there is at least one r-combination exactly when r is at most the number of terms, so every pass tries one |
| Combinatorics.CombinationsAreSubsequences | recipe_search.py:23 | the r-combinations are exactly the length-r subsequences of the terms, in both directions |
| Combinatorics.CombinationsCommuteWithMap | recipe_search.py:23 | which selections are made does not depend on the values of the terms |
| Combinatorics.CombinationsOfPositions | recipe_search.py:23 | combinations are taken by position: they are the terms at each r-combination of the positions, so repeated terms give repeated combinations |
| Matching.TermMatchesIgnoresCase | recipe_search.py:35 | whether a term matches depends only on its lower-cased form |
| Matching.FullMatch | recipe_search.py:34-35 | `full_match`: every term of the combination matches some ingredient name; true for the empty combination, as `all` of nothing is |
| Matching.FullMatchByTerms | recipe_search.py:34-35 | a full match depends only on which terms occur in the combination, not on their order or repetition |
| Matching.MatchedCount | recipe_search.py:37-39 | the count is at most the size of the combination and equals it exactly on a full match |
| Matching.Admissions | recipe_search.py:31-46 | each kept row is a corpus row, unchanged, that passed the coarse filter and fully matched, with matched count equal to the size of the combination and ingredient count equal to its NER length; rows are in strictly increasing corpus order, so none repeats |
| Matching.AdmissionsComplete | recipe_search.py:31-42 | every corpus row that passes the filter and fully matches is kept |
| Matching.CoarseEmptyAdmitsNothing | recipe_search.py:31-42 | a combination whose coarse set is empty, the case that fails, could not have admitted any row |
| Matching.ConcatAdmissions | recipe_search.py:26-47 | `temp_results` of one pass before sorting: each combination's admitted rows appended in the order of the combinations |
| Matching.ConcatAdmissionsAppend | recipe_search.py:26-47 | the concatenation over two runs of combinations is the concatenation of the two results, so rows follow the order of the combinations |
| Matching.ConcatAdmissionsSound | recipe_search.py:26-47 | every row of a pass's concatenation was admitted by one of its combinations |
| Matching.ConcatAdmissionsComplete | recipe_search.py:26-47 | every row admitted by any combination of the pass occurs in the concatenation |
| Frames.SortByIngredientCount | recipe_search.py:49 | the sorted rows are non-decreasing in ingredient count and a permutation of the input |
| Frames.DropDuplicatesByTitle | recipe_search.py:55 | no two remaining rows share a title, and no rows are added |
| Frames.DropDuplicatesKeepsOrder | recipe_search.py:55 | the remaining rows keep their relative order |
| Frames.DropDuplicatesKeepsFirst | recipe_search.py:55 | each remaining row is the first row of its title in the input |
| Frames.DropDuplicatesKeepsEveryTitle | recipe_search.py:55 | every title of the input keeps one row |
| Frames.Head | recipe_search.py:55 | `head(n)` is a prefix: the first min(n, size) rows for n >= 0, and for n < 0 all but the last -n rows (none when there are fewer) |
| Frames.SubseqRanked | recipe_search.py:55 | keeping a subsequence of a ranked table keeps it ranked |
| Frames.Project | recipe_search.py:56 | one returned record per row, in the same order, carrying the row's title, ingredients, directions and matched count |
| RecipeSearch.Finish | recipe_search.py:55 | the result has at most `min_recipes` rows when that is non-negative, and no more than the accumulated rows, with distinct titles |
| RecipeSearch.SearchPass | recipe_search.py:23-49 | pass r fails with the missing `NERList` column exactly when one of its r-combinations has an empty coarse set; otherwise its block is sorted by ingredient count and is a permutation of the concatenated admissions of all r-combinations |
| RecipeSearch.FindRecipeTfidf | recipe_search.py:19-56 | the missing `title` column error exactly for an empty query. The missing `NERList` column error only when the passes before the failing one ran without failing and without reaching `min_recipes`, and the failing pass has a combination with an empty coarse set. Otherwise the passes that ran are a prefix of r = n, n-1, …, none of them failing, each block being its pass sorted; a further pass runs only while the pre-dedup count is below `min_recipes`; an early stop happens only once it is reached. The result is the deduplicated, truncated concatenation, projected to the four returned columns |
| RecipeSearch.BlockRowAdmitted | recipe_search.py:37-50 | every row of the block of pass r was admitted by an r-combination and carries matched count r |
| RecipeSearch.AccumulatedRowAdmitted | recipe_search.py:31-50 | every accumulated row is a corpus row, unchanged, that passed the coarse filter and fully matched a combination of the terms whose size is its matched count |
| RecipeSearch.AccumulatedRanked | recipe_search.py:22-50 | rows of an earlier (larger) pass precede rows of a later one, and within a pass ingredient counts do not decrease |
| RecipeSearch.ResultRanked | recipe_search.py:55 | the returned rows keep that ranking |
| RecipeSearch.ResultRowProvenance | recipe_search.py:55-56 | each returned row is the first accumulated row of its title and has the largest matched count among them; its title, ingredients and directions are those of a corpus row that passed the filter and fully matched a combination of that size |
| RecipeSearch.ResultKeepsEveryTitle | recipe_search.py:55 | when the result is shorter than `min_recipes`, every accumulated title appears in it |
| RecipeSearch.CumulativeIsPassTotal | recipe_search.py:50-53 | the running count after k passes depends only on the passes, not on how ties were sorted |
| RecipeSearch.PassesIndependentOfTieOrder | recipe_search.py:49-53 | two runs that differ only in tie order run the same passes, and each pass appends the same rows |
| RecipeSearch.SuccessExcludesFailure | recipe_search.py:22-53 | whether a call fails on an empty coarse set does not depend on the tie order: when one run succeeds, no run fails |
| Scenarios.TwoTermResult | recipe_search.py:22-56 | for a one-recipe corpus matching both of two terms, with a target above 1, both passes run: the pair, then each term, admitting the recipe three times. The recipe comes back once, with matched count 2 |
| Scenarios.ChickenAndRice | recipe_search.py:19-56 | assuming the coarse filter keeps the recipe for ["chicken", "rice"], ["chicken"] and ["rice"]: for the query ["chicken", "rice"] against one chicken, rice and salt recipe with target 10, the passes `PassesFor` allows deduplicate, truncate and project to that recipe once, with matched count 2 |
| Scenarios.PassKeepsRow | recipe_search.py:26-45 | a pass cannot fail when the coarse filter keeps some one corpus row for every one of its combinations |
| Scenarios.ChickenRiceNeverFails | recipe_search.py:22-45 | under the same coarse assumption, no run of the chicken and rice query fails on an empty coarse set |
| Scenarios.ChickenAndRiceQuery | recipe_search.py:19-56 | under the same coarse assumption, the engine itself returns `Ok` with exactly that one record |
| Scenarios.EmptyQuery | recipe_search.py:19-56 | the engine itself, given no terms, fails on the missing `title` column, whatever the corpus, filter and target |
| Scenarios.EmptyCorpusFails | recipe_search.py:22-45 | against an empty corpus every non-empty query fails in its first pass, before any block is appended |
| Scenarios.EmptyCorpusQuery | recipe_search.py:22-45 | the engine itself, given any non-empty query against an empty corpus, fails on the missing `NERList` column |

## Left out

- The TF-IDF vectoriser, `vectorizer.transform` and `cosine_similarity`
  (recipe_search.py:3-4, 13-14, 28-29) are floating-point library code. They are the abstract
  `coarse` parameter; only its boolean verdict per combination and corpus row is modelled.
- `setup_tfidf` (recipe_search.py:8-16) is left out: it reads the CSV file and decodes the NER
  column from JSON. The corpus is given as typed `Recipe` records, with the NER list already
  parsed.
- `ingredients` and `directions` are carried as opaque strings. The JSON decoding and joining done
  by the HTTP layer is not modelled.
- main.py is not part of this model: the web application, its startup, its request and response
  models, and `process_recipe_results`.
- Text.Lower: only the ASCII letters are folded. Python's `str.lower` also lower-cases other
  Unicode letters, and some of those change length.
- pandas index labels carried by `.loc` and `concat` are not modelled. A row records its corpus
  position, and only the returned columns reach the result.
- Frames.SortByIngredientCount: this one ordering, an insertion sort, is only used to build a
  block inside `SearchPass`. No contract relies on it: `SearchPass` and `FindRecipeTfidf` promise
  only "sorted and a permutation", as the source's non-stable quicksort does.
- The failure on an empty coarse set is modelled as the pandas releases that treat an empty
  column of objects as a list of column labels behave.
- Rows with a missing (NaN) title, and pandas treating such titles as equal in
  `drop_duplicates`, are not modelled: titles are strings.
