# Book recommender core, modelled in Dafny

The book recommender loads a catalog of books and prepares it once. It
cleans the text columns with `clean_text` and joins the cleaned title,
authors, publisher, language code and year into one "bag of words" per book.
It indexes rows by cleaned title. It answers two queries:

- **search**: keep the books whose cleaned title contains the cleaned query;
- **recommend**: find the query book's row, rank every row by its similarity
  score to that row, skip the first of the ranking and return the next `n`.

This project models those steps as pure Dafny functions and proves what they
promise. Every module is one stage of `appl.py`:

- `TextClean` (`text_clean.dfy`): `clean_text` as its three passes
  (`lower`, the `[^a-zA-Z0-9\s]` substitution, the `\s+` collapse). It is
  proved equal to an independent one-pass definition, `SinglePass`. The
  module also holds space-separated tokens (`Words`).
- `Catalog` (`catalog.dfy`): the cleaned columns, the bag of words, and the
  title index.
- `Search` (`search.dfy`): the keyword filter.
- `Recommend` (`recommend.dfy`): `enumerate`, the stable descending sort,
  the slice `[1:n+1]` and `recommend_books`.
- `Wrappers` (`wrappers.dfy`): `Option`, standing for Python's `None`.

The similarity matrix is an input: a square table of `real` scores, one row
and one column per catalog row.

Behaviours of the code worth knowing, each modelled as the code has it:

- `clean_text` does not trim. `"The Hobbit!!"` cleans to `"the hobbit "`,
  with a trailing space (`TextClean.HobbitExample`). A leading or trailing
  run of non-alphanumerics becomes one space (`TextClean.NoTrim`).
- The code skips the first row of the ranking, which is not always the
  query's row. On a tied top score, a lower-numbered row is skipped and the
  query's own row is returned when `n` reaches its position in the ranking,
  which it always does when `n` covers the catalog
  (`Recommend.QueryReturnedUnlessRankedFirst`,
  `Recommend.TiedQueryIsRecommended`). With seven rows tied at the top and
  the default `n = 5`, the last of them is left out, even when it is the
  query's row.
- Any integer `n` is accepted, and the slice `[1:n+1]` follows Python's
  slice rules. `n = -1` gives `[1:0]`, which is empty; `n = -2` gives
  `[1:-1]`, every ranked row but the first and the last. The model takes any
  `int`, with Python slice bounds (`Recommend.PySlice`). The page calls
  `recommend_books` with its default `n = 5` (appl.py:43); the model passes
  `n` explicitly.
- A repeated cleaned title is not deduplicated by the code (see Findings).
  The model resolves it to its first row; this is a deliberate choice where
  the code is ill-defined.

Only `'A'..'Z'` are lower-cased. Whitespace is the set for which Python's
`str.isspace()` holds. Every whitespace character is a non-alphanumeric, so
after the two substitutions, every maximal run of characters outside
`[a-zA-Z0-9]` ends up as one space.

## Model

| member | source | states |
|---|---|---|
| `TextClean.CollapseSpace` | appl.py:14 | each whitespace run becomes one space: the output never holds two adjacent spaces, is no longer than the input, is empty only for empty input, and starts with a space exactly when the input starts with whitespace |
| `TextClean.CleanText` | appl.py:10-16 | the passes `LowerAll` (`text.lower()`, line 12), `MaskSymbols` (the `[^a-zA-Z0-9\s]` substitution, line 13) and `CollapseSpace` in turn; any non-string gives ""; the output of a string holds only `[a-z0-9 ]`, never two adjacent spaces, and is no longer than the input |
| `TextClean.CleanTextIsSinglePass` | appl.py:12-14 | the three passes equal the one-pass reference: each letter or digit is emitted lower-cased, and each maximal run of other characters becomes one space |
| `TextClean.CollapseMaskedIsSinglePass` | appl.py:12-14 | the collapse of the masked, lower-cased text equals the one-pass reference, both at the start of the text and after a gap |
| `TextClean.CleanTextLetters` | appl.py:12-14 | removing the spaces from the output leaves exactly the lower-cased letters and digits of the input, in order |
| `TextClean.NoTrim` | appl.py:12-14 | the output is empty exactly for empty input; it starts or ends with a space exactly when the input starts or ends with a character outside `[a-zA-Z0-9]` |
| `TextClean.Idempotent` | appl.py:10-16 | cleaning a cleaned text changes nothing |
| `TextClean.CollapseFixesClean` | appl.py:14 | a clean text (only `[a-z0-9 ]`, no two adjacent spaces) is left unchanged by the collapse |
| `TextClean.HobbitExample` | appl.py:10-16 | `"The Hobbit!!"` cleans to `"the hobbit "`, trailing space kept |
| `TextClean.WordsJoin` | appl.py:26-32 | joining two texts with a space concatenates their space-separated token lists |
| `Catalog.BagOfWords` | appl.py:26-32 | the bag of words is as long as the five fields plus four separators; it starts with the title followed by a space; and it uses only `[a-z0-9 ]` when the fields do |
| `Catalog.BagOfWordsTokens` | appl.py:26-32 | the tokens of the bag of words are the title's, then the authors', publisher's, language code's and year's tokens |
| `Catalog.PrepareRow` | appl.py:19-32 | the raw title and rating are kept; `title_clean` is the cleaned title; `authors`, `publisher`, `language_code` and `year` are replaced by the cleaned values of the book's fields; the bag of words is those five cleaned fields joined by spaces, uses only `[a-z0-9 ]`, and its tokens are the fields' tokens in field order |
| `Catalog.PrepareCatalog` | appl.py:19-32 | the column updates act row by row: one prepared row per book, in catalog order |
| `Catalog.Positions` | appl.py:69 | boolean-mask selection returns exactly the rows where the mask holds, in ascending row order |
| `Catalog.MatchingRows` | appl.py:40 | the as-written index selects every row whose cleaned title is the key, in row order |
| `Catalog.DuplicateTitleSelectsSeveralRows` | appl.py:40 | as written, a cleaned title that two rows share selects at least two rows |
| `Catalog.KeyIndex` | appl.py:40 | every cleaned title is a key; each key maps to a row with that title, and no earlier row has it |
| `Catalog.KeyIndexIsFirstMatch` | appl.py:40 | a key is present exactly when the as-written index selects some row, and it maps to the first of them |
| `Catalog.Lookup` | appl.py:40-49 | on the `title_clean` column (`TitleColumn`, the labels of line 40): "not found" exactly when no row has the cleaned title; otherwise the lowest such row |
| `Search.ContainsIsOccurrence` | appl.py:69 | the left-to-right scan succeeds exactly when the query occurs in the title at some position |
| `Search.SearchTitles` | appl.py:66-69 | the result holds exactly the rows whose cleaned title contains the cleaned query, in strictly ascending row order |
| `Search.SearchEmptyQuery` | appl.py:64-69 | a non-empty query never cleans to ""; a query that cleans to "" keeps every row |
| `Recommend.Enumerate` | appl.py:50 | pairs each row number with that row's score, in row order |
| `Recommend.Insert` | appl.py:51 | insertion adds exactly the one element to the multiset |
| `Recommend.SortByScoreDesc` | appl.py:51 | the sort is a permutation of its input |
| `Recommend.InsertRanked` | appl.py:51 | inserting an element that precedes all others in the input keeps the list in ranking order |
| `Recommend.SortRanked` | appl.py:51 | on input in ascending row order, the sort gives non-increasing scores, with ties in ascending row number (stability) |
| `Recommend.RankingFacts` | appl.py:50-51 | the ranking (`Ranking`, the sort applied to `enumerate` of the score row) holds every row exactly once with its own score, in ranking order |
| `Recommend.PySlice` | appl.py:53 | for `0 <= lo`: the elements from `lo` up to `hi` clamped to the length; empty when `lo` is past the end or `0 <= hi <= lo`; a negative `hi` stops that many elements before the end; every element of the slice is an element of the sequence |
| `Recommend.Dropped` | appl.py:53 | the skipped row has the highest score and is the lowest-numbered row among ties |
| `Recommend.TopSimilar` | appl.py:50-53 | the row numbers (`Indices`, the `i[0]` projection of line 53) of the slice `[1:n+1]` of the ranking; every returned row number is a row of the catalog |
| `Recommend.TopSimilarLength` | appl.py:53 | for `n >= 0` the result has `min(n, N-1)` rows for a catalog of `N >= 1` rows |
| `Recommend.TopSimilarIsRankingSlice` | appl.py:50-53 | the result is the ranking's row numbers at positions 1 up to the result's length |
| `Recommend.TopSimilarOrdered` | appl.py:50-53 | returned scores never increase, and equal scores come in ascending row number |
| `Recommend.TopSimilarSkipsDropped` | appl.py:53 | the skipped top row is never returned |
| `Recommend.TopSimilarRestRanksLower` | appl.py:50-53 | every row neither skipped nor returned scores no higher than the last returned row, and on a tie has a higher row number |
| `Recommend.QueryReturnedUnlessRankedFirst` | appl.py:50-53 | when `n` covers the catalog, the query's own row is returned exactly when it is not the skipped top row |
| `Recommend.TiedQueryIsRecommended` | appl.py:50-53 | with two equally scored rows, querying the second returns the second book itself |
| `Recommend.DistinctTop` | appl.py:53 | no row number is returned twice, for any `n` |
| `Recommend.RecommendBooks` | appl.py:43-53 | `None` exactly when the cleaned title is no row's cleaned title; otherwise distinct row numbers in range, `min(n, N-1)` of them for `n >= 0` |
| `Recommend.RecommendUsesFirstRow` | appl.py:44-53 | a found title is answered from the score row of the first row with that cleaned title |

## Left out

- Loading the CSV file (appl.py:8) is file input. The catalog is a parameter.
- The Streamlit page (appl.py:57-90) is not modelled: title, text box, warning, row display, buttons and table. The non-empty query guard at line 64 only appears through `Search.SearchEmptyQuery`.
- TF-IDF weighting and cosine similarity (appl.py:35-38) are not modelled. They are foreign library calls over floating point. The similarity matrix is an input of `real` scores, so NaN scores and rounding are not modelled.
- The `astype(str)` conversions (appl.py:19-23) are not modelled. A missing value there becomes the text `"nan"`, so book fields are plain strings. The non-string branch of `clean_text` is modelled through `TextClean.Value`.
- Non-ASCII lower-casing is not modelled. Python also lower-cases non-ASCII letters, and a few become ASCII letters or change length (for example U+212A KELVIN SIGN becomes `k`). The model treats every non-ASCII character as outside `[a-zA-Z0-9]`.
- `Recommend.RecommendBooks`: returns row numbers, not the projected columns `title`, `authors`, `publisher` and `average_rating` of line 55.
- `Recommend.RecommendBooks`: on a duplicated cleaned title it answers from the first row. The code as written indexes the matrix with several rows and then fails while sorting; that failure is not modelled (see Findings).
- `Recommend.TopSimilarLength`: states the result length for `n >= 0` only. For negative `n` the result follows `Recommend.PySlice`, without a separate length lemma.

## Findings

| source | as written | input that shows it | evidently intended | confidence | as-written member | corrected member |
|---|---|---|---|---|---|---|
| appl.py:40 | `drop_duplicates()` removes repeated values of the Series, which are distinct row numbers, so repeated cleaned titles stay in the index and `indices[title]` selects all of their rows | two books whose titles both clean to `"dune"`: `indices["dune"]` selects rows 0 and 1 instead of one row | one row per cleaned title, the first in catalog order | not executed; high for the selection of several rows | `Catalog.DuplicateTitleSelectsSeveralRows` | `Catalog.KeyIndexIsFirstMatch` |
