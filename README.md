# Restaurant recommender: the filter-and-rank path

This project models the ranking core of a small restaurant recommender written
in Python with pandas, scikit-learn and Streamlit. Each catalog row gets a key text,
`restaurant_type cuisine_type area`. A request gives three strings (type,
cuisine, location). `get_recommendations` builds the query text
`type cuisine location` from them. It keeps the rows whose `area` equals the
location exactly, and returns an empty series if none remain. Otherwise it
scores every remaining row against the query with TF-IDF and a linear kernel.
It sorts the positions by score with NumPy's `argsort`, keeps the last ten,
reverses them, and returns the `restaurant_name` of those rows. The result is a
pandas Series indexed by the rows' catalog labels.

Two modules:

- `Ranking` (ranking.dfy): what `argsort` promises about its result
  (`IsArgSort`: a permutation of the positions along which the scores ascend),
  one such order (`ArgSort`, an insertion sort proved stable), the selection
  `order[-k:][::-1]` (`TopK`), and the properties of that selection for every
  admissible order.
- `Recommend` (recommend.dfy): the `Restaurant` record, the key and query
  texts, the area filter, `GetRecommendations` and the end-to-end properties.

The similarity score is the parameter `scorer: (string, string) -> real`.
It is applied to the query text and a row's key text. Because `argsort` is not
stable, `GetRecommendations` also takes `order`. This stands for the
permutation `argsort` returned, and its precondition admits any permutation
along which the area's scores ascend. Every lemma holds for every admissible
order. `Ranking.ArgSort` shows that one always exists.
`Recommend.TieOrderOnlyPermutesEqualScores` shows that two admissible orders
differ only in which equally scored rows they return.

Catalog labels (`rowId`) are positions in the catalog sequence. That is the
default RangeIndex `read_csv` gives the frame.

## Model

| member | source | states |
|---|---|---|
| `Recommend.CombinedFeatures` | Recommend.py:10 | a row's key text is laid out exactly as the query text built from its own type, cuisine and area |
| `Recommend.UserProfile` | Recommend.py:23 | the query text has length of the three fields plus two, with type, a single space, cuisine, a single space and location at fixed offsets |
| `Recommend.ProfileLosesFieldBoundaries` | Recommend.py:23 | the query text does not keep field boundaries: moving a space-separated word from the end of the type to the start of the cuisine gives the same text from different inputs |
| `Recommend.SplitRequestsSameResult` | Recommend.py:21-41 | two such requests, which differ only in where a space falls between type and cuisine, get the same recommendations under every admissible order |
| `Recommend.FilterByArea` | Recommend.py:26 | each kept row is the catalog row with its label and has area equal to the location; labels strictly increase, so catalog order is kept; every catalog row in that area is kept |
| `Recommend.AreaCount` | Recommend.py:26 | the filtered frame has exactly as many rows as the catalog has rows in that area |
| `Recommend.EmptyIffNoneInArea` | Recommend.py:28-29 | the result is empty if and only if no catalog row's area equals the location |
| `Recommend.OnlyAreaRowsAreScored` | Recommend.py:28-35 | two scorers that agree on the area's rows give the same score row and the same result; with no row in the area every scorer gives the same empty result |
| `Ranking.ArgSort` | Recommend.py:38 | for every score row some order is a permutation of its positions along which the scores ascend, and it can be chosen stable: equal scores keep position order |
| `Ranking.PermutationFacts` | Recommend.py:38 | an argsort order has one entry per position, holds every position and holds none twice |
| `Ranking.TopK` | Recommend.py:38 | `order[-k:][::-1]` has min(k, n) entries, and its j-th entry is the j-th entry of order counted from the end |
| `Ranking.TopKDistinct` | Recommend.py:38 | for any argsort order the selection holds min(k, n) valid positions, none twice |
| `Ranking.TopKDescending` | Recommend.py:38 | for any argsort order the selected scores never increase |
| `Ranking.TopKDominates` | Recommend.py:38 | for any argsort order no position left out scores higher than any selected position |
| `Ranking.TopKScoresIndependentOfTies` | Recommend.py:38 | two argsort orders of one score row select equally many positions with the same score at each place |
| `Recommend.ResultAt` | Recommend.py:38-39 | the j-th entry is the label and name of the filtered row at the j-th selected position |
| `Recommend.GetRecommendations` | Recommend.py:21-41 | for any argsort order of the area's scores, the result has min(10, number of filtered rows) entries, and every entry names a catalog row whose area equals the location, with that row's label and name |
| `Recommend.Scores` | Recommend.py:35 | the score row has one score per filtered row; its contract states only the length, and `Recommend.AreaScoreAt` states each score |
| `Recommend.AreaScoreAt` | Recommend.py:35 | the score argsort sees at each filtered position is the scorer applied to the query text and that row's catalog key text |
| `Recommend.RecommendationCount` | Recommend.py:38 | the result has exactly min(10, number of catalog rows in the area) entries |
| `Recommend.RecommendationsDistinct` | Recommend.py:38-39 | no catalog row appears twice in the result |
| `Recommend.RecommendationsRanked` | Recommend.py:38-39 | the scores of the returned restaurants never increase along the result |
| `Recommend.RecommendationsAreTop` | Recommend.py:38-39 | a restaurant in the area that is not returned scores no higher than any returned restaurant |
| `Recommend.TieOrderOnlyPermutesEqualScores` | Recommend.py:38-39 | any two admissible argsort orders give results of the same length with equal scores at each place |
| `Recommend.ExampleDowntown` | Recommend.py:21-41 | in a catalog of two Downtown rows and one Uptown row, a Downtown request returns exactly the two Downtown rows, with labels 0 and 1 and names A and B |
| `Recommend.ExampleNowhere` | Recommend.py:28-29 | in the same catalog a location no row has gives the empty result |

## Left out

- Scores: its contract states only that there is one score per filtered row. The score at each position is stated by `Recommend.AreaScoreAt`, because a pointwise ensures on `Scores` would only repeat its body.
- Loading the catalog from CSV (Recommend.py:7) is file I/O. The catalog is a parameter.
- TF-IDF fitting and transforming and the linear kernel (Recommend.py:13-16, 32, 35) are scikit-learn code in floating point. They become the parameter `scorer`, a total function from (query text, key text) to a real. Rounding, NaN scores and how `argsort` places NaN are not modelled.
- `cosine_sim` (Recommend.py:19) is computed and never used.
- The Streamlit page (Recommend.py:43-57) is presentation.
- Missing values: pandas turns a missing type, cuisine or area into a missing key text, and a missing area never equals the location. The model's fields are always strings.
- The order `argsort` gives to equal scores is not fixed. NumPy's default sort is not stable, so the model admits every ascending order.
- Recommend.py has no price-band filter, no caller-chosen result size, no stable tie-break by catalog order, no random "surprise" pick and no load-time validation. The only filter is the area, the size is fixed at ten, and ties follow `argsort`. The model follows the code and has none of these either.
