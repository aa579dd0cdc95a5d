# Restaurant recommender: record parsing and top-k selection

This project models the two pieces of self-contained logic in the restaurant
recommender, and proves their properties in Dafny:

* **Reading the training file.** `TrainDataValue.FromCsv` splits a line at tab
  characters. It copies the first two fields as the user id and the restaurant
  name, and converts the third with `Convert.ToInt32` into the rating. The
  console application's loader drops the header line and parses every other
  line in file order. The first line that throws ends the load.
* **Choosing the recommendations.** Both programs use the same rule:
  1. take the distinct restaurants the target user has rated;
  2. take the distinct restaurant names of the whole corpus and drop the rated ones;
  3. score each remaining name with the predictor;
  4. order by score, highest first, with the stable `OrderByDescending`;
  5. keep the first 10.

The predictor is a trained matrix-factorisation model, called through a
foreign library. Here it is a parameter `predict: (string, string) -> real`,
which scores a (user id, restaurant name) pair. The target user id is a
parameter, and so is the limit, which the programs fix at 10.

Modules:

| module | file | models |
|---|---|---|
| `Results` | results.dfy | the exceptions the code can throw, and a `Result` type |
| `Text` | text.dfy | `String.Split(char)` and its inverse `Join` |
| `Int32Text` | int32_text.dfy | `Convert.ToInt32(string)`, plus the decimal form of an integer |
| `TrainData` | train_data_value.dfy | `TrainDataValue` and `FromCsv` |
| `Sequences` | sequences.dfy | `Distinct`, `Where(!Contains)`, first-occurrence index |
| `Ranking` | ranking.dfy | scoring, the stable descending sort, `Take`, the shared top-k rule |
| `RecommenderApp` | recommender_app.dfy | the console application: loader and top-k over `TrainDataValue` records |
| `RecommenderTrainer` | recommender_trainer.dfy | the training program: top-k over the rows of the training view |

The two programs repeat the selection over different record types. So
`RecommenderApp` and `RecommenderTrainer` each define the record-level steps
for their own record type: the rated names and the name column. Both then
hand over to `Ranking.Recommend`.

`OrderByDescending` is modelled as an insertion sort. Each entry goes after
every earlier entry of equal or higher score. The sort is proved to give a
sorted permutation that keeps equal scores in input order, which is the
stability .NET documents for `OrderByDescending`. The candidates come out of
`Distinct` in first-appearance order. So ties in the output follow the order
in which the restaurants first appear in the corpus.

`Convert.ToInt32` is modelled as .NET's integer parsing with the invariant
culture. It accepts optional white space around the number (space and
U+0009 to U+000D) and an optional `+` or `-` sign before ASCII digits. It also
accepts trailing NUL characters after the trailing white space. A value
outside Int32 raises `OverflowException`. Anything else raises
`FormatException`, and a format error takes precedence over an overflow.
`Int32Text.NumberText` describes the accepted text part by part, apart from
the conversion. `ToInt32Characterised` proves that the conversion succeeds,
overflows or fails on exactly the texts that description says it should.

Two consequences of the code are proved:
- Ties are ordered. `OrderByDescending` is stable and `Distinct` keeps first
  appearances, so recommendations of equal score follow the corpus order
  (`RecommendedTiesInCorpusOrder`). An unrated restaurant cut off at the
  same score as a recommended one first appears after it
  (`LeftOutTiesComeLater`).
- The rating field is more than a bare integer. Surrounding white space
  (`SurroundingWhiteIgnored`), a `+` sign (`PlusSignIgnored`) and leading
  zeros (`LeadingZeroIgnored`) leave the rating unchanged. A decimal point
  or a trailing letter is a format error (`NotIntegers`, `FractionalRating`).

## Model

| member | source | states |
|---|---|---|
| Text.Split | RestaurantRecommenderApp/TrainDataValue.cs:17 | `Split('\t')` gives one more piece than there are tabs; no piece holds a tab; joining the pieces with tabs gives back the line |
| Text.SplitJoin | RestaurantRecommenderApp/TrainDataValue.cs:17 | splitting tab-free fields joined by tabs gives back exactly those fields, empty ones included |
| Text.SplitAppend | RestaurantRecommenderApp/TrainDataValue.cs:17 | splitting `a + "\t" + b` is splitting `a` followed by splitting `b` |
| Text.SplitNoSeparator | RestaurantRecommenderApp/TrainDataValue.cs:17 | a line with no tab is one field, whatever commas it holds |
| Int32Text.ToInt32 | RestaurantRecommenderApp/TrainDataValue.cs:22 | the conversion fails only with a format or an overflow exception, and succeeds with an Int32 |
| Int32Text.SignedInt32 | RestaurantRecommenderApp/TrainDataValue.cs:22 | reading the sign and digits left after trimming fails only with a format or an overflow exception |
| Int32Text.WellFormedConverts | RestaurantRecommenderApp/TrainDataValue.cs:22 | every text of the integer style (white space, optional sign, digits, white space, NULs) converts to its signed value, or overflows when that value is outside Int32 |
| Int32Text.ToInt32Characterised | RestaurantRecommenderApp/TrainDataValue.cs:22 | the conversion succeeds if and only if the text is of the integer style with a value in Int32, and then yields that value; it overflows if and only if the text is of that style with a value outside Int32; it is a format error if and only if the text is not of that style |
| Int32Text.PlusSignIgnored | RestaurantRecommenderApp/TrainDataValue.cs:22 | a `+` sign converts as if it were absent |
| Int32Text.LeadingZeroIgnored | RestaurantRecommenderApp/TrainDataValue.cs:22 | a leading zero does not change the conversion |
| Int32Text.NotIntegers | RestaurantRecommenderApp/TrainDataValue.cs:22 | "4.5" and "12a" are format errors |
| Int32Text.Digits | RestaurantRecommenderApp/TrainDataValue.cs:22 | the decimal digits of a natural number are non-empty, all digits, without a leading zero when positive, and read back as the number |
| Int32Text.DecimalRoundTrip | RestaurantRecommenderApp/TrainDataValue.cs:22 | every Int32 written in decimal converts back to itself, negative values and zero included |
| Int32Text.DecimalOverflow | RestaurantRecommenderApp/TrainDataValue.cs:22 | a well-formed decimal outside Int32 raises an overflow exception |
| Int32Text.NoDigitIsFormatError | RestaurantRecommenderApp/TrainDataValue.cs:22 | text without a digit, the empty string included, raises a format exception |
| Int32Text.SurroundingWhiteIgnored | RestaurantRecommenderApp/TrainDataValue.cs:22 | white space around the number does not change the conversion |
| TrainData.FromCsv | RestaurantRecommenderApp/TrainDataValue.cs:15-25 | a parsed record's user id and restaurant name contain no tab |
| TrainData.ThreeFields | RestaurantRecommenderApp/TrainDataValue.cs:17-23 | on a three-field line, user and restaurant are copied verbatim, empty fields included, and the outcome is exactly the conversion of the third field |
| TrainData.RoundTrip | RestaurantRecommenderApp/TrainDataValue.cs:15-25 | `u + "\t" + r + "\t" + decimal(n)` with tab-free `u`, `r` and an Int32 `n` parses to the record (u, r, n) |
| TrainData.RatingOverflow | RestaurantRecommenderApp/TrainDataValue.cs:22 | a rating outside Int32 makes the line fail with an overflow exception |
| TrainData.WellFormedRating | RestaurantRecommenderApp/TrainDataValue.cs:15-25 | a tab-free rating field of the integer style gives the record with its value, or fails with an overflow exception when the value is outside Int32 |
| TrainData.RatingNotAnInteger | RestaurantRecommenderApp/TrainDataValue.cs:22 | a rating field that is not of the integer style makes the line fail with a format exception |
| TrainData.FractionalRating | RestaurantRecommenderApp/TrainDataValue.cs:22 | a rating of "4.5" makes the line fail with a format exception rather than being truncated |
| TrainData.RatingWithoutDigits | RestaurantRecommenderApp/TrainDataValue.cs:22 | a rating field with no digit, an empty one included, makes the line fail with a format exception |
| TrainData.TooFewFields | RestaurantRecommenderApp/TrainDataValue.cs:20-22 | the index-out-of-range exception happens if and only if the line has fewer than two tabs |
| TrainData.ExtraFieldsIgnored | RestaurantRecommenderApp/TrainDataValue.cs:17-22 | appending a fourth field and more to a line of three or more fields does not change the outcome |
| TrainData.CommaIsNotASeparator | RestaurantRecommenderApp/TrainDataValue.cs:17 | a comma-separated row is a single field, so it fails with an index-out-of-range exception |
| RecommenderApp.ParseLines | RestaurantRecommenderApp/Program.cs:18 | for any per-line parse: succeeds if and only if every line parses; the records are the parsed lines, one each, in order; on failure the exception is the first failing line's |
| RecommenderApp.LoadTrainingData | RestaurantRecommenderApp/Program.cs:16-18 | the header line is never parsed; the load succeeds if and only if every later line parses; record i is line i + 1 parsed; on failure the exception is the first failing later line's |
| RecommenderApp.RatedBy | RestaurantRecommenderApp/Program.cs:20-22 | a name is listed if and only if some record of the user names it |
| RecommenderApp.RestaurantNames | RestaurantRecommenderApp/Program.cs:25-26 | one name per record, and a name is listed if and only if some record names it |
| RecommenderApp.TopRestaurants | RestaurantRecommenderApp/Program.cs:20-44 | at most k recommendations, sorted by non-increasing score |
| Sequences.FirstIndex | RestaurantRecommenderApp/Program.cs:25-27 | the index of the first occurrence, or the length if there is none |
| Sequences.Distinct | RestaurantRecommenderApp/Program.cs:25-27 | no duplicates, and exactly the elements of the input |
| Sequences.DistinctInFirstOccurrenceOrder | RestaurantRecommenderApp/Program.cs:25-27 | `Distinct` lists elements in increasing order of their first occurrence |
| Sequences.Without | RestaurantRecommenderApp/Program.cs:28 | keeps exactly the elements not in the excluded sequence |
| Sequences.WithoutKeepsOrder | RestaurantRecommenderApp/Program.cs:28 | filtering keeps the relative order of the kept elements |
| Sequences.CountElements | RestaurantRecommenderApp/Program.cs:25-28 | a sequence has at least as many positions as distinct elements, and exactly as many when it has no duplicates |
| Ranking.ScoreAll | RestaurantRecommenderApp/Program.cs:30-40 | the scored entries carry the names in their input order |
| Ranking.ScoredNames | RestaurantRecommenderApp/Program.cs:30-40 | an entry is scored if and only if its name is one of the names and its score is the predictor's for the user and that name |
| Ranking.InsertionPoint | RestaurantRecommenderApp/Program.cs:42-43 | the insertion point of a stable descending insert: after every entry scoring at least as much, before the first scoring less |
| Ranking.Insert | RestaurantRecommenderApp/Program.cs:42-43 | inserting into a sorted sequence keeps it sorted and adds exactly the new entry |
| Ranking.OrderByDescending | RestaurantRecommenderApp/Program.cs:42-43 | the result is sorted by non-increasing score and is a permutation of the input |
| Ranking.OrderByDescendingIsStable | RestaurantRecommenderApp/Program.cs:42-43 | entries of equal score keep their input order |
| Ranking.Take | RestaurantRecommenderApp/Program.cs:44 | the result is a prefix of the input; it is the whole input when that has at most k entries, and k entries otherwise |
| Ranking.Candidates | RestaurantRecommenderApp/Program.cs:20-28 | a name is a candidate if and only if it is in the corpus and not among the rated names |
| Ranking.Recommend | RestaurantRecommenderApp/Program.cs:42-44 | at most k entries, sorted by non-increasing score |
| Ranking.CandidatesAreUnratedNames | RestaurantRecommenderApp/Program.cs:20-28 | the candidates are exactly the corpus names the user has not rated, without duplicates, in order of first appearance in the corpus |
| Ranking.NoRatingsMeansAllCandidates | RestaurantRecommenderApp/Program.cs:20-28 | when the user rated nothing, every distinct restaurant is a candidate |
| Ranking.SortedScoresAreCandidates | RestaurantRecommenderApp/Program.cs:30-43 | the sorted scores are one per candidate, each paired with its own name and its own predicted score |
| Ranking.SortedNamesAreDistinct | RestaurantRecommenderApp/Program.cs:30-43 | scoring and sorting distinct names gives distinct names |
| Ranking.RecommendedAreUnratedCorpusNames | RestaurantRecommenderApp/Program.cs:20-40 | every output restaurant is in the corpus and not rated by the user, with the predictor's score for the user and that restaurant |
| Ranking.RecommendedAreDistinct | RestaurantRecommenderApp/Program.cs:25-44 | the output holds no restaurant twice |
| Ranking.RecommendedCount | RestaurantRecommenderApp/Program.cs:20-44 | the output length is min(k, number of distinct unrated restaurants) |
| Ranking.RecommendedAllWhenFew | RestaurantRecommenderApp/Program.cs:20-44 | with at most k unrated restaurants, every one of them is in the output |
| Ranking.LeftOutScoresNoHigher | RestaurantRecommenderApp/Program.cs:42-44 | in a sorted sequence, an entry outside a prefix scores no higher than any entry of the prefix |
| Ranking.RecommendedAreTopK | RestaurantRecommenderApp/Program.cs:42-44 | every unrated restaurant left out scores no higher than every output entry |
| Ranking.SortedTiesInCorpusOrder | RestaurantRecommenderApp/Program.cs:25-43 | after the sort, candidates of equal score are in order of their first appearance in the corpus |
| Ranking.RecommendedTiesInCorpusOrder | RestaurantRecommenderApp/Program.cs:25-44 | output entries of equal score appear in order of their first appearance in the corpus |
| Ranking.LeftOutFollowsTies | RestaurantRecommenderApp/Program.cs:42-44 | in a sorted sequence whose ties follow a rank, an entry outside a prefix ranks after every prefix entry of the same score |
| Ranking.LeftOutTiesComeLater | RestaurantRecommenderApp/Program.cs:25-44 | an unrated restaurant left out with the same score as an output entry first appears in the corpus after that entry's restaurant |
| RecommenderApp.RecommendationsAreUnratedRestaurants | RestaurantRecommenderApp/Program.cs:20-40 | each recommendation names the restaurant of some record, no record of the user names it, and its score is the predictor's for that user and restaurant |
| RecommenderApp.RecommendationsAreTopK | RestaurantRecommenderApp/Program.cs:20-44 | the recommendations are distinct, sorted best first, number min(k, unrated restaurants), and score no lower than any unrated restaurant left out |
| RecommenderApp.RecommendationsCoverFewCandidates | RestaurantRecommenderApp/Program.cs:20-44 | with at most k unrated restaurants, all of them are recommended |
| RecommenderApp.RecommendationsKeepFileOrderOnTies | RestaurantRecommenderApp/Program.cs:25-44 | recommendations of equal score follow the order in which their restaurants first occur in the file; an unrated restaurant left out with the score of a recommended one first occurs after it |
| RecommenderApp.SmallCorpusExample | RestaurantRecommenderApp/Program.cs:20-44 | for records (U1,A), (U1,B), (U2,A), (U2,C), user U1 is recommended C alone, whatever the scores |
| RecommenderTrainer.RatedBy | RestaurantRecommender/Program.cs:58-64 | a name is listed if and only if some row of the user names it |
| RecommenderTrainer.RestaurantNameColumn | RestaurantRecommender/Program.cs:66-68 | one name per row, and a name is listed if and only if some row names it |
| RecommenderTrainer.TopRestaurants | RestaurantRecommender/Program.cs:58-86 | at most k recommendations, sorted by non-increasing score |
| RecommenderTrainer.TopRestaurantsContract | RestaurantRecommender/Program.cs:58-86 | each recommendation is a view restaurant no row of the user names, scored once with its own name; the recommendations are distinct, sorted best first, number min(k, unrated restaurants), beat every unrated restaurant left out, and keep first-appearance order on ties, across the cut too |

## Left out

- Model training: the key encoding (`MapValueToKey`), matrix factorisation, `Fit`, `MLContext`, and the prediction engines (RestaurantRecommender/Program.cs:15-56). This is a foreign library doing floating-point numerics.
- RestaurantRecommenderModel/ConsumeModel.cs: a lazily created prediction engine loaded from a zip file. It is I/O plus a foreign call, and appears only as the `predict` parameter.
- The value of predicted scores. Scores are reals, so the NaN ordering of single-precision floats is not modelled.
- File reading: `File.ReadAllLines` with a hard-coded path, `LoadFromTextFile`, and `DataPreparer.PreprocessData`. DataPreparer is not part of this model. The loader takes the file's lines as input.
- `IDataView` access (`CreateEnumerable`, `GetColumn`). The view is a sequence of rows.
- The console output (`Console.WriteLine`, the `#.0` format). It prints the recommendations in result order.
- The hard-coded target user ids "U1080" and "U1134", and the limit 10. These are the parameters `user` and `k`.
- RecommenderTrainer.ModelInput: the `ModelInput` class is not part of this model. Its columns are taken from how the program uses them. The label's type is assumed to be a real, and the selection never reads it.
- Int32Text.ToInt32: assumes the invariant culture's signs `-` and `+`. Other cultures' signs are not modelled, and neither is `Convert.ToInt32(null)` returning 0, since `Split` never yields null.
- LINQ laziness: `alreadyRatedRestaurants` is re-enumerated for each `Contains` call. It yields the same names each time, so it is modelled as one sequence.
