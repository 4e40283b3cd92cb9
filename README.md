# Text classifier of the voice-assistant activity

This project models the text-classification core of the Android app's
`MainActivity`. A spoken sentence goes through these steps:

1. `preprocessText` turns it into tokens.
2. `extractFeatures` turns the tokens into an L2-normalised bag-of-words vector over the vocabulary.
3. `knnClassify` compares that vector with every row of the training matrix by Euclidean distance (`calculateEuclideanDistance`). It sorts the `(distance, label)` pairs stably by distance and keeps the first `k = 3`. It then counts the labels and shows the winner as "Kelas 1", "Kelas 2", "Kelas 3" or "Unknown".
4. `classifyText` chains the steps. It turns any exception into "Error: " followed by the exception's message.

Modules:

- `Outcomes` (outcomes.dfy):
  - `Option` and `Result`;
  - the three exceptions the core can raise (array index out of range, uninitialised `lateinit` property, negative count passed to `take`);
  - the message text of each.
- `Tokenizer` (tokenizer.dfy): `preprocessText` as pure functions, i.e. lower-casing, stripping, splitting on whitespace runs and dropping empty pieces. Lemmas state:
  - what tokens look like;
  - that no ASCII letter or digit of the text is lost or reordered: the tokens, concatenated, are exactly those characters, lower-cased, in order;
  - that tokenising is idempotent.
- `Features` (features.dfy): `extractFeatures` as a method over an `array<real>`.
  - It is proved against the function `FeatureVector`.
  - Lemmas state what the count vector holds, what unknown words do, and exactly when the method throws.
- `Distance` (distance.dfy): `calculateEuclideanDistance` as a loop, proved against `SquaredDistance`.
- `Neighbours` (neighbours.dfy): the `(distance, label)` pair and `sortBy { it.first }`. The sort is an in-place insertion sort on an array, proved equal to the reference `StableSort`. `StableSort` is proved sorted, a permutation and stable, and it is the only sequence with those three properties.
- `Votes` (votes.dfy): the vote loop over a `LinkedHashMap` and `maxByOrNull`, with the plurality and tie-break lemmas.
- `Classifier` (classifier.dfy):
  - `knnClassify` and `classifyText`, as methods proved against the functions `Knn`, `Classification` and `Report`;
  - end-to-end lemmas.

`Double` is modelled by `real`, and `Math.sqrt` is the function parameter `sqrt`. The three `lateinit` tables are the value `Tables`, whose fields are `Option`s. `None` stands for a table that loading never assigned.

Three behaviours of the code at its edges are worth stating, because they are easy to get wrong:

- **Label ties.** The vote's tie-break does not depend on hash order. `mutableMapOf` is a `LinkedHashMap`, which iterates in insertion order. `maxByOrNull` replaces its candidate only when a count is strictly larger. So among labels with the same count, the one that appears first in the sorted nearest list wins (`Votes.VoteTieBreak`, `Votes.VoteUnique`). It is not the smallest label code.
- **Fewer rows than `k`.** If there are fewer training rows than `k`, `take` returns all of them (`Classifier.VoteOverAllRows`). A negative `k` makes `take` throw, and the model keeps that error.
- **Empty training matrix.** With an empty matrix, the code does not fail. There are no votes, so the label defaults to 0 and the result is "Kelas 1" (`Classifier.EmptyMatrixYieldsFirstClass`).

## Model

| member | source | states |
|---|---|---|
| Tokenizer.Lower | Project-Akhir-master/app/src/main/java/com/example/cobakotlin/MainActivity.kt:131 | `toLowerCase` on ASCII: the same length, each upper-case ASCII letter replaced by its lower-case letter (code point + 32), every other character unchanged |
| Tokenizer.Strip | Project-Akhir-master/app/src/main/java/com/example/cobakotlin/MainActivity.kt:132 | the regex replacement keeps at most the input's characters, and only letters, digits and whitespace |
| Tokenizer.Fields | Project-Akhir-master/app/src/main/java/com/example/cobakotlin/MainActivity.kt:133 | `split("\\s+")` always yields at least one piece; with `FieldsPrefix` (a whitespace-free prefix joins the first piece), `FieldsAfterSpaces` (a whitespace run starts a new piece) and `Fields("") == [""]`, the split is fixed on every string |
| Tokenizer.NonEmpty | Project-Akhir-master/app/src/main/java/com/example/cobakotlin/MainActivity.kt:134 | `filter { it.isNotEmpty() }` keeps no more pieces than it is given, and none of them is empty |
| Tokenizer.Tokens | Project-Akhir-master/app/src/main/java/com/example/cobakotlin/MainActivity.kt:130-135 | `preprocessText`: no token is empty (`Tokenizer.TokensAreWellFormed` adds that each is lower-case letters and digits) |
| Features.Tally | Project-Akhir-master/app/src/main/java/com/example/cobakotlin/MainActivity.kt:140-146 | the counting loop's vector has `vocabulary.size` entries, none negative |
| Features.FirstMisplaced | Project-Akhir-master/app/src/main/java/com/example/cobakotlin/MainActivity.kt:142-146 | the reported column is that of the first token whose vocabulary column lies outside `0 .. size - 1`, where `features[index] += 1.0` throws; no column is reported exactly when no token's column lies outside |
| Features.Normalise | Project-Akhir-master/app/src/main/java/com/example/cobakotlin/MainActivity.kt:149-154 | the rescaling keeps the vector's length and keeps every zero entry zero |
| Features.FeatureVector | Project-Akhir-master/app/src/main/java/com/example/cobakotlin/MainActivity.kt:138-157 | `extractFeatures` yields a vector of `vocabulary.size` entries, or an index exception whose index is outside the array and whose length is `vocabulary.size` |
| Neighbours.Insert | Project-Akhir-master/app/src/main/java/com/example/cobakotlin/MainActivity.kt:180 | one insertion step lengthens the sequence by exactly one |
| Neighbours.StableSort | Project-Akhir-master/app/src/main/java/com/example/cobakotlin/MainActivity.kt:180 | the reference stable sort keeps the length (`StableSortSorted`, `StableSortPermutes`, `StableSortStable`, `StableSortUnique` give its other properties) |
| Votes.Count | Project-Akhir-master/app/src/main/java/com/example/cobakotlin/MainActivity.kt:183-186 | a label's vote count never exceeds the number of nearest pairs |
| Votes.Distinct | Project-Akhir-master/app/src/main/java/com/example/cobakotlin/MainActivity.kt:183-186 | the vote map's keys, in insertion order: no more keys than votes, at least one key when there are votes, and each key is a label that was voted for |
| Votes.BestAt | Project-Akhir-master/app/src/main/java/com/example/cobakotlin/MainActivity.kt:188 | `maxByOrNull` settles on a valid position of the keys (`Votes.BestIsFirstMaximum` says which) |
| Votes.Vote | Project-Akhir-master/app/src/main/java/com/example/cobakotlin/MainActivity.kt:188 | `maxByOrNull { it.value }?.key ?: 0` is 0 with no votes, and otherwise a label that was voted for |
| Classifier.Row | Project-Akhir-master/app/src/main/java/com/example/cobakotlin/MainActivity.kt:174-177 | the pair of one training row is formed exactly when the row is at least as long as the features and `labels` is loaded and long enough, and it carries `labels[i]`; otherwise it is an index or uninitialised-`labels` exception |
| Classifier.Pairs | Project-Akhir-master/app/src/main/java/com/example/cobakotlin/MainActivity.kt:174-178 | the pair loop yields one pair per row it has read, or an index or uninitialised-`labels` exception |
| Classifier.Knn | Project-Akhir-master/app/src/main/java/com/example/cobakotlin/MainActivity.kt:171-197 | `knnClassify` returns one of "Kelas 1", "Kelas 2", "Kelas 3", "Unknown"; it throws the uninitialised-`featureMatrix` exception when the matrix is not loaded; it throws the `take` exception only for a negative `k` |
| Classifier.Classification | Project-Akhir-master/app/src/main/java/com/example/cobakotlin/MainActivity.kt:160-164 | the `try` part of `classifyText` yields one of the four class names, and throws the uninitialised-`vocabulary` exception when the vocabulary is not loaded |
| Classifier.Report | Project-Akhir-master/app/src/main/java/com/example/cobakotlin/MainActivity.kt:160-168 | the reply is the class name when nothing threw, and otherwise starts with "Error: " followed by a message |
| Outcomes.Message | Project-Akhir-master/app/src/main/java/com/example/cobakotlin/MainActivity.kt:166 | `e.message` of each exception the core can throw is a non-empty text in the Android runtime's wording |
| Tokenizer.StripAppend | Project-Akhir-master/app/src/main/java/com/example/cobakotlin/MainActivity.kt:132 | the regex replacement works character by character: replacing in a concatenation is concatenating the replacements |
| Tokenizer.StripSingle | Project-Akhir-master/app/src/main/java/com/example/cobakotlin/MainActivity.kt:132 | one character is kept exactly when it is an ASCII letter, a digit or whitespace, and deleted otherwise |
| Tokenizer.CleanWithoutSpaces | Project-Akhir-master/app/src/main/java/com/example/cobakotlin/MainActivity.kt:131-132 | lower-casing and the replacement, with whitespace then dropped, leave the ASCII letters and digits of the text, lower-cased, in order |
| Tokenizer.TokensSpellText | Project-Akhir-master/app/src/main/java/com/example/cobakotlin/MainActivity.kt:130-135 | the tokens concatenated are exactly the ASCII letters and digits of the text, lower-cased, in their original order |
| Tokenizer.CapitalisedExample | Project-Akhir-master/app/src/main/java/com/example/cobakotlin/MainActivity.kt:130-135 | "Good!" preprocesses to the single token "good" |
| Tokenizer.CapitalisedClean | Project-Akhir-master/app/src/main/java/com/example/cobakotlin/MainActivity.kt:131-132 | "Good!" is cleaned to "good" |
| Tokenizer.CapitalisedLower | Project-Akhir-master/app/src/main/java/com/example/cobakotlin/MainActivity.kt:131 | "Good!" lower-cases to "good!" |
| Features.FirstMisplacedFrom | Project-Akhir-master/app/src/main/java/com/example/cobakotlin/MainActivity.kt:142-146 | the search for a misplaced token, resumed at a position, either stops at that token or continues with the next |
| Tokenizer.CleanChars | Project-Akhir-master/app/src/main/java/com/example/cobakotlin/MainActivity.kt:131-132 | after lower-casing and deleting everything outside `[a-zA-Z0-9\s]`, only lower-case letters, digits and whitespace remain |
| Tokenizer.StripKeeps | Project-Akhir-master/app/src/main/java/com/example/cobakotlin/MainActivity.kt:132 | the regex replacement only deletes characters: what it keeps came from the input and is a letter, digit or whitespace |
| Tokenizer.FieldsChars | Project-Akhir-master/app/src/main/java/com/example/cobakotlin/MainActivity.kt:133 | every piece of the split consists of non-whitespace characters of the input |
| Tokenizer.NonEmptyKeeps | Project-Akhir-master/app/src/main/java/com/example/cobakotlin/MainActivity.kt:134 | the filter keeps only non-empty pieces, each taken from the split |
| Tokenizer.TokensAreWellFormed | Project-Akhir-master/app/src/main/java/com/example/cobakotlin/MainActivity.kt:130-135 | every token is non-empty and made only of lower-case ASCII letters and digits |
| Tokenizer.TokensOfSymbols | Project-Akhir-master/app/src/main/java/com/example/cobakotlin/MainActivity.kt:130-135 | a text without ASCII letters or digits (the empty text included) has no tokens |
| Tokenizer.ConcatFields | Project-Akhir-master/app/src/main/java/com/example/cobakotlin/MainActivity.kt:133 | splitting on whitespace runs loses no non-whitespace character: the pieces concatenated are the text without its whitespace |
| Tokenizer.ConcatNonEmpty | Project-Akhir-master/app/src/main/java/com/example/cobakotlin/MainActivity.kt:134 | dropping empty pieces does not change their concatenation |
| Tokenizer.TokensCoverText | Project-Akhir-master/app/src/main/java/com/example/cobakotlin/MainActivity.kt:130-135 | the tokens concatenated are exactly the cleaned text with its whitespace removed |
| Tokenizer.FieldsPrefix | Project-Akhir-master/app/src/main/java/com/example/cobakotlin/MainActivity.kt:133 | a whitespace-free prefix joins the first piece of the split of what follows it |
| Tokenizer.FieldsAfterSpace | Project-Akhir-master/app/src/main/java/com/example/cobakotlin/MainActivity.kt:133 | a single space followed by a non-whitespace character yields an empty first piece, followed by the pieces of the rest |
| Tokenizer.FieldsAfterSpaces | Project-Akhir-master/app/src/main/java/com/example/cobakotlin/MainActivity.kt:133 | any non-empty run of whitespace characters (space, tab, line feed, vertical tab, form feed, carriage return) at the front, followed by non-whitespace or the end, yields one empty first piece followed by the pieces of the rest: a whole run separates, not each character |
| Tokenizer.SkipSpacesOfRun | Project-Akhir-master/app/src/main/java/com/example/cobakotlin/MainActivity.kt:133 | skipping the leading whitespace removes the whole run and stops at the first non-whitespace character |
| Tokenizer.TabExample | Project-Akhir-master/app/src/main/java/com/example/cobakotlin/MainActivity.kt:133 | "a", a tab, "b" splits into `["a", "b"]` |
| Tokenizer.FieldsOfJoin | Project-Akhir-master/app/src/main/java/com/example/cobakotlin/MainActivity.kt:133 | splitting tokens joined by single spaces gives back the tokens |
| Tokenizer.LowerIdentity | Project-Akhir-master/app/src/main/java/com/example/cobakotlin/MainActivity.kt:131 | lower-casing leaves a text without upper-case letters unchanged |
| Tokenizer.StripIdentity | Project-Akhir-master/app/src/main/java/com/example/cobakotlin/MainActivity.kt:132 | the regex replacement leaves a text of lower-case ASCII letters, digits and whitespace unchanged |
| Tokenizer.TokensOfJoin | Project-Akhir-master/app/src/main/java/com/example/cobakotlin/MainActivity.kt:130-135 | tokens written out with single spaces preprocess back to the same tokens |
| Tokenizer.TokensIdempotent | Project-Akhir-master/app/src/main/java/com/example/cobakotlin/MainActivity.kt:130-135 | preprocessing the re-joined tokens of a text gives the same tokens: preprocessing is idempotent |
| Features.ExtractFeatures | Project-Akhir-master/app/src/main/java/com/example/cobakotlin/MainActivity.kt:138-157 | returns an array of `vocabulary.size` entries equal to `FeatureVector` of the text's tokens, or throws the same index exception |
| Features.CountTokens | Project-Akhir-master/app/src/main/java/com/example/cobakotlin/MainActivity.kt:142-146 | the counting loop either stops at the first token whose column is outside the array (reported as that column), or leaves the array equal to the tally of all tokens |
| Features.Rescale | Project-Akhir-master/app/src/main/java/com/example/cobakotlin/MainActivity.kt:149-154 | the array becomes each entry divided by the square root of the sum of squares when that root is positive, and is untouched otherwise |
| Features.TallyCountsTokens | Project-Akhir-master/app/src/main/java/com/example/cobakotlin/MainActivity.kt:142-146 | entry `j` of the count vector is the number of tokens whose vocabulary column is `j` |
| Features.TallyIgnoresUnknown | Project-Akhir-master/app/src/main/java/com/example/cobakotlin/MainActivity.kt:143 | tokens outside the vocabulary do not affect the count vector |
| Features.OccurrencesOfKnown | Project-Akhir-master/app/src/main/java/com/example/cobakotlin/MainActivity.kt:143 | dropping unknown tokens keeps every column's count |
| Features.TallyTotal | Project-Akhir-master/app/src/main/java/com/example/cobakotlin/MainActivity.kt:142-146 | the counts add up to the number of tokens whose column fits the array |
| Features.TallyOfUnknown | Project-Akhir-master/app/src/main/java/com/example/cobakotlin/MainActivity.kt:140-146 | with no known token the count vector stays all zeros |
| Features.NormaliseZeros | Project-Akhir-master/app/src/main/java/com/example/cobakotlin/MainActivity.kt:149-154 | whatever the square root returns, normalising the zero vector leaves it zero |
| Features.NoneMisplaced | Project-Akhir-master/app/src/main/java/com/example/cobakotlin/MainActivity.kt:143-145 | if no token's column lies outside the array, the counting loop reports no failure |
| Features.FeatureVectorOfUnknown | Project-Akhir-master/app/src/main/java/com/example/cobakotlin/MainActivity.kt:138-157 | a text whose tokens are all unknown yields the all-zero vector of vocabulary size |
| Features.FeatureVectorFails | Project-Akhir-master/app/src/main/java/com/example/cobakotlin/MainActivity.kt:143-145 | feature extraction throws if and only if some token's vocabulary column lies outside `0 .. vocabulary.size - 1` |
| Distance.SquaredDistance | Project-Akhir-master/app/src/main/java/com/example/cobakotlin/MainActivity.kt:201-205 | the accumulated sum of squared differences is never negative |
| Distance.EuclideanDistance | Project-Akhir-master/app/src/main/java/com/example/cobakotlin/MainActivity.kt:200-207 | returns the root of the squared differences over the indices of `a`; when `b` is shorter, throws at index `b.size` |
| Distance.SquaredDistanceToSelf | Project-Akhir-master/app/src/main/java/com/example/cobakotlin/MainActivity.kt:201-205 | a vector at equal entries has squared distance zero |
| Distance.SquaredDistanceSymmetric | Project-Akhir-master/app/src/main/java/com/example/cobakotlin/MainActivity.kt:201-205 | for equal lengths the distance does not depend on argument order |
| Distance.SquaredDistanceOnPrefix | Project-Akhir-master/app/src/main/java/com/example/cobakotlin/MainActivity.kt:202 | entries of `b` beyond the length of `a` take no part |
| Neighbours.SortByDistance | Project-Akhir-master/app/src/main/java/com/example/cobakotlin/MainActivity.kt:180 | the in-place sort leaves the array equal to `StableSort` of its old contents |
| Neighbours.InsertAt | Project-Akhir-master/app/src/main/java/com/example/cobakotlin/MainActivity.kt:180 | one insertion step places entry `i` into the sorted prefix and leaves the rest of the array alone |
| Neighbours.InsertPermutes | Project-Akhir-master/app/src/main/java/com/example/cobakotlin/MainActivity.kt:180 | insertion adds exactly the inserted pair |
| Neighbours.InsertElements | Project-Akhir-master/app/src/main/java/com/example/cobakotlin/MainActivity.kt:180 | insertion brings in no pair other than the inserted one |
| Neighbours.InsertSorted | Project-Akhir-master/app/src/main/java/com/example/cobakotlin/MainActivity.kt:180 | insertion keeps a sequence sorted by distance |
| Neighbours.InsertStable | Project-Akhir-master/app/src/main/java/com/example/cobakotlin/MainActivity.kt:180 | insertion places the new pair after every pair already present at the same distance |
| Neighbours.StableSortSorted | Project-Akhir-master/app/src/main/java/com/example/cobakotlin/MainActivity.kt:180 | the sorted sequence is ascending by distance |
| Neighbours.StableSortPermutes | Project-Akhir-master/app/src/main/java/com/example/cobakotlin/MainActivity.kt:180 | the sort is a permutation of its input |
| Neighbours.StableSortStable | Project-Akhir-master/app/src/main/java/com/example/cobakotlin/MainActivity.kt:180 | pairs at equal distance keep their original row order |
| Neighbours.StableSortUnique | Project-Akhir-master/app/src/main/java/com/example/cobakotlin/MainActivity.kt:180 | any sorted, stable permutation of the pairs equals `StableSort`, so the result is the one any stable sort (TimSort included) yields |
| Neighbours.SortedUnique | Project-Akhir-master/app/src/main/java/com/example/cobakotlin/MainActivity.kt:180 | two sorted permutations of each other that agree at every distance are equal |
| Neighbours.LastIsFarthest | Project-Akhir-master/app/src/main/java/com/example/cobakotlin/MainActivity.kt:180 | in a sorted sequence no pair is farther than the last |
| Votes.Categories | Project-Akhir-master/app/src/main/java/com/example/cobakotlin/MainActivity.kt:184 | the labels read from the pairs, one per pair, in order |
| Votes.FirstIndex | Project-Akhir-master/app/src/main/java/com/example/cobakotlin/MainActivity.kt:183-186 | the position where a label enters the vote map: its first occurrence |
| Votes.TallyVotes | Project-Akhir-master/app/src/main/java/com/example/cobakotlin/MainActivity.kt:183-186 | the map has exactly the labels of the nearest pairs as keys, each mapped to its number of occurrences, with keys in order of first occurrence |
| Votes.MaxByVotes | Project-Akhir-master/app/src/main/java/com/example/cobakotlin/MainActivity.kt:188 | `maxByOrNull` over the map in insertion order picks the key at `BestAt` |
| Votes.PredictCategory | Project-Akhir-master/app/src/main/java/com/example/cobakotlin/MainActivity.kt:183-188 | the vote loop followed by `maxByOrNull ?: 0` computes `Vote` of the nearest labels |
| Votes.CountPositive | Project-Akhir-master/app/src/main/java/com/example/cobakotlin/MainActivity.kt:185 | a label has a positive count exactly when it occurs |
| Votes.DistinctHas | Project-Akhir-master/app/src/main/java/com/example/cobakotlin/MainActivity.kt:183-186 | the map's keys are exactly the labels that occur |
| Votes.DistinctOrdered | Project-Akhir-master/app/src/main/java/com/example/cobakotlin/MainActivity.kt:183-186 | map keys are ordered by first occurrence |
| Votes.BestIsFirstMaximum | Project-Akhir-master/app/src/main/java/com/example/cobakotlin/MainActivity.kt:188 | the chosen key has the largest count, and every key before it has a strictly smaller one |
| Votes.VoteOfNone | Project-Akhir-master/app/src/main/java/com/example/cobakotlin/MainActivity.kt:188 | with no votes the prediction defaults to 0 |
| Votes.VoteIsPlurality | Project-Akhir-master/app/src/main/java/com/example/cobakotlin/MainActivity.kt:183-188 | the winner is one of the labels and no label has more votes |
| Votes.VoteTieBreak | Project-Akhir-master/app/src/main/java/com/example/cobakotlin/MainActivity.kt:183-188 | among labels with the winning count, the winner occurs first |
| Votes.VoteUnique | Project-Akhir-master/app/src/main/java/com/example/cobakotlin/MainActivity.kt:183-188 | a label with the most votes that occurs before every other such label is the winner, so plurality plus first occurrence fully determine the vote |
| Votes.MajorityExample | Project-Akhir-master/app/src/main/java/com/example/cobakotlin/MainActivity.kt:183-188 | labels `[0, 0, 1]` vote for 0 |
| Votes.TieExample | Project-Akhir-master/app/src/main/java/com/example/cobakotlin/MainActivity.kt:183-188 | with `k = 2` and a 1-1 tie the label of the nearer pair wins, in either order |
| Votes.TieBreakOfThree | Project-Akhir-master/app/src/main/java/com/example/cobakotlin/MainActivity.kt:183-188 | three different labels vote for the nearest one |
| Votes.CountOfSorted | Project-Akhir-master/app/src/main/java/com/example/cobakotlin/MainActivity.kt:180 | sorting does not change how many pairs carry a label |
| Classifier.DisplayName | Project-Akhir-master/app/src/main/java/com/example/cobakotlin/MainActivity.kt:191-196 | codes 0, 1 and 2 read "Kelas 1" to "Kelas 3"; every other code reads "Unknown" |
| Classifier.Nearest | Project-Akhir-master/app/src/main/java/com/example/cobakotlin/MainActivity.kt:180-181 | `take(k)` keeps `min(k, N)` pairs |
| Classifier.BuildNeighbours | Project-Akhir-master/app/src/main/java/com/example/cobakotlin/MainActivity.kt:172-178 | builds one pair per training row, in row order, or throws what the first failing row throws |
| Classifier.KnnClassify | Project-Akhir-master/app/src/main/java/com/example/cobakotlin/MainActivity.kt:171-197 | returns the display name of the vote of the `k` nearest pairs, or the exception `Knn` names |
| Classifier.ClassifyText | Project-Akhir-master/app/src/main/java/com/example/cobakotlin/MainActivity.kt:160-168 | returns the class name, or "Error: " followed by the exception message |
| Classifier.PairsKeepFailure | Project-Akhir-master/app/src/main/java/com/example/cobakotlin/MainActivity.kt:174-178 | once a row throws, later rows do not change the outcome |
| Classifier.PairsMeaning | Project-Akhir-master/app/src/main/java/com/example/cobakotlin/MainActivity.kt:174-178 | the pair loop succeeds if and only if every row is at least as long as the feature vector and the labels exist and cover the rows; it then yields `(distance to row i, labels[i])` for each row `i` |
| Classifier.NearestAreClosest | Project-Akhir-master/app/src/main/java/com/example/cobakotlin/MainActivity.kt:180-181 | the kept pairs come from the input, and none is farther than any pair left out |
| Classifier.VoteOverAllRows | Project-Akhir-master/app/src/main/java/com/example/cobakotlin/MainActivity.kt:180-188 | when `k` is at least the number of rows, the winner is a label with the most training rows |
| Classifier.EmptyMatrixYieldsFirstClass | Project-Akhir-master/app/src/main/java/com/example/cobakotlin/MainActivity.kt:171-197 | an empty training matrix yields "Kelas 1" whatever the labels |
| Classifier.ClassifyTextReply | Project-Akhir-master/app/src/main/java/com/example/cobakotlin/MainActivity.kt:160-168 | the reply is one of the four class names, or it starts with "Error: " exactly when something threw |
| Classifier.WellFormedTablesNeverFail | Project-Akhir-master/app/src/main/java/com/example/cobakotlin/MainActivity.kt:138-197 | when all three tables are loaded, vocabulary columns lie in range, each row is as long as the vocabulary and there are enough labels, classification never throws |
| Classifier.GoodExample | Project-Akhir-master/app/src/main/java/com/example/cobakotlin/MainActivity.kt:160-168 | with a three-word vocabulary and one identity row per class, "good" is classified "Kelas 1" |
| Classifier.GoodFeatures | Project-Akhir-master/app/src/main/java/com/example/cobakotlin/MainActivity.kt:138-157 | the feature vector of "good" is `[1, 0, 0]` |
| Classifier.GoodPairs | Project-Akhir-master/app/src/main/java/com/example/cobakotlin/MainActivity.kt:174-178 | the pairs of that example are at distances 0, √2 and √2 |
| Classifier.GoodVote | Project-Akhir-master/app/src/main/java/com/example/cobakotlin/MainActivity.kt:180-196 | a nearest pair at distance 0 with two farther, tied pairs of other labels gives "Kelas 1" |

## Left out

- Everything outside the classifier is not part of this model: loading the vocabulary, matrix and labels from the app's assets, speech recognition, text-to-speech, the ChatGPT network call and the UI. The loaded tables are the input value `Tables`. A table that loading never assigned is `None`.
- Floating point: `Double` is `real`, so rounding is not modelled. `Math.sqrt` is a function parameter about which nothing is assumed, except where an example lemma names the values it needs.
- Tokenizer.Lower: `toLowerCase()` is modelled on ASCII letters only, as in a locale-neutral setting. The default locale and the Unicode case mapping of other letters are not modelled. So under a Turkish or Azeri locale, where 'I' lower-cases to the dotless 'ı' (which the regex then deletes), the model keeps 'i' instead. Non-ASCII letters that lower-case into ASCII (the Kelvin sign to 'k') are not modelled either.
- Tokenizer.IsSpace: `\s` is the ASCII whitespace class (space, tab, line feed, vertical tab, form feed, carriage return). The Android runtime's ICU-based regex engine also counts Unicode white space, such as the no-break space U+00A0, U+2009 or U+3000, as `\s`. The model deletes those characters at the replacement instead of keeping them and splitting on them. For example, "good", a no-break space, then "bad" tokenises to `["goodbad"]` in the model, whereas the device gives `["good", "bad"]`.
- Neighbours.SortByDistance: Kotlin sorts with TimSort; the model sorts with an insertion sort. `Neighbours.StableSortUnique` shows that every stable sort gives the same sequence, so the result is the same, but the steps are not.
- Distance.SquaredDistanceToSelf: only "equal entries give distance zero" is proved. The converse (zero distance implies equal entries) and the fact that a normalised vector has unit length are not proved, because they need nonlinear real arithmetic.
- Features.Rescale: does not state that the rescaled vector has length 1, for the same reason. It states the entries exactly in terms of `sqrt`.
- The `lateinit` tables are passed as a value, so the model does not capture that they are fields of the activity, or any aliasing between them.
- The `k = 3` default of `knnClassify` is modelled as the constant `Classifier.K` passed by `classifyText`. Other `k` values are covered by `Classifier.Knn`.
