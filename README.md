# Stratified split and retrieval evaluation of the bge-m3 FAQ service

This project models the two pieces of logic in the bge-m3 FAQ-lookup repository
that are more than calls into libraries:

- **The stratified train/test splitter** (`generate_train_test.py`). It groups the
  rows of the merged question table by tag. A group of at most one row goes to
  train. A larger group of n rows sends `max(1, ceil(0.2·n))` rows, drawn at random
  without replacement, to test. The rest of that group goes to train, in table
  order. A row whose tag cell is empty is in no group, so it lands in neither
  list. Module `Splitter` (`splitter.dfy`).
- **The evaluation script** (`evaluation_script.py`). It loads the labelled test
  table and trims its columns. It fills missing expected answers from the
  tag/answer table. It sends every question to the search service and compares
  the top result's tag and answer with the expected ones by exact string equality.
  It counts tag matches and answer matches separately, writes a mismatch entry for
  every row that does not match on both, and reports two accuracies. Module
  `Evaluation` (`evaluation.dfy`), with Python's `str.strip()` in module `Strings`
  (`strings.dfy`) and `Option`/`Result` in module `Wrappers` (`wrappers.dfy`).

How the source is modelled:

- Rows of the merged table are the indices `0 .. N-1`. `tags[i]` is row i's tag,
  or `None` where the cell is empty, since `read_csv` reads an empty cell as NaN.
- The grouping by tag is the sequence of `Group(tag, ids)` pairs the loop iterates
  over. `groupby('tag')` drops missing keys by default, and `IsGrouping` states
  what it then builds:
  - every row with a tag is in the one group of its tag;
  - a row without a tag is in no group;
  - each group lists its rows once, in ascending index order.
- The seeded generator is an oracle `draw(j, ids, k)`. It answers the j-th group's
  request for k rows of `ids`. All the model knows of it is that the rows come out
  distinct and from `ids` (`SamplesWithoutReplacement`).
- The loop over the groups is the method `Splitter.Split`, proved against the
  functions `TrainOf` and `TestOf`.
- A CSV table is a map from column names to cells. A cell is a text or missing
  (NaN). `astype(str)` turns a missing question or tag into `"nan"`, while
  `fillna("")` turns a missing answer, or a missing cell of the tag/answer table,
  into `""`.
- The evaluation table is the class `Frame`, whose three column fields are
  overwritten in place. The loop over the rows is the method `Evaluate`, with
  the two counters and the mismatch flags.
- The search service is a function parameter. `service(i, q)` is the reply to the
  request for row i with query q: either `Failed` (the request raised, the body
  was not JSON, or it was not shaped as the script reads it), or the `results`
  value.

## Model

| member | source | states |
|---|---|---|
| `Splitter.TestCount` | generate_train_test.py:24 | the test count is at least 1. For n ≥ 1 it is the least k with n ≤ 5k, i.e. ceil(n/5). For n ≥ 2 it is at most n − 1, so every group of two or more rows keeps a row for train |
| `Splitter.Drop` | generate_train_test.py:29 | the rows kept are exactly the group's rows that were not chosen, each as often as in the group, and a chosen row never appears |
| `Splitter.Split` | generate_train_test.py:16-29 | the loop builds exactly `TrainOf`/`TestOf`. Train followed by test holds each row that has a tag exactly once and no row without one, so the two lists are disjoint and cover the tagged rows. Each test row shares its tag with another row, and a row whose tag no other row has is in train. From group j, ExpectedTest(n) rows go to test and the other n − ExpectedTest(n) ≥ 1 go to train, as the group's unchosen rows in ascending row order |
| `Splitter.FirstRowsSample` | generate_train_test.py:26 | a sampler that meets the oracle requirement exists (the first k rows), so the requirement of `Split` can be met |
| `Splitter.GroupSplit` | generate_train_test.py:19-29 | within one group, its train rows and test rows together are the group's rows, once each, and ExpectedTest(n) of them are test rows (none for n ≤ 1) |
| `Splitter.GroupWithin` | generate_train_test.py:26-29 | the test and train rows produced for a group are rows of that group |
| `Splitter.SplitCoversGroups` | generate_train_test.py:16-29 | over all groups, train and test together hold every row of every group, as often as the groups do |
| `Splitter.SplitCoversRows` | generate_train_test.py:16-29 | for a grouping by tag, train followed by test repeats no row. It holds exactly the rows that have a tag, so a row with an empty tag cell is in neither list |
| `Splitter.UntaggedRowLeftOut` | generate_train_test.py:16-29 | in a three-row table whose middle tag is empty, the grouping is the single group of rows 0 and 2, and the split places rows 0 and 2 and leaves row 1 out |
| `Splitter.GroupingIsDisjoint` | generate_train_test.py:16 | the groups of a grouping by tag share no row |
| `Splitter.FlattenDistinct` | generate_train_test.py:16-17 | the rows of row-disjoint groups, taken one group after another, repeat no row |
| `Splitter.GroupingCoversRows` | generate_train_test.py:16-17 | the groups together hold exactly the row indices of rows that have a tag |
| `Splitter.TestOfMember` | generate_train_test.py:26-27 | every test row was drawn from a group with more than one row |
| `Splitter.TestRowSharesTag` | generate_train_test.py:19-27 | a test row's tag is carried by at least one other row |
| `Splitter.TestRowsShareTag` | generate_train_test.py:19-27 | every test row shares its tag with another row. A row whose tag is unique is in train and not in test |
| `Splitter.GroupBlocks` | generate_train_test.py:24-29 | the test rows of group j, picked out of the whole test list, are exactly that group's draw. Its train rows, picked out of the whole train list, are exactly the group's unchosen rows, in the group's own order |
| `Splitter.DropAscending` | generate_train_test.py:29 | the comprehension keeps the rows it does not drop in their order, so an ascending list stays ascending |
| `Splitter.GroupTrainAscending` | generate_train_test.py:19-29 | the train rows of a group listed in ascending row order are in ascending row order, i.e. table order |
| `Splitter.KeepLastGroup` | generate_train_test.py:27-29 | the last group's rows in the final lists are the ones that group itself added |
| `Splitter.OtherGroupsOutside` | generate_train_test.py:27-29 | groups that share no row with g add none of g's rows to train or test |
| `Splitter.GroupShares` | generate_train_test.py:24-29 | group j has exactly ExpectedTest(n) rows in test and n − ExpectedTest(n) ≥ 1 in train |
| `Strings.Strip` | evaluation_script.py:45-46 | the result neither starts nor ends with whitespace. It is the slice of the input between a whitespace-only prefix and a whitespace-only suffix |
| `Strings.StripOf` | evaluation_script.py:45-46 | any string without surrounding whitespace, wrapped in any whitespace, strips back to itself |
| `Strings.StripKeepsStripped` | evaluation_script.py:45-46 | a string that neither starts nor ends with whitespace is left unchanged |
| `Strings.StripIdempotent` | evaluation_script.py:45-46 | stripping twice gives the same as stripping once |
| `Evaluation.CleanText` | evaluation_script.py:45-46 | a present question or tag becomes its text stripped, and a missing one becomes "nan". The result has no surrounding whitespace |
| `Evaluation.CleanAnswer` | evaluation_script.py:50 | a present answer becomes its text stripped, and a missing one becomes "". The result has no surrounding whitespace |
| `Evaluation.CleanedCell` | evaluation_script.py:45-50 | a cell holding some text wrapped in whitespace cleans to exactly that text, as a question, a tag or an answer |
| `Evaluation.CleanIdempotent` | evaluation_script.py:45-50 | cleaning an already cleaned value gives it back unchanged |
| `Evaluation.TextColumn` | evaluation_script.py:45-46 | the question and tag columns keep their height, and row i is `CleanText` of the table's cell i. Every cell is trimmed |
| `Evaluation.AnswerColumn` | evaluation_script.py:47-50 | the answer column keeps the table's height. Row i is `CleanAnswer` of the table's answer cell i, so it is "" where the answer is missing. It is "" in every row when the column is absent |
| `Evaluation.MappingColumn` | evaluation_script.py:57-59 | a column of the tag/answer table keeps its height, and row i is its cell i with a missing value made "" and then stripped |
| `Evaluation.Frame.Load` | evaluation_script.py:45-50 | the frame's three columns are the cleaned question, tag and answer columns |
| `Evaluation.ZipLastWins` | evaluation_script.py:60 | `dict(zip(tags, answers))` has exactly the tags as keys. Each tag maps to the answer of its last occurrence (last wins) |
| `Evaluation.Lookup` | evaluation_script.py:53-60 | the lookup is empty when the file is absent or lacks the tag or answer column. Otherwise its keys are the cleaned tags, and each maps to the cleaned answer of its last row |
| `Evaluation.Frame.Backfill` | evaluation_script.py:67-70 | only rows whose answer is "" change, and only when the lookup is non-empty. Such a row gets `lookup[tag]`, or stays "" when its tag is not in the lookup. Question and tag columns are unchanged |
| `Evaluation.Prediction` | evaluation_script.py:92-99 | the predicted tag and answer are trimmed. An empty or absent result list predicts "" for both. Otherwise they are the first hit's tag and answer (`""` where the key is absent), stripped |
| `Evaluation.Score` | evaluation_script.py:88-108 | a row errs exactly when its request failed. Otherwise its tag matches iff the predicted tag equals the expected tag, and its answer matches iff the predicted answer equals the expected answer. With an empty or absent result list, the tag matches iff the expected tag is "" and the answer matches iff the expected answer is "" |
| `Evaluation.TopHitDecides` | evaluation_script.py:97-103 | only the first hit is compared: hits after it do not change the outcome |
| `Evaluation.PaddedTopHitMatches` | evaluation_script.py:97-103 | a first hit carrying the expected tag and answer wrapped in whitespace matches on both, with no mismatch entry. A first hit whose stripped tag differs from the expected tag does not match on the tag |
| `Evaluation.MatchesIndependent` | evaluation_script.py:102-108 | the tag match does not depend on the expected answer, and the answer match does not depend on the expected tag |
| `Evaluation.RowsWhereAppend` | evaluation_script.py:105-108 | one more row adds one to a count exactly when it has the counted property, and nothing otherwise |
| `Evaluation.DisjointRowsBound` | evaluation_script.py:74-108 | two kinds of rows that exclude each other (e.g. tag matches and failed requests) together number at most the total |
| `Evaluation.Evaluate` | evaluation_script.py:74-143 | `correct_tag` is the number of rows whose tag matched and `correct_answer` the number whose answer matched. A failed request adds to neither and does not stop the loop. Each counter plus the failed rows is at most the total. A mismatch entry is written for row i exactly when its tag or its answer did not match, or its request failed |
| `Evaluation.Percent` | evaluation_script.py:146-147 | the accuracy is 0 when there are no rows, otherwise `correct · 100 / total`. It lies in [0, 100] and is 100 when every row matched |
| `Evaluation.SummaryOf` | evaluation_script.py:74-147 | the reported total is the number of rows. Both match counts are at most the total, both accuracies lie in [0, 100], and there is one mismatch flag per row |
| `Evaluation.Report` | evaluation_script.py:74-147 | the row loop followed by the two divisions yields exactly `SummaryOf` of the loaded columns |
| `Evaluation.ExpectedSummary` | evaluation_script.py:42-147 | the summary of a loadable table counts every row of the table. Its counts are at most that row count, and its accuracies lie in [0, 100] |
| `Evaluation.Prepare` | evaluation_script.py:45-70 | loading, the lookup and the backfill give exactly the specified columns `LoadedColumns` |
| `Evaluation.Run` | evaluation_script.py:42-147 | a table without a "question" or "tag" column is refused before anything else. Otherwise the summary is `ExpectedSummary`: total = the number of rows, both counts at most the total, both accuracies in [0, 100] |

## Left out

- main.py: text embedding, the inner-product vector index, L2 normalisation and the
  HTTP endpoint are calls into libraries and floating point. The evaluation sees
  the service only through its replies.
- The pseudo-random sequence of `RandomState(42)`: the draw is an oracle, so the
  claim that the same seed gives the same split is not modelled.
- Splitter.TestCount: computes the exact ceil(n/5), not the float product
  `ceil(0.2 * n)`. For integer n the two agree; that agreement is not proved.
- The order of the groups (pandas sorts them by tag): the grouping is a parameter
  of `Split`. `IsGrouping` does not require the groups to be sorted by tag. Rows
  inside a group are required in ascending index order, as `read_csv` numbers
  them 0 .. N-1.
- Building the output tables with `df.loc[...]`, `reset_index` and writing
  `train.csv`/`test.csv`: file I/O.
- Reading CSV files, pandas' inference of column types, and the check whether the
  tag/answer file exists. A cell is given as its text or as missing, and the file
  as `Absent` or `Present(table)`. A numeric cell's `astype(str)` spelling (such
  as `"1.0"`) is not modelled.
- Evaluation.Prediction: how `str()` prints a non-string JSON value (`None`,
  numbers) is not modelled; a `Hit` carries that text.
- The HTTP request, its 20-second timeout and the 0.2-second pause between
  requests. A failure of any kind is the single reply `Failed`.
- Logging sinks, colours, printed lines and the `:.3f` formatting of the score.
  Of the logs, only whether a mismatch entry is written for a row is kept. The
  score itself is not modelled, and neither is a formatting error at line 117
  after the counters were already incremented (only a non-numeric score could
  cause one).
- Evaluation.Percent: uses exact real division instead of floating point, so
  rounding is not modelled.
