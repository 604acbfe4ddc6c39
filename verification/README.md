# Duplicated-rows Excel analyzer: a Dafny model of the grouping core

The analyzer reads one column of a spreadsheet and groups rows whose texts are
similar. It uses a greedy single pass, `compute_similarity_groups_index`:

- every row that is not yet in a group opens a new group and becomes the group's seed;
- every later unassigned row whose score against that seed reaches the threshold joins the group.

The groups are then renumbered by size: the largest group becomes group 1, and groups of equal size keep their order of first appearance (`reindex_groups_by_size`). The group numbers are inserted as a new column (`add_group_indices_to_df`). Finally the rows are sorted by group number (`reorder_rows_by_group_index`), or by group size and then group number (`reorder_rows_by_group_size`).

The model has five modules:

- `Errors`: the failures the core can raise. These are a division by zero on an empty column, a column index past the last column, and a group-number list whose length does not match the rows.
- `Clustering`: the clustering in three forms, proved to agree:
  - the array algorithm of the program (`ComputeSimilarityGroupsIndex`, with its inner loop `ClaimMatches`);
  - a row-by-row functional reference (`Greedy`);
  - a declarative description of a greedy clustering (`IsGreedyPrefix`). The reference meets it and is the only clustering that does.
  
  The similarity metric (`fuzz.ratio`) is a parameter `score: (string, string) -> int`. Lemmas that need the metric's 0..100 scale assume it through `Bounded`.
- `Reindex`:
  - the keys of `Counter` in first-appearance order;
  - the stable sort by count, largest first;
  - the map from old to new numbers.
  
  The lemmas show that renumbering keeps the partition, uses exactly the numbers 1..K, ranks the groups by size with ties broken by first appearance, and is idempotent.
- `Rows`:
  - a table of text cells;
  - the inserted group column, where dropping it gives the row back;
  - the two row orderings. Each is proved to be a permutation of the rows whose sort keys are in order. The size ordering also keeps each group's rows in input order, as its stable two-key sort does.
- `Pipeline`: the grouping run of `main`, lines 79-82. It covers clustering, renumbering, inserting the column and ordering by group number, together with the logged duplicate count.

## Model

| member | source | states |
|---|---|---|
| Clustering.ComputeSimilarityGroupsIndex | main.py:20-43 | An empty column fails with a division by zero and any other column succeeds. On success the labels are the greedy clustering's, each lies in 1 .. total - duplicated, and duplicated = total - number of groups, with 0 <= duplicated < total. |
| Clustering.LabelRows | main.py:22-36 | After the outer loop over an array that starts all -1, every row carries its greedy label and the counter equals the number of groups opened. |
| Clustering.ClaimMatches | main.py:32-36 | The inner scan by seed i leaves rows 0..i alone. Afterwards every later row carries the group of the first seed it joins, now counting i, or -1 if it joins none. |
| Clustering.VisitRow | main.py:28-36 | One outer-loop step keeps the loop state. Rows before i+1 carry their greedy labels, later rows carry the label of the first seed so far that claimed them or -1, and the counter is the number of groups. A labelled row is skipped, and an unlabelled row opens the next group. |
| Clustering.PendingSnoc | main.py:33-36 | A new seed changes a later row's label only if the row was unassigned and scores at least the threshold against the seed. The row then takes the new group. |
| Clustering.GreedyIsGreedy | main.py:24-36 | The row-by-row clustering is greedy. Seeds increase with group number, and seed m carries label m + 1. Every label is in 1..groups. Each row's seed is at or before it, and the row joins that seed. The row joins no seed of an earlier group. |
| Clustering.GreedyUnique | main.py:24-36 | Any labelling with seeds that meets that greedy description is exactly the row-by-row clustering. |
| Clustering.StepKeepsGreedy | main.py:28-36 | Processing one more row, by joining the first matching seed or else opening a new group, keeps the clustering greedy. |
| Clustering.GroupsOpenInRowOrder | main.py:30-31 | Groups are numbered in order of first occurrence: every row before the seed of group m + 1 is in one of the groups 1..m. |
| Clustering.ThresholdAtMostZero | main.py:35 | With scores on 0..100 and a threshold at most 0, row 0 seeds the only group and every row joins it. |
| Clustering.ThresholdAboveHundred | main.py:35 | With scores on 0..100 and a threshold above 100, every row seeds its own group, and row p is in group p + 1. |
| Clustering.LengthScoreAt80 | main.py:24-36 | On the rows "a", "bb", "ccc" with a length-based metric, threshold 80 labels them [1, 1, 2]. |
| Clustering.LengthScoreAt90 | main.py:24-36 | The same rows at threshold 90 are labelled [1, 2, 2]. |
| Clustering.RaisingThresholdCanMerge | main.py:33-36 | There is a metric on 0..100 under which two rows are apart at threshold 80 but together at threshold 90. Raising the threshold can merge groups. |
| Reindex.Keys | main.py:68 | The Counter keys are exactly the values that occur. |
| Reindex.KeysFirstSeen | main.py:68 | The Counter keys are listed in order of first appearance. |
| Reindex.SortByCount | main.py:69 | The sorted keys are a permutation of the keys. |
| Reindex.SortByCountRanked | main.py:69 | Keys in first-appearance order come out sorted by count, largest first. Equal counts keep first-appearance order, as Python's stable sort does with reverse=True. |
| Reindex.RankingMembers | main.py:68-69 | The size order lists every occurring label once and nothing else. |
| Reindex.RankingOfRanked | main.py:68-69 | Any repetition-free listing of exactly the occurring labels, ordered by size with ties by first appearance, is the size order. |
| Reindex.NewIndexMap | main.py:70 | The enumerate map sends the label at position i of the order to i + 1 and holds no other keys. |
| Reindex.Renumber | main.py:71 | Every label is replaced by a number k in 1..K whose entry k - 1 in the order is that label. |
| Reindex.ReindexGroupsBySize | main.py:67-72 | The new labels are as many as the old, and each lies in 1 .. number of distinct labels. |
| Reindex.ReindexKeepsPartition | main.py:67-72 | Two rows share a new label exactly when they shared an old one. |
| Reindex.ReindexDense | main.py:67-72 | Every number 1..K is used, K being the number of distinct labels. |
| Reindex.ReindexRanks | main.py:67-72 | For new labels a < b, group a has more members than group b, or as many and appears first. |
| Reindex.ReindexRankingIsIdentity | main.py:67-72 | The renumbered labels' own size order is 1, 2, ..., K. |
| Reindex.ReindexIdempotent | main.py:67-72 | Renumbering an already renumbered labelling changes nothing. |
| Reindex.RankingCount | main.py:67-69 | Labels drawn from 1..k that use every number there form k groups. |
| Rows.AddGroupIndices | main.py:50-52 | A frame with rows fails on a list of another length. A position past the last column fails next. Otherwise each row gets the group number at position c, and dropping it gives the original row. A frame without rows takes one row per list entry, with NaN in every original column. |
| Rows.InsertIntoEmptyFrame | main.py:51 | Inserting [7] at position 0 into a one-column frame without rows gives the single row [7, NaN]. |
| Rows.InsertCell | main.py:51 | The row grows by one cell. The new cell sits at position c, cells before c are unchanged, and cells from c on move one place right. |
| Rows.DropInsert | main.py:50-51 | Dropping an inserted cell gives the row back. |
| Rows.InsertDrop | main.py:50-51 | Inserting back a dropped cell at its position gives the row back. |
| Rows.SortRows | main.py:58 | A sort returns a permutation of the rows in key order, with the same multiset of group numbers. |
| Rows.ReorderRowsByGroupIndex | main.py:62-64 | The rows come out permuted, with group numbers ascending. |
| Rows.ReorderRowsByGroupSize | main.py:55-59 | The rows come out permuted. Larger groups come first, and among equal sizes the smaller group number comes first. Within every group the rows keep their input order, as the stable two-key sort does. |
| Rows.SortRowsKeepsGroupOrder | main.py:58 | The sort keeps, for every group number, the input order of that group's rows. |
| Rows.InsertRowGroupOrder | main.py:58 | Placing a row puts it ahead of every row of its own group and leaves the other groups' rows in place. |
| Rows.SortedGroupsContiguous | main.py:55-64 | In a sorted result every group forms one contiguous run. |
| Pipeline.GroupDuplicates | main.py:79-82 | A column index past the last column fails. An empty table then fails with a division by zero. Otherwise the result is the annotated rows ordered by group number, and the duplicate count lies in 0 .. rows - 1. |
| Pipeline.AnnotateAndOrder | main.py:81-82 | Inserting the group column and then ordering the rows gives a permutation of the annotated rows. Its group column holds the same numbers as the list, in ascending order. |
| Pipeline.Column | main.py:21 | The chosen column holds one value per row: row i's cell at position c. |
| Pipeline.Clustered | main.py:20-36 | compute_similarity_groups_index on the chosen column (main.py:79): one label per row and at most one group per row, with at least one group when the table has rows. |
| Pipeline.GroupCount | main.py:39 | groups_count = current_group: a table with rows has 1 .. rows groups. |
| Pipeline.GroupIds | main.py:79-80 | The renumbered greedy labels give one final group number per row. |
| Pipeline.Annotate | main.py:81 | Every annotated row has a group number at position c, and the group column equals the list of numbers. |
| Pipeline.Output | main.py:81-82 | The annotated rows, ordered. The result is a permutation of the annotated rows whose group column holds the list's numbers in ascending order. |
| Pipeline.GroupCountKept | main.py:79-80 | Renumbering keeps the number of groups the clustering opened. |
| Pipeline.GroupIdsBounded | main.py:79-80 | Every final group number lies in 1 .. number of groups. |
| Pipeline.GroupIdsPartition | main.py:79-80 | Two rows share a final group number exactly when the clustering grouped them together. |
| Pipeline.OutputBounded | main.py:79-82 | The group column of the output lies in 1 .. number of groups. |

Two behaviours of the code are worth stating directly:

- An empty column raises ZeroDivisionError at main.py:41, where the duplicate percentage divides by the row count. The model returns `Err(ZeroDivision)`.
- Raising the threshold is not monotone. A row that no longer joins an early seed becomes a seed itself, and it can then claim a row that used to be in another group. `Clustering.RaisingThresholdCanMerge` shows an instance.

## Left out

- Reading and writing the workbook (`load_excel`, `save_excel`), argument parsing, and logging. These are I/O; the model starts from a table of strings.
- The internals of `fuzz.ratio`: the metric is a parameter. Its 0..100 scale is an assumption (`Bounded`) of the lemmas that need it.
- The duplicate percentage. It is a floating-point figure that is only logged; the model keeps the integer duplicate count and the division-by-zero failure.
- Rows.ReorderRowsByGroupIndex: the row order within a group is not promised. The one-key `sort_values` at main.py:63 uses pandas' default quicksort, which is not stable, so the contract states permutation and ascending group numbers only. The model's own sort is stable. The two-key sort at main.py:58 does keep input order, and `Rows.ReorderRowsByGroupSize` states it.
- In-place effects on the caller's frame. `df.insert` at main.py:51 adds the column to the frame that was passed in, and `add_group_indices_to_df` returns that same object. `reorder_rows_by_group_size` writes a `GroupSize` column into the caller's frame at main.py:57 before `sort_values` makes a copy, and the caller's frame keeps that column. The model's functions return new values and leave their arguments alone. `main` never reads the frame again after these calls.
- The `astype(str)` conversion of non-text cells: every cell is already a string.
- Negative column indexes, which `iloc` counts from the end: the column index is a natural number.
- Column names. The model does not track them, so it does not cover a clash of `GroupIndex` or `GroupSize` with an existing column. It also does not cover pandas' refusal of a duplicate column name.
- A unique-value clustering strategy and a token-sort metric: the program contains neither.
- `generate_test_data.py`, which only produces sample input.
- Validation of the threshold range and of the column index before the run; the program performs none beyond what pandas raises.
- Reindex.Ranking: has no contract of its own. Its facts are stated by `RankingMembers`, `RankingRanked` and `RankingOfRanked`.
