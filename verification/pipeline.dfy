/** The grouping run of main (main.py): cluster the chosen column, renumber
    the groups by size, insert the group column at the chosen position and
    order the rows by group number. Reading and writing the workbook and
    logging are not part of the model. */
module Pipeline {
  import opened Errors
  import opened Clustering
  import opened Reindex
  import opened Rows

  /** df.iloc[:, c].astype(str): the chosen column of every row. */
  function Column(t: Table, c: nat): (values: seq<string>)
    requires Rectangular(t) && c < t.width
    ensures |values| == |t.rows|
    ensures forall i :: 0 <= i < |t.rows| ==> values[i] == t.rows[i][c]
  {
    seq(|t.rows|, i requires 0 <= i < |t.rows| => t.rows[i][c])
  }

  /** compute_similarity_groups_index on the chosen column. */
  function Clustered(t: Table, c: nat, score: Metric, threshold: int): (g: Clusters)
    requires Rectangular(t) && c < t.width
    ensures |g.labels| == |t.rows| && |g.seeds| <= |t.rows|
    ensures |t.rows| > 0 ==> |g.seeds| > 0
  {
    Greedy(Column(t, c), score, threshold, |t.rows|)
  }

  /** The group numbers main assigns to the rows: greedy clusters,
      renumbered by size. */
  function GroupIds(t: Table, c: nat, score: Metric, threshold: int): (ids: seq<int>)
    requires Rectangular(t) && c < t.width
    ensures |ids| == |t.rows|
  {
    ReindexGroupsBySize(Clustered(t, c, score, threshold).labels)
  }

  /** The number of groups of the chosen column. */
  function GroupCount(t: Table, c: nat, score: Metric, threshold: int): (k: nat)
    requires Rectangular(t) && c < t.width
    ensures |t.rows| > 0 ==> 1 <= k <= |t.rows|
  {
    |Clustered(t, c, score, threshold).seeds|
  }

  /** The greedy labels use every number from 1 to the number of groups, so
      renumbering keeps the number of groups. */
  lemma GroupCountKept(values: seq<string>, score: Metric, threshold: int)
    ensures var c := Greedy(values, score, threshold, |values|);
            |Ranking(c.labels)| == |c.seeds|
  {
    var c := Greedy(values, score, threshold, |values|);
    GreedyIsGreedy(values, score, threshold, |values|);
    forall a | 1 <= a <= |c.seeds|
      ensures a in c.labels
    {
      assert c.labels[c.seeds[a - 1]] == a;
    }
    RankingCount(c.labels, |c.seeds|);
  }

  /** All group numbers lie in 1 .. k. */
  predicate Within(ids: seq<int>, k: int) {
    forall p :: 0 <= p < |ids| ==> 1 <= ids[p] <= k
  }

  /** Renumbered labels lie in 1 .. number of distinct labels. */
  lemma WithinRanking(xs: seq<int>)
    ensures Within(ReindexGroupsBySize(xs), |Ranking(xs)|)
  {
  }

  /** Every renumbered group number lies in 1 .. number of groups. */
  lemma GroupIdsBounded(t: Table, c: nat, score: Metric, threshold: int)
    requires Rectangular(t) && c < t.width
    ensures Within(GroupIds(t, c, score, threshold), GroupCount(t, c, score, threshold))
  {
    var labels := Clustered(t, c, score, threshold).labels;
    GroupCountKept(Column(t, c), score, threshold);
    assert |Ranking(labels)| == GroupCount(t, c, score, threshold);
    WithinRanking(labels);
  }

  /** Two rows get the same group number exactly when the greedy clustering
      put them in one group. */
  lemma GroupIdsPartition(t: Table, c: nat, score: Metric, threshold: int)
    requires Rectangular(t) && c < t.width
    ensures SamePartition(Clustered(t, c, score, threshold).labels, GroupIds(t, c, score, threshold))
  {
    ReindexKeepsPartition(Clustered(t, c, score, threshold).labels);
  }

  /** add_group_indices_to_df with one group number per row: the inserted
      column holds exactly those numbers. */
  function Annotate(t: Table, c: nat, ids: seq<int>): (rows: seq<Row>)
    requires Rectangular(t) && c <= t.width && |ids| == |t.rows|
    ensures |rows| == |t.rows| && AllHaveGroup(rows, c)
    ensures GroupColumn(rows, c) == ids
  {
    var r := AddGroupIndices(t, c, ids);
    assert forall p :: 0 <= p < |t.rows| ==> r.value[p][c] == Group(ids[p]);
    r.value
  }

  /** add_group_indices_to_df followed by reorder_rows_by_group_index. */
  function Output(t: Table, c: nat, ids: seq<int>): (r: seq<Row>)
    requires Rectangular(t) && c <= t.width && |ids| == |t.rows|
    ensures AllHaveGroup(r, c)
    ensures multiset(r) == multiset(Annotate(t, c, ids))
    ensures multiset(GroupColumn(r, c)) == multiset(ids)
    ensures forall i, j :: 0 <= i < j < |r| ==> r[i][c].id <= r[j][c].id
  {
    var rows := Annotate(t, c, ids);
    ReorderRowsByGroupIndex(rows, c)
  }

  /** Group numbers within 1 .. k stay so under any permutation of the
      column. */
  lemma PermutedWithin(ids: seq<int>, r: seq<int>, k: int)
    requires Within(ids, k) && multiset(r) == multiset(ids)
    ensures Within(r, k)
  {
    forall i | 0 <= i < |r|
      ensures 1 <= r[i] <= k
    {
      assert r[i] in multiset(ids);
    }
  }

  /** The output's group numbers run within 1 .. number of groups. */
  lemma OutputBounded(t: Table, c: nat, score: Metric, threshold: int)
    requires Rectangular(t) && c < t.width
    ensures Within(GroupColumn(Output(t, c, GroupIds(t, c, score, threshold)), c), GroupCount(t, c, score, threshold))
  {
    var ids := GroupIds(t, c, score, threshold);
    GroupIdsBounded(t, c, score, threshold);
    PermutedWithin(ids, GroupColumn(Output(t, c, ids), c), GroupCount(t, c, score, threshold));
  }

  /** main.py lines 81-82: insert the group column, then order the rows by
      group number. */
  method AnnotateAndOrder(t: Table, c: nat, ids: seq<int>) returns (rows: seq<Row>)
    requires Rectangular(t) && c < t.width && |ids| == |t.rows|
    ensures rows == Output(t, c, ids)
    ensures AllHaveGroup(rows, c) && multiset(rows) == multiset(Annotate(t, c, ids))
    ensures multiset(GroupColumn(rows, c)) == multiset(ids)
    ensures forall i, j :: 0 <= i < j < |rows| ==> rows[i][c].id <= rows[j][c].id
  {
    var annotated := AddGroupIndices(t, c, ids);
    rows := ReorderRowsByGroupIndex(annotated.value, c);
  }

  /** main.py lines 79-82: the column is read first (an index past the last
      column fails), an empty table then fails in the duplicate statistics,
      and otherwise the annotated rows come out ordered by group number,
      each group numbered 1 .. total - duplicated. */
  method GroupDuplicates(t: Table, c: nat, score: Metric, threshold: int)
    returns (r: Result<seq<Row>>, duplicatedRows: int)
    requires Rectangular(t)
    ensures c >= t.width ==> r == Err(ColumnOutOfRange)
    ensures c < t.width && |t.rows| == 0 ==> r == Err(ZeroDivision)
    ensures r.Ok? <==> c < t.width && |t.rows| > 0
    ensures r.Ok? ==> r.value == Output(t, c, GroupIds(t, c, score, threshold))
    ensures r.Ok? ==> duplicatedRows == |t.rows| - GroupCount(t, c, score, threshold)
    ensures r.Ok? ==> 0 <= duplicatedRows < |t.rows|
  {
    if c >= t.width {
      return Err(ColumnOutOfRange), 0;
    }
    var values := Column(t, c);
    var labels, dup := ComputeSimilarityGroupsIndex(values, score, threshold);
    if labels.Err? {
      return Err(labels.error), 0;
    }
    var ids := ReindexGroupsBySize(labels.value);
    var rows := AnnotateAndOrder(t, c, ids);
    return Ok(rows), dup;
  }
}
