/** Greedy single-pass similarity clustering (compute_similarity_groups_index).

    Every still-unassigned row opens a new group and becomes its seed; every
    later unassigned row whose score against the seed reaches the threshold
    joins that group. Rows are compared with seeds only, never with other
    members.

    The module gives the clustering three ways:
    - IsGreedyPrefix: a declarative description of a greedy clustering;
    - Greedy: a row-by-row functional reference, proved to satisfy the
      description and to be the only clustering that does (GreedyUnique);
    - ComputeSimilarityGroupsIndex: the seed-by-seed array algorithm of the
      program, proved to compute the reference. */
module Clustering {
  import opened Errors

  /** The similarity metric (fuzz.ratio): an opaque function of two strings. */
  type Metric = (string, string) -> int

  /** fuzz.ratio scores lie on the scale 0..100. */
  ghost predicate Bounded(score: Metric) {
    forall a, b :: 0 <= score(a, b) <= 100
  }

  /** Row j is close enough to seed row s to join its group. */
  predicate Joins(values: seq<string>, score: Metric, threshold: int, s: nat, j: nat)
    requires s < |values| && j < |values|
  {
    score(values[s], values[j]) >= threshold
  }

  predicate SeedsBelow(seeds: seq<nat>, n: nat) {
    forall m :: 0 <= m < |seeds| ==> seeds[m] < n
  }

  /** The position, in seed order, of the first seed that row j joins;
      |seeds| when j joins none of them. */
  function FirstMatch(values: seq<string>, score: Metric, threshold: int, seeds: seq<nat>, j: nat): (k: nat)
    requires j < |values| && SeedsBelow(seeds, |values|)
    ensures k <= |seeds|
    ensures k < |seeds| ==> Joins(values, score, threshold, seeds[k], j)
    ensures forall m :: 0 <= m < k ==> !Joins(values, score, threshold, seeds[m], j)
    decreases |seeds|
  {
    if |seeds| == 0 then 0
    else
      var k := FirstMatch(values, score, threshold, seeds[..|seeds| - 1], j);
      if k < |seeds| - 1 then k
      else if Joins(values, score, threshold, seeds[|seeds| - 1], j) then |seeds| - 1
      else |seeds|
  }

  /** Appending a seed only matters to rows that joined none of the earlier seeds. */
  lemma FirstMatchSnoc(values: seq<string>, score: Metric, threshold: int, seeds: seq<nat>, s: nat, j: nat)
    requires j < |values| && s < |values| && SeedsBelow(seeds, |values|)
    ensures var k := FirstMatch(values, score, threshold, seeds, j);
            FirstMatch(values, score, threshold, seeds + [s], j)
            == if k < |seeds| then k
               else if Joins(values, score, threshold, s, j) then |seeds|
               else |seeds| + 1
  {
    assert (seeds + [s])[..|seeds|] == seeds;
  }

  /** A clustering of a prefix of the rows: one label per row, and the seed
      (first row) of each group, listed by group number. */
  datatype Clusters = Clusters(labels: seq<int>, seeds: seq<nat>)

  /** Seeds lie below n and increase with the group number, so groups open in row order. */
  ghost predicate SeedsOrdered(n: nat, c: Clusters) {
    && |c.seeds| <= n
    && (forall m :: 0 <= m < |c.seeds| ==> c.seeds[m] < n)
    && (forall m, m' :: 0 <= m < m' < |c.seeds| ==> c.seeds[m] < c.seeds[m'])
  }

  /** One label per row, each in 1..|seeds|, and group g's seed carries label g. */
  ghost predicate LabelsDense(n: nat, c: Clusters)
    requires SeedsOrdered(n, c)
  {
    && |c.labels| == n
    && (forall m {:trigger c.labels[c.seeds[m]]} :: 0 <= m < |c.seeds| ==> c.labels[c.seeds[m]] == m + 1)
    && (forall p :: 0 <= p < n ==> 1 <= c.labels[p] <= |c.seeds|)
  }

  /** Every row's group seed is at or before it, and a row other than its
      seed joins that seed. */
  ghost predicate Anchored(values: seq<string>, score: Metric, threshold: int, n: nat, c: Clusters)
    requires n <= |values| && SeedsOrdered(n, c) && LabelsDense(n, c)
  {
    forall p :: 0 <= p < n ==>
      c.seeds[c.labels[p] - 1] <= p
      && (c.seeds[c.labels[p] - 1] < p ==> Joins(values, score, threshold, c.seeds[c.labels[p] - 1], p))
  }

  /** Greedy first match: the seed of every earlier group precedes the row,
      and the row does not join it. */
  ghost predicate FirstFit(values: seq<string>, score: Metric, threshold: int, n: nat, c: Clusters)
    requires n <= |values| && SeedsOrdered(n, c) && LabelsDense(n, c)
  {
    forall p, m :: 0 <= p < n && 0 <= m < c.labels[p] - 1 ==>
      c.seeds[m] < p && !Joins(values, score, threshold, c.seeds[m], p)
  }

  /** c is a greedy clustering of the first n rows. */
  ghost predicate IsGreedyPrefix(values: seq<string>, score: Metric, threshold: int, n: nat, c: Clusters)
    requires n <= |values|
  {
    && SeedsOrdered(n, c)
    && LabelsDense(n, c)
    && Anchored(values, score, threshold, n, c)
    && FirstFit(values, score, threshold, n, c)
  }

  /** Row n joins the existing group k + 1: the clustering stays greedy. */
  lemma JoinKeepsGreedy(values: seq<string>, score: Metric, threshold: int, n: nat, prev: Clusters, k: nat)
    requires n < |values| && IsGreedyPrefix(values, score, threshold, n, prev)
    requires k == FirstMatch(values, score, threshold, prev.seeds, n) && k < |prev.seeds|
    ensures IsGreedyPrefix(values, score, threshold, n + 1, Clusters(prev.labels + [k + 1], prev.seeds))
  {
    var c := Clusters(prev.labels + [k + 1], prev.seeds);
    assert SeedsOrdered(n + 1, c);
    JoinKeepsDense(n, prev, k);
    JoinKeepsAnchored(values, score, threshold, n, prev, k);
    JoinKeepsFirstFit(values, score, threshold, n, prev, k);
  }

  lemma JoinKeepsDense(n: nat, prev: Clusters, k: nat)
    requires SeedsOrdered(n, prev) && LabelsDense(n, prev) && k < |prev.seeds|
    ensures SeedsOrdered(n + 1, Clusters(prev.labels + [k + 1], prev.seeds))
    ensures LabelsDense(n + 1, Clusters(prev.labels + [k + 1], prev.seeds))
  {
  }

  lemma JoinKeepsAnchored(values: seq<string>, score: Metric, threshold: int, n: nat, prev: Clusters, k: nat)
    requires n < |values| && SeedsOrdered(n, prev) && LabelsDense(n, prev)
    requires Anchored(values, score, threshold, n, prev)
    requires k == FirstMatch(values, score, threshold, prev.seeds, n) && k < |prev.seeds|
    ensures SeedsOrdered(n + 1, Clusters(prev.labels + [k + 1], prev.seeds))
    ensures LabelsDense(n + 1, Clusters(prev.labels + [k + 1], prev.seeds))
    ensures Anchored(values, score, threshold, n + 1, Clusters(prev.labels + [k + 1], prev.seeds))
  {
    var c := Clusters(prev.labels + [k + 1], prev.seeds);
    JoinKeepsDense(n, prev, k);
    assert c.labels[n] == k + 1;
    assert Joins(values, score, threshold, prev.seeds[k], n);
    forall p | 0 <= p < n
      ensures c.labels[p] == prev.labels[p]
    {
    }
  }

  lemma JoinKeepsFirstFit(values: seq<string>, score: Metric, threshold: int, n: nat, prev: Clusters, k: nat)
    requires n < |values| && SeedsOrdered(n, prev) && LabelsDense(n, prev)
    requires FirstFit(values, score, threshold, n, prev)
    requires k == FirstMatch(values, score, threshold, prev.seeds, n) && k < |prev.seeds|
    ensures SeedsOrdered(n + 1, Clusters(prev.labels + [k + 1], prev.seeds))
    ensures LabelsDense(n + 1, Clusters(prev.labels + [k + 1], prev.seeds))
    ensures FirstFit(values, score, threshold, n + 1, Clusters(prev.labels + [k + 1], prev.seeds))
  {
    var c := Clusters(prev.labels + [k + 1], prev.seeds);
    JoinKeepsDense(n, prev, k);
    forall p, m | 0 <= p < n + 1 && 0 <= m < c.labels[p] - 1
      ensures c.seeds[m] < p && !Joins(values, score, threshold, c.seeds[m], p)
    {
      if p < n {
        assert c.labels[p] == prev.labels[p];
      }
    }
  }

  /** Row n joins no seed and opens group |seeds| + 1: the clustering stays greedy. */
  lemma SeedKeepsGreedy(values: seq<string>, score: Metric, threshold: int, n: nat, prev: Clusters)
    requires n < |values| && IsGreedyPrefix(values, score, threshold, n, prev)
    requires FirstMatch(values, score, threshold, prev.seeds, n) == |prev.seeds|
    ensures IsGreedyPrefix(values, score, threshold, n + 1,
                           Clusters(prev.labels + [|prev.seeds| + 1], prev.seeds + [n]))
  {
    SeedKeepsDense(n, prev);
    SeedKeepsAnchored(values, score, threshold, n, prev);
    SeedKeepsFirstFit(values, score, threshold, n, prev);
  }

  lemma SeedKeepsDense(n: nat, prev: Clusters)
    requires SeedsOrdered(n, prev) && LabelsDense(n, prev)
    ensures SeedsOrdered(n + 1, Clusters(prev.labels + [|prev.seeds| + 1], prev.seeds + [n]))
    ensures LabelsDense(n + 1, Clusters(prev.labels + [|prev.seeds| + 1], prev.seeds + [n]))
  {
    var c := Clusters(prev.labels + [|prev.seeds| + 1], prev.seeds + [n]);
    assert forall m :: 0 <= m < |prev.seeds| ==> c.seeds[m] == prev.seeds[m];
    assert SeedsOrdered(n + 1, c);
    forall m | 0 <= m < |c.seeds|
      ensures c.labels[c.seeds[m]] == m + 1
    {
      if m < |prev.seeds| {
        assert c.labels[c.seeds[m]] == prev.labels[prev.seeds[m]];
      }
    }
  }

  lemma SeedKeepsAnchored(values: seq<string>, score: Metric, threshold: int, n: nat, prev: Clusters)
    requires n < |values| && SeedsOrdered(n, prev) && LabelsDense(n, prev)
    requires Anchored(values, score, threshold, n, prev)
    ensures SeedsOrdered(n + 1, Clusters(prev.labels + [|prev.seeds| + 1], prev.seeds + [n]))
    ensures LabelsDense(n + 1, Clusters(prev.labels + [|prev.seeds| + 1], prev.seeds + [n]))
    ensures Anchored(values, score, threshold, n + 1, Clusters(prev.labels + [|prev.seeds| + 1], prev.seeds + [n]))
  {
    var c := Clusters(prev.labels + [|prev.seeds| + 1], prev.seeds + [n]);
    SeedKeepsDense(n, prev);
    forall p | 0 <= p < n + 1
      ensures c.seeds[c.labels[p] - 1] <= p
      ensures c.seeds[c.labels[p] - 1] < p ==> Joins(values, score, threshold, c.seeds[c.labels[p] - 1], p)
    {
      if p < n {
        assert c.labels[p] == prev.labels[p];
        assert c.seeds[c.labels[p] - 1] == prev.seeds[prev.labels[p] - 1];
      }
    }
  }

  lemma SeedKeepsFirstFit(values: seq<string>, score: Metric, threshold: int, n: nat, prev: Clusters)
    requires n < |values| && SeedsOrdered(n, prev) && LabelsDense(n, prev)
    requires FirstFit(values, score, threshold, n, prev)
    requires FirstMatch(values, score, threshold, prev.seeds, n) == |prev.seeds|
    ensures SeedsOrdered(n + 1, Clusters(prev.labels + [|prev.seeds| + 1], prev.seeds + [n]))
    ensures LabelsDense(n + 1, Clusters(prev.labels + [|prev.seeds| + 1], prev.seeds + [n]))
    ensures FirstFit(values, score, threshold, n + 1, Clusters(prev.labels + [|prev.seeds| + 1], prev.seeds + [n]))
  {
    var c := Clusters(prev.labels + [|prev.seeds| + 1], prev.seeds + [n]);
    SeedKeepsDense(n, prev);
    forall p, m | 0 <= p < n + 1 && 0 <= m < c.labels[p] - 1
      ensures c.seeds[m] < p && !Joins(values, score, threshold, c.seeds[m], p)
    {
      if p < n {
        assert c.labels[p] == prev.labels[p];
      }
      assert c.seeds[m] == prev.seeds[m];
    }
  }

  /** One step of the row-by-row clustering: row n joins the first seed it is
      close to, or else becomes the seed of a new group. */
  function Step(values: seq<string>, score: Metric, threshold: int, prev: Clusters, n: nat): (c: Clusters)
    requires n < |values| && SeedsBelow(prev.seeds, n)
    ensures |c.labels| == |prev.labels| + 1 && c.labels[..|prev.labels|] == prev.labels
    ensures SeedsBelow(c.seeds, n + 1) && 0 < |c.seeds| <= |prev.seeds| + 1
  {
    var k := FirstMatch(values, score, threshold, prev.seeds, n);
    if k < |prev.seeds| then Clusters(prev.labels + [k + 1], prev.seeds)
    else Clusters(prev.labels + [k + 1], prev.seeds + [n])
  }

  lemma StepKeepsGreedy(values: seq<string>, score: Metric, threshold: int, prev: Clusters, n: nat)
    requires n < |values| && IsGreedyPrefix(values, score, threshold, n, prev)
    ensures IsGreedyPrefix(values, score, threshold, n + 1, Step(values, score, threshold, prev, n))
  {
    var k := FirstMatch(values, score, threshold, prev.seeds, n);
    if k < |prev.seeds| {
      assert Step(values, score, threshold, prev, n) == Clusters(prev.labels + [k + 1], prev.seeds);
      JoinKeepsGreedy(values, score, threshold, n, prev, k);
    } else {
      assert Step(values, score, threshold, prev, n) == Clusters(prev.labels + [|prev.seeds| + 1], prev.seeds + [n]);
      SeedKeepsGreedy(values, score, threshold, n, prev);
    }
  }

  /** The greedy clustering of the first n rows, computed row by row. */
  function Greedy(values: seq<string>, score: Metric, threshold: int, n: nat): (c: Clusters)
    requires n <= |values|
    ensures |c.labels| == n && SeedsBelow(c.seeds, n) && |c.seeds| <= n
    ensures n > 0 ==> |c.seeds| > 0
    decreases n
  {
    if n == 0 then Clusters([], [])
    else Step(values, score, threshold, Greedy(values, score, threshold, n - 1), n - 1)
  }

  /** The row-by-row clustering meets the declarative description. */
  lemma {:induction false} GreedyIsGreedy(values: seq<string>, score: Metric, threshold: int, n: nat)
    requires n <= |values|
    ensures IsGreedyPrefix(values, score, threshold, n, Greedy(values, score, threshold, n))
    decreases n
  {
    if n > 0 {
      GreedyIsGreedy(values, score, threshold, n - 1);
      StepKeepsGreedy(values, score, threshold, Greedy(values, score, threshold, n - 1), n - 1);
    }
  }

  /** The clustering of the first n - 1 rows that a clustering of n rows
      extends: drop the last label, and the last seed if it is row n - 1. */
  function Truncate(n: nat, c: Clusters): Clusters
    requires 0 < n && |c.labels| == n
  {
    if |c.seeds| > 0 && c.seeds[|c.seeds| - 1] == n - 1
    then Clusters(c.labels[..n - 1], c.seeds[..|c.seeds| - 1])
    else Clusters(c.labels[..n - 1], c.seeds)
  }

  /** Strictly increasing naturals: the m-th is at least m. */
  lemma {:induction false} IncreasingAboveIndex(s: seq<nat>)
    requires forall m, m' :: 0 <= m < m' < |s| ==> s[m] < s[m']
    ensures forall m :: 0 <= m < |s| ==> m <= s[m]
  {
    if |s| > 0 {
      IncreasingAboveIndex(s[..|s| - 1]);
      assert forall m :: 0 <= m < |s| - 1 ==> s[..|s| - 1][m] == s[m];
      if |s| > 1 {
        assert s[|s| - 2] < s[|s| - 1];
      }
    }
  }

  lemma TruncateOrdered(n: nat, c: Clusters)
    requires 0 < n && SeedsOrdered(n, c) && LabelsDense(n, c)
    ensures SeedsOrdered(n - 1, Truncate(n, c))
  {
    var t := Truncate(n, c);
    forall m | 0 <= m < |t.seeds|
      ensures t.seeds[m] < n - 1
    {
      assert t.seeds[m] == c.seeds[m];
      if m < |c.seeds| - 1 {
        assert c.seeds[m] < c.seeds[|c.seeds| - 1];
      }
    }
    if t.seeds == c.seeds && |c.seeds| > 0 {
      IncreasingAboveIndex(c.seeds);
      assert |c.seeds| - 1 <= c.seeds[|c.seeds| - 1] < n - 1;
    }
  }

  lemma TruncateDense(values: seq<string>, score: Metric, threshold: int, n: nat, c: Clusters)
    requires 0 < n <= |values| && SeedsOrdered(n, c) && LabelsDense(n, c)
    requires Anchored(values, score, threshold, n, c)
    ensures SeedsOrdered(n - 1, Truncate(n, c)) && LabelsDense(n - 1, Truncate(n, c))
  {
    TruncateOrdered(n, c);
    var t := Truncate(n, c);
    forall m | 0 <= m < |t.seeds|
      ensures t.labels[t.seeds[m]] == m + 1
    {
      assert t.seeds[m] == c.seeds[m];
      assert c.labels[c.seeds[m]] == m + 1;
    }
    forall p | 0 <= p < n - 1
      ensures 1 <= t.labels[p] <= |t.seeds|
    {
      assert t.labels[p] == c.labels[p];
      if t.seeds != c.seeds && c.labels[p] == |c.seeds| {
        assert c.seeds[c.labels[p] - 1] <= p;
      }
    }
  }

  lemma TruncateGreedy(values: seq<string>, score: Metric, threshold: int, n: nat, c: Clusters)
    requires 0 < n <= |values| && IsGreedyPrefix(values, score, threshold, n, c)
    ensures IsGreedyPrefix(values, score, threshold, n - 1, Truncate(n, c))
  {
    TruncateDense(values, score, threshold, n, c);
    var t := Truncate(n, c);
    forall p | 0 <= p < n - 1
      ensures t.seeds[t.labels[p] - 1] <= p
      ensures t.seeds[t.labels[p] - 1] < p ==> Joins(values, score, threshold, t.seeds[t.labels[p] - 1], p)
    {
      assert t.labels[p] == c.labels[p];
      assert t.seeds[t.labels[p] - 1] == c.seeds[c.labels[p] - 1];
    }
    forall p, m | 0 <= p < n - 1 && 0 <= m < t.labels[p] - 1
      ensures t.seeds[m] < p && !Joins(values, score, threshold, t.seeds[m], p)
    {
      assert t.labels[p] == c.labels[p];
      assert t.seeds[m] == c.seeds[m];
    }
  }

  /** A greedy clustering of n rows is one step of the row-by-row clustering
      applied to its truncation. */
  lemma TruncateStep(values: seq<string>, score: Metric, threshold: int, n: nat, c: Clusters)
    requires 0 < n <= |values| && IsGreedyPrefix(values, score, threshold, n, c)
    ensures SeedsOrdered(n - 1, Truncate(n, c))
    ensures Step(values, score, threshold, Truncate(n, c), n - 1) == c
  {
    TruncateOrdered(n, c);
    var t := Truncate(n, c);
    var g := c.labels[n - 1];
    var k := FirstMatch(values, score, threshold, t.seeds, n - 1);
    if t.seeds != c.seeds {
      assert g == |c.seeds|;
      assert c.seeds == t.seeds + [n - 1];
      assert k == |t.seeds|;
    } else {
      var s := c.seeds[g - 1];
      assert Joins(values, score, threshold, s, n - 1);
      assert k == g - 1;
    }
    assert c.labels == t.labels + [g];
  }

  /** The declarative description pins the clustering down: the row-by-row
      clustering is the only greedy clustering of the rows. */
  lemma {:induction false} GreedyUnique(values: seq<string>, score: Metric, threshold: int, n: nat, c: Clusters)
    requires n <= |values| && IsGreedyPrefix(values, score, threshold, n, c)
    ensures c == Greedy(values, score, threshold, n)
    decreases n
  {
    if n == 0 {
    } else {
      TruncateGreedy(values, score, threshold, n, c);
      TruncateStep(values, score, threshold, n, c);
      GreedyUnique(values, score, threshold, n - 1, Truncate(n, c));
    }
  }

  /** Groups are numbered in order of first occurrence: the seed of group
      m + 1 is labelled m + 1 and every row before it belongs to one of the
      groups 1..m. */
  lemma GroupsOpenInRowOrder(values: seq<string>, score: Metric, threshold: int, n: nat)
    requires n <= |values|
    ensures var c := Greedy(values, score, threshold, n);
            forall m :: 0 <= m < |c.seeds| ==>
              && c.labels[c.seeds[m]] == m + 1
              && forall p :: 0 <= p < c.seeds[m] ==> c.labels[p] <= m
  {
    var c := Greedy(values, score, threshold, n);
    GreedyIsGreedy(values, score, threshold, n);
    forall m, p | 0 <= m < |c.seeds| && 0 <= p < c.seeds[m]
      ensures c.labels[p] <= m
    {
      assert c.seeds[c.labels[p] - 1] <= p;
    }
  }

  /** With a threshold of at most 0 every score reaches it: row 0 seeds the
      only group and every row joins it. */
  lemma {:induction false} ThresholdAtMostZero(values: seq<string>, score: Metric, threshold: int, n: nat)
    requires Bounded(score) && threshold <= 0 && 0 < n <= |values|
    ensures Greedy(values, score, threshold, n).seeds == [0]
    ensures forall p :: 0 <= p < n ==> Greedy(values, score, threshold, n).labels[p] == 1
    decreases n
  {
    if n > 1 {
      ThresholdAtMostZero(values, score, threshold, n - 1);
      assert Joins(values, score, threshold, 0, n - 1);
      assert FirstMatch(values, score, threshold, [0], n - 1) == 0;
    }
  }

  /** With a threshold above 100 a row joins none of the seeds. */
  lemma {:induction false} NoMatchAboveHundred(values: seq<string>, score: Metric, threshold: int, seeds: seq<nat>, j: nat)
    requires Bounded(score) && threshold > 100
    requires j < |values| && SeedsBelow(seeds, |values|)
    ensures FirstMatch(values, score, threshold, seeds, j) == |seeds|
    decreases |seeds|
  {
    if |seeds| > 0 {
      var init := seeds[..|seeds| - 1];
      NoMatchAboveHundred(values, score, threshold, init, j);
      assert score(values[seeds[|seeds| - 1]], values[j]) <= 100;
    }
  }

  /** When every earlier row seeds its own group and row n joins none of
      them, row n seeds group n + 1. */
  lemma StepOpensNext(values: seq<string>, score: Metric, threshold: int, prev: Clusters, n: nat)
    requires n < |values| && SeedsBelow(prev.seeds, n)
    requires |prev.labels| == n && |prev.seeds| == n
    requires forall p :: 0 <= p < n ==> prev.labels[p] == p + 1
    requires FirstMatch(values, score, threshold, prev.seeds, n) == |prev.seeds|
    ensures |Step(values, score, threshold, prev, n).seeds| == n + 1
    ensures forall p :: 0 <= p <= n ==> Step(values, score, threshold, prev, n).labels[p] == p + 1
  {
    var c := Step(values, score, threshold, prev, n);
    assert c.labels == prev.labels + [n + 1];
  }

  /** With a threshold above 100 no score reaches it: every row seeds its own
      group, numbered by its position. */
  lemma {:induction false} ThresholdAboveHundred(values: seq<string>, score: Metric, threshold: int, n: nat)
    requires Bounded(score) && threshold > 100 && n <= |values|
    ensures |Greedy(values, score, threshold, n).seeds| == n
    ensures forall p :: 0 <= p < n ==> Greedy(values, score, threshold, n).labels[p] == p + 1
    decreases n
  {
    if n > 0 {
      ThresholdAboveHundred(values, score, threshold, n - 1);
      var prev := Greedy(values, score, threshold, n - 1);
      NoMatchAboveHundred(values, score, threshold, prev.seeds, n - 1);
      StepOpensNext(values, score, threshold, prev, n - 1);
    }
  }

  /** A symmetric, reflexive metric on 0..100 that looks only at lengths:
      lengths 1 and 2 score 85, lengths 2 and 3 score 95, lengths 1 and 3 score 10. */
  function LengthScore(x: string, y: string): int {
    if |x| == |y| then 100
    else if |x| + |y| == 3 then 85
    else if |x| + |y| == 5 then 95
    else 10
  }

  /** Three rows of lengths 1, 2 and 3. */
  const Sample: seq<string> := ["a", "bb", "ccc"]

  /** The first row always opens group 1. */
  lemma SampleFirstRow(threshold: int)
    ensures Greedy(Sample, LengthScore, threshold, 1) == Clusters([1], [0])
  {
    assert Greedy(Sample, LengthScore, threshold, 0) == Clusters([], []);
  }

  /** At threshold 80 row 1 scores 85 against seed 0 and joins group 1. */
  lemma SampleAt80Row1()
    ensures Greedy(Sample, LengthScore, 80, 2) == Clusters([1, 1], [0])
  {
    SampleFirstRow(80);
    assert FirstMatch(Sample, LengthScore, 80, [0], 1) == 0;
  }

  /** At threshold 80, ["a", "bb", "ccc"] clusters as [1, 1, 2]: row 2
      scores 10 against seed 0 and opens group 2. */
  lemma LengthScoreAt80()
    ensures Greedy(Sample, LengthScore, 80, 3).labels == [1, 1, 2]
  {
    SampleAt80Row1();
    assert FirstMatch(Sample, LengthScore, 80, [0], 2) == 1;
  }

  /** At threshold 90 row 1 scores 85 against seed 0 and opens group 2. */
  lemma SampleAt90Row1()
    ensures Greedy(Sample, LengthScore, 90, 2) == Clusters([1, 2], [0, 1])
  {
    SampleFirstRow(90);
    assert FirstMatch(Sample, LengthScore, 90, [0], 1) == 1;
  }

  /** At threshold 90, ["a", "bb", "ccc"] clusters as [1, 2, 2]: row 2
      scores 10 against seed 0 and 95 against seed 1. */
  lemma LengthScoreAt90()
    ensures Greedy(Sample, LengthScore, 90, 3).labels == [1, 2, 2]
  {
    SampleAt90Row1();
    SampleRow2JoinsRow1();
  }

  /** Row 2 does not join seed 0 at threshold 90 but joins seed 1. */
  lemma SampleRow2JoinsRow1()
    ensures FirstMatch(Sample, LengthScore, 90, [0, 1], 2) == 1
  {
    assert [0, 1][..1] == [0];
    assert FirstMatch(Sample, LengthScore, 90, [0], 2) == 1 by {
      assert [0][..0] == [];
      assert LengthScore(Sample[0], Sample[2]) == 10;
    }
    assert LengthScore(Sample[1], Sample[2]) == 95;
  }

  lemma LengthScoreBounded()
    ensures Bounded(LengthScore)
  {
    forall a, b
      ensures 0 <= LengthScore(a, b) <= 100
    {
    }
  }

  /** Raising the threshold can put two rows that were apart into one group:
      at 80 row 1 joins row 0 and row 2 opens group 2; at 90 row 1 no longer
      joins row 0, seeds group 2 itself and claims row 2. */
  lemma RaisingThresholdCanMerge()
    ensures Bounded(LengthScore)
    ensures Greedy(Sample, LengthScore, 80, 3).labels[1] != Greedy(Sample, LengthScore, 80, 3).labels[2]
    ensures Greedy(Sample, LengthScore, 90, 3).labels[1] == Greedy(Sample, LengthScore, 90, 3).labels[2]
  {
    LengthScoreBounded();
    LengthScoreAt80();
    LengthScoreAt90();
  }

  /** The label a not-yet-visited row carries once the given seeds have been
      processed: the first matching seed's group, or -1 (unassigned). */
  function Pending(values: seq<string>, score: Metric, threshold: int, seeds: seq<nat>, j: nat): int
    requires j < |values| && SeedsBelow(seeds, |values|)
  {
    var k := FirstMatch(values, score, threshold, seeds, j);
    if k < |seeds| then k + 1 else -1
  }

  /** Adding seed i to the seeds changes the pending label of row j only
      when j was unassigned and joins i: it then gets i's group. */
  lemma PendingSnoc(values: seq<string>, score: Metric, threshold: int, seeds: seq<nat>, i: nat, j: nat)
    requires i < |values| && j < |values| && SeedsBelow(seeds, |values|)
    ensures SeedsBelow(seeds + [i], |values|)
    ensures Pending(values, score, threshold, seeds + [i], j)
         == if Pending(values, score, threshold, seeds, j) == -1 && score(values[i], values[j]) >= threshold
            then |seeds| + 1
            else Pending(values, score, threshold, seeds, j)
  {
    FirstMatchSnoc(values, score, threshold, seeds, i, j);
  }

  /** The inner loop of compute_similarity_groups_index: seed row i (already
      labelled with group `current`) claims every later unassigned row whose
      score against it reaches the threshold. Rows 0..i are untouched. */
  method ClaimMatches(a: array<int>, values: seq<string>, score: Metric, threshold: int,
                      i: nat, current: int, ghost seeds: seq<nat>)
    requires a.Length == |values| && i < |values| && SeedsBelow(seeds, i)
    requires current == |seeds| + 1
    requires forall q :: i < q < |values| ==> a[q] == Pending(values, score, threshold, seeds, q)
    modifies a
    ensures forall p :: 0 <= p <= i ==> a[p] == old(a[p])
    ensures forall q :: i < q < |values| ==> a[q] == Pending(values, score, threshold, seeds + [i], q)
  {
    ghost var after := seeds + [i];
    assert SeedsBelow(after, |values|);
    var j := i + 1;
    while j < a.Length
      invariant i + 1 <= j <= a.Length
      invariant forall p :: 0 <= p <= i ==> a[p] == old(a[p])
      invariant forall q :: i < q < j ==> a[q] == Pending(values, score, threshold, after, q)
      invariant forall q :: j <= q < |values| ==> a[q] == Pending(values, score, threshold, seeds, q)
    {
      PendingSnoc(values, score, threshold, seeds, i, j);
      if a[j] == -1 {
        var similarity := score(values[i], values[j]);
        if similarity >= threshold {
          a[j] := current;
        }
      }
      j := j + 1;
    }
  }

  /** The state of the label array after the outer loop has visited rows
      0..i-1: those rows carry their greedy labels, every later row carries
      the label of the first seed so far that claimed it (or -1), and
      `current` counts the groups opened. */
  ghost predicate Visited(values: seq<string>, score: Metric, threshold: int, i: nat, s: seq<int>, current: int)
    requires i <= |values|
  {
    var c := Greedy(values, score, threshold, i);
    && |s| == |values|
    && current == |c.seeds|
    && (forall p :: 0 <= p < i ==> s[p] == c.labels[p])
    && (forall q :: i <= q < |values| ==> s[q] == Pending(values, score, threshold, c.seeds, q))
  }

  /** Visiting an already-labelled row changes nothing. */
  lemma VisitLabelled(values: seq<string>, score: Metric, threshold: int, i: nat, s: seq<int>, current: int)
    requires i < |values| && Visited(values, score, threshold, i, s, current) && s[i] != -1
    ensures Visited(values, score, threshold, i + 1, s, current)
  {
    var c := Greedy(values, score, threshold, i);
    assert Greedy(values, score, threshold, i + 1) == Step(values, score, threshold, c, i);
  }

  /** Visiting an unlabelled row opens group current + 1 with that row as seed,
      and the scan that follows lets the new seed claim the later rows. */
  lemma VisitSeed(values: seq<string>, score: Metric, threshold: int, i: nat, s: seq<int>, current: int, s': seq<int>)
    requires i < |values| && Visited(values, score, threshold, i, s, current) && s[i] == -1
    requires |s'| == |values| && s'[..i] == s[..i] && s'[i] == current + 1
    requires SeedsBelow(Greedy(values, score, threshold, i).seeds + [i], |values|)
    requires forall q :: i < q < |values| ==>
               s'[q] == Pending(values, score, threshold, Greedy(values, score, threshold, i).seeds + [i], q)
    ensures Visited(values, score, threshold, i + 1, s', current + 1)
  {
    var c := Greedy(values, score, threshold, i);
    assert Greedy(values, score, threshold, i + 1) == Step(values, score, threshold, c, i);
    forall p | 0 <= p < i
      ensures s'[p] == c.labels[p]
    {
      assert s'[p] == s'[..i][p];
    }
  }

  /** One iteration of the outer loop of compute_similarity_groups_index:
      an unlabelled row i opens group current + 1 and claims its matches;
      a labelled row is skipped. */
  method VisitRow(a: array<int>, values: seq<string>, score: Metric, threshold: int, i: nat, current: int)
    returns (current': int)
    requires a.Length == |values| && i < |values|
    requires Visited(values, score, threshold, i, a[..], current)
    modifies a
    ensures Visited(values, score, threshold, i + 1, a[..], current')
  {
    if a[i] == -1 {
      ghost var before := a[..];
      ghost var seeds := Greedy(values, score, threshold, i).seeds;
      current' := current + 1;
      a[i] := current';
      ClaimMatches(a, values, score, threshold, i, current', seeds);
      assert a[..i] == before[..i];
      VisitSeed(values, score, threshold, i, before, current, a[..]);
    } else {
      current' := current;
      VisitLabelled(values, score, threshold, i, a[..], current);
    }
  }

  /** Before the outer loop every row is unassigned and no group is open. */
  lemma VisitedStart(values: seq<string>, score: Metric, threshold: int, s: seq<int>)
    requires |s| == |values| && forall q :: 0 <= q < |s| ==> s[q] == -1
    ensures Visited(values, score, threshold, 0, s, 0)
  {
  }

  /** After the outer loop the array holds the greedy labels, each within
      1 .. number of groups. */
  lemma VisitedAll(values: seq<string>, score: Metric, threshold: int, s: seq<int>, current: int)
    requires Visited(values, score, threshold, |values|, s, current)
    ensures s == Greedy(values, score, threshold, |values|).labels
    ensures current == |Greedy(values, score, threshold, |values|).seeds| <= |values|
    ensures |values| > 0 ==> 0 < current
    ensures forall p :: 0 <= p < |values| ==> 1 <= s[p] <= current
  {
    GreedyIsGreedy(values, score, threshold, |values|);
  }

  /** The outer loop of compute_similarity_groups_index over a label array
      that starts all unassigned (-1); current counts the groups opened. */
  method LabelRows(values: seq<string>, score: Metric, threshold: int)
    returns (labels: seq<int>, current: int)
    ensures Visited(values, score, threshold, |values|, labels, current)
  {
    var n := |values|;
    var a := new int[n](_ => -1);
    current := 0;
    var i := 0;
    VisitedStart(values, score, threshold, a[..]);
    while i < n
      invariant 0 <= i <= n
      invariant Visited(values, score, threshold, i, a[..], current)
    {
      current := VisitRow(a, values, score, threshold, i, current);
      i := i + 1;
    }
    labels := a[..];
  }

  /** compute_similarity_groups_index: the array algorithm of the program.
      The result is the greedy clustering; an empty input raises the
      division by zero of the duplicate percentage. duplicatedRows is the
      logged count total - groups. */
  method ComputeSimilarityGroupsIndex(values: seq<string>, score: Metric, threshold: int)
    returns (r: Result<seq<int>>, duplicatedRows: int)
    ensures |values| == 0 <==> r == Err(ZeroDivision)
    ensures r.Ok? <==> |values| > 0
    ensures r.Ok? ==> r.value == Greedy(values, score, threshold, |values|).labels
    ensures r.Ok? ==> duplicatedRows == |values| - |Greedy(values, score, threshold, |values|).seeds|
    ensures r.Ok? ==> 0 <= duplicatedRows < |values|
    ensures r.Ok? ==> forall p :: 0 <= p < |values| ==> 1 <= r.value[p] <= |values| - duplicatedRows
  {
    var labels, current := LabelRows(values, score, threshold);
    VisitedAll(values, score, threshold, labels, current);
    if |values| == 0 {
      return Err(ZeroDivision), 0;
    }
    duplicatedRows := |values| - current;
    r := Ok(labels);
  }
}
