/** Size-ordered renumbering of group labels (reindex_groups_by_size).

    Counter(labels) lists the distinct labels in order of first appearance
    with their member counts; Python's sorted (stable, also with
    reverse=True) orders them by count, largest first, so equal counts keep
    first-appearance order; the label at position i of that order becomes
    i + 1. */
module Reindex {

  /** Position of the first occurrence of v in xs; |xs| when v is absent. */
  function FirstIndex(xs: seq<int>, v: int): (p: nat)
    ensures p <= |xs|
    ensures p < |xs| <==> v in xs
    ensures p < |xs| ==> xs[p] == v
    ensures forall q :: 0 <= q < p && q < |xs| ==> xs[q] != v
  {
    if |xs| == 0 then 0
    else if xs[0] == v then 0
    else 1 + FirstIndex(xs[1..], v)
  }

  /** The keys of Counter(xs[..n]): each distinct value among the first n
      once, in order of first appearance. */
  function KeysUpTo(xs: seq<int>, n: nat): (ks: seq<int>)
    requires n <= |xs|
    ensures forall v :: v in ks <==> FirstIndex(xs, v) < n
  {
    if n == 0 then []
    else
      var ks := KeysUpTo(xs, n - 1);
      if xs[n - 1] in ks then ks else ks + [xs[n - 1]]
  }

  /** The keys of Counter(xs). */
  function Keys(xs: seq<int>): (ks: seq<int>)
    ensures forall v :: v in ks <==> v in xs
  {
    KeysUpTo(xs, |xs|)
  }

  /** ks lists values in order of their first appearance in xs. */
  predicate FirstSeenOrder(xs: seq<int>, ks: seq<int>) {
    forall i, j :: 0 <= i < j < |ks| ==> FirstIndex(xs, ks[i]) < FirstIndex(xs, ks[j])
  }

  /** The keys are listed in order of first appearance. */
  lemma {:induction false} KeysUpToFirstSeen(xs: seq<int>, n: nat)
    requires n <= |xs|
    ensures FirstSeenOrder(xs, KeysUpTo(xs, n))
  {
    if n > 0 {
      KeysUpToFirstSeen(xs, n - 1);
      var ks := KeysUpTo(xs, n - 1);
      assert forall i, j :: 0 <= i < j < |ks| ==> FirstIndex(xs, ks[i]) < FirstIndex(xs, ks[j]);
      if xs[n - 1] !in ks {
        var ks' := ks + [xs[n - 1]];
        assert FirstIndex(xs, xs[n - 1]) == n - 1;
        forall i, j | 0 <= i < j < |ks'|
          ensures FirstIndex(xs, ks'[i]) < FirstIndex(xs, ks'[j])
        {
          assert ks'[i] == ks[i];
          if j == |ks| {
            assert ks[i] in ks;
            assert FirstIndex(xs, ks[i]) < n - 1;
            assert ks'[j] == xs[n - 1];
          } else {
            assert ks'[j] == ks[j];
            assert FirstIndex(xs, ks[i]) < FirstIndex(xs, ks[j]);
          }
        }
      }
    }
  }

  lemma KeysFirstSeen(xs: seq<int>)
    ensures FirstSeenOrder(xs, Keys(xs))
  {
    KeysUpToFirstSeen(xs, |xs|);
    assert Keys(xs) == KeysUpTo(xs, |xs|);
  }

  /** Label a comes before label b in the new numbering: it has more members,
      or as many and appears first. */
  predicate Precedes(xs: seq<int>, a: int, b: int) {
    || multiset(xs)[a] > multiset(xs)[b]
    || (multiset(xs)[a] == multiset(xs)[b] && FirstIndex(xs, a) < FirstIndex(xs, b))
  }

  /** s is strictly ordered by Precedes (and so has no repetitions). */
  predicate RankedBy(xs: seq<int>, s: seq<int>) {
    forall i, j :: 0 <= i < j < |s| ==> Precedes(xs, s[i], s[j])
  }

  /** Insert key k into an order sorted by count, largest first, behind every
      key whose count is at least k's (the stable position). */
  function Insert(xs: seq<int>, order: seq<int>, k: int): (r: seq<int>)
    ensures multiset(r) == multiset(order) + multiset{k}
  {
    if order == [] then [k]
    else if multiset(xs)[order[0]] < multiset(xs)[k] then [k] + order
    else
      assert order == [order[0]] + order[1..];
      [order[0]] + Insert(xs, order[1..], k)
  }

  /** sorted(keys[..n], key=count, reverse=True), as a stable insertion
      sort. */
  function SortUpTo(xs: seq<int>, keys: seq<int>, n: nat): (r: seq<int>)
    requires n <= |keys|
    ensures multiset(r) == multiset(keys[..n])
  {
    if n == 0 then []
    else
      assert keys[..n] == keys[..n - 1] + [keys[n - 1]];
      Insert(xs, SortUpTo(xs, keys, n - 1), keys[n - 1])
  }

  /** sorted(keys, key=count, reverse=True). */
  function SortByCount(xs: seq<int>, keys: seq<int>): (r: seq<int>)
    ensures multiset(r) == multiset(keys)
  {
    assert keys[..|keys|] == keys;
    SortUpTo(xs, keys, |keys|)
  }

  /** Inserting a key that appears after every key already ordered keeps the
      order ranked: the count comparison alone finds its place. */
  lemma {:induction false} InsertRanked(xs: seq<int>, order: seq<int>, k: int)
    requires RankedBy(xs, order)
    requires forall x :: x in order ==> FirstIndex(xs, x) < FirstIndex(xs, k)
    ensures RankedBy(xs, Insert(xs, order, k))
    decreases |order|
  {
    if order != [] && multiset(xs)[order[0]] >= multiset(xs)[k] {
      var rest := order[1..];
      assert forall x :: x in rest ==> x in order;
      InsertRanked(xs, rest, k);
      var r := Insert(xs, rest, k);
      forall x | x in r
        ensures Precedes(xs, order[0], x)
      {
        assert x in multiset(r);
        if x != k {
          assert x in multiset(rest);
        }
      }
    }
  }

  /** Sorting keys listed in order of first appearance ranks them. */
  lemma {:induction false} SortUpToRanked(xs: seq<int>, keys: seq<int>, n: nat)
    requires n <= |keys| && FirstSeenOrder(xs, keys)
    ensures RankedBy(xs, SortUpTo(xs, keys, n))
  {
    if n > 0 {
      SortUpToRanked(xs, keys, n - 1);
      var sorted := SortUpTo(xs, keys, n - 1);
      forall x | x in sorted
        ensures FirstIndex(xs, x) < FirstIndex(xs, keys[n - 1])
      {
        assert x in multiset(keys[..n - 1]);
        var i :| 0 <= i < n - 1 && keys[..n - 1][i] == x;
        assert keys[i] == x;
      }
      InsertRanked(xs, sorted, keys[n - 1]);
    }
  }

  lemma SortByCountRanked(xs: seq<int>, keys: seq<int>)
    requires FirstSeenOrder(xs, keys)
    ensures RankedBy(xs, SortByCount(xs, keys))
  {
    SortUpToRanked(xs, keys, |keys|);
  }

  predicate Distinct(s: seq<int>) {
    forall i, j :: 0 <= i < j < |s| ==> s[i] != s[j]
  }

  /** The new numbering: the keys of Counter(xs) sorted by count, largest
      first. */
  function Ranking(xs: seq<int>): seq<int> {
    SortByCount(xs, Keys(xs))
  }

  /** The ranking lists every occurring label once and nothing else. */
  lemma RankingMembers(xs: seq<int>)
    ensures var order := Ranking(xs);
            && (forall p :: 0 <= p < |xs| ==> xs[p] in order)
            && (forall i :: 0 <= i < |order| ==> order[i] in xs)
            && Distinct(order)
  {
    var keys := Keys(xs);
    KeysFirstSeen(xs);
    SortByCountRanked(xs, keys);
    var order := SortByCount(xs, keys);
    forall p | 0 <= p < |xs|
      ensures xs[p] in order
    {
      assert xs[p] in keys;
      assert xs[p] in multiset(order);
    }
    forall i | 0 <= i < |order|
      ensures order[i] in xs
    {
      assert order[i] in multiset(keys);
    }
  }

  lemma RankingRanked(xs: seq<int>)
    ensures RankedBy(xs, Ranking(xs))
  {
    KeysFirstSeen(xs);
    SortByCountRanked(xs, Keys(xs));
  }

  /** new_index_map: {old: new for new, old in enumerate(order, 1)}, built
      one entry at a time over the first n labels; on a repetition-free
      order each label maps to its 1-based position. */
  function IndexMapUpTo(order: seq<int>, n: nat): (m: map<int, int>)
    requires n <= |order| && Distinct(order)
    ensures forall k :: k in m ==> k in order
    ensures forall i :: 0 <= i < n ==> order[i] in m && m[order[i]] == i + 1
  {
    if n == 0 then map[]
    else IndexMapUpTo(order, n - 1)[order[n - 1] := n]
  }

  function NewIndexMap(order: seq<int>): (m: map<int, int>)
    requires Distinct(order)
    ensures forall k :: k in m ==> k in order
    ensures forall i :: 0 <= i < |order| ==> order[i] in m && m[order[i]] == i + 1
  {
    IndexMapUpTo(order, |order|)
  }

  /** [new_index_map[g] for g in groups]: every label is replaced by its
      1-based position in a repetition-free order that lists all of them. */
  function Renumber(xs: seq<int>, order: seq<int>): (ys: seq<int>)
    requires Distinct(order)
    requires forall p :: 0 <= p < |xs| ==> xs[p] in order
    ensures |ys| == |xs|
    ensures forall p :: 0 <= p < |xs| ==> 1 <= ys[p] <= |order| && order[ys[p] - 1] == xs[p]
  {
    var newIndex := NewIndexMap(order);
    forall p | 0 <= p < |xs|
      ensures xs[p] in newIndex && 1 <= newIndex[xs[p]] <= |order| && order[newIndex[xs[p]] - 1] == xs[p]
    {
      var i :| 0 <= i < |order| && order[i] == xs[p];
    }
    seq(|xs|, p requires 0 <= p < |xs| => newIndex[xs[p]])
  }

  /** reindex_groups_by_size: renumber by the ranking of the groups. */
  function ReindexGroupsBySize(xs: seq<int>): (ys: seq<int>)
    ensures |ys| == |xs|
    ensures forall p :: 0 <= p < |xs| ==> 1 <= ys[p] <= |Ranking(xs)|
  {
    RankingMembers(xs);
    Renumber(xs, Ranking(xs))
  }

  /** Relabelling positions one for one keeps the count and the first
      occurrence: old label k and new label a mark the same positions. */
  lemma {:induction false} RelabelCount(xs: seq<int>, ys: seq<int>, k: int, a: int)
    requires |xs| == |ys|
    requires forall p :: 0 <= p < |xs| ==> (ys[p] == a <==> xs[p] == k)
    ensures multiset(ys)[a] == multiset(xs)[k]
    decreases |xs|
  {
    if |xs| > 0 {
      var n := |xs| - 1;
      RelabelCount(xs[..n], ys[..n], k, a);
      assert xs == xs[..n] + [xs[n]];
      assert ys == ys[..n] + [ys[n]];
    }
  }

  lemma RelabelFirstIndex(xs: seq<int>, ys: seq<int>, k: int, a: int)
    requires |xs| == |ys|
    requires forall p :: 0 <= p < |xs| ==> (ys[p] == a <==> xs[p] == k)
    ensures FirstIndex(ys, a) == FirstIndex(xs, k)
  {
    if FirstIndex(ys, a) < |ys| {
      assert xs[FirstIndex(ys, a)] == k;
    }
    if FirstIndex(xs, k) < |xs| {
      assert ys[FirstIndex(xs, k)] == a;
    }
  }

  /** Two labellings of the same positions group them alike. */
  predicate SamePartition(xs: seq<int>, ys: seq<int>) {
    && |xs| == |ys|
    && forall p, q :: 0 <= p < |xs| && 0 <= q < |xs| ==> (ys[p] == ys[q] <==> xs[p] == xs[q])
  }

  /** Renumbering keeps the partition: two positions share a new label
      exactly when they shared an old one. */
  lemma RenumberKeepsPartition(xs: seq<int>, order: seq<int>)
    requires Distinct(order)
    requires forall p :: 0 <= p < |xs| ==> xs[p] in order
    ensures SamePartition(xs, Renumber(xs, order))
  {
    var ys := Renumber(xs, order);
    forall p, q | 0 <= p < |xs| && 0 <= q < |xs|
      ensures ys[p] == ys[q] <==> xs[p] == xs[q]
    {
      assert order[ys[p] - 1] == xs[p] && order[ys[q] - 1] == xs[q];
    }
  }

  lemma ReindexKeepsPartition(xs: seq<int>)
    ensures SamePartition(xs, ReindexGroupsBySize(xs))
  {
    RankingMembers(xs);
    RenumberKeepsPartition(xs, Ranking(xs));
  }

  /** Every number 1..|order| is used when every label in order occurs. */
  lemma RenumberDense(xs: seq<int>, order: seq<int>)
    requires Distinct(order)
    requires forall p :: 0 <= p < |xs| ==> xs[p] in order
    requires forall i :: 0 <= i < |order| ==> order[i] in xs
    ensures forall a :: 1 <= a <= |order| ==> a in Renumber(xs, order)
  {
    var ys := Renumber(xs, order);
    forall a | 1 <= a <= |order|
      ensures a in ys
    {
      var p :| 0 <= p < |xs| && xs[p] == order[a - 1];
      assert order[ys[p] - 1] == order[a - 1];
    }
  }

  /** Every number 1..K is used, K being the number of distinct old labels. */
  lemma ReindexDense(xs: seq<int>)
    ensures forall a :: 1 <= a <= |Ranking(xs)| ==> a in ReindexGroupsBySize(xs)
  {
    RankingMembers(xs);
    RenumberDense(xs, Ranking(xs));
  }

  /** New label a marks exactly the positions of old label order[a - 1]. */
  lemma RenumberMarks(xs: seq<int>, order: seq<int>, a: int)
    requires Distinct(order)
    requires forall p :: 0 <= p < |xs| ==> xs[p] in order
    requires 1 <= a <= |order|
    ensures forall p :: 0 <= p < |xs| ==> (Renumber(xs, order)[p] == a <==> xs[p] == order[a - 1])
  {
    var ys := Renumber(xs, order);
    forall p | 0 <= p < |xs|
      ensures ys[p] == a <==> xs[p] == order[a - 1]
    {
      assert order[ys[p] - 1] == xs[p];
    }
  }

  /** The new numbering ranks the groups: for a < b, group a has more members
      than group b, or as many and appears earlier. */
  lemma ReindexRanks(xs: seq<int>)
    ensures var ys := ReindexGroupsBySize(xs);
            forall a, b :: 1 <= a < b <= |Ranking(xs)| ==> Precedes(ys, a, b)
  {
    var ys := ReindexGroupsBySize(xs);
    var order := Ranking(xs);
    RankingMembers(xs);
    RankingRanked(xs);
    forall a, b | 1 <= a < b <= |Ranking(xs)|
      ensures Precedes(ys, a, b)
    {
      RenumberMarks(xs, order, a);
      RenumberMarks(xs, order, b);
      RelabelCount(xs, ys, order[a - 1], a);
      RelabelCount(xs, ys, order[b - 1], b);
      RelabelFirstIndex(xs, ys, order[a - 1], a);
      RelabelFirstIndex(xs, ys, order[b - 1], b);
      assert Precedes(xs, order[a - 1], order[b - 1]);
    }
  }

  lemma HeadIsMember(t: seq<int>)
    requires t != []
    ensures t[0] in t
  {
  }

  /** A strict ranking of a given set of occurring labels is unique. */
  lemma {:induction false} RankedUnique(xs: seq<int>, s: seq<int>, t: seq<int>)
    requires RankedBy(xs, s) && RankedBy(xs, t)
    requires forall v :: v in s <==> v in t
    requires forall v :: v in s ==> v in xs
    ensures s == t
    decreases |s|
  {
    if s != [] {
      assert s[0] in s;
      assert s[0] in t;
      assert t[0] in t;
      assert s[0] == t[0] by {
        var i :| 0 <= i < |s| && s[i] == t[0];
        var j :| 0 <= j < |t| && t[j] == s[0];
        assert i == 0 || j == 0;
      }
      var s', t' := s[1..], t[1..];
      forall v
        ensures v in s' <==> v in t'
      {
        if v in s' {
          var i :| 0 < i < |s| && s[i] == v;
          assert Precedes(xs, s[0], s[i]);
          assert v in t;
        }
        if v in t' {
          var j :| 0 < j < |t| && t[j] == v;
          assert Precedes(xs, t[0], t[j]);
          assert v in s;
        }
      }
      RankedUnique(xs, s', t');
      assert s == [s[0]] + s' && t == [t[0]] + t';
    } else if t != [] {
      HeadIsMember(t);
      assert false;
    }
  }

  /** Any strict ranking of exactly the occurring labels is the ranking. */
  lemma RankingOfRanked(xs: seq<int>, s: seq<int>)
    requires RankedBy(xs, s)
    requires forall p :: 0 <= p < |xs| ==> xs[p] in s
    requires forall i :: 0 <= i < |s| ==> s[i] in xs
    ensures Ranking(xs) == s
  {
    var order := Ranking(xs);
    RankingMembers(xs);
    RankingRanked(xs);
    forall v
      ensures v in order <==> v in s
    {
      if v in order {
        var i :| 0 <= i < |order| && order[i] == v;
        var p :| 0 <= p < |xs| && xs[p] == v;
      }
      if v in s {
        var i :| 0 <= i < |s| && s[i] == v;
        var p :| 0 <= p < |xs| && xs[p] == v;
      }
    }
    forall v | v in order
      ensures v in xs
    {
      var i :| 0 <= i < |order| && order[i] == v;
    }
    RankedUnique(xs, order, s);
  }

  /** Labels 1..k that all occur, ranked in increasing order, are their own
      ranking. */
  lemma RankedRange(ys: seq<int>, k: nat)
    requires forall p :: 0 <= p < |ys| ==> 1 <= ys[p] <= k
    requires forall a :: 1 <= a <= k ==> a in ys
    requires forall a, b :: 1 <= a < b <= k ==> Precedes(ys, a, b)
    ensures Ranking(ys) == seq(k, i => i + 1)
  {
    var iota := seq(k, i => i + 1);
    forall p | 0 <= p < |ys|
      ensures ys[p] in iota
    {
      assert iota[ys[p] - 1] == ys[p];
    }
    forall i, j | 0 <= i < j < |iota|
      ensures Precedes(ys, iota[i], iota[j])
    {
    }
    RankingOfRanked(ys, iota);
  }

  /** The new labels 1..K in increasing order rank the renumbered groups. */
  lemma ReindexRankingIsIdentity(xs: seq<int>)
    ensures Ranking(ReindexGroupsBySize(xs)) == seq(|Ranking(xs)|, i => i + 1)
  {
    ReindexRanks(xs);
    ReindexDense(xs);
    RankedRange(ReindexGroupsBySize(xs), |Ranking(xs)|);
  }

  /** Renumbering labels 1..k by the order 1..k changes nothing. */
  lemma RenumberRange(ys: seq<int>, k: nat)
    requires forall p :: 0 <= p < |ys| ==> 1 <= ys[p] <= k
    ensures var iota := seq(k, i => i + 1);
            Distinct(iota) && (forall p :: 0 <= p < |ys| ==> ys[p] in iota) && Renumber(ys, iota) == ys
  {
    var iota := seq(k, i => i + 1);
    forall p | 0 <= p < |ys|
      ensures ys[p] in iota
    {
      assert iota[ys[p] - 1] == ys[p];
    }
    var zs := Renumber(ys, iota);
    assert forall p :: 0 <= p < |ys| ==> zs[p] == iota[zs[p] - 1] == ys[p];
  }

  /** Renumbering an already renumbered labelling changes nothing. */
  lemma ReindexIdempotent(xs: seq<int>)
    ensures ReindexGroupsBySize(ReindexGroupsBySize(xs)) == ReindexGroupsBySize(xs)
  {
    ReindexRankingIsIdentity(xs);
    RenumberRange(ReindexGroupsBySize(xs), |Ranking(xs)|);
  }

  /** A repetition-free sequence has as many distinct members as entries. */
  lemma {:induction false} DistinctMembers(s: seq<int>)
    requires Distinct(s)
    ensures |set v | v in s| == |s|
    decreases |s|
  {
    if s != [] {
      var n := |s| - 1;
      DistinctMembers(s[..n]);
      assert (set v | v in s) == (set v | v in s[..n]) + {s[n]};
    }
  }

  /** A repetition-free sequence of exactly the numbers 1..k has length k. */
  lemma CountOfRange(s: seq<int>, k: nat)
    requires Distinct(s)
    requires forall i :: 0 <= i < |s| ==> 1 <= s[i] <= k
    requires forall a :: 1 <= a <= k ==> a in s
    ensures |s| == k
  {
    var iota := seq(k, i => i + 1);
    DistinctMembers(s);
    DistinctMembers(iota);
    forall v
      ensures v in s <==> v in iota
    {
      if v in s {
        var i :| 0 <= i < |s| && s[i] == v;
        assert iota[v - 1] == v;
      }
    }
    assert (set v | v in s) == (set v | v in iota);
  }

  /** Labels drawn from 1..k that use every number there make k groups. */
  lemma RankingCount(xs: seq<int>, k: nat)
    requires forall p :: 0 <= p < |xs| ==> 1 <= xs[p] <= k
    requires forall a :: 1 <= a <= k ==> a in xs
    ensures |Ranking(xs)| == k
  {
    var order := Ranking(xs);
    RankingMembers(xs);
    forall i | 0 <= i < |order|
      ensures 1 <= order[i] <= k
    {
      var p :| 0 <= p < |xs| && xs[p] == order[i];
    }
    forall a | 1 <= a <= k
      ensures a in order
    {
      assert a in xs;
      var p :| 0 <= p < |xs| && xs[p] == a;
    }
    CountOfRange(order, k);
  }
}
