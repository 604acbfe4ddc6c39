/** Row projection: the group column is inserted into the table
    (add_group_indices_to_df) and the rows are reordered by group number
    (reorder_rows_by_group_index) or by group size, then group number
    (reorder_rows_by_group_size).

    The one-key sort of reorder_rows_by_group_index uses pandas' default
    quicksort, which is not stable, so for it the model promises only a
    permutation of the rows whose sort keys are in order. The two-key sort
    of reorder_rows_by_group_size goes through pandas' lexsort, which is
    stable, and ReorderRowsByGroupSize also promises that every group keeps
    its rows in input order. */
module Rows {
  import opened Errors

  /** A cell of the annotated table: an original (stringified) value, a
      group number in the inserted column, or the NaN that fills the
      original columns of a frame that had no rows. */
  datatype Cell = Text(text: string) | Group(id: int) | Missing

  type Row = seq<Cell>

  /** The input table: every row has width cells. */
  datatype Table = Table(width: nat, rows: seq<seq<string>>)

  predicate Rectangular(t: Table) {
    forall i :: 0 <= i < |t.rows| ==> |t.rows[i]| == t.width
  }

  /** An original row as cells. */
  function Texts(values: seq<string>): (r: Row)
    ensures |r| == |values|
    ensures forall k :: 0 <= k < |values| ==> r[k] == Text(values[k])
  {
    seq(|values|, k requires 0 <= k < |values| => Text(values[k]))
  }

  /** The cell at position c moves to the right to make room for cell. */
  function InsertCell(row: Row, c: nat, cell: Cell): (r: Row)
    requires c <= |row|
    ensures |r| == |row| + 1
    ensures r[c] == cell
    ensures forall k :: 0 <= k < c ==> r[k] == row[k]
    ensures forall k :: c < k <= |row| ==> r[k] == row[k - 1]
  {
    row[..c] + [cell] + row[c..]
  }

  /** Removes the cell at position c: the inverse of InsertCell. */
  function DropCell(row: Row, c: nat): (r: Row)
    requires c < |row|
    ensures |r| == |row| - 1
    ensures forall k :: 0 <= k < c ==> r[k] == row[k]
    ensures forall k :: c <= k < |r| ==> r[k] == row[k + 1]
  {
    row[..c] + row[c + 1..]
  }

  /** Dropping an inserted cell gives the row back. */
  lemma DropInsert(row: Row, c: nat, cell: Cell)
    requires c <= |row|
    ensures DropCell(InsertCell(row, c, cell), c) == row
  {
  }

  /** Inserting back the cell that was dropped gives the row back. */
  lemma InsertDrop(row: Row, c: nat)
    requires c < |row|
    ensures InsertCell(DropCell(row, c), c, row[c]) == row
  {
  }

  /** The original columns of a row of a frame that had no rows: all NaN. */
  function MissingRow(width: nat): (r: Row)
    ensures |r| == width && forall k :: 0 <= k < width ==> r[k] == Missing
  {
    seq(width, _ => Missing)
  }

  /** add_group_indices_to_df: DataFrame.insert(c, 'GroupIndex', ids).
      pandas first gives a frame without rows the list's rows (every
      original cell NaN), then checks the list's length against the rows,
      then the position against the number of columns (c == width
      appends). */
  function AddGroupIndices(t: Table, c: nat, ids: seq<int>): (r: Result<seq<Row>>)
    requires Rectangular(t)
    ensures r == Err(LengthMismatch) <==> |t.rows| > 0 && |ids| != |t.rows|
    ensures r == Err(ColumnOutOfRange) <==> (|t.rows| == 0 || |ids| == |t.rows|) && c > t.width
    ensures r.Ok? <==> (|t.rows| == 0 || |ids| == |t.rows|) && c <= t.width
    ensures r.Ok? ==> |r.value| == |ids|
    ensures r.Ok? ==> forall i :: 0 <= i < |ids| ==> |r.value[i]| == t.width + 1 && r.value[i][c] == Group(ids[i])
    ensures r.Ok? && |t.rows| > 0 ==> forall i :: 0 <= i < |t.rows| ==> DropCell(r.value[i], c) == Texts(t.rows[i])
    ensures r.Ok? && |t.rows| == 0 ==> forall i :: 0 <= i < |ids| ==> DropCell(r.value[i], c) == MissingRow(t.width)
  {
    if |t.rows| > 0 && |ids| != |t.rows| then Err(LengthMismatch)
    else if c > t.width then Err(ColumnOutOfRange)
    else if |t.rows| == 0 then
      var rows := seq(|ids|, i requires 0 <= i < |ids| => InsertCell(MissingRow(t.width), c, Group(ids[i])));
      forall i | 0 <= i < |ids|
        ensures DropCell(rows[i], c) == MissingRow(t.width)
      {
        DropInsert(MissingRow(t.width), c, Group(ids[i]));
      }
      Ok(rows)
    else
      var rows := seq(|t.rows|, i requires 0 <= i < |t.rows| => InsertCell(Texts(t.rows[i]), c, Group(ids[i])));
      forall i | 0 <= i < |t.rows|
        ensures DropCell(rows[i], c) == Texts(t.rows[i])
      {
        DropInsert(Texts(t.rows[i]), c, Group(ids[i]));
      }
      Ok(rows)
  }

  /** A frame without rows takes its rows from the inserted list. */
  lemma InsertIntoEmptyFrame()
    ensures AddGroupIndices(Table(1, []), 0, [7]) == Ok([[Group(7), Missing]])
  {
    var r := AddGroupIndices(Table(1, []), 0, [7]);
    assert r.Ok?;
    assert |r.value| == 1 && |r.value[0]| == 2;
    assert r.value[0][0] == Group(7);
    assert DropCell(r.value[0], 0) == MissingRow(1);
    assert r.value[0][1] == DropCell(r.value[0], 0)[0] == Missing;
    assert r.value[0] == [Group(7), Missing];
    assert r.value == [[Group(7), Missing]];
  }

  /** The row carries a group number at position c. */
  predicate HasGroup(row: Row, c: nat) {
    c < |row| && row[c].Group?
  }

  predicate AllHaveGroup(rows: seq<Row>, c: nat) {
    forall i :: 0 <= i < |rows| ==> HasGroup(rows[i], c)
  }

  /** The group numbers of the column at position c. */
  function GroupColumn(rows: seq<Row>, c: nat): (ids: seq<int>)
    requires AllHaveGroup(rows, c)
    ensures |ids| == |rows|
    ensures forall i :: 0 <= i < |rows| ==> rows[i][c] == Group(ids[i])
  {
    seq(|rows|, i requires 0 <= i < |rows| => rows[i][c].id)
  }

  /** The row order a sort asks for. ByGroupSize carries value_counts() of
      the group column: the GroupSize column of every row is the count of
      its group. */
  datatype Ordering = ByGroupIndex | ByGroupSize(counts: multiset<int>)

  /** A sort key, compared lexicographically. */
  datatype Key = Key(major: int, minor: int)

  predicate KeyLe(a: Key, b: Key) {
    a.major < b.major || (a.major == b.major && a.minor <= b.minor)
  }

  /** by=[GroupIndex] ascending; or by=[GroupSize, GroupIndex] with
      ascending=[False, True], the descending size written as its negation. */
  function SortKey(o: Ordering, row: Row, c: nat): Key
    requires HasGroup(row, c)
  {
    match o
    case ByGroupIndex => Key(row[c].id, 0)
    case ByGroupSize(counts) => Key(-(counts[row[c].id] as int), row[c].id)
  }

  predicate SortedBy(o: Ordering, rows: seq<Row>, c: nat)
    requires AllHaveGroup(rows, c)
  {
    forall i, j :: 0 <= i < j < |rows| ==> KeyLe(SortKey(o, rows[i], c), SortKey(o, rows[j], c))
  }

  /** Place row in front of the first row of the sequence whose key is
      not smaller than its own. */
  function InsertRow(o: Ordering, row: Row, sorted: seq<Row>, c: nat): (r: seq<Row>)
    requires HasGroup(row, c) && AllHaveGroup(sorted, c)
    ensures multiset(r) == multiset(sorted) + multiset{row}
    ensures AllHaveGroup(r, c)
  {
    if sorted == [] then [row]
    else if KeyLe(SortKey(o, row, c), SortKey(o, sorted[0], c)) then [row] + sorted
    else
      assert sorted == [sorted[0]] + sorted[1..];
      [sorted[0]] + InsertRow(o, row, sorted[1..], c)
  }

  /** Inserting into a sorted sequence keeps it sorted. */
  lemma {:induction false} InsertRowSorted(o: Ordering, row: Row, sorted: seq<Row>, c: nat)
    requires HasGroup(row, c) && AllHaveGroup(sorted, c)
    requires SortedBy(o, sorted, c)
    ensures SortedBy(o, InsertRow(o, row, sorted, c), c)
    decreases |sorted|
  {
    if sorted != [] && !KeyLe(SortKey(o, row, c), SortKey(o, sorted[0], c)) {
      var rest := InsertRow(o, row, sorted[1..], c);
      InsertRowSorted(o, row, sorted[1..], c);
      assert sorted == [sorted[0]] + sorted[1..];
      forall x | x in rest
        ensures HasGroup(x, c) && KeyLe(SortKey(o, sorted[0], c), SortKey(o, x, c))
      {
        assert x in multiset(rest);
        if x != row {
          assert x in multiset(sorted[1..]);
        }
      }
    }
  }

  lemma GroupColumnCons(row: Row, rows: seq<Row>, c: nat)
    requires HasGroup(row, c) && AllHaveGroup(rows, c)
    ensures AllHaveGroup([row] + rows, c)
    ensures GroupColumn([row] + rows, c) == [row[c].id] + GroupColumn(rows, c)
  {
    assert forall i :: 0 < i <= |rows| ==> ([row] + rows)[i] == rows[i - 1];
  }

  /** Putting a row in front adds its group number to the column. */
  lemma GroupColumnConsMultiset(row: Row, rows: seq<Row>, c: nat)
    requires HasGroup(row, c) && AllHaveGroup(rows, c)
    ensures AllHaveGroup([row] + rows, c)
    ensures multiset(GroupColumn([row] + rows, c)) == multiset{row[c].id} + multiset(GroupColumn(rows, c))
  {
    GroupColumnCons(row, rows, c);
  }

  /** Inserting a row adds its group number to the group column. */
  lemma {:induction false} InsertRowGroups(o: Ordering, row: Row, sorted: seq<Row>, c: nat)
    requires HasGroup(row, c) && AllHaveGroup(sorted, c)
    ensures multiset(GroupColumn(InsertRow(o, row, sorted, c), c)) == multiset(GroupColumn(sorted, c)) + multiset{row[c].id}
    decreases |sorted|
  {
    if sorted == [] {
      GroupColumnConsMultiset(row, [], c);
    } else if KeyLe(SortKey(o, row, c), SortKey(o, sorted[0], c)) {
      GroupColumnConsMultiset(row, sorted, c);
    } else {
      var head, tail := sorted[0], sorted[1..];
      var rest := InsertRow(o, row, tail, c);
      InsertRowGroups(o, row, tail, c);
      assert sorted == [head] + tail;
      assert InsertRow(o, row, sorted, c) == [head] + rest;
      GroupColumnConsMultiset(head, tail, c);
      GroupColumnConsMultiset(head, rest, c);
    }
  }

  /** The rows of group g, in the order the sequence lists them. */
  function GroupRows(rows: seq<Row>, c: nat, g: int): seq<Row>
    requires AllHaveGroup(rows, c)
  {
    if rows == [] then []
    else (if rows[0][c].id == g then [rows[0]] else []) + GroupRows(rows[1..], c, g)
  }

  lemma GroupRowsCons(row: Row, rows: seq<Row>, c: nat, g: int)
    requires HasGroup(row, c) && AllHaveGroup(rows, c)
    ensures AllHaveGroup([row] + rows, c)
    ensures GroupRows([row] + rows, c, g) == (if row[c].id == g then [row] else []) + GroupRows(rows, c, g)
  {
    assert ([row] + rows)[0] == row;
    assert ([row] + rows)[1..] == rows;
  }

  /** A row of another group in front does not change where row lands
      among the rows of group g. */
  lemma GroupRowsSkip(head: Row, row: Row, tail: seq<Row>, rest: seq<Row>, c: nat, g: int)
    requires HasGroup(head, c) && HasGroup(row, c) && AllHaveGroup(tail, c) && AllHaveGroup(rest, c)
    requires head[c].id != row[c].id
    requires GroupRows(rest, c, g) == (if row[c].id == g then [row] else []) + GroupRows(tail, c, g)
    ensures AllHaveGroup([head] + rest, c) && AllHaveGroup([head] + tail, c)
    ensures GroupRows([head] + rest, c, g)
         == (if row[c].id == g then [row] else []) + GroupRows([head] + tail, c, g)
  {
    GroupRowsCons(head, tail, c, g);
    GroupRowsCons(head, rest, c, g);
  }

  /** Both orderings tell groups apart: two rows have the same key exactly
      when they have the same group number. */
  lemma SameKeySameGroup(o: Ordering, a: Row, b: Row, c: nat)
    requires HasGroup(a, c) && HasGroup(b, c)
    ensures SortKey(o, a, c) == SortKey(o, b, c) <==> a[c].id == b[c].id
  {
  }

  /** Inserting a row puts it in front of the rows of its own group and
      leaves the other groups' rows as they were. */
  lemma {:induction false} InsertRowGroupOrder(o: Ordering, row: Row, sorted: seq<Row>, c: nat, g: int)
    requires HasGroup(row, c) && AllHaveGroup(sorted, c)
    ensures GroupRows(InsertRow(o, row, sorted, c), c, g)
         == (if row[c].id == g then [row] else []) + GroupRows(sorted, c, g)
    decreases |sorted|
  {
    if sorted == [] {
      GroupRowsCons(row, [], c, g);
    } else if KeyLe(SortKey(o, row, c), SortKey(o, sorted[0], c)) {
      GroupRowsCons(row, sorted, c, g);
    } else {
      var head, tail := sorted[0], sorted[1..];
      var rest := InsertRow(o, row, tail, c);
      InsertRowGroupOrder(o, row, tail, c, g);
      SameKeySameGroup(o, row, head, c);
      assert sorted == [head] + tail;
      assert InsertRow(o, row, sorted, c) == [head] + rest;
      GroupRowsSkip(head, row, tail, rest, c, g);
    }
  }

  /** Sorting: a permutation of the rows in key order. */
  function SortRows(o: Ordering, rows: seq<Row>, c: nat): (r: seq<Row>)
    requires AllHaveGroup(rows, c)
    ensures multiset(r) == multiset(rows)
    ensures AllHaveGroup(r, c) && SortedBy(o, r, c)
    ensures multiset(GroupColumn(r, c)) == multiset(GroupColumn(rows, c))
  {
    if rows == [] then []
    else
      assert rows == [rows[0]] + rows[1..];
      GroupColumnCons(rows[0], rows[1..], c);
      var sorted := SortRows(o, rows[1..], c);
      InsertRowSorted(o, rows[0], sorted, c);
      InsertRowGroups(o, rows[0], sorted, c);
      InsertRow(o, rows[0], sorted, c)
  }

  /** The insertion sort is stable: every group keeps its rows in input
      order. */
  lemma {:induction false} SortRowsKeepsGroupOrder(o: Ordering, rows: seq<Row>, c: nat, g: int)
    requires AllHaveGroup(rows, c)
    ensures GroupRows(SortRows(o, rows, c), c, g) == GroupRows(rows, c, g)
    decreases |rows|
  {
    if rows != [] {
      var sorted := SortRows(o, rows[1..], c);
      SortRowsKeepsGroupOrder(o, rows[1..], c, g);
      InsertRowGroupOrder(o, rows[0], sorted, c, g);
    }
  }

  /** Rows with equal sort keys share their group, and so a sorted sequence
      keeps every group in one contiguous run. */
  lemma SortedGroupsContiguous(o: Ordering, r: seq<Row>, c: nat, i: nat, j: nat, k: nat)
    requires AllHaveGroup(r, c) && SortedBy(o, r, c)
    requires i < j < k < |r| && r[i][c] == r[k][c]
    ensures r[j][c] == r[i][c]
  {
    assert KeyLe(SortKey(o, r[i], c), SortKey(o, r[j], c));
    assert KeyLe(SortKey(o, r[j], c), SortKey(o, r[k], c));
  }

  /** reorder_rows_by_group_index: the rows in ascending group number. */
  function ReorderRowsByGroupIndex(rows: seq<Row>, c: nat): (r: seq<Row>)
    requires AllHaveGroup(rows, c)
    ensures multiset(r) == multiset(rows)
    ensures AllHaveGroup(r, c) && SortedBy(ByGroupIndex, r, c)
    ensures multiset(GroupColumn(r, c)) == multiset(GroupColumn(rows, c))
    ensures forall i, j :: 0 <= i < j < |r| ==> r[i][c].id <= r[j][c].id
  {
    SortRows(ByGroupIndex, rows, c)
  }

  /** reorder_rows_by_group_size: larger groups first, equal sizes by
      ascending group number. The sizes are those of the input's group
      column, which the reordered rows share. */
  function ReorderRowsByGroupSize(rows: seq<Row>, c: nat): (r: seq<Row>)
    requires AllHaveGroup(rows, c)
    ensures multiset(r) == multiset(rows)
    ensures AllHaveGroup(r, c)
    ensures multiset(GroupColumn(r, c)) == multiset(GroupColumn(rows, c))
    ensures SortedBy(ByGroupSize(multiset(GroupColumn(rows, c))), r, c)
    ensures var size := multiset(GroupColumn(r, c));
            forall i, j :: 0 <= i < j < |r| ==>
              || size[r[i][c].id] > size[r[j][c].id]
              || (size[r[i][c].id] == size[r[j][c].id] && r[i][c].id <= r[j][c].id)
    ensures forall g :: GroupRows(r, c, g) == GroupRows(rows, c, g)
  {
    var o := ByGroupSize(multiset(GroupColumn(rows, c)));
    forall g
      ensures GroupRows(SortRows(o, rows, c), c, g) == GroupRows(rows, c, g)
    {
      SortRowsKeepsGroupOrder(o, rows, c, g);
    }
    SortRows(o, rows, c)
  }
}
