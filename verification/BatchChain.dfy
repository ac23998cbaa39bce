/**
 * The completeness check of a chain of download batches
 * (jav_pilot/history/candidates.py, `complete_batch_chain`).
 *
 * A chain is a doubly linked list of pages stored as table rows.  The check sorts the rows by
 * page number and compares neighbours; what it is for is stated without any sorting: following
 * the continuation links from the root row visits every row exactly once.
 */
module BatchChain {
  import opened Collections

  type Id = string

  datatype ChainRow = ChainRow(
    batchId: Id,
    root: Option<Id>,
    page: int,
    parent: Option<Id>,
    next: Option<Id>)

  predicate IsHexDigit(c: char) {
    '0' <= c <= '9' || 'a' <= c <= 'f'
  }

  /** Chain identifiers are 32 lower-case hexadecimal digits. */
  predicate IsHexId(id: Id) {
    |id| == 32 && forall i | 0 <= i < |id| :: IsHexDigit(id[i])
  }

  ghost predicate DistinctIds(rows: seq<ChainRow>) {
    forall i, j | 0 <= i < j < |rows| :: rows[i].batchId != rows[j].batchId
  }

  /** The walk starts at the root, every continuation link leads to the next page, every parent
      link leads back, and the walk ends where the links end. */
  ghost predicate IsWalk(root: Id, walk: seq<ChainRow>) {
    && |walk| > 0
    && walk[0].batchId == root
    && walk[0].parent == None
    && walk[|walk| - 1].next == None
    && (forall i | 0 <= i < |walk| :: walk[i].root == Some(root) && walk[i].page == i + 1)
    && (forall i | 0 <= i < |walk| - 1 ::
          walk[i].next == Some(walk[i + 1].batchId) && walk[i + 1].parent == Some(walk[i].batchId))
    && DistinctIds(walk)
  }

  /** The rows, in whatever order, are exactly the rows of one walk. */
  ghost predicate IsCompleteChain(root: Id, rows: multiset<ChainRow>) {
    IsHexId(root) && exists walk :: IsWalk(root, walk) && multiset(walk) == rows
  }

  // ---------------------------------------------------------------- sorting by page number

  ghost predicate SortedByPage(rows: seq<ChainRow>) {
    forall i, j | 0 <= i < j < |rows| :: rows[i].page <= rows[j].page
  }

  /** Stable insertion before the first row of the same or a later page. */
  function InsertByPage(row: ChainRow, rows: seq<ChainRow>): (r: seq<ChainRow>)
    ensures multiset(r) == multiset{row} + multiset(rows)
  {
    if rows == [] then [row]
    else if row.page <= rows[0].page then [row] + rows
    else
      assert rows == [rows[0]] + rows[1..];
      [rows[0]] + InsertByPage(row, rows[1..])
  }

  lemma {:induction false} InsertKeepsOrder(row: ChainRow, rows: seq<ChainRow>)
    requires SortedByPage(rows)
    ensures SortedByPage(InsertByPage(row, rows))
  {
    if rows != [] && row.page > rows[0].page {
      var tail := InsertByPage(row, rows[1..]);
      InsertKeepsOrder(row, rows[1..]);
      forall x | x in tail ensures rows[0].page <= x.page {
        assert x in multiset(tail);
        assert x == row || x in rows[1..];
      }
    }
  }

  function SortByPage(rows: seq<ChainRow>): (r: seq<ChainRow>)
    ensures multiset(r) == multiset(rows)
  {
    if rows == [] then []
    else
      assert rows == [rows[0]] + rows[1..];
      InsertByPage(rows[0], SortByPage(rows[1..]))
  }

  lemma {:induction false} SortingSorts(rows: seq<ChainRow>)
    ensures SortedByPage(SortByPage(rows))
  {
    if rows != [] {
      SortingSorts(rows[1..]);
      InsertKeepsOrder(rows[0], SortByPage(rows[1..]));
    }
  }

  /** A walk is the only way to sort its own rows, since its page numbers are distinct. */
  lemma {:induction false} SortedOrderIsTheWalk(sorted: seq<ChainRow>, walk: seq<ChainRow>)
    requires multiset(sorted) == multiset(walk)
    requires SortedByPage(sorted)
    requires forall i, j | 0 <= i < j < |walk| :: walk[i].page < walk[j].page
    ensures sorted == walk
  {
    assert |sorted| == |multiset(sorted)| == |multiset(walk)| == |walk|;
    if |walk| > 0 {
      FirstIsTheFirstPage(sorted, walk);
      RestOf(sorted);
      RestOf(walk);
      SortedOrderIsTheWalk(sorted[1..], walk[1..]);
      assert sorted == [sorted[0]] + sorted[1..] && walk == [walk[0]] + walk[1..];
    }
  }

  lemma FirstIsTheFirstPage(sorted: seq<ChainRow>, walk: seq<ChainRow>)
    requires multiset(sorted) == multiset(walk) && |sorted| > 0 && |walk| > 0
    requires SortedByPage(sorted)
    requires forall i, j | 0 <= i < j < |walk| :: walk[i].page < walk[j].page
    ensures sorted[0] == walk[0]
  {
    assert sorted[0] in multiset(walk);
    var i :| 0 <= i < |walk| && walk[i] == sorted[0];
    assert walk[0] in multiset(sorted);
  }

  lemma RestOf(rows: seq<ChainRow>)
    requires |rows| > 0
    ensures multiset(rows[1..]) == multiset(rows) - multiset{rows[0]}
  {
    assert rows == [rows[0]] + rows[1..];
  }

  // ---------------------------------------------------------------- the check

  method CompleteBatchChain(root: Id, rows: seq<ChainRow>) returns (complete: bool)
    ensures complete <==> IsCompleteChain(root, multiset(rows))
  {
    if rows == [] || !IsHexId(root) {
      NoRowsNoChain(root);
      return false;
    }
    var ordered := SortByPage(rows);
    OnlySortedRowsCanWalk(root, rows);
    if !HasDistinctIds(ordered) {
      return false;
    }
    complete := RowsFit(root, ordered);
  }

  lemma NoRowsNoChain(root: Id)
    ensures !IsCompleteChain(root, multiset([]))
  {
    assert forall walk: seq<ChainRow> | |walk| > 0 :: |multiset(walk)| > 0;
  }

  /** The loop over the sorted rows.  Every expected parent is one of the rows, so its absence needs no
      test of its own. */
  method RowsFit(root: Id, ordered: seq<ChainRow>) returns (fit: bool)
    requires |ordered| > 0
    ensures fit <==> forall i | 0 <= i < |ordered| :: RowFits(root, ordered, i)
  {
    var index := 1;
    while index <= |ordered|
      invariant 1 <= index <= |ordered| + 1
      invariant forall i | 0 <= i < index - 1 :: RowFits(root, ordered, i)
    {
      var row := ordered[index - 1];
      ghost var fits := RowFits(root, ordered, index - 1);
      if row.root != Some(root) {
        return false;
      }
      if row.page != index {
        return false;
      }
      var expectedParent := if index == 1 then None else Some(ordered[index - 2].batchId);
      var expectedNext := if index == |ordered| then None else Some(ordered[index].batchId);
      if row.parent != expectedParent {
        return false;
      }
      if row.next != expectedNext {
        return false;
      }
      if index == 1 && row.batchId != root {
        return false;
      }
      index := index + 1;
    }
    return true;
  }

  function HasDistinctIds(rows: seq<ChainRow>): (distinct: bool)
    ensures distinct <==> DistinctIds(rows)
  {
    CountingIds(rows);
    |IdsOf(rows)| == |rows|
  }

  /** What the loop has checked of row `i` of the sorted rows. */
  ghost predicate RowFits(root: Id, ordered: seq<ChainRow>, i: nat)
    requires i < |ordered|
  {
    && ordered[i].root == Some(root)
    && ordered[i].page == i + 1
    && ordered[i].parent == (if i == 0 then None else Some(ordered[i - 1].batchId))
    && ordered[i].next == (if i == |ordered| - 1 then None else Some(ordered[i + 1].batchId))
    && (i == 0 ==> ordered[i].batchId == root)
  }

  lemma WalkIsRowsThatFit(root: Id, ordered: seq<ChainRow>)
    requires |ordered| > 0
    ensures IsWalk(root, ordered) <==>
            DistinctIds(ordered) && forall i | 0 <= i < |ordered| :: RowFits(root, ordered, i)
  {
    if IsWalk(root, ordered) {
      forall i | 0 <= i < |ordered| ensures RowFits(root, ordered, i) {
        assert i > 0 ==> ordered[i - 1 + 1].parent == Some(ordered[i - 1].batchId);
      }
    } else if forall i | 0 <= i < |ordered| :: RowFits(root, ordered, i) {
      assert RowFits(root, ordered, 0) && RowFits(root, ordered, |ordered| - 1);
      forall i | 0 <= i < |ordered|
        ensures ordered[i].root == Some(root) && ordered[i].page == i + 1
      {
        assert RowFits(root, ordered, i);
      }
      forall i | 0 <= i < |ordered| - 1
        ensures ordered[i].next == Some(ordered[i + 1].batchId)
        ensures ordered[i + 1].parent == Some(ordered[i].batchId)
      {
        assert RowFits(root, ordered, i) && RowFits(root, ordered, i + 1);
      }
    }
  }

  /** Whatever walk there is over the rows, it is the sorted list. */
  lemma OnlySortedRowsCanWalk(root: Id, rows: seq<ChainRow>)
    requires |rows| > 0 && IsHexId(root)
    ensures var ordered := SortByPage(rows);
            IsCompleteChain(root, multiset(rows)) <==>
            |ordered| > 0 && DistinctIds(ordered) && forall i | 0 <= i < |ordered| :: RowFits(root, ordered, i)
  {
    var ordered := SortByPage(rows);
    assert |ordered| == |multiset(ordered)| == |multiset(rows)|;
    SortingSorts(rows);
    WalkIsRowsThatFit(root, ordered);
    forall walk | IsWalk(root, walk) && multiset(walk) == multiset(rows) ensures walk == ordered {
      SortedOrderIsTheWalk(ordered, walk);
    }
  }

  /** Comparing the number of identifiers with the number of rows detects every repetition. */
  lemma {:induction false} CountingIds(rows: seq<ChainRow>)
    ensures |IdsOf(rows)| <= |rows|
    ensures |IdsOf(rows)| == |rows| <==> DistinctIds(rows)
  {
    if rows != [] {
      var n := |rows| - 1;
      CountingIds(rows[..n]);
      LastId(rows);
      if rows[n].batchId in IdsOf(rows[..n]) {
        assert IdsOf(rows) == IdsOf(rows[..n]);
      }
    }
  }

  function IdsOf(rows: seq<ChainRow>): set<Id> {
    set row | row in rows :: row.batchId
  }

  lemma LastId(rows: seq<ChainRow>)
    requires |rows| > 0
    ensures var n := |rows| - 1;
            && IdsOf(rows) == IdsOf(rows[..n]) + {rows[n].batchId}
            && (DistinctIds(rows) <==> DistinctIds(rows[..n]) && rows[n].batchId !in IdsOf(rows[..n]))
  {
    var n := |rows| - 1;
    var front, last := rows[..n], rows[n].batchId;
    assert forall i | 0 <= i < n :: front[i] in front && rows[i] == front[i];
    assert rows == front + [rows[n]];
  }

  /** A complete chain has one walk: it fixes the order of its rows. */
  lemma WalkIsUnique(root: Id, first: seq<ChainRow>, second: seq<ChainRow>)
    requires IsWalk(root, first) && IsWalk(root, second)
    requires multiset(first) == multiset(second)
    ensures first == second
  {
    SortedOrderIsTheWalk(first, second);
  }

  /** The links alone determine the walk: in a complete chain, stepping from any row to the row its
      continuation link names, and then back along the parent link, returns to the same row. */
  lemma LinksAreInverse(root: Id, rows: multiset<ChainRow>, row: ChainRow, other: ChainRow)
    requires IsCompleteChain(root, rows)
    requires row in rows && other in rows
    ensures row.next == Some(other.batchId) <==> other.parent == Some(row.batchId)
  {
    var walk: seq<ChainRow> :| IsWalk(root, walk) && multiset(walk) == rows;
    assert row in multiset(walk) && other in multiset(walk);
    var i :| 0 <= i < |walk| && walk[i] == row;
    var j :| 0 <= j < |walk| && walk[j] == other;
    if row.next == Some(other.batchId) {
      assert i < |walk| - 1 && walk[i + 1].batchId == walk[j].batchId;
      assert j == i + 1;
    }
    if other.parent == Some(row.batchId) {
      assert j > 0;
      assert walk[j - 1 + 1].parent == Some(walk[j - 1].batchId);
      assert walk[j - 1].batchId == walk[i].batchId;
      assert i == j - 1;
    }
  }
}
