/** The result table: one row per analysed ticker, its ordering by exceed
    count (`sort_values`) and the rows that never exceeded the threshold. */
module ResultTable {

  /** One row: the ticker, its rounded peak change in percent and the number
      of months whose change exceeded the threshold. */
  datatype Summary = Summary(ticker: string, peakChange: real, exceedCount: nat)

  predicate SortedByCount(rows: seq<Summary>) {
    forall i, j :: 0 <= i < j < |rows| ==> rows[i].exceedCount <= rows[j].exceedCount
  }

  /** Places `row` into an ordered table before the first row with a count
      not below its own. */
  function InsertByCount(row: Summary, sorted: seq<Summary>): (r: seq<Summary>)
    requires SortedByCount(sorted)
    ensures SortedByCount(r)
    ensures multiset(r) == multiset(sorted) + multiset{row}
    ensures r[0] == row || (sorted != [] && r[0] == sorted[0])
  {
    if sorted == [] || row.exceedCount <= sorted[0].exceedCount then
      SortedCons(row, sorted);
      [row] + sorted
    else
      var first, rest := sorted[0], InsertByCount(row, sorted[1..]);
      SortedCons(first, rest);
      assert sorted == [first] + sorted[1..];
      [first] + rest
  }

  /** A row no greater than the head of an ordered table extends it in order. */
  lemma SortedCons(first: Summary, rest: seq<Summary>)
    requires SortedByCount(rest)
    requires rest == [] || first.exceedCount <= rest[0].exceedCount
    ensures SortedByCount([first] + rest)
  {
    var r := [first] + rest;
    forall i, j | 0 <= i < j < |r|
      ensures r[i].exceedCount <= r[j].exceedCount
    {
      if i == 0 {
        assert rest[0].exceedCount <= rest[j - 1].exceedCount;
      } else {
        assert r[i] == rest[i - 1] && r[j] == rest[j - 1];
      }
    }
  }

  /** `sort_values` by the exceed-count column: the same rows, ascending by
      count. Only the order of the counts is promised; the relative order of
      rows with equal counts is not part of the contract. */
  function SortByCount(rows: seq<Summary>): (sorted: seq<Summary>)
    ensures SortedByCount(sorted)
    ensures multiset(sorted) == multiset(rows)
  {
    if rows == [] then []
    else
      assert rows == [rows[0]] + rows[1..];
      InsertByCount(rows[0], SortByCount(rows[1..]))
  }

  /** The table's rows with a count of 0 (`results_df[count == 0]`), in table order. */
  function NeverExceeded(rows: seq<Summary>): (never: seq<Summary>)
    ensures |never| <= |rows|
    ensures forall i :: 0 <= i < |never| ==> never[i].exceedCount == 0
  {
    if rows == [] then []
    else (if rows[0].exceedCount == 0 then [rows[0]] else []) + NeverExceeded(rows[1..])
  }

  /** The filter keeps every zero-count row as often as the table holds it,
      and no other row. */
  lemma {:induction false} NeverExceededKeepsZeroRows(rows: seq<Summary>, x: Summary)
    ensures multiset(NeverExceeded(rows))[x] == if x.exceedCount == 0 then multiset(rows)[x] else 0
  {
    if rows != [] {
      NeverExceededKeepsZeroRows(rows[1..], x);
      assert rows == [rows[0]] + rows[1..];
    }
  }

  /** In a table ordered by count, the zero-count rows are a prefix of it
      and every later row has a positive count. */
  lemma {:induction false} NeverExceededIsPrefix(rows: seq<Summary>)
    requires SortedByCount(rows)
    ensures |NeverExceeded(rows)| <= |rows|
    ensures NeverExceeded(rows) == rows[..|NeverExceeded(rows)|]
    ensures forall i :: |NeverExceeded(rows)| <= i < |rows| ==> rows[i].exceedCount > 0
  {
    if rows != [] {
      var rest := rows[1..];
      var tail := NeverExceeded(rest);
      if rows[0].exceedCount == 0 {
        assert SortedByCount(rest);
        NeverExceededIsPrefix(rest);
        assert NeverExceeded(rows) == [rows[0]] + tail;
        assert tail == rest[..|tail|];
        assert rows[..|tail| + 1] == [rows[0]] + rest[..|tail|];
        forall i | |tail| + 1 <= i < |rows|
          ensures rows[i].exceedCount > 0
        {
          assert rows[i] == rest[i - 1];
        }
      } else {
        NoZeroAfterPositive(rows);
      }
    }
  }

  /** An ordered table whose first count is positive has no zero-count row. */
  lemma {:induction false} NoZeroAfterPositive(rows: seq<Summary>)
    requires SortedByCount(rows) && rows != [] && rows[0].exceedCount > 0
    ensures NeverExceeded(rows) == []
  {
    if |rows| > 1 {
      NoZeroAfterPositive(rows[1..]);
    }
  }

  /** A row is listed as never exceeding exactly when it is in the table with count 0. */
  lemma NeverExceededMembers(rows: seq<Summary>, x: Summary)
    ensures x in NeverExceeded(rows) <==> x in rows && x.exceedCount == 0
  {
    NeverExceededKeepsZeroRows(rows, x);
    assert x in NeverExceeded(rows) <==> x in multiset(NeverExceeded(rows));
    assert x in rows <==> x in multiset(rows);
  }
}
