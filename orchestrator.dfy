/** The analysis run: for every ticker, in order, analyse its fetched series;
    keep a row for each ticker with data and warn about each without; then
    either report that no ticker had data, or order the rows by exceed count
    and pick out the rows that never exceeded the threshold.

    Fetching is not modelled: `fetched[i]` is the monthly series the market
    data service returned for `tickers[i]`. */
module Orchestrator {
  import opened ChangeAnalysis
  import opened ResultTable

  /** The outcome of a run: the "no valid data" error, or the ordered table
      together with its never-exceeded rows. */
  datatype Report =
    | NoValidData
    | Tables(table: seq<Summary>, neverExceeded: seq<Summary>)

  /** The whole number nearest to `y`, a tie going to the even neighbour. */
  function RoundHalfEven(y: real): (n: int)
    ensures Abs(n as real - y) <= 0.5
    ensures Abs(n as real - y) == 0.5 ==> n % 2 == 0
  {
    var down := y.Floor;
    assert down as real <= y < down as real + 1.0;
    var fraction := y - down as real;
    if fraction < 0.5 then down
    else if fraction > 0.5 then down + 1
    else if down % 2 == 0 then down
    else down + 1
  }

  /** `round(x, 2)`: the nearest multiple of 0.01, a tie going to the even
      number of hundredths. */
  function Round2(x: real): (r: real)
    ensures (r * 100.0).Floor as real == r * 100.0
    ensures Abs(r - x) <= 0.005
    ensures Abs(r - x) == 0.005 ==> (r * 100.0).Floor % 2 == 0
  {
    var hundredths := RoundHalfEven(x * 100.0);
    var r := hundredths as real / 100.0;
    assert r * 100.0 == hundredths as real;
    assert (hundredths as real).Floor == hundredths;
    assert Abs(r - x) * 100.0 == Abs(hundredths as real - x * 100.0);
    r
  }

  /** The row appended for a ticker whose series is not empty. */
  function Summarize(ticker: string, series: seq<Period>, threshold: real): (row: Summary)
    requires series != []
    ensures row.ticker == ticker
    ensures row.exceedCount == Analyze(series, threshold).exceedCount
    ensures row.peakChange == Round2(Analyze(series, threshold).peak.value)
    ensures (row.peakChange * 100.0).Floor as real == row.peakChange * 100.0
    ensures Abs(row.peakChange - Analyze(series, threshold).peak.value) <= 0.005
  {
    var analysis := Analyze(series, threshold);
    Summary(ticker, Round2(analysis.peak.value), analysis.exceedCount)
  }

  /** One pass of the loop body: the row for a ticker whose analysis has a
      peak, nothing (a warning) for a ticker whose analysis has none. */
  function Entry(ticker: string, series: seq<Period>, threshold: real): (row: Option<Summary>)
    ensures row.None? <==> series == []
    ensures row.Some? ==> row.value == Summarize(ticker, series, threshold)
  {
    if Analyze(series, threshold).peak.None? then None
    else Some(Summarize(ticker, series, threshold))
  }

  /** The rows appended for the tickers processed so far, in ticker order. */
  function Collected(tickers: seq<string>, fetched: seq<seq<Period>>, threshold: real): (rows: seq<Summary>)
    requires |fetched| == |tickers|
    ensures |rows| <= |tickers|
  {
    if tickers == [] then []
    else
      var last := |tickers| - 1;
      var before := Collected(tickers[..last], fetched[..last], threshold);
      match Entry(tickers[last], fetched[last], threshold)
      case None => before
      case Some(row) => before + [row]
  }

  /** The tickers warned about so far, in ticker order. */
  function Skipped(tickers: seq<string>, fetched: seq<seq<Period>>, threshold: real): (warned: seq<string>)
    requires |fetched| == |tickers|
    ensures |warned| <= |tickers|
  {
    if tickers == [] then []
    else
      var last := |tickers| - 1;
      var before := Skipped(tickers[..last], fetched[..last], threshold);
      match Entry(tickers[last], fetched[last], threshold)
      case None => before + [tickers[last]]
      case Some(_) => before
  }

  /** The positions of the tickers whose series is empty (when `empty`
      holds) or not empty (when it does not), in ticker order. */
  function PositionsWhere(fetched: seq<seq<Period>>, empty: bool): (positions: seq<nat>)
    ensures forall k :: 0 <= k < |positions| ==> positions[k] < |fetched| && (fetched[positions[k]] == []) == empty
  {
    if fetched == [] then []
    else
      var last := |fetched| - 1;
      var earlier := PositionsWhere(fetched[..last], empty);
      assert forall k :: 0 <= k < |earlier| ==> fetched[..last][earlier[k]] == fetched[earlier[k]];
      earlier + (if (fetched[last] == []) == empty then [last] else [])
  }

  /** The positions listed are ascending and include every position of the
      wanted kind. */
  lemma {:induction false} PositionsWhereAreExact(fetched: seq<seq<Period>>, empty: bool)
    ensures var positions := PositionsWhere(fetched, empty);
            && (forall k, l :: 0 <= k < l < |positions| ==> positions[k] < positions[l])
            && (forall i :: 0 <= i < |fetched| && (fetched[i] == []) == empty ==> i in positions)
  {
    if fetched != [] {
      var last := |fetched| - 1;
      var prefix := fetched[..last];
      PositionsWhereAreExact(prefix, empty);
      var earlier := PositionsWhere(prefix, empty);
      var positions := PositionsWhere(fetched, empty);
      assert positions == earlier + (if (fetched[last] == []) == empty then [last] else []);
      forall i | 0 <= i < |fetched| && (fetched[i] == []) == empty
        ensures i in positions
      {
        if i < last {
          assert prefix[i] == fetched[i];
          assert i in earlier;
        }
      }
    }
  }

  /** The collected rows are exactly one row per ticker with data, in ticker
      order: the k-th row belongs to the k-th ticker whose series is not empty. */
  lemma {:induction false} CollectedFollowsTickers(tickers: seq<string>, fetched: seq<seq<Period>>, threshold: real)
    requires |fetched| == |tickers|
    ensures var rows := Collected(tickers, fetched, threshold);
            var positions := PositionsWhere(fetched, false);
            && |rows| == |positions|
            && forall k :: 0 <= k < |rows| ==>
                 rows[k] == Summarize(tickers[positions[k]], fetched[positions[k]], threshold)
  {
    if tickers != [] {
      var last := |tickers| - 1;
      var ts, fs := tickers[..last], fetched[..last];
      CollectedFollowsTickers(ts, fs, threshold);
      var before, earlier := Collected(ts, fs, threshold), PositionsWhere(fs, false);
      assert fetched[..|fetched| - 1] == fs;
      forall k | 0 <= k < |before|
        ensures before[k] == Summarize(tickers[earlier[k]], fetched[earlier[k]], threshold)
      {
        assert ts[earlier[k]] == tickers[earlier[k]] && fs[earlier[k]] == fetched[earlier[k]];
      }
    }
  }

  /** The warnings name exactly the tickers without data, one per such
      ticker, in ticker order. */
  lemma {:induction false} SkippedFollowsTickers(tickers: seq<string>, fetched: seq<seq<Period>>, threshold: real)
    requires |fetched| == |tickers|
    ensures var warned := Skipped(tickers, fetched, threshold);
            var positions := PositionsWhere(fetched, true);
            && |warned| == |positions|
            && forall k :: 0 <= k < |warned| ==> warned[k] == tickers[positions[k]]
  {
    if tickers != [] {
      var last := |tickers| - 1;
      var ts, fs := tickers[..last], fetched[..last];
      SkippedFollowsTickers(ts, fs, threshold);
      var before, earlier := Skipped(ts, fs, threshold), PositionsWhere(fs, true);
      assert fetched[..|fetched| - 1] == fs;
      forall k | 0 <= k < |before|
        ensures before[k] == tickers[earlier[k]]
      {
        assert ts[earlier[k]] == tickers[earlier[k]];
      }
    }
  }

  /** Every ticker gets either a row or a warning, never both. */
  lemma {:induction false} RowOrWarningPerTicker(tickers: seq<string>, fetched: seq<seq<Period>>, threshold: real)
    requires |fetched| == |tickers|
    ensures |Collected(tickers, fetched, threshold)| + |Skipped(tickers, fetched, threshold)| == |tickers|
  {
    if tickers != [] {
      var last := |tickers| - 1;
      RowOrWarningPerTicker(tickers[..last], fetched[..last], threshold);
    }
  }

  /** The "no valid data" outcome happens exactly when every ticker's series is empty. */
  lemma NothingCollectedIffNoData(tickers: seq<string>, fetched: seq<seq<Period>>, threshold: real)
    requires |fetched| == |tickers|
    ensures Collected(tickers, fetched, threshold) == [] <==> forall i :: 0 <= i < |fetched| ==> fetched[i] == []
  {
    CollectedFollowsTickers(tickers, fetched, threshold);
    PositionsWhereAreExact(fetched, false);
    var positions := PositionsWhere(fetched, false);
    if positions != [] {
      assert fetched[positions[0]] != [];
    }
  }

  /** After the loop: the "no valid data" error when no row was collected,
      otherwise the rows ordered by count and the zero-count rows, which form
      a prefix of that order. */
  function Tabulate(results: seq<Summary>): (report: Report)
    ensures report.NoValidData? <==> results == []
    ensures report.Tables? ==>
      && SortedByCount(report.table)
      && multiset(report.table) == multiset(results)
      && report.neverExceeded == NeverExceeded(report.table)
      && |report.neverExceeded| <= |report.table|
      && report.neverExceeded == report.table[..|report.neverExceeded|]
  {
    if results == [] then NoValidData
    else
      var table := SortByCount(results);
      NeverExceededIsPrefix(table);
      Tables(table, NeverExceeded(table))
  }

  /** The run block: loop over the tickers appending a row or a warning per
      ticker, then tabulate the rows. */
  method RunAnalysis(tickers: seq<string>, fetched: seq<seq<Period>>, threshold: real)
    returns (report: Report, warned: seq<string>)
    requires |fetched| == |tickers|
    ensures warned == Skipped(tickers, fetched, threshold)
    ensures report == Tabulate(Collected(tickers, fetched, threshold))
  {
    var results: seq<Summary> := [];
    warned := [];
    var i := 0;
    while i < |tickers|
      invariant 0 <= i <= |tickers|
      invariant results == Collected(tickers[..i], fetched[..i], threshold)
      invariant warned == Skipped(tickers[..i], fetched[..i], threshold)
    {
      var analysis := Analyze(fetched[i], threshold);
      assert tickers[..i + 1][..i] == tickers[..i] && fetched[..i + 1][..i] == fetched[..i];
      assert Entry(tickers[i], fetched[i], threshold)
          == if analysis.peak.Some?
             then Some(Summary(tickers[i], Round2(analysis.peak.value), analysis.exceedCount))
             else None;
      if analysis.peak.Some? {
        results := results + [Summary(tickers[i], Round2(analysis.peak.value), analysis.exceedCount)];
      } else {
        warned := warned + [tickers[i]];
      }
      i := i + 1;
    }
    assert tickers[..i] == tickers && fetched[..i] == fetched;
    report := Tabulate(results);
  }
}
