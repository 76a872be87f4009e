/** Per-series analysis of one ticker's monthly price history
    (`calculate_threshold_exceeds`): the percentage change of every month,
    the number of months whose change is above a threshold in magnitude,
    and the signed "peak" change of largest magnitude.

    Prices are exact reals rather than floating-point numbers. */
module ChangeAnalysis {

  datatype Option<T> = None | Some(value: T)

  /** An opening price; it is never zero, so every month's change is defined. */
  type NonZeroPrice = x: real | x != 0.0 witness 1.0

  /** One monthly bar of a price history. */
  datatype Period = Period(open: NonZeroPrice, close: real)

  /** What the analysis of one series yields: the signed peak change
      (absent for an empty series) and the number of months above the threshold. */
  datatype Analysis = Analysis(peak: Option<real>, exceedCount: nat)

  function Abs(x: real): real {
    if x < 0.0 then -x else x
  }

  /** The month's change in percent, `(Close - Open) / Open * 100`. */
  function PercentChange(p: Period): (change: real)
    ensures p.close == p.open * (1.0 + change / 100.0)
    ensures p.open > 0.0 ==> (change > 0.0 <==> p.close > p.open)
  {
    (p.close - p.open) / p.open * 100.0
  }

  /** The column of monthly changes, one per month of the series. */
  function Changes(series: seq<Period>): (changes: seq<real>)
    ensures |changes| == |series|
    ensures forall i :: 0 <= i < |series| ==>
      series[i].close == series[i].open * (1.0 + changes[i] / 100.0)
  {
    seq(|series|, i requires 0 <= i < |series| => PercentChange(series[i]))
  }

  /** Strict comparison: a change equal to the threshold does not exceed it. */
  predicate Exceeds(change: real, threshold: real) {
    Abs(change) > threshold
  }

  /** The positions whose change exceeds the threshold. */
  function ExceedingPositions(changes: seq<real>, threshold: real): set<nat> {
    set i: nat | i < |changes| && Exceeds(changes[i], threshold)
  }

  /** The boolean column `abs() > threshold`, summed. */
  function CountExceeding(changes: seq<real>, threshold: real): (n: nat)
    ensures n <= |changes|
  {
    if changes == [] then 0
    else
      var last := |changes| - 1;
      CountExceeding(changes[..last], threshold) + (if Exceeds(changes[last], threshold) then 1 else 0)
  }

  lemma {:induction false} CountIsNumberOfExceedingPositions(changes: seq<real>, threshold: real)
    ensures CountExceeding(changes, threshold) == |ExceedingPositions(changes, threshold)|
  {
    if changes != [] {
      var last := |changes| - 1;
      var prefix := changes[..last];
      CountIsNumberOfExceedingPositions(prefix, threshold);
      var before := ExceedingPositions(prefix, threshold);
      var extra: set<nat> := if Exceeds(changes[last], threshold) then {last} else {};
      assert ExceedingPositions(changes, threshold) == before + extra;
      assert last !in before;
    }
  }

  /** A series has a zero count exactly when no month's change exceeds the threshold. */
  lemma {:induction false} CountZeroIffNoneExceeds(changes: seq<real>, threshold: real)
    ensures CountExceeding(changes, threshold) == 0
        <==> forall i :: 0 <= i < |changes| ==> !Exceeds(changes[i], threshold)
  {
    if changes != [] {
      var last := |changes| - 1;
      CountZeroIffNoneExceeds(changes[..last], threshold);
      assert forall i :: 0 <= i < last ==> changes[..last][i] == changes[i];
    }
  }

  /** The count reaches the length of the series exactly when every month exceeds. */
  lemma {:induction false} CountFullIffAllExceed(changes: seq<real>, threshold: real)
    ensures CountExceeding(changes, threshold) == |changes|
        <==> forall i :: 0 <= i < |changes| ==> Exceeds(changes[i], threshold)
  {
    if changes != [] {
      var last := |changes| - 1;
      CountFullIffAllExceed(changes[..last], threshold);
      assert forall i :: 0 <= i < last ==> changes[..last][i] == changes[i];
    }
  }

  /** The column maximum. */
  function MaxOf(s: seq<real>): (m: real)
    requires s != []
    ensures m in s
    ensures forall i :: 0 <= i < |s| ==> s[i] <= m
  {
    if |s| == 1 then s[0]
    else
      var rest := MaxOf(s[1..]);
      if s[0] > rest then s[0] else rest
  }

  /** The column minimum. */
  function MinOf(s: seq<real>): (m: real)
    requires s != []
    ensures m in s
    ensures forall i :: 0 <= i < |s| ==> m <= s[i]
  {
    if |s| == 1 then s[0]
    else
      var rest := MinOf(s[1..]);
      if s[0] < rest then s[0] else rest
  }

  /** `p` is the peak of `changes`: one of the changes, of largest magnitude,
      and among the changes of that magnitude the least (a fall wins a tie
      with a rise of the same size). */
  ghost predicate IsPeak(p: real, changes: seq<real>) {
    && p in changes
    && (forall i :: 0 <= i < |changes| ==> Abs(changes[i]) <= Abs(p))
    && (forall i :: 0 <= i < |changes| && Abs(changes[i]) == Abs(p) ==> p <= changes[i])
  }

  /** At most one value is the peak of a series. */
  lemma PeakIsUnique(p: real, q: real, changes: seq<real>)
    requires IsPeak(p, changes) && IsPeak(q, changes)
    ensures p == q
  {
    var i :| 0 <= i < |changes| && changes[i] == p;
    var j :| 0 <= j < |changes| && changes[j] == q;
    assert Abs(p) == Abs(q);
  }

  /** `calculate_threshold_exceeds`: absent peak and count 0 for an empty
      series; otherwise the maximum if its magnitude is strictly larger than
      the minimum's, else the minimum, with the count of exceeding months. */
  function Analyze(series: seq<Period>, threshold: real): (r: Analysis)
    ensures series == [] ==> r == Analysis(None, 0)
    ensures r.peak.Some? <==> series != []
    ensures r.exceedCount <= |series|
  {
    if series == [] then Analysis(None, 0)
    else
      var changes := Changes(series);
      var maxChange := MaxOf(changes);
      var minChange := MinOf(changes);
      var count := CountExceeding(changes, threshold);
      if Abs(maxChange) > Abs(minChange) then Analysis(Some(maxChange), count)
      else Analysis(Some(minChange), count)
  }

  /** The count is the number of months whose change is strictly above the
      threshold in magnitude. */
  lemma ExceedCountIsNumberOfExceedingMonths(series: seq<Period>, threshold: real)
    ensures Analyze(series, threshold).exceedCount
         == |set i: nat | i < |series| && Abs(PercentChange(series[i])) > threshold|
  {
    var changes := Changes(series);
    CountIsNumberOfExceedingPositions(changes, threshold);
    assert ExceedingPositions(changes, threshold)
        == set i: nat | i < |series| && Abs(PercentChange(series[i])) > threshold;
  }

  /** For a series with data, the peak is a month's change of largest
      magnitude, the fall when a rise and a fall share that magnitude. */
  lemma PeakHasLargestMagnitude(series: seq<Period>, threshold: real)
    requires series != []
    ensures IsPeak(Analyze(series, threshold).peak.value, Changes(series))
  {
  }

  /** The peak is the column maximum or the column minimum, and the maximum
      is returned only when its magnitude strictly exceeds the minimum's. */
  lemma PeakIsMaxOrMin(series: seq<Period>, threshold: real)
    requires series != []
    ensures var peak := Analyze(series, threshold).peak.value;
            var changes := Changes(series);
            && (peak == MaxOf(changes) || peak == MinOf(changes))
            && (Abs(MaxOf(changes)) > Abs(MinOf(changes)) <==> peak != MinOf(changes))
  {
    var changes := Changes(series);
    var peak := Analyze(series, threshold).peak.value;
    var maxChange, minChange := MaxOf(changes), MinOf(changes);
    if Abs(maxChange) > Abs(minChange) {
      assert peak == maxChange;
      assert maxChange != minChange;
    }
  }

  /** A rise and a fall of the same largest magnitude: the fall is reported. */
  lemma TieGoesToTheFall(series: seq<Period>, threshold: real, m: real)
    requires m > 0.0
    requires m in Changes(series) && -m in Changes(series)
    requires forall i :: 0 <= i < |series| ==> Abs(PercentChange(series[i])) <= m
    ensures Analyze(series, threshold).peak == Some(-m)
  {
    PeakHasLargestMagnitude(series, threshold);
    PeakOfTie(Analyze(series, threshold).peak.value, Changes(series), m);
  }

  /** The peak of changes bounded by `m` in magnitude that include `-m` is `-m`. */
  lemma PeakOfTie(p: real, changes: seq<real>, m: real)
    requires IsPeak(p, changes)
    requires -m in changes
    requires forall i :: 0 <= i < |changes| ==> Abs(changes[i]) <= m
    ensures p == -m
  {
    var j :| 0 <= j < |changes| && changes[j] == -m;
    var k :| 0 <= k < |changes| && changes[k] == p;
    assert Abs(changes[j]) <= Abs(p) <= m;
  }

  /** A ticker has a zero count exactly when no month moved by more than the threshold. */
  lemma ZeroCountIffQuiet(series: seq<Period>, threshold: real)
    ensures Analyze(series, threshold).exceedCount == 0
        <==> forall i :: 0 <= i < |series| ==> Abs(PercentChange(series[i])) <= threshold
  {
    var changes := Changes(series);
    CountZeroIffNoneExceeds(changes, threshold);
  }

  /** Monthly changes of +2 %, +3 % and -1 % against a 10 % threshold: no
      month exceeds it and the peak is the +3 % rise, whose magnitude is
      strictly larger than the fall's. */
  lemma SmallMovesExample()
    ensures Analyze([Period(100.0, 102.0), Period(100.0, 103.0), Period(100.0, 99.0)], 10.0)
         == Analysis(Some(3.0), 0)
  {
    var series := [Period(100.0, 102.0), Period(100.0, 103.0), Period(100.0, 99.0)];
    var changes := Changes(series);
    assert changes == [2.0, 3.0, -1.0];
    assert MaxOf(changes) == 3.0;
    assert MinOf(changes) == -1.0;
    CountZeroIffNoneExceeds(changes, 10.0);
  }
}
