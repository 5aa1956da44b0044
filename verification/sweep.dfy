/** The stop-loss sweep: for every stop-loss percent from 5 to 50, open a
    trade at every scheduled entry, and record the average return and the
    share of winning trades. */
module StopLossSweep {
  import opened Prices
  import opened TrailingStop
  import opened EntrySchedule

  /** The swept stop-loss percents, in increasing order. */
  const LowestStopLoss: int := 5
  const HighestStopLoss: int := 50

  /** One line of the results table. */
  datatype Row = Row(stopLoss: int, avgReturn: real, winRate: real)

  /** The sum of a list of returns, added from the front: zero for no
      returns, and a single return for a list of one. */
  function Sum(xs: seq<real>): (s: real)
    ensures xs == [] ==> s == 0.0
    ensures |xs| == 1 ==> s == xs[0]
  {
    if xs == [] then 0.0 else Sum(xs[..|xs| - 1]) + xs[|xs| - 1]
  }

  /** The arithmetic mean of a non-empty list of returns: `|xs|` copies of it
      add up to the sum, and the mean of one return is that return. */
  function Mean(xs: seq<real>): (m: real)
    requires |xs| > 0
    ensures |xs| as real * m == Sum(xs)
    ensures |xs| == 1 ==> m == xs[0]
  {
    Sum(xs) / |xs| as real
  }

  /** The number of strictly positive returns. */
  function CountPositive(xs: seq<real>): (n: nat)
    ensures n <= |xs|
  {
    if xs == [] then 0 else CountPositive(xs[..|xs| - 1]) + if xs[|xs| - 1] > 0.0 then 1 else 0
  }

  /** Every return is counted exactly when every return is a gain, and none
      is counted exactly when none is. */
  lemma {:induction false} CountPositiveExtremes(xs: seq<real>)
    ensures CountPositive(xs) == |xs| <==> forall i :: 0 <= i < |xs| ==> xs[i] > 0.0
    ensures CountPositive(xs) == 0 <==> forall i :: 0 <= i < |xs| ==> xs[i] <= 0.0
  {
    if xs != [] {
      var init := xs[..|xs| - 1];
      CountPositiveExtremes(init);
      assert forall i :: 0 <= i < |init| ==> init[i] == xs[i];
    }
  }

  /** The share of strictly positive returns: the mean of 1 for a gain and 0
      otherwise, so it lies in [0, 1]. */
  function WinRate(xs: seq<real>): (r: real)
    requires |xs| > 0
    ensures 0.0 <= r <= 1.0
  {
    CountPositive(xs) as real / |xs| as real
  }

  /** The win rate is 1 exactly when every trade gained and 0 exactly when
      none did. */
  lemma WinRateExtremes(xs: seq<real>)
    requires |xs| > 0
    ensures WinRate(xs) == 1.0 <==> forall i :: 0 <= i < |xs| ==> xs[i] > 0.0
    ensures WinRate(xs) == 0.0 <==> forall i :: 0 <= i < |xs| ==> xs[i] <= 0.0
  {
    CountPositiveExtremes(xs);
    var n := |xs| as real;
    var c := CountPositive(xs) as real;
    assert c / n == 1.0 <==> c == n;
    assert c / n == 0.0 <==> c == 0.0;
  }

  /** Every return bounded by `lo` and `hi` gives a sum between `|xs| * lo`
      and `|xs| * hi`. */
  lemma {:induction false} SumBounds(xs: seq<real>, lo: real, hi: real)
    requires forall i :: 0 <= i < |xs| ==> lo <= xs[i] <= hi
    ensures |xs| as real * lo <= Sum(xs) <= |xs| as real * hi
  {
    if xs != [] {
      var init := xs[..|xs| - 1];
      SumBounds(init, lo, hi);
      var n := |init| as real;
      assert (n + 1.0) * lo == n * lo + lo;
      assert (n + 1.0) * hi == n * hi + hi;
    }
  }

  /** The mean of returns that all lie in [lo, hi] lies in [lo, hi]. */
  lemma MeanBounds(xs: seq<real>, lo: real, hi: real)
    requires |xs| > 0
    requires forall i :: 0 <= i < |xs| ==> lo <= xs[i] <= hi
    ensures lo <= Mean(xs) <= hi
  {
    SumBounds(xs, lo, hi);
    var n := |xs| as real;
    DivBounds(Sum(xs), n, lo, hi);
  }

  lemma DivBounds(s: real, n: real, lo: real, hi: real)
    requires n > 0.0 && n * lo <= s <= n * hi
    ensures lo <= s / n <= hi
  {}

  /** The returns of the trades opened at `starts`, in order, skipping any
      start whose suffix has at most `MinTradeBars` bars. */
  function ReturnsOver(data: seq<Bar>, starts: seq<nat>, p: int): (rs: seq<real>)
    requires forall i :: 0 <= i < |starts| ==> starts[i] <= |data|
    ensures |rs| <= |starts|
    ensures (forall i :: 0 <= i < |starts| ==> |data| - starts[i] > MinTradeBars) ==> |rs| == |starts|
    decreases |starts|
  {
    if starts == [] then []
    else
      var s := starts[|starts| - 1];
      var prior := ReturnsOver(data, starts[..|starts| - 1], p);
      if |data| - s > MinTradeBars then prior + [TradeReturn(data[s..], p)] else prior
  }

  /** When every suffix is long enough, return `i` is the return of the
      trade opened at `starts[i]`. */
  lemma {:induction false} ReturnsOverAreTrades(data: seq<Bar>, starts: seq<nat>, p: int)
    requires forall i :: 0 <= i < |starts| ==> |data| - starts[i] > MinTradeBars
    ensures forall i :: 0 <= i < |starts| ==>
              ReturnsOver(data, starts, p)[i] == TradeReturn(data[starts[i]..], p)
    decreases |starts|
  {
    if starts != [] {
      var init := starts[..|starts| - 1];
      ReturnsOverAreTrades(data, init, p);
      var rs := ReturnsOver(data, starts, p);
      var prior := ReturnsOver(data, init, p);
      assert rs == prior + [TradeReturn(data[starts[|starts| - 1]..], p)];
      forall i | 0 <= i < |starts|
        ensures rs[i] == TradeReturn(data[starts[i]..], p)
      {
        if i < |init| {
          assert rs[i] == prior[i];
          assert init[i] == starts[i];
        }
      }
    }
  }

  /** The returns of one stop-loss percent: one trade per scheduled entry,
      since every scheduled suffix is long enough. */
  function EntryReturns(data: seq<Bar>, p: int): (rs: seq<real>)
    ensures |rs| == |EntryPoints(|data|)|
  {
    EntrySuffixesLongEnough(|data|);
    ReturnsOver(data, EntryPoints(|data|), p)
  }

  /** Trade `i` of a percent is the trade opened at entry `i` and held on the
      rest of the series. */
  lemma EntryReturnsAreTrades(data: seq<Bar>, p: int)
    ensures forall i :: 0 <= i < |EntryReturns(data, p)| ==>
              EntryPoints(|data|)[i] < |data| &&
              EntryReturns(data, p)[i] == TradeReturn(data[EntryPoints(|data|)[i]..], p)
  {
    EntrySuffixesLongEnough(|data|);
    ReturnsOverAreTrades(data, EntryPoints(|data|), p);
  }

  /** The results row of one stop-loss percent: a single row, labelled with
      the percent and holding the mean return and the win rate, exactly when
      the percent has a trade, and no row otherwise. */
  function RowFor(data: seq<Bar>, p: int): (row: seq<Row>)
    ensures |row| <= 1
    ensures |row| == 1 <==> |EntryReturns(data, p)| > 0
    ensures |row| == 1 ==>
              row[0].stopLoss == p &&
              row[0].avgReturn == Mean(EntryReturns(data, p)) &&
              row[0].winRate == WinRate(EntryReturns(data, p))
  {
    var rs := EntryReturns(data, p);
    if |rs| > 0 then [Row(p, Mean(rs), WinRate(rs))] else []
  }

  /** The results table for the percents `lo..hi`, in increasing order. Each
      row belongs to one percent in the range, has at least one trade, and
      holds the mean return and the win rate of that percent's trades. */
  function SweepRows(data: seq<Bar>, lo: int, hi: int): (rows: seq<Row>)
    ensures forall k :: 0 <= k < |rows| ==> lo <= rows[k].stopLoss <= hi
    decreases if hi < lo then 0 else hi - lo + 1
  {
    if hi < lo then [] else SweepRows(data, lo, hi - 1) + RowFor(data, hi)
  }

  /** The rows come in strictly increasing stop-loss order. */
  lemma {:induction false} SweepRowsAscending(data: seq<Bar>, lo: int, hi: int)
    ensures forall k, l :: 0 <= k < l < |SweepRows(data, lo, hi)| ==>
              SweepRows(data, lo, hi)[k].stopLoss < SweepRows(data, lo, hi)[l].stopLoss
    decreases if hi < lo then 0 else hi - lo + 1
  {
    if lo <= hi {
      SweepRowsAscending(data, lo, hi - 1);
      var prior := SweepRows(data, lo, hi - 1);
      var last := RowFor(data, hi);
      var rows := SweepRows(data, lo, hi);
      assert rows == prior + last;
      forall k, l | 0 <= k < l < |rows|
        ensures rows[k].stopLoss < rows[l].stopLoss
      {
        if l < |prior| {
          assert rows[k] == prior[k] && rows[l] == prior[l];
        } else {
          assert rows[k] == prior[k] && rows[l] == last[0];
        }
      }
    }
  }

  /** Every row of the table is the row its own percent produces: that
      percent has at least one trade, and the row holds the mean return and
      the win rate of those trades. */
  lemma {:induction false} SweepRowContents(data: seq<Bar>, lo: int, hi: int)
    ensures forall k :: 0 <= k < |SweepRows(data, lo, hi)| ==>
              RowFor(data, SweepRows(data, lo, hi)[k].stopLoss) == [SweepRows(data, lo, hi)[k]]
    decreases if hi < lo then 0 else hi - lo + 1
  {
    if lo <= hi {
      SweepRowContents(data, lo, hi - 1);
      var prior := SweepRows(data, lo, hi - 1);
      var last := RowFor(data, hi);
      var rows := SweepRows(data, lo, hi);
      assert rows == prior + last;
      forall k | 0 <= k < |rows|
        ensures RowFor(data, rows[k].stopLoss) == [rows[k]]
      {
        if k < |prior| {
          assert rows[k] == prior[k];
        } else {
          assert rows[k] == last[0];
        }
      }
    }
  }

  /** The sweep loop: for every percent in increasing order, simulate a trade
      from every scheduled entry whose suffix is long enough, and append a
      row when at least one trade was simulated. */
  method Sweep(data: seq<Bar>) returns (results: seq<Row>)
    requires DatesSorted(data)
    ensures results == SweepRows(data, LowestStopLoss, HighestStopLoss)
  {
    results := [];
    var entryPoints := EntryPoints(|data|);
    EntrySuffixesLongEnough(|data|);
    for p := LowestStopLoss to HighestStopLoss + 1
      invariant results == SweepRows(data, LowestStopLoss, p - 1)
    {
      var tradeReturns := [];
      for j := 0 to |entryPoints|
        invariant tradeReturns == ReturnsOver(data, entryPoints[..j], p)
      {
        var startIdx := entryPoints[j];
        assert startIdx in entryPoints;
        var subset := data[startIdx..];
        ReturnsOverStep(data, entryPoints, j, p);
        if |subset| > MinTradeBars {
          var r := RunSimulation(subset, p);
          tradeReturns := tradeReturns + [r];
        }
      }
      assert entryPoints[..|entryPoints|] == entryPoints;
      if |tradeReturns| > 0 {
        var avgRet := Mean(tradeReturns);
        var winRate := WinRate(tradeReturns);
        results := results + [Row(p, avgRet, winRate)];
      }
    }
  }

  /** One more entry adds its trade's return when its suffix is long enough,
      and nothing otherwise. */
  lemma ReturnsOverStep(data: seq<Bar>, starts: seq<nat>, j: nat, p: int)
    requires j < |starts|
    requires forall i :: 0 <= i < |starts| ==> starts[i] <= |data|
    ensures ReturnsOver(data, starts[..j + 1], p) ==
              if |data| - starts[j] > MinTradeBars
              then ReturnsOver(data, starts[..j], p) + [TradeReturn(data[starts[j]..], p)]
              else ReturnsOver(data, starts[..j], p)
  {
    assert starts[..j + 1][..j] == starts[..j];
  }

  /** A series of at most `StepSize` bars has no entry and gives no rows. */
  lemma {:induction false} NoRowsForShortSeries(data: seq<Bar>, lo: int, hi: int)
    requires |data| <= StepSize
    ensures SweepRows(data, lo, hi) == []
    decreases if hi < lo then 0 else hi - lo + 1
  {
    if lo <= hi {
      NoRowsForShortSeries(data, lo, hi - 1);
    }
  }

  /** A series of more than `StepSize` bars gives exactly one row per percent
      of the range, row `k` for percent `lo + k`. */
  lemma {:induction false} OneRowPerPercent(data: seq<Bar>, lo: int, hi: int)
    requires |data| > StepSize && lo <= hi + 1
    ensures |SweepRows(data, lo, hi)| == hi - lo + 1
    ensures forall k :: 0 <= k < hi - lo + 1 ==> SweepRows(data, lo, hi)[k].stopLoss == lo + k
    decreases hi - lo + 1
  {
    if lo <= hi {
      OneRowPerPercent(data, lo, hi - 1);
      var prior := SweepRows(data, lo, hi - 1);
      var last := RowFor(data, hi);
      RowForLongSeries(data, hi);
      var rows := SweepRows(data, lo, hi);
      assert rows == prior + last;
      Labelled(prior, last, lo, hi);
    }
  }

  /** Appending the row of percent `hi` to the rows of `lo..hi-1`, one per
      percent, gives one row per percent of `lo..hi`. */
  lemma Labelled(prior: seq<Row>, last: seq<Row>, lo: int, hi: int)
    requires |prior| == hi - lo
    requires forall k :: 0 <= k < |prior| ==> prior[k].stopLoss == lo + k
    requires |last| == 1 && last[0].stopLoss == hi
    ensures forall k :: 0 <= k < |prior + last| ==> (prior + last)[k].stopLoss == lo + k
  {
  }

  /** On a series of more than `StepSize` bars every percent has trades and
      so exactly one row, labelled with that percent. */
  lemma RowForLongSeries(data: seq<Bar>, p: int)
    requires |data| > StepSize
    ensures |EntryReturns(data, p)| > 0
    ensures |RowFor(data, p)| == 1 && RowFor(data, p)[0].stopLoss == p
  {
    assert EntryPoints(|data|) != [];
  }

  /** The mean return of every row lies between the worst and the best of
      its trades. */
  lemma RowMeanBetweenTrades(data: seq<Bar>, lo: int, hi: int, k: nat, worst: real, best: real)
    requires k < |SweepRows(data, lo, hi)|
    requires forall i :: 0 <= i < |EntryReturns(data, SweepRows(data, lo, hi)[k].stopLoss)| ==>
               worst <= EntryReturns(data, SweepRows(data, lo, hi)[k].stopLoss)[i] <= best
    ensures worst <= SweepRows(data, lo, hi)[k].avgReturn <= best
  {
    SweepRowContents(data, lo, hi);
    var row := SweepRows(data, lo, hi)[k];
    var rs := EntryReturns(data, row.stopLoss);
    assert RowFor(data, row.stopLoss) == [row];
    MeanBounds(rs, worst, best);
  }
}
