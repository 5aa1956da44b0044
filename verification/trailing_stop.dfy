/** One simulated trade with a trailing stop-loss: buy at the close of the
    first bar, follow the highest high seen so far, and sell as soon as a
    bar's low reaches the stop level below that mark. */
module TrailingStop {
  import opened Prices

  /** The stop-loss as a fraction of the mark: percent `p` is `p / 100`, so
      a percent between 0 and 100 gives a fraction between 0 and 1. */
  function Fraction(p: int): (f: real)
    ensures f * 100.0 == p as real
    ensures 0 <= p <= 100 ==> 0.0 <= f <= 1.0
  {
    p as real / 100.0
  }

  /** The stop level that trails a high-water mark by `p` percent. For a
      stop-loss between 0 and 100 percent it lies between zero and the mark. */
  function StopLevel(mark: real, p: int): (level: real)
    ensures 0.0 <= mark && 0 <= p <= 100 ==> 0.0 <= level <= mark
  {
    mark * (1.0 - Fraction(p))
  }

  /** Relative gain of selling at `exit` after buying at `entry`: positive
      exactly when the exit is above the entry, and zero when they agree. */
  function ReturnOn(entry: Price, exit: real): (r: real)
    ensures r > 0.0 <==> exit > entry
    ensures exit == entry ==> r == 0.0
  {
    (exit - entry) / entry
  }

  /** The high-water mark after bar `i` has been seen: it starts at bar 0's
      high and is raised whenever a later high is larger, so it is always
      one of the (positive) highs. */
  function MaxHigh(bars: seq<Bar>, i: nat): (mark: real)
    requires i < |bars|
    ensures mark > 0.0
    decreases i
  {
    if i == 0 then bars[0].high
    else if bars[i].high > MaxHigh(bars, i - 1) then bars[i].high
    else MaxHigh(bars, i - 1)
  }

  /** The mark after bar `i` is the largest high among bars 0..i. */
  lemma {:induction false} MaxHighIsHighest(bars: seq<Bar>, i: nat)
    requires i < |bars|
    ensures forall k :: 0 <= k <= i ==> bars[k].high <= MaxHigh(bars, i)
    ensures exists k :: 0 <= k <= i && bars[k].high == MaxHigh(bars, i)
  {
    if i > 0 {
      MaxHighIsHighest(bars, i - 1);
      var k :| 0 <= k <= i - 1 && bars[k].high == MaxHigh(bars, i - 1);
      if bars[i].high > MaxHigh(bars, i - 1) {
        assert bars[i].high == MaxHigh(bars, i);
      } else {
        assert bars[k].high == MaxHigh(bars, i);
      }
    } else {
      assert bars[0].high == MaxHigh(bars, 0);
    }
  }

  /** Bar `i` (never the entry bar) triggers the stop: its low is at or below
      the stop level computed from the mark that already includes its own high.
      Only a bar after the entry can trigger, and for a stop-loss between 0 and
      100 percent only one whose low is at or below the mark. */
  predicate StopsAt(bars: seq<Bar>, p: int, i: int): (hit: bool)
    ensures hit ==> 1 <= i < |bars|
    ensures hit && 0 <= p <= 100 ==> bars[i].low <= MaxHigh(bars, i)
  {
    1 <= i < |bars| && bars[i].low <= StopLevel(MaxHigh(bars, i), p)
  }

  /** The first triggering bar at or after `from`, if any. */
  function FirstExit(bars: seq<Bar>, p: int, from: nat): (r: Option<nat>)
    ensures r.Some? ==> from <= r.value < |bars| && StopsAt(bars, p, r.value)
    ensures r.Some? ==> forall j :: from <= j < r.value ==> !StopsAt(bars, p, j)
    ensures r.None? ==> forall j :: from <= j < |bars| ==> !StopsAt(bars, p, j)
    decreases |bars| - from
  {
    if from >= |bars| then None
    else if StopsAt(bars, p, from) then Some(from)
    else FirstExit(bars, p, from + 1)
  }

  /** How a trade ends: stopped out on bar `bar` at the stop level, or still
      held at the end of the series and valued at the last close. */
  datatype Exit = StoppedOut(bar: nat, price: real) | Held(price: real)

  /** The exit of a trade entered at bar 0. It is a stop-out exactly at the
      first bar that triggers, filled at that bar's stop level; when no bar
      triggers, the position is valued at the last close. */
  function TradeExit(bars: seq<Bar>, p: int): (e: Exit)
    requires |bars| > 0
    ensures e.StoppedOut? ==> StopsAt(bars, p, e.bar)
    ensures e.StoppedOut? ==> forall j :: 1 <= j < e.bar ==> !StopsAt(bars, p, j)
    ensures e.StoppedOut? ==> e.price == StopLevel(MaxHigh(bars, e.bar), p)
    ensures e.Held? <==> forall j :: 1 <= j < |bars| ==> !StopsAt(bars, p, j)
    ensures e.Held? ==> e.price == bars[|bars| - 1].close
  {
    match FirstExit(bars, p, 1)
    case Some(i) => StoppedOut(i, StopLevel(MaxHigh(bars, i), p))
    case None => Held(bars[|bars| - 1].close)
  }

  /** The return of a trade entered at bar 0's close. */
  function TradeReturn(bars: seq<Bar>, p: int): (r: real)
    requires |bars| > 0
    ensures TradeExit(bars, p).Held? ==> r == ReturnOn(bars[0].close, bars[|bars| - 1].close)
    ensures TradeExit(bars, p).StoppedOut? ==>
              r == ReturnOn(bars[0].close, StopLevel(MaxHigh(bars, TradeExit(bars, p).bar), p))
  {
    ReturnOn(bars[0].close, TradeExit(bars, p).price)
  }

  /** The return of a trade: measured at the stop level of the first bar that
      triggers, or at the last close when none does. */
  lemma TradeReturnCases(bars: seq<Bar>, p: int)
    requires |bars| > 0
    ensures (forall j :: 1 <= j < |bars| ==> !StopsAt(bars, p, j)) ==>
              TradeReturn(bars, p) == ReturnOn(bars[0].close, bars[|bars| - 1].close)
    ensures forall i :: StopsAt(bars, p, i) && (forall j :: 1 <= j < i ==> !StopsAt(bars, p, j)) ==>
              TradeReturn(bars, p) == ReturnOn(bars[0].close, StopLevel(MaxHigh(bars, i), p))
  {
    var e := TradeExit(bars, p);
    forall i | StopsAt(bars, p, i) && (forall j :: 1 <= j < i ==> !StopsAt(bars, p, j))
      ensures TradeReturn(bars, p) == ReturnOn(bars[0].close, StopLevel(MaxHigh(bars, i), p))
    {
      assert e.StoppedOut? && e.bar == i;
    }
  }

  /** The replay loop: walk the bars after the entry bar in order, raise the
      mark first, then test the bar's low against the new stop level and
      leave on the first hit; otherwise value the trade at the last close. */
  method RunSimulation(trade: seq<Bar>, p: int) returns (r: real)
    requires |trade| > 0
    ensures r == TradeReturn(trade, p)
  {
    var entryPrice := trade[0].close;
    var highestHigh := trade[0].high;
    for i := 1 to |trade|
      invariant highestHigh == MaxHigh(trade, i - 1)
      invariant forall j :: 1 <= j < i ==> !StopsAt(trade, p, j)
    {
      var currentHigh := trade[i].high;
      var currentLow := trade[i].low;
      if currentHigh > highestHigh {
        highestHigh := currentHigh;
      }
      var stopPrice := StopLevel(highestHigh, p);
      if currentLow <= stopPrice {
        assert StopsAt(trade, p, i);
        return ReturnOn(entryPrice, stopPrice);
      }
    }
    return ReturnOn(entryPrice, trade[|trade| - 1].close);
  }

  /** The high-water mark never decreases and never falls below the entry
      bar's high. */
  lemma {:induction false} MarkNeverDecreases(bars: seq<Bar>, i: nat, j: nat)
    requires i <= j < |bars|
    ensures bars[0].high <= MaxHigh(bars, i) <= MaxHigh(bars, j)
    decreases j - i
  {
    if i < j {
      MarkNeverDecreases(bars, i, j - 1);
    } else {
      MaxHighIsHighest(bars, i);
    }
  }

  lemma StopLevelMonotone(a: real, b: real, p: int)
    requires a <= b && p <= 100
    ensures StopLevel(a, p) <= StopLevel(b, p)
  {
    var f := 1.0 - Fraction(p);
    MulMonotone(a, b, f);
    assert StopLevel(a, p) == a * f && StopLevel(b, p) == b * f;
  }

  lemma MulMonotone(a: real, b: real, f: real)
    requires a <= b && f >= 0.0
    ensures a * f <= b * f
  {}

  lemma StopLevelBelowMark(m: real, p: int)
    requires m > 0.0 && 0 <= p
    ensures StopLevel(m, p) <= m
  {}

  lemma StopLevelNegative(m: real, p: int)
    requires m > 0.0 && p > 100
    ensures StopLevel(m, p) < 0.0
  {}

  /** For a stop-loss of at most 100 percent the stop level never moves down
      from one bar to the next, and for a non-negative one it never exceeds
      the mark. */
  lemma StopNeverRatchetsDown(bars: seq<Bar>, p: int, i: nat, j: nat)
    requires p <= 100
    requires i <= j < |bars|
    ensures StopLevel(MaxHigh(bars, i), p) <= StopLevel(MaxHigh(bars, j), p)
    ensures 0 <= p ==> StopLevel(MaxHigh(bars, j), p) <= MaxHigh(bars, j)
  {
    var a, b := MaxHigh(bars, i), MaxHigh(bars, j);
    MarkNeverDecreases(bars, i, j);
    StopLevelMonotone(a, b, p);
    if 0 <= p {
      StopLevelBelowMark(b, p);
    }
  }

  /** A stop-loss above 100 percent puts the stop below zero, and since every
      low is positive no bar can trigger it. */
  lemma NoStopOutAbove100(bars: seq<Bar>, p: int)
    requires |bars| > 0 && p > 100
    ensures TradeExit(bars, p).Held?
  {
    forall j | 1 <= j < |bars|
      ensures !StopsAt(bars, p, j)
    {
      MarkNeverDecreases(bars, 0, j);
      StopLevelNegative(MaxHigh(bars, j), p);
    }
  }

  /** A stop-out never loses more than the initial stop would: the exit
      price is at least the entry bar's high less `p` percent. */
  lemma StopOutReturnLowerBound(bars: seq<Bar>, p: int)
    requires |bars| > 0
    ensures TradeExit(bars, p).StoppedOut? ==>
              TradeReturn(bars, p) >= ReturnOn(bars[0].close, StopLevel(bars[0].high, p))
  {
    if p > 100 {
      NoStopOutAbove100(bars, p);
    } else if TradeExit(bars, p).StoppedOut? {
      var i := TradeExit(bars, p).bar;
      MarkNeverDecreases(bars, 0, i);
      StopLevelMonotone(bars[0].high, MaxHigh(bars, i), p);
      ReturnMonotone(bars[0].close, StopLevel(bars[0].high, p), StopLevel(MaxHigh(bars, i), p));
    }
  }

  lemma ReturnMonotone(entry: Price, a: real, b: real)
    requires a <= b
    ensures ReturnOn(entry, a) <= ReturnOn(entry, b)
  {
    DivMonotone(a - entry, b - entry, entry);
  }

  lemma DivMonotone(a: real, b: real, d: real)
    requires a <= b && d > 0.0
    ensures a / d <= b / d
  {}

  /** A one-bar series has no bar after the entry, so the trade is held and
      its return is exactly zero. */
  lemma OneBarReturnsZero(bars: seq<Bar>, p: int)
    requires |bars| == 1
    ensures TradeExit(bars, p) == Held(bars[0].close)
    ensures TradeReturn(bars, p) == 0.0
  {}

  /** A bar whose high lifts the mark and whose low is at or below the stop
      computed from that new mark exits on that same bar. */
  lemma SameBarUpdateThenCheck(bars: seq<Bar>, p: int, i: nat)
    requires 1 <= i < |bars|
    requires forall j :: 1 <= j < i ==> !StopsAt(bars, p, j)
    requires bars[i].high > MaxHigh(bars, i - 1)
    requires bars[i].low <= StopLevel(bars[i].high, p)
    ensures TradeExit(bars, p) == StoppedOut(i, StopLevel(bars[i].high, p))
  {
    assert MaxHigh(bars, i) == bars[i].high;
    assert StopsAt(bars, p, i);
  }

  /** The mark after bar `i` depends only on bars 0..i. */
  lemma {:induction false} MaxHighOfPrefix(bars: seq<Bar>, other: seq<Bar>, i: nat)
    requires i < |bars| && i < |other|
    requires forall k :: 0 <= k <= i ==> other[k] == bars[k]
    ensures MaxHigh(other, i) == MaxHigh(bars, i)
  {
    if i > 0 {
      MaxHighOfPrefix(bars, other, i - 1);
    }
  }

  /** Once a trade is stopped out at bar `i`, no later bar is examined: any
      series that agrees on bars 0..i exits the same way with the same return. */
  lemma LaterBarsIgnoredAfterExit(bars: seq<Bar>, other: seq<Bar>, p: int)
    requires |bars| > 0 && TradeExit(bars, p).StoppedOut?
    requires TradeExit(bars, p).bar < |other|
    requires forall k :: 0 <= k <= TradeExit(bars, p).bar ==> other[k] == bars[k]
    ensures TradeExit(other, p) == TradeExit(bars, p)
    ensures TradeReturn(other, p) == TradeReturn(bars, p)
  {
    var i := TradeExit(bars, p).bar;
    forall j | 1 <= j <= i
      ensures StopsAt(other, p, j) == StopsAt(bars, p, j)
    {
      MaxHighOfPrefix(bars, other, j);
    }
    var e := TradeExit(other, p);
    assert StopsAt(other, p, i);
    if e.StoppedOut? {
      assert e.bar == i;
      MaxHighOfPrefix(bars, other, i);
    }
  }

  /** `f` preserves the order of prices. */
  ghost predicate StrictlyIncreasing(f: real -> real) {
    forall x, y :: f(x) > f(y) <==> x > y
  }

  /** `s` is `bars` with `f` applied to every price. */
  ghost predicate MappedBy(bars: seq<Bar>, s: seq<Bar>, f: real -> real) {
    |s| == |bars| &&
    forall k :: 0 <= k < |bars| ==>
      s[k].close == f(bars[k].close) && s[k].high == f(bars[k].high) && s[k].low == f(bars[k].low)
  }

  /** `f` maps the stop level of every mark of `bars` to the stop level of
      the mapped mark. */
  ghost predicate CommutesWithStop(bars: seq<Bar>, f: real -> real, p: int) {
    forall i :: 0 <= i < |bars| ==> f(StopLevel(MaxHigh(bars, i), p)) == StopLevel(f(MaxHigh(bars, i)), p)
  }

  lemma MaxHighStep(bars: seq<Bar>, i: nat)
    requires 0 < i < |bars|
    ensures MaxHigh(bars, i) == if bars[i].high > MaxHigh(bars, i - 1) then bars[i].high else MaxHigh(bars, i - 1)
  {}

  /** The mark commutes with any strictly increasing map applied to every
      price: transforming the highs transforms the mark the same way. */
  lemma {:induction false} MaxHighCommutes(bars: seq<Bar>, s: seq<Bar>, f: real -> real, i: nat)
    requires i < |bars| && MappedBy(bars, s, f) && StrictlyIncreasing(f)
    ensures MaxHigh(s, i) == f(MaxHigh(bars, i))
  {
    if i > 0 {
      MaxHighCommutes(bars, s, f, i - 1);
      MaxHighStep(bars, i);
      MaxHighStep(s, i);
      LargerCommutes(bars[i].high, MaxHigh(bars, i - 1), f);
    }
  }

  /** Taking the larger of two prices commutes with a strictly increasing map. */
  lemma LargerCommutes(a: real, m: real, f: real -> real)
    requires StrictlyIncreasing(f)
    ensures (if f(a) > f(m) then f(a) else f(m)) == f(if a > m then a else m)
  {}

  /** Whether a bar triggers is unchanged by a strictly increasing map of the
      prices that commutes with taking the stop level. */
  lemma StopsAtMapped(bars: seq<Bar>, s: seq<Bar>, f: real -> real, p: int, i: int)
    requires MappedBy(bars, s, f) && StrictlyIncreasing(f)
    requires CommutesWithStop(bars, f, p)
    ensures StopsAt(s, p, i) == StopsAt(bars, p, i)
  {
    if 1 <= i < |bars| {
      var m := MaxHigh(bars, i);
      MaxHighCommutes(bars, s, f, i);
      assert StopLevel(MaxHigh(s, i), p) == f(StopLevel(m, p));
      assert (f(bars[i].low) > f(StopLevel(m, p))) == (bars[i].low > StopLevel(m, p));
    }
  }

  /** Such a map leaves the kind of exit and the exit bar unchanged and maps
      the exit price. */
  lemma ExitMapped(bars: seq<Bar>, s: seq<Bar>, f: real -> real, p: int)
    requires |bars| > 0 && MappedBy(bars, s, f) && StrictlyIncreasing(f)
    requires CommutesWithStop(bars, f, p)
    ensures TradeExit(s, p).StoppedOut? == TradeExit(bars, p).StoppedOut?
    ensures TradeExit(bars, p).StoppedOut? ==> TradeExit(s, p).bar == TradeExit(bars, p).bar
    ensures TradeExit(s, p).price == f(TradeExit(bars, p).price)
  {
    forall j ensures StopsAt(s, p, j) == StopsAt(bars, p, j) {
      StopsAtMapped(bars, s, f, p, j);
    }
    var e, es := TradeExit(bars, p), TradeExit(s, p);
    if e.StoppedOut? {
      assert es.StoppedOut? && es.bar == e.bar;
      MaxHighCommutes(bars, s, f, e.bar);
    } else {
      assert es.Held?;
    }
  }

  /** `f` keeps the return of every exit price relative to `entry`. */
  ghost predicate PreservesReturns(f: real -> real, entry: Price) {
    forall x :: f(entry) > 0.0 && ReturnOn(f(entry), f(x)) == ReturnOn(entry, x)
  }

  /** The return of a trade is unchanged by a strictly increasing map of all
      prices that commutes with the stop level and keeps returns. */
  lemma ReturnMapped(bars: seq<Bar>, s: seq<Bar>, f: real -> real, p: int)
    requires |bars| > 0 && MappedBy(bars, s, f) && StrictlyIncreasing(f)
    requires CommutesWithStop(bars, f, p) && PreservesReturns(f, bars[0].close)
    ensures TradeReturn(s, p) == TradeReturn(bars, p)
  {
    ExitMapped(bars, s, f, p);
    assert ReturnOn(f(bars[0].close), f(TradeExit(bars, p).price)) == TradeReturn(bars, p);
  }

  /** Multiplication by the positive factor `c`. */
  function Times(c: Price): real -> real {
    x => c * x
  }

  lemma TimesIsIncreasing(c: Price)
    ensures StrictlyIncreasing(Times(c))
  {
    forall x, y ensures Times(c)(x) > Times(c)(y) <==> x > y {
      ScaledOrder(c, x, y);
    }
  }

  lemma ScaledOrder(c: Price, x: real, y: real)
    ensures (c * x > c * y) == (x > y)
  {}

  lemma TimesCommutesWithStop(bars: seq<Bar>, c: Price, p: int)
    ensures CommutesWithStop(bars, Times(c), p)
  {
    forall i | 0 <= i < |bars|
      ensures Times(c)(StopLevel(MaxHigh(bars, i), p)) == StopLevel(Times(c)(MaxHigh(bars, i)), p)
    {
      TimesStop(MaxHigh(bars, i), c, p);
    }
  }

  /** Scaling by `c` commutes with taking the stop level of one mark. */
  lemma TimesStop(m: real, c: Price, p: int)
    ensures Times(c)(StopLevel(m, p)) == StopLevel(Times(c)(m), p)
  {
    StopLevelScales(m, c, p);
  }

  lemma StopLevelScales(m: real, c: Price, p: int)
    ensures c * StopLevel(m, p) == StopLevel(c * m, p)
  {}

  lemma TimesPreservesReturns(c: Price, entry: Price)
    ensures PreservesReturns(Times(c), entry)
  {
    forall x ensures Times(c)(entry) > 0.0 && ReturnOn(Times(c)(entry), Times(c)(x)) == ReturnOn(entry, x) {
      ScaledReturn(entry, x, c);
    }
  }

  lemma ScaledReturn(entry: Price, exit: real, c: Price)
    ensures c * entry > 0.0
    ensures ReturnOn(c * entry, c * exit) == ReturnOn(entry, exit)
  {
    assert c * exit - c * entry == c * (exit - entry);
  }

  lemma ScaleMapsByTimes(bars: seq<Bar>, c: Price)
    ensures MappedBy(bars, Scale(bars, c), Times(c))
  {}

  /** Multiplying every price by a positive constant leaves the return of the
      trade unchanged. */
  lemma ScaleInvariance(bars: seq<Bar>, c: Price, p: int)
    requires |bars| > 0
    ensures TradeReturn(Scale(bars, c), p) == TradeReturn(bars, p)
  {
    ScaleMapsByTimes(bars, c);
    TimesIsIncreasing(c);
    TimesCommutesWithStop(bars, c, p);
    TimesPreservesReturns(c, bars[0].close);
    ReturnMapped(bars, Scale(bars, c), Times(c), p);
  }

  /** Five bars with highs 10, 12, 11, 9, 8 and lows 9, 11, 10, 7, 7,
      entered at a close of 10. */
  function ExampleBars(): seq<Bar> {
    [Bar(1, 10.0, 10.0, 9.0), Bar(2, 11.5, 12.0, 11.0), Bar(3, 10.5, 11.0, 10.0),
     Bar(4, 8.0, 9.0, 7.0), Bar(5, 7.5, 8.0, 7.0)]
  }

  /** With a 20 percent stop the mark goes 10 to 12 and stays there; the stop
      level 9.6 is first reached on bar 3, a return of -4 percent. */
  lemma ExampleTwentyPercent()
    ensures TradeExit(ExampleBars(), 20) == StoppedOut(3, 9.6)
    ensures TradeReturn(ExampleBars(), 20) == -0.04
  {
    var b := ExampleBars();
    assert MaxHigh(b, 1) == 12.0;
    assert MaxHigh(b, 2) == 12.0;
    assert MaxHigh(b, 3) == 12.0;
    assert !StopsAt(b, 20, 1) && !StopsAt(b, 20, 2) && StopsAt(b, 20, 3);
  }

  /** With a 5 percent stop, bar 1 lifts the mark to 12 and its low of 11 is
      already at or below the new stop of 11.4: the trade exits on that same
      bar for a return of 14 percent. */
  lemma ExampleFivePercent()
    ensures TradeExit(ExampleBars(), 5) == StoppedOut(1, 11.4)
    ensures TradeReturn(ExampleBars(), 5) == 0.14
  {
    var b := ExampleBars();
    assert MaxHigh(b, 1) == 12.0;
    assert StopsAt(b, 5, 1);
  }
}
