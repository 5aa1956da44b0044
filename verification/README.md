# Trailing-stop backtest, modelled in Dafny

`app.py` is a small Streamlit app. It reads a daily price history (date,
close, high and low) and backtests a trailing stop-loss on it. A trade is
opened every 20 bars. Each trade is bought at the entry bar's close and
followed bar by bar. A high-water mark starts at the entry bar's high and
rises with every higher high. The stop sits a fixed percent below the mark.
The trade is sold at the stop level on the first later bar whose low reaches
it, or valued at the last close if no bar does. For every stop-loss from 5%
to 50% the app averages the returns of all trades and counts the share of
winners, and it recommends the stop-loss with the highest average return.

The model has five modules:

- `Prices` (`prices.dfy`): the cleaned price series. Prices are positive
  reals. A cleaned series is sorted by date; that is a precondition of the
  sweep.
- `TrailingStop` (`trailing_stop.dfy`): the replay of one trade.
  - `RunSimulation` is the imperative loop of `run_simulation`. It is proved
    equal to the specification function `TradeReturn`.
  - `TradeReturn` is defined by the first bar that triggers the stop
    (`TradeExit`, `FirstExit`).
  - Lemmas state the properties of the mark, the stop and the exit.
- `EntrySchedule` (`entry_schedule.dfy`): where trades are opened, and why
  every simulated suffix is long enough.
- `StopLossSweep` (`sweep.dfy`): the two nested loops over stop-loss percents
  and entries.
  - `Sweep` is proved equal to the specification function `SweepRows`.
  - Lemmas cover the mean, the win rate and the shape of the table.
- `Selection` (`selection.dfy`): `idxmax`, the first row with the highest
  average return. A lemma ties it back to the sweep.

A stop-loss is modelled as an integer percent `p`. The fraction it stands
for is `p / 100` (`Fraction`), and the swept grid is `p = 5, 6, ..., 50`.
These are the 46 values of `np.arange(0.05, 0.51, 0.01)`.

Two worked trades on a five-bar series (`ExampleBars`) pin the rules down.
With the 5% stop the trade exits on bar 1: that bar's high of 12 raises the
stop to 11.4, and its low of 11 is already below it, so the return is 14%.
With the 20% stop the trade exits on bar 3 at 9.6, a return of -4%.

## Model

| member | source | states |
|---|---|---|
| Prices.DatesSorted | app.py:35 | The order that sorting by date produces, duplicates allowed: each bar's date is at least the one before it, and a series of at most one bar is sorted |
| TrailingStop.Fraction | app.py:62 | The swept stop-loss value read as percent `p` over 100: the fraction times 100 is `p`, and it lies in [0, 1] for a percent in 0..100 |
| TrailingStop.ReturnOn | app.py:54-56 | The relative return `(exit - entry) / entry`: positive exactly when the exit is above the entry, and zero when they are equal |
| TrailingStop.StopsAt | app.py:48-53 | The exit test: bar `i` after the entry triggers when its low is at or below the stop level of the mark raised by its own high; only bars after the entry trigger, and for 0..100% only a bar whose low is at or below the mark |
| TrailingStop.RunSimulation | app.py:40-56 | The replay loop returns exactly `TradeReturn`: the return at the stop level of the first bar (from bar 1 on) whose low is at or below the stop of the mark raised by that bar, else the return at the last close |
| TrailingStop.StopLevel | app.py:51 | For a mark of at least zero and a stop-loss between 0% and 100%, the stop level lies between zero and the mark |
| TrailingStop.MaxHigh | app.py:42-49 | The high-water mark is a positive price (its value as the highest high so far is stated by `MaxHighIsHighest`) |
| TrailingStop.MaxHighIsHighest | app.py:42-49 | The mark after bar `i` is at least the high of every bar 0..i and equals one of them |
| TrailingStop.FirstExit | app.py:44-54 | The exit found is the first bar from `from` on that triggers the stop; `None` means no such bar triggers |
| TrailingStop.TradeExit | app.py:44-56 | A stop-out happens on a triggering bar, with no earlier bar triggering, at that bar's stop price; the trade is held exactly when no bar after the entry triggers, and is then valued at the last close |
| TrailingStop.TradeReturn | app.py:41-56 | A held trade returns the last close relative to the entry close; a stopped-out trade returns the stop level of the mark at its exit bar relative to the entry close |
| TrailingStop.TradeReturnCases | app.py:53-56 | The return is measured at the stop level of the first triggering bar, or at the last close when none triggers |
| TrailingStop.MarkNeverDecreases | app.py:42-49 | The mark never goes down and never falls below the entry bar's high |
| TrailingStop.StopNeverRatchetsDown | app.py:47-51 | For a stop-loss of at most 100% the stop level never moves down from bar to bar, and for a non-negative one it stays at or below the mark |
| TrailingStop.NoStopOutAbove100 | app.py:51-54 | A stop-loss above 100% gives a negative stop that no positive low can reach, so the trade is held |
| TrailingStop.StopOutReturnLowerBound | app.py:41-54 | A stopped-out trade returns at least what a stop at the entry bar's high less `p` percent would return |
| TrailingStop.OneBarReturnsZero | app.py:44-56 | A one-bar trade is held and returns exactly 0 |
| TrailingStop.SameBarUpdateThenCheck | app.py:48-54 | The mark is raised before the low is checked: a bar that sets a new high and has a low at or below the stop of that new high exits on that bar |
| TrailingStop.LaterBarsIgnoredAfterExit | app.py:53-54 | After a stop-out at bar `i`, bars after `i` do not affect the exit or the return |
| TrailingStop.MaxHighCommutes | app.py:42-49 | An order-preserving map of all prices maps the mark after every bar to the mark of the mapped series |
| TrailingStop.ExitMapped | app.py:44-56 | A price map that preserves order and commutes with the stop gives the same exit bar, with the mapped exit price |
| TrailingStop.ReturnMapped | app.py:40-56 | Such a map, when it also preserves returns, leaves the trade's return unchanged |
| TrailingStop.ScaleInvariance | app.py:40-56 | Multiplying every price by a positive constant leaves every trade's return unchanged |
| TrailingStop.ExampleTwentyPercent | app.py:40-56 | On the five-bar example the 20% stop exits on bar 3 at 9.6, a return of -4% |
| TrailingStop.ExampleFivePercent | app.py:40-56 | On the same example the 5% stop exits on bar 1 at 11.4, a return of 14% |
| EntrySchedule.Range | app.py:67 | The counting range with step 20 holds exactly the values `start + 20k` below `stop`, strictly increasing, and is empty exactly when `stop <= start` |
| EntrySchedule.EntryPoints | app.py:66-67 | The entries are exactly the multiples of 20 below `n - 20`, in increasing order, and there are none exactly when `n <= 20` |
| EntrySchedule.EntrySuffixLongEnough | app.py:78-80 | The suffix from every entry has more than 20 bars, so it always passes the more-than-5-bars check |
| StopLossSweep.Sum | app.py:85 | The sum inside the mean, added from the front: zero for no returns, and the return itself for a single one |
| StopLossSweep.Mean | app.py:85 | The mean times the number of returns is their sum, and the mean of a single return is that return |
| StopLossSweep.CountPositive | app.py:86 | The number of winning trades is at most the number of trades |
| StopLossSweep.CountPositiveExtremes | app.py:86 | The count of winning trades equals the trade count exactly when all win, and is 0 exactly when none do |
| StopLossSweep.WinRate | app.py:86 | The win rate lies in [0, 1] |
| StopLossSweep.WinRateExtremes | app.py:86 | The win rate is 1 exactly when every trade gains and 0 exactly when none does |
| StopLossSweep.SumBounds | app.py:85 | Returns bounded by `lo` and `hi` sum to between `n * lo` and `n * hi` |
| StopLossSweep.MeanBounds | app.py:85 | The mean of returns lying in [lo, hi] lies in [lo, hi] |
| StopLossSweep.ReturnsOver | app.py:77-82 | At most one return per entry, and exactly one per entry when every suffix has more than 5 bars |
| StopLossSweep.ReturnsOverAreTrades | app.py:78-82 | With every suffix long enough, return `i` is the trade return on the suffix from entry `i` |
| StopLossSweep.ReturnsOverStep | app.py:77-82 | One more entry appends its trade's return when its suffix has more than 5 bars, and appends nothing otherwise |
| StopLossSweep.EntryReturns | app.py:77-82 | A stop-loss percent yields one return per scheduled entry |
| StopLossSweep.EntryReturnsAreTrades | app.py:78-82 | Return `i` of a percent is the trade return on the suffix from entry `i` |
| StopLossSweep.RowFor | app.py:84-87 | A percent gives at most one row; it gives one exactly when it has a trade, labelled with the percent and holding the mean return and the win rate of its trades |
| StopLossSweep.SweepRows | app.py:71-87 | Every row's stop-loss lies in the swept range |
| StopLossSweep.SweepRowsAscending | app.py:71-87 | The rows come in strictly increasing stop-loss order |
| StopLossSweep.SweepRowContents | app.py:84-87 | A row exists only for a percent with at least one trade, and it holds that percent's mean return and win rate |
| StopLossSweep.Sweep | app.py:62-87 | The nested sweep loops produce exactly `SweepRows` over the percents 5..50 |
| StopLossSweep.NoRowsForShortSeries | app.py:66-84 | A series of at most 20 bars has no entry and gives an empty table |
| StopLossSweep.OneRowPerPercent | app.py:71-87 | A series of more than 20 bars gives exactly one row per percent, row `k` for percent `lo + k` |
| StopLossSweep.Labelled | app.py:84-87 | Appending the row of the next percent keeps the one-row-per-percent labelling |
| StopLossSweep.RowForLongSeries | app.py:78-87 | On a series of more than 20 bars every percent has trades and exactly one row |
| StopLossSweep.RowMeanBetweenTrades | app.py:85 | Each row's average return lies between the worst and the best of its trades |
| Selection.BestIndex | app.py:93-94 | No index for an empty table; otherwise an index whose average return is at least every row's, with strictly smaller averages before it (the first maximum) |
| Selection.BestRow | app.py:93-94 | No row for an empty table; otherwise a row of the table with the highest average return, and the first such row on a tie, as the row lookup of `idxmax` picks |
| Selection.BestIndexUnique | app.py:94 | Any first maximal index is the one chosen, so the choice is determined on ties |
| Selection.RowOfPercent | app.py:71-87 | On a series of more than 20 bars, row `p - 5` is percent `p`'s row and holds the mean of its trades |
| Selection.NoBestForShortSeries | app.py:66-93 | There is no recommendation exactly when the series has at most 20 bars |
| Selection.BestIndexOfSweep | app.py:71-94 | On a series of more than 20 bars there is a chosen index; its row's average is its own percent's mean trade return, no percent in 5..50 has a higher mean, and every smaller percent has a strictly lower one |
| Selection.BestOfSweep | app.py:71-94 | The same for the recommended row itself: it exists on a series of more than 20 bars, its average return is its own percent's mean, no percent in 5..50 has a higher mean, and every smaller percent has a strictly lower one |
| Selection.ExampleChoice | app.py:94 | On a hand-built table with average returns 14% and -4%, the 14% row is chosen |
| Selection.ExampleTie | app.py:94 | On a tie the earlier row, with the smaller stop-loss, is chosen |
| Selection.ExampleTieRow | app.py:94 | Of two rows with equal average return, the recommended row is the first |

## Left out

- The Streamlit page is not modelled: file upload, headings, metrics, the progress bar and status text, the chart and the error message.
- Reading the input file is not modelled: reading the Excel or CSV file without a header row and taking columns 1, 2, 4 and 5 by position, the at-least-six-columns check, numeric and date coercion, dropping incomplete rows and sorting. The model starts from the cleaned series, which is assumed sorted by date.
- A cleaned series that is empty makes the app fail at line 37 before any backtest. This is not modelled, because it happens in the display code.
- Zero or negative prices are excluded by the `Price` type, as meaningless for a traded price. In the source only a zero entry close would divide by zero; other non-positive prices would still give finite returns, which the model does not cover.
- Floating point is not modelled. Prices and returns are exact reals, and the stop-loss grid is the integers 5..50 read as percents, not binary fractions.
- The dates are read only by the sortedness precondition `DatesSorted`; they play no part in the simulation, and the exit date is not returned, as in the source.
- TrailingStop.MaxHigh: its own contract states only that the mark is positive. That it is the highest high of bars 0..i is stated by `MaxHighIsHighest`.
- StopLossSweep.SweepRows: its own contract states only the range of the stop-losses. Row order and row contents are stated by `SweepRowsAscending` and `SweepRowContents`.
