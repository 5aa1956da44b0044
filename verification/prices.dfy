/** Daily price bars as the backtest sees them once the uploaded file has
    been cleaned: every field present, prices positive, rows sorted by date. */
module Prices {

  /** A price is a positive real; the cleaned series never holds a missing field. */
  type Price = x: real | x > 0.0 witness 1.0

  /** One trading day. Only the four columns the backtest reads are kept:
      the date (as a day number), the close, the high and the low. */
  datatype Bar = Bar(date: int, close: Price, high: Price, low: Price)

  datatype Option<T> = None | Some(value: T)

  /** The series is sorted by date. Sorting does not remove duplicate dates,
      so the order is non-decreasing rather than strict: each bar's date is at
      least the one before it, and a series of at most one bar is sorted. */
  predicate DatesSorted(data: seq<Bar>): (sorted: bool)
    ensures sorted ==> forall i :: 0 < i < |data| ==> data[i - 1].date <= data[i].date
    ensures |data| <= 1 ==> sorted
  {
    forall i, j :: 0 <= i < j < |data| ==> data[i].date <= data[j].date
  }

  /** Every price field multiplied by the same positive factor; dates unchanged. */
  function Scale(data: seq<Bar>, c: Price): seq<Bar> {
    seq(|data|, i requires 0 <= i < |data| =>
      Bar(data[i].date, c * data[i].close, c * data[i].high, c * data[i].low))
  }
}
