/** Choosing the recommended stop-loss: the row of the results table with
    the highest average return, the first such row when several tie. */
module Selection {
  import opened Prices
  import opened EntrySchedule
  import opened StopLossSweep

  /** The index of the row with the highest average return, the earliest one
      on a tie, or `None` for an empty table. */
  function BestIndex(rows: seq<Row>): (r: Option<nat>)
    ensures r.None? <==> rows == []
    ensures r.Some? ==> r.value < |rows|
    ensures r.Some? ==> forall j :: 0 <= j < |rows| ==> rows[j].avgReturn <= rows[r.value].avgReturn
    ensures r.Some? ==> forall j :: 0 <= j < r.value ==> rows[j].avgReturn < rows[r.value].avgReturn
  {
    if rows == [] then None
    else
      var last := |rows| - 1;
      match BestIndex(rows[..last])
      case None => Some(0)
      case Some(k) =>
        assert rows[..last][k] == rows[k];
        assert forall j :: 0 <= j < last ==> rows[..last][j] == rows[j];
        if rows[last].avgReturn > rows[k].avgReturn then Some(last) else Some(k)
  }

  /** The recommended row, when the table has any: a row of the table with
      the highest average return, and on a tie the first such row. */
  function BestRow(rows: seq<Row>): (best: Option<Row>)
    ensures best.None? <==> rows == []
    ensures best.Some? ==> best.value in rows
    ensures best.Some? ==> forall row :: row in rows ==> row.avgReturn <= best.value.avgReturn
    ensures best.Some? ==>
              exists k :: (0 <= k < |rows| && rows[k] == best.value &&
                           forall j :: 0 <= j < k ==> rows[j].avgReturn < best.value.avgReturn)
  {
    match BestIndex(rows)
    case None => None
    case Some(k) => Some(rows[k])
  }

  /** The first maximal row is unique: any index holding a maximal average
      return with only strictly smaller ones before it is the chosen one. */
  lemma BestIndexUnique(rows: seq<Row>, k: nat)
    requires k < |rows|
    requires forall j :: 0 <= j < |rows| ==> rows[j].avgReturn <= rows[k].avgReturn
    requires forall j :: 0 <= j < k ==> rows[j].avgReturn < rows[k].avgReturn
    ensures BestIndex(rows) == Some(k)
  {
    var b := BestIndex(rows).value;
    assert rows[b].avgReturn == rows[k].avgReturn;
  }

  /** On a series of more than `StepSize` bars the table has one row per
      percent, and row `p - LowestStopLoss` holds the mean return of the
      trades of percent `p`. */
  lemma RowOfPercent(data: seq<Bar>, p: int)
    requires |data| > StepSize && LowestStopLoss <= p <= HighestStopLoss
    ensures var rows := SweepRows(data, LowestStopLoss, HighestStopLoss);
            |rows| == HighestStopLoss - LowestStopLoss + 1 &&
            rows[p - LowestStopLoss].stopLoss == p &&
            |EntryReturns(data, p)| > 0 &&
            rows[p - LowestStopLoss].avgReturn == Mean(EntryReturns(data, p))
  {
    var rows := SweepRows(data, LowestStopLoss, HighestStopLoss);
    OneRowPerPercent(data, LowestStopLoss, HighestStopLoss);
    SweepRowContents(data, LowestStopLoss, HighestStopLoss);
    assert rows[p - LowestStopLoss].stopLoss == p;
    assert RowFor(data, p) == [rows[p - LowestStopLoss]];
  }

  /** Without a single entry there is no recommendation, and with one there
      always is. */
  lemma NoBestForShortSeries(data: seq<Bar>)
    ensures BestIndex(SweepRows(data, LowestStopLoss, HighestStopLoss)).None? <==> |data| <= StepSize
  {
    if |data| <= StepSize {
      NoRowsForShortSeries(data, LowestStopLoss, HighestStopLoss);
    } else {
      OneRowPerPercent(data, LowestStopLoss, HighestStopLoss);
    }
  }

  /** On a series of more than `StepSize` bars the chosen index is that of
      the smallest percent in 5..50 whose mean trade return is the highest
      of all percents. */
  lemma BestIndexOfSweep(data: seq<Bar>)
    requires |data| > StepSize
    ensures var rows := SweepRows(data, LowestStopLoss, HighestStopLoss);
            BestIndex(rows).Some? &&
            var best := rows[BestIndex(rows).value];
            LowestStopLoss <= best.stopLoss <= HighestStopLoss &&
            |EntryReturns(data, best.stopLoss)| > 0 &&
            Mean(EntryReturns(data, best.stopLoss)) == best.avgReturn &&
            (forall p :: LowestStopLoss <= p <= HighestStopLoss ==>
               |EntryReturns(data, p)| > 0 && Mean(EntryReturns(data, p)) <= best.avgReturn) &&
            (forall p :: LowestStopLoss <= p < best.stopLoss ==>
               Mean(EntryReturns(data, p)) < best.avgReturn)
  {
    var rows := SweepRows(data, LowestStopLoss, HighestStopLoss);
    OneRowPerPercent(data, LowestStopLoss, HighestStopLoss);
    var b := BestIndex(rows).value;
    var best := rows[b];
    assert best.stopLoss == LowestStopLoss + b;
    RowOfPercent(data, best.stopLoss);
    forall p | LowestStopLoss <= p <= HighestStopLoss
      ensures |EntryReturns(data, p)| > 0 && Mean(EntryReturns(data, p)) <= best.avgReturn
      ensures p < best.stopLoss ==> Mean(EntryReturns(data, p)) < best.avgReturn
    {
      RowOfPercent(data, p);
      var j := p - LowestStopLoss;
      assert rows[j].avgReturn <= best.avgReturn;
      assert j < b ==> rows[j].avgReturn < best.avgReturn;
    }
  }

  /** On a series of more than `StepSize` bars the recommended row is that of
      the smallest percent in 5..50 whose mean trade return is the highest of
      all percents. */
  lemma BestOfSweep(data: seq<Bar>)
    requires |data| > StepSize
    ensures var rows := SweepRows(data, LowestStopLoss, HighestStopLoss);
            BestRow(rows).Some? &&
            var best := BestRow(rows).value;
            LowestStopLoss <= best.stopLoss <= HighestStopLoss &&
            |EntryReturns(data, best.stopLoss)| > 0 &&
            Mean(EntryReturns(data, best.stopLoss)) == best.avgReturn &&
            (forall p :: LowestStopLoss <= p <= HighestStopLoss ==>
               |EntryReturns(data, p)| > 0 && Mean(EntryReturns(data, p)) <= best.avgReturn) &&
            (forall p :: LowestStopLoss <= p < best.stopLoss ==>
               Mean(EntryReturns(data, p)) < best.avgReturn)
  {
    var rows := SweepRows(data, LowestStopLoss, HighestStopLoss);
    BestIndexOfSweep(data);
    assert BestRow(rows) == Some(rows[BestIndex(rows).value]);
  }

  /** `idxmax` on a hand-built table of two rows: the row with average
      return 0.14 is chosen over the one with -0.04. */
  lemma ExampleChoice()
    ensures BestIndex([Row(5, 0.14, 1.0), Row(20, -0.04, 0.0)]) == Some(0)
  {
    BestIndexUnique([Row(5, 0.14, 1.0), Row(20, -0.04, 0.0)], 0);
  }

  /** The recommended row on a tie is the first one. */
  lemma ExampleTieRow()
    ensures BestRow([Row(5, 0.2, 1.0), Row(6, 0.2, 0.5)]) == Some(Row(5, 0.2, 1.0))
  {
    BestIndexUnique([Row(5, 0.2, 1.0), Row(6, 0.2, 0.5)], 0);
  }

  /** On a tie the earlier, smaller stop-loss is chosen. */
  lemma ExampleTie()
    ensures BestIndex([Row(5, -0.1, 0.0), Row(6, 0.2, 1.0), Row(7, 0.2, 1.0)]) == Some(1)
  {
    BestIndexUnique([Row(5, -0.1, 0.0), Row(6, 0.2, 1.0), Row(7, 0.2, 1.0)], 1);
  }
}
