/** Where the backtest opens its trades: a buy every `StepSize` bars from
    the first bar on, stopping `StepSize` bars before the end of the data. */
module EntrySchedule {

  /** Bars between two entries. */
  const StepSize: nat := 20

  /** A trade is simulated only on a suffix longer than this many bars. */
  const MinTradeBars: nat := 5

  /** The integers `start, start + StepSize, ...` below `stop`, in order:
      the sequence a counting range with step `StepSize` produces. */
  function Range(start: nat, stop: int): (r: seq<nat>)
    ensures forall k :: k in r <==> start <= k < stop && (k - start) % StepSize == 0
    ensures forall i, j :: 0 <= i < j < |r| ==> r[i] < r[j]
    ensures |r| == 0 <==> stop <= start
    decreases stop - start
  {
    if stop <= start then []
    else
      var rest := Range(start + StepSize, stop);
      assert forall k :: k in rest ==> start < k;
      [start] + rest
  }

  /** The entry bars for a series of `n` bars. Every entry is a multiple of
      the step lying more than `StepSize` bars before the end, and every
      such multiple is an entry; the entries increase, and there are none
      when the series has at most `StepSize` bars. */
  function EntryPoints(n: nat): (starts: seq<nat>)
    ensures forall k: int :: k in starts <==> 0 <= k < n - StepSize && k % StepSize == 0
    ensures forall i, j :: 0 <= i < j < |starts| ==> starts[i] < starts[j]
    ensures starts == [] <==> n <= StepSize
  {
    Range(0, n - StepSize)
  }

  /** The suffix simulated from every entry has more than `StepSize` bars, so
      it always passes the `MinTradeBars` check. */
  lemma EntrySuffixLongEnough(n: nat, i: nat)
    requires i < |EntryPoints(n)|
    ensures n - EntryPoints(n)[i] > StepSize > MinTradeBars
  {
    assert EntryPoints(n)[i] in EntryPoints(n);
  }

  /** The same for every entry at once. */
  lemma EntrySuffixesLongEnough(n: nat)
    ensures forall i :: 0 <= i < |EntryPoints(n)| ==> n - EntryPoints(n)[i] > StepSize
  {
    forall i | 0 <= i < |EntryPoints(n)|
      ensures n - EntryPoints(n)[i] > StepSize
    {
      EntrySuffixLongEnough(n, i);
    }
  }
}
