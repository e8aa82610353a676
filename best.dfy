/** The scan for the transmitter with the highest success percentage. */
module BestTransmitter {
  import opened Records

  /** What the scan keeps: the best record so far and its percentage, starting
      from no record and the sentinel -1.0, and moving only to a strictly
      greater percentage. */
  function Best(txs: seq<Transmitter>): (r: (Option<Transmitter>, real))
    ensures r.0.None? ==> r.1 == -1.0
    ensures r.0.Some? ==> r.0.value in txs && SuccessPercentage(r.0.value) == r.1 && r.1 > -1.0
  {
    if txs == [] then (None, -1.0)
    else
      var prev := Best(DropLast(txs));
      var p := SuccessPercentage(Last(txs));
      if p > prev.1 then (Some(Last(txs)), p) else prev
  }

  /** The single left-to-right pass over the records. */
  method FindBestTransmitter(txs: seq<Transmitter>) returns (bestTx: Option<Transmitter>, bestPercentage: real)
    ensures (bestTx, bestPercentage) == Best(txs)
  {
    bestTx := None;
    bestPercentage := -1.0;
    for i := 0 to |txs|
      invariant (bestTx, bestPercentage) == Best(txs[..i])
    {
      assert DropLast(txs[..i + 1]) == txs[..i] && Last(txs[..i + 1]) == txs[i];
      var percentage := SuccessPercentage(txs[i]);
      if percentage > bestPercentage {
        bestPercentage := percentage;
        bestTx := Some(txs[i]);
      }
    }
    assert txs[..|txs|] == txs;
  }

  /** The reported percentage is at least every record's percentage. */
  lemma {:induction false} BestIsMaximum(txs: seq<Transmitter>, j: nat)
    requires j < |txs|
    ensures SuccessPercentage(txs[j]) <= Best(txs).1
  {
    if j < |txs| - 1 {
      BestIsMaximum(DropLast(txs), j);
    }
  }

  /** The record returned is the earliest one with the greatest percentage: a
      later record with the same percentage does not replace it. */
  lemma {:induction false} BestIsFirstMaximum(txs: seq<Transmitter>, i: nat)
    requires i < |txs|
    requires SuccessPercentage(txs[i]) > -1.0
    requires forall j :: 0 <= j < |txs| ==> SuccessPercentage(txs[j]) <= SuccessPercentage(txs[i])
    requires forall j :: 0 <= j < i ==> SuccessPercentage(txs[j]) < SuccessPercentage(txs[i])
    ensures Best(txs) == (Some(txs[i]), SuccessPercentage(txs[i]))
  {
    var prefix := DropLast(txs);
    var prev := Best(prefix);
    assert forall j :: 0 <= j < |prefix| ==> prefix[j] == txs[j];
    if i < |txs| - 1 {
      BestIsFirstMaximum(prefix, i);
    } else if prev.0.Some? {
      var j :| 0 <= j < |prefix| && prefix[j] == prev.0.value;
      assert prev.1 < SuccessPercentage(txs[i]);
    }
  }

  /** No record is found exactly when every percentage is at most the sentinel,
      which cannot happen for a non-empty list with non-negative counts. */
  lemma BestNoneIff(txs: seq<Transmitter>)
    ensures Best(txs).0.None? <==> forall j :: 0 <= j < |txs| ==> SuccessPercentage(txs[j]) <= -1.0
    ensures txs != [] && AllCountsNonNegative(txs) ==> Best(txs).0.Some? && Best(txs).1 >= 0.0
  {
    var r := Best(txs);
    if r.0.None? {
      forall j | 0 <= j < |txs| ensures SuccessPercentage(txs[j]) <= -1.0 {
        BestIsMaximum(txs, j);
      }
    } else {
      var k :| 0 <= k < |txs| && txs[k] == r.0.value;
    }
    if txs != [] && AllCountsNonNegative(txs) {
      BestIsMaximum(txs, 0);
    }
  }

  /** Two records at 50 percent each: the first is returned. */
  lemma EqualPercentagesKeepFirst()
    ensures
      var first := Transmitter(7, "S", "first", "", "", "", Some(Stat(Some(4), Some(2))));
      var second := Transmitter(7, "S", "second", "", "", "", Some(Stat(Some(10), Some(5))));
      Best([first, second]) == (Some(first), 50.0)
  {
    var first := Transmitter(7, "S", "first", "", "", "", Some(Stat(Some(4), Some(2))));
    var second := Transmitter(7, "S", "second", "", "", "", Some(Stat(Some(10), Some(5))));
    assert DropLast([first, second]) == [first];
    assert DropLast([first]) == [];
    assert SuccessPercentage(first) == 50.0 && SuccessPercentage(second) == 50.0;
  }
}
