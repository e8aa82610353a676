/** Transmitter records as the listing endpoint returns them, and the success
    percentage derived from their observation statistics. */
module Records {

  datatype Option<+T> = None | Some(value: T)

  /** All but the last element. The scans of modules `Satellites` (`Filter`,
      `Norads`, `Select`) and `BestTransmitter` (`Best`) are specified element
      by element from the end, so that a loop's prefix `s[..i]` unfolds
      directly. */
  function DropLast<T>(s: seq<T>): seq<T>
    requires |s| > 0
  {
    s[..|s| - 1]
  }

  function Last<T>(s: seq<T>): T
    requires |s| > 0
  {
    s[|s| - 1]
  }

  /** The nested `stat` object of a record; either count may be absent. */
  datatype Stat = Stat(totalCount: Option<int>, goodCount: Option<int>)

  /** One transmitter record. `kind` holds the record's `type` field. */
  datatype Transmitter = Transmitter(
    satelliteNorad: int,
    satelliteName: string,
    uuid: string,
    description: string,
    kind: string,
    status: string,
    stat: Option<Stat>)

  /** `total_count` of the record, 0 when `stat` or the count is missing. */
  function TotalCount(tx: Transmitter): int {
    match tx.stat
    case None => 0
    case Some(s) => match s.totalCount case None => 0 case Some(n) => n
  }

  /** `good_count` of the record, 0 when `stat` or the count is missing. */
  function GoodCount(tx: Transmitter): int {
    match tx.stat
    case None => 0
    case Some(s) => match s.goodCount case None => 0 case Some(n) => n
  }

  predicate CountsNonNegative(tx: Transmitter) {
    TotalCount(tx) >= 0 && GoodCount(tx) >= 0
  }

  predicate AllCountsNonNegative(txs: seq<Transmitter>) {
    forall i :: 0 <= i < |txs| ==> CountsNonNegative(txs[i])
  }

  /** Share of good observations in percent, computed exactly; a record with
      no observations scores 0, so no division by zero can occur. */
  function SuccessPercentage(tx: Transmitter): (p: real)
    ensures TotalCount(tx) == 0 ==> p == 0.0
    ensures CountsNonNegative(tx) ==> p >= 0.0
    ensures CountsNonNegative(tx) && GoodCount(tx) <= TotalCount(tx) ==> p <= 100.0
    ensures TotalCount(tx) != 0 ==> p * (TotalCount(tx) as real) == 100.0 * (GoodCount(tx) as real)
  {
    var total := TotalCount(tx);
    var good := GoodCount(tx);
    if total == 0 then 0.0 else (good as real / total as real) * 100.0
  }

  /** Three sample records: one with `stat = {total_count: 0}`, one with seven
      good observations out of ten, and one without `stat`. */
  lemma SuccessPercentageExamples()
    ensures SuccessPercentage(Transmitter(1, "S", "u", "", "", "", Some(Stat(Some(0), None)))) == 0.0
    ensures SuccessPercentage(Transmitter(1, "S", "u", "", "", "", Some(Stat(Some(10), Some(7))))) == 70.0
    ensures SuccessPercentage(Transmitter(1, "S", "u", "", "", "", None)) == 0.0
  {
  }
}
