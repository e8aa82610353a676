/** The program's main flow: fetch every record, find the busiest satellite,
    keep that satellite's records and find its best transmitter. */
module Program {
  import opened Records
  import opened Fetcher
  import opened Satellites
  import opened BestTransmitter

  /** What the program has to report once the records are in. */
  datatype Report =
    | NoTransmitters
    | NoSatellite
    | Satellite(norad: int, name: Option<string>, count: nat, best: Option<Transmitter>, successRate: real)

  /** A run either aborts on a failed fetch or finishes with a report. */
  datatype Outcome = Aborted | Finished(report: Report)

  /** The report for a fetched list of records: no data exactly for the empty
      list, and for a satellite its record count and the best of its records. */
  function Analysis(txs: seq<Transmitter>): (r: Report)
    ensures r.NoTransmitters? <==> txs == []
    ensures r.Satellite? ==> r.count == |Filter(txs, r.norad)| && r.count >= 1
    ensures r.Satellite? ==> r.best.None? ==> r.successRate == -1.0
    ensures r.Satellite? && r.best.Some? ==> r.best.value in Filter(txs, r.norad) && r.successRate == SuccessPercentage(r.best.value)
  {
    if txs == [] then NoTransmitters
    else
      var agg := Busiest(txs);
      if agg.norad.None? then NoSatellite
      else
        var best := Best(Filter(txs, agg.norad.value));
        Satellite(agg.norad.value, agg.name, agg.count, best.0, best.1)
  }

  /** One run of the program against the endpoint's answers. */
  method RunProgram(responses: seq<Response>) returns (outcome: Outcome)
    ensures Fetch(responses).Failed? ==> outcome == Aborted
    ensures Fetch(responses).Fetched? ==> outcome == Finished(Analysis(Fetch(responses).records))
  {
    var fetched, _ := FetchAllTransmitters(responses);
    if fetched.Failed? {
      return Aborted;
    }
    var transmitters := fetched.records;
    if transmitters == [] {
      return Finished(NoTransmitters);
    }
    var noradId, name, count := FindMaxTransmittersSatellite(transmitters);
    if noradId.None? {
      return Finished(NoSatellite);
    }
    var satelliteTxs := Filter(transmitters, noradId.value);
    var bestTx, successRate := FindBestTransmitter(satelliteTxs);
    return Finished(Satellite(noradId.value, name, count, bestTx, successRate));
  }

  /** Records were fetched, so a satellite is always found; its count is the
      number of its records, which is at least one, and no satellite has more. */
  lemma AnalysisFindsSatellite(txs: seq<Transmitter>)
    requires txs != []
    ensures Analysis(txs).Satellite?
    ensures Filter(txs, Analysis(txs).norad) != []
    ensures Analysis(txs).count == |Filter(txs, Analysis(txs).norad)|
    ensures forall other :: |Filter(txs, other)| <= Analysis(txs).count
  {
    BusiestEmptyIff(txs);
    var agg := Busiest(txs);
    BusiestIsMaximal(txs, agg.norad.value);
    forall other ensures |Filter(txs, other)| <= Analysis(txs).count {
      BusiestIsMaximal(txs, other);
    }
  }

  /** With non-negative counts a best transmitter is always reported: it is a
      record of the chosen satellite, its percentage is the reported rate, and
      no record of that satellite has a higher percentage. */
  lemma AnalysisFindsBestTransmitter(txs: seq<Transmitter>)
    requires txs != []
    requires AllCountsNonNegative(txs)
    ensures Analysis(txs).Satellite? && Analysis(txs).best.Some?
    ensures Analysis(txs).best.value in txs
    ensures Analysis(txs).best.value.satelliteNorad == Analysis(txs).norad
    ensures Analysis(txs).successRate == SuccessPercentage(Analysis(txs).best.value) >= 0.0
    ensures forall k :: 0 <= k < |txs| && txs[k].satelliteNorad == Analysis(txs).norad ==>
      SuccessPercentage(txs[k]) <= Analysis(txs).successRate
  {
    AnalysisFindsSatellite(txs);
    var norad := Analysis(txs).norad;
    var group := Filter(txs, norad);
    forall j | 0 <= j < |group| ensures CountsNonNegative(group[j]) {
      FilterContains(txs, norad, group[j]);
    }
    BestNoneIff(group);
    FilterContains(txs, norad, Best(group).0.value);
    forall k | 0 <= k < |txs| && txs[k].satelliteNorad == norad
      ensures SuccessPercentage(txs[k]) <= Analysis(txs).successRate
    {
      FilterContains(txs, norad, txs[k]);
      var j := IndexOf(group, txs[k]);
      BestIsMaximum(group, j);
    }
  }
}
