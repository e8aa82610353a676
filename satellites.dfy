/** Grouping the records by satellite and choosing the satellite with the most
    transmitters. */
module Satellites {
  import opened Records

  /** The position of the first occurrence of `x` in `s`. */
  function IndexOf<T(==)>(s: seq<T>, x: T): (i: nat)
    requires x in s
    ensures i < |s| && s[i] == x
  {
    if s[0] == x then 0 else 1 + IndexOf(s[1..], x)
  }

  /** An element of the first `k` elements is first found before position `k`. */
  lemma {:induction false} IndexOfInPrefix<T>(s: seq<T>, k: nat, x: T)
    requires k <= |s| && x in s[..k]
    ensures x in s && IndexOf(s, x) < k
  {
    if s[0] != x {
      assert s[..k][1..] == s[1..][..k - 1];
      IndexOfInPrefix(s[1..], k - 1, x);
    }
  }

  /** The records of satellite `norad`, in input order: both the group the
      grouping loop builds and the list `main` filters out of all records. */
  function Filter(txs: seq<Transmitter>, norad: int): (group: seq<Transmitter>)
    ensures |group| <= |txs|
  {
    if txs == [] then []
    else Filter(DropLast(txs), norad) + (if Last(txs).satelliteNorad == norad then [Last(txs)] else [])
  }

  /** A record is in a satellite's group exactly when it is an input record of
      that satellite. */
  lemma {:induction false} FilterContains(txs: seq<Transmitter>, norad: int, t: Transmitter)
    ensures t in Filter(txs, norad) <==> t in txs && t.satelliteNorad == norad
  {
    if txs != [] {
      FilterContains(DropLast(txs), norad, t);
      assert txs == DropLast(txs) + [Last(txs)];
    }
  }

  /** A satellite's group is empty exactly when no input record carries its id. */
  lemma {:induction false} FilterEmptyIff(txs: seq<Transmitter>, norad: int)
    ensures Filter(txs, norad) == [] <==> forall j :: 0 <= j < |txs| ==> txs[j].satelliteNorad != norad
  {
    if txs != [] {
      FilterEmptyIff(DropLast(txs), norad);
      assert forall j :: 0 <= j < |txs| - 1 ==> txs[j] == DropLast(txs)[j];
    }
  }

  /** Filtering a concatenation filters each part. */
  lemma {:induction false} FilterAppend(a: seq<Transmitter>, b: seq<Transmitter>, norad: int)
    ensures Filter(a + b, norad) == Filter(a, norad) + Filter(b, norad)
  {
    if b == [] {
      assert a + b == a;
    } else {
      assert DropLast(a + b) == a + DropLast(b);
      assert Last(a + b) == Last(b);
      FilterAppend(a, DropLast(b), norad);
    }
  }

  /** A single record is kept exactly when it belongs to the satellite. */
  lemma FilterSingle(t: Transmitter, norad: int)
    ensures Filter([t], norad) == (if t.satelliteNorad == norad then [t] else [])
  {
    assert DropLast([t]) == [];
  }

  /** The distinct NORAD ids of `txs`, each once, in the order in which the
      grouping map receives its keys. */
  function Norads(txs: seq<Transmitter>): (ids: seq<int>)
    ensures txs != [] ==> ids != []
  {
    if txs == [] then []
    else
      var ids := Norads(DropLast(txs));
      if Filter(DropLast(txs), Last(txs).satelliteNorad) != [] then ids else ids + [Last(txs).satelliteNorad]
  }

  /** The ids listed are exactly those of the input records. */
  lemma {:induction false} NoradsContains(txs: seq<Transmitter>, norad: int)
    ensures norad in Norads(txs) <==> Filter(txs, norad) != []
  {
    if txs != [] {
      NoradsContains(DropLast(txs), norad);
    }
  }

  /** The position of the first record of satellite `norad`. */
  function FirstIndex(txs: seq<Transmitter>, norad: int): (i: nat)
    requires Filter(txs, norad) != []
    ensures i < |txs| && txs[i].satelliteNorad == norad
  {
    if Filter(DropLast(txs), norad) != [] then FirstIndex(DropLast(txs), norad) else |txs| - 1
  }

  /** No record before `FirstIndex(txs, norad)` belongs to satellite `norad`. */
  lemma {:induction false} FirstIndexIsFirst(txs: seq<Transmitter>, norad: int, j: nat)
    requires Filter(txs, norad) != []
    requires j < FirstIndex(txs, norad)
    ensures txs[j].satelliteNorad != norad
  {
    if Filter(DropLast(txs), norad) != [] {
      FirstIndexIsFirst(DropLast(txs), norad, j);
    } else {
      FilterEmptyIff(DropLast(txs), norad);
      assert txs[j] == DropLast(txs)[j];
    }
  }

  /** A scan over the groups named by `ids`, in that order, that moves to a
      group only when it is strictly larger than the best so far: the chosen
      id and its group's size. */
  function Select(txs: seq<Transmitter>, ids: seq<int>): (r: (Option<int>, nat))
    ensures r.0.None? ==> r.1 == 0
    ensures r.0.Some? ==> r.0.value in ids && |Filter(txs, r.0.value)| == r.1 && r.1 > 0
  {
    if ids == [] then (None, 0)
    else
      var prev := Select(txs, DropLast(ids));
      var size := |Filter(txs, Last(ids))|;
      if size > prev.1 then (Some(Last(ids)), size) else prev
  }

  /** No group named by `ids` is larger than the size the scan reports. */
  lemma {:induction false} SelectIsMaximum(txs: seq<Transmitter>, ids: seq<int>, q: nat)
    requires q < |ids|
    ensures |Filter(txs, ids[q])| <= Select(txs, ids).1
  {
    if q < |ids| - 1 {
      SelectIsMaximum(txs, DropLast(ids), q);
    }
  }

  /** The id the scan reports comes no later in `ids` than any id whose group
      has the maximal size: a later group of equal size does not replace it. */
  lemma {:induction false} SelectIsEarliest(txs: seq<Transmitter>, ids: seq<int>, q: nat)
    requires q < |ids|
    requires Filter(txs, ids[q]) != []
    requires |Filter(txs, ids[q])| == Select(txs, ids).1
    ensures Select(txs, ids).0.Some?
    ensures Select(txs, ids).0.value in ids[..q + 1]
  {
    var prev := Select(txs, DropLast(ids));
    if q < |ids| - 1 {
      SelectIsMaximum(txs, DropLast(ids), q);
      SelectIsEarliest(txs, DropLast(ids), q);
      assert DropLast(ids)[..q + 1] == ids[..q + 1];
    } else if prev.0.Some? {
      assert prev.0.value in DropLast(ids);
      assert ids[..q + 1] == ids;
    }
  }

  /** The result of the busiest-satellite pass: the winning NORAD id, the
      reported satellite name and the winner's transmitter count. */
  datatype Aggregation = Aggregation(norad: Option<int>, name: Option<string>, count: nat)

  /** The busiest-satellite pass as the program performs it: the name is read
      from the last group the scan visited, not from the winning group. */
  function Busiest(txs: seq<Transmitter>): (r: Aggregation)
    ensures r.norad.None? ==> r == Aggregation(None, None, 0)
    ensures r.norad.Some? ==> r.norad.value in Norads(txs) && r.name.Some?
    ensures r.norad.Some? ==> r.count == |Filter(txs, r.norad.value)| && r.count >= 1
  {
    var ids := Norads(txs);
    var chosen := Select(txs, ids);
    if chosen.0.None? then Aggregation(None, None, 0)
    else
      var lastGroup := Filter(txs, Last(ids));
      Aggregation(chosen.0, Some(if lastGroup != [] then lastGroup[0].satelliteName else "Unknown"), chosen.1)
  }

  /** The grouping loop: a map from NORAD id to that satellite's records, and
      the ids in the order the map received them (a Python dict iterates its
      keys in insertion order). */
  method GroupBySatellite(txs: seq<Transmitter>)
    returns (groups: map<int, seq<Transmitter>>, order: seq<int>)
    ensures order == Norads(txs)
    ensures forall k :: k in groups <==> k in order
    ensures forall k :: k in groups ==> groups[k] == Filter(txs, k)
  {
    groups := map[];
    order := [];
    for i := 0 to |txs|
      invariant order == Norads(txs[..i])
      invariant forall k :: k in groups <==> k in order
      invariant forall k :: k in groups ==> groups[k] == Filter(txs[..i], k)
    {
      assert DropLast(txs[..i + 1]) == txs[..i] && Last(txs[..i + 1]) == txs[i];
      var norad := txs[i].satelliteNorad;
      assert forall k :: Filter(txs[..i + 1], k) == Filter(txs[..i], k) + (if norad == k then [txs[i]] else []);
      NoradsContains(txs[..i], norad);
      if norad !in groups {
        order := order + [norad];
        groups := groups[norad := []];
      }
      groups := groups[norad := groups[norad] + [txs[i]]];
    }
    assert txs[..|txs|] == txs;
  }

  /** Groups the records, then scans the groups in insertion order. */
  method FindMaxTransmittersSatellite(txs: seq<Transmitter>)
    returns (maxNorad: Option<int>, satelliteName: Option<string>, maxCount: nat)
    ensures Aggregation(maxNorad, satelliteName, maxCount) == Busiest(txs)
  {
    var groups, order := GroupBySatellite(txs);
    maxNorad := None;
    maxCount := 0;
    var lastGroup: seq<Transmitter> := [];
    for j := 0 to |order|
      invariant (maxNorad, maxCount) == Select(txs, order[..j])
      invariant j > 0 ==> lastGroup == Filter(txs, order[j - 1])
    {
      assert DropLast(order[..j + 1]) == order[..j] && Last(order[..j + 1]) == order[j];
      var group := groups[order[j]];
      if |group| > maxCount {
        maxCount := |group|;
        maxNorad := Some(order[j]);
      }
      lastGroup := group;
    }
    assert order[..|order|] == order;

    if maxNorad.None? {
      return None, None, 0;
    }
    satelliteName := Some(if lastGroup != [] then lastGroup[0].satelliteName else "Unknown");
  }

  /** The first record of a satellite's group is its first record in the input. */
  lemma {:induction false} FilterHeadIsFirst(txs: seq<Transmitter>, norad: int)
    requires Filter(txs, norad) != []
    ensures Filter(txs, norad)[0] == txs[FirstIndex(txs, norad)]
  {
    if Filter(DropLast(txs), norad) != [] {
      FilterHeadIsFirst(DropLast(txs), norad);
    }
  }

  /** The ids are listed in order of first occurrence (so each appears once). */
  lemma {:induction false} NoradsInFirstOccurrenceOrder(txs: seq<Transmitter>, p: nat, q: nat)
    requires p < q < |Norads(txs)|
    ensures Filter(txs, Norads(txs)[p]) != [] && Filter(txs, Norads(txs)[q]) != []
    ensures FirstIndex(txs, Norads(txs)[p]) < FirstIndex(txs, Norads(txs)[q])
  {
    var prefix := DropLast(txs);
    var ids := Norads(prefix);
    NoradsContains(txs, Norads(txs)[p]);
    NoradsContains(txs, Norads(txs)[q]);
    NoradsContains(prefix, ids[p]);
    if q < |ids| {
      NoradsContains(prefix, ids[q]);
      NoradsInFirstOccurrenceOrder(prefix, p, q);
    } else {
      assert Norads(txs)[q] == Last(txs).satelliteNorad;
    }
  }

  /** The empty input yields no satellite; any other input yields a satellite
      that has records, and its count is at least one. */
  lemma BusiestEmptyIff(txs: seq<Transmitter>)
    ensures txs == [] <==> Busiest(txs) == Aggregation(None, None, 0)
    ensures txs != [] ==> Busiest(txs).norad.Some? && Busiest(txs).count >= 1
  {
    if txs != [] {
      var ids := Norads(txs);
      SelectIsMaximum(txs, ids, 0);
      NoradsContains(txs, ids[0]);
    }
  }

  /** The reported count is the size of the winner's group, and no satellite has
      more records. */
  lemma BusiestIsMaximal(txs: seq<Transmitter>, other: int)
    requires Busiest(txs).norad.Some?
    ensures Busiest(txs).count == |Filter(txs, Busiest(txs).norad.value)|
    ensures |Filter(txs, other)| <= Busiest(txs).count
  {
    var ids := Norads(txs);
    NoradsContains(txs, other);
    if Filter(txs, other) != [] {
      var q :| 0 <= q < |ids| && ids[q] == other;
      SelectIsMaximum(txs, ids, q);
    }
  }

  /** Among the satellites with the greatest count, the winner is the one whose
      first record comes earliest. */
  lemma BusiestTieBreak(txs: seq<Transmitter>, other: int)
    requires Busiest(txs).norad.Some?
    requires Filter(txs, other) != []
    requires |Filter(txs, other)| == Busiest(txs).count
    ensures Filter(txs, Busiest(txs).norad.value) != []
    ensures FirstIndex(txs, Busiest(txs).norad.value) <= FirstIndex(txs, other)
  {
    var ids := Norads(txs);
    var chosen := Select(txs, ids);
    assert Busiest(txs).norad == chosen.0 && Busiest(txs).count == chosen.1;
    var winner := chosen.0.value;
    NoradsContains(txs, other);
    var q := IndexOf(ids, other);
    SelectIsEarliest(txs, ids, q);
    IndexOfInPrefix(ids, q + 1, winner);
    var p := IndexOf(ids, winner);
    if p < q {
      FirstOccurrenceOrder(txs, winner, other);
    } else {
      assert p == q;
    }
  }

  /** The reported name is that of the first record carrying the last id of
      `Norads(txs)`; the "Unknown" fallback is never used. */
  lemma BusiestReportedName(txs: seq<Transmitter>)
    requires txs != []
    ensures Filter(txs, Last(Norads(txs))) != []
    ensures Busiest(txs).name == Some(txs[FirstIndex(txs, Last(Norads(txs)))].satelliteName)
  {
    var lastId := Last(Norads(txs));
    NoradsContains(txs, lastId);
    FilterHeadIsFirst(txs, lastId);
    BusiestEmptyIff(txs);
  }

  /** The last id of `Norads(txs)` is the last new id to appear: every other
      satellite's first record comes before its first record. */
  lemma LastNoradAppearsLast(txs: seq<Transmitter>, other: int)
    requires Filter(txs, other) != []
    ensures txs != [] && Filter(txs, Last(Norads(txs))) != []
    ensures FirstIndex(txs, other) <= FirstIndex(txs, Last(Norads(txs)))
  {
    var ids := Norads(txs);
    var lastId := Last(ids);
    NoradsContains(txs, lastId);
    NoradsContains(txs, other);
    if IndexOf(ids, other) < IndexOf(ids, lastId) {
      FirstOccurrenceOrder(txs, other, lastId);
    }
  }

  /** Of two ids, the one listed earlier in `Norads(txs)` occurs first. */
  lemma FirstOccurrenceOrder(txs: seq<Transmitter>, a: int, b: int)
    requires a in Norads(txs) && b in Norads(txs)
    requires IndexOf(Norads(txs), a) < IndexOf(Norads(txs), b)
    ensures Filter(txs, a) != [] && Filter(txs, b) != []
    ensures FirstIndex(txs, a) < FirstIndex(txs, b)
  {
    NoradsInFirstOccurrenceOrder(txs, IndexOf(Norads(txs), a), IndexOf(Norads(txs), b));
  }

  /** The reported name need not belong to the winning satellite: two records
      of satellite 1 named "Alpha" followed by one of satellite 2 named "Beta"
      report satellite 1 with the name "Beta". */
  lemma ReportedNameNotFromWinner()
    ensures
      var alpha := Transmitter(1, "Alpha", "a", "", "", "", None);
      var beta := Transmitter(2, "Beta", "b", "", "", "", None);
      Busiest([alpha, alpha, beta]) == Aggregation(Some(1), Some("Beta"), 2)
  {
    var alpha := Transmitter(1, "Alpha", "a", "", "", "", None);
    var beta := Transmitter(2, "Beta", "b", "", "", "", None);
    var txs := [alpha, alpha, beta];
    assert DropLast([alpha]) == [];
    assert DropLast([alpha, alpha]) == [alpha];
    assert DropLast(txs) == [alpha, alpha];
    assert Filter([], 1) == [] && Filter([], 2) == [];
    assert Filter([alpha], 1) == [alpha] && Filter([alpha], 2) == [];
    assert Filter([alpha, alpha], 1) == [alpha, alpha] && Filter([alpha, alpha], 2) == [];
    assert Filter(txs, 1) == [alpha, alpha] && Filter(txs, 2) == [beta];
    assert Norads([alpha]) == [1];
    assert Norads([alpha, alpha]) == [1];
    assert Norads(txs) == [1, 2];
    assert DropLast([1]) == [] && DropLast([1, 2]) == [1];
    assert Select(txs, [1]) == (Some(1), 2);
    assert Select(txs, [1, 2]) == (Some(1), 2);
  }

  /** Records of satellites 1, 2, 2, 1: both groups have two records, and the
      group formed first (satellite 1) wins. */
  lemma TieGoesToFirstGroup()
    ensures
      var one := Transmitter(1, "One", "a", "", "", "", None);
      var two := Transmitter(2, "Two", "b", "", "", "", None);
      Busiest([one, two, two, one]) == Aggregation(Some(1), Some("Two"), 2)
  {
    var one := Transmitter(1, "One", "a", "", "", "", None);
    var two := Transmitter(2, "Two", "b", "", "", "", None);
    var txs := [one, two, two, one];
    TieExampleGroups(one, two);
    assert DropLast([1]) == [] && DropLast([1, 2]) == [1];
    assert Select(txs, [1]) == (Some(1), 2);
    assert Select(txs, [1, 2]) == (Some(1), 2);
  }

  lemma TieExampleGroups(one: Transmitter, two: Transmitter)
    requires one.satelliteNorad == 1 && two.satelliteNorad == 2
    ensures Filter([one, two, two, one], 1) == [one, one]
    ensures Filter([one, two, two, one], 2) == [two, two]
    ensures Norads([one, two, two, one]) == [1, 2]
  {
    var txs := [one, two, two, one];
    assert DropLast([one]) == [];
    assert DropLast([one, two]) == [one];
    assert DropLast([one, two, two]) == [one, two];
    assert DropLast(txs) == [one, two, two];
    assert Filter([], 1) == [] && Filter([], 2) == [];
    assert Filter([one], 1) == [one] && Filter([one], 2) == [];
    assert Filter([one, two], 1) == [one] && Filter([one, two], 2) == [two];
    assert Filter([one, two, two], 1) == [one] && Filter([one, two, two], 2) == [two, two];
    assert Norads([one]) == [1];
    assert Norads([one, two]) == [1, 2];
    assert Norads([one, two, two]) == [1, 2];
  }
}
