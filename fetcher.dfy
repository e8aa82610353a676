/** Paginated retrieval of all transmitter records. The endpoint is given as the
    sequence of its answers to the requests for pages 1, 2, 3, ...; a request past
    the end of that sequence is answered "not found". */
module Fetcher {
  import opened Records

  /** The endpoint's answer to one page request: a decoded list of records, a
      404, or any other failure (another HTTP status, a transport error, a body
      that does not decode). */
  datatype Response = Page(records: seq<Transmitter>) | NotFound | OtherError

  /** Either every record fetched, or an abandoned fetch that keeps none. */
  datatype Fetched = Fetched(records: seq<Transmitter>) | Failed

  /** A response after which the next page is requested. */
  predicate Continues(r: Response) {
    r.Page? && r.records != []
  }

  /** A response that ends the pagination without an error. */
  predicate EndsCleanly(r: Response) {
    (r.Page? && r.records == []) || r.NotFound?
  }

  /** What fetching all pages yields, page by page: a successful fetch keeps
      a prefix of all the records the endpoint holds, in page order. */
  function Fetch(responses: seq<Response>): (r: Fetched)
    ensures r.Fetched? ==> r.records <= Concat(responses)
  {
    if responses == [] then Fetched([])
    else match responses[0]
      case NotFound => Fetched([])
      case OtherError => Failed
      case Page(data) =>
        if data == [] then Fetched([])
        else match Fetch(responses[1..])
          case Failed => Failed
          case Fetched(rest) => Fetched(data + rest)
  }

  /** The records of the pages among `responses`, concatenated in order. */
  function Concat(responses: seq<Response>): seq<Transmitter>
  {
    if responses == [] then []
    else (if responses[0].Page? then responses[0].records else []) + Concat(responses[1..])
  }

  /** `acc` followed by what the rest of the fetch yields. */
  function Prepend(acc: seq<Transmitter>, f: Fetched): Fetched
  {
    match f
    case Failed => Failed
    case Fetched(rest) => Fetched(acc + rest)
  }

  /** The pagination loop. `requests` is the number of pages requested. */
  method FetchAllTransmitters(responses: seq<Response>) returns (result: Fetched, requests: nat)
    ensures result == Fetch(responses)
    ensures 1 <= requests <= |responses| + 1
    ensures forall i :: 0 <= i < requests - 1 ==> Continues(responses[i])
    ensures requests <= |responses| ==> !Continues(responses[requests - 1])
    ensures result.Failed? <==> requests <= |responses| && responses[requests - 1].OtherError?
  {
    var transmitters: seq<Transmitter> := [];
    var page := 1;
    while true
      invariant 1 <= page <= |responses| + 1
      invariant forall i :: 0 <= i < page - 1 ==> Continues(responses[i])
      invariant Fetch(responses) == Prepend(transmitters, Fetch(responses[page - 1..]))
      decreases |responses| + 1 - page
    {
      if page > |responses| {
        break;
      }
      var response := responses[page - 1];
      if response.OtherError? {
        return Failed, page;
      }
      if response.NotFound? || response.records == [] {
        break;
      }
      assert responses[page - 1..][1..] == responses[page..];
      transmitters := transmitters + response.records;
      page := page + 1;
    }
    return Fetched(transmitters), page;
  }

  /** When pages 0 .. k-1 all hold records and response k (or the end of the
      sequence) ends the pagination cleanly, the result is those k pages'
      records in order; every later response is ignored. */
  lemma {:induction false} FetchStopsAtFirstEnd(responses: seq<Response>, k: nat)
    requires k <= |responses|
    requires forall i :: 0 <= i < k ==> Continues(responses[i])
    requires k == |responses| || EndsCleanly(responses[k])
    ensures Fetch(responses) == Fetched(Concat(responses[..k]))
  {
    if k == 0 {
      assert responses[..0] == [];
    } else {
      FetchStopsAtFirstEnd(responses[1..], k - 1);
      assert responses[..k][1..] == responses[1..][..k - 1];
    }
  }

  /** A failure before the pagination has ended aborts the whole fetch, however
      many pages succeeded before it. */
  lemma {:induction false} FetchFailsAtError(responses: seq<Response>, k: nat)
    requires k < |responses|
    requires forall i :: 0 <= i < k ==> Continues(responses[i])
    requires responses[k].OtherError?
    ensures Fetch(responses) == Failed
  {
    if k > 0 {
      FetchFailsAtError(responses[1..], k - 1);
    }
  }

  /** The fetch fails exactly when an error arrives before any clean end. */
  lemma {:induction false} FetchFailedIff(responses: seq<Response>)
    ensures Fetch(responses).Failed? <==>
      exists k :: 0 <= k < |responses| && responses[k].OtherError? &&
        forall i :: 0 <= i < k ==> Continues(responses[i])
  {
    if responses != [] {
      FetchFailedIff(responses[1..]);
      if Continues(responses[0]) {
        if Fetch(responses).Failed? {
          var k :| 0 <= k < |responses[1..]| && responses[1..][k].OtherError? &&
            forall i :: 0 <= i < k ==> Continues(responses[1..][i]);
          assert responses[k + 1].OtherError?;
          assert forall i :: 0 <= i < k + 1 ==> Continues(responses[i]);
        } else {
          forall k | 0 <= k < |responses| && responses[k].OtherError?
            ensures exists i :: 0 <= i < k && !Continues(responses[i])
          {
            assert k > 0;
            assert !(forall i :: 0 <= i < k - 1 ==> Continues(responses[1..][i]));
            var i :| 0 <= i < k - 1 && !Continues(responses[1..][i]);
            assert !Continues(responses[i + 1]);
          }
        }
      }
    }
  }

  /** A 404 for some page means the same as an empty page there: the result does
      not depend on which of the two arrives, nor on anything after it. */
  lemma {:induction false} NotFoundLikeEmptyPage(before: seq<Response>, after1: seq<Response>, after2: seq<Response>)
    ensures Fetch(before + [NotFound] + after1) == Fetch(before + [Page([])] + after2)
  {
    if before != [] {
      NotFoundLikeEmptyPage(before[1..], after1, after2);
      assert (before + [NotFound] + after1)[1..] == before[1..] + [NotFound] + after1;
      assert (before + [Page([])] + after2)[1..] == before[1..] + [Page([])] + after2;
    }
  }
}
