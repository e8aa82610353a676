# Busiest satellite and best transmitter, modelled in Dafny

`main.py` pages through a public listing of satellite radio transmitters. It
then picks the satellite with the most transmitters and, among that
satellite's transmitters, the one with the best observation success rate.
This project models the three algorithms of that program and the glue between
them, and proves what each computes:

- `records.dfy` (module `Records`): the transmitter record, its optional
  `stat` object, and the success percentage. A missing `stat`, `total_count`
  or `good_count` counts as 0. A record with no observations scores 0.
  Percentages are exact reals.
- `fetcher.dfy` (module `Fetcher`): the pagination loop of
  `fetch_all_transmitters`. The endpoint is a finite sequence of answers to
  the requests for pages 1, 2, 3, …. Each answer is a page of records, a 404
  (`NotFound`), or any other failure (`OtherError`). The loop is a `while`
  loop proved against the recursive specification `Fetch`. Lemmas
  characterise `Fetch` independently: the result is the concatenation of the
  non-empty pages before the first empty page or 404. An error before that
  point fails the whole fetch and keeps no records. A 404 means the same as
  an empty page.
- `satellites.dfy` (module `Satellites`): `find_max_transmitters_satellite`.
  The grouping loop builds a map from NORAD id to records plus the order in
  which the map received its keys, because a Python dict iterates in
  insertion order. The scan loop keeps the strictly larger group. Both loops
  are proved against the functions `Norads`, `Filter` and `Select`. The
  lemmas state the results:
  - the empty input gives `(None, None, 0)`;
  - the count is the winner's record count and no satellite has more;
  - ties go to the satellite whose first record comes first;
  - the reported name is taken from the last group iterated.
- `best.dfy` (module `BestTransmitter`): `find_best_transmitter`. It is one
  left-to-right scan from the sentinel `-1.0`, proved against `Best`. The
  lemmas show the result is maximal, is the earliest record with the maximal
  percentage, and exists whenever the input is non-empty with non-negative
  counts.
- `program.dfy` (module `Program`): the flow of `main` as `RunProgram`. It
  fetches the records, finds the busiest satellite, filters the records down
  to it and scans them. Lemmas show two things. With integer NORAD ids, after a
  successful non-empty fetch the "no satellite" branch is unreachable. With non-negative counts a
  best transmitter of the chosen satellite is always reported.

The reported satellite name follows the code, not a reading of it as "the
winner's name". Line 48 reads the name from the loop variable `txs` after the
loop. So the name is `satellite_name` of the FIRST record of the LAST group
iterated, that is, of the last new NORAD id to appear in the input. It need
not belong to the winning satellite (`ReportedNameNotFromWinner`). The
`"Unknown"` fallback on that line is never taken (`BusiestReportedName`).

## Model

| member | source | states |
|---|---|---|
| `Records.SuccessPercentage` | main.py:57-64 | 0 when the total is 0. Otherwise percentage × total = 100 × good, so no division by zero. Non-negative counts give a percentage ≥ 0, and good ≤ total also gives one ≤ 100 |
| `Records.TotalCount` | main.py:57-58 | the definition: `total_count` of the record, 0 when `stat` or the count is missing |
| `Records.GoodCount` | main.py:57-59 | the definition: `good_count` of the record, 0 when `stat` or the count is missing |
| `Records.SuccessPercentageExamples` | main.py:57-64 | `{total_count: 0}` gives 0.0, a missing `stat` gives 0.0, and 7 good out of 10 gives 70.0 |
| `Fetcher.Fetch` | main.py:10-27 | the result of the page loop, page by page: stop at the first empty page or 404, fail at any other error, and otherwise add the page and request the next. A successful result is a prefix of all the endpoint's records in page order |
| `Fetcher.FetchAllTransmitters` | main.py:5-27 | the loop returns `Fetch(responses)`. It requests pages up to and including the first one that has no records. A 404 or an empty page ends the loop; any other failure aborts it. The fetch fails exactly when that last answer is an error |
| `Fetcher.FetchStopsAtFirstEnd` | main.py:10-23 | if k non-empty pages are followed by an empty page, a 404 or the end of the answers, the result is those k pages' records concatenated in order, and later answers are ignored |
| `Fetcher.FetchFailsAtError` | main.py:21-25 | an error after any number of non-empty pages fails the fetch, and no partial records are returned |
| `Fetcher.FetchFailedIff` | main.py:10-25 | the fetch fails if and only if an error arrives while every earlier answer was a non-empty page |
| `Fetcher.NotFoundLikeEmptyPage` | main.py:16-23 | a 404 for a page gives the same result as an empty page there, whatever follows |
| `Satellites.Filter` | main.py:88 | a satellite's records are never more than the input. Order and multiplicity follow from `FilterAppend` and `FilterSingle` |
| `Satellites.FilterAppend` | main.py:88 | filtering a concatenation filters each part and concatenates the results |
| `Satellites.FilterSingle` | main.py:88 | a single record is kept exactly when it has the satellite's id. With `FilterAppend`, this makes the filter the in-order subsequence of that satellite's records |
| `Satellites.FilterContains` | main.py:88 | a record is in a satellite's list if and only if it is an input record with that NORAD id |
| `Satellites.FilterEmptyIff` | main.py:33-35 | a satellite's group is empty if and only if no input record carries its id |
| `Satellites.Norads` | main.py:33-40 | the dict's keys in insertion order: a record's id is appended when no earlier record has it. Non-empty input gives at least one key |
| `Satellites.NoradsContains` | main.py:33-35 | the grouping map's keys are exactly the NORAD ids of the input records |
| `Satellites.FirstIndex` | main.py:33-35 | the position of the satellite's first record, which has the satellite's id |
| `Satellites.FirstIndexIsFirst` | main.py:33-35 | no record before a satellite's first record carries its id |
| `Satellites.NoradsInFirstOccurrenceOrder` | main.py:33-40 | the map iterates its keys in the order of the ids' first occurrences, each key once |
| `Satellites.FirstOccurrenceOrder` | main.py:33-40 | of two keys, the one iterated first has the earlier first record |
| `Satellites.FilterHeadIsFirst` | main.py:33-35 | the first record of a group is that satellite's first record in the input |
| `Satellites.GroupBySatellite` | main.py:31-35 | the grouping loop builds a map whose keys are the input's ids in first-insertion order, and each key maps to exactly that satellite's records in input order |
| `Satellites.Select` | main.py:37-43 | the scan picks no satellite only with count 0. The id it picks is one of the scanned ids, and its count is that group's size, which is at least 1 |
| `Satellites.SelectIsMaximum` | main.py:40-43 | no scanned group is larger than the reported count |
| `Satellites.SelectIsEarliest` | main.py:40-43 | because of the strict `>`, the picked id comes no later in the scan than any other id whose group has the maximal size |
| `Satellites.FindMaxTransmittersSatellite` | main.py:30-49 | the two loops return `Busiest(txs)`, the id, name and count that the lemmas below characterise |
| `Satellites.Busiest` | main.py:30-49 | the result of the busiest-satellite pass. The winner comes from the strict-`>` scan over the keys, and the name from the first record of the last key's group (line 48). No winner gives `(None, None, 0)`. A winner is one of the keys, has a name, and has a count equal to its number of records, at least 1 |
| `Satellites.BusiestEmptyIff` | main.py:37-46 | the result is `(None, None, 0)` if and only if the input is empty. Otherwise an id is found and its count is ≥ 1 |
| `Satellites.BusiestIsMaximal` | main.py:33-43 | the count is the number of input records with the winning id, and no NORAD id has more records |
| `Satellites.BusiestTieBreak` | main.py:40-43 | among the ids with the maximal count, the winner is the one whose first record comes earliest |
| `Satellites.BusiestReportedName` | main.py:48 | the name is that of the first record of the last iterated group. The `"Unknown"` fallback is never used |
| `Satellites.LastNoradAppearsLast` | main.py:40-48 | the last iterated id is the last new id to appear: every other satellite's first record precedes its first record |
| `Satellites.ReportedNameNotFromWinner` | main.py:40-49 | records of satellite 1 "Alpha", 1 "Alpha", 2 "Beta" report satellite 1 with count 2 and name "Beta" |
| `Satellites.TieGoesToFirstGroup` | main.py:40-43 | records of satellites 1, 2, 2, 1 report satellite 1 with count 2 |
| `BestTransmitter.Best` | main.py:52-70 | no record leaves the sentinel -1.0. A record that is returned is an input record, and its percentage is the returned one, above -1.0 |
| `BestTransmitter.FindBestTransmitter` | main.py:52-70 | the loop returns `Best(txs)` |
| `BestTransmitter.BestIsMaximum` | main.py:56-68 | the returned percentage is ≥ every input record's percentage |
| `BestTransmitter.BestIsFirstMaximum` | main.py:66-68 | take the earliest record whose percentage is maximal and above the sentinel: that record and its percentage are returned, and later equal records do not replace it |
| `BestTransmitter.BestNoneIff` | main.py:52-70 | no record is returned if and only if every percentage is ≤ -1.0. So `(None, -1.0)` is returned for the empty input. A non-empty input with non-negative counts gives a record and a percentage ≥ 0 |
| `BestTransmitter.EqualPercentagesKeepFirst` | main.py:66-68 | of two records at 50 percent, the first is returned |
| `Program.RunProgram` | main.py:73-89 | a failed fetch aborts the run. Otherwise the run finishes with `Analysis` of the fetched records: no data, no satellite, or the satellite's id, name, count, best transmitter and rate |
| `Program.Analysis` | main.py:77-89 | the report after a successful fetch: no data exactly for the empty list. Otherwise the no-satellite branch, or the winner with its record count (≥ 1) and the best transmitter among its records with that record's percentage. With no transmitter the rate is -1.0 |
| `Program.AnalysisFindsSatellite` | main.py:83-88 | for integer NORAD ids, a non-empty fetch always finds a satellite, and the "no satellite" branch is unreachable. Its filtered list is non-empty, its count equals that list's length, and no satellite has more records |
| `Program.AnalysisFindsBestTransmitter` | main.py:83-89 | with non-negative counts a best transmitter is reported. It is an input record of the chosen satellite, and the rate is its percentage, ≥ 0. No record of that satellite has a higher percentage |

## Left out

- HTTP transport: `requests.Session`, `raise_for_status` and JSON decoding (main.py:6-14) are not modelled. They are replaced by the sequence of answers, and every failure other than a 404 is the single `OtherError`.
- The unbounded page loop: the answers are a finite sequence, and a request past its end is read as a 404. `FetchAllTransmitters` counts that request too.
- Console output: all printing in `main`, its text and the `:.2f` formatting (main.py:74-105). The model stops at the values that would be printed.
- Floating point: `(good / total) * 100` is computed with exact reals, so float rounding that could reorder near-equal percentages is not modelled.
- Malformed records: NORAD ids are integers here, and every record has a string `satellite_name`. The source does more:
  - A record with a null `satellite_norad` is grouped under the key `None` (main.py:34-35). If that group wins the scan (it is a largest group and no key iterated before it has as many records), `max_norad` ends as `None`, line 45 returns `(None, None, 0)`, and `main` prints the "no satellite" message (main.py:84-86). That is the only way the branch is reached after line 77, and the model cannot reach it.
  - A record with no `satellite_norad` key raises `KeyError` at line 34.
  - A missing `satellite_name` key raises `KeyError` at line 48 when that record heads the last group. A null name is passed on and printed as `None`.
  - A `stat` key holding JSON `null` raises `AttributeError` at line 58.
  - Float counts are computed like integers. The model's counts are integers.
- Negative or inconsistent counts: the model allows them. Only the lemmas that need it (`BestNoneIff`, `AnalysisFindsBestTransmitter`) assume non-negative counts.
- The `__main__` guard and process start-up (main.py:108-109).
