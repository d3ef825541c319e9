# Barrier–stop proximity pipeline, modelled in Dafny

`preprocess.py` turns three tables into three artifacts: accessibility barriers, transit stops, and stop/route membership rows go in; per-stop records, a neighbourhood rollup and a route rollup come out. This project models the body of its `main` as pure functions and proves what each stage promises:

- **Grid index** (`Grid`): each barrier goes into the bucket keyed by `grid_key`. That key is its coordinates divided by 0.001 and rounded with Python's `round`, ties to even.
- **Proximity join** (`Join`): a stop's 3×3 block of cells is scanned in the source's loop order. Every barrier that passes the inclusive box test `|Δlon| <= 0.0005 and |Δlat| <= 0.0005` is kept.
- **Per-stop aggregation** (`Summary`, `Histogram`, `Strings`, `Vote`): temporary barriers and those with an empty severity are skipped, and barriers are deduplicated by `attribute_id`. From the rest the stage builds:
  - the severity histogram;
  - the sorted barrier types;
  - the sorted routes;
  - `total_barriers`;
  - the plurality neighbourhood.
- **Neighbourhood rollup** (`Neighborhoods`): groups stop records by neighbourhood label. It yields centroids, impacted stops, severe-barrier totals and friction intensity, sorted by intensity, highest first.
- **Route rollup** (`Routes`): yields per-route total friction, impacted stops and friction per stop, sorted by total friction, highest first.
- **The run** (`Pipeline`) chains these stages. `Scenarios` works two concrete examples through the whole run, and shows where the grid's scan order changes a record.

Shared pieces:
- `Common`: option type, `Abs`, `round`, and sequence helpers.
- `Records`: the entities.
- `Table`: Python dicts as association lists in insertion order.
- `Sort`: a stable `sort(reverse=True)`.
- `Rollup`: the severity ≥ 3 count both rollups use.

"Friction" is a count of barriers at severity ≥ 3, not a sum of severities: the summed values `v` at preprocess.py:116 and :148 are histogram counts. The model follows the code here.

Main results:
- `Join.JoinEquivalence` shows that for every box half-width below one grid cell, the 3×3 grid scan returns the same multiset of barriers as a brute-force box test over all barriers.
- The equivalence holds as multisets only. `Scenarios.ScanReordersInput` shows the order can differ, and `Scenarios.HistogramFollowsScanOrder` and `Scenarios.VoteFollowsScanOrder` show that this can change the histogram, the barrier types and the neighbourhood, and through the histogram whether the stop reaches the rollups. Only `total_barriers` and the stop's own fields are unaffected (`Pipeline.TotalIsBruteForce`, `Summary.StopFieldsIgnoreScan`).
- `Join.ScanIncompleteAtFullCell` gives a barrier that the scan misses at a half-width of exactly one cell.
- So the condition "threshold ≤ GRID_SIZE / 2" is sufficient but not necessary. The source's pair (0.0005, 0.001) is well inside the proven range.
- The source never compares the literal 0.0005 with `GRID_SIZE`, so the bound is a precondition of the lemma and not a runtime check.

Points where the code's behaviour is easy to misread:
- **Deduplication** by `attribute_id` happens in the per-stop loop, not in the join. An id is recorded only after the temporary and severity checks pass. So a record with an empty severity does not block a later record with the same id (`Summary.CountedFrom`).
- **Plurality ties** go to the label counted first (`max` over a dict in insertion order).
- **The grid changes the scan order.** The 3×3 scan reports barriers cell by cell, not in input order. Which barriers are matched does not depend on the grid, so `total_barriers` agrees with a brute-force join (`Pipeline.TotalIsBruteForce`). The stop's own fields (`id`, `name`, `lat`, `lon`, `routes`) never depend on the scan (`Summary.StopFieldsIgnoreScan`). The histogram, the barrier types and the neighbourhood can differ:
  - When two eligible records share an `attribute_id`, the one scanned first is counted. The histogram, the barrier types and the neighbourhood then follow that record, and so does whether the stop reaches the rollups (`Scenarios.HistogramFollowsScanOrder`).
  - Among distinct ids, a plurality tie can go to a different label (`Scenarios.VoteFollowsScanOrder`).
- **No configuration check.** The code does not reject a threshold above half the cell size; there is no such check to model.
- **Malformed input is not skipped.** `float()` and `int()` raise on it, and parsing is not modelled.

## Model

| member | source | states |
|---|---|---|
| Common.Round | preprocess.py:20-21 | `round(x)` lies within 1/2 of `x`, and an exact tie goes to the even integer |
| Common.RoundUnique | preprocess.py:20-21 | those two properties determine `round(x)`: any integer meeting them is `Round(x)` |
| Common.RoundTo | preprocess.py:130-137 | `round(x, d)` lies within half a unit of the d-th decimal of `x` |
| Grid.GridKey | preprocess.py:20-21 | each coordinate of the key is within half a cell of the coordinate divided by GRID_SIZE |
| Grid.Insert | preprocess.py:43-44 | appending a barrier adds it to the end of its own key's bucket, creates that key if missing, and leaves every other bucket unchanged |
| Grid.BuildGrid | preprocess.py:39-44 | the index-building loop; what it builds is stated by `Grid.GridIsPartition`, `Grid.GridKeys` and `Grid.BarrierInExactlyOneBucket` below |
| Grid.GridIsPartition | preprocess.py:39-44 | every bucket of the built grid is exactly the barriers whose own key is that bucket's key, in input order |
| Grid.GridKeys | preprocess.py:39-44 | the grid has a key exactly when some barrier has that key, and no bucket is empty |
| Grid.BarrierInExactlyOneBucket | preprocess.py:39-44 | every barrier is in its own key's bucket and in no other bucket |
| Join.NeighboursBlock | preprocess.py:55-59 | the scanned cells are exactly the cells at most one step from the stop's cell on each axis |
| Join.NeighboursDistinct | preprocess.py:57-59 | the scan visits nine cells, all different |
| Join.NeighboursCounts | preprocess.py:55-59 | each cell of the 3×3 block is visited exactly once, and no other cell is visited |
| Join.Keep | preprocess.py:63-64 | the box test applied to a run of barriers; `Join.KeepSpec` states what it keeps |
| Join.KeepSpec | preprocess.py:63-64 | the brute-force box test keeps every barrier passing the test, as often as it occurs, and nothing else |
| Join.ScanCells | preprocess.py:57-64 | the scan over a list of cells; specified by `Join.ScanSound`, `Join.ScanCellsAppend` and `Join.ScanAppend` |
| Join.ScanCellsAppend | preprocess.py:57-64 | scanning two runs of cells is scanning the first, then the second |
| Join.ScanSound | preprocess.py:57-64 | every barrier the scan reports passes the box test and lies in a scanned cell |
| Join.NearbyIsInNeighbourCell | preprocess.py:55-63 | a barrier passing the box test with a half-width below one cell lies in one of the nine scanned cells |
| Join.ScanAppend | preprocess.py:44-64 | appending a barrier to the grid adds it once to a stop's scan if its cell is scanned and it passes the box test, and changes nothing otherwise |
| Join.MatchWithin | preprocess.py:54-64 | the join at a general half-width; `Join.JoinEquivalence` relates it to the brute-force box test |
| Join.JoinEquivalence | preprocess.py:54-64 | for any half-width below one cell, the grid scan equals the brute-force box test over all barriers, as multisets |
| Join.Match | preprocess.py:54-64 | the join at the source's half-width 0.0005; `Join.MatchEqualsBruteForce` relates it to the brute-force box test, and `Scenarios.ScanReordersInput` shows its order can differ from it |
| Join.MatchEqualsBruteForce | preprocess.py:54-64 | the same at the source's constants 0.0005 and 0.001 |
| Join.ScanIncompleteAtFullCell | preprocess.py:55-64 | at a half-width of one full cell the scan misses a barrier that the box test accepts |
| Summary.CountedFrom | preprocess.py:72-87 | the counting loop; specified by `Summary.CountedFromSpec`, `Summary.CountedFromFirst` and `Summary.CountedFromAppend` |
| Summary.CountedFromSpec | preprocess.py:72-87 | the counting loop counts only eligible barriers with unseen ids, each id once, and every eligible id of its input |
| Summary.CountedFromFirst | preprocess.py:72-81 | of a repeated id, the counted record is the first eligible one in the input, and the counted barriers keep the input order |
| Summary.LabelTypes | preprocess.py:84 | the collected `label_type`s are exactly those of the counted barriers |
| Summary.NeighborhoodLabels | preprocess.py:85-87 | the voted labels are exactly the non-empty neighbourhood labels of the counted barriers |
| Summary.NeighborhoodLabelsAppend | preprocess.py:85-87 | the labels of a concatenation are the first part's labels, then the second part's, so input order is kept |
| Summary.NeighborhoodLabelsCount | preprocess.py:85-87 | a non-empty label gets one vote per barrier carrying it, the empty label none |
| Summary.RouteMap | preprocess.py:33-35 | a route is listed for a stop id exactly when a membership row pairs them |
| Summary.Summarize | preprocess.py:66-103 | builds one stop record from the scan; `Summary.SummarizeSpec` states every field |
| Summary.StopFieldsIgnoreScan | preprocess.py:92-97 | the record's `id`, `name`, `lat`, `lon` and `routes` are the same whatever the scan returned |
| Summary.SummarizeSpec | preprocess.py:66-103 | the record keeps the stop's identity; its routes and barrier types are strictly sorted and hold exactly the expected elements; the histogram is ascending, lists only observed levels and counts each level's occurrences; `total_barriers` is the number of distinct eligible ids and the histogram's sum; the neighbourhood is `None` exactly when no counted barrier has a label, and otherwise is the plurality label |
| Summary.SummarizeIgnoresIneligible | preprocess.py:72-80 | dropping every temporary or severity-less barrier from the scan leaves the whole record unchanged |
| Summary.CountedFromAppend | preprocess.py:72-87 | counting a concatenation counts the first part, then the second part with the first part's ids already recorded |
| Summary.CountedFromAllSeen | preprocess.py:75-77 | once every eligible id is recorded, nothing more is counted |
| Summary.SummarizeDuplicatedInput | preprocess.py:75-81 | feeding the same scan result twice gives the same record as feeding it once |
| Summary.TotalDependsOnlyOnMembers | preprocess.py:101 | `total_barriers` depends only on which barriers were matched, not on their order or repetition |
| Strings.LessTotal | preprocess.py:97-99 | Python string order is total and antisymmetric |
| Strings.Insert | preprocess.py:97-99 | adding a string to a strictly sorted list keeps it strictly sorted and adds exactly that string |
| Strings.SortedSet | preprocess.py:97-99 | `sorted(set(xs))` is strictly sorted and holds exactly the strings of `xs` |
| Strings.SortedUnique | preprocess.py:97-99 | two strictly sorted lists with the same elements are equal |
| Strings.SortedSetOfSameElements | preprocess.py:97-99 | `sorted(set(xs))` depends only on which strings occur in `xs` |
| Histogram.Add | preprocess.py:83 | one increment keeps the histogram ascending and positive, adds one to that level, and leaves other levels unchanged |
| Histogram.AddTotals | preprocess.py:83 | one increment adds one to the total and to every threshold sum the level reaches |
| Histogram.Build | preprocess.py:83-100 | the histogram is ascending, lists only observed levels, and counts each level as often as it occurs |
| Histogram.BuildTotals | preprocess.py:100-101 | the histogram sums to the number of levels, and its sum at or above a threshold counts the levels there |
| Vote.ArgMax | preprocess.py:90 | `max` over the keys returns the first key of maximal count |
| Vote.Plurality | preprocess.py:89-90 | the vote is `None` exactly when there is no label; otherwise it is a label with maximal count, first seen among those tied |
| Vote.PluralityUnique | preprocess.py:89-90 | that description admits one label only, so it determines the vote |
| Table.UpdateGet | preprocess.py:119-124 | a dict increment changes only the incremented key, starting from the default when the key is new |
| Table.UpdateKeys | preprocess.py:119-124 | a dict increment keeps the key order and puts a new key last |
| Table.UpdateEntries | preprocess.py:119-124 | entry by entry, an increment keeps old entries or updates the key's entry, and a new entry holds the incremented default |
| Table.GetAt | preprocess.py:127 | with distinct keys, looking up an entry's key yields that entry's value |
| Table.GetAbsent | preprocess.py:112 | a key never inserted reads as the default |
| Table.DistinctFrom | preprocess.py:87-90 | a dict's key order holds each key once: exactly the elements fed in, minus those already present |
| Table.DistinctInFirstSeenOrder | preprocess.py:87-90 | the keys come out in the order of their first occurrence |
| Table.DistinctFromSnoc | preprocess.py:119-124 | feeding one more element extends the key order by it exactly when it is new |
| Sort.DescendingPairwise | preprocess.py:138 | in a sorted output no later row has a greater key than an earlier one |
| Sort.InsertDesc | preprocess.py:138 | insertion keeps the sequence descending and adds one element |
| Sort.InsertPermutes | preprocess.py:138 | insertion adds exactly the new element |
| Sort.SortDesc | preprocess.py:138 | the sorted rows are descending by key |
| Sort.SortPermutes | preprocess.py:138 | sorting only reorders: every row keeps its multiplicity |
| Sort.InsertStable | preprocess.py:138 | insertion puts the element at the end of its key class |
| Sort.SortStable | preprocess.py:138 | rows with equal keys keep their original relative order |
| Sort.FilterPermutation | preprocess.py:138 | reordering keeps the rows that satisfy any predicate, with multiplicities |
| Rollup.Severe | preprocess.py:116 | the severity ≥ 3 sum of a record; `Rollup.SevereCountsSevereBarriers` and `Rollup.CountAtLeastPositive` state what it counts |
| Rollup.SevereCountsSevereBarriers | preprocess.py:116 | a record's severity ≥ 3 sum counts its counted barriers at severity 3 or more, and never exceeds `total_barriers` |
| Rollup.CountAtLeastPositive | preprocess.py:116-118 | a record passes the `severe == 0` test exactly when one counted barrier has severity 3 or more |
| Neighborhoods.Tally | preprocess.py:112-124 | every entry of `nbh_agg` has `count == stops >= 1` |
| Neighborhoods.AccumulateWellFormed | preprocess.py:119-124 | one increment keeps `count == stops >= 1` for every entry |
| Neighborhoods.TallySums | preprocess.py:112-124 | each neighbourhood's sums are the coordinate sums, severe counts and record count over exactly the qualifying records carrying it |
| Neighborhoods.TallyKeys | preprocess.py:112-127 | the dict's keys are the qualifying neighbourhoods, each once, in the order each first qualifies |
| Neighborhoods.Row | preprocess.py:130-137 | a row carries the name, stop and barrier counts; its centroid is within 0.0000005 of the mean; its intensity is within 0.05 of barriers per stop |
| Neighborhoods.Rows | preprocess.py:126-137 | the row loop; `Neighborhoods.RowsKeepAll` and `Neighborhoods.RowsNamed` state what it yields |
| Neighborhoods.RowsKeepAll | preprocess.py:127-129 | the `count == 0` guard never fires, so every entry yields its row in key order |
| Neighborhoods.RowsNamed | preprocess.py:127-137 | a name has as many rows as entries |
| Neighborhoods.TallyEntry | preprocess.py:119-127 | each entry holds the reference sums of its key, over at least one record |
| Neighborhoods.Summaries | preprocess.py:138 | the output is sorted by intensity, highest first |
| Neighborhoods.RollupCount | preprocess.py:111-138 | a neighbourhood has a row exactly when some record with a label and a severe barrier carries it, and then exactly one |
| Neighborhoods.RollupRow | preprocess.py:111-138 | every row is built from the sums over precisely the qualifying records carrying its name, of which there is at least one |
| Neighborhoods.RollupStable | preprocess.py:138 | rows of equal intensity keep the order in which their neighbourhoods first qualified |
| Routes.AddRoutes | preprocess.py:151-154 | the inner loop over a stop's routes; specified by `Routes.AddRoutesSums` and `Routes.AddRoutesKeys` |
| Routes.AddRoutesSums | preprocess.py:151-154 | the inner loop adds the stop's severe count and one impacted stop to a route once per listing |
| Routes.AddRoutesKeys | preprocess.py:151-152 | the inner loop extends the key order by the routes not seen before |
| Routes.Tally | preprocess.py:146-154 | the outer loop over stop records; specified by `Routes.TallySums` and `Routes.TallyKeys` |
| Routes.TallySums | preprocess.py:146-154 | each route's totals are the severe counts and the number of severe stops listing it; a route never charged reads as zeros |
| Routes.TallyKeys | preprocess.py:146-157 | the dict's keys are the routes of the severe records, each once, in the order first charged |
| Routes.Row | preprocess.py:158-163 | a row carries the route and totals; friction per stop is within 0.005 of the ratio, or 0 with no impacted stop |
| Routes.Rows | preprocess.py:156-163 | one row per dict entry, in key order |
| Routes.RowsNamed | preprocess.py:157-163 | a route has as many rows as entries |
| Routes.Summaries | preprocess.py:164 | the output is sorted by total friction, highest first |
| Routes.RollupCount | preprocess.py:145-164 | a route has a row exactly when some severe record lists it, and then exactly one |
| Routes.RollupRow | preprocess.py:145-164 | every row is built from the totals over the severe records listing it, with at least one impacted stop, so the `else 0` branch is never taken |
| Routes.RollupStable | preprocess.py:164 | rows of equal friction keep the order in which their routes were first charged |
| Pipeline.StopRecords | preprocess.py:48-103 | the stop loop yields one record per stop |
| Pipeline.StopRecordAt | preprocess.py:48-103 | record `i` is the one built from stop `i`'s scan |
| Pipeline.Run | preprocess.py:24-164 | one record per stop; both rollups sorted descending by their keys |
| Pipeline.TotalIsBruteForce | preprocess.py:54-101 | a stop's `total_barriers` equals the number of distinct eligible ids among all barriers passing the box test |
| Pipeline.RoutesFromRows | preprocess.py:92-97 | a record keeps the stop's identity and lists, strictly sorted, exactly the routes its membership rows give |
| Pipeline.ServesOnce | preprocess.py:97 | a record lists each route at most once, so the route rollup charges a route once per stop |
| Scenarios.ExampleMatch | preprocess.py:54-64 | a barrier 0.0001° west and 0.0003° north of a stop is matched |
| Scenarios.ExampleRecord | preprocess.py:66-103 | the matched barrier yields histogram {4: 1}, one type, one barrier and its neighbourhood; marked temporary, it yields an empty record |
| Scenarios.PermanentBarrierCounted | preprocess.py:24-138 | the run on that example gives one neighbourhood row with one impacted stop and one severe barrier |
| Scenarios.TemporaryBarrierIgnored | preprocess.py:72-74 | marked temporary, the barrier is matched but not counted, and no neighbourhood row appears |
| Scenarios.UnlabelledBarrierCounted | preprocess.py:85-90 | a stop can count a barrier and still get no neighbourhood |
| Scenarios.ScanReordersInput | preprocess.py:55-64 | with one barrier in the stop's cell and one in the cell east of it, both in the box, the scan reports them in cell order, the reverse of the input order the brute-force test keeps |
| Scenarios.TwoLabelVote | preprocess.py:72-90 | two counted barriers with different ids and labels: the vote goes to the first one's label |
| Scenarios.VoteFollowsScanOrder | preprocess.py:55-90 | in that layout, with different ids and labels, the record takes the label of the barrier scanned first, where a brute-force join would take the other one |
| Scenarios.VoteFollowsScanOrderExample | preprocess.py:55-90 | a concrete stop and two barriers for which the record's neighbourhood is "Y" while a brute-force join would give "X" |
| Scenarios.SameIdCountsFirst | preprocess.py:72-81 | of two eligible records with one `attribute_id`, only the first is counted |
| Scenarios.SingleRecord | preprocess.py:66-102 | a scan that counts one eligible barrier gives one barrier at its level, its type, `total_barriers` 1, and its label if it has one |
| Scenarios.CountedFollowsScanOrder | preprocess.py:55-81 | with two eligible records of one id, one in the stop's cell and one in the cell east of it, the grid counts the stop-cell record and a brute-force join counts the record first in the input |
| Scenarios.HistogramFollowsScanOrder | preprocess.py:55-102 | so the histogram, the barrier types and the neighbourhood follow the scan order, with no tie involved |
| Scenarios.SevereOneLevel | preprocess.py:116 | a histogram of one barrier has a severe count of 1 when its level is at least 3, and 0 otherwise |
| Scenarios.HistogramFollowsScanOrderExample | preprocess.py:55-118 | a concrete stop and two records of id "A" for which the grid record has level 4, type "T2" and one severe barrier, while a brute-force join would give level 2, type "T1" and none, so the stop would be skipped by both rollups |

## Left out

- Reading the three CSV files, writing the three JSON files, the file paths and the progress messages (preprocess.py:9-10, 15-17, 25-30, 105-108, 140-142, 166-170): these are plumbing, not logic.
- Parsing: `float(...)` of coordinates and `int(sev_str)` raise on malformed text. Coordinates are exact `real`s and severities are `Option<int>` here. `None` stands for the empty cell; there is no 1–5 range check in the code and none in the model.
- The `str(k)` keys of the emitted histogram and the `int(k)` that reads them back: the histogram keeps integer levels.
- IEEE floating point: coordinates, sums, means and ratios are exact reals. `round` is applied to the exact value, with ties to even. The float results of `lon / GRID_SIZE`, of the summed centroids and of the box test at its boundary are not reproduced.
- Common.RoundTo: states only the half-unit error bound, not that the result is a whole multiple of the unit.
- Neighborhoods.Row: the centroid and intensity are stated within the rounding error, not as the exact float `round(..., 6)` / `round(..., 1)` results.
- Routes.Row: `friction_per_stop` is stated within the rounding error of `round(..., 2)`. The integer `0` of the `else` branch is written as `0.0`.
- The three report scripts (analyze.py, deep_analysis.py, focused_analysis.py): they read the stops artifact and print tables. The severity ≥ 3 count they share with the rollups is `Rollup.Severe`.
