/** The whole of `main` (preprocess.py:24-170) without its I/O: the route
    lookup and the grid are built once, every stop is joined against the
    grid and summarised, and the two rollups are computed from the stop
    records. */
module Pipeline {
  import opened Common
  import opened Records
  import opened Grid
  import opened Join
  import opened Summary
  import Strings
  import Sort
  import Neighborhoods
  import Routes

  /** The three artifacts: stops, neighbourhoods and routes. */
  datatype Output = Output(
    stops: seq<StopRecord>,
    neighborhoods: seq<Neighborhoods.NeighborhoodSummary>,
    routes: seq<Routes.RouteSummary>)

  /** The stop loop (preprocess.py:49-103): one record per stop. */
  function StopRecords(g: Index, routeMap: map<string, seq<string>>, stops: seq<Stop>): (recs: seq<StopRecord>)
    ensures |recs| == |stops|
  {
    if |stops| == 0 then []
    else StopRecords(g, routeMap, stops[..|stops| - 1]) + [Record(g, routeMap, stops[|stops| - 1])]
  }

  /** One iteration of the stop loop: scan the grid around `s`, then
      summarise what the scan returned. */
  function Record(g: Index, routeMap: map<string, seq<string>>, s: Stop): StopRecord {
    Summarize(s, Match(s, g), routeMap)
  }

  /** Record `i` is the one built for stop `i`: the loop keeps the input
      order and drops no stop. */
  lemma {:induction false} StopRecordAt(g: Index, routeMap: map<string, seq<string>>, stops: seq<Stop>, i: nat)
    requires i < |stops|
    ensures StopRecords(g, routeMap, stops)[i] == Record(g, routeMap, stops[i])
  {
    if i < |stops| - 1 {
      StopRecordAt(g, routeMap, stops[..|stops| - 1], i);
    }
  }

  function Run(barriers: seq<Barrier>, stops: seq<Stop>, rows: seq<RouteRow>): (out: Output)
    ensures |out.stops| == |stops|
    ensures Sort.Descending(out.neighborhoods, Neighborhoods.Intensity)
    ensures Sort.Descending(out.routes, Routes.Friction)
  {
    var recs := StopRecords(BuildGrid(barriers), RouteMap(rows), stops);
    Output(recs, Neighborhoods.Summaries(recs), Routes.Summaries(recs))
  }

  /** The grid does not change `total_barriers`: it is the number of
      distinct ids among the eligible barriers that pass the box test,
      scanning all barriers by brute force. The stop's own fields do not
      depend on the scan at all (`Summary.StopFieldsIgnoreScan`). The
      histogram, the barrier types and the neighbourhood can change,
      because the scan order can differ from the input order. When an id
      repeats, the scan order picks which of its records is counted, and
      with it the histogram, the barrier types and the neighbourhood
      (`Scenarios.HistogramFollowsScanOrder`). Among distinct ids, it
      decides the neighbourhood vote's tie-break
      (`Scenarios.VoteFollowsScanOrder`). */
  lemma TotalIsBruteForce(barriers: seq<Barrier>, stops: seq<Stop>, rows: seq<RouteRow>, i: nat)
    requires i < |stops|
    ensures var rec := Run(barriers, stops, rows).stops[i];
            var near := Keep(barriers, stops[i], Threshold);
            && rec.totalBarriers == |EligibleIds(near)|
            && rec.totalBarriers == Summarize(stops[i], near, RouteMap(rows)).totalBarriers
  {
    var s := stops[i];
    StopRecordAt(BuildGrid(barriers), RouteMap(rows), stops, i);
    var m := Match(s, BuildGrid(barriers));
    var near := Keep(barriers, s, Threshold);
    MatchEqualsBruteForce(barriers, s);
    forall x ensures x in m <==> x in near {
      assert x in m <==> x in multiset(m);
      assert x in near <==> x in multiset(near);
    }
    TotalDependsOnlyOnMembers(s, m, near, RouteMap(rows));
    SummarizeSpec(s, near, RouteMap(rows));
  }

  /** A stop record lists exactly the routes the membership rows give its
      stop id, sorted and without repeats. */
  lemma RoutesFromRows(barriers: seq<Barrier>, stops: seq<Stop>, rows: seq<RouteRow>, i: nat)
    requires i < |stops|
    ensures var rec := Run(barriers, stops, rows).stops[i];
            && rec.id == stops[i].id && rec.name == stops[i].name
            && rec.lat == stops[i].lat && rec.lon == stops[i].lon
            && Strings.StrictlySorted(rec.routes)
            && (forall x :: x in rec.routes <==> RouteRow(stops[i].id, x) in rows)
  {
    StopRecordAt(BuildGrid(barriers), RouteMap(rows), stops, i);
    SummarizeSpec(stops[i], Match(stops[i], BuildGrid(barriers)), RouteMap(rows));
  }

  /** A record of the run lists each route once, so the route rollup
      charges it at most once per stop. */
  lemma ServesOnce(barriers: seq<Barrier>, stops: seq<Stop>, rows: seq<RouteRow>, i: nat, route: string)
    requires i < |stops|
    ensures var rec := Run(barriers, stops, rows).stops[i];
            Routes.Serves(rec, route) == if route in rec.routes then 1 else 0
  {
    var rec := Run(barriers, stops, rows).stops[i];
    StopRecordAt(BuildGrid(barriers), RouteMap(rows), stops, i);
    SummarizeSpec(stops[i], Match(stops[i], BuildGrid(barriers)), RouteMap(rows));
    forall a, b | 0 <= a < b < |rec.routes| ensures rec.routes[a] != rec.routes[b] {
      Strings.LessIrreflexive(rec.routes[a]);
    }
    NoDupCount(rec.routes, route);
  }
}
