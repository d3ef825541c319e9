/** The route rollup (preprocess.py:144-164): every stop record with at
    least one severe barrier charges its severe count to each route
    serving it; each route yields its total friction, its number of
    impacted stops and the friction per impacted stop; the rows are sorted
    by total friction, highest first. */
module Routes {
  import opened Common
  import opened Records
  import opened Table
  import opened Rollup
  import Sort

  /** The running sums `{"total_friction", "impacted_stops"}`. */
  datatype RouteAcc = RouteAcc(totalFriction: nat, impactedStops: nat)

  /** The defaultdict's initial value. */
  const Zero := RouteAcc(0, 0)

  /** One row of the routes artifact. */
  datatype RouteSummary = RouteSummary(
    route: string,
    totalFriction: nat,
    impactedStops: nat,
    frictionPerStop: real)

  /** The two increments applied to `route_agg[route]` by a stop with
      `severe` severe barriers. */
  function Charge(severe: nat): RouteAcc -> RouteAcc {
    (a: RouteAcc) => RouteAcc(a.totalFriction + severe, a.impactedStops + 1)
  }

  /** The inner loop `for route in s["routes"]`. */
  function AddRoutes(t: seq<Entry<RouteAcc>>, routes: seq<string>, severe: nat): seq<Entry<RouteAcc>> {
    if |routes| == 0 then t
    else Update(AddRoutes(t, routes[..|routes| - 1], severe), routes[|routes| - 1], Zero, Charge(severe))
  }

  /** `route_agg` after the loop over `recs`; a record with no severe
      barrier is skipped. */
  function Tally(recs: seq<StopRecord>): seq<Entry<RouteAcc>> {
    if |recs| == 0 then []
    else
      var t := Tally(recs[..|recs| - 1]);
      var rec := recs[|recs| - 1];
      if Severe(rec) == 0 then t else AddRoutes(t, rec.routes, Severe(rec))
  }

  // Reference definitions: the sums over the records, stated without the
  // dictionary. A route listed twice by one record is charged twice, as
  // the loop does; records built by the per-stop aggregation list each
  // route once.

  /** How many times `rec` lists `route`. */
  function Serves(rec: StopRecord, route: string): nat {
    multiset(rec.routes)[route]
  }

  function FrictionOf(recs: seq<StopRecord>, route: string): nat {
    if |recs| == 0 then 0
    else
      var rec := recs[|recs| - 1];
      FrictionOf(recs[..|recs| - 1], route) + (if Severe(rec) == 0 then 0 else Severe(rec) * Serves(rec, route))
  }

  function StopsOf(recs: seq<StopRecord>, route: string): nat {
    if |recs| == 0 then 0
    else
      var rec := recs[|recs| - 1];
      StopsOf(recs[..|recs| - 1], route) + (if Severe(rec) == 0 then 0 else Serves(rec, route))
  }

  /** The routes of the severe records, in visiting order, with repeats. */
  function RouteNames(recs: seq<StopRecord>): seq<string> {
    if |recs| == 0 then []
    else
      var rec := recs[|recs| - 1];
      RouteNames(recs[..|recs| - 1]) + (if Severe(rec) == 0 then [] else rec.routes)
  }

  /** The inner loop charges each route once per listing. */
  lemma {:induction false} AddRoutesSums(t: seq<Entry<RouteAcc>>, routes: seq<string>, severe: nat, route: string)
    ensures var before := Get(t, route, Zero);
            var m := multiset(routes)[route];
            Get(AddRoutes(t, routes, severe), route, Zero)
              == RouteAcc(before.totalFriction + severe * m, before.impactedStops + m)
  {
    if |routes| > 0 {
      var init := routes[..|routes| - 1];
      var last := routes[|routes| - 1];
      var t0 := AddRoutes(t, init, severe);
      AddRoutesSums(t, init, severe, route);
      assert AddRoutes(t, routes, severe) == Update(t0, last, Zero, Charge(severe));
      UpdateGet(t0, last, Zero, Charge(severe));
      MultisetSnoc(routes);
      var m := multiset(init)[route];
      if last == route {
        assert multiset(routes)[route] == m + 1;
        MulSucc(severe, m);
      } else {
        assert multiset(routes)[route] == m;
      }
    }
  }

  /** The inner loop extends the key order by the routes not seen before. */
  lemma {:induction false} AddRoutesKeys(t: seq<Entry<RouteAcc>>, names: seq<string>, routes: seq<string>, severe: nat)
    requires Keys(t) == DistinctFrom(names, {})
    ensures Keys(AddRoutes(t, routes, severe)) == DistinctFrom(names + routes, {})
  {
    if |routes| == 0 {
      assert names + routes == names;
    } else {
      var init := routes[..|routes| - 1];
      var last := routes[|routes| - 1];
      var before := names + init;
      var t0 := AddRoutes(t, init, severe);
      AddRoutesKeys(t, names, init, severe);
      assert AddRoutes(t, routes, severe) == Update(t0, last, Zero, Charge(severe));
      UpdateKeys(t0, last, Zero, Charge(severe));
      DistinctFromSnoc(before, last, {});
      AppendSnoc(names, routes);
      assert last in Keys(t0) <==> last in before;
    }
  }

  /** The tally holds, for every route, the severe barriers charged to it
      and the severe stops serving it; a route never charged reads as
      zeros. */
  lemma {:induction false} TallySums(recs: seq<StopRecord>, route: string)
    ensures Get(Tally(recs), route, Zero) == RouteAcc(FrictionOf(recs, route), StopsOf(recs, route))
  {
    if |recs| > 0 {
      var init := recs[..|recs| - 1];
      var rec := recs[|recs| - 1];
      TallySums(init, route);
      if Severe(rec) != 0 {
        AddRoutesSums(Tally(init), rec.routes, Severe(rec), route);
      }
    }
  }

  /** The tally's keys are the routes of the severe records, each once, in
      the order each is first charged. */
  lemma {:induction false} TallyKeys(recs: seq<StopRecord>)
    ensures Keys(Tally(recs)) == DistinctFrom(RouteNames(recs), {})
  {
    if |recs| > 0 {
      var init := recs[..|recs| - 1];
      var rec := recs[|recs| - 1];
      TallyKeys(init);
      if Severe(rec) != 0 {
        AddRoutesKeys(Tally(init), RouteNames(init), rec.routes, Severe(rec));
        assert Tally(recs) == AddRoutes(Tally(init), rec.routes, Severe(rec));
        assert RouteNames(recs) == RouteNames(init) + rec.routes;
      } else {
        assert Tally(recs) == Tally(init);
        assert RouteNames(recs) == RouteNames(init) + [];
        assert RouteNames(init) + [] == RouteNames(init);
      }
    }
  }

  /** A route is among the charged routes exactly when some severe record
      serves it. */
  lemma {:induction false} NamesServed(recs: seq<StopRecord>, route: string)
    ensures route in RouteNames(recs) <==> StopsOf(recs, route) > 0
  {
    if |recs| > 0 {
      var init := recs[..|recs| - 1];
      var rec := recs[|recs| - 1];
      NamesServed(init, route);
      assert route in rec.routes <==> Serves(rec, route) > 0;
    }
  }

  /** One output row. `friction_per_stop` is the ratio rounded to 2
      decimals, or 0 for a route with no impacted stop. */
  function Row(route: string, a: RouteAcc): (r: RouteSummary)
    ensures r.route == route && r.totalFriction == a.totalFriction && r.impactedStops == a.impactedStops
    ensures a.impactedStops != 0 ==>
              -0.005 <= r.frictionPerStop - a.totalFriction as real / a.impactedStops as real <= 0.005
    ensures a.impactedStops == 0 ==> r.frictionPerStop == 0.0
  {
    RouteSummary(
      route,
      a.totalFriction,
      a.impactedStops,
      if a.impactedStops != 0 then RoundTo(a.totalFriction as real / a.impactedStops as real, 0.01) else 0.0)
  }

  /** The loop over `route_agg.items()`: one row per entry, in key order. */
  function Rows(t: seq<Entry<RouteAcc>>): (r: seq<RouteSummary>)
    ensures |r| == |t|
    ensures forall i :: 0 <= i < |t| ==> r[i] == Row(t[i].key, t[i].val)
  {
    if |t| == 0 then [] else [Row(t[0].key, t[0].val)] + Rows(t[1..])
  }

  function Friction(r: RouteSummary): real {
    r.totalFriction as real
  }

  function Named(route: string): RouteSummary -> bool {
    (r: RouteSummary) => r.route == route
  }

  /** The rows with name `route` are as many as the entries with that key. */
  lemma {:induction false} RowsNamed(t: seq<Entry<RouteAcc>>, route: string)
    ensures |Sort.Filter(Rows(t), Named(route))| == multiset(Keys(t))[route]
  {
    if |t| > 0 {
      RowsNamed(t[1..], route);
      assert Keys(t) == [t[0].key] + Keys(t[1..]);
      assert Rows(t)[1..] == Rows(t[1..]);
    }
  }

  /** `routes_out`, sorted by total friction, highest first; rows of equal
      friction keep the order in which their routes were first charged. */
  function Summaries(recs: seq<StopRecord>): (out: seq<RouteSummary>)
    ensures Sort.Descending(out, Friction)
  {
    Sort.SortDesc(Rows(Tally(recs)), Friction)
  }

  /** A route has a row exactly when some severe record serves it, and
      then exactly one. */
  lemma RollupCount(recs: seq<StopRecord>, route: string)
    ensures |Sort.Filter(Summaries(recs), Named(route))| == if StopsOf(recs, route) > 0 then 1 else 0
  {
    var t := Tally(recs);
    TallyKeys(recs);
    Sort.SortPermutes(Rows(t), Friction);
    Sort.FilterPermutation(Summaries(recs), Rows(t), Named(route));
    RowsNamed(t, route);
    NoDupCount(Keys(t), route);
    NamesServed(recs, route);
  }

  /** A route's row is built from the sums over the severe records serving
      it; every route listed has an impacted stop, so the `else 0` branch
      of `friction_per_stop` is never taken. */
  lemma RollupRow(recs: seq<StopRecord>, i: nat)
    requires i < |Summaries(recs)|
    ensures var r := Summaries(recs)[i];
            && StopsOf(recs, r.route) > 0
            && r == Row(r.route, RouteAcc(FrictionOf(recs, r.route), StopsOf(recs, r.route)))
  {
    var t := Tally(recs);
    var rows := Rows(t);
    var out := Summaries(recs);
    Sort.SortPermutes(rows, Friction);
    assert out[i] in multiset(out);
    assert out[i] in multiset(rows);
    var j :| 0 <= j < |rows| && rows[j] == out[i];
    var route := t[j].key;
    TallyKeys(recs);
    GetAt(t, j, Zero);
    TallySums(recs, route);
    NamesServed(recs, route);
    assert Keys(t)[j] == route;
  }

  /** Stability: rows of equal friction appear in the order their routes
      were first charged. */
  lemma RollupStable(recs: seq<StopRecord>, v: real)
    ensures Sort.Filter(Summaries(recs), Sort.KeyIs(Friction, v))
         == Sort.Filter(Rows(Tally(recs)), Sort.KeyIs(Friction, v))
  {
    Sort.SortStable(Rows(Tally(recs)), Friction, v);
  }
}
