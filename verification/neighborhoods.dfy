/** The neighbourhood rollup (preprocess.py:111-138): stop records that
    carry a neighbourhood and at least one severe barrier are grouped by
    neighbourhood; each group yields its centroid, its number of impacted
    stops, its severe-barrier total and its friction intensity (severe
    barriers per impacted stop); the rows are sorted by intensity, highest
    first. */
module Neighborhoods {
  import opened Common
  import opened Records
  import opened Table
  import opened Rollup
  import Sort

  /** The running sums `{"lat_sum", "lon_sum", "count", "barriers", "stops"}`. */
  datatype NbhAcc = NbhAcc(latSum: real, lonSum: real, count: nat, barriers: nat, stops: nat)

  /** The defaultdict's initial value. */
  const Zero := NbhAcc(0.0, 0.0, 0, 0, 0)

  /** One row of the neighbourhoods artifact. */
  datatype NeighborhoodSummary = NeighborhoodSummary(
    name: string,
    lat: real,
    lon: real,
    impactedStops: nat,
    totalBarriers: nat,
    frictionIntensity: real)

  /** The record passes both `continue` tests: it has a (non-empty)
      neighbourhood and a non-zero severe count. */
  predicate Qualifies(rec: StopRecord) {
    rec.neighborhood.Some? && rec.neighborhood.value != "" && Severe(rec) != 0
  }

  /** The five increments applied to `nbh_agg[name]` for one record. */
  function Accumulate(rec: StopRecord): NbhAcc -> NbhAcc {
    (n: NbhAcc) => NbhAcc(n.latSum + rec.lat, n.lonSum + rec.lon, n.count + 1, n.barriers + Severe(rec), n.stops + 1)
  }

  /** Every entry has `count == stops >= 1`: the two counters move
      together and an entry is only ever created by an increment. */
  predicate WellFormed(t: seq<Entry<NbhAcc>>) {
    forall i :: 0 <= i < |t| ==> t[i].val.count == t[i].val.stops && t[i].val.count >= 1
  }

  /** `nbh_agg` after the loop over `recs`. */
  function Tally(recs: seq<StopRecord>): (t: seq<Entry<NbhAcc>>)
    ensures WellFormed(t)
  {
    if |recs| == 0 then []
    else
      var t := Tally(recs[..|recs| - 1]);
      var rec := recs[|recs| - 1];
      if Qualifies(rec) then
        AccumulateWellFormed(t, rec.neighborhood.value, rec);
        Update(t, rec.neighborhood.value, Zero, Accumulate(rec))
      else t
  }

  /** One increment keeps `count == stops >= 1` for every entry. */
  lemma AccumulateWellFormed(t: seq<Entry<NbhAcc>>, name: string, rec: StopRecord)
    requires WellFormed(t)
    ensures WellFormed(Update(t, name, Zero, Accumulate(rec)))
  {
    var r := Update(t, name, Zero, Accumulate(rec));
    UpdateEntries(t, name, Zero, Accumulate(rec));
    forall i | 0 <= i < |r| ensures r[i].val.count == r[i].val.stops && r[i].val.count >= 1 {
      if i < |t| {
        assert r[i] == t[i] || r[i] == Entry(name, Accumulate(rec)(t[i].val));
      } else {
        assert r[i] == Entry(name, Accumulate(rec)(Zero));
      }
    }
  }

  // Reference definitions: the sums over the qualifying records of one
  // neighbourhood, stated without the dictionary.

  /** The qualifying records labelled `name`, in order. */
  function QualifyingIn(recs: seq<StopRecord>, name: string): seq<StopRecord> {
    if |recs| == 0 then []
    else
      var rec := recs[|recs| - 1];
      QualifyingIn(recs[..|recs| - 1], name) + (if Qualifies(rec) && rec.neighborhood.value == name then [rec] else [])
  }

  /** The neighbourhoods of the qualifying records, in order, with repeats. */
  function QualifyingNames(recs: seq<StopRecord>): seq<string> {
    if |recs| == 0 then []
    else
      var rec := recs[|recs| - 1];
      QualifyingNames(recs[..|recs| - 1]) + (if Qualifies(rec) then [rec.neighborhood.value] else [])
  }

  function LatSum(rs: seq<StopRecord>): real {
    if |rs| == 0 then 0.0 else LatSum(rs[..|rs| - 1]) + rs[|rs| - 1].lat
  }

  function LonSum(rs: seq<StopRecord>): real {
    if |rs| == 0 then 0.0 else LonSum(rs[..|rs| - 1]) + rs[|rs| - 1].lon
  }

  function SevereSum(rs: seq<StopRecord>): nat {
    if |rs| == 0 then 0 else SevereSum(rs[..|rs| - 1]) + Severe(rs[|rs| - 1])
  }

  /** The sums the tally should hold for `name`. */
  function Expected(recs: seq<StopRecord>, name: string): NbhAcc {
    var rs := QualifyingIn(recs, name);
    NbhAcc(LatSum(rs), LonSum(rs), |rs|, SevereSum(rs), |rs|)
  }

  /** The tally holds, for every neighbourhood, the sums over exactly the
      qualifying records carrying it; a neighbourhood without any reads as
      all zeros. */
  lemma {:induction false} TallySums(recs: seq<StopRecord>, name: string)
    ensures Get(Tally(recs), name, Zero) == Expected(recs, name)
  {
    if |recs| > 0 {
      var init := recs[..|recs| - 1];
      var rec := recs[|recs| - 1];
      TallySums(init, name);
      var t := Tally(init);
      if Qualifies(rec) && rec.neighborhood.value == name {
        var rs := QualifyingIn(init, name);
        assert QualifyingIn(recs, name) == rs + [rec];
        SumsSnoc(rs, rec);
        var before := Get(t, name, Zero);
        assert Tally(recs) == Update(t, name, Zero, Accumulate(rec));
        UpdateGet(t, name, Zero, Accumulate(rec));
        assert Get(Tally(recs), name, Zero) == Accumulate(rec)(before);
      } else {
        if Qualifies(rec) {
          UpdateGet(t, rec.neighborhood.value, Zero, Accumulate(rec));
        }
        assert QualifyingIn(recs, name) == QualifyingIn(init, name);
        assert Get(Tally(recs), name, Zero) == Get(t, name, Zero);
      }
    }
  }

  lemma SumsSnoc(rs: seq<StopRecord>, rec: StopRecord)
    ensures LatSum(rs + [rec]) == LatSum(rs) + rec.lat
    ensures LonSum(rs + [rec]) == LonSum(rs) + rec.lon
    ensures SevereSum(rs + [rec]) == SevereSum(rs) + Severe(rec)
  {
    assert (rs + [rec])[..|rs|] == rs;
  }

  /** The tally's keys are the qualifying neighbourhoods, each once, in
      the order each first qualifies. */
  lemma {:induction false} TallyKeys(recs: seq<StopRecord>)
    ensures Keys(Tally(recs)) == DistinctFrom(QualifyingNames(recs), {})
  {
    if |recs| > 0 {
      var init := recs[..|recs| - 1];
      var rec := recs[|recs| - 1];
      TallyKeys(init);
      var names := QualifyingNames(init);
      if Qualifies(rec) {
        var name := rec.neighborhood.value;
        DistinctFromSnoc(names, name, {});
        UpdateKeys(Tally(init), name, Zero, Accumulate(rec));
        assert QualifyingNames(recs) == names + [name];
        assert name in Keys(Tally(init)) <==> name in names;
        assert Tally(recs) == Update(Tally(init), name, Zero, Accumulate(rec));
      } else {
        assert QualifyingNames(recs) == names;
        assert Tally(recs) == Tally(init);
      }
    }
  }

  /** One output row from a neighbourhood's sums: the centroid rounded to
      6 decimals, the intensity rounded to 1 decimal. */
  function Row(name: string, n: NbhAcc): (r: NeighborhoodSummary)
    requires n.count != 0 && n.stops == n.count
    ensures r.name == name && r.impactedStops == n.stops && r.totalBarriers == n.barriers
    ensures -0.0000005 <= r.lat - n.latSum / n.count as real <= 0.0000005
    ensures -0.0000005 <= r.lon - n.lonSum / n.count as real <= 0.0000005
    ensures -0.05 <= r.frictionIntensity - n.barriers as real / n.stops as real <= 0.05
  {
    NeighborhoodSummary(
      name,
      RoundTo(n.latSum / n.count as real, 0.000001),
      RoundTo(n.lonSum / n.count as real, 0.000001),
      n.stops,
      n.barriers,
      RoundTo(n.barriers as real / n.stops as real, 0.1))
  }

  /** The loop over `nbh_agg.items()`, skipping entries with `count == 0`. */
  function Rows(t: seq<Entry<NbhAcc>>): seq<NeighborhoodSummary>
    requires forall i :: 0 <= i < |t| ==> t[i].val.count == t[i].val.stops
  {
    if |t| == 0 then []
    else if t[0].val.count == 0 then Rows(t[1..])
    else [Row(t[0].key, t[0].val)] + Rows(t[1..])
  }

  /** On a tally the `count == 0` test never fires: one row per entry, in
      key order. */
  lemma {:induction false} RowsKeepAll(t: seq<Entry<NbhAcc>>)
    requires WellFormed(t)
    ensures |Rows(t)| == |t|
    ensures forall i :: 0 <= i < |t| ==> Rows(t)[i] == Row(t[i].key, t[i].val)
  {
    if |t| > 0 {
      assert WellFormed(t[1..]);
      RowsKeepAll(t[1..]);
    }
  }

  function Intensity(r: NeighborhoodSummary): real {
    r.frictionIntensity
  }

  function Named(name: string): NeighborhoodSummary -> bool {
    (r: NeighborhoodSummary) => r.name == name
  }

  /** The rows with name `name` are as many as the entries with key `name`. */
  lemma {:induction false} RowsNamed(t: seq<Entry<NbhAcc>>, name: string)
    requires WellFormed(t)
    ensures |Sort.Filter(Rows(t), Named(name))| == multiset(Keys(t))[name]
  {
    if |t| > 0 {
      assert WellFormed(t[1..]);
      RowsNamed(t[1..], name);
      assert Keys(t) == [t[0].key] + Keys(t[1..]);
      assert Rows(t)[1..] == Rows(t[1..]);
    }
  }

  /** `neighborhoods_out`, sorted by intensity, highest first; rows of
      equal intensity keep the order in which their neighbourhoods first
      qualified. */
  function Summaries(recs: seq<StopRecord>): (out: seq<NeighborhoodSummary>)
    ensures Sort.Descending(out, Intensity)
  {
    var t := Tally(recs);
    Sort.SortDesc(Rows(t), Intensity)
  }

  /** The rollup, stated without the dictionary: a neighbourhood has a row
      exactly when some qualifying record carries it, and then exactly
      one. */
  lemma RollupCount(recs: seq<StopRecord>, name: string)
    ensures |Sort.Filter(Summaries(recs), Named(name))| == if |QualifyingIn(recs, name)| > 0 then 1 else 0
  {
    var t := Tally(recs);
    TallyKeys(recs);
    var rows := Rows(t);
    Sort.SortPermutes(rows, Intensity);
    Sort.FilterPermutation(Summaries(recs), rows, Named(name));
    RowsNamed(t, name);
    NoDupCount(Keys(t), name);
    NamesQualify(recs, name);
  }

  /** A neighbourhood's row is built from the sums over precisely the
      qualifying records that carry it. */
  lemma RollupRow(recs: seq<StopRecord>, i: nat)
    ensures i < |Summaries(recs)| ==>
            var r := Summaries(recs)[i];
            |QualifyingIn(recs, r.name)| > 0 && r == Row(r.name, Expected(recs, r.name))
  {
    var out := Summaries(recs);
    if i < |out| {
      var t := Tally(recs);
      RowsKeepAll(t);
      var rows := Rows(t);
      Sort.SortPermutes(rows, Intensity);
      assert out[i] in multiset(out);
      assert out[i] in multiset(rows);
      var j :| 0 <= j < |rows| && rows[j] == out[i];
      TallyEntry(recs, j);
    }
  }

  /** Each tally entry holds the reference sums for its key, over a
      non-empty set of records. */
  lemma TallyEntry(recs: seq<StopRecord>, j: nat)
    requires j < |Tally(recs)|
    ensures var e := Tally(recs)[j];
            |QualifyingIn(recs, e.key)| > 0 && e.val == Expected(recs, e.key)
  {
    var t := Tally(recs);
    var name := t[j].key;
    TallyKeys(recs);
    GetAt(t, j, Zero);
    TallySums(recs, name);
    NamesQualify(recs, name);
    assert Keys(t)[j] == name;
  }

  /** A name occurs among the qualifying names exactly when some
      qualifying record carries it. */
  lemma {:induction false} NamesQualify(recs: seq<StopRecord>, name: string)
    ensures name in QualifyingNames(recs) <==> |QualifyingIn(recs, name)| > 0
  {
    if |recs| > 0 {
      NamesQualify(recs[..|recs| - 1], name);
    }
  }

  /** Stability: rows of equal intensity appear in the order their
      neighbourhoods first qualified. */
  lemma RollupStable(recs: seq<StopRecord>, v: real)
    ensures Sort.Filter(Summaries(recs), Sort.KeyIs(Intensity, v))
         == Sort.Filter(Rows(Tally(recs)), Sort.KeyIs(Intensity, v))
  {
    var t := Tally(recs);
    Sort.SortStable(Rows(t), Intensity, v);
  }
}
