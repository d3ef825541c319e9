/** Two worked examples of the whole run: one stop with one barrier 0.0001
    degrees west and 0.0003 degrees north of it, first as a permanent
    barrier of severity 4, then marked temporary. Then two barriers in
    neighbouring cells, which the grid scans in the reverse of their input
    order, and what that does to the stop's record. */
module Scenarios {
  import opened Common
  import opened Records
  import opened Grid
  import opened Join
  import opened Summary
  import Histogram
  import Strings
  import Vote
  import Pipeline
  import Neighborhoods
  import Table
  import Rollup
  import Sort

  function TheStop(): Stop {
    Stop("S1", "3rd Ave & Pike St", -122.33, 47.60)
  }

  function TheBarrier(temporary: string): Barrier {
    Barrier(-122.3301, 47.6003, temporary, Some(4), "NoCurbRamp", "Downtown", "B1")
  }

  /** A scan whose result has the multiplicities of `[b]` is `[b]`. */
  lemma SingleMatch(m: seq<Barrier>, b: Barrier)
    requires multiset(m) == multiset{b}
    ensures m == [b]
  {
    assert |m| == |multiset(m)| == 1;
    assert m[0] in multiset(m);
  }

  /** The grid scan of the example returns exactly the one barrier, since
      it passes the box test. */
  lemma ExampleMatch(temporary: string)
    ensures Match(TheStop(), BuildGrid([TheBarrier(temporary)])) == [TheBarrier(temporary)]
  {
    var s, b := TheStop(), TheBarrier(temporary);
    assert InBox(b, s, Threshold);
    assert Keep([b], s, Threshold) == [b] by {
      assert [b][..0] == [];
    }
    MatchEqualsBruteForce([b], s);
    SingleMatch(Match(s, BuildGrid([b])), b);
  }

  /** The record the stop loop builds from the scan. */
  function Expected(temporary: string): StopRecord {
    if temporary == "true" then
      StopRecord("S1", "3rd Ave & Pike St", 47.60, -122.33, [], None, [], [], 0)
    else
      StopRecord("S1", "3rd Ave & Pike St", 47.60, -122.33, [], Some("Downtown"), ["NoCurbRamp"], [LevelCount(4, 1)], 1)
  }

  /** The stop loop turns the one-barrier scan into the expected record:
      counted when permanent, ignored when temporary. */
  lemma ExampleRecord(temporary: string)
    requires temporary == "true" || temporary == "false"
    ensures Summarize(TheStop(), [TheBarrier(temporary)], RouteMap([])) == Expected(temporary)
  {
    var s, b := TheStop(), TheBarrier(temporary);
    assert [b][1..] == [];
    assert RoutesOf(RouteMap([]), "S1") == [];
    if temporary == "true" {
      assert Counted([b]) == CountedFrom([], {});
    } else {
      assert b.isTemporary != "true" by {
        assert temporary[0] != "true"[0];
      }
      assert CountedFrom([b], {}) == [b] + CountedFrom([b][1..], {} + {b.attributeId});
      assert Counted([b]) == [b];
      assert Levels([b]) == [4];
      assert Histogram.Build([4]) == [LevelCount(4, 1)] by {
        assert [4][..0] == [];
      }
      assert LabelTypes([b]) == ["NoCurbRamp"];
      assert Strings.SortedSet(["NoCurbRamp"]) == ["NoCurbRamp"] by {
        assert ["NoCurbRamp"][..0] == [];
      }
      assert Summary.NeighborhoodLabels([b]) == ["Downtown"];
      Vote.PluralityUnique(["Downtown"], "Downtown");
      assert Ids([b]) == {"B1"};
    }
  }

  /** The run over the example: one record, the expected one. */
  lemma ExampleRun(temporary: string)
    requires temporary == "true" || temporary == "false"
    ensures Pipeline.Run([TheBarrier(temporary)], [TheStop()], []).stops == [Expected(temporary)]
  {
    var s, b := TheStop(), TheBarrier(temporary);
    var g := BuildGrid([b]);
    ExampleMatch(temporary);
    ExampleRecord(temporary);
    Pipeline.StopRecordAt(g, RouteMap([]), [s], 0);
  }

  /** The neighbourhood tally of the permanent example: one entry,
      "Downtown", with the stop's coordinates and one severe barrier. */
  lemma ExampleTally()
    ensures Neighborhoods.Tally([Expected("false")])
         == [Table.Entry("Downtown", Neighborhoods.NbhAcc(47.60, -122.33, 1, 1, 1))]
  {
    var rec := Expected("false");
    assert [rec][..0] == [];
    assert Rollup.Severe(rec) == 1;
    assert Neighborhoods.Qualifies(rec);
  }

  /** The permanent barrier is matched and counted: histogram {4: 1}, one
      barrier type, one barrier, neighbourhood "Downtown"; the
      neighbourhood rollup then has a single row for it, with one impacted
      stop and one severe barrier. */
  lemma PermanentBarrierCounted()
    ensures var out := Pipeline.Run([TheBarrier("false")], [TheStop()], []);
            && out.stops[0].severity == [LevelCount(4, 1)]
            && out.stops[0].barrierTypes == ["NoCurbRamp"]
            && out.stops[0].totalBarriers == 1
            && out.stops[0].neighborhood == Some("Downtown")
            && |out.neighborhoods| == 1
            && out.neighborhoods[0].name == "Downtown"
            && out.neighborhoods[0].impactedStops == 1
            && out.neighborhoods[0].totalBarriers == 1
  {
    ExampleRun("false");
    ExampleTally();
    var acc := Neighborhoods.NbhAcc(47.60, -122.33, 1, 1, 1);
    var t := [Table.Entry("Downtown", acc)];
    var row := Neighborhoods.Row("Downtown", acc);
    assert Neighborhoods.Rows(t) == [row] by {
      assert t[1..] == [];
    }
    assert Sort.SortDesc([row], Neighborhoods.Intensity) == [row] by {
      assert [row][..0] == [];
    }
  }

  /** The same barrier marked temporary is matched by the scan but never
      counted: no barrier, no neighbourhood, and no neighbourhood row. */
  lemma TemporaryBarrierIgnored()
    ensures var out := Pipeline.Run([TheBarrier("true")], [TheStop()], []);
            && out.stops[0].totalBarriers == 0
            && out.stops[0].neighborhood == None
            && out.neighborhoods == []
  {
    ExampleRun("true");
    var recs := [Expected("true")];
    assert recs[..0] == [];
    assert Neighborhoods.Tally(recs) == [];
  }

  /** A counted barrier without a neighbourhood label: the stop gets no
      neighbourhood although it has a barrier. */
  lemma UnlabelledBarrierCounted()
    ensures var b := Barrier(-122.3301, 47.6003, "false", Some(2), "Obstacle", "", "B2");
            var r := Summarize(TheStop(), [b], RouteMap([]));
            r.totalBarriers == 1 && r.neighborhood == None
  {
    var b := Barrier(-122.3301, 47.6003, "false", Some(2), "Obstacle", "", "B2");
    assert [b][1..] == [];
    assert b.isTemporary != "true" by {
      assert b.isTemporary[0] != "true"[0];
    }
    assert CountedFrom([b], {}) == [b] + CountedFrom([b][1..], {} + {b.attributeId});
    assert Counted([b]) == [b];
    assert Summary.NeighborhoodLabels([b]) == [];
    assert Ids([b]) == {"B2"};
  }

  /** Two barriers in the box around `s`: `b` in the stop's own cell and
      `a`, which comes first in the input, one cell east of it. */
  predicate EastAndHome(s: Stop, a: Barrier, b: Barrier) {
    && KeyOf(b) == GridKey(s.lon, s.lat)
    && KeyOf(a) == (KeyOf(b).0 + 1, KeyOf(b).1)
    && InBox(a, s, Threshold) && InBox(b, s, Threshold)
  }

  /** The grid of the two barriers holds `b` in its cell, `a` in the next
      cell east, and nothing elsewhere. */
  lemma TwoBarrierGrid(a: Barrier, b: Barrier)
    requires KeyOf(a) != KeyOf(b)
    ensures var g := BuildGrid([a, b]);
            && Bucket(g, KeyOf(b)) == [b]
            && Bucket(g, KeyOf(a)) == [a]
            && forall k :: k != KeyOf(a) && k != KeyOf(b) ==> Bucket(g, k) == []
  {
    assert [a, b][..1] == [a] && [a][..0] == [];
    assert BuildGrid([a]) == Insert(BuildGrid([]), a);
    assert BuildGrid([a, b]) == Insert(BuildGrid([a]), b);
  }

  /** Scanning one column visits its three cells from south to north. */
  lemma ColumnScan(x: int, y: int, g: Index, s: Stop, t: real)
    ensures ScanCells(Column(x, y), g, s, t)
         == Keep(Bucket(g, (x, y - 1)), s, t) + Keep(Bucket(g, (x, y)), s, t) + Keep(Bucket(g, (x, y + 1)), s, t)
  {
    var c := Column(x, y);
    assert c[1..][1..][1..] == [];
    assert ScanCells(c[1..][1..], g, s, t) == Keep(Bucket(g, (x, y + 1)), s, t) + [];
    assert ScanCells(c[1..], g, s, t) == Keep(Bucket(g, (x, y)), s, t) + ScanCells(c[1..][1..], g, s, t);
  }

  /** A column whose outer cells are empty scans to its middle cell's kept
      barriers. */
  lemma ColumnOnly(x: int, y: int, g: Index, s: Stop, t: real, z: seq<Barrier>)
    requires Bucket(g, (x, y - 1)) == [] && Bucket(g, (x, y + 1)) == []
    requires Keep(Bucket(g, (x, y)), s, t) == z
    ensures ScanCells(Column(x, y), g, s, t) == z
  {
    ColumnScan(x, y, g, s, t);
    assert Keep([], s, t) == [];
  }

  /** A lone barrier in the box is kept. */
  lemma KeepOne(x: Barrier, s: Stop, t: real)
    requires InBox(x, s, t)
    ensures Keep([x], s, t) == [x]
  {
    assert [x][..0] == [] && [x][0] == x;
  }

  /** The block scan is the west column's scan, then the stop's column,
      then the east column. */
  lemma NeighboursScan(c: Key, g: Index, s: Stop, t: real)
    ensures ScanCells(Neighbours(c), g, s, t)
         == ScanCells(Column(c.0 - 1, c.1), g, s, t) + ScanCells(Column(c.0, c.1), g, s, t) + ScanCells(Column(c.0 + 1, c.1), g, s, t)
  {
    var west, home, east := Column(c.0 - 1, c.1), Column(c.0, c.1), Column(c.0 + 1, c.1);
    ScanCellsAppend(west, home, g, s, t);
    ScanCellsAppend(west + home, east, g, s, t);
  }

  /** The grid scan meets the two barriers in the reverse of their input
      order (dx = 0 comes before dx = +1); the brute-force box test keeps
      the input order. */
  lemma ScanReordersInput(s: Stop, a: Barrier, b: Barrier)
    requires EastAndHome(s, a, b)
    ensures Match(s, BuildGrid([a, b])) == [b, a]
    ensures Keep([a, b], s, Threshold) == [a, b]
  {
    var t := Threshold;
    TwoBarrierGrid(a, b);
    KeepOne(a, s, t);
    KeepOne(b, s, t);
    KeepSnoc([a], b, s, t);
    assert [a] + [b] == [a, b];
    ScanTwoCells(BuildGrid([a, b]), s, t, KeyOf(b), a, b);
  }

  /** A grid holding `b` in cell `c`, `a` in the cell east of it and
      nothing else around `c`: the scan around `c` meets `b` first. */
  lemma ScanTwoCells(g: Index, s: Stop, t: real, c: Key, a: Barrier, b: Barrier)
    requires Bucket(g, c) == [b] && Bucket(g, (c.0 + 1, c.1)) == [a]
    requires Bucket(g, (c.0 - 1, c.1 - 1)) == [] && Bucket(g, (c.0 - 1, c.1)) == [] && Bucket(g, (c.0 - 1, c.1 + 1)) == []
    requires Bucket(g, (c.0, c.1 - 1)) == [] && Bucket(g, (c.0, c.1 + 1)) == []
    requires Bucket(g, (c.0 + 1, c.1 - 1)) == [] && Bucket(g, (c.0 + 1, c.1 + 1)) == []
    requires Keep([a], s, t) == [a] && Keep([b], s, t) == [b]
    ensures ScanCells(Neighbours(c), g, s, t) == [b, a]
  {
    TwoCellColumns(g, s, t, c, a, b);
    CombineColumns(g, s, t, c, a, b);
  }

  lemma CombineColumns(g: Index, s: Stop, t: real, c: Key, a: Barrier, b: Barrier)
    requires ScanCells(Column(c.0 - 1, c.1), g, s, t) == []
    requires ScanCells(Column(c.0, c.1), g, s, t) == [b]
    requires ScanCells(Column(c.0 + 1, c.1), g, s, t) == [a]
    ensures ScanCells(Neighbours(c), g, s, t) == [b, a]
  {
    NeighboursScan(c, g, s, t);
    assert [] + [b] + [a] == [b, a];
  }

  /** The three columns around `c` in such a grid. */
  lemma TwoCellColumns(g: Index, s: Stop, t: real, c: Key, a: Barrier, b: Barrier)
    requires Bucket(g, c) == [b] && Bucket(g, (c.0 + 1, c.1)) == [a]
    requires Bucket(g, (c.0 - 1, c.1 - 1)) == [] && Bucket(g, (c.0 - 1, c.1)) == [] && Bucket(g, (c.0 - 1, c.1 + 1)) == []
    requires Bucket(g, (c.0, c.1 - 1)) == [] && Bucket(g, (c.0, c.1 + 1)) == []
    requires Bucket(g, (c.0 + 1, c.1 - 1)) == [] && Bucket(g, (c.0 + 1, c.1 + 1)) == []
    requires Keep([a], s, t) == [a] && Keep([b], s, t) == [b]
    ensures ScanCells(Column(c.0 - 1, c.1), g, s, t) == []
    ensures ScanCells(Column(c.0, c.1), g, s, t) == [b]
    ensures ScanCells(Column(c.0 + 1, c.1), g, s, t) == [a]
  {
    EmptyColumn(g, s, t, c.0 - 1, c.1);
    assert (c.0, c.1) == c;
    SingleColumn(g, s, t, c.0, c.1, b);
    SingleColumn(g, s, t, c.0 + 1, c.1, a);
  }

  lemma EmptyColumn(g: Index, s: Stop, t: real, x: int, y: int)
    requires Bucket(g, (x, y - 1)) == [] && Bucket(g, (x, y)) == [] && Bucket(g, (x, y + 1)) == []
    ensures ScanCells(Column(x, y), g, s, t) == []
  {
    assert Keep([], s, t) == [];
    ColumnOnly(x, y, g, s, t, []);
  }

  lemma SingleColumn(g: Index, s: Stop, t: real, x: int, y: int, b: Barrier)
    requires Bucket(g, (x, y - 1)) == [] && Bucket(g, (x, y)) == [b] && Bucket(g, (x, y + 1)) == []
    requires Keep([b], s, t) == [b]
    ensures ScanCells(Column(x, y), g, s, t) == [b]
  {
    ColumnOnly(x, y, g, s, t, [b]);
  }

  /** Ties in the vote go to the label the scan meets first, not the one
      that comes first in the barrier input: with one vote each, the
      record takes `b`'s label where a brute-force join would take `a`'s. */
  lemma VoteFollowsScanOrder(s: Stop, a: Barrier, b: Barrier)
    requires EastAndHome(s, a, b)
    requires Eligible(a) && Eligible(b) && a.attributeId != b.attributeId
    requires a.neighborhood != "" && b.neighborhood != "" && a.neighborhood != b.neighborhood
    ensures Summarize(s, Match(s, BuildGrid([a, b])), RouteMap([])).neighborhood == Some(b.neighborhood)
    ensures Summarize(s, Keep([a, b], s, Threshold), RouteMap([])).neighborhood == Some(a.neighborhood)
  {
    ScanReordersInput(s, a, b);
    TwoLabelVote(a, b);
    TwoLabelVote(b, a);
  }

  /** A stop at longitude 0.0003 with a barrier labelled "X" at 0.0007
      (one cell east) listed before a barrier labelled "Y" at -0.0001 (the
      stop's own cell): the record's neighbourhood is "Y", where a
      brute-force join would give "X". */
  lemma VoteFollowsScanOrderExample()
    ensures var s := Stop("S2", "Pine St", 0.0003, 0.0);
            var a := Barrier(0.0007, 0.0, "false", Some(3), "Obstacle", "X", "A");
            var b := Barrier(-0.0001, 0.0, "false", Some(3), "Obstacle", "Y", "B");
            && Summarize(s, Match(s, BuildGrid([a, b])), RouteMap([])).neighborhood == Some("Y")
            && Summarize(s, Keep([a, b], s, Threshold), RouteMap([])).neighborhood == Some("X")
  {
    var s := Stop("S2", "Pine St", 0.0003, 0.0);
    var a := Barrier(0.0007, 0.0, "false", Some(3), "Obstacle", "X", "A");
    var b := Barrier(-0.0001, 0.0, "false", Some(3), "Obstacle", "Y", "B");
    assert Round(0.3) == 0 && Round(0.7) == 1 && Round(-0.1) == 0 && Round(0.0) == 0;
    assert EastAndHome(s, a, b);
    VoteFollowsScanOrder(s, a, b);
  }

  /** Two counted barriers with different ids and different labels: the
      vote goes to the first one's label. */
  lemma TwoLabelVote(a: Barrier, b: Barrier)
    requires Eligible(a) && Eligible(b) && a.attributeId != b.attributeId
    requires a.neighborhood != "" && b.neighborhood != "" && a.neighborhood != b.neighborhood
    ensures Vote.Plurality(NeighborhoodLabels(Counted([a, b]))) == Some(a.neighborhood)
  {
    assert [a, b][1..] == [b] && [b][1..] == [];
    assert {} + {a.attributeId} == {a.attributeId};
    assert CountedFrom([a, b], {}) == [a] + CountedFrom([a, b][1..], {} + {a.attributeId});
    assert CountedFrom([b], {a.attributeId}) == [b] + CountedFrom([b][1..], {a.attributeId} + {b.attributeId});
    assert Counted([a, b]) == [a, b];
    var names := [a.neighborhood, b.neighborhood];
    assert NeighborhoodLabels([b]) == [b.neighborhood] + NeighborhoodLabels([]);
    assert NeighborhoodLabels([a, b]) == [a.neighborhood] + NeighborhoodLabels([b]);
    assert NeighborhoodLabels([a, b]) == names;
    assert multiset(names)[a.neighborhood] == 1 && multiset(names)[b.neighborhood] == 1;
    assert FirstIndex(names, a.neighborhood) == 0;
    Vote.PluralityUnique(names, a.neighborhood);
  }

  /** Two eligible records with the same `attribute_id`: the first is
      counted and the second is skipped as already seen. */
  lemma SameIdCountsFirst(a: Barrier, b: Barrier)
    requires Eligible(a) && Eligible(b) && a.attributeId == b.attributeId
    ensures Counted([a, b]) == [a]
  {
    assert [a, b][1..] == [b] && [b][1..] == [];
    assert {} + {a.attributeId} == {a.attributeId};
    assert CountedFrom([a, b], {}) == [a] + CountedFrom([a, b][1..], {} + {a.attributeId});
    assert CountedFrom([b], {a.attributeId}) == CountedFrom([b][1..], {a.attributeId});
  }

  /** The record of a stop whose scan counts one eligible barrier `x`:
      one barrier at `x`'s level, `x`'s type, and `x`'s label if it has one. */
  lemma SingleRecord(s: Stop, nearby: seq<Barrier>, x: Barrier, m: map<string, seq<string>>)
    requires Eligible(x) && Counted(nearby) == [x]
    ensures var r := Summarize(s, nearby, m);
            && r.severity == [LevelCount(x.severity.value, 1)]
            && r.barrierTypes == [x.labelType]
            && r.totalBarriers == 1
            && r.neighborhood == (if x.neighborhood == "" then None else Some(x.neighborhood))
  {
    var lv := x.severity.value;
    assert [x][1..] == [];
    assert Levels([x]) == [lv];
    assert Histogram.Build([lv]) == [LevelCount(lv, 1)] by {
      assert [lv][..0] == [];
    }
    assert LabelTypes([x]) == [x.labelType];
    assert Strings.SortedSet([x.labelType]) == [x.labelType] by {
      assert [x.labelType][..0] == [];
    }
    assert Ids([x]) == {x.attributeId};
    if x.neighborhood != "" {
      assert NeighborhoodLabels([x]) == [x.neighborhood];
      Vote.PluralityUnique([x.neighborhood], x.neighborhood);
    } else {
      assert NeighborhoodLabels([x]) == [];
    }
  }

  /** When an id repeats, the scan order picks which of its records is
      counted: in the layout of `ScanReordersInput`, with two eligible
      records of one id, the grid counts `b` (the stop's own cell) and a
      brute-force join counts `a` (first in the input). */
  lemma CountedFollowsScanOrder(s: Stop, a: Barrier, b: Barrier)
    requires EastAndHome(s, a, b)
    requires Eligible(a) && Eligible(b) && a.attributeId == b.attributeId
    ensures Counted(Match(s, BuildGrid([a, b]))) == [b]
    ensures Counted(Keep([a, b], s, Threshold)) == [a]
  {
    ScanReordersInput(s, a, b);
    SameIdCountsFirst(b, a);
    SameIdCountsFirst(a, b);
  }

  /** Consequently the histogram, the barrier types and the neighbourhood
      of the record follow `b` under the grid and `a` under a brute-force
      join, with no tie involved; only `total_barriers` agrees. */
  lemma HistogramFollowsScanOrder(s: Stop, a: Barrier, b: Barrier)
    requires EastAndHome(s, a, b)
    requires Eligible(a) && Eligible(b) && a.attributeId == b.attributeId
    ensures var r := Summarize(s, Match(s, BuildGrid([a, b])), RouteMap([]));
            && r.severity == [LevelCount(b.severity.value, 1)]
            && r.barrierTypes == [b.labelType]
            && r.neighborhood == (if b.neighborhood == "" then None else Some(b.neighborhood))
            && r.totalBarriers == 1
    ensures var r := Summarize(s, Keep([a, b], s, Threshold), RouteMap([]));
            && r.severity == [LevelCount(a.severity.value, 1)]
            && r.barrierTypes == [a.labelType]
            && r.neighborhood == (if a.neighborhood == "" then None else Some(a.neighborhood))
            && r.totalBarriers == 1
  {
    CountedFollowsScanOrder(s, a, b);
    SingleRecord(s, Match(s, BuildGrid([a, b])), b, RouteMap([]));
    SingleRecord(s, Keep([a, b], s, Threshold), a, RouteMap([]));
  }

  /** The same stop and layout as `VoteFollowsScanOrderExample`, now with
      one id "A" on both records: severity 2 and type "T1" one cell east,
      first in the input; severity 4 and type "T2" in the stop's own cell.
      The grid record has one barrier at level 4 of type "T2" and one
      severe barrier for the rollups; a brute-force join would give level
      2, type "T1", and no severe barrier, so the stop would join neither
      rollup. */
  lemma HistogramFollowsScanOrderExample()
    ensures var s := Stop("S3", "Elm St", 0.0003, 0.0);
            var a := Barrier(0.0007, 0.0, "false", Some(2), "T1", "", "A");
            var b := Barrier(-0.0001, 0.0, "false", Some(4), "T2", "", "A");
            var g := Summarize(s, Match(s, BuildGrid([a, b])), RouteMap([]));
            var k := Summarize(s, Keep([a, b], s, Threshold), RouteMap([]));
            && g.severity == [LevelCount(4, 1)] && g.barrierTypes == ["T2"] && Rollup.Severe(g) == 1
            && k.severity == [LevelCount(2, 1)] && k.barrierTypes == ["T1"] && Rollup.Severe(k) == 0
  {
    var s := Stop("S3", "Elm St", 0.0003, 0.0);
    var a := Barrier(0.0007, 0.0, "false", Some(2), "T1", "", "A");
    var b := Barrier(-0.0001, 0.0, "false", Some(4), "T2", "", "A");
    assert Round(0.3) == 0 && Round(0.7) == 1 && Round(-0.1) == 0 && Round(0.0) == 0;
    assert EastAndHome(s, a, b);
    HistogramFollowsScanOrder(s, a, b);
    SevereOneLevel(Summarize(s, Match(s, BuildGrid([a, b])), RouteMap([])), 4);
    SevereOneLevel(Summarize(s, Keep([a, b], s, Threshold), RouteMap([])), 2);
  }

  /** A histogram of one barrier counts it as severe exactly when its
      level reaches the rollups' threshold. */
  lemma SevereOneLevel(r: StopRecord, lv: int)
    requires r.severity == [LevelCount(lv, 1)]
    ensures Rollup.Severe(r) == if lv >= Rollup.MinSeverity then 1 else 0
  {
    var h := r.severity;
    assert h[0].level == lv && h[0].count == 1 && h[1..] == [];
    assert Histogram.TotalAtLeast(h[1..], Rollup.MinSeverity) == 0;
    assert Rollup.Severe(r) == Histogram.TotalAtLeast(h, Rollup.MinSeverity);
  }
}
