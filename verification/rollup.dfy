/** What both rollups read from a stop record: its number of barriers at
    or above the default severity threshold
    (`sum(v for k, v in s["severity"].items() if int(k) >= 3)`,
    preprocess.py:116 and :148). */
module Rollup {
  import opened Records
  import Histogram
  import Summary

  /** The default severity threshold of both rollups. */
  const MinSeverity: int := 3

  function Severe(rec: StopRecord): nat {
    Histogram.TotalAtLeast(rec.severity, MinSeverity)
  }

  /** Read back from a record built by the per-stop aggregation, the sum
      over the histogram is the number of counted barriers whose severity
      reaches the threshold, and never more than `total_barriers`. */
  lemma SevereCountsSevereBarriers(stop: Stop, nearby: seq<Barrier>, routeMap: map<string, seq<string>>)
    ensures var rec := Summary.Summarize(stop, nearby, routeMap);
            var levels := Summary.Levels(Summary.Counted(nearby));
            && Severe(rec) == Histogram.CountAtLeast(levels, MinSeverity)
            && Severe(rec) <= rec.totalBarriers
  {
    var levels := Summary.Levels(Summary.Counted(nearby));
    Summary.SummarizeSpec(stop, nearby, routeMap);
    Histogram.BuildTotals(levels, MinSeverity);
    CountAtLeastBound(levels, MinSeverity);
  }

  lemma {:induction false} CountAtLeastBound(levels: seq<int>, m: int)
    ensures Histogram.CountAtLeast(levels, m) <= |levels|
  {
    if |levels| > 0 {
      CountAtLeastBound(levels[..|levels| - 1], m);
    }
  }

  /** A record is severe exactly when one of its counted levels reaches
      the threshold. */
  lemma {:induction false} CountAtLeastPositive(levels: seq<int>, m: int)
    ensures Histogram.CountAtLeast(levels, m) > 0 <==> exists i :: 0 <= i < |levels| && levels[i] >= m
  {
    if |levels| > 0 {
      var init := levels[..|levels| - 1];
      CountAtLeastPositive(init, m);
      if exists i :: 0 <= i < |init| && init[i] >= m {
        var i :| 0 <= i < |init| && init[i] >= m;
        assert levels[i] >= m;
      }
      if exists i :: 0 <= i < |levels| && levels[i] >= m {
        var i :| 0 <= i < |levels| && levels[i] >= m;
        if i < |init| {
          assert init[i] >= m;
        }
      }
    }
  }
}
