/** A stop's severity histogram: `severity_counts` (a defaultdict(int)
    incremented once per counted barrier) emitted as
    `{str(k): v for k, v in sorted(severity_counts.items())}`. It is kept
    here as an association list sorted by level, so only observed levels
    appear, each once, in ascending order. */
module Histogram {
  import opened Records

  /** Levels strictly ascending. */
  predicate Ascending(h: seq<LevelCount>) {
    forall i, j :: 0 <= i < j < |h| ==> h[i].level < h[j].level
  }

  /** Every listed level was observed at least once. */
  predicate Positive(h: seq<LevelCount>) {
    forall i :: 0 <= i < |h| ==> h[i].count > 0
  }

  /** The count recorded for `lv` (0 when `lv` is absent). */
  function CountOf(h: seq<LevelCount>, lv: int): nat {
    if |h| == 0 then 0
    else if h[0].level == lv then h[0].count
    else CountOf(h[1..], lv)
  }

  /** Sum of all counts. */
  function Total(h: seq<LevelCount>): nat {
    if |h| == 0 then 0 else h[0].count + Total(h[1..])
  }

  /** Sum of the counts at levels `>= minLevel`: the expression
      `sum(v for k, v in severity.items() if int(k) >= minLevel)`. */
  function TotalAtLeast(h: seq<LevelCount>, minLevel: int): nat {
    if |h| == 0 then 0
    else (if h[0].level >= minLevel then h[0].count else 0) + TotalAtLeast(h[1..], minLevel)
  }

  /** `severity_counts[lv] += 1`, keeping the list sorted by level. */
  function Add(h: seq<LevelCount>, lv: int): (r: seq<LevelCount>)
    requires Ascending(h) && Positive(h)
    ensures Ascending(r) && Positive(r)
    ensures CountOf(r, lv) == CountOf(h, lv) + 1
    ensures forall l :: l != lv ==> CountOf(r, l) == CountOf(h, l)
    ensures |r| > 0 && r[0].level == if |h| > 0 && h[0].level < lv then h[0].level else lv
  {
    if |h| == 0 then [LevelCount(lv, 1)]
    else if lv < h[0].level then
      AbsentBelowFirst(h, lv);
      [LevelCount(lv, 1)] + h
    else if lv == h[0].level then
      [LevelCount(lv, h[0].count + 1)] + h[1..]
    else
      [h[0]] + Add(h[1..], lv)
  }

  /** Adding one level adds one to the total and to every threshold sum
      the level reaches. */
  lemma {:induction false} AddTotals(h: seq<LevelCount>, lv: int, m: int)
    requires Ascending(h) && Positive(h)
    ensures Total(Add(h, lv)) == Total(h) + 1
    ensures TotalAtLeast(Add(h, lv), m) == TotalAtLeast(h, m) + (if lv >= m then 1 else 0)
  {
    if |h| > 0 && lv > h[0].level {
      AddTotals(h[1..], lv, m);
    }
  }

  /** A level below the first listed one is absent. */
  lemma {:induction false} AbsentBelowFirst(h: seq<LevelCount>, lv: int)
    requires Ascending(h) && |h| > 0 && lv < h[0].level
    ensures CountOf(h, lv) == 0
  {
    if |h| > 1 {
      AbsentBelowFirst(h[1..], lv);
    }
  }

  /** The histogram of a sequence of severity levels: sorted, only observed
      levels, each level's count its number of occurrences. */
  function Build(levels: seq<int>): (h: seq<LevelCount>)
    ensures Ascending(h) && Positive(h)
    ensures forall lv :: CountOf(h, lv) == multiset(levels)[lv]
  {
    if |levels| == 0 then []
    else
      var init := levels[..|levels| - 1];
      var last := levels[|levels| - 1];
      assert levels == init + [last];
      Add(Build(init), last)
  }

  /** The histogram's counts add up to the number of levels, and its
      threshold sums count the levels at or above the threshold. */
  lemma {:induction false} BuildTotals(levels: seq<int>, m: int)
    ensures Total(Build(levels)) == |levels|
    ensures TotalAtLeast(Build(levels), m) == CountAtLeast(levels, m)
  {
    if |levels| > 0 {
      var init := levels[..|levels| - 1];
      BuildTotals(init, m);
      AddTotals(Build(init), levels[|levels| - 1], m);
    }
  }

  /** Number of levels that are `>= m`. */
  function CountAtLeast(levels: seq<int>, m: int): nat {
    if |levels| == 0 then 0
    else CountAtLeast(levels[..|levels| - 1], m) + (if levels[|levels| - 1] >= m then 1 else 0)
  }
}
