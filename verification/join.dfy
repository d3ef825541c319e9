/** The proximity join: for one stop, the 3x3 block of grid cells around the
    stop's own cell is scanned and every barrier passing the inclusive
    axis-aligned box test is kept, in scan order (preprocess.py:54-64). */
module Join {
  import opened Common
  import opened Records
  import opened Grid

  /** The box half-width, in degrees, written as a literal at
      preprocess.py:63. Nothing relates it to GridSize at run time. */
  const Threshold: real := 0.0005

  /** The inclusive box test `abs(b_lon - lon) <= t and abs(b_lat - lat) <= t`. */
  predicate InBox(b: Barrier, s: Stop, t: real) {
    Abs(b.lon - s.lon) <= t && Abs(b.lat - s.lat) <= t
  }

  /** The three cells (x, y - 1), (x, y), (x, y + 1): the inner `dy` loop. */
  function Column(x: int, y: int): seq<Key> {
    [(x, y - 1), (x, y), (x, y + 1)]
  }

  /** The nine cells visited, in the source's loop order: dx outer, dy inner,
      each over (-1, 0, 1). */
  function Neighbours(c: Key): seq<Key> {
    Column(c.0 - 1, c.1) + Column(c.0, c.1) + Column(c.0 + 1, c.1)
  }

  /** The scan reaches exactly the cells of the 3x3 block around `c`. */
  lemma NeighboursBlock(c: Key, k: Key)
    ensures k in Neighbours(c) <==> -1 <= k.0 - c.0 <= 1 && -1 <= k.1 - c.1 <= 1
  {
    var n := Neighbours(c);
    if -1 <= k.0 - c.0 <= 1 && -1 <= k.1 - c.1 <= 1 {
      assert n[3 * (k.0 - c.0 + 1) + (k.1 - c.1 + 1)] == k;
    }
  }

  /** The nine cells are pairwise different. */
  lemma NeighboursDistinct(c: Key)
    ensures |Neighbours(c)| == 9
    ensures NoDup(Neighbours(c))
  {
    var n := Neighbours(c);
    forall i, j | 0 <= i < j < |n| ensures n[i] != n[j] {
      assert n[i] == (c.0 - 1 + i / 3, c.1 - 1 + i % 3);
      assert n[j] == (c.0 - 1 + j / 3, c.1 - 1 + j % 3);
    }
  }

  /** Together: the scan visits each cell of the 3x3 block around `c`
      exactly once, and no other cell. */
  lemma NeighboursCounts(c: Key, k: Key)
    ensures |Neighbours(c)| == 9
    ensures multiset(Neighbours(c))[k] == if -1 <= k.0 - c.0 <= 1 && -1 <= k.1 - c.1 <= 1 then 1 else 0
  {
    NeighboursBlock(c, k);
    NeighboursDistinct(c);
    NoDupCount(Neighbours(c), k);
  }

  /** The barriers of `bs` passing the box test, in order. Applied to all
      barriers this is the brute-force join the grid is meant to speed up. */
  function Keep(bs: seq<Barrier>, s: Stop, t: real): seq<Barrier>
  {
    if |bs| == 0 then []
    else Keep(bs[..|bs| - 1], s, t) + (if InBox(bs[|bs| - 1], s, t) then [bs[|bs| - 1]] else [])
  }

  /** The brute-force join keeps exactly the barriers passing the box test,
      each as often as it occurs in the input. */
  lemma {:induction false} KeepSpec(bs: seq<Barrier>, s: Stop, t: real, b: Barrier)
    ensures multiset(Keep(bs, s, t))[b] == if InBox(b, s, t) then multiset(bs)[b] else 0
  {
    if |bs| > 0 {
      var init := bs[..|bs| - 1];
      KeepSpec(init, s, t, b);
      assert bs == init + [bs[|bs| - 1]];
    }
  }

  lemma KeepSnoc(bs: seq<Barrier>, b: Barrier, s: Stop, t: real)
    ensures Keep(bs + [b], s, t) == Keep(bs, s, t) + (if InBox(b, s, t) then [b] else [])
  {
    assert (bs + [b])[..|bs|] == bs;
  }

  /** The scan of the given cells, in order, each filtered by the box test. */
  function ScanCells(cells: seq<Key>, g: Index, s: Stop, t: real): seq<Barrier>
  {
    if |cells| == 0 then []
    else Keep(Bucket(g, cells[0]), s, t) + ScanCells(cells[1..], g, s, t)
  }

  /** `nearby_barriers` for stop `s` with box half-width `t`. */
  function MatchWithin(s: Stop, g: Index, t: real): seq<Barrier>
  {
    ScanCells(Neighbours(GridKey(s.lon, s.lat)), g, s, t)
  }

  /** The join as written, at the literal threshold. */
  function Match(s: Stop, g: Index): seq<Barrier>
  {
    MatchWithin(s, g, Threshold)
  }

  /** Soundness: every barrier the scan reports passes the box test and
      sits in one of the grid's buckets. */
  lemma {:induction false} ScanSound(cells: seq<Key>, g: Index, s: Stop, t: real, b: Barrier)
    requires b in ScanCells(cells, g, s, t)
    ensures InBox(b, s, t)
    ensures exists k :: k in cells && b in Bucket(g, k)
  {
    var head := Keep(Bucket(g, cells[0]), s, t);
    var rest := ScanCells(cells[1..], g, s, t);
    assert ScanCells(cells, g, s, t) == head + rest;
    if b in head {
      KeepSpec(Bucket(g, cells[0]), s, t, b);
      assert multiset(head)[b] > 0;
      assert cells[0] in cells;
    } else {
      ScanSound(cells[1..], g, s, t, b);
      var k :| k in cells[1..] && b in Bucket(g, k);
      assert k in cells;
    }
  }

  /** Completeness of the 3x3 block: a barrier that passes the box test
      with any half-width below one cell lies in a neighbouring cell of the
      stop's cell. Rounding moves each scaled coordinate by at most 1/2,
      so two points less than one cell apart round at most one cell apart.
      In particular this covers `t <= GridSize / 2`. */
  lemma NearbyIsInNeighbourCell(b: Barrier, s: Stop, t: real)
    requires t < GridSize
    requires InBox(b, s, t)
    ensures multiset(Neighbours(GridKey(s.lon, s.lat)))[KeyOf(b)] == 1
  {
    var kb := KeyOf(b);
    var ks := GridKey(s.lon, s.lat);
    assert Abs(b.lon / GridSize - s.lon / GridSize) < 1.0;
    assert Abs(b.lat / GridSize - s.lat / GridSize) < 1.0;
    assert -1 <= kb.0 - ks.0 <= 1;
    assert -1 <= kb.1 - ks.1 <= 1;
    NeighboursCounts(ks, kb);
  }

  /** Adding one barrier to the grid adds it to the scan of distinct cells
      once if its cell is scanned and it passes the box test, and otherwise
      changes nothing. */
  lemma {:induction false} ScanAppend(cells: seq<Key>, g: Index, g': Index, kb: Key, b: Barrier, s: Stop, t: real)
    requires multiset(cells)[kb] <= 1
    requires Bucket(g', kb) == Bucket(g, kb) + [b]
    requires forall k :: k != kb ==> Bucket(g', k) == Bucket(g, k)
    ensures multiset(ScanCells(cells, g', s, t))
         == multiset(ScanCells(cells, g, s, t))
          + (if multiset(cells)[kb] == 1 && InBox(b, s, t) then multiset{b} else multiset{})
  {
    if |cells| > 0 {
      var c := cells[0];
      CountHead(cells, kb);
      ScanAppend(cells[1..], g, g', kb, b, s, t);
      ScanCons(cells, g, s, t);
      ScanCons(cells, g', s, t);
      var d := if InBox(b, s, t) then multiset{b} else multiset{};
      BucketDelta(g, g', kb, b, c, s, t);
      SplitDelta(multiset(Keep(Bucket(g, c), s, t)), multiset(Keep(Bucket(g', c), s, t)),
                 multiset(ScanCells(cells[1..], g, s, t)), multiset(ScanCells(cells[1..], g', s, t)),
                 d, c == kb, multiset(cells[1..])[kb] == 1);
    }
  }

  /** One scanned cell of the grown grid keeps what the old cell kept,
      plus the new barrier if it is this cell's and passes the box test. */
  lemma BucketDelta(g: Index, g': Index, kb: Key, b: Barrier, c: Key, s: Stop, t: real)
    requires Bucket(g', kb) == Bucket(g, kb) + [b]
    requires forall k :: k != kb ==> Bucket(g', k) == Bucket(g, k)
    ensures multiset(Keep(Bucket(g', c), s, t))
         == multiset(Keep(Bucket(g, c), s, t)) + (if c == kb && InBox(b, s, t) then multiset{b} else multiset{})
  {
    if c == kb {
      KeepDelta(Bucket(g, c), b, s, t);
    } else {
      assert Bucket(g', c) == Bucket(g, c);
    }
  }

  /** The bookkeeping of `ScanAppend`: a change that lands in at most one
      of two parts lands once in their sum. */
  lemma SplitDelta<T>(h: multiset<T>, h': multiset<T>, r: multiset<T>, r': multiset<T>, d: multiset<T>, inHead: bool, inRest: bool)
    requires !(inHead && inRest)
    requires h' == h + (if inHead then d else multiset{})
    requires r' == r + (if inRest then d else multiset{})
    ensures h' + r' == h + r + (if inHead || inRest then d else multiset{})
  {
  }

  lemma ScanCons(cells: seq<Key>, g: Index, s: Stop, t: real)
    requires |cells| > 0
    ensures multiset(ScanCells(cells, g, s, t))
         == multiset(Keep(Bucket(g, cells[0]), s, t)) + multiset(ScanCells(cells[1..], g, s, t))
  {
  }

  /** Appending one barrier to a bucket adds it to the bucket's kept
      barriers exactly when it passes the box test. */
  lemma KeepDelta(bs: seq<Barrier>, b: Barrier, s: Stop, t: real)
    ensures multiset(Keep(bs + [b], s, t))
         == multiset(Keep(bs, s, t)) + (if InBox(b, s, t) then multiset{b} else multiset{})
  {
    KeepSnoc(bs, b, s, t);
  }

  /** Join equivalence: for every half-width below one grid cell, the 3x3
      scan of the grid built from `bs` returns exactly the barriers that a
      brute-force box test over all of `bs` returns, with the same
      multiplicities (only the order differs). */
  lemma {:induction false} JoinEquivalence(bs: seq<Barrier>, s: Stop, t: real)
    requires t < GridSize
    ensures multiset(MatchWithin(s, BuildGrid(bs), t)) == multiset(Keep(bs, s, t))
  {
    var cells := Neighbours(GridKey(s.lon, s.lat));
    if |bs| > 0 {
      var init := bs[..|bs| - 1];
      var last := bs[|bs| - 1];
      JoinEquivalence(init, s, t);
      var e: multiset<Barrier> := if InBox(last, s, t) then multiset{last} else multiset{};
      NeighboursCounts(GridKey(s.lon, s.lat), KeyOf(last));
      ScanAppend(cells, BuildGrid(init), BuildGrid(bs), KeyOf(last), last, s, t);
      if InBox(last, s, t) {
        NearbyIsInNeighbourCell(last, s, t);
      }
      assert multiset(MatchWithin(s, BuildGrid(bs), t)) == multiset(MatchWithin(s, BuildGrid(init), t)) + e;
      assert multiset(Keep(bs, s, t)) == multiset(Keep(init, s, t)) + e;
    } else {
      ScanEmpty(cells, BuildGrid(bs), s, t);
    }
  }

  /** The join at the source's constants: threshold 0.0005 with 0.001 cells. */
  lemma MatchEqualsBruteForce(bs: seq<Barrier>, s: Stop)
    ensures multiset(Match(s, BuildGrid(bs))) == multiset(Keep(bs, s, Threshold))
  {
    JoinEquivalence(bs, s, Threshold);
  }

  /** The bound is tight: at a half-width of a full cell the scan misses a
      barrier that the box test accepts. The stop's scaled longitude 0.5
      rounds to 0 and the barrier's 1.5 rounds to 2 (ties go to even), so
      the barrier's cell is two columns away. */
  lemma ScanIncompleteAtFullCell()
    ensures var s := Stop("s", "s", 0.0005, 0.0);
            var b := Barrier(0.0015, 0.0, "false", Some(3), "t", "", "b");
            Keep([b], s, GridSize) == [b]
            && MatchWithin(s, BuildGrid([b]), GridSize) == []
  {
    var s := Stop("s", "s", 0.0005, 0.0);
    var b := Barrier(0.0015, 0.0, "false", Some(3), "t", "", "b");
    assert InBox(b, s, GridSize);
    assert Round(0.5) == 0;
    assert Round(1.5) == 2;
    assert GridKey(s.lon, s.lat) == (0, 0);
    assert KeyOf(b) == (2, 0);
    var g := BuildGrid([b]);
    assert g == Insert(map[], b) by {
      assert [b][..0] == [];
      assert BuildGrid([b][..0]) == map[];
    }
    assert g.Keys == {(2, 0)};
    var cells := Neighbours((0, 0));
    forall i | 0 <= i < |cells| ensures Bucket(g, cells[i]) == [] {
      NeighboursBlock((0, 0), cells[i]);
    }
    ScanEmpty(cells, g, s, GridSize);
  }

  /** Scanning two runs of cells is scanning the first, then the second. */
  lemma {:induction false} ScanCellsAppend(c1: seq<Key>, c2: seq<Key>, g: Index, s: Stop, t: real)
    ensures ScanCells(c1 + c2, g, s, t) == ScanCells(c1, g, s, t) + ScanCells(c2, g, s, t)
  {
    if |c1| == 0 {
      assert c1 + c2 == c2;
    } else {
      assert (c1 + c2)[0] == c1[0] && (c1 + c2)[1..] == c1[1..] + c2;
      ScanCellsAppend(c1[1..], c2, g, s, t);
    }
  }

  lemma {:induction false} ScanEmpty(cells: seq<Key>, g: Index, s: Stop, t: real)
    requires forall i :: 0 <= i < |cells| ==> Bucket(g, cells[i]) == []
    ensures ScanCells(cells, g, s, t) == []
  {
    if |cells| > 0 {
      ScanEmpty(cells[1..], g, s, t);
    }
  }
}
