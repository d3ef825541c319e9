/** The spatial grid index: barriers bucketed by the rounded coordinates of
    their own position (preprocess.py `grid_key` and the construction loop
    in `main`). */
module Grid {
  import opened Common
  import opened Records

  /** Cell edge length in degrees. */
  const GridSize: real := 0.001

  /** A cell key: (rounded lon / GridSize, rounded lat / GridSize). */
  type Key = (int, int)

  type Index = map<Key, seq<Barrier>>

  /** `grid_key(lon, lat)`. The key lies within half a cell of the scaled
      coordinates on each axis. */
  function GridKey(lon: real, lat: real): (k: Key)
    ensures Abs(k.0 as real - lon / GridSize) <= 0.5
    ensures Abs(k.1 as real - lat / GridSize) <= 0.5
  {
    (Round(lon / GridSize), Round(lat / GridSize))
  }

  function KeyOf(b: Barrier): Key {
    GridKey(b.lon, b.lat)
  }

  /** `barrier_grid.get(cell, [])`. */
  function Bucket(g: Index, k: Key): seq<Barrier> {
    if k in g then g[k] else []
  }

  /** `barrier_grid[key].append(b)` on a defaultdict(list): appends `b` to
      its own bucket, creating it if needed, and touches no other bucket. */
  function Insert(g: Index, b: Barrier): (r: Index)
    ensures r.Keys == g.Keys + {KeyOf(b)}
    ensures Bucket(r, KeyOf(b)) == Bucket(g, KeyOf(b)) + [b]
    ensures forall k :: k != KeyOf(b) ==> Bucket(r, k) == Bucket(g, k)
  {
    g[KeyOf(b) := Bucket(g, KeyOf(b)) + [b]]
  }

  /** The grid after the construction loop has consumed `bs` in order. */
  function BuildGrid(bs: seq<Barrier>): Index
  {
    if |bs| == 0 then map[] else Insert(BuildGrid(bs[..|bs| - 1]), bs[|bs| - 1])
  }

  /** Reference definition of a cell's contents: the barriers of `bs`
      whose own key is `k`, in input order. */
  function InCell(bs: seq<Barrier>, k: Key): (r: seq<Barrier>)
    ensures forall b :: b in r <==> b in bs && KeyOf(b) == k
  {
    if |bs| == 0 then []
    else InCell(bs[..|bs| - 1], k) + (if KeyOf(bs[|bs| - 1]) == k then [bs[|bs| - 1]] else [])
  }

  /** Grid construction is an order-preserving partition: every bucket is
      exactly the subsequence of barriers carrying that bucket's key, so no
      bucket holds a barrier with another key. */
  lemma {:induction false} GridIsPartition(bs: seq<Barrier>, k: Key)
    ensures Bucket(BuildGrid(bs), k) == InCell(bs, k)
  {
    if |bs| > 0 {
      GridIsPartition(bs[..|bs| - 1], k);
    }
  }

  /** The grid has a bucket for `k` exactly when some barrier carries `k`:
      buckets are created only by an append, so none is empty. */
  lemma {:induction false} GridKeys(bs: seq<Barrier>, k: Key)
    ensures k in BuildGrid(bs) <==> exists b :: b in bs && KeyOf(b) == k
    ensures k in BuildGrid(bs) ==> BuildGrid(bs)[k] != []
  {
    if |bs| > 0 {
      var init := bs[..|bs| - 1];
      GridKeys(init, k);
      assert bs == init + [bs[|bs| - 1]];
    }
  }

  /** Every barrier is in the bucket of its own key and in no other one. */
  lemma BarrierInExactlyOneBucket(bs: seq<Barrier>, b: Barrier, k: Key)
    requires b in bs
    ensures b in Bucket(BuildGrid(bs), KeyOf(b))
    ensures k != KeyOf(b) ==> b !in Bucket(BuildGrid(bs), k)
  {
    GridIsPartition(bs, KeyOf(b));
    GridIsPartition(bs, k);
  }
}
