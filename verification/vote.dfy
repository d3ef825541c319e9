/** The neighbourhood plurality vote of one stop:
    `max(neighborhoods, key=neighborhoods.get) if neighborhoods else None`
    over a dict filled in scan order. A dict iterates its keys in first
    insertion order and `max` keeps the first maximal key it meets, so ties
    go to the label seen first. */
module Vote {
  import opened Common
  import opened Table

  /** `max(keys, key=votes.__getitem__)` as an index: Python's `max` walks
      the keys in order and replaces its candidate only on a strictly
      greater count. The result is the first index of maximal count. */
  function ArgMax(keys: seq<string>, votes: multiset<string>): (i: nat)
    requires |keys| > 0
    ensures i < |keys|
    ensures forall j :: 0 <= j < |keys| ==> votes[keys[j]] <= votes[keys[i]]
    ensures forall j :: 0 <= j < i ==> votes[keys[j]] < votes[keys[i]]
  {
    ArgMaxFrom(keys, votes, 0, 1)
  }

  /** The walk of `max` after `next` keys, `best` the candidate so far. */
  function ArgMaxFrom(keys: seq<string>, votes: multiset<string>, best: nat, next: nat): (i: nat)
    requires best < next <= |keys|
    requires forall j :: 0 <= j < next ==> votes[keys[j]] <= votes[keys[best]]
    requires forall j :: 0 <= j < best ==> votes[keys[j]] < votes[keys[best]]
    ensures i < |keys|
    ensures forall j :: 0 <= j < |keys| ==> votes[keys[j]] <= votes[keys[i]]
    ensures forall j :: 0 <= j < i ==> votes[keys[j]] < votes[keys[i]]
    decreases |keys| - next
  {
    if next == |keys| then best
    else if votes[keys[next]] > votes[keys[best]] then ArgMaxFrom(keys, votes, next, next + 1)
    else ArgMaxFrom(keys, votes, best, next + 1)
  }

  /** The declarative reading of the vote: `n` is one of the labels, no
      label has more votes, and every label with as many votes was first
      seen no earlier than `n`. */
  predicate IsPlurality(names: seq<string>, n: string) {
    && n in names
    && (forall m :: m in names ==> multiset(names)[m] <= multiset(names)[n])
    && (forall m :: m in names && multiset(names)[m] == multiset(names)[n] ==>
          FirstIndex(names, n) <= FirstIndex(names, m))
  }

  /** The vote over the non-empty labels of the counted barriers, in
      counting order. No label at all gives `None`. */
  function Plurality(names: seq<string>): (r: Option<string>)
    ensures r.None? <==> |names| == 0
    ensures r.Some? ==> IsPlurality(names, r.value)
  {
    var keys := DistinctFrom(names, {});
    if |keys| == 0 then None
    else
      var votes := multiset(names);
      var i := ArgMax(keys, votes);
      var n := keys[i];
      assert forall m :: m in names && votes[m] == votes[n] ==> FirstIndex(names, n) <= FirstIndex(names, m) by {
        forall m | m in names && votes[m] == votes[n]
          ensures FirstIndex(names, n) <= FirstIndex(names, m)
        {
          assert m in keys;
          var j :| 0 <= j < |keys| && keys[j] == m;
          DistinctInFirstSeenOrder(names, {});
          assert !(j < i);
          assert j == i || FirstIndex(names, keys[i]) < FirstIndex(names, keys[j]);
        }
      }
      Some(n)
  }

  /** The plurality reading admits one label only, so it determines the
      vote: any label satisfying it is the one `Plurality` returns. */
  lemma PluralityUnique(names: seq<string>, n: string)
    requires IsPlurality(names, n)
    ensures Plurality(names) == Some(n)
  {
    assert Plurality(names).Some?;
  }
}
