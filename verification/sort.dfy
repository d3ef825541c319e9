/** `list.sort(key=..., reverse=True)` as used for both rollup outputs.
    Python's sort is stable, and `reverse=True` keeps it stable: elements
    with equal keys stay in their original relative order. Modelled as an
    insertion sort that places each element after every element whose key
    is at least its own. */
module Sort {
  import Common

  /** Keys never increase from one element to the next. */
  predicate Descending<T>(xs: seq<T>, key: T -> real) {
    |xs| <= 1 || (key(xs[1]) <= key(xs[0]) && Descending(xs[1..], key))
  }

  /** Hence no later element has a greater key than an earlier one. */
  lemma {:induction false} DescendingPairwise<T>(xs: seq<T>, key: T -> real, i: nat, j: nat)
    requires Descending(xs, key)
    requires i < j < |xs|
    ensures key(xs[j]) <= key(xs[i])
  {
    if i > 0 {
      DescendingPairwise(xs[1..], key, i - 1, j - 1);
    } else if j > 1 {
      DescendingPairwise(xs[1..], key, 0, j - 1);
    }
  }

  /** The elements of `xs` satisfying `p`, in order. */
  function Filter<T>(xs: seq<T>, p: T -> bool): seq<T> {
    if |xs| == 0 then []
    else (if p(xs[0]) then [xs[0]] else []) + Filter(xs[1..], p)
  }

  /** The predicate "has key `v`". */
  function KeyIs<T>(key: T -> real, v: real): T -> bool {
    x => key(x) == v
  }

  /** Inserts `x` after the leading elements whose key is at least `key(x)`. */
  function InsertDesc<T>(s: seq<T>, x: T, key: T -> real): (r: seq<T>)
    requires Descending(s, key)
    ensures Descending(r, key)
    ensures |r| == |s| + 1
    ensures |s| == 0 ==> r == [x]
    ensures |s| > 0 ==> r[0] == x || r[0] == s[0]
  {
    if |s| == 0 then [x]
    else if key(x) > key(s[0]) then
      assert ([x] + s)[1..] == s;
      [x] + s
    else
      var rest := InsertDesc(s[1..], x, key);
      assert ([s[0]] + rest)[1..] == rest;
      [s[0]] + rest
  }

  /** Insertion adds exactly `x` to the elements. */
  lemma {:induction false} InsertPermutes<T>(s: seq<T>, x: T, key: T -> real)
    requires Descending(s, key)
    ensures multiset(InsertDesc(s, x, key)) == multiset(s) + multiset{x}
  {
    if |s| > 0 && key(x) <= key(s[0]) {
      InsertPermutes(s[1..], x, key);
      assert s == [s[0]] + s[1..];
      assert InsertDesc(s, x, key) == [s[0]] + InsertDesc(s[1..], x, key);
    }
  }

  /** The sorted sequence: descending by `key`; `SortPermutes` shows it
      is a permutation of `xs`. */
  function SortDesc<T>(xs: seq<T>, key: T -> real): (r: seq<T>)
    ensures Descending(r, key)
    ensures |r| == |xs|
  {
    if |xs| == 0 then []
    else InsertDesc(SortDesc(xs[..|xs| - 1], key), xs[|xs| - 1], key)
  }

  /** Sorting only reorders: every element keeps its multiplicity. */
  lemma {:induction false} SortPermutes<T>(xs: seq<T>, key: T -> real)
    ensures multiset(SortDesc(xs, key)) == multiset(xs)
  {
    if |xs| > 0 {
      var init := xs[..|xs| - 1];
      SortPermutes(init, key);
      InsertPermutes(SortDesc(init, key), xs[|xs| - 1], key);
      Common.MultisetSnoc(xs);
    }
  }

  lemma {:induction false} FilterAppend<T>(a: seq<T>, b: seq<T>, p: T -> bool)
    ensures Filter(a + b, p) == Filter(a, p) + Filter(b, p)
  {
    if |a| == 0 {
      assert a + b == b;
    } else {
      var c := a + b;
      assert c[0] == a[0];
      assert c[1..] == a[1..] + b;
      FilterAppend(a[1..], b, p);
      var h := if p(a[0]) then [a[0]] else [];
      assert Filter(c, p) == h + (Filter(a[1..], p) + Filter(b, p));
      assert Filter(a, p) == h + Filter(a[1..], p);
      AppendAssoc(h, Filter(a[1..], p), Filter(b, p));
    }
  }

  lemma AppendAssoc<T>(a: seq<T>, b: seq<T>, c: seq<T>)
    ensures a + (b + c) == (a + b) + c
  {
  }

  /** A filter keeps every element satisfying `p` as often as it occurs,
      and nothing else. */
  lemma {:induction false} FilterCounts<T>(xs: seq<T>, p: T -> bool, y: T)
    ensures multiset(Filter(xs, p))[y] == if p(y) then multiset(xs)[y] else 0
  {
    if |xs| > 0 {
      FilterCounts(xs[1..], p, y);
      assert xs == [xs[0]] + xs[1..];
    }
  }

  /** Two permutations of each other have equally many elements
      satisfying any predicate. */
  lemma FilterPermutation<T>(a: seq<T>, b: seq<T>, p: T -> bool)
    requires multiset(a) == multiset(b)
    ensures multiset(Filter(a, p)) == multiset(Filter(b, p))
    ensures |Filter(a, p)| == |Filter(b, p)|
  {
    forall y ensures multiset(Filter(a, p))[y] == multiset(Filter(b, p))[y] {
      FilterCounts(a, p, y);
      FilterCounts(b, p, y);
    }
    SameCounts(Filter(a, p), Filter(b, p));
  }

  lemma SameCounts<T>(a: seq<T>, b: seq<T>)
    requires forall y :: multiset(a)[y] == multiset(b)[y]
    ensures multiset(a) == multiset(b) && |a| == |b|
  {
    assert multiset(a) == multiset(b);
    assert |multiset(a)| == |multiset(b)|;
  }

  /** Every element after `s[0]` in a descending sequence has a key no
      greater than `s[0]`'s, so none has a key above it. */
  lemma {:induction false} NoneAbove<T>(s: seq<T>, key: T -> real, v: real)
    requires Descending(s, key)
    requires |s| == 0 || key(s[0]) < v
    ensures Filter(s, KeyIs(key, v)) == []
  {
    if |s| > 0 {
      NoneAbove(s[1..], key, v);
    }
  }

  /** Inserting `x` appends it to the end of its key class. */
  lemma {:induction false} InsertStable<T>(s: seq<T>, x: T, key: T -> real, v: real)
    requires Descending(s, key)
    ensures Filter(InsertDesc(s, x, key), KeyIs(key, v))
         == Filter(s, KeyIs(key, v)) + (if key(x) == v then [x] else [])
  {
    var p := KeyIs(key, v);
    var tail := if key(x) == v then [x] else [];
    if |s| == 0 {
      FilterCons(x, [], p);
    } else if key(x) > key(s[0]) {
      assert InsertDesc(s, x, key) == [x] + s;
      FilterCons(x, s, p);
      if key(x) == v {
        NoneAbove(s, key, v);
      }
    } else {
      var rest := InsertDesc(s[1..], x, key);
      var h := if key(s[0]) == v then [s[0]] else [];
      assert InsertDesc(s, x, key) == [s[0]] + rest;
      FilterCons(s[0], rest, p);
      assert s == [s[0]] + s[1..];
      FilterCons(s[0], s[1..], p);
      InsertStable(s[1..], x, key, v);
      AppendAssoc(h, Filter(s[1..], p), tail);
    }
  }

  lemma FilterCons<T>(y: T, ys: seq<T>, p: T -> bool)
    ensures Filter([y] + ys, p) == (if p(y) then [y] else []) + Filter(ys, p)
  {
    assert ([y] + ys)[1..] == ys;
  }

  /** Stability: within each key class the sorted sequence keeps the
      original order. */
  lemma {:induction false} SortStable<T>(xs: seq<T>, key: T -> real, v: real)
    ensures Filter(SortDesc(xs, key), KeyIs(key, v)) == Filter(xs, KeyIs(key, v))
  {
    if |xs| > 0 {
      var init := xs[..|xs| - 1];
      var x := xs[|xs| - 1];
      SortSnoc(xs, key);
      SortStable(init, key, v);
      InsertStable(SortDesc(init, key), x, key, v);
      FilterSnoc(init, x, KeyIs(key, v));
      assert xs == init + [x];
    }
  }

  lemma SortSnoc<T>(xs: seq<T>, key: T -> real)
    requires |xs| > 0
    ensures SortDesc(xs, key) == InsertDesc(SortDesc(xs[..|xs| - 1], key), xs[|xs| - 1], key)
  {
  }

  lemma FilterSnoc<T>(xs: seq<T>, x: T, p: T -> bool)
    ensures Filter(xs + [x], p) == Filter(xs, p) + (if p(x) then [x] else [])
  {
    FilterAppend(xs, [x], p);
    assert [x][1..] == [];
  }
}
