/** The string-keyed dictionaries the rollups accumulate into
    (`defaultdict(lambda: {...})`): an association list in first-insertion
    order, where a missing key reads as a default value. Iterating a dict
    visits its keys in this order. */
module Table {
  import opened Common

  datatype Entry<V> = Entry(key: string, val: V)

  /** The keys, in insertion order: `d.keys()`. */
  function Keys<V>(t: seq<Entry<V>>): (r: seq<string>)
    ensures |r| == |t|
    ensures forall i :: 0 <= i < |t| ==> r[i] == t[i].key
  {
    if |t| == 0 then [] else [t[0].key] + Keys(t[1..])
  }

  /** `d[k]` on a defaultdict: the value stored under `k`, or `zero`. */
  function Get<V>(t: seq<Entry<V>>, k: string, zero: V): V {
    if |t| == 0 then zero
    else if t[0].key == k then t[0].val
    else Get(t[1..], k, zero)
  }

  /** `d[k] = f(d[k])` on a defaultdict: the entry for `k` is changed in
      place, or a new entry `f(zero)` is appended for a new key. */
  function Update<V>(t: seq<Entry<V>>, k: string, zero: V, f: V -> V): seq<Entry<V>> {
    if |t| == 0 then [Entry(k, f(zero))]
    else if t[0].key == k then [Entry(k, f(t[0].val))] + t[1..]
    else [t[0]] + Update(t[1..], k, zero, f)
  }

  /** After the update, `k` reads as `f` of its old value (the default if
      it was missing) and every other key reads as before. */
  lemma {:induction false} UpdateGet<V>(t: seq<Entry<V>>, k: string, zero: V, f: V -> V)
    ensures Get(Update(t, k, zero, f), k, zero) == f(Get(t, k, zero))
    ensures forall k' :: k' != k ==> Get(Update(t, k, zero, f), k', zero) == Get(t, k', zero)
  {
    if |t| > 0 && t[0].key != k {
      UpdateGet(t[1..], k, zero, f);
    }
  }

  /** The key order is kept, and a new key goes last. */
  lemma {:induction false} UpdateKeys<V>(t: seq<Entry<V>>, k: string, zero: V, f: V -> V)
    ensures Keys(Update(t, k, zero, f)) == if k in Keys(t) then Keys(t) else Keys(t) + [k]
  {
    if |t| > 0 {
      assert Keys(t) == [t[0].key] + Keys(t[1..]);
      if t[0].key != k {
        UpdateKeys(t[1..], k, zero, f);
      }
    }
  }

  /** Entry by entry: each old entry is kept, or it is the entry for `k`
      and holds `f` of its old value; an appended entry holds `f(zero)`. */
  lemma {:induction false} UpdateEntries<V>(t: seq<Entry<V>>, k: string, zero: V, f: V -> V)
    ensures var r := Update(t, k, zero, f);
            && |t| <= |r| <= |t| + 1
            && (forall i :: 0 <= i < |t| ==> r[i] == t[i] || (t[i].key == k && r[i] == Entry(k, f(t[i].val))))
            && (|r| > |t| ==> r[|t|] == Entry(k, f(zero)))
  {
    if |t| > 0 && t[0].key != k {
      UpdateEntries(t[1..], k, zero, f);
    }
  }

  /** With distinct keys, reading an entry's key yields that entry's value. */
  lemma {:induction false} GetAt<V>(t: seq<Entry<V>>, i: nat, zero: V)
    requires NoDup(Keys(t)) && i < |t|
    ensures Get(t, t[i].key, zero) == t[i].val
  {
    if i > 0 {
      assert Keys(t)[0] != Keys(t)[i];
      assert Keys(t[1..]) == Keys(t)[1..];
      GetAt(t[1..], i - 1, zero);
    }
  }

  /** A key that was never inserted reads as the default. */
  lemma {:induction false} GetAbsent<V>(t: seq<Entry<V>>, k: string, zero: V)
    requires k !in Keys(t)
    ensures Get(t, k, zero) == zero
  {
    if |t| > 0 {
      assert Keys(t) == [t[0].key] + Keys(t[1..]);
      GetAbsent(t[1..], k, zero);
    }
  }

  /** The distinct elements of `xs` not in `seen`, in first-seen order: the
      key order of a dict filled from `xs`. */
  function DistinctFrom(xs: seq<string>, seen: set<string>): (r: seq<string>)
    ensures NoDup(r)
    ensures forall y :: y in r <==> y in xs && y !in seen
  {
    if |xs| == 0 then []
    else if xs[0] in seen then DistinctFrom(xs[1..], seen)
    else [xs[0]] + DistinctFrom(xs[1..], seen + {xs[0]})
  }

  /** The elements of `r` (all drawn from `xs`) appear in the order of
      their first occurrence in `xs`. */
  predicate InFirstSeenOrder(xs: seq<string>, r: seq<string>) {
    forall i, j :: 0 <= i < j < |r| && r[i] in xs && r[j] in xs ==>
      FirstIndex(xs, r[i]) < FirstIndex(xs, r[j])
  }

  /** The keys come out in the order of their first occurrence. */
  lemma {:induction false} DistinctInFirstSeenOrder(xs: seq<string>, seen: set<string>)
    ensures InFirstSeenOrder(xs, DistinctFrom(xs, seen))
  {
    if |xs| > 0 {
      var head := xs[0];
      var seen' := if head in seen then seen else seen + {head};
      var rest := DistinctFrom(xs[1..], seen');
      DistinctInFirstSeenOrder(xs[1..], seen');
      assert head !in rest;
      TailOrderLifts(xs, rest);
      if head !in seen {
        assert DistinctFrom(xs, seen) == [head] + rest;
        ConsHeadOrder(xs, rest);
      } else {
        assert DistinctFrom(xs, seen) == rest;
      }
    }
  }

  /** An order that holds in the tail of `xs` holds in `xs`, for elements
      other than its head: each first occurrence moves back by one. */
  lemma TailOrderLifts(xs: seq<string>, r: seq<string>)
    requires |xs| > 0 && xs[0] !in r
    requires InFirstSeenOrder(xs[1..], r)
    ensures InFirstSeenOrder(xs, r)
  {
    forall i | 0 <= i < |r| && r[i] in xs
      ensures r[i] in xs[1..] && FirstIndex(xs, r[i]) == 1 + FirstIndex(xs[1..], r[i])
    {
      FirstIndexTail(xs, r[i]);
    }
  }

  /** The head of `xs` occurs first of all, so it may lead the order. */
  lemma ConsHeadOrder(xs: seq<string>, r: seq<string>)
    requires |xs| > 0 && xs[0] !in r
    requires InFirstSeenOrder(xs, r)
    ensures InFirstSeenOrder(xs, [xs[0]] + r)
  {
    var r' := [xs[0]] + r;
    assert FirstIndex(xs, xs[0]) == 0;
    forall i | 0 < i < |r'| ensures r'[i] == r[i - 1] && r'[i] != xs[0] { }
  }

  /** Feeding one more element extends the key order by that element
      exactly when it is new. */
  lemma {:induction false} DistinctFromSnoc(xs: seq<string>, x: string, seen: set<string>)
    ensures DistinctFrom(xs + [x], seen)
         == DistinctFrom(xs, seen) + (if x in xs || x in seen then [] else [x])
  {
    if |xs| == 0 {
      assert xs + [x] == [x];
    } else {
      assert (xs + [x])[0] == xs[0] && (xs + [x])[1..] == xs[1..] + [x];
      var seen' := if xs[0] in seen then seen else seen + {xs[0]};
      DistinctFromSnoc(xs[1..], x, seen');
      assert x in xs <==> x == xs[0] || x in xs[1..];
    }
  }
}
