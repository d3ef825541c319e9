/** Small shared definitions: an optional value, absolute value and
    Python's `round()` on exact reals, plus sequence predicates. */
module Common {

  /** `None` models Python's `None`. */
  datatype Option<+T> = None | Some(value: T)

  function Abs(x: real): (r: real)
    ensures r >= 0.0
    ensures r == x || r == -x
  {
    if x < 0.0 then -x else x
  }

  /** Python 3 `round(x)` with no digits argument, on an exact real: the
      nearest integer, and on an exact tie the even one ("banker's
      rounding"). The two ensures clauses pin the result down uniquely. */
  function Round(x: real): (r: int)
    ensures -0.5 <= r as real - x <= 0.5
    ensures (r as real - x == 0.5 || x - r as real == 0.5) ==> r % 2 == 0
  {
    var f := x.Floor;
    var d := x - f as real;
    if d < 0.5 then f
    else if d > 0.5 then f + 1
    else if f % 2 == 0 then f
    else f + 1
  }

  /** The two properties of `Round` single out one integer: any integer
      within half of `x` that is even on a tie is `Round(x)`. */
  lemma RoundUnique(x: real, n: int)
    requires -0.5 <= n as real - x <= 0.5
    requires (n as real - x == 0.5 || x - n as real == 0.5) ==> n % 2 == 0
    ensures n == Round(x)
  {
  }

  /** Python 3 `round(x, d)` on an exact real, with `unit` = 10^-d: the
      whole multiple of `unit` nearest to `x`, ties to the even multiple.
      The result is within half a unit of `x`. */
  function RoundTo(x: real, unit: real): (r: real)
    requires unit > 0.0
    ensures -unit / 2.0 <= r - x <= unit / 2.0
  {
    var n := Round(x / unit);
    ScaleBack(x, unit, n);
    n as real * unit
  }

  /** Moving from units back to the original scale multiplies the error
      by `unit`. */
  lemma ScaleBack(x: real, unit: real, n: int)
    requires unit > 0.0
    requires -0.5 <= n as real - x / unit <= 0.5
    ensures -unit / 2.0 <= n as real * unit - x <= unit / 2.0
  {
    ErrorScales(x, unit, n);
    BoundScales(n as real - x / unit, unit);
  }

  lemma ErrorScales(x: real, unit: real, n: int)
    requires unit > 0.0
    ensures n as real * unit - x == (n as real - x / unit) * unit
  {
    MulDiv(x, unit);
    Distribute(n as real, x / unit, unit);
  }

  lemma BoundScales(e: real, unit: real)
    requires unit > 0.0
    requires -0.5 <= e <= 0.5
    ensures -unit / 2.0 <= e * unit <= unit / 2.0
  {
    MulMonotone(-0.5, e, unit);
    MulMonotone(e, 0.5, unit);
  }

  lemma MulDiv(a: real, b: real)
    requires b > 0.0
    ensures (a / b) * b == a
  {
  }

  lemma Distribute(a: real, b: real, c: real)
    ensures (a - b) * c == a * c - b * c
  {
  }

  lemma MulMonotone(a: real, b: real, c: real)
    requires a <= b && c > 0.0
    ensures a * c <= b * c
  {
    Distribute(b, a, c);
    assert (b - a) * c >= 0.0;
  }

  /** No element occurs twice. */
  predicate NoDup<T(==)>(s: seq<T>) {
    forall i, j :: 0 <= i < j < |s| ==> s[i] != s[j]
  }

  /** Index of the first occurrence of `x` in `s`. */
  function FirstIndex<T(==)>(s: seq<T>, x: T): (i: nat)
    requires x in s
    ensures i < |s| && s[i] == x
    ensures forall j :: 0 <= j < i ==> s[j] != x
  {
    if s[0] == x then 0 else 1 + FirstIndex(s[1..], x)
  }

  /** Past a different head, the first occurrence moves back by one. */
  lemma FirstIndexTail<T>(xs: seq<T>, y: T)
    requires y in xs && y != xs[0]
    ensures y in xs[1..] && FirstIndex(xs, y) == 1 + FirstIndex(xs[1..], y)
  {
  }

  /** In a duplicate-free sequence every element occurs exactly once. */
  lemma {:induction false} NoDupCount<T>(s: seq<T>, x: T)
    requires NoDup(s)
    ensures multiset(s)[x] == if x in s then 1 else 0
  {
    if |s| > 0 {
      assert s == [s[0]] + s[1..];
      assert NoDup(s[1..]);
      NoDupCount(s[1..], x);
    }
  }

  /** Counting in a non-empty sequence: its head plus its tail. */
  lemma CountHead<T>(s: seq<T>, x: T)
    requires |s| > 0
    ensures multiset(s)[x] == (if s[0] == x then 1 else 0) + multiset(s[1..])[x]
  {
    assert s == [s[0]] + s[1..];
  }

  /** Splitting off the last element of the second part of a
      concatenation. */
  lemma AppendSnoc<T>(a: seq<T>, b: seq<T>)
    requires |b| > 0
    ensures a + b == (a + b[..|b| - 1]) + [b[|b| - 1]]
  {
    assert b == b[..|b| - 1] + [b[|b| - 1]];
  }

  /** The multiset of a non-empty sequence: its prefix's plus its last
      element. */
  lemma MultisetSnoc<T>(s: seq<T>)
    requires |s| > 0
    ensures multiset(s) == multiset(s[..|s| - 1]) + multiset{s[|s| - 1]}
  {
    assert s == s[..|s| - 1] + [s[|s| - 1]];
  }

  lemma MulSucc(a: int, m: int)
    ensures a * (m + 1) == a * m + a
  {
  }
}
