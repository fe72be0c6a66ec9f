/**
 Rounding addresses and sizes to a multiple of a page or of the allocation granularity.
 */
module Alignment {

  function AlignDown(v: nat, a: nat): nat
    requires a > 0
  {
    v - v % a
  }

  function AlignUp(v: nat, a: nat): nat
    requires a > 0
  {
    AlignDown(v + a - 1, a)
  }

  lemma MultipleOfItself(k: int, a: int)
    requires a > 0
    ensures (k * a) % a == 0 && (k * a) / a == k
  {
    assert k * a == a * k + 0;
    DivModUnique(k * a, a, k, 0);
  }

  lemma MultipleAtLeast(a: int, d: int)
    requires a > 0 && d >= 1
    ensures a * d >= a
  {
  }

  lemma DivModUnique(x: int, a: int, q: int, r: int)
    requires a > 0 && x == a * q + r && 0 <= r < a
    ensures x / a == q && x % a == r
  {
    var q', r' := x / a, x % a;
    assert x == a * q' + r';
    assert a * (q - q') == a * q - a * q' && a * (q' - q) == a * q' - a * q;
    if q > q' {
      MultipleAtLeast(a, q - q');
    } else if q < q' {
      MultipleAtLeast(a, q' - q);
    }
  }

  /** Multiples of `a` less than `a` apart are in order. */
  lemma MultiplesApart(x: int, y: int, a: int)
    requires a > 0 && x % a == 0 && y % a == 0 && x < y + a
    ensures x <= y
  {
    var m, n := x / a, y / a;
    assert x == a * m && y == a * n;
    assert a * (m - n) == a * m - a * n;
    if m > n {
      MultipleAtLeast(a, m - n);
    }
  }

  lemma AddMultiples(x: int, y: int, a: int)
    requires a > 0 && x % a == 0 && y % a == 0
    ensures (x + y) % a == 0 && (x - y) % a == 0
    ensures (x + y) / a == x / a + y / a && (x - y) / a == x / a - y / a
  {
    var m, n := x / a, y / a;
    assert x + y == a * (m + n) + 0;
    assert x - y == a * (m - n) + 0;
    DivModUnique(x + y, a, m + n, 0);
    DivModUnique(x - y, a, m - n, 0);
  }

  lemma MultipleOfMultiple(x: int, g: int, p: int)
    requires g > 0 && p > 0 && x % g == 0 && g % p == 0
    ensures x % p == 0
  {
    var m, n := x / g, g / p;
    assert x == g * m && g == p * n;
    assert x == p * (n * m) + 0;
    DivModUnique(x, p, n * m, 0);
  }

  lemma AlignDownBounds(v: nat, a: nat)
    requires a > 0
    ensures AlignDown(v, a) % a == 0 && AlignDown(v, a) <= v < AlignDown(v, a) + a
  {
    var q := v / a;
    assert AlignDown(v, a) == a * q + 0;
    DivModUnique(AlignDown(v, a), a, q, 0);
  }

  lemma AlignUpBounds(v: nat, a: nat)
    requires a > 0
    ensures AlignUp(v, a) % a == 0 && v <= AlignUp(v, a) < v + a
  {
    AlignDownBounds(v + a - 1, a);
  }

  /** Nothing aligned lies between a value and its rounding. */
  lemma AlignUpLeast(v: nat, a: nat, x: nat)
    requires a > 0 && x % a == 0 && v <= x
    ensures AlignUp(v, a) <= x
  {
    AlignUpBounds(v, a);
    MultiplesApart(AlignUp(v, a), x, a);
  }

  lemma AlignDownGreatest(v: nat, a: nat, x: nat)
    requires a > 0 && x % a == 0 && x <= v
    ensures x <= AlignDown(v, a)
  {
    AlignDownBounds(v, a);
    MultiplesApart(x, AlignDown(v, a), a);
  }

  /** How many units of size `a` make up `v`. */
  function Count(v: nat, a: nat): nat
    requires a > 0
  {
    v / a
  }

  /** The size of `n` units. */
  function Bytes(n: nat, a: nat): nat {
    n * a
  }

  lemma CountExact(v: nat, a: nat)
    requires a > 0 && v % a == 0
    ensures v == Count(v, a) * a && (v > 0 ==> Count(v, a) > 0)
  {
    assert v == a * (v / a);
  }

  lemma CountOfProduct(n: nat, a: nat)
    requires a > 0
    ensures Count(n * a, a) == n && n * a >= 0 && (n * a) % a == 0
  {
    MultipleOfItself(n, a);
  }

  lemma CountMonotone(n: nat, m: nat, a: nat)
    requires a > 0 && n * a <= m * a
    ensures n <= m
  {
    assert (n - m) * a == n * a - m * a;
    if n > m {
      MultipleAtLeast(a, n - m);
    }
  }

  /** An address within unit `i` of a row of units counts as `i`. */
  lemma CountWithin(v: nat, lo: nat, hi: nat, a: nat)
    requires a > 0 && lo * a <= v < hi * a
    ensures lo <= Count(v, a) < hi
  {
    var q, r := v / a, v % a;
    assert v == a * q + r && q >= 0;
    assert (q + 1) * a == q * a + a;
    CountStrict(lo, q + 1, a);
    CountStrict(q, hi, a);
  }

  lemma CountStrict(n: nat, m: nat, a: nat)
    requires a > 0 && n * a < m * a
    ensures n < m
  {
    if n >= m {
      MultiplesAscend(m, n, a);
    }
  }

  lemma MultiplesAscend(n: nat, m: nat, a: nat)
    requires a > 0 && n <= m
    ensures n * a <= m * a
  {
    assert m * a == n * a + (m - n) * a;
  }

  lemma CountOfSum(v: nat, w: nat, a: nat)
    requires a > 0 && v % a == 0 && w % a == 0
    ensures Count(v + w, a) == Count(v, a) + Count(w, a)
  {
    AddMultiples(v, w, a);
  }
}
