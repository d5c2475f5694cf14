/** Residues modulo m, prime moduli and Fermat's little theorem. */
module Modular {

  type pos = m: int | m > 0 witness 1

  predicate Cong(m: pos, a: int, b: int) {
    a % m == b % m
  }

  lemma MultiplesAreSparse(m: pos, k: int)
    ensures k >= 1 ==> m * k >= m
    ensures k <= -1 ==> m * k <= 0 - m
  {
  }

  lemma ModUnique(m: pos, a: int, q: int, r: int)
    requires a == m * q + r && 0 <= r < m
    ensures a % m == r
  {
    var k := a / m - q;
    assert m * k == r - a % m;
    MultiplesAreSparse(m, k);
  }

  lemma CongFromMultiple(m: pos, a: int, b: int, k: int)
    requires a - b == m * k
    ensures Cong(m, a, b)
  {
    var q, r := b / m, b % m;
    assert a == m * (q + k) + r;
    ModUnique(m, a, q + k, r);
  }

  /** The multiple of m by which two congruent numbers differ. */
  function Difference(m: pos, a: int, b: int): (k: int)
    requires Cong(m, a, b)
    ensures a - b == m * k
  {
    assert a - b == m * (a / m) - m * (b / m) == m * (a / m - b / m);
    a / m - b / m
  }

  lemma CongMod(m: pos, a: int)
    ensures Cong(m, a % m, a)
  {
    ModUnique(m, a % m, 0, a % m);
  }

  lemma CongReduced(m: pos, a: int, b: int)
    requires Cong(m, a, b) && 0 <= a < m && 0 <= b < m
    ensures a == b
  {
    ModUnique(m, a, 0, a);
    ModUnique(m, b, 0, b);
  }

  lemma CongAdd(m: pos, a: int, a': int, b: int, b': int)
    requires Cong(m, a, a') && Cong(m, b, b')
    ensures Cong(m, a + b, a' + b') && Cong(m, a - b, a' - b')
  {
    var k, l := Difference(m, a, a'), Difference(m, b, b');
    assert a + b - (a' + b') == m * (k + l);
    assert a - b - (a' - b') == m * (k - l);
    CongFromMultiple(m, a + b, a' + b', k + l);
    CongFromMultiple(m, a - b, a' - b', k - l);
  }

  lemma CongMul(m: pos, a: int, a': int, b: int, b': int)
    requires Cong(m, a, a') && Cong(m, b, b')
    ensures Cong(m, a * b, a' * b')
  {
    var k, l := Difference(m, a, a'), Difference(m, b, b');
    assert a * b - a' * b' == (a - a') * b + a' * (b - b');
    assert (m * k) * b + a' * (m * l) == m * (k * b + a' * l);
    CongFromMultiple(m, a * b, a' * b', k * b + a' * l);
  }

  // ----- prime moduli -----

  predicate Divides(d: pos, a: int) {
    a % d == 0
  }

  ghost predicate Prime(p: int) {
    p > 1 && forall d: pos :: Divides(d, p) ==> d == 1 || d == p
  }

  /** Euclid's lemma for a reduced factor: descend from a to p % a, which keeps a * b a multiple. */
  lemma {:induction false} EuclidReduced(p: pos, a: int, b: int)
    requires Prime(p) && 0 < a < p && Cong(p, a * b, 0)
    ensures Cong(p, b, 0)
    decreases a
  {
    if a != 1 {
      var q, r := p / a, p % a;
      assert !Divides(a, p);
      assert r * b == p * b - q * (a * b);
      CongFromMultiple(p, p * b, 0, b);
      CongMul(p, q, q, a * b, 0);
      CongAdd(p, p * b, 0, q * (a * b), q * 0);
      EuclidReduced(p, r, b);
    }
  }

  lemma Euclid(p: pos, a: int, b: int)
    requires Prime(p) && Cong(p, a * b, 0)
    ensures Cong(p, a, 0) || Cong(p, b, 0)
  {
    if !Cong(p, a, 0) {
      CongMod(p, a);
      ModUnique(p, 0, 0, 0);
      CongMul(p, a % p, a, b, b);
      EuclidReduced(p, a % p, b);
    }
  }

  lemma Cancel(p: pos, c: int, a: int, b: int)
    requires Prime(p) && !Cong(p, c, 0) && Cong(p, c * a, c * b)
    ensures Cong(p, a, b)
  {
    hide Prime, Cong;
    CongAdd(p, c * a, c * b, c * b, c * b);
    Factored(c, a, b);
    Euclid(p, c, a - b);
    CongAdd(p, a - b, 0, b, b);
  }

  lemma Factored(c: int, a: int, b: int)
    ensures c * a - c * b == c * (a - b)
  {
  }

  /** A square has at most two roots, opposite to each other. */
  lemma SquareRoots(p: pos, r: int, y: int)
    requires Prime(p) && Cong(p, r * r, y * y)
    ensures Cong(p, r, y) || Cong(p, r + y, 0)
  {
    hide Prime;
    CongAdd(p, r * r, y * y, y * y, y * y);
    DifferenceOfSquares(r, y);
    Euclid(p, r - y, r + y);
    if Cong(p, r - y, 0) {
      CongAdd(p, r - y, 0, y, y);
    }
  }

  lemma DifferenceOfSquares(r: int, y: int)
    ensures r * r - y * y == (r - y) * (r + y)
  {
  }

  // ----- Fermat's little theorem -----

  function Pow(b: int, e: nat): int {
    if e == 0 then 1 else b * Pow(b, e - 1)
  }

  /** Python's three-argument `pow`. */
  function PowMod(b: int, e: nat, m: pos): (r: int)
    ensures 0 <= r < m
  {
    Pow(b, e) % m
  }

  lemma {:induction false} PowAdd(b: int, e: nat, f: nat)
    ensures Pow(b, e + f) == Pow(b, e) * Pow(b, f)
  {
    if e != 0 {
      PowAdd(b, e - 1, f);
      assert Pow(b, e + f) == b * (Pow(b, e - 1) * Pow(b, f));
    }
  }

  lemma {:induction false} PowSquare(b: int, e: nat)
    ensures Pow(b * b, e) == Pow(b, 2 * e)
  {
    if e != 0 {
      PowSquare(b, e - 1);
      assert Pow(b, 2 * e) == b * (b * Pow(b, 2 * e - 2));
    }
  }

  lemma {:induction false} CongPow(m: pos, a: int, b: int, e: nat)
    requires Cong(m, a, b)
    ensures Cong(m, Pow(a, e), Pow(b, e))
  {
    if e != 0 {
      CongPow(m, a, b, e - 1);
      CongMul(m, a, b, Pow(a, e - 1), Pow(b, e - 1));
    }
  }

  function Product(xs: seq<int>): int {
    if xs == [] then 1 else xs[0] * Product(xs[1..])
  }

  ghost predicate DistinctUpTo(xs: seq<int>, n: int) {
    (forall i :: 0 <= i < |xs| ==> 1 <= xs[i] <= n) &&
    (forall i, j :: 0 <= i < j < |xs| ==> xs[i] != xs[j])
  }

  function Without(xs: seq<int>, i: nat): seq<int>
    requires i < |xs|
  {
    xs[..i] + xs[i + 1..]
  }

  lemma {:induction false} ProductWithout(xs: seq<int>, i: nat)
    requires i < |xs|
    ensures Product(xs) == xs[i] * Product(Without(xs, i))
  {
    if i == 0 {
      assert Without(xs, 0) == xs[1..];
    } else {
      ProductWithout(xs[1..], i - 1);
      var rest := Without(xs[1..], i - 1);
      assert Without(xs, i) == [xs[0]] + rest;
      assert Product(Without(xs, i)) == xs[0] * Product(rest);
      assert xs[0] * (xs[i] * Product(rest)) == xs[i] * (xs[0] * Product(rest));
    }
  }

  lemma {:induction false} Pigeonhole(xs: seq<int>, n: nat)
    requires DistinctUpTo(xs, n)
    ensures |xs| <= n
  {
    if xs != [] {
      assert 1 <= xs[0] <= n;
      if n in xs {
        var i :| 0 <= i < |xs| && xs[i] == n;
        Pigeonhole(Without(xs, i), n - 1);
      } else {
        Pigeonhole(xs, n - 1);
      }
    }
  }

  function Factorial(n: nat): int {
    if n == 0 then 1 else n * Factorial(n - 1)
  }

  /** n distinct numbers of 1..n are a rearrangement of them, so their product is n!. */
  lemma {:induction false} ProductOfAll(xs: seq<int>, n: nat)
    requires |xs| == n && DistinctUpTo(xs, n)
    ensures Product(xs) == Factorial(n)
  {
    if n != 0 {
      if n !in xs {
        Pigeonhole(xs, n - 1);
        assert false;
      }
      var i :| 0 <= i < |xs| && xs[i] == n;
      ProductWithout(xs, i);
      ProductOfAll(Without(xs, i), n - 1);
    }
  }

  function Scaled(p: pos, a: int, n: nat): (xs: seq<int>)
    ensures |xs| == n
    ensures forall i :: 0 <= i < n ==> xs[i] == a * (n - i) % p
  {
    if n == 0 then [] else [a * n % p] + Scaled(p, a, n - 1)
  }

  lemma {:induction false} ScaledProduct(p: pos, a: int, n: nat)
    ensures Cong(p, Product(Scaled(p, a, n)), Pow(a, n) * Factorial(n))
  {
    if n != 0 {
      ScaledProduct(p, a, n - 1);
      var rest := Scaled(p, a, n - 1);
      assert Scaled(p, a, n)[1..] == rest;
      CongMod(p, a * n);
      CongMul(p, a * n % p, a * n, Product(rest), Pow(a, n - 1) * Factorial(n - 1));
      Regroup(a, n, Pow(a, n - 1), Factorial(n - 1));
    }
  }

  lemma Regroup(a: int, b: int, c: int, d: int)
    ensures (a * b) * (c * d) == (a * c) * (b * d)
  {
  }

  lemma {:induction false} FactorialIsUnit(p: pos, n: nat)
    requires Prime(p) && n < p
    ensures !Cong(p, Factorial(n), 0)
  {
    if n != 0 {
      FactorialIsUnit(p, n - 1);
      if Cong(p, n * Factorial(n - 1), 0) {
        Euclid(p, n, Factorial(n - 1));
        CongReduced(p, n, 0);
        assert false;
      }
    } else if Cong(p, 1, 0) {
      CongReduced(p, 1, 0);
    }
  }

  lemma ScaledDistinct(p: pos, a: int)
    requires Prime(p) && !Cong(p, a, 0)
    ensures DistinctUpTo(Scaled(p, a, p - 1), p - 1)
  {
    var xs := Scaled(p, a, p - 1);
    ModUnique(p, 0, 0, 0);
    forall i | 0 <= i < |xs|
      ensures 1 <= xs[i] <= p - 1
    {
      if xs[i] == 0 {
        Euclid(p, a, p - 1 - i);
        CongReduced(p, p - 1 - i, 0);
      }
    }
    forall i, j | 0 <= i < j < |xs|
      ensures xs[i] != xs[j]
    {
      if xs[i] == xs[j] {
        Cancel(p, a, p - 1 - i, p - 1 - j);
        CongReduced(p, p - 1 - i, p - 1 - j);
      }
    }
  }

  lemma Fermat(p: pos, a: int)
    requires Prime(p) && !Cong(p, a, 0)
    ensures Cong(p, Pow(a, p - 1), 1)
  {
    ScaledDistinct(p, a);
    ProductOfAll(Scaled(p, a, p - 1), p - 1);
    ScaledProduct(p, a, p - 1);
    FactorialIsUnit(p, p - 1);
    var f := Factorial(p - 1);
    assert f * Pow(a, p - 1) == Pow(a, p - 1) * f && f * 1 == f;
    Cancel(p, f, Pow(a, p - 1), 1);
  }

  /** The power the source uses as an inverse is one. */
  lemma PowModInverse(p: pos, a: int)
    requires Prime(p) && p > 2 && !Cong(p, a, 0)
    ensures Cong(p, a * PowMod(a, p - 2, p), 1)
  {
    Fermat(p, a);
    CongMod(p, Pow(a, p - 2));
    CongMul(p, a, a, PowMod(a, p - 2, p), Pow(a, p - 2));
  }
}
