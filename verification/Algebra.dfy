/** Polynomial identities behind the curve formulas, in any ring congruence of the integers. */
module Algebra {

  ghost predicate Respects(red: int -> int, a: int, a': int, b: int, b': int) {
    red(a) == red(a') && red(b) == red(b') ==>
      red(a + b) == red(a' + b') && red(a - b) == red(a' - b') && red(a * b) == red(a' * b')
  }

  /** red(a) == red(b) is a congruence for +, - and *. */
  ghost predicate IsCongruence(red: int -> int) {
    forall a, a', b, b' :: Respects(red, a, a', b, b')
  }

  lemma Plus(red: int -> int, a: int, a': int, b: int, b': int)
    requires IsCongruence(red) && red(a) == red(a') && red(b) == red(b')
    ensures red(a + b) == red(a' + b') && red(a - b) == red(a' - b')
  {
    assert Respects(red, a, a', b, b');
  }

  lemma Times(red: int -> int, a: int, a': int, b: int, b': int)
    requires IsCongruence(red) && red(a) == red(a') && red(b) == red(b')
    ensures red(a * b) == red(a' * b')
  {
    assert Respects(red, a, a', b, b');
  }

  lemma Square(red: int -> int, a: int, a': int)
    requires IsCongruence(red) && red(a) == red(a')
    ensures red(a * a) == red(a' * a')
    ensures red(a * (a * a)) == red(a' * (a' * a'))
  {
    Times(red, a, a', a, a');
    Times(red, a, a', a * a, a' * a');
  }

  /** (a + b)^2 - c - d with c = a^2 and d = b^2 is 2ab, the form the source computes products in. */
  lemma CrossTerm(red: int -> int, a: int, b: int, c: int, d: int)
    requires IsCongruence(red) && red(c) == red(a * a) && red(d) == red(b * b)
    ensures red((a + b) * (a + b) - c - d) == red(2 * (a * b))
  {
    var s := (a + b) * (a + b);
    Plus(red, s, s, c, a * a);
    Plus(red, s - c, s - a * a, d, b * b);
    assert s - a * a - b * b == 2 * (a * b);
  }

  lemma InverseTerms(x: int, y: int, z: int, t: int)
    ensures var u := z * t;
            && x * (z * z) * (t * t) == x * (u * u)
            && y * (z * (z * z)) * (t * t) * t == y * (u * (u * u))
  {
    AddTerm(x, z * z, t * t, z, t);
    assert y * (z * (z * z)) * (t * t) * t == y * (z * t) * (z * z * (t * t));
  }

  /** Dividing Jacobian coordinates by z^2 and z^3, given an inverse t of z. */
  lemma Normalise(red: int -> int, x: int, y: int, z: int, jx: int, jy: int, t: int, t2: int)
    requires IsCongruence(red) && red(z * t) == red(1) && red(t2) == red(t * t)
    requires red(jx) == red(x * (z * z)) && red(jy) == red(y * (z * (z * z)))
    ensures red(jx * t2) == red(x) && red(jy * t2 * t) == red(y)
  {
    var u := z * t;
    InverseTerms(x, y, z, t);
    Square(red, u, 1);
    Times(red, jx, x * (z * z), t2, t * t);
    Times(red, x, x, u * u, 1);
    Times(red, jy, y * (z * (z * z)), t2, t * t);
    Times(red, jy * t2, y * (z * (z * z)) * (t * t), t, t);
    Times(red, y, y, u * (u * u), 1);
  }

  // ----- doubling -----

  lemma DoubleTerms(x: int, y: int, z: int)
    ensures var b := z * z;
            && y * (z * b) * (y * (z * b)) == y * y * (b * (b * b))
            && 2 * (y * (z * b) * z) == 2 * y * (b * b)
            && 3 * (x * b - b) * (x * b + b) == b * b * (3 * x * x - 3)
  {
  }

  lemma DoublePowers(x: int, a: int, b: int)
    ensures x * b * (a * (b * (b * b))) == x * a * (b * b * (b * b))
    ensures a * (b * (b * b)) * (a * (b * (b * b))) == a * a * (b * b * (b * b * (b * b)))
  {
    var c := b * (b * b);
    assert c * c == b * b * (b * b * (b * b));
    assert a * c * (a * c) == a * a * (c * c);
    assert b * c == b * b * (b * b);
    assert x * b * (a * c) == x * a * (b * c);
  }

  /** The intermediate values of a Jacobian doubling in terms of x, y and w = z^4. */
  lemma DoubleParts(red: int -> int, x: int, y: int, z: int,
                    jx: int, jy: int, delta: int, gamma: int, beta: int, alpha: int, jz3: int)
    requires IsCongruence(red)
    requires red(jx) == red(x * (z * z)) && red(jy) == red(y * (z * (z * z)))
    requires red(delta) == red(z * z) && red(gamma) == red(jy * jy) && red(beta) == red(jx * gamma)
    requires red(alpha) == red(3 * (jx - delta) * (jx + delta))
    requires red(jz3) == red((jy + z) * (jy + z) - gamma - delta)
    ensures var w := z * z * (z * z);
            && red(gamma * gamma) == red(y * y * (y * y) * (w * (w * w)))
            && red(beta) == red(x * (y * y) * (w * w))
            && red(alpha) == red(w * (3 * x * x - 3))
            && red(jz3) == red(2 * y * w)
  {
    var b := z * z;
    var g := y * y * (b * (b * b));
    DoubleTerms(x, y, z);
    DoublePowers(x, y * y, b);
    Square(red, jy, y * (z * b));
    Square(red, gamma, g);
    Times(red, jx, x * b, gamma, g);
    Plus(red, jx, x * b, delta, b);
    Times(red, 3, 3, jx - delta, x * b - b);
    Times(red, 3 * (jx - delta), 3 * (x * b - b), jx + delta, x * b + b);
    CrossTerm(red, jy, z, gamma, delta);
    Times(red, jy, y * (z * b), z, z);
    Times(red, 2, 2, jy * z, y * (z * b) * z);
  }

  lemma DoubleX(x: int, y: int, w: int, lam: int, z3: int)
    requires z3 == 2 * y * w
    ensures w * (lam * (2 * y)) == lam * z3
    ensures 4 * (x * (y * y) * (w * w)) == x * (z3 * z3)
    ensures (lam * lam - x - x) * (z3 * z3) == lam * z3 * (lam * z3) - 8 * (x * (y * y) * (w * w))
  {
    assert z3 * z3 == 4 * (y * y * (w * w));
    assert x * (z3 * z3) == 4 * (x * (y * y * (w * w)));
  }

  lemma DoubleY(x: int, y: int, w: int, lam: int, x3: int, z3: int)
    requires z3 == 2 * y * w
    ensures lam * z3 * (x * (z3 * z3) - x3 * (z3 * z3)) - 8 * (y * y * (y * y) * (w * (w * w)))
         == (lam * (x - x3) - y) * (z3 * (z3 * z3))
  {
    CubeOfProduct(y, w, z3);
    FactorOut(lam, z3, x, x3, z3 * z3);
    Distribute(lam * (x - x3), y, z3 * (z3 * z3));
    FourthPowerTerm(y, w * (w * w));
  }

  lemma Distribute(a: int, b: int, c: int)
    ensures (a - b) * c == a * c - b * c
  {
  }

  lemma FourthPowerTerm(y: int, v: int)
    ensures y * (8 * (y * (y * y) * v)) == 8 * (y * y * (y * y) * v)
  {
  }

  lemma CubeOfProduct(y: int, w: int, z: int)
    requires z == 2 * y * w
    ensures z * (z * z) == 8 * (y * (y * y) * (w * (w * w)))
  {
    assert z * z == 4 * (y * y * (w * w));
  }

  lemma FactorOut(lam: int, z: int, x: int, x3: int, q: int)
    ensures lam * z * (x * q - x3 * q) == lam * (x - x3) * (z * q)
  {
    assert x * q - x3 * q == (x - x3) * q;
  }

  /** The Jacobian double carries the affine one, whose slope lam has lam * 2y = 3x^2 - 3. */
  lemma DoubleIdentity(red: int -> int, x: int, y: int, w: int, lam: int, x3: int, y3: int,
                       gg: int, beta: int, alpha: int, jx3: int, jy3: int, jz3: int)
    requires IsCongruence(red)
    requires red(gg) == red(y * y * (y * y) * (w * (w * w))) && red(beta) == red(x * (y * y) * (w * w))
    requires red(alpha) == red(w * (3 * x * x - 3)) && red(jz3) == red(2 * y * w)
    requires red(jx3) == red(alpha * alpha - 8 * beta)
    requires red(jy3) == red(alpha * (4 * beta - jx3) - 8 * gg)
    requires red(lam * (2 * y)) == red(3 * x * x - 3)
    requires red(x3) == red(lam * lam - x - x)
    requires red(y3) == red(lam * (x - x3) - y)
    ensures red(jx3) == red(x3 * (jz3 * jz3))
    ensures red(jy3) == red(y3 * (jz3 * (jz3 * jz3)))
  {
    var z3 := 2 * y * w;
    var b', e := x * (y * y) * (w * w), y * y * (y * y) * (w * (w * w));
    DoubleX(x, y, w, lam, z3);
    DoubleY(x, y, w, lam, x3, z3);
    Square(red, jz3, z3);
    Times(red, w, w, 3 * x * x - 3, lam * (2 * y));
    Square(red, alpha, lam * z3);
    Times(red, 8, 8, beta, b');
    Plus(red, alpha * alpha, lam * z3 * (lam * z3), 8 * beta, 8 * b');
    Times(red, x3, lam * lam - x - x, z3 * z3, z3 * z3);
    Times(red, x3, x3, jz3 * jz3, z3 * z3);
    Times(red, 4, 4, beta, b');
    Plus(red, 4 * beta, x * (z3 * z3), jx3, x3 * (z3 * z3));
    Times(red, alpha, lam * z3, 4 * beta - jx3, x * (z3 * z3) - x3 * (z3 * z3));
    Times(red, 8, 8, gg, e);
    Plus(red, alpha * (4 * beta - jx3), lam * z3 * (x * (z3 * z3) - x3 * (z3 * z3)), 8 * gg, 8 * e);
    Times(red, y3, lam * (x - x3) - y, jz3 * (jz3 * jz3), z3 * (z3 * z3));
  }

  // ----- addition of points with distinct x -----

  lemma AddTerms(x: int, y: int, a: int, b: int)
    ensures var w := a * b;
            && x * (a * a) * (b * b) == x * (w * w)
            && y * (a * (a * a)) * b * (b * b) == y * (w * (w * w))
  {
    AddTerm(x, a * a, b * b, a, b);
    assert y * (a * (a * a)) * b * (b * b) == y * a * b * (a * a * (b * b));
  }

  lemma AddTerm(x: int, aa: int, bb: int, a: int, b: int)
    requires aa == a * a && bb == b * b
    ensures aa * bb == a * b * (a * b)
    ensures x * aa * bb == x * (a * b * (a * b))
  {
    assert aa * bb == a * b * (a * b);
  }

  /** One point's part of a Jacobian addition in terms of that point and w = z1 * z2. */
  lemma AddParts(red: int -> int, x1: int, y1: int, z1: int, z2: int,
                 jx1: int, jy1: int, z2z2: int, u1: int, s1: int)
    requires IsCongruence(red)
    requires red(jx1) == red(x1 * (z1 * z1)) && red(jy1) == red(y1 * (z1 * (z1 * z1)))
    requires red(z2z2) == red(z2 * z2) && red(u1) == red(jx1 * z2z2) && red(s1) == red(jy1 * z2 * z2z2)
    ensures var w := z1 * z2; red(u1) == red(x1 * (w * w)) && red(s1) == red(y1 * (w * (w * w)))
  {
    AddTerms(x1, y1, z1, z2);
    Times(red, jx1, x1 * (z1 * z1), z2z2, z2 * z2);
    Times(red, jy1, y1 * (z1 * (z1 * z1)), z2, z2);
    Times(red, jy1 * z2, y1 * (z1 * (z1 * z1)) * z2, z2z2, z2 * z2);
  }

  lemma AddDeltas(x1: int, y1: int, x2: int, y2: int, lam: int, b: int, c: int)
    ensures x2 * b - x1 * b == (x2 - x1) * b
    ensures 2 * (y2 * c - y1 * c) == (y2 - y1) * (2 * c)
    ensures lam * (x2 - x1) * (2 * c) == lam * (2 * ((x2 - x1) * c))
  {
  }

  lemma AddX(x1: int, x2: int, b: int, lam: int, h: int, i: int, z3: int)
    requires h == (x2 - x1) * b && z3 * z3 == b * i
    ensures (lam * lam - x1 - x2) * (z3 * z3) == lam * z3 * (lam * z3) - h * i - 2 * (x1 * b * i)
  {
    assert h * i + 2 * (x1 * b * i) == (x1 + x2) * (b * i);
    assert (lam * lam) * (z3 * z3) == lam * z3 * (lam * z3);
  }

  lemma AddY(x1: int, y1: int, w: int, lam: int, x3: int, h: int, i: int, z3: int)
    requires z3 == 2 * (w * h) && z3 * z3 == w * w * i
    ensures lam * z3 * (x1 * (w * w) * i - x3 * (z3 * z3)) - 2 * (y1 * (w * (w * w))) * (h * i)
         == (lam * (x1 - x3) - y1) * (z3 * (z3 * z3))
  {
    var q := z3 * z3;
    assert x1 * (w * w) * i == x1 * q;
    assert lam * z3 * (x1 * q - x3 * q) == lam * (x1 - x3) * (z3 * q);
    assert 2 * (y1 * (w * (w * w))) * (h * i) == y1 * (2 * (w * h) * (w * w * i));
  }

  /** The differences and powers an addition computes, in terms of the slope lam and h = (x2 - x1) w^2. */
  lemma AddSlope(red: int -> int, x1: int, y1: int, x2: int, y2: int, w: int, lam: int,
                 u1: int, u2: int, s1: int, s2: int, h: int, i0: int, i: int, r: int, jz3: int)
    requires IsCongruence(red)
    requires red(u1) == red(x1 * (w * w)) && red(s1) == red(y1 * (w * (w * w)))
    requires red(u2) == red(x2 * (w * w)) && red(s2) == red(y2 * (w * (w * w)))
    requires red(h) == red(u2 - u1) && red(i0) == red(2 * h) && red(i) == red(i0 * i0)
    requires red(r) == red(2 * (s2 - s1)) && red(jz3) == red(2 * (w * h))
    requires red(lam * (x2 - x1)) == red(y2 - y1)
    ensures var h' := (x2 - x1) * (w * w);
            && red(h) == red(h') && red(i) == red(2 * h' * (2 * h'))
            && red(jz3) == red(2 * (w * h')) && red(r) == red(lam * (2 * (w * h')))
  {
    var b, c := w * w, w * (w * w);
    var h' := (x2 - x1) * b;
    AddDeltas(x1, y1, x2, y2, lam, b, c);
    ZSquared(x2 - x1, w);
    Plus(red, u2, x2 * b, u1, x1 * b);
    Times(red, w, w, h, h');
    Times(red, 2, 2, w * h, w * h');
    Times(red, 2, 2, h, h');
    Square(red, i0, 2 * h');
    Plus(red, s2, y2 * c, s1, y1 * c);
    Times(red, 2, 2, s2 - s1, y2 * c - y1 * c);
    Times(red, lam * (x2 - x1), y2 - y1, 2 * c, 2 * c);
  }

  /** The Jacobian sum carries the affine x coordinate. */
  lemma AddIdentityX(red: int -> int, x1: int, x2: int, b: int, lam: int, x3: int, h: int, i: int, z3: int,
                     j: int, r: int, v: int, jx3: int)
    requires IsCongruence(red) && h == (x2 - x1) * b && z3 * z3 == b * i
    requires red(j) == red(h * i) && red(r) == red(lam * z3) && red(v) == red(x1 * b * i)
    requires red(jx3) == red(r * r - j - 2 * v)
    requires red(x3) == red(lam * lam - x1 - x2)
    ensures red(jx3) == red(x3 * (z3 * z3))
  {
    AddX(x1, x2, b, lam, h, i, z3);
    Square(red, r, lam * z3);
    Plus(red, r * r, lam * z3 * (lam * z3), j, h * i);
    Times(red, 2, 2, v, x1 * b * i);
    Plus(red, r * r - j, lam * z3 * (lam * z3) - h * i, 2 * v, 2 * (x1 * b * i));
    Times(red, x3, lam * lam - x1 - x2, z3 * z3, z3 * z3);
  }

  /** The Jacobian sum carries the affine y coordinate. */
  lemma AddIdentityY(red: int -> int, x1: int, y1: int, w: int, lam: int, x3: int, y3: int, h: int, i: int, z3: int,
                     s1: int, j: int, r: int, v: int, jx3: int, jy3: int)
    requires IsCongruence(red) && z3 == 2 * (w * h) && z3 * z3 == w * w * i
    requires red(j) == red(h * i) && red(r) == red(lam * z3) && red(v) == red(x1 * (w * w) * i)
    requires red(s1) == red(y1 * (w * (w * w))) && red(jx3) == red(x3 * (z3 * z3))
    requires red(jy3) == red(r * (v - jx3) - 2 * s1 * j)
    requires red(y3) == red(lam * (x1 - x3) - y1)
    ensures red(jy3) == red(y3 * (z3 * (z3 * z3)))
  {
    var b, c := w * w, w * (w * w);
    AddY(x1, y1, w, lam, x3, h, i, z3);
    Plus(red, v, x1 * b * i, jx3, x3 * (z3 * z3));
    Times(red, r, lam * z3, v - jx3, x1 * b * i - x3 * (z3 * z3));
    Times(red, 2, 2, s1, y1 * c);
    Times(red, 2 * s1, 2 * (y1 * c), j, h * i);
    Plus(red, r * (v - jx3), lam * z3 * (x1 * b * i - x3 * (z3 * z3)), 2 * s1 * j, 2 * (y1 * c) * (h * i));
    Times(red, y3, lam * (x1 - x3) - y1, z3 * (z3 * z3), z3 * (z3 * z3));
  }

  lemma ZSquared(d: int, w: int)
    ensures var h := d * (w * w);
            && d * (w * (w * w)) == w * h
            && 2 * (w * h) * (2 * (w * h)) == w * w * (2 * h * (2 * h))
  {
    var h := d * (w * w);
    assert w * h * (w * h) == w * w * (h * h);
  }

  // ----- the chord or tangent through two points meets the curve in a third -----

  function Cubic(a: int, b: int, x: int): int {
    x * x * x + a * x + b
  }

  /** The cubic minus the square of the line through (x1, y1) of slope lam, divided by x - x1. */
  function Quotient(a: int, lam: int, x1: int, y1: int, x: int): int {
    x * x + x * x1 + x1 * x1 + a - lam * lam * (x - x1) - 2 * (lam * y1)
  }

  lemma QuotientTimesDifference(a: int, b: int, lam: int, x1: int, y1: int, x: int)
    ensures var line := lam * (x - x1) + y1;
            (x - x1) * Quotient(a, lam, x1, y1, x) == Cubic(a, b, x) - Cubic(a, b, x1) - line * line + y1 * y1
  {
    var d := x - x1;
    assert d * (x * x + x * x1 + x1 * x1) == x * x * x - x1 * x1 * x1;
    assert (lam * d + y1) * (lam * d + y1) == d * (lam * lam * d) + 2 * (lam * d * y1) + y1 * y1;
  }

  lemma QuotientDifference(a: int, lam: int, x1: int, y1: int, x: int, x': int)
    ensures Quotient(a, lam, x1, y1, x) - Quotient(a, lam, x1, y1, x') == (x - x') * (x + x' + x1 - lam * lam)
  {
  }

  /** A chord: the quotient vanishes at the second point, up to the factor x2 - x1. */
  lemma ChordQuotient(red: int -> int, a: int, b: int, lam: int, x1: int, y1: int, x2: int, y2: int)
    requires IsCongruence(red)
    requires red(y1 * y1) == red(Cubic(a, b, x1)) && red(y2 * y2) == red(Cubic(a, b, x2))
    requires red(lam * (x2 - x1)) == red(y2 - y1)
    ensures red((x2 - x1) * Quotient(a, lam, x1, y1, x2)) == red(0)
  {
    var line, c1, c2 := lam * (x2 - x1) + y1, Cubic(a, b, x1), Cubic(a, b, x2);
    QuotientTimesDifference(a, b, lam, x1, y1, x2);
    Plus(red, lam * (x2 - x1), y2 - y1, y1, y1);
    Square(red, line, y2);
    Plus(red, c2, y2 * y2, c1, y1 * y1);
    Plus(red, c2 - c1, y2 * y2 - y1 * y1, line * line, y2 * y2);
    Plus(red, c2 - c1 - line * line, y2 * y2 - y1 * y1 - y2 * y2, y1 * y1, y1 * y1);
  }

  /** Where the quotient vanishes at x2, the third intersection, reflected, is on the curve. */
  lemma ThirdPoint(red: int -> int, a: int, b: int, lam: int, x1: int, y1: int, x2: int, x3: int, y3: int)
    requires IsCongruence(red)
    requires red(y1 * y1) == red(Cubic(a, b, x1)) && red(Quotient(a, lam, x1, y1, x2)) == red(0)
    requires red(x3) == red(lam * lam - x1 - x2) && red(y3) == red(lam * (x1 - x3) - y1)
    ensures red(y3 * y3) == red(Cubic(a, b, x3))
  {
    var q2, q3 := Quotient(a, lam, x1, y1, x2), Quotient(a, lam, x1, y1, x3);
    var line, c1, c3 := lam * (x3 - x1) + y1, Cubic(a, b, x1), Cubic(a, b, x3);
    assert red(q3) == red(0) by {
      QuotientDifference(a, lam, x1, y1, x3, x2);
      Plus(red, x3, lam * lam - x1 - x2, x2 + x1 - lam * lam, x2 + x1 - lam * lam);
      Times(red, x3 - x2, x3 - x2, x3 + x2 + x1 - lam * lam, 0);
      Plus(red, q3 - q2, 0, q2, 0);
    }
    QuotientTimesDifference(a, b, lam, x1, y1, x3);
    Times(red, x3 - x1, x3 - x1, q3, 0);
    Plus(red, c3 - c1 - line * line + y1 * y1, 0, line * line, line * line);
    Plus(red, c3 - c1 + y1 * y1, line * line, c1, y1 * y1);
    Plus(red, c3 + y1 * y1, line * line + y1 * y1, y1 * y1, y1 * y1);
    assert lam * (x1 - x3) - y1 == 0 - line;
    Square(red, y3, 0 - line);
    assert (0 - line) * (0 - line) == line * line;
  }
}
