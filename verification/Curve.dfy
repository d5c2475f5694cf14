/** Short Weierstrass curves y^2 = x^3 - 3x + b over a prime field, in affine and Jacobian coordinates. */
module Curve {
  import opened Modular
  import opened Algebra

  /** Domain parameters: the field prime p, the coefficient b (a is p - 3), a base point, its order n, and
      the octets a coordinate takes. */
  datatype Params = Params(p: pos, b: int, gx: int, gy: int, n: pos, size: nat) {
    function A(): int { p - 3 }

    function Base(): Point { Affine(gx, gy) }
  }

  datatype Point = Infinity | Affine(x: int, y: int)

  datatype Jacobian = Jacobian(x: int, y: int, z: int)

  function JacDouble(c: Params, pt: Jacobian): Jacobian {
    var Jacobian(x, y, z) := pt;
    if y == 0 || z == 0 then Jacobian(0, 0, 0)
    else
      var delta := (z * z) % c.p;
      var gamma := (y * y) % c.p;
      var beta := (x * gamma) % c.p;
      var alpha := (3 * (x - delta) * (x + delta)) % c.p;
      var x3 := (alpha * alpha - 8 * beta) % c.p;
      var z3 := ((y + z) * (y + z) - gamma - delta) % c.p;
      var y3 := (alpha * (4 * beta - x3) - 8 * (gamma * gamma)) % c.p;
      Jacobian(x3, y3, z3)
  }

  function JacAdd(c: Params, p1: Jacobian, p2: Jacobian): Jacobian {
    var Jacobian(x1, y1, z1) := p1;
    var Jacobian(x2, y2, z2) := p2;
    if z1 == 0 then p2
    else if z2 == 0 then p1
    else
      var z1z1 := (z1 * z1) % c.p;
      var z2z2 := (z2 * z2) % c.p;
      var u1 := (x1 * z2z2) % c.p;
      var u2 := (x2 * z1z1) % c.p;
      var s1 := (y1 * z2 * z2z2) % c.p;
      var s2 := (y2 * z1 * z1z1) % c.p;
      if u1 == u2 then
        if s1 != s2 then Jacobian(0, 0, 0) else JacDouble(c, p1)
      else
        var h := (u2 - u1) % c.p;
        var i0 := (2 * h) % c.p;
        var i := (i0 * i0) % c.p;
        var j := (h * i) % c.p;
        var r := (2 * (s2 - s1)) % c.p;
        var v := (u1 * i) % c.p;
        var x3 := (r * r - j - 2 * v) % c.p;
        var y3 := (r * (v - x3) - 2 * s1 * j) % c.p;
        var z3 := (((z1 + z2) * (z1 + z2) - z1z1 - z2z2) * h) % c.p;
        Jacobian(x3, y3, z3)
  }

  function JacToAffine(c: Params, pt: Jacobian): Point
    requires c.p > 2
  {
    var Jacobian(x, y, z) := pt;
    if z == 0 then Infinity
    else
      var zinv := PowMod(z, c.p - 2, c.p);
      var zinv2 := (zinv * zinv) % c.p;
      Affine((x * zinv2) % c.p, (y * zinv2 * zinv) % c.p)
  }

  function AffineAdd(c: Params, p1: Point, p2: Point): Point
    requires c.p > 2
  {
    if p1.Infinity? then p2
    else if p2.Infinity? then p1
    else
      var Affine(x1, y1) := p1;
      var Affine(x2, y2) := p2;
      if x1 == x2 && (y1 + y2) % c.p == 0 then Infinity
      else
        var lam := if p1 == p2
                   then (3 * x1 * x1 + c.A()) * PowMod(2 * y1, c.p - 2, c.p) % c.p
                   else (y2 - y1) * PowMod(x2 - x1, c.p - 2, c.p) % c.p;
        var x3 := (lam * lam - x1 - x2) % c.p;
        var y3 := (lam * (x1 - x3) - y1) % c.p;
        Affine(x3, y3)
  }

  predicate OnCurve(c: Params, pt: Point) {
    pt.Infinity? || (pt.y * pt.y - (pt.x * pt.x * pt.x + c.A() * pt.x + c.b)) % c.p == 0
  }

  /** A point of the curve with reduced coordinates. */
  predicate Valid(c: Params, pt: Point) {
    OnCurve(c, pt) && (pt.Affine? ==> 0 <= pt.x < c.p && 0 <= pt.y < c.p)
  }

  function Red(m: pos): int -> int {
    (a: int) => a % m
  }

  lemma RedIsCongruence(m: pos)
    ensures IsCongruence(Red(m))
  {
    var red := Red(m);
    forall a, a', b, b'
      ensures Respects(red, a, a', b, b')
    {
      if red(a) == red(a') && red(b) == red(b') {
        CongAdd(m, a, a', b, b');
        CongMul(m, a, a', b, b');
      }
    }
  }

  // ----- slopes -----

  /** The slope the affine addition divides for, as a congruence. */
  lemma SlopeDivides(p: pos, num: int, den: int)
    requires Prime(p) && p > 2 && !Cong(p, den, 0)
    ensures Cong(p, num * PowMod(den, p - 2, p) % p * den, num)
  {
    var inv := PowMod(den, p - 2, p);
    PowModInverse(p, den);
    CongMod(p, num * inv);
    CongMul(p, num * inv % p, num * inv, den, den);
    CongMul(p, num, num, den * inv, 1);
    assert num * inv * den == num * (den * inv);
  }

  // ----- Jacobian coordinates represent affine points -----

  predicate Reduced(p: pos, j: Jacobian) {
    0 <= j.x < p && 0 <= j.y < p && 0 <= j.z < p
  }

  predicate Represents(c: Params, j: Jacobian, pt: Point) {
    Reduced(c.p, j) && (pt.Infinity? <==> j.z == 0) &&
    (pt.Affine? ==> Cong(c.p, j.x, pt.x * (j.z * j.z)) && Cong(c.p, j.y, pt.y * (j.z * (j.z * j.z))))
  }

  lemma ToAffineInvertsRepresents(c: Params, j: Jacobian, pt: Point)
    requires Prime(c.p) && c.p > 2 && Represents(c, j, pt) && Valid(c, pt)
    ensures JacToAffine(c, j) == pt
  {
    if pt.Affine? {
      var p, z := c.p, j.z;
      var t := PowMod(z, p - 2, p);
      RedIsCongruence(p);
      NonzeroResidue(p, z);
      PowModInverse(p, z);
      CongMod(p, t * t);
      Normalise(Red(p), pt.x, pt.y, z, j.x, j.y, t, t * t % p);
      CongReducedMod(p, j.x * (t * t % p), pt.x);
      CongReducedMod(p, j.y * (t * t % p) * t, pt.y);
    }
  }

  lemma NonzeroResidue(p: pos, z: int)
    requires 0 < z < p
    ensures !Cong(p, z, 0)
  {
    ModUnique(p, z, 0, z);
    ModUnique(p, 0, 0, 0);
  }

  lemma CongReducedMod(p: pos, a: int, x: int)
    requires 0 <= x < p && Cong(p, a, x)
    ensures a % p == x
  {
    ModUnique(p, x, 0, x);
  }

  // ----- the Jacobian formulas refine the affine ones -----

  lemma UnitProduct(p: pos, a: int, b: int)
    requires Prime(p) && !Cong(p, a, 0) && !Cong(p, b, 0)
    ensures !Cong(p, a * b, 0)
  {
    if Cong(p, a * b, 0) {
      Euclid(p, a, b);
    }
  }

  lemma UnitPowers(p: pos, z: int)
    requires Prime(p) && !Cong(p, z, 0)
    ensures !Cong(p, z * z, 0) && !Cong(p, z * (z * z), 0) && !Cong(p, z * z * (z * z), 0)
  {
    UnitProduct(p, z, z);
    UnitProduct(p, z, z * z);
    UnitProduct(p, z * z, z * z);
  }

  lemma DoubleIsUnit(p: pos, y: int)
    requires Prime(p) && p > 2 && 0 < y < p
    ensures !Cong(p, 2 * y, 0) && (y + y) % p != 0
  {
    NonzeroResidue(p, 2);
    NonzeroResidue(p, y);
    UnitProduct(p, 2, y);
    ModUnique(p, 0, 0, 0);
  }

  lemma DoubleSlope(c: Params, x: int, y: int, lam: int)
    requires Prime(c.p) && c.p > 2 && 0 < y < c.p
    requires lam == (3 * x * x + c.A()) * PowMod(2 * y, c.p - 2, c.p) % c.p
    ensures Cong(c.p, lam * (2 * y), 3 * x * x - 3) && Cong(c.p, lam * (2 * y), 3 * x * x + c.A())
  {
    DoubleIsUnit(c.p, y);
    SlopeDivides(c.p, 3 * x * x + c.A(), 2 * y);
    CongFromMultiple(c.p, 3 * x * x + c.A(), 3 * x * x - 3, 1);
  }

  lemma DoubleRefines(c: Params, j: Jacobian, pt: Point)
    requires Prime(c.p) && c.p > 2 && Valid(c, pt) && Represents(c, j, pt)
    ensures Represents(c, JacDouble(c, j), AffineAdd(c, pt, pt))
  {
    if pt.Infinity? || pt.y == 0 {
      DoubleRefinesZero(c, j, pt);
    } else {
      DoubleRefinesNonzero(c, j, pt);
    }
  }

  lemma DoubleRefinesZero(c: Params, j: Jacobian, pt: Point)
    requires c.p > 2 && Valid(c, pt) && Represents(c, j, pt) && (pt.Affine? ==> pt.y == 0)
    ensures JacDouble(c, j) == Jacobian(0, 0, 0) && AffineAdd(c, pt, pt) == Infinity
  {
    if pt.Affine? {
      CongReducedMod(c.p, 0, 0);
      CongReduced(c.p, j.y, 0);
    }
  }

  lemma DoubleRefinesNonzero(c: Params, j: Jacobian, pt: Point)
    requires Prime(c.p) && c.p > 2 && Valid(c, pt) && Represents(c, j, pt) && pt.Affine? && pt.y != 0
    ensures Represents(c, JacDouble(c, j), AffineAdd(c, pt, pt))
  {
    var p := c.p;
    DoubleIsUnit(p, pt.y);
    NonzeroResidue(p, pt.y);
    NonzeroResidue(p, j.z);
    UnitPowers(p, j.z);
    UnitProduct(p, pt.y, j.z * (j.z * j.z));
    UnitProduct(p, 2 * pt.y, j.z * j.z * (j.z * j.z));
    var delta := (j.z * j.z) % p;
    var gamma := (j.y * j.y) % p;
    var beta := (j.x * gamma) % p;
    var alpha := (3 * (j.x - delta) * (j.x + delta)) % p;
    var r, s := JacDouble(c, j), AffineAdd(c, pt, pt);
    var lam := (3 * pt.x * pt.x + c.A()) * PowMod(2 * pt.y, p - 2, p) % p;
    RedIsCongruence(p);
    CongMod(p, j.z * j.z);
    CongMod(p, j.y * j.y);
    CongMod(p, j.x * gamma);
    CongMod(p, 3 * (j.x - delta) * (j.x + delta));
    CongMod(p, alpha * alpha - 8 * beta);
    CongMod(p, (j.y + j.z) * (j.y + j.z) - gamma - delta);
    CongMod(p, alpha * (4 * beta - r.x) - 8 * (gamma * gamma));
    CongMod(p, lam * lam - pt.x - pt.x);
    CongMod(p, lam * (pt.x - s.x) - pt.y);
    DoubleSlope(c, pt.x, pt.y, lam);
    DoubleParts(Red(p), pt.x, pt.y, j.z, j.x, j.y, delta, gamma, beta, alpha, r.z);
    DoubleIdentity(Red(p), pt.x, pt.y, j.z * j.z * (j.z * j.z), lam, s.x, s.y, gamma * gamma, beta, alpha, r.x, r.y, r.z);
  }

  lemma ChordSlope(c: Params, x1: int, y1: int, x2: int, y2: int, lam: int)
    requires Prime(c.p) && c.p > 2 && 0 <= x1 < c.p && 0 <= x2 < c.p && x1 != x2
    requires lam == (y2 - y1) * PowMod(x2 - x1, c.p - 2, c.p) % c.p
    ensures !Cong(c.p, x2 - x1, 0) && Cong(c.p, lam * (x2 - x1), y2 - y1)
  {
    if Cong(c.p, x2 - x1, 0) {
      CongAdd(c.p, x2 - x1, 0, x1, x1);
      CongReduced(c.p, x2, x1);
    }
    SlopeDivides(c.p, y2 - y1, x2 - x1);
  }

  /** Two points of the curve with one x are equal or opposite. */
  lemma SameX(c: Params, p1: Point, p2: Point)
    requires Prime(c.p) && Valid(c, p1) && Valid(c, p2) && p1.Affine? && p2.Affine? && p1.x == p2.x
    ensures p1.y == p2.y || (p1.y + p2.y) % c.p == 0
  {
    var p, y1, y2 := c.p, p1.y, p2.y;
    var cubic := p1.x * p1.x * p1.x + c.A() * p1.x + c.b;
    ModUnique(p, 0, 0, 0);
    CongAdd(p, y1 * y1 - cubic, 0, cubic, cubic);
    CongAdd(p, y2 * y2 - cubic, 0, cubic, cubic);
    SquareRoots(p, y1, y2);
    if Cong(p, y1, y2) {
      CongReduced(p, y1, y2);
    }
  }

  /** The two halves of a Jacobian addition are equal exactly when the affine coordinates are. */
  lemma ScaledEqual(p: pos, x1: int, x2: int, u1: int, u2: int, d: int)
    requires Prime(p) && 0 <= x1 < p && 0 <= x2 < p && 0 <= u1 < p && 0 <= u2 < p
    requires !Cong(p, d, 0) && Cong(p, u1, x1 * d) && Cong(p, u2, x2 * d)
    ensures u1 == u2 <==> x1 == x2
  {
    if u1 == u2 {
      Cancel(p, d, x1, x2);
      CongReduced(p, x1, x2);
    }
    if x1 == x2 {
      CongReduced(p, u1, u2);
    }
  }

  lemma AddRefines(c: Params, j1: Jacobian, j2: Jacobian, p1: Point, p2: Point)
    requires Prime(c.p) && c.p > 2 && Valid(c, p1) && Valid(c, p2)
    requires Represents(c, j1, p1) && Represents(c, j2, p2)
    ensures Represents(c, JacAdd(c, j1, j2), AffineAdd(c, p1, p2))
  {
    if p1.Affine? && p2.Affine? {
      var p := c.p;
      var w := j1.z * j2.z;
      var z1z1, z2z2 := (j1.z * j1.z) % p, (j2.z * j2.z) % p;
      var u1, u2 := (j1.x * z2z2) % p, (j2.x * z1z1) % p;
      var s1, s2 := (j1.y * j2.z * z2z2) % p, (j2.y * j1.z * z1z1) % p;
      AddHalf(c, j1, p1, j2.z, z2z2, u1, s1);
      AddHalf(c, j2, p2, j1.z, z1z1, u2, s2);
      assert j2.z * j1.z == w;
      NonzeroResidue(p, j1.z);
      NonzeroResidue(p, j2.z);
      UnitProduct(p, j1.z, j2.z);
      UnitPowers(p, w);
      ScaledEqual(p, p1.x, p2.x, u1, u2, w * w);
      ScaledEqual(p, p1.y, p2.y, s1, s2, w * (w * w));
      if u1 == u2 {
        SameX(c, p1, p2);
        if s1 == s2 {
          DoubleRefines(c, j1, p1);
        }
      } else {
        AddRefinesDistinct(c, j1, j2, p1, p2, u1, u2, s1, s2);
      }
    }
  }

  lemma AddHalf(c: Params, j1: Jacobian, p1: Point, z2: int, z2z2: int, u1: int, s1: int)
    requires Represents(c, j1, p1) && p1.Affine?
    requires z2z2 == (z2 * z2) % c.p && u1 == (j1.x * z2z2) % c.p && s1 == (j1.y * z2 * z2z2) % c.p
    ensures var w := j1.z * z2; Cong(c.p, u1, p1.x * (w * w)) && Cong(c.p, s1, p1.y * (w * (w * w)))
  {
    RedIsCongruence(c.p);
    CongMod(c.p, z2 * z2);
    CongMod(c.p, j1.x * z2z2);
    CongMod(c.p, j1.y * z2 * z2z2);
    AddParts(Red(c.p), p1.x, p1.y, j1.z, z2, j1.x, j1.y, z2z2, u1, s1);
  }

  lemma AddRefinesDistinct(c: Params, j1: Jacobian, j2: Jacobian, p1: Point, p2: Point, u1: int, u2: int, s1: int, s2: int)
    requires Prime(c.p) && c.p > 2 && Valid(c, p1) && Valid(c, p2) && p1.Affine? && p2.Affine?
    requires Represents(c, j1, p1) && Represents(c, j2, p2)
    requires u1 == (j1.x * ((j2.z * j2.z) % c.p)) % c.p && u2 == (j2.x * ((j1.z * j1.z) % c.p)) % c.p
    requires s1 == (j1.y * j2.z * ((j2.z * j2.z) % c.p)) % c.p && s2 == (j2.y * j1.z * ((j1.z * j1.z) % c.p)) % c.p
    requires var w := j1.z * j2.z;
             && Cong(c.p, u1, p1.x * (w * w)) && Cong(c.p, s1, p1.y * (w * (w * w)))
             && Cong(c.p, u2, p2.x * (w * w)) && Cong(c.p, s2, p2.y * (w * (w * w)))
             && !Cong(c.p, w, 0) && !Cong(c.p, w * w, 0)
    requires u1 != u2 && p1.x != p2.x
    ensures Represents(c, JacAdd(c, j1, j2), AffineAdd(c, p1, p2))
  {
    var p, w := c.p, j1.z * j2.z;
    var h := (u2 - u1) % p;
    var i0 := (2 * h) % p;
    var i := (i0 * i0) % p;
    var j := (h * i) % p;
    var r := (2 * (s2 - s1)) % p;
    var v := (u1 * i) % p;
    var res, sum := JacAdd(c, j1, j2), AffineAdd(c, p1, p2);
    var lam := (p2.y - p1.y) * PowMod(p2.x - p1.x, p - 2, p) % p;
    ChordSlope(c, p1.x, p1.y, p2.x, p2.y, lam);
    AddZ(p, j1.z, j2.z, h, res.z);
    AddCoordinates(p, p1.x, p1.y, p2.x, p2.y, w, lam, sum.x, sum.y, u1, u2, s1, s2, h, i0, i, j, r, v, res.x, res.y, res.z);
  }

  lemma AddCoordinates(p: pos, x1: int, y1: int, x2: int, y2: int, w: int, lam: int, x3: int, y3: int,
                       u1: int, u2: int, s1: int, s2: int, h: int, i0: int, i: int, j: int, r: int, v: int,
                       jx3: int, jy3: int, jz3: int)
    requires Prime(p) && p > 2 && !Cong(p, x2 - x1, 0) && !Cong(p, w, 0)
    requires Cong(p, u1, x1 * (w * w)) && Cong(p, s1, y1 * (w * (w * w)))
    requires Cong(p, u2, x2 * (w * w)) && Cong(p, s2, y2 * (w * (w * w)))
    requires h == (u2 - u1) % p && i0 == (2 * h) % p && i == (i0 * i0) % p && j == (h * i) % p
    requires r == (2 * (s2 - s1)) % p && v == (u1 * i) % p && Cong(p, jz3, 2 * (w * h))
    requires jx3 == (r * r - j - 2 * v) % p && jy3 == (r * (v - jx3) - 2 * s1 * j) % p
    requires Cong(p, lam * (x2 - x1), y2 - y1)
    requires x3 == (lam * lam - x1 - x2) % p && y3 == (lam * (x1 - x3) - y1) % p
    ensures !Cong(p, jz3, 0) && Cong(p, jx3, x3 * (jz3 * jz3)) && Cong(p, jy3, y3 * (jz3 * (jz3 * jz3)))
  {
    var red := Red(p);
    var h' := (x2 - x1) * (w * w);
    var i', z3 := 2 * h' * (2 * h'), 2 * (w * h');
    RedIsCongruence(p);
    CongMod(p, u2 - u1);
    CongMod(p, 2 * h);
    CongMod(p, i0 * i0);
    CongMod(p, 2 * (s2 - s1));
    AddSlope(red, x1, y1, x2, y2, w, lam, u1, u2, s1, s2, h, i0, i, r, jz3);
    CongMod(p, h * i);
    Times(red, h, h', i, i');
    CongMod(p, u1 * i);
    Times(red, u1, x1 * (w * w), i, i');
    CongMod(p, r * r - j - 2 * v);
    CongMod(p, r * (v - jx3) - 2 * s1 * j);
    CongMod(p, lam * lam - x1 - x2);
    CongMod(p, lam * (x1 - x3) - y1);
    ZSquared(x2 - x1, w);
    AddIdentityX(red, x1, x2, w * w, lam, x3, h', i', z3, j, r, v, jx3);
    AddIdentityY(red, x1, y1, w, lam, x3, y3, h', i', z3, s1, j, r, v, jx3, jy3);
    AddResult(p, x2 - x1, w, x3, y3, z3, jz3);
  }

  lemma AddResult(p: pos, d: int, w: int, x3: int, y3: int, z3: int, jz3: int)
    requires Prime(p) && p > 2 && !Cong(p, d, 0) && !Cong(p, w, 0)
    requires z3 == 2 * (w * (d * (w * w))) && Cong(p, jz3, z3)
    ensures !Cong(p, jz3, 0)
    ensures Cong(p, x3 * (jz3 * jz3), x3 * (z3 * z3)) && Cong(p, y3 * (jz3 * (jz3 * jz3)), y3 * (z3 * (z3 * z3)))
  {
    RedIsCongruence(p);
    Square(Red(p), jz3, z3);
    Times(Red(p), x3, x3, jz3 * jz3, z3 * z3);
    Times(Red(p), y3, y3, jz3 * (jz3 * jz3), z3 * (z3 * z3));
    NonzeroResidue(p, 2);
    UnitPowers(p, w);
    UnitProduct(p, d, w * w);
    UnitProduct(p, w, d * (w * w));
    UnitProduct(p, 2, w * (d * (w * w)));
  }

  lemma AddZ(p: pos, z1: int, z2: int, h: int, z3: int)
    requires z3 == (((z1 + z2) * (z1 + z2) - (z1 * z1) % p - (z2 * z2) % p) * h) % p
    ensures Cong(p, z3, 2 * (z1 * z2 * h))
  {
    var a, b := (z1 * z1) % p, (z2 * z2) % p;
    var t := (z1 + z2) * (z1 + z2) - a - b;
    RedIsCongruence(p);
    CongMod(p, z1 * z1);
    CongMod(p, z2 * z2);
    CongMod(p, t * h);
    CrossTerm(Red(p), z1, z2, a, b);
    Times(Red(p), t, 2 * (z1 * z2), h, h);
    assert 2 * (z1 * z2) * h == 2 * (z1 * z2 * h);
  }
}
