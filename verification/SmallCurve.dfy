/** A curve of five points that meets every hypothesis the curve and signature lemmas take, so none of them is vacuous. */
module SmallCurve {
  import opened Modular
  import opened Curve
  import opened Group
  import Sec1
  import Ecdsa

  /** y^2 = x^3 - 3x + 1 over the field of 7 elements. */
  const PARAMS := Params(7, 1, 0, 1, 5, 1)

  /** The multiples of the base point. */
  function At(i: nat): Point {
    if i == 0 then Infinity
    else if i == 1 then Affine(0, 1)
    else if i == 2 then Affine(4, 5)
    else if i == 3 then Affine(4, 2)
    else Affine(0, 6)
  }

  function IndexOf(pt: Point): (i: nat)
    ensures i < 5 && (Valid(PARAMS, pt) ==> At(i) == pt)
  {
    if pt.Affine? && Valid(PARAMS, pt) then
      Points(pt.x, pt.y);
      if pt.x == 0 then if pt.y == 1 then 1 else 4
      else if pt.y == 5 then 2 else 3
    else 0
  }

  lemma Points(x: int, y: int)
    requires Valid(PARAMS, Affine(x, y))
    ensures (x == 0 && (y == 1 || y == 6)) || (x == 4 && (y == 2 || y == 5))
  {
    assert x == 0 || x == 1 || x == 2 || x == 3 || x == 4 || x == 5 || x == 6;
    assert y == 0 || y == 1 || y == 2 || y == 3 || y == 4 || y == 5 || y == 6;
  }

  lemma SmallPrime(p: pos)
    requires p == 5 || p == 7
    ensures Prime(p)
  {
    forall d: pos | Divides(d, p)
      ensures d == 1 || d == p
    {
      if d > p {
        ModUnique(d, p, 0, p);
      }
      assert d <= 7;
    }
  }

  lemma FifthPower(a: int)
    ensures PowMod(a, 5, 7) == (a * (a * (a * (a * a)))) % 7
  {
    assert Pow(a, 1) == a;
    assert Pow(a, 2) == a * a;
    assert Pow(a, 3) == a * (a * a);
    assert Pow(a, 4) == a * (a * (a * a));
  }

  /** The inverses mod 7 of the slopes' denominators. */
  lemma Inverses()
    ensures PowMod(2, 5, 7) == 4 && PowMod(4, 5, 7) == 2 && PowMod(-4, 5, 7) == 5
    ensures PowMod(10, 5, 7) == 5 && PowMod(12, 5, 7) == 3
  {
    FifthPower(2);
    FifthPower(4);
    FifthPower(-4);
    FifthPower(10);
    FifthPower(12);
  }

  /** One sum, from the inverse of its slope's denominator. */
  lemma Sum(p1: Point, p2: Point, inv: int, sum: Point)
    requires p1.Affine? && p2.Affine? && sum.Affine? && !(p1.x == p2.x && (p1.y + p2.y) % 7 == 0)
    requires PowMod(if p1 == p2 then 2 * p1.y else p2.x - p1.x, 5, 7) == inv
    requires var lam := (if p1 == p2 then 3 * p1.x * p1.x + 4 else p2.y - p1.y) * inv % 7;
             sum.x == (lam * lam - p1.x - p2.x) % 7 && sum.y == (lam * (p1.x - sum.x) - p1.y) % 7
    ensures AffineAdd(PARAMS, p1, p2) == sum
  {
    hide PowMod;
  }

  lemma Doubles(i: nat)
    requires 0 < i < 5
    ensures AffineAdd(PARAMS, At(i), At(i)) == At((i + i) % 5)
  {
    hide PowMod, AffineAdd;
    Inverses();
    Sum(Affine(0, 1), Affine(0, 1), 4, Affine(4, 5));
    Sum(Affine(4, 5), Affine(4, 5), 5, Affine(0, 6));
    Sum(Affine(4, 2), Affine(4, 2), 2, Affine(0, 1));
    Sum(Affine(0, 6), Affine(0, 6), 3, Affine(4, 2));
  }

  lemma Chords(i: nat, j: nat)
    requires 0 < i < 5 && 0 < j < 5 && i != j && i + j != 5
    ensures AffineAdd(PARAMS, At(i), At(j)) == At((i + j) % 5)
  {
    hide PowMod, AffineAdd;
    Inverses();
    Sum(Affine(0, 1), Affine(4, 5), 2, Affine(4, 2));
    Sum(Affine(0, 1), Affine(4, 2), 2, Affine(0, 6));
    Sum(Affine(4, 5), Affine(0, 1), 5, Affine(4, 2));
    Sum(Affine(4, 5), Affine(0, 6), 5, Affine(0, 1));
    Sum(Affine(4, 2), Affine(0, 1), 5, Affine(0, 6));
    Sum(Affine(4, 2), Affine(0, 6), 5, Affine(4, 5));
    Sum(Affine(0, 6), Affine(4, 5), 2, Affine(0, 1));
    Sum(Affine(0, 6), Affine(4, 2), 2, Affine(4, 5));
  }

  /** Adding multiples adds their indices mod 5. */
  lemma Sums(i: nat, j: nat)
    requires i < 5 && j < 5
    ensures AffineAdd(PARAMS, At(i), At(j)) == At((i + j) % 5)
  {
    if i != 0 && j != 0 && i + j != 5 {
      hide AffineAdd;
      if i == j {
        Doubles(i);
      } else {
        Chords(i, j);
      }
    }
  }

  lemma Associates(p1: Point, p2: Point, p3: Point)
    ensures AssociatesAt(PARAMS, p1, p2, p3)
  {
    hide AffineAdd, At, Valid;
    var i, j, k := IndexOf(p1), IndexOf(p2), IndexOf(p3);
    Sums(i, j);
    Sums(j, k);
    Sums((i + j) % 5, k);
    Sums(i, (j + k) % 5);
  }

  lemma {:induction false} Multiples(k: nat)
    requires k <= 5
    ensures Multiple(PARAMS, k, PARAMS.Base()) == At(k % 5)
  {
    hide AffineAdd;
    if k != 0 {
      Multiples(k - 1);
      Sums(k - 1, 1);
    }
  }

  lemma MeetsHypotheses()
    ensures Sec1.Encodable(PARAMS) && Ecdsa.SigningParams(PARAMS)
  {
    hide AssociatesAt, Multiple, Prime;
    SmallPrime(7);
    SmallPrime(5);
    forall p1, p2, p3 ensures AssociatesAt(PARAMS, p1, p2, p3) { Associates(p1, p2, p3); }
    Multiples(5);
    assert Pow(256, 1) == 256;
  }
}
