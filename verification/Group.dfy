/** The affine points as a group, and the two scalar multiplications. */
module Group {
  import opened Modular
  import opened Algebra
  import opened Curve

  /** The field is prime and odd: what every result below needs of the parameters. */
  ghost predicate Field(c: Params) {
    Prime(c.p) && c.p > 2
  }

  lemma OnCurveCong(c: Params, x: int, y: int)
    ensures OnCurve(c, Affine(x, y)) <==> Cong(c.p, y * y, Cubic(c.A(), c.b, x))
  {
    var p, r := c.p, Cubic(c.A(), c.b, x);
    ModUnique(p, 0, 0, 0);
    if Cong(p, y * y, r) {
      CongAdd(p, y * y, r, r, r);
    }
    if Cong(p, y * y - r, 0) {
      CongAdd(p, y * y - r, 0, r, r);
    }
  }

  /** Addition stays on the curve. */
  lemma AddValid(c: Params, p1: Point, p2: Point)
    requires Field(c) && Valid(c, p1) && Valid(c, p2)
    ensures Valid(c, AffineAdd(c, p1, p2))
  {
    var sum := AffineAdd(c, p1, p2);
    if p1.Affine? && p2.Affine? && sum.Affine? {
      var p, red := c.p, Red(c.p);
      var Affine(x1, y1) := p1;
      var Affine(x2, y2) := p2;
      OnCurveCong(c, x1, y1);
      OnCurveCong(c, x2, y2);
      OnCurveCong(c, sum.x, sum.y);
      RedIsCongruence(p);
      if p1 == p2 {
        var lam := (3 * x1 * x1 + c.A()) * PowMod(2 * y1, p - 2, p) % p;
        TangentQuotient(c, x1, y1, lam);
        CongMod(p, lam * lam - x1 - x2);
        CongMod(p, lam * (x1 - sum.x) - y1);
        ThirdPoint(red, c.A(), c.b, lam, x1, y1, x2, sum.x, sum.y);
      } else {
        if x1 == x2 {
          SameX(c, p1, p2);
        }
        var lam := (y2 - y1) * PowMod(x2 - x1, p - 2, p) % p;
        ChordSlope(c, x1, y1, x2, y2, lam);
        ChordQuotient(red, c.A(), c.b, lam, x1, y1, x2, y2);
        Euclid(p, x2 - x1, Quotient(c.A(), lam, x1, y1, x2));
        CongMod(p, lam * lam - x1 - x2);
        CongMod(p, lam * (x1 - sum.x) - y1);
        ThirdPoint(red, c.A(), c.b, lam, x1, y1, x2, sum.x, sum.y);
      }
    }
  }

  lemma TangentQuotient(c: Params, x: int, y: int, lam: int)
    requires Field(c) && 0 <= y < c.p && (y + y) % c.p != 0
    requires lam == (3 * x * x + c.A()) * PowMod(2 * y, c.p - 2, c.p) % c.p
    ensures Cong(c.p, Quotient(c.A(), lam, x, y, x), 0)
  {
    if y == 0 { ModUnique(c.p, 0, 0, 0); }
    DoubleSlope(c, x, y, lam);
    CongAdd(c.p, 3 * x * x + c.A(), lam * (2 * y), lam * (2 * y), lam * (2 * y));
    assert Quotient(c.A(), lam, x, y, x) == 3 * x * x + c.A() - lam * (2 * y);
  }

  lemma AddCommutes(c: Params, p1: Point, p2: Point)
    requires Field(c) && Valid(c, p1) && Valid(c, p2)
    ensures AffineAdd(c, p1, p2) == AffineAdd(c, p2, p1)
  {
    if p1.Affine? && p2.Affine? && p1 != p2 && AffineAdd(c, p1, p2).Affine? {
      if p1.x == p2.x {
        SameX(c, p1, p2);
      }
      var p := c.p;
      var lam := (p2.y - p1.y) * PowMod(p2.x - p1.x, p - 2, p) % p;
      var lam' := (p1.y - p2.y) * PowMod(p1.x - p2.x, p - 2, p) % p;
      ChordSlope(c, p1.x, p1.y, p2.x, p2.y, lam);
      ChordSlope(c, p2.x, p2.y, p1.x, p1.y, lam');
      SlopesAgree(p, p2.x - p1.x, p2.y - p1.y, lam, lam');
      var x3 := (lam * lam - p1.x - p2.x) % p;
      ThirdPointAgrees(p, p1.x, p1.y, p2.x, p2.y, lam, x3);
    }
  }

  lemma SlopesAgree(p: pos, d: int, e: int, lam: int, lam': int)
    requires Prime(p) && 0 <= lam < p && 0 <= lam' < p && !Cong(p, d, 0)
    requires Cong(p, lam * d, e) && Cong(p, lam' * (0 - d), 0 - e)
    ensures lam == lam'
  {
    CongAdd(p, 0, 0, lam' * (0 - d), 0 - e);
    assert d * lam' == 0 - lam' * (0 - d) && d * lam == lam * d;
    Cancel(p, d, lam, lam');
    CongReduced(p, lam, lam');
  }

  lemma ThirdPointAgrees(p: pos, x1: int, y1: int, x2: int, y2: int, lam: int, x3: int)
    requires Cong(p, lam * (x2 - x1), y2 - y1)
    ensures Cong(p, lam * (x1 - x3) - y1, lam * (x2 - x3) - y2)
  {
    CongAdd(p, lam * (x1 - x3) - y2, lam * (x1 - x3) - y2, lam * (x2 - x1), y2 - y1);
    assert lam * (x1 - x3) - y2 + lam * (x2 - x1) == lam * (x2 - x3) - y2;
  }

  function Negate(c: Params, pt: Point): Point {
    if pt.Infinity? then pt else Affine(pt.x, (0 - pt.y) % c.p)
  }

  lemma NegatedOrdinate(p: pos, y: int)
    ensures var y' := (0 - y) % p; Cong(p, y' * y', y * y) && (y + y') % p == 0
  {
    var y' := (0 - y) % p;
    CongMod(p, 0 - y);
    CongMul(p, y', 0 - y, y', 0 - y);
    assert (0 - y) * (0 - y) == y * y;
    CongAdd(p, y, y, y', 0 - y);
    ModUnique(p, 0, 0, 0);
  }

  lemma NegateValid(c: Params, pt: Point)
    requires Field(c) && Valid(c, pt)
    ensures Valid(c, Negate(c, pt)) && AffineAdd(c, pt, Negate(c, pt)) == Infinity
  {
    if pt.Affine? {
      var y' := (0 - pt.y) % c.p;
      OnCurveCong(c, pt.x, pt.y);
      OnCurveCong(c, pt.x, y');
      NegatedOrdinate(c.p, pt.y);
    }
  }

  // ----- multiples of a point -----

  /** The k-fold sum of a point. */
  function Multiple(c: Params, k: nat, pt: Point): Point
    requires c.p > 2
  {
    if k == 0 then Infinity else AffineAdd(c, Multiple(c, k - 1, pt), pt)
  }

  ghost predicate AssociatesAt(c: Params, p1: Point, p2: Point, p3: Point)
    requires c.p > 2
  {
    Valid(c, p1) && Valid(c, p2) && Valid(c, p3) ==>
      AffineAdd(c, AffineAdd(c, p1, p2), p3) == AffineAdd(c, p1, AffineAdd(c, p2, p3))
  }

  /** The one part of the group law taken as given: chord-and-tangent addition is associative. */
  ghost predicate GroupLaw(c: Params) {
    Field(c) && forall p1, p2, p3 :: AssociatesAt(c, p1, p2, p3)
  }

  lemma {:induction false} MultipleValid(c: Params, k: nat, pt: Point)
    requires Field(c) && Valid(c, pt)
    ensures Valid(c, Multiple(c, k, pt))
  {
    if k != 0 {
      MultipleValid(c, k - 1, pt);
      AddValid(c, Multiple(c, k - 1, pt), pt);
    }
  }

  lemma {:induction false} MultipleAdd(c: Params, j: nat, k: nat, pt: Point)
    requires GroupLaw(c) && Valid(c, pt)
    ensures Multiple(c, j + k, pt) == AffineAdd(c, Multiple(c, j, pt), Multiple(c, k, pt))
  {
    if k != 0 {
      MultipleAdd(c, j, k - 1, pt);
      MultipleValid(c, j, pt);
      MultipleValid(c, k - 1, pt);
      assert AssociatesAt(c, Multiple(c, j, pt), Multiple(c, k - 1, pt), pt);
    }
  }

  lemma {:induction false} MultipleMultiple(c: Params, j: nat, k: nat, pt: Point)
    requires GroupLaw(c) && Valid(c, pt)
    ensures Multiple(c, j * k, pt) == Multiple(c, j, Multiple(c, k, pt))
  {
    if j != 0 {
      MultipleMultiple(c, j - 1, k, pt);
      assert j * k == (j - 1) * k + k;
      MultipleAdd(c, (j - 1) * k, k, pt);
    }
  }

  lemma {:induction false} MultipleInfinity(c: Params, k: nat)
    requires c.p > 2
    ensures Multiple(c, k, Infinity) == Infinity
  {
    if k != 0 {
      MultipleInfinity(c, k - 1);
    }
  }

  /** Multiples repeat with period n exactly when the n-fold sum is the point at infinity. */
  lemma MultipleMod(c: Params, k: nat, n: pos, pt: Point)
    requires GroupLaw(c) && Valid(c, pt) && Multiple(c, n, pt) == Infinity
    ensures Multiple(c, k % n, pt) == Multiple(c, k, pt)
  {
    hide AffineAdd, Multiple, AssociatesAt, Prime, Valid;
    var q, r := Division(k, n);
    MultipleMultiple(c, q, n, pt);
    MultipleInfinity(c, q);
    MultipleAdd(c, q * n, r, pt);
    AddInfinity(c, Multiple(c, r, pt));
  }

  lemma Division(k: nat, n: pos) returns (q: nat, r: nat)
    ensures r == k % n && k == q * n + r
  {
    q, r := k / n, k % n;
  }

  lemma AddInfinity(c: Params, pt: Point)
    requires c.p > 2
    ensures AffineAdd(c, Infinity, pt) == pt == AffineAdd(c, pt, Infinity)
  {
  }

  // ----- implementation A: Jacobian, most significant bit first -----

  /** The digits `bin(k)[2:]` of k > 0; the source prints "0" for 0, whose one zero digit changes nothing. */
  function Bits(k: nat): (bits: seq<bool>)
    ensures Value(bits) == k
  {
    if k == 0 then [] else Bits(k / 2) + [k % 2 == 1]
  }

  function Value(bits: seq<bool>): nat {
    if bits == [] then 0
    else 2 * Value(bits[..|bits| - 1]) + if bits[|bits| - 1] then 1 else 0
  }

  /** The accumulator after the given digits. */
  function Ladder(c: Params, bits: seq<bool>, cur: Jacobian): Jacobian {
    if bits == [] then Jacobian(0, 0, 0)
    else
      var acc := JacDouble(c, Ladder(c, bits[..|bits| - 1], cur));
      if bits[|bits| - 1] then JacAdd(c, acc, cur) else acc
  }

  /** What the source computes, for any pair of coordinates. */
  function JacobianLadder(c: Params, k: nat, pt: Point): Point
    requires c.p > 2
  {
    if pt.Infinity? || k % c.n == 0 then Infinity else JacToAffine(c, Ladder(c, Bits(k), Jacobian(pt.x, pt.y, 1)))
  }

  /** The k-fold sum, except that a multiple of n gives infinity unseen. */
  function JacobianMultiple(c: Params, k: nat, pt: Point): Point
    requires c.p > 2
  {
    if k % c.n == 0 then Infinity else Multiple(c, k, pt)
  }

  lemma {:induction false} LadderRepresents(c: Params, bits: seq<bool>, pt: Point)
    requires GroupLaw(c) && Valid(c, pt) && pt.Affine?
    ensures Represents(c, Ladder(c, bits, Jacobian(pt.x, pt.y, 1)), Multiple(c, Value(bits), pt))
  {
    hide AffineAdd, JacAdd, JacDouble;
    if bits != [] {
      var front, cur := bits[..|bits| - 1], Jacobian(pt.x, pt.y, 1);
      var acc, v := Ladder(c, front, cur), Value(front);
      LadderRepresents(c, front, pt);
      MultipleValid(c, v, pt);
      DoubleRefines(c, acc, Multiple(c, v, pt));
      MultipleAdd(c, v, v, pt);
      if bits[|bits| - 1] {
        MultipleValid(c, 2 * v, pt);
        UnitRepresents(c, pt);
        AddRefines(c, JacDouble(c, acc), cur, Multiple(c, 2 * v, pt), pt);
      }
    } else {
      InfinityRepresents(c);
    }
  }

  lemma UnitRepresents(c: Params, pt: Point)
    requires c.p > 2 && Valid(c, pt) && pt.Affine?
    ensures Represents(c, Jacobian(pt.x, pt.y, 1), pt)
  {
  }

  lemma InfinityRepresents(c: Params)
    requires c.p > 2
    ensures Represents(c, Jacobian(0, 0, 0), Infinity)
  {
  }

  /** On the curve the ladder gives the k-fold sum. */
  lemma LadderMultiplies(c: Params, k: nat, pt: Point)
    requires GroupLaw(c) && Valid(c, pt)
    ensures JacobianLadder(c, k, pt) == JacobianMultiple(c, k, pt)
  {
    hide AffineAdd, Ladder, JacToAffine;
    if pt.Infinity? {
      MultipleInfinity(c, k);
    } else {
      LadderRepresents(c, Bits(k), pt);
      MultipleValid(c, k, pt);
      ToAffineInvertsRepresents(c, Ladder(c, Bits(k), Jacobian(pt.x, pt.y, 1)), Multiple(c, k, pt));
    }
  }

  method ScalarMultJacobian(c: Params, k: nat, point: Point) returns (r: Point)
    requires c.p > 2
    ensures r == JacobianLadder(c, k, point)
    ensures GroupLaw(c) && Valid(c, point) ==> r == JacobianMultiple(c, k, point)
  {
    hide JacAdd, JacDouble, JacToAffine, JacobianMultiple, GroupLaw, Valid;
    if GroupLaw(c) && Valid(c, point) {
      LadderMultiplies(c, k, point);
    }
    if point.Infinity? || k % c.n == 0 {
      return Infinity;
    }
    var acc := Jacobian(0, 0, 0);
    var cur := Jacobian(point.x, point.y, 1);
    var bits := Bits(k);
    for i := 0 to |bits|
      invariant acc == Ladder(c, bits[..i], cur)
    {
      assert bits[..i + 1][..i] == bits[..i];
      acc := JacDouble(c, acc);
      if bits[i] {
        acc := JacAdd(c, acc, cur);
      }
    }
    assert bits[..|bits|] == bits;
    r := JacToAffine(c, acc);
  }

  // ----- implementation B: affine, least significant bit first -----

  /** What the source's loop still adds to a result. */
  function Doubling(c: Params, result: Point, addend: Point, rest: nat): Point
    requires c.p > 2
    decreases rest
  {
    if rest == 0 then result
    else Doubling(c, if rest % 2 == 1 then AffineAdd(c, result, addend) else result, AffineAdd(c, addend, addend), rest / 2)
  }

  function AffineLadder(c: Params, k: nat, pt: Point): Point
    requires c.p > 2
  {
    if pt.Infinity? || k % c.n == 0 then Infinity else Doubling(c, Infinity, pt, k % c.n)
  }

  /** The sum of the scalar reduced mod n. */
  function AffineMultiple(c: Params, k: nat, pt: Point): Point
    requires c.p > 2
  {
    Multiple(c, k % c.n, pt)
  }

  lemma {:induction false} DoublingMultiplies(c: Params, done: nat, unit: nat, rest: nat, pt: Point)
    requires GroupLaw(c) && Valid(c, pt)
    ensures Doubling(c, Multiple(c, done, pt), Multiple(c, unit, pt), rest) == Multiple(c, done + rest * unit, pt)
    decreases rest
  {
    hide AffineAdd, Multiple;
    if rest != 0 {
      Halves(rest, unit);
      MultipleAdd(c, done, unit, pt);
      MultipleAdd(c, unit, unit, pt);
      DoublingMultiplies(c, if rest % 2 == 1 then done + unit else done, unit + unit, rest / 2, pt);
    }
  }

  lemma AffineLadderMultiplies(c: Params, k: nat, pt: Point)
    requires GroupLaw(c) && Valid(c, pt)
    ensures AffineLadder(c, k, pt) == AffineMultiple(c, k, pt)
  {
    hide Doubling;
    DoublingMultiplies(c, 0, 1, k % c.n, pt);
    MultipleInfinity(c, k % c.n);
    assert Multiple(c, 0, pt) == Infinity && Multiple(c, 1, pt) == pt;
  }

  method ScalarMultAffine(c: Params, k: nat, point: Point) returns (result: Point)
    requires c.p > 2
    ensures result == AffineLadder(c, k, point)
    ensures GroupLaw(c) && Valid(c, point) ==> result == AffineMultiple(c, k, point)
  {
    hide AffineAdd, AffineMultiple, GroupLaw, Valid;
    if GroupLaw(c) && Valid(c, point) {
      AffineLadderMultiplies(c, k, point);
    }
    if point.Infinity? || k % c.n == 0 {
      return Infinity;
    }
    result := Infinity;
    var addend := point;
    var rest := k % c.n;
    while rest != 0
      invariant 0 <= rest && Doubling(c, result, addend, rest) == AffineLadder(c, k, point)
      decreases rest
    {
      if rest % 2 == 1 {
        result := AffineAdd(c, result, addend);
      }
      addend := AffineAdd(c, addend, addend);
      rest := rest / 2;
    }
  }

  lemma Halves(k: nat, unit: nat)
    ensures k * unit == (k / 2) * (unit + unit) + if k % 2 == 1 then unit else 0
  {
    var h := k / 2;
    if k % 2 == 1 {
      assert k * unit == (2 * h + 1) * unit == h * (unit + unit) + unit;
    } else {
      assert k * unit == (2 * h) * unit == h * (unit + unit);
    }
  }

  /** The two implementations agree on every scalar exactly when n annihilates the point. */
  lemma LaddersAgree(c: Params, pt: Point)
    requires GroupLaw(c) && Valid(c, pt) && c.n > 1
    ensures (forall k: nat :: JacobianLadder(c, k, pt) == AffineLadder(c, k, pt)) <==> Multiple(c, c.n, pt) == Infinity
  {
    hide JacobianLadder, AffineLadder, AffineAdd;
    forall k: nat
      ensures JacobianLadder(c, k, pt) == JacobianMultiple(c, k, pt) && AffineLadder(c, k, pt) == AffineMultiple(c, k, pt)
    {
      LadderMultiplies(c, k, pt);
      AffineLadderMultiplies(c, k, pt);
    }
    if Multiple(c, c.n, pt) == Infinity {
      forall k: nat
        ensures JacobianMultiple(c, k, pt) == AffineMultiple(c, k, pt)
      {
        MultipleMod(c, k, c.n, pt);
      }
    } else {
      NextMultipleDiffers(c, pt);
      var k := c.n + 1;
      assert JacobianLadder(c, k, pt) != AffineLadder(c, k, pt);
    }
  }

  lemma NextMultipleDiffers(c: Params, pt: Point)
    requires GroupLaw(c) && Valid(c, pt) && c.n > 1 && Multiple(c, c.n, pt) != Infinity
    ensures JacobianMultiple(c, c.n + 1, pt) != AffineMultiple(c, c.n + 1, pt)
  {
    hide AffineAdd;
    var k := c.n + 1;
    ModUnique(c.n, k, 1, 1);
    MultipleAdd(c, c.n, 1, pt);
    MultipleValid(c, c.n, pt);
    AddInfinity(c, pt);
    if AffineAdd(c, Multiple(c, c.n, pt), pt) == pt {
      Cancels(c, Multiple(c, c.n, pt), pt);
    }
  }

  lemma Cancels(c: Params, p1: Point, p2: Point)
    requires GroupLaw(c) && Valid(c, p1) && Valid(c, p2) && AffineAdd(c, p1, p2) == p2
    ensures p1 == Infinity
  {
    NegateValid(c, p2);
    assert AssociatesAt(c, p1, p2, Negate(c, p2));
  }
}
