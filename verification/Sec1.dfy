/** SEC 1 point encodings (sections 2.3.3 and 2.3.4). */
module Sec1 {
  import opened Modular
  import opened Algebra
  import opened Bytes
  import opened Curve
  import opened Group

  /** Coordinates fit their octets and square roots are powers, as both hold for P-256. */
  ghost predicate Encodable(c: Params) {
    Field(c) && c.p % 4 == 3 && c.p <= Pow(256, c.size)
  }

  /** None where the source raises. */
  function EncodeCompressed(c: Params, pt: Point): Option<seq<byte>> {
    if pt.Affine? && 0 <= pt.x < Pow(256, c.size) then Some([2 + pt.y % 2] + ToBytes(pt.x, c.size)) else None
  }

  function EncodeUncompressed(c: Params, pt: Point): Option<seq<byte>> {
    if pt.Affine? && 0 <= pt.x < Pow(256, c.size) && 0 <= pt.y < Pow(256, c.size)
    then Some([4] + ToBytes(pt.x, c.size) + ToBytes(pt.y, c.size)) else None
  }

  function DecodePoint(c: Params, bs: seq<byte>): Option<Point> {
    if bs == [] then None
    else if bs[0] == 4 then
      if |bs| == 1 + 2 * c.size
      then Some(Affine(FromBytes(bs[1..1 + c.size]), FromBytes(bs[1 + c.size..1 + 2 * c.size]))) else None
    else if |bs| == 1 + c.size && (bs[0] == 2 || bs[0] == 3) then
      var x := FromBytes(bs[1..]);
      Some(Affine(x, Ordinate(c, x, bs[0] % 2)))
    else None
  }

  /** The ordinate of the given parity over x. */
  function Ordinate(c: Params, x: int, parity: int): int {
    var alpha := (x * x * x + c.A() * x + c.b) % c.p;
    var y := PowMod(alpha, (c.p + 1) / 4, c.p);
    if y % 2 != parity then c.p - y else y
  }

  lemma FourthPower(p: pos, y: int)
    requires p % 4 == 3
    ensures var q := Pow(y, 2 * ((p + 1) / 4)); q * q == y * y * Pow(y, p - 1)
  {
    var e := (p + 1) / 4;
    PowAdd(y, 2 * e, 2 * e);
    assert 2 * e + 2 * e == p + 1;
    PowAdd(y, 2, p - 1);
    assert Pow(y, 2) == y * Pow(y, 1) == y * y;
  }

  lemma SquareTimesFermat(p: pos, y: int)
    requires Prime(p)
    ensures Cong(p, y * y * Pow(y, p - 1), y * y)
  {
    if Cong(p, y, 0) {
      CongMul(p, y, 0, y, y);
      CongMul(p, y * y, 0, Pow(y, p - 1), Pow(y, p - 1));
    } else {
      Fermat(p, y);
      CongMul(p, y * y, y * y, Pow(y, p - 1), 1);
    }
  }

  /** The power the decoder takes is a square root of every square. */
  lemma RootOfSquare(p: pos, alpha: int, y: int)
    requires Prime(p) && p % 4 == 3 && Cong(p, y * y, alpha)
    ensures var r := PowMod(alpha, (p + 1) / 4, p); Cong(p, r * r, alpha)
  {
    var e := (p + 1) / 4;
    var r, q := PowMod(alpha, e, p), Pow(y, 2 * e);
    CongMod(p, Pow(alpha, e));
    CongPow(p, y * y, alpha, e);
    PowSquare(y, e);
    CongMul(p, r, q, r, q);
    FourthPower(p, y);
    SquareTimesFermat(p, y);
  }

  /** Two residues with one square are equal or opposite. */
  lemma SquaresAgree(p: pos, r: int, y: int)
    requires Prime(p) && 0 <= r < p && 0 <= y < p && Cong(p, r * r, y * y)
    ensures r == y || r + y == p
  {
    hide Prime;
    SquareRoots(p, r, y);
    if Cong(p, r, y) {
      CongReduced(p, r, y);
    } else {
      BelowTwice(p, r + y);
    }
  }

  lemma BelowTwice(p: pos, a: int)
    requires 0 <= a < p + p && Cong(p, a, 0)
    ensures a == 0 || a == p
  {
    var k := Difference(p, a, 0);
    MultiplesAreSparse(p, k);
    MultiplesAreSparse(p, k - 2);
    assert p * (k - 2) == a - 2 * p;
  }

  lemma OrdinateOfParity(c: Params, x: int, y: int)
    requires Encodable(c) && Valid(c, Affine(x, y))
    ensures Ordinate(c, x, y % 2) == y
  {
    var p, cubic := c.p, Cubic(c.A(), c.b, x);
    OnCurveCong(c, x, y);
    CongMod(p, cubic);
    RootOfSquare(p, cubic % p, y);
    ParityPicks(p, PowMod(cubic % p, (p + 1) / 4, p), y);
  }

  lemma ParityPicks(p: pos, r: int, y: int)
    requires Prime(p) && p % 4 == 3 && 0 <= r < p && 0 <= y < p && Cong(p, r * r, y * y)
    ensures y == if r % 2 != y % 2 then p - r else r
  {
    SquaresAgree(p, r, y);
    OddComplement(p, y);
  }

  /** Decoding a compressed point gives the point back. */
  lemma DecodeCompressed(c: Params, pt: Point)
    requires Encodable(c) && Valid(c, pt) && pt.Affine?
    ensures EncodeCompressed(c, pt).Some? && DecodePoint(c, EncodeCompressed(c, pt).value) == Some(pt)
  {
    var bs := EncodeCompressed(c, pt).value;
    assert bs[1..] == ToBytes(pt.x, c.size);
    OrdinateOfParity(c, pt.x, pt.y);
  }

  lemma DecodeUncompressed(c: Params, pt: Point)
    requires Encodable(c) && Valid(c, pt) && pt.Affine?
    ensures EncodeUncompressed(c, pt).Some? && DecodePoint(c, EncodeUncompressed(c, pt).value) == Some(pt)
  {
    var bs := EncodeUncompressed(c, pt).value;
    assert bs[1..1 + c.size] == ToBytes(pt.x, c.size) && bs[1 + c.size..1 + 2 * c.size] == ToBytes(pt.y, c.size);
  }

  /** The decoder finds a point of the curve over x exactly when there is one. */
  lemma OrdinateOnCurve(c: Params, x: int, parity: int)
    requires Encodable(c)
    ensures OnCurve(c, Affine(x, Ordinate(c, x, parity))) <==> exists y :: OnCurve(c, Affine(x, y))
  {
    if y :| OnCurve(c, Affine(x, y)) {
      OrdinateFound(c, x, parity, y);
    }
  }

  lemma OrdinateFound(c: Params, x: int, parity: int, y: int)
    requires Encodable(c) && OnCurve(c, Affine(x, y))
    ensures OnCurve(c, Affine(x, Ordinate(c, x, parity)))
  {
    var p, cubic := c.p, Cubic(c.A(), c.b, x);
    var r := PowMod(cubic % p, (p + 1) / 4, p);
    OnCurveCong(c, x, y);
    CongMod(p, cubic);
    RootOfSquare(p, cubic % p, y);
    OnCurveCong(c, x, Ordinate(c, x, parity));
    OppositeSquare(p, r);
  }

  lemma OppositeSquare(p: pos, r: int)
    ensures Cong(p, (p - r) * (p - r), r * r)
  {
    CongFromMultiple(p, p - r, 0 - r, 1);
    CongMul(p, p - r, 0 - r, p - r, 0 - r);
    assert (0 - r) * (0 - r) == r * r;
  }

  /** A compressed string that decodes to a valid point is that point's encoding. */
  lemma EncodeDecoded(c: Params, bs: seq<byte>)
    requires Encodable(c) && |bs| == 1 + c.size && (bs[0] == 2 || bs[0] == 3)
    requires Valid(c, DecodePoint(c, bs).value)
    ensures EncodeCompressed(c, DecodePoint(c, bs).value) == Some(bs)
  {
    ToFromBytes(bs[1..]);
    assert bs == [bs[0]] + bs[1..];
    OddComplement(c.p, PowMod(Cubic(c.A(), c.b, FromBytes(bs[1..])) % c.p, (c.p + 1) / 4, c.p));
  }

  lemma OddComplement(p: pos, y: int)
    requires p % 4 == 3
    ensures (p - y) % 2 != y % 2
  {
  }
}
