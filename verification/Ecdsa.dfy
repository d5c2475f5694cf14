/** ECDSA over a prehashed digest, with low-s normalization. */
module Ecdsa {
  import opened Modular
  import opened Bytes
  import opened Curve
  import opened Group

  /** What signing needs of the parameters: the base point generates a group of prime order n. */
  ghost predicate SigningParams(c: Params) {
    GroupLaw(c) && Prime(c.n) && c.n > 2 && c.n <= Pow(256, c.size) &&
    Valid(c, c.Base()) && Multiple(c, c.n, c.Base()) == Infinity
  }

  /** The (r, s) one nonce gives, or None where the source draws the next nonce. */
  function SignWith(c: Params, d: int, e: int, k: int, lowS: bool): Option<(int, int)>
    requires c.p > 2 && c.n > 2 && 1 <= k < c.n
  {
    var point := JacobianLadder(c, k, c.Base());
    if point.Infinity? then None
    else
      var r := point.x % c.n;
      if r == 0 then None
      else
        var s := (PowMod(k, c.n - 2, c.n) * (e + r * d)) % c.n;
        if s == 0 then None
        else Some((r, if lowS && s > c.n / 2 then c.n - s else s))
  }

  function Accepts(c: Params, public: Point, e: int, r: int, s: int): bool
    requires c.p > 2 && c.n > 2 && e >= 0
  {
    public.Affine? && 1 <= r < c.n && 1 <= s < c.n && s <= c.n / 2 &&
    var w := PowMod(s, c.n - 2, c.n);
    var u1, u2 := (e * w) % c.n, (r * w) % c.n;
    var point := AffineAdd(c, JacobianLadder(c, u1, c.Base()), JacobianLadder(c, u2, public));
    HasAbscissa(c, point, r)
  }

  predicate HasAbscissa(c: Params, point: Point, r: int) {
    point.Affine? && point.x % c.n == r
  }

  // ----- the group generated by the base point -----

  lemma MultipleCong(c: Params, j: nat, k: nat)
    requires SigningParams(c) && Cong(c.n, j, k)
    ensures Multiple(c, j, c.Base()) == Multiple(c, k, c.Base())
  {
    MultipleMod(c, j, c.n, c.Base());
    MultipleMod(c, k, c.n, c.Base());
  }

  /** No nonce below the order gives the point at infinity. */
  lemma NonceNotInfinity(c: Params, k: nat)
    requires SigningParams(c) && 0 < k < c.n
    ensures Multiple(c, k, c.Base()).Affine?
  {
    var inv := PowMod(k, c.n - 2, c.n);
    NonzeroResidue(c.n, k);
    PowModInverse(c.n, k);
    MultipleMultiple(c, inv, k, c.Base());
    assert inv * k == k * inv;
    MultipleCong(c, inv * k, 1);
    assert Multiple(c, 1, c.Base()) == AffineAdd(c, Multiple(c, 0, c.Base()), c.Base());
    MultipleInfinity(c, inv);
  }

  /** k and n - k give opposite points, which share an x coordinate. */
  lemma OppositeNonce(c: Params, k: nat)
    requires SigningParams(c) && 0 < k < c.n
    ensures Multiple(c, k, c.Base()).Affine? && Multiple(c, c.n - k, c.Base()).Affine?
    ensures Multiple(c, c.n - k, c.Base()).x == Multiple(c, k, c.Base()).x
  {
    NonceNotInfinity(c, k);
    NonceNotInfinity(c, c.n - k);
    MultipleAdd(c, k, c.n - k, c.Base());
  }

  lemma PublicIsValid(c: Params, d: nat)
    requires SigningParams(c)
    ensures GroupLaw(c) && Valid(c, c.Base()) && Valid(c, Multiple(c, d, c.Base()))
  {
    hide Multiple, Prime, Valid;
    MultipleValid(c, d, c.Base());
  }

  /** The verifier's two multiplications and addition give the multiple by u1 + u2 d. */
  lemma VerifierPoint(c: Params, d: nat, u1: nat, u2: nat, k: nat)
    requires SigningParams(c) && u1 < c.n && u2 < c.n && Cong(c.n, u1 + u2 * d, k)
    ensures AffineAdd(c, JacobianLadder(c, u1, c.Base()), JacobianLadder(c, u2, Multiple(c, d, c.Base())))
            == Multiple(c, k, c.Base())
  {
    hide SigningParams, AffineAdd, JacobianLadder, Multiple, AssociatesAt, Prime, Valid, Cong;
    var g := c.Base();
    PublicIsValid(c, d);
    MultipleCong(c, u1 + u2 * d, k);
    MultipleMultiple(c, u2, d, g);
    MultipleAdd(c, u1, u2 * d, g);
    LadderReduced(c, u1, g);
    LadderReduced(c, u2, Multiple(c, d, g));
  }

  lemma VerifierScalar(n: pos, d: nat, e: nat, r: nat, w: nat)
    ensures Cong(n, (e * w) % n + (r * w) % n * d, w * (e + r * d))
  {
    var u1, u2 := (e * w) % n, (r * w) % n;
    CongMod(n, e * w);
    CongMod(n, r * w);
    CongMul(n, u2, r * w, d, d);
    CongAdd(n, u1, e * w, u2 * d, r * w * d);
    assert e * w + r * w * d == w * (e + r * d);
  }

  lemma LadderReduced(c: Params, u: nat, pt: Point)
    requires GroupLaw(c) && Valid(c, pt) && u < c.n
    ensures JacobianLadder(c, u, pt) == Multiple(c, u, pt)
  {
    hide JacobianLadder;
    LadderMultiplies(c, u, pt);
    ModUnique(c.n, u, 0, u);
  }

  // ----- the verifier accepts what the signer can produce, and nothing else -----

  lemma HalfOrder(n: pos, s: int)
    requires Prime(n) && n > 2
    ensures s <= n / 2 <==> n - s > n / 2
  {
    assert !Divides(2, n);
  }

  /** The s a nonce k gives is the one solution of k s = t. */
  lemma SignSolves(n: pos, k: int, t: int, s: int)
    requires Prime(n) && n > 2 && 0 < k < n && 0 <= s < n
    ensures s == PowMod(k, n - 2, n) * t % n <==> Cong(n, k * s, t)
  {
    var inv := PowMod(k, n - 2, n);
    InverseSolves(n, k, s, t);
    CongMod(n, inv * t);
    if Cong(n, s, inv * t) {
      CongReduced(n, s, inv * t % n);
    }
  }

  lemma InverseSolves(n: pos, a: int, x: int, t: int)
    requires Prime(n) && n > 2 && 0 < a < n
    ensures Cong(n, a * x, t) <==> Cong(n, x, PowMod(a, n - 2, n) * t)
  {
    hide PowMod, Prime;
    var inv := PowMod(a, n - 2, n);
    NonzeroResidue(n, a);
    PowModInverse(n, a);
    if Cong(n, a * x, t) {
      MoveAcross(n, a, inv, x, t);
    }
    if Cong(n, x, inv * t) {
      MoveAcross(n, inv, a, t, x);
    }
  }

  lemma MoveAcross(n: pos, a: int, b: int, x: int, t: int)
    requires Cong(n, a * b, 1) && Cong(n, a * x, t)
    ensures Cong(n, x, b * t)
  {
    CongMul(n, b, b, a * x, t);
    CongMul(n, a * b, 1, x, x);
    assert b * (a * x) == a * b * x;
  }

  /** A signature is accepted exactly when s is low and r is the x of the nonce that s fixes. */
  lemma AcceptsIff(c: Params, d: nat, e: nat, r: int, s: int, k: nat)
    requires SigningParams(c) && 1 <= d < c.n && 1 <= r < c.n && 1 <= s < c.n && k < c.n
    requires Cong(c.n, k * s, e + r * d)
    ensures Accepts(c, Multiple(c, d, c.Base()), e, r, s) <==>
              s <= c.n / 2 && k != 0 && HasAbscissa(c, Multiple(c, k, c.Base()), r)
  {
    hide AffineAdd;
    var n := c.n;
    var w := PowMod(s, n - 2, n);
    NonceNotInfinity(c, d);
    InverseSolves(n, s, k, e + r * d);
    assert s * k == k * s;
    VerifierScalar(n, d, e, r, w);
    VerifierPoint(c, d, (e * w) % n, (r * w) % n, k);
  }

  /** Under any key on the curve: the key is not infinity, both numbers are in range, s is low, and the sum the standard
      names, with any inverse w of s, has abscissa r. */
  lemma AcceptsUnder(c: Params, public: Point, e: nat, r: int, s: int, w: nat)
    requires SigningParams(c) && Valid(c, public) && (1 <= s < c.n ==> Cong(c.n, s * w, 1))
    ensures Accepts(c, public, e, r, s) <==>
              public.Affine? && 1 <= r < c.n && 1 <= s <= c.n / 2 &&
              HasAbscissa(c, AffineAdd(c, Multiple(c, e * w % c.n, c.Base()), Multiple(c, r * w % c.n, public)), r)
  {
    hide AffineAdd, JacobianLadder, Multiple, PowMod, Prime, Valid;
    if 1 <= r < c.n && 1 <= s < c.n {
      var inv := PowMod(s, c.n - 2, c.n);
      InverseSolves(c.n, s, w, 1);
      CongMul(c.n, e, e, w, inv);
      CongMul(c.n, r, r, w, inv);
      LadderReduced(c, e * inv % c.n, c.Base());
      LadderReduced(c, r * inv % c.n, public);
    }
  }

  /** A nonce's unnormalized signature is accepted exactly when its s is low. */
  lemma SignedAccepted(c: Params, d: nat, e: nat, k: nat)
    requires SigningParams(c) && 1 <= d < c.n && 1 <= k < c.n && SignWith(c, d, e, k, false).Some?
    ensures var (r, s) := SignWith(c, d, e, k, false).value;
            var public := Multiple(c, d, c.Base());
            && 1 <= r < c.n && 1 <= s < c.n
            && (Accepts(c, public, e, r, s) <==> s <= c.n / 2)
            && (Accepts(c, public, e, r, c.n - s) <==> s > c.n / 2)
  {
    hide Accepts, Multiple, AffineAdd, PowMod, Prime, JacobianLadder;
    var (r, s) := SignWith(c, d, e, k, false).value;
    var n := c.n;
    LadderReduced(c, k, c.Base());
    LadderReduced(c, n - k, c.Base());
    OppositeNonce(c, k);
    HalfOrder(n, s);
    SignSolves(n, k, e + r * d, s);
    OppositeProduct(n, k, s);
    AcceptsIff(c, d, e, r, s, k);
    AcceptsIff(c, d, e, r, n - s, n - k);
  }

  lemma OppositeProduct(n: pos, k: int, s: int)
    ensures Cong(n, (n - k) * (n - s), k * s)
  {
    assert (n - k) * (n - s) - k * s == n * (n - k - s);
    CongFromMultiple(n, (n - k) * (n - s), k * s, n - k - s);
  }

  /** Under the public key d G the verifier accepts exactly the pairs that some nonce signs. */
  lemma AcceptsExactlySigned(c: Params, d: nat, e: nat, r: int, s: int)
    requires SigningParams(c) && 1 <= d < c.n
    ensures Accepts(c, Multiple(c, d, c.Base()), e, r, s) <==>
              exists k :: 1 <= k < c.n && SignWith(c, d, e, k, true) == Some((r, s))
  {
    var public := Multiple(c, d, c.Base());
    if k :| 1 <= k < c.n && SignWith(c, d, e, k, true) == Some((r, s)) {
      SignedAccepted(c, d, e, k);
    }
    if Accepts(c, public, e, r, s) {
      var k := NonceOf(c, d, e, r, s);
    }
  }

  /** The nonce behind an accepted signature. */
  lemma NonceOf(c: Params, d: nat, e: nat, r: int, s: int) returns (k: int)
    requires SigningParams(c) && 1 <= d < c.n && Accepts(c, Multiple(c, d, c.Base()), e, r, s)
    ensures 1 <= k < c.n && SignWith(c, d, e, k, true) == Some((r, s))
  {
    hide AffineAdd;
    var t := e + r * d;
    k := PowMod(s, c.n - 2, c.n) * t % c.n;
    SignSolves(c.n, s, t, k);
    assert s * k == k * s;
    AcceptsIff(c, d, e, r, s, k);
    SignSolves(c.n, k, t, s);
    LadderReduced(c, k, c.Base());
  }

  // ----- the equation a signature solves, in the multiples of the base point alone -----

  /** r is the abscissa of k G, and k s = e + r d; with low s, up to the sign and with s at most half the order. */
  ghost predicate Signs(c: Params, d: nat, e: nat, k: nat, lowS: bool, r: int, s: int)
    requires c.p > 2
  {
    && HasAbscissa(c, Multiple(c, k, c.Base()), r) && r != 0 && 1 <= s < c.n
    && if lowS then s <= c.n / 2 && (Cong(c.n, k * s, e + r * d) || Cong(c.n, k * (c.n - s), e + r * d))
       else Cong(c.n, k * s, e + r * d)
  }

  /** A nonce gives exactly the pairs that solve the equation, and serves exactly where there is one. */
  lemma SignsIff(c: Params, d: nat, e: nat, k: nat, lowS: bool, r: int, s: int)
    requires SigningParams(c) && 1 <= k < c.n
    ensures SignWith(c, d, e, k, lowS) == Some((r, s)) <==> Signs(c, d, e, k, lowS, r, s)
  {
    hide SignWith, SigningParams, Multiple, PowMod, Cong;
    SigningSizes(c);
    NonceNotInfinity(c, k);
    var r0 := Multiple(c, k, c.Base()).x % c.n;
    var s0 := PowMod(k, c.n - 2, c.n) * (e + r0 * d) % c.n;
    SignWithIs(c, d, e, k, lowS, r0, s0);
    if r == r0 && 1 <= s < c.n {
      SolvedBy(c, k, e + r * d, s, s0);
      SolvedBy(c, k, e + r * d, c.n - s, s0);
    }
  }

  lemma SolvedBy(c: Params, k: nat, t: int, s: int, s0: int)
    requires SigningParams(c) && 1 <= k < c.n && 0 <= s < c.n && s0 == PowMod(k, c.n - 2, c.n) * t % c.n
    ensures s == s0 <==> Cong(c.n, k * s, t)
    ensures s <= c.n / 2 <==> c.n - s > c.n / 2
  {
    hide GroupLaw, PowMod;
    SignSolves(c.n, k, t, s);
    HalfOrder(c.n, s);
  }

  lemma SignWithIs(c: Params, d: nat, e: nat, k: nat, lowS: bool, r0: int, s0: int)
    requires SigningParams(c) && 1 <= k < c.n && HasAbscissa(c, Multiple(c, k, c.Base()), r0)
    requires s0 == PowMod(k, c.n - 2, c.n) * (e + r0 * d) % c.n
    ensures SignWith(c, d, e, k, lowS) ==
              if r0 == 0 || s0 == 0 then None else Some((r0, if lowS && s0 > c.n / 2 then c.n - s0 else s0))
  {
    hide Multiple, PowMod, JacobianLadder;
    LadderReduced(c, k, c.Base());
  }

  lemma SigningSizes(c: Params)
    requires SigningParams(c)
    ensures c.p > 2 && c.n > 2 && c.n <= Pow(256, c.size)
  {
  }

  // ----- byte strings and the rejection loop -----

  /** The leftmost bits of a digest, as many as the order has. */
  function Bits2Int(c: Params, data: seq<byte>): nat {
    var excess := |data| * 8 - BitLength(c.n);
    if excess > 0 then FromBytes(data) / Exp2(excess) else FromBytes(data)
  }

  /** The number a digest stands for: its own where it has no more bits than the order, or else its leading bits. */
  ghost predicate IsLeading(c: Params, data: seq<byte>, e: nat) {
    var excess := |data| * 8 - BitLength(c.n);
    if excess <= 0 then e < Pow(256, |data|) && ToBytes(e, |data|) == data
    else e * Exp2(excess) <= FromBytes(data) < (e + 1) * Exp2(excess)
  }

  lemma Bits2IntIff(c: Params, data: seq<byte>, e: nat)
    ensures IsLeading(c, data, e) <==> e == Bits2Int(c, data)
  {
    hide BitLength;
    var excess := |data| * 8 - BitLength(c.n);
    if excess <= 0 {
      ToFromBytes(data);
    } else {
      QuotientIff(FromBytes(data), Exp2(excess), e);
    }
  }

  /** Digests of one length with no more bits than the order sign as different numbers. */
  lemma Bits2IntInjective(c: Params, a: seq<byte>, b: seq<byte>)
    requires |a| == |b| && |a| * 8 <= BitLength(c.n) && Bits2Int(c, a) == Bits2Int(c, b)
    ensures a == b && Bits2Int(c, a) == FromBytes(a)
  {
    FromBytesInjective(a, b);
  }

  lemma QuotientIff(v: nat, unit: pos, e: nat)
    ensures e * unit <= v < (e + 1) * unit <==> e == v / unit
  {
    assert v == v / unit * unit + v % unit;
    if e * unit <= v < (e + 1) * unit {
      ModUnique(unit, v, e, v - e * unit);
      assert (v / unit - e) * unit == 0;
    }
  }

  ghost predicate InRange(c: Params, nonces: nat -> int) {
    forall i :: 1 <= nonces(i) < c.n
  }

  /** The nonce the rejection loop stops at. */
  ghost predicate IsFirstServing(c: Params, d: int, e: int, nonces: nat -> int, lowS: bool, i: nat)
    requires c.p > 2 && c.n > 2 && InRange(c, nonces)
  {
    SignWith(c, d, e, nonces(i), lowS).Some? && forall j :: 0 <= j < i ==> SignWith(c, d, e, nonces(j), lowS).None?
  }

  function Raw(c: Params, sig: (int, int)): seq<byte>
    requires 0 <= sig.0 < Pow(256, c.size) && 0 <= sig.1 < Pow(256, c.size)
  {
    ToBytes(sig.0, c.size) + ToBytes(sig.1, c.size)
  }

  /** The bytes are those of the pair that the first serving nonce gives. */
  ghost predicate IsSigned(c: Params, d: nat, digest: seq<byte>, nonces: nat -> int, lowS: bool, i: nat, sig: seq<byte>)
    requires c.p > 2 && c.n > 2 && c.n <= Pow(256, c.size) && InRange(c, nonces)
  {
    && IsFirstServing(c, d, Bits2Int(c, digest), nonces, lowS, i)
    && var (r, s) := SignWith(c, d, Bits2Int(c, digest), nonces(i), lowS).value;
    1 <= r < c.n && 1 <= s < c.n && sig == Raw(c, (r, s))
  }

  /** One round of the loop; the point is never infinity, which the source asserts. */
  method TryNonce(c: Params, d: nat, e: nat, k: int, lowS: bool) returns (pair: Option<(int, int)>)
    requires SigningParams(c) && 1 <= d < c.n && 1 <= k < c.n
    ensures pair == SignWith(c, d, e, k, lowS)
    ensures pair.Some? ==> 1 <= pair.value.0 < c.n && 1 <= pair.value.1 < c.n
  {
    hide JacobianLadder, JacobianMultiple, PowMod;
    var point := ScalarMultJacobian(c, k, c.Base());
    if point.Infinity? {
      NonceNotInfinity(c, k);
      LadderReduced(c, k, c.Base());
      assert false;
    }
    var r := point.x % c.n;
    if r == 0 {
      return None;
    }
    var s := (PowMod(k, c.n - 2, c.n) * (e + r * d)) % c.n;
    if s == 0 {
      return None;
    }
    if lowS && s > c.n / 2 {
      s := c.n - s;
    }
    return Some((r, s));
  }

  /** The source draws nonces without end; it returns where some draw serves, and `last` names one that does. */
  method EcdsaSign(c: Params, d: nat, digest: seq<byte>, nonces: nat -> int, lowS: bool, ghost last: nat) returns (sig: seq<byte>)
    requires SigningParams(c) && 1 <= d < c.n && InRange(c, nonces)
    requires SignWith(c, d, Bits2Int(c, digest), nonces(last), lowS).Some?
    ensures exists i: nat :: IsSigned(c, d, digest, nonces, lowS, i, sig)
  {
    hide SignWith, Bits2Int;
    var e := Bits2Int(c, digest);
    var drawn := 0;
    while true
      invariant 0 <= drawn <= last && forall j :: 0 <= j < drawn ==> SignWith(c, d, e, nonces(j), lowS).None?
      decreases last - drawn
    {
      var pair := TryNonce(c, d, e, nonces(drawn), lowS);
      if pair.Some? {
        var (r, s) := pair.value;
        sig := ToBytes(r, c.size) + ToBytes(s, c.size);
        assert IsSigned(c, d, digest, nonces, lowS, drawn, sig);
        return;
      }
      drawn := drawn + 1;
    }
  }

  predicate AcceptsRaw(c: Params, public: Point, digest: seq<byte>, sig: seq<byte>)
    requires c.p > 2 && c.n > 2
  {
    |sig| == 2 * c.size &&
    Accepts(c, public, Bits2Int(c, digest), FromBytes(sig[..c.size]), FromBytes(sig[c.size..]))
  }

  method EcdsaVerify(c: Params, public: Point, digest: seq<byte>, sig: seq<byte>) returns (ok: bool)
    requires c.p > 2 && c.n > 2
    ensures ok == AcceptsRaw(c, public, digest, sig)
  {
    hide JacobianLadder, JacobianMultiple, AffineAdd, PowMod, Bits2Int;
    if |sig| != 2 * c.size || public.Infinity? {
      return false;
    }
    var r, s := FromBytes(sig[..c.size]), FromBytes(sig[c.size..]);
    if !(1 <= r <= c.n - 1 && 1 <= s <= c.n - 1) {
      return false;
    }
    if s > c.n / 2 {
      return false;
    }
    var e := Bits2Int(c, digest);
    var w := PowMod(s, c.n - 2, c.n);
    var u1 := (e * w) % c.n;
    var u2 := (r * w) % c.n;
    var left := ScalarMultJacobian(c, u1, c.Base());
    var right := ScalarMultJacobian(c, u2, public);
    var point := AffineAdd(c, left, right);
    if point.Infinity? {
      return false;
    }
    ok := point.x % c.n == r;
  }

  /** What a returned pair means to the verifier: it is accepted exactly when s is low, and (r, n - s)
      exactly when s is high, so of the two exactly one is. */
  ghost predicate AcceptedIffLow(c: Params, d: nat, digest: seq<byte>, r: int, s: int)
    requires c.p > 2 && c.n > 2 && c.n <= Pow(256, c.size) && 1 <= r < c.n && 1 <= s < c.n
  {
    var public := Multiple(c, d, c.Base());
    && (AcceptsRaw(c, public, digest, Raw(c, (r, s))) <==> s <= c.n / 2)
    && (AcceptsRaw(c, public, digest, Raw(c, (r, c.n - s))) <==> s > c.n / 2)
  }

  lemma Normalised(c: Params, d: int, e: int, k: int, lowS: bool)
    requires c.p > 2 && c.n > 2 && 1 <= k < c.n && SignWith(c, d, e, k, lowS).Some?
    ensures SignWith(c, d, e, k, false).Some?
    ensures var (r, s) := SignWith(c, d, e, k, false).value;
            SignWith(c, d, e, k, lowS).value == (r, if lowS && s > c.n / 2 then c.n - s else s)
  {
    hide JacobianLadder;
  }

  lemma SignedRaw(c: Params, d: nat, digest: seq<byte>, k: int, lowS: bool)
    requires SigningParams(c) && 1 <= d < c.n && 1 <= k < c.n
    requires SignWith(c, d, Bits2Int(c, digest), k, lowS).Some?
    ensures var (r, s) := SignWith(c, d, Bits2Int(c, digest), k, lowS).value;
            && 1 <= r < c.n && 1 <= s < c.n && (lowS ==> s <= c.n / 2) && AcceptedIffLow(c, d, digest, r, s)
  {
    hide Accepts, SignWith;
    var e := Bits2Int(c, digest);
    Normalised(c, d, e, k, lowS);
    SignedAccepted(c, d, e, k);
    var (r, s) := SignWith(c, d, e, k, false).value;
    HalfOrder(c.n, s);
    if lowS && s > c.n / 2 {
      assert c.n - (c.n - s) == s;
      AcceptedRaw(c, d, digest, r, c.n - s);
    } else {
      AcceptedRaw(c, d, digest, r, s);
    }
  }

  lemma AcceptedRaw(c: Params, d: nat, digest: seq<byte>, r: int, s: int)
    requires SigningParams(c) && 1 <= r < c.n && 1 <= s < c.n
    requires Accepts(c, Multiple(c, d, c.Base()), Bits2Int(c, digest), r, s) <==> s <= c.n / 2
    requires Accepts(c, Multiple(c, d, c.Base()), Bits2Int(c, digest), r, c.n - s) <==> s > c.n / 2
    ensures AcceptedIffLow(c, d, digest, r, s)
  {
    hide Accepts, SigningParams, Multiple, Bits2Int, Raw;
    SigningSizes(c);
    RawParts(c, r, s);
    RawParts(c, r, c.n - s);
  }

  /** Sign then verify, whatever nonces are drawn and rejected before one serves: the two halves of the bytes solve the
      equation for the digest's number e, no earlier nonce has a solution, and the verifier accepts. */
  lemma SignThenVerify(c: Params, d: nat, digest: seq<byte>, e: nat, nonces: nat -> int, lowS: bool, index: nat, sig: seq<byte>)
    requires SigningParams(c) && 1 <= d < c.n && InRange(c, nonces) && IsSigned(c, d, digest, nonces, lowS, index, sig)
    requires IsLeading(c, digest, e)
    ensures |sig| == 2 * c.size
    ensures var r, s := FromBytes(sig[..c.size]), FromBytes(sig[c.size..]);
            && 1 <= r < c.n && 1 <= s < c.n && (lowS ==> s <= c.n / 2) && AcceptedIffLow(c, d, digest, r, s)
            && Signs(c, d, e, nonces(index), lowS, r, s)
    ensures forall j, r, s :: 0 <= j < index ==> !Signs(c, d, e, nonces(j), lowS, r, s)
    ensures lowS ==> AcceptsRaw(c, Multiple(c, d, c.Base()), digest, sig)
  {
    hide SignWith, Bits2Int, AcceptsRaw, Multiple, Raw, IsLeading, Signs;
    Bits2IntIff(c, digest, e);
    SigningSizes(c);
    SignedRaw(c, d, digest, nonces(index), lowS);
    var (r, s) := SignWith(c, d, e, nonces(index), lowS).value;
    RawParts(c, r, s);
    SignsIff(c, d, e, nonces(index), lowS, r, s);
    forall j, r, s | 0 <= j < index
      ensures !Signs(c, d, e, nonces(j), lowS, r, s)
    {
      SignsIff(c, d, e, nonces(j), lowS, r, s);
    }
  }

  /** For a digest with no more bits than the order, as 32 bytes have for P-256: k s = +-(digest + r d) mod n, the sign
      negative only where low s was asked for. */
  lemma SignedEquation(c: Params, d: nat, digest: seq<byte>, nonces: nat -> int, lowS: bool, index: nat, sig: seq<byte>)
    requires SigningParams(c) && 1 <= d < c.n && InRange(c, nonces) && IsSigned(c, d, digest, nonces, lowS, index, sig)
    requires |digest| * 8 <= BitLength(c.n)
    ensures |sig| == 2 * c.size
    ensures var k, r, s := nonces(index), FromBytes(sig[..c.size]), FromBytes(sig[c.size..]);
            var t := FromBytes(digest) + r * d;
            && HasAbscissa(c, Multiple(c, k, c.Base()), r)
            && (Cong(c.n, k * s, t) || (lowS && Cong(c.n, k * s, -t)))
  {
    hide SigningParams, IsSigned, Multiple, AcceptsRaw, AcceptedIffLow, Cong, BitLength;
    SigningSizes(c);
    var e := FromBytes(digest);
    ToFromBytes(digest);
    SignThenVerify(c, d, digest, e, nonces, lowS, index, sig);
    var k, r, s := nonces(index), FromBytes(sig[..c.size]), FromBytes(sig[c.size..]);
    if Cong(c.n, k * (c.n - s), e + r * d) {
      NegatedProduct(c.n, k, s, e + r * d);
    }
  }

  lemma NegatedProduct(n: pos, k: int, s: int, t: int)
    requires Cong(n, k * (n - s), t)
    ensures Cong(n, k * s, -t)
  {
    CongMul(n, k * (n - s), t, -1, -1);
    assert k * s - k * (n - s) * -1 == n * k;
    CongFromMultiple(n, k * s, k * (n - s) * -1, k);
  }

  /** The bytes accepted under the public key d G are those of the pairs that solve the equation for some nonce. */
  lemma AcceptsRawIff(c: Params, d: nat, digest: seq<byte>, e: nat, sig: seq<byte>)
    requires SigningParams(c) && 1 <= d < c.n && IsLeading(c, digest, e)
    ensures AcceptsRaw(c, Multiple(c, d, c.Base()), digest, sig) <==>
              && |sig| == 2 * c.size
              && exists k: nat :: 1 <= k < c.n && Signs(c, d, e, k, true, FromBytes(sig[..c.size]), FromBytes(sig[c.size..]))
  {
    hide SigningParams, SignWith, Bits2Int, Accepts, Multiple, IsLeading, Signs;
    SigningSizes(c);
    Bits2IntIff(c, digest, e);
    if |sig| == 2 * c.size {
      var r, s := FromBytes(sig[..c.size]), FromBytes(sig[c.size..]);
      AcceptsExactlySigned(c, d, e, r, s);
      if k: nat :| 1 <= k < c.n && Signs(c, d, e, k, true, r, s) {
        SignsIff(c, d, e, k, true, r, s);
      }
      if k: int :| 1 <= k < c.n && SignWith(c, d, e, k, true) == Some((r, s)) {
        var nonce: nat := k;
        SignsIff(c, d, e, nonce, true, r, s);
        assert Signs(c, d, e, nonce, true, FromBytes(sig[..c.size]), FromBytes(sig[c.size..]));
      }
    }
  }

  lemma RawParts(c: Params, r: int, s: int)
    requires 0 <= r < Pow(256, c.size) && 0 <= s < Pow(256, c.size)
    ensures var bs := Raw(c, (r, s));
            |bs| == 2 * c.size && FromBytes(bs[..c.size]) == r && FromBytes(bs[c.size..]) == s
  {
    var bs := Raw(c, (r, s));
    assert bs[..c.size] == ToBytes(r, c.size) && bs[c.size..] == ToBytes(s, c.size);
  }
}
