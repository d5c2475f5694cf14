/** The domain parameters of NIST P-256. */
module P256 {
  import opened Modular
  import opened Bytes
  import opened Curve

  const PARAMS := Params(
    0xFFFFFFFF00000001000000000000000000000000FFFFFFFFFFFFFFFFFFFFFFFF,
    0x5AC635D8AA3A93E7B3EBBD55769886BC651D06B0CC53B0F63BCE3C3E27D2604B,
    0x6B17D1F2E12C4247F8BCE6E563A440F277037D812DEB33A0F4A13945D898C296,
    0x4FE342E2FE1A7F9B8EE7EB4A7C0F9E162BCE33576B315ECECBB6406837BF51F5,
    0xFFFFFFFF00000000FFFFFFFFFFFFFFFFBCE6FAADA7179E84F3B9CAC2FC632551,
    32)

  lemma Parameters()
    ensures PARAMS.p % 4 == 3 && PARAMS.n % 2 == 1 && PARAMS.gy % 2 == 1
    ensures PARAMS.p <= Pow(256, PARAMS.size) && PARAMS.n <= Pow(256, PARAMS.size)
    ensures Valid(PARAMS, PARAMS.Base())
  {
    PowAdd(256, 2, 2);
    PowAdd(256, 4, 4);
    PowAdd(256, 8, 8);
    PowAdd(256, 16, 16);
  }

  lemma Exp2Values()
    ensures Exp2(8) == 0x100 && Exp2(32) == 0x1_0000_0000
  {
    assert Exp2(4) == 16;
    Exp2Add(4, 4);
    Exp2Add(8, 8);
    Exp2Add(16, 16);
  }

  lemma Exp2OfSize()
    ensures Exp2(256) == 0x1_0000000000000000_0000000000000000_0000000000000000_0000000000000000
  {
    hide Exp2;
    Exp2Values();
    Exp2Add(32, 32);
    Exp2Add(64, 64);
    Exp2Add(128, 128);
  }

  /** The order has as many bits as a 32-byte digest, so such a digest signs as its own number. */
  lemma DigestBits()
    ensures BitLength(PARAMS.n) == 8 * PARAMS.size
  {
    hide BitLength;
    Exp2OfSize();
    assert Exp2(256) == 2 * Exp2(255);
    BitLengthIs(PARAMS.n, 256);
  }
}
