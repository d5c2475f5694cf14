/** Big-endian byte strings: Python's `int.to_bytes` and `int.from_bytes`. */
module Bytes {
  import opened Modular

  type byte = b: int | 0 <= b < 256

  datatype Option<+T> = None | Some(value: T)

  function FromBytes(bs: seq<byte>): nat {
    if bs == [] then 0 else 256 * FromBytes(bs[..|bs| - 1]) + bs[|bs| - 1]
  }

  /** The source raises OverflowError where the value does not fit. */
  function ToBytes(v: nat, width: nat): (bs: seq<byte>)
    requires v < Pow(256, width)
    ensures |bs| == width && FromBytes(bs) == v
  {
    if width == 0 then []
    else
      assert v / 256 < Pow(256, width - 1);
      ToBytes(v / 256, width - 1) + [v % 256]
  }

  lemma {:induction false} FromBytesBound(bs: seq<byte>)
    ensures FromBytes(bs) < Pow(256, |bs|)
  {
    if bs != [] {
      FromBytesBound(bs[..|bs| - 1]);
    }
  }

  lemma {:induction false} FromBytesInjective(a: seq<byte>, b: seq<byte>)
    requires |a| == |b| && FromBytes(a) == FromBytes(b)
    ensures a == b
  {
    if a != [] {
      var n := |a| - 1;
      FromBytesInjective(a[..n], b[..n]);
      assert a == a[..n] + [a[n]] && b == b[..n] + [b[n]];
    }
  }

  /** Encoding is the inverse of decoding at the width of the string. */
  lemma ToFromBytes(bs: seq<byte>)
    ensures FromBytes(bs) < Pow(256, |bs|) && ToBytes(FromBytes(bs), |bs|) == bs
  {
    FromBytesBound(bs);
    FromBytesInjective(ToBytes(FromBytes(bs), |bs|), bs);
  }

  /** None where either part is. */
  function Concat(a: Option<seq<byte>>, b: Option<seq<byte>>): Option<seq<byte>> {
    if a.Some? && b.Some? then Some(a.value + b.value) else None
  }

  // ----- reading off the front of a byte string -----

  /** A value read off the front of a byte string, with what follows it. */
  datatype Read<T> = Stuck | Got(value: T, rest: seq<byte>)

  function Take(bs: seq<byte>, n: nat): Read<seq<byte>> {
    if n <= |bs| then Got(bs[..n], bs[n..]) else Stuck
  }

  function ReadNat(bs: seq<byte>, width: nat): Read<nat> {
    if width <= |bs| then Got(FromBytes(bs[..width]), bs[width..]) else Stuck
  }

  /** A width-byte length and as many bytes. */
  function ReadSized(bs: seq<byte>, width: nat): Read<seq<byte>> {
    var len := ReadNat(bs, width);
    if len.Got? then Take(len.rest, len.value) else Stuck
  }

  lemma ReadNatOf(n: nat, width: nat, rest: seq<byte>)
    requires n < Pow(256, width)
    ensures ReadNat(ToBytes(n, width) + rest, width) == Got(n, rest)
  {
    var bs := ToBytes(n, width) + rest;
    assert bs[..width] == ToBytes(n, width) && bs[width..] == rest;
  }

  lemma ReadSizedOf(raw: seq<byte>, width: nat, rest: seq<byte>)
    requires |raw| < Pow(256, width)
    ensures ReadSized(ToBytes(|raw|, width) + raw + rest, width) == Got(raw, rest)
  {
    var head := ToBytes(|raw|, width);
    ReadNatOf(|raw|, width, raw + rest);
    assert head + raw + rest == head + (raw + rest);
    assert (raw + rest)[..|raw|] == raw && (raw + rest)[|raw|..] == rest;
  }

  // ----- bits -----

  function Exp2(k: nat): (r: nat)
    ensures r >= 1
  {
    if k == 0 then 1 else 2 * Exp2(k - 1)
  }

  /** Python's `int.bit_length`. */
  function BitLength(n: nat): (r: nat)
    ensures n < Exp2(r) && (n > 0 ==> r > 0 && Exp2(r - 1) <= n)
  {
    if n == 0 then 0 else 1 + BitLength(n / 2)
  }

  lemma {:induction false} Exp2Add(j: nat, k: nat)
    ensures Exp2(j + k) == Exp2(j) * Exp2(k)
  {
    if j > 0 {
      Exp2Add(j - 1, k);
    }
  }

  lemma {:induction false} Exp2Strict(j: nat, k: nat)
    requires j < k
    ensures 2 * Exp2(j) <= Exp2(k)
    decreases k
  {
    if j < k - 1 {
      Exp2Strict(j, k - 1);
    }
  }

  /** The bit length is the one size whose powers of two enclose the number. */
  lemma BitLengthIs(n: nat, k: nat)
    requires k > 0 && Exp2(k - 1) <= n < Exp2(k)
    ensures BitLength(n) == k
  {
    var r := BitLength(n);
    if r < k - 1 {
      Exp2Strict(r, k - 1);
    } else if r > k {
      Exp2Strict(k, r);
    }
  }
}
