/** The MessagePack subset the protocol's structures serialize into. */
module MessagePack {
  import opened Modular
  import opened Bytes

  datatype Value =
    | Absent
    | UInt(n: nat)
    | Str(raw: seq<byte>)
    | Bin(raw: seq<byte>)
    | Array(items: seq<Value>)
    | Map(pairs: seq<Pair>)

  datatype Pair = Pair(key: seq<byte>, value: Value)

  lemma Widths()
    ensures Pow(256, 1) == 0x100 && Pow(256, 2) == 0x10000
    ensures Pow(256, 4) == 0x1_0000_0000 && Pow(256, 8) == 0x1_0000_0000_0000_0000
  {
    PowAdd(256, 2, 2);
    PowAdd(256, 4, 4);
  }

  // ----- the encoders; None where the source raises OverflowError -----

  function MpStr(raw: seq<byte>): Option<seq<byte>> {
    Widths();
    if |raw| < 32 then Some([0xA0 + |raw|] + raw)
    else if |raw| < 256 then Some([0xD9, |raw|] + raw)
    else if |raw| < 0x10000 then Some([0xDA] + ToBytes(|raw|, 2) + raw)
    else None
  }

  function MpBin(raw: seq<byte>): Option<seq<byte>> {
    Widths();
    if |raw| < 256 then Some([0xC4, |raw|] + raw)
    else if |raw| < 0x10000 then Some([0xC5] + ToBytes(|raw|, 2) + raw)
    else None
  }

  function MpUInt(n: nat): Option<seq<byte>> {
    Widths();
    if n < 0x80 then Some([n])
    else if n < 0x100 then Some([0xCC, n])
    else if n < 0x10000 then Some([0xCD] + ToBytes(n, 2))
    else if n < 0x1_0000_0000 then Some([0xCE] + ToBytes(n, 4))
    else if n < 0x1_0000_0000_0000_0000 then Some([0xCF] + ToBytes(n, 8))
    else None
  }

  /** The header of an array (0x90, 0xDC) or of a map (0x80, 0xDE). */
  function Header(count: nat, short: byte, long: byte): Option<seq<byte>>
    requires short + 16 <= 256
  {
    Widths();
    if count < 16 then Some([short + count])
    else if count < 0x10000 then Some([long] + ToBytes(count, 2))
    else None
  }

  function Encode(v: Value): Option<seq<byte>>
    decreases v, 0
  {
    match v
    case Absent => Some([0xC0])
    case UInt(n) => MpUInt(n)
    case Str(raw) => MpStr(raw)
    case Bin(raw) => MpBin(raw)
    case Array(items) => Concat(Header(|items|, 0x90, 0xDC), EncodeItems(items))
    case Map(pairs) => Concat(Header(|pairs|, 0x80, 0xDE), EncodePairs(pairs))
  }

  function EncodeItems(items: seq<Value>): Option<seq<byte>>
    decreases items
  {
    if items == [] then Some([]) else Concat(Encode(items[0]), EncodeItems(items[1..]))
  }

  function EncodePairs(pairs: seq<Pair>): Option<seq<byte>>
    decreases pairs
  {
    if pairs == [] then Some([])
    else Concat(Concat(MpStr(pairs[0].key), Encode(pairs[0].value)), EncodePairs(pairs[1..]))
  }

  // ----- a decoder -----

  function ReadStr(bs: seq<byte>): (r: Read<seq<byte>>)
    ensures r.Got? ==> |r.rest| < |bs|
  {
    if bs == [] then Stuck
    else if 0xA0 <= bs[0] < 0xC0 then Take(bs[1..], bs[0] - 0xA0)
    else if bs[0] == 0xD9 then ReadSized(bs[1..], 1)
    else if bs[0] == 0xDA then ReadSized(bs[1..], 2)
    else Stuck
  }

  function Decode(bs: seq<byte>): (r: Read<Value>)
    ensures r.Got? ==> |r.rest| < |bs|
    decreases |bs|, 0
  {
    if bs == [] then Stuck
    else
      var tag, body := bs[0], bs[1..];
      if tag < 0x80 then Got(UInt(tag), body)
      else if tag < 0x90 then DecodeMap(body, tag - 0x80)
      else if tag < 0xA0 then DecodeArray(body, tag - 0x90)
      else if tag < 0xC0 || tag == 0xD9 || tag == 0xDA then
        var s := ReadStr(bs);
        if s.Got? then Got(Str(s.value), s.rest) else Stuck
      else if tag == 0xC0 then Got(Absent, body)
      else if tag == 0xC4 || tag == 0xC5 then
        var s := ReadSized(body, if tag == 0xC4 then 1 else 2);
        if s.Got? then Got(Bin(s.value), s.rest) else Stuck
      else if 0xCC <= tag <= 0xCF then
        var n := ReadNat(body, if tag == 0xCC then 1 else if tag == 0xCD then 2 else if tag == 0xCE then 4 else 8);
        if n.Got? then Got(UInt(n.value), n.rest) else Stuck
      else if tag == 0xDC then
        var n := ReadNat(body, 2);
        if n.Got? then DecodeArray(n.rest, n.value) else Stuck
      else if tag == 0xDE then
        var n := ReadNat(body, 2);
        if n.Got? then DecodeMap(n.rest, n.value) else Stuck
      else Stuck
  }

  function DecodeArray(bs: seq<byte>, count: nat): (r: Read<Value>)
    ensures r.Got? ==> |r.rest| <= |bs|
    decreases |bs|, 2
  {
    var items := DecodeItems(bs, count);
    if items.Got? then Got(Array(items.value), items.rest) else Stuck
  }

  function DecodeMap(bs: seq<byte>, count: nat): (r: Read<Value>)
    ensures r.Got? ==> |r.rest| <= |bs|
    decreases |bs|, 2
  {
    var pairs := DecodePairs(bs, count);
    if pairs.Got? then Got(Map(pairs.value), pairs.rest) else Stuck
  }

  function DecodeItems(bs: seq<byte>, count: nat): (r: Read<seq<Value>>)
    ensures r.Got? ==> |r.rest| <= |bs|
    decreases |bs|, 1
  {
    if count == 0 then Got([], bs)
    else
      var v := Decode(bs);
      if v.Stuck? then Stuck
      else
        var vs := DecodeItems(v.rest, count - 1);
        if vs.Stuck? then Stuck else Got([v.value] + vs.value, vs.rest)
  }

  function DecodePairs(bs: seq<byte>, count: nat): (r: Read<seq<Pair>>)
    ensures r.Got? ==> |r.rest| <= |bs|
    decreases |bs|, 1
  {
    if count == 0 then Got([], bs)
    else
      var k := ReadStr(bs);
      if k.Stuck? then Stuck
      else
        var v := Decode(k.rest);
        if v.Stuck? then Stuck
        else
          var ps := DecodePairs(v.rest, count - 1);
          if ps.Stuck? then Stuck else Got([Pair(k.value, v.value)] + ps.value, ps.rest)
  }

  // ----- round trips -----

  lemma OneByte(n: byte)
    ensures n < Pow(256, 1) && ToBytes(n, 1) == [n]
  {
    Widths();
    FromBytesInjective(ToBytes(n, 1), [n]);
  }

  lemma ReadStrOf(raw: seq<byte>, rest: seq<byte>)
    requires MpStr(raw).Some?
    ensures ReadStr(MpStr(raw).value + rest) == Got(raw, rest)
  {
    Widths();
    var bs := MpStr(raw).value + rest;
    if |raw| < 32 {
      assert bs[1..] == raw + rest;
      assert (raw + rest)[..|raw|] == raw && (raw + rest)[|raw|..] == rest;
    } else if |raw| < 256 {
      OneByte(|raw|);
      assert bs[1..] == ToBytes(|raw|, 1) + raw + rest;
      ReadSizedOf(raw, 1, rest);
    } else {
      assert bs[1..] == ToBytes(|raw|, 2) + raw + rest;
      ReadSizedOf(raw, 2, rest);
    }
  }

  lemma DecodeStr(raw: seq<byte>, rest: seq<byte>)
    requires MpStr(raw).Some?
    ensures Decode(MpStr(raw).value + rest) == Got(Str(raw), rest)
  {
    ReadStrOf(raw, rest);
  }

  lemma DecodeBin(raw: seq<byte>, rest: seq<byte>)
    requires MpBin(raw).Some?
    ensures Decode(MpBin(raw).value + rest) == Got(Bin(raw), rest)
  {
    Widths();
    var bs := MpBin(raw).value + rest;
    var width := if |raw| < 256 then 1 else 2;
    if |raw| < 256 {
      OneByte(|raw|);
    }
    assert bs[1..] == ToBytes(|raw|, width) + raw + rest;
    ReadSizedOf(raw, width, rest);
  }

  lemma DecodeUInt(n: nat, rest: seq<byte>)
    requires MpUInt(n).Some?
    ensures Decode(MpUInt(n).value + rest) == Got(UInt(n), rest)
  {
    Widths();
    var bs := MpUInt(n).value + rest;
    if n < 0x80 {
      assert bs[1..] == rest;
    } else {
      var width := if n < 0x100 then 1 else if n < 0x10000 then 2 else if n < 0x1_0000_0000 then 4 else 8;
      if n < 0x100 {
        OneByte(n);
      }
      assert bs[1..] == ToBytes(n, width) + rest;
      ReadNatOf(n, width, rest);
    }
  }

  /** The header of a container, followed by any bytes, sends the decoder into its items. */
  lemma DecodeArrayHeader(count: nat, rest: seq<byte>)
    requires Header(count, 0x90, 0xDC).Some?
    ensures Decode(Header(count, 0x90, 0xDC).value + rest) == DecodeArray(rest, count)
  {
    Widths();
    var bs := Header(count, 0x90, 0xDC).value + rest;
    if count < 16 {
      assert bs[1..] == rest;
    } else {
      assert bs[1..] == ToBytes(count, 2) + rest;
      ReadNatOf(count, 2, rest);
    }
  }

  lemma DecodeMapHeader(count: nat, rest: seq<byte>)
    requires Header(count, 0x80, 0xDE).Some?
    ensures Decode(Header(count, 0x80, 0xDE).value + rest) == DecodeMap(rest, count)
  {
    Widths();
    var bs := Header(count, 0x80, 0xDE).value + rest;
    if count < 16 {
      assert bs[1..] == rest;
    } else {
      assert bs[1..] == ToBytes(count, 2) + rest;
      ReadNatOf(count, 2, rest);
    }
  }

  /** Whatever follows an encoding, the decoder reads the value back and stops at its end. */
  lemma {:induction false} DecodeEncode(v: Value, rest: seq<byte>)
    requires Encode(v).Some?
    ensures Decode(Encode(v).value + rest) == Got(v, rest)
    decreases v, 0
  {
    hide Decode;
    match v
    case Absent => DecodeAbsent(rest);
    case UInt(n) => DecodeUInt(n, rest);
    case Str(raw) => DecodeStr(raw, rest);
    case Bin(raw) => DecodeBin(raw, rest);
    case Array(items) =>
      DecodeItemsOf(items, rest);
      DecodeArrayOf(items, rest);
    case Map(pairs) =>
      DecodePairsOf(pairs, rest);
      DecodeMapOf(pairs, rest);
  }

  lemma DecodeArrayOf(items: seq<Value>, rest: seq<byte>)
    requires Encode(Array(items)).Some? && DecodeItems(EncodeItems(items).value + rest, |items|) == Got(items, rest)
    ensures Decode(Encode(Array(items)).value + rest) == Got(Array(items), rest)
  {
    hide Decode, EncodeItems, DecodeItems, Header;
    var head, body := Header(|items|, 0x90, 0xDC).value, EncodeItems(items).value;
    DecodeArrayHeader(|items|, body + rest);
    assert head + body + rest == head + (body + rest);
  }

  lemma DecodeMapOf(pairs: seq<Pair>, rest: seq<byte>)
    requires Encode(Map(pairs)).Some? && DecodePairs(EncodePairs(pairs).value + rest, |pairs|) == Got(pairs, rest)
    ensures Decode(Encode(Map(pairs)).value + rest) == Got(Map(pairs), rest)
  {
    hide Decode, EncodePairs, DecodePairs, Header;
    var head, body := Header(|pairs|, 0x80, 0xDE).value, EncodePairs(pairs).value;
    DecodeMapHeader(|pairs|, body + rest);
    assert head + body + rest == head + (body + rest);
  }

  lemma DecodeAbsent(rest: seq<byte>)
    ensures Decode([0xC0] + rest) == Got(Absent, rest)
  {
    assert ([0xC0] + rest)[1..] == rest;
  }

  lemma {:induction false} DecodeItemsOf(items: seq<Value>, rest: seq<byte>)
    requires EncodeItems(items).Some?
    ensures DecodeItems(EncodeItems(items).value + rest, |items|) == Got(items, rest)
    decreases items
  {
    hide Decode, Encode;
    if items == [] {
      assert [] + rest == rest;
    } else {
      var first, more := Encode(items[0]).value, EncodeItems(items[1..]).value;
      DecodeEncode(items[0], more + rest);
      DecodeItemsOf(items[1..], rest);
      assert first + more + rest == first + (more + rest);
      assert [items[0]] + items[1..] == items;
    }
  }

  lemma {:induction false} DecodePairsOf(pairs: seq<Pair>, rest: seq<byte>)
    requires EncodePairs(pairs).Some?
    ensures DecodePairs(EncodePairs(pairs).value + rest, |pairs|) == Got(pairs, rest)
    decreases pairs
  {
    hide Decode, ReadStr, MpStr;
    if pairs == [] {
      assert [] + rest == rest;
    } else {
      var p := pairs[0];
      var key, value, more := MpStr(p.key).value, Encode(p.value).value, EncodePairs(pairs[1..]).value;
      ReadStrOf(p.key, value + (more + rest));
      DecodeEncode(p.value, more + rest);
      DecodePairsOf(pairs[1..], rest);
      assert key + value + more + rest == key + (value + (more + rest));
      assert [p] + pairs[1..] == pairs;
    }
  }

  /** No encoding is a proper prefix of another, and none is shared. */
  lemma EncodingsArePrefixFree(v: Value, w: Value)
    requires Encode(v).Some? && Encode(w).Some? && Encode(v).value <= Encode(w).value
    ensures v == w
  {
    hide Decode, Encode;
    var a, b := Encode(v).value, Encode(w).value;
    DecodeEncode(v, b[|a|..]);
    DecodeEncode(w, []);
    assert a + b[|a|..] == b == b + [];
  }

  /** The encoders fail exactly on a length or number too large for its widest form. */
  ghost predicate Fits(v: Value)
    decreases v
  {
    match v
    case Absent => true
    case UInt(n) => n < 0x1_0000_0000_0000_0000
    case Str(raw) => |raw| < 0x10000
    case Bin(raw) => |raw| < 0x10000
    case Array(items) => |items| < 0x10000 && forall i :: 0 <= i < |items| ==> Fits(items[i])
    case Map(pairs) => |pairs| < 0x10000 && forall i :: 0 <= i < |pairs| ==> |pairs[i].key| < 0x10000 && Fits(pairs[i].value)
  }

  lemma {:induction false} EncodesExactlyFits(v: Value)
    ensures Encode(v).Some? <==> Fits(v)
    decreases v, 0
  {
    match v
    case Absent =>
    case UInt(n) =>
    case Str(raw) =>
    case Bin(raw) =>
    case Array(items) => ItemsEncode(items);
    case Map(pairs) => PairsEncode(pairs);
  }

  lemma {:induction false} ItemsEncode(items: seq<Value>)
    ensures EncodeItems(items).Some? <==> forall i :: 0 <= i < |items| ==> Fits(items[i])
    decreases items
  {
    if items != [] {
      EncodesExactlyFits(items[0]);
      ItemsEncode(items[1..]);
      assert items == [items[0]] + items[1..];
    }
  }

  lemma {:induction false} PairsEncode(pairs: seq<Pair>)
    ensures EncodePairs(pairs).Some? <==>
              forall i :: 0 <= i < |pairs| ==> |pairs[i].key| < 0x10000 && Fits(pairs[i].value)
    decreases pairs
  {
    if pairs != [] {
      EncodesExactlyFits(pairs[0].value);
      PairsEncode(pairs[1..]);
      assert pairs == [pairs[0]] + pairs[1..];
    }
  }

  // ----- every other form the decoder reads is longer -----

  /** Of the bytes read, the encoding takes no more than were there, and as many only where it is what was there. */
  ghost predicate Shortest(enc: Option<seq<byte>>, bs: seq<byte>, rest: seq<byte>) {
    enc.Some? && |enc.value| + |rest| <= |bs| && (|enc.value| + |rest| == |bs| ==> bs == enc.value + rest)
  }

  lemma ShortestConcat(a: Option<seq<byte>>, b: Option<seq<byte>>, bs: seq<byte>, middle: seq<byte>, rest: seq<byte>)
    requires Shortest(a, bs, middle) && Shortest(b, middle, rest)
    ensures Shortest(Concat(a, b), bs, rest)
  {
    assert a.value + (b.value + rest) == a.value + b.value + rest;
  }

  /** A number read at some width, behind a tag. */
  lemma NatRead(bs: seq<byte>, width: nat)
    requires bs != [] && ReadNat(bs[1..], width).Got?
    ensures var n := ReadNat(bs[1..], width);
            n.value < Pow(256, width) && |bs| == 1 + width + |n.rest| && bs == [bs[0]] + ToBytes(n.value, width) + n.rest
  {
    ToFromBytes(bs[1..][..width]);
  }

  /** A counted string read behind a tag. */
  lemma SizedRead(bs: seq<byte>, width: nat)
    requires bs != [] && ReadSized(bs[1..], width).Got?
    ensures var s := ReadSized(bs[1..], width);
            && |s.value| < Pow(256, width) && |bs| == 1 + width + |s.value| + |s.rest|
            && bs == [bs[0]] + ToBytes(|s.value|, width) + s.value + s.rest
  {
    NatRead(bs, width);
    var n := ReadNat(bs[1..], width);
    assert n.rest == n.rest[..n.value] + n.rest[n.value..];
  }

  lemma StrShortest(bs: seq<byte>)
    requires ReadStr(bs).Got?
    ensures Shortest(MpStr(ReadStr(bs).value), bs, ReadStr(bs).rest)
  {
    Widths();
    var s := ReadStr(bs);
    if bs[0] < 0xC0 {
      assert bs == [bs[0]] + bs[1..][..|s.value|] + s.rest;
    } else {
      SizedRead(bs, if bs[0] == 0xD9 then 1 else 2);
      if |s.value| < 256 {
        OneByte(|s.value|);
      }
    }
  }

  lemma BinShortest(bs: seq<byte>, width: nat)
    requires bs != [] && ReadSized(bs[1..], width).Got?
    requires (bs[0] == 0xC4 && width == 1) || (bs[0] == 0xC5 && width == 2)
    ensures Shortest(MpBin(ReadSized(bs[1..], width).value), bs, ReadSized(bs[1..], width).rest)
  {
    Widths();
    SizedRead(bs, width);
    var raw := ReadSized(bs[1..], width).value;
    if |raw| < 256 {
      OneByte(|raw|);
    }
  }

  lemma UIntShortest(bs: seq<byte>, width: nat)
    requires bs != [] && ReadNat(bs[1..], width).Got?
    requires (bs[0] == 0xCC && width == 1) || (bs[0] == 0xCD && width == 2) || (bs[0] == 0xCE && width == 4) || (bs[0] == 0xCF && width == 8)
    ensures Shortest(MpUInt(ReadNat(bs[1..], width).value), bs, ReadNat(bs[1..], width).rest)
  {
    Widths();
    NatRead(bs, width);
    var n := ReadNat(bs[1..], width).value;
    if n < 0x100 {
      OneByte(n);
    }
  }

  lemma LongHeaderShortest(bs: seq<byte>, short: byte, long: byte)
    requires bs != [] && bs[0] == long && short + 16 <= 256 && ReadNat(bs[1..], 2).Got?
    ensures Shortest(Header(ReadNat(bs[1..], 2).value, short, long), bs, ReadNat(bs[1..], 2).rest)
  {
    Widths();
    NatRead(bs, 2);
  }

  lemma ShortHeaderShortest(bs: seq<byte>, short: byte, long: byte)
    requires bs != [] && short + 16 <= 256 && short <= bs[0] < short + 16
    ensures Shortest(Header(bs[0] - short, short, long), bs, bs[1..])
  {
    assert bs == [bs[0]] + bs[1..];
  }

  /** What the decoder reads is encodable; its encoding is the one shortest form the decoder reads as that value. */
  lemma {:induction false} EncodesShortest(bs: seq<byte>)
    requires Decode(bs).Got?
    ensures Shortest(Encode(Decode(bs).value), bs, Decode(bs).rest)
    decreases |bs|, 0
  {
    hide ReadStr, MpStr, MpBin, MpUInt, Header, Shortest, ReadSized, ReadNat;
    var tag := bs[0];
    if tag < 0x80 {
      FixIntShortest(bs);
    } else if tag < 0x90 {
      ShortHeaderShortest(bs, 0x80, 0xDE);
      MapShortest(bs, bs[1..], tag - 0x80);
    } else if tag < 0xA0 {
      ShortHeaderShortest(bs, 0x90, 0xDC);
      ArrayShortest(bs, bs[1..], tag - 0x90);
    } else if tag < 0xC0 || tag == 0xD9 || tag == 0xDA {
      StrShortest(bs);
    } else if tag == 0xC0 {
      AbsentShortest(bs);
    } else if tag == 0xC4 || tag == 0xC5 {
      BinShortest(bs, if tag == 0xC4 then 1 else 2);
    } else if 0xCC <= tag <= 0xCF {
      UIntShortest(bs, if tag == 0xCC then 1 else if tag == 0xCD then 2 else if tag == 0xCE then 4 else 8);
    } else {
      var n := ReadNat(bs[1..], 2);
      NatRead(bs, 2);
      if tag == 0xDC {
        LongHeaderShortest(bs, 0x90, 0xDC);
        ArrayShortest(bs, n.rest, n.value);
      } else {
        LongHeaderShortest(bs, 0x80, 0xDE);
        MapShortest(bs, n.rest, n.value);
      }
    }
  }

  lemma FixIntShortest(bs: seq<byte>)
    requires bs != [] && bs[0] < 0x80
    ensures Shortest(MpUInt(bs[0]), bs, bs[1..])
  {
    assert bs == [bs[0]] + bs[1..];
  }

  lemma AbsentShortest(bs: seq<byte>)
    requires bs != [] && bs[0] == 0xC0
    ensures Shortest(Some([0xC0]), bs, bs[1..])
  {
    assert bs == [0xC0] + bs[1..];
  }

  lemma {:induction false} ArrayShortest(bs: seq<byte>, body: seq<byte>, count: nat)
    requires |body| < |bs| && DecodeArray(body, count).Got? && Shortest(Header(count, 0x90, 0xDC), bs, body)
    ensures var r := DecodeArray(body, count); Shortest(Encode(r.value), bs, r.rest)
    decreases |body|, 2
  {
    hide Shortest, Header, EncodeItems;
    var items := DecodeItems(body, count);
    ItemsShortest(body, count);
    ShortestConcat(Header(count, 0x90, 0xDC), EncodeItems(items.value), bs, body, items.rest);
  }

  lemma {:induction false} MapShortest(bs: seq<byte>, body: seq<byte>, count: nat)
    requires |body| < |bs| && DecodeMap(body, count).Got? && Shortest(Header(count, 0x80, 0xDE), bs, body)
    ensures var r := DecodeMap(body, count); Shortest(Encode(r.value), bs, r.rest)
    decreases |body|, 2
  {
    hide Shortest, Header, EncodePairs;
    var pairs := DecodePairs(body, count);
    PairsShortest(body, count);
    ShortestConcat(Header(count, 0x80, 0xDE), EncodePairs(pairs.value), bs, body, pairs.rest);
  }

  lemma {:induction false} ItemsShortest(bs: seq<byte>, count: nat)
    requires DecodeItems(bs, count).Got?
    ensures var r := DecodeItems(bs, count); |r.value| == count && Shortest(EncodeItems(r.value), bs, r.rest)
    decreases |bs|, 1
  {
    hide Decode, Encode;
    if count == 0 {
      assert bs == [] + bs;
    } else {
      var v := Decode(bs);
      var vs := DecodeItems(v.rest, count - 1);
      EncodesShortest(bs);
      ItemsShortest(v.rest, count - 1);
      assert ([v.value] + vs.value)[1..] == vs.value;
      ShortestConcat(Encode(v.value), EncodeItems(vs.value), bs, v.rest, vs.rest);
    }
  }

  lemma {:induction false} PairsShortest(bs: seq<byte>, count: nat)
    requires DecodePairs(bs, count).Got?
    ensures var r := DecodePairs(bs, count); |r.value| == count && Shortest(EncodePairs(r.value), bs, r.rest)
    decreases |bs|, 1
  {
    hide Decode, Encode, ReadStr, MpStr;
    if count == 0 {
      assert bs == [] + bs;
    } else {
      var k := ReadStr(bs);
      var v := Decode(k.rest);
      var ps := DecodePairs(v.rest, count - 1);
      StrShortest(bs);
      EncodesShortest(k.rest);
      PairsShortest(v.rest, count - 1);
      assert ([Pair(k.value, v.value)] + ps.value)[1..] == ps.value;
      ShortestConcat(MpStr(k.value), Encode(v.value), bs, k.rest, v.rest);
      ShortestConcat(Concat(MpStr(k.value), Encode(v.value)), EncodePairs(ps.value), bs, v.rest, ps.rest);
    }
  }
}
