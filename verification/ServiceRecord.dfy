/** The `entries` field of a service record: each entry's layout depends on its own type string. */
module ServiceRecord {
  import opened Modular
  import opened Bytes

  const RELAY: seq<byte> := [0x53, 0x43, 0x50, 0x52, 0x65, 0x6C, 0x61, 0x79]

  /** Strings are their UTF-8 bytes. */
  datatype Entry = Entry(id: seq<byte>, kind: seq<byte>, endpoint: seq<byte>,
                         bridgeTarget: Option<seq<byte>>, wrappingKey: Option<seq<byte>>)

  const LENGTH_BYTES := 4

  /** SHA-256(0x00), which stands for an absent value; kept uninterpreted. */
  type Sentinel = s: seq<byte> | |s| == 32 witness seq(32, _ => 0)

  function VarField(raw: seq<byte>): Option<seq<byte>> {
    if |raw| < Pow(256, LENGTH_BYTES) then Some(ToBytes(|raw|, LENGTH_BYTES) + raw) else None
  }

  /** The 32 bytes an SCPRelay entry signs after its strings. None where the source raises. */
  function EntryBridgeTarget(absent: Sentinel, e: Entry): Option<seq<byte>> {
    if e.kind != RELAY then if e.bridgeTarget.None? then Some([]) else None
    else if e.bridgeTarget.None? then Some(absent)
    else if |e.bridgeTarget.value| == 32 then Some(e.bridgeTarget.value)
    else None
  }

  function EntryWrappingKey(absent: Sentinel, e: Entry): Option<seq<byte>> {
    if e.kind != RELAY then if e.wrappingKey.None? then Some([]) else None
    else if e.wrappingKey.None? then Some(absent)
    else
      var key := e.wrappingKey.value;
      if e.bridgeTarget.Some? && |key| == 33 && (key[0] == 2 || key[0] == 3) then Some(key) else None
  }

  function EncodeEntry(absent: Sentinel, e: Entry): Option<seq<byte>> {
    var strings := Concat(Concat(VarField(e.id), VarField(e.kind)), VarField(e.endpoint));
    if e.kind == RELAY then
      var key := EntryWrappingKey(absent, e);
      Concat(Concat(strings, EntryBridgeTarget(absent, e)), if key.Some? then VarField(key.value) else None)
    else if e.bridgeTarget.None? && e.wrappingKey.None? then strings
    else None
  }

  function EncodeBody(absent: Sentinel, entries: seq<Entry>): Option<seq<byte>> {
    if entries == [] then Some([])
    else Concat(EncodeEntry(absent, entries[0]), EncodeBody(absent, entries[1..]))
  }

  function EncodeEntries(absent: Sentinel, entries: seq<Entry>): Option<seq<byte>> {
    if |entries| < Pow(256, LENGTH_BYTES)
    then Concat(Some(ToBytes(|entries|, LENGTH_BYTES)), EncodeBody(absent, entries))
    else None
  }

  lemma Joins(a: seq<byte>, b: seq<byte>, c: Option<seq<byte>>)
    ensures Concat(Some(a), Concat(Some(b), c)) == Concat(Some(a + b), c)
  {
    if c.Some? {
      assert a + (b + c.value) == a + b + c.value;
    }
  }

  /** The source's loop over the entries. */
  method EntriesField(absent: Sentinel, entries: seq<Entry>) returns (field: Option<seq<byte>>)
    ensures field == EncodeEntries(absent, entries)
  {
    hide EncodeEntry;
    var body := [];
    assert entries[0..] == entries;
    assert EncodeBody(absent, entries).Some? ==> [] + EncodeBody(absent, entries).value == EncodeBody(absent, entries).value;
    for i := 0 to |entries|
      invariant EncodeBody(absent, entries) == Concat(Some(body), EncodeBody(absent, entries[i..]))
    {
      var e := entries[i];
      assert entries[i..][1..] == entries[i + 1..];
      var bytes := EncodeEntry(absent, e);
      if bytes.None? {
        return None;
      }
      Joins(body, bytes.value, EncodeBody(absent, entries[i + 1..]));
      body := body + bytes.value;
    }
    assert entries[|entries|..] == [] && body + [] == body;
    if |entries| >= Pow(256, LENGTH_BYTES) {
      return None;
    }
    field := Some(ToBytes(|entries|, LENGTH_BYTES) + body);
  }

  // ----- a decoder -----

  function ReadField(bs: seq<byte>): Read<seq<byte>> {
    ReadSized(bs, LENGTH_BYTES)
  }

  function ReadStrings(bs: seq<byte>): Read<Entry> {
    var id := ReadField(bs);
    if id.Stuck? then Stuck
    else
      var kind := ReadField(id.rest);
      if kind.Stuck? then Stuck
      else
        var endpoint := ReadField(kind.rest);
        if endpoint.Stuck? then Stuck
        else Got(Entry(id.value, kind.value, endpoint.value, None, None), endpoint.rest)
  }

  function Present(absent: Sentinel, raw: seq<byte>): Option<seq<byte>> {
    if raw == absent then None else Some(raw)
  }

  function DecodeEntry(absent: Sentinel, bs: seq<byte>): Read<Entry> {
    var s := ReadStrings(bs);
    if s.Stuck? || s.value.kind != RELAY then s
    else
      var target := Take(s.rest, 32);
      if target.Stuck? then Stuck
      else
        var key := ReadField(target.rest);
        if key.Stuck? then Stuck
        else Got(s.value.(bridgeTarget := Present(absent, target.value), wrappingKey := Present(absent, key.value)), key.rest)
  }

  function DecodeBody(absent: Sentinel, bs: seq<byte>, count: nat): Read<seq<Entry>>
    decreases count
  {
    if count == 0 then Got([], bs)
    else
      var e := DecodeEntry(absent, bs);
      if e.Stuck? then Stuck
      else
        var es := DecodeBody(absent, e.rest, count - 1);
        if es.Stuck? then Stuck else Got([e.value] + es.value, es.rest)
  }

  function DecodeEntries(absent: Sentinel, bs: seq<byte>): Read<seq<Entry>> {
    var count := ReadNat(bs, LENGTH_BYTES);
    if count.Stuck? then Stuck else DecodeBody(absent, count.rest, count.value)
  }

  // ----- round trips -----

  lemma ReadFieldOf(raw: seq<byte>, rest: seq<byte>)
    requires VarField(raw).Some?
    ensures ReadField(VarField(raw).value + rest) == Got(raw, rest)
  {
    ReadSizedOf(raw, LENGTH_BYTES, rest);
  }

  lemma ReadStringsOf(e: Entry, rest: seq<byte>)
    requires VarField(e.id).Some? && VarField(e.kind).Some? && VarField(e.endpoint).Some?
    ensures ReadStrings(VarField(e.id).value + VarField(e.kind).value + VarField(e.endpoint).value + rest)
         == Got(Entry(e.id, e.kind, e.endpoint, None, None), rest)
  {
    hide VarField, ReadField;
    var a, b, c := VarField(e.id).value, VarField(e.kind).value, VarField(e.endpoint).value;
    ReadFieldOf(e.id, b + (c + rest));
    ReadFieldOf(e.kind, c + rest);
    ReadFieldOf(e.endpoint, rest);
    assert a + b + c + rest == a + (b + (c + rest));
  }

  /** An entry whose bridge target is present and is not the sentinel that means absence. */
  predicate Distinguishable(absent: Sentinel, e: Entry) {
    e.bridgeTarget != Some(absent)
  }

  lemma DecodeEntryOf(absent: Sentinel, e: Entry, rest: seq<byte>)
    requires EncodeEntry(absent, e).Some?
    ensures var read := DecodeEntry(absent, EncodeEntry(absent, e).value + rest);
            && read.Got? && read.rest == rest
            && (read.value == e <==> Distinguishable(absent, e))
  {
    hide VarField, ReadField, ReadStrings;
    var strings := VarField(e.id).value + VarField(e.kind).value + VarField(e.endpoint).value;
    if e.kind == RELAY {
      var target, key := EntryBridgeTarget(absent, e).value, EntryWrappingKey(absent, e).value;
      var tail := target + (VarField(key).value + rest);
      ReadStringsOf(e, tail);
      ReadFieldOf(key, rest);
      assert strings + target + VarField(key).value + rest == strings + tail;
      assert tail[..32] == target && tail[32..] == VarField(key).value + rest;
    } else {
      ReadStringsOf(e, rest);
    }
  }

  ghost predicate AllDistinguishable(absent: Sentinel, entries: seq<Entry>) {
    forall i :: 0 <= i < |entries| ==> Distinguishable(absent, entries[i])
  }

  lemma {:induction false} DecodeBodyOf(absent: Sentinel, entries: seq<Entry>, rest: seq<byte>)
    requires EncodeBody(absent, entries).Some?
    ensures var read := DecodeBody(absent, EncodeBody(absent, entries).value + rest, |entries|);
            && read.Got? && read.rest == rest && |read.value| == |entries|
            && (read.value == entries <==> AllDistinguishable(absent, entries))
  {
    hide EncodeEntry, DecodeEntry, Distinguishable;
    if entries == [] {
      assert [] + rest == rest;
    } else {
      var first, more := EncodeEntry(absent, entries[0]).value, EncodeBody(absent, entries[1..]).value;
      DecodeEntryOf(absent, entries[0], more + rest);
      DecodeBodyOf(absent, entries[1..], rest);
      assert first + more + rest == first + (more + rest);
      assert entries == [entries[0]] + entries[1..];
    }
  }

  /** The field decodes to the same entries, whatever follows it, exactly when no present bridge target is the
      sentinel that stands for an absent one. */
  lemma DecodeEncodeEntries(absent: Sentinel, entries: seq<Entry>, rest: seq<byte>)
    requires EncodeEntries(absent, entries).Some?
    ensures var read := DecodeEntries(absent, EncodeEntries(absent, entries).value + rest);
            && read.Got? && read.rest == rest
            && (read.value == entries <==> AllDistinguishable(absent, entries))
  {
    hide EncodeBody, DecodeBody;
    var head, body := ToBytes(|entries|, LENGTH_BYTES), EncodeBody(absent, entries).value;
    ReadNatOf(|entries|, LENGTH_BYTES, body + rest);
    assert head + body + rest == head + (body + rest);
    DecodeBodyOf(absent, entries, rest);
  }

  /** What the source asserts of an entry. Only a relay carries a bridge target, of 32 bytes; only a relay with one
      carries a wrapping key, of 33 bytes that begin with 2 or 3; and every string's length fits its 4 bytes. */
  ghost predicate IsWellFormed(e: Entry) {
    && |e.id| < 0x1_0000_0000 && |e.kind| < 0x1_0000_0000 && |e.endpoint| < 0x1_0000_0000
    && (e.bridgeTarget.Some? ==> e.kind == RELAY && |e.bridgeTarget.value| == 32)
    && (e.wrappingKey.Some? ==>
          e.kind == RELAY && e.bridgeTarget.Some? && |e.wrappingKey.value| == 33 && e.wrappingKey.value[0] in {2, 3})
  }

  lemma LengthBytes()
    ensures Pow(256, LENGTH_BYTES) == 0x1_0000_0000
  {
    assert Pow(256, 4) == 256 * (256 * (256 * (256 * Pow(256, 0))));
  }

  lemma EntryEncodesIff(absent: Sentinel, e: Entry)
    ensures EncodeEntry(absent, e).Some? <==> IsWellFormed(e)
  {
    hide Pow;
    LengthBytes();
  }

  /** An entry of another type signs nothing after its strings, and fails where it carries either value. */
  lemma OtherTypesSignNothing(absent: Sentinel, e: Entry)
    requires e.kind != RELAY
    ensures EntryBridgeTarget(absent, e) == Some([]) <==> e.bridgeTarget.None?
    ensures EntryWrappingKey(absent, e) == Some([]) <==> e.wrappingKey.None?
    ensures EncodeEntry(absent, e).Some? <==> IsWellFormed(e)
    ensures EncodeEntry(absent, e).Some? ==> EntryBridgeTarget(absent, e) == EntryWrappingKey(absent, e) == Some([])
  {
    EntryEncodesIff(absent, e);
  }

  lemma {:induction false} BodyEncodesIff(absent: Sentinel, entries: seq<Entry>)
    ensures EncodeBody(absent, entries).Some? <==> forall i :: 0 <= i < |entries| ==> IsWellFormed(entries[i])
  {
    hide EncodeEntry, IsWellFormed;
    if entries != [] {
      EntryEncodesIff(absent, entries[0]);
      BodyEncodesIff(absent, entries[1..]);
      assert entries == [entries[0]] + entries[1..];
    }
  }

  /** The field is built exactly where every entry meets the source's assertions and the count fits its 4 bytes. */
  lemma EntriesEncodeIff(absent: Sentinel, entries: seq<Entry>)
    ensures EncodeEntries(absent, entries).Some? <==>
              |entries| < 0x1_0000_0000 && forall i :: 0 <= i < |entries| ==> IsWellFormed(entries[i])
  {
    hide Pow, EncodeBody, IsWellFormed;
    LengthBytes();
    BodyEncodesIff(absent, entries);
  }

  lemma EntriesArePrefixFree(absent: Sentinel, a: seq<Entry>, b: seq<Entry>)
    requires EncodeEntries(absent, a).Some? && EncodeEntries(absent, b).Some?
    requires AllDistinguishable(absent, a) && AllDistinguishable(absent, b)
    requires EncodeEntries(absent, a).value <= EncodeEntries(absent, b).value
    ensures a == b
  {
    hide EncodeEntries, DecodeEntries;
    var x, y := EncodeEntries(absent, a).value, EncodeEntries(absent, b).value;
    DecodeEncodeEntries(absent, a, y[|x|..]);
    DecodeEncodeEntries(absent, b, []);
    assert x + y[|x|..] == y == y + [];
  }

  /** Without that condition two different entries share an encoding. */
  lemma SentinelTargetCollides(absent: Sentinel)
    ensures var none := Entry([], RELAY, [], None, None);
            var some := Entry([], RELAY, [], Some(absent), None);
            none != some && EncodeEntries(absent, [none]).Some? &&
            EncodeEntries(absent, [none]) == EncodeEntries(absent, [some])
  {
    LengthBytes();
    var none := Entry([], RELAY, [], None, None);
    var some := Entry([], RELAY, [], Some(absent), None);
    assert EncodeEntry(absent, none) == EncodeEntry(absent, some) && EncodeEntry(absent, none).Some?;
    assert EncodeBody(absent, [none]) == Concat(EncodeEntry(absent, none), EncodeBody(absent, [none][1..]));
    assert EncodeBody(absent, [some]) == Concat(EncodeEntry(absent, some), EncodeBody(absent, [some][1..]));
  }
}
