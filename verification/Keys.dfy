/** Hash-map entries with an address pair for a key and a 64-bit word for a value, as the tcpconnect
    and activeconn examples declare them: their types, their bytes, and the labels they end up as. */
module PairKeys {
  import opened Outcomes
  import opened Words
  import opened Bytes
  import opened Btf
  import opened Decoding
  import opened RoundTrip
  import opened Labelling
  import opened Stats
  import opened Loading
  import opened Sockets

  // ---------------------------------------------------------------- the maps' types and bytes

  const IPV4_TYPE: BtfType :=
    Typedef("ipv4_addr", Typedef("u32", Typedef("__u32", Int("unsigned int", 4, Unsigned, 32))))

  const COUNT_TYPE: BtfType :=
    Typedef("u64", Typedef("__u64", Int("long long unsigned int", 8, Unsigned, 64)))

  /** `struct dimensions_t`. */
  const DIMENSIONS: seq<Member> := [Member("saddr", IPV4_TYPE, 0), Member("daddr", IPV4_TYPE, 4)]

  datatype Config = Config(formats: Formats, order: ByteOrder, hash: Hasher)

  function ReadingOf(c: Config): Reading {
    Reading(c.formats, c.order, Struct(DIMENSIONS), COUNT_TYPE)
  }

  /** The label names registered for both maps. */
  const NAMES: set<string> := set name | name in MemberNames(DIMENSIONS)

  /** `struct dimensions_t` in memory: two words in the machine's byte order. */
  function KeyBytes(order: ByteOrder, d: Dimensions): (bs: ByteString)
    ensures |bs| == 8
  {
    PutWord(order, d.saddr, 4) + PutWord(order, d.daddr, 4)
  }

  /** The label map of an address pair: both addresses in dotted-quad notation. */
  function LabelsOf(c: Config, d: Dimensions): Labels {
    map["saddr" := DottedQuad(PutWord(c.order, d.saddr, 4)), "daddr" := DottedQuad(PutWord(c.order, d.daddr, 4))]
  }

  lemma AddressEncodes(order: ByteOrder, a: ByteString)
    requires |a| == 4
    ensures Fits(IPV4_TYPE, IP(a)) && Encode(order, IPV4_TYPE, IP(a)) == a
  {
    assert Underlying(IPV4_TYPE) == Int("unsigned int", 4, Unsigned, 32);
    ReadThenPut(order, a);
    UnpresentThenPresent(order, IPV4_TYPE, IP(a));
    assert Zeros(0) == [];
  }

  lemma KeyLayout()
    ensures |DIMENSIONS| == 2 && Offset(DIMENSIONS, 0) == 0 && Offset(DIMENSIONS, 1) == 4 && TotalSize(DIMENSIONS) == 8
    ensures NAMES == {"saddr", "daddr"}
  {
    assert Underlying(IPV4_TYPE) == Int("unsigned int", 4, Unsigned, 32);
    assert WireSize(IPV4_TYPE) == 4;
    assert MemberNames(DIMENSIONS) == ["saddr", "daddr"];
  }

  function Addresses(order: ByteOrder, d: Dimensions): (vs: seq<Value>)
    ensures |vs| == 2
  {
    [IP(PutWord(order, d.saddr, 4)), IP(PutWord(order, d.daddr, 4))]
  }

  lemma ConcatOfTwo(a: ByteString, b: ByteString)
    ensures Concat([a, b]) == a + b
  {
    assert [a, b][..1] == [a];
    assert Concat([a]) == a;
  }

  lemma TwoChunks(order: ByteOrder, ms: seq<Member>, vs: seq<Value>)
    requires |ms| == |vs| == 2 && Fits(ms[0].typ, vs[0]) && Fits(ms[1].typ, vs[1])
    ensures FitMembers(ms, vs)
    ensures EncodeMembers(order, ms, vs) == Encode(order, ms[0].typ, vs[0]) + Encode(order, ms[1].typ, vs[1])
  {
    var a, b := Encode(order, ms[0].typ, vs[0]), Encode(order, ms[1].typ, vs[1]);
    assert EncodedChunks(order, ms, vs) == [a, b];
    ConcatOfTwo(a, b);
  }

  lemma KeyEncodes(order: ByteOrder, d: Dimensions)
    ensures FitMembers(DIMENSIONS, Addresses(order, d))
    ensures EncodeMembers(order, DIMENSIONS, Addresses(order, d)) == KeyBytes(order, d)
  {
    AddressEncodes(order, PutWord(order, d.saddr, 4));
    AddressEncodes(order, PutWord(order, d.daddr, 4));
    TwoChunks(order, DIMENSIONS, Addresses(order, d));
  }

  lemma KeyDecodesToAddresses(order: ByteOrder, d: Dimensions)
    ensures Decode(order, Struct(DIMENSIONS), KeyBytes(order, d)) == Ok(Collect(DIMENSIONS, Addresses(order, d)))
  {
    KeyLayout();
    KeyEncodes(order, d);
    assert DistinctNames(DIMENSIONS);
    ConsumedBytesRoundTrip(order, DIMENSIONS, Addresses(order, d));
  }

  lemma CollectOfTwo(ms: seq<Member>, vs: seq<Value>)
    requires |ms| == |vs| == 2 && DistinctNames(ms)
    ensures Collect(ms, vs) == map[ms[0].name := vs[0], ms[1].name := vs[1]]
  {
    CollectedByName(ms, vs, 0);
    CollectedByName(ms, vs, 1);
    CollectedKeys(ms, vs);
  }

  lemma StringifiedPair(f: Formats, a: string, v: Value, b: string, w: Value)
    requires a != b
    ensures Stringified(f, map[a := v, b := w]) == map[a := Sprint(f, v), b := Sprint(f, w)]
  {
  }

  lemma AddressesAsLabels(c: Config, d: Dimensions)
    ensures Stringified(c.formats, Collect(DIMENSIONS, Addresses(c.order, d))) == LabelsOf(c, d)
  {
    var vs := Addresses(c.order, d);
    assert DistinctNames(DIMENSIONS);
    CollectOfTwo(DIMENSIONS, vs);
    StringifiedPair(c.formats, "saddr", vs[0], "daddr", vs[1]);
  }

  /** The decoder and `stringify` turn a key's bytes into its label map. */
  lemma KeyDecodes(c: Config, d: Dimensions)
    ensures ReadRecord(c.formats, c.order, DIMENSIONS, KeyBytes(c.order, d)) == Ok(LabelsOf(c, d))
    ensures Decode(c.order, Struct(DIMENSIONS), KeyBytes(c.order, d)).Ok?
    ensures LabelsOf(c, d).Keys == NAMES
  {
    KeyLayout();
    KeyDecodesToAddresses(c.order, d);
    AddressesAsLabels(c, d);
  }

  lemma CountDecodes(order: ByteOrder, count: U64)
    ensures Decode(order, COUNT_TYPE, PutWord(order, count, 8)) == Ok(map["" := Uint(8, count)])
  {
    var u := Int("long long unsigned int", 8, Unsigned, 64);
    assert Underlying(COUNT_TYPE) == u;
    WordSizes();
    PutThenRead(order, count, 8);
    var raw := PutWord(order, count, 8);
    assert raw[0..8] == raw && raw[..8] == raw;
    assert DecodePlain(order, u, raw) == Ok(Uint(8, count));
  }

  function EntryOf(c: Config, d: Dimensions, count: U64): Entry {
    Entry(KeyBytes(c.order, d), PutWord(c.order, count, 8))
  }

  /** What the loader makes of one entry of `events_hash` or `sockets_ext`. */
  lemma EntryReads(c: Config, d: Dimensions, count: U64)
    ensures ReadEntry(ReadingOf(c), EntryOf(c, d, count)) == Ok(Call(count, LabelsOf(c, d)))
  {
    KeyDecodes(c, d);
    CountDecodes(c.order, count);
  }

  lemma LabelsInjective(c: Config, a: Dimensions, b: Dimensions)
    requires LabelsOf(c, a) == LabelsOf(c, b)
    ensures a == b
  {
    assert LabelsOf(c, a)["saddr"] == LabelsOf(c, b)["saddr"] && LabelsOf(c, a)["daddr"] == LabelsOf(c, b)["daddr"];
    DottedQuadInjective(PutWord(c.order, a.saddr, 4), PutWord(c.order, b.saddr, 4));
    DottedQuadInjective(PutWord(c.order, a.daddr, 4), PutWord(c.order, b.daddr, 4));
    WordSizes();
    PutThenRead(c.order, a.saddr, 4);
    PutThenRead(c.order, b.saddr, 4);
    PutThenRead(c.order, a.daddr, 4);
    PutThenRead(c.order, b.daddr, 4);
  }
}
