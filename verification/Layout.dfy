/** Structs as a compiler lays them out, and exactly which of them the decoder reads back: it never
    looks at the members' offsets, and takes no bytes for integers encoded bool or char. */
module Layouts {
  import opened Outcomes
  import opened Bytes
  import opened Btf
  import opened Decoding
  import opened RoundTrip
  import opened Memory

  // ---------------------------------------------------------------- offsets and sizes

  /** Where the pieces before the `j`-th end. */
  function EndOf(offsets: seq<nat>, sizes: seq<nat>, j: nat): nat
    requires |offsets| == |sizes| && j <= |sizes|
  {
    if j == 0 then 0 else offsets[j - 1] + sizes[j - 1]
  }

  /** Pieces in order, none overlapping. */
  predicate InOrder(offsets: seq<nat>, sizes: seq<nat>) {
    |offsets| == |sizes| && forall j {:trigger EndOf(offsets, sizes, j)} :: 0 <= j < |sizes| ==> EndOf(offsets, sizes, j) <= offsets[j]
  }

  predicate Gapless(offsets: seq<nat>, sizes: seq<nat>, n: nat)
    requires |offsets| == |sizes| && n <= |sizes|
  {
    forall j {:trigger EndOf(offsets, sizes, j)} :: 0 <= j < n ==> offsets[j] == EndOf(offsets, sizes, j)
  }

  /** Where a reader that takes `steps` bytes for the pieces stands after the first `j`. */
  function Sum(steps: seq<nat>, j: nat): nat
    requires j <= |steps|
  {
    if j == 0 then 0 else Sum(steps, j - 1) + steps[j - 1]
  }

  /** The reader never takes more than a piece holds. */
  predicate Within(steps: seq<nat>, sizes: seq<nat>) {
    |steps| == |sizes| && forall j :: 0 <= j < |sizes| ==> steps[j] <= sizes[j]
  }

  lemma {:induction false} SumLags(offsets: seq<nat>, sizes: seq<nat>, steps: seq<nat>, j: nat)
    requires InOrder(offsets, sizes) && Within(steps, sizes) && j <= |sizes|
    ensures Sum(steps, j) <= EndOf(offsets, sizes, j)
  {
    if j > 0 {
      SumLags(offsets, sizes, steps, j - 1);
    }
  }

  lemma {:induction false} SumKeepsUp(offsets: seq<nat>, sizes: seq<nat>, steps: seq<nat>, j: nat)
    requires |offsets| == |sizes| == |steps| && j <= |sizes| && Gapless(offsets, sizes, j)
    requires forall i :: 0 <= i < j ==> steps[i] == sizes[i]
    ensures Sum(steps, j) == EndOf(offsets, sizes, j)
  {
    if j > 0 {
      SumKeepsUp(offsets, sizes, steps, j - 1);
    }
  }

  /** The reader is at every piece's offset exactly when there are no gaps and it takes all of every
      piece but the last. */
  lemma SumsAtOffsetsIff(offsets: seq<nat>, sizes: seq<nat>, steps: seq<nat>)
    requires InOrder(offsets, sizes) && Within(steps, sizes)
    ensures (forall j :: 0 <= j < |sizes| ==> Sum(steps, j) == offsets[j])
            <==> Gapless(offsets, sizes, |sizes|) && forall j :: 0 <= j < |sizes| - 1 ==> steps[j] == sizes[j]
  {
    if forall j :: 0 <= j < |sizes| ==> Sum(steps, j) == offsets[j] {
      forall j | 0 <= j < |sizes|
        ensures offsets[j] == EndOf(offsets, sizes, j)
        ensures j < |sizes| - 1 ==> steps[j] == sizes[j]
      {
        SumLags(offsets, sizes, steps, j);
        if j < |sizes| - 1 {
          assert Sum(steps, j + 1) == offsets[j + 1] >= EndOf(offsets, sizes, j + 1);
        }
      }
    }
    if Gapless(offsets, sizes, |sizes|) && forall j :: 0 <= j < |sizes| - 1 ==> steps[j] == sizes[j] {
      forall j | 0 <= j < |sizes|
        ensures Sum(steps, j) == offsets[j]
      {
        SumKeepsUp(offsets, sizes, steps, j);
      }
    }
  }

  // ---------------------------------------------------------------- structs in memory

  function Offsets(ms: seq<Member>): (offsets: seq<nat>)
    ensures |offsets| == |ms| && forall j :: 0 <= j < |ms| ==> offsets[j] == ms[j].offset
  {
    seq(|ms|, j requires 0 <= j < |ms| => ms[j].offset)
  }

  function Sizes(ms: seq<Member>): (sizes: seq<nat>)
    ensures |sizes| == |ms| && forall j :: 0 <= j < |ms| ==> sizes[j] == DeclaredSize(ms[j].typ)
  {
    seq(|ms|, j requires 0 <= j < |ms| => DeclaredSize(ms[j].typ))
  }

  /** How far the decoder's cursor moves for each member. */
  function CursorSteps(ms: seq<Member>): (steps: seq<nat>)
    ensures |steps| == |ms| && forall j :: 0 <= j < |ms| ==> steps[j] == WireSize(ms[j].typ)
  {
    seq(|ms|, j requires 0 <= j < |ms| => WireSize(ms[j].typ))
  }

  lemma {:induction false} CursorIsSum(ms: seq<Member>, j: nat)
    requires j <= |ms|
    ensures Offset(ms, j) == Sum(CursorSteps(ms), j)
  {
    if j > 0 {
      CursorIsSum(ms, j - 1);
    }
  }

  /** Where the members before `j` end. */
  function End(ms: seq<Member>, j: nat): nat
    requires j <= |ms|
  {
    EndOf(Offsets(ms), Sizes(ms), j)
  }

  /** Members of supported types, of at least one byte each. */
  predicate Sized(ms: seq<Member>) {
    forall j :: 0 <= j < |ms| ==> Supported(ms[j].typ) && DeclaredSize(ms[j].typ) > 0
  }

  /** A struct as a compiler lays it out. */
  predicate LaidOut(ms: seq<Member>) {
    Sized(ms) && InOrder(Offsets(ms), Sizes(ms))
  }

  /** No padding before or between the members. */
  predicate Packed(ms: seq<Member>) {
    Gapless(Offsets(ms), Sizes(ms), |ms|)
  }

  predicate NoFlags(ms: seq<Member>, n: int) {
    forall j :: 0 <= j < n && j < |ms| ==> !Flag(ms[j].typ)
  }

  lemma CursorShort(ms: seq<Member>)
    requires Sized(ms)
    ensures Within(CursorSteps(ms), Sizes(ms))
    ensures forall j :: 0 <= j < |ms| ==> (CursorSteps(ms)[j] == Sizes(ms)[j] <==> !Flag(ms[j].typ))
  {
    forall j | 0 <= j < |ms|
      ensures CursorSteps(ms)[j] <= Sizes(ms)[j]
      ensures CursorSteps(ms)[j] == Sizes(ms)[j] <==> !Flag(ms[j].typ)
    {
      CursorShortAtFlags(ms[j].typ);
    }
  }

  lemma CursorAtEnd(ms: seq<Member>, j: nat)
    requires Sized(ms) && j <= |ms| && Gapless(Offsets(ms), Sizes(ms), j) && NoFlags(ms, j)
    ensures Offset(ms, j) == End(ms, j)
  {
    CursorShort(ms);
    CursorIsSum(ms, j);
    SumKeepsUp(Offsets(ms), Sizes(ms), CursorSteps(ms), j);
  }

  /** Main result: the cursor is at every member's declared offset exactly when there is no padding and
      no bool or char integer before the last member. */
  lemma CursorAtOffsetsIff(ms: seq<Member>)
    requires LaidOut(ms)
    ensures (forall j :: 0 <= j < |ms| ==> Offset(ms, j) == ms[j].offset) <==> Packed(ms) && NoFlags(ms, |ms| - 1)
  {
    CursorShort(ms);
    SumsAtOffsetsIff(Offsets(ms), Sizes(ms), CursorSteps(ms));
    forall j | 0 <= j < |ms|
      ensures Offset(ms, j) == Sum(CursorSteps(ms), j)
    {
      CursorIsSum(ms, j);
    }
  }

  predicate HoldMembers(ms: seq<Member>, vs: seq<Value>) {
    |ms| == |vs| && forall j :: 0 <= j < |ms| ==> Holds(ms[j].typ, vs[j])
  }

  /** `raw` is a memory image of the struct: each value is stored at its member's offset. What lies in
      between and behind is arbitrary. */
  ghost predicate Stored(order: ByteOrder, ms: seq<Member>, vs: seq<Value>, raw: ByteString) {
    HoldMembers(ms, vs) && forall j :: 0 <= j < |ms| ==> StoredAt(order, ms[j], vs[j], raw)
  }

  ghost predicate StoredAt(order: ByteOrder, m: Member, v: Value, raw: ByteString)
    requires Holds(m.typ, v)
  {
    var end := m.offset + DeclaredSize(m.typ);
    end <= |raw| && raw[m.offset..end] == Store(order, m.typ, v)
  }

  /** Every field of the image decodes to the value stored. */
  predicate ReadsBack(order: ByteOrder, ms: seq<Member>, vs: seq<Value>, raw: ByteString)
    requires |ms| == |vs|
  {
    Decode(order, Struct(ms), raw) == Ok(Collect(ms, vs))
  }

  /** Every integer's declared bits are where the decoder looks for them. */
  predicate BitsInPlace(order: ByteOrder, ms: seq<Member>) {
    order == Little || forall j :: 0 <= j < |ms| ==> Tight(ms[j].typ)
  }

  /** The layouts the decoder is made for. */
  predicate Decodable(order: ByteOrder, ms: seq<Member>) {
    Packed(ms) && NoFlags(ms, |ms|) && BitsInPlace(order, ms) && End(ms, |ms|) < 0x1_0000_0000
  }

  lemma GaplessPrefix(offsets: seq<nat>, sizes: seq<nat>, n: nat, j: nat)
    requires InOrder(offsets, sizes) && j < n <= |sizes| && Gapless(offsets, sizes, n)
    ensures Gapless(offsets, sizes, j) && offsets[j] == EndOf(offsets, sizes, j)
    ensures offsets[j] + sizes[j] <= EndOf(offsets, sizes, n)
  {
    assert offsets[j] == EndOf(offsets, sizes, j);
    assert EndOf(offsets, sizes, j + 1) == offsets[j] + sizes[j];
    EndsGrow(offsets, sizes, j + 1, n);
  }

  lemma CursorInPlace(ms: seq<Member>, j: nat)
    requires LaidOut(ms) && Packed(ms) && NoFlags(ms, |ms|) && j < |ms|
    ensures Offset(ms, j) == ms[j].offset && ms[j].offset + DeclaredSize(ms[j].typ) <= End(ms, |ms|)
  {
    GaplessPrefix(Offsets(ms), Sizes(ms), |ms|, j);
    assert NoFlags(ms, j);
    CursorAtEnd(ms, j);
  }

  lemma MemberInPlace(order: ByteOrder, ms: seq<Member>, j: nat)
    requires LaidOut(ms) && Decodable(order, ms) && j < |ms|
    ensures Offset(ms, j) == ms[j].offset && ms[j].offset + DeclaredSize(ms[j].typ) < 0x1_0000_0000
    ensures !Flag(ms[j].typ) && (order == Little || Tight(ms[j].typ))
  {
    CursorInPlace(ms, j);
  }

  lemma MemberOfImage(order: ByteOrder, ms: seq<Member>, vs: seq<Value>, raw: ByteString, j: nat)
    requires LaidOut(ms) && Decodable(order, ms) && j < |ms| == |vs|
    requires Holds(ms[j].typ, vs[j]) && StoredAt(order, ms[j], vs[j], raw)
    ensures StructOutcomes(order, ms, raw)[j] == Ok(vs[j])
  {
    MemberInPlace(order, ms, j);
    OutcomeOfMember(Reader(order, raw), ms, |ms|, j);
    ChunkAsStored(order, ms[j], vs[j], raw);
  }

  /** A stored value is decoded at its declared offset. */
  lemma ChunkAsStored(order: ByteOrder, m: Member, v: Value, raw: ByteString)
    requires Holds(m.typ, v) && !Flag(m.typ) && (order == Little || Tight(m.typ)) && StoredAt(order, m, v, raw)
    requires m.offset + DeclaredSize(m.typ) < 0x1_0000_0000
    ensures ParseAt(order, m.typ, raw, m.offset) == Ok(v)
  {
    CursorShortAtFlags(m.typ);
    StoredAloneIff(order, m.typ, v);
  }

  lemma {:induction false} EndsGrow(offsets: seq<nat>, sizes: seq<nat>, i: nat, j: nat)
    requires InOrder(offsets, sizes) && i <= j <= |sizes|
    ensures EndOf(offsets, sizes, i) <= EndOf(offsets, sizes, j)
  {
    if i < j {
      EndsGrow(offsets, sizes, i, j - 1);
    }
  }

  lemma DecodableReadsBack(order: ByteOrder, ms: seq<Member>, vs: seq<Value>, raw: ByteString)
    requires LaidOut(ms) && Decodable(order, ms) && Stored(order, ms, vs, raw)
    ensures ReadsBack(order, ms, vs, raw)
  {
    var rs := StructOutcomes(order, ms, raw);
    forall j | 0 <= j < |ms|
      ensures rs[j] == Ok(vs[j])
    {
      assert StoredAt(order, ms[j], vs[j], raw);
      MemberOfImage(order, ms, vs, raw, j);
    }
    InSequenceSucceeds(rs);
    assert InSequence(rs).value == vs;
  }

  // ---------------------------------------------------------------- and no other layout

  /** A value of type `t` that reads back only where every value does. */
  function Sample(order: ByteOrder, t: BtfType): (v: Value)
    requires Supported(t) && DeclaredSize(t) > 0
    ensures Holds(t, v)
    ensures ReadsBackAlone(order, t, v) ==> !Flag(t) && (order == Little || Tight(t))
  {
    var u := Underlying(t);
    WordSizes();
    SampleAddress(order);
    if t.Typedef? && t.name in DURATION_NAMES then Duration(1)
    else if t.Typedef? && t.name in ADDRESS_NAMES then IP([1, 1, 1, 1])
    else if u.Float? then FloatBits(u.size, 0)
    else if u.Array? then Text([])
    else if u.encoding == Signed then Sint(u.bits / 8, 1)
    else if u.encoding == Bool then Boolean(true)
    else if u.encoding == Char then Text([1])
    else Uint(u.bits / 8, 1)
  }

  lemma SampleAddress(order: ByteOrder)
    ensures ReadWord(order, [1, 1, 1, 1]) != 0
  {
    ReadThenPut(order, [1, 1, 1, 1]);
    ZeroWord(order, ReadWord(order, [1, 1, 1, 1]), 4);
    assert Fill(4, 0)[0] == 0;
  }

  function Samples(order: ByteOrder, ms: seq<Member>): (vs: seq<Value>)
    requires LaidOut(ms)
    ensures HoldMembers(ms, vs)
  {
    seq(|ms|, j requires 0 <= j < |ms| => Sample(order, ms[j].typ))
  }

  function Lengths(chunks: seq<ByteString>): (sizes: seq<nat>)
    ensures |sizes| == |chunks| && forall j :: 0 <= j < |chunks| ==> sizes[j] == |chunks[j]|
  {
    seq(|chunks|, j requires 0 <= j < |chunks| => |chunks[j]|)
  }

  /** The first `n` chunks at their offsets, with every padding byte equal to `b`. */
  function Assembled(offsets: seq<nat>, chunks: seq<ByteString>, n: nat, b: Byte): (raw: ByteString)
    requires InOrder(offsets, Lengths(chunks)) && n <= |chunks|
    ensures |raw| == EndOf(offsets, Lengths(chunks), n)
  {
    if n == 0 then []
    else
      var before := Assembled(offsets, chunks, n - 1, b);
      assert EndOf(offsets, Lengths(chunks), n - 1) <= offsets[n - 1];
      before + (Fill(offsets[n - 1] - |before|, b) + chunks[n - 1])
  }

  /** Chunk `j` lies at its offset, after `b` if there is a gap before it. */
  predicate ChunkAt(raw: ByteString, offset: nat, chunk: ByteString, start: nat, b: Byte) {
    && offset + |chunk| <= |raw| && raw[offset..offset + |chunk|] == chunk
    && (start < offset ==> raw[start] == b)
  }

  lemma LongerKeeps(shorter: ByteString, rest: ByteString, offset: nat, chunk: ByteString, start: nat, b: Byte)
    requires ChunkAt(shorter, offset, chunk, start, b)
    ensures ChunkAt(shorter + rest, offset, chunk, start, b)
  {
    var longer, end := shorter + rest, offset + |chunk|;
    forall i | offset <= i < end
      ensures longer[i] == shorter[i]
    {
    }
    assert longer[offset..end] == shorter[offset..end];
  }

  lemma LastChunkAt(before: ByteString, offset: nat, chunk: ByteString, b: Byte)
    requires |before| <= offset
    ensures ChunkAt(before + (Fill(offset - |before|, b) + chunk), offset, chunk, |before|, b)
  {
    var gap := Fill(offset - |before|, b);
    var raw := before + (gap + chunk);
    assert raw[offset..offset + |chunk|] == chunk;
    assert |before| < offset ==> raw[|before|] == gap[0];
  }

  lemma {:induction false} AssembledAt(offsets: seq<nat>, chunks: seq<ByteString>, n: nat, b: Byte, j: nat)
    requires InOrder(offsets, Lengths(chunks)) && j < n <= |chunks|
    ensures ChunkAt(Assembled(offsets, chunks, n, b), offsets[j], chunks[j], EndOf(offsets, Lengths(chunks), j), b)
  {
    var before := Assembled(offsets, chunks, n - 1, b);
    var gap := Fill(offsets[n - 1] - |before|, b);
    if j < n - 1 {
      AssembledAt(offsets, chunks, n - 1, b, j);
      LongerKeeps(before, gap + chunks[n - 1], offsets[j], chunks[j], EndOf(offsets, Lengths(chunks), j), b);
    } else {
      LastChunkAt(before, offsets[j], chunks[j], b);
    }
  }

  function StoredChunks(order: ByteOrder, ms: seq<Member>, vs: seq<Value>): (chunks: seq<ByteString>)
    requires HoldMembers(ms, vs)
    ensures |chunks| == |ms|
    ensures forall j :: 0 <= j < |ms| ==> chunks[j] == Store(order, ms[j].typ, vs[j])
  {
    seq(|ms|, j requires 0 <= j < |ms| => Store(order, ms[j].typ, vs[j]))
  }

  lemma StoredLengths(order: ByteOrder, ms: seq<Member>, vs: seq<Value>)
    requires HoldMembers(ms, vs)
    ensures Lengths(StoredChunks(order, ms, vs)) == Sizes(ms)
  {
  }

  /** The struct in memory, with every padding byte equal to `b`. */
  function Image(order: ByteOrder, ms: seq<Member>, vs: seq<Value>, b: Byte): (raw: ByteString)
    requires LaidOut(ms) && HoldMembers(ms, vs)
  {
    StoredLengths(order, ms, vs);
    Assembled(Offsets(ms), StoredChunks(order, ms, vs), |ms|, b)
  }

  lemma ImageAt(order: ByteOrder, ms: seq<Member>, vs: seq<Value>, b: Byte, j: nat)
    requires LaidOut(ms) && HoldMembers(ms, vs) && j < |ms|
    ensures ChunkAt(Image(order, ms, vs, b), ms[j].offset, Store(order, ms[j].typ, vs[j]), End(ms, j), b)
  {
    StoredLengths(order, ms, vs);
    AssembledAt(Offsets(ms), StoredChunks(order, ms, vs), |ms|, b, j);
    assert StoredChunks(order, ms, vs)[j] == Store(order, ms[j].typ, vs[j]);
  }

  lemma ImageStores(order: ByteOrder, ms: seq<Member>, vs: seq<Value>, b: Byte)
    requires LaidOut(ms) && HoldMembers(ms, vs)
    ensures Stored(order, ms, vs, Image(order, ms, vs, b))
  {
    forall j | 0 <= j < |ms|
      ensures StoredAt(order, ms[j], vs[j], Image(order, ms, vs, b))
    {
      ImageAt(order, ms, vs, b, j);
    }
  }

  /** The first byte a member reads decides its value. */
  lemma FirstByteMatters(order: ByteOrder, t: BtfType, a: ByteString, b: ByteString)
    requires |a| == |b| == WireSize(t) > 0
    requires DecodeChunk(order, t, a).Ok? && DecodeChunk(order, t, a) == DecodeChunk(order, t, b)
    ensures a[0] == b[0]
  {
    ChunkReencodes(order, t, a);
    ChunkReencodes(order, t, b);
    CanonicalKeepsFirst(order, t, a);
    CanonicalKeepsFirst(order, t, b);
  }

  lemma CanonicalKeepsFirst(order: ByteOrder, t: BtfType, bs: ByteString)
    requires |bs| == WireSize(t) > 0 && DecodeChunk(order, t, bs).Ok?
    ensures |Canonical(t, bs)| == |bs| && Canonical(t, bs)[0] == bs[0]
  {
    ChunkDecodesExactly(order, t, bs);
  }

  /** What a decode that reads back says about member `j`. */
  lemma MemberReadsBack(order: ByteOrder, ms: seq<Member>, vs: seq<Value>, raw: ByteString, j: nat)
    requires DistinctNames(ms) && j < |ms| == |vs| && ReadsBack(order, ms, vs, raw)
    ensures TotalSize(ms) <= |raw| && TotalSize(ms) < 0x1_0000_0000
    ensures DecodeChunk(order, ms[j].typ, MemberBytes(ms, raw, j)) == Ok(vs[j])
  {
    DecodedMembersFit(order, ms, raw);
    MemberReadsItsOwnBytes(order, ms, raw, j);
    CollectedByName(ms, vs, j);
  }

  /** Two images that differ in the padding before member `j` cannot both read back. */
  lemma PaddingMisleads(order: ByteOrder, ms: seq<Member>, j: nat)
    requires LaidOut(ms) && DistinctNames(ms) && j < |ms| && Offset(ms, j) == End(ms, j) < ms[j].offset
    requires !Flag(ms[j].typ)
    ensures exists b: Byte :: !ReadsBack(order, ms, Samples(order, ms), Image(order, ms, Samples(order, ms), b))
  {
    var vs := Samples(order, ms);
    var a, b := Image(order, ms, vs, 0), Image(order, ms, vs, 1);
    ImageAt(order, ms, vs, 0, j);
    ImageAt(order, ms, vs, 1, j);
    CursorShortAtFlags(ms[j].typ);
    if ReadsBack(order, ms, vs, a) && ReadsBack(order, ms, vs, b) {
      BothReadBack(order, ms, vs, a, b, j);
      assert false;
    }
  }

  lemma BothReadBack(order: ByteOrder, ms: seq<Member>, vs: seq<Value>, a: ByteString, b: ByteString, j: nat)
    requires DistinctNames(ms) && j < |ms| == |vs| && Offset(ms, j) < Offset(ms, j + 1)
    requires ReadsBack(order, ms, vs, a) && ReadsBack(order, ms, vs, b)
    requires Offset(ms, j) < |a| && Offset(ms, j) < |b|
    ensures a[Offset(ms, j)] == b[Offset(ms, j)]
  {
    MemberReadsBack(order, ms, vs, a, j);
    MemberReadsBack(order, ms, vs, b, j);
    FirstByteMatters(order, ms[j].typ, MemberBytes(ms, a, j), MemberBytes(ms, b, j));
    FirstByteOfMember(ms, a, j);
    FirstByteOfMember(ms, b, j);
  }

  lemma FirstByteOfMember(ms: seq<Member>, raw: ByteString, j: nat)
    requires j < |ms| && TotalSize(ms) <= |raw| && Offset(ms, j) < Offset(ms, j + 1)
    ensures Offset(ms, j) < |raw| && |MemberBytes(ms, raw, j)| > 0 && MemberBytes(ms, raw, j)[0] == raw[Offset(ms, j)]
  {
    OffsetsGrow(ms, j + 1, |ms|);
  }

  /** An integer narrower than its size is misread in the high-byte-first order. */
  lemma NarrowMisleads(order: ByteOrder, ms: seq<Member>, j: nat)
    requires LaidOut(ms) && DistinctNames(ms) && Packed(ms) && NoFlags(ms, |ms|)
    requires j < |ms| && order == Big && !Tight(ms[j].typ)
    ensures !ReadsBack(order, ms, Samples(order, ms), Image(order, ms, Samples(order, ms), 0))
  {
    var vs := Samples(order, ms);
    var raw := Image(order, ms, vs, 0);
    CursorAtEnd(ms, j);
    ImageAt(order, ms, vs, 0, j);
    assert StoredAt(order, ms[j], vs[j], raw);
    NarrowSampleMisread(order, ms[j].typ);
    MisreadMemberMisleads(order, ms, vs, raw, j);
  }

  lemma MisreadMemberMisleads(order: ByteOrder, ms: seq<Member>, vs: seq<Value>, raw: ByteString, j: nat)
    requires DistinctNames(ms) && j < |ms| == |vs| && Holds(ms[j].typ, vs[j]) && !Flag(ms[j].typ)
    requires Offset(ms, j) == ms[j].offset && StoredAt(order, ms[j], vs[j], raw)
    requires DecodeChunk(order, ms[j].typ, Store(order, ms[j].typ, vs[j])) != Ok(vs[j])
    ensures !ReadsBack(order, ms, vs, raw)
  {
    if ReadsBack(order, ms, vs, raw) {
      MemberReadsBack(order, ms, vs, raw, j);
      StoredMemberBytes(order, ms, vs[j], raw, j);
      assert false;
    }
  }

  lemma NarrowSampleMisread(order: ByteOrder, t: BtfType)
    requires Supported(t) && DeclaredSize(t) > 0 && !Flag(t) && order == Big && !Tight(t)
    ensures DecodeChunk(order, t, Store(order, t, Sample(order, t))) != Ok(Sample(order, t))
  {
    StoredAloneIff(order, t, Sample(order, t));
  }

  lemma StoredMemberBytes(order: ByteOrder, ms: seq<Member>, v: Value, raw: ByteString, j: nat)
    requires j < |ms| && TotalSize(ms) <= |raw| && Holds(ms[j].typ, v) && !Flag(ms[j].typ)
    requires Offset(ms, j) == ms[j].offset && StoredAt(order, ms[j], v, raw)
    ensures MemberBytes(ms, raw, j) == Store(order, ms[j].typ, v)
  {
    CursorShortAtFlags(ms[j].typ);
  }

  lemma FlagMisleads(order: ByteOrder, ms: seq<Member>, raw: ByteString, j: nat)
    requires LaidOut(ms) && DistinctNames(ms) && j < |ms| && Flag(ms[j].typ)
    ensures !ReadsBack(order, ms, Samples(order, ms), raw)
  {
    var vs := Samples(order, ms);
    if ReadsBack(order, ms, vs, raw) {
      MemberReadsBack(order, ms, vs, raw, j);
      CursorShortAtFlags(ms[j].typ);
      FlagDecodes(order, ms[j].typ, vs[j]);
      assert false;
    }
  }

  lemma {:induction false} FirstGap(offsets: seq<nat>, sizes: seq<nat>, n: nat) returns (j: nat)
    requires InOrder(offsets, sizes) && n <= |sizes| && !Gapless(offsets, sizes, n)
    ensures j < n && Gapless(offsets, sizes, j) && EndOf(offsets, sizes, j) < offsets[j]
  {
    if Gapless(offsets, sizes, n - 1) {
      j := n - 1;
    } else {
      j := FirstGap(offsets, sizes, n - 1);
    }
  }

  /** Main result: the decoder returns what was stored, for all values and all memory around them,
      exactly when the struct has no padding and no bool or char integer. */
  lemma StructReadsBackIff(order: ByteOrder, ms: seq<Member>)
    requires LaidOut(ms) && DistinctNames(ms)
    ensures (forall vs, raw :: Stored(order, ms, vs, raw) ==> ReadsBack(order, ms, vs, raw)) <==> Decodable(order, ms)
  {
    if Decodable(order, ms) {
      forall vs, raw | Stored(order, ms, vs, raw)
        ensures ReadsBack(order, ms, vs, raw)
      {
        DecodableReadsBack(order, ms, vs, raw);
      }
    } else {
      var b := Misread(order, ms);
      ImageStores(order, ms, Samples(order, ms), b);
    }
  }

  /** An image that does not read back. */
  lemma Misread(order: ByteOrder, ms: seq<Member>) returns (b: Byte)
    requires LaidOut(ms) && DistinctNames(ms) && !Decodable(order, ms)
    ensures !ReadsBack(order, ms, Samples(order, ms), Image(order, ms, Samples(order, ms), b))
  {
    b := 0;
    var raw := Image(order, ms, Samples(order, ms), 0);
    if j :| 0 <= j < |ms| && Flag(ms[j].typ) {
      FlagMisleads(order, ms, raw, j);
    } else if !Packed(ms) {
      var k := FirstGap(Offsets(ms), Sizes(ms), |ms|);
      CursorAtEnd(ms, k);
      PaddingMisleads(order, ms, k);
      b :| !ReadsBack(order, ms, Samples(order, ms), Image(order, ms, Samples(order, ms), b));
    } else if j :| 0 <= j < |ms| && order == Big && !Tight(ms[j].typ) {
      NarrowMisleads(order, ms, j);
    } else {
      CursorAtEnd(ms, |ms|);
      TooLongMisleads(order, ms, Samples(order, ms), raw);
    }
  }

  lemma TooLongMisleads(order: ByteOrder, ms: seq<Member>, vs: seq<Value>, raw: ByteString)
    requires |ms| == |vs| && TotalSize(ms) >= 0x1_0000_0000
    ensures !ReadsBack(order, ms, vs, raw)
  {
    if InSequence(StructOutcomes(order, ms, raw)).Ok? {
      DecodedMembersFit(order, ms, raw);
      assert false;
    }
  }

  // ---------------------------------------------------------------- two structs

  const BOOL_TYPE: BtfType := Int("_Bool", 1, Bool, 8)
  const U8_TYPE: BtfType := Int("unsigned char", 1, Unsigned, 8)
  const U32_TYPE: BtfType := Typedef("u32", Typedef("__u32", Int("unsigned int", 4, Unsigned, 32)))
  const DURATION_TYPE: BtfType :=
    Typedef("duration", Typedef("u64", Typedef("__u64", Int("long long unsigned int", 8, Unsigned, 64))))

  /** A flag is lost, and its neighbour reads the flag's byte. */
  lemma FlagSwallowsNeighbour(order: ByteOrder)
    ensures var ms := [Member("ok", BOOL_TYPE, 0), Member("code", U8_TYPE, 1)];
            && Stored(order, ms, [Boolean(true), Uint(1, 7)], [1, 7])
            && Decode(order, Struct(ms), [1, 7]) == Ok(map["ok" := Boolean(false), "code" := Uint(1, 1)])
  {
    FlagExampleStored(order);
    FlagExampleRead(order, [Member("ok", BOOL_TYPE, 0), Member("code", U8_TYPE, 1)]);
  }

  lemma FlagExampleStored(order: ByteOrder)
    ensures Stored(order, [Member("ok", BOOL_TYPE, 0), Member("code", U8_TYPE, 1)], [Boolean(true), Uint(1, 7)], [1, 7])
  {
    OneByteWord(order, 1);
    OneByteWord(order, 7);
    assert [1, 7][0..1] == [1] && [1, 7][1..2] == [7] && Zeros(0) == [];
    assert StoredAt(order, Member("ok", BOOL_TYPE, 0), Boolean(true), [1, 7]);
    assert StoredAt(order, Member("code", U8_TYPE, 1), Uint(1, 7), [1, 7]);
  }

  lemma FlagExampleRead(order: ByteOrder, ms: seq<Member>)
    requires |ms| == 2 && DistinctNames(ms) && ms[0].typ == BOOL_TYPE && ms[1].typ == U8_TYPE
    ensures Decode(order, Struct(ms), [1, 7]) == Ok(map[ms[0].name := Boolean(false), ms[1].name := Uint(1, 1)])
  {
    var raw, vs := [1, 7], [Boolean(false), Uint(1, 1)];
    FlagReadsNothing(order, raw);
    var rs := StructOutcomes(order, ms, raw);
    OutcomeOfMember(Reader(order, raw), ms, 2, 0);
    OutcomeOfMember(Reader(order, raw), ms, 2, 1);
    InSequenceSucceeds(rs);
    assert InSequence(rs).value == vs;
    CollectedByName(ms, vs, 0);
    CollectedByName(ms, vs, 1);
    CollectedKeys(ms, vs);
    assert Collect(ms, vs) == map[ms[0].name := vs[0], ms[1].name := vs[1]];
  }

  lemma FlagReadsNothing(order: ByteOrder, raw: ByteString)
    requires |raw| > 0 && raw[0] == 1
    ensures WireSize(BOOL_TYPE) == 0
    ensures ParseAt(order, BOOL_TYPE, raw, 0) == Ok(Boolean(false))
    ensures ParseAt(order, U8_TYPE, raw, 0) == Ok(Uint(1, 1))
  {
    var bs := raw[0..1];
    assert bs == [1] && bs[..1] == [1];
    OneByteWord(order, 1);
    assert DecodeInt(order, false, 8, bs) == Ok(Uint(1, 1));
  }

  lemma OneByteWord(order: ByteOrder, b: Byte)
    ensures PutWord(order, b, 1) == [b] && ReadWord(order, [b]) == b
  {
    assert LittleBytes(b, 1) == [b] && Reverse([b]) == [b];
    WordSizes();
    PutThenRead(order, b, 1);
  }

  /** `struct event_t` of the kprobetcp example, with `uptime` at byte `at`. */
  function KprobeTcpEvent(at: nat): seq<Member> {
    [Member("pid", U32_TYPE, 0), Member("uid", U32_TYPE, 4), Member("type", U32_TYPE, 8), Member("uptime", DURATION_TYPE, at)]
  }

  lemma KprobeTcpLayout(order: ByteOrder, at: nat)
    requires at >= 12
    ensures var ms := KprobeTcpEvent(at);
            LaidOut(ms) && DistinctNames(ms) && (Decodable(order, ms) <==> at == 12)
  {
    var ms := KprobeTcpEvent(at);
    assert Underlying(U32_TYPE) == Int("unsigned int", 4, Unsigned, 32);
    assert Underlying(DURATION_TYPE) == Int("long long unsigned int", 8, Unsigned, 64);
    assert DeclaredSize(U32_TYPE) == 4 && Supported(U32_TYPE) && !Flag(U32_TYPE) && Tight(U32_TYPE);
    assert DeclaredSize(DURATION_TYPE) == 8 && Supported(DURATION_TYPE) && !Flag(DURATION_TYPE) && Tight(DURATION_TYPE);
    assert ms[3].offset == at && End(ms, 3) == 12;
  }

  /** The example depends on its `packed` attribute: at its natural alignment, byte 16, `uptime` would be
      misread. */
  lemma PackedAttributeMatters(order: ByteOrder)
    ensures forall vs, raw :: Stored(order, KprobeTcpEvent(12), vs, raw) ==> ReadsBack(order, KprobeTcpEvent(12), vs, raw)
    ensures exists vs, raw :: Stored(order, KprobeTcpEvent(16), vs, raw) && !ReadsBack(order, KprobeTcpEvent(16), vs, raw)
  {
    KprobeTcpLayout(order, 12);
    KprobeTcpLayout(order, 16);
    StructReadsBackIff(order, KprobeTcpEvent(12));
    StructReadsBackIff(order, KprobeTcpEvent(16));
  }
}
