/** What the decoder guarantees: when it succeeds, which bytes each member reads, and that it
    inverts an encoder in both byte orders. */
module RoundTrip {
  import opened Outcomes
  import opened Bytes
  import opened Btf
  import opened Decoding

  // ---------------------------------------------------------------- exactly when decoding succeeds

  predicate IsUnsignedInt(t: BtfType) {
    t.Int? && t.encoding in {Unsigned, Mixed}
  }

  predicate SupportedPlain(u: BtfType) {
    match u
    case Int(_, size, encoding, bits) => encoding in {Bool, Char} || (bits in {8, 16, 32, 64} && bits <= 8 * size)
    case Float(size) => size == 4 || size == 8
    case Array(_, _) => IsCharArray(u)
    case _ => false
  }

  /** The member types the decoder accepts. */
  predicate Supported(t: BtfType) {
    var u := Underlying(t);
    && SupportedPlain(u)
    && (t.Typedef? && t.name in DURATION_NAMES ==> IsUnsignedInt(u) && u.bits == 64)
    && (t.Typedef? && t.name in ADDRESS_NAMES ==> IsUnsignedInt(u) && u.bits == 32)
  }

  /** A char array without a terminating NUL is the only ill-formed content. */
  predicate Terminated(t: BtfType, bs: ByteString) {
    IsCharArray(Underlying(t)) ==> 0 in bs
  }

  lemma ChunkDecodesExactly(order: ByteOrder, t: BtfType, bs: ByteString)
    requires |bs| == WireSize(t)
    ensures DecodeChunk(order, t, bs).Ok? <==> Supported(t) && Terminated(t, bs)
  {
    var u := Underlying(t);
    match u
    case Int(_, _, encoding, _) =>
      match encoding {
        case Signed =>
        case Bool =>
        case Char =>
        case _ =>
      }
    case _ =>
  }

  /** The bytes of member `j`: they start at the sum of the sizes before it. */
  function MemberBytes(ms: seq<Member>, raw: ByteString, j: nat): (bs: ByteString)
    requires j < |ms| && TotalSize(ms) <= |raw|
    ensures |bs| == WireSize(ms[j].typ)
  {
    OffsetsGrow(ms, j + 1, |ms|);
    raw[Offset(ms, j)..Offset(ms, j + 1)]
  }

  lemma {:induction false} OffsetsGrow(ms: seq<Member>, i: nat, j: nat)
    requires i <= j <= |ms|
    ensures Offset(ms, i) <= Offset(ms, j)
  {
    if i < j {
      OffsetsGrow(ms, i, j - 1);
    }
  }

  /** The outcome of every member of a struct held in `raw`. */
  function StructOutcomes(order: ByteOrder, ms: seq<Member>, raw: ByteString): (rs: seq<Outcome<Value>>)
    ensures |rs| == |ms|
  {
    MemberOutcomes(Reader(order, raw), ms, |ms|)
  }

  lemma MemberOutcomeFromItsBytes(order: ByteOrder, ms: seq<Member>, raw: ByteString, j: nat)
    requires j < |ms| && TotalSize(ms) <= |raw| && TotalSize(ms) < 0x1_0000_0000
    ensures StructOutcomes(order, ms, raw)[j] == DecodeChunk(order, ms[j].typ, MemberBytes(ms, raw, j))
  {
    OutcomeOfMember(Reader(order, raw), ms, |ms|, j);
    OffsetsGrow(ms, j + 1, |ms|);
  }

  lemma DecodedMembersFit(order: ByteOrder, ms: seq<Member>, raw: ByteString)
    requires InSequence(StructOutcomes(order, ms, raw)).Ok?
    ensures TotalSize(ms) <= |raw| && TotalSize(ms) < 0x1_0000_0000
  {
    if |ms| > 0 {
      InSequenceSucceeds(StructOutcomes(order, ms, raw));
      OutcomeOfMember(Reader(order, raw), ms, |ms|, |ms| - 1);
    }
  }

  /** A struct decodes exactly when it fits the buffer (and the `uint32` cursor), every member
      type is supported and every char array is terminated. */
  lemma StructDecodesExactly(order: ByteOrder, ms: seq<Member>, raw: ByteString)
    ensures Decode(order, Struct(ms), raw).Ok? <==>
            && TotalSize(ms) <= |raw| && TotalSize(ms) < 0x1_0000_0000
            && (forall j :: 0 <= j < |ms| ==> Supported(ms[j].typ) && Terminated(ms[j].typ, MemberBytes(ms, raw, j)))
  {
    var rs := StructOutcomes(order, ms, raw);
    InSequenceSucceeds(rs);
    if InSequence(rs).Ok? {
      DecodedMembersFit(order, ms, raw);
    }
    if TotalSize(ms) <= |raw| && TotalSize(ms) < 0x1_0000_0000 {
      forall j | 0 <= j < |ms|
        ensures rs[j].Ok? <==> Supported(ms[j].typ) && Terminated(ms[j].typ, MemberBytes(ms, raw, j))
      {
        MemberOutcomeFromItsBytes(order, ms, raw, j);
        ChunkDecodesExactly(order, ms[j].typ, MemberBytes(ms, raw, j));
      }
    }
  }

  /** The bytes of member `j` lie in the buffer and below the end of the `uint32` cursor. */
  predicate Reaches(ms: seq<Member>, raw: ByteString, j: nat)
    requires j < |ms|
  {
    Offset(ms, j + 1) <= |raw| && Offset(ms, j + 1) < 0x1_0000_0000
  }

  /** Reading member `j` panics: the slice is out of range, or a string has no NUL. */
  predicate Panics(ms: seq<Member>, raw: ByteString, j: nat)
    requires j < |ms|
  {
    Reaches(ms, raw, j) ==> !Terminated(ms[j].typ, raw[Offset(ms, j)..Offset(ms, j + 1)])
  }

  /** Members `0..j` decode. */
  predicate ReadsUpTo(ms: seq<Member>, raw: ByteString, j: nat)
    requires j <= |ms|
  {
    forall i :: 0 <= i < j ==> Supported(ms[i].typ) && !Panics(ms, raw, i)
  }

  lemma ParseOutcome(order: ByteOrder, ms: seq<Member>, raw: ByteString, j: nat)
    requires j < |ms|
    ensures var r := StructOutcomes(order, ms, raw)[j];
            && (r.Crash? <==> Panics(ms, raw, j))
            && (r.Ok? <==> Supported(ms[j].typ) && !Panics(ms, raw, j))
  {
    OutcomeOfMember(Reader(order, raw), ms, |ms|, j);
    if Reaches(ms, raw, j) {
      var bs := raw[Offset(ms, j)..Offset(ms, j + 1)];
      ChunkDecodesExactly(order, ms[j].typ, bs);
      ChunkCrashesExactly(order, ms[j].typ, bs);
    }
  }

  lemma ChunkCrashesExactly(order: ByteOrder, t: BtfType, bs: ByteString)
    ensures DecodeChunk(order, t, bs).Crash? <==> !Terminated(t, bs)
  {
  }

  /** Main result: decoding a struct panics exactly when the first member that does not decode is out
      of range or an unterminated string, and returns an error value exactly when that member is in
      range, terminated, and of an unsupported type. */
  lemma StructFailsExactly(order: ByteOrder, ms: seq<Member>, raw: ByteString)
    ensures Decode(order, Struct(ms), raw).Crash? <==>
            exists j :: 0 <= j < |ms| && ReadsUpTo(ms, raw, j) && Panics(ms, raw, j)
    ensures Decode(order, Struct(ms), raw).Err? <==>
            exists j :: 0 <= j < |ms| && ReadsUpTo(ms, raw, j) && !Panics(ms, raw, j) && !Supported(ms[j].typ)
  {
    var rs := StructOutcomes(order, ms, raw);
    forall j | 0 <= j < |ms|
      ensures rs[j].Crash? <==> Panics(ms, raw, j)
      ensures rs[j].Ok? <==> Supported(ms[j].typ) && !Panics(ms, raw, j)
    {
      ParseOutcome(order, ms, raw, j);
    }
    if InSequence(rs).Ok? {
      InSequenceSucceeds(rs);
      assert forall j :: 0 <= j < |ms| ==> !Panics(ms, raw, j) && Supported(ms[j].typ);
    } else {
      var first := FirstFailureDecides(rs);
      assert ReadsUpTo(ms, raw, first);
      forall j | 0 <= j < |ms| && ReadsUpTo(ms, raw, j) && !rs[j].Ok?
        ensures j == first
      {
      }
    }
  }

  // ---------------------------------------------------------------- which bytes matter

  predicate DistinctNames(ms: seq<Member>) {
    forall i, j :: 0 <= i < j < |ms| ==> ms[i].name != ms[j].name
  }

  lemma {:induction false} CollectedByName(ms: seq<Member>, vs: seq<Value>, j: nat)
    requires j < |ms| == |vs| && DistinctNames(ms)
    ensures ms[j].name in Collect(ms, vs)
    ensures Collect(ms, vs)[ms[j].name] == vs[j]
  {
    var last := |ms| - 1;
    if j < last {
      CollectedByName(ms[..last], vs[..last], j);
    }
  }

  /** Each member's value is a function of its own slice of the buffer. */
  lemma MemberReadsItsOwnBytes(order: ByteOrder, ms: seq<Member>, raw: ByteString, j: nat)
    requires j < |ms| && DistinctNames(ms) && Decode(order, Struct(ms), raw).Ok?
    ensures TotalSize(ms) <= |raw| && ms[j].name in Decode(order, Struct(ms), raw).value
    ensures DecodeChunk(order, ms[j].typ, MemberBytes(ms, raw, j))
            == Ok(Decode(order, Struct(ms), raw).value[ms[j].name])
  {
    var rs := StructOutcomes(order, ms, raw);
    DecodedMembersFit(order, ms, raw);
    InSequenceSucceeds(rs);
    MemberOutcomeFromItsBytes(order, ms, raw, j);
    CollectedByName(ms, InSequence(rs).value, j);
  }

  lemma MembersIgnoreTrailing(order: ByteOrder, ms: seq<Member>, raw: ByteString, extra: ByteString)
    requires !InSequence(StructOutcomes(order, ms, raw)).Crash?
    ensures InSequence(StructOutcomes(order, ms, raw + extra)) == InSequence(StructOutcomes(order, ms, raw))
  {
    var rs, others := StructOutcomes(order, ms, raw), StructOutcomes(order, ms, raw + extra);
    forall j | 0 <= j < |ms| && !rs[j].Crash?
      ensures others[j] == rs[j]
    {
      OutcomeOfMember(Reader(order, raw), ms, |ms|, j);
      OutcomeOfMember(Reader(order, raw + extra), ms, |ms|, j);
      ChunkIgnoresTrailing(order, ms[j].typ, raw, extra, Offset(ms, j));
    }
    InSequenceAgrees(rs, others);
  }

  lemma ChunkIgnoresTrailing(order: ByteOrder, t: BtfType, raw: ByteString, extra: ByteString, off: nat)
    requires !ParseAt(order, t, raw, off).Crash?
    ensures ParseAt(order, t, raw + extra, off) == ParseAt(order, t, raw, off)
  {
    var end := off + WireSize(t);
    assert (raw + extra)[off..end] == raw[off..end];
  }

  /** Whatever follows the bytes a successful or rejected decode looked at has no effect. */
  lemma TrailingBytesIgnored(order: ByteOrder, t: BtfType, raw: ByteString, extra: ByteString)
    requires !Decode(order, t, raw).Crash?
    ensures Decode(order, t, raw + extra) == Decode(order, t, raw)
  {
    if t.Struct? {
      MembersIgnoreTrailing(order, t.members, raw, extra);
    } else if TopLevelSingle(t) {
      ChunkIgnoresTrailing(order, t, raw, extra, 0);
    }
  }

  // ---------------------------------------------------------------- the encoder

  function Zeros(n: nat): (z: ByteString)
    ensures |z| == n && forall i :: 0 <= i < n ==> z[i] == 0
  {
    Fill(n, 0)
  }

  predicate FitsWord(n: nat, width: nat) {
    n < Modulus(width)
  }

  predicate FitsSigned(v: int, width: nat) {
    width > 0 && -Modulus(width) <= 2 * v < Modulus(width)
  }

  predicate FitsPlain(u: BtfType, v: Value) {
    match u
    case Int(_, _, encoding, bits) =>
      (match encoding
       case Signed => v.Sint? && v.width == bits / 8 && FitsSigned(v.v, v.width)
       case Bool => v == Boolean(false)
       case Char => v == Text([])
       case _ => v.Uint? && v.width == bits / 8 && FitsWord(v.n, v.width))
    case Float(size) => v.FloatBits? && v.width == size && FitsWord(v.bits, size)
    case Array(_, nelems) => v.Text? && |v.chars| < nelems && 0 !in v.chars
    case _ => false
  }

  /** The Go values a member of type `t` can hold. */
  predicate Fits(t: BtfType, v: Value) {
    && Supported(t)
    && if t.Typedef? && t.name in DURATION_NAMES then v.Duration? && FitsSigned(v.ns, 8)
       else if t.Typedef? && t.name in ADDRESS_NAMES then v.IP? && |v.addr| == 4
       else FitsPlain(Underlying(t), v)
  }

  function EncodePlain(order: ByteOrder, u: BtfType, v: Value): ByteString
    requires SupportedPlain(u) && FitsPlain(u, v)
  {
    match v
    case Uint(width, n) => PutWord(order, n, width) + Zeros(u.size - width)
    case Sint(width, x) => PutWord(order, FromSigned(x, width), width) + Zeros(u.size - width)
    case FloatBits(width, bits) => PutWord(order, bits, width)
    case Text(chars) => if u.Array? then chars + Zeros(u.nelems - |chars|) else []
    case _ => []
  }

  /** The plain value behind a duration or an address. */
  function Unpresent(order: ByteOrder, t: BtfType, v: Value): Value {
    if t.Typedef? && t.name in DURATION_NAMES && v.Duration? && FitsSigned(v.ns, 8) then Uint(8, FromSigned(v.ns, 8))
    else if t.Typedef? && t.name in ADDRESS_NAMES && v.IP? then Uint(4, ReadWord(order, v.addr))
    else v
  }

  lemma UnpresentThenPresent(order: ByteOrder, t: BtfType, v: Value)
    requires Fits(t, v)
    ensures FitsPlain(Underlying(t), Unpresent(order, t, v))
    ensures t.Typedef? ==> Present(t.name, order, Unpresent(order, t, v)) == Ok(v)
    ensures !t.Typedef? ==> Unpresent(order, t, v) == v
  {
    if t.Typedef? && t.name in DURATION_NAMES {
      DurationForth(v.ns);
    } else if t.Typedef? && t.name in ADDRESS_NAMES {
      ReadThenPut(order, v.addr);
    }
  }

  lemma DurationForth(ns: int)
    requires FitsSigned(ns, 8)
    ensures FitsPlain(Int("", 8, Unsigned, 64), Uint(8, FromSigned(ns, 8)))
    ensures AsDuration(Uint(8, FromSigned(ns, 8))) == Ok(Duration(ns))
  {
  }

  lemma PresentThenUnpresent(order: ByteOrder, t: BtfType, plain: Value)
    requires t.Typedef? && Supported(t) && FitsPlain(Underlying(t), plain)
    ensures Present(t.name, order, plain).Ok?
    ensures Fits(t, Present(t.name, order, plain).value)
    ensures Unpresent(order, t, Present(t.name, order, plain).value) == plain
  {
    if t.name in DURATION_NAMES {
      PlainWord(Underlying(t), plain);
      DurationBack(plain.n);
    } else if t.name in ADDRESS_NAMES {
      PlainWord(Underlying(t), plain);
      AddressBack(order, plain.n);
    }
  }

  lemma PlainWord(u: BtfType, plain: Value)
    requires IsUnsignedInt(u) && FitsPlain(u, plain)
    ensures plain.Uint? && plain.width == u.bits / 8 && FitsWord(plain.n, plain.width)
  {
  }

  lemma AddressBack(order: ByteOrder, n: nat)
    requires FitsWord(n, 4)
    ensures var r := AsAddress(order, Uint(4, n));
            r.Ok? && r.value.IP? && |r.value.addr| == 4 && ReadWord(order, r.value.addr) == n
  {
    PutThenRead(order, n, 4);
  }

  lemma DurationBack(n: nat)
    requires FitsWord(n, 8)
    ensures AsDuration(Uint(8, n)) == Ok(Duration(ToSigned(n, 8)))
    ensures FitsSigned(ToSigned(n, 8), 8) && FromSigned(ToSigned(n, 8), 8) == n
  {
  }

  /** The bytes the cursor moves over to yield `v`. They are those a probe stores, except that
      integers encoded bool or char yield their zero value from no bytes at all. */
  function Encode(order: ByteOrder, t: BtfType, v: Value): ByteString
    requires Fits(t, v)
  {
    UnpresentThenPresent(order, t, v);
    EncodePlain(order, Underlying(t), Unpresent(order, t, v))
  }

  lemma IntRoundTrip(order: ByteOrder, signed: bool, bits: Byte, n: nat, rest: ByteString)
    requires bits in {8, 16, 32, 64} && n < Modulus(bits / 8)
    ensures DecodeInt(order, signed, bits, PutWord(order, n, bits / 8) + rest)
            == Ok(if signed then Sint(bits / 8, ToSigned(n, bits / 8)) else Uint(bits / 8, n))
  {
    var width := bits / 8;
    assert (PutWord(order, n, width) + rest)[..width] == PutWord(order, n, width);
    PutThenRead(order, n, width);
  }

  lemma PlainRoundTrip(order: ByteOrder, u: BtfType, v: Value)
    requires !u.Typedef? && SupportedPlain(u) && FitsPlain(u, v)
    ensures |EncodePlain(order, u, v)| == WireSize(u)
    ensures DecodePlain(order, u, EncodePlain(order, u, v)) == Ok(v)
  {
    if u.Float? {
      FloatRoundTrip(order, u, v);
    } else if u.Array? {
      ArrayRoundTrip(order, u, v);
    } else if u.encoding.Signed? {
      SintRoundTrip(order, u, v);
    } else if IsUnsignedInt(u) {
      UintRoundTrip(order, u, v);
    } else {
      SkippedRoundTrip(order, u, v);
    }
  }

  lemma FloatRoundTrip(order: ByteOrder, u: BtfType, v: Value)
    requires u.Float? && SupportedPlain(u) && FitsPlain(u, v)
    ensures |EncodePlain(order, u, v)| == WireSize(u)
    ensures DecodePlain(order, u, EncodePlain(order, u, v)) == Ok(v)
  {
    PutThenRead(order, v.bits, u.size);
  }

  lemma ArrayRoundTrip(order: ByteOrder, u: BtfType, v: Value)
    requires u.Array? && SupportedPlain(u) && FitsPlain(u, v)
    ensures |EncodePlain(order, u, v)| == WireSize(u)
    ensures DecodePlain(order, u, EncodePlain(order, u, v)) == Ok(v)
  {
    CharsRoundTrip(v.chars, u.nelems);
  }

  lemma SkippedRoundTrip(order: ByteOrder, u: BtfType, v: Value)
    requires u.Int? && (u.encoding.Bool? || u.encoding.Char?) && FitsPlain(u, v)
    ensures SupportedPlain(u) && |EncodePlain(order, u, v)| == WireSize(u)
    ensures DecodePlain(order, u, EncodePlain(order, u, v)) == Ok(v)
  {
  }

  lemma SintRoundTrip(order: ByteOrder, u: BtfType, v: Value)
    requires u.Int? && u.encoding == Signed && SupportedPlain(u) && FitsPlain(u, v)
    ensures |EncodePlain(order, u, v)| == WireSize(u)
    ensures DecodePlain(order, u, EncodePlain(order, u, v)) == Ok(v)
  {
    IntRoundTrip(order, true, u.bits, FromSigned(v.v, v.width), Zeros(u.size - v.width));
  }

  lemma UintRoundTrip(order: ByteOrder, u: BtfType, v: Value)
    requires IsUnsignedInt(u) && SupportedPlain(u) && FitsPlain(u, v)
    ensures |EncodePlain(order, u, v)| == WireSize(u)
    ensures DecodePlain(order, u, EncodePlain(order, u, v)) == Ok(v)
  {
    IntRoundTrip(order, false, u.bits, v.n, Zeros(u.size - v.width));
  }

  lemma CharsRoundTrip(chars: ByteString, size: nat)
    requires |chars| < size && 0 !in chars
    ensures var bs := chars + Zeros(size - |chars|); 0 in bs && UpToNul(bs) == chars
  {
    var bs := chars + Zeros(size - |chars|);
    assert bs[..|chars|] == chars && bs[|chars|] == 0;
    FirstNul(bs, |chars|);
  }

  /** Decoding what was encoded gives the value back, in either byte order. */
  lemma ChunkRoundTrip(order: ByteOrder, t: BtfType, v: Value)
    requires Fits(t, v)
    ensures |Encode(order, t, v)| == WireSize(t)
    ensures DecodeChunk(order, t, Encode(order, t, v)) == Ok(v)
  {
    UnpresentThenPresent(order, t, v);
    PlainRoundTrip(order, Underlying(t), Unpresent(order, t, v));
  }

  /** No surplus bytes beyond the declared bit width. */
  predicate Tight(t: BtfType) {
    var u := Underlying(t);
    u.Int? && u.encoding !in {Bool, Char} ==> u.bits == 8 * u.size
  }

  /** The bytes `binary.Read` looks at: all but those beyond an integer's declared bit width. */
  function LookedAt(t: BtfType, n: nat): nat {
    var u := Underlying(t);
    if u.Int? && u.encoding !in {Bool, Char} && u.bits <= 8 * n then u.bits / 8 else n
  }

  /** Forget what follows the first NUL of a char array and what lies beyond an integer's bit width;
      nothing else is ever forgotten. */
  function Canonical(t: BtfType, bs: ByteString): ByteString {
    if IsCharArray(Underlying(t)) then UpToNul(bs) + Zeros(|bs| - |UpToNul(bs)|)
    else bs[..LookedAt(t, |bs|)] + Zeros(|bs| - LookedAt(t, |bs|))
  }

  lemma CanonicalWhenTight(t: BtfType, bs: ByteString)
    requires Tight(t) && |bs| == WireSize(t) && !IsCharArray(Underlying(t))
    ensures Canonical(t, bs) == bs
  {
  }

  lemma IntReencodes(order: ByteOrder, signed: bool, bits: Byte, bs: ByteString)
    requires bits in {8, 16, 32, 64} && bits / 8 <= |bs|
    ensures var v := DecodeInt(order, signed, bits, bs);
            v.Ok? && if signed then v.value.Sint? && v.value.width == bits / 8 && FitsSigned(v.value.v, bits / 8)
                                   && PutWord(order, FromSigned(v.value.v, bits / 8), bits / 8) == bs[..bits / 8]
                     else v.value.Uint? && v.value.width == bits / 8 && FitsWord(v.value.n, bits / 8)
                          && PutWord(order, v.value.n, bits / 8) == bs[..bits / 8]
  {
    WordReencodes(order, bits / 8, bs[..bits / 8]);
  }

  lemma WordReencodes(order: ByteOrder, width: nat, bs: ByteString)
    requires width > 0 && |bs| == width
    ensures var n := ReadWord(order, bs);
            && FitsWord(n, width) && FitsSigned(ToSigned(n, width), width)
            && FromSigned(ToSigned(n, width), width) == n
            && PutWord(order, n, width) == bs
  {
    ReadThenPut(order, bs);
  }

  lemma IntTypeReencodes(order: ByteOrder, u: BtfType, bs: ByteString)
    requires u.Int? && u.encoding !in {Bool, Char} && |bs| == u.size && DecodePlain(order, u, bs).Ok?
    ensures SupportedPlain(u) && FitsPlain(u, DecodePlain(order, u, bs).value)
    ensures EncodePlain(order, u, DecodePlain(order, u, bs).value) == bs[..u.bits / 8] + Zeros(u.size - u.bits / 8)
  {
    assert DecodePlain(order, u, bs) == DecodeInt(order, u.encoding == Signed, u.bits, bs);
    if u.encoding == Signed {
      SintReencodes(order, u, bs);
    } else {
      UintReencodes(order, u, bs);
    }
  }

  lemma SintReencodes(order: ByteOrder, u: BtfType, bs: ByteString)
    requires u.Int? && u.encoding == Signed && |bs| == u.size && DecodeInt(order, true, u.bits, bs).Ok?
    ensures var v := DecodeInt(order, true, u.bits, bs).value;
            SupportedPlain(u) && FitsPlain(u, v) && EncodePlain(order, u, v) == bs[..u.bits / 8] + Zeros(u.size - u.bits / 8)
  {
    var v := DecodeInt(order, true, u.bits, bs).value;
    IntReencodes(order, true, u.bits, bs);
    assert EncodePlain(order, u, v) == PutWord(order, FromSigned(v.v, v.width), v.width) + Zeros(u.size - v.width);
  }

  lemma UintReencodes(order: ByteOrder, u: BtfType, bs: ByteString)
    requires IsUnsignedInt(u) && |bs| == u.size && DecodeInt(order, false, u.bits, bs).Ok?
    ensures var v := DecodeInt(order, false, u.bits, bs).value;
            SupportedPlain(u) && FitsPlain(u, v) && EncodePlain(order, u, v) == bs[..u.bits / 8] + Zeros(u.size - u.bits / 8)
  {
    var v := DecodeInt(order, false, u.bits, bs).value;
    IntReencodes(order, false, u.bits, bs);
    assert EncodePlain(order, u, v) == PutWord(order, v.n, v.width) + Zeros(u.size - v.width);
  }

  lemma PlainReencodes(order: ByteOrder, u: BtfType, bs: ByteString)
    requires !u.Typedef? && |bs| == WireSize(u) && DecodePlain(order, u, bs).Ok?
    ensures SupportedPlain(u) && FitsPlain(u, DecodePlain(order, u, bs).value)
    ensures EncodePlain(order, u, DecodePlain(order, u, bs).value) == Canonical(u, bs)
  {
    ChunkDecodesExactly(order, u, bs);
    if u.Int? {
      if u.encoding !in {Bool, Char} {
        IntTypeReencodes(order, u, bs);
      }
    } else if u.Float? {
      ReadThenPut(order, bs);
    }
  }

  /** A decoded value is one the type can hold, and re-encoding it restores the consumed bytes. */
  lemma ChunkReencodes(order: ByteOrder, t: BtfType, bs: ByteString)
    requires |bs| == WireSize(t) && DecodeChunk(order, t, bs).Ok?
    ensures Fits(t, DecodeChunk(order, t, bs).value)
    ensures Encode(order, t, DecodeChunk(order, t, bs).value) == Canonical(t, bs)
  {
    var u := Underlying(t);
    ChunkDecodesExactly(order, t, bs);
    PlainReencodes(order, u, bs);
    if t.Typedef? {
      PresentThenUnpresent(order, t, DecodePlain(order, u, bs).value);
    }
  }

  // ---------------------------------------------------------------- structs

  predicate FitMembers(ms: seq<Member>, vs: seq<Value>) {
    |ms| == |vs| && forall j :: 0 <= j < |ms| ==> Fits(ms[j].typ, vs[j])
  }

  function Concat(chunks: seq<ByteString>): ByteString {
    if |chunks| == 0 then [] else Concat(chunks[..|chunks| - 1]) + chunks[|chunks| - 1]
  }

  lemma {:induction false} ChunksFill(ms: seq<Member>, chunks: seq<ByteString>, i: nat)
    requires |chunks| == |ms| && i <= |ms|
    requires forall j :: 0 <= j < |ms| ==> |chunks[j]| == WireSize(ms[j].typ)
    ensures |Concat(chunks[..i])| == Offset(ms, i)
  {
    if i > 0 {
      ChunksFill(ms, chunks, i - 1);
      assert chunks[..i][..i - 1] == chunks[..i - 1];
    }
  }

  /** Consecutive chunks of the members' sizes lie at the members' offsets. */
  lemma {:induction false} ChunkAtOffset(ms: seq<Member>, chunks: seq<ByteString>, i: nat, j: nat)
    requires |chunks| == |ms| && j < i <= |ms|
    requires forall j :: 0 <= j < |ms| ==> |chunks[j]| == WireSize(ms[j].typ)
    ensures Offset(ms, j + 1) <= Offset(ms, i) == |Concat(chunks[..i])|
    ensures Concat(chunks[..i])[Offset(ms, j)..Offset(ms, j + 1)] == chunks[j]
  {
    ChunksFill(ms, chunks, i);
    ChunksFill(ms, chunks, i - 1);
    assert chunks[..i][..i - 1] == chunks[..i - 1];
    if j < i - 1 {
      ChunkAtOffset(ms, chunks, i - 1, j);
      assert Concat(chunks[..i])[Offset(ms, j)..Offset(ms, j + 1)]
          == Concat(chunks[..i - 1])[Offset(ms, j)..Offset(ms, j + 1)];
    }
  }

  /** Cutting a buffer at the members' offsets and joining the pieces changes nothing. */
  lemma {:induction false} SlicesJoined(ms: seq<Member>, raw: ByteString, chunks: seq<ByteString>, i: nat)
    requires |chunks| == |ms| && i <= |ms| && TotalSize(ms) <= |raw|
    requires forall j :: 0 <= j < |ms| ==> chunks[j] == MemberBytes(ms, raw, j)
    ensures Offset(ms, i) <= |raw| && Concat(chunks[..i]) == raw[..Offset(ms, i)]
  {
    OffsetsGrow(ms, i, |ms|);
    if i > 0 {
      SlicesJoined(ms, raw, chunks, i - 1);
      assert chunks[..i][..i - 1] == chunks[..i - 1];
    }
  }

  function EncodedChunks(order: ByteOrder, ms: seq<Member>, vs: seq<Value>): (chunks: seq<ByteString>)
    requires FitMembers(ms, vs)
    ensures |chunks| == |ms|
  {
    seq(|ms|, j requires 0 <= j < |ms| => Encode(order, ms[j].typ, vs[j]))
  }

  /** The bytes the cursor moves over for a whole struct. */
  function EncodeMembers(order: ByteOrder, ms: seq<Member>, vs: seq<Value>): ByteString
    requires FitMembers(ms, vs)
  {
    Concat(EncodedChunks(order, ms, vs))
  }

  lemma EncodedMember(order: ByteOrder, ms: seq<Member>, vs: seq<Value>)
    requires FitMembers(ms, vs)
    ensures |EncodeMembers(order, ms, vs)| == TotalSize(ms)
    ensures forall j :: 0 <= j < |ms| ==> MemberBytes(ms, EncodeMembers(order, ms, vs), j) == EncodedChunks(order, ms, vs)[j]
  {
    var chunks := EncodedChunks(order, ms, vs);
    forall j | 0 <= j < |ms|
      ensures |chunks[j]| == WireSize(ms[j].typ)
    {
      ChunkRoundTrip(order, ms[j].typ, vs[j]);
    }
    assert chunks[..|ms|] == chunks;
    ChunksFill(ms, chunks, |ms|);
    forall j | 0 <= j < |ms|
      ensures MemberBytes(ms, EncodeMembers(order, ms, vs), j) == chunks[j]
    {
      ChunkAtOffset(ms, chunks, |ms|, j);
    }
  }

  /** The consumed bytes of a struct decode to its field values. */
  lemma ConsumedBytesRoundTrip(order: ByteOrder, ms: seq<Member>, vs: seq<Value>)
    requires FitMembers(ms, vs) && DistinctNames(ms) && TotalSize(ms) < 0x1_0000_0000
    ensures Decode(order, Struct(ms), EncodeMembers(order, ms, vs)) == Ok(Collect(ms, vs))
    ensures forall j :: 0 <= j < |ms| ==> ms[j].name in Collect(ms, vs) && Collect(ms, vs)[ms[j].name] == vs[j]
  {
    var raw := EncodeMembers(order, ms, vs);
    EncodedMember(order, ms, vs);
    var rs := StructOutcomes(order, ms, raw);
    forall j | 0 <= j < |ms|
      ensures rs[j] == Ok(vs[j])
      ensures ms[j].name in Collect(ms, vs) && Collect(ms, vs)[ms[j].name] == vs[j]
    {
      MemberOutcomeFromItsBytes(order, ms, raw, j);
      ChunkRoundTrip(order, ms[j].typ, vs[j]);
      CollectedByName(ms, vs, j);
    }
    InSequenceSucceeds(rs);
    assert InSequence(rs).value == vs;
  }

  /** And so they do with any trailing padding. */
  lemma StructRoundTrip(order: ByteOrder, ms: seq<Member>, vs: seq<Value>, padding: ByteString)
    requires FitMembers(ms, vs) && DistinctNames(ms) && TotalSize(ms) < 0x1_0000_0000
    ensures Decode(order, Struct(ms), EncodeMembers(order, ms, vs) + padding) == Ok(Collect(ms, vs))
    ensures forall j :: 0 <= j < |ms| ==> ms[j].name in Collect(ms, vs) && Collect(ms, vs)[ms[j].name] == vs[j]
  {
    ConsumedBytesRoundTrip(order, ms, vs);
    TrailingBytesIgnored(order, Struct(ms), EncodeMembers(order, ms, vs), padding);
  }

  /** The member values of a decoded struct, in declaration order. */
  function FieldValues(ms: seq<Member>, m: map<string, Value>): (vs: seq<Value>)
    requires forall x :: x in ms ==> x.name in m
    ensures |vs| == |ms|
  {
    seq(|ms|, j requires 0 <= j < |ms| => m[ms[j].name])
  }

  function CanonicalChunks(ms: seq<Member>, raw: ByteString): (chunks: seq<ByteString>)
    requires TotalSize(ms) <= |raw|
    ensures |chunks| == |ms|
  {
    seq(|ms|, j requires 0 <= j < |ms| => Canonical(ms[j].typ, MemberBytes(ms, raw, j)))
  }

  function CanonicalMembers(ms: seq<Member>, raw: ByteString): ByteString
    requires TotalSize(ms) <= |raw|
  {
    Concat(CanonicalChunks(ms, raw))
  }

  lemma MemberFits(order: ByteOrder, ms: seq<Member>, raw: ByteString, j: nat)
    requires j < |ms| && DistinctNames(ms) && Decode(order, Struct(ms), raw).Ok?
    ensures ms[j].name in Decode(order, Struct(ms), raw).value
    ensures Fits(ms[j].typ, Decode(order, Struct(ms), raw).value[ms[j].name])
  {
    MemberReadsItsOwnBytes(order, ms, raw, j);
    ChunkReencodes(order, ms[j].typ, MemberBytes(ms, raw, j));
  }

  /** A decoded struct holds, under every member's name, a value that member can hold. */
  lemma DecodedMembersAreLegal(order: ByteOrder, ms: seq<Member>, raw: ByteString)
    requires DistinctNames(ms) && Decode(order, Struct(ms), raw).Ok?
    ensures TotalSize(ms) <= |raw|
    ensures forall x :: x in ms ==> x.name in Decode(order, Struct(ms), raw).value
    ensures FitMembers(ms, FieldValues(ms, Decode(order, Struct(ms), raw).value))
  {
    DecodedMembersFit(order, ms, raw);
    forall j | 0 <= j < |ms|
      ensures ms[j].name in Decode(order, Struct(ms), raw).value
      ensures Fits(ms[j].typ, Decode(order, Struct(ms), raw).value[ms[j].name])
    {
      MemberFits(order, ms, raw, j);
    }
  }

  lemma ChunkRestored(order: ByteOrder, ms: seq<Member>, raw: ByteString, vs: seq<Value>, j: nat)
    requires j < |ms| && DistinctNames(ms) && Decode(order, Struct(ms), raw).Ok? && TotalSize(ms) <= |raw|
    requires FitMembers(ms, vs) && ms[j].name in Decode(order, Struct(ms), raw).value
    requires vs[j] == Decode(order, Struct(ms), raw).value[ms[j].name]
    ensures EncodedChunks(order, ms, vs)[j] == CanonicalChunks(ms, raw)[j]
  {
    MemberReadsItsOwnBytes(order, ms, raw, j);
    ChunkReencodes(order, ms[j].typ, MemberBytes(ms, raw, j));
  }

  /** The field values of a decoded struct are the only ones that collect to it. */
  lemma DecodedIsCollected(order: ByteOrder, ms: seq<Member>, raw: ByteString)
    requires DistinctNames(ms) && Decode(order, Struct(ms), raw).Ok?
    ensures forall x :: x in ms ==> x.name in Decode(order, Struct(ms), raw).value
    ensures Decode(order, Struct(ms), raw).value == Collect(ms, FieldValues(ms, Decode(order, Struct(ms), raw).value))
  {
    var vs := InSequence(StructOutcomes(order, ms, raw)).value;
    assert Decode(order, Struct(ms), raw).value == Collect(ms, vs);
    FieldValuesCollected(ms, vs);
  }

  lemma FieldValuesCollected(ms: seq<Member>, vs: seq<Value>)
    requires DistinctNames(ms) && |ms| == |vs|
    ensures forall x :: x in ms ==> x.name in Collect(ms, vs)
    ensures FieldValues(ms, Collect(ms, vs)) == vs
  {
    forall j | 0 <= j < |ms|
      ensures ms[j].name in Collect(ms, vs) && Collect(ms, vs)[ms[j].name] == vs[j]
    {
      CollectedByName(ms, vs, j);
    }
  }

  /** Main result: re-encoding a decoded struct restores the consumed bytes, except those of a char
      array after its first NUL and those beyond an integer's declared bit width. */
  lemma StructReencodes(order: ByteOrder, ms: seq<Member>, raw: ByteString)
    requires DistinctNames(ms) && Decode(order, Struct(ms), raw).Ok?
    ensures TotalSize(ms) <= |raw|
    ensures forall x :: x in ms ==> x.name in Decode(order, Struct(ms), raw).value
    ensures var vs := FieldValues(ms, Decode(order, Struct(ms), raw).value);
            FitMembers(ms, vs) && EncodeMembers(order, ms, vs) == CanonicalMembers(ms, raw)
  {
    DecodedMembersAreLegal(order, ms, raw);
    var vs := FieldValues(ms, Decode(order, Struct(ms), raw).value);
    var encoded, canonical := EncodedChunks(order, ms, vs), CanonicalChunks(ms, raw);
    forall j | 0 <= j < |ms|
      ensures encoded[j] == canonical[j]
    {
      ChunkRestored(order, ms, raw, vs, j);
    }
    assert encoded == canonical;
  }

  /** Without char arrays and surplus integer bytes every consumed byte is restored. */
  lemma CanonicalWithoutArrays(ms: seq<Member>, raw: ByteString)
    requires TotalSize(ms) <= |raw|
    requires forall j :: 0 <= j < |ms| ==> !IsCharArray(Underlying(ms[j].typ)) && Tight(ms[j].typ)
    ensures CanonicalMembers(ms, raw) == raw[..TotalSize(ms)]
  {
    var chunks := CanonicalChunks(ms, raw);
    forall j | 0 <= j < |ms|
      ensures chunks[j] == MemberBytes(ms, raw, j)
    {
      CanonicalWhenTight(ms[j].typ, MemberBytes(ms, raw, j));
    }
    SlicesJoined(ms, raw, chunks, |ms|);
    assert chunks[..|ms|] == chunks;
  }

  /** The same for types decoded on their own, such as a hash map's value. */
  lemma SingleRoundTrip(order: ByteOrder, t: BtfType, v: Value, padding: ByteString)
    requires TopLevelSingle(t) && Fits(t, v)
    ensures Decode(order, t, Encode(order, t, v) + padding) == Ok(map["" := v])
  {
    ChunkRoundTrip(order, t, v);
    SingleDecodes(order, t, Encode(order, t, v));
    TrailingBytesIgnored(order, t, Encode(order, t, v), padding);
  }

  lemma SingleDecodes(order: ByteOrder, t: BtfType, bs: ByteString)
    requires TopLevelSingle(t) && |bs| == WireSize(t) && DecodeChunk(order, t, bs).Ok?
    ensures Decode(order, t, bs) == Ok(map["" := DecodeChunk(order, t, bs).value])
  {
    assert bs[0..WireSize(t)] == bs;
  }

  // ---------------------------------------------------------------- addresses and typedef chains

  /** A typedef of a typedef of ... `base`, outermost name first. */
  function Chain(names: seq<string>, base: BtfType): BtfType {
    if |names| == 0 then base else Typedef(names[0], Chain(names[1..], base))
  }

  lemma {:induction false} ChainEnds(names: seq<string>, base: BtfType)
    requires !base.Typedef?
    ensures Underlying(Chain(names, base)) == base
  {
    if |names| > 0 {
      ChainEnds(names[1..], base);
    }
  }

  /** A chain of any depth behaves as its outermost typedef alone. */
  lemma OnlyOutermostNameMatters(order: ByteOrder, names: seq<string>, base: BtfType, raw: ByteString, off: nat)
    requires |names| > 0 && !base.Typedef?
    ensures ParseAt(order, Chain(names, base), raw, off) == ParseAt(order, Typedef(names[0], base), raw, off)
  {
    ChainEnds(names, base);
    SameNameSameBase(order, Chain(names, base), Typedef(names[0], base), raw, off);
  }

  lemma SameNameSameBase(order: ByteOrder, a: BtfType, b: BtfType, raw: ByteString, off: nat)
    requires a.Typedef? && b.Typedef? && a.name == b.name && Underlying(a) == Underlying(b)
    ensures ParseAt(order, a, raw, off) == ParseAt(order, b, raw, off)
  {
    assert WireSize(a) == WireSize(b);
  }

  /** An address decodes to its raw bytes in memory order, whatever the byte order. */
  lemma AddressBytesInMemoryOrder(order: ByteOrder, names: seq<string>, base: BtfType, bs: ByteString)
    requires |names| > 0 && names[0] in ADDRESS_NAMES
    requires IsUnsignedInt(base) && base.bits == 32 && 4 <= base.size == |bs|
    ensures DecodeChunk(order, Chain(names, base), bs) == Ok(IP(bs[..4]))
  {
    ChainEnds(names, base);
    WordAsAddress(order, base, bs);
    assert DecodeChunk(order, Chain(names, base), bs) == AsAddress(order, DecodePlain(order, base, bs).value);
  }

  lemma WordAsAddress(order: ByteOrder, base: BtfType, bs: ByteString)
    requires IsUnsignedInt(base) && base.bits == 32 && 4 <= base.size == |bs|
    ensures var r := DecodePlain(order, base, bs);
            r.Ok? && AsAddress(order, r.value) == Ok(IP(bs[..4]))
  {
    ReadThenPut(order, bs[..4]);
    assert DecodePlain(order, base, bs) == DecodeInt(order, false, 32, bs) == Ok(Uint(4, ReadWord(order, bs[..4])));
  }
}
