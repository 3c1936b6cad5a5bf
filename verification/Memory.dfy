/** Single values as a program stores them in memory, and exactly which of them the decoder reads back. */
module Memory {
  import opened Outcomes
  import opened Bytes
  import opened Btf
  import opened Decoding
  import opened RoundTrip

  /** An integer the decoder skips without advancing. */
  predicate Flag(t: BtfType) {
    var u := Underlying(t);
    u.Int? && (u.encoding == Bool || u.encoding == Char) && u.size > 0
  }

  /** How many bytes a value of a supported type takes in memory. */
  function DeclaredSize(t: BtfType): nat {
    var u := Underlying(t);
    if u.Int? || u.Float? then u.size else if u.Array? then u.nelems else 0
  }

  /** The cursor falls short of a value's size exactly at flags. */
  lemma CursorShortAtFlags(t: BtfType)
    requires Supported(t)
    ensures WireSize(t) == if Flag(t) then 0 else DeclaredSize(t)
  {
  }

  /** The values a program can store in a member of type `t`. */
  predicate Holds(t: BtfType, v: Value) {
    && Supported(t)
    && if !Flag(t) then Fits(t, v)
       else if Underlying(t).encoding == Bool then v.Boolean?
       else v.Text? && |v.chars| <= DeclaredSize(t) && 0 !in v.chars
  }

  // ---------------------------------------------------------------- integers

  /** An integer the decoder reads. */
  predicate IntValue(u: BtfType, p: Value) {
    u.Int? && u.encoding != Bool && u.encoding != Char && SupportedPlain(u) && FitsPlain(u, p)
  }

  /** The word of the declared bits. */
  function Word(p: Value): nat
    requires p.Uint? || (p.Sint? && FitsSigned(p.v, p.width))
  {
    if p.Uint? then p.n else FromSigned(p.v, p.width)
  }

  lemma SignedFitsWider(v: int, width: nat, size: nat)
    requires FitsSigned(v, width) && width <= size
    ensures FitsSigned(v, size)
  {
    ModulusGrows(width, size);
  }

  /** An integer in memory takes its whole declared size, whatever its declared bits. */
  function StoreInt(order: ByteOrder, u: BtfType, p: Value): (bs: ByteString)
    requires IntValue(u, p)
    ensures |bs| == u.size
  {
    if p.Uint? then PutWord(order, p.n, u.size)
    else
      SignedFitsWider(p.v, p.width, u.size);
      PutWord(order, FromSigned(p.v, u.size), u.size)
  }

  /** Its most significant bytes repeat the sign. */
  function Filler(p: Value): Byte {
    if p.Sint? && p.v < 0 then 255 else 0
  }

  lemma StoreIntExtends(order: ByteOrder, u: BtfType, p: Value)
    requires IntValue(u, p)
    ensures u.bits / 8 <= u.size && Word(p) < Modulus(u.bits / 8)
    ensures StoreInt(order, u, p) == Extended(order, PutWord(order, Word(p), u.bits / 8), u.size, Filler(p))
  {
    var width := u.bits / 8;
    if p.Sint? && p.v < 0 {
      NegativeExtends(order, p.v, width, u.size);
    } else {
      WordExtends(order, Word(p), width, u.size);
    }
  }

  /** The decoder reads an integer off its first `bits / 8` bytes alone. */
  lemma IntReadsIff(order: ByteOrder, u: BtfType, p: Value, bs: ByteString)
    requires IntValue(u, p) && |bs| == u.size
    ensures u.bits / 8 <= u.size
    ensures DecodePlain(order, u, bs) == Ok(p) <==> bs[..u.bits / 8] == PutWord(order, Word(p), u.bits / 8)
  {
    var width := u.bits / 8;
    var word := bs[..width];
    WordReencodes(order, width, word);
    PutThenRead(order, Word(p), width);
    assert DecodePlain(order, u, bs) == DecodeInt(order, u.encoding == Signed, u.bits, bs);
    if p.Sint? {
      assert DecodePlain(order, u, bs) == Ok(Sint(width, ToSigned(ReadWord(order, word), width)));
    } else {
      assert DecodePlain(order, u, bs) == Ok(Uint(width, ReadWord(order, word)));
    }
  }

  /** All bytes of the value are alike. */
  predicate Uniform(p: Value) {
    (p.Uint? && p.n == 0) || (p.Sint? && (p.v == 0 || p.v == -1))
  }

  lemma UniformWord(order: ByteOrder, u: BtfType, p: Value)
    requires IntValue(u, p)
    ensures PutWord(order, Word(p), u.bits / 8) == Fill(u.bits / 8, Filler(p)) <==> Uniform(p)
  {
    if p.Sint? && p.v < 0 {
      OnesWord(order, p.v, u.bits / 8);
    } else {
      ZeroWord(order, Word(p), u.bits / 8);
    }
  }

  /** A stored integer reads back exactly when its declared bits come first: they fill its size, the low
      byte does, or the value's bytes are all alike. */
  lemma StoredIntReadsBackIff(order: ByteOrder, u: BtfType, p: Value)
    requires IntValue(u, p)
    ensures DecodePlain(order, u, StoreInt(order, u, p)) == Ok(p) <==> order == Little || u.bits == 8 * u.size || Uniform(p)
  {
    StoreIntExtends(order, u, p);
    IntReadsIff(order, u, p, StoreInt(order, u, p));
    ExtendedPrefix(order, PutWord(order, Word(p), u.bits / 8), u.size, Filler(p));
    UniformWord(order, u, p);
  }

  // ---------------------------------------------------------------- any value

  /** The bytes a program stores for `v`. */
  function Store(order: ByteOrder, t: BtfType, v: Value): (bs: ByteString)
    requires Holds(t, v)
    ensures |bs| == DeclaredSize(t)
  {
    var u := Underlying(t);
    if Flag(t) then
      if v.Boolean? then PutWord(order, if v.b then 1 else 0, u.size) else v.chars + Zeros(u.size - |v.chars|)
    else
      CursorShortAtFlags(t);
      ChunkRoundTrip(order, t, v);
      UnpresentThenPresent(order, t, v);
      if IntValue(u, Unpresent(order, t, v)) then StoreInt(order, u, Unpresent(order, t, v)) else Encode(order, t, v)
  }

  /** What the decoder returns for every flag. */
  predicate Blank(v: Value) {
    v == Boolean(false) || v == Text([])
  }

  /** The values that read back from where they are stored. */
  predicate ReadsBackAlone(order: ByteOrder, t: BtfType, v: Value) {
    if Flag(t) then Blank(v) else order == Little || Tight(t) || Uniform(Unpresent(order, t, v))
  }

  lemma FlagDecodes(order: ByteOrder, t: BtfType, v: Value)
    requires Supported(t) && Flag(t) && Holds(t, v)
    ensures DecodeChunk(order, t, []) == Ok(if Underlying(t).encoding == Bool then Boolean(false) else Text([]))
    ensures DecodeChunk(order, t, []) == Ok(v) <==> Blank(v)
  {
  }

  /** Decoding yields `v` exactly when it yields the plain value behind it. */
  lemma PlainDecides(order: ByteOrder, t: BtfType, v: Value, bs: ByteString)
    requires Fits(t, v) && |bs| == WireSize(t)
    ensures DecodeChunk(order, t, bs) == Ok(v) <==> DecodePlain(order, Underlying(t), bs) == Ok(Unpresent(order, t, v))
  {
    var r := DecodePlain(order, Underlying(t), bs);
    ChunkPresents(order, t, bs);
    if r.Ok? {
      PlainReencodes(order, Underlying(t), bs);
      PresentDecides(order, t, v, r.value);
    }
  }

  lemma ChunkPresents(order: ByteOrder, t: BtfType, bs: ByteString)
    ensures var r := DecodePlain(order, Underlying(t), bs);
            DecodeChunk(order, t, bs) == if r.Ok? && t.Typedef? then Present(t.name, order, r.value) else r
  {
  }

  lemma PresentDecides(order: ByteOrder, t: BtfType, v: Value, plain: Value)
    requires Fits(t, v) && FitsPlain(Underlying(t), plain)
    ensures (if t.Typedef? then Present(t.name, order, plain) else Ok(plain)) == Ok(v) <==> plain == Unpresent(order, t, v)
  {
    UnpresentThenPresent(order, t, v);
    if t.Typedef? {
      PresentThenUnpresent(order, t, plain);
    }
  }

  /** Main result for one value: what a program stored is what the decoder reads, exactly when the type
      is not a bool or char integer (or the value is the zero of one) and its declared bits come first (or
      its bytes are all alike). */
  lemma StoredValueReadsBackIff(order: ByteOrder, t: BtfType, v: Value)
    requires Holds(t, v)
    ensures WireSize(t) <= DeclaredSize(t)
    ensures DecodeChunk(order, t, Store(order, t, v)[..WireSize(t)]) == Ok(v) <==> ReadsBackAlone(order, t, v)
  {
    CursorShortAtFlags(t);
    if Flag(t) {
      FlagDecodes(order, t, v);
    } else {
      StoredAloneIff(order, t, v);
      assert Store(order, t, v)[..WireSize(t)] == Store(order, t, v);
    }
  }

  lemma StoredAloneIff(order: ByteOrder, t: BtfType, v: Value)
    requires Holds(t, v) && !Flag(t)
    ensures |Store(order, t, v)| == WireSize(t)
    ensures DecodeChunk(order, t, Store(order, t, v)) == Ok(v) <==> ReadsBackAlone(order, t, v)
  {
    var u, p := Underlying(t), Unpresent(order, t, v);
    CursorShortAtFlags(t);
    UnpresentThenPresent(order, t, v);
    if IntValue(u, p) {
      PlainDecides(order, t, v, Store(order, t, v));
      StoredIntReadsBackIff(order, u, p);
    } else {
      ChunkRoundTrip(order, t, v);
    }
  }

  /** Main result for types decoded on their own, such as a hash map's value, whatever follows. */
  lemma StoredSingleReadsBackIff(order: ByteOrder, t: BtfType, v: Value, padding: ByteString)
    requires TopLevelSingle(t) && Holds(t, v)
    ensures Decode(order, t, Store(order, t, v) + padding) == Ok(map["" := v]) <==> ReadsBackAlone(order, t, v)
  {
    StoredValueReadsBackIff(order, t, v);
    PaddedSingle(order, t, Store(order, t, v), padding, v);
  }

  lemma PaddedSingle(order: ByteOrder, t: BtfType, stored: ByteString, padding: ByteString, v: Value)
    requires TopLevelSingle(t) && WireSize(t) <= |stored|
    ensures Decode(order, t, stored + padding) == Ok(map["" := v]) <==> DecodeChunk(order, t, stored[..WireSize(t)]) == Ok(v)
  {
    PrefixOfSum(stored, padding, WireSize(t));
    SingleReadsIff(order, t, stored + padding, v);
  }

  lemma PrefixOfSum(a: ByteString, b: ByteString, n: nat)
    requires n <= |a|
    ensures (a + b)[0..n] == a[..n]
  {
  }

  lemma SingleReadsIff(order: ByteOrder, t: BtfType, raw: ByteString, v: Value)
    requires TopLevelSingle(t) && WireSize(t) <= |raw|
    ensures Decode(order, t, raw) == Ok(map["" := v]) <==> DecodeChunk(order, t, raw[0..WireSize(t)]) == Ok(v)
  {
    var r := ParseAt(order, t, raw, 0);
    assert r == DecodeChunk(order, t, raw[0..WireSize(t)]);
    if r.Ok? {
      SameSingle(r.value, v);
    }
  }

  lemma SameSingle(v: Value, w: Value)
    ensures map["" := v] == map["" := w] <==> v == w
  {
    assert map["" := v][""] == v && map["" := w][""] == w;
  }

  /** The number 1 as a 16-bit field of a 4-byte integer reads back as 0 when the high byte comes first. */
  lemma NarrowIsMisread()
    ensures var t := Int("unsigned int", 4, Unsigned, 16);
            && Holds(t, Uint(2, 1)) && Store(Big, t, Uint(2, 1)) == [0, 0, 0, 1]
            && DecodeChunk(Big, t, [0, 0, 0, 1]) == Ok(Uint(2, 0))
  {
    WordSizes();
    assert LittleBytes(1, 4) == [1, 0, 0, 0];
    assert PutWord(Big, 1, 4) == [0, 0, 0, 1];
    assert [0, 0, 0, 1][..2] == [0, 0] && Reverse([0, 0]) == [0, 0];
    assert LittleValue([0, 0]) == 0;
  }
}
