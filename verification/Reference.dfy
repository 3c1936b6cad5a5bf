/** What the decoder makes of each kind of type, stated from the bytes and the type's own fields. */
module Reference {
  import opened Outcomes
  import opened Bytes
  import opened Btf
  import opened Decoding

  // ---------------------------------------------------------------- words

  /** The bytes of `bs` are the base-256 digits of `n`: the least significant one comes first or last. */
  ghost predicate IsWord(order: ByteOrder, bs: ByteString, n: nat) {
    && n < Modulus(|bs|)
    && forall i :: 0 <= i < |bs| ==> bs[if order == Little then i else |bs| - 1 - i] == n / Modulus(i) % 256
  }

  lemma {:induction false} LittleDigits(bs: ByteString, i: nat)
    requires i < |bs|
    ensures LittleValue(bs) / Modulus(i) % 256 == bs[i]
  {
    var n, rest := LittleValue(bs), LittleValue(bs[1..]);
    assert n == bs[0] + 256 * rest;
    if i > 0 {
      LittleDigits(bs[1..], i - 1);
      DivideTwice(n, Modulus(i - 1));
      assert n / 256 == rest;
    }
  }

  lemma DivideTwice(n: nat, m: nat)
    requires m > 0
    ensures n / (256 * m) == n / 256 / m
  {
    var q, r, s := n / 256 / m, n / 256 % m, n % 256;
    assert n == 256 * (n / 256) + s && n / 256 == m * q + r;
    assert 256 * (m * q) == (256 * m) * q;
    QuotientIs(n, 256 * m, q, 256 * r + s);
  }

  lemma QuotientIs(n: nat, d: nat, q: nat, r: nat)
    requires n == d * q + r && r < d
    ensures n / d == q
  {
    var p, s := n / d, n % d;
    assert d * p + s == d * q + r;
    Multiples(d, p, q, s, r);
  }

  lemma Multiples(d: nat, p: nat, q: nat, s: nat, r: nat)
    requires d * p + s == d * q + r && s < d && r < d
    ensures p == q
  {
    if p < q {
      assert d * q == d * p + d * (q - p);
      AtLeastOnce(d, q - p);
    } else if q < p {
      assert d * p == d * q + d * (p - q);
      AtLeastOnce(d, p - q);
    }
  }

  lemma AtLeastOnce(d: nat, k: nat)
    requires k > 0
    ensures d * k >= d
  {
    assert d * k == d * (k - 1) + d;
  }

  /** Main result: a word is read by its digits, in either byte order. */
  lemma ReadWordIsWord(order: ByteOrder, bs: ByteString)
    ensures IsWord(order, bs, ReadWord(order, bs))
  {
    ReadThenPut(order, bs);
    var little := if order == Little then bs else Reverse(bs);
    forall i | 0 <= i < |bs|
      ensures bs[if order == Little then i else |bs| - 1 - i] == ReadWord(order, bs) / Modulus(i) % 256
    {
      LittleDigits(little, i);
    }
  }

  /** And written by them. */
  lemma PutWordIsWord(order: ByteOrder, n: nat, width: nat)
    requires n < Modulus(width)
    ensures IsWord(order, PutWord(order, n, width), n)
  {
    PutThenRead(order, n, width);
    ReadWordIsWord(order, PutWord(order, n, width));
  }

  // ---------------------------------------------------------------- integers and floats

  /** `x` is the two's complement reading of the `width`-byte word `n`. */
  predicate IsSignedReading(x: int, n: nat, width: nat) {
    -Modulus(width) <= 2 * x < Modulus(width) && (x == n || x == n - Modulus(width))
  }

  /** Main result: an integer of 8, 16, 32 or 64 bits is its first bytes, read as a word; whatever its
      size holds beyond them is skipped. */
  lemma IntegersDecode(order: ByteOrder, t: BtfType, width: nat, bs: ByteString) returns (n: nat)
    requires t.Int? && (width == 1 || width == 2 || width == 4 || width == 8) && t.bits == 8 * width
    requires width <= t.size == |bs|
    ensures IsWord(order, bs[..width], n)
    ensures t.encoding == Unsigned || t.encoding == Mixed ==> DecodePlain(order, t, bs) == Ok(Uint(width, n))
    ensures t.encoding == Signed ==>
              var r := DecodePlain(order, t, bs);
              r.Ok? && r.value.Sint? && r.value.width == width && IsSignedReading(r.value.v, n, width)
  {
    n := ReadWord(order, bs[..width]);
    ReadWordIsWord(order, bs[..width]);
    IntIsWord(order, t.encoding == Signed, t.bits, bs);
  }

  lemma IntIsWord(order: ByteOrder, signed: bool, bits: Byte, bs: ByteString)
    requires (bits == 8 || bits == 16 || bits == 32 || bits == 64) && bits / 8 <= |bs|
    ensures var width := bits / 8;
            var n := ReadWord(order, bs[..width]);
            && n < Modulus(width)
            && DecodeInt(order, signed, bits, bs) == Ok(if signed then Sint(width, ToSigned(n, width)) else Uint(width, n))
  {
    var word := bs[..bits / 8];
    ReadThenPut(order, word);
    assert |word| == bits / 8;
  }

  /** Main result: which integers are rejected, and how. */
  lemma IntegersRejected(order: ByteOrder, t: BtfType, bs: ByteString)
    requires t.Int? && (t.encoding == Signed || t.encoding == Unsigned || t.encoding == Mixed) && |bs| == t.size
    ensures DecodePlain(order, t, bs) == Err(UnknownWidth)
            <==> t.bits != 8 && t.bits != 16 && t.bits != 32 && t.bits != 64
    ensures DecodePlain(order, t, bs) == Err(ShortRead)
            <==> (t.bits == 8 || t.bits == 16 || t.bits == 32 || t.bits == 64) && 8 * t.size < t.bits
  {
  }

  /** A float is the bit pattern of its 4 or 8 bytes; no other size is read. */
  lemma FloatsDecode(order: ByteOrder, size: nat, bs: ByteString) returns (n: nat)
    requires |bs| == size < 0x1_0000_0000
    ensures IsWord(order, bs, n)
    ensures DecodePlain(order, Float(size), bs)
            == if size == 4 || size == 8 then Ok(FloatBits(size, n)) else Err(UnknownWidth)
  {
    n := ReadWord(order, bs);
    ReadWordIsWord(order, bs);
  }

  // ---------------------------------------------------------------- strings

  /** Main result: of all arrays, exactly those of one-byte integers named "char" are read, as the bytes
      before the first NUL; a missing NUL is a panic, and each other array has its own error. */
  lemma ArraysDecode(order: ByteOrder, t: BtfType, bs: ByteString)
    requires t.Array?
    ensures var r := DecodePlain(order, t, bs);
            if !t.elem.Int? then r == Err(NotAnIntArray)
            else if t.elem.name != "char" then r == Err(NotACharArray)
            else if t.elem.size != 1 then r == Err(WrongCharSize)
            else if 0 !in bs then r == Crash
            else exists k :: 0 <= k < |bs| && bs[k] == 0 && 0 !in bs[..k] && r == Ok(Text(bs[..k]))
  {
    if 0 in bs {
      var k := |UpToNul(bs)|;
      assert bs[k] == 0 && bs[..k] == UpToNul(bs);
    }
    CharIsChar(if t.elem.Int? then t.elem.name else "");
  }

  lemma CharIsChar(name: string)
    ensures name in CHAR_NAMES <==> name == "char"
  {
  }

  // ---------------------------------------------------------------- typedefs

  lemma SpecialNames(name: string)
    ensures name in DURATION_NAMES <==> name == "duration"
    ensures name in ADDRESS_NAMES <==> name == "ipv4_addr" || name == "ipv6_addr"
  {
  }

  /** Main result: the outermost typedef name alone decides. A "duration" is a 64-bit unsigned integer read
      as signed nanoseconds, an "ipv4_addr" or "ipv6_addr" a 32-bit one written out as four bytes;
      either is an error over any other value, and every other name changes nothing. */
  lemma NamesDecide(order: ByteOrder, t: BtfType, bs: ByteString)
    requires t.Typedef?
    ensures var plain, r := DecodePlain(order, Underlying(t), bs), DecodeChunk(order, t, bs);
            && (!plain.Ok? ==> r == plain)
            && (plain.Ok? && t.name == "duration" ==>
                  if plain.value.Uint? && plain.value.width == 8
                  then r.Ok? && r.value.Duration? && IsSignedReading(r.value.ns, plain.value.n % Modulus(8), 8)
                  else r == Err(NotUint64))
            && (plain.Ok? && (t.name == "ipv4_addr" || t.name == "ipv6_addr") ==>
                  if plain.value.Uint? && plain.value.width == 4
                  then r == Ok(IP(PutWord(order, plain.value.n, 4)))
                  else r == Err(NotUint32))
            && (plain.Ok? && t.name != "duration" && t.name != "ipv4_addr" && t.name != "ipv6_addr" ==> r == plain)
  {
    SpecialNames(t.name);
    NamesDiffer();
  }

  lemma NamesDiffer()
    ensures "duration" != "ipv4_addr" && "duration" != "ipv6_addr" && "ipv4_addr" != "ipv6_addr"
  {
    assert "duration"[0] != "ipv4_addr"[0] && "duration"[0] != "ipv6_addr"[0] && "ipv4_addr"[3] != "ipv6_addr"[3];
  }

  // ---------------------------------------------------------------- whole calls

  /** Main result: on their own, integers, floats and typedefs decode to one value under the empty name,
      and arrays and all remaining kinds but structs are rejected. */
  lemma SinglesDecode(order: ByteOrder, t: BtfType, raw: ByteString)
    requires !t.Struct?
    ensures t.Array? || t.Opaque? ==> Decode(order, t, raw) == Err(UnsupportedType)
    ensures t.Int? || t.Float? || t.Typedef? ==>
              var r := Decode(order, t, raw);
              if WireSize(t) > |raw| then r == Crash
              else
                var v := DecodeChunk(order, t, raw[..WireSize(t)]);
                if v.Ok? then r == Ok(map["" := v.value]) else r == v.PropagateFailure()
  {
    if WireSize(t) <= |raw| {
      assert raw[0..WireSize(t)] == raw[..WireSize(t)];
    }
  }

  /** A struct or a kind without a case of its own is no member the decoder reads. */
  lemma OtherMembersRejected(order: ByteOrder, t: BtfType, bs: ByteString)
    requires Underlying(t).Struct? || Underlying(t).Opaque?
    ensures DecodeChunk(order, t, bs) == Err(UnsupportedType)
  {
  }

  /** Main result: when names repeat, the last member of a name is the one kept. */
  lemma {:induction false} LastOfANameIsKept(ms: seq<Member>, vs: seq<Value>, j: nat)
    requires j < |ms| == |vs| && forall i :: j < i < |ms| ==> ms[i].name != ms[j].name
    ensures ms[j].name in Collect(ms, vs) && Collect(ms, vs)[ms[j].name] == vs[j]
  {
    var last := |ms| - 1;
    if j < last {
      LastOfANameIsKept(ms[..last], vs[..last], j);
    }
  }
}
