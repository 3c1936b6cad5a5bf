/** The BTF-driven binary decoder (pkg/decoder/decoder.go): a mutable cursor proved against a
    pure description of what one type makes of its own bytes. */
module Decoding {
  import opened Outcomes
  import opened Words
  import opened Bytes
  import opened Btf

  /** The typedef names that select a special presentation. */
  const ADDRESS_NAMES: set<string> := {"ipv4_addr", "ipv6_addr"}
  const DURATION_NAMES: set<string> := {"duration"}
  /** The element type names that make an array a string. */
  const CHAR_NAMES: set<string> := {"char"}

  // ---------------------------------------------------------------- what one type means

  /** The first non-typedef at the end of a typedef chain. */
  function Underlying(t: BtfType): (u: BtfType)
    ensures !u.Typedef?
    ensures !t.Typedef? ==> u == t
  {
    if t.Typedef? then Underlying(t.target) else t
  }

  predicate IsCharArray(t: BtfType) {
    t.Array? && t.elem.Int? && t.elem.name in CHAR_NAMES && t.elem.size == 1
  }

  /** How many bytes the cursor moves over when a value of type `t` decodes. */
  function WireSize(t: BtfType): (n: nat)
    ensures n < 0x1_0000_0000
  {
    var u := Underlying(t);
    if u.Int? && !u.encoding.Bool? && !u.encoding.Char? then u.size
    else if u.Float? then u.size
    else if IsCharArray(u) then u.nelems
    else 0
  }

  /** Every byte up to, but not including, the first NUL. */
  function UpToNul(bs: ByteString): (s: ByteString)
    ensures |s| <= |bs| && s == bs[..|s|]
    ensures 0 !in s
    ensures if 0 in bs then |s| < |bs| && bs[|s|] == 0 else s == bs
  {
    if |bs| == 0 || bs[0] == 0 then [] else [bs[0]] + UpToNul(bs[1..])
  }

  /** `time.Duration(u64)`: the conversion to a signed word. */
  function AsDuration(v: Value): Outcome<Value> {
    if v.Uint? && v.width == 8 then Ok(Duration(ToSigned(v.n % Modulus(8), 8))) else Err(NotUint64)
  }

  /** The four bytes of an address, written in the order the word was read. */
  function AsAddress(order: ByteOrder, v: Value): Outcome<Value> {
    if v.Uint? && v.width == 4 then Ok(IP(PutWord(order, v.n, 4))) else Err(NotUint32)
  }

  /** The last step for typedefs: only the outermost name is looked at. */
  function Present(name: string, order: ByteOrder, v: Value): Outcome<Value> {
    if name in DURATION_NAMES then AsDuration(v)
    else if name in ADDRESS_NAMES then AsAddress(order, v)
    else Ok(v)
  }

  /** `binary.Read` of a `bits`-wide integer from a buffer: surplus bytes are ignored. */
  function DecodeInt(order: ByteOrder, signed: bool, bits: Byte, bs: ByteString): Outcome<Value> {
    if bits !in {8, 16, 32, 64} then Err(UnknownWidth)
    else
      var width := bits / 8;
      if |bs| < width then Err(ShortRead)
      else
        ReadThenPut(order, bs[..width]);
        var n := ReadWord(order, bs[..width]);
        Ok(if signed then Sint(width, ToSigned(n, width)) else Uint(width, n))
  }

  /** The value of the non-typedef `t` held by exactly its own bytes. */
  function DecodePlain(order: ByteOrder, t: BtfType, bs: ByteString): Outcome<Value>
    requires !t.Typedef?
  {
    match t
    case Int(_, _, encoding, bits) =>
      (match encoding
       case Signed => DecodeInt(order, true, bits, bs)
       case Bool => Ok(Boolean(false))
       case Char => Ok(Text([]))
       case _ => DecodeInt(order, false, bits, bs))
    case Float(size) =>
      if size == 8 || size == 4 then Ok(FloatBits(size, ReadWord(order, bs))) else Err(UnknownWidth)
    case Array(elem, _) =>
      if !elem.Int? then Err(NotAnIntArray)
      else if elem.name !in CHAR_NAMES then Err(NotACharArray)
      else if elem.size != 1 then Err(WrongCharSize)
      else if 0 in bs then Ok(Text(UpToNul(bs))) else Crash
    case _ => Err(UnsupportedType)
  }

  /** The value of type `t` held by exactly its own bytes. */
  function DecodeChunk(order: ByteOrder, t: BtfType, bs: ByteString): Outcome<Value> {
    var v :- DecodePlain(order, Underlying(t), bs);
    if t.Typedef? then Present(t.name, order, v) else Ok(v)
  }

  /** The value of type `t` at offset `off` of `raw`. The cursor is a `uint32`, so a slice that
      ends at or beyond 2^32 wraps and crashes just as one that ends beyond the buffer. */
  function ParseAt(order: ByteOrder, t: BtfType, raw: ByteString, off: nat): Outcome<Value> {
    var end := off + WireSize(t);
    if end < 0x1_0000_0000 && end <= |raw| then DecodeChunk(order, t, raw[off..end]) else Crash
  }

  // ---------------------------------------------------------------- structs

  function Offset(ms: seq<Member>, i: nat): (off: nat)
    requires i <= |ms|
  {
    if i == 0 then 0 else Offset(ms, i - 1) + WireSize(ms[i - 1].typ)
  }

  function TotalSize(ms: seq<Member>): nat {
    Offset(ms, |ms|)
  }

  /** The outcome for each of the first `n` members, each read at its own offset. */
  function MemberOutcomes(read: (BtfType, nat) -> Outcome<Value>, ms: seq<Member>, n: nat): (rs: seq<Outcome<Value>>)
    requires n <= |ms|
    ensures |rs| == n
  {
    if n == 0 then [] else MemberOutcomes(read, ms, n - 1) + [read(ms[n - 1].typ, Offset(ms, n - 1))]
  }

  function Reader(order: ByteOrder, raw: ByteString): (BtfType, nat) -> Outcome<Value> {
    (t: BtfType, off: nat) => ParseAt(order, t, raw, off)
  }

  /** The Go map built by assigning `vs` to the member names in order. */
  function Collect(ms: seq<Member>, vs: seq<Value>): (m: map<string, Value>)
    requires |ms| == |vs|
  {
    if |ms| == 0 then map[]
    else
      var last := |ms| - 1;
      Collect(ms[..last], vs[..last])[ms[last].name := vs[last]]
  }

  lemma {:induction false} CollectedKeys(ms: seq<Member>, vs: seq<Value>)
    requires |ms| == |vs|
    ensures Collect(ms, vs).Keys == set x | x in ms :: x.name
  {
    if |ms| > 0 {
      var last := |ms| - 1;
      CollectedKeys(ms[..last], vs[..last]);
      assert ms == ms[..last] + [ms[last]];
    }
  }

  predicate TopLevelSingle(t: BtfType) {
    t.Typedef? || t.Float? || t.Int?
  }

  /** What `DecodeBtfBinary` returns, as a function of its arguments alone. */
  function Decode(order: ByteOrder, t: BtfType, raw: ByteString): Outcome<map<string, Value>> {
    if t.Struct? then
      var vs :- InSequence(MemberOutcomes(Reader(order, raw), t.members, |t.members|));
      Ok(Collect(t.members, vs))
    else if TopLevelSingle(t) then
      var v :- ParseAt(order, t, raw, 0);
      Ok(map["" := v])
    else Err(UnsupportedType)
  }

  // ---------------------------------------------------------------- the mutable decoder

  class Decoder {
    /** Where in `raw` the next value starts. */
    var offset: U32
    /** The buffer of the current call; the slice's capacity is taken to be its length. */
    var raw: ByteString
    /** The build-time byte order. */
    const order: ByteOrder

    constructor (order: ByteOrder)
      ensures this.order == order
    {
      this.order := order;
      this.offset := 0;
      this.raw := [];
    }

    method DecodeBtfBinary(typ: BtfType, buffer: ByteString) returns (result: Outcome<map<string, Value>>)
      modifies this
      ensures result == Decode(order, typ, buffer)
      ensures raw == buffer
      ensures result.Ok? ==> offset == if typ.Struct? then TotalSize(typ.members) else WireSize(typ)
    {
      raw := buffer;
      offset := 0;
      match typ {
        case Struct(members) => result := ProcessMembers(members);
        case Typedef(_, _) => result := ProcessUnnamed(typ);
        case Float(_) => result := ProcessUnnamed(typ);
        case Int(_, _, _, _) => result := ProcessUnnamed(typ);
        case _ => return Err(UnsupportedType);
      }
    }

    /** The struct case of `DecodeBtfBinary`. */
    method ProcessMembers(members: seq<Member>) returns (result: Outcome<map<string, Value>>)
      requires offset == 0
      modifies this`offset
      ensures result == Decode(order, Struct(members), raw)
      ensures result.Ok? ==> offset == TotalSize(members)
    {
      var fields: map<string, Value> := map[];
      ghost var vs: seq<Value> := [];
      for i := 0 to |members|
        invariant offset == Offset(members, i) <= |raw|
        invariant ReadSoFar(order, raw, members, i, vs, fields)
      {
        var val := ProcessMember(members, i, vs, fields);
        if val.IsFailure() {
          return val.PropagateFailure();
        }
        fields := fields[members[i].name := val.value];
        vs := vs + [val.value];
      }
      LoopEnd(order, raw, members, vs, fields);
      return Ok(fields);
    }

    /** One pass of the member loop, up to the assignment to the map. */
    method ProcessMember(members: seq<Member>, i: nat, ghost vs: seq<Value>, ghost fields: map<string, Value>)
      returns (val: Outcome<Value>)
      requires i < |members| && offset == Offset(members, i) <= |raw|
      requires ReadSoFar(order, raw, members, i, vs, fields)
      modifies this`offset
      ensures val.Ok? ==>
                && offset == Offset(members, i + 1) <= |raw|
                && ReadSoFar(order, raw, members, i + 1, vs + [val.value], fields[members[i].name := val.value])
      ensures !val.Ok? ==> Decode(order, Struct(members), raw) == val.PropagateFailure()
    {
      val := ProcessSingleType(members[i].typ);
      LoopStep(order, raw, members, i, vs, fields, val);
    }

    /** The shared body of the typedef, float and integer cases of `DecodeBtfBinary`. */
    method ProcessUnnamed(typ: BtfType) returns (result: Outcome<map<string, Value>>)
      requires TopLevelSingle(typ) && offset == 0
      modifies this`offset
      ensures result == Decode(order, typ, raw)
      ensures result.Ok? ==> offset == WireSize(typ)
    {
      var val := ProcessSingleType(typ);
      if val.IsFailure() {
        return val.PropagateFailure();
      }
      return Ok(map["" := val.value]);
    }

    method ProcessSingleType(typ: BtfType) returns (result: Outcome<Value>)
      requires offset <= |raw|
      modifies this`offset
      ensures result == ParseAt(order, typ, raw, old(offset))
      ensures result.Ok? ==> offset == old(offset) + WireSize(typ) <= |raw|
      decreases typ.Typedef?
    {
      match typ {
        case Int(_, _, encoding, _) =>
          match encoding {
            case Signed => result := HandleInt(typ);
            case Bool => result := Ok(Boolean(false));
            case Char => result := Ok(Text([]));
            case _ => result := HandleUint(typ);
          }
        case Typedef(name, _) =>
          var underlying := GetUnderlyingType(typ);
          TypedefParsed(order, typ, raw, offset);
          var processed := ProcessSingleType(underlying);
          if processed.IsFailure() {
            return processed;
          }
          if name in DURATION_NAMES {
            result := U64ToDuration(processed.value);
          } else if name in ADDRESS_NAMES {
            result := U32ToIp(processed.value);
          } else {
            result := processed;
          }
        case Float(_) => result := HandleFloat(typ);
        case Array(_, _) => result := HandleArray(typ);
        case _ => result := Err(UnsupportedType);
      }
    }

    /** `d.raw[d.offset : d.offset+size]` followed by `d.offset += size`, in `uint32` arithmetic. */
    method Take(size: U32) returns (chunk: Outcome<ByteString>)
      requires offset <= |raw|
      modifies this`offset
      ensures chunk.Ok? <==> old(offset) + size < 0x1_0000_0000 && old(offset) + size <= |raw|
      ensures chunk.Ok? ==> offset == old(offset) + size && chunk.value == raw[old(offset)..offset]
      ensures !chunk.Ok? ==> chunk.Crash?
    {
      var end: U32 := (offset + size) % 0x1_0000_0000;
      if end < offset || |raw| < end {
        return Crash;
      }
      chunk := Ok(raw[offset..end]);
      offset := end;
    }

    method HandleArray(typ: BtfType) returns (result: Outcome<Value>)
      requires typ.Array? && offset <= |raw|
      modifies this`offset
      ensures result == ParseAt(order, typ, raw, old(offset))
      ensures result.Ok? ==> offset == old(offset) + WireSize(typ) <= |raw|
    {
      var elem := typ.elem;
      if !elem.Int? {
        return Err(NotAnIntArray);
      }
      if elem.name !in CHAR_NAMES {
        return Err(NotACharArray);
      }
      if elem.size != 1 {
        return Err(WrongCharSize);
      }
      var start := offset;
      var slice: ByteString := [];
      for i := 0 to typ.nelems
        invariant offset == start + i <= |raw|
        invariant slice == raw[start..start + i]
      {
        var buf := Take(elem.size);
        if buf.IsFailure() {
          return Crash;
        }
        slice := slice + [buf.value[0]];
      }
      var n := IndexByte(slice, 0);
      if n >= 0 {
        PrefixOfSlice(raw, start, start + typ.nelems, n);
      }
      CharArrayParsed(order, typ, raw, start, n);
      if n < 0 {
        return Crash;
      }
      return Ok(Text(slice[..n]));
    }

    method HandleFloat(typ: BtfType) returns (result: Outcome<Value>)
      requires typ.Float? && offset <= |raw|
      modifies this`offset
      ensures result == ParseAt(order, typ, raw, old(offset))
      ensures result.Ok? ==> offset == old(offset) + WireSize(typ) <= |raw|
    {
      var buf := Take(typ.size);
      if buf.IsFailure() {
        return Crash;
      }
      if typ.size == 8 || typ.size == 4 {
        return Ok(FloatBits(typ.size, ReadWord(order, buf.value)));
      }
      return Err(UnknownWidth);
    }

    method HandleUint(typ: BtfType) returns (result: Outcome<Value>)
      requires typ.Int? && typ.encoding in {Unsigned, Mixed} && offset <= |raw|
      modifies this`offset
      ensures result == ParseAt(order, typ, raw, old(offset))
      ensures result.Ok? ==> offset == old(offset) + WireSize(typ) <= |raw|
    {
      var buf := Take(typ.size);
      if buf.IsFailure() {
        return Crash;
      }
      if typ.bits == 64 || typ.bits == 32 || typ.bits == 16 || typ.bits == 8 {
        var width := typ.bits / 8;
        if |buf.value| < width {
          return Err(ShortRead);
        }
        return Ok(Uint(width, ReadWord(order, buf.value[..width])));
      }
      return Err(UnknownWidth);
    }

    method HandleInt(typ: BtfType) returns (result: Outcome<Value>)
      requires typ.Int? && typ.encoding == Signed && offset <= |raw|
      modifies this`offset
      ensures result == ParseAt(order, typ, raw, old(offset))
      ensures result.Ok? ==> offset == old(offset) + WireSize(typ) <= |raw|
    {
      var buf := Take(typ.size);
      if buf.IsFailure() {
        return Crash;
      }
      if typ.bits == 64 || typ.bits == 32 || typ.bits == 16 || typ.bits == 8 {
        var width := typ.bits / 8;
        if |buf.value| < width {
          return Err(ShortRead);
        }
        ReadThenPut(order, buf.value[..width]);
        return Ok(Sint(width, ToSigned(ReadWord(order, buf.value[..width]), width)));
      }
      return Err(UnknownWidth);
    }

    method U64ToDuration(val: Value) returns (result: Outcome<Value>)
      ensures result == AsDuration(val)
      ensures result.Ok? <==> val.Uint? && val.width == 8
      ensures result.Ok? ==>
                && result.value.Duration? && -Modulus(8) <= 2 * result.value.ns < Modulus(8)
                && (val.n < Modulus(8) ==> FromSigned(result.value.ns, 8) == val.n)
    {
      if !(val.Uint? && val.width == 8) {
        return Err(NotUint64);
      }
      return Ok(Duration(ToSigned(val.n % Modulus(8), 8)));
    }

    method U32ToIp(val: Value) returns (result: Outcome<Value>)
      ensures result == AsAddress(order, val)
      ensures result.Ok? <==> val.Uint? && val.width == 4
      ensures result.Ok? ==>
                && result.value.IP? && |result.value.addr| == 4
                && (val.n < Modulus(4) ==> ReadWord(order, result.value.addr) == val.n)
    {
      if !(val.Uint? && val.width == 4) {
        return Err(NotUint32);
      }
      if val.n < Modulus(4) {
        PutThenRead(order, val.n, 4);
      }
      return Ok(IP(PutWord(order, val.n, 4)));
    }
  }

  function GetUnderlyingType(tf: BtfType): (u: BtfType)
    requires tf.Typedef?
    ensures u == Underlying(tf)
  {
    match tf.target
    case Typedef(_, _) => GetUnderlyingType(tf.target)
    case _ => tf.target
  }

  /** `bytes.IndexByte`: the first index of `b`, or -1. */
  method IndexByte(s: ByteString, b: Byte) returns (n: int)
    ensures -1 <= n < |s|
    ensures n == -1 ==> b !in s
    ensures n >= 0 ==> s[n] == b && b !in s[..n]
  {
    for i := 0 to |s|
      invariant b !in s[..i]
    {
      if s[i] == b {
        return i;
      }
    }
    return -1;
  }

  lemma {:induction false} FirstNul(s: ByteString, n: nat)
    requires n < |s| && s[n] == 0 && 0 !in s[..n]
    ensures UpToNul(s) == s[..n]
  {
    if n > 0 {
      assert s[0] == s[..n][0] && s[1..][..n - 1] == s[..n][1..];
      FirstNul(s[1..], n - 1);
    }
  }

  /** The outcome of the first `i + 1` members, from that of the first `i`. */
  lemma MemberStep(read: (BtfType, nat) -> Outcome<Value>, ms: seq<Member>, i: nat)
    requires i < |ms|
    ensures InSequence(MemberOutcomes(read, ms, i + 1))
            == AndThen(InSequence(MemberOutcomes(read, ms, i)), read(ms[i].typ, Offset(ms, i)))
  {
    assert MemberOutcomes(read, ms, i + 1)[..i] == MemberOutcomes(read, ms, i);
  }

  /** The outcomes of fewer members are a prefix of those of more. */
  lemma {:induction false} OutcomesArePrefix(read: (BtfType, nat) -> Outcome<Value>, ms: seq<Member>, i: nat, n: nat)
    requires i <= n <= |ms|
    ensures MemberOutcomes(read, ms, n)[..i] == MemberOutcomes(read, ms, i)
  {
    if i < n {
      var longer, shorter := MemberOutcomes(read, ms, n), MemberOutcomes(read, ms, n - 1);
      OutcomesArePrefix(read, ms, i, n - 1);
      assert longer[..n - 1] == shorter;
      assert longer[..i] == shorter[..i];
    }
  }

  /** Once a member has failed, the members after it do not matter. */
  lemma FailureDecides(read: (BtfType, nat) -> Outcome<Value>, ms: seq<Member>, i: nat, n: nat)
    requires i <= n <= |ms|
    requires !InSequence(MemberOutcomes(read, ms, i)).Ok?
    ensures InSequence(MemberOutcomes(read, ms, n)) == InSequence(MemberOutcomes(read, ms, i))
  {
    OutcomesArePrefix(read, ms, i, n);
    FailedPrefixDecides(MemberOutcomes(read, ms, n), i);
  }

  /** The first `i` members have been read as `vs` and collected in `fields`. */
  predicate ReadSoFar(order: ByteOrder, raw: ByteString, ms: seq<Member>, i: nat, vs: seq<Value>, fields: map<string, Value>) {
    && |vs| == i <= |ms|
    && fields == Collect(ms[..i], vs)
    && InSequence(MemberOutcomes(Reader(order, raw), ms, i)) == Ok(vs)
  }

  /** One pass of the member loop: it goes on with one more value, or the failure is the result. */
  lemma LoopStep(order: ByteOrder, raw: ByteString, ms: seq<Member>, i: nat, vs: seq<Value>, fields: map<string, Value>,
                 val: Outcome<Value>)
    requires i < |ms| && ReadSoFar(order, raw, ms, i, vs, fields)
    requires val == ParseAt(order, ms[i].typ, raw, Offset(ms, i))
    ensures val.Ok? ==> ReadSoFar(order, raw, ms, i + 1, vs + [val.value], fields[ms[i].name := val.value])
    ensures !val.Ok? ==> Decode(order, Struct(ms), raw) == val.PropagateFailure()
  {
    var read := Reader(order, raw);
    MemberStep(read, ms, i);
    assert read(ms[i].typ, Offset(ms, i)) == val;
    if val.Ok? {
      CollectStep(ms, vs, i, val.value);
    } else {
      FailureDecides(read, ms, i + 1, |ms|);
    }
  }

  /** The keys of a decoded struct are its members' names. */
  lemma DecodedKeys(order: ByteOrder, ms: seq<Member>, raw: ByteString)
    requires Decode(order, Struct(ms), raw).Ok?
    ensures Decode(order, Struct(ms), raw).value.Keys == set x | x in ms :: x.name
  {
    var vs := InSequence(MemberOutcomes(Reader(order, raw), ms, |ms|)).value;
    CollectedKeys(ms, vs);
  }

  lemma LoopEnd(order: ByteOrder, raw: ByteString, ms: seq<Member>, vs: seq<Value>, fields: map<string, Value>)
    requires ReadSoFar(order, raw, ms, |ms|, vs, fields)
    ensures Decode(order, Struct(ms), raw) == Ok(fields)
  {
    assert ms[..|ms|] == ms;
  }

  lemma {:induction false} OutcomeOfMember(read: (BtfType, nat) -> Outcome<Value>, ms: seq<Member>, n: nat, j: nat)
    requires j < n <= |ms|
    ensures MemberOutcomes(read, ms, n)[j] == read(ms[j].typ, Offset(ms, j))
  {
    if j < n - 1 {
      OutcomeOfMember(read, ms, n - 1, j);
    }
  }

  /** A typedef is its underlying type, presented by name. */
  lemma TypedefParsed(order: ByteOrder, t: BtfType, raw: ByteString, off: nat)
    requires t.Typedef?
    ensures var r := ParseAt(order, Underlying(t), raw, off);
            ParseAt(order, t, raw, off) == if r.Ok? then Present(t.name, order, r.value) else r
    ensures WireSize(t) == WireSize(Underlying(t))
  {
  }

  lemma PrefixOfSlice(s: ByteString, from: nat, to: nat, n: nat)
    requires from + n < to <= |s|
    ensures s[from..to][..n] == s[from..from + n] && s[from..to][n] == s[from + n]
  {
  }

  lemma CharArrayDecoded(order: ByteOrder, t: BtfType, bs: ByteString)
    requires IsCharArray(t)
    ensures WireSize(t) == t.nelems
    ensures DecodeChunk(order, t, bs) == if 0 in bs then Ok(Text(UpToNul(bs))) else Crash
  {
  }

  lemma CharArrayParsed(order: ByteOrder, t: BtfType, raw: ByteString, off: nat, n: int)
    requires IsCharArray(t) && off + t.nelems <= |raw| && off + t.nelems < 0x1_0000_0000
    requires -1 <= n < t.nelems
    requires n == -1 ==> 0 !in raw[off..off + t.nelems]
    requires n >= 0 ==> raw[off + n] == 0 && 0 !in raw[off..off + n]
    ensures ParseAt(order, t, raw, off) == if n < 0 then Crash else Ok(Text(raw[off..off + n]))
  {
    var bs := raw[off..off + t.nelems];
    CharArrayDecoded(order, t, bs);
    if n >= 0 {
      PrefixOfSlice(raw, off, off + t.nelems, n);
      FirstNul(bs, n);
      assert bs[n] == 0;
    }
    assert ParseAt(order, t, raw, off) == DecodeChunk(order, t, bs);
  }

  lemma CollectStep(ms: seq<Member>, vs: seq<Value>, i: nat, v: Value)
    requires |vs| == i < |ms|
    ensures Collect(ms[..i + 1], vs + [v]) == Collect(ms[..i], vs)[ms[i].name := v]
  {
    assert ms[..i + 1][..i] == ms[..i] && (vs + [v])[..i] == vs;
  }
}
