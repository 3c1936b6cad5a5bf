/** From decoded structs to Prometheus labels: `stringify` and the label lists registered by
    `Parse` (pkg/loader/loader.go), and why no two keys share a label map. */
module Labelling {
  import opened Bytes
  import opened Btf
  import opened Decoding
  import opened RoundTrip

  type Labels = map<string, string>

  // ---------------------------------------------------------------- fmt.Sprint

  function Digit(d: nat): char
    requires d < 10
  {
    ('0' as int + d) as char
  }

  function Decimal(n: nat): (s: string)
    ensures |s| > 0
    ensures forall c :: c in s ==> '0' <= c <= '9'
  {
    if n < 10 then [Digit(n)] else Decimal(n / 10) + [Digit(n % 10)]
  }

  function SignedDecimal(v: int): string {
    if v < 0 then "-" + Decimal(-v) else Decimal(v)
  }

  /** Go strings are byte strings; a byte is shown as the character with its code. */
  function Chars(bs: ByteString): (s: string)
    ensures |s| == |bs|
  {
    seq(|bs|, i requires 0 <= i < |bs| => bs[i] as char)
  }

  function DottedQuad(addr: ByteString): string
    requires |addr| == 4
  {
    Decimal(addr[0]) + "." + (Decimal(addr[1]) + "." + (Decimal(addr[2]) + "." + Decimal(addr[3])))
  }

  /** Go's rendering of floats, durations and addresses of other lengths, which is not modelled. */
  datatype Formats = Formats(float: (nat, nat) -> string, duration: int -> string, address: ByteString -> string)

  function Sprint(f: Formats, v: Value): string {
    match v
    case Uint(_, n) => Decimal(n)
    case Sint(_, x) => SignedDecimal(x)
    case FloatBits(width, bits) => f.float(width, bits)
    case Text(chars) => Chars(chars)
    case Boolean(b) => if b then "true" else "false"
    case Duration(ns) => f.duration(ns)
    case IP(addr) => if |addr| == 4 then DottedQuad(addr) else f.address(addr)
  }

  function Stringified(f: Formats, decoded: map<string, Value>): (labels: Labels)
    ensures labels.Keys == decoded.Keys
  {
    map k | k in decoded :: Sprint(f, decoded[k])
  }

  /** Go's map iteration visits the keys in an arbitrary order. */
  method Stringify(f: Formats, decodedBinary: map<string, Value>) returns (keyMap: Labels)
    ensures keyMap == Stringified(f, decodedBinary)
  {
    keyMap := map[];
    var todo := decodedBinary.Keys;
    while todo != {}
      invariant todo <= decodedBinary.Keys
      invariant keyMap.Keys == decodedBinary.Keys - todo
      invariant forall k :: k in keyMap ==> keyMap[k] == Sprint(f, decodedBinary[k])
    {
      var k :| k in todo;
      keyMap := keyMap[k := Sprint(f, decodedBinary[k])];
      todo := todo - {k};
    }
  }

  function MemberNames(ms: seq<Member>): (names: seq<string>)
    ensures |names| == |ms|
    ensures forall i :: 0 <= i < |ms| ==> names[i] == ms[i].name
  {
    seq(|ms|, i requires 0 <= i < |ms| => ms[i].name)
  }

  method GetLabelsForBtfStruct(members: seq<Member>) returns (keys: seq<string>)
    ensures keys == MemberNames(members)
  {
    keys := [];
    for i := 0 to |members|
      invariant |keys| == i
      invariant forall j :: 0 <= j < i ==> keys[j] == members[j].name
    {
      keys := keys + [members[i].name];
    }
  }

  /** The labels attached to a decoded struct are exactly the registered ones. */
  lemma LabelsMatchRegistration(f: Formats, order: ByteOrder, ms: seq<Member>, raw: ByteString)
    requires Decode(order, Struct(ms), raw).Ok?
    ensures Stringified(f, Decode(order, Struct(ms), raw).value).Keys == set name | name in MemberNames(ms)
  {
    var names := MemberNames(ms);
    DecodedKeys(order, ms, raw);
    assert forall x :: x in ms ==> x.name in names by {
      forall x | x in ms
        ensures x.name in names
      {
        var i :| 0 <= i < |ms| && ms[i] == x;
        assert names[i] == x.name;
      }
    }
  }

  // ---------------------------------------------------------------- rendering reads back

  predicate IsDigit(c: char) {
    '0' <= c <= '9'
  }

  /** The number a string of digits denotes, most significant digit first. */
  function ReadDigits(s: string): nat
    requires forall c :: c in s ==> IsDigit(c)
  {
    if |s| == 0 then 0
    else
      assert IsDigit(s[|s| - 1]);
      10 * ReadDigits(s[..|s| - 1]) + (s[|s| - 1] as int - '0' as int)
  }

  /** `s` is the decimal numeral of `n`: digits that denote it, with no superfluous zero. */
  predicate IsNumeral(s: string, n: nat) {
    && |s| > 0 && (forall c :: c in s ==> IsDigit(c))
    && ReadDigits(s) == n
    && (s[0] == '0' ==> n == 0 && |s| == 1)
  }

  /** Main result: an unsigned number is shown as its decimal numeral. */
  lemma {:induction false} DecimalIsNumeral(n: nat)
    ensures IsNumeral(Decimal(n), n)
  {
    var s := Decimal(n);
    if n >= 10 {
      var init := Decimal(n / 10);
      DecimalIsNumeral(n / 10);
      assert s[..|s| - 1] == init && s[|s| - 1] == Digit(n % 10);
      assert s[0] == init[0];
    } else {
      assert s[..0] == [] && s[0] == Digit(n);
    }
  }

  /** Main result: a signed number is shown as the numeral of its magnitude, after '-' exactly if it is
      negative. */
  lemma SignedDecimalIsNumeral(v: int)
    ensures var s := SignedDecimal(v);
            if v < 0 then |s| > 0 && s[0] == '-' && IsNumeral(s[1..], -v) else IsNumeral(s, v)
  {
    DecimalIsNumeral(if v < 0 then -v else v);
  }

  /** The pieces of a string between its dots. */
  function SplitAtDots(s: string): (parts: seq<string>)
    ensures |parts| > 0
  {
    if |s| == 0 then [""]
    else
      var rest := SplitAtDots(s[1..]);
      if s[0] == '.' then [""] + rest else [[s[0]] + rest[0]] + rest[1..]
  }

  lemma {:induction false} SplitPiece(a: string, rest: string)
    requires '.' !in a
    ensures SplitAtDots(a) == [a]
    ensures SplitAtDots(a + "." + rest) == [a] + SplitAtDots(rest)
  {
    var s := a + "." + rest;
    if |a| > 0 {
      SplitPiece(a[1..], rest);
      assert s[1..] == a[1..] + "." + rest;
      assert [a[0]] + a[1..] == a;
    } else {
      assert s[1..] == rest;
    }
  }

  /** Main result: an address is shown as the numerals of its four bytes, in order, between dots. */
  lemma DottedQuadIsNumerals(addr: ByteString)
    requires |addr| == 4
    ensures var parts := SplitAtDots(DottedQuad(addr));
            |parts| == 4 && forall i :: 0 <= i < 4 ==> IsNumeral(parts[i], addr[i])
  {
    var a, b, c, d := Decimal(addr[0]), Decimal(addr[1]), Decimal(addr[2]), Decimal(addr[3]);
    DecimalIsNumeral(addr[0]);
    DecimalIsNumeral(addr[1]);
    DecimalIsNumeral(addr[2]);
    DecimalIsNumeral(addr[3]);
    SplitFour(a, b, c, d);
  }

  lemma SplitFour(a: string, b: string, c: string, d: string)
    requires '.' !in a && '.' !in b && '.' !in c && '.' !in d
    ensures SplitAtDots(a + "." + (b + "." + (c + "." + d))) == [a, b, c, d]
  {
    SplitPiece(d, "");
    SplitPiece(c, d);
    SplitPiece(b, c + "." + d);
    SplitPiece(a, b + "." + (c + "." + d));
  }

  /** What a rendered value must look like, from the value alone. */
  ghost predicate ShowsValue(f: Formats, s: string, v: Value) {
    match v
    case Uint(_, n) => IsNumeral(s, n)
    case Sint(_, x) => if x < 0 then |s| > 0 && s[0] == '-' && IsNumeral(s[1..], -x) else IsNumeral(s, x)
    case Text(chars) => |s| == |chars| && forall i :: 0 <= i < |chars| ==> s[i] as int == chars[i]
    case Boolean(b) => s == if b then "true" else "false"
    case IP(addr) =>
      if |addr| != 4 then s == f.address(addr)
      else |SplitAtDots(s)| == 4 && forall i :: 0 <= i < 4 ==> IsNumeral(SplitAtDots(s)[i], addr[i])
    case FloatBits(width, bits) => s == f.float(width, bits)
    case Duration(ns) => s == f.duration(ns)
  }

  /** Main result: every label of a decoded struct shows its field's value. */
  lemma LabelsShowValues(f: Formats, decoded: map<string, Value>, k: string)
    requires k in decoded
    ensures k in Stringified(f, decoded) && ShowsValue(f, Stringified(f, decoded)[k], decoded[k])
  {
    match decoded[k] {
      case Uint(_, n) => DecimalIsNumeral(n);
      case Sint(_, x) => SignedDecimalIsNumeral(x);
      case IP(addr) =>
        if |addr| == 4 {
          DottedQuadIsNumerals(addr);
        }
      case _ =>
    }
  }

  // ---------------------------------------------------------------- rendering is injective

  lemma {:induction false} DecimalInjective(m: nat, n: nat)
    requires Decimal(m) == Decimal(n)
    ensures m == n
  {
    if m >= 10 && n >= 10 {
      var a, b := Decimal(m / 10), Decimal(n / 10);
      assert Decimal(m)[..|Decimal(m)| - 1] == a && Decimal(n)[..|Decimal(n)| - 1] == b;
      assert Decimal(m)[|Decimal(m)| - 1] == Digit(m % 10) && Decimal(n)[|Decimal(n)| - 1] == Digit(n % 10);
      DecimalInjective(m / 10, n / 10);
    } else {
      assert m < 10 ==> Decimal(m)[0] == Digit(m);
      assert n < 10 ==> Decimal(n)[0] == Digit(n);
    }
  }

  lemma SignShows(v: int)
    ensures |SignedDecimal(v)| > 0
    ensures SignedDecimal(v)[0] == '-' <==> v < 0
    ensures v < 0 ==> SignedDecimal(v)[1..] == Decimal(-v)
  {
    if v >= 0 {
      assert Decimal(v)[0] in Decimal(v);
    }
  }

  lemma SignedDecimalInjective(m: int, n: int)
    requires SignedDecimal(m) == SignedDecimal(n)
    ensures m == n
  {
    SignShows(m);
    SignShows(n);
    if m < 0 {
      DecimalInjective(-m, -n);
    } else {
      DecimalInjective(m, n);
    }
  }

  lemma CharsInjective(a: ByteString, b: ByteString)
    requires Chars(a) == Chars(b)
    ensures a == b
  {
    forall i | 0 <= i < |a|
      ensures a[i] == b[i]
    {
      assert Chars(a)[i] == a[i] as char && Chars(b)[i] == b[i] as char;
    }
  }

  /** A dot-free prefix ends at the first dot. */
  lemma FirstDot(a: string, b: string, x: string, y: string)
    requires '.' !in a && '.' !in b && a + "." + x == b + "." + y
    ensures a == b && x == y
  {
    var s, t := a + "." + x, b + "." + y;
    assert s[|a|] == '.' && t[|b|] == '.';
    assert forall i :: 0 <= i < |a| ==> s[i] == a[i] && a[i] in a;
    assert forall i :: 0 <= i < |b| ==> t[i] == b[i] && b[i] in b;
    assert |a| == |b|;
    assert s[..|a|] == a && t[..|b|] == b;
    assert s[|a| + 1..] == x && t[|b| + 1..] == y;
  }

  lemma DottedQuadInjective(a: ByteString, b: ByteString)
    requires |a| == |b| == 4 && DottedQuad(a) == DottedQuad(b)
    ensures a == b
  {
    var a23, b23 := Decimal(a[2]) + "." + Decimal(a[3]), Decimal(b[2]) + "." + Decimal(b[3]);
    var a13, b13 := Decimal(a[1]) + "." + a23, Decimal(b[1]) + "." + b23;
    FirstDot(Decimal(a[0]), Decimal(b[0]), a13, b13);
    FirstDot(Decimal(a[1]), Decimal(b[1]), a23, b23);
    FirstDot(Decimal(a[2]), Decimal(b[2]), Decimal(a[3]), Decimal(b[3]));
    DecimalInjective(a[0], b[0]);
    DecimalInjective(a[1], b[1]);
    DecimalInjective(a[2], b[2]);
    DecimalInjective(a[3], b[3]);
  }

  /** Types whose rendering is modelled: everything but floats and durations. */
  predicate Printable(t: BtfType) {
    !Underlying(t).Float? && !(t.Typedef? && t.name in DURATION_NAMES)
  }

  lemma SprintInjective(f: Formats, t: BtfType, v: Value, w: Value)
    requires Printable(t) && Fits(t, v) && Fits(t, w) && Sprint(f, v) == Sprint(f, w)
    ensures v == w
  {
    match v
    case Uint(_, n) => DecimalInjective(n, w.n);
    case Sint(_, x) => SignedDecimalInjective(x, w.v);
    case Text(chars) => if w.Text? { CharsInjective(chars, w.chars); }
    case IP(addr) => DottedQuadInjective(addr, w.addr);
    case _ =>
  }

  lemma SameLabelSameValue(f: Formats, order: ByteOrder, ms: seq<Member>, raw: ByteString, other: ByteString, j: nat)
    requires DistinctNames(ms) && j < |ms| && Printable(ms[j].typ)
    requires Decode(order, Struct(ms), raw).Ok? && Decode(order, Struct(ms), other).Ok?
    requires Stringified(f, Decode(order, Struct(ms), raw).value) == Stringified(f, Decode(order, Struct(ms), other).value)
    ensures ms[j].name in Decode(order, Struct(ms), raw).value && ms[j].name in Decode(order, Struct(ms), other).value
    ensures Decode(order, Struct(ms), raw).value[ms[j].name] == Decode(order, Struct(ms), other).value[ms[j].name]
  {
    var a, b := Decode(order, Struct(ms), raw).value, Decode(order, Struct(ms), other).value;
    MemberFits(order, ms, raw, j);
    MemberFits(order, ms, other, j);
    var k := ms[j].name;
    assert Sprint(f, a[k]) == Stringified(f, a)[k] == Stringified(f, b)[k] == Sprint(f, b[k]);
    SprintInjective(f, ms[j].typ, a[k], b[k]);
  }

  /** Main result: structs of printable members with the same label map hold the same values. */
  lemma LabelsDetermineValues(f: Formats, order: ByteOrder, ms: seq<Member>, raw: ByteString, other: ByteString)
    requires DistinctNames(ms)
    requires forall j :: 0 <= j < |ms| ==> Printable(ms[j].typ)
    requires Decode(order, Struct(ms), raw).Ok? && Decode(order, Struct(ms), other).Ok?
    requires Stringified(f, Decode(order, Struct(ms), raw).value) == Stringified(f, Decode(order, Struct(ms), other).value)
    ensures Decode(order, Struct(ms), raw).value == Decode(order, Struct(ms), other).value
  {
    var a, b := Decode(order, Struct(ms), raw).value, Decode(order, Struct(ms), other).value;
    assert a.Keys == Stringified(f, a).Keys == b.Keys;
    DecodedKeys(order, ms, raw);
    forall k | k in a
      ensures a[k] == b[k]
    {
      var x :| x in ms && x.name == k;
      var j :| 0 <= j < |ms| && ms[j] == x;
      SameLabelSameValue(f, order, ms, raw, other, j);
    }
  }

  /** Main result: for keys of integers and addresses, distinct key bytes give distinct labels. */
  lemma LabelsDetermineKeyBytes(f: Formats, order: ByteOrder, ms: seq<Member>, raw: ByteString, other: ByteString)
    requires DistinctNames(ms)
    requires forall j :: 0 <= j < |ms| ==> Printable(ms[j].typ) && Tight(ms[j].typ)
    requires forall j :: 0 <= j < |ms| ==> !IsCharArray(Underlying(ms[j].typ))
    requires Decode(order, Struct(ms), raw).Ok? && Decode(order, Struct(ms), other).Ok?
    requires Stringified(f, Decode(order, Struct(ms), raw).value) == Stringified(f, Decode(order, Struct(ms), other).value)
    ensures TotalSize(ms) <= |raw| && TotalSize(ms) <= |other|
    ensures raw[..TotalSize(ms)] == other[..TotalSize(ms)]
  {
    LabelsDetermineValues(f, order, ms, raw, other);
    StructReencodes(order, ms, raw);
    StructReencodes(order, ms, other);
    CanonicalWithoutArrays(ms, raw);
    CanonicalWithoutArrays(ms, other);
  }
}
