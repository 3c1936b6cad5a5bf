/** Fixed-width integers as byte strings, in the two byte orders Go's encoding/binary knows. */
module Bytes {

  type Byte = b: int | 0 <= b < 256

  type ByteString = seq<Byte>

  datatype ByteOrder = Little | Big

  /** 256 to the power `width`: the number of values of a `width`-byte word. */
  function Modulus(width: nat): (m: int)
    ensures m > 0
    ensures width > 0 ==> m % 2 == 0
  {
    if width == 0 then 1 else 256 * Modulus(width - 1)
  }

  lemma WordSizes()
    ensures Modulus(1) == 0x100
    ensures Modulus(2) == 0x1_0000
    ensures Modulus(4) == 0x1_0000_0000
    ensures Modulus(8) == 0x1_0000_0000_0000_0000
  {
    assert Modulus(3) == 0x100_0000;
    assert Modulus(5) == 0x100_0000_0000;
    assert Modulus(6) == 0x1_0000_0000_0000;
    assert Modulus(7) == 0x100_0000_0000_0000;
  }

  function Reverse(bs: ByteString): (r: ByteString)
    ensures |r| == |bs|
    ensures forall i :: 0 <= i < |bs| ==> r[i] == bs[|bs| - 1 - i]
  {
    seq(|bs|, i requires 0 <= i < |bs| => bs[|bs| - 1 - i])
  }

  function LittleValue(bs: ByteString): nat {
    if |bs| == 0 then 0 else bs[0] + 256 * LittleValue(bs[1..])
  }

  function LittleBytes(n: nat, width: nat): (bs: ByteString)
    ensures |bs| == width
  {
    if width == 0 then [] else [n % 256] + LittleBytes(n / 256, width - 1)
  }

  /** What `binary.Read` stores in an unsigned word. */
  function ReadWord(order: ByteOrder, bs: ByteString): nat {
    LittleValue(if order == Little then bs else Reverse(bs))
  }

  /** What `PutUint16/32/64` writes. */
  function PutWord(order: ByteOrder, n: nat, width: nat): (bs: ByteString)
    ensures |bs| == width
  {
    if order == Little then LittleBytes(n, width) else Reverse(LittleBytes(n, width))
  }

  lemma {:induction false} LittleRoundTrip(n: nat, width: nat)
    requires n < Modulus(width)
    ensures LittleValue(LittleBytes(n, width)) == n
  {
    if width > 0 {
      LittleRoundTrip(n / 256, width - 1);
      assert LittleBytes(n, width)[1..] == LittleBytes(n / 256, width - 1);
    }
  }

  lemma {:induction false} LittleValueInRange(bs: ByteString)
    ensures LittleValue(bs) < Modulus(|bs|)
    ensures LittleBytes(LittleValue(bs), |bs|) == bs
  {
    if |bs| > 0 {
      LittleValueInRange(bs[1..]);
      assert LittleValue(bs) / 256 == LittleValue(bs[1..]);
      assert LittleValue(bs) % 256 == bs[0];
      assert [bs[0]] + bs[1..] == bs;
    }
  }

  /** Reading a word that was put in the same order gives it back. */
  lemma PutThenRead(order: ByteOrder, n: nat, width: nat)
    requires n < Modulus(width)
    ensures ReadWord(order, PutWord(order, n, width)) == n
  {
    LittleRoundTrip(n, width);
    var bs := LittleBytes(n, width);
    assert Reverse(Reverse(bs)) == bs;
  }

  /** Putting a word that was read in the same order restores the bytes. */
  lemma ReadThenPut(order: ByteOrder, bs: ByteString)
    ensures ReadWord(order, bs) < Modulus(|bs|)
    ensures PutWord(order, ReadWord(order, bs), |bs|) == bs
  {
    LittleValueInRange(bs);
    LittleValueInRange(Reverse(bs));
    assert Reverse(Reverse(bs)) == bs;
  }

  /** The two's complement reading of an unsigned word. */
  function ToSigned(n: nat, width: nat): (v: int)
    requires width > 0 && n < Modulus(width)
    ensures -Modulus(width) <= 2 * v < Modulus(width)
    ensures v == n || v == n - Modulus(width)
  {
    if 2 * n < Modulus(width) then n else n - Modulus(width)
  }

  /** The unsigned word with the two's complement reading `v`. */
  function FromSigned(v: int, width: nat): (n: nat)
    requires width > 0 && -Modulus(width) <= 2 * v < Modulus(width)
    ensures n < Modulus(width)
    ensures ToSigned(n, width) == v
  {
    if v >= 0 then v else v + Modulus(width)
  }

  // ---------------------------------------------------------------- wider words

  function Fill(n: nat, b: Byte): (bs: ByteString)
    ensures |bs| == n && forall i :: 0 <= i < n ==> bs[i] == b
  {
    seq(n, _ => b)
  }

  /** A word continued with `filler` on its most significant side. */
  function Extended(order: ByteOrder, word: ByteString, size: nat, filler: Byte): (bs: ByteString)
    requires |word| <= size
    ensures |bs| == size
  {
    if order == Little then word + Fill(size - |word|, filler) else Fill(size - |word|, filler) + word
  }

  lemma {:induction false} ModulusGrows(width: nat, size: nat)
    requires width <= size
    ensures Modulus(width) <= Modulus(size)
  {
    if width < size {
      ModulusGrows(width, size - 1);
    }
  }

  lemma {:induction false} LittleExtends(n: nat, width: nat, size: nat)
    requires n < Modulus(width) && width <= size
    ensures LittleBytes(n, size) == LittleBytes(n, width) + Fill(size - width, 0)
  {
    if width > 0 {
      LittleExtends(n / 256, width - 1, size - 1);
    } else if size > 0 {
      LittleExtends(0, 0, size - 1);
    }
  }

  function Complement(bs: ByteString): (c: ByteString)
    ensures |c| == |bs| && forall i :: 0 <= i < |bs| ==> c[i] == 255 - bs[i]
  {
    seq(|bs|, i requires 0 <= i < |bs| => 255 - bs[i])
  }

  lemma {:induction false} LittleComplement(n: nat, width: nat)
    requires n < Modulus(width)
    ensures LittleBytes(Modulus(width) - 1 - n, width) == Complement(LittleBytes(n, width))
  {
    if width > 0 {
      var m := Modulus(width) - 1 - n;
      assert m == 256 * (Modulus(width - 1) - 1 - n / 256) + (255 - n % 256);
      assert m % 256 == 255 - n % 256 && m / 256 == Modulus(width - 1) - 1 - n / 256;
      LittleComplement(n / 256, width - 1);
    }
  }

  lemma ExtendedReversed(word: ByteString, size: nat, filler: Byte)
    requires |word| <= size
    ensures Extended(Big, Reverse(word), size, filler) == Reverse(Extended(Little, word, size, filler))
  {
  }

  lemma PutExtends(order: ByteOrder, wide: nat, size: nat, narrow: nat, width: nat, filler: Byte)
    requires width <= size && LittleBytes(wide, size) == LittleBytes(narrow, width) + Fill(size - width, filler)
    ensures PutWord(order, wide, size) == Extended(order, PutWord(order, narrow, width), size, filler)
  {
    ExtendedReversed(LittleBytes(narrow, width), size, filler);
  }

  /** An unsigned word written wider is the word continued with zeros. */
  lemma WordExtends(order: ByteOrder, n: nat, width: nat, size: nat)
    requires n < Modulus(width) && width <= size
    ensures PutWord(order, n, size) == Extended(order, PutWord(order, n, width), size, 0)
  {
    LittleExtends(n, width, size);
    PutExtends(order, n, size, n, width, 0);
  }

  lemma ComplementExtends(bs: ByteString, k: nat)
    ensures Complement(bs + Fill(k, 0)) == Complement(bs) + Fill(k, 255)
  {
  }

  lemma LittleNegativeExtends(n: nat, width: nat, size: nat)
    requires n < Modulus(width) <= Modulus(size) && width <= size
    ensures LittleBytes(Modulus(size) - 1 - n, size) == LittleBytes(Modulus(width) - 1 - n, width) + Fill(size - width, 255)
  {
    LittleExtends(n, width, size);
    LittleComplement(n, size);
    LittleComplement(n, width);
    ComplementExtends(LittleBytes(n, width), size - width);
  }

  /** A negative number written wider is the word continued with ones. */
  lemma NegativeExtends(order: ByteOrder, v: int, width: nat, size: nat)
    requires 0 < width <= size && -Modulus(width) <= 2 * v < 0
    ensures -Modulus(size) <= 2 * v < Modulus(size)
    ensures PutWord(order, FromSigned(v, size), size) == Extended(order, PutWord(order, FromSigned(v, width), width), size, 255)
  {
    ModulusGrows(width, size);
    LittleNegativeExtends(-1 - v, width, size);
    PutExtends(order, FromSigned(v, size), size, FromSigned(v, width), width, 255);
  }

  /** The first bytes of an extended word are the word itself, in memory order, only if it is not extended,
      is stored low byte first, or consists of the filler. */
  lemma ExtendedPrefix(order: ByteOrder, word: ByteString, size: nat, filler: Byte)
    requires |word| <= size
    ensures Extended(order, word, size, filler)[..|word|] == word
            <==> order == Little || |word| == size || word == Fill(|word|, filler)
  {
    var bs, k := Extended(order, word, size, filler), size - |word|;
    if word == Fill(|word|, filler) {
      assert bs == Fill(size, filler);
    }
    if order == Big && k > 0 && bs[..|word|] == word {
      forall i | 0 <= i < |word|
        ensures word[i] == filler
      {
        ShiftedIsFiller(word, bs, k, filler, i);
      }
    }
  }

  lemma {:induction false} ShiftedIsFiller(word: ByteString, bs: ByteString, k: nat, filler: Byte, i: nat)
    requires k > 0 && bs == Fill(k, filler) + word && bs[..|word|] == word && i < |word|
    ensures word[i] == filler
  {
    assert word[i] == bs[..|word|][i];
    if i >= k {
      ShiftedIsFiller(word, bs, k, filler, i - k);
    }
  }

  lemma ZeroWord(order: ByteOrder, n: nat, width: nat)
    requires n < Modulus(width)
    ensures PutWord(order, n, width) == Fill(width, 0) <==> n == 0
  {
    LittleExtends(0, 0, width);
    assert Reverse(Fill(width, 0)) == Fill(width, 0);
    assert PutWord(order, 0, width) == Fill(width, 0);
    PutThenRead(order, n, width);
    PutThenRead(order, 0, width);
  }

  lemma MinusOneIsOnes(order: ByteOrder, width: nat)
    requires width > 0
    ensures PutWord(order, FromSigned(-1, width), width) == Fill(width, 255)
  {
    LittleNegativeExtends(0, 0, width);
    assert LittleBytes(FromSigned(-1, width), width) == Fill(width, 255);
    assert Reverse(Fill(width, 255)) == Fill(width, 255);
  }

  lemma OnesWord(order: ByteOrder, v: int, width: nat)
    requires width > 0 && -Modulus(width) <= 2 * v < 0
    ensures PutWord(order, FromSigned(v, width), width) == Fill(width, 255) <==> v == -1
  {
    MinusOneIsOnes(order, width);
    PutThenRead(order, FromSigned(v, width), width);
    PutThenRead(order, FromSigned(-1, width), width);
  }
}
