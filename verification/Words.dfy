/** C and Go machine integers, with wrap-around written out. */
module Words {
  const TWO_31 := 0x8000_0000
  const TWO_32 := 0x1_0000_0000
  const TWO_63 := 0x8000_0000_0000_0000
  const TWO_64 := 0x1_0000_0000_0000_0000

  type U32 = n: int | 0 <= n < TWO_32
  type U64 = n: int | 0 <= n < TWO_64
  type S32 = n: int | -TWO_31 <= n < TWO_31
  type S64 = n: int | -TWO_63 <= n < TWO_63

  function ToU32(n: int): U32 {
    n % TWO_32
  }

  function ToU64(n: int): U64 {
    n % TWO_64
  }

  /** Conversion to a signed word: the representative of `n` modulo the word size. */
  function ToS32(n: int): (v: S32)
    ensures ToU32(v) == ToU32(n)
  {
    var u := ToU32(n);
    if u < TWO_31 then u else u - TWO_32
  }

  function ToS64(n: int): (v: S64)
    ensures ToU64(v) == ToU64(n)
  {
    var u := ToU64(n);
    if u < TWO_63 then u else u - TWO_64
  }

  /** A signed word is determined by its residue. */
  lemma ResidueDecides(v: S64, n: int)
    ensures ToU64(v) == ToU64(n) <==> v == ToS64(n)
    ensures -TWO_63 <= n < TWO_63 ==> ToS64(n) == n
  {
  }

  /** Reading a word back as signed gives `n` exactly when the word is `n`'s residue and `n` fits. */
  lemma SignedReading(word: U64, n: int)
    ensures ToS64(word) == n <==> word == ToU64(n) && -TWO_63 <= n < TWO_63
  {
  }

  lemma TwoApartDiffer(n: int)
    ensures ToU64(n + 2) != ToU64(n)
  {
    var q, p := (n + 2) / TWO_64, n / TWO_64;
    assert ToU64(n + 2) - ToU64(n) == 2 - TWO_64 * (q - p);
  }

  lemma SumsWrap(a: int, b: int)
    ensures ToU64(ToU64(a) + b) == ToU64(a + b)
    ensures ToU64(a + ToU64(b)) == ToU64(a + b)
    ensures ToU64(ToU64(a) - ToU64(b)) == ToU64(a - b)
  {
    var qa, qb := a / TWO_64, b / TWO_64;
    assert a == ToU64(a) + TWO_64 * qa && b == ToU64(b) + TWO_64 * qb;
    SameResidue(a + b, ToU64(a) + b, qa);
    SameResidue(a + b, a + ToU64(b), qb);
    SameResidue(a - b, ToU64(a) - ToU64(b), qa - qb);
  }

  lemma SameResidue(n: int, m: int, k: int)
    requires n == m + TWO_64 * k
    ensures ToU64(n) == ToU64(m)
  {
    var q, p := n / TWO_64, m / TWO_64;
    assert ToU64(n) - ToU64(m) == TWO_64 * (k + p - q);
  }
}
