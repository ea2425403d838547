/**
 The payload of a BitMap value: an ordered sequence of unsigned 64-bit words,
 index 0 first, where bit b of word i stands for offset 64 * i + b and bit 0 is
 the least-significant bit of its word. Offsets past the last stored word read
 as zero: a bitmap behaves as an all-zero bit string of unbounded length into
 which the stored words are written.

 Besides the word-addressed read that GETBIT performs (ReadBit), the module
 gives an independent reading of a word sequence as one little-endian natural
 number (Num) and proves that both agree on every offset.
 */
module BitMap {

  /** Width in bits of one stored word. */
  const WordWidth: nat := 64

  /** 2^64: one more than the largest value of an unsigned 64-bit word. */
  const WordBase: nat := 0x1_0000_0000_0000_0000

  /** An unsigned 64-bit word. */
  type Word = w: int | 0 <= w < WordBase

  function Pow2(n: nat): (r: nat)
    ensures r >= 1
  {
    if n == 0 then 1 else 2 * Pow2(n - 1)
  }

  /** Bit b of the natural number x (bit 0 least significant), as 0 or 1. */
  function Bit(x: nat, b: nat): (r: nat)
    ensures r == 0 || r == 1
  {
    (x / Pow2(b)) % 2
  }

  /**
   The bit at `offset` of a stored bitmap, addressed the way GETBIT addresses it:
   word offset / 64, bit offset % 64 of that word; 0 when the word index lies
   past the end of the stored words.
   */
  function ReadBit(words: seq<Word>, offset: nat): (r: nat)
    ensures r == 0 || r == 1
    ensures offset / WordWidth >= |words| ==> r == 0
  {
    var wordIndex := offset / WordWidth;
    var bitIndex := offset % WordWidth;
    if wordIndex < |words| then Bit(words[wordIndex], bitIndex) else 0
  }

  /** The word sequence read as one little-endian number: word 0 holds its lowest 64 bits. */
  function Num(words: seq<Word>): nat
  {
    if words == [] then 0 else words[0] + WordBase * Num(words[1..])
  }

  // ---------------------------------------------------------------------------
  // Arithmetic on powers of two

  lemma {:induction false} Pow2Add(m: nat, n: nat)
    ensures Pow2(m + n) == Pow2(m) * Pow2(n)
  {
    if m > 0 {
      Pow2Add(m - 1, n);
    }
  }

  lemma Pow2Word()
    ensures Pow2(WordWidth) == WordBase
  {
    assert Pow2(4) == 16;
    Pow2Add(4, 4);
    assert Pow2(8) == 0x100;
    Pow2Add(8, 8);
    assert Pow2(16) == 0x1_0000;
    Pow2Add(16, 16);
    assert Pow2(32) == 0x1_0000_0000;
    Pow2Add(32, 32);
  }

  lemma MulDistrib(d: int, a: int, b: int)
    ensures d * (a + b) == d * a + d * b
  {
  }

  lemma MulAtLeast(d: nat, k: int)
    requires k >= 1
    ensures d * k >= d
  {
    MulDistrib(d, 1, k - 1);
  }

  /** Division and remainder are determined by any decomposition x == d * q + r with 0 <= r < d. */
  lemma DivModUnique(x: int, d: int, q: int, r: int)
    requires d > 0 && 0 <= r < d && x == d * q + r
    ensures x / d == q && x % d == r
  {
    var q', r' := x / d, x % d;
    assert x == d * q' + r';
    if q' < q {
      MulDistrib(d, q', q - q');
      MulAtLeast(d, q - q');
      assert false;
    } else if q' > q {
      MulDistrib(d, q, q' - q);
      MulAtLeast(d, q' - q);
      assert false;
    }
  }

  lemma MulAssoc(a: int, b: int, c: int)
    ensures a * (b * c) == (a * b) * c
  {
  }

  lemma MulMono(a: nat, b: int, c: int)
    requires b <= c
    ensures a * b <= a * c
  {
    MulDistrib(a, b, c - b);
  }

  /** Dividing by a then by b is dividing by a * b. */
  lemma DivDiv(x: nat, a: nat, b: nat)
    requires a > 0 && b > 0
    ensures x / a / b == x / (a * b)
  {
    var q, r := x / a, x % a;
    var q2, r2 := q / b, q % b;
    assert x == a * q + r;
    assert q == b * q2 + r2;
    MulDistrib(a, b * q2, r2);
    MulAssoc(a, b, q2);
    assert x == (a * b) * q2 + (a * r2 + r);
    MulMono(a, r2, b - 1);
    MulDistrib(a, b - 1, 1);
    assert a * r2 + r < a * b;
    DivModUnique(x, a * b, q2, a * r2 + r);
  }

  lemma Pow2Even(n: nat)
    requires n > 0
    ensures Pow2(n) % 2 == 0
  {
  }

  /** Bit b of a number below 2^b is 0. */
  lemma BitAboveValue(x: nat, b: nat)
    requires x < Pow2(b)
    ensures Bit(x, b) == 0
  {
    DivModUnique(x, Pow2(b), 0, x);
  }

  // ---------------------------------------------------------------------------
  // Properties of the bitmap read

  /** Exactly bit k of 2^k is set: the word 1 << k holds the single offset k. */
  lemma SingleBit(k: nat, b: nat)
    ensures Bit(Pow2(k), b) == if b == k then 1 else 0
  {
    if b <= k {
      Pow2Add(b, k - b);
      DivModUnique(Pow2(k), Pow2(b), Pow2(k - b), 0);
      if b < k {
        Pow2Even(k - b);
      }
    } else {
      Pow2Add(k, b - k);
      assert Pow2(b) == Pow2(k) * Pow2(b - k) >= Pow2(k) * 2;
      BitAboveValue(Pow2(k), b);
    }
  }

  /** Adding an even multiple of p leaves bit 0 of the quotient by p unchanged. */
  lemma QuotientParity(x: nat, p: nat, z: nat)
    requires p > 0
    ensures ((x + p * (2 * z)) / p) % 2 == (x / p) % 2
  {
    MulDistrib(p, x / p, 2 * z);
    DivModUnique(x + p * (2 * z), p, x / p + 2 * z, x % p);
    DivModUnique(x / p + 2 * z, 2, (x / p) / 2 + z, (x / p) % 2);
  }

  /** A number below 2^64 occupies the low word only: its bits equal those of the word x + 2^64 * y. */
  lemma BitOfLowWord(x: nat, y: nat, b: nat)
    requires x < WordBase && b < WordWidth
    ensures Bit(x + WordBase * y, b) == Bit(x, b)
  {
    var p, k := Pow2(b), Pow2(WordWidth - b);
    assert WordBase == p * k by {
      Pow2Word();
      Pow2Add(b, WordWidth - b);
    }
    var h := k / 2;
    assert k == 2 * h by {
      Pow2Even(WordWidth - b);
    }
    assert WordBase * y == p * (2 * (h * y)) by {
      MulAssoc(p, k, y);
      MulAssoc(2, h, y);
    }
    QuotientParity(x, p, h * y);
  }

  /** Bits at 64 and above of x + 2^64 * y are the bits of y, shifted down by one word. */
  lemma BitOfHighWords(x: nat, y: nat, b: nat)
    requires x < WordBase && b >= WordWidth
    ensures Bit(x + WordBase * y, b) == Bit(y, b - WordWidth)
  {
    Pow2Word();
    Pow2Add(WordWidth, b - WordWidth);
    var n := x + WordBase * y;
    DivModUnique(n, WordBase, y, x);
    DivDiv(n, WordBase, Pow2(b - WordWidth));
  }

  /**
   The word-addressed read agrees with the little-endian reading of the whole
   bitmap at every offset, including offsets past the stored words.
   */
  lemma {:induction false} ReadBitIsNumBit(words: seq<Word>, offset: nat)
    ensures ReadBit(words, offset) == Bit(Num(words), offset)
  {
    if words == [] {
      assert Num(words) == 0;
      assert 0 / Pow2(offset) == 0;
    } else if offset < WordWidth {
      BitOfLowWord(words[0], Num(words[1..]), offset);
    } else {
      BitOfHighWords(words[0], Num(words[1..]), offset);
      ReadBitIsNumBit(words[1..], offset - WordWidth);
      assert (offset - WordWidth) / WordWidth == offset / WordWidth - 1;
      assert (offset - WordWidth) % WordWidth == offset % WordWidth;
    }
  }

  /** A bitmap of n words is a number below 2^(64 n). */
  lemma {:induction false} NumBound(words: seq<Word>)
    ensures Num(words) < Pow2(WordWidth * |words|)
  {
    if words != [] {
      NumBound(words[1..]);
      Pow2Word();
      Pow2Add(WordWidth, WordWidth * (|words| - 1));
      var rest := Num(words[1..]);
      var bound := Pow2(WordWidth * (|words| - 1));
      assert rest + 1 <= bound;
      assert WordBase * rest + WordBase <= WordBase * bound;
    }
  }

  /** Read through the little-endian number, every offset past the stored words is 0. */
  lemma NumPastEnd(words: seq<Word>, offset: nat)
    requires offset >= WordWidth * |words|
    ensures Bit(Num(words), offset) == 0
  {
    NumBound(words);
    Pow2Add(WordWidth * |words|, offset - WordWidth * |words|);
    MulAtLeast(Pow2(WordWidth * |words|), Pow2(offset - WordWidth * |words|));
    BitAboveValue(Num(words), offset);
  }
}
