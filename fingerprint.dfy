/** Similarity of two 64-bit difference hashes, as the bot's matcher computes it:
    the share of equal bits, as a whole percentage rounded down, compared
    strictly against a fixed threshold. */
module Fingerprint {

  /** Number of bits in a hash. */
  const HASH_BITS: nat := 64

  /** 2^64: every hash is below it. */
  const HASH_LIMIT: nat := 0x1_0000_0000_0000_0000

  /** A 64-bit difference hash of an image (the output of diff_hash), as the
      unsigned integer the source stores and compares. */
  type Hash = h: nat | h < HASH_LIMIT

  /** A stored fingerprint matches only when its score is strictly above this. */
  const THRESHOLD: nat := 88

  /** 2 to the power k. */
  function Pow2(k: nat): (p: nat)
    ensures p >= 1
  {
    if k == 0 then 1 else 2 * Pow2(k - 1)
  }

  /** Bitwise exclusive or of two naturals (Python's ^ on non-negative ints). */
  function Xor(a: nat, b: nat): (x: nat)
    decreases a + b
  {
    if a == 0 && b == 0 then 0
    else (if a % 2 == b % 2 then 0 else 1) + 2 * Xor(a / 2, b / 2)
  }

  /** Number of 1 digits in the binary form of n (Python's bin(n).count('1')). */
  function Ones(n: nat): (c: nat)
    ensures c <= n
  {
    if n == 0 then 0 else n % 2 + Ones(n / 2)
  }

  /** Hamming distance: the number of bit positions where a and b differ. */
  function Distance(a: Hash, b: Hash): (d: nat)
    ensures d <= HASH_BITS
  {
    HashWidth(a, b);
    Ones(Xor(a, b))
  }

  /** Percentage of equal bits for a distance d, rounded down. The source
      computes it in floating point and truncates; the numerator is a whole
      number and the divisor a power of two, so this is exact. */
  function Score(d: nat): (s: nat)
    requires d <= HASH_BITS
    ensures s <= 100
    ensures s == 100 <==> d == 0
  {
    (HASH_BITS - d) * 100 / HASH_BITS
  }

  /** Similarity percentage of two hashes. */
  function Similarity(a: Hash, b: Hash): (s: nat)
    ensures s <= 100
  {
    Score(Distance(a, b))
  }

  /** Whether a stored hash b is reported as a match for a candidate a:
      exactly when the two differ in at most 7 of their 64 bits. */
  function IsMatch(a: Hash, b: Hash): (m: bool)
    ensures m <==> Distance(a, b) <= 7
  {
    ScoreAboveThreshold(Distance(a, b));
    Similarity(a, b) > THRESHOLD
  }

  /** Distance, and so similarity, does not depend on the order of the hashes. */
  lemma SimilaritySymmetric(a: Hash, b: Hash)
    ensures Distance(a, b) == Distance(b, a)
    ensures Similarity(a, b) == Similarity(b, a)
    ensures IsMatch(a, b) <==> IsMatch(b, a)
  {
    XorCommutes(a, b);
  }

  lemma {:induction false} Pow2Add(i: nat, j: nat)
    ensures Pow2(i + j) == Pow2(i) * Pow2(j)
  {
    if i > 0 {
      Pow2Add(i - 1, j);
    }
  }

  lemma Pow2OfHashBits()
    ensures Pow2(HASH_BITS) == HASH_LIMIT
  {
    assert Pow2(4) == 16;
    Pow2Add(4, 4);
    assert Pow2(8) == 0x100;
    Pow2Add(8, 8);
    assert Pow2(16) == 0x1_0000;
    Pow2Add(16, 16);
    assert Pow2(32) == 0x1_0000_0000;
    Pow2Add(32, 32);
  }

  /** Exclusive or keeps a k-bit pair within k bits. */
  lemma {:induction false} XorBounded(a: nat, b: nat, k: nat)
    requires a < Pow2(k) && b < Pow2(k)
    ensures Xor(a, b) < Pow2(k)
    decreases a + b
  {
    if !(a == 0 && b == 0) {
      XorBounded(a / 2, b / 2, k - 1);
    }
  }

  /** A number below 2^k has at most k one-bits. */
  lemma {:induction false} OnesBounded(n: nat, k: nat)
    requires n < Pow2(k)
    ensures Ones(n) <= k
  {
    if n > 0 {
      OnesBounded(n / 2, k - 1);
    }
  }

  /** Two hashes differ in at most 64 bits. */
  lemma HashWidth(a: Hash, b: Hash)
    ensures Ones(Xor(a, b)) <= HASH_BITS
  {
    Pow2OfHashBits();
    XorBounded(a, b, HASH_BITS);
    OnesBounded(Xor(a, b), HASH_BITS);
  }

  /** Only zero has no one-bits. */
  lemma {:induction false} OnesZeroOnlyForZero(n: nat)
    ensures Ones(n) == 0 <==> n == 0
  {
    if n > 0 && n % 2 == 0 {
      OnesZeroOnlyForZero(n / 2);
    }
  }

  lemma {:induction false} XorCommutes(a: nat, b: nat)
    ensures Xor(a, b) == Xor(b, a)
    decreases a + b
  {
    if !(a == 0 && b == 0) {
      XorCommutes(a / 2, b / 2);
    }
  }

  /** The exclusive or of two numbers is zero exactly when they are equal. */
  lemma {:induction false} XorZeroIffEqual(a: nat, b: nat)
    ensures Xor(a, b) == 0 <==> a == b
    decreases a + b
  {
    if !(a == 0 && b == 0) {
      XorZeroIffEqual(a / 2, b / 2);
    }
  }

  /** A hash compared with itself scores exactly 100 and matches. */
  lemma SimilarityReflexive(a: Hash)
    ensures Distance(a, a) == 0
    ensures Similarity(a, a) == 100
    ensures IsMatch(a, a)
  {
    XorZeroIffEqual(a, a);
  }

  /** A score of 100 happens only for identical hashes. */
  lemma SimilarityHundredIffEqual(a: Hash, b: Hash)
    ensures Similarity(a, b) == 100 <==> a == b
  {
    XorZeroIffEqual(a, b);
    OnesZeroOnlyForZero(Xor(a, b));
  }

  /** Fewer differing bits never lowers the score. */
  lemma ScoreAntitone(d1: nat, d2: nat)
    requires d1 <= d2 <= HASH_BITS
    ensures Score(d2) <= Score(d1)
  {
  }

  /** The threshold boundary: 7 differing bits score 89, 8 score 87, and a
      distance matches exactly when it is at most 7. */
  lemma ScoreAboveThreshold(d: nat)
    requires d <= HASH_BITS
    ensures Score(7) == 89 && Score(8) == 87
    ensures Score(d) > THRESHOLD <==> d <= 7
  {
    assert Score(7) == 5700 / 64 == 89;
    assert Score(8) == 5600 / 64 == 87;
    if d <= 7 {
      ScoreAntitone(d, 7);
    } else {
      ScoreAntitone(8, d);
    }
  }

  /** Exclusive or with zero is the identity. */
  lemma {:induction false} XorZeroLeft(n: nat)
    ensures Xor(0, n) == n
    decreases n
  {
    if n > 0 {
      XorZeroLeft(n / 2);
    }
  }

  /** The k lowest bits set: exactly k one-bits. */
  lemma {:induction false} OnesOfLowMask(k: nat)
    ensures Ones(Pow2(k) - 1) == k
  {
    if k > 0 {
      OnesOfLowMask(k - 1);
      assert (Pow2(k) - 1) / 2 == Pow2(k - 1) - 1;
    }
  }

  /** Hashes that differ in their lowest 7 bits match, with score 89. */
  lemma SevenLowBitsMatch()
    ensures Distance(0, 0x7F) == 7 && Similarity(0, 0x7F) == 89 && IsMatch(0, 0x7F)
  {
    assert Pow2(7) - 1 == 0x7F;
    XorZeroLeft(0x7F);
    OnesOfLowMask(7);
    ScoreAboveThreshold(7);
  }

  /** Hashes that differ in their lowest 8 bits do not match: score 87. */
  lemma EightLowBitsMiss()
    ensures Distance(0, 0xFF) == 8 && Similarity(0, 0xFF) == 87 && !IsMatch(0, 0xFF)
  {
    assert Pow2(8) - 1 == 0xFF;
    XorZeroLeft(0xFF);
    OnesOfLowMask(8);
    ScoreAboveThreshold(8);
  }
}
