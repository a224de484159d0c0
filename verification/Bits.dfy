/** Bitwise operations of the C code on unsigned values, as functions on naturals,
    and the arithmetic they stand for when one operand is a power of two or a mask. */
module Bits {

  function Pow2(k: nat): (r: nat)
    ensures r >= 1
  {
    if k == 0 then 1 else 2 * Pow2(k - 1)
  }

  /** Bitwise conjunction. */
  function And(x: nat, y: nat): (r: nat)
    ensures r <= x && r <= y
    decreases x
  {
    if x == 0 || y == 0 then 0
    else 2 * And(x / 2, y / 2) + (if x % 2 == 1 && y % 2 == 1 then 1 else 0)
  }

  /** Right shift by `k` bits. */
  function Shr(x: nat, k: nat): nat
    decreases k
  {
    if k == 0 then x else Shr(x / 2, k - 1)
  }

  /** Bit number `k` of `x`. */
  predicate TestBit(x: nat, k: nat) {
    Shr(x, k) % 2 == 1
  }

  /** The bucket HASH_TO_BKT selects: `hashv & (num_bkts - 1)`. */
  function BucketOf(hashv: nat, n: nat): (b: nat)
    requires n > 0
    ensures b < n
  {
    And(hashv, n - 1)
  }

  /** One binary digit of a conjunction with a mask of ones. */
  lemma MaskStep(x: nat, p: nat)
    requires p >= 1
    ensures And(x, 2 * p - 1) == 2 * And(x / 2, p - 1) + x % 2
  {
    assert (2 * p - 1) / 2 == p - 1 && (2 * p - 1) % 2 == 1;
  }

  lemma DoubleProduct(a: nat, p: nat)
    ensures a * (2 * p) == 2 * (a * p)
  {
  }

  lemma Recombine(x: nat, high: nat, low: nat)
    requires x / 2 == high + low
    ensures x == 2 * high + (2 * low + x % 2)
  {
  }

  lemma {:induction false} DivModSplit(x: nat, k: nat)
    ensures x == Shr(x, k) * Pow2(k) + And(x, Pow2(k) - 1)
    decreases k
  {
    if k == 0 {
      assert And(x, 0) == 0;
    } else {
      var s, p := Shr(x / 2, k - 1), Pow2(k - 1);
      DivModSplit(x / 2, k - 1);
      MaskStep(x, p);
      DoubleProduct(s, p);
      Recombine(x, s * p, And(x / 2, p - 1));
      assert Shr(x, k) == s && Pow2(k) == 2 * p;
    }
  }

  lemma QuotientUnique(x: nat, d: nat, q: nat, r: nat)
    requires d > 0 && x == q * d + r && r < d
    ensures x / d == q && x % d == r
  {
    var q', r' := x / d, x % d;
    assert x == q' * d + r';
    assert (q - q') * d == r' - r;
    if q > q' {
      AtLeastOneTimes(q - q', d);
    } else if q < q' {
      AtLeastOneTimes(q' - q, d);
    }
  }

  lemma AtLeastOneTimes(a: nat, d: nat)
    requires a >= 1
    ensures a * d >= d
  {
    assert a * d == d + (a - 1) * d;
  }

  /** A mask of ones takes the remainder, a shift the quotient. */
  lemma MaskIsModShiftIsDiv(x: nat, k: nat)
    ensures And(x, Pow2(k) - 1) == x % Pow2(k)
    ensures Shr(x, k) == x / Pow2(k)
  {
    DivModSplit(x, k);
    QuotientUnique(x, Pow2(k), Shr(x, k), And(x, Pow2(k) - 1));
  }

  lemma {:induction false} NextMaskBit(x: nat, k: nat, p: nat)
    requires p == Pow2(k)
    ensures And(x, 2 * p - 1) == And(x, p - 1) + (if TestBit(x, k) then p else 0)
    decreases k
  {
    MaskStep(x, p);
    if k == 0 {
      assert And(x / 2, 0) == 0 && And(x, 0) == 0;
    } else {
      var q := Pow2(k - 1);
      assert p == 2 * q && TestBit(x, k) == TestBit(x / 2, k - 1);
      NextMaskBit(x / 2, k - 1, q);
      MaskStep(x, q);
    }
  }

  /** Doubling the number of buckets looks at exactly one more bit of the hash: the
      handle stays in its bucket or moves up by the old number of buckets. */
  lemma NextBitDecides(hashv: nat, k: nat)
    ensures BucketOf(hashv, 2 * Pow2(k))
            == BucketOf(hashv, Pow2(k)) + (if TestBit(hashv, k) then Pow2(k) else 0)
  {
    NextMaskBit(hashv, k, Pow2(k));
  }

  /** Ceiling division. */
  function CeilDiv(n: nat, d: nat): nat
    requires d > 0
  {
    n / d + (if n % d != 0 then 1 else 0)
  }

  lemma CeilingBounds(n: nat, d: nat, q: nat, r: nat)
    requires d > 0 && n == q * d + r && r < d
    ensures r == 0 ==> n <= q * d && (q > 0 ==> (q - 1) * d < n)
    ensures r != 0 ==> n <= (q + 1) * d && q * d < n
  {
    assert (q + 1) * d == q * d + d;
    assert (q - 1) * d == q * d - d;
  }

  // ----- the bits of a byte -----

  /** `1U << i` within a byte. */
  function BitMask(i: nat): bv8
    requires i < 8
  {
    if i == 0 then 1
    else if i == 1 then 2
    else if i == 2 then 4
    else if i == 3 then 8
    else if i == 4 then 16
    else if i == 5 then 32
    else if i == 6 then 64
    else 128
  }

  lemma Halved(b: bv8)
    ensures (b >> 1) as nat == (b as nat) / 2
  {
  }

  lemma LowestBit(b: bv8)
    ensures b & 1 != 0 <==> (b as nat) % 2 == 1
  {
  }

  lemma MaskShifts(b: bv8, i: nat)
    requires 0 < i < 8
    ensures b & BitMask(i) != 0 <==> (b >> 1) & BitMask(i - 1) != 0
  {
  }

  /** Mask `i` selects binary digit `i`. */
  lemma {:induction false} MaskIsDigit(b: bv8, i: nat)
    requires i < 8
    ensures b & BitMask(i) != 0 <==> (b as nat) / Pow2(i) % 2 == 1
    decreases i
  {
    if i == 0 {
      LowestBit(b);
    } else {
      MaskShifts(b, i);
      Halved(b);
      MaskIsDigit(b >> 1, i - 1);
      HalfAndMore(b as nat, i);
    }
  }

  lemma HalfAndMore(x: nat, i: nat)
    requires i > 0
    ensures x / 2 / Pow2(i - 1) == x / Pow2(i)
  {
    MaskIsModShiftIsDiv(x / 2, i - 1);
    MaskIsModShiftIsDiv(x, i);
  }
}
