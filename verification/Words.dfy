/** Unsigned 32-bit words as naturals, with the wrap-around of C written out, and bytes as
    bit vectors with their numeric value. */
module Words {
  import opened Bits

  const WORD: nat := 0x1_0000_0000

  type U32 = x: nat | x < WORD
  type Byte = bv8

  /** Sum with wrap-around; the second operand may be any sum of words. */
  function Add32(a: U32, n: nat): U32 {
    (a + n) % WORD
  }

  function Sub32(a: U32, b: U32): U32 {
    if a >= b then a - b else a + WORD - b
  }

  /** Exclusive or. */
  function Xor(x: nat, y: nat): nat
    decreases x + y
  {
    if x == 0 && y == 0 then 0
    else 2 * Xor(x / 2, y / 2) + (x + y) % 2
  }

  /** Left shift by `k` bits, dropping what leaves the word. */
  function Shl32(x: U32, k: nat): U32
    decreases k
  {
    if k == 0 then x else Shl32(2 * x % WORD, k - 1)
  }

  lemma {:induction false} ShrBound(x: nat, k: nat)
    ensures Shr(x, k) <= x
    decreases k
  {
    if k > 0 {
      ShrBound(x / 2, k - 1);
    }
  }

  lemma {:induction false} XorBound(x: nat, y: nat, k: nat)
    requires x < Pow2(k) && y < Pow2(k)
    ensures Xor(x, y) < Pow2(k)
    decreases k
  {
    if k > 0 {
      XorBound(x / 2, y / 2, k - 1);
    }
  }

  lemma XorDigit(x: nat, y: nat)
    ensures Xor(x, y) == 2 * Xor(x / 2, y / 2) + (x + y) % 2
  {
  }

  lemma {:induction false} XorTwice(x: nat, y: nat, r: nat)
    requires r == Xor(x, y)
    ensures Xor(r, y) == x
    decreases x + y
  {
    if x != 0 || y != 0 {
      var q := Xor(x / 2, y / 2);
      XorDigit(x, y);
      DigitsOf(r, q, x, y);
      XorTwice(x / 2, y / 2, q);
      XorDigit(r, y);
    }
  }

  lemma DigitsOf(r: nat, q: nat, x: nat, y: nat)
    requires r == 2 * q + (x + y) % 2
    ensures r / 2 == q && (r + y) % 2 == x % 2
  {
  }

  /** Bit `k` of the exclusive or is set exactly if the two bits differ. */
  lemma {:induction false} XorBits(x: nat, y: nat, k: nat)
    ensures TestBit(Xor(x, y), k) <==> TestBit(x, k) != TestBit(y, k)
    decreases k
  {
    XorDigit(x, y);
    var q := Xor(x / 2, y / 2);
    DigitsOf(Xor(x, y), q, x, y);
    if k > 0 {
      XorBits(x / 2, y / 2, k - 1);
    }
  }

  lemma WordIsPow2()
    ensures WORD == Pow2(32)
  {
    assert Pow2(8) == 256;
    Pow2Sum(8, 8);
    Pow2Sum(16, 16);
  }

  lemma {:induction false} Pow2Sum(j: nat, k: nat)
    ensures Pow2(j + k) == Pow2(j) * Pow2(k)
    decreases j
  {
    if j > 0 {
      Pow2Sum(j - 1, k);
      TwiceProduct(Pow2(j - 1), Pow2(k));
    }
  }

  lemma TwiceProduct(x: nat, y: nat)
    ensures (2 * x) * y == 2 * (x * y)
  {
  }

  function Xor32(x: U32, y: U32): (r: U32)
  {
    WordIsPow2();
    XorBound(x, y, 32);
    Xor(x, y)
  }

  lemma XorBack(x: U32, y: U32)
    ensures Xor32(Xor32(x, y), y) == x
  {
    XorTwice(x, y, Xor32(x, y));
  }

  lemma AddSub(x: U32, y: U32)
    ensures Add32(Sub32(x, y), y) == x
    ensures Sub32(Add32(x, y), y) == x
  {
  }

  function Shr32(x: U32, k: nat): (r: U32) {
    ShrBound(x, k);
    Shr(x, k)
  }

  /** A right shift divides, a left shift multiplies and drops what leaves the word. */
  lemma ShrIsDiv(x: U32, k: nat)
    ensures Shr32(x, k) == x / Pow2(k)
  {
    MaskIsModShiftIsDiv(x, k);
  }

  lemma {:induction false} ShlIsTimes(x: U32, k: nat)
    ensures Shl32(x, k) == x * Pow2(k) % WORD
    decreases k
  {
    if k > 0 {
      ShlIsTimes(2 * x % WORD, k - 1);
      TimesAgain(2 * x, Pow2(k - 1));
      TwiceEither(x, Pow2(k - 1));
    }
  }

  lemma TwiceEither(x: nat, y: nat)
    ensures (2 * x) * y == x * (2 * y)
  {
  }

  lemma TimesAgain(x: nat, p: nat)
    ensures (x % WORD) * p % WORD == x * p % WORD
  {
    var q, r := x / WORD, x % WORD;
    assert x * p == r * p + (q * p) * WORD;
    ModPlus(r * p, q * p);
  }

  lemma {:induction false} ModPlus(r: nat, q: nat)
    ensures (r + q * WORD) % WORD == r % WORD
  {
    if q > 0 {
      ModPlus(r, q - 1);
      assert r + q * WORD == (r + (q - 1) * WORD) + WORD;
    }
  }

  lemma SubTwice(x: U32, y: U32, z: U32)
    ensures Sub32(Sub32(x, y), z) == (x - y - z) % 4294967296
  {
  }

  // ----- bytes -----

  /** The byte with value `n`. */
  function ToByte(n: nat): Byte
    requires n < 256
  {
    n as bv8
  }

  /** The value of a byte. */
  function Value(b: Byte): (n: nat)
    ensures n < 256
  {
    b as nat
  }

  lemma ValueOfByte(n: nat)
    requires n < 256
    ensures Value(ToByte(n)) == n
  {
    assert n % 256 == n;
  }

  lemma ByteOfValue(b: Byte)
    ensures ToByte(Value(b)) == b
  {
  }

  lemma ValueInjective(a: Byte, b: Byte)
    requires Value(a) == Value(b)
    ensures a == b
  {
  }
}
