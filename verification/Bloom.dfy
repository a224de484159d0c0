/** The optional Bloom filter: a bit vector in which every stored hash has its bit set. */
module Bloom {
  import opened Bits

  /** HASH_BLOOM_BYTELEN for a filter of `2^nbits` bits. */
  function ByteLen(nbits: nat): nat {
    Pow2(nbits) / 8 + (if Pow2(nbits) % 8 != 0 then 1 else 0)
  }

  /** The bit a hash value selects. */
  function BitIndex(hashv: nat, nbits: nat): (idx: nat)
    ensures idx < Pow2(nbits) && idx / 8 < ByteLen(nbits)
  {
    And(hashv, Pow2(nbits) - 1)
  }

  /** The bit index is the hash modulo the size of the filter, which has just enough bytes. */
  lemma BitIndexIsMod(hashv: nat, nbits: nat)
    ensures BitIndex(hashv, nbits) == hashv % Pow2(nbits)
    ensures 8 * (ByteLen(nbits) - 1) < Pow2(nbits) <= 8 * ByteLen(nbits)
  {
    MaskIsModShiftIsDiv(hashv, nbits);
  }

  /** HASH_BLOOM_BITTEST. */
  predicate BitTest(bv: seq<bv8>, idx: nat)
    requires idx / 8 < |bv|
  {
    bv[idx / 8] & BitMask(idx % 8) != 0
  }

  /** Bit `idx` is binary digit `idx % 8` of byte `idx / 8`. */
  lemma BitTestIsDigit(bv: seq<bv8>, idx: nat)
    requires idx / 8 < |bv|
    ensures BitTest(bv, idx) <==> (bv[idx / 8] as nat) / Pow2(idx % 8) % 2 == 1
  {
    MaskIsDigit(bv[idx / 8], idx % 8);
  }

  /** HASH_BLOOM_BITSET. */
  method BitSet(bv: array<bv8>, idx: nat)
    requires idx / 8 < bv.Length
    modifies bv
    ensures forall j: nat {:trigger BitTest(bv[..], j)} :: j / 8 < bv.Length ==>
              (BitTest(bv[..], j) <==> j == idx || old(BitTest(bv[..], j)))
  {
    ghost var was := bv[..];
    bv[idx / 8] := bv[idx / 8] | BitMask(idx % 8);
    OneBitSet(was, bv[..], idx);
  }

  lemma OneBitSet(was: seq<bv8>, now: seq<bv8>, idx: nat)
    requires idx / 8 < |was| && now == was[idx / 8 := was[idx / 8] | BitMask(idx % 8)]
    ensures forall j: nat {:trigger BitTest(now, j)} :: j / 8 < |now| ==>
              (BitTest(now, j) <==> j == idx || BitTest(was, j))
  {
    forall j: nat {:trigger BitTest(now, j)} | j / 8 < |now|
      ensures BitTest(now, j) <==> j == idx || BitTest(was, j)
    {
      if j / 8 == idx / 8 {
        OrMask(was[idx / 8], idx % 8, j % 8);
      }
    }
  }

  /** Setting one bit of a byte sets that bit and changes no other. */
  lemma OrMask(b: bv8, i: nat, j: nat)
    requires i < 8 && j < 8
    ensures (b | BitMask(i)) & BitMask(j) != 0 <==> i == j || b & BitMask(j) != 0
  {
    MasksDisjoint(i, j);
    var m, n := BitMask(i), BitMask(j);
    assert (b | m) & n == (b & n) | (m & n);
    if i == j {
      assert m & n == n;
    }
  }

  lemma MasksDisjoint(i: nat, j: nat)
    requires i < 8 && j < 8
    ensures BitMask(i) & BitMask(j) == if i == j then BitMask(i) else 0
    ensures BitMask(i) != 0
  {
  }

  /** The filter does not rule `hashv` out. */
  predicate Covers(bv: seq<bv8>, nbits: nat, hashv: nat)
    requires |bv| == ByteLen(nbits)
  {
    BitTest(bv, BitIndex(hashv, nbits))
  }
}
