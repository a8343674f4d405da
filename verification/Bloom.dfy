/** The Bloom filter of uthash.h: a bit vector over the low bits of the hash value. */
module Bloom {
  import opened Arith

  type Byte = bv8

  /** 1U << k, for a position inside a byte. */
  function Bit(k: nat): Byte
    requires k < 8
  {
    [1, 2, 4, 8, 16, 32, 64, 128][k]
  }

  /** HASH_BLOOM_BYTELEN for 2^nbits bits. */
  function ByteLen(nbits: nat): nat {
    Pow2(nbits) / 8 + (if Pow2(nbits) % 8 != 0 then 1 else 0)
  }

  /** The bit a hash value selects. */
  function BitOf(hashv: nat, nbits: nat): (idx: nat)
    ensures idx < Pow2(nbits) && idx / 8 < ByteLen(nbits)
  {
    MaskIsMod(hashv, nbits);
    BitAnd(hashv, Pow2(nbits) - 1)
  }

  ghost predicate IsSet(bv: array<Byte>, idx: nat)
    reads bv
  {
    idx / 8 < bv.Length && bv[idx / 8] & Bit(idx % 8) != 0
  }

  /** Bit idx % 8 of byte idx / 8, counted from the low end. */
  lemma SetIs(bv: array<Byte>, idx: nat)
    ensures IsSet(bv, idx) <==> idx / 8 < bv.Length && (bv[idx / 8] >> (idx % 8)) & 1 == 1
  {
    if idx / 8 < bv.Length {
      BitShifted(bv[idx / 8], idx % 8);
    }
  }

  lemma BitShifted(v: Byte, k: nat)
    requires k < 8
    ensures v & Bit(k) != 0 <==> (v >> k) & 1 == 1
  {
    assert k == 0 || k == 1 || k == 2 || k == 3 || k == 4 || k == 5 || k == 6 || k == 7;
  }

  /** The low bits of the hash select the bit, and there are just enough bytes for all of them. */
  lemma BitOfIs(hashv: nat, nbits: nat)
    ensures Pow2(nbits) > 0 && BitOf(hashv, nbits) == hashv % Pow2(nbits)
    ensures 8 * (ByteLen(nbits) - 1) < Pow2(nbits) <= 8 * ByteLen(nbits)
  {
    MaskIsMod(hashv, nbits);
  }

  /** HASH_BLOOM_ADD. Bits are only ever added. */
  method Add(bv: array<Byte>, nbits: nat, hashv: nat)
    requires bv.Length == ByteLen(nbits)
    modifies bv
    ensures IsSet(bv, BitOf(hashv, nbits))
    ensures forall idx: nat {:trigger IsSet(bv, idx)} :: old(IsSet(bv, idx)) ==> IsSet(bv, idx)
    ensures forall idx: nat {:trigger IsSet(bv, idx)} ::
            IsSet(bv, idx) ==> old(IsSet(bv, idx)) || idx == BitOf(hashv, nbits)
  {
    var idx := BitOf(hashv, nbits);
    ghost var was := bv[idx / 8];
    bv[idx / 8] := bv[idx / 8] | Bit(idx % 8);
    forall other: nat ensures IsSet(bv, other) <==> old(IsSet(bv, other)) || other == idx {
      if other / 8 == idx / 8 {
        OrBit(was, idx % 8, other % 8);
        SameBit(idx, other);
      }
    }
  }

  lemma SameBit(i: nat, j: nat)
    requires i / 8 == j / 8
    ensures i == j <==> i % 8 == j % 8
  {
  }

  lemma OrBit(v: Byte, j: nat, k: nat)
    requires j < 8 && k < 8
    ensures (v | Bit(j)) & Bit(k) != 0 <==> v & Bit(k) != 0 || k == j
  {
    var b, c := Bit(j), Bit(k);
    assert (v | b) & c == (v & c) | (b & c);
    assert b & c != 0 <==> k == j by { BitsApart(j, k); }
  }

  lemma BitsApart(j: nat, k: nat)
    requires j < 8 && k < 8
    ensures Bit(j) & Bit(k) != 0 <==> k == j
  {
    assert j == 0 || j == 1 || j == 2 || j == 3 || j == 4 || j == 5 || j == 6 || j == 7;
    assert k == 0 || k == 1 || k == 2 || k == 3 || k == 4 || k == 5 || k == 6 || k == 7;
  }

  /** HASH_BLOOM_TEST. */
  method Test(bv: array<Byte>, nbits: nat, hashv: nat) returns (hit: bool)
    requires bv.Length == ByteLen(nbits)
    ensures hit <==> IsSet(bv, BitOf(hashv, nbits))
  {
    var idx := BitOf(hashv, nbits);
    hit := bv[idx / 8] & Bit(idx % 8) != 0;
  }
}
