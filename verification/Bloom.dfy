/** The Bloom filter that can gate lookups (`HASH_BLOOM` in src/uthash.h). */
module Bloom {
  import opened Bits

  /** `HASH_BLOOM_BYTELEN` for 2^nbits bits. */
  function ByteLen(nbits: nat): nat {
    Pow2(nbits) / 8 + (if Pow2(nbits) % 8 != 0 then 1 else 0)
  }

  /** The filter bit of a hash value: its low nbits bits. */
  function BitOf(hashv: Word, nbits: nat): (i: nat)
    ensures i / 8 < ByteLen(nbits)
  {
    MaskBound(hashv, nbits);
    And(hashv, Pow2(nbits) - 1)
  }

  /** `1U << i` within a byte. */
  function Bit(i: nat): (m: bv8)
    requires i < 8
    ensures m != 0
  {
    if i == 0 then 1 else if i == 1 then 2 else if i == 2 then 4 else if i == 3 then 8
    else if i == 4 then 16 else if i == 5 then 32 else if i == 6 then 64 else 128
  }

  predicate Has(b: bv8, m: bv8) {
    b & m != 0
  }

  /** `HASH_BLOOM_BITTEST` */
  predicate BitSet(bytes: seq<bv8>, i: nat) {
    i / 8 < |bytes| && Has(bytes[i / 8], Bit(i % 8))
  }

  /** The filter bytes with bit i set. */
  function WithBit(bytes: seq<bv8>, i: nat): seq<bv8>
    requires i / 8 < |bytes|
  {
    bytes[i / 8 := bytes[i / 8] | Bit(i % 8)]
  }

  /** `HASH_BLOOM_BITSET` */
  method SetBit(bv: array<bv8>, i: nat)
    requires i / 8 < bv.Length
    modifies bv
    ensures bv[..] == WithBit(old(bv[..]), i)
  {
    bv[i / 8] := bv[i / 8] | Bit(i % 8);
  }

  /** The same bits are set as before, and bit i. */
  ghost predicate Marked(before: seq<bv8>, after: seq<bv8>, i: nat) {
    forall j :: 0 <= j ==> (BitSet(after, j) <==> j == i || BitSet(before, j))
  }

  lemma SetMarks(bytes: seq<bv8>, i: nat)
    requires i / 8 < |bytes|
    ensures Marked(bytes, WithBit(bytes, i), i)
  {
    hide BitSet, WithBit;
    forall j: nat
      ensures BitSet(WithBit(bytes, i), j) <==> j == i || BitSet(bytes, j)
    {
      WithBitSets(bytes, i, j);
    }
  }

  lemma ClearIsEmpty(bytes: seq<bv8>)
    requires forall k :: 0 <= k < |bytes| ==> bytes[k] == 0
    ensures forall j: nat :: !BitSet(bytes, j)
    ensures forall after, i: nat :: Marked(bytes, after, i) <==> Marked([], after, i)
  {
    hide Bit;
  }

  /** Bit k of a byte, as the source shifts it. */
  lemma HasBit(b: bv8, k: nat)
    requires k < 8
    ensures Has(b, Bit(k)) <==> (b >> k) & 1 == 1
  {
  }

  lemma OrSets(b: bv8, m: bv8, x: bv8)
    ensures m != 0 ==> Has(b | m, m)
    ensures Has(b | m, x) <==> Has(b, x) || Has(m, x)
  {
  }

  lemma OneBit(i: nat, j: nat)
    requires i < 8 && j < 8
    ensures Has(Bit(i), Bit(j)) <==> i == j
  {
  }

  /** Setting a bit sets it and changes no other. */
  lemma WithBitSets(bytes: seq<bv8>, i: nat, j: nat)
    requires i / 8 < |bytes|
    ensures BitSet(WithBit(bytes, i), j) <==> j == i || BitSet(bytes, j)
  {
    OrSets(bytes[i / 8], Bit(i % 8), Bit(j % 8));
    OneBit(i % 8, j % 8);
  }

  /** The filter bit is the remainder of the hash value. */
  lemma BitOfIs(hashv: Word, nbits: nat)
    ensures BitOf(hashv, nbits) == hashv % Pow2(nbits)
  {
    hide Pow2, And;
    ShiftAndMask(hashv, nbits);
  }
}
