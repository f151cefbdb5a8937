/** The Bloom filter of include/hashtable.h: one bit for the low bits of each hash value added. */
module BloomFilter {
  import opened Bits

  /** 1U << k */
  function Mask(k: nat): (m: bv8)
    requires k < 8
  {
    1 << k
  }

  lemma MaskValues(k: nat)
    requires k < 8
    ensures Mask(k) == match k case 0 => 1 case 1 => 2 case 2 => 4 case 3 => 8
        case 4 => 16 case 5 => 32 case 6 => 64 case _ => 128
  {
  }

  /** Setting a bit sets that one and no other. */
  lemma SetBit(b: bv8, j: nat, k: nat)
    requires j < 8 && k < 8
    ensures (b | Mask(k)) & Mask(j) != 0 <==> j == k || b & Mask(j) != 0
  {
    MaskValues(j);
    MaskValues(k);
  }

  class Bloom {
    const nbits: nat
    const bv: array<bv8>
    /** The bits that are set. */
    ghost var marks: set<nat>
    /** The hash values added so far. */
    ghost var added: set<nat>

    ghost predicate BitAt(i: nat)
      requires i / 8 < bv.Length
      reads bv
    {
      bv[i / 8] & Mask(i % 8) != 0
    }

    ghost predicate Valid()
      reads this, bv
    {
      && 8 * bv.Length >= Pow2(nbits)
      && (forall i | i in marks :: i < Pow2(nbits)) && marks == (set a | a in added :: Low(a))
      && forall i: nat | i < Pow2(nbits) :: i in marks <==> i / 8 < bv.Length && BitAt(i)
    }

    /** The low bits of a hash value. */
    ghost function Low(hashv: nat): nat {
      hashv % Pow2(nbits)
    }

    /** The bit a hash value stands for. */
    function Index(hashv: nat): nat { And(hashv, Pow2(nbits) - 1) }

    lemma IndexIsMod(hashv: nat)
      ensures Index(hashv) == hashv % Pow2(nbits) == Low(hashv)
    {
      MaskIsMod(hashv, nbits);
    }

    /** HASH_BLOOM_MAKE */
    constructor (nbits: nat)
      ensures Valid() && marks == {} && added == {} && fresh(bv) && this.nbits == nbits
    {
      this.nbits := nbits;
      var bitlen := Pow2(nbits);
      bv := new bv8[bitlen / 8 + if bitlen % 8 != 0 then 1 else 0](_ => 0);
      marks, added := {}, {};
    }

    /** HASH_BLOOM_ADD */
    method Add(hashv: nat)
      requires Valid()
      modifies this, bv
      ensures Valid() && added == old(added) + {hashv}
      ensures marks == old(marks) + {hashv % Pow2(nbits)}
    {
      IndexIsMod(hashv);
      var idx := Index(hashv);
      bv[idx / 8] := bv[idx / 8] | Mask(idx % 8);
      marks, added := marks + {idx}, added + {hashv};
      forall i: nat | i < Pow2(nbits) && i / 8 < bv.Length
        ensures BitAt(i) <==> i == idx || old(BitAt(i))
      {
        if i / 8 == idx / 8 { SetBit(old(bv[i / 8]), i % 8, idx % 8); }
      }
    }

    /** HASH_BLOOM_TEST: true exactly when some hash value with the same low bits has been added. */
    method Test(hashv: nat) returns (hit: bool)
      requires Valid()
      ensures hit <==> exists a | a in added :: a % Pow2(nbits) == hashv % Pow2(nbits)
    {
      IndexIsMod(hashv);
      var idx := Index(hashv);
      hit := bv[idx / 8] & Mask(idx % 8) != 0;
      assert hit <==> idx in marks by { assert idx / 8 < bv.Length && (BitAt(idx) <==> idx in marks); }
      MarkedIff(hashv);
    }

    lemma MarkedIff(hashv: nat)
      requires marks == (set a | a in added :: Low(a))
      ensures Low(hashv) in marks <==> exists a | a in added :: a % Pow2(nbits) == hashv % Pow2(nbits)
    {
      assert forall a | a in added :: Low(a) in marks && Low(a) == a % Pow2(nbits);
    }
  }
}
