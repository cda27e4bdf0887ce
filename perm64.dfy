/** A permutation of at most 16 points packed into one 64-bit word
    (src/perm64.rs): nibble i (bits 4i..4i+3) holds the image of i+1,
    minus one. */
module Packed {
  import opened Traits
  import opened Swaps

  /** The packed word of the identity of S16: nibble i holds i. */
  const IdentityBits: bv64 := 0xfedc_ba98_7654_3210

  /** The packed word of the involution (2 4): the identity's nibbles with
      nibbles 1 and 3 exchanged. */
  const TwoFourBits: bv64 := 0xfedc_ba98_7654_1230

  /** Nibble k of a word: shift right by 4k and mask with 0xF. */
  function NibbleAt(bits: bv64, k: bv64): (r: bv64)
    requires k < 16
    ensures r < 16
  {
    (bits >> (4 * k)) & 0xF
  }

  /** The word with nibble k replaced by x and every other nibble kept. */
  function SetNibbleAt(bits: bv64, k: bv64, x: bv64): bv64
    requires k < 16 && x < 16
  {
    (bits & !(0xF << (4 * k))) | (x << (4 * k))
  }

  lemma SetNibbleAtReads(bits: bv64, k: bv64, x: bv64, m: bv64)
    requires k < 16 && x < 16 && m < 16
    ensures NibbleAt(SetNibbleAt(bits, k, x), m) == if k == m then x else NibbleAt(bits, m)
  {
  }

  /** A nibble index survives the conversion to a word and back. */
  lemma SmallIndex(i: nat)
    requires i < 16
    ensures (i as bv64) as int == i
  {
    if i < 4 {
      assert i == 0 || i == 1 || i == 2 || i == 3;
    } else if i < 8 {
      assert i == 4 || i == 5 || i == 6 || i == 7;
    } else if i < 12 {
      assert i == 8 || i == 9 || i == 10 || i == 11;
    } else {
      assert i == 12 || i == 13 || i == 14 || i == 15;
    }
  }

  /** Nibble i of a word, as a number in [0, 16). */
  function Nibble(bits: bv64, i: nat): (r: int)
    requires i < 16
    ensures 0 <= r < 16
  {
    NibbleAt(bits, i as bv64) as int
  }

  /** The word with nibble i replaced by x. */
  function SetNibble(bits: bv64, i: nat, x: bv64): bv64
    requires i < 16 && x < 16
  {
    SetNibbleAt(bits, i as bv64, x)
  }

  /** No two of the sixteen nibbles hold the same value: the word is the
      one-line form of a permutation of {1..16}. */
  predicate NibblesDistinct(bits: bv64) {
    forall i: nat, j: nat :: i < j < 16 ==> Nibble(bits, i) != Nibble(bits, j)
  }

  datatype Perm64 = Perm64(bits: bv64) {

    /** `Mapping::apply`: every point above 16 is fixed; for 1 <= v <= 16
        the image is nibble v-1 plus one. v == 0 is excluded: `v - 1`
        underflows the byte. */
    function Apply(v: U8): (r: U8)
      requires 1 <= v
      ensures 16 < v ==> r == v
      ensures v <= 16 ==> 1 <= r <= 16 && r == Nibble(bits, v - 1) + 1
    {
      if v > 16 then v else (Nibble(bits, v - 1) + 1) as U8
    }

    /** The `apply` as a mapping: defined on every point v >= 1, with every
        point above 16 fixed and every image of {1..16} in {1..16}. */
    function Mapping(): (f: U8 --> U8)
      ensures forall v: U8 :: 1 <= v ==> f.requires(v)
      ensures forall v: U8 :: 16 < v ==> f(v) == v
      ensures forall v: U8 :: 1 <= v <= 16 ==> 1 <= f(v) <= 16
    {
      (v: U8) requires 1 <= v => Apply(v)
    }
  }

  /** Nibble i of a word written with SetNibble is the written value, and
      every other nibble is the old one. */
  lemma SetNibbleReads(bits: bv64, i: nat, x: bv64, j: nat)
    requires i < 16 && x < 16 && j < 16
    ensures Nibble(SetNibble(bits, i, x), j) == if i == j then x as int else Nibble(bits, j)
  {
    SmallIndex(i);
    SmallIndex(j);
    SetNibbleAtReads(bits, i as bv64, x, j as bv64);
  }

  /** `apply(v)` depends on nibble v-1 alone: rewriting any other nibble
      leaves it unchanged, and rewriting nibble v-1 to x makes it x+1. */
  lemma ApplyLocal(bits: bv64, i: nat, x: bv64, v: U8)
    requires i < 16 && x < 16 && 1 <= v
    ensures Perm64(SetNibble(bits, i, x)).Apply(v)
            == if v == i + 1 then x as int + 1 else Perm64(bits).Apply(v)
  {
    if v <= 16 {
      var after := SetNibble(bits, i, x);
      SetNibbleReads(bits, i, x, v - 1);
      assert Perm64(after).Apply(v) == Nibble(after, v - 1) + 1;
      assert Perm64(bits).Apply(v) == Nibble(bits, v - 1) + 1;
    }
  }

  lemma IdentityNibbles(k: bv64)
    requires k < 16
    ensures NibbleAt(IdentityBits, k) == k
  {
  }

  lemma TwoFourNibbles(k: bv64)
    requires k < 16
    ensures NibbleAt(TwoFourBits, k) == if k == 1 then 3 else if k == 3 then 1 else k
  {
  }

  /** `0xfedcba9876543210` is the identity: it fixes every point. */
  lemma IdentityFixes(v: U8)
    requires 1 <= v
    ensures Perm64(IdentityBits).Apply(v) == v
  {
    if v <= 16 {
      SmallIndex(v - 1);
      IdentityNibbles((v - 1) as bv64);
    }
  }

  /** `0xfe...541230` is Involution(2, 4): it agrees with the swap (2 4) on
      every point. */
  lemma TwoFourIsSwap(v: U8)
    requires 1 <= v
    ensures Perm64(TwoFourBits).Apply(v) == Swap.New(2, 4).Apply(v)
  {
    if v <= 16 {
      var k := (v - 1) as bv64;
      SmallIndex(v - 1);
      TwoFourNibbles(k);
      if v == 2 {
        assert k == 1;
      } else if v == 4 {
        assert k == 3;
      } else {
        assert k != 1 && k != 3;
      }
    }
  }

  /** A word whose sixteen nibbles are distinct is a permutation of
      {1..16}: it meets the mapping contract at order 16, the largest order
      the packing holds. */
  lemma DistinctMeetsContract(bits: bv64)
    requires NibblesDistinct(bits)
    ensures MappingContract(Perm64(bits).Mapping(), 16)
  {
    var p := Perm64(bits);
    forall v: U8, w: U8 | 1 <= v < w <= 16
      ensures p.Apply(v) != p.Apply(w)
    {
      var i: nat, j: nat := v - 1, w - 1;
      assert Nibble(bits, i) != Nibble(bits, j);
    }
  }

  /** The identity word has distinct nibbles. */
  lemma IdentityDistinct()
    ensures NibblesDistinct(IdentityBits)
  {
    forall i: nat, j: nat | i < j < 16
      ensures Nibble(IdentityBits, i) != Nibble(IdentityBits, j)
    {
      IdentityFixes((i + 1) as U8);
      IdentityFixes((j + 1) as U8);
    }
  }
}
