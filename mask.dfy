/**
 * The membership mask (`letters_table`) of a chain node and the counting
 * step `count_uper_bits` that drives prefix compression.
 *
 * The C code keeps the mask in a `uint64_t`, bit j standing for identifier j.
 * Here the mask is the set of identifiers whose bits are set, so
 * `letters_table |= 1ULL << id` is `mask + {id}` and
 * `letters_table & (1ULL << j)` is `j in mask`.
 */
module Mask {

  /** Number of element identifiers a node can record (the C constant LLA). */
  const LLA: int := 64

  /** A 64-bit `letters_table`: the identifiers 0 .. LLA - 1 whose bits are set. */
  type Letters = s: set<int> | forall j :: j in s ==> 0 <= j < LLA

  /** Whether `id` is a valid bit position of a `letters_table`. */
  predicate IsLetter(id: int)
  {
    0 <= id < LLA
  }

  /** Number of identifiers of `mask` in lo .. LLA - 1. */
  function CountFrom(mask: Letters, lo: nat): nat
    decreases LLA - lo
  {
    if lo >= LLA then 0
    else (if lo in mask then 1 else 0) + CountFrom(mask, lo + 1)
  }

  /**
   * What `count_uper_bits` computes: the number of bits of `mask` set
   * strictly above `pos`. There are at most 63 - pos of them, and there are
   * none exactly when every recorded identifier is at or below `pos`.
   */
  function UpperBits(mask: Letters, pos: int): (count: nat)
    requires -1 <= pos
    ensures count <= if pos < LLA then LLA - 1 - pos else 0
    ensures count == 0 <==> forall j :: j in mask ==> j <= pos
  {
    CountFromBounds(mask, pos + 1);
    CountFrom(mask, pos + 1)
  }

  /** The recorded identifiers from `lo` upward. */
  function From(mask: Letters, lo: int): set<int>
  {
    set j | j in mask && lo <= j
  }

  lemma {:induction false} CountFromIsCardinality(mask: Letters, lo: nat)
    ensures CountFrom(mask, lo) == |From(mask, lo)|
    decreases LLA - lo
  {
    if lo >= LLA {
      assert From(mask, lo) == {};
    } else {
      CountFromIsCardinality(mask, lo + 1);
      var rest := From(mask, lo + 1);
      if lo in mask {
        assert From(mask, lo) == {lo} + rest;
      } else {
        assert From(mask, lo) == rest;
      }
    }
  }

  lemma {:induction false} CountFromBounds(mask: Letters, lo: nat)
    ensures CountFrom(mask, lo) <= if lo < LLA then LLA - lo else 0
    ensures CountFrom(mask, lo) == 0 <==> forall j :: j in mask ==> j < lo
    decreases LLA - lo
  {
    if lo < LLA {
      CountFromBounds(mask, lo + 1);
    }
  }

  /** Two masks that agree from `lo` upward have the same count there. */
  lemma {:induction false} CountFromAgrees(m1: Letters, m2: Letters, lo: nat)
    requires forall j :: lo <= j ==> (j in m1 <==> j in m2)
    ensures CountFrom(m1, lo) == CountFrom(m2, lo)
    decreases LLA - lo
  {
    if lo < LLA {
      CountFromAgrees(m1, m2, lo + 1);
    }
  }

  /**
   * The count is the number of recorded identifiers greater than `pos`; it
   * is at most 63 - pos, and it is zero exactly when nothing above `pos` is
   * recorded.
   */
  lemma UpperBitsCounts(mask: Letters, pos: int)
    requires -1 <= pos
    ensures UpperBits(mask, pos) == |From(mask, pos + 1)|
    ensures UpperBits(mask, pos) <= if pos < LLA then LLA - 1 - pos else 0
    ensures UpperBits(mask, pos) == 0 <==> forall j :: j in mask ==> j <= pos
  {
    CountFromIsCardinality(mask, pos + 1);
  }

  /** The count does not look at the bits at or below `pos`. */
  lemma UpperBitsIgnoresLowBits(m1: Letters, m2: Letters, pos: int)
    requires -1 <= pos
    requires forall j :: pos < j ==> (j in m1 <==> j in m2)
    ensures UpperBits(m1, pos) == UpperBits(m2, pos)
  {
    CountFromAgrees(m1, m2, pos + 1);
  }

  /**
   * Setting the bit of `pos` just before counting does not change the
   * count: counting after the OR gives what counting before it would have.
   */
  lemma UpperBitsIgnoresOwnBit(mask: Letters, pos: int)
    requires IsLetter(pos)
    ensures UpperBits(mask + {pos}, pos) == UpperBits(mask, pos)
  {
    UpperBitsIgnoresLowBits(mask + {pos}, mask, pos);
  }

  /**
   * count_uper_bits: the loop over j = pos + 1 .. LLA - 1 that counts the
   * set bits of a node's mask.
   */
  method CountUpperBits(mask: Letters, pos: int) returns (count: nat)
    requires -1 <= pos < 0x7FFF_FFFF
    ensures count == UpperBits(mask, pos)
    ensures count <= if pos < LLA then LLA - 1 - pos else 0
    ensures count == |From(mask, pos + 1)|
  {
    count := 0;
    var j := pos + 1;
    while j < LLA
      invariant pos + 1 <= j
      invariant count + CountFrom(mask, j) == CountFrom(mask, pos + 1)
    {
      if j in mask {
        count := count + 1;
      }
      j := j + 1;
    }
    UpperBitsCounts(mask, pos);
  }
}
