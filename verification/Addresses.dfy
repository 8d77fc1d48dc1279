/** The masking of _getNodeForElement on 64-bit words (src/internal/pumautil.c:66-73), against the arithmetic
    on natural addresses that Layout uses. */
module Addresses {
  import opened Layout
  import opened PackedMask

  function Pow2(k: nat): nat { if k == 0 then 1 else 2 * Pow2(k - 1) }

  /** The number that the leading n bits of a word stand for. */
  function Value(w: bv64, n: nat): nat
    requires n <= 64
  {
    if n == 0 then 0 else 2 * Value(w, n - 1) + if TestBit(w, Shift(n - 1)) then 1 else 0
  }

  /** The address that a word stands for. */
  function Address(w: bv64): nat { Value(w, 64) }

  /** The word with only bit i set, counted from the most significant one. */
  function BitWord(i: nat): bv64
    requires i < 64
    decreases 64 - i
  {
    if i == 63 then 1 else BitWord(i + 1) << 1
  }

  lemma OnlyOne(s: bv8)
    requires s < 64
    ensures TestBit(1, s) == (s == 0)
  {}

  lemma ShiftLast(i: nat)
    requires i < 64
    ensures Shift(i) == 0 <==> i == 63
    ensures i < 63 ==> Shift(i + 1) == Shift(i) - 1
  {}

  lemma {:induction false} BitWordBits(i: nat, j: nat)
    requires i < 64 && j < 64
    ensures TestBit(BitWord(i), Shift(j)) == (i == j)
    decreases 64 - i
  {
    hide TestBit, Shift;
    ShiftLast(j);
    if i == 63 {
      OnlyOne(Shift(j));
    } else {
      ShiftLeftOnce(BitWord(i + 1), Shift(j));
      if j < 63 { BitWordBits(i + 1, j + 1); }
    }
  }

  /** ~(size - 1) for the block size whose only bit is bit i. */
  function MaskAt(i: nat): bv64
    requires i < 64
  {
    Below(BitWord(i))
  }

  function Below(size: bv64): bv64 { !(size - 1) }

  /** ~(size - 1) for a block size of 2^k. */
  function SizeMask(k: nat): bv64
    requires k < 64
  {
    MaskAt(63 - k)
  }

  lemma BelowDoubles(size: bv64)
    ensures Below(size << 1) == Below(size) << 1
  {}

  lemma MaskDoubles(i: nat)
    requires i < 63
    ensures MaskAt(i) == MaskAt(i + 1) << 1
  {
    hide Below;
    BelowDoubles(BitWord(i + 1));
  }

  /** It keeps the bits from the block size's own upwards. */
  lemma {:induction false} MaskIsLeading(i: nat)
    requires i < 64
    ensures MaskAt(i) == LeadingMask(i + 1)
    decreases 64 - i
  {
    if i == 63 {
      assert MaskAt(63) == LeadingMask(64);
    } else {
      hide MaskAt;
      MaskDoubles(i);
      MaskIsLeading(i + 1);
    }
  }

  function And(a: bv64, b: bv64): bv64 { a & b }

  lemma TestOfAnd(a: bv64, b: bv64, s: bv8)
    requires s < 64
    ensures TestBit(a & b, s) == (TestBit(a, s) && TestBit(b, s))
  {}

  lemma AndBit(a: bv64, b: bv64, s: bv8)
    requires s < 64
    ensures TestBit(And(a, b), s) == (TestBit(a, s) && TestBit(b, s))
  {
    hide TestBit;
    TestOfAnd(a, b, s);
  }

  /** A word with all but its leading m bits cleared. */
  function Masked(w: bv64, m: nat): bv64
    requires 1 <= m <= 64
  {
    And(w, LeadingMask(m))
  }

  /** _getNodeForElement for a block size of 2^k: the word and ~(size - 1). */
  function NodeWord(w: bv64, k: nat): bv64
    requires k < 64
  {
    And(w, SizeMask(k))
  }

  lemma MaskedBits(w: bv64, m: nat, i: nat)
    requires 1 <= m <= 64 && i < 64
    ensures TestBit(Masked(w, m), Shift(i)) == (i < m && TestBit(w, Shift(i)))
  {
    hide And, TestBit, Shift, LeadingMask;
    AndBit(w, LeadingMask(m), Shift(i));
    LeadingMaskBits(m, i);
  }

  /** The value of a power of two. */
  lemma {:induction false} ValueOfBitWord(i: nat, n: nat)
    requires i < 64 && n <= 64
    ensures Value(BitWord(i), n) == if n <= i then 0 else Pow2(n - 1 - i)
  {
    hide TestBit, Shift, BitWord;
    if n > 0 {
      ValueOfBitWord(i, n - 1);
      BitWordBits(i, n - 1);
    }
  }

  /** v times 2^k. */
  function Scaled(v: nat, k: nat): (r: nat)
    ensures r == v * Pow2(k)
  {
    if k == 0 then v else 2 * Scaled(v, k - 1)
  }

  /** Clearing all but the leading m bits keeps their value, and what is lost is less than the power of two
      that the others could count. */
  lemma {:induction false} ValueOfMasked(w: bv64, m: nat, n: nat)
    requires 1 <= m <= n <= 64
    ensures Value(Masked(w, m), n) == Scaled(Value(w, m), n - m)
    ensures Scaled(Value(w, m), n - m) <= Value(w, n) < Scaled(Value(w, m), n - m) + Pow2(n - m)
  {
    hide TestBit, Shift, Masked;
    if n == m {
      LeadingBitsStay(w, m, m);
    } else {
      ValueOfMasked(w, m, n - 1);
      MaskedBits(w, m, n - 1);
    }
  }

  lemma {:induction false} LeadingBitsStay(w: bv64, m: nat, n: nat)
    requires 1 <= m <= 64 && n <= m
    ensures Value(Masked(w, m), n) == Value(w, n)
  {
    hide TestBit, Shift, Masked;
    if n > 0 {
      LeadingBitsStay(w, m, n - 1);
      MaskedBits(w, m, n - 1);
    }
  }

  /** For a block size of 2^k, masking a word with ~(size - 1) subtracts the remainder of its address. */
  lemma MaskingIsSubtracting(w: bv64, k: nat)
    requires k < 64
    ensures Address(BitWord(63 - k)) == Pow2(k) > 0
    ensures Address(NodeWord(w, k)) == GetNodeForElement(Address(w), Pow2(k))
  {
    hide Value, BitWord, MaskAt, And, LeadingMask, GetNodeForElement;
    MaskIsLeading(63 - k);
    MaskedIsSubtracting(w, k);
    ValueOfBitWord(63 - k, 64);
  }

  lemma MaskedIsSubtracting(w: bv64, k: nat)
    requires k < 64
    ensures Pow2(k) > 0 && Address(Masked(w, 64 - k)) == GetNodeForElement(Address(w), Pow2(k))
  {
    hide Value, Masked, Scaled;
    ValueOfMasked(w, 64 - k, 64);
    DivideExact(Address(w), Pow2(k), Value(w, 64 - k), Address(w) - Scaled(Value(w, 64 - k), k));
  }

  /** The round trip of Layout on 64-bit words: masking a word that holds the address of any byte of slot i
      gives the word's block, whatever power of two the block size is. */
  lemma WordRoundTrip(b: Block, i: nat, byte: nat, w: bv64, k: nat)
    requires Aligned(b) && i < CapacityOf(b) && byte < b.elemSize
    requires k < 64 && b.size == Pow2(k) && Address(w) == GetElement(b, i) + byte
    ensures Address(NodeWord(w, k)) == b.base
    ensures GetIndexOfElement(b, Address(w)) == i
  {
    hide Value, NodeWord, Capacity;
    MaskingIsSubtracting(w, k);
    AddressRoundTrip(b, i, byte);
  }
}
