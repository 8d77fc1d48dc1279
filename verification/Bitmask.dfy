/** src/internal/bitmask.c: a mask packed into 64-bit buckets, element 0 in the most significant bit. */
module PackedMask {
  const MASK_FREE: bv8 := 1
  const MASK_NOT_FREE: bv8 := 0
  const NOT_FOUND: nat := 0xFFFF_FFFF_FFFF_FFFF

  predicate TestBit(w: bv64, s: bv8)
    requires s < 64
  {
    (w >> s) & 1 == 1
  }

  /** 63 - i in eight bits. */
  function SixtyThreeMinus(i: nat): (s: bv8)
    requires i < 64
    ensures s as nat == 63 - i && s < 64
  {
    if i == 0 then 63 else SixtyThreeMinus(i - 1) - 1
  }

  /** lOffset, which brings element i of a bucket to bit 0. */
  function Shift(i: nat): (s: bv8)
    requires i < 64
    ensures s < 64
  {
    SixtyThreeMinus(i)
  }

  lemma ShiftDistinct(i: nat, j: nat)
    requires i < 64 && j < 64 && Shift(i) == Shift(j)
    ensures i == j
  {}

  /** The leading n bits of a bucket, the others cleared. */
  function LeadingMask(n: nat): bv64
    requires 1 <= n <= 64
    decreases 64 - n
  {
    if n == 64 then 0xFFFF_FFFF_FFFF_FFFF else LeadingMask(n + 1) << 1
  }

  lemma ShiftLeftOnce(w: bv64, s: bv8)
    requires s < 64
    ensures TestBit(w << 1, s) == (s > 0 && TestBit(w, s - 1))
  {}

  lemma {:induction false} LeadingMaskBits(n: nat, i: nat)
    requires 1 <= n <= 64 && i < 64
    ensures TestBit(LeadingMask(n), Shift(i)) == (i < n)
    decreases 64 - n
  {
    if n == 64 {
      AllOnes(Shift(i));
    } else {
      ShiftLeftOnce(LeadingMask(n + 1), Shift(i));
      if i < 63 {
        LeadingMaskBits(n + 1, i + 1);
      }
    }
  }

  lemma AllOnes(s: bv8)
    requires s < 64
    ensures TestBit(0xFFFF_FFFF_FFFF_FFFF, s) && !TestBit(0, s)
  {}

  /** The word after or-ing in (value << s) and masking with ~((1 - value) << s). */
  function WithBit(w: bv64, s: bv8, value: bool): bv64
    requires s < 64
  {
    if value then (w | ((1 as bv64) << s)) & !((0 as bv64) << s)
    else (w | ((0 as bv64) << s)) & !((1 as bv64) << s)
  }

  lemma WithBitTest(w: bv64, s: bv8, value: bool, t: bv8)
    requires s < 64 && t < 64
    ensures TestBit(WithBit(w, s, value), t) == if s == t then value else TestBit(w, t)
  {
    if value { WithOne(w, s, t); } else { WithZero(w, s, t); }
  }

  lemma WithOne(w: bv64, s: bv8, t: bv8)
    requires s < 64 && t < 64
    ensures TestBit((w | ((1 as bv64) << s)) & !((0 as bv64) << s), t) == (s == t || TestBit(w, t))
  {}

  lemma WithZero(w: bv64, s: bv8, t: bv8)
    requires s < 64 && t < 64
    ensures TestBit((w | ((0 as bv64) << s)) & !((1 as bv64) << s), t) == (s != t && TestBit(w, t))
  {}

  /** 0 for a search of ones and all-ones for a search of zeros: the sign-extended (value & 1) - 1. */
  function ValueMask(value: bv8): bv64 {
    if value & 1 == 1 then 0 else 0xFFFF_FFFF_FFFF_FFFF
  }

  lemma SkippedBit(w: bv64, mask: bv64, value: bv8, s: bv8)
    requires value <= 1 && s < 64 && TestBit(mask, s)
    requires (w ^ ValueMask(value)) & mask == 0
    ensures TestBit(w, s) != (value == 1)
  {}

  /** A bucket that the masked comparison skips holds the value nowhere among its leading n bits. */
  lemma SkippedBucket(w: bv64, value: bv8, n: nat, i: nat)
    requires value <= 1 && 1 <= n <= 64 && i < n
    requires (w ^ ValueMask(value)) & LeadingMask(n) == 0
    ensures TestBit(w, Shift(i)) != (value == 1)
  {
    LeadingMaskBits(n, i);
    SkippedBit(w, LeadingMask(n), value, Shift(i));
  }

  class Bitmask {
    const buckets: array<bv64>
    const numElements: nat

    ghost predicate Valid() {
      buckets.Length == (numElements + 63) / 64
    }

    /** The meaning of the packed words: one boolean an element, true where the bit is 1. */
    ghost function Bits(): (bits: seq<bool>)
      requires Valid()
      reads buckets
      ensures |bits| == numElements
    {
      seq(numElements, i requires 0 <= i < numElements reads buckets => TestBit(buckets[i / 64], Shift(i % 64)))
    }

    constructor (n: nat, initialValue: bv8)
      ensures Valid() && fresh(buckets) && numElements == n
      ensures Bits() == seq(n, i => initialValue & 1 == 1)
    {
      var w: bv64 := if initialValue & 1 == 1 then 0xFFFF_FFFF_FFFF_FFFF else 0;
      numElements := n;
      buckets := new bv64[(n + 63) / 64](_ => w);
      new;
      forall i | 0 <= i < n ensures Bits()[i] == (initialValue & 1 == 1) {
        AllOnes(Shift(i % 64));
      }
    }

    function Get(index: nat): (value: bv8)
      requires Valid() && index < numElements
      reads buckets
      ensures value <= 1 && (value == MASK_FREE <==> Bits()[index])
    {
      if (buckets[index / 64] >> Shift(index % 64)) & 1 == 1 then 1 else 0
    }

    method Set(index: nat, value: bv8)
      requires Valid() && index < numElements
      modifies buckets
      ensures Bits() == old(Bits())[index := value & 1 == 1]
    {
      hide TestBit, Shift, WithBit;
      var w := buckets[index / 64];
      buckets[index / 64] := WithBit(w, Shift(index % 64), value & 1 == 1);
      forall i | 0 <= i < numElements ensures Bits()[i] == old(Bits())[index := value & 1 == 1][i] {
        WithBitTest(w, Shift(index % 64), value & 1 == 1, Shift(i % 64));
        if Shift(i % 64) == Shift(index % 64) { ShiftDistinct(i % 64, index % 64); }
        assert i / 64 == index / 64 && i % 64 == index % 64 ==> i == index;
      }
    }

    /** Where element i of a bucket stands in the mask. */
    lemma BitOf(bucket: nat, i: nat)
      requires Valid() && i < 64 && bucket * 64 + i < numElements
      ensures bucket < buckets.Length && Bits()[bucket * 64 + i] == TestBit(buckets[bucket], Shift(i))
    {
      hide TestBit, Shift;
      assert (bucket * 64 + i) / 64 == bucket && (bucket * 64 + i) % 64 == i;
    }

    /** The leading n elements of a bucket do not hold the value. */
    ghost predicate Absent(bucket: nat, n: nat, value: bv8)
      requires bucket < buckets.Length && n <= 64
      reads buckets
    {
      forall i :: 0 <= i < n ==> TestBit(buckets[bucket], Shift(i)) != (value == 1)
    }

    lemma AbsentBits(bucket: nat, n: nat, value: bv8)
      requires Valid() && bucket < buckets.Length && n <= 64 && bucket * 64 + n <= numElements
      requires Absent(bucket, n, value)
      ensures forall j :: bucket * 64 <= j < bucket * 64 + n ==> Bits()[j] != (value == 1)
    {
      hide TestBit, Shift;
      forall j | bucket * 64 <= j < bucket * 64 + n ensures Bits()[j] != (value == 1) {
        BitOf(bucket, j - bucket * 64);
      }
    }

    /** The masked comparison that lets the search skip a bucket. */
    predicate Skips(bucket: nat, n: nat, value: bv8)
      requires bucket < buckets.Length && 1 <= n <= 64
      reads buckets
    {
      (buckets[bucket] ^ ValueMask(value)) & LeadingMask(n) == 0
    }

    lemma SkippedIsAbsent(bucket: nat, n: nat, value: bv8)
      requires bucket < buckets.Length && 1 <= n <= 64 && value <= 1 && Skips(bucket, n, value)
      ensures Absent(bucket, n, value)
    {
      hide TestBit, Shift, LeadingMask, ValueMask;
      forall i | 0 <= i < n ensures TestBit(buckets[bucket], Shift(i)) != (value == 1) {
        SkippedBucket(buckets[bucket], value, n, i);
      }
    }

    /** Scanning the leading n elements of a bucket upwards. */
    method ScanUp(bucket: nat, n: nat, value: bv8) returns (i: nat, found: bool)
      requires bucket < buckets.Length && n <= 64
      ensures found ==> i < n && TestBit(buckets[bucket], Shift(i)) == (value == 1) && Absent(bucket, i, value)
      ensures !found ==> Absent(bucket, n, value)
    {
      hide TestBit, Shift;
      i := 0;
      while i < n
        invariant i <= n && Absent(bucket, i, value)
      {
        if TestBit(buckets[bucket], Shift(i)) == (value == 1) {
          return i, true;
        }
        i := i + 1;
      }
      return i, false;
    }

    method FirstIndexOfValue(value: bv8) returns (index: nat, found: bool)
      requires Valid() && numElements > 0 && value <= 1
      ensures found ==> index < numElements && Bits()[index] == (value == 1)
      ensures found ==> forall j :: 0 <= j < index ==> Bits()[j] != (value == 1)
      ensures !found ==> index == NOT_FOUND && forall j :: 0 <= j < numElements ==> Bits()[j] != (value == 1)
    {
      hide TestBit, Shift, Skips, Absent;
      var bucket := 0;
      while bucket * 64 < numElements
        invariant bucket <= buckets.Length
        invariant forall j :: 0 <= j < bucket * 64 && j < numElements ==> Bits()[j] != (value == 1)
        decreases buckets.Length - bucket
      {
        var n := numElements - bucket * 64;
        if n >= 64 { n := 64; }
        if !Skips(bucket, n, value) {
          var i, hit := ScanUp(bucket, n, value);
          if hit {
            AbsentBits(bucket, i, value);
            BitOf(bucket, i);
            return bucket * 64 + i, true;
          }
        } else {
          SkippedIsAbsent(bucket, n, value);
        }
        AbsentBits(bucket, n, value);
        bucket := bucket + 1;
      }
      return NOT_FOUND, false;
    }

    /** Scanning the leading n elements of a bucket downwards: i counts from bit 0. */
    method ScanDown(bucket: nat, n: nat, value: bv8) returns (at: nat, found: bool)
      requires bucket < buckets.Length && n <= 64
      ensures found ==> at < n && TestBit(buckets[bucket], Shift(at)) == (value == 1)
      ensures found ==> forall i :: at < i < n ==> TestBit(buckets[bucket], Shift(i)) != (value == 1)
      ensures !found ==> Absent(bucket, n, value)
    {
      hide TestBit, Shift;
      var i := 64 - n;
      while i < 64
        invariant 64 - n <= i <= 64
        invariant forall j :: 63 - i < j < n ==> TestBit(buckets[bucket], Shift(j)) != (value == 1)
      {
        if TestBit(buckets[bucket], Shift(63 - i)) == (value == 1) {
          return 63 - i, true;
        }
        i := i + 1;
      }
      return 0, false;
    }

    method LastIndexOfValue(value: bv8) returns (index: nat, found: bool)
      requires Valid() && value <= 1
      ensures found ==> index < numElements && Bits()[index] == (value == 1)
      ensures found ==> forall j :: index < j < numElements ==> Bits()[j] != (value == 1)
      ensures !found ==> index == NOT_FOUND && forall j :: 0 <= j < numElements ==> Bits()[j] != (value == 1)
    {
      hide TestBit, Shift, Skips, Absent;
      var bucket := (numElements + 63) / 64;
      while bucket > 0
        invariant 0 <= bucket <= buckets.Length
        invariant forall j :: bucket * 64 <= j < numElements ==> Bits()[j] != (value == 1)
      {
        bucket := bucket - 1;
        var n := numElements - bucket * 64;
        if n >= 64 { n := 64; }
        if !Skips(bucket, n, value) {
          var at, hit := ScanDown(bucket, n, value);
          if hit {
            forall j | bucket * 64 + at < j < bucket * 64 + n ensures Bits()[j] != (value == 1) {
              BitOf(bucket, j - bucket * 64);
            }
            BitOf(bucket, at);
            return bucket * 64 + at, true;
          }
        } else {
          SkippedIsAbsent(bucket, n, value);
        }
        AbsentBits(bucket, n, value);
      }
      return NOT_FOUND, false;
    }
  }
}
