/** src/internal/bitmask.c:135-160 and src/internal/pumautil.c:48-73: where the mask and the elements
    of a node lie inside its block. Sizes and addresses are naturals; the source's size_t does not
    wrap for blocks that fit the address space. */
module Layout {

  const WORD: nat := 8   // sizeof(uint64_t)

  function Buckets(n: nat): nat { (n + 63) / 64 }

  /** Bytes taken by a mask of n bits followed by n elements. */
  function Footprint(n: nat, elemSize: nat): nat { n * elemSize + WORD * Buckets(n) }

  /** Bytes left over after as many groups of 64 elements and one mask word as fit. */
  function SpaceLeft(arraySize: nat, spacePerBucket: nat): (left: nat)
    requires spacePerBucket > 0
    ensures left == arraySize % spacePerBucket
  {
    WholeBuckets(arraySize, spacePerBucket);
    arraySize - (64 * (arraySize / spacePerBucket)) * spacePerBucket / 64
  }

  function ExtraElements(spaceLeft: nat, elemSize: nat): (k: nat)
    requires elemSize > 0
    ensures k == 0 <==> spaceLeft <= elemSize + WORD
    ensures k > 0 ==> k * elemSize <= spaceLeft - WORD < k * elemSize + elemSize
  {
    if spaceLeft > elemSize + WORD then
      Divide(spaceLeft - WORD, elemSize);
      (spaceLeft - WORD) / elemSize
    else 0
  }

  /** How many elements createPumaBitmaskForElemArray fits into arraySize bytes. */
  function Capacity(arraySize: nat, elemSize: nat): nat
    requires elemSize > 0
  {
    var spacePerBucket := 64 * elemSize + WORD;
    Divide(arraySize, spacePerBucket);
    64 * (arraySize / spacePerBucket) + ExtraElements(SpaceLeft(arraySize, spacePerBucket), elemSize)
  }

  /** The offset of the first element from the start of the mask. */
  function ElementOffset(capacity: nat): nat { WORD * Buckets(capacity) }

  lemma WholeBuckets(a: nat, s: nat)
    requires s > 0
    ensures (64 * (a / s)) * s / 64 == (a / s) * s && a - (a / s) * s == a % s
  {
    Associate(64, a / s, s);
  }

  lemma Associate(a: int, b: int, c: int)
    ensures (a * b) * c == a * (b * c)
  {}

  lemma Distribute(a: int, b: int, c: int)
    ensures (a + b) * c == a * c + b * c
    ensures c >= 0 && a >= 0 ==> a * c >= 0
    ensures c >= 0 && a >= 1 ==> a * c >= c
  {}

  lemma DivideExact(x: nat, d: nat, q: nat, r: nat)
    requires d > 0 && x == q * d + r && r < d
    ensures x / d == q && x % d == r
  {
    var t := x / d;
    assert x == t * d + x % d;
    Distribute(q, t - q, d);
    Distribute(t, q - t, d);
    Distribute(t - q, 0, d);
    Distribute(q - t, 0, d);
  }

  lemma Divide(x: nat, d: nat)
    requires d > 0
    ensures x / d >= 0 && x == (x / d) * d + x % d && (x >= d ==> x / d >= 1)
  {
    Distribute(-(x / d), 0, d);
  }

  /** Capacity in closed form: q full buckets, then k extra elements out of the r bytes left. */
  lemma CapacityForm(arraySize: nat, elemSize: nat) returns (q: nat, r: nat, k: nat)
    requires elemSize > 0
    ensures r == arraySize % (64 * elemSize + WORD)
    ensures arraySize == 64 * (q * elemSize) + WORD * q + r && r < 64 * elemSize + WORD
    ensures k == 0 <==> r <= elemSize + WORD
    ensures k < 64 && (k > 0 ==> k * elemSize <= r - WORD < k * elemSize + elemSize)
    ensures Capacity(arraySize, elemSize) == 64 * q + k
    ensures (64 * q + k) * elemSize == 64 * (q * elemSize) + k * elemSize
    ensures Buckets(64 * q + k) == q + if k == 0 then 0 else 1
  {
    hide SpaceLeft, ExtraElements;
    var s := 64 * elemSize + WORD;
    Divide(arraySize, s);
    q, r := arraySize / s, arraySize % s;
    k := ExtraElements(r, elemSize);
    Associate(64, q, elemSize);
    ProductOfSum(q, elemSize);
    Distribute(64, k - 64, elemSize);
    Distribute(k - 64, 0, elemSize);
    Distribute(64 * q, k, elemSize);
  }

  lemma ProductOfSum(q: int, e: int)
    ensures q * (64 * e + WORD) == 64 * (q * e) + WORD * q
  {}

  /** One more element never shrinks the footprint. */
  lemma FootprintMonotone(m: nat, n: nat, elemSize: nat)
    requires m <= n
    ensures Footprint(m, elemSize) <= Footprint(n, elemSize)
  {
    Distribute(m, n - m, elemSize);
  }

  lemma CapacityFits(arraySize: nat, elemSize: nat)
    requires elemSize > 0
    ensures Footprint(Capacity(arraySize, elemSize), elemSize) <= arraySize
  {
    var q, r, k := CapacityForm(arraySize, elemSize);
    hide Capacity;
  }

  /** Exactly one element and one mask word left over: the code gives that element away. */
  predicate LosesOne(arraySize: nat, elemSize: nat) {
    arraySize % (64 * elemSize + WORD) == elemSize + WORD
  }

  lemma NextOverflows(arraySize: nat, elemSize: nat)
    requires elemSize > 0
    ensures var n := Capacity(arraySize, elemSize);
      if LosesOne(arraySize, elemSize)
      then Footprint(n + 1, elemSize) <= arraySize < Footprint(n + 2, elemSize)
      else arraySize < Footprint(n + 1, elemSize)
  {
    var q, r, k := CapacityForm(arraySize, elemSize);
    hide Capacity;
    var n := 64 * q + k;
    BucketsOf(q, k + 1);
    Distribute(n, 1, elemSize);
    if LosesOne(arraySize, elemSize) {
      BucketsOf(q, 2);
      Distribute(n, 2, elemSize);
    }
  }

  lemma BucketsOf(q: nat, k: nat)
    requires 1 <= k <= 64
    ensures Buckets(64 * q + k) == q + 1
  {}

  /** The chosen count fits and no larger one would, except in the LosesOne case, where it is one
      less than the largest. */
  lemma CapacityIsMaximal(arraySize: nat, elemSize: nat, m: nat)
    requires elemSize > 0
    ensures Footprint(m, elemSize) <= arraySize
      <==> m <= Capacity(arraySize, elemSize) + if LosesOne(arraySize, elemSize) then 1 else 0
  {
    hide Footprint, Capacity;
    CapacityFits(arraySize, elemSize);
    NextOverflows(arraySize, elemSize);
    var n := Capacity(arraySize, elemSize) + if LosesOne(arraySize, elemSize) then 1 else 0;
    if m <= n {
      FootprintMonotone(m, n, elemSize);
    } else {
      FootprintMonotone(n + 1, m, elemSize);
    }
  }

  /** The run-time check at line 157 passes for exactly these leftovers. */
  lemma LayoutCheckHoldsIff(arraySize: nat, elemSize: nat)
    requires elemSize > 0
    ensures var n := Capacity(arraySize, elemSize);
      var left := arraySize % (64 * elemSize + WORD);
      ElementOffset(n) <= arraySize &&
      ((arraySize - ElementOffset(n)) / elemSize == n <==> left < elemSize || left > elemSize + WORD)
  {
    hide Capacity, Buckets;
    var q, r, k := CapacityForm(arraySize, elemSize);
    var n := Capacity(arraySize, elemSize);
    var room := arraySize - ElementOffset(n);
    if r > elemSize + WORD {
      DivideExact(room, elemSize, n, r - WORD - k * elemSize);
    } else if r < elemSize {
      DivideExact(room, elemSize, n, r);
    } else {
      QuotientAbove(room, n, elemSize);
    }
  }

  lemma QuotientAbove(x: nat, q: nat, d: nat)
    requires d > 0 && x >= q * d + d
    ensures x / d > q
  {
    Divide(x, d);
    Distribute(q - x / d, 0, d);
    Distribute(q, -(x / d), d);
  }

  /** A node can hold an element exactly when its array exceeds one element and one mask word: the
      size check of _appendPumaNode (arraySize >= elemSize) is weaker. */
  lemma CapacityPositiveIff(arraySize: nat, elemSize: nat)
    requires elemSize > 0
    ensures Capacity(arraySize, elemSize) > 0 <==> arraySize > elemSize + WORD
  {
    var q, r, k := CapacityForm(arraySize, elemSize);
    Distribute(q, 0, elemSize);
  }

  /** Size check and assertion together do what the size check is for. */
  lemma CheckedMeansRoom(arraySize: nat, elemSize: nat)
    requires 0 < elemSize <= arraySize
    requires ElementOffset(Capacity(arraySize, elemSize)) <= arraySize
    requires (arraySize - ElementOffset(Capacity(arraySize, elemSize))) / elemSize == Capacity(arraySize, elemSize)
    ensures Capacity(arraySize, elemSize) > 0
  {
    hide Capacity;
    CapacityPositiveIff(arraySize, elemSize);
    LayoutCheckHoldsIff(arraySize, elemSize);
    if arraySize <= elemSize + WORD {
      DivideExact(arraySize, 64 * elemSize + WORD, 0, arraySize);
    }
  }

  /** All three limits at once: an array that is exactly one element and one mask word large could hold an
      element and passes the size check of _appendPumaNode, but gets capacity 0 and fails the assertion at
      line 157. So it is for elements of 8032 bytes in an array of 8040. */
  lemma OneElementArrayGetsNone(elemSize: nat)
    requires elemSize > 0
    ensures var arraySize := elemSize + WORD;
      && LosesOne(arraySize, elemSize) && arraySize >= elemSize
      && Footprint(1, elemSize) == arraySize && Capacity(arraySize, elemSize) == 0
      && (arraySize - ElementOffset(0)) / elemSize != 0
    ensures LosesOne(8040, 8032) && Footprint(1, 8032) == 8040 && Capacity(8040, 8032) == 0
    ensures (8040 - ElementOffset(0)) / 8032 == 1
  {
    var arraySize := elemSize + WORD;
    CapacityPositiveIff(arraySize, elemSize);
    LayoutCheckHoldsIff(arraySize, elemSize);
  }

  /** A node's block: base is a multiple of size, header bytes, then mask, then elements. */
  datatype Block = Block(base: nat, size: nat, header: nat, elemSize: nat)

  predicate Aligned(b: Block) {
    b.elemSize > 0 && b.header < b.size && b.base % b.size == 0
  }

  function CapacityOf(b: Block): nat
    requires Aligned(b)
  {
    Capacity(b.size - b.header, b.elemSize)
  }

  function ElementArray(b: Block): nat
    requires Aligned(b)
  {
    b.base + b.header + ElementOffset(CapacityOf(b))
  }

  /** _getElement */
  function GetElement(b: Block, i: nat): (address: nat)
    requires Aligned(b)
    ensures ElementArray(b) <= address
  {
    i * b.elemSize + ElementArray(b)
  }

  /** _getNodeForElement: clearing the low bits of an address for a power-of-two block size. */
  function GetNodeForElement(address: nat, blockSize: nat): nat
    requires blockSize > 0
  {
    address - address % blockSize
  }

  /** The same masking in 64-bit arithmetic: for a power-of-two size it recovers an aligned base. */
  lemma MaskingRecoversBase(base: bv64, offset: bv64, size: bv64)
    requires size != 0 && size & (size - 1) == 0
    requires base & (size - 1) == 0 && offset < size
    ensures (base + offset) & !(size - 1) == base
  {
    OffsetBelowSize(offset, size);
    NoCarry(base, offset, size - 1);
    MaskedOr(base, offset, size - 1);
  }

  lemma OffsetBelowSize(offset: bv64, size: bv64)
    requires size != 0 && size & (size - 1) == 0 && offset < size
    ensures offset & !(size - 1) == 0
  {}

  lemma NoCarry(base: bv64, offset: bv64, mask: bv64)
    requires base & mask == 0 && offset & !mask == 0
    ensures base + offset == base | offset
  {}

  lemma MaskedOr(base: bv64, offset: bv64, mask: bv64)
    requires base & mask == 0 && offset & !mask == 0
    ensures (base | offset) & !mask == base
  {}

  /** _getIndexOfElementOnNode */
  function GetIndexOfElement(b: Block, address: nat): nat
    requires Aligned(b) && ElementArray(b) <= address
  {
    (address - ElementArray(b)) / b.elemSize
  }

  /** Slot i lies after the mask and inside the block. */
  lemma SlotInsideBlock(b: Block, i: nat)
    requires Aligned(b) && i < CapacityOf(b)
    ensures b.base + b.header + 8 * ((CapacityOf(b) + 63) / 64) <= GetElement(b, i)
    ensures GetElement(b, i) + b.elemSize <= b.base + b.size
  {
    hide Capacity, Footprint;
    CapacityFits(b.size - b.header, b.elemSize);
    NextSlotFits(CapacityOf(b), i, b.elemSize);
  }

  lemma NextSlotFits(n: nat, i: nat, elemSize: nat)
    requires i < n
    ensures ElementOffset(n) + i * elemSize + elemSize <= Footprint(n, elemSize)
  {
    hide Buckets;
    Distribute(i + 1, n - i - 1, elemSize);
    Distribute(i, 1, elemSize);
  }

  /** Masking the address of a slot gives back its node and dividing gives back its index, also for
      an address anywhere inside the slot. */
  lemma AddressRoundTrip(b: Block, i: nat, byte: nat)
    requires Aligned(b) && i < CapacityOf(b) && byte < b.elemSize
    ensures GetNodeForElement(GetElement(b, i) + byte, b.size) == b.base
    ensures GetIndexOfElement(b, GetElement(b, i) + byte) == i
  {
    SlotInsideBlock(b, i);
    var a := GetElement(b, i) + byte;
    DivideExact(a, b.size, b.base / b.size, a - b.base);
    DivideExact(a - ElementArray(b), b.elemSize, i, byte);
  }

  /** Different slots, of one block or of two different blocks of one size, share no byte. */
  lemma SlotsDisjoint(b: Block, i: nat, c: Block, j: nat, x: nat, y: nat)
    requires Aligned(b) && Aligned(c) && b.size == c.size
    requires i < CapacityOf(b) && j < CapacityOf(c) && x < b.elemSize && y < c.elemSize
    requires b.base != c.base || (b == c && i != j)
    ensures GetElement(b, i) + x != GetElement(c, j) + y
  {
    AddressRoundTrip(b, i, x);
    AddressRoundTrip(c, j, y);
  }

  /** On one node, comparing addresses compares indices. */
  lemma AddressOrder(b: Block, i: nat, j: nat)
    requires Aligned(b)
    ensures GetElement(b, i) <= GetElement(b, j) <==> i <= j
  {
    Distribute(i, j - i, b.elemSize);
    Distribute(j, i - j, b.elemSize);
    Distribute(j - i, 0, b.elemSize);
    Distribute(i - j, 0, b.elemSize);
  }
}
