/**
 * Layout arithmetic of the map: where the status byte, the key and the value sit inside one
 * bucket, how many buckets a logical limit asks for, and how many bytes the whole buffer takes.
 * Everything here is pure integer arithmetic on the header's field widths.
 */
module MapLayout {

  const U8_LIMIT: nat := 0x100
  const U16_LIMIT: nat := 0x1_0000
  const U32_LIMIT: nat := 0x1_0000_0000

  /** Widths in bytes of the header fields, in their fixed order: capacity, element_count,
      key_size, value_size, value_offset, bucket_size, logical_limit, key_offset, sentinel. */
  const HEADER_FIELD_WIDTHS: seq<nat> := [2, 2, 4, 4, 4, 4, 2, 1, 1]

  /** Size of the header, which is also where the bucket array starts. */
  const MAP_BUCKETS_OFFSET: nat := 24

  /** The magic byte every initialised header carries. */
  const SECRET_CODE: nat := 0x3d

  /** Size of the status byte that opens every bucket. */
  const STATUS_SIZE: nat := 1

  /** The largest power of two an alignment held in a `u8` can be. */
  const MAX_ALIGNMENT: nat := 128

  predicate IsPowerOfTwo(n: nat)
    decreases n
  {
    n == 1 || (n >= 2 && n % 2 == 0 && IsPowerOfTwo(n / 2))
  }

  /** An alignment the layout accepts: a nonzero power of two that fits in a `u8`. */
  predicate IsAlignment(a: nat)
  {
    IsPowerOfTwo(a) && a <= MAX_ALIGNMENT
  }

  lemma {:induction false} PowerOfTwoOrder(p: nat, q: nat)
    requires IsPowerOfTwo(p) && IsPowerOfTwo(q) && p < q
    ensures 2 * p <= q
    decreases p
  {
    if p != 1 {
      PowerOfTwoOrder(p / 2, q / 2);
    }
  }

  lemma {:induction false} PowerOfTwoDivides(p: nat, q: nat)
    requires IsPowerOfTwo(p) && IsPowerOfTwo(q) && p <= q
    ensures q % p == 0
    decreases p
  {
    if p == 1 {
      MultipleMod(q, 1);
    } else if p == q {
      MultipleMod(1, p);
    } else {
      PowerOfTwoOrder(p, q);
      PowerOfTwoDivides(p / 2, q / 2);
      var hp, hq := p / 2, q / 2;
      var m := hq / hp;
      assert hq == m * hp + hq % hp;
      assert q == m * p;
      MultipleMod(m, p);
    }
  }

  lemma MulBounds(k: int, a: nat)
    ensures k >= 1 ==> k * a >= a
    ensures k <= -1 ==> k * a + a <= 0
  {
    if k >= 1 {
      assert k * a == (k - 1) * a + a;
    } else if k <= -1 {
      assert k * a == (k + 1) * a - a;
    }
  }

  /** A multiple of `a` leaves no remainder modulo `a`. */
  lemma MultipleMod(q: nat, a: nat)
    requires a > 0
    ensures (q * a) % a == 0
  {
    var m, d := (q * a) % a, (q * a) / a;
    assert q * a == d * a + m;
    assert m == (q - d) * a;
    MulBounds(q - d, a);
  }

  lemma MulAtLeast(k: nat, b: nat)
    requires k >= 1
    ensures k * b >= b
  {
    assert k * b == (k - 1) * b + b;
  }

  lemma MultipleOfMultiple(x: nat, b: nat, a: nat)
    requires a > 0 && b > 0 && x % b == 0 && b % a == 0
    ensures x % a == 0
  {
    var m, k := x / b, b / a;
    assert b == k * a;
    assert x == m * b;
    assert x == (m * k) * a;
    MultipleMod(m * k, a);
  }

  /** Rounds `x` up to a multiple of the power of two `a`; the Rust code computes
      `(x + a - 1) & !(a - 1)`, which for such an `a` clears the remainder modulo `a`. */
  function AlignUp(x: nat, a: nat): (r: nat)
    requires a > 0
    ensures r % a == 0
    ensures x <= r < x + a
  {
    var y := x + a - 1;
    var q := y / a;
    MultipleMod(q, a);
    assert y == q * a + y % a;
    q * a
  }

  /** Where the key and the value sit inside a bucket, and how large a bucket is. */
  datatype BucketLayout = BucketLayout(bucketSize: nat, keyOffset: nat, valueOffset: nat)

  /** Everything `init` needs to lay out a map. */
  datatype MapInit = MapInit(
    keySize: nat,
    keyAlignment: nat,
    valueSize: nat,
    valueAlignment: nat,
    capacity: nat,
    logicalLimit: nat,
    totalSize: nat)

  /** Room the alignment padding may add to the key and value sizes: a status byte and up to
      `MAX_ALIGNMENT - 1` padding bytes after it, after the key and after the value. */
  const LAYOUT_SLACK: nat := STATUS_SIZE + 3 * (MAX_ALIGNMENT - 1)

  /** No `u32` step of the layout computation can overflow. */
  predicate LayoutFits(keySize: nat, valueSize: nat)
  {
    keySize + valueSize + LAYOUT_SLACK < U32_LIMIT
  }

  function Max(a: nat, b: nat): nat
  {
    if a < b then b else a
  }

  /** The bucket layout: status byte first, then the key at the least offset aligned to the
      key's alignment, then the value at the least offset after the key aligned to the
      value's alignment, and the whole bucket padded to the larger of the two alignments. */
  function CalculateBucketLayout(keySize: nat, keyAlignment: nat, valueSize: nat, valueAlignment: nat): (l: BucketLayout)
    requires IsAlignment(keyAlignment) && IsAlignment(valueAlignment)
    requires LayoutFits(keySize, valueSize)
    ensures STATUS_SIZE <= l.keyOffset < STATUS_SIZE + keyAlignment
    ensures l.keyOffset % keyAlignment == 0
    ensures l.keyOffset + keySize <= l.valueOffset < l.keyOffset + keySize + valueAlignment
    ensures l.valueOffset % valueAlignment == 0
    ensures l.valueOffset + valueSize <= l.bucketSize < l.valueOffset + valueSize + Max(keyAlignment, valueAlignment)
    ensures l.bucketSize % Max(keyAlignment, valueAlignment) == 0
    ensures l.keyOffset < U8_LIMIT && l.bucketSize < U32_LIMIT
  {
    var keyOffset := AlignUp(STATUS_SIZE, keyAlignment);
    var valueOffset := AlignUp(keyOffset + keySize, valueAlignment);
    var bucketSize := AlignUp(valueOffset + valueSize, Max(keyAlignment, valueAlignment));
    BucketLayout(bucketSize, keyOffset, valueOffset)
  }

  /** A bucket size from `CalculateBucketLayout` is a multiple of both alignments, so that
      in an array of buckets every key and every value stays aligned. */
  lemma BucketsTile(keySize: nat, keyAlignment: nat, valueSize: nat, valueAlignment: nat, i: nat)
    requires IsAlignment(keyAlignment) && IsAlignment(valueAlignment)
    requires LayoutFits(keySize, valueSize)
    ensures var l := CalculateBucketLayout(keySize, keyAlignment, valueSize, valueAlignment);
      && (i * l.bucketSize + l.keyOffset) % keyAlignment == 0
      && (i * l.bucketSize + l.valueOffset) % valueAlignment == 0
  {
    var l := CalculateBucketLayout(keySize, keyAlignment, valueSize, valueAlignment);
    var m := Max(keyAlignment, valueAlignment);
    PowerOfTwoDivides(keyAlignment, m);
    PowerOfTwoDivides(valueAlignment, m);
    MultipleOfMultiple(l.bucketSize, m, keyAlignment);
    MultipleOfMultiple(l.bucketSize, m, valueAlignment);
    SumOfMultiples(i, l.bucketSize, l.keyOffset, keyAlignment);
    SumOfMultiples(i, l.bucketSize, l.valueOffset, valueAlignment);
  }

  lemma SumOfMultiples(i: nat, b: nat, o: nat, a: nat)
    requires a > 0 && b % a == 0 && o % a == 0
    ensures (i * b + o) % a == 0
  {
    var k, m := b / a, o / a;
    assert b == k * a && o == m * a;
    assert i * b == (i * k) * a;
    assert i * b + o == (i * k + m) * a;
    MultipleMod(i * k + m, a);
  }

  /** Byte offset of bucket `i` from the start of the buffer. */
  function BucketAddress(i: nat, bucketSize: nat): nat
  {
    MAP_BUCKETS_OFFSET + i * bucketSize
  }

  /** Buckets follow the header without overlapping, in index order, and the last one ends
      exactly `MAP_BUCKETS_OFFSET + capacity * bucketSize` bytes into the buffer. */
  lemma {:induction false} BucketsDisjoint(i: nat, j: nat, capacity: nat, bucketSize: nat)
    requires i < j < capacity
    ensures MAP_BUCKETS_OFFSET <= BucketAddress(i, bucketSize)
    ensures BucketAddress(i, bucketSize) + bucketSize <= BucketAddress(j, bucketSize)
    ensures BucketAddress(j, bucketSize) + bucketSize <= MAP_BUCKETS_OFFSET + capacity * bucketSize
  {
    assert j * bucketSize == i * bucketSize + (j - i) * bucketSize;
    MulAtLeast(j - i, bucketSize);
    assert capacity * bucketSize == j * bucketSize + (capacity - j) * bucketSize;
    MulAtLeast(capacity - j, bucketSize);
  }

  /** Offsets of the header fields under `repr(C)`. */
  const HEADER_FIELD_OFFSETS: seq<nat> := [0, 2, 4, 8, 12, 16, 20, 22, 23]

  /** Under `repr(C)` every header field starts at a multiple of its own width right where the
      previous one ends, so the header has no padding; it is 24 bytes, a multiple of its
      4-byte alignment, and the bucket array starts right after it. */
  lemma HeaderLayout()
    ensures |HEADER_FIELD_OFFSETS| == |HEADER_FIELD_WIDTHS| == 9
    ensures forall k :: 0 <= k < 9 ==> HEADER_FIELD_OFFSETS[k] % HEADER_FIELD_WIDTHS[k] == 0
    ensures HEADER_FIELD_OFFSETS[0] == 0
    ensures forall k :: 0 < k < 9 ==> HEADER_FIELD_OFFSETS[k] == HEADER_FIELD_OFFSETS[k - 1] + HEADER_FIELD_WIDTHS[k - 1]
    ensures HEADER_FIELD_OFFSETS[8] + HEADER_FIELD_WIDTHS[8] == MAP_BUCKETS_OFFSET
    ensures MAP_BUCKETS_OFFSET % 4 == 0
  {
  }

  /** The buffer size, truncated to `u32` exactly as the Rust code's `as u32` cast does. */
  function TotalSize(capacity: nat, bucketSize: nat): (size: nat)
    ensures size < U32_LIMIT
    ensures MAP_BUCKETS_OFFSET + capacity * bucketSize < U32_LIMIT ==> size == MAP_BUCKETS_OFFSET + capacity * bucketSize
  {
    (MAP_BUCKETS_OFFSET + capacity * bucketSize) % U32_LIMIT
  }

  function PowerOfTwoAtLeast(x: nat, p: nat): (r: nat)
    requires IsPowerOfTwo(p) && (p == 1 || p < 2 * x)
    ensures IsPowerOfTwo(r) && x <= r && (r == 1 || r < 2 * x)
    decreases x - p
  {
    if x <= p then p else PowerOfTwoAtLeast(x, 2 * p)
  }

  /** `u16::next_power_of_two`: the least power of two at or above `x` (1 for 0). */
  function NextPowerOfTwo(x: nat): (r: nat)
    ensures IsPowerOfTwo(r) && x <= r
    ensures r == 1 || r < 2 * x
  {
    PowerOfTwoAtLeast(x, 1)
  }

  lemma NextPowerOfTwoIsLeast(x: nat, q: nat)
    requires IsPowerOfTwo(q) && x <= q
    ensures NextPowerOfTwo(x) <= q
  {
    var r := NextPowerOfTwo(x);
    if q < r {
      PowerOfTwoOrder(q, r);
    }
  }

  function Pow2(k: nat): nat
  {
    if k == 0 then 1 else 2 * Pow2(k - 1)
  }

  lemma {:induction false} PowIsPowerOfTwo(k: nat)
    ensures IsPowerOfTwo(Pow2(k))
  {
    if k > 0 {
      PowIsPowerOfTwo(k - 1);
    }
  }

  lemma CapacityFits(x: nat)
    requires x <= MAX_LOGICAL_LIMIT
    ensures NextPowerOfTwo(x) <= MAX_LOGICAL_LIMIT
  {
    PowIsPowerOfTwo(15);
    assert Pow2(15) == MAX_LOGICAL_LIMIT;
    NextPowerOfTwoIsLeast(x, Pow2(15));
  }

  /** The largest logical limit whose next power of two still fits in a `u16`. */
  const MAX_LOGICAL_LIMIT: nat := 0x8000

  /** `layout`: the bucket layout, and the initialisation record whose capacity is the next
      power of two of the logical limit. */
  function Layout(keySize: nat, keyAlignment: nat, valueSize: nat, valueAlignment: nat, logicalLimit: nat): (r: (BucketLayout, MapInit))
    requires IsAlignment(keyAlignment) && IsAlignment(valueAlignment)
    requires LayoutFits(keySize, valueSize)
    requires logicalLimit <= MAX_LOGICAL_LIMIT
    ensures var (l, init) := r;
      && l == CalculateBucketLayout(keySize, keyAlignment, valueSize, valueAlignment)
      && IsPowerOfTwo(init.capacity) && logicalLimit <= init.capacity <= MAX_LOGICAL_LIMIT
      && (forall q :: IsPowerOfTwo(q) && logicalLimit <= q ==> init.capacity <= q)
      && init.logicalLimit == logicalLimit
      && init.keySize == keySize && init.keyAlignment == keyAlignment
      && init.valueSize == valueSize && init.valueAlignment == valueAlignment
      && init.totalSize == TotalSize(init.capacity, l.bucketSize)
      && (MAP_BUCKETS_OFFSET + init.capacity * l.bucketSize < U32_LIMIT ==>
            init.totalSize == MAP_BUCKETS_OFFSET + init.capacity * l.bucketSize)
  {
    var capacity := NextPowerOfTwo(logicalLimit);
    var l := CalculateBucketLayout(keySize, keyAlignment, valueSize, valueAlignment);
    NextPowerOfTwoIsLeastAll(logicalLimit);
    CapacityFits(logicalLimit);
    (l, MapInit(keySize, keyAlignment, valueSize, valueAlignment, capacity, logicalLimit, TotalSize(capacity, l.bucketSize)))
  }

  lemma NextPowerOfTwoIsLeastAll(x: nat)
    ensures forall q :: IsPowerOfTwo(q) && x <= q ==> NextPowerOfTwo(x) <= q
  {
    forall q | IsPowerOfTwo(q) && x <= q
      ensures NextPowerOfTwo(x) <= q
    {
      NextPowerOfTwoIsLeast(x, q);
    }
  }

  /** A logical limit that is already a power of two is the capacity `layout` picks. */
  lemma LayoutWithCapacity(keySize: nat, keyAlignment: nat, valueSize: nat, valueAlignment: nat,
                           logicalLimit: nat, l: BucketLayout)
    requires IsAlignment(keyAlignment) && IsAlignment(valueAlignment)
    requires LayoutFits(keySize, valueSize) && logicalLimit <= MAX_LOGICAL_LIMIT
    requires IsPowerOfTwo(logicalLimit)
    requires CalculateBucketLayout(keySize, keyAlignment, valueSize, valueAlignment) == l
    requires MAP_BUCKETS_OFFSET + logicalLimit * l.bucketSize < U32_LIMIT
    ensures var (l', init) := Layout(keySize, keyAlignment, valueSize, valueAlignment, logicalLimit);
      && l' == l && init.capacity == logicalLimit
      && init.totalSize == MAP_BUCKETS_OFFSET + logicalLimit * l.bucketSize
  {
    NextPowerOfTwoIsLeast(logicalLimit, logicalLimit);
  }

  /** 4-byte keys aligned to 4, 8-byte values aligned to 8 and a logical limit of 16 give
      16 buckets of 16 bytes each. */
  lemma LayoutExample()
    ensures var (l, init) := Layout(4, 4, 8, 8, 16);
      && l == BucketLayout(16, 4, 8)
      && init.capacity == 16 && init.totalSize == 280
  {
    assert IsPowerOfTwo(2) && IsPowerOfTwo(4) && IsPowerOfTwo(8) && IsPowerOfTwo(16);
    var l := CalculateBucketLayout(4, 4, 8, 8);
    assert l.keyOffset == 4 && l.valueOffset == 8 && l.bucketSize == 16;
    LayoutWithCapacity(4, 4, 8, 8, 16, l);
  }

  /** 2-byte keys aligned to 2, 4-byte values aligned to 4 and a logical limit of 8 give
      8 buckets of 8 bytes each. */
  lemma LayoutExampleSmall()
    ensures var (l, init) := Layout(2, 2, 4, 4, 8);
      && l == BucketLayout(8, 2, 4)
      && init.capacity == 8 && init.totalSize == 88
  {
    assert IsPowerOfTwo(2) && IsPowerOfTwo(4) && IsPowerOfTwo(8);
    var l := CalculateBucketLayout(2, 2, 4, 4);
    assert l.keyOffset == 2 && l.valueOffset == 4 && l.bucketSize == 8;
    LayoutWithCapacity(2, 2, 4, 4, 8, l);
  }

  /** 4-byte keys and values aligned to 4 give 12-byte buckets: 8 of them for a logical
      limit of 8, 16 for a limit of 16. */
  lemma LayoutExampleEven()
    ensures var (l, init) := Layout(4, 4, 4, 4, 8);
      && l == BucketLayout(12, 4, 8)
      && init.capacity == 8 && init.totalSize == 120
  {
    assert IsPowerOfTwo(2) && IsPowerOfTwo(4) && IsPowerOfTwo(8);
    var l := CalculateBucketLayout(4, 4, 4, 4);
    assert l.keyOffset == 4 && l.valueOffset == 8 && l.bucketSize == 12;
    LayoutWithCapacity(4, 4, 4, 4, 8, l);
  }

  lemma LayoutExampleEvenLarger()
    ensures var (l, init) := Layout(4, 4, 4, 4, 16);
      && l == BucketLayout(12, 4, 8)
      && init.capacity == 16 && init.totalSize == 216
  {
    assert IsPowerOfTwo(2) && IsPowerOfTwo(4) && IsPowerOfTwo(8) && IsPowerOfTwo(16);
    var l := CalculateBucketLayout(4, 4, 4, 4);
    assert l.keyOffset == 4 && l.valueOffset == 8 && l.bucketSize == 12;
    LayoutWithCapacity(4, 4, 4, 4, 16, l);
  }
}
