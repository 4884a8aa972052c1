/** Byte and MiB arithmetic on 64-bit integers, as the driver does it. */
module Capacity {
  const UNIT_MB := 1024 * 1024
  const UNIT_GB := 1024 * 1024 * 1024
  const TWO_63 := 0x8000_0000_0000_0000
  const TWO_64 := 0x1_0000_0000_0000_0000
  // 2^43 MiB are 2^63 bytes
  const QUOTA_LIMIT := 0x800_0000_0000

  type int64 = x: int | -TWO_63 <= x < TWO_63
  type uint64 = x: int | 0 <= x < TWO_64

  /** The 64-bit value of an integer result: arithmetic wraps around. */
  function Wrap(x: int): int64 {
    (x + TWO_63) % TWO_64 - TWO_63
  }

  function ToInt64(x: uint64): int64 {
    Wrap(x)
  }

  function ToUint64(x: int64): uint64 {
    x % TWO_64
  }

  /** Go's division, which truncates toward zero, for a positive divisor. */
  function Quotient(a: int, b: int): int
    requires b > 0
  {
    if a >= 0 then a / b else -((-a) / b)
  }

  function MBToBytes(size: int64): int64 {
    Wrap(size * UNIT_MB)
  }

  function BytesToMB(size: int64): int64 {
    Quotient(size, UNIT_MB)
  }

  function BytesToMBCeil(size: int64): int64 {
    Quotient(Wrap(size + UNIT_MB - 1), UNIT_MB)
  }

  datatype Range = NoRange | Range(required: int64, limit: int64)

  datatype SizeResult = Size(bytes: int64) | InvalidArgument

  /** The size asked for: 1 GiB without a range, else the required bytes, which must be at
      least 1 GiB and not above a positive limit. */
  function SizeByCapacityRange(range: Range): (r: SizeResult)
    ensures range.NoRange? ==> r == Size(1024 * 1024 * 1024)
    ensures range.Range? ==>
              if range.required >= 1024 * 1024 * 1024 && (range.limit <= 0 || range.required <= range.limit)
              then r == Size(range.required) else r == InvalidArgument
  {
    match range
    case NoRange => Size(UNIT_GB)
    case Range(required, limit) =>
      if 0 < limit && limit < required then InvalidArgument
      else if required < UNIT_GB then InvalidArgument
      else Size(required)
  }

  /** `b` is the least multiple of 1 MiB that is not below `size`. */
  predicate LeastMultiple(b: int, size: int) {
    b % (1024 * 1024) == 0 && size <= b < size + 1024 * 1024
  }

  /** Rounding up to MiB is right exactly up to 2^63 - 2^20 bytes; above, the addition wraps around. */
  lemma CeilExactly(size: int64)
    requires size >= 0
    ensures LeastMultiple(UNIT_MB * BytesToMBCeil(size), size) <==> size <= TWO_63 - UNIT_MB
  {
    if size + UNIT_MB - 1 < TWO_63 {
      assert Wrap(size + UNIT_MB - 1) == size + UNIT_MB - 1;
    } else {
      assert Wrap(size + UNIT_MB - 1) == size + UNIT_MB - 1 - TWO_64;
      assert BytesToMBCeil(size) < 0;
    }
  }

  /** Up to that size the way back to bytes does not overflow either. */
  lemma CeilToBytes(size: int64)
    requires 0 <= size <= TWO_63 - UNIT_MB
    ensures 0 <= BytesToMBCeil(size) && MBToBytes(BytesToMBCeil(size)) == UNIT_MB * BytesToMBCeil(size)
    ensures LeastMultiple(MBToBytes(BytesToMBCeil(size)), size)
  {
    assert Wrap(size + UNIT_MB - 1) == size + UNIT_MB - 1;
    assert UNIT_MB * BytesToMBCeil(size) < TWO_63;
  }

  /** Whatever quota a share reports, even one whose bytes wrap around: if it passes the controller's comparison
      in MiB with the request, then its bytes are exactly the request rounded up. */
  lemma QuotaCheckIsExact(quota: int64, size: int64)
    requires 0 <= size <= TWO_63 - UNIT_MB
    requires BytesToMB(MBToBytes(quota)) == BytesToMBCeil(size)
    ensures LeastMultiple(MBToBytes(quota), size)
  {
    CeilToBytes(size);
    var x := quota * UNIT_MB + TWO_63;
    var t := x / TWO_64;
    assert x == TWO_64 * t + x % TWO_64;
    assert MBToBytes(quota) == UNIT_MB * (quota - 0x1000_0000_0000 * t);
    assert BytesToMB(MBToBytes(quota)) == quota - 0x1000_0000_0000 * t;
  }

  /** For quotas below 2^43 MiB the reported bytes do not wrap around. */
  lemma QuotaBytes(quota: int64)
    requires -QUOTA_LIMIT <= quota < QUOTA_LIMIT
    ensures MBToBytes(quota) == quota * UNIT_MB && BytesToMB(MBToBytes(quota)) == quota
  {
  }

  /** A quota made by rounding up always passes the comparison with the size it was made from. */
  lemma OwnQuotaPasses(size: int64)
    ensures BytesToMB(MBToBytes(BytesToMBCeil(size))) == BytesToMBCeil(size)
  {
    assert -QUOTA_LIMIT <= BytesToMBCeil(size) < QUOTA_LIMIT;
    QuotaBytes(BytesToMBCeil(size));
  }

  /** What an expansion that is not refused does to a share's quota: with a size whose rounding does not wrap around
      it never lowers a quota of less than 2^43 MiB and always lowers a larger one; no quota
      survives a size that does wrap around. */
  lemma ExpandRaisesQuota(quota: int64, newSize: int64)
    requires newSize >= 0 && MBToBytes(quota) <= newSize
    ensures newSize <= TWO_63 - UNIT_MB ==> (quota <= BytesToMBCeil(newSize) <==> quota < QUOTA_LIMIT)
    ensures newSize > TWO_63 - UNIT_MB ==> BytesToMBCeil(newSize) < 0
  {
    if newSize <= TWO_63 - UNIT_MB {
      CeilToBytes(newSize);
      if 0 <= quota < QUOTA_LIMIT {
        QuotaBytes(quota);
      }
    } else {
      assert Wrap(newSize + UNIT_MB - 1) == newSize + UNIT_MB - 1 - TWO_64;
    }
  }

  /** The same for a LUN, whose size is unsigned: it is lowered exactly when it is beyond the signed range
      and the new size is not. */
  lemma ExpandRaisesLun(size: uint64, newSize: int64)
    requires ToInt64(size) <= newSize
    ensures size <= ToUint64(newSize) <==> size < TWO_63 || newSize < 0
  {
  }

  /** A positive size never rounds to zero MiB, not even where the rounding wraps around. */
  lemma CeilNotZero(size: int64)
    requires size > 0
    ensures BytesToMBCeil(size) != 0
  {
    if size + UNIT_MB - 1 >= TWO_63 {
      assert Wrap(size + UNIT_MB - 1) == size + UNIT_MB - 1 - TWO_64;
    }
  }
}
