/** Address ranges of trace events (`AddressInfo`): a start address and a
    length, both unsigned 64-bit values. */
module Addresses {

  const U64_LIMIT: int := 0x1_0000_0000_0000_0000

  type u64 = x: int | 0 <= x < U64_LIMIT

  /** A cache-line size; the tool queries it from the host, the model takes it
      as a parameter that is only known to be positive. */
  type LineSize = n: int | 0 < n < U64_LIMIT witness 64

  datatype AddressInfo = AddressInfo(address: u64, length: u64) {

    function Start(): u64 {
      address
    }

    /** One past the last byte, computed in unsigned 64-bit arithmetic, so it
        wraps around when the range reaches the top of the address space. */
    function End(): u64 {
      (address + length) % U64_LIMIT
    }

    /** The range does not reach past the top of the address space. */
    predicate NoWrap() {
      address + length < U64_LIMIT
    }

    /** The byte at address `x` lies inside the range. */
    predicate Holds(x: int) {
      address <= x < address + length
    }
  }

  /** The two ranges share a byte, in the half-open sense `[Start, End)`. */
  predicate Overlaps(a: AddressInfo, b: AddressInfo) {
    a.Start() < b.End() && b.Start() < a.End()
  }

  /** The first and the one-past-last address fall into the same aligned
      block of `cl` bytes. */
  predicate IsSingleCacheLine(a: AddressInfo, cl: LineSize) {
    a.Start() / cl == a.End() / cl
  }

  /** `overlaps` does not depend on the order of its arguments. */
  lemma OverlapsSymmetric(a: AddressInfo, b: AddressInfo)
    ensures Overlaps(a, b) <==> Overlaps(b, a)
  {
  }

  /** For non-empty ranges that do not wrap, `overlaps` holds exactly when
      some byte belongs to both ranges. */
  lemma OverlapsIffSharedByte(a: AddressInfo, b: AddressInfo)
    requires a.NoWrap() && b.NoWrap()
    requires a.length > 0 && b.length > 0
    ensures Overlaps(a, b) <==> exists x :: a.Holds(x) && b.Holds(x)
  {
    if Overlaps(a, b) {
      assert a.End() == a.address + a.length && b.End() == b.address + b.length;
      var x := if a.address < b.address then b.address else a.address;
      assert a.Holds(x) && b.Holds(x);
    }
  }

  /** Equal ranges (same address and same length) that are non-empty and do
      not wrap overlap; equality is the stronger relation. */
  lemma EqualRangesOverlap(a: AddressInfo, b: AddressInfo)
    requires a == b
    requires a.length > 0 && a.NoWrap()
    ensures Overlaps(a, b)
  {
  }

  /** Overlap does not imply equality: two different ranges can share bytes. */
  lemma OverlapWeakerThanEquality()
    ensures Overlaps(AddressInfo(0x1000, 8), AddressInfo(0x1004, 8))
    ensures AddressInfo(0x1000, 8) != AddressInfo(0x1004, 8)
  {
  }

  /** An empty range strictly inside another one still `overlaps` it,
      although the two share no byte. */
  lemma EmptyRangeInsideOverlaps()
    ensures Overlaps(AddressInfo(0x1004, 0), AddressInfo(0x1000, 8))
    ensures !exists x :: AddressInfo(0x1004, 0).Holds(x)
  {
  }

  /** A range that wraps past the top of the address space does not overlap
      even itself, because its `End` is below its `Start`. */
  lemma WrappingRangeOverlapsNothing(a: AddressInfo)
    requires !a.NoWrap()
    ensures !Overlaps(a, a)
  {
  }

  /** `x` lies in block `q` of size `n` exactly when `q * n <= x < (q + 1) * n`. */
  lemma DivInBlock(x: int, n: int, q: int)
    requires 0 < n && 0 <= x && 0 <= q
    ensures x / n == q <==> q * n <= x < q * n + n
  {
    var d := x / n;
    assert x == d * n + x % n;
    if q * n <= x < q * n + n {
      if d < q {
        MulMonotone(d + 1, q, n);
        assert false;
      } else if d > q {
        MulMonotone(q + 1, d, n);
        assert false;
      }
    }
  }

  lemma MulMonotone(a: int, b: int, n: int)
    requires a <= b && 0 < n
    ensures a * n <= b * n
  {
  }

  /** For a range that does not wrap, `isSingleCacheLine` holds exactly when
      the offset of the start within its line plus the length stays below the
      line size: the one-past-last address must still be in the same line. */
  lemma SingleCacheLineCharacterized(a: AddressInfo, cl: LineSize)
    requires a.NoWrap()
    ensures IsSingleCacheLine(a, cl) <==> a.address % cl + a.length < cl
  {
    var q := a.address / cl;
    var r := a.address % cl;
    assert a.address == q * cl + r;
    assert a.End() == a.address + a.length;
    DivInBlock(a.address + a.length, cl, q);
  }

  /** Every byte of a non-wrapping range accepted by `isSingleCacheLine` lies
      in the cache line of its start address. */
  lemma SingleCacheLineBytesShareLine(a: AddressInfo, cl: LineSize, x: int)
    requires a.NoWrap() && IsSingleCacheLine(a, cl)
    requires a.Holds(x)
    ensures x / cl == a.address / cl
  {
    SingleCacheLineCharacterized(a, cl);
    var q := a.address / cl;
    assert a.address == q * cl + a.address % cl;
    DivInBlock(x, cl, q);
  }

  /** Because the test compares the line of the one-past-last address, a
      range that exactly fills one line is not accepted, although all of its
      bytes lie in that line. */
  lemma FullLineNotSingleCacheLine(cl: LineSize)
    requires cl * 2 < U64_LIMIT
    ensures !IsSingleCacheLine(AddressInfo(cl, cl), cl)
  {
    SingleCacheLineCharacterized(AddressInfo(cl, cl), cl);
  }
}
