/**
 * Go's fixed-width integers, and the `uint64(x)` conversion of an `int64`,
 * which reinterprets the two's-complement bits, i.e. wraps modulo 2^64.
 */
module GoInts {

  const TWO_TO_THE_63: int := 0x8000_0000_0000_0000
  const TWO_TO_THE_64: int := 0x1_0000_0000_0000_0000

  newtype int64 = x: int | -TWO_TO_THE_63 <= x < TWO_TO_THE_63
  newtype uint64 = x: int | 0 <= x < TWO_TO_THE_64

  /** Go's `uint64(v)` for an `int64` value `v`. */
  function ToUint64(v: int64): (r: uint64)
    ensures (r as int - v as int) % TWO_TO_THE_64 == 0
    ensures 0 <= v ==> r as int == v as int
    ensures v < 0 ==> TWO_TO_THE_63 <= r as int
  {
    if 0 <= v then v as int as uint64 else (v as int + TWO_TO_THE_64) as uint64
  }

  /** The conversion loses nothing: distinct inputs give distinct outputs. */
  lemma ToUint64Injective(a: int64, b: int64)
    requires ToUint64(a) == ToUint64(b)
    ensures a == b
  {
  }
}
