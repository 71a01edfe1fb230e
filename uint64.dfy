/** Go's `uint64` and its wrapping subtraction. */
module Uint64 {

  /** 2^64: every uint64 operation in Go is computed modulo this value. */
  const MODULUS: int := 0x1_0000_0000_0000_0000

  type U64 = x: int | 0 <= x < MODULUS

  /** Go's `a - b` on two uint64 values: the difference taken modulo 2^64,
      so that a smaller minuend wraps around instead of going negative. */
  function WrapSub(a: U64, b: U64): (r: U64)
    ensures b <= a ==> r == a - b
    ensures a < b ==> r == MODULUS - (b - a)
    ensures (b + r) % MODULUS == a
  {
    (a - b) % MODULUS
  }

  /** WrapSub is the inverse of wrapping addition: the only uint64 `d` with
      `b + d == a` (mod 2^64) is `a - b` (mod 2^64). */
  lemma WrapSubUnique(a: U64, b: U64, d: U64)
    requires (b + d) % MODULUS == a
    ensures d == WrapSub(a, b)
  {
  }

  /** The wrapped difference is zero exactly when the two values are equal. */
  lemma WrapSubZeroIff(a: U64, b: U64)
    ensures WrapSub(a, b) == 0 <==> a == b
  {
  }
}
