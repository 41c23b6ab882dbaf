/** Unsigned numbers of 32 bits, whose sums wrap around. */
module Unsigned {

  const UINT_MAX: nat := 0xFFFF_FFFF

  function Add32(x: nat, y: nat): (z: nat)
    ensures z <= UINT_MAX && (x + y <= UINT_MAX ==> z == x + y)
  {
    (x + y) % (UINT_MAX + 1)
  }

  /** The counter z holds the lowest 32 bits of n. */
  predicate Counts32(z: nat, n: nat) { z == n % (UINT_MAX + 1) }
}
