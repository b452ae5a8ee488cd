/** Addresses into a memory of a fixed depth, which wrap. */
module Ring {

  function Wrap(depth: nat, a: nat): (w: nat)
    requires a < 2 * depth
    ensures w < depth
  {
    if a >= depth then a - depth else a
  }

  /** The word `k` places after `base`. */
  function Place(depth: nat, base: nat, k: nat): (w: nat)
    requires base < depth && k < depth
    ensures w < depth
  {
    Wrap(depth, base + k)
  }

  /** How far `a` is ahead of `b`. */
  function Minus(depth: nat, a: nat, b: nat): (d: nat)
    requires a < depth && b < depth
    ensures d < depth
  {
    if a >= b then a - b else a + depth - b
  }

  /** Moving ahead and measuring how far undo each other. */
  lemma PlaceMinus(depth: nat, base: nat, k: nat)
    requires base < depth && k < depth
    ensures Minus(depth, Place(depth, base, k), base) == k
  {
  }
}
