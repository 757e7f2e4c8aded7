/**
 * The xorwow generator's state layout and shift parameters: five 32-bit
 * words (a 160-bit state vector) and the shift triple [a, b, c] = [2, 1, 4].
 */
module XorwowParams {
  import opened Bits

  /** Bits per word. */
  const NB: nat := 32
  /** Words in the state. */
  const NW: nat := 5
  /** Bits in the state. */
  const NK: nat := NB * NW

  const ShiftA: nat := 2
  const ShiftB: nat := 1
  const ShiftC: nat := 4

  /** The i-th jump size of a table: start * exp^i. */
  function JumpSize(start: nat, exp: nat, i: nat): nat
  {
    start * Pow(exp, i)
  }

  lemma JumpSizeNext(start: nat, exp: nat, i: nat)
    ensures JumpSize(start, exp, i + 1) == JumpSize(start, exp, i) * exp
  {
    assert Pow(exp, i + 1) == exp * Pow(exp, i);
  }
}
