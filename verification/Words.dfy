/** 64-bit words: addresses, and the arithmetic that wraps around. */
module Words {

  const ADDRESS_SPACE: int := 0x1_0000_0000_0000_0000
  const BADADDR: Ea := ADDRESS_SPACE - 1

  type Word = x: nat | x < ADDRESS_SPACE
  type Ea = Word

  /** The word that an integer computation leaves. */
  function Wrap(x: int): (r: Word)
    ensures 0 <= x < ADDRESS_SPACE ==> r == x
  {
    x % ADDRESS_SPACE
  }

  lemma WrapNear(x: int)
    requires -ADDRESS_SPACE <= x < 2 * ADDRESS_SPACE
    ensures Wrap(x) == if x < 0 then x + ADDRESS_SPACE else if x < ADDRESS_SPACE then x else x - ADDRESS_SPACE
  {
  }
}
