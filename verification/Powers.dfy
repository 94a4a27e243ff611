/** Powers, and the sizes of machine words. */
module Powers {

  function Pow2(k: nat): (p: nat)
    ensures p >= 1
  {
    if k == 0 then 1 else 2 * Pow2(k - 1)
  }

  function Pow10(k: nat): (p: nat)
    ensures p >= 1
  {
    if k == 0 then 1 else 10 * Pow10(k - 1)
  }

  /** One more than the largest unsigned word of 32 and of 64 bits. */
  const LIMIT_32: int := 0x1_0000_0000
  const LIMIT_64: int := 0x1_0000_0000_0000_0000
}
