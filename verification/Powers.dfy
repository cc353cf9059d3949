/** Powers of two, where heights, levels and bit widths meet sizes. */
module Powers {

  function Pow2(k: nat): (n: nat)
    ensures 0 < n
  {
    if k == 0 then 1 else 2 * Pow2(k - 1)
  }
}
