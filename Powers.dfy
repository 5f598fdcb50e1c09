/** Powers of two: the group sizes of NelsonMultiply and the round steps of
    custom_prefix_sum (1 << d in the C code). */
module Powers {
  function Pow2(d: nat): (p: nat)
    ensures p >= 1
  {
    if d == 0 then 1 else 2 * Pow2(d - 1)
  }
}
