/** Powers of two. */
module Powers {
  /** 1 << k */
  function Power2(k: nat): (p: nat)
    ensures p >= 1
  {
    if k == 0 then 1 else 2 * Power2(k - 1)
  }
}
