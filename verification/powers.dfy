/** Powers of two, for waits that double. */
module Powers {
  function Power(k: nat): nat {
    if k == 0 then 1 else 2 * Power(k - 1)
  }
}
