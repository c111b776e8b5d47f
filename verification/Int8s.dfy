/** int8_t, and what storing an int in one does. */
module Int8s {
  type int8 = x: int | -128 <= x < 128

  function Int8(x: int): int8 { (x + 128) % 256 - 128 }

  lemma Int8Fits(x: int)
    requires -128 <= x < 128
    ensures Int8(x) == x
  {
  }
}
