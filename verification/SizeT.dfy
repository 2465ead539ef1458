/** The arithmetic of 32-bit words. */
module SizeT {
  const MAX_SIZE_T := 0xFFFF_FFFF

  /** The sum wraps around. */
  function WrapAdd(a: int, b: int): nat {
    (a + b) % (MAX_SIZE_T + 1)
  }
}
