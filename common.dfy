/** Small definitions shared by every module of the model. */
module Common {

  /** An optional value: the model's stand-in for a nullable pointer result. */
  datatype Option<T> = None | Some(value: T)

  /** 2^32: the modulus of the i386 `unsigned long` and `int` arithmetic. */
  const TWO_32: int := 0x1_0000_0000

  /** A 32-bit unsigned machine word, kept as a bounded integer. */
  type u32 = x: int | 0 <= x < 0x1_0000_0000

  /** Reduction modulo 2^32: what a 32-bit add, subtract or multiply keeps. */
  function Wrap32(x: int): (r: u32)
    ensures 0 <= x < TWO_32 ==> r == x
    ensures (r - x) % TWO_32 == 0
  {
    x % TWO_32
  }
}
