/** The 64-bit unsigned arithmetic of the modelled program, wrapping on overflow as in a release build. */
module MachineInt {
  const MODULUS: int := 0x1_0000_0000_0000_0000

  type usize = x: int | 0 <= x < MODULUS

  function WrapAdd(a: usize, b: usize): usize {
    if a + b < MODULUS then a + b else a + b - MODULUS
  }

  function WrapSub(a: usize, b: usize): usize {
    if a >= b then a - b else a - b + MODULUS
  }

  /** Both are the arithmetic modulo the word size, and each undoes the other. */
  lemma WrapIsModular(a: usize, b: usize)
    ensures WrapAdd(a, b) == (a + b) % MODULUS && WrapSub(a, b) == (a - b) % MODULUS
    ensures WrapSub(WrapAdd(a, b), b) == a && WrapAdd(WrapSub(a, b), b) == a
  {
  }

  function Max(a: int, b: int): int {
    if a >= b then a else b
  }

  function Min(a: int, b: int): int {
    if a <= b then a else b
  }
}
