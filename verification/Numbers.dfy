/** The machine integers of the program and its release-mode arithmetic. */
module Numbers {

  const U16: int := 0x1_0000
  const U32: int := 0x1_0000_0000
  const U64: int := 0x1_0000_0000_0000_0000

  type u16 = x: int | 0 <= x < U16
  type u64 = x: int | 0 <= x < U64

  newtype byte = x: int | 0 <= x < 0x100

  // `a + b` on u64 as a release build computes it: the carry is dropped.
  function WrapAdd(a: u64, b: u64): u64 {
    if a + b < U64 then a + b else a + b - U64
  }

  // `a - b` on u64 as a release build computes it.
  function WrapSub(a: u64, b: u64): u64 {
    if b <= a then a - b else a - b + U64
  }

  lemma WrapIsModular(a: u64, b: u64)
    ensures WrapAdd(a, b) == (a + b) % 0x1_0000_0000_0000_0000
    ensures WrapSub(a, b) == (a - b) % 0x1_0000_0000_0000_0000
  {
  }
}
