/** C's integer types and small notions that several modules share. */
module Prelude {

  datatype Option<+T> = None | Some(value: T)

  /** C's plain char on x86: a signed byte */
  type Byte = x: int | -128 <= x < 128

  function Min(a: nat, b: nat): nat { if a < b then a else b }

  /** The int that `x` wraps to at 32 bits */
  function Int32(x: int): (r: int)
    ensures -0x8000_0000 <= r < 0x8000_0000
  {
    (x + 0x8000_0000) % 0x1_0000_0000 - 0x8000_0000
  }

  lemma Int32Successor(n: nat)
    ensures Int32(Int32(n) + 1) == Int32(n + 1)
  {
  }

  lemma Int32Equal(a: nat, b: nat)
    ensures Int32(a) == Int32(b) <==> a % 0x1_0000_0000 == b % 0x1_0000_0000
  {
  }

  /** An open file of one of the character devices */
  class File {
    var offset: nat
    constructor () ensures offset == 0 { offset := 0; }
  }
}
