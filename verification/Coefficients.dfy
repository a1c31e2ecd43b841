/** Coefficient blocks as both entropy coders see them. */
module Coefficients {
  const BLOCK_SIZE := 64

  /** The 64 coefficients of a block in zigzag order. */
  type Block = z: seq<int> | |z| == 64 witness seq(64, _ => 0)

  /** JCOEF is a 16-bit integer; conversion to it wraps around. */
  function Jcoef(x: int): int {
    (x + 0x8000) % 0x1_0000 - 0x8000
  }

  predicate Representable(z: Block) {
    forall k :: 0 <= k < BLOCK_SIZE ==> -0x8000 <= z[k] < 0x8000
  }

  function Abs(x: int): nat {
    if x < 0 then -x else x
  }
}
