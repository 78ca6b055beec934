/** Arithmetic that several modules need. */
module Arithmetic {

  const INT_MAX := 0x7fff_ffff

  lemma MulMono(x: int, y: int, k: nat)
    requires x <= y
    ensures x * k <= y * k
  {
    assert y * k == x * k + (y - x) * k;
  }

  /** A pixel's index in a buffer of `h` rows of `w` pixels. */
  lemma InBuffer(row: int, col: int, w: int, h: int)
    requires 0 <= row < h && 0 <= col < w
    ensures 0 <= row * w + col < w * h
  {
    MulMono(row + 1, h, w);
  }

  /** C division, which truncates toward zero. */
  function Quotient(a: int, b: int): int
    requires b != 0
  {
    if a >= 0 then (if b > 0 then a / b else -(a / -b)) else (if b > 0 then -(-a / b) else -a / -b)
  }
}
