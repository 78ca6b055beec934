/** Bits of non-negative machine words: the shifts, masks and bit tests of the kernel's
    bitmaps, as arithmetic on the binary digits. */
module Bits {

  /** 1 << n */
  function Pow2(n: nat): (r: nat)
    ensures r > 0
  {
    if n == 0 then 1 else 2 * Pow2(n - 1)
  }

  /** (x >> k) & 1 */
  predicate BitAt(x: nat, k: nat)
  {
    if k == 0 then x % 2 == 1 else BitAt(x / 2, k - 1)
  }

  /** x | (1 << k) */
  function SetBit(x: nat, k: nat): nat
  {
    if k == 0 then x / 2 * 2 + 1 else SetBit(x / 2, k - 1) * 2 + x % 2
  }

  /** x & ~(1 << k) */
  function ClearBit(x: nat, k: nat): nat
  {
    if k == 0 then x / 2 * 2 else ClearBit(x / 2, k - 1) * 2 + x % 2
  }

  lemma {:induction false} SetBitBits(x: nat, k: nat, j: nat)
    ensures BitAt(SetBit(x, k), j) == (j == k || BitAt(x, j))
  {
    if k > 0 && j > 0 {
      SetBitBits(x / 2, k - 1, j - 1);
    }
  }

  lemma {:induction false} ClearBitBits(x: nat, k: nat, j: nat)
    ensures BitAt(ClearBit(x, k), j) == (j != k && BitAt(x, j))
  {
    if k > 0 && j > 0 {
      ClearBitBits(x / 2, k - 1, j - 1);
    }
  }

  lemma {:induction false} SetBitBound(x: nat, k: nat, w: nat)
    requires x < Pow2(w) && k < w
    ensures SetBit(x, k) < Pow2(w)
  {
    if k > 0 {
      SetBitBound(x / 2, k - 1, w - 1);
    }
  }

  lemma {:induction false} ClearBitBound(x: nat, k: nat)
    ensures ClearBit(x, k) <= x
  {
    if k > 0 {
      ClearBitBound(x / 2, k - 1);
    }
  }

  lemma {:induction false} OnesAreSet(w: nat, k: nat)
    requires k < w
    ensures BitAt(Pow2(w) - 1, k)
  {
    if k > 0 {
      assert (Pow2(w) - 1) / 2 == Pow2(w - 1) - 1;
      OnesAreSet(w - 1, k - 1);
    }
  }

  lemma {:induction false} ZeroBits(k: nat)
    ensures !BitAt(0, k)
  {
    if k > 0 { ZeroBits(k - 1); }
  }

  /** The lowest clear bit of a word below bit `w`, or `w` when there is none. */
  function LowestClear(x: nat, w: nat): (k: nat)
    ensures k <= w
    ensures k < w ==> !BitAt(x, k)
    ensures forall j :: 0 <= j < k ==> BitAt(x, j)
  {
    if w == 0 || x % 2 == 0 then 0
    else
      var r := LowestClear(x / 2, w - 1);
      assert forall j :: 0 < j < r + 1 ==> BitAt(x, j) by {
        forall j | 0 < j < r + 1 ensures BitAt(x, j) { assert BitAt(x / 2, j - 1); }
      }
      r + 1
  }

  /** A `w`-bit word that is not all ones has a clear bit. */
  lemma {:induction false} NotOnesHasClear(x: nat, w: nat)
    requires x < Pow2(w)
    ensures LowestClear(x, w) < w <==> x != Pow2(w) - 1
  {
    if w > 0 {
      NotOnesHasClear(x / 2, w - 1);
    }
  }

  /** A bit set and then cleared again leaves the word as it was. */
  lemma {:induction false} ClearAfterSet(x: nat, k: nat)
    requires !BitAt(x, k)
    ensures ClearBit(SetBit(x, k), k) == x
  {
    if k > 0 {
      ClearAfterSet(x / 2, k - 1);
    }
  }
}
