/** The bitwise integer square root. */
module IntSqrt {
  import opened Bits
  import opened Arithmetic

  /** `r` is the floor of the square root of `v`. */
  predicate IsRoot(r: nat, v: nat)
  {
    r * r <= v < (r + 1) * (r + 1)
  }

  lemma {:induction false} RootIsUnique(r: nat, s: nat, v: nat)
    requires IsRoot(r, v) && IsRoot(s, v)
    ensures r == s
  {
    SquareMono(r + 1, s);
    SquareMono(s + 1, r);
  }

  lemma SquareMono(a: nat, b: nat)
    ensures a <= b ==> a * a <= b * b
  {
    if a <= b { assert b * b == a * a + (b - a) * (b + a); }
  }

  /** One digit of the root: with `r` found so far, is r + b still not too large? */
  lemma DigitTest(v: int, r: nat, b: nat)
    ensures v - r * r >= r * (2 * b) + b * b <==> v >= (r + b) * (r + b)
    ensures v - r * r - (r * (2 * b) + b * b) == v - (r + b) * (r + b)
    ensures r * (2 * b) / 2 == r * b && (r + b) * b == r * b + b * b
  {
    assert (r + b) * (r + b) == r * r + 2 * (r * b) + b * b;
    assert r * (2 * b) == 2 * (r * b);
  }

  /** The loop's state: `r` is the root so far, `w` twice the weight of the next digit, and the true
      root is at least `r` and less than r + w. */
  predicate Progress(value: int, rest: int, res: int, r: nat, w: nat)
  {
    res == r * w && rest == value - r * r && rest >= 0 && value < (r + w) * (r + w)
  }

  lemma FirstProgress(value: int, w: nat)
    requires 0 <= value < w * w
    ensures Progress(value, value, 0, 0, w)
  {
  }

  lemma DigitTaken(value: int, rest: int, res: int, r: nat, b: nat)
    requires Progress(value, rest, res, r, 2 * b) && rest >= res + b * b
    ensures Progress(value, rest - (res + b * b), res / 2 + b * b, r + b, b)
  {
    DigitTest(value, r, b);
    assert r + 2 * b == (r + b) + b;
  }

  lemma DigitSkipped(value: int, rest: int, res: int, r: nat, b: nat)
    requires Progress(value, rest, res, r, 2 * b) && rest < res + b * b
    ensures Progress(value, rest, res / 2, r, b)
  {
    DigitTest(value, r, b);
  }

  /** The sum that the loop forms fits an int. */
  lemma NoOverflow(value: int, rest: int, res: int, r: nat, b: nat)
    requires Progress(value, rest, res, r, 2 * b) && r + 2 * b <= 0x1_0000
    ensures 0 <= res && res + b * b <= INT_MAX
  {
    MulMono(0, r, 2 * b);
    MulMono(r, 0x1_0000 - 2 * b, 2 * b);
    LargestProduct(b);
  }

  lemma LargestProduct(b: int)
    ensures (0x1_0000 - 2 * b) * (2 * b) + b * b <= INT_MAX
  {
    SquareOfDifference(b, 21845);
    SquareNotNegative(b - 21845);
    assert (0x1_0000 - 2 * b) * (2 * b) == 0x2_0000 * b - 4 * (b * b);
  }

  lemma SquareOfDifference(b: int, c: int)
    ensures (b - c) * (b - c) == b * b - 2 * c * b + c * c
  {
  }

  lemma SquareNotNegative(x: int)
    ensures x * x >= 0
  {
  }

  lemma HalfSquare(k: nat)
    ensures Pow2(k) * Pow2(k) / 4 == if k == 0 then 0 else Pow2(k - 1) * Pow2(k - 1)
  {
    if k > 0 {
      var h := Pow2(k - 1);
      assert Pow2(k) == 2 * h;
      assert Pow2(k) * Pow2(k) == 4 * (h * h);
    }
  }

  method FloorSqrt(value: int) returns (res: nat)
    requires value <= INT_MAX
    ensures value <= 0 ==> res == 0
    ensures value >= 0 ==> IsRoot(res, value) && res * res <= value < (res + 1) * (res + 1)
  {
    hide IsRoot, Progress;
    if value <= 0 {
      ZeroRoot();
      return 0;
    }
    var rest := value;
    var bit, k := FirstBit(value);
    // the root found so far, and twice the weight of the next digit
    ghost var root: nat, weight: nat := 0, 2 * Pow2(k);
    ghost var digit: int := k;
    res := 0;
    FirstProgress(value, weight);
    while bit != 0
      invariant -1 <= digit <= 15 && weight == (if digit < 0 then 1 else 2 * Pow2(digit))
      invariant bit == (if digit < 0 then 0 else Pow2(digit) * Pow2(digit))
      invariant Progress(value, rest, res, root, weight) && root + weight <= 0x1_0000
      decreases digit
    {
      ghost var b := Pow2(digit);
      HalfSquare(digit);
      NoOverflow(value, rest, res, root, b);
      assert res + bit <= INT_MAX;
      if rest >= res + bit {
        DigitTaken(value, rest, res, root, b);
        rest := rest - (res + bit);
        res := res / 2 + bit;
        root := root + b;
      } else {
        DigitSkipped(value, rest, res, root, b);
        res := res / 2;
      }
      bit := bit / 4;
      weight := b;
      digit := digit - 1;
    }
    RootOf(value, rest, res, root);
  }

  lemma ZeroRoot()
    ensures IsRoot(0, 0)
  {
  }

  lemma RootOf(value: int, rest: int, res: int, r: nat)
    requires Progress(value, rest, res, r, 1)
    ensures res == r && IsRoot(r, value)
  {
  }

  /** The largest power of four not above a positive int. */
  method FirstBit(value: nat) returns (bit: nat, ghost k: nat)
    requires 0 < value <= INT_MAX
    ensures bit <= value < 4 * bit
    ensures k <= 15 && Pow2(k) <= 0x8000 && bit == Pow2(k) * Pow2(k) && value < (2 * Pow2(k)) * (2 * Pow2(k))
  {
    bit, k := 0x4000_0000, 15;
    assert Pow2(7) == 128;
    assert Pow2(15) == 256 * Pow2(7);
    while bit > value
      invariant k <= 15 && Pow2(k) <= 0x8000 && bit == Pow2(k) * Pow2(k) && value < (2 * Pow2(k)) * (2 * Pow2(k))
      decreases k
    {
      HalfSquare(k);
      assert Pow2(0) * Pow2(0) == 1;
      bit := bit / 4;
      k := k - 1;
      assert 2 * Pow2(k) == Pow2(k + 1);
    }
  }
}
