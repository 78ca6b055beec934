/** Machine-word bit operations and bit strings: what masks, shifts and the 16-bit reversal of
    the decoder do to the binary digits of a word. */
module BitStream {
  import opened Bits

  // ---- words ----

  /** x >> n */
  function Shr(x: nat, n: nat): nat
  {
    if n == 0 then x else Shr(x / 2, n - 1)
  }

  /** x << n */
  function Shl(x: nat, n: nat): nat
  {
    if n == 0 then x else 2 * Shl(x, n - 1)
  }

  /** The low `n` bits of x. */
  function Low(x: nat, n: nat): (r: nat)
    ensures r < Pow2(n)
  {
    if n == 0 then 0 else 2 * Low(x / 2, n - 1) + x % 2
  }

  /** a & b */
  function And(a: nat, b: nat): nat
    decreases a
  {
    if a == 0 || b == 0 then 0 else 2 * And(a / 2, b / 2) + (if a % 2 == 1 && b % 2 == 1 then 1 else 0)
  }

  /** a | b */
  function Or(a: nat, b: nat): nat
    decreases a + b
  {
    if a == 0 then b else if b == 0 then a
    else 2 * Or(a / 2, b / 2) + (if a % 2 == 1 || b % 2 == 1 then 1 else 0)
  }

  lemma {:induction false} AndBits(a: nat, b: nat, k: nat)
    ensures BitAt(And(a, b), k) == (BitAt(a, k) && BitAt(b, k))
    decreases a
  {
    ZeroBits(k);
    if a != 0 && b != 0 {
      if k > 0 { AndBits(a / 2, b / 2, k - 1); }
    }
  }

  lemma {:induction false} OrBits(a: nat, b: nat, k: nat)
    ensures BitAt(Or(a, b), k) == (BitAt(a, k) || BitAt(b, k))
    decreases a + b
  {
    ZeroBits(k);
    if a != 0 && b != 0 {
      if k > 0 { OrBits(a / 2, b / 2, k - 1); }
    }
  }

  /** x & ((1 << n) - 1) keeps the low `n` bits. */
  lemma {:induction false} AndLowMask(x: nat, n: nat)
    ensures And(x, Pow2(n) - 1) == Low(x, n)
    decreases n
  {
    if n > 0 {
      AndLowMask(x / 2, n - 1);
      assert (Pow2(n) - 1) / 2 == Pow2(n - 1) - 1;
    }
  }

  /** Or-ing a word in above the `n` bits in use adds it there. */
  lemma {:induction false} OrAbove(x: nat, y: nat, n: nat)
    requires x < Pow2(n)
    ensures Or(x, Shl(y, n)) == x + Shl(y, n)
    decreases n
  {
    if n > 0 {
      OrAbove(x / 2, y, n - 1);
    }
  }

  lemma {:induction false} BitsEqual(a: nat, b: nat, w: nat)
    requires a < Pow2(w) && b < Pow2(w) && forall k :: 0 <= k < w ==> BitAt(a, k) == BitAt(b, k)
    ensures a == b
  {
    if w > 0 {
      forall k | 0 <= k < w - 1 ensures BitAt(a / 2, k) == BitAt(b / 2, k) {
        assert BitAt(a, k + 1) == BitAt(b, k + 1);
      }
      BitsEqual(a / 2, b / 2, w - 1);
      assert BitAt(a, 0) == BitAt(b, 0);
    }
  }

  lemma {:induction false} ShiftedRight(x: nat, n: nat, k: nat)
    ensures BitAt(Shr(x, n), k) == BitAt(x, k + n)
    decreases n
  {
    if n > 0 { ShiftedRight(x / 2, n - 1, k); }
  }

  lemma {:induction false} ShiftedLeft(x: nat, n: nat, k: nat)
    ensures BitAt(Shl(x, n), k) == (k >= n && BitAt(x, k - n))
    decreases n
  {
    if n > 0 && k > 0 { ShiftedLeft(x, n - 1, k - 1); }
  }

  // ---- reversing bits ----

  /** The low `n` bits of `v` in the opposite order. */
  function RevBits(v: nat, n: nat): (r: nat)
    ensures r < Pow2(n)
  {
    if n == 0 then 0 else RevBits(v / 2, n - 1) + (if v % 2 == 1 then Pow2(n - 1) else 0)
  }

  lemma {:induction false} RevBitAt(v: nat, n: nat, k: nat)
    requires k < n
    ensures BitAt(RevBits(v, n), k) == BitAt(v, n - 1 - k)
  {
    var low := RevBits(v / 2, n - 1);
    if v % 2 == 1 { TopBit(low, n - 1, k); } else { HighBitsClear(low, n - 1, k); }
    if k < n - 1 { RevBitAt(v / 2, n - 1, k); }
  }

  lemma {:induction false} TopBit(x: nat, n: nat, k: nat)
    requires x < Pow2(n) && k <= n
    ensures BitAt(x + Pow2(n), k) == (k == n || BitAt(x, k))
  {
    if n > 0 && k > 0 {
      assert (x + Pow2(n)) / 2 == x / 2 + Pow2(n - 1);
      TopBit(x / 2, n - 1, k - 1);
    }
  }

  lemma {:induction false} HighBitsClear(x: nat, n: nat, k: nat)
    requires x < Pow2(n)
    ensures k >= n ==> !BitAt(x, k)
  {
    if k >= n {
      if n > 0 { HighBitsClear(x / 2, n - 1, k - 1); } else { ZeroBits(k); }
    }
  }

  /** The reversal of the decoder: swap odd and even bits, pairs, nibbles and bytes of a word. */
  function BitReverse16(n0: nat): nat
  {
    var n1 := Or(Shr(And(n0, 0xAAAA), 1), Shl(And(n0, 0x5555), 1));
    var n2 := Or(Shr(And(n1, 0xCCCC), 2), Shl(And(n1, 0x3333), 2));
    var n3 := Or(Shr(And(n2, 0xF0F0), 4), Shl(And(n2, 0x0F0F), 4));
    Or(Shr(And(n3, 0xFF00), 8), Shl(And(n3, 0x00FF), 8))
  }

  /** reverse16(v) >> (16 - bits) */
  function BitReverse(v: nat, bits: nat): nat
    requires bits <= 16
  {
    Shr(BitReverse16(v), 16 - bits)
  }

  const POWERS := [1, 2, 4, 8, 0x10, 0x20, 0x40, 0x80, 0x100, 0x200,
      0x400, 0x800, 0x1000, 0x2000, 0x4000, 0x8000, 0x1_0000]

  lemma {:induction false} PowerTable(n: nat)
    requires n <= 16
    ensures Pow2(n) == POWERS[n]
  {
    if n > 0 { PowerTable(n - 1); }
  }

  lemma DivTwice(x: nat, m: nat)
    requires m > 0
    ensures x / 2 / m == x / (2 * m)
  {
    var q, r := x / (2 * m), x % (2 * m);
    assert x == 2 * m * q + r;
    var a := m * q;
    assert x == 2 * a + r && x / 2 == a + r / 2;
    var q', r' := x / 2 / m, x / 2 % m;
    assert x / 2 == m * q' + r';
    assert m * (q - q') == a - m * q';
    assert m * (q' - q) == m * q' - a;
    if q < q' { Multiple(q' - q, m); } else if q' < q { Multiple(q - q', m); }
  }

  lemma Multiple(a: nat, m: nat)
    requires a >= 1
    ensures m * a >= m
  {
    assert m * a == m + m * (a - 1);
  }

  lemma {:induction false} ShiftIsDivision(x: nat, n: nat)
    ensures Shr(x, n) == x / Pow2(n)
    decreases n
  {
    if n > 0 {
      ShiftIsDivision(x / 2, n - 1);
      DivTwice(x, Pow2(n - 1));
    }
  }

  lemma BitByDivision(m: nat, k: nat)
    requires k <= 16
    ensures BitAt(m, k) == (m / POWERS[k] % 2 == 1)
  {
    hide BitAt, Pow2, Shr;
    PowerTable(k);
    ShiftIsDivision(m, k);
    ShiftedRight(m, k, 0);
    LowestBit(Shr(m, k));
  }

  lemma LowestBit(x: nat)
    ensures BitAt(x, 0) == (x % 2 == 1)
  {
  }

  /** The masks of one swap step select the bits whose index has the digit `d` set, or clear. */
  ghost predicate SwapMasks(odd: nat, even: nat, d: nat)
    requires d > 0
  {
    forall k :: 0 <= k < 16 ==> BitAt(odd, k) == (k / d % 2 == 1) && BitAt(even, k) == (k / d % 2 == 0)
  }

  lemma MasksOfBits()
    ensures SwapMasks(0xAAAA, 0x5555, 1)
  {
    hide BitAt;
    forall k | 0 <= k < 16 ensures BitAt(0xAAAA, k) == (k / 1 % 2 == 1) && BitAt(0x5555, k) == (k / 1 % 2 == 0) {
      BitByDivision(0xAAAA, k);
      BitByDivision(0x5555, k);
    }
  }

  lemma MasksOfPairs()
    ensures SwapMasks(0xCCCC, 0x3333, 2)
  {
    hide BitAt;
    forall k | 0 <= k < 16 ensures BitAt(0xCCCC, k) == (k / 2 % 2 == 1) && BitAt(0x3333, k) == (k / 2 % 2 == 0) {
      BitByDivision(0xCCCC, k);
      BitByDivision(0x3333, k);
    }
  }

  lemma MasksOfNibbles()
    ensures SwapMasks(0xF0F0, 0x0F0F, 4)
  {
    hide BitAt;
    forall k | 0 <= k < 16 ensures BitAt(0xF0F0, k) == (k / 4 % 2 == 1) && BitAt(0x0F0F, k) == (k / 4 % 2 == 0) {
      BitByDivision(0xF0F0, k);
      BitByDivision(0x0F0F, k);
    }
  }

  lemma MasksOfBytes()
    ensures SwapMasks(0xFF00, 0x00FF, 8)
  {
    hide BitAt;
    forall k | 0 <= k < 16 ensures BitAt(0xFF00, k) == (k / 8 % 2 == 1) && BitAt(0x00FF, k) == (k / 8 % 2 == 0) {
      BitByDivision(0xFF00, k);
      BitByDivision(0x00FF, k);
    }
  }

  /** The digit of weight `d` of an index, before and after moving by `d`. */
  lemma DigitMoves(d: nat, k: nat)
    requires (d == 1 || d == 2 || d == 4 || d == 8) && k < 16
    ensures k / d % 2 == 1 ==> k >= d && (k - d) / d % 2 == 0 && (k + d) / d % 2 == 0
    ensures k / d % 2 == 0 ==> k + d < 16 && (k + d) / d % 2 == 1 && (k >= d ==> (k - d) / d % 2 == 1)
  {
  }

  /** The index that differs from `k` in the digit of weight `d`. */
  function Flip(k: nat, d: nat): nat
    requires (d == 1 || d == 2 || d == 4 || d == 8) && k < 16
  {
    if k / d % 2 == 1 then k - d else k + d
  }

  lemma FlipAll(k: nat)
    requires k < 16
    ensures Flip(k, 8) < 16 && Flip(Flip(k, 8), 4) < 16 && Flip(Flip(Flip(k, 8), 4), 2) < 16
    ensures Flip(Flip(Flip(Flip(k, 8), 4), 2), 1) == 15 - k
  {
  }

  /** One swap step moves the bit at `k` to the index that differs in the digit `d`. */
  lemma SwapStep(x: nat, odd: nat, even: nat, d: nat, k: nat)
    requires (d == 1 || d == 2 || d == 4 || d == 8) && k < 16 && odd < Pow2(16) && SwapMasks(odd, even, d)
    ensures var y := Or(Shr(And(x, odd), d), Shl(And(x, even), d));
            BitAt(y, k) == BitAt(x, Flip(k, d))
  {
    hide BitAt, And, Or, Pow2, Shr, Shl;
    DigitMoves(d, k);
    OrBits(Shr(And(x, odd), d), Shl(And(x, even), d), k);
    ShiftedRight(And(x, odd), d, k);
    ShiftedLeft(And(x, even), d, k);
    AndBits(x, odd, k + d);
    if k >= d { AndBits(x, even, k - d); }
    HighBitsClear(odd, 16, k + d);
  }

  /** The four swap steps reverse the low sixteen bits. */
  lemma BitReverse16Bit(v: nat, k: nat)
    requires k < 16
    ensures BitAt(BitReverse16(v), k) == BitAt(v, 15 - k)
  {
    hide BitAt, And, Or, Pow2, Shr, Shl;
    PowerTable(16);
    MasksOfBits(); MasksOfPairs(); MasksOfNibbles(); MasksOfBytes();
    var n1 := Or(Shr(And(v, 0xAAAA), 1), Shl(And(v, 0x5555), 1));
    var n2 := Or(Shr(And(n1, 0xCCCC), 2), Shl(And(n1, 0x3333), 2));
    var n3 := Or(Shr(And(n2, 0xF0F0), 4), Shl(And(n2, 0x0F0F), 4));
    hide SwapMasks;
    hide Flip;
    FlipAll(k);
    SwapStep(n3, 0xFF00, 0x00FF, 8, k);
    SwapStep(n2, 0xF0F0, 0x0F0F, 4, Flip(k, 8));
    SwapStep(n1, 0xCCCC, 0x3333, 2, Flip(Flip(k, 8), 4));
    SwapStep(v, 0xAAAA, 0x5555, 1, Flip(Flip(Flip(k, 8), 4), 2));
  }

  lemma {:induction false} OrBound(a: nat, b: nat, w: nat)
    requires a < Pow2(w) && b < Pow2(w)
    ensures Or(a, b) < Pow2(w)
    decreases w
  {
    if a != 0 && b != 0 { OrBound(a / 2, b / 2, w - 1); }
  }

  lemma {:induction false} AndBound(a: nat, b: nat)
    ensures And(a, b) <= b
    decreases a
  {
    if a != 0 && b != 0 { AndBound(a / 2, b / 2); }
  }

  /** The decoder's reversal of a word is the reversal of its low sixteen bits. */
  lemma BitReverse16Is(v: nat)
    ensures BitReverse16(v) == RevBits(v, 16)
  {
    forall k | 0 <= k < 16 ensures BitAt(BitReverse16(v), k) == BitAt(RevBits(v, 16), k) {
      BitReverse16Bit(v, k);
      RevBitAt(v, 16, k);
    }
    BitReverse16Bound(v);
    BitsEqual(BitReverse16(v), RevBits(v, 16), 16);
  }

  lemma BitReverse16Bound(v: nat)
    ensures BitReverse16(v) < Pow2(16)
  {
    hide And, Or, Pow2, Shr, Shl;
    PowerTable(16);
    PowerTable(8);
    var n1 := Or(Shr(And(v, 0xAAAA), 1), Shl(And(v, 0x5555), 1));
    var n2 := Or(Shr(And(n1, 0xCCCC), 2), Shl(And(n1, 0x3333), 2));
    var n3 := Or(Shr(And(n2, 0xF0F0), 4), Shl(And(n2, 0x0F0F), 4));
    AndBound(n3, 0xFF00);
    AndBound(n3, 0x00FF);
    ShrBound(And(n3, 0xFF00), 8);
    ShlBound(And(n3, 0x00FF), 8, 8);
    OrBound(Shr(And(n3, 0xFF00), 8), Shl(And(n3, 0x00FF), 8), 16);
  }

  lemma {:induction false} ShlBound(x: nat, w: nat, n: nat)
    requires x < Pow2(w)
    ensures Shl(x, n) < Pow2(w + n)
    decreases n
  {
    if n > 0 { ShlBound(x, w, n - 1); }
  }

  lemma {:induction false} ShrBound(x: nat, n: nat)
    ensures Shr(x, n) <= x
    decreases n
  {
    if n > 0 { ShrBound(x / 2, n - 1); }
  }

  // ---- prefixes of reversed words ----

  lemma {:induction false} RevOfLow(x: nat, n: nat)
    ensures RevBits(Low(x, n), n) == RevBits(x, n)
    decreases n
  {
    if n > 0 {
      assert Low(x, n) / 2 == Low(x / 2, n - 1) && Low(x, n) % 2 == x % 2;
      RevOfLow(x / 2, n - 1);
    }
  }

  lemma {:induction false} ShrAddPow(a: nat, m: nat, k: nat)
    requires k <= m
    ensures Shr(a + Pow2(m), k) == Shr(a, k) + Pow2(m - k)
    decreases k
  {
    if k > 0 {
      assert (a + Pow2(m)) / 2 == a / 2 + Pow2(m - 1);
      ShrAddPow(a / 2, m - 1, k - 1);
    }
  }

  lemma {:induction false} ShrAll(x: nat, n: nat)
    requires x < Pow2(n)
    ensures Shr(x, n) == 0
    decreases n
  {
    if n > 0 { ShrAll(x / 2, n - 1); }
  }

  /** The first `s` bits of a reversed word are the reversal of its low `s` bits. */
  lemma {:induction false} RevPrefix(x: nat, n: nat, s: nat)
    requires s <= n
    ensures Shr(RevBits(x, n), n - s) == RevBits(x, s)
    decreases n
  {
    if s == 0 {
      ShrAll(RevBits(x, n), n);
    } else {
      RevPrefix(x / 2, n - 1, s - 1);
      ShrAddPow(RevBits(x / 2, n - 1), n - 1, n - s);
    }
  }

  lemma {:induction false} LowIdentity(x: nat, n: nat)
    requires x < Pow2(n)
    ensures Low(x, n) == x
    decreases n
  {
    if n > 0 { LowIdentity(x / 2, n - 1); }
  }

  lemma RevRev(x: nat, n: nat)
    requires x < Pow2(n)
    ensures RevBits(RevBits(x, n), n) == x
  {
    forall k | 0 <= k < n ensures BitAt(RevBits(RevBits(x, n), n), k) == BitAt(x, k) {
      RevBitAt(RevBits(x, n), n, k);
      RevBitAt(x, n, n - 1 - k);
    }
    BitsEqual(RevBits(RevBits(x, n), n), x, n);
  }

  /** The low `s` bits of `x` are the reversed code `c` exactly when the first `s` bits of the
      reversed word are `c`. */
  lemma PrefixMatch(x: nat, s: nat, c: nat)
    requires s <= 16 && c < Pow2(s)
    ensures Low(x, s) == RevBits(c, s) <==> Shr(RevBits(x, 16), 16 - s) == c
  {
    RevPrefix(x, 16, s);
    RevOfLow(x, s);
    RevRev(c, s);
    RevRev(Low(x, s), s);
  }

  /** reverse16(v) >> (16 - n) is the reversal of the low `n` bits. */
  lemma BitReverseIs(v: nat, n: nat)
    requires n <= 16
    ensures BitReverse(v, n) == RevBits(v, n)
  {
    BitReverse16Is(v);
    RevPrefix(v, 16, n);
  }

  /** Values less than 1 << s apart with the same low `s` bits are equal. */
  lemma {:induction false} SameLow(a: nat, b: nat, s: nat)
    requires a <= b < a + Pow2(s) && Low(a, s) == Low(b, s)
    ensures a == b
    decreases s
  {
    if s > 0 {
      SameLow(a / 2, b / 2, s - 1);
    }
  }

  lemma {:induction false} LowPeriod(a: nat, s: nat)
    ensures Low(a + Pow2(s), s) == Low(a, s)
    decreases s
  {
    if s > 0 {
      assert (a + Pow2(s)) / 2 == a / 2 + Pow2(s - 1) && (a + Pow2(s)) % 2 == a % 2;
      LowPeriod(a / 2, s - 1);
    }
  }

  lemma {:induction false} LowOfLow(x: nat, n: nat, s: nat)
    requires s <= n
    ensures Low(Low(x, n), s) == Low(x, s)
    decreases s
  {
    if s > 0 {
      assert Low(x, n) / 2 == Low(x / 2, n - 1) && Low(x, n) % 2 == x % 2;
      LowOfLow(x / 2, n - 1, s - 1);
    }
  }
}
