/** The code tables of DEFLATE by the rules behind them (sections 3.2.5 to 3.2.7 of RFC 1951), without the
    tables: each length and distance code takes over where the one before ends, and every length, distance
    and run has a code. */
module DeflateCodes {
  import opened Bits
  import opened BitStream
  import opened Huffman
  import opened Deflate

  // ---- lengths and distances (section 3.2.5) ----

  lemma LengthBits(i: nat)
    requires i < 29
    ensures LengthExtra(i) == if i < 8 || i == 28 then 0 else (i - 4) / 4
  {
  }

  lemma DistBits(i: nat)
    requires i < 30
    ensures DistExtra(i) == if i < 2 then 0 else (i - 2) / 2
  {
  }

  lemma PowersTo(n: nat)
    requires n <= 13
    ensures Pow2(n) == [1, 2, 4, 8, 16, 32, 64, 128, 256, 512, 1024, 2048, 4096, 8192][n]
  {
    PowerTable(n);
  }

  /** A length code stands for lengths from its base on, the next one for those that follow. */
  lemma LengthFollows(i: nat)
    requires i < 28
    ensures LengthBase(0) == 3 && LengthBase(28) == 258
    ensures i + 1 < 28 ==> LengthBase(i + 1) == LengthBase(i) + Pow2(LengthExtra(i))
  {
    PowersTo(LengthExtra(i));
  }

  lemma DistFollows(i: nat)
    requires i < 30
    ensures DistBase(0) == 1
    ensures i + 1 < 30 ==> DistBase(i + 1) == DistBase(i) + Pow2(DistExtra(i))
    ensures i == 29 ==> DistBase(i) + Pow2(DistExtra(i)) == 32769
  {
    if i < 15 { NearFollows(i); } else { FarFollows(i); }
  }

  lemma NearFollows(i: nat)
    requires i < 15
    ensures DistBase(i + 1) == DistBase(i) + Pow2(DistExtra(i))
  {
    PowersTo(DistExtra(i));
  }

  lemma FarFollows(i: nat)
    requires 15 <= i < 30
    ensures i + 1 < 30 ==> DistBase(i + 1) == DistBase(i) + Pow2(DistExtra(i))
    ensures i == 29 ==> DistBase(i) + Pow2(DistExtra(i)) == 32769
  {
    PowersTo(DistExtra(i));
  }

  /** Every length from 3 to 258 is written by some code, and no code writes any other. */
  lemma {:induction false} LengthIsCoded(n: nat, i: nat) returns (code: nat)
    requires i < 28 && LengthBase(0) == 3 && 3 <= n < LengthBase(i) + Pow2(LengthExtra(i))
    ensures code <= i && LengthBase(code) <= n < LengthBase(code) + Pow2(LengthExtra(code))
  {
    hide LengthBase, LengthExtra, Pow2;
    if n >= LengthBase(i) { return i; }
    if i > 0 { LengthFollows(i - 1); }
    code := LengthIsCoded(n, i - 1);
  }

  lemma EveryLength(n: nat) returns (code: nat, extra: nat)
    requires 3 <= n <= 258
    ensures code < 29 && extra < Pow2(LengthExtra(code)) && LengthBase(code) + extra == n
  {
    LengthFollows(0);
    LengthFollows(27);
    PowersTo(0);
    PowersTo(5);
    LengthBits(27);
    LengthBits(28);
    LastLength();
    if n == 258 {
      return 28, 0;
    }
    code := LengthIsCoded(n, 27);
    extra := n - LengthBase(code);
  }

  lemma LastLength()
    ensures LengthBase(27) + Pow2(LengthExtra(27)) == 259
  {
    PowersTo(5);
  }

  lemma {:induction false} LengthAtMost(i: nat, extra: nat)
    requires i < 29 && extra < Pow2(LengthExtra(i))
    ensures 3 <= LengthBase(i) + extra <= 258
    decreases 29 - i
  {
    hide LengthBase, LengthExtra, Pow2;
    PowersTo(0);
    LengthBits(28);
    LengthFollows(0);
    LastLength();
    LengthsRise(i);
    if i + 1 < 28 { LengthFollows(i); LengthAtMost(i + 1, 0) by { PowersAre(i + 1); } }
  }

  lemma PowersAre(i: nat)
    requires i < 29
    ensures Pow2(LengthExtra(i)) >= 1
  {
    PowersTo(LengthExtra(i));
  }

  lemma {:induction false} LengthsRise(i: nat)
    requires i < 29
    ensures LengthBase(i) >= 3
  {
    hide LengthBase, LengthExtra, Pow2;
    LengthFollows(0);
    if 0 < i < 28 { LengthsRise(i - 1); LengthFollows(i - 1); }
  }

  lemma {:induction false} DistIsCoded(n: nat, i: nat) returns (code: nat)
    requires i < 30 && 1 <= n < DistBase(i) + Pow2(DistExtra(i))
    ensures code <= i && DistBase(code) <= n < DistBase(code) + Pow2(DistExtra(code))
  {
    hide DistBase, DistExtra, Pow2;
    DistFollows(0);
    if n >= DistBase(i) { return i; }
    if i > 0 { DistFollows(i - 1); }
    code := DistIsCoded(n, i - 1);
  }

  /** Every distance from 1 to 32768 is written by some code. */
  lemma EveryDistance(n: nat) returns (code: nat, extra: nat)
    requires 1 <= n <= 32768
    ensures code < 30 && extra < Pow2(DistExtra(code)) && DistBase(code) + extra == n
  {
    hide DistBase, DistExtra, Pow2;
    DistFollows(29);
    code := DistIsCoded(n, 29);
    extra := n - DistBase(code);
  }

  // ---- runs of code lengths (section 3.2.7) ----

  /** A token stands for one length; or for three to six copies of the one before; or for three to ten zeros; or
      for eleven to 138. */
  lemma RunLengths(t: LenToken)
    requires LenExtra(t) < Pow2(LenExtraBits(t))
    ensures match t
            case Plain(_) => LenCount(t) == 1
            case Repeat(_) => 3 <= LenCount(t) <= 6
            case Zeros(_) => 3 <= LenCount(t) <= 10
            case ManyZeros(_) => 11 <= LenCount(t) <= 138
  {
    PowersTo(0); PowersTo(2); PowersTo(3); PowersTo(7);
  }

  /** Every run in these ranges has a token. */
  lemma EveryRun(n: nat)
    requires 3 <= n <= 138
    ensures n <= 6 ==> LenExtra(Repeat(n - 3)) < Pow2(LenExtraBits(Repeat(n - 3))) && LenCount(Repeat(n - 3)) == n
    ensures n <= 10 ==> LenExtra(Zeros(n - 3)) < Pow2(LenExtraBits(Zeros(n - 3))) && LenCount(Zeros(n - 3)) == n
    ensures n >= 11 ==>
              LenExtra(ManyZeros(n - 11)) < Pow2(LenExtraBits(ManyZeros(n - 11))) && LenCount(ManyZeros(n - 11)) == n
  {
    PowersTo(2); PowersTo(3); PowersTo(7);
  }

  /** The order of the code length code: the three run symbols, zero, and then outwards from eight. */
  lemma SendingOrder(j: nat)
    requires j < 19
    ensures Dezigzag(j) == if j < 3 then 16 + j
                           else if j == 3 then 0
                           else if j % 2 == 0 then 8 + (j - 4) / 2
                           else 8 - (j - 3) / 2
  {
  }

  /** What the counts of a dynamic header count. */
  lemma HeaderCounts(h: Header)
    requires ValidCodeLengths(h)
    ensures |LitLengths(h)| == h.hlit + 257 && |DistLengths(h)| == h.hdist + 1
    ensures |ClBits(h.cl, 0, h.hclen + 4)| == 3 * (h.hclen + 4)
  {
    hide LenExpand, ValidLenTokens, Accepted, ToBits, Dezigzag;
    ClBitsLength(h.cl, 0, h.hclen + 4);
  }

  lemma {:induction false} ClBitsLength(cl: seq<nat>, j: nat, n: nat)
    requires |cl| == CL_SYMBOLS && j <= n <= CL_SYMBOLS
    ensures |ClBits(cl, j, n)| == 3 * (n - j)
    decreases n - j
  {
    hide ToBits, Dezigzag;
    if j < n { ClBitsLength(cl, j + 1, n); }
  }

  // ---- the fixed codes (section 3.2.6) ----

  lemma FixedLengthOf(i: nat)
    requires i < 288
    ensures |FixedLengths()| == 288 && |FixedDistances()| == 32 && (i < 32 ==> FixedDistances()[i] == 5)
    ensures FixedLengths()[i] == if i < 144 then 8 else if i < 256 then 9 else if i < 280 then 7 else 8
  {
    hide Uniform;
  }

  lemma {:induction false} CountUpTo(i: nat)
    requires i <= 288
    ensures |FixedLengths()| == 288
    ensures Count(FixedLengths()[..i], 7) == if i <= 256 then 0 else if i <= 280 then i - 256 else 24
    ensures Count(FixedLengths()[..i], 8)
            == if i <= 144 then i else if i <= 280 then 144 else 144 + (i - 280)
    ensures Count(FixedLengths()[..i], 9) == if i <= 144 then 0 else if i <= 256 then i - 144 else 112
    decreases i
  {
    hide Uniform, FixedLengths;
    FixedSize();
    var l := FixedLengths();
    if i == 0 {
      NoCounts();
      assert l[..0] == [];
    } else {
      CountUpTo(i - 1);
      FixedLengthOf(i - 1);
      assert l[..i][..i - 1] == l[..i - 1] && l[..i][i - 1] == l[i - 1];
      OneMore(l[..i]);
    }
  }

  lemma FixedSize()
    ensures |FixedLengths()| == 288
  {
    hide Uniform;
  }

  lemma NoCounts()
    ensures forall s :: Count([], s) == 0
  {
  }

  lemma OneMore(l: seq<nat>)
    requires l != []
    ensures forall s :: Count(l, s) == Count(l[..|l| - 1], s) + (if l[|l| - 1] == s then 1 else 0)
  {
  }

  /** The first codes: 24 of seven bits from 0, 152 of eight from 48, 112 of nine from 400. */
  lemma FixedFirsts()
    ensures First(FixedLengths(), 7) == 0 && First(FixedLengths(), 8) == 48 && First(FixedLengths(), 9) == 400
  {
    hide Count, FixedLengths, First;
    var l := FixedLengths();
    forall s: nat | 1 <= s < 7 ensures Count(l, s) == 0 { FixedCounts(s); }
    FirstIsZero(l, 7);
    FixedCounts(7);
    FixedCounts(8);
    FirstNext(l, 7);
    FirstNext(l, 8);
  }

  /** The fixed code of every literal and length symbol. */
  lemma FixedCodeOf(i: nat)
    requires i < 288
    ensures |FixedLengths()| == 288
    ensures Code(FixedLengths(), i)
            == if i < 144 then 0x30 + i else if i < 256 then 0x190 + (i - 144)
               else if i < 280 then i - 256 else 0xC0 + (i - 280)
  {
    hide Count, FixedLengths, First;
    FixedLengthOf(i);
    FixedFirsts();
    CountUpTo(i);
  }

  lemma FixedDistanceOf(i: nat)
    requires i < 32
    ensures |FixedDistances()| == 32 && Code(FixedDistances(), i) == i
  {
    hide Count, First, Uniform;
    var l := FixedDistances();
    forall s: nat | 1 <= s < 5 ensures Count(l, s) == 0 { FixedCounts(s); }
    FirstIsZero(l, 5);
    CountUniform(i, 5, 5);
    assert l[..i] == Uniform(i, 5);
  }
}
