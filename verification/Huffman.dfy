/** Canonical Huffman codes (section 3.2.2 of RFC 1951) and the decoding tables built for them. */
module Huffman {
  import opened Bits
  import opened BitStream

  const MAX_BITS := 15
  const MAX_SYMBOLS := 288
  const FAST_BITS := 9
  const FAST_SIZE := 512

  /** One code length per symbol, 0 for a symbol that is not used. */
  predicate IsLengths(l: seq<nat>)
  {
    |l| <= MAX_SYMBOLS && forall i :: 0 <= i < |l| ==> l[i] <= MAX_BITS
  }

  // ---- the code ----

  /** How many symbols have length `s`. */
  function Count(l: seq<nat>, s: nat): (n: nat)
    ensures n <= |l|
  {
    if l == [] then 0 else Count(l[..|l| - 1], s) + (if l[|l| - 1] == s then 1 else 0)
  }

  /** The smallest code of length `s`. */
  function First(l: seq<nat>, s: nat): nat
  {
    if s <= 1 then 0 else 2 * (First(l, s - 1) + Count(l, s - 1))
  }

  /** Symbols with a non-zero length below `s`. */
  function FirstSymbol(l: seq<nat>, s: nat): nat
  {
    if s <= 1 then 0 else FirstSymbol(l, s - 1) + Count(l, s - 1)
  }

  /** The position of symbol `i` among the symbols of its length. */
  function Rank(l: seq<nat>, i: nat): nat
    requires i < |l|
  {
    Count(l[..i], l[i])
  }

  /** The code of symbol `i`: consecutive values within a length, in symbol order. */
  function Code(l: seq<nat>, i: nat): nat
    requires i < |l|
  {
    First(l, l[i]) + Rank(l, i)
  }

  /** No length uses more codes than it has. */
  ghost predicate Accepted(l: seq<nat>)
  {
    forall s :: 1 <= s <= MAX_BITS && Count(l, s) > 0 ==> First(l, s) + Count(l, s) <= Pow2(s)
  }

  // ---- counting and ranks ----

  lemma {:induction false} CountPrefix(l: seq<nat>, s: nat, i: nat, j: nat)
    requires i <= j <= |l|
    ensures Count(l[..i], s) <= Count(l[..j], s)
    ensures i < j && l[i] == s ==> Count(l[..i], s) < Count(l[..j], s)
    decreases j
  {
    if i < j {
      assert l[..j][..j - 1] == l[..j - 1];
      CountPrefix(l, s, i, j - 1);
    }
  }

  lemma RankBelowCount(l: seq<nat>, i: nat)
    requires i < |l|
    ensures Rank(l, i) < Count(l, l[i])
  {
    CountPrefix(l, l[i], i, |l|);
    assert l[..|l|] == l;
  }

  lemma RankInjective(l: seq<nat>, i: nat, j: nat)
    requires i < |l| && j < |l| && l[i] == l[j] && Rank(l, i) == Rank(l, j)
    ensures i == j
  {
    if i < j { CountPrefix(l, l[i], i, j); }
    if j < i { CountPrefix(l, l[i], j, i); }
  }

  /** Every rank below the count of a length is the rank of a symbol. */
  lemma {:induction false} SymbolOfRank(l: seq<nat>, n: nat, s: nat, r: nat) returns (i: nat)
    requires n <= |l| && r < Count(l[..n], s)
    ensures i < n && l[i] == s && Count(l[..i], s) == r
    decreases n
  {
    assert l[..n][..n - 1] == l[..n - 1];
    if r < Count(l[..n - 1], s) {
      i := SymbolOfRank(l, n - 1, s, r);
    } else {
      i := n - 1;
    }
  }

  lemma {:induction false} FirstBound(l: seq<nat>, s: nat)
    requires Accepted(l) && 1 <= s <= MAX_BITS
    ensures First(l, s) <= Pow2(s) && First(l, s) + Count(l, s) <= Pow2(s)
  {
    if s > 1 { FirstBound(l, s - 1); }
  }

  lemma CodeBound(l: seq<nat>, i: nat)
    requires Accepted(l) && IsLengths(l) && i < |l| && l[i] > 0
    ensures Code(l, i) < Pow2(l[i])
  {
    FirstBound(l, l[i]);
    RankBelowCount(l, i);
  }

  // ---- the interval of sixteen-bit windows that a code covers ----

  lemma {:induction false} ShlMono(a: nat, b: nat, n: nat)
    requires a <= b
    ensures Shl(a, n) <= Shl(b, n)
    decreases n
  {
    if n > 0 { ShlMono(a, b, n - 1); }
  }

  lemma {:induction false} ShlDouble(x: nat, n: nat)
    requires n > 0
    ensures Shl(2 * x, n - 1) == Shl(x, n)
    decreases n
  {
    if n > 1 { ShlDouble(x, n - 1); }
  }

  /** k >> n is c exactly when k lies between c << n and (c + 1) << n. */
  lemma {:induction false} ShrInterval(k: nat, c: nat, n: nat)
    ensures Shr(k, n) == c <==> Shl(c, n) <= k < Shl(c + 1, n)
    decreases n
  {
    if n > 0 { ShrInterval(k / 2, c, n - 1); }
  }

  function Start(l: seq<nat>, s: nat): nat
    requires s <= 16
  {
    Shl(First(l, s), 16 - s)
  }

  function End(l: seq<nat>, s: nat): nat
    requires s <= 16
  {
    Shl(First(l, s) + Count(l, s), 16 - s)
  }

  /** The intervals of consecutive lengths meet. */
  lemma IntervalsMeet(l: seq<nat>, s: nat)
    requires 1 <= s <= MAX_BITS
    ensures Start(l, s + 1) == End(l, s) && Start(l, s) <= End(l, s)
  {
    ShlDouble(First(l, s) + Count(l, s), 16 - s);
    ShlMono(First(l, s), First(l, s) + Count(l, s), 16 - s);
  }

  lemma {:induction false} IntervalsAscend(l: seq<nat>, s: nat, s': nat)
    requires 1 <= s < s' <= MAX_BITS
    ensures End(l, s) <= Start(l, s') <= End(l, s')
    decreases s'
  {
    IntervalsMeet(l, s' - 1);
    IntervalsMeet(l, s');
    if s < s' - 1 { IntervalsAscend(l, s, s' - 1); }
  }

  /** The window `k`, the next sixteen bits first to last, starts with the code of symbol `i`. */
  ghost predicate Matches(l: seq<nat>, i: nat, k: nat)
  {
    i < |l| && 1 <= l[i] <= MAX_BITS && Shr(k, 16 - l[i]) == Code(l, i)
  }

  lemma MatchInInterval(l: seq<nat>, i: nat, k: nat)
    requires Matches(l, i, k)
    ensures Start(l, l[i]) <= k < End(l, l[i])
  {
    var s := l[i];
    ShrInterval(k, Code(l, i), 16 - s);
    RankBelowCount(l, i);
    ShlMono(First(l, s), Code(l, i), 16 - s);
    ShlMono(Code(l, i) + 1, First(l, s) + Count(l, s), 16 - s);
  }

  /** No window starts with two codes: the code is prefix-free. */
  lemma MatchUnique(l: seq<nat>, i: nat, j: nat, k: nat)
    requires Matches(l, i, k) && Matches(l, j, k)
    ensures i == j
  {
    MatchInInterval(l, i, k);
    MatchInInterval(l, j, k);
    if l[i] < l[j] {
      IntervalsAscend(l, l[i], l[j]);
    } else if l[j] < l[i] {
      IntervalsAscend(l, l[j], l[i]);
    } else {
      RankInjective(l, i, j);
    }
  }

  /** A window inside the interval of length `s` starts with a code of that length. */
  lemma IntervalHasMatch(l: seq<nat>, s: nat, k: nat) returns (i: nat)
    requires 1 <= s <= MAX_BITS && Start(l, s) <= k < End(l, s)
    ensures Matches(l, i, k) && l[i] == s
  {
    var c := Shr(k, 16 - s);
    ShrInterval(k, c, 16 - s);
    if c < First(l, s) { ShlMono(c + 1, First(l, s), 16 - s); }
    if c >= First(l, s) + Count(l, s) { ShlMono(First(l, s) + Count(l, s), c, 16 - s); }
    assert l[..|l|] == l;
    i := SymbolOfRank(l, |l|, s, c - First(l, s));
  }

  // ---- Kraft's inequality ----

  /** The codes of lengths up to `s`, counted in windows of sixteen bits. */
  function Kraft(l: seq<nat>, s: nat): nat
    requires s <= 16
  {
    if s == 0 then 0 else Kraft(l, s - 1) + Shl(Count(l, s), 16 - s)
  }

  lemma {:induction false} KraftIsEnd(l: seq<nat>, s: nat)
    requires 1 <= s <= MAX_BITS
    ensures Kraft(l, s) == End(l, s)
  {
    if s > 1 {
      KraftIsEnd(l, s - 1);
      IntervalsMeet(l, s - 1);
      ShlAdd(First(l, s), Count(l, s), 16 - s);
    }
  }

  lemma {:induction false} ShlAdd(a: nat, b: nat, n: nat)
    ensures Shl(a + b, n) == Shl(a, n) + Shl(b, n)
    decreases n
  {
    if n > 0 { ShlAdd(a, b, n - 1); }
  }

  lemma {:induction false} ShlPow(s: nat, n: nat)
    ensures Shl(Pow2(s), n) == Pow2(s + n)
    decreases n
  {
    if n > 0 { ShlPow(s, n - 1); }
  }

  lemma {:induction false} KraftGrows(l: seq<nat>, s: nat, s': nat)
    requires s <= s' <= 16
    ensures Kraft(l, s) <= Kraft(l, s')
    decreases s'
  {
    if s < s' { KraftGrows(l, s, s' - 1); }
  }

  /** The table builder's length-by-length test is Kraft's inequality. */
  lemma AcceptedIsKraft(l: seq<nat>)
    ensures Accepted(l) <==> Kraft(l, MAX_BITS) <= Pow2(16)
  {
    hide Kraft, First, Count, Shl, Pow2;
    if Accepted(l) {
      FirstBound(l, MAX_BITS);
      KraftIsEnd(l, MAX_BITS);
      ShlMono(First(l, 15) + Count(l, 15), Pow2(15), 1);
      ShlPow(15, 1);
    }
    if Kraft(l, MAX_BITS) <= Pow2(16) {
      forall s | 1 <= s <= MAX_BITS ensures First(l, s) + Count(l, s) <= Pow2(s) {
        KraftBounds(l, s);
      }
    }
  }

  lemma KraftBounds(l: seq<nat>, s: nat)
    requires 1 <= s <= MAX_BITS && Kraft(l, MAX_BITS) <= Pow2(16)
    ensures First(l, s) + Count(l, s) <= Pow2(s)
  {
    hide Kraft, First, Count, Shl, Pow2;
    KraftIsEnd(l, s);
    KraftGrows(l, s, MAX_BITS);
    if First(l, s) + Count(l, s) > Pow2(s) {
      ShlPow(s, 16 - s);
      ShlMono(Pow2(s) + 1, First(l, s) + Count(l, s), 16 - s);
      ShlAdd(Pow2(s), 1, 16 - s);
      ShlMono(1, 1, 16 - s);
      ShlPow(0, 16 - s);
      PowZero();
    }
  }

  lemma PowZero()
    ensures Pow2(0) == 1
  {
  }
}
