/** The decoding tables: a 9-bit fast table, the upper bounds of each length's codes and the
    symbols in code order, filled in place from a list of code lengths. */
module HuffmanTable {
  import opened Bits
  import opened BitStream
  import opened Huffman

  class Table {
    const fast: array<nat>
    const firstCode: array<nat>
    const maxCode: array<nat>
    const firstSymbol: array<nat>
    const size: array<nat>
    const value: array<nat>

    constructor ()
      ensures Shape() && fresh(Repr())
    {
      fast := new nat[FAST_SIZE];
      firstCode := new nat[16];
      maxCode := new nat[17];
      firstSymbol := new nat[16];
      size := new nat[MAX_SYMBOLS];
      value := new nat[MAX_SYMBOLS];
    }

    ghost function Repr(): set<object>
    {
      {fast, firstCode, maxCode, firstSymbol, size, value}
    }

    ghost predicate Shape()
    {
      && fast.Length == FAST_SIZE && firstCode.Length == 16 && maxCode.Length == 17 && firstSymbol.Length == 16
      && size.Length == MAX_SYMBOLS && value.Length == MAX_SYMBOLS
      && fast != firstCode && fast != maxCode && fast != firstSymbol && fast != size && fast != value
      && firstCode != maxCode && firstCode != firstSymbol && firstCode != size && firstCode != value
      && maxCode != firstSymbol && maxCode != size && maxCode != value
      && firstSymbol != size && firstSymbol != value && size != value
    }

    /** The per-length bounds of the lengths below `n`. */
    ghost predicate Bounds(l: seq<nat>, n: nat)
      requires Shape() && n <= 16
      reads firstCode, maxCode, firstSymbol
    {
      forall s :: 1 <= s < n ==>
        firstCode[s] == First(l, s) && maxCode[s] == End(l, s) && firstSymbol[s] == FirstSymbol(l, s)
    }

    /** The slots of the first `n` symbols, in code order. */
    ghost predicate Slots(l: seq<nat>, n: nat)
      requires Shape() && n <= |l|
      reads size, value
    {
      forall i :: 0 <= i < n && l[i] > 0 ==>
        Slot(l, i) < MAX_SYMBOLS && size[Slot(l, i)] == l[i] && value[Slot(l, i)] == i
    }

    /** Every fast entry is the one short code among the first `n` symbols that starts its index. */
    ghost predicate FastOk(l: seq<nat>, n: nat)
      requires Shape() && n <= |l|
      reads fast
    {
      forall b :: 0 <= b < FAST_SIZE ==> FastEntryOk(l, n, b, fast[b])
    }

    /** The tables decode the code with lengths `l`. */
    ghost predicate Represents(l: seq<nat>)
      reads Repr()
    {
      && Shape() && IsLengths(l) && Accepted(l)
      && Bounds(l, 16) && maxCode[16] == 0x1_0000 && Slots(l, |l|) && FastOk(l, |l|)
    }

    /** First codes, upper bounds and first symbols of every length; false when one overflows. */
    method AssignCodes(l: seq<nat>, sizes: array<nat>) returns (ok: bool, nextCode: array<nat>)
      requires Shape() && IsLengths(l)
      requires sizes.Length == 17 && sizes !in Repr() && forall s :: 1 <= s < 16 ==> sizes[s] == Count(l, s)
      modifies firstCode, maxCode, firstSymbol
      ensures fresh(nextCode) && nextCode.Length == 16
      ensures ok <==> Accepted(l)
      ensures ok ==> Bounds(l, 16) && forall s :: 1 <= s < 16 ==> nextCode[s] == First(l, s)
    {
      hide Count, Pow2, First, FirstSymbol, End, Accepted;
      nextCode := new nat[16];
      FirstStep(l, 0);
      var code, k := 0, 0;
      var i := 1;
      while i < 16
        invariant 1 <= i <= 16 && code == First(l, i) && k == FirstSymbol(l, i)
        invariant forall s :: 1 <= s < 16 ==> sizes[s] == Count(l, s)
        invariant Bounds(l, i) && forall s :: 1 <= s < i ==> nextCode[s] == First(l, s)
        invariant forall s :: 1 <= s < i && Count(l, s) > 0 ==> First(l, s) + Count(l, s) <= Pow2(s)
      {
        nextCode[i] := code;
        firstCode[i] := code;
        firstSymbol[i] := k;
        code := code + sizes[i];
        if sizes[i] > 0 && code - 1 >= Pow2(i) {
          Overflows(l, i);
          return false, nextCode;
        }
        FirstStep(l, i);
        maxCode[i] := Shl(code, 16 - i);
        code := 2 * code;
        k := k + sizes[i];
        i := i + 1;
      }
      NoneOverflows(l);
      return true, nextCode;
    }

    /** Write `entry` at every fast index whose low `s` bits are `start`. */
    method FillFast(start: nat, s: nat, entry: nat)
      requires Shape() && 1 <= s <= FAST_BITS && start < Pow2(s)
      modifies fast
      ensures forall b :: 0 <= b < FAST_SIZE ==> fast[b] == if Low(b, s) == start then entry else old(fast[b])
    {
      hide Pow2, Low;
      var j := start;
      forall b | 0 <= b <= start ensures Low(b, s) == b { LowIdentity(b, s); }
      while j < FAST_SIZE
        invariant Low(j, s) == start && 0 <= j
        invariant forall b :: 0 <= b < FAST_SIZE ==>
                    fast[b] == if b < j && Low(b, s) == start then entry else old(fast[b])
        invariant forall b :: 0 <= b < start ==> Low(b, s) != start
        decreases FAST_SIZE - j
      {
        fast[j] := entry;
        forall b | j < b < j + Pow2(s) ensures Low(b, s) != start {
          if Low(b, s) == start { SameLow(j, b, s); }
        }
        LowPeriod(j, s);
        j := j + Pow2(s);
      }
    }

    /** Give symbol `i` the next code of its length: its slot and, for a short code, its fast entries. */
    method PlaceSymbol(l: seq<nat>, i: nat, nextCode: array<nat>)
      requires Shape() && IsLengths(l) && Accepted(l) && i < |l| && Bounds(l, 16)
      requires nextCode.Length == 16 && nextCode !in Repr()
      requires forall k :: 1 <= k < 16 ==> nextCode[k] == First(l, k) + Count(l[..i], k)
      requires Slots(l, i) && FastOk(l, i)
      modifies fast, size, value, nextCode
      ensures Slots(l, i + 1) && FastOk(l, i + 1)
      ensures forall k :: 1 <= k < 16 ==> nextCode[k] == old(nextCode[k]) + (if l[i] == k then 1 else 0)
    {
      hide Count, First, FirstSymbol, Code, Rank, Accepted, Pow2, BitReverse, Low, RevBits, Slot;
      var len := l[i];
      if len > 0 {
        CodeIs(l, i);
        SlotBound(l, i);
        var slot := nextCode[len] - firstCode[len] + firstSymbol[len];
        SlotsAreApart(l, i);
        size[slot] := len;
        value[slot] := i;
        if len <= FAST_BITS {
          BitReverseIs(nextCode[len], len);
          FillFast(BitReverse(nextCode[len], len), len, len * FAST_SIZE + i);
        }
        nextCode[len] := nextCode[len] + 1;
      }
      forall k | 0 <= k < FAST_SIZE ensures FastEntryOk(l, i + 1, k, fast[k]) {
        assert FastEntryOk(l, i, k, old(fast[k]));
        FastStep(l, i, k, old(fast[k]));
      }
    }

    /** Fill the tables from code lengths; false when some length uses more codes than it has. */
    method Build(l: seq<nat>) returns (ok: bool)
      requires Shape() && IsLengths(l)
      modifies Repr()
      ensures ok <==> Accepted(l)
      ensures ok ==> Represents(l)
    {
      hide Count, First, FirstSymbol, Code, Rank, Accepted, Pow2, BitReverse, Low, RevBits, Slot;
      var sizes := CountLengths(l);
      var b := 0;
      while b < FAST_SIZE
        invariant 0 <= b <= FAST_SIZE && forall k :: 0 <= k < b ==> fast[k] == 0
        invariant sizes.Length == 17 && forall s :: 1 <= s < 16 ==> sizes[s] == Count(l, s)
      {
        fast[b] := 0;
        b := b + 1;
      }
      var s := 1;
      while s < 16
        invariant 1 <= s <= 16
      {
        if sizes[s] > Pow2(s) {
          TooMany(l, s);
          return false;
        }
        s := s + 1;
      }
      var nextCode;
      ok, nextCode := AssignCodes(l, sizes);
      if !ok { return; }
      maxCode[16] := 0x1_0000;
      assert l[..0] == [];
      EmptyCounts();
      NothingPlaced(l);
      var i := 0;
      while i < |l|
        invariant 0 <= i <= |l| && Bounds(l, 16) && maxCode[16] == 0x1_0000
        invariant forall k :: 1 <= k < 16 ==> nextCode[k] == First(l, k) + Count(l[..i], k)
        invariant Slots(l, i) && FastOk(l, i)
      {
        PlaceSymbol(l, i, nextCode);
        CountStep(l, i);
        i := i + 1;
      }
      assert l[..|l|] == l;
    }
  }

  function Slot(l: seq<nat>, i: nat): nat
    requires i < |l|
  {
    FirstSymbol(l, l[i]) + Rank(l, i)
  }

  /** Symbol `i` has a code of at most nine bits that starts the index `b`. */
  ghost predicate FastMatch(l: seq<nat>, i: nat, b: nat)
    requires i < |l|
  {
    1 <= l[i] <= FAST_BITS && Low(b, l[i]) == RevBits(Code(l, i), l[i])
  }

  ghost predicate FastEntryOk(l: seq<nat>, n: nat, b: nat, entry: nat)
    requires n <= |l|
  {
    && (forall i :: 0 <= i < n && FastMatch(l, i, b) ==> entry == l[i] * FAST_SIZE + i)
    && (entry != 0 ==> exists i :: 0 <= i < n && FastMatch(l, i, b))
  }

  lemma {:induction false} FirstSymbolAscends(l: seq<nat>, s: nat, s': nat)
    requires 1 <= s < s'
    ensures FirstSymbol(l, s) + Count(l, s) <= FirstSymbol(l, s')
    decreases s'
  {
    if s < s' - 1 { FirstSymbolAscends(l, s, s' - 1); }
  }

  /** How many symbols have a length of 1 to `s`. */
  function CountUpTo(l: seq<nat>, s: nat): nat
  {
    if l == [] then 0 else CountUpTo(l[..|l| - 1], s) + (if 1 <= l[|l| - 1] <= s then 1 else 0)
  }

  lemma {:induction false} CountUpToStep(l: seq<nat>, s: nat)
    requires s >= 1
    ensures CountUpTo(l, s) == CountUpTo(l, s - 1) + Count(l, s)
    ensures CountUpTo(l, s) <= |l| && CountUpTo(l, 0) == 0
  {
    if l != [] { CountUpToStep(l[..|l| - 1], s); }
  }

  lemma {:induction false} FirstSymbolIs(l: seq<nat>, s: nat)
    requires s >= 1
    ensures FirstSymbol(l, s) == CountUpTo(l, s - 1)
  {
    CountUpToStep(l, s);
    if s > 1 {
      CountUpToStep(l, s - 1);
      FirstSymbolIs(l, s - 1);
    }
  }

  lemma SlotBound(l: seq<nat>, i: nat)
    requires IsLengths(l) && i < |l| && l[i] > 0
    ensures Slot(l, i) < |l|
  {
    RankBelowCount(l, i);
    FirstSymbolIs(l, l[i]);
    CountUpToStep(l, l[i]);
  }

  lemma SlotInjective(l: seq<nat>, i: nat, j: nat)
    requires i < |l| && j < |l| && l[i] > 0 && l[j] > 0 && Slot(l, i) == Slot(l, j)
    ensures i == j
  {
    RankBelowCount(l, i);
    RankBelowCount(l, j);
    if l[i] < l[j] {
      FirstSymbolAscends(l, l[i], l[j]);
    } else if l[j] < l[i] {
      FirstSymbolAscends(l, l[j], l[i]);
    } else {
      RankInjective(l, i, j);
    }
  }

  /** Two short codes cannot start the same index. */
  lemma FastMatchUnique(l: seq<nat>, i: nat, j: nat, b: nat)
    requires Accepted(l) && IsLengths(l) && i < |l| && j < |l| && FastMatch(l, i, b) && FastMatch(l, j, b)
    ensures i == j
  {
    FastMatchIsMatch(l, i, b);
    FastMatchIsMatch(l, j, b);
    MatchUnique(l, i, j, RevBits(b, 16));
  }

  /** A short code starts the index made of the low bits exactly when it starts the window. */
  lemma FastMatchIsMatch(l: seq<nat>, i: nat, x: nat)
    requires Accepted(l) && IsLengths(l) && i < |l| && 1 <= l[i] <= FAST_BITS
    ensures FastMatch(l, i, x) <==> Matches(l, i, RevBits(x, 16))
    ensures FastMatch(l, i, Low(x, FAST_BITS)) <==> FastMatch(l, i, x)
  {
    CodeBound(l, i);
    PrefixMatch(x, l[i], Code(l, i));
    LowOfLow(x, FAST_BITS, l[i]);
  }

  /** The histogram of the non-zero code lengths. */
  method CountLengths(l: seq<nat>) returns (sizes: array<nat>)
    requires IsLengths(l)
    ensures fresh(sizes) && sizes.Length == 17 && sizes[0] == 0
    ensures forall s :: 1 <= s < 16 ==> sizes[s] == Count(l, s)
  {
    sizes := new nat[17](_ => 0);
    var i := 0;
    while i < |l|
      invariant 0 <= i <= |l| && forall s :: 0 <= s < 17 ==> sizes[s] == Count(l[..i], s)
    {
      sizes[l[i]] := sizes[l[i]] + 1;
      assert l[..i + 1][..i] == l[..i];
      i := i + 1;
    }
    assert l[..|l|] == l;
    sizes[0] := 0;
  }

  lemma TooMany(l: seq<nat>, s: nat)
    requires 1 <= s <= MAX_BITS && Count(l, s) > Pow2(s)
    ensures !Accepted(l)
  {
  }

  lemma EmptyCounts()
    ensures forall s :: Count([], s) == 0
  {
  }

  lemma NothingPlaced(l: seq<nat>)
    ensures forall b :: FastEntryOk(l, 0, b, 0)
  {
  }

  lemma CodeIs(l: seq<nat>, i: nat)
    requires Accepted(l) && IsLengths(l) && i < |l| && l[i] > 0
    ensures Code(l, i) == First(l, l[i]) + Count(l[..i], l[i]) < Pow2(l[i])
    ensures Slot(l, i) == Count(l[..i], l[i]) + FirstSymbol(l, l[i])
  {
    CodeBound(l, i);
  }

  lemma SlotsAreApart(l: seq<nat>, i: nat)
    requires IsLengths(l) && i < |l| && l[i] > 0
    ensures forall j :: 0 <= j < i && l[j] > 0 ==> Slot(l, j) != Slot(l, i)
  {
    hide Slot;
    forall j | 0 <= j < i && l[j] > 0 ensures Slot(l, j) != Slot(l, i) {
      if Slot(l, j) == Slot(l, i) { SlotInjective(l, j, i); }
    }
  }

  lemma CountStep(l: seq<nat>, i: nat)
    requires i < |l|
    ensures forall s :: Count(l[..i + 1], s) == Count(l[..i], s) + (if l[i] == s then 1 else 0)
  {
    assert l[..i + 1][..i] == l[..i];
  }

  lemma FastStep(l: seq<nat>, i: nat, b: nat, entry: nat)
    requires Accepted(l) && IsLengths(l) && i < |l| && FastEntryOk(l, i, b, entry)
    ensures FastEntryOk(l, i + 1, b, if FastMatch(l, i, b) then l[i] * FAST_SIZE + i else entry)
  {
    hide FastMatch;
    forall j | 0 <= j < i && FastMatch(l, i, b) && FastMatch(l, j, b) ensures false {
      FastMatchUnique(l, i, j, b);
    }
  }

  lemma FirstStep(l: seq<nat>, i: nat)
    requires i <= MAX_BITS
    ensures First(l, 1) == 0 && FirstSymbol(l, 1) == 0
    ensures i >= 1 ==> && First(l, i + 1) == 2 * (First(l, i) + Count(l, i))
                       && FirstSymbol(l, i + 1) == FirstSymbol(l, i) + Count(l, i)
                       && End(l, i) == Shl(First(l, i) + Count(l, i), 16 - i)
  {
  }

  lemma Overflows(l: seq<nat>, s: nat)
    requires 1 <= s <= MAX_BITS && Count(l, s) > 0 && First(l, s) + Count(l, s) > Pow2(s)
    ensures !Accepted(l)
  {
  }

  lemma NoneOverflows(l: seq<nat>)
    requires forall s :: 1 <= s < 16 && Count(l, s) > 0 ==> First(l, s) + Count(l, s) <= Pow2(s)
    ensures Accepted(l)
  {
  }
}
