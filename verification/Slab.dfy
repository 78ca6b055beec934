/** The slab allocator: pages cut into equal slots, a 64-bit bitmap of the taken ones in each
    page's header, and a linked list of pages per size class. */
module Slab {
  import opened Bits
  import opened Arithmetic

  const PAGE := 4096
  const HEADER := 32 // sizeof(Slab): bitmap, next, free_slots padded to eight bytes, cache
  const CACHES := 9
  const WORD_BITS := 64
  const LAST_PAGE_CLASS := 6 // 2048 bytes; the two larger classes do not fit a page

  function Size(c: nat): nat
    requires c < CACHES
  {
    [32, 64, 128, 256, 512, 1024, 2048, 5096, 10192][c]
  }

  /** How many objects a new slab says it has room for. */
  function Capacity(c: nat): nat
    requires c < CACHES
  {
    (PAGE - HEADER) / Size(c)
  }

  /** The smallest class that holds `target` bytes, CACHES when none does. */
  function ClassOf(target: nat): (c: nat)
    ensures c <= CACHES
    ensures c < CACHES ==> Size(c) >= target
    ensures forall d :: 0 <= d < c ==> Size(d) < target
  {
    if target <= 32 then 0
    else if target <= 64 then 1
    else if target <= 128 then 2
    else if target <= 256 then 3
    else if target <= 512 then 4
    else if target <= 1024 then 5
    else if target <= 2048 then 6
    else if target <= 5096 then 7
    else if target <= 10192 then 8
    else 9
  }

  datatype Header = Header(bitmap: nat, next: nat, freeSlots: nat, cache: nat)

  type Heap = map<nat, Header>

  // ---- bits in a bitmap ----

  function PopCount(x: nat): nat
  {
    if x == 0 then 0 else x % 2 + PopCount(x / 2)
  }

  lemma {:induction false} SetBitCount(x: nat, k: nat)
    requires !BitAt(x, k)
    ensures PopCount(SetBit(x, k)) == PopCount(x) + 1
  {
    hide PopCount;
    if k > 0 {
      SetBitCount(x / 2, k - 1);
      CountDigit(SetBit(x / 2, k - 1), x % 2);
    } else {
      CountDigit(x / 2, 1);
    }
    CountDigit(x / 2, x % 2);
    assert x == x / 2 * 2 + x % 2;
  }

  lemma {:induction false} ClearBitCount(x: nat, k: nat)
    requires BitAt(x, k)
    ensures PopCount(ClearBit(x, k)) + 1 == PopCount(x)
  {
    hide PopCount;
    if k > 0 {
      ClearBitCount(x / 2, k - 1);
      CountDigit(ClearBit(x / 2, k - 1), x % 2);
    } else {
      CountDigit(x / 2, 0);
    }
    CountDigit(x / 2, x % 2);
    assert x == x / 2 * 2 + x % 2;
  }

  lemma CountDigit(y: nat, b: nat)
    requires b < 2
    ensures PopCount(y * 2 + b) == PopCount(y) + b
  {
    assert (y * 2 + b) / 2 == y && (y * 2 + b) % 2 == b;
  }

  /** Every bit below the lowest clear one counts. */
  lemma {:induction false} CountBelowClear(x: nat, w: nat)
    ensures LowestClear(x, w) <= PopCount(x)
  {
    if w > 0 && x % 2 == 1 { CountBelowClear(x / 2, w - 1); }
  }

  // ---- one slab ----

  /** A header keeps count: taken plus free slots are its capacity, and no slot past it is taken. */
  ghost predicate Counted(h: Header)
  {
    && h.cache <= LAST_PAGE_CLASS
    && h.bitmap < Pow2(WORD_BITS)
    && PopCount(h.bitmap) + h.freeSlots == Capacity(h.cache)
    && forall k :: Capacity(h.cache) <= k ==> !BitAt(h.bitmap, k)
  }

  function NewHeader(c: nat, next: nat): Header
    requires c < CACHES
  {
    Header(0, next, Capacity(c), c)
  }

  function Take(h: Header): Header
    requires h.freeSlots > 0
  {
    h.(bitmap := SetBit(h.bitmap, LowestClear(h.bitmap, WORD_BITS)), freeSlots := h.freeSlots - 1)
  }

  function Release(h: Header, slot: nat): Header
  {
    h.(bitmap := ClearBit(h.bitmap, slot), freeSlots := h.freeSlots + 1)
  }

  /** A free slot below the capacity: always there in the classes of 64 bytes and more, whose capacity
      fits the bitmap; in the 32-byte class exactly when the bitmap is not full. */
  predicate HasSlot(h: Header)
  {
    h.freeSlots > 0 && (h.cache == 0 ==> h.bitmap != Pow2(WORD_BITS) - 1)
  }

  lemma NewIsCounted(c: nat, next: nat)
    requires c <= LAST_PAGE_CLASS
    ensures Counted(NewHeader(c, next)) && HasSlot(NewHeader(c, next))
  {
    forall k | Capacity(c) <= k ensures !BitAt(0, k) { ZeroBits(k); }
    assert Pow2(WORD_BITS) > 1 by { assert Pow2(WORD_BITS) == 2 * Pow2(WORD_BITS - 1); }
  }

  lemma SlotIsFree(h: Header)
    requires Counted(h) && HasSlot(h)
    ensures var k := LowestClear(h.bitmap, WORD_BITS); k < WORD_BITS && k < Capacity(h.cache) && !BitAt(h.bitmap, k)
  {
    CountBelowClear(h.bitmap, WORD_BITS);
    if h.cache == 0 { NotOnesHasClear(h.bitmap, WORD_BITS); }
  }

  /** The 32-byte class promises 127 slots to a 64-bit bitmap: exactly when 64 objects are live, so that it
      still counts 63 free slots, there is no bit to take. */
  lemma SmallClassRunsOut(h: Header)
    requires Counted(h) && h.freeSlots > 0
    ensures LowestClear(h.bitmap, WORD_BITS) == WORD_BITS <==> h.cache == 0 && h.freeSlots == 63
    ensures LowestClear(h.bitmap, WORD_BITS) == WORD_BITS <==> !HasSlot(h)
  {
    NotOnesHasClear(h.bitmap, WORD_BITS);
    OnesCount(WORD_BITS);
    if HasSlot(h) {
      SlotIsFree(h);
      if h.cache == 0 && h.freeSlots == 63 { FullCount(h.bitmap, WORD_BITS); }
    }
  }

  /** A word of `w` bits with `w` bits set is all ones. */
  lemma {:induction false} FullCount(x: nat, w: nat)
    requires x < Pow2(w)
    ensures PopCount(x) <= w && (PopCount(x) == w ==> x == Pow2(w) - 1)
  {
    if w > 0 { FullCount(x / 2, w - 1); }
  }

  /** The lowest clear bit above `n` ones. */
  lemma {:induction false} NextAfterOnes(n: nat, w: nat)
    requires n <= w
    ensures LowestClear(Pow2(n) - 1, w) == n && SetBit(Pow2(n) - 1, n) == Pow2(n + 1) - 1
  {
    if n > 0 {
      assert (Pow2(n) - 1) / 2 == Pow2(n - 1) - 1 && (Pow2(n) - 1) % 2 == 1;
      NextAfterOnes(n - 1, w - 1);
    }
  }

  /** A header after `n` objects have been taken from it. */
  function Takes(h: Header, n: nat): Header
    requires h.freeSlots >= n
    ensures Takes(h, n).freeSlots == h.freeSlots - n
  {
    if n == 0 then h else Take(Takes(h, n - 1))
  }

  lemma {:induction false} TakesFill(next: nat, n: nat)
    requires n <= WORD_BITS
    ensures Takes(NewHeader(0, next), n) == Header(Pow2(n) - 1, next, 127 - n, 0)
    ensures Counted(Takes(NewHeader(0, next), n)) && (n < WORD_BITS <==> HasSlot(Takes(NewHeader(0, next), n)))
  {
    hide Pow2, LowestClear, SetBit;
    PowOfZero();
    if n == 0 {
      NewIsCounted(0, next);
    } else {
      TakesFill(next, n - 1);
      TakeCounts(Takes(NewHeader(0, next), n - 1));
      NextAfterOnes(n - 1, WORD_BITS);
    }
    PowBelow(n, WORD_BITS);
  }

  lemma PowOfZero()
    ensures Pow2(0) == 1
  {
  }

  lemma {:induction false} PowBelow(n: nat, w: nat)
    requires n <= w
    ensures Pow2(n) <= Pow2(w) && (n < w ==> Pow2(n) < Pow2(w))
  {
    if n < w { PowBelow(n, w - 1); }
  }

  /** With 64 objects taken from a new slab of the 32-byte class it counts 63 free slots and has none. */
  lemma SmallClassFilled(next: nat)
    ensures var h := Takes(NewHeader(0, next), WORD_BITS);
            && h == Header(Pow2(WORD_BITS) - 1, next, 63, 0)
            && Counted(h) && h.freeSlots > 0 && !HasSlot(h)
  {
    hide Pow2;
    TakesFill(next, WORD_BITS);
  }

  lemma {:induction false} OnesCount(w: nat)
    ensures PopCount(Pow2(w) - 1) == w
  {
    if w > 0 {
      assert (Pow2(w) - 1) / 2 == Pow2(w - 1) - 1;
      OnesCount(w - 1);
    }
  }

  lemma TakeCounts(h: Header)
    requires Counted(h) && HasSlot(h)
    ensures Counted(Take(h))
    ensures forall j :: 0 <= j ==>
            BitAt(Take(h).bitmap, j) == (j == LowestClear(h.bitmap, WORD_BITS) || BitAt(h.bitmap, j))
  {
    var k := LowestClear(h.bitmap, WORD_BITS);
    SlotIsFree(h);
    SetBitCount(h.bitmap, k);
    SetBitBound(h.bitmap, k, WORD_BITS);
    forall j | 0 <= j ensures BitAt(Take(h).bitmap, j) == (j == k || BitAt(h.bitmap, j)) {
      SetBitBits(h.bitmap, k, j);
    }
  }

  lemma ReleaseCounts(h: Header, slot: nat)
    requires Counted(h) && BitAt(h.bitmap, slot)
    ensures Counted(Release(h, slot))
    ensures forall j :: 0 <= j ==> BitAt(Release(h, slot).bitmap, j) == (j != slot && BitAt(h.bitmap, j))
  {
    ClearBitCount(h.bitmap, slot);
    ClearBitBound(h.bitmap, slot);
    forall j | 0 <= j ensures BitAt(Release(h, slot).bitmap, j) == (j != slot && BitAt(h.bitmap, j)) {
      ClearBitBits(h.bitmap, slot, j);
    }
  }

  /** Releasing the slot just taken restores the header. */
  lemma TakeThenRelease(h: Header)
    requires Counted(h) && HasSlot(h)
    ensures Release(Take(h), LowestClear(h.bitmap, WORD_BITS)) == h
  {
    SlotIsFree(h);
    ClearAfterSet(h.bitmap, LowestClear(h.bitmap, WORD_BITS));
  }

  // ---- objects in memory ----

  function ObjectAt(page: nat, slot: nat, c: nat): nat
    requires c < CACHES
  {
    page + HEADER + slot * Size(c)
  }

  predicate IsPage(a: nat) { a > 0 && a % PAGE == 0 }

  /** ptr & ~0xFFF */
  function PageOf(p: nat): nat { p / PAGE * PAGE }

  /** The slot that kfree computes from a pointer into a slab of class `c`. */
  function SlotOf(p: nat, c: nat): nat
    requires c < CACHES && p >= PageOf(p) + HEADER
  {
    (p - (PageOf(p) + HEADER)) / Size(c)
  }

  /** The page of a pointer is the pointer without its low twelve bits. */
  lemma PageIs(p: nat)
    ensures PageOf(p) == p - p % 4096
  {
  }

  /** `p` is the address of a taken slot. */
  predicate IsLive(heap: Heap, p: nat)
  {
    && PageOf(p) in heap
    && p >= PageOf(p) + HEADER
    && heap[PageOf(p)].cache < CACHES
    && p == ObjectAt(PageOf(p), SlotOf(p, heap[PageOf(p)].cache), heap[PageOf(p)].cache)
    && BitAt(heap[PageOf(p)].bitmap, SlotOf(p, heap[PageOf(p)].cache))
  }

  lemma SlotFits(slot: nat, c: nat)
    requires c <= LAST_PAGE_CLASS && slot < Capacity(c)
    ensures slot * Size(c) + Size(c) <= PAGE - HEADER
  {
    FitsBelow(slot, Size(c), PAGE - HEADER);
  }

  lemma FitsBelow(k: nat, d: nat, n: nat)
    requires d > 0 && k < n / d
    ensures k * d + d <= n
  {
    NextMultiple(k, n / d, d);
    assert n / d * d <= n;
  }

  /** The slots that a page has room for are those below the capacity, none in the two largest classes:
      the first object of these would already reach past its page. */
  lemma FitsIffBelowCapacity(page: nat, slot: nat, c: nat)
    requires c < CACHES
    ensures ObjectAt(page, slot, c) + Size(c) <= page + PAGE <==> slot < Capacity(c)
    ensures Capacity(c) > 0 <==> c <= LAST_PAGE_CLASS
  {
    FitsIffBelow(slot, Size(c), PAGE - HEADER);
  }

  lemma FitsIffBelow(slot: nat, size: nat, room: nat)
    requires size > 0
    ensures slot * size + size <= room <==> slot < room / size
  {
    var q := room / size;
    if slot < q {
      MulMono(slot + 1, q, size);
    } else {
      MulMono(q + 1, slot + 1, size);
    }
  }

  /** An object lies inside its page after the header, and mask and divide find its slot again. */
  lemma SlotRecovered(page: nat, slot: nat, c: nat)
    requires IsPage(page) && c <= LAST_PAGE_CLASS && slot < Capacity(c)
    ensures var p := ObjectAt(page, slot, c);
            && page + HEADER <= p && p + Size(c) <= page + PAGE
            && PageOf(p) == page && SlotOf(p, c) == slot
  {
    SlotFits(slot, c);
    var p := ObjectAt(page, slot, c);
    var off := p - page;
    assert page == page / PAGE * PAGE;
    assert p / PAGE == page / PAGE by { DivOffset(page / PAGE, off, PAGE); }
    MulDiv(slot, Size(c));
  }

  lemma DivOffset(q: nat, r: nat, d: nat)
    requires r < d
    ensures (q * d + r) / d == q
  {
    var n := q * d + r;
    QuotientUnique(n / d, n % d, q, r, d);
  }

  lemma QuotientUnique(k: nat, m: nat, q: nat, r: nat, d: nat)
    requires m < d && r < d && k * d + m == q * d + r
    ensures k == q
  {
    NextMultiple(k, q, d);
    NextMultiple(q, k, d);
  }

  lemma {:induction false} NextMultiple(a: nat, b: nat, d: nat)
    ensures a < b ==> a * d + d <= b * d
  {
    if a < b {
      assert b * d == (b - 1) * d + d;
      NextMultiple(a, b - 1, d);
    }
  }

  lemma MulDiv(k: nat, d: nat)
    requires d > 0
    ensures k * d / d == k
  {
    DivOffset(k, 0, d);
  }

  /** Two live objects never share a byte, nor a byte with a slab header. */
  lemma LiveObjectsDisjoint(heap: Heap, p: nat, q: nat)
    requires forall a :: a in heap ==> IsPage(a) && Counted(heap[a])
    requires IsLive(heap, p) && IsLive(heap, q) && p != q
    ensures var m, n := Size(heap[PageOf(p)].cache), Size(heap[PageOf(q)].cache);
            && PageOf(p) + HEADER <= p && p + m <= PageOf(p) + PAGE
            && (p + m <= q || q + n <= p)
  {
    hide BitAt, Pow2, PopCount, IsLive, ObjectAt, PageOf, SlotOf, Capacity, Size, Counted;
    LiveSlot(heap, p);
    LiveSlot(heap, q);
    if PageOf(p) == PageOf(q) {
      SlotsOfPage(PageOf(p), SlotOf(p, heap[PageOf(p)].cache), SlotOf(q, heap[PageOf(q)].cache), heap[PageOf(p)].cache);
    } else {
      PagesApart(PageOf(p), PageOf(q));
    }
  }

  lemma LiveSlot(heap: Heap, p: nat)
    requires forall a :: a in heap ==> IsPage(a) && Counted(heap[a])
    requires IsLive(heap, p)
    ensures PageOf(p) in heap
    ensures var c := heap[PageOf(p)].cache;
            && c <= LAST_PAGE_CLASS && IsPage(PageOf(p)) && p >= PageOf(p) + HEADER
            && SlotOf(p, c) < Capacity(c) && p == ObjectAt(PageOf(p), SlotOf(p, c), c)
            && p + Size(c) <= PageOf(p) + PAGE
  {
    hide BitAt, Pow2, PopCount;
    assert Counted(heap[PageOf(p)]);
    SlotRecovered(PageOf(p), SlotOf(p, heap[PageOf(p)].cache), heap[PageOf(p)].cache);
  }

  lemma SlotsOfPage(page: nat, s: nat, t: nat, c: nat)
    requires c < CACHES && ObjectAt(page, s, c) != ObjectAt(page, t, c)
    ensures ObjectAt(page, s, c) + Size(c) <= ObjectAt(page, t, c)
            || ObjectAt(page, t, c) + Size(c) <= ObjectAt(page, s, c)
  {
    SlotsApart(s, t, Size(c));
  }

  lemma PagesApart(a: nat, b: nat)
    requires IsPage(a) && IsPage(b) && a != b
    ensures a + PAGE <= b || b + PAGE <= a
  {
  }

  lemma SlotsApart(s: nat, t: nat, d: nat)
    requires s != t
    ensures s * d + d <= t * d || t * d + d <= s * d
  {
    NextMultiple(s, t, d);
    NextMultiple(t, s, d);
  }

  /** Changing one slot's bit in one page changes the liveness of one address. */
  lemma OneSlotChanges(heap: Heap, page: nat, h: Header, slot: nat, p: nat)
    requires page in heap && IsPage(page) && h.cache == heap[page].cache <= LAST_PAGE_CLASS && slot < Capacity(h.cache)
    requires forall j :: 0 <= j && j != slot ==> BitAt(h.bitmap, j) == BitAt(heap[page].bitmap, j)
    ensures IsLive(heap[page := h], p)
            == if p == ObjectAt(page, slot, h.cache) then BitAt(h.bitmap, slot) else IsLive(heap, p)
  {
    hide BitAt;
    SlotRecovered(page, slot, h.cache);
  }

  lemma NewPageHasNoObjects(heap: Heap, page: nat, h: Header, p: nat)
    requires page !in heap && h.bitmap == 0
    ensures IsLive(heap[page := h], p) == IsLive(heap, p)
  {
    if PageOf(p) == page && p >= page + HEADER && h.cache < CACHES { ZeroBits(SlotOf(p, h.cache)); }
  }

  // ---- the slabs of a class ----

  /** The list of slabs that starts at `head`, linked through the headers; 0 ends it. */
  ghost predicate ChainOf(heap: Heap, head: nat, list: seq<nat>)
    decreases |list|
  {
    if list == [] then head == 0
    else
      && head == list[0] && head != 0 && head in heap
      && head !in list[1..] && ChainOf(heap, heap[head].next, list[1..])
  }

  lemma {:induction false} ChainFrame(heap: Heap, heap': Heap, head: nat, list: seq<nat>)
    requires ChainOf(heap, head, list)
    requires forall a :: a in heap ==> a in heap' && heap'[a].next == heap[a].next
    ensures ChainOf(heap', head, list)
    decreases |list|
  {
    if list != [] { ChainFrame(heap, heap', heap[head].next, list[1..]); }
  }

  /** Position of the first slab of a list with a free slot, its length when there is none. */
  ghost function FirstOpen(heap: Heap, list: seq<nat>): (i: nat)
    ensures i <= |list|
    ensures forall j :: 0 <= j < i ==> list[j] in heap && heap[list[j]].freeSlots == 0
    ensures i < |list| && list[i] in heap ==> heap[list[i]].freeSlots > 0
  {
    if list == [] || list[0] !in heap || heap[list[0]].freeSlots > 0 then 0
    else
      var i := FirstOpen(heap, list[1..]);
      assert forall j :: 0 < j < i + 1 ==> list[j] == list[1..][j - 1];
      i + 1
  }

  /** The slabs of each class are linked from its cache, every slab is in the list of its class, and
      the free frames are distinct pages that hold no slab. */
  ghost predicate Consistent(heap: Heap, heads: seq<nat>, chains: seq<seq<nat>>, frames: seq<nat>)
  {
    && |heads| == CACHES == |chains|
    && (forall c :: 0 <= c < CACHES ==> ChainOf(heap, heads[c], chains[c]))
    && (forall a :: a in heap ==> IsPage(a) && Counted(heap[a]) && a in chains[heap[a].cache])
    && (forall c, i :: 0 <= c < CACHES && 0 <= i < |chains[c]| ==>
       chains[c][i] in heap && heap[chains[c][i]].cache == c)
    && (forall i :: 0 <= i < |frames| ==> IsPage(frames[i]) && frames[i] !in heap)
    && (forall i, j :: 0 <= i < j < |frames| ==> frames[i] != frames[j])
  }

  /** A new slab at the head of its class's list. */
  lemma PushKeeps(heap: Heap, heads: seq<nat>, chains: seq<seq<nat>>, frames: seq<nat>, c: nat)
    requires Consistent(heap, heads, chains, frames) && c <= LAST_PAGE_CLASS && frames != []
    ensures var a := frames[0];
            Consistent(heap[a := NewHeader(c, heads[c])], heads[c := a], chains[c := [a] + chains[c]], frames[1..])
  {
    hide ChainOf;
    var a := frames[0];
    var heap' := heap[a := NewHeader(c, heads[c])];
    NewIsCounted(c, heads[c]);
    forall d | 0 <= d < CACHES ensures ChainOf(heap', heads[d], chains[d]) {
      ChainFrame(heap, heap', heads[d], chains[d]);
    }
    ConsChain(heap', a, chains[c]);
    var chains' := chains[c := [a] + chains[c]];
    forall x | x in heap' ensures x in chains'[heap'[x].cache] {
      if x == a {
        assert chains'[c][0] == a;
      } else {
        assert x in chains[heap[x].cache] && heap'[x] == heap[x];
        assert forall y :: y in chains[c] ==> y in [a] + chains[c];
      }
    }
    forall d, i | 0 <= d < CACHES && 0 <= i < |chains'[d]|
        ensures chains'[d][i] in heap' && heap'[chains'[d][i]].cache == d {
      if d == c && i > 0 { assert chains'[d][i] == chains[c][i - 1]; }
    }
  }

  lemma ConsChain(heap: Heap, a: nat, list: seq<nat>)
    requires a in heap && a != 0 && a !in list && ChainOf(heap, heap[a].next, list)
    ensures ChainOf(heap, a, [a] + list)
  {
    assert ([a] + list)[1..] == list;
  }

  /** A slab's bitmap and count may change; its place in the lists stays. */
  lemma ReplaceKeeps(heap: Heap, heads: seq<nat>, chains: seq<seq<nat>>, frames: seq<nat>, a: nat, h: Header)
    requires Consistent(heap, heads, chains, frames) && a in heap
    requires Counted(h) && h.cache == heap[a].cache && h.next == heap[a].next
    ensures Consistent(heap[a := h], heads, chains, frames)
  {
    hide ChainOf;
    forall d | 0 <= d < CACHES ensures ChainOf(heap[a := h], heads[d], chains[d]) {
      ChainFrame(heap, heap[a := h], heads[d], chains[d]);
    }
  }

  lemma TakenBelowCapacity(h: Header, slot: nat)
    requires Counted(h) && BitAt(h.bitmap, slot)
    ensures slot < Capacity(h.cache)
  {
  }

  class Allocator {
    var slabs: Heap
    /** kmem_caches[c].first_slab */
    const first: array<nat>
    /** The free list of the physical frame allocator. */
    var frames: seq<nat>
    ghost var chains: seq<seq<nat>>

    ghost predicate Valid()
      reads this, first
    {
      first.Length == CACHES && Consistent(slabs, first[..], chains, frames)
    }

    constructor (frames: seq<nat>)
      requires forall i :: 0 <= i < |frames| ==> IsPage(frames[i])
      requires forall i, j :: 0 <= i < j < |frames| ==> frames[i] != frames[j]
      ensures Valid() && slabs == map[] && this.frames == frames && fresh(first)
    {
      slabs, this.frames := map[], frames;
      first := new nat[CACHES](_ => 0);
      chains := seq(CACHES, _ => []);
    }

    /** The class fits a page and there is a bit for the slot the open slab promises, or nothing has to be
        cut from a page. */
    ghost predicate Serviceable(target: nat)
      requires Valid()
      reads this, first
    {
      || target == 0 || ClassOf(target) == CACHES
      || (ClassOf(target) > LAST_PAGE_CLASS && frames == [])
      || (
        && ClassOf(target) <= LAST_PAGE_CLASS
        && var chain := chains[ClassOf(target)];
        var i := FirstOpen(slabs, chain);
        (i < |chain| ==> HasSlot(slabs[chain[i]])))
    }

    /** No slab of the class has a free slot. */
    ghost predicate NoneOpen(c: nat)
      reads this
    {
      forall a :: a in slabs && slabs[a].cache == c ==> slabs[a].freeSlots == 0
    }

    /** A slab of class `c` with a free slot, made from a new frame if there is none; 0 when out of frames. */
    method OpenSlab(c: nat) returns (a: nat)
      requires Valid() && c < CACHES && (c <= LAST_PAGE_CLASS || frames == [])
      requires c <= LAST_PAGE_CLASS && FirstOpen(slabs, chains[c]) < |chains[c]| ==>
               HasSlot(slabs[chains[c][FirstOpen(slabs, chains[c])]])
      modifies this, first
      ensures Valid()
      ensures a == 0 <==>
                old(frames == [] && forall s :: s in slabs && slabs[s].cache == c ==> slabs[s].freeSlots == 0)
      ensures a == 0 ==> slabs == old(slabs) && frames == old(frames)
      ensures a != 0 ==> a in slabs && slabs[a].cache == c && HasSlot(slabs[a])
      ensures a != 0 ==> frames == if old(NoneOpen(c)) then old(frames)[1..] else old(frames)
      ensures a != 0 && !old(NoneOpen(c)) ==> slabs == old(slabs)
      ensures a != 0 && old(NoneOpen(c)) ==>
                a == old(frames)[0] && slabs == old(slabs)[a := Header(0, old(first[c]), 4064 / Size(c), c)]
      ensures forall p :: IsLive(slabs, p) == old(IsLive(slabs, p))
    {
      hide BitAt, Pow2, PopCount, IsLive, Counted, HasSlot;
      LargeClassIsEmpty(slabs, first[..], chains, frames, c);
      a := first[c];
      ghost var i := 0;
      while a != 0 && slabs[a].freeSlots == 0
        invariant 0 <= i <= |chains[c]| && ChainOf(slabs, a, chains[c][i..])
        invariant i <= FirstOpen(slabs, chains[c])
        decreases |chains[c]| - i
      {
        assert chains[c][i..][1..] == chains[c][i + 1..];
        a := slabs[a].next;
        i := i + 1;
      }
      if a != 0 {
        assert a == chains[c][i];
        return;
      }
      assert i == |chains[c]|;
      if |frames| == 0 {
        return 0;
      }
      a := NewSlab(c);
    }

    /** A new slab of class `c` on the first free frame. */
    method NewSlab(c: nat) returns (a: nat)
      requires Valid() && c <= LAST_PAGE_CLASS && frames != []
      modifies this, first
      ensures Valid() && a == old(frames)[0] && a != 0 && a !in old(slabs) && frames == old(frames)[1..]
      ensures slabs == old(slabs)[a := Header(0, old(first[c]), 4064 / Size(c), c)] && HasSlot(slabs[a])
      ensures forall p :: IsLive(slabs, p) == old(IsLive(slabs, p))
    {
      hide BitAt, Pow2, PopCount, IsLive, Counted, HasSlot, ChainOf;
      a := frames[0];
      NewIsCounted(c, first[c]);
      PushKeeps(slabs, first[..], chains, frames, c);
      forall p ensures IsLive(slabs[a := NewHeader(c, first[c])], p) == IsLive(slabs, p) {
        NewPageHasNoObjects(slabs, a, NewHeader(c, first[c]), p);
      }
      slabs := slabs[a := NewHeader(c, first[c])];
      frames := frames[1..];
      chains := chains[c := [a] + chains[c]];
      first[c] := a;
      assert first[..] == old(first[..])[c := a];
    }

    /** Take the lowest free slot of a slab that has one. */
    method TakeSlot(a: nat) returns (r: nat)
      requires Valid() && a in slabs && HasSlot(slabs[a])
      modifies this`slabs
      ensures Valid()
      ensures r > 0 && PageOf(r) == a && slabs[a].cache == old(slabs)[a].cache
      ensures slabs == old(slabs)[a := Take(old(slabs)[a])]
      ensures old(slabs)[a].bitmap == 0 ==> r == a + 32
      ensures !IsLive(old(slabs), r)
      ensures forall p :: IsLive(slabs, p) == (p == r || IsLive(old(slabs), p))
    {
      hide BitAt, Pow2, PopCount, IsLive, Counted, HasSlot, ObjectAt, PageOf, ChainOf;
      ghost var before := slabs;
      var h := slabs[a];
      SlotIsFree(h);
      TakeCounts(h);
      var slotIndex := LowestClear(h.bitmap, WORD_BITS);
      slabs := slabs[a := h.(freeSlots := h.freeSlots - 1)];
      slabs := slabs[a := slabs[a].(bitmap := SetBit(h.bitmap, slotIndex))];
      assert slabs == before[a := Take(h)];
      SlotRecovered(a, slotIndex, h.cache);
      r := ObjectAt(a, slotIndex, h.cache);
      FirstObject(a, h.cache);
      forall p ensures IsLive(slabs, p) == (p == r || IsLive(before, p)) {
        OneSlotChanges(before, a, Take(h), slotIndex, p);
      }
      OneSlotChanges(before, a, h, slotIndex, r);
      assert before[a := h] == before;
      ReplaceKeeps(before, first[..], chains, frames, a, Take(h));
    }

    /** Allocate `target` bytes; 0 when that cannot be done. */
    method Kmalloc(target: nat) returns (r: nat)
      requires Valid() && Serviceable(target)
      modifies this, first
      ensures Valid()
      ensures r == 0 <==>
                || target == 0 || target > 10192
                || old(frames == [] && forall a :: a in slabs && slabs[a].cache == ClassOf(target) ==>
                         slabs[a].freeSlots == 0)
      ensures r == 0 ==> slabs == old(slabs) && frames == old(frames)
      ensures r != 0 ==>
                && PageOf(r) in slabs && slabs[PageOf(r)].cache == ClassOf(target)
                && frames == (if old(NoneOpen(ClassOf(target))) then old(frames)[1..] else old(frames))
                && slabs.Keys
                   == old(slabs.Keys) + (if old(NoneOpen(ClassOf(target))) then {old(frames)[0]} else {})
                && (old(NoneOpen(ClassOf(target))) ==> r == old(frames)[0] + 32)
                && (forall p :: p in old(slabs) && p != PageOf(r) ==> slabs[p] == old(slabs)[p])
                && !IsLive(old(slabs), r)
                && forall p :: IsLive(slabs, p) == (p == r || IsLive(old(slabs), p))
    {
      hide IsLive, Counted, HasSlot, PageOf, ChainOf, FirstOpen, Consistent, Take;
      if target == 0 {
        return 0;
      }
      var i := 0;
      while i < CACHES
        invariant 0 <= i <= ClassOf(target)
      {
        if Size(i) >= target {
          var currentSlab := OpenSlab(i);
          if currentSlab == 0 {
            return 0;
          }
          r := TakeSlot(currentSlab);
          return;
        }
        i := i + 1;
      }
      return 0;
    }

    /** Free a live object. */
    method Kfree(ptr: nat)
      requires Valid() && (ptr == 0 || IsLive(slabs, ptr))
      modifies this`slabs
      ensures Valid()
      ensures ptr == 0 ==> slabs == old(slabs)
      ensures forall p :: IsLive(slabs, p) == (p != ptr && IsLive(old(slabs), p))
    {
      hide BitAt, Pow2, PopCount, Counted, ChainOf;
      if ptr == 0 {
        return;
      }
      ghost var before := slabs;
      var slab := PageOf(ptr);
      var h := slabs[slab];
      assert Counted(h);
      var slotIndex := SlotOf(ptr, h.cache);
      TakenBelowCapacity(h, slotIndex);
      ReleaseCounts(h, slotIndex);
      slabs := slabs[slab := h.(bitmap := ClearBit(h.bitmap, slotIndex))];
      slabs := slabs[slab := slabs[slab].(freeSlots := h.freeSlots + 1)];
      assert slabs == before[slab := Release(h, slotIndex)];
      forall p ensures IsLive(slabs, p) == (p != ptr && IsLive(before, p)) {
        OneSlotChanges(before, slab, Release(h, slotIndex), slotIndex, p);
      }
      ReplaceKeeps(before, first[..], chains, frames, slab, Release(h, slotIndex));
    }
  }

  lemma LargeClassIsEmpty(heap: Heap, heads: seq<nat>, chains: seq<seq<nat>>, frames: seq<nat>, c: nat)
    requires Consistent(heap, heads, chains, frames) && c < CACHES
    ensures c > LAST_PAGE_CLASS ==> chains[c] == []
  {
    hide ChainOf;
    if chains[c] != [] { assert chains[c][0] in heap; }
  }

  /** The first object of a page with none comes right behind the header. */
  lemma FirstObject(page: nat, c: nat)
    requires c < CACHES
    ensures LowestClear(0, WORD_BITS) == 0 && ObjectAt(page, 0, c) == page + 32
  {
  }

  /** The classes that fit a page double from 32 to 2048 bytes. */
  lemma SizesDouble(c: nat)
    requires c <= LAST_PAGE_CLASS
    ensures Size(0) == 32 && Size(LAST_PAGE_CLASS) == 2048 && (c > 0 ==> Size(c) == 2 * Size(c - 1))
    ensures Size(7) == 5096 && Size(8) == 10192
  {
  }
}
