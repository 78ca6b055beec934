/** The physical frame allocator, a free list threaded through the free frames, and map_page,
    which creates missing tables from it. The tables refine a map from pages to frames. */
module Paging {
  import opened PageTables
  import opened PageRights
  import opened Wrappers

  /** The free frames in list order: each one's first word is the address of the next, 0 at the end. */
  ghost predicate FreeChain(m: Ram, head: nat, list: seq<nat>)
    decreases |list|
  {
    if list == [] then head == 0
    else
      && head == list[0] && IsFrame(head) && head in m && |m[head]| == ENTRIES
      && head !in list[1..] && FreeChain(m, m[head][0], list[1..])
  }

  lemma {:induction false} FreeChainFrame(m: Ram, m': Ram, head: nat, list: seq<nat>)
    requires FreeChain(m, head, list)
    requires forall f :: f in list ==> f in m' && (f in m ==> m'[f] == m[f])
    ensures FreeChain(m', head, list)
    decreases |list|
  {
    if list != [] {
      assert list[0] in list && forall f :: f in list[1..] ==> f in list;
      FreeChainFrame(m, m', m[head][0], list[1..]);
    }
  }

  lemma {:induction false} FreeInRam(m: Ram, head: nat, list: seq<nat>)
    requires FreeChain(m, head, list)
    ensures forall f :: f in list ==> f in m && IsFrame(f)
    decreases |list|
  {
    if list != [] {
      FreeInRam(m, m[head][0], list[1..]);
      assert forall f :: f in list ==> f == list[0] || f in list[1..];
    }
  }

  lemma TablesAreNotFree(m: Ram, root: nat, p: seq<nat>, f: nat, free: seq<nat>)
    requires IsTablePath(p) && Table(m, root, p) == Some(f) && forall z :: z in free ==> NotTable(m, root, z)
    ensures f !in free
  {
    hide Table, IsTablePath;
  }

  /** How many tables are missing on the way to the last-level entry of a page. */
  function Missing(m: Ram, root: nat, q: seq<nat>): nat
    requires IsPath(q)
  {
    if Table(m, root, q[..1]).None? then 3
    else if Table(m, root, q[..2]).None? then 2
    else if Table(m, root, q[..3]).None? then 1
    else 0
  }

  /** `made` are tables on the way to page `q`, absent before, and all that is new. */
  ghost predicate MadeFor(before: Ram, after: Ram, root: nat, q: seq<nat>, made: set<seq<nat>>)
    requires IsPath(q)
  {
    && (forall p :: p in made ==> IsTablePath(p) && p != [] && p <= q && Table(before, root, p).None?)
    && (forall p :: IsTablePath(p) ==> (Table(after, root, p).Some? <==> Table(before, root, p).Some? || p in made))
  }

  lemma NothingMade(m: Ram, root: nat, q: seq<nat>)
    requires IsPath(q)
    ensures MadeFor(m, m, root, q, {})
  {
    hide Table;
  }

  /** One more table on the way, `r` if it is there or could be made. */
  lemma MadeNext(before: Ram, mid: Ram, after: Ram, root: nat, q: seq<nat>, p: seq<nat>, r: nat, made: set<seq<nat>>)
      returns (made': set<seq<nat>>)
    requires IsPath(q) && p <= q && p != [] && IsTablePath(p) && MadeFor(before, mid, root, q, made)
    requires forall x :: IsTablePath(x) ==>
               (Table(after, root, x).Some? <==> Table(mid, root, x).Some? || (x == p && r != 0))
    ensures made' == if Table(mid, root, p).None? && r != 0 then made + {p} else made
    ensures |made'| == |made| + (if Table(mid, root, p).None? && r != 0 then 1 else 0)
    ensures MadeFor(before, after, root, q, made')
  {
    hide Table, IsTablePath;
    made' := if Table(mid, root, p).None? && r != 0 then made + {p} else made;
    assert p in made ==> Table(mid, root, p).Some?;
  }

  lemma InRam(m: Ram, root: nat, p: seq<nat>, f: nat)
    requires Tree(m, root) && IsTablePath(p) && Table(m, root, p) == Some(f)
    ensures f in m && |m[f]| == ENTRIES
  {
    hide Table, IsTablePath;
  }

  lemma MadeThen(before: Ram, mid: Ram, after: Ram, root: nat, q: seq<nat>, made: set<seq<nat>>)
    requires IsPath(q) && MadeFor(before, mid, root, q, made)
    requires forall p :: IsTablePath(p) ==> Table(after, root, p) == Table(mid, root, p)
    ensures MadeFor(before, after, root, q, made)
  {
    hide Table;
  }

  const WORD := 0x1_0000_0000_0000_0000 // 2^64

  /** The first page of a range, and the end of its last page. */
  function RangeStart(startAddress: nat): nat { FrameOf(startAddress) }

  function RangeEnd(startAddress: nat, size: nat): nat { FrameOf((startAddress + size + 4095) % WORD) }

  /** In an address space of 2^48 bytes the rounded range holds exactly the pages that meet the range. */
  lemma RoundedRange(startAddress: nat, size: nat, a: nat)
    requires startAddress + size + 4095 < ADDRESS_LIMIT && a % PAGE_SIZE == 0
    ensures RangeStart(startAddress) <= a < RangeEnd(startAddress, size)
            <==> a < startAddress + size && startAddress < a + PAGE_SIZE
  {
    FrameOfAddress(startAddress);
    FrameOfAddress(startAddress + size + 4095);
  }

  /** Past 2^64 the end of a range wraps around. */
  lemma RangeWraps(startAddress: nat, size: nat)
    requires startAddress < 0x1_0000_0000_0000_0000 && size < 0x1_0000_0000_0000_0000 - 4095
    requires startAddress + size + 4095 >= 0x1_0000_0000_0000_0000
    ensures RangeEnd(startAddress, size) == FrameOf(startAddress + size + 4095 - 0x1_0000_0000_0000_0000)
  {
  }

  function PagesOf(startAddress: nat, size: nat): nat
  {
    if RangeStart(startAddress) < RangeEnd(startAddress, size)
    then (RangeEnd(startAddress, size) - RangeStart(startAddress)) / PAGE_SIZE else 0
  }

  predicate InRange(q: seq<nat>, start: nat, end: nat)
    requires IsPath(q)
  {
    start <= AddrOf(q) < end
  }

  /** The absent tables on the way to the pages of a range that no huge page covers. */
  ghost function Needed(m: Ram, root: nat, start: nat, end: nat): set<seq<nat>>
  {
    set a: nat, k: nat | start <= a < end && a % PAGE_SIZE == 0 && 1 <= k <= 3
      && !IsHuge(LeafAt(m, root, PathOf(a))) && Table(m, root, PathOf(a)[..k]).None? :: PathOf(a)[..k]
  }

  /** A page is mapped as it was and may be written as it was. */
  ghost predicate SamePage(m: Ram, m': Ram, root: nat, q: seq<nat>)
    requires IsPath(q)
  {
    LeafAt(m', root, q) == LeafAt(m, root, q) && MayWrite(m', root, q) == MayWrite(m, root, q)
  }

  /** A page has come to map to its own address, and may be written if no table above it refuses. */
  ghost predicate SelfMapped(before: Ram, after: Ram, root: nat, q: seq<nat>)
    requires IsPath(q)
  {
    LeafAt(after, root, q) == Page4K(AddrOf(q)) && MayWrite(after, root, q) == TablesMayWrite(before, root, q)
  }

  /** Every page of the range that no huge page covered is mapped to its own address, writable as the tables
      above it grant. */
  ghost predicate AllMapped(before: Ram, after: Ram, root: nat, start: nat, end: nat)
  {
    forall q :: IsPath(q) && InRange(q, start, end) && !IsHuge(LeafAt(before, root, q)) ==>
      SelfMapped(before, after, root, q)
  }

  /** What has become of a page that was reached: a huge page stays, any other page maps to its own address
      unless the frames ran out and its last-level table is still absent. */
  ghost predicate Mapped(before: Ram, after: Ram, root: nat, q: seq<nat>, exhausted: bool)
    requires IsPath(q)
  {
    if IsHuge(LeafAt(before, root, q)) then SamePage(before, after, root, q)
    else
      || SelfMapped(before, after, root, q)
      || (exhausted && SamePage(before, after, root, q) && Table(after, root, q[..3]) == None)
  }

  /** The loop of identity_map_range before `addr`: the tables `total` are new, all of them needed; the
      pages before `addr` are done and the others as they were. */
  ghost predicate Progress(before: Ram, now: Ram, root: nat, start: nat, addr: nat, end: nat,
                           total: set<seq<nat>>, exhausted: bool)
  {
    && total <= Needed(before, root, start, end)
    && (forall p :: IsTablePath(p) ==> (Table(now, root, p).Some? <==> Table(before, root, p).Some? || p in total))
    && (forall q :: IsPath(q) ==> TablesMayWrite(now, root, q) == TablesMayWrite(before, root, q))
    && forall q :: IsPath(q) ==>
         if InRange(q, start, addr) && InRange(q, start, end) then Mapped(before, now, root, q, exhausted)
         else SamePage(before, now, root, q)
  }

  lemma NothingYet(m: Ram, root: nat, start: nat, end: nat)
    ensures Progress(m, m, root, start, start, end, {}, false) && Progress(m, m, root, start, start, end, {}, true)
  {
    hide Table, LeafAt, Needed, AddrOf, Mapped, MayWrite, TablesMayWrite;
  }

  lemma PageDone(before: Ram, mid: Ram, now: Ram, root: nat, start: nat, addr: nat, end: nat,
                 total: set<seq<nat>>, made: set<seq<nat>>, was: bool, exhausted: bool)
    requires start <= addr < end <= ADDRESS_LIMIT && addr % PAGE_SIZE == 0 && start % PAGE_SIZE == 0
    requires Progress(before, mid, root, start, addr, end, total, was) && MadeFor(mid, now, root, PathOf(addr), made)
    requires was ==> exhausted && made == {}
    requires forall q :: IsPath(q) && q != PathOf(addr) ==> SamePage(mid, now, root, q)
    requires forall q :: IsPath(q) ==> TablesMayWrite(now, root, q) == TablesMayWrite(mid, root, q)
    requires IsHuge(LeafAt(mid, root, PathOf(addr))) ==> now == mid
    requires !IsHuge(LeafAt(mid, root, PathOf(addr))) ==>
               || (&& LeafAt(now, root, PathOf(addr)) == Page4K(addr)
                   && MayWrite(now, root, PathOf(addr)) == TablesMayWrite(mid, root, PathOf(addr)))
               || (&& exhausted && SamePage(mid, now, root, PathOf(addr))
                   && Table(now, root, PathOf(addr)[..3]) == None)
    ensures Progress(before, now, root, start, addr + 4096, end, total + made, exhausted) && total !! made
  {
    hide MayWrite, TablesMayWrite, Table, LeafAt, AddrOf, PathOf, Needed, IsPath, IsTablePath;
    PageOfAddress(addr);
    PathOfAddr(PathOf(addr));
    forall q | IsPath(q)
      ensures if InRange(q, start, addr + 4096) && InRange(q, start, end) then Mapped(before, now, root, q, exhausted)
              else SamePage(before, now, root, q)
    {
      if q != PathOf(addr) {
        OtherPage(before, mid, now, root, start, addr, end, total, made, was, exhausted, q);
      }
    }
    forall p | p in made ensures p in Needed(before, root, start, end) {
      NeededHas(before, root, start, end, addr, p);
    }
  }

  /** The other pages do not notice: once frames have run out no table appears any more. */
  lemma OtherPage(before: Ram, mid: Ram, now: Ram, root: nat, start: nat, addr: nat, end: nat,
                  total: set<seq<nat>>, made: set<seq<nat>>, was: bool, exhausted: bool, q: seq<nat>)
    requires start <= addr < end <= ADDRESS_LIMIT && addr % PAGE_SIZE == 0
    requires Progress(before, mid, root, start, addr, end, total, was) && MadeFor(mid, now, root, PathOf(addr), made)
    requires was ==> exhausted && made == {}
    requires IsPath(q) && q != PathOf(addr) && SamePage(mid, now, root, q)
    ensures if InRange(q, start, addr + 4096) && InRange(q, start, end) then Mapped(before, now, root, q, exhausted)
            else SamePage(before, now, root, q)
  {
    hide MayWrite, TablesMayWrite, Table, LeafAt, AddrOf, PathOf, Needed, IsTablePath, IsPath;
    PathOfAddr(q);
    LastPrefix(q);
    assert Table(now, root, q[..3]).Some? <==> Table(mid, root, q[..3]).Some? || q[..3] in made;
    assert InRange(q, start, addr + 4096) ==> InRange(q, start, addr);
  }

  lemma LastPrefix(q: seq<nat>)
    requires IsPath(q)
    ensures |q| == 4 && IsTablePath(q[..3])
  {
  }

  lemma NeededHas(m: Ram, root: nat, start: nat, end: nat, a: nat, p: seq<nat>)
    requires start <= a < end && a % PAGE_SIZE == 0 && !IsHuge(LeafAt(m, root, PathOf(a)))
    requires IsTablePath(p) && p != [] && p <= PathOf(a) && Table(m, root, p) == None
    ensures p in Needed(m, root, start, end)
  {
    hide Table, LeafAt, PathOf;
    assert p == PathOf(a)[..|p|];
  }

  /** A page whose tables were all there is mapped even when there is no frame left. */
  lemma PageMapped(m: Ram, now: Ram, root: nat, start: nat, addr: nat, end: nat, total: set<seq<nat>>, exhausted: bool,
                   q: seq<nat>)
    requires Progress(m, now, root, start, addr, end, total, exhausted) && addr >= end
    requires IsPath(q)
    ensures InRange(q, start, end) ==>
              Mapped(m, now, root, q, exhausted) && (Missing(m, root, q) == 0 ==> Mapped(m, now, root, q, false))
    ensures !InRange(q, start, end) ==> SamePage(m, now, root, q)
  {
    hide MayWrite, TablesMayWrite, Table, LeafAt, AddrOf, Needed;
    LastPrefix(q);
  }

  /** A mapped page has all its tables. */
  lemma MappedHasTables(m: Ram, root: nat, q: seq<nat>, k: nat)
    requires Tree(m, root) && IsPath(q) && 1 <= k <= 3 && LeafAt(m, root, q).Page4K?
    ensures IsTablePath(q[..k]) && Table(m, root, q[..k]).Some?
  {
    hide Table, LeafAt, Tree;
    PrefixesOf(q);
    WalkCases(m, root, q);
  }

  /** After the loop: the frames sufficed for the tables needed exactly when every page is mapped. */
  lemma RangeDone(m: Ram, now: Ram, root: nat, start: nat, addr: nat, end: nat, total: set<seq<nat>>, free: nat)
    requires Tree(now, root) && end <= ADDRESS_LIMIT && addr >= end
    requires Progress(m, now, root, start, addr, end, total, free == 0)
    ensures var needed := Needed(m, root, start, end);
            && (|needed| <= |total| + free <==> AllMapped(m, now, root, start, end))
            && free == if |needed| <= |total| + free then |total| + free - |needed| else 0
  {
    hide MayWrite, TablesMayWrite, Table, LeafAt, AddrOf, Needed, Tree, IsPath;
    var needed := Needed(m, root, start, end);
    SubsetSize(total, needed);
    if AllMapped(m, now, root, start, end) {
      AllNeededMade(m, now, root, start, addr, end, total, free == 0);
    } else {
      var q :| IsPath(q) && InRange(q, start, end) && !IsHuge(LeafAt(m, root, q))
          && !SelfMapped(m, now, root, q);
      assert Mapped(m, now, root, q, free == 0);
      LastPrefix(q);
      PathOfAddr(q);
      NeededHas(m, root, start, end, AddrOf(q), q[..3]);
    }
  }

  lemma AllNeededMade(m: Ram, now: Ram, root: nat, start: nat, addr: nat,
      end: nat, total: set<seq<nat>>, exhausted: bool)
    requires Tree(now, root) && end <= ADDRESS_LIMIT
    requires Progress(m, now, root, start, addr, end, total, exhausted) && AllMapped(m, now, root, start, end)
    ensures Needed(m, root, start, end) == total
  {
    hide MayWrite, TablesMayWrite, Table, LeafAt, AddrOf, Tree, PathOf, IsTablePath;
    forall p | p in Needed(m, root, start, end) ensures p in total {
      var a: nat, k: nat :| start <= a < end && a % PAGE_SIZE == 0 && 1 <= k <= 3
        && !IsHuge(LeafAt(m, root, PathOf(a))) && Table(m, root, PathOf(a)[..k]).None? && p == PathOf(a)[..k];
      PageOfAddress(a);
      MappedHasTables(now, root, PathOf(a), k);
    }
  }

  lemma {:induction false} SubsetSize<T>(a: set<T>, b: set<T>)
    requires a <= b
    ensures |a| <= |b| && (|a| == |b| ==> a == b)
  {
    if a != {} {
      var x :| x in a;
      SubsetSize(a - {x}, b - {x});
    }
  }

  /** No more than three tables are needed for a page. */
  lemma {:induction false} NeededAtMost(m: Ram, root: nat, start: nat, pages: nat)
    requires start % PAGE_SIZE == 0
    ensures |Needed(m, root, start, start + pages * PAGE_SIZE)| <= 3 * pages
  {
    hide Table, LeafAt, PathOf, Needed;
    var end := start + pages * PAGE_SIZE;
    if pages == 0 {
      NoneInEmpty(m, root, start, start);
    } else {
      NeededAtMost(m, root, start, pages - 1);
      var a := start + (pages - 1) * PAGE_SIZE;
      NeededOfLast(m, root, start, a);
      AtMostThreeMore(Needed(m, root, start, end), Needed(m, root, start, a),
          PathOf(a)[..1], PathOf(a)[..2], PathOf(a)[..3]);
    }
  }

  lemma NeededOfRange(m: Ram, root: nat, startAddress: nat, size: nat)
    ensures |Needed(m, root, RangeStart(startAddress), RangeEnd(startAddress, size))| <= 3 * PagesOf(startAddress, size)
  {
    hide Table, LeafAt, PathOf, Needed, FrameOf;
    var start, end := RangeStart(startAddress), RangeEnd(startAddress, size);
    RangeInAddresses(startAddress, size);
    if start < end {
      NeededAtMost(m, root, start, PagesOf(startAddress, size));
    } else {
      NoneInEmpty(m, root, start, end);
    }
  }

  lemma NoneInEmpty(m: Ram, root: nat, start: nat, end: nat)
    requires end <= start
    ensures Needed(m, root, start, end) == {}
  {
    hide Table, LeafAt, PathOf;
  }

  lemma NeededOfLast(m: Ram, root: nat, start: nat, a: nat)
    requires a % PAGE_SIZE == 0
    ensures Needed(m, root, start, a + PAGE_SIZE)
            <= Needed(m, root, start, a) + {PathOf(a)[..1], PathOf(a)[..2], PathOf(a)[..3]}
  {
    hide Table, LeafAt, PathOf;
  }

  lemma AtMostThreeMore<T>(a: set<T>, b: set<T>, x: T, y: T, z: T)
    requires a <= b + {x, y, z}
    ensures |a| <= |b| + 3
  {
    SubsetSize(a, b + {x, y, z});
    assert b + {x, y, z} == b + {x} + {y} + {z};
  }

  lemma FrameOfAddress(a: nat)
    requires a < ADDRESS_LIMIT
    ensures FrameOf(a) <= a < FrameOf(a) + PAGE_SIZE && FrameOf(a) % PAGE_SIZE == 0
  {
    assert a / PAGE_SIZE < 0x10_0000_0000;
  }

  lemma RangeInAddresses(startAddress: nat, size: nat)
    ensures RangeStart(startAddress) % PAGE_SIZE == 0
    ensures RangeEnd(startAddress, size) < ADDRESS_LIMIT && RangeEnd(startAddress, size) % PAGE_SIZE == 0
  {
    FrameOfIsFrame(startAddress);
    FrameOfIsFrame((startAddress + size + 4095) % WORD);
  }

  lemma PageOfAddress(a: nat)
    requires a < ADDRESS_LIMIT && a % PAGE_SIZE == 0
    ensures IsPath(PathOf(a)) && AddrOf(PathOf(a)) == a == FrameOf(a)
  {
    AddrOfPath(a);
    FrameOfAddress(a);
  }

  class Pager {
    /** The frame of the top-level table. */
    const root: nat
    var ram: Ram
    var freeHead: nat
    var totalFree: nat
    /** The frames of the free list. */
    ghost var free: seq<nat>

    ghost predicate Valid()
      reads this
    {
      && Tree(ram, root)
      && FreeChain(ram, freeHead, free)
      && totalFree == |free|
      && (forall f :: f in free ==> NotTable(ram, root, f))
    }

    constructor (root: nat, ram: Ram)
      requires Tree(ram, root)
      ensures Valid() && this.root == root && this.ram == ram && free == []
    {
      this.root := root;
      this.ram := ram;
      freeHead, totalFree, free := 0, 0, [];
    }

    /** Pop a free frame; 0 when there is none. */
    method PmmAlloc() returns (frame: nat)
      requires Valid()
      modifies this`freeHead, this`totalFree, this`free
      ensures Valid()
      ensures old(free) == [] ==> frame == 0 && free == []
      ensures old(free) != [] ==> frame == old(free)[0] && free == old(free)[1..] && frame !in free
      ensures old(free) != [] ==> IsFrame(frame) && NotTable(ram, root, frame)
    {
      hide Tree, NotTable;
      if freeHead == 0 {
        return 0;
      }
      frame := freeHead;
      assert frame in free && forall f :: f in free[1..] ==> f in free;
      freeHead := ram[freeHead][0];
      totalFree := totalFree - 1;
      free := free[1..];
    }

    /** Push a frame that is neither free nor a table. */
    method PmmFree(frame: nat)
      requires Valid() && frame in ram && frame !in free && NotTable(ram, root, frame)
      modifies this
      ensures Valid() && free == [frame] + old(free)
      ensures forall q :: IsPath(q) ==> LeafAt(ram, root, q) == old(LeafAt(ram, root, q))
      ensures SameRights(old(ram), ram, root)
    {
      hide Table, LeafFrom;
      ghost var m := ram;
      FreeInRam(ram, freeHead, free);
      assert |ram[frame]| == ENTRIES && IsFrame(frame);
      var content: seq<nat> := ram[frame][0 := freeHead];
      OtherFrameTree(m, root, frame, content);
      forall q | IsPath(q) ensures LeafAt(m[frame := content], root, q) == LeafAt(m, root, q) {
        RootTable(m, root);
        assert q[..0] == [];
        OtherFrameLeaf(m, root, frame, content, q, 0, root);
      }
      FrameKeepsRights(m, root, frame, content);
      ram := ram[frame := content];
      FreeChainFrame(m, ram, freeHead, free);
      freeHead := frame;
      totalFree := totalFree + 1;
      free := [frame] + free;
      assert free[1..] == old(free);
    }

    /** The table behind an entry, created empty when the entry is absent; 0 when out of frames. */
    method GetOrCreateTable(table: nat, index: nat, ghost p: seq<nat>) returns (r: nat)
      requires Valid() && IsTablePath(p + [index]) && Table(ram, root, p) == Some(table)
      requires table in ram && index < |ram[table]|
      requires !(|p| > 0 && Present(ram[table][index]) && HugeBit(ram[table][index]))
      modifies this
      ensures Valid()
      ensures old(Table(ram, root, p + [index])).Some? ==>
                ram == old(ram) && free == old(free) && Some(r) == Table(ram, root, p + [index]) && r != 0
      ensures old(Table(ram, root, p + [index])).None? && old(free) != [] ==>
                && r == old(free)[0] && free == old(free)[1..] && Table(ram, root, p + [index]) == Some(r) && r != 0
                && r in ram && ram[r] == ZeroFrame()
                && table in ram && ram[table] == old(ram)[table][index := r + 3]
      ensures old(Table(ram, root, p + [index])).None? && old(free) == [] ==> r == 0 && ram == old(ram) && free == []
      ensures forall q :: IsPath(q) ==> LeafAt(ram, root, q) == old(LeafAt(ram, root, q))
      ensures SameRights(old(ram), ram, root)
      ensures forall q :: IsTablePath(q) && !(p + [index] <= q) ==> Table(ram, root, q) == old(Table(ram, root, q))
      ensures forall q :: IsTablePath(q) ==>
                (Table(ram, root, q).Some? <==> old(Table(ram, root, q)).Some? || (q == p + [index] && r != 0))
    {
      hide Table, LeafFrom, SameRights;
      ghost var m := ram;
      RightsSame(m, root);
      var entry := ram[table][index];
      PathEnd(p, index);
      TableExtends(ram, root, p, index);
      StepIs(ram, root, p, table, index);
      if !Present(entry) {
        TablesAreNotFree(ram, root, p, table, free);
        FreeInRam(ram, freeHead, free);
        var z := PmmAlloc();
        if z == 0 { return 0; }
        InstallKeepsTree(m, root, p, table, index, z);
        forall q | IsPath(q) ensures LeafAt(Install(m, table, index, z), root, q) == LeafAt(m, root, q) {
          InstallKeepsLeaf(m, root, p, table, index, z, q);
        }
        forall q | IsTablePath(q) && !(p + [index] <= q)
          ensures Table(Install(m, table, index, z), root, q) == Table(m, root, q)
        {
          InstallTables(m, root, p, table, index, z, q);
        }
        forall q | IsTablePath(q)
          ensures Table(Install(m, table, index, z), root, q).Some? <==> Table(m, root, q).Some? || q == p + [index]
        {
          InstallTables(m, root, p, table, index, z, q);
          if p + [index] <= q { BelowAbsent(m, root, p + [index], q); }
        }
        NewTableRights(m, root, p, table, index, z);
        EntryGrants(z);
        ram := ram[z := ZeroFrame()];
        ram := Store(ram, table, index, TableEntry(z));
        FreeChainFrame(m, ram, freeHead, free);
        TableEntryFields(z);
        entry := ram[table][index];
      }
      return FrameOf(entry);
    }

    /** The last-level table of a page, created with the tables above it where absent; 0 under a huge page
        or when frames run out. `made` are the tables created. */
    method LastTable(va: nat) returns (pt: nat, ghost made: set<seq<nat>>)
      requires Valid()
      modifies this
      ensures Valid()
      ensures forall q :: IsPath(q) ==> LeafAt(ram, root, q) == old(LeafAt(ram, root, q))
      ensures IsHuge(old(LeafAt(ram, root, PathOf(va)))) ==> pt == 0 && ram == old(ram) && free == old(free)
      ensures !IsHuge(old(LeafAt(ram, root, PathOf(va)))) ==>
                var missing := old(Missing(ram, root, PathOf(va)));
                if missing <= |old(free)|
                then pt != 0 && Table(ram, root, PathOf(va)[..3]) == Some(pt) && free == old(free)[missing..]
                else pt == 0 && free == [] && Table(ram, root, PathOf(va)[..3]) == None
      ensures SameRights(old(ram), ram, root)
      ensures MadeFor(old(ram), ram, root, PathOf(va), made) && |made| + |free| == |old(free)|
    {
      hide Table, LeafFrom, Tree, NotTable, LeafAt, Missing, FreeChain, FrameOf, TableEntry, HugeBit, Present, Store;
      hide MadeFor, IsTablePath, SameRights;
      AbsentIsZero();
      ghost var q, before := PathOf(va), ram;
      RootTable(ram, root);
      PrefixesOf(q);
      WalkCases(ram, root, q);
      made := {};
      NothingMade(ram, root, q);
      RightsSame(before, root);
      var pdpt := GetOrCreateTable(root, va / 0x80_0000_0000 % ENTRIES, []);
      made := MadeNext(before, before, ram, root, q, q[..1], pdpt, made);
      WalkCases(ram, root, q);
      if pdpt == 0 { return 0, made; }
      var pdptEntry := ram[pdpt][va / 0x4000_0000 % ENTRIES];
      if Present(pdptEntry) && HugeBit(pdptEntry) { return 0, made; }
      ghost var mid := ram;
      var pd := GetOrCreateTable(pdpt, va / 0x4000_0000 % ENTRIES, q[..1]);
      RightsThen(before, mid, ram, root);
      made := MadeNext(before, mid, ram, root, q, q[..2], pd, made);
      WalkCases(ram, root, q);
      if pd == 0 { return 0, made; }
      var pdEntry := ram[pd][va / 0x20_0000 % ENTRIES];
      if Present(pdEntry) && HugeBit(pdEntry) { return 0, made; }
      mid := ram;
      pt := GetOrCreateTable(pd, va / 0x20_0000 % ENTRIES, q[..2]);
      RightsThen(before, mid, ram, root);
      made := MadeNext(before, mid, ram, root, q, q[..3], pt, made);
      WalkCases(ram, root, q);
    }

    /** Map the page of `va` to the frame of `pa`, unless a huge page covers it. `made` are the tables that
        were created for it. */
    method MapPage(va: nat, pa: nat) returns (ghost made: set<seq<nat>>)
      requires Valid()
      modifies this
      ensures Valid()
      ensures forall q :: IsPath(q) && q != PathOf(va) ==> SamePage(old(ram), ram, root, q)
      ensures forall q :: IsPath(q) ==> TablesMayWrite(ram, root, q) == old(TablesMayWrite(ram, root, q))
      ensures IsHuge(old(LeafAt(ram, root, PathOf(va)))) ==> ram == old(ram) && free == old(free)
      ensures !IsHuge(old(LeafAt(ram, root, PathOf(va)))) ==>
                var missing := old(Missing(ram, root, PathOf(va)));
                if missing <= |old(free)|
                then && LeafAt(ram, root, PathOf(va)) == Page4K(FrameOf(pa)) && free == old(free)[missing..]
                     && MayWrite(ram, root, PathOf(va)) == old(TablesMayWrite(ram, root, PathOf(va)))
                     && EntryAt(ram, root, PathOf(va)) == FrameOf(pa) + 3
                else && SamePage(old(ram), ram, root, PathOf(va)) && free == []
                     && Table(ram, root, PathOf(va)[..3]) == None
      ensures MadeFor(old(ram), ram, root, PathOf(va), made) && |made| + |free| == |old(free)|
    {
      hide Table, LeafFrom, Tree, NotTable, LeafAt, Missing, FreeChain, FrameOf, TableEntry, Store, MadeFor;
      hide MayWrite, TablesMayWrite;
      ghost var before, q := ram, PathOf(va);
      PrefixesOf(q);
      var pt;
      pt, made := LastTable(va);
      if pt == 0 { return; }
      ghost var m := ram;
      FrameOfIsFrame(pa);
      InRam(m, root, q[..3], pt);
      MapLeafTables(m, root, q, pt, FrameOf(pa));
      forall x | IsPath(x)
        ensures LeafAt(Store(m, pt, q[3], TableEntry(FrameOf(pa))), root, x)
                == if x == q then Page4K(FrameOf(pa)) else LeafAt(m, root, x)
      {
        MapLeaf(m, root, q, pt, FrameOf(pa), x);
      }
      forall x | IsPath(x)
        ensures var m2 := Store(m, pt, q[3], TableEntry(FrameOf(pa)));
                && TablesMayWrite(m2, root, x) == TablesMayWrite(m, root, x)
                && MayWrite(m2, root, x) == if x == q then TablesMayWrite(m, root, x) else MayWrite(m, root, x)
      {
        MapLeafRights(m, root, q, pt, FrameOf(pa), x);
      }
      EntryStored(m, root, q, pt, FrameOf(pa));
      TablesAreNotFree(m, root, q[..3], pt, free);
      FreeInRam(m, freeHead, free);
      ram := Store(ram, pt, va / 0x1000 % ENTRIES, TableEntry(FrameOf(pa)));
      StoreElsewhere(m, pt, q[3], TableEntry(FrameOf(pa)));
      FreeChainFrame(m, ram, freeHead, free);
      MadeThen(before, m, ram, root, q, made);
    }

    /** Map every page of the rounded range to the frame of the same address. */
    method IdentityMapRange(startAddress: nat, size: nat)
      requires Valid() && startAddress < WORD && size < WORD
      modifies this
      ensures Valid()
      ensures forall q :: IsPath(q) && !InRange(q, RangeStart(startAddress), RangeEnd(startAddress, size)) ==>
                SamePage(old(ram), ram, root, q)
      ensures forall q :: IsPath(q) && InRange(q, RangeStart(startAddress), RangeEnd(startAddress, size)) ==>
                && (IsHuge(old(LeafAt(ram, root, q))) ==> SamePage(old(ram), ram, root, q))
                && (!IsHuge(old(LeafAt(ram, root, q))) ==>
                      SelfMapped(old(ram), ram, root, q) || SamePage(old(ram), ram, root, q))
                && (!IsHuge(old(LeafAt(ram, root, q))) && old(Missing(ram, root, q)) == 0 ==>
                      SelfMapped(old(ram), ram, root, q))
      ensures var needed := old(Needed(ram, root, RangeStart(startAddress), RangeEnd(startAddress, size)));
              && (|needed| <= |old(free)| <==>
                    AllMapped(old(ram), ram, root, RangeStart(startAddress), RangeEnd(startAddress, size)))
              && |free| == (if |needed| <= |old(free)| then |old(free)| - |needed| else 0)
              && |needed| <= 3 * PagesOf(startAddress, size)
    {
      hide LeafAt, AddrOf, FrameOf, Missing, Tree, FreeChain, NotTable, IsPath, PathOf, MadeFor, Needed, Table;
      hide RangeStart, RangeEnd, Progress, MayWrite, TablesMayWrite;
      var start, end := RangeStart(startAddress), RangeEnd(startAddress, size);
      RangeInAddresses(startAddress, size);
      ghost var m, total := ram, {};
      NothingYet(m, root, start, end);
      NeededOfRange(m, root, startAddress, size);
      var addr := start;
      while addr < end
        invariant start <= addr && addr % PAGE_SIZE == 0 && Valid()
        invariant |total| + |free| == |old(free)| && Progress(m, ram, root, start, addr, end, total, free == [])
      {
        ghost var mid, was := ram, free;
        PageOfAddress(addr);
        ghost var made := MapPage(addr, addr);
        PageDone(m, mid, ram, root, start, addr, end, total, made, was == [], free == []);
        total := total + made;
        addr := addr + 4096;
      }
      RangeDone(m, ram, root, start, addr, end, total, |free|);
      forall q | IsPath(q)
        ensures InRange(q, start, end) ==>
                  Mapped(m, ram, root, q, free == []) && (Missing(m, root, q) == 0 ==> Mapped(m, ram, root, q, false))
        ensures !InRange(q, start, end) ==> SamePage(m, ram, root, q)
      {
        PageMapped(m, ram, root, start, addr, end, total, free == [], q);
      }
    }
  }

  lemma StepIs(m: Ram, root: nat, p: seq<nat>, f: nat, i: nat)
    requires Tree(m, root) && IsTablePath(p) && Table(m, root, p) == Some(f) && f in m && i < |m[f]|
    requires !(|p| > 0 && Present(m[f][i]) && HugeBit(m[f][i]))
    ensures Table(m, root, p + [i]) == if Present(m[f][i]) then Some(FrameOf(m[f][i])) else None
  {
    TableExtends(m, root, p, i);
    if p == [] { RootTable(m, root); }
  }

  lemma StoreElsewhere(m: Ram, f: nat, i: nat, e: nat)
    requires f in m && i < |m[f]|
    ensures forall g :: g in m ==> g in Store(m, f, i, e) && (g != f ==> Store(m, f, i, e)[g] == m[g])
  {
  }

  /** The word that maps a page, in its last-level table. */
  function EntryAt(m: Ram, root: nat, q: seq<nat>): nat
    requires IsPath(q)
  {
    match Table(m, root, q[..3])
    case None => 0
    case Some(f) => Word(m, f, q[3])
  }

  lemma EntryStored(m: Ram, root: nat, q: seq<nat>, f: nat, frame: nat)
    requires Tree(m, root) && IsPath(q) && Table(m, root, q[..3]) == Some(f) && f in m && |m[f]| == ENTRIES
    requires frame < ADDRESS_LIMIT && frame % PAGE_SIZE == 0
    ensures EntryAt(Store(m, f, q[3], TableEntry(frame)), root, q) == frame + 3
  {
    hide Table, Tree;
    MapLeafTables(m, root, q, f, frame);
    LastPrefix(q);
    EntryGrants(frame);
  }

  lemma AbsentIsZero()
    ensures !Present(0)
  {
  }

  lemma FrameOfIsFrame(e: nat)
    ensures FrameOf(e) < ADDRESS_LIMIT && FrameOf(e) % PAGE_SIZE == 0
  {
  }

  lemma PrefixesOf(q: seq<nat>)
    requires IsPath(q)
    ensures q[..0] == [] && q[..1] == [] + [q[0]] && q[..2] == q[..1] + [q[1]] && q[..3] == q[..2] + [q[2]]
    ensures IsTablePath(q[..1]) && IsTablePath(q[..2]) && IsTablePath(q[..3])
    ensures !(q[..1] <= []) && !(q[..2] <= q[..1]) && !(q[..3] <= q[..2]) && !(q[..3] <= q[..1])
  {
  }

  /** The tables on the way to a page, and what the walk finds where they stop. */
  lemma WalkCases(m: Ram, root: nat, q: seq<nat>)
    requires Tree(m, root) && IsPath(q)
    ensures root in m && |m[root]| == ENTRIES && Table(m, root, q[..0]) == Some(root)
    ensures var t1, t2, t3 := Table(m, root, q[..1]), Table(m, root, q[..2]), Table(m, root, q[..3]);
            && (t1.None? ==> t2.None? && LeafAt(m, root, q) == Unmapped)
            && (t1.Some? ==>
                  && t1.value in m && |m[t1.value]| == ENTRIES
                  && (if !Present(m[t1.value][q[1]]) then t2.None? && LeafAt(m, root, q) == Unmapped
                      else if HugeBit(m[t1.value][q[1]])
                        then t2.None? && LeafAt(m, root, q) == Page1G(m[t1.value][q[1]])
                      else t2.Some?))
            && (t2.None? ==> t3.None?)
            && (t2.Some? ==>
                  && t2.value in m && |m[t2.value]| == ENTRIES
                  && (if !Present(m[t2.value][q[2]]) then t3.None? && LeafAt(m, root, q) == Unmapped
                      else if HugeBit(m[t2.value][q[2]])
                        then t3.None? && LeafAt(m, root, q) == Page2M(m[t2.value][q[2]])
                      else t3.Some?))
            && (t3.Some? ==> t3.value in m && |m[t3.value]| == ENTRIES && !IsHuge(LeafAt(m, root, q)))
            && Missing(m, root, q) == (if t1.None? then 3 else if t2.None? then 2 else if t3.None? then 1 else 0)
  {
    PrefixesOf(q);
    TableExtends(m, root, [], q[0]);
    TableExtends(m, root, q[..1], q[1]);
    TableExtends(m, root, q[..2], q[2]);
    LeafOnPath(m, root, q, 0);
    if Table(m, root, q[..1]).Some? { LeafOnPath(m, root, q, 1); }
    if Table(m, root, q[..2]).Some? { LeafOnPath(m, root, q, 2); }
    if Table(m, root, q[..3]).Some? { LeafOnPath(m, root, q, 3); }
  }

  /** The smallest tree: one empty top-level table. */
  lemma EmptyTree(root: nat, q: seq<nat>)
    requires IsFrame(root) && IsPath(q)
    ensures Tree(map[root := ZeroFrame()], root) && LeafAt(map[root := ZeroFrame()], root, q) == Unmapped
  {
    var m: Ram := map[root := ZeroFrame()];
    AbsentIsZero();
    RootTable(m, root);
    forall p | IsTablePath(p) && p != [] ensures Table(m, root, p) == None {
      BelowZero(m, root, [], root, p);
    }
  }
}
