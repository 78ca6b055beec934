/** Four-level page tables in physical memory (Intel SDM Vol. 3A, section 4.5) as a radix tree
    that stands for a map from pages to frames. */
module PageTables {
  import opened Wrappers

  const ENTRIES := 512
  const PAGE_SIZE := 4096
  const ADDRESS_LIMIT := 0x1_0000_0000_0000 // 2^48

  /** Physical memory by frames of 512 eight-byte words. */
  type Ram = map<nat, seq<nat>>

  predicate Present(e: nat) { e % 2 == 1 }

  /** The PS bit: the entry maps a 1 GB or 2 MB page and is not a table pointer. */
  predicate HugeBit(e: nat) { e / 128 % 2 == 1 }

  /** e & 0x0000FFFFFFFFF000 */
  function FrameOf(e: nat): nat { e / PAGE_SIZE % 0x10_0000_0000 * PAGE_SIZE }

  /** Addresses of frames: page-aligned, non-zero, below 2^48. */
  predicate IsFrame(f: nat) { 0 < f < ADDRESS_LIMIT && f % PAGE_SIZE == 0 }

  /** frame | 0b11 */
  function TableEntry(f: nat): nat { f + 3 }

  lemma TableEntryFields(f: nat)
    requires f < ADDRESS_LIMIT && f % PAGE_SIZE == 0
    ensures Present(TableEntry(f)) && !HugeBit(TableEntry(f)) && FrameOf(TableEntry(f)) == f
  {
    var k := f / PAGE_SIZE;
    assert f == k * PAGE_SIZE && k < 0x10_0000_0000;
    assert (f + 3) / PAGE_SIZE == k && (f + 3) / 128 == 32 * k;
  }

  // ---- the four table indices of a virtual address ----

  predicate IsPath(q: seq<nat>)
  {
    |q| == 4 && forall k :: 0 <= k < 4 ==> q[k] < ENTRIES
  }

  function PathOf(va: nat): (q: seq<nat>)
    ensures IsPath(q)
  {
    [va / 0x80_0000_0000 % ENTRIES, va / 0x4000_0000 % ENTRIES, va / 0x20_0000 % ENTRIES, va / 0x1000 % ENTRIES]
  }

  /** The address of the page that a path indexes. */
  function AddrOf(q: seq<nat>): nat
    requires IsPath(q)
  {
    q[0] * 0x80_0000_0000 + q[1] * 0x4000_0000 + q[2] * 0x20_0000 + q[3] * 0x1000
  }

  lemma PathOfAddr(q: seq<nat>)
    requires IsPath(q)
    ensures PathOf(AddrOf(q)) == q && AddrOf(q) < ADDRESS_LIMIT && AddrOf(q) % PAGE_SIZE == 0
  {
    var a := AddrOf(q);
    var n1 := 512 * q[0] + q[1];
    var n2 := 512 * n1 + q[2];
    var n3 := 512 * n2 + q[3];
    assert a == 4096 * n3;
    assert a / 0x1000 == n3 && a / 0x20_0000 == n3 / 512
        && a / 0x4000_0000 == n3 / 512 / 512 && a / 0x80_0000_0000 == n3 / 512 / 512 / 512;
    assert n3 / 512 == n2 && n2 / 512 == n1 && n1 / 512 == q[0];
  }

  lemma AddrOfPath(va: nat)
    requires va < ADDRESS_LIMIT
    ensures AddrOf(PathOf(va)) == va / PAGE_SIZE * PAGE_SIZE
  {
    var n := va / 0x1000;
    assert va / 0x20_0000 == n / 512 && va / 0x4000_0000 == n / 512 / 512 && va / 0x80_0000_0000 == n / 512 / 512 / 512;
    assert n / 512 / 512 / 512 < 512;
  }

  /** The first index in which two paths differ decides which page comes first, and pages lie apart by the
      size that its level spans. */
  lemma AddrOrder(q: seq<nat>, q': seq<nat>, k: nat)
    requires IsPath(q) && IsPath(q') && k < 4 && q[..k] == q'[..k] && q[k] < q'[k]
    ensures AddrOf(q) + PAGE_SIZE <= AddrOf(q')
    ensures q[k + 1..] == q'[k + 1..] ==>
              AddrOf(q') - AddrOf(q) == (q'[k] - q[k]) * [0x80_0000_0000, 0x4000_0000, 0x20_0000, 0x1000][k]
  {
    assert forall j :: 0 <= j < k ==> q[j] == q[..k][j] == q'[..k][j] == q'[j];
    if q[k + 1..] == q'[k + 1..] {
      assert forall j :: k < j < 4 ==> q[j] == q[k + 1..][j - k - 1] == q'[k + 1..][j - k - 1] == q'[j];
    }
  }

  // ---- tables ----

  /** The table that entry `i` of table `f` at depth `d` points to, if it points to one. */
  function Step(m: Ram, f: nat, d: nat, i: nat): Option<nat>
  {
    if f in m && i < |m[f]| && Present(m[f][i]) && !(d > 0 && HugeBit(m[f][i])) then Some(FrameOf(m[f][i])) else None
  }

  /** The table at the end of a path of at most three indices. */
  function Table(m: Ram, root: nat, p: seq<nat>): Option<nat>
    decreases |p|
  {
    if p == [] then Some(root)
    else
      match Table(m, root, p[..|p| - 1])
      case None => None
      case Some(f) => Step(m, f, |p| - 1, p[|p| - 1])
  }

  predicate IsTablePath(p: seq<nat>)
  {
    |p| <= 3 && forall k :: 0 <= k < |p| ==> p[k] < ENTRIES
  }

  /** Tables are whole frames and no table is reached in two ways. */
  ghost predicate Tree(m: Ram, root: nat)
  {
    && (forall f :: f in m ==> |m[f]| == ENTRIES && IsFrame(f))
    && root in m
    && (forall i :: 0 <= i < ENTRIES && Present(m[root][i]) ==> !HugeBit(m[root][i]))
    && (forall p :: IsTablePath(p) && Table(m, root, p).Some? ==> Table(m, root, p).value in m)
    && (forall p, q :: IsTablePath(p) && IsTablePath(q) && Table(m, root, p).Some? ==>
          Table(m, root, p) == Table(m, root, q) ==> p == q)
  }

  // ---- what the tables map ----

  /** What a page is mapped to. */
  datatype Leaf = Unmapped | Page4K(frame: nat) | Page2M(entry: nat) | Page1G(entry: nat)

  /** The page walk from table `f` at depth `d`. */
  function LeafFrom(m: Ram, f: nat, d: nat, q: seq<nat>): Leaf
    requires IsPath(q) && d <= 3
    decreases 3 - d
  {
    if f !in m || |m[f]| != ENTRIES || !Present(m[f][q[d]]) then Unmapped
    else if d == 3 then Page4K(FrameOf(m[f][q[d]]))
    else if d == 1 && HugeBit(m[f][q[d]]) then Page1G(m[f][q[d]])
    else if d == 2 && HugeBit(m[f][q[d]]) then Page2M(m[f][q[d]])
    else LeafFrom(m, FrameOf(m[f][q[d]]), d + 1, q)
  }

  function LeafAt(m: Ram, root: nat, q: seq<nat>): Leaf
    requires IsPath(q)
  {
    LeafFrom(m, root, 0, q)
  }

  predicate IsHuge(l: Leaf) { l.Page2M? || l.Page1G? }

  // ---- storing one entry ----

  function Store(m: Ram, f: nat, i: nat, e: nat): Ram
    requires f in m && i < |m[f]|
  {
    var frame: seq<nat> := m[f][i := e];
    m[f := frame]
  }

  lemma TableExtends(m: Ram, root: nat, p: seq<nat>, i: nat)
    ensures Table(m, root, p + [i]) == (match Table(m, root, p) case None => None case Some(f) => Step(m, f, |p|, i))
  {
    assert (p + [i])[..|p|] == p;
  }

  /** A store into one entry changes only the tables below that entry. */
  lemma {:induction false} StoreKeepsTable(m: Ram, root: nat, p: seq<nat>, f: nat, i: nat, e: nat, q: seq<nat>)
    requires Tree(m, root) && IsTablePath(p) && Table(m, root, p) == Some(f) && i < ENTRIES && f in m
    requires IsTablePath(q) && !(p + [i] <= q)
    ensures Table(Store(m, f, i, e), root, q) == Table(m, root, q)
    decreases |q|
  {
    hide Tree, Table, Step;
    WholeFrames(m, root);
    if q != [] {
      var q', j := q[..|q| - 1], q[|q| - 1];
      assert q == q' + [j];
      StoreKeepsTable(m, root, p, f, i, e, q');
      TableExtends(m, root, q', j);
      TableExtends(Store(m, f, i, e), root, q', j);
      if Table(m, root, q') == Some(f) {
        TableUnique(m, root, p, q');
        assert j != i;
      }
      if Table(m, root, q').Some? {
        StepAfterStore(m, f, i, e, Table(m, root, q').value, |q'|, j);
      }
    } else {
      RootTable(m, root);
      RootTable(Store(m, f, i, e), root);
    }
  }

  lemma TableUnique(m: Ram, root: nat, p: seq<nat>, q: seq<nat>)
    requires Tree(m, root) && IsTablePath(p) && IsTablePath(q)
    requires Table(m, root, p).Some? && Table(m, root, p) == Table(m, root, q)
    ensures p == q
  {
    hide Table;
  }

  lemma StepAfterStore(m: Ram, f: nat, i: nat, e: nat, g: nat, d: nat, j: nat)
    requires f in m && i < |m[f]| && (g == f ==> j != i)
    ensures Step(Store(m, f, i, e), g, d, j) == Step(m, g, d, j)
  {
  }

  /** A page whose walk does not use the stored entry keeps its mapping. */
  lemma {:induction false} StoreKeepsLeaf(m: Ram, root: nat, p: seq<nat>, f: nat, i: nat, e: nat, q: seq<nat>,
      d: nat, g: nat)
    requires Tree(m, root) && IsTablePath(p) && Table(m, root, p) == Some(f) && i < ENTRIES && f in m
    requires IsPath(q) && d <= 3 && Table(m, root, q[..d]) == Some(g) && !(p + [i] <= q)
    ensures LeafFrom(Store(m, f, i, e), g, d, q) == LeafFrom(m, g, d, q)
    decreases 3 - d
  {
    hide Tree, Table;
    WholeFrames(m, root);
    assert q[..d + 1] == q[..d] + [q[d]];
    if g == f {
      TableUnique(m, root, p, q[..d]);
      assert q[d] != i;
    }
    TableExtends(m, root, q[..d], q[d]);
    if d < 3 && g in m && Present(m[g][q[d]]) && !(d > 0 && HugeBit(m[g][q[d]])) {
      StoreKeepsLeaf(m, root, p, f, i, e, q, d + 1, FrameOf(m[g][q[d]]));
    }
  }

  // ---- installing a table and mapping a page ----

  function ZeroFrame(): (r: seq<nat>)
    ensures |r| == ENTRIES && forall i :: 0 <= i < ENTRIES ==> r[i] == 0
  {
    seq(ENTRIES, _ => 0)
  }

  /** Frame `z` is zeroed and entry `i` of table `f` points to it. */
  function Install(m: Ram, f: nat, i: nat, z: nat): Ram
    requires f in m && i < |m[f]| && f != z
  {
    Store(m[z := ZeroFrame()], f, i, TableEntry(z))
  }

  /** Frame `z` is not a table. */
  ghost predicate NotTable(m: Ram, root: nat, z: nat)
  {
    forall p :: IsTablePath(p) ==> Table(m, root, p) != Some(z)
  }

  /** Contents of a frame that is no table do not matter to the tables. */
  lemma {:induction false} OtherFrameTable(m: Ram, root: nat, z: nat, content: seq<nat>, p: seq<nat>)
    requires NotTable(m, root, z) && IsTablePath(p)
    ensures Table(m[z := content], root, p) == Table(m, root, p)
    decreases |p|
  {
    if p != [] { OtherFrameTable(m, root, z, content, p[..|p| - 1]); }
  }

  lemma {:induction false} OtherFrameLeaf(m: Ram, root: nat, z: nat, content: seq<nat>, q: seq<nat>, d: nat, g: nat)
    requires NotTable(m, root, z) && IsPath(q) && d <= 3 && Table(m, root, q[..d]) == Some(g)
    requires forall f :: f in m ==> |m[f]| == ENTRIES
    ensures LeafFrom(m[z := content], g, d, q) == LeafFrom(m, g, d, q)
    decreases 3 - d
  {
    assert q[..d + 1] == q[..d] + [q[d]];
    TableExtends(m, root, q[..d], q[d]);
    if d < 3 && g in m && Present(m[g][q[d]]) && !(d > 0 && HugeBit(m[g][q[d]])) {
      OtherFrameLeaf(m, root, z, content, q, d + 1, FrameOf(m[g][q[d]]));
    }
  }

  lemma OtherFrameTree(m: Ram, root: nat, z: nat, content: seq<nat>)
    requires Tree(m, root) && NotTable(m, root, z) && |content| == ENTRIES && IsFrame(z)
    ensures Tree(m[z := content], root)
    ensures forall p :: IsTablePath(p) ==> Table(m[z := content], root, p) == Table(m, root, p)
  {
    hide Table, IsTablePath;
    forall p | IsTablePath(p) ensures Table(m[z := content], root, p) == Table(m, root, p) {
      OtherFrameTable(m, root, z, content, p);
    }
    assert Table(m, root, []) == Some(root) && IsTablePath([]) by { RootTable(m, root); }
  }

  lemma RootTable(m: Ram, root: nat)
    ensures Table(m, root, []) == Some(root) && IsTablePath([])
  {
  }

  lemma PathEnd(p: seq<nat>, i: nat)
    requires IsTablePath(p + [i])
    ensures IsTablePath(p) && i < ENTRIES && |p| < 3
  {
    assert forall k :: 0 <= k < |p| ==> p[k] == (p + [i])[k];
    assert (p + [i])[|p|] == i;
  }

  /** After installing a fresh table `z` at an absent entry, the tables are those of before and `z`. */
  lemma InstallTables(m: Ram, root: nat, p: seq<nat>, f: nat, i: nat, z: nat, q: seq<nat>)
    requires Tree(m, root) && IsTablePath(p + [i]) && Table(m, root, p) == Some(f) && f in m && !Present(m[f][i])
    requires IsFrame(z) && z != f && NotTable(m, root, z) && IsTablePath(q)
    ensures Table(Install(m, f, i, z), root, q)
            == if q == p + [i] then Some(z) else if p + [i] <= q then None else Table(m, root, q)
  {
    var m1 := m[z := ZeroFrame()];
    var m2 := Install(m, f, i, z);
    PathEnd(p, i);
    OtherFrameTree(m, root, z, ZeroFrame());
    if !(p + [i] <= q) {
      StoreKeepsTable(m1, root, p, f, i, TableEntry(z), q);
    } else {
      assert !(p + [i] <= p);
      StoreKeepsTable(m1, root, p, f, i, TableEntry(z), p);
      TableExtends(m2, root, p, i);
      TableEntryFields(z);
      assert Table(m2, root, p + [i]) == Some(z);
      if q != p + [i] { BelowZero(m2, root, p + [i], z, q); }
    }
  }

  /** Below a zeroed table there is nothing. */
  lemma {:induction false} BelowZero(m: Ram, root: nat, p: seq<nat>, z: nat, q: seq<nat>)
    requires Table(m, root, p) == Some(z) && z in m && m[z] == ZeroFrame() && p <= q && p != q
    ensures Table(m, root, q) == None
    decreases |q|
  {
    var q' := q[..|q| - 1];
    if q' == p {
      assert !Present(0);
    } else {
      BelowZero(m, root, p, z, q');
    }
  }

  /** Below an absent table there is nothing. */
  lemma {:induction false} BelowAbsent(m: Ram, root: nat, p: seq<nat>, q: seq<nat>)
    requires Table(m, root, p) == None && p <= q
    ensures Table(m, root, q) == None
    decreases |q|
  {
    if q != p {
      BelowAbsent(m, root, p, q[..|q| - 1]);
    }
  }

  lemma InstallKeepsTree(m: Ram, root: nat, p: seq<nat>, f: nat, i: nat, z: nat)
    requires Tree(m, root) && IsTablePath(p + [i]) && Table(m, root, p) == Some(f) && f in m && !Present(m[f][i])
    requires IsFrame(z) && z != f && NotTable(m, root, z)
    ensures Tree(Install(m, f, i, z), root)
    ensures Table(Install(m, f, i, z), root, p + [i]) == Some(z)
    ensures forall y :: y != z && NotTable(m, root, y) ==> NotTable(Install(m, f, i, z), root, y)
  {
    hide Table, IsTablePath;
    PathEnd(p, i);
    var m2 := Install(m, f, i, z);
    forall q | IsTablePath(q)
      ensures Table(m2, root, q) == if q == p + [i] then Some(z) else if p + [i] <= q then None else Table(m, root, q)
    {
      InstallTables(m, root, p, f, i, z, q);
    }
    RootTable(m, root);
    TableEntryFields(z);
    assert root != z;
  }

  /** Installing an empty table at an absent entry maps nothing new. */
  lemma InstallKeepsLeaf(m: Ram, root: nat, p: seq<nat>, f: nat, i: nat, z: nat, q: seq<nat>)
    requires Tree(m, root) && IsTablePath(p + [i]) && Table(m, root, p) == Some(f) && f in m && !Present(m[f][i])
    requires IsFrame(z) && z != f && NotTable(m, root, z) && IsPath(q)
    ensures LeafAt(Install(m, f, i, z), root, q) == LeafAt(m, root, q)
  {
    hide Table, IsTablePath, LeafFrom;
    PathEnd(p, i);
    if p + [i] <= q {
      InstallOnPath(m, root, p, f, i, z, q);
    } else {
      OtherFrameTree(m, root, z, ZeroFrame());
      RootTable(m, root);
      RootTable(m[z := ZeroFrame()], root);
      assert q[..0] == [];
      OtherFrameLeaf(m, root, z, ZeroFrame(), q, 0, root);
      StoreKeepsLeaf(m[z := ZeroFrame()], root, p, f, i, TableEntry(z), q, 0, root);
    }
  }

  /** A page below the entry was unmapped, and is unmapped in the empty table. */
  lemma InstallOnPath(m: Ram, root: nat, p: seq<nat>, f: nat, i: nat, z: nat, q: seq<nat>)
    requires Tree(m, root) && IsTablePath(p + [i]) && Table(m, root, p) == Some(f) && f in m && !Present(m[f][i])
    requires i < ENTRIES && |p| < 3 && IsFrame(z) && z != f && NotTable(m, root, z) && IsPath(q) && p + [i] <= q
    ensures LeafAt(Install(m, f, i, z), root, q) == Unmapped == LeafAt(m, root, q)
  {
    hide Table, IsTablePath, Tree, NotTable;
    WholeFrames(m, root);
    var m2 := Install(m, f, i, z);
    assert q[..|p|] == p && q[..|p| + 1] == p + [i] && q[|p|] == i;
    InstallKeepsTree(m, root, p, f, i, z);
    WholeFrames(m2, root);
    LeafOnPath(m, root, q, |p|);
    LeafOnPath(m2, root, q, |p| + 1);
    assert !Present(0);
  }

  lemma WholeFrames(m: Ram, root: nat)
    requires Tree(m, root)
    ensures forall f :: f in m ==> |m[f]| == ENTRIES
  {
  }

  /** The walk of a page passes through the tables on its path. */
  lemma {:induction false} LeafOnPath(m: Ram, root: nat, q: seq<nat>, d: nat)
    requires IsPath(q) && d <= 3 && Table(m, root, q[..d]).Some?
    requires forall f :: f in m ==> |m[f]| == ENTRIES
    ensures LeafAt(m, root, q) == LeafFrom(m, Table(m, root, q[..d]).value, d, q)
    decreases d
  {
    if d > 0 {
      assert q[..d][..d - 1] == q[..d - 1];
      LeafOnPath(m, root, q, d - 1);
    }
  }

  /** Writing the last-level entry of a page maps that page and no other. */
  lemma MapLeaf(m: Ram, root: nat, p: seq<nat>, f: nat, frame: nat, q: seq<nat>)
    requires Tree(m, root) && IsPath(p) && Table(m, root, p[..3]) == Some(f) && f in m
    requires frame < ADDRESS_LIMIT && frame % PAGE_SIZE == 0 && IsPath(q)
    ensures LeafAt(Store(m, f, p[3], TableEntry(frame)), root, q) ==
            if q == p then Page4K(frame) else LeafAt(m, root, q)
  {
    var m2 := Store(m, f, p[3], TableEntry(frame));
    assert p[..3] + [p[3]] == p;
    if q == p {
      StoreKeepsTable(m, root, p[..3], f, p[3], TableEntry(frame), p[..3]);
      LeafOnPath(m2, root, p, 3);
      TableEntryFields(frame);
    } else {
      StoreKeepsLeaf(m, root, p[..3], f, p[3], TableEntry(frame), q, 0, root);
    }
  }

  lemma MapLeafTables(m: Ram, root: nat, p: seq<nat>, f: nat, frame: nat)
    requires Tree(m, root) && IsPath(p) && Table(m, root, p[..3]) == Some(f) && f in m
    requires frame < ADDRESS_LIMIT && frame % PAGE_SIZE == 0
    ensures var m2 := Store(m, f, p[3], TableEntry(frame));
            && Tree(m2, root) && (forall y :: NotTable(m, root, y) ==> NotTable(m2, root, y))
            && forall q :: IsTablePath(q) ==> Table(m2, root, q) == Table(m, root, q)
  {
    hide Table;
    var m2 := Store(m, f, p[3], TableEntry(frame));
    forall q | IsTablePath(q) ensures Table(m2, root, q) == Table(m, root, q) {
      StoreKeepsTable(m, root, p[..3], f, p[3], TableEntry(frame), q);
    }
    RootTable(m, root);
    assert f != root by {
      assert |p[..3]| == 3;
    }
  }
}
