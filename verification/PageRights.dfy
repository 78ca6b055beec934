/** What the page tables allow: a page may be written when no entry that the walk to it passes lacks the
    write bit. */
module PageRights {
  import opened PageTables
  import opened Wrappers
  import opened Bits
  import opened Arithmetic

  /** The R/W bit. */
  predicate WriteBit(e: nat) { e / 2 % 2 == 1 }

  /** No entry of the walk from table `f` at depth `d` down to depth `n` lacks the write bit. */
  predicate GrantsFrom(m: Ram, f: nat, d: nat, q: seq<nat>, n: nat)
    requires IsPath(q) && d <= n <= 4
    decreases n - d
  {
    d == n || f !in m || |m[f]| != ENTRIES || !Present(m[f][q[d]])
    || (&& WriteBit(m[f][q[d]])
        && (d == 3 || (d > 0 && HugeBit(m[f][q[d]])) || GrantsFrom(m, FrameOf(m[f][q[d]]), d + 1, q, n)))
  }

  /** Nothing on the walk to a page refuses writing: for a page that is mapped, it may be written. */
  predicate MayWrite(m: Ram, root: nat, q: seq<nat>)
    requires IsPath(q)
  {
    GrantsFrom(m, root, 0, q, 4)
  }

  /** Nothing in the tables above a page's own entry refuses writing. */
  predicate TablesMayWrite(m: Ram, root: nat, q: seq<nat>)
    requires IsPath(q)
  {
    GrantsFrom(m, root, 0, q, 3)
  }

  /** The same rights everywhere. */
  ghost predicate SameRights(m: Ram, m': Ram, root: nat)
  {
    forall q :: IsPath(q) ==>
      MayWrite(m', root, q) == MayWrite(m, root, q) && TablesMayWrite(m', root, q) == TablesMayWrite(m, root, q)
  }

  /** A stored word is a frame with the present and write bits, for the kernel alone. */
  lemma EntryGrants(f: nat)
    requires f < ADDRESS_LIMIT && f % PAGE_SIZE == 0
    ensures TableEntry(f) == f + 3 && TableEntry(f) % PAGE_SIZE == 3
    ensures Present(TableEntry(f)) && WriteBit(TableEntry(f))
  {
    TableEntryFields(f);
    assert f == f / PAGE_SIZE * PAGE_SIZE;
  }

  /** The fields of an entry: bits 0, 1 and 7, and bits 12 to 47. */
  lemma EntryFields(e: nat)
    ensures Present(e) <==> BitAt(e, 0)
    ensures WriteBit(e) <==> BitAt(e, 1)
    ensures HugeBit(e) <==> BitAt(e, 7)
    ensures FrameOf(e) == e % ADDRESS_LIMIT - e % PAGE_SIZE
  {
    BitIs(e, 0);
    BitIs(e, 1);
    BitIs(e, 7);
    PowersHere();
    FrameBits(e);
  }

  lemma {:induction false} BitIs(e: nat, k: nat)
    ensures Pow2(k) > 0 && (BitAt(e, k) <==> e / Pow2(k) % 2 == 1)
    decreases k
  {
    if k > 0 {
      BitIs(e / 2, k - 1);
      HalfOf(e, Pow2(k - 1));
    }
  }

  lemma HalfOf(e: nat, p: nat)
    requires p > 0
    ensures e / 2 / p == e / (2 * p)
  {
    var q := e / (2 * p);
    assert e == q * (2 * p) + e % (2 * p);
    assert q * (2 * p) == 2 * (q * p);
    assert e / 2 == q * p + e % (2 * p) / 2;
    assert e % (2 * p) / 2 < p;
    QuotientOf(e / 2, p, q, e % (2 * p) / 2);
  }

  lemma QuotientOf(n: nat, p: nat, q: nat, r: nat)
    requires n == q * p + r && r < p
    ensures n / p == q
  {
    var d := n / p;
    assert n == d * p + n % p;
    if d < q {
      MulMono(d + 1, q, p);
    } else if d > q {
      MulMono(q + 1, d, p);
    }
  }

  lemma PowersHere()
    ensures Pow2(0) == 1 && Pow2(1) == 2 && Pow2(7) == 128
  {
  }

  lemma FrameBits(e: nat)
    ensures FrameOf(e) == e % ADDRESS_LIMIT - e % PAGE_SIZE
  {
    var k := e / PAGE_SIZE;
    var h := k / 0x10_0000_0000;
    assert e == k * PAGE_SIZE + e % PAGE_SIZE && k == h * 0x10_0000_0000 + k % 0x10_0000_0000;
  }

  function Word(m: Ram, f: nat, i: nat): nat
  {
    if f in m && i < |m[f]| then m[f][i] else 0
  }

  /** The first `d` entries of a walk through tables have the write bit. */
  predicate PathGrants(m: Ram, root: nat, p: seq<nat>)
    decreases |p|
  {
    p == [] || (&& PathGrants(m, root, p[..|p| - 1]) && Table(m, root, p[..|p| - 1]).Some?
                && WriteBit(Word(m, Table(m, root, p[..|p| - 1]).value, p[|p| - 1])))
  }

  /** The rights of a walk are those of the tables passed and those of the rest. */
  lemma {:induction false} GrantsOnPath(m: Ram, root: nat, q: seq<nat>, d: nat, n: nat)
    requires IsPath(q) && d <= 3 && d <= n <= 4 && Table(m, root, q[..d]).Some?
    requires forall f :: f in m ==> |m[f]| == ENTRIES
    ensures GrantsFrom(m, root, 0, q, n)
            <==> PathGrants(m, root, q[..d]) && GrantsFrom(m, Table(m, root, q[..d]).value, d, q, n)
    decreases d
  {
    if d > 0 {
      assert q[..d][..d - 1] == q[..d - 1];
      GrantsOnPath(m, root, q, d - 1, n);
    }
  }

  // ---- storing one entry ----

  lemma {:induction false} StoreKeepsRights(m: Ram, root: nat, p: seq<nat>, f: nat, i: nat, e: nat, q: seq<nat>,
      d: nat, g: nat, n: nat)
    requires Tree(m, root) && IsTablePath(p) && Table(m, root, p) == Some(f) && i < ENTRIES && f in m
    requires IsPath(q) && d <= 3 && d <= n <= 4 && Table(m, root, q[..d]) == Some(g) && !(p + [i] <= q)
    ensures GrantsFrom(Store(m, f, i, e), g, d, q, n) == GrantsFrom(m, g, d, q, n)
    decreases 4 - d
  {
    hide Tree, Table;
    WholeFrames(m, root);
    assert q[..d + 1] == q[..d] + [q[d]];
    if g == f {
      TableUnique(m, root, p, q[..d]);
      assert q[d] != i;
    }
    TableExtends(m, root, q[..d], q[d]);
    if d < 3 && d < n && g in m && Present(m[g][q[d]]) && !(d > 0 && HugeBit(m[g][q[d]])) {
      StoreKeepsRights(m, root, p, f, i, e, q, d + 1, FrameOf(m[g][q[d]]), n);
    }
  }

  lemma {:induction false} OtherFrameRights(m: Ram, root: nat, z: nat, content: seq<nat>, q: seq<nat>, d: nat, g: nat,
      n: nat)
    requires NotTable(m, root, z) && IsPath(q) && d <= 3 && d <= n <= 4 && Table(m, root, q[..d]) == Some(g)
    requires forall f :: f in m ==> |m[f]| == ENTRIES
    ensures GrantsFrom(m[z := content], g, d, q, n) == GrantsFrom(m, g, d, q, n)
    decreases 4 - d
  {
    assert q[..d + 1] == q[..d] + [q[d]];
    TableExtends(m, root, q[..d], q[d]);
    if d < 3 && d < n && g in m && Present(m[g][q[d]]) && !(d > 0 && HugeBit(m[g][q[d]])) {
      OtherFrameRights(m, root, z, content, q, d + 1, FrameOf(m[g][q[d]]), n);
    }
  }

  /** Contents of a frame that is no table do not matter. */
  lemma FrameKeepsRights(m: Ram, root: nat, z: nat, content: seq<nat>)
    requires Tree(m, root) && NotTable(m, root, z)
    ensures SameRights(m, m[z := content], root)
  {
    hide Tree, NotTable, Table, GrantsFrom;
    WholeFrames(m, root);
    RootTable(m, root);
    forall q | IsPath(q)
      ensures MayWrite(m[z := content], root, q) == MayWrite(m, root, q)
      ensures TablesMayWrite(m[z := content], root, q) == TablesMayWrite(m, root, q)
    {
      assert q[..0] == [];
      OtherFrameRights(m, root, z, content, q, 0, root, 4);
      OtherFrameRights(m, root, z, content, q, 0, root, 3);
    }
  }

  /** A path that does not pass the stored entry keeps its rights. */
  lemma {:induction false} StoreKeepsPath(m: Ram, root: nat, p: seq<nat>, f: nat, i: nat, e: nat, q: seq<nat>)
    requires Tree(m, root) && IsTablePath(p) && Table(m, root, p) == Some(f) && i < ENTRIES && f in m
    requires IsTablePath(q) && !(p + [i] <= q)
    ensures PathGrants(Store(m, f, i, e), root, q) == PathGrants(m, root, q)
    decreases |q|
  {
    hide Tree, Table;
    WholeFrames(m, root);
    if q != [] {
      var q', j := q[..|q| - 1], q[|q| - 1];
      assert q == q' + [j];
      StoreKeepsPath(m, root, p, f, i, e, q');
      StoreKeepsTable(m, root, p, f, i, e, q');
      if Table(m, root, q') == Some(f) {
        TableUnique(m, root, p, q');
        assert j != i;
      }
    }
  }

  lemma {:induction false} FrameKeepsPath(m: Ram, root: nat, z: nat, content: seq<nat>, q: seq<nat>)
    requires Tree(m, root) && NotTable(m, root, z) && IsTablePath(q)
    ensures PathGrants(m[z := content], root, q) == PathGrants(m, root, q)
    decreases |q|
  {
    hide Tree, Table;
    if q != [] {
      var q' := q[..|q| - 1];
      FrameKeepsPath(m, root, z, content, q');
      OtherFrameTable(m, root, z, content, q');
    }
  }

  /** A new table takes no right away and gives none. */
  lemma InstallKeepsRights(m: Ram, root: nat, p: seq<nat>, f: nat, i: nat, z: nat, q: seq<nat>, n: nat)
    requires Tree(m, root) && IsTablePath(p + [i]) && Table(m, root, p) == Some(f) && f in m && !Present(m[f][i])
    requires IsFrame(z) && z != f && NotTable(m, root, z) && IsPath(q) && 3 <= n <= 4
    ensures GrantsFrom(Install(m, f, i, z), root, 0, q, n) == GrantsFrom(m, root, 0, q, n)
  {
    hide Table, IsTablePath, GrantsFrom, Tree, NotTable;
    PathEnd(p, i);
    var m1 := m[z := ZeroFrame()];
    OtherFrameTree(m, root, z, ZeroFrame());
    if p + [i] <= q {
      InstallGrantsOnPath(m, root, p, f, i, z, q, n);
    } else {
      WholeFrames(m, root);
      RootTable(m, root);
      RootTable(m1, root);
      assert q[..0] == [];
      OtherFrameRights(m, root, z, ZeroFrame(), q, 0, root, n);
      StoreKeepsRights(m1, root, p, f, i, TableEntry(z), q, 0, root, n);
    }
  }

  lemma InstallGrantsOnPath(m: Ram, root: nat, p: seq<nat>, f: nat, i: nat, z: nat, q: seq<nat>, n: nat)
    requires Tree(m, root) && IsTablePath(p + [i]) && Table(m, root, p) == Some(f) && f in m && !Present(m[f][i])
    requires i < ENTRIES && |p| < 3 && IsFrame(z) && z != f && NotTable(m, root, z) && IsPath(q) && p + [i] <= q
    requires 3 <= n <= 4 && IsTablePath(p)
    ensures GrantsFrom(Install(m, f, i, z), root, 0, q, n) == GrantsFrom(m, root, 0, q, n)
  {
    hide Table, IsTablePath, Tree, NotTable;
    WholeFrames(m, root);
    var m1, m2 := m[z := ZeroFrame()], Install(m, f, i, z);
    assert q[..|p|] == p && q[..|p| + 1] == p + [i] && q[|p|] == i;
    InstallKeepsTree(m, root, p, f, i, z);
    WholeFrames(m2, root);
    GrantsOnPath(m, root, q, |p|, n);
    GrantsOnPath(m2, root, q, |p| + 1, n);
    assert !Present(0);
    OtherFrameTree(m, root, z, ZeroFrame());
    FrameKeepsPath(m, root, z, ZeroFrame(), p);
    StoreKeepsPath(m1, root, p, f, i, TableEntry(z), p);
    StoreKeepsTable(m1, root, p, f, i, TableEntry(z), p);
    EntryGrants(z);
    assert (p + [i])[..|p|] == p;
  }

  lemma NewTableRights(m: Ram, root: nat, p: seq<nat>, f: nat, i: nat, z: nat)
    requires Tree(m, root) && IsTablePath(p + [i]) && Table(m, root, p) == Some(f) && f in m && !Present(m[f][i])
    requires IsFrame(z) && z != f && NotTable(m, root, z)
    ensures SameRights(m, Install(m, f, i, z), root)
  {
    hide Table, IsTablePath, GrantsFrom, Tree, NotTable;
    PathEnd(p, i);
    WholeFrames(m, root);
    forall q | IsPath(q)
      ensures MayWrite(Install(m, f, i, z), root, q) == MayWrite(m, root, q)
      ensures TablesMayWrite(Install(m, f, i, z), root, q) == TablesMayWrite(m, root, q)
    {
      InstallKeepsRights(m, root, p, f, i, z, q, 4);
      InstallKeepsRights(m, root, p, f, i, z, q, 3);
    }
  }

  lemma RightsThen(m: Ram, m': Ram, m'': Ram, root: nat)
    requires SameRights(m, m', root) && SameRights(m', m'', root)
    ensures SameRights(m, m'', root)
  {
    hide MayWrite, TablesMayWrite;
  }

  lemma RightsSame(m: Ram, root: nat)
    ensures SameRights(m, m, root)
  {
  }

  /** Writing a page's own entry grants that page what the tables above it grant, and no other page more or less. */
  lemma MapLeafRights(m: Ram, root: nat, p: seq<nat>, f: nat, frame: nat, q: seq<nat>)
    requires Tree(m, root) && IsPath(p) && Table(m, root, p[..3]) == Some(f) && f in m
    requires frame < ADDRESS_LIMIT && frame % PAGE_SIZE == 0 && IsPath(q)
    ensures |m[f]| == ENTRIES
    ensures var m2 := Store(m, f, p[3], TableEntry(frame));
            && TablesMayWrite(m2, root, q) == TablesMayWrite(m, root, q)
            && MayWrite(m2, root, q) == if q == p then TablesMayWrite(m, root, q) else MayWrite(m, root, q)
  {
    hide Table, Tree;
    WholeFrames(m, root);
    var m2 := Store(m, f, p[3], TableEntry(frame));
    assert p[..3] + [p[3]] == p;
    if q == p {
      StoreKeepsPath(m, root, p[..3], f, p[3], TableEntry(frame), p[..3]);
      StoreKeepsTable(m, root, p[..3], f, p[3], TableEntry(frame), p[..3]);
      GrantsOnPath(m, root, p, 3, 3);
      GrantsOnPath(m2, root, p, 3, 3);
      GrantsOnPath(m2, root, p, 3, 4);
      EntryGrants(frame);
    } else {
      RootTable(m, root);
      assert q[..0] == [];
      StoreKeepsRights(m, root, p[..3], f, p[3], TableEntry(frame), q, 0, root, 3);
      StoreKeepsRights(m, root, p[..3], f, p[3], TableEntry(frame), q, 0, root, 4);
    }
  }

  /** A page that is not mapped is refused nothing by an entry of its own. */
  lemma {:induction false} UnmappedRights(m: Ram, f: nat, d: nat, q: seq<nat>)
    requires IsPath(q) && d <= 3 && LeafFrom(m, f, d, q) == Unmapped
    ensures GrantsFrom(m, f, d, q, 4) == GrantsFrom(m, f, d, q, 3)
    decreases 3 - d
  {
    if d < 3 && f in m && |m[f]| == ENTRIES && Present(m[f][q[d]]) && !(d > 0 && HugeBit(m[f][q[d]])) {
      UnmappedRights(m, FrameOf(m[f][q[d]]), d + 1, q);
    }
  }
}
