/** The steps of the file system transactions as functions from disk to disk, and what each
    of them keeps of a well-formed volume. */
module Transactions {
  import opened Bytes
  import opened DirBlock
  import opened Volume
  import opened Paths
  import opened Wrappers

  // ---- the steps ----

  function AllocInode(g: Geometry, d: Disk): (Disk, nat)
    requires GeometryOk(g, d)
  {
    var i := FirstFree(d[g.inodeBitmap], 0);
    if i < BITS_PER_BLOCK then (d[g.inodeBitmap := Mark(d[g.inodeBitmap], i)], i + 1) else (d, 0)
  }

  function AllocBlock(g: Geometry, d: Disk): (Disk, nat)
    requires GeometryOk(g, d)
  {
    var i := FirstFree(d[g.blockBitmap], 0);
    if i < BITS_PER_BLOCK then (d[g.blockBitmap := Mark(d[g.blockBitmap], i)], i + 1) else (d, 0)
  }

  function FreeInode(g: Geometry, d: Disk, n: nat): Disk
    requires GeometryOk(g, d) && 1 <= n <= BITS_PER_BLOCK
  {
    d[g.inodeBitmap := Unmark(d[g.inodeBitmap], n - 1)]
  }

  function FreeBlock(g: Geometry, d: Disk, b: nat): Disk
    requires GeometryOk(g, d) && 1 <= b <= BITS_PER_BLOCK
  {
    d[g.blockBitmap := Unmark(d[g.blockBitmap], b - 1)]
  }

  /** Block numbers that have a bit in the bitmap. */
  predicate Freeable(bs: seq<nat>)
  {
    forall k :: 0 <= k < |bs| ==> 1 <= bs[k] <= BITS_PER_BLOCK
  }

  function FreeBlocks(g: Geometry, d: Disk, bs: seq<nat>): (r: Disk)
    requires GeometryOk(g, d) && Freeable(bs)
    ensures |r| == |d|
    decreases |bs|
  {
    if bs == [] then d else FreeBlocks(g, FreeBlock(g, d, bs[0]), bs[1..])
  }

  /** Linking writes inside the 1024-byte block buffer: there is no slack, or enough of it. */
  predicate RoomFor(b: Block, name: seq<byte>)
    requires Tiled(b, 0)
  {
    Slack(b) == 0 || RecSize(|name|) <= Slack(b)
  }

  predicate HasDirBlock(g: Geometry, d: Disk, n: nat)
  {
    DirBlockNo(g, d, n) < |d| && Tiled(DirData(g, d, n), 0)
  }

  /** Split the last record of directory `p`, or report that its block is full. */
  function LinkEntry(g: Geometry, d: Disk, p: nat, name: seq<byte>, ino: nat, kind: byte): (Disk, bool)
    requires HasDirBlock(g, d, p) && |name| <= MAX_NAME && RoomFor(DirData(g, d, p), name)
  {
    var b := DirData(g, d, p);
    if Slack(b) > 0 then (d[DirBlockNo(g, d, p) := PlaceEntry(b, LastOff(b, 0), name, ino, kind)], true) else (d, false)
  }

  function UnlinkEntry(g: Geometry, d: Disk, p: nat, name: seq<byte>): (Disk, bool)
    requires DirBlockNo(g, d, p) < |d|
  {
    match Unlinked(DirData(g, d, p), None, 0, name)
    case Some(b) => (d[DirBlockNo(g, d, p) := b], true)
    case None => (d, false)
  }

  /** The first block of a new directory: `.` and, up to the end, `..`. */
  function FreshDir(n: nat, p: nat): Block
  {
    Put(Put(ZeroBlock(), 0, EntryBytes(n, 12, FT_DIR, DOT)), 12, EntryBytes(p, BLOCK_SIZE - 12, FT_DIR, DOTDOT))
  }

  lemma FreshDirRecs(n: nat, p: nat)
    requires 0 < n < 0x1_0000_0000 && 0 < p < 0x1_0000_0000
    ensures Tiled(FreshDir(n, p), 0)
    ensures Recs(FreshDir(n, p), 0) == [DirRec(n, 12, FT_DIR, DOT), DirRec(p, BLOCK_SIZE - 12, FT_DIR, DOTDOT)]
  {
    var b1 := Put(ZeroBlock(), 0, EntryBytes(n, 12, FT_DIR, DOT));
    var b := FreshDir(n, p);
    EntryBytesRead(ZeroBlock(), 0, n, 12, FT_DIR, DOT);
    EntryBytesRead(b1, 12, p, BLOCK_SIZE - 12, FT_DIR, DOTDOT);
    hide EntryBytes, EntryIno, EntryLen, EntryKind, EntryName, RecAt;
    RecAtFields(b1, 0);
    SameEntry(b1, b, 0);
    RecAtFields(b, 0);
    RecAtFields(b, 12);
    TwoRecords(b, 0, 12);
  }

  // ---- steps that touch nothing a live inode owns ----

  predicate SameTable(g: Geometry, d: Disk, d': Disk)
    requires GeometryOk(g, d) && |d'| == |d|
  {
    forall k :: g.inodeTable <= k < g.inodeTable + TableBlocks(g) ==> d'[k] == d[k]
  }

  lemma SameTableReads(g: Geometry, d: Disk, d': Disk, n: nat)
    requires GeometryOk(g, d) && |d'| == |d| && SameTable(g, d, d') && 1 <= n <= g.inodeCount
    ensures ReadInode(g, d', n) == ReadInode(g, d, n)
  {
    TableBlockIsMeta(g, n);
  }

  lemma LiveIsMarked(g: Geometry, d: Disk, t: Tree)
    requires WellFormed(g, d, t)
    ensures forall n :: n in t ==> 1 <= n <= g.inodeCount && Marked(d[g.inodeBitmap], n - 1)
  {
    hide NoSharing, BitmapsOk, OwnsData, DirectoryOk, IsNamed, Marked, ReadInode;
    forall n | n in t ensures 1 <= n <= g.inodeCount && Marked(d[g.inodeBitmap], n - 1) {
      assert LiveInode(g, d, n, t[n]);
    }
  }

  /** The block of a live directory is a data block of its own. */
  lemma DirBlockIsData(g: Geometry, d: Disk, t: Tree, n: nat)
    requires WellFormed(g, d, t) && LiveDir(t, n)
    ensures HasDirBlock(g, d, n) && DataBlock(g, d, DirBlockNo(g, d, n))
    ensures 1 <= n <= g.inodeCount
  {
    hide Recs, Tiled, ChainOk, ReadInode, NoSharing, BitmapsOk, IsMeta, Marked, IMode;
    assert OwnsData(g, d, n, t[n]) && LiveInode(g, d, n, t[n]);
    assert OwnedBlocks(g, d, n, t[n].isDir)[0] == DirBlockNo(g, d, n);
    assert DirectoryOk(DirData(g, d, n), t, n);
  }

  /** Changing blocks outside the inode table that no live directory uses leaves the view. */
  lemma SameViewIf(g: Geometry, d: Disk, d': Disk, t: Tree)
    requires WellFormed(g, d, t) && |d'| == |d| && SameTable(g, d, d')
    requires forall n :: LiveDir(t, n) ==>
             DirBlockNo(g, d, n) < |d| && d'[DirBlockNo(g, d, n)] == d[DirBlockNo(g, d, n)]
    ensures SameView(g, d, d', t)
  {
    hide Recs, Tiled, ReadInode, NoSharing, BitmapsOk, IsMeta, Marked, IMode, IsNamed, OwnsData, DirectoryOk;
    forall n | n in t ensures ReadInode(g, d', n) == ReadInode(g, d, n) {
      assert LiveInode(g, d, n, t[n]);
      SameTableReads(g, d, d', n);
    }
    forall n | LiveDir(t, n) ensures DirData(g, d', n) == DirData(g, d, n) {
    }
  }

  lemma AllocInodeKeeps(g: Geometry, d: Disk, t: Tree)
    requires WellFormed(g, d, t)
    ensures var (d', n) := AllocInode(g, d);
            && WellFormed(g, d', t) && SameView(g, d, d', t) && |d'| == |d|
            && (n == 0 ==> d' == d)
            && (n != 0 ==> n !in t && 1 <= n <= g.inodeCount && Marked(d'[g.inodeBitmap], n - 1))
  {
    hide Recs, Tiled, ReadInode, NoSharing, Marked, IMode, IsNamed, DirectoryOk, DirData, DirBlockNo;
    var (d', n) := AllocInode(g, d);
    if n != 0 {
      forall j | 0 <= j < BITS_PER_BLOCK
        ensures Marked(d'[g.inodeBitmap], j) <==> j == n - 1 || Marked(d[g.inodeBitmap], j)
      {
        MarkMarks(d[g.inodeBitmap], n - 1, j);
      }
      LiveIsMarked(g, d, t);
      forall m | LiveDir(t, m) ensures DirBlockNo(g, d, m) < |d| && d'[DirBlockNo(g, d, m)] == d[DirBlockNo(g, d, m)] {
        DirBlockIsData(g, d, t, m);
      }
      SameViewIf(g, d, d', t);
    }
    Unrelated(g, d, d', t);
  }

  lemma AllocBlockKeeps(g: Geometry, d: Disk, t: Tree)
    requires WellFormed(g, d, t)
    ensures var (d', b) := AllocBlock(g, d);
            && WellFormed(g, d', t) && SameView(g, d, d', t) && |d'| == |d|
            && d'[g.inodeBitmap] == d[g.inodeBitmap]
            && (b == 0 ==> d' == d)
            && (b != 0 ==> DataBlock(g, d', b) && !Marked(d[g.blockBitmap], b - 1))
  {
    hide Recs, Tiled, ReadInode, NoSharing, Marked, IMode, IsNamed, DirectoryOk, DirData, DirBlockNo;
    var (d', b) := AllocBlock(g, d);
    if b != 0 {
      forall j | 0 <= j < BITS_PER_BLOCK
        ensures Marked(d'[g.blockBitmap], j) <==> j == b - 1 || Marked(d[g.blockBitmap], j)
      {
        MarkMarks(d[g.blockBitmap], b - 1, j);
      }
      forall m | LiveDir(t, m) ensures DirBlockNo(g, d, m) < |d| && d'[DirBlockNo(g, d, m)] == d[DirBlockNo(g, d, m)] {
        DirBlockIsData(g, d, t, m);
      }
      SameViewIf(g, d, d', t);
    }
    Unrelated(g, d, d', t);
  }

  /** A block that was not marked belongs to no live inode. */
  lemma UnmarkedIsUnowned(g: Geometry, d: Disk, t: Tree, b: nat, n: nat)
    requires WellFormed(g, d, t) && n in t && 1 <= b <= BITS_PER_BLOCK && !Marked(d[g.blockBitmap], b - 1)
    ensures b !in OwnedBlocks(g, d, n, t[n].isDir)
  {
    hide Recs, Tiled, ReadInode, NoSharing, Marked, IMode, IsNamed, DirectoryOk, DirData, DirBlockNo, OwnedBlocks;
    assert OwnsData(g, d, n, t[n]);
    var bs := OwnedBlocks(g, d, n, t[n].isDir);
    forall k | 0 <= k < |bs| ensures bs[k] != b {
      assert DataBlock(g, d, bs[k]);
    }
  }

  lemma WriteInodeKeeps(g: Geometry, d: Disk, t: Tree, n: nat, x: Inode)
    requires WellFormed(g, d, t) && n !in t && 1 <= n <= g.inodeCount
    ensures TableBlock(g, n) < |d|
    ensures var d' := WriteInode(g, d, n, x);
            && WellFormed(g, d', t) && SameView(g, d, d', t) && |d'| == |d|
            && d'[g.inodeBitmap] == d[g.inodeBitmap] && d'[g.blockBitmap] == d[g.blockBitmap]
            && ReadInode(g, d', n) == x
  {
    hide Recs, Tiled, ReadInode, NoSharing, Marked, IMode, IsNamed, DirectoryOk, TableBlock, TableOffset;
    TableBlockIsMeta(g, n);
    var d' := WriteInode(g, d, n, x);
    ReadAfterWrite(g, d, n, x, n);
    forall m | m in t
      ensures ReadInode(g, d', m) == ReadInode(g, d, m)
      ensures t[m].isDir ==> DirData(g, d', m) == DirData(g, d, m)
    {
      assert LiveInode(g, d, m, t[m]);
      ReadAfterWrite(g, d, n, x, m);
      if t[m].isDir { DirBlockIsData(g, d, t, m); }
    }
    Unrelated(g, d, d', t);
  }

  lemma WriteBlockKeeps(g: Geometry, d: Disk, t: Tree, b: nat, v: Block)
    requires WellFormed(g, d, t) && DataBlock(g, d, b)
    requires forall m :: m in t ==> b !in OwnedBlocks(g, d, m, t[m].isDir)
    ensures var d' := d[b := v];
            && WellFormed(g, d', t) && SameView(g, d, d', t) && SameTable(g, d, d')
            && d'[g.inodeBitmap] == d[g.inodeBitmap] && d'[g.blockBitmap] == d[g.blockBitmap]
  {
    hide Recs, Tiled, ReadInode, NoSharing, Marked, IMode, IsNamed, DirectoryOk, DirData, DirBlockNo;
    var d' := d[b := v];
    forall m | LiveDir(t, m) ensures DirBlockNo(g, d, m) < |d| && d'[DirBlockNo(g, d, m)] == d[DirBlockNo(g, d, m)] {
      DirBlockIsData(g, d, t, m);
      assert OwnedBlocks(g, d, m, t[m].isDir)[0] == DirBlockNo(g, d, m);
    }
    SameViewIf(g, d, d', t);
    Unrelated(g, d, d', t);
  }

  // ---- linking ----

  /** Rewriting the block of directory `p` changes no inode and no other directory. */
  lemma RewriteDirBlock(g: Geometry, d: Disk, t: Tree, p: nat, v: Block)
    requires WellFormed(g, d, t) && LiveDir(t, p)
    ensures HasDirBlock(g, d, p) && !IsMeta(g, DirBlockNo(g, d, p))
    ensures var d' := d[DirBlockNo(g, d, p) := v];
            && GeometryOk(g, d') && BitmapsOk(g, d') && SameTable(g, d, d')
            && d'[g.inodeBitmap] == d[g.inodeBitmap] && d'[g.blockBitmap] == d[g.blockBitmap]
            && (forall n :: n in t ==> ReadInode(g, d', n) == ReadInode(g, d, n))
            && (forall n :: n in t ==> OwnedBlocks(g, d', n, t[n].isDir) == OwnedBlocks(g, d, n, t[n].isDir))
            && (forall n :: LiveDir(t, n) ==> DirData(g, d', n) == if n == p then v else DirData(g, d, n))
  {
    hide Recs, Tiled, ReadInode, Marked, IMode, IsNamed, DirectoryOk, IsMeta, NoRepeats, OwnsData, TableBlocks;
    DirBlockIsData(g, d, t, p);
    var k := DirBlockNo(g, d, p);
    var d' := d[k := v];
    assert SameTable(g, d, d') by { DataIsNotTable(g, d, k); }
    forall n | n in t ensures ReadInode(g, d', n) == ReadInode(g, d, n) {
      assert LiveInode(g, d, n, t[n]);
      SameTableReads(g, d, d', n);
    }
    DataIsNotTable(g, d, k);
    forall n | LiveDir(t, n) ensures DirData(g, d', n) == if n == p then v else DirData(g, d, n) {
      DirBlockIsData(g, d, t, n);
      if n != p {
        assert Apart(OwnedBlocks(g, d, n, t[n].isDir), OwnedBlocks(g, d, p, t[p].isDir));
        assert DirBlockNo(g, d, n) in OwnedBlocks(g, d, n, t[n].isDir);
        assert k in OwnedBlocks(g, d, p, t[p].isDir);
      }
    }
  }

  lemma DataIsNotTable(g: Geometry, d: Disk, k: nat)
    requires GeometryOk(g, d) && DataBlock(g, d, k)
    ensures !(g.inodeTable <= k < g.inodeTable + TableBlocks(g)) && k != g.inodeBitmap && k != g.blockBitmap
  {
  }

  lemma LinkedChainOk(rs: seq<DirRec>, t: Tree, p: nat, name: seq<byte>, n: nat, node: Node, kind: byte)
    requires p in t && ChainOk(rs, t, p) && IndexOf(rs, name) == |rs|
    requires n !in t && ROOT in t && node.parent == p && node.depth == t[p].depth + 1
    requires (kind == FT_DIR <==> node.isDir)
    ensures var rs' := Linked(rs, name, n, kind);
            && ChainOk(rs', t[n := node], p)
            && |rs'| == |rs| + 1 && rs'[|rs|].ino == n
            && (forall i :: 0 <= i < |rs| ==> rs'[i].ino == rs[i].ino)
  {
    var rs' := Linked(rs, name, n, kind);
    var t' := t[n := node];
    forall i | 0 <= i < |rs|
      ensures rs'[i].ino == rs[i].ino && rs'[i].name == rs[i].name && rs'[i].kind == rs[i].kind
    {
    }
    forall i | 2 <= i < |rs'| ensures NamesChild(t', p, rs'[i]) {
      if i < |rs| { assert NamesChild(t, p, rs[i]); }
    }
    forall i, j | 2 <= i < j < |rs'| ensures rs'[i].ino != rs'[j].ino {
      assert NamesChild(t, p, rs[i]);
    }
  }

  /** Chains stay as they are when the tree only gains an inode. */
  lemma ChainOkGrows(rs: seq<DirRec>, t: Tree, m: nat, n: nat, node: Node)
    requires m in t && n !in t && ChainOk(rs, t, m)
    ensures ChainOk(rs, t[n := node], m)
  {
    forall i | 2 <= i < |rs| ensures NamesChild(t[n := node], m, rs[i]) {
      assert NamesChild(t, m, rs[i]);
    }
  }

  /** An inode that is ready to become live as `node`: marked, owning blocks of its own, and
      for a directory holding only `.` and `..`. */
  ghost predicate Ready(g: Geometry, d: Disk, t: Tree, n: nat, node: Node)
    requires GeometryOk(g, d)
  {
    && n !in t
    && LiveInode(g, d, n, node)
    && OwnsData(g, d, n, node)
    && NoRepeats(OwnedBlocks(g, d, n, node.isDir))
    && (forall m :: m in t ==> Apart(OwnedBlocks(g, d, n, node.isDir), OwnedBlocks(g, d, m, t[m].isDir)))
    && (node.isDir ==> DirectoryOk(DirData(g, d, n), t[n := node], n))
  }

  /** Facts about the disk after linking, relative to the disk before. */
  ghost predicate LinkedDisk(g: Geometry, d: Disk, d': Disk, t: Tree, p: nat, name: seq<byte>, n: nat,
      node: Node, kind: byte)
    requires GeometryOk(g, d) && LiveDir(t, p)
  {
    && |d'| == |d| && GeometryOk(g, d') && BitmapsOk(g, d')
    && d'[g.inodeBitmap] == d[g.inodeBitmap] && d'[g.blockBitmap] == d[g.blockBitmap]
    && (forall m :: m in t ==> ReadInode(g, d', m) == ReadInode(g, d, m))
    && (forall m :: m in t ==> OwnedBlocks(g, d', m, t[m].isDir) == OwnedBlocks(g, d, m, t[m].isDir))
    && (forall m :: LiveDir(t, m) && m != p ==> DirData(g, d', m) == DirData(g, d, m))
    && ReadInode(g, d', n) == ReadInode(g, d, n)
    && OwnedBlocks(g, d', n, node.isDir) == OwnedBlocks(g, d, n, node.isDir)
    && (node.isDir ==> DirData(g, d', n) == DirData(g, d, n))
    && Tiled(DirData(g, d', p), 0) && DirRecs(g, d, p) != []
    && DirRecs(g, d', p) == Linked(DirRecs(g, d, p), name, n, kind)
  }

  /** What linking does to the disk. */
  lemma LinkRewrites(g: Geometry, d: Disk, t: Tree, p: nat, name: seq<byte>, n: nat, node: Node, kind: byte)
    requires WellFormed(g, d, t) && LiveDir(t, p) && HasDirBlock(g, d, p) && |name| <= MAX_NAME
    requires Ready(g, d, t, n, node)
    requires 0 < Slack(DirData(g, d, p)) && RoomFor(DirData(g, d, p), name)
    ensures var (d', ok) := LinkEntry(g, d, p, name, n, kind);
            ok && LinkedDisk(g, d, d', t, p, name, n, node, kind)
  {
    hide Recs, Tiled, ReadInode, Marked, IMode, IsNamed, DirectoryOk, IsMeta, NoRepeats, PlaceEntry, LastOff;
    hide Linked, FileBlocks;
    var b := DirData(g, d, p);
    PlaceEntryLinks(b, name, n, kind);
    var v := PlaceEntry(b, LastOff(b, 0), name, n, kind);
    RewriteDirBlock(g, d, t, p, v);
    var d' := LinkEntry(g, d, p, name, n, kind).0;
    assert d' == d[DirBlockNo(g, d, p) := v];
    SameTableReads(g, d, d', n);
    if node.isDir {
      assert DirBlockNo(g, d, n) in OwnedBlocks(g, d, n, node.isDir);
      assert Apart(OwnedBlocks(g, d, n, node.isDir), OwnedBlocks(g, d, p, t[p].isDir));
      assert DirBlockNo(g, d, p) in OwnedBlocks(g, d, p, t[p].isDir);
    }
  }

  lemma LinkedOwnership(g: Geometry, d: Disk, d': Disk, t: Tree, p: nat, name: seq<byte>, n: nat, node: Node,
      kind: byte)
    requires WellFormed(g, d, t) && LiveDir(t, p) && Ready(g, d, t, n, node)
    requires LinkedDisk(g, d, d', t, p, name, n, node, kind)
    ensures var t' := t[n := node];
            && NoSharing(g, d', t')
            && (forall m :: m in t' ==> LiveInode(g, d', m, t'[m]) && OwnsData(g, d', m, t'[m]))
  {
    hide Recs, Tiled, ReadInode, Marked, IMode, IsNamed, DirectoryOk, IsMeta, NoRepeats, Linked, OwnedBlocks;
    hide DirData, BitmapsOk;
    var t' := t[n := node];
    forall m | m in t'
      ensures OwnedBlocks(g, d', m, t'[m].isDir) == OwnedBlocks(g, d, m, t'[m].isDir)
      ensures LiveInode(g, d', m, t'[m]) && OwnsData(g, d', m, t'[m])
    {
      assert LiveInode(g, d, m, t'[m]) && OwnsData(g, d, m, t'[m]);
      forall k | 0 <= k < |OwnedBlocks(g, d, m, t'[m].isDir)|
        ensures DataBlock(g, d', OwnedBlocks(g, d, m, t'[m].isDir)[k])
      {
        assert DataBlock(g, d, OwnedBlocks(g, d, m, t'[m].isDir)[k]);
      }
    }
  }

  lemma LinkedDirectory(g: Geometry, d: Disk, d': Disk, t: Tree, p: nat, name: seq<byte>, n: nat, node: Node,
      kind: byte, m: nat)
    requires WellFormed(g, d, t) && LiveDir(t, p) && Ready(g, d, t, n, node)
    requires LinkedDisk(g, d, d', t, p, name, n, node, kind)
    requires LookIn(g, d, p, name).0 == 0
    requires node.parent == p && node.depth == t[p].depth + 1 && (kind == FT_DIR <==> node.isDir)
    requires LiveDir(t[n := node], m)
    ensures DirectoryOk(DirData(g, d', m), t[n := node], m)
  {
    hide Recs, Tiled, ReadInode, Marked, IMode, IsNamed, IsMeta, NoRepeats, Linked, OwnedBlocks, DirData;
    hide BitmapsOk, NoSharing;
    hide OwnsData, LiveInode, IndexOf;
    if m != n {
      assert DirectoryOk(DirData(g, d, m), t, m);
      if m == p {
        NotFound(g, d, t, p, name);
        LinkedChainOk(DirRecs(g, d, p), t, p, name, n, node, kind);
      } else {
        ChainOkGrows(DirRecs(g, d, m), t, m, n, node);
      }
    }
  }

  /** A lookup that answers 0 in a well-formed directory found no such entry. */
  lemma NotFound(g: Geometry, d: Disk, t: Tree, p: nat, name: seq<byte>)
    requires WellFormed(g, d, t) && LiveDir(t, p) && LookIn(g, d, p, name).0 == 0
    ensures IndexOf(DirRecs(g, d, p), name) == |DirRecs(g, d, p)|
  {
    hide Recs, Tiled, ReadInode, Marked, IMode, IsMeta, NoRepeats, OwnedBlocks, DirData, BitmapsOk, NoSharing;
    hide LiveInode, OwnsData;
    var rs := DirRecs(g, d, p);
    var i := IndexOf(rs, name);
    LiveIsMarked(g, d, t);
    assert DirectoryOk(DirData(g, d, p), t, p) && IsNamed(g, d, t, p);
    assert 2 <= i < |rs| ==> NamesChild(t, p, rs[i]);
  }

  lemma LinkedNames(g: Geometry, d: Disk, d': Disk, t: Tree, p: nat, name: seq<byte>, n: nat, node: Node,
      kind: byte, m: nat)
    requires WellFormed(g, d, t) && LiveDir(t, p) && n !in t
    requires LinkedDisk(g, d, d', t, p, name, n, node, kind)
    requires node.parent == p && m in t[n := node]
    ensures IsNamed(g, d', t[n := node], m)
  {
    hide Recs, Tiled, ReadInode, Marked, IMode, IsMeta, NoRepeats, OwnedBlocks, DirData, BitmapsOk, NoSharing;
    hide OwnsData, LiveInode;
    var rs, rs' := DirRecs(g, d, p), DirRecs(g, d', p);
    assert |rs| >= 2 by { assert DirectoryOk(DirData(g, d, p), t, p); }
    hide DirectoryOk, DirRecs, HasEntryFor, Linked, ChainOk;
    LinkedInos(rs, name, n, kind);
    if m != n {
      assert IsNamed(g, d, t, m);
      SameDirRecs(g, d, d', t[m].parent);
    }
  }

  lemma SameDirRecs(g: Geometry, d: Disk, d': Disk, n: nat)
    ensures DirData(g, d', n) == DirData(g, d, n) ==> DirRecs(g, d', n) == DirRecs(g, d, n)
  {
  }

  lemma LinkedInos(rs: seq<DirRec>, name: seq<byte>, n: nat, kind: byte)
    requires |rs| >= 2
    ensures var rs' := Linked(rs, name, n, kind);
            && |rs'| == |rs| + 1 && rs'[|rs|].ino == n
            && (forall i :: 0 <= i < |rs| ==> rs'[i].ino == rs[i].ino)
            && HasEntryFor(rs', n)
            && (forall m :: HasEntryFor(rs, m) ==> HasEntryFor(rs', m))
  {
    var rs' := Linked(rs, name, n, kind);
    assert rs'[|rs|].ino == n;
    forall m | HasEntryFor(rs, m) ensures HasEntryFor(rs', m) {
      var i :| 2 <= i < |rs| && rs[i].ino == m;
      assert rs'[i].ino == m;
    }
  }

  lemma LinkedWellFormed(g: Geometry, d: Disk, d': Disk, t: Tree, p: nat, name: seq<byte>, n: nat, node: Node,
      kind: byte)
    requires WellFormed(g, d, t) && LiveDir(t, p) && Ready(g, d, t, n, node)
    requires LinkedDisk(g, d, d', t, p, name, n, node, kind)
    requires LookIn(g, d, p, name).0 == 0
    requires node.parent == p && node.depth == t[p].depth + 1 && (kind == FT_DIR <==> node.isDir)
    ensures WellFormed(g, d', t[n := node])
  {
    hide DirData, ReadInode, OwnedBlocks, Recs, Tiled, BitmapsOk, Linked, LookIn, GeometryOk;
    hide LiveInode, OwnsData, DirectoryOk, IsNamed, NoSharing, DirRecs;
    assert n !in t && GeometryOk(g, d') && BitmapsOk(g, d');
    hide LinkedDisk, Ready;
    var t' := t[n := node];
    LinkedOwnership(g, d, d', t, p, name, n, node, kind);
    forall m | m in t'
      ensures IsNamed(g, d', t', m)
      ensures t'[m].isDir ==> DirectoryOk(DirData(g, d', m), t', m)
    {
      LinkedNames(g, d, d', t, p, name, n, node, kind, m);
      if t'[m].isDir { LinkedDirectory(g, d, d', t, p, name, n, node, kind, m); }
    }
  }

  /** Linking a ready inode under a free name of a live directory makes it live. */
  lemma LinkKeeps(g: Geometry, d: Disk, t: Tree, p: nat, name: seq<byte>, n: nat, node: Node, kind: byte)
    requires WellFormed(g, d, t) && LiveDir(t, p) && HasDirBlock(g, d, p)
    requires LookIn(g, d, p, name).0 == 0 && |name| <= MAX_NAME
    requires Ready(g, d, t, n, node)
    requires node.parent == p && node.depth == t[p].depth + 1 && (kind == FT_DIR <==> node.isDir)
    requires 0 < Slack(DirData(g, d, p)) && RoomFor(DirData(g, d, p), name)
    ensures var (d', ok) := LinkEntry(g, d, p, name, n, kind);
            ok && |d'| == |d| && WellFormed(g, d', t[n := node])
            && DirRecs(g, d', p) == Linked(DirRecs(g, d, p), name, n, kind)
            && (forall m :: LiveDir(t, m) && m != p ==> DirData(g, d', m) == DirData(g, d, m))
            && ReadInode(g, d', n) == ReadInode(g, d, n)
            && (node.isDir ==> DirData(g, d', n) == DirData(g, d, n))
            && (forall m :: m in t ==> ReadInode(g, d', m) == ReadInode(g, d, m))
            && d'[g.inodeBitmap] == d[g.inodeBitmap] && d'[g.blockBitmap] == d[g.blockBitmap]
  {
    hide DirData, ReadInode, OwnedBlocks, Recs, Tiled, BitmapsOk, Linked, LookIn, GeometryOk, Marked;
    hide WellFormed, Ready, DirRecs, LinkEntry, HasDirBlock, Slack, RoomFor;
    var d' := LinkEntry(g, d, p, name, n, kind).0;
    LinkRewrites(g, d, t, p, name, n, node, kind);
    LinkedWellFormed(g, d, d', t, p, name, n, node, kind);
  }

  // ---- unlinking and freeing ----

  lemma {:induction false} FreeBlocksUnmark(g: Geometry, d: Disk, bs: seq<nat>)
    requires GeometryOk(g, d) && Freeable(bs)
    ensures var d' := FreeBlocks(g, d, bs);
            && (forall k :: 0 <= k < |d| && k != g.blockBitmap ==> d'[k] == d[k])
            && (forall j :: 0 <= j < BITS_PER_BLOCK ==>
                  (Marked(d'[g.blockBitmap], j) <==> Marked(d[g.blockBitmap], j) && j + 1 !in bs))
    decreases |bs|
  {
    hide Marked, Unmark;
    if bs != [] {
      var d1 := FreeBlock(g, d, bs[0]);
      FreeBlocksUnmark(g, d1, bs[1..]);
      var d' := FreeBlocks(g, d, bs);
      assert d' == FreeBlocks(g, d1, bs[1..]);
      forall j | 0 <= j < BITS_PER_BLOCK
        ensures Marked(d'[g.blockBitmap], j) <==> Marked(d[g.blockBitmap], j) && j + 1 !in bs
      {
        MarkMarks(d[g.blockBitmap], bs[0] - 1, j);
        assert j + 1 in bs <==> j + 1 == bs[0] || j + 1 in bs[1..];
      }
    }
  }

  /** The disk after file `n`, named by record `i` of directory `p`, has been removed. */
  ghost predicate RemovedDisk(g: Geometry, d: Disk, d': Disk, t: Tree, p: nat, i: nat, n: nat)
    requires GeometryOk(g, d) && n in t
  {
    && |d'| == |d| && GeometryOk(g, d') && SameTable(g, d, d')
    && (forall j :: 0 <= j < BITS_PER_BLOCK ==>
          (Marked(d'[g.blockBitmap], j) <==> Marked(d[g.blockBitmap], j) && j + 1 !in OwnedBlocks(g, d, n, false)))
    && (forall j :: 0 <= j < BITS_PER_BLOCK ==>
          (Marked(d'[g.inodeBitmap], j) <==> Marked(d[g.inodeBitmap], j) && j != n - 1))
    && (forall m :: m in t ==> ReadInode(g, d', m) == ReadInode(g, d, m))
    && (forall m :: m in t ==> OwnedBlocks(g, d', m, t[m].isDir) == OwnedBlocks(g, d, m, t[m].isDir))
    && (forall m :: LiveDir(t, m) && m != p ==> DirData(g, d', m) == DirData(g, d, m))
    && Tiled(DirData(g, d', p), 0) && 2 <= i < |DirRecs(g, d, p)|
    && DirRecs(g, d', p) == Removed(DirRecs(g, d, p), i)
  }

  /** Directory `p` of tree `t` names file `n` in its record `i`. */
  ghost predicate NamesFile(g: Geometry, d: Disk, t: Tree, p: nat, i: nat, n: nat)
  {
    && LiveDir(t, p) && n in t && !t[n].isDir
    && 2 <= i < |DirRecs(g, d, p)| && DirRecs(g, d, p)[i].ino == n
  }

  lemma RemovedChainOk(rs: seq<DirRec>, t: Tree, p: nat, i: nat, n: nat)
    requires p in t && ChainOk(rs, t, p) && 2 <= i < |rs| && rs[i].ino == n && n in t && n != p
    ensures ChainOk(Removed(rs, i), t - {n}, p)
  {
    var rs' := Removed(rs, i);
    var t' := t - {n};
    forall k | 0 <= k < |rs'|
      ensures var j := if k < i then k else k + 1;
              rs'[k].ino == rs[j].ino && rs'[k].name == rs[j].name && rs'[k].kind == rs[j].kind
    {
    }
    forall k | 2 <= k < |rs'| ensures NamesChild(t', p, rs'[k]) {
      assert NamesChild(t, p, rs[if k < i then k else k + 1]);
    }
  }

  lemma RemovedEntryFor(rs: seq<DirRec>, i: nat, n: nat, m: nat)
    requires 2 <= i < |rs| && rs[i].ino == n && m != n && HasEntryFor(rs, m)
    ensures HasEntryFor(Removed(rs, i), m)
  {
    var j :| 2 <= j < |rs| && rs[j].ino == m;
    assert Removed(rs, i)[if j < i then j else j - 1].ino == m;
  }

  /** Directories other than `p` never named `n`. */
  lemma OtherChainOk(rs: seq<DirRec>, t: Tree, m: nat, n: nat)
    requires m in t && ChainOk(rs, t, m) && n in t && t[n].parent != m && n != m
    ensures ChainOk(rs, t - {n}, m)
  {
    forall k | 2 <= k < |rs| ensures NamesChild(t - {n}, m, rs[k]) {
      assert NamesChild(t, m, rs[k]);
    }
  }

  lemma NamedFileParent(g: Geometry, d: Disk, t: Tree, p: nat, i: nat, n: nat)
    requires WellFormed(g, d, t) && NamesFile(g, d, t, p, i, n)
    ensures n != ROOT && n != p && t[n].parent == p && 1 <= n <= g.inodeCount
  {
    hide DirData, ReadInode, Recs, Tiled, BitmapsOk, GeometryOk, OwnsData, IsNamed, NoSharing;
    assert DirectoryOk(DirData(g, d, p), t, p);
    assert NamesChild(t, p, DirRecs(g, d, p)[i]);
    assert LiveInode(g, d, n, t[n]);
  }

  lemma RemovedOwnership(g: Geometry, d: Disk, d': Disk, t: Tree, p: nat, i: nat, n: nat)
    requires WellFormed(g, d, t) && NamesFile(g, d, t, p, i, n) && RemovedDisk(g, d, d', t, p, i, n)
    ensures BitmapsOk(g, d') && NoSharing(g, d', t - {n})
    ensures forall m :: m in t && m != n ==> LiveInode(g, d', m, t[m]) && OwnsData(g, d', m, t[m])
  {
    hide Recs, Tiled, ReadInode, Marked, IMode, IsNamed, DirectoryOk, IsMeta, NoRepeats, Removed, OwnedBlocks;
    hide DirData, DirRecs;
    NamedFileParent(g, d, t, p, i, n);
    assert BitmapsOk(g, d') by {
      assert OwnsData(g, d, n, t[n]);
      var owned := OwnedBlocks(g, d, n, false);
      forall k | 0 <= k < |owned| ensures owned[k] < |d| && !IsMeta(g, owned[k]) {
        assert DataBlock(g, d, owned[k]);
      }
    }
    forall m | m in t && m != n ensures LiveInode(g, d', m, t[m]) && OwnsData(g, d', m, t[m]) {
      assert LiveInode(g, d, m, t[m]) && OwnsData(g, d, m, t[m]);
      var owned := OwnedBlocks(g, d, m, t[m].isDir);
      forall k | 0 <= k < |owned| ensures DataBlock(g, d', owned[k]) {
        assert DataBlock(g, d, owned[k]);
        assert owned[k] in owned && Apart(owned, OwnedBlocks(g, d, n, t[n].isDir));
        DataIsPositive(g, owned[k]);
      }
    }
  }

  lemma DataIsPositive(g: Geometry, k: nat)
    ensures !IsMeta(g, k) ==> k >= 3
  {
  }

  lemma RemovedDirectory(g: Geometry, d: Disk, d': Disk, t: Tree, p: nat, i: nat, n: nat, m: nat)
    requires WellFormed(g, d, t) && NamesFile(g, d, t, p, i, n) && RemovedDisk(g, d, d', t, p, i, n)
    requires m in t && m != n
    ensures IsNamed(g, d', t - {n}, m)
    ensures t[m].isDir ==> DirectoryOk(DirData(g, d', m), t - {n}, m)
  {
    hide Recs, Tiled, ReadInode, Marked, IMode, IsMeta, NoRepeats, Removed, OwnedBlocks, DirData, ChainOk;
    hide HasEntryFor, BitmapsOk;
    hide GeometryOk, SameTable, NoSharing, LiveInode, OwnsData;
    NamedFileParent(g, d, t, p, i, n);
    if t[m].isDir {
      assert DirectoryOk(DirData(g, d, m), t, m);
      if m == p {
        RemovedChainOk(DirRecs(g, d, p), t, p, i, n);
      } else {
        OtherChainOk(DirRecs(g, d, m), t, m, n);
      }
    }
    assert IsNamed(g, d, t, m);
    if m != ROOT && t[m].parent == p {
      RemovedEntryFor(DirRecs(g, d, p), i, n, m);
    }
    SameDirRecs(g, d, d', t[m].parent);
  }

  /** Removing a file's only entry and its marks leaves a well-formed volume without it. */
  lemma RemovalKeeps(g: Geometry, d: Disk, d': Disk, t: Tree, p: nat, i: nat, n: nat)
    requires WellFormed(g, d, t) && NamesFile(g, d, t, p, i, n) && RemovedDisk(g, d, d', t, p, i, n)
    ensures WellFormed(g, d', t - {n})
  {
    hide DirData, ReadInode, OwnedBlocks, BitmapsOk, GeometryOk, Marked, Tiled, Removed;
    hide LiveInode, OwnsData, DirectoryOk, IsNamed, NoSharing, DirRecs, SameTable;
    assert GeometryOk(g, d') && |d'| == |d|;
    hide RemovedDisk;
    var t' := t - {n};
    NamedFileParent(g, d, t, p, i, n);
    RemovedOwnership(g, d, d', t, p, i, n);
    forall m | m in t'
      ensures LiveInode(g, d', m, t'[m]) && OwnsData(g, d', m, t'[m]) && IsNamed(g, d', t', m)
      ensures t'[m].isDir ==> DirectoryOk(DirData(g, d', m), t', m)
    {
      RemovedDirectory(g, d, d', t, p, i, n, m);
    }
  }

  /** Bytes written by a link past the last record end inside the block exactly when the slack
      can hold the new entry; the code itself only asks for some slack. */
  lemma LinkInBoundsIff(b: Block, name: seq<byte>)
    requires Tiled(b, 0) && 0 < Slack(b)
    ensures var last := LastOff(b, 0);
            last + RecSize(EntryNameLen(b, last)) + 8 + |name| <= BLOCK_SIZE <==> RoomFor(b, name)
  {
    hide Tiled, Recs, EntryIno, EntryName, EntryKind, EntryLen, EntryNameLen;
  }

  /** The slack a link leaves is what it found less what the new entry needs. */
  lemma SlackAfterLink(b: Block, name: seq<byte>, ino: nat, kind: byte)
    requires Tiled(b, 0) && |name| <= MAX_NAME && 0 < ino < 0x1_0000_0000 && RecSize(|name|) <= Slack(b)
    ensures var b' := PlaceEntry(b, LastOff(b, 0), name, ino, kind);
            Tiled(b', 0) && Slack(b') == Slack(b) - RecSize(|name|)
  {
    hide PlaceEntry, EntryLen, EntryNameLen, EntryName, EntryKind, EntryIno, RecAt, Recs, Tiled, LastOff, PrefixTo;
    var b' := PlaceEntry(b, LastOff(b, 0), name, ino, kind);
    PlaceEntryLinks(b, name, ino, kind);
    LastIsReached(b, 0);
    LastIsReached(b', 0);
    RecAtFields(b, LastOff(b, 0));
    RecAtFields(b', LastOff(b', 0));
    var rs, rs' := Recs(b, 0), Recs(b', 0);
    assert rs[|rs| - 1] == RecAt(b, LastOff(b, 0)) && rs'[|rs'| - 1] == RecAt(b', LastOff(b', 0));
  }

  /** Three files with 255-byte names leave a fresh directory 208 bytes of slack: linking a name
      of 201 bytes or more then writes past the block buffer. */
  lemma ShortSlackHappens(n: nat, p: nat, name1: seq<byte>, ino1: nat, name2: seq<byte>, ino2: nat,
                          name3: seq<byte>, ino3: nat, name: seq<byte>)
    requires 0 < n < 0x1_0000_0000 && 0 < p < 0x1_0000_0000
    requires |name1| == |name2| == |name3| == MAX_NAME && 201 <= |name| <= MAX_NAME
    requires 0 < ino1 < 0x1_0000_0000 && 0 < ino2 < 0x1_0000_0000 && 0 < ino3 < 0x1_0000_0000
    ensures var b0 := FreshDir(n, p);
            Tiled(b0, 0) && Slack(b0) == 1000 &&
            var b1 := PlaceEntry(b0, LastOff(b0, 0), name1, ino1, FT_REG_FILE);
            Tiled(b1, 0) && RoomFor(b1, name2) && Slack(b1) > 0 &&
            var b2 := PlaceEntry(b1, LastOff(b1, 0), name2, ino2, FT_REG_FILE);
            Tiled(b2, 0) && RoomFor(b2, name3) && Slack(b2) > 0 &&
            var b3 := PlaceEntry(b2, LastOff(b2, 0), name3, ino3, FT_REG_FILE);
            Tiled(b3, 0) && Slack(b3) == 208 && !RoomFor(b3, name)
  {
    hide PlaceEntry, EntryLen, EntryNameLen, EntryName, EntryKind, EntryIno, RecAt, Recs, Tiled, LastOff;
    hide FreshDir, PrefixTo;
    var b0 := FreshDir(n, p);
    FreshDirSlack(n, p);
    SlackAfterLink(b0, name1, ino1, FT_REG_FILE);
    var b1 := PlaceEntry(b0, LastOff(b0, 0), name1, ino1, FT_REG_FILE);
    SlackAfterLink(b1, name2, ino2, FT_REG_FILE);
    var b2 := PlaceEntry(b1, LastOff(b1, 0), name2, ino2, FT_REG_FILE);
    SlackAfterLink(b2, name3, ino3, FT_REG_FILE);
  }

  /** The slack as the record chain shows it. */
  function SlackIn(rs: seq<DirRec>): int
    requires rs != []
  {
    rs[|rs| - 1].len - RecSize(|rs[|rs| - 1].name|)
  }

  lemma SlackOfRecs(b: Block)
    requires Tiled(b, 0)
    ensures Recs(b, 0) != [] && Slack(b) == SlackIn(Recs(b, 0))
  {
    hide EntryLen, EntryNameLen, EntryName, EntryKind, EntryIno, RecAt, Recs, Tiled, LastOff, PrefixTo;
    LastIsReached(b, 0);
    RecAtFields(b, LastOff(b, 0));
    assert Recs(b, 0)[|Recs(b, 0)| - 1] == RecAt(b, LastOff(b, 0));
  }

  lemma FreshDirSlack(n: nat, p: nat)
    requires 0 < n < 0x1_0000_0000 && 0 < p < 0x1_0000_0000
    ensures Tiled(FreshDir(n, p), 0) && Slack(FreshDir(n, p)) == 1000
  {
    hide EntryLen, EntryNameLen, EntryName, EntryKind, EntryIno, RecAt, Recs, Tiled, LastOff, FreshDir, PrefixTo;
    var b := FreshDir(n, p);
    FreshDirRecs(n, p);
    LastIsReached(b, 0);
    RecAtFields(b, LastOff(b, 0));
    assert Recs(b, 0)[|Recs(b, 0)| - 1] == RecAt(b, LastOff(b, 0));
  }

  /** Unlinking the entry that was linked last restores the whole record chain. */
  lemma RemoveAfterLink(b: Block, name: seq<byte>, ino: nat, kind: byte)
    requires Tiled(b, 0) && IndexOf(Recs(b, 0), name) == |Recs(b, 0)|
    ensures var rs := Recs(b, 0);
            rs != [] &&
            var rs' := Linked(rs, name, ino, kind);
            IndexOf(rs', name) == |rs| && Removed(rs', |rs|) == rs
  {
    hide EntryLen, EntryNameLen, EntryName, EntryKind, EntryIno, RecAt, Recs, Tiled, LastOff, PrefixTo, IndexOf;
    NotEmptyChain(b);
    LastIsReached(b, 0);
    RecAtFields(b, LastOff(b, 0));
    var rs := Recs(b, 0);
    var last := rs[|rs| - 1];
    assert last == RecAt(b, LastOff(b, 0));
    var rs' := Linked(rs, name, ino, kind);
    assert rs'[|rs|].name == name && forall k :: 0 <= k < |rs| ==> rs'[k].name == rs[k].name;
    assert rs'[..|rs| - 1] == rs[..|rs| - 1];
  }

  lemma NotEmptyChain(b: Block)
    requires Tiled(b, 0)
    ensures Recs(b, 0) != []
  {
  }
}
