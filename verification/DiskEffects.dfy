/** What each transaction writes, block by block: which bits of the bitmaps change, which blocks are rewritten,
    and that no file's contents are touched. */
module DiskEffects {
  import opened Bytes
  import opened DirBlock
  import opened Volume
  import opened Paths
  import opened Transactions
  import opened FileSystem

  /** Outside `written` the two disks hold the same. */
  ghost predicate WritesOnly(d: Disk, d': Disk, written: set<nat>)
  {
    |d'| == |d| && forall k :: 0 <= k < |d| && k !in written ==> d'[k] == d[k]
  }

  // ---- a file's blocks ----

  /** Block `b` is in one of the twelve direct pointers, before the first zero one. */
  predicate PointsTo(x: Inode, b: nat)
  {
    exists k :: 0 <= k < 12 && IBlock(x, k) == b && forall i :: 0 <= i <= k ==> IBlock(x, i) != 0
  }

  lemma {:induction false} FileBlocksFrom(x: Inode, k: nat, b: nat)
    requires k <= 12 && forall i :: 0 <= i < k ==> IBlock(x, i) != 0
    ensures b in FileBlocks(x, k)
            <==> exists j :: k <= j < 12 && IBlock(x, j) == b && forall i :: 0 <= i <= j ==> IBlock(x, i) != 0
    decreases 12 - k
  {
    hide IBlock;
    if k < 12 && IBlock(x, k) != 0 { FileBlocksFrom(x, k + 1, b); }
  }

  lemma FileBlocksAre(x: Inode, b: nat)
    ensures b in FileBlocks(x, 0) <==> PointsTo(x, b)
  {
    hide IBlock;
    FileBlocksFrom(x, 0, b);
  }

  lemma NothingWritten(d: Disk)
    ensures WritesOnly(d, d, {})
  {
  }

  // ---- rm ----

  /** A successful rm clears the marks of exactly the file's blocks and of its inode, and rewrites the block of
      the directory that named it; nothing else on the disk changes. */
  lemma RmWrites(g: Geometry, s: State, path: seq<byte>)
    requires Valid(g, s) && Rm(g, s, path).1
    ensures GeometryOk(g, s.disk)
    ensures var d, d' := s.disk, Rm(g, s, path).0.disk;
            var w := Resolve(g, s, path);
            && WritesOnly(d, d', {g.blockBitmap, g.inodeBitmap, DirBlockNo(g, d, w.parent)})
            && (forall j :: 0 <= j < BITS_PER_BLOCK ==>
                  (Marked(d'[g.blockBitmap], j)
                   <==> Marked(d[g.blockBitmap], j) && !PointsTo(ReadInode(g, d, w.ino), j + 1)))
            && (forall j :: 0 <= j < BITS_PER_BLOCK ==>
                  (Marked(d'[g.inodeBitmap], j) <==> Marked(d[g.inodeBitmap], j) && j + 1 != w.ino))
  {
    hide WellFormed, ReadInode, FileBlocks, FreeBlocks, Marked, IsMeta, Tiled, Recs, Unmark, IndexOf, Removed, PointsTo;
    hide DirectoryOk, Traverse, DirData, DirRecs, LooksChanged, BitmapsOk, LookIn, DirBlockNo, IsDirMode, IMode;
    var w := Resolve(g, s, path);
    GeometryOf(g, s.disk, s.tree);
    RmEffect(g, s, path);
    assert 0 !in s.tree by { LiveIsMarked(g, s.disk, s.tree); }
    LiveFile(g, s.disk, s.tree, w.ino);
    RmDisk(g, s.disk, s.tree, w.parent, w.name, w.ino);
    var x := ReadInode(g, s.disk, w.ino);
    FreeBlocksUnmark(g, s.disk, FileBlocks(x, 0));
    DirSurvivesFreeing(g, s.disk, s.tree, w.parent, w.ino);
    forall b: nat ensures b in FileBlocks(x, 0) <==> PointsTo(x, b) { FileBlocksAre(x, b); }
    forall j | 0 <= j < BITS_PER_BLOCK
      ensures Marked(Unmark(s.disk[g.inodeBitmap], w.ino - 1), j)
              <==> Marked(s.disk[g.inodeBitmap], j) && j + 1 != w.ino
    {
      MarkMarks(s.disk[g.inodeBitmap], w.ino - 1, j);
    }
  }

  /** The next block allocated after an rm is the first that was free before or belonged to the file. */
  lemma FreedBlocksReturn(g: Geometry, s: State, path: seq<byte>)
    requires Valid(g, s) && Rm(g, s, path).1
    ensures GeometryOk(g, s.disk) && GeometryOk(g, Rm(g, s, path).0.disk)
    ensures var x := ReadInode(g, s.disk, Resolve(g, s, path).ino);
            var b := AllocBlock(g, Rm(g, s, path).0.disk).1;
            && (b != 0 ==> !Marked(s.disk[g.blockBitmap], b - 1) || PointsTo(x, b))
            && (forall c :: 1 <= c <= BITS_PER_BLOCK && (b == 0 || c < b) ==>
                  Marked(s.disk[g.blockBitmap], c - 1) && !PointsTo(x, c))
  {
    hide WellFormed, Rm, ReadInode, Marked, PointsTo, Traverse, DirBlockNo;
    RmEffect(g, s, path);
    RmWrites(g, s, path);
    GeometryOf(g, Rm(g, s, path).0.disk, Rm(g, s, path).0.tree);
  }

  // ---- mkdir and touch ----

  /** The bytes of a new directory: `.` for itself in twelve bytes and `..` for its parent in the rest. */
  lemma FreshDirBytes(n: nat, p: nat)
    requires n < 0x1_0000_0000 && p < 0x1_0000_0000
    ensures var b := FreshDir(n, p);
            && Le32(b, 0) == n && Le16(b, 4) == 12 && b[6] == 1 && b[7] == 2 && b[8] == 46
            && Le32(b, 12) == p && Le16(b, 16) == 1012 && b[18] == 2 && b[19] == 2 && b[20] == 46 && b[21] == 46
            && forall k :: 22 <= k < 1024 || 9 <= k < 12 ==> b[k] == 0
  {
    hide Bytes32, Bytes16, Put;
    FreshDirParts(n, p);
    Put32Reads(ZeroBlock(), 0, n);
    Put32Reads(ZeroBlock(), 12, p);
    Put16Reads(ZeroBlock(), 4, 12);
    Put16Reads(ZeroBlock(), 16, 1012);
  }

  lemma FreshDirParts(n: nat, p: nat)
    ensures var b := FreshDir(n, p);
            && Le32(b, 0) == Le32(Put(ZeroBlock(), 0, Bytes32(n)), 0)
            && Le32(b, 12) == Le32(Put(ZeroBlock(), 12, Bytes32(p)), 12)
            && Le16(b, 4) == Le16(Put(ZeroBlock(), 4, Bytes16(12)), 4)
            && Le16(b, 16) == Le16(Put(ZeroBlock(), 16, Bytes16(1012)), 16)
            && b[6] == 1 && b[7] == 2 && b[8] == 46 && b[18] == 2 && b[19] == 2 && b[20] == 46 && b[21] == 46
            && forall k :: 22 <= k < 1024 || 9 <= k < 12 ==> b[k] == 0
  {
    hide Bytes32, Bytes16;
    var v, w := EntryBytes(n, 12, FT_DIR, DOT), EntryBytes(p, BLOCK_SIZE - 12, FT_DIR, DOTDOT);
    assert v[..4] == Bytes32(n) && v[4..6] == Bytes16(12) && v[6] == 1 && v[7] == 2 && v[8] == 46 && |v| == 9;
    assert w[..4] == Bytes32(p) && w[4..6] == Bytes16(1012) && w[6] == 2 && w[7] == 2 && |w| == 10;
    assert w[8] == 46 && w[9] == 46;
  }

  /** What an attempt to make a directory in `p` leaves: the first free inode and block are marked, and unless one is
      missing the inode and the block of the new directory are written; linked or not. */
  ghost predicate DirWritten(g: Geometry, d: Disk, d': Disk, p: nat, linked: bool)
    requires GeometryOk(g, d)
  {
    var i, j := FirstFree(d[g.inodeBitmap], 0), FirstFree(d[g.blockBitmap], 0);
    var hasBlock := i < BITS_PER_BLOCK && j < BITS_PER_BLOCK;
    && GeometryOk(g, d')
    && d'[g.inodeBitmap] == (if i < BITS_PER_BLOCK then Mark(d[g.inodeBitmap], i) else d[g.inodeBitmap])
    && d'[g.blockBitmap] == (if hasBlock then Mark(d[g.blockBitmap], j) else d[g.blockBitmap])
    && WritesOnly(d, d', {g.inodeBitmap, g.blockBitmap} + (if hasBlock then {TableBlock(g, i + 1), j + 1} else {})
                         + (if linked then {DirBlockNo(g, d, p)} else {}))
    && (hasBlock ==> && 1 <= i + 1 <= g.inodeCount && j + 1 < |d| && d'[j + 1] == FreshDir(i + 1, p)
                     && ReadInode(g, d', i + 1) == NewInode(0x41ED, 1024, 2, 2, j + 1))
  }

  /** The same of a file, which needs no block. */
  ghost predicate FileWritten(g: Geometry, d: Disk, d': Disk, p: nat, linked: bool)
    requires GeometryOk(g, d)
  {
    var i := FirstFree(d[g.inodeBitmap], 0);
    && GeometryOk(g, d')
    && d'[g.inodeBitmap] == (if i < BITS_PER_BLOCK then Mark(d[g.inodeBitmap], i) else d[g.inodeBitmap])
    && WritesOnly(d, d', {g.inodeBitmap} + (if i < BITS_PER_BLOCK then {TableBlock(g, i + 1)} else {})
                         + (if linked then {DirBlockNo(g, d, p)} else {}))
    && (i < BITS_PER_BLOCK ==> 1 <= i + 1 <= g.inodeCount && ReadInode(g, d', i + 1) == NewInode(0x81A4, 0, 0, 1, 0))
  }

  lemma PreparedDirDisk(g: Geometry, d: Disk, t: Tree, p: nat)
    requires WellFormed(g, d, t)
    ensures GeometryOk(g, d)
    ensures var (d', n) := PrepareDir(g, d, t, p);
            var i, j := FirstFree(d[g.inodeBitmap], 0), FirstFree(d[g.blockBitmap], 0);
            && n == (if i < BITS_PER_BLOCK && j < BITS_PER_BLOCK then i + 1 else 0)
            && DirWritten(g, d, d', p, false)
  {
    hide WellFormed, ReadInode, SameView, Marked, WriteInode, NewInode, Mark, FirstFree, IsMeta, FreshDir, TableBlocks;
    hide TableBlock;
    GeometryOf(g, d, t);
    var (d1, n) := AllocInode(g, d);
    var i, j := FirstFree(d[g.inodeBitmap], 0), FirstFree(d[g.blockBitmap], 0);
    AllocInodeKeeps(g, d, t);
    if n == 0 {
      PrepareDirSteps(g, d, t, p, d1, n, d1, 0);
    } else {
      GeometryOf(g, d1, t);
      AllocBlockKeeps(g, d1, t);
      var (d2, b) := AllocBlock(g, d1);
      PrepareDirSteps(g, d, t, p, d1, n, d2, b);
      if b != 0 {
        GeometryOf(g, d2, t);
        PrepareDirWrites(g, d, t, p);
        WriteInodeWrites(g, d2, n, NewInode(DIR_MODE, BLOCK_SIZE, 2, 2, b));
        DataIsNotTable(g, d2, b);
        FreshIsUnmarked(d[g.blockBitmap]);
      }
    }
  }

  lemma FreshIsUnmarked(bm: Block)
    ensures var j := FirstFree(bm, 0); j < BITS_PER_BLOCK ==> !Marked(bm, j)
  {
  }

  lemma WriteInodeWrites(g: Geometry, d: Disk, n: nat, x: Inode)
    requires 1 <= n && TableBlock(g, n) < |d|
    ensures WritesOnly(d, WriteInode(g, d, n, x), {TableBlock(g, n)})
  {
    hide TableBlock, TableOffset;
  }

  /** Linking rewrites a live directory's block: neither a bitmap nor an inode nor the new block. */
  lemma LinkLeaves(g: Geometry, d: Disk, d': Disk, d2: Disk, t: Tree, p: nat)
    requires WellFormed(g, d, t) && LiveDir(t, p) && |d'| == |d|
    requires GeometryOk(g, d) && DirBlockNo(g, d, p) < |d| && WritesOnly(d', d2, {DirBlockNo(g, d, p)})
    ensures DirWritten(g, d, d', p, false) ==> DirWritten(g, d, d2, p, true)
    ensures FileWritten(g, d, d', p, false) ==> FileWritten(g, d, d2, p, true)
  {
    hide WellFormed, ReadInode, Marked, IsMeta, TableBlocks, DirBlockNo, FreshDir, NewInode, TableBlock, Mark;
    GeometryOf(g, d, t);
    DirBlockIsData(g, d, t, p);
    DataIsNotTable(g, d, DirBlockNo(g, d, p));
    FreshIsUnmarked(d[g.blockBitmap]);
    var n := FirstFree(d[g.inodeBitmap], 0) + 1;
    if DirWritten(g, d, d', p, false) || FileWritten(g, d, d', p, false) {
      if n <= g.inodeCount { SameTableReads(g, d', d2, n); }
    }
  }

  /** What mkdir leaves on the disk, a creation that fails half-way included: the marks it has set stay. */
  lemma MkdirWrites(g: Geometry, s: State, path: seq<byte>)
    requires Valid(g, s) && RoomToCreate(g, s, path)
    ensures GeometryOk(g, s.disk)
    ensures var (s', ok) := Mkdir(g, s, path);
            var w := Resolve(g, s, path);
            if w.ino != 0 || w.parent == 0 then s' == s && !ok else DirWritten(g, s.disk, s'.disk, w.parent, ok)
  {
    hide WellFormed, ReadInode, DirData, Slack, LookIn, RoomFor, Tiled, Traverse, IsMeta, RoomToCreate;
    hide FirstFree, Marked, Mkdir, PrepareDir, Ready, LinkEntry, DirBlockNo, WritesOnly, SameView, DirWritten;
    hide FileWritten;
    var d, w := s.disk, Resolve(g, s, path);
    GeometryOf(g, d, s.tree);
    TraverseIsLive(g, s, path);
    if w.ino == 0 && w.parent != 0 {
      var (d', n) := PrepareDir(g, d, s.tree, w.parent);
      MkdirCases(g, s, path, d', n);
      PreparedDirDisk(g, d, s.tree, w.parent);
      PrepareDirIsReady(g, d, s.tree, w.parent);
      if n != 0 {
        DirBlockIsData(g, d, s.tree, w.parent);
        LinkOutcome(g, d, d', s.tree, w.parent, w.name, n, FT_DIR);
      }
    } else {
      MkdirCases(g, s, path, d, 0);
    }
  }

  lemma LinkOutcome(g: Geometry, d: Disk, d': Disk, t: Tree, p: nat, name: seq<byte>, ino: nat, kind: byte)
    requires WellFormed(g, d, t) && LiveDir(t, p) && |d'| == |d| && SameView(g, d, d', t)
    requires HasDirBlock(g, d', p) && |name| <= MAX_NAME && RoomFor(DirData(g, d', p), name)
    ensures GeometryOk(g, d)
    ensures var (d2, ok) := LinkEntry(g, d', p, name, ino, kind);
            && (DirWritten(g, d, d', p, false) ==> DirWritten(g, d, d2, p, ok))
            && (FileWritten(g, d, d', p, false) ==> FileWritten(g, d, d2, p, ok))
  {
    hide WellFormed, ReadInode, DirData, Slack, RoomFor, Tiled, IsMeta, Marked, LinkEntry, DirBlockNo, WritesOnly;
    hide SameView, DirWritten, FileWritten, HasDirBlock;
    GeometryOf(g, d, t);
    DirBlockIsData(g, d, t, p);
    DirBlockHere(g, d, p);
    SameDirNumber(g, d, d', t, p);
    LinkWrites(g, d', p, name, ino, kind);
    LinkEntryOutcome(g, d', p, name, ino, kind);
    var (d2, ok) := LinkEntry(g, d', p, name, ino, kind);
    if ok { LinkLeaves(g, d, d', d2, t, p); }
  }

  lemma DirBlockHere(g: Geometry, d: Disk, p: nat)
    requires HasDirBlock(g, d, p)
    ensures DirBlockNo(g, d, p) < |d|
  {
  }

  /** What preparing a file leaves. */
  lemma PreparedFileDisk(g: Geometry, d: Disk, t: Tree, p: nat)
    requires WellFormed(g, d, t)
    ensures GeometryOk(g, d)
    ensures var (d', n) := PrepareFile(g, d, t);
            var i := FirstFree(d[g.inodeBitmap], 0);
            n == (if i < BITS_PER_BLOCK then i + 1 else 0) && FileWritten(g, d, d', p, false)
  {
    hide WellFormed, ReadInode, SameView, Marked, WriteInode, NewInode, Mark, FirstFree, IsMeta, TableBlocks;
    hide TableBlock;
    GeometryOf(g, d, t);
    var (d1, n) := AllocInode(g, d);
    AllocInodeKeeps(g, d, t);
    PrepareFileSteps(g, d, t, d1, n);
    if n != 0 {
      GeometryOf(g, d1, t);
      PrepareFileWrites(g, d, t);
      WriteInodeWrites(g, d1, n, NewInode(REG_MODE, 0, 0, 1, 0));
    }
  }

  lemma TouchWrites(g: Geometry, s: State, path: seq<byte>)
    requires Valid(g, s) && RoomToCreate(g, s, path)
    ensures GeometryOk(g, s.disk)
    ensures var (s', ok) := Touch(g, s, path);
            var w := Resolve(g, s, path);
            if w.ino != 0 || w.parent == 0 then s' == s && !ok else FileWritten(g, s.disk, s'.disk, w.parent, ok)
  {
    hide WellFormed, ReadInode, DirData, Slack, LookIn, RoomFor, Tiled, Traverse, IsMeta, RoomToCreate;
    hide FirstFree, Marked, Touch, PrepareFile, Ready, LinkEntry, DirBlockNo, WritesOnly, SameView, DirWritten;
    hide FileWritten;
    var d, w := s.disk, Resolve(g, s, path);
    GeometryOf(g, d, s.tree);
    TraverseIsLive(g, s, path);
    if w.ino == 0 && w.parent != 0 {
      var (d', n) := PrepareFile(g, d, s.tree);
      TouchCases(g, s, path, d', n);
      PreparedFileDisk(g, d, s.tree, w.parent);
      PrepareFileIsReady(g, d, s.tree, w.parent);
      if n != 0 {
        DirBlockIsData(g, d, s.tree, w.parent);
        LinkOutcome(g, d, d', s.tree, w.parent, w.name, n, FT_REG_FILE);
      }
    } else {
      TouchCases(g, s, path, d, 0);
    }
  }

  /** The new name is bound to the new inode, as a directory (2) or a file (1). */
  lemma NewNames(g: Geometry, s: State, path: seq<byte>)
    requires Valid(g, s) && RoomToCreate(g, s, path)
    ensures GeometryOk(g, s.disk)
    ensures var w, n := Resolve(g, s, path), FirstFree(s.disk[g.inodeBitmap], 0) + 1;
            && (Mkdir(g, s, path).1 ==> LookIn(g, Mkdir(g, s, path).0.disk, w.parent, w.name) == (n, 2))
            && (Touch(g, s, path).1 ==> LookIn(g, Touch(g, s, path).0.disk, w.parent, w.name) == (n, 1))
  {
    hide WellFormed, Mkdir, Touch, LookIn, ReadInode, DirData, DirRecs, Linked, FirstFree, Traverse, RoomToCreate;
    hide SameView;
    MkdirEffect(g, s, path);
    TouchEffect(g, s, path);
  }

  lemma SameDirNumber(g: Geometry, d: Disk, d': Disk, t: Tree, p: nat)
    requires SameView(g, d, d', t) && LiveDir(t, p)
    ensures DirBlockNo(g, d', p) == DirBlockNo(g, d, p)
  {
    hide ReadInode, DirData;
  }

  lemma LinkWrites(g: Geometry, d: Disk, p: nat, name: seq<byte>, ino: nat, kind: byte)
    requires HasDirBlock(g, d, p) && |name| <= MAX_NAME && RoomFor(DirData(g, d, p), name)
    ensures var (d', ok) := LinkEntry(g, d, p, name, ino, kind);
            WritesOnly(d, d', if ok then {DirBlockNo(g, d, p)} else {})
  {
    hide RoomFor, Tiled, Slack, LastOff, DirBlockNo;
  }

  // ---- contents ----

  /** The blocks of inode `m` hold the same. */
  ghost predicate SameContents(g: Geometry, d: Disk, d': Disk, m: nat)
  {
    forall b: nat :: PointsTo(ReadInode(g, d, m), b) ==> b < |d| && b < |d'| && d'[b] == d[b]
  }

  /** Writing tables, a live directory's block and an unmarked block touches no file's contents. */
  lemma FilesKept(g: Geometry, d: Disk, d': Disk, t: Tree, p: nat, spare: nat, written: set<nat>, m: nat)
    requires WellFormed(g, d, t) && LiveDir(t, p) && m in t && !t[m].isDir && WritesOnly(d, d', written)
    requires forall k :: k in written ==>
               || IsMeta(g, k) || k == DirBlockNo(g, d, p)
               || (k == spare && 1 <= spare <= BITS_PER_BLOCK && !Marked(d[g.blockBitmap], spare - 1))
    ensures SameContents(g, d, d', m)
  {
    hide WellFormed, ReadInode, Marked, IsMeta, DirBlockNo, PointsTo, FileBlocks;
    forall b: nat | PointsTo(ReadInode(g, d, m), b) ensures b < |d| && b < |d'| && d'[b] == d[b] {
      FileBlocksAre(ReadInode(g, d, m), b);
      FileBlockIsData(g, d, t, p, m, b);
    }
  }

  lemma FileBlockIsData(g: Geometry, d: Disk, t: Tree, p: nat, m: nat, b: nat)
    requires WellFormed(g, d, t) && LiveDir(t, p) && m in t && !t[m].isDir && b in FileBlocks(ReadInode(g, d, m), 0)
    ensures DataBlock(g, d, b) && b != DirBlockNo(g, d, p)
  {
    hide ReadInode, Marked, IsMeta, DirBlockNo, FileBlocks, DirectoryOk, IsNamed, LiveInode, BitmapsOk;
    assert OwnsData(g, d, m, t[m]);
    assert Apart(OwnedBlocks(g, d, m, t[m].isDir), OwnedBlocks(g, d, p, t[p].isDir));
    assert DirBlockNo(g, d, p) in OwnedBlocks(g, d, p, true);
  }

  lemma MetaBlocks(g: Geometry, n: nat)
    requires 1 <= n <= g.inodeCount
    ensures IsMeta(g, g.blockBitmap) && IsMeta(g, g.inodeBitmap) && IsMeta(g, TableBlock(g, n))
  {
    TableBlockIsMeta(g, n);
  }

  lemma MkdirKeepsFiles(g: Geometry, s: State, path: seq<byte>, m: nat)
    requires Valid(g, s) && RoomToCreate(g, s, path) && m in s.tree && !s.tree[m].isDir
    ensures SameContents(g, s.disk, Mkdir(g, s, path).0.disk, m)
  {
    hide WellFormed, ReadInode, Marked, IsMeta, DirBlockNo, PointsTo, RoomToCreate, Mkdir, FirstFree, Traverse;
    hide TableBlock, Mark, NewInode, FreshDir, SameContents, WritesOnly;
    var d, w := s.disk, Resolve(g, s, path);
    var (s', ok) := Mkdir(g, s, path);
    MkdirWrites(g, s, path);
    TraverseIsLive(g, s, path);
    GeometryOf(g, d, s.tree);
    if w.ino == 0 && w.parent != 0 {
      var i, j := FirstFree(d[g.inodeBitmap], 0), FirstFree(d[g.blockBitmap], 0);
      var hasBlock := i < BITS_PER_BLOCK && j < BITS_PER_BLOCK;
      MetaBlocks(g, if hasBlock then i + 1 else 1);
      FreshIsUnmarked(d[g.blockBitmap]);
      FilesKept(g, d, s'.disk, s.tree, w.parent, if hasBlock then j + 1 else 0, {g.inodeBitmap, g.blockBitmap}
          + (if hasBlock then {TableBlock(g, i + 1), j + 1} else {})
          + (if ok then {DirBlockNo(g, d, w.parent)} else {}), m);
    } else {
      FilesKept(g, d, s'.disk, s.tree, ROOT, 0, {}, m) by { RootIsLive(g, d, s.tree); NothingWritten(d); }
    }
  }

  lemma TouchKeepsFiles(g: Geometry, s: State, path: seq<byte>, m: nat)
    requires Valid(g, s) && RoomToCreate(g, s, path) && m in s.tree && !s.tree[m].isDir
    ensures SameContents(g, s.disk, Touch(g, s, path).0.disk, m)
  {
    hide WellFormed, ReadInode, Marked, IsMeta, DirBlockNo, PointsTo, RoomToCreate, Touch, FirstFree, Traverse;
    hide TableBlock, Mark, NewInode;
    var d, w := s.disk, Resolve(g, s, path);
    var (s', ok) := Touch(g, s, path);
    TouchWrites(g, s, path);
    TraverseIsLive(g, s, path);
    GeometryOf(g, d, s.tree);
    if w.ino == 0 && w.parent != 0 {
      var i := FirstFree(d[g.inodeBitmap], 0);
      MetaBlocks(g, if i < BITS_PER_BLOCK then i + 1 else 1);
      FilesKept(g, d, s'.disk, s.tree, w.parent, 0, {g.inodeBitmap}
          + (if i < BITS_PER_BLOCK then {TableBlock(g, i + 1)} else {})
          + (if ok then {DirBlockNo(g, d, w.parent)} else {}), m);
    } else {
      FilesKept(g, d, s'.disk, s.tree, ROOT, 0, {}, m) by { RootIsLive(g, d, s.tree); NothingWritten(d); }
    }
  }

  lemma RmKeepsFiles(g: Geometry, s: State, path: seq<byte>, m: nat)
    requires Valid(g, s) && m in s.tree && !s.tree[m].isDir
    ensures SameContents(g, s.disk, Rm(g, s, path).0.disk, m)
  {
    hide WellFormed, ReadInode, Marked, IsMeta, DirBlockNo, PointsTo, Rm, Traverse, Deleted;
    var d, w := s.disk, Resolve(g, s, path);
    var (s', ok) := Rm(g, s, path);
    RmEffect(g, s, path);
    TraverseIsLive(g, s, path);
    GeometryOf(g, d, s.tree);
    RootIsLive(g, d, s.tree);
    if ok {
      RmWrites(g, s, path);
      MetaBlocks(g, ROOT);
      FilesKept(g, d, s'.disk, s.tree, w.parent, 0, {g.blockBitmap, g.inodeBitmap, DirBlockNo(g, d, w.parent)}, m);
    } else {
      FilesKept(g, d, s'.disk, s.tree, ROOT, 0, {}, m);
    }
  }
}
