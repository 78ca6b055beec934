/** The transactions mkdir, touch, rm and cd as functions on the state of the driver, and what
    each of them does to the tree that the disk holds. */
module FileSystem {
  import opened Bytes
  import opened DirBlock
  import opened Volume
  import opened Paths
  import opened Transactions
  import opened Wrappers

  /** The disk, the live inodes it holds, and the driver's working directory and its path. */
  datatype State = State(disk: Disk, tree: Tree, cwd: nat, cwdPath: seq<byte>)

  ghost predicate Valid(g: Geometry, s: State)
  {
    WellFormed(g, s.disk, s.tree) && LiveDir(s.tree, s.cwd)
  }

  function Resolve(g: Geometry, s: State, path: seq<byte>): Found
  {
    Traverse(g, s.disk, s.cwd, path)
  }

  /** Traversal from a live directory ends in nothing or in a live inode, found where it says. */
  lemma TraverseIsLive(g: Geometry, s: State, path: seq<byte>)
    requires Valid(g, s)
    ensures var w := Resolve(g, s, path);
            && (w.ino != 0 ==> w.ino in s.tree)
            && (w.ino == 0 ==> w.parent == 0 || LookIn(g, s.disk, w.parent, w.name).0 == 0)
            && (w.parent != 0 ==> LiveDir(s.tree, w.parent))
            && (w.ino != 0 && !s.tree[w.ino].isDir ==> w.parent != 0 && LookIn(g, s.disk, w.parent, w.name).0 == w.ino)
            && (w.parent != 0 ==> |w.name| <= MAX_NAME)
  {
    hide LiveInode, OwnsData, DirectoryOk, IsNamed, NoSharing, BitmapsOk, GeometryOk, LookIn;
    assert LiveDir(s.tree, ROOT);
    hide WellFormed;
    WalkIsLive(g, s.disk, s.tree, s.cwd, Components(path));
    if Absolute(path) { WalkIsLive(g, s.disk, s.tree, ROOT, Components(path[1..])); }
  }

  // ---- preparing an inode before it is linked ----

  const DIR_MODE := 0x41ED // S_IFDIR | 0755
  const REG_MODE := 0x81A4 // S_IFREG | 0644

  /** Allocate and write what a new directory needs; inode 0 when an allocation fails. */
  ghost function PrepareDir(g: Geometry, d: Disk, t: Tree, p: nat): (Disk, nat)
    requires WellFormed(g, d, t)
  {
    AllocInodeKeeps(g, d, t);
    var (d1, n) := AllocInode(g, d);
    if n == 0 then (d1, 0)
    else
      AllocBlockKeeps(g, d1, t);
      var (d2, b) := AllocBlock(g, d1);
      if b == 0 then (d2, 0)
      else
        var x := NewInode(DIR_MODE, BLOCK_SIZE, 2, 2, b);
        WriteInodeKeeps(g, d2, t, n, x);
        (WriteInode(g, d2, n, x)[b := FreshDir(n, p)], n)
  }

  lemma PrepareDirSteps(g: Geometry, d: Disk, t: Tree, p: nat, d1: Disk, n: nat, d2: Disk, b: nat)
    requires WellFormed(g, d, t) && GeometryOk(g, d) && (d1, n) == AllocInode(g, d)
    requires n != 0 ==> GeometryOk(g, d1) && (d2, b) == AllocBlock(g, d1)
    ensures n == 0 ==> PrepareDir(g, d, t, p) == (d1, 0)
    ensures n != 0 && b == 0 ==> PrepareDir(g, d, t, p) == (d2, 0)
    ensures n != 0 && b != 0 ==>
              && TableBlock(g, n) < |d2| && b < |d2|
              && PrepareDir(g, d, t, p)
                 == (WriteInode(g, d2, n, NewInode(DIR_MODE, BLOCK_SIZE, 2, 2, b))[b := FreshDir(n, p)], n)
  {
    hide WellFormed, AllocInode, AllocBlock, NewInode, FreshDir, SameView, Marked;
    AllocInodeKeeps(g, d, t);
    if n != 0 {
      AllocBlockKeeps(g, d1, t);
      if b != 0 { WriteInodeKeeps(g, d2, t, n, NewInode(DIR_MODE, BLOCK_SIZE, 2, 2, b)); }
    }
  }

  /** Allocate and write what a new empty file needs; inode 0 when the allocation fails. */
  ghost function PrepareFile(g: Geometry, d: Disk, t: Tree): (Disk, nat)
    requires WellFormed(g, d, t)
  {
    AllocInodeKeeps(g, d, t);
    var (d1, n) := AllocInode(g, d);
    if n == 0 then (d1, 0)
    else
      var x := NewInode(REG_MODE, 0, 0, 1, 0);
      WriteInodeKeeps(g, d1, t, n, x);
      (WriteInode(g, d1, n, x), n)
  }

  lemma PrepareFileSteps(g: Geometry, d: Disk, t: Tree, d1: Disk, n: nat)
    requires WellFormed(g, d, t) && GeometryOk(g, d) && (d1, n) == AllocInode(g, d)
    ensures n == 0 ==> PrepareFile(g, d, t) == (d1, 0)
    ensures n != 0 ==>
              && TableBlock(g, n) < |d1|
              && PrepareFile(g, d, t) == (WriteInode(g, d1, n, NewInode(REG_MODE, 0, 0, 1, 0)), n)
  {
    hide WellFormed, AllocInode, NewInode, SameView, Marked;
    AllocInodeKeeps(g, d, t);
    if n != 0 { WriteInodeKeeps(g, d1, t, n, NewInode(REG_MODE, 0, 0, 1, 0)); }
  }

  lemma SameViewTrans(g: Geometry, d: Disk, d1: Disk, d2: Disk, t: Tree)
    requires SameView(g, d, d1, t) && SameView(g, d1, d2, t)
    ensures SameView(g, d, d2, t)
  {
    hide ReadInode, DirData;
  }

  ghost predicate Prepared(g: Geometry, d: Disk, d': Disk, t: Tree, n: nat, node: Node)
  {
    && WellFormed(g, d', t) && SameView(g, d, d', t) && |d'| == |d|
    && (n != 0 ==> Ready(g, d', t, n, node))
  }

  /** The bitmaps and the inode that preparing a file leaves. */
  lemma PrepareFileWrites(g: Geometry, d: Disk, t: Tree)
    requires WellFormed(g, d, t)
    ensures GeometryOk(g, d)
    ensures var (d', n) := PrepareFile(g, d, t);
            n != 0 ==> && n == FirstFree(d[g.inodeBitmap], 0) + 1 <= BITS_PER_BLOCK
                       && d'[g.inodeBitmap] == Mark(d[g.inodeBitmap], n - 1) && d'[g.blockBitmap] == d[g.blockBitmap]
                       && ReadInode(g, d', n) == NewInode(REG_MODE, 0, 0, 1, 0)
  {
    hide WellFormed, ReadInode, SameView, Marked, WriteInode, NewInode, Mark, FirstFree;
    GeometryOf(g, d, t);
    AllocInodeKeeps(g, d, t);
    var (d1, n) := AllocInode(g, d);
    if n != 0 {
      WriteInodeKeeps(g, d1, t, n, NewInode(REG_MODE, 0, 0, 1, 0));
    }
  }

  lemma PrepareFileIsReady(g: Geometry, d: Disk, t: Tree, p: nat)
    requires WellFormed(g, d, t) && LiveDir(t, p)
    ensures var (d', n) := PrepareFile(g, d, t);
            Prepared(g, d, d', t, n, Node(false, p, t[p].depth + 1))
  {
    hide WellFormed, ReadInode, DirData, SameView, Marked, WriteInode, AllocInode, NewInode;
    hide IMode, IBlock, IsMeta, DirectoryOk, GeometryOk, BitmapsOk;
    GeometryOf(g, d, t);
    AllocInodeKeeps(g, d, t);
    GeometryOf(g, AllocInode(g, d).0, t);
    var (d1, n) := AllocInode(g, d);
    if n != 0 {
      var x := NewInode(REG_MODE, 0, 0, 1, 0);
      NewInodeFields(REG_MODE, 0, 0, 1, 0);
      WriteInodeKeeps(g, d1, t, n, x);
      SameViewTrans(g, d, d1, WriteInode(g, d1, n, x), t);
      assert FileBlocks(x, 0) == [];
      GeometryOf(g, WriteInode(g, d1, n, x), t);
    }
  }

  lemma UnownedStaysUnowned(g: Geometry, d: Disk, t: Tree, b: nat)
    requires WellFormed(g, d, t) && 1 <= b <= BITS_PER_BLOCK && !Marked(d[g.blockBitmap], b - 1)
    ensures forall m :: m in t ==> b !in OwnedBlocks(g, d, m, t[m].isDir)
  {
    hide *;
    forall m | m in t ensures b !in OwnedBlocks(g, d, m, t[m].isDir) {
      UnmarkedIsUnowned(g, d, t, b, m);
    }
  }

  lemma FreshDirIsOk(t: Tree, n: nat, p: nat)
    requires n !in t && p in t && 0 < n < 0x1_0000_0000 && 0 < p < 0x1_0000_0000
    ensures DirectoryOk(FreshDir(n, p), t[n := Node(true, p, t[p].depth + 1)], n)
  {
    FreshDirRecs(n, p);
  }

  /** The bitmaps, the inode and the block that preparing a directory leaves. */
  lemma PrepareDirWrites(g: Geometry, d: Disk, t: Tree, p: nat)
    requires WellFormed(g, d, t)
    ensures GeometryOk(g, d)
    ensures var (d', n) := PrepareDir(g, d, t, p);
            var i, j := FirstFree(d[g.inodeBitmap], 0), FirstFree(d[g.blockBitmap], 0);
            GeometryOk(g, d') &&
            (n != 0 ==>
               && i < BITS_PER_BLOCK && j < BITS_PER_BLOCK && n == i + 1
               && d'[g.inodeBitmap] == Mark(d[g.inodeBitmap], i) && d'[g.blockBitmap] == Mark(d[g.blockBitmap], j)
               && ReadInode(g, d', n) == NewInode(DIR_MODE, BLOCK_SIZE, 2, 2, j + 1))
  {
    hide WellFormed, ReadInode, SameView, Marked, WriteInode, NewInode, Mark, FirstFree, IsMeta, FreshDir, TableBlocks;
    GeometryOf(g, d, t);
    AllocInodeKeeps(g, d, t);
    var (d1, n) := AllocInode(g, d);
    if n != 0 {
      AllocBlockKeeps(g, d1, t);
      var (d2, b) := AllocBlock(g, d1);
      if b != 0 {
        var x := NewInode(DIR_MODE, BLOCK_SIZE, 2, 2, b);
        WriteInodeKeeps(g, d2, t, n, x);
        var d3 := WriteInode(g, d2, n, x);
        DataIsNotTable(g, d3, b);
        SameTableReads(g, d3, d3[b := FreshDir(n, p)], n);
      }
    }
  }

  lemma PrepareDirIsReady(g: Geometry, d: Disk, t: Tree, p: nat)
    requires WellFormed(g, d, t) && LiveDir(t, p)
    ensures var (d', n) := PrepareDir(g, d, t, p);
            Prepared(g, d, d', t, n, Node(true, p, t[p].depth + 1))
  {
    hide ReadInode, DirData, SameView, Marked, WriteInode, AllocInode, AllocBlock, NewInode, FreshDir;
    hide DirectoryOk, IMode, IBlock;
    hide OwnedBlocks, IsMeta;
    hide WellFormed;
    GeometryOf(g, d, t);
    DirBlockIsData(g, d, t, p);
    AllocInodeKeeps(g, d, t);
    var (d1, n) := AllocInode(g, d);
    if n != 0 {
      AllocBlockKeeps(g, d1, t);
      var (d2, b) := AllocBlock(g, d1);
      SameViewTrans(g, d, d1, d2, t);
      if b != 0 {
        var x := NewInode(DIR_MODE, BLOCK_SIZE, 2, 2, b);
        WriteInodeKeeps(g, d2, t, n, x);
        var d3 := WriteInode(g, d2, n, x);
        DataIsPositive(g, b);
        SameViewTrans(g, d1, d2, d3, t);
        AllocatedIsUnowned(g, d1, d3, t, b);
        WriteBlockKeeps(g, d3, t, b, FreshDir(n, p));
        var d4 := d3[b := FreshDir(n, p)];
        SameViewTrans(g, d, d2, d3, t);
        SameViewTrans(g, d, d3, d4, t);
        NewDirReady(g, d3, t, n, p, b);
      }
    }
  }

  /** A block free on `d1` stays unowned on a disk with the same view. */
  lemma AllocatedIsUnowned(g: Geometry, d1: Disk, d3: Disk, t: Tree, b: nat)
    requires WellFormed(g, d1, t) && 1 <= b <= BITS_PER_BLOCK && !Marked(d1[g.blockBitmap], b - 1)
    requires SameView(g, d1, d3, t)
    ensures forall m :: m in t ==> b !in OwnedBlocks(g, d3, m, t[m].isDir)
  {
    UnownedStaysUnowned(g, d1, t, b);
    hide *;
    SameOwners(g, d1, d3, t);
  }

  /** A marked inode pointing at its own fresh block is ready to be linked as a directory. */
  lemma NewDirReady(g: Geometry, d: Disk, t: Tree, n: nat, p: nat, b: nat)
    requires WellFormed(g, d, t) && LiveDir(t, p) && 1 <= p <= g.inodeCount
    requires n !in t && 1 <= n <= g.inodeCount && Marked(d[g.inodeBitmap], n - 1)
    requires ReadInode(g, d, n) == NewInode(DIR_MODE, BLOCK_SIZE, 2, 2, b)
    requires DataBlock(g, d, b)
    requires forall m :: m in t ==> b !in OwnedBlocks(g, d, m, t[m].isDir)
    requires WellFormed(g, d[b := FreshDir(n, p)], t) && SameView(g, d, d[b := FreshDir(n, p)], t)
    ensures Ready(g, d[b := FreshDir(n, p)], t, n, Node(true, p, t[p].depth + 1))
  {
    hide WellFormed, ReadInode, Marked, NewInode, FreshDir, DirectoryOk, IMode, IBlock, BitmapsOk, SameView;
    hide IsMeta, TableBlocks;
    var d' := d[b := FreshDir(n, p)];
    GeometryOf(g, d, t);
    GeometryOf(g, d', t);
    NewInodeFields(DIR_MODE, BLOCK_SIZE, 2, 2, b);
    DataIsNotTable(g, d, b);
    SameTableReads(g, d, d', n);
    assert DirBlockNo(g, d', n) == b;
    assert OwnedBlocks(g, d', n, true) == [b];
    FreshDirIsOk(t, n, p);
    SameOwners(g, d, d', t);
  }

  // ---- mkdir and touch ----

  /** The name to create is free, its directory is known, and linking it stays inside the block. */
  ghost predicate RoomToCreate(g: Geometry, s: State, path: seq<byte>)
  {
    var w := Resolve(g, s, path);
    w.ino == 0 && w.parent != 0 ==> HasDirBlock(g, s.disk, w.parent) && RoomFor(DirData(g, s.disk, w.parent), w.name)
  }

  lemma SameDirBlock(g: Geometry, d: Disk, d': Disk, t: Tree, p: nat)
    requires SameView(g, d, d', t) && LiveDir(t, p) && |d'| == |d| && HasDirBlock(g, d, p)
    ensures HasDirBlock(g, d', p) && DirData(g, d', p) == DirData(g, d, p) && DirRecs(g, d', p) == DirRecs(g, d, p)
  {
    hide ReadInode, Tiled, Recs;
  }

  /** Link the prepared inode `n` where traversal said the name belongs. */
  ghost function LinkNew(g: Geometry, s: State, w: Found, d': Disk, n: nat, node: Node, kind: byte): (State, bool)
    requires LiveDir(s.tree, w.parent) && |w.name| <= MAX_NAME
    requires SameView(g, s.disk, d', s.tree) && |d'| == |s.disk|
    requires HasDirBlock(g, s.disk, w.parent) && RoomFor(DirData(g, s.disk, w.parent), w.name)
  {
    SameDirBlock(g, s.disk, d', s.tree, w.parent);
    var (d2, ok) := LinkEntry(g, d', w.parent, w.name, n, kind);
    (s.(disk := d2, tree := if ok then s.tree[n := node] else s.tree), ok)
  }

  ghost function Mkdir(g: Geometry, s: State, path: seq<byte>): (State, bool)
    requires Valid(g, s) && RoomToCreate(g, s, path)
  {
    var w := Resolve(g, s, path);
    if w.ino != 0 || w.parent == 0 then (s, false)
    else
      TraverseIsLive(g, s, path);
      PrepareDirIsReady(g, s.disk, s.tree, w.parent);
      var (d, n) := PrepareDir(g, s.disk, s.tree, w.parent);
      if n == 0 then (s.(disk := d), false)
      else LinkNew(g, s, w, d, n, Node(true, w.parent, s.tree[w.parent].depth + 1), FT_DIR)
  }

  /** Mkdir by cases: no such place, no free inode or block, or a link of the prepared inode. */
  lemma MkdirCases(g: Geometry, s: State, path: seq<byte>, d: Disk, n: nat)
    requires Valid(g, s) && RoomToCreate(g, s, path)
    requires var w := Resolve(g, s, path); w.ino == 0 && w.parent != 0 ==>
             (d, n) == PrepareDir(g, s.disk, s.tree, w.parent)
    ensures var w := Resolve(g, s, path);
            if w.ino != 0 || w.parent == 0 then Mkdir(g, s, path) == (s, false)
            else if n == 0 then Mkdir(g, s, path) == (s.(disk := d), false)
            else
              && LiveDir(s.tree, w.parent) && |w.name| <= MAX_NAME && LookIn(g, s.disk, w.parent, w.name).0 == 0
              && Prepared(g, s.disk, d, s.tree, n, Node(true, w.parent, s.tree[w.parent].depth + 1))
              && HasDirBlock(g, d, w.parent) && DirData(g, d, w.parent) == DirData(g, s.disk, w.parent)
              && RoomFor(DirData(g, d, w.parent), w.name)
              && var (d2, ok) := LinkEntry(g, d, w.parent, w.name, n, FT_DIR);
                 Mkdir(g, s, path)
                 == (s.(disk := d2, tree :=
                         if ok then s.tree[n := Node(true, w.parent, s.tree[w.parent].depth + 1)] else s.tree), ok)
  {
    hide WellFormed, PrepareDir, Traverse, LookIn, DirData, Tiled, LinkEntry, RoomFor, SameView, Ready;
    var w := Resolve(g, s, path);
    if w.ino == 0 && w.parent != 0 {
      TraverseIsLive(g, s, path);
      PrepareDirIsReady(g, s.disk, s.tree, w.parent);
      if n != 0 { SameDirBlock(g, s.disk, d, s.tree, w.parent); }
    }
  }

  ghost function Touch(g: Geometry, s: State, path: seq<byte>): (State, bool)
    requires Valid(g, s) && RoomToCreate(g, s, path)
  {
    var w := Resolve(g, s, path);
    if w.ino != 0 || w.parent == 0 then (s, false)
    else
      TraverseIsLive(g, s, path);
      PrepareFileIsReady(g, s.disk, s.tree, w.parent);
      var (d, n) := PrepareFile(g, s.disk, s.tree);
      if n == 0 then (s.(disk := d), false)
      else LinkNew(g, s, w, d, n, Node(false, w.parent, s.tree[w.parent].depth + 1), FT_REG_FILE)
  }

  /** Touch by cases, as Mkdir. */
  lemma TouchCases(g: Geometry, s: State, path: seq<byte>, d: Disk, n: nat)
    requires Valid(g, s) && RoomToCreate(g, s, path)
    requires var w := Resolve(g, s, path); w.ino == 0 && w.parent != 0 ==> (d, n) == PrepareFile(g, s.disk, s.tree)
    ensures var w := Resolve(g, s, path);
            if w.ino != 0 || w.parent == 0 then Touch(g, s, path) == (s, false)
            else if n == 0 then Touch(g, s, path) == (s.(disk := d), false)
            else
              && LiveDir(s.tree, w.parent) && |w.name| <= MAX_NAME && LookIn(g, s.disk, w.parent, w.name).0 == 0
              && Prepared(g, s.disk, d, s.tree, n, Node(false, w.parent, s.tree[w.parent].depth + 1))
              && HasDirBlock(g, d, w.parent) && DirData(g, d, w.parent) == DirData(g, s.disk, w.parent)
              && RoomFor(DirData(g, d, w.parent), w.name)
              && var (d2, ok) := LinkEntry(g, d, w.parent, w.name, n, FT_REG_FILE);
                 Touch(g, s, path)
                 == (s.(disk := d2, tree :=
                         if ok then s.tree[n := Node(false, w.parent, s.tree[w.parent].depth + 1)] else s.tree), ok)
  {
    hide WellFormed, PrepareFile, Traverse, LookIn, DirData, Tiled, LinkEntry, RoomFor, SameView, Ready;
    var w := Resolve(g, s, path);
    if w.ino == 0 && w.parent != 0 {
      TraverseIsLive(g, s, path);
      PrepareFileIsReady(g, s.disk, s.tree, w.parent);
      if n != 0 { SameDirBlock(g, s.disk, d, s.tree, w.parent); }
    }
  }

  /** From `s` to `s'`, exactly the name `name` of directory `p` became bound, to a new inode. */
  ghost predicate Created(g: Geometry, s: State, s': State, p: nat, name: seq<byte>, n: nat, node: Node, kind: byte)
  {
    && n != 0 && n !in s.tree && s' == s.(disk := s'.disk, tree := s.tree[n := node])
    && LiveDir(s.tree, p) && LookIn(g, s.disk, p, name).0 == 0
    && LooksChanged(g, s.disk, s'.disk, s.tree, p, name, (n, kind))
    && (forall m :: m in s.tree ==> ReadInode(g, s'.disk, m) == ReadInode(g, s.disk, m))
    && (forall m :: LiveDir(s.tree, m) && m != p ==> DirData(g, s'.disk, m) == DirData(g, s.disk, m))
    && DirRecs(g, s.disk, p) != []
    && DirRecs(g, s'.disk, p) == Linked(DirRecs(g, s.disk, p), name, n, kind)
  }

  /** From `s` to `s'` nothing that the tree can see changed. */
  ghost predicate Untouched(g: Geometry, s: State, s': State)
  {
    s' == s.(disk := s'.disk) && SameView(g, s.disk, s'.disk, s.tree)
  }

  lemma LookIsEntry(rs: seq<DirRec>, name: seq<byte>)
    ensures Look(rs, name) == if name in Entries(rs) then Entries(rs)[name] else (0, 0)
  {
    EntriesAt(rs, name);
  }

  lemma LinkedLooks(g: Geometry, d: Disk, d': Disk, t: Tree, p: nat, name: seq<byte>, n: nat, kind: byte)
    requires LiveDir(t, p) && IndexOf(DirRecs(g, d, p), name) == |DirRecs(g, d, p)| && DirRecs(g, d, p) != []
    requires DirRecs(g, d', p) == Linked(DirRecs(g, d, p), name, n, kind)
    requires forall m :: LiveDir(t, m) && m != p ==> DirData(g, d', m) == DirData(g, d, m)
    ensures LooksChanged(g, d, d', t, p, name, (n, kind))
  {
    hide DirData, DirRecs, Linked, Look, Entries, IndexOf;
    var rs := DirRecs(g, d, p);
    EntriesAt(rs, name);
    LinkedInserts(rs, name, n, kind);
    forall x, s | LiveDir(t, x)
      ensures LookIn(g, d', x, s) == if x == p && s == name then (n, kind) else LookIn(g, d, x, s)
    {
      if x == p {
        LookIsEntry(rs, s);
        LookIsEntry(DirRecs(g, d', p), s);
      } else {
        SameDirRecs(g, d, d', x);
      }
    }
  }

  lemma LinkEntryOutcome(g: Geometry, d: Disk, p: nat, name: seq<byte>, n: nat, kind: byte)
    requires HasDirBlock(g, d, p) && |name| <= MAX_NAME && RoomFor(DirData(g, d, p), name)
    ensures var (d', ok) := LinkEntry(g, d, p, name, n, kind);
            && (ok <==> 0 < Slack(DirData(g, d, p))) && (!ok ==> d' == d)
  {
  }

  lemma LinkNewCreates(g: Geometry, s: State, w: Found, d': Disk, n: nat, node: Node, kind: byte)
    requires Valid(g, s) && LiveDir(s.tree, w.parent) && |w.name| <= MAX_NAME
    requires LookIn(g, s.disk, w.parent, w.name).0 == 0
    requires Prepared(g, s.disk, d', s.tree, n, node) && n != 0
    requires node.parent == w.parent && node.depth == s.tree[w.parent].depth + 1 && (kind == FT_DIR <==> node.isDir)
    requires HasDirBlock(g, s.disk, w.parent) && RoomFor(DirData(g, s.disk, w.parent), w.name)
    ensures var (s', ok) := LinkNew(g, s, w, d', n, node, kind);
            && Valid(g, s')
            && (ok <==> 0 < Slack(DirData(g, s.disk, w.parent)))
            && (ok ==> Created(g, s, s', w.parent, w.name, n, node, kind))
            && (ok ==> s'.disk[g.inodeBitmap] == d'[g.inodeBitmap] && s'.disk[g.blockBitmap] == d'[g.blockBitmap])
            && (ok ==> ReadInode(g, s'.disk, n) == ReadInode(g, d', n))
            && (!ok ==> Untouched(g, s, s'))
  {
    hide WellFormed, ReadInode, DirData, DirRecs, Linked, SameView, Slack, LookIn, LooksChanged, RoomFor, Tiled;
    hide IndexOf;
    hide GeometryOk, BitmapsOk, Recs, LinkEntry, Ready;
    var p, name := w.parent, w.name;
    GeometryOf(g, d', s.tree);
    SameDirBlock(g, s.disk, d', s.tree, p);
    NotFound(g, s.disk, s.tree, p, name);
    assert LookIn(g, d', p, name) == LookIn(g, s.disk, p, name) by { SameLook(g, s.disk, d', p, name); }
    LinkEntryOutcome(g, d', p, name, n, kind);
    if 0 < Slack(DirData(g, s.disk, p)) {
      LinkKeeps(g, d', s.tree, p, name, n, node, kind);
      var d2 := LinkEntry(g, d', p, name, n, kind).0;
      assert n !in s.tree by { ReadyIsNew(g, d', s.tree, n, node); }
      SameViewAt(g, s.disk, d', s.tree);
      PlaceEntryNeedsChain(g, s.disk, s.tree, p);
      LinkedLooks(g, s.disk, d2, s.tree, p, name, n, kind);
    }
  }

  lemma SameLook(g: Geometry, d: Disk, d': Disk, p: nat, name: seq<byte>)
    requires DirRecs(g, d', p) == DirRecs(g, d, p)
    ensures LookIn(g, d', p, name) == LookIn(g, d, p, name)
  {
  }

  lemma ReadyIsNew(g: Geometry, d: Disk, t: Tree, n: nat, node: Node)
    requires GeometryOk(g, d) && Ready(g, d, t, n, node)
    ensures n !in t
  {
  }

  lemma SameViewAt(g: Geometry, d: Disk, d': Disk, t: Tree)
    requires SameView(g, d, d', t)
    ensures forall m :: m in t ==> ReadInode(g, d', m) == ReadInode(g, d, m)
    ensures forall m :: LiveDir(t, m) ==> DirData(g, d', m) == DirData(g, d, m)
  {
    hide ReadInode, DirData;
  }

  lemma PlaceEntryNeedsChain(g: Geometry, d: Disk, t: Tree, p: nat)
    requires WellFormed(g, d, t) && LiveDir(t, p)
    ensures DirRecs(g, d, p) != []
  {
    hide DirData, Recs, NoSharing, LiveInode, OwnsData, IsNamed;
    assert DirectoryOk(DirData(g, d, p), t, p);
  }

  /** mkdir keeps the volume well-formed; it either binds exactly the new name, to a directory
      inode that was free, or changes nothing the tree can see. It succeeds exactly when the name
      is free in an existing directory whose block has slack, and an inode and a block are free. */
  lemma MkdirEffect(g: Geometry, s: State, path: seq<byte>)
    requires Valid(g, s) && RoomToCreate(g, s, path)
    ensures GeometryOk(g, s.disk)
    ensures var (s', ok) := Mkdir(g, s, path);
            var w := Resolve(g, s, path);
            var n := FirstFree(s.disk[g.inodeBitmap], 0) + 1;
            && Valid(g, s')
            && (ok ==> LiveDir(s.tree, w.parent)
                       && Created(g, s, s', w.parent, w.name, n, Node(true, w.parent, s.tree[w.parent].depth + 1),
                          FT_DIR))
            && (ok ==>
                  ReadInode(g, s'.disk, n)
                  == NewInode(DIR_MODE, BLOCK_SIZE, 2, 2, FirstFree(s.disk[g.blockBitmap], 0) + 1))
            && (!ok ==> Untouched(g, s, s'))
            && (ok <==> && w.ino == 0 && w.parent != 0
                        && FirstFree(s.disk[g.inodeBitmap], 0) < BITS_PER_BLOCK
                        && FirstFree(s.disk[g.blockBitmap], 0) < BITS_PER_BLOCK
                        && 0 < Slack(DirData(g, s.disk, w.parent)))
  {
    hide WellFormed, ReadInode, DirData, DirRecs, SameView, Slack, LookIn, RoomFor, Tiled, Traverse, Created;
    hide FirstFree, Marked;
    hide GeometryOk, BitmapsOk, Recs, LinkNew, Ready, WriteInode, FreshDir, NewInode;
    GeometryOf(g, s.disk, s.tree);
    var w := Resolve(g, s, path);
    TraverseIsLive(g, s, path);
    if w.ino == 0 && w.parent != 0 {
      PrepareDirWrites(g, s.disk, s.tree, w.parent);
      PrepareDirIsReady(g, s.disk, s.tree, w.parent);
      AllocInodeKeeps(g, s.disk, s.tree);
      GeometryOf(g, AllocInode(g, s.disk).0, s.tree);
      AllocInodeKeepsBlockBitmap(g, s.disk);
      var (d, n) := PrepareDir(g, s.disk, s.tree, w.parent);
      if n != 0 {
        LinkNewCreates(g, s, w, d, n, Node(true, w.parent, s.tree[w.parent].depth + 1), FT_DIR);
      }
    } else {
      SameViewRefl(g, s.disk, s.tree);
    }
  }

  lemma AllocInodeKeepsBlockBitmap(g: Geometry, d: Disk)
    requires GeometryOk(g, d)
    ensures AllocInode(g, d).0[g.blockBitmap] == d[g.blockBitmap]
  {
  }

  lemma SameViewRefl(g: Geometry, d: Disk, t: Tree)
    ensures SameView(g, d, d, t)
  {
  }

  /** touch keeps the volume well-formed; it either binds exactly the new name, to an empty file
      on an inode that was free, or changes nothing the tree can see. It succeeds exactly when the
      name is free in an existing directory whose block has slack, and an inode is free. */
  lemma TouchEffect(g: Geometry, s: State, path: seq<byte>)
    requires Valid(g, s) && RoomToCreate(g, s, path)
    ensures GeometryOk(g, s.disk)
    ensures var (s', ok) := Touch(g, s, path);
            var w := Resolve(g, s, path);
            var n := FirstFree(s.disk[g.inodeBitmap], 0) + 1;
            && Valid(g, s')
            && (ok ==> LiveDir(s.tree, w.parent)
                       && Created(g, s, s', w.parent, w.name, n, Node(false, w.parent, s.tree[w.parent].depth + 1),
                          FT_REG_FILE))
            && (ok ==> && ReadInode(g, s'.disk, n) == NewInode(REG_MODE, 0, 0, 1, 0)
                       && s'.disk[g.inodeBitmap] == Mark(s.disk[g.inodeBitmap], n - 1)
                       && s'.disk[g.blockBitmap] == s.disk[g.blockBitmap])
            && (!ok ==> Untouched(g, s, s'))
            && (ok <==> && w.ino == 0 && w.parent != 0
                        && FirstFree(s.disk[g.inodeBitmap], 0) < BITS_PER_BLOCK
                        && 0 < Slack(DirData(g, s.disk, w.parent)))
  {
    hide WellFormed, ReadInode, DirData, DirRecs, SameView, Slack, LookIn, RoomFor, Tiled, Traverse, Created;
    hide FirstFree, Marked, Mark;
    hide GeometryOk, BitmapsOk, Recs, LinkNew, Ready, WriteInode, NewInode;
    GeometryOf(g, s.disk, s.tree);
    var w := Resolve(g, s, path);
    TraverseIsLive(g, s, path);
    if w.ino == 0 && w.parent != 0 {
      PrepareFileWrites(g, s.disk, s.tree);
      PrepareFileIsReady(g, s.disk, s.tree, w.parent);
      AllocInodeKeeps(g, s.disk, s.tree);
      var (d, n) := PrepareFile(g, s.disk, s.tree);
      if n != 0 {
        LinkNewCreates(g, s, w, d, n, Node(false, w.parent, s.tree[w.parent].depth + 1), FT_REG_FILE);
      }
    } else {
      SameViewRefl(g, s.disk, s.tree);
    }
  }

  /** Creation resolves the new name and no path that resolved before comes to mean anything else. */
  lemma CreatedPaths(g: Geometry, s: State, s': State, p: nat, name: seq<byte>, n: nat, node: Node, kind: byte,
      path: seq<byte>)
    requires Valid(g, s) && p != 0 && Created(g, s, s', p, name, n, node, kind)
    ensures var w := Resolve(g, s, path);
            && (w.ino != 0 ==> Resolve(g, s', path) == w)
            && (w == Found(0, p, name) ==> Resolve(g, s', path) == Found(n, p, name))
            && (w.ino != 0 ==> ReadInode(g, s'.disk, w.ino) == ReadInode(g, s.disk, w.ino))
  {
    hide WellFormed, LooksChanged, LookIn, Walk, Components, ReadInode, DirData, DirRecs, Linked;
    RootIsLive(g, s.disk, s.tree);
    TraverseIsLive(g, s, path);
    WalkAfterBinding(g, s.disk, s'.disk, s.tree, p, name, (n, kind), s.cwd, Components(path));
    if Absolute(path) {
      WalkAfterBinding(g, s.disk, s'.disk, s.tree, p, name, (n, kind), ROOT, Components(path[1..]));
    }
  }

  lemma RootIsLive(g: Geometry, d: Disk, t: Tree)
    requires WellFormed(g, d, t)
    ensures LiveDir(t, ROOT)
  {
    hide GeometryOk, BitmapsOk, NoSharing;
  }

  // ---- rm ----

  ghost function Rm(g: Geometry, s: State, path: seq<byte>): (State, bool)
    requires Valid(g, s)
  {
    var w := Resolve(g, s, path);
    if w.ino == 0 then (s, false)
    else
      var target := ReadInode(g, s.disk, w.ino);
      if IsDirMode(IMode(target)) then (s, false)
      else
        GeometryOf(g, s.disk, s.tree);
        TraverseIsLive(g, s, path);
        LiveFile(g, s.disk, s.tree, w.ino);
        var d1 := FreeBlocks(g, s.disk, FileBlocks(target, 0));
        DirSurvivesFreeing(g, s.disk, s.tree, w.parent, w.ino);
        var (d2, ok) := UnlinkEntry(g, d1, w.parent, w.name);
        if !ok then (s.(disk := d2), false)
        else (s.(disk := FreeInode(g, d2, w.ino), tree := s.tree - {w.ino}), true)
  }

  /** The blocks of a live file are data blocks, and its mode is not a directory's. */
  lemma LiveFile(g: Geometry, d: Disk, t: Tree, n: nat)
    requires WellFormed(g, d, t) && n in t
    ensures 1 <= n <= g.inodeCount && IsDirMode(IMode(ReadInode(g, d, n))) == t[n].isDir
    ensures !t[n].isDir ==> Freeable(FileBlocks(ReadInode(g, d, n), 0))
  {
    hide ReadInode, DirData, DirectoryOk, IsNamed, NoSharing, FileBlocks, BitmapsOk, Marked, IMode;
    assert LiveInode(g, d, n, t[n]) && OwnsData(g, d, n, t[n]);
    if !t[n].isDir {
      var bs := FileBlocks(ReadInode(g, d, n), 0);
      forall k | 0 <= k < |bs| ensures 1 <= bs[k] <= BITS_PER_BLOCK {
        assert DataBlock(g, d, OwnedBlocks(g, d, n, t[n].isDir)[k]);
      }
    }
  }

  /** Clearing the marks of a file's blocks touches no directory and no inode. */
  lemma DirSurvivesFreeing(g: Geometry, d: Disk, t: Tree, p: nat, n: nat)
    requires WellFormed(g, d, t) && LiveDir(t, p) && n in t && !t[n].isDir
    ensures GeometryOk(g, d)
    ensures Freeable(FileBlocks(ReadInode(g, d, n), 0))
    ensures var d1 := FreeBlocks(g, d, FileBlocks(ReadInode(g, d, n), 0));
            && GeometryOk(g, d1) && SameTable(g, d, d1) && |d1| == |d|
            && HasDirBlock(g, d1, p) && DirBlockNo(g, d1, p) == DirBlockNo(g, d, p)
            && DirData(g, d1, p) == DirData(g, d, p)
            && !IsMeta(g, DirBlockNo(g, d, p))
  {
    hide WellFormed, ReadInode, FileBlocks, FreeBlocks, Marked, IsMeta, Tiled, Recs;
    GeometryOf(g, d, t);
    LiveFile(g, d, t, n);
    var bs := FileBlocks(ReadInode(g, d, n), 0);
    FreeBlocksUnmark(g, d, bs);
    var d1 := FreeBlocks(g, d, bs);
    DirBlockIsData(g, d, t, p);
    assert SameTable(g, d, d1);
    SameTableReads(g, d, d1, p);
    DataIsNotTable(g, d, DirBlockNo(g, d, p));
  }

  /** A name bound to a live file is bound by a record past `.` and `..`. */
  lemma FileEntryIndex(g: Geometry, d: Disk, t: Tree, p: nat, name: seq<byte>, n: nat)
    requires WellFormed(g, d, t) && LiveDir(t, p) && n in t && !t[n].isDir && n != 0
    requires LookIn(g, d, p, name).0 == n
    ensures NamesFile(g, d, t, p, IndexOf(DirRecs(g, d, p), name), n)
    ensures Tiled(DirData(g, d, p), 0) && DistinctNames(DirRecs(g, d, p))
    ensures LookIn(g, d, p, name).1 != FT_DIR
  {
    LookIsLive(g, d, t, p, name);
    hide DirData, Recs, NoSharing, LiveInode, OwnsData, BitmapsOk, Tiled, ReadInode;
    assert DirectoryOk(DirData(g, d, p), t, p);
    assert IsNamed(g, d, t, p);
  }

  /** From `s` to `s'`, exactly the file bound to `name` in directory `p` is gone. */
  ghost predicate Deleted(g: Geometry, s: State, s': State, p: nat, name: seq<byte>, n: nat)
  {
    && n in s.tree && !s.tree[n].isDir && s' == s.(disk := s'.disk, tree := s.tree - {n})
    && LiveDir(s.tree, p) && LookIn(g, s.disk, p, name).0 == n && LookIn(g, s.disk, p, name).1 != FT_DIR
    && LooksChanged(g, s.disk, s'.disk, s.tree, p, name, (0, 0))
    && (forall m :: m in s.tree ==> ReadInode(g, s'.disk, m) == ReadInode(g, s.disk, m))
    && (forall m :: LiveDir(s.tree, m) && m != p ==> DirData(g, s'.disk, m) == DirData(g, s.disk, m))
    && 0 < IndexOf(DirRecs(g, s.disk, p), name) < |DirRecs(g, s.disk, p)|
    && DirRecs(g, s'.disk, p) == Removed(DirRecs(g, s.disk, p), IndexOf(DirRecs(g, s.disk, p), name))
  }

  lemma RemovedLooks(g: Geometry, d: Disk, d': Disk, t: Tree, p: nat, name: seq<byte>)
    requires var rs := DirRecs(g, d, p);
             && 0 < IndexOf(rs, name) < |rs| && DistinctNames(rs)
             && DirRecs(g, d', p) == Removed(rs, IndexOf(rs, name))
    requires forall m :: LiveDir(t, m) && m != p ==> DirData(g, d', m) == DirData(g, d, m)
    ensures LooksChanged(g, d, d', t, p, name, (0, 0))
  {
    hide DirData, DirRecs, Removed, Look, Entries, IndexOf;
    var rs := DirRecs(g, d, p);
    RemovedDeletes(rs, IndexOf(rs, name));
    forall x, s | LiveDir(t, x)
      ensures LookIn(g, d', x, s) == if x == p && s == name then (0, 0) else LookIn(g, d, x, s)
    {
      if x == p {
        LookIsEntry(rs, s);
        LookIsEntry(DirRecs(g, d', p), s);
      } else {
        SameDirRecs(g, d, d', x);
      }
    }
  }

  /** Changing only the bitmaps after rewriting a directory block changes no inode or directory. */
  lemma BitmapsOnly(g: Geometry, d: Disk, dv: Disk, d': Disk, t: Tree, p: nat, v: Block)
    requires WellFormed(g, d, t) && LiveDir(t, p) && DirBlockNo(g, d, p) < |d| && dv == d[DirBlockNo(g, d, p) := v]
    requires |d'| == |d| && forall k :: 0 <= k < |d| && k != g.blockBitmap && k != g.inodeBitmap ==> d'[k] == dv[k]
    ensures GeometryOk(g, d) && GeometryOk(g, d') && SameTable(g, d, d')
    ensures forall m :: m in t ==> ReadInode(g, d', m) == ReadInode(g, d, m)
    ensures forall m :: m in t ==> OwnedBlocks(g, d', m, t[m].isDir) == OwnedBlocks(g, d, m, t[m].isDir)
    ensures forall m :: LiveDir(t, m) ==> DirData(g, d', m) == if m == p then v else DirData(g, d, m)
  {
    hide WellFormed, ReadInode, FileBlocks, Marked, IsMeta, Tiled, Recs;
    GeometryOf(g, d, t);
    RewriteDirBlock(g, d, t, p, v);
    LiveIsMarked(g, d, t);
    assert SameTable(g, d, d');
    forall m | m in t ensures ReadInode(g, d', m) == ReadInode(g, d, m) {
      SameTableReads(g, d, d', m);
    }
    forall m | LiveDir(t, m) ensures DirData(g, d', m) == if m == p then v else DirData(g, d, m) {
      DirBlockIsData(g, d, t, m);
      DataIsNotTable(g, d, DirBlockNo(g, d, m));
      assert DirData(g, dv, m) == if m == p then v else DirData(g, d, m);
    }
  }

  /** What the three steps of rm make of the disk. */
  lemma RmDisk(g: Geometry, d: Disk, t: Tree, p: nat, name: seq<byte>, n: nat)
    requires WellFormed(g, d, t) && LiveDir(t, p) && n in t && !t[n].isDir && n != 0
    requires LookIn(g, d, p, name).0 == n
    ensures GeometryOk(g, d) && 1 <= n <= g.inodeCount
    ensures Freeable(FileBlocks(ReadInode(g, d, n), 0))
    ensures var d1 := FreeBlocks(g, d, FileBlocks(ReadInode(g, d, n), 0));
            DirBlockNo(g, d1, p) < |d1| &&
            var (d2, ok) := UnlinkEntry(g, d1, p, name);
            && ok && GeometryOk(g, d2) && |d2| == |d|
            && d2[g.inodeBitmap] == d[g.inodeBitmap] && d2[g.blockBitmap] == d1[g.blockBitmap]
            && RemovedDisk(g, d, FreeInode(g, d2, n), t, p, IndexOf(DirRecs(g, d, p), name), n)
  {
    hide WellFormed, ReadInode, FileBlocks, FreeBlocks, Marked, IsMeta, Tiled, Recs, Unlinked, Unmark, IndexOf;
    hide Removed, DirectoryOk;
    GeometryOf(g, d, t);
    LiveFile(g, d, t, n);
    DirSurvivesFreeing(g, d, t, p, n);
    var bs := FileBlocks(ReadInode(g, d, n), 0);
    FreeBlocksUnmark(g, d, bs);
    var d1 := FreeBlocks(g, d, bs);
    FileEntryIndex(g, d, t, p, name, n);
    UnlinkRemoves(DirData(g, d, p), name);
    var v := Unlinked(DirData(g, d, p), None, 0, name).value;
    RewriteDirBlock(g, d, t, p, v);
    var d' := FreeInode(g, UnlinkEntry(g, d1, p, name).0, n);
    var dv := d[DirBlockNo(g, d, p) := v];
    assert forall k :: 0 <= k < |d| && k != g.blockBitmap && k != g.inodeBitmap ==> d'[k] == dv[k];
    BitmapsOnly(g, d, dv, d', t, p, v);
    forall j | 0 <= j < BITS_PER_BLOCK
      ensures Marked(d'[g.inodeBitmap], j) <==> Marked(d[g.inodeBitmap], j) && j != n - 1
    {
      MarkMarks(d[g.inodeBitmap], n - 1, j);
    }
  }

  lemma NothingToFree(g: Geometry, d: Disk)
    requires GeometryOk(g, d)
    ensures FreeBlocks(g, d, []) == d
  {
  }

  /** rm keeps the volume well-formed and deletes exactly the file it is given: it succeeds
      exactly when the path resolves to a live file, and otherwise changes nothing at all. */
  lemma RmEffect(g: Geometry, s: State, path: seq<byte>)
    requires Valid(g, s)
    ensures GeometryOk(g, s.disk)
    ensures var (s', ok) := Rm(g, s, path);
            var w := Resolve(g, s, path);
            && Valid(g, s') && |s'.disk| == |s.disk|
            && (ok <==> w.ino in s.tree && !s.tree[w.ino].isDir) && (ok ==> 1 <= w.ino <= BITS_PER_BLOCK)
            && (ok ==> w.parent != 0 && Deleted(g, s, s', w.parent, w.name, w.ino))
            && (ok ==> && s'.disk[g.inodeBitmap] == Unmark(s.disk[g.inodeBitmap], w.ino - 1)
                       && (FileBlocks(ReadInode(g, s.disk, w.ino), 0) == [] ==>
                          s'.disk[g.blockBitmap] == s.disk[g.blockBitmap]))
            && (ok ==> forall j :: 0 <= j < BITS_PER_BLOCK ==>
                  (Marked(s'.disk[g.blockBitmap], j)
                   <==> Marked(s.disk[g.blockBitmap], j) && j + 1 !in OwnedBlocks(g, s.disk, w.ino, false)))
            && (!ok ==> s' == s)
  {
    hide WellFormed, ReadInode, FileBlocks, FreeBlocks, Marked, IsMeta, Tiled, Recs, Unmark, IndexOf, Removed;
    hide DirectoryOk;
    hide Traverse, DirData, DirRecs, RemovedDisk, LooksChanged, BitmapsOk, UnlinkEntry, LookIn, DirBlockNo;
    hide IsDirMode, IMode;
    var w := Resolve(g, s, path);
    GeometryOf(g, s.disk, s.tree);
    TraverseIsLive(g, s, path);
    assert 0 !in s.tree by { LiveIsMarked(g, s.disk, s.tree); }
    if w.ino != 0 {
      LiveFile(g, s.disk, s.tree, w.ino);
      if !s.tree[w.ino].isDir {
        NothingToFree(g, s.disk);
        RmDisk(g, s.disk, s.tree, w.parent, w.name, w.ino);
        FileEntryIndex(g, s.disk, s.tree, w.parent, w.name, w.ino);
        var s' := Rm(g, s, path).0;
        var i := IndexOf(DirRecs(g, s.disk, w.parent), w.name);
        RemovalKeeps(g, s.disk, s'.disk, s.tree, w.parent, i, w.ino);
        RemovedMarks(g, s.disk, s'.disk, s.tree, w.parent, i, w.ino);
        RemovedDeletesName(g, s, s', w.parent, w.name, w.ino);
      }
    }
  }

  lemma RemovedMarks(g: Geometry, d: Disk, d': Disk, t: Tree, p: nat, i: nat, n: nat)
    requires GeometryOk(g, d) && n in t && RemovedDisk(g, d, d', t, p, i, n)
    ensures forall j :: 0 <= j < BITS_PER_BLOCK ==>
              (Marked(d'[g.blockBitmap], j) <==> Marked(d[g.blockBitmap], j) && j + 1 !in OwnedBlocks(g, d, n, false))
  {
    hide Marked, OwnedBlocks, ReadInode, DirData, DirRecs, SameTable, Tiled;
  }

  lemma RemovedDeletesName(g: Geometry, s: State, s': State, p: nat, name: seq<byte>, n: nat)
    requires GeometryOk(g, s.disk) && n in s.tree && LiveDir(s.tree, p)
    requires NamesFile(g, s.disk, s.tree, p, IndexOf(DirRecs(g, s.disk, p), name), n)
    requires DistinctNames(DirRecs(g, s.disk, p)) && LookIn(g, s.disk, p, name).1 != FT_DIR
    requires RemovedDisk(g, s.disk, s'.disk, s.tree, p, IndexOf(DirRecs(g, s.disk, p), name), n)
    requires s' == s.(disk := s'.disk, tree := s.tree - {n})
    requires LookIn(g, s.disk, p, name).0 == n
    ensures Deleted(g, s, s', p, name, n)
  {
    hide ReadInode, Marked, Tiled, Recs, IndexOf, Removed, DirData, DirRecs, LookIn, OwnedBlocks, SameTable;
    RemovedLooks(g, s.disk, s'.disk, s.tree, p, name);
  }

  /** After rm exactly the paths that led to the removed entry stop resolving. */
  lemma DeletedPaths(g: Geometry, s: State, s': State, p: nat, name: seq<byte>, n: nat, path: seq<byte>)
    requires Valid(g, s) && p != 0 && Deleted(g, s, s', p, name, n)
    ensures var w := Resolve(g, s, path);
            Resolve(g, s', path)
            == if w.parent == p && w.name == name && path != ROOT_PATH then Found(0, p, name) else w
  {
    hide WellFormed, LooksChanged, LookIn, Walk, Components, ReadInode, DirData, DirRecs, Removed;
    RootIsLive(g, s.disk, s.tree);
    WalkAfterUnbinding(g, s.disk, s'.disk, s.tree, p, name, s.cwd, Components(path));
    if Absolute(path) {
      WalkAfterUnbinding(g, s.disk, s'.disk, s.tree, p, name, ROOT, Components(path[1..]));
    }
  }

  // ---- cd ----

  const PATH_CAPACITY := 256

  /** The index of the last slash of a path string, or 0 when there is none. */
  function LastSlash(p: seq<byte>): (i: nat)
    ensures p != [] ==> i < |p|
  {
    if p == [] then 0 else if p[|p| - 1] == SLASH then |p| - 1 else LastSlash(p[..|p| - 1])
  }

  /** The stored path string after changing directory by `arg`. */
  function NextPath(cwdPath: seq<byte>, arg: seq<byte>): seq<byte>
  {
    if arg == ROOT_PATH then ROOT_PATH
    else if arg == DOTDOT then (if LastSlash(cwdPath) == 0 then ROOT_PATH else cwdPath[..LastSlash(cwdPath)])
    else if arg == DOT then cwdPath
    else if Absolute(arg) then arg
    else (if cwdPath == ROOT_PATH then cwdPath else cwdPath + [SLASH]) + arg
  }

  function Cd(g: Geometry, s: State, arg: seq<byte>): (State, bool)
  {
    var w := Resolve(g, s, arg);
    if w.ino == 0 then (s, false)
    else if !IsDirMode(IMode(ReadInode(g, s.disk, w.ino))) then (s, false)
    else (s.(cwd := w.ino, cwdPath := NextPath(s.cwdPath, arg)), true)
  }

  ghost predicate AllPlain(cs: seq<seq<byte>>)
  {
    forall k :: 0 <= k < |cs| ==> PlainName(cs[k])
  }

  /** `/`, `.`, `..`, or plain names separated by single slashes, with or without one in front. */
  ghost predicate CanonicalArg(arg: seq<byte>)
  {
    || arg == ROOT_PATH || arg == DOT || arg == DOTDOT
    || exists cs :: AllPlain(cs) && cs != [] && (arg == Join(cs) || arg == [SLASH] + Join(cs))
  }

  /** The stored path spells plain names that lead from the root to the working directory. */
  ghost predicate SpellsCwd(g: Geometry, s: State, cs: seq<seq<byte>>)
  {
    AllPlain(cs) && s.cwdPath == [SLASH] + Join(cs) && Walk(g, s.disk, ROOT, cs).ino == s.cwd
  }

  ghost predicate PathMatches(g: Geometry, s: State)
  {
    exists cs :: SpellsCwd(g, s, cs)
  }

  /** The stored path resolves to the working directory. */
  lemma PathResolves(g: Geometry, s: State)
    requires PathMatches(g, s)
    ensures Resolve(g, s, s.cwdPath).ino == s.cwd
  {
    var cs :| SpellsCwd(g, s, cs);
    ComponentsOfJoin(cs);
    assert s.cwdPath[1..] == Join(cs);
    if cs != [] { JoinNotEmpty(cs); }
  }

  lemma {:induction false} JoinAppend(cs: seq<seq<byte>>, c: seq<byte>)
    requires cs != []
    ensures Join(cs + [c]) == Join(cs) + [SLASH] + c
  {
    if |cs| > 1 {
      assert (cs + [c])[1..] == cs[1..] + [c];
      JoinAppend(cs[1..], c);
    }
  }

  lemma {:induction false} JoinConcat(a: seq<seq<byte>>, b: seq<seq<byte>>)
    requires a != [] && b != []
    ensures Join(a + b) == Join(a) + [SLASH] + Join(b)
  {
    if |a| > 1 {
      assert (a + b)[1..] == a[1..] + b;
      JoinConcat(a[1..], b);
    } else {
      assert (a + b)[1..] == b;
    }
  }

  lemma {:induction false} LastSlashAt(p: seq<byte>, c: seq<byte>)
    requires SLASH !in c
    ensures LastSlash(p + [SLASH] + c) == |p|
  {
    if c == [] {
      assert p + [SLASH] + c == p + [SLASH];
    } else {
      assert (p + [SLASH] + c)[..|p| + |c|] == p + [SLASH] + c[..|c| - 1];
      LastSlashAt(p, c[..|c| - 1]);
    }
  }

  /** Walking on from where a first walk ended. */
  lemma {:induction false} WalkConcat(g: Geometry, d: Disk, t: Tree, cur: nat, a: seq<seq<byte>>, b: seq<seq<byte>>)
    requires WellFormed(g, d, t) && LiveDir(t, cur) && LiveDir(t, Walk(g, d, cur, a).ino) && b != []
    ensures Walk(g, d, cur, a + b) == Walk(g, d, Walk(g, d, cur, a).ino, b)
    decreases |a|
  {
    hide WellFormed, LookIn;
    if a == [] {
      assert a + b == b;
    } else {
      LookIsLive(g, d, t, cur, a[0]);
      var (n, kind) := LookIn(g, d, cur, a[0]);
      assert (a + b)[1..] == a[1..] + b && (a + b)[0] == a[0];
      assert 0 !in t by { LiveIsMarked(g, d, t); }
      WalkConcat(g, d, t, n, a[1..], b);
    }
  }

  /** A plain name found in a directory leads to a child whose `..` is that directory. */
  lemma PlainStepBack(g: Geometry, d: Disk, t: Tree, p: nat, c: seq<byte>)
    requires WellFormed(g, d, t) && LiveDir(t, p) && PlainName(c)
    requires LiveDir(t, LookIn(g, d, p, c).0)
    ensures LookIn(g, d, LookIn(g, d, p, c).0, DOTDOT) == (p, FT_DIR)
  {
    hide DirData, Recs, NoSharing, OwnsData, BitmapsOk, Tiled, ReadInode, IsNamed;
    LookIsLive(g, d, t, p, c);
    assert 0 !in t by { LiveIsMarked(g, d, t); }
    var rs := DirRecs(g, d, p);
    assert DirectoryOk(DirData(g, d, p), t, p);
    var i := IndexOf(rs, c);
    assert NamesChild(t, p, rs[i]);
    assert DirectoryOk(DirData(g, d, rs[i].ino), t, rs[i].ino);
    DotsAt(DirRecs(g, d, rs[i].ino), t, rs[i].ino);
  }

  lemma DotsAt(rs: seq<DirRec>, t: Tree, n: nat)
    requires n in t && ChainOk(rs, t, n)
    ensures Look(rs, DOT) == (n, FT_DIR) && Look(rs, DOTDOT) == (t[n].parent, FT_DIR)
  {
    assert rs[1].name == DOTDOT && rs[0].name != DOTDOT;
    assert IndexOf(rs, DOTDOT) == 1 && IndexOf(rs, DOT) == 0;
  }

  lemma DotsOfLive(g: Geometry, d: Disk, t: Tree, n: nat)
    requires WellFormed(g, d, t) && LiveDir(t, n)
    ensures LookIn(g, d, n, DOT) == (n, FT_DIR) && LookIn(g, d, n, DOTDOT) == (t[n].parent, FT_DIR)
    ensures t[ROOT].parent == ROOT
  {
    hide DirData, Recs, NoSharing, OwnsData, BitmapsOk, Tiled, ReadInode, IsNamed;
    assert DirectoryOk(DirData(g, d, n), t, n);
    DotsAt(DirRecs(g, d, n), t, n);
  }

  lemma {:induction false} WalkPrefix(g: Geometry, d: Disk, t: Tree, cur: nat, a: seq<seq<byte>>, b: seq<seq<byte>>)
    requires WellFormed(g, d, t) && LiveDir(t, cur) && b != [] && Walk(g, d, cur, a + b).ino != 0
    ensures LiveDir(t, Walk(g, d, cur, a).ino)
    decreases |a|
  {
    hide WellFormed, LookIn;
    if a != [] {
      LookIsLive(g, d, t, cur, a[0]);
      var (n, kind) := LookIn(g, d, cur, a[0]);
      assert (a + b)[1..] == a[1..] + b && (a + b)[0] == a[0];
      WalkPrefix(g, d, t, n, a[1..], b);
    }
  }

  lemma ComponentsOfOne(c: seq<byte>)
    requires 0 < |c| <= MAX_NAME && SLASH !in c
    ensures Components(c) == [c]
  {
    ComponentLenOf(c, [], MAX_NAME);
    assert c + [] == c && c[..|c|] == c && c[ComponentSpan(c)..] == [];
  }

  lemma JoinIsNoDots(cs: seq<seq<byte>>)
    requires AllPlain(cs) && cs != []
    ensures Join(cs) != DOT && Join(cs) != DOTDOT && Join(cs) != ROOT_PATH && Join(cs) != [] && !Absolute(Join(cs))
  {
    JoinNotEmpty(cs);
    if |cs| > 1 {
      assert PlainName(cs[0]);
      assert Join(cs)[|cs[0]|] == SLASH;
    }
  }

  /** The working directory reached by `..` from a spelled path, and the path it is given. */
  lemma UpKeepsPath(g: Geometry, s: State, cs: seq<seq<byte>>)
    requires Valid(g, s) && SpellsCwd(g, s, cs)
    ensures var up := s.(cwd := LookIn(g, s.disk, s.cwd, DOTDOT).0, cwdPath := NextPath(s.cwdPath, DOTDOT));
            SpellsCwd(g, up, if cs == [] then [] else cs[..|cs| - 1])
  {
    hide WellFormed, LookIn, Components;
    RootIsLive(g, s.disk, s.tree);
    DotsOfLive(g, s.disk, s.tree, ROOT);
    assert 0 !in s.tree by { LiveIsMarked(g, s.disk, s.tree); }
    if cs == [] {
    } else {
      var pre, c := cs[..|cs| - 1], cs[|cs| - 1];
      assert cs == pre + [c];
      WalkPrefix(g, s.disk, s.tree, ROOT, pre, [c]);
      WalkConcat(g, s.disk, s.tree, ROOT, pre, [c]);
      var p := Walk(g, s.disk, ROOT, pre).ino;
      assert PlainName(c) && AllPlain(pre);
      PlainStepBack(g, s.disk, s.tree, p, c);
      if pre == [] {
        assert s.cwdPath == [] + [SLASH] + c;
        LastSlashAt([], c);
      } else {
        JoinAppend(pre, c);
        var q := [SLASH] + Join(pre);
        assert s.cwdPath == q + [SLASH] + c;
        LastSlashAt(q, c);
        assert s.cwdPath[..|q|] == q;
      }
    }
  }

  lemma DescendKeepsPath(g: Geometry, s: State, cs: seq<seq<byte>>, more: seq<seq<byte>>)
    requires Valid(g, s) && SpellsCwd(g, s, cs) && AllPlain(more) && more != []
    ensures var down := s.(cwd := Walk(g, s.disk, s.cwd, more).ino, cwdPath := NextPath(s.cwdPath, Join(more)));
            SpellsCwd(g, down, cs + more)
  {
    hide WellFormed, LookIn, Components;
    RootIsLive(g, s.disk, s.tree);
    JoinIsNoDots(more);
    WalkConcat(g, s.disk, s.tree, ROOT, cs, more);
    if cs == [] {
      assert cs + more == more && s.cwdPath == ROOT_PATH;
    } else {
      JoinConcat(cs, more);
      JoinNotEmpty(cs);
      assert s.cwdPath[1..] == Join(cs);
      assert [SLASH] + Join(cs) + [SLASH] + Join(more) == [SLASH] + (Join(cs) + [SLASH] + Join(more));
    }
  }

  /** cd with a canonical argument keeps the stored path a spelling of the working directory. */
  lemma CdEffect(g: Geometry, s: State, arg: seq<byte>)
    requires Valid(g, s) && PathMatches(g, s) && CanonicalArg(arg)
    ensures var (s', ok) := Cd(g, s, arg);
            var w := Resolve(g, s, arg);
            && Valid(g, s') && PathMatches(g, s')
            && (ok <==> LiveDir(s.tree, w.ino))
            && (ok ==> s' == s.(cwd := w.ino, cwdPath := s'.cwdPath)) && (!ok ==> s' == s)
  {
    hide WellFormed, LookIn, ReadInode, IMode, IsDirMode, NextPath, Components, Walk;
    var (s', ok) := Cd(g, s, arg);
    var w := Resolve(g, s, arg);
    TraverseIsLive(g, s, arg);
    assert 0 !in s.tree by { LiveIsMarked(g, s.disk, s.tree); }
    if w.ino != 0 { LiveFile(g, s.disk, s.tree, w.ino); }
    if ok {
      var cs :| SpellsCwd(g, s, cs);
      CdSpells(g, s, arg, cs);
    }
  }

  lemma CdSpells(g: Geometry, s: State, arg: seq<byte>, cs: seq<seq<byte>>)
    requires Valid(g, s) && SpellsCwd(g, s, cs) && CanonicalArg(arg) && Cd(g, s, arg).1
    ensures PathMatches(g, Cd(g, s, arg).0)
  {
    hide WellFormed, LookIn, ReadInode, IMode, IsDirMode, Components;
    var s' := Cd(g, s, arg).0;
    DotsOfLive(g, s.disk, s.tree, s.cwd);
    if arg == ROOT_PATH {
      assert SpellsCwd(g, s', []);
    } else if arg == DOT {
      ComponentsOfOne(DOT);
      assert SpellsCwd(g, s', cs);
    } else if arg == DOTDOT {
      ComponentsOfOne(DOTDOT);
      UpKeepsPath(g, s, cs);
      assert SpellsCwd(g, s', if cs == [] then [] else cs[..|cs| - 1]);
    } else {
      var more :| AllPlain(more) && more != [] && (arg == Join(more) || arg == [SLASH] + Join(more));
      JoinIsNoDots(more);
      ComponentsOfJoin(more);
      if arg == Join(more) {
        DescendKeepsPath(g, s, cs, more);
        assert SpellsCwd(g, s', cs + more);
      } else {
        assert arg[1..] == Join(more);
        assert SpellsCwd(g, s', more);
      }
    }
  }

  // ---- touch, then rm ----

  lemma NewFileOwnsNothing()
    ensures FileBlocks(NewInode(REG_MODE, 0, 0, 1, 0), 0) == []
  {
    NewInodeFields(REG_MODE, 0, 0, 1, 0);
  }

  /** A successful touch followed by rm of the same path succeeds and restores both bitmaps, the
      whole record chain of the directory, every other directory, every live inode and the tree. */
  lemma TouchThenRm(g: Geometry, s: State, path: seq<byte>)
    requires Valid(g, s) && RoomToCreate(g, s, path) && Touch(g, s, path).1
    ensures var s1 := Touch(g, s, path).0;
            Valid(g, s1) && GeometryOk(g, s.disk) &&
            var (s2, ok) := Rm(g, s1, path);
            var p := Resolve(g, s, path).parent;
            && ok && GeometryOk(g, s2.disk) && s2 == s.(disk := s2.disk)
            && s2.disk[g.inodeBitmap] == s.disk[g.inodeBitmap] && s2.disk[g.blockBitmap] == s.disk[g.blockBitmap]
            && DirRecs(g, s2.disk, p) == DirRecs(g, s.disk, p)
            && (forall m :: LiveDir(s.tree, m) && m != p ==> DirData(g, s2.disk, m) == DirData(g, s.disk, m))
            && (forall m :: m in s.tree ==> ReadInode(g, s2.disk, m) == ReadInode(g, s.disk, m))
  {
    hide WellFormed, ReadInode, DirData, DirRecs, Linked, Removed, LookIn, LooksChanged, Traverse, Touch, Rm;
    hide RoomToCreate, Mark, Unmark;
    hide FirstFree, FileBlocks, NewInode, IndexOf, Slack, Marked, SameView;
    TouchEffect(g, s, path);
    var s1 := Touch(g, s, path).0;
    var w := Resolve(g, s, path);
    var p, name, n := w.parent, w.name, FirstFree(s.disk[g.inodeBitmap], 0) + 1;
    var node := Node(false, p, s.tree[p].depth + 1);
    CreatedPaths(g, s, s1, p, name, n, node, FT_REG_FILE, path);
    RmEffect(g, s1, path);
    var s2 := Rm(g, s1, path).0;
    GeometryOf(g, s2.disk, s2.tree);
    NewFileOwnsNothing();
    UnmarkAfterMark(s.disk[g.inodeBitmap], n - 1);
    NotFound(g, s.disk, s.tree, p, name);
    ChainRestored(g, s.disk, s.tree, p, name, n, FT_REG_FILE);
    assert s2.tree == s.tree;
  }

  lemma ChainRestored(g: Geometry, d: Disk, t: Tree, p: nat, name: seq<byte>, n: nat, kind: byte)
    requires WellFormed(g, d, t) && LiveDir(t, p) && IndexOf(DirRecs(g, d, p), name) == |DirRecs(g, d, p)|
    ensures var rs := DirRecs(g, d, p);
            rs != [] &&
            var rs' := Linked(rs, name, n, kind);
            0 < IndexOf(rs', name) < |rs'| && Removed(rs', IndexOf(rs', name)) == rs
  {
    hide WellFormed, DirData, Recs, IndexOf, Removed;
    DirBlockIsData(g, d, t, p);
    RemoveAfterLink(DirData(g, d, p), name, n, kind);
  }

  // ---- cd outside the canonical arguments ----

  /** From the root, `cd a/..` and then `cd ..` leave the stored path `/a` while the working
      directory is the root: with a dot part in its argument cd does not keep the path right. */
  lemma NonCanonicalCdBreaks(g: Geometry, s: State, a: seq<byte>)
    requires Valid(g, s) && s.cwd == ROOT && s.cwdPath == ROOT_PATH
    requires PlainName(a) && |a| < 250 && LiveDir(s.tree, LookIn(g, s.disk, ROOT, a).0)
    ensures var (s1, ok1) := Cd(g, s, a + [SLASH] + DOTDOT);
            var (s2, ok2) := Cd(g, s1, DOTDOT);
            && ok1 && ok2 && s2.cwd == ROOT && s2.cwdPath == [SLASH] + a
            && Resolve(g, s2, s2.cwdPath).ino != s2.cwd
  {
    hide WellFormed, LookIn, Components, IMode, IsDirMode, ReadInode;
    var arg := a + [SLASH] + DOTDOT;
    assert 0 !in s.tree by { LiveIsMarked(g, s.disk, s.tree); }
    var n := LookIn(g, s.disk, ROOT, a).0;
    LookIsLive(g, s.disk, s.tree, ROOT, a);
    PlainStepBack(g, s.disk, s.tree, ROOT, a);
    DotsOfLive(g, s.disk, s.tree, ROOT);
    LiveFile(g, s.disk, s.tree, ROOT);
    DotDotComponents(a);
    assert arg[0] == a[0] && a[0] in a;
    assert !Absolute(arg) && [a, DOTDOT][1..] == [DOTDOT];
    assert Walk(g, s.disk, n, [DOTDOT]).ino == ROOT;
    assert Resolve(g, s, arg).ino == ROOT;
    var s1 := Cd(g, s, arg).0;
    assert arg[|a|] == SLASH;
    assert s1 == s.(cwdPath := [SLASH] + arg);
    ComponentsOfOne(DOTDOT);
    var s2 := Cd(g, s1, DOTDOT).0;
    assert s1.cwdPath == ([SLASH] + a) + [SLASH] + DOTDOT;
    LastSlashAt([SLASH] + a, DOTDOT);
    assert s1.cwdPath[..1 + |a|] == [SLASH] + a;
    ComponentsOfOne(a);
    assert ([SLASH] + a)[1..] == a;
    ChildIsNotRoot(g, s.disk, s.tree, ROOT, a);
  }

  /** Two strings that agree up to their first slashes have the same beginnings. */
  lemma SameBeginning(a: seq<byte>, x: seq<byte>, b: seq<byte>, y: seq<byte>)
    requires SLASH !in a && SLASH !in b && |a| <= MAX_NAME && |b| <= MAX_NAME && a + x == b + y
    requires (x == [] || x[0] == SLASH) && (y == [] || y[0] == SLASH)
    ensures a == b && x == y
  {
    hide ComponentLen;
    ComponentLenOf(a, x, MAX_NAME);
    ComponentLenOf(b, y, MAX_NAME);
    assert (a + x)[..|a|] == a && (b + y)[..|b|] == b && (a + x)[|a|..] == x && (b + y)[|b|..] == y;
  }

  function JoinRest(cs: seq<seq<byte>>): (r: seq<byte>)
    requires cs != []
    ensures Join(cs) == cs[0] + r && (r == [] || r[0] == SLASH)
  {
    if |cs| == 1 then [] else [SLASH] + Join(cs[1..])
  }

  /** What follows spelled names and a slash in a spelling is a spelling of the names that follow. */
  lemma {:induction false} SpellingSplits(cs: seq<seq<byte>>, arg: seq<byte>, cs': seq<seq<byte>>)
    requires AllPlain(cs) && AllPlain(cs') && cs != [] && Join(cs) + [SLASH] + arg == Join(cs')
    ensures |cs| < |cs'| && arg == Join(cs'[|cs|..])
    decreases |cs|
  {
    hide Join, JoinRest;
    NoneToJoin();
    var x := JoinRest(cs) + [SLASH] + arg;
    assert cs[0] + x == Join(cs) + [SLASH] + arg;
    assert PlainName(cs[0]) && PlainName(cs'[0]) && x[0] == SLASH;
    SameBeginning(cs[0], x, cs'[0], JoinRest(cs'));
    JoinTail(cs');
    assert x[1..] == Join(cs'[1..]);
    JoinTail(cs);
    if |cs| == 1 {
      assert x[1..] == arg;
    } else {
      assert x[1..] == Join(cs[1..]) + [SLASH] + arg;
      SpellingSplits(cs[1..], arg, cs'[1..]);
      assert cs'[1..][|cs| - 1..] == cs'[|cs|..];
    }
  }

  lemma NoneToJoin()
    ensures Join([]) == []
  {
  }

  lemma JoinTail(cs: seq<seq<byte>>)
    requires cs != []
    ensures |cs| == 1 ==> JoinRest(cs) == []
    ensures |cs| > 1 ==> JoinRest(cs) == [SLASH] + Join(cs[1..])
  {
    hide Join;
  }

  /** The stored path still spells the working directory after a successful cd exactly when the argument is
      canonical, or empty at the root. */
  lemma CdKeepsSpellingIff(g: Geometry, s: State, arg: seq<byte>)
    requires Valid(g, s) && PathMatches(g, s) && Cd(g, s, arg).1
    ensures PathMatches(g, Cd(g, s, arg).0) <==> CanonicalArg(arg) || (arg == [] && s.cwdPath == ROOT_PATH)
  {
    hide WellFormed, LookIn, ReadInode, IMode, IsDirMode, Components, Walk;
    var s' := Cd(g, s, arg).0;
    var cs :| SpellsCwd(g, s, cs);
    if CanonicalArg(arg) {
      CdSpells(g, s, arg, cs);
    } else if arg == [] && s.cwdPath == ROOT_PATH {
      NoComponents(g, s.disk, s.cwd);
      assert SpellsCwd(g, s', cs);
    } else if PathMatches(g, s') {
      var cs' :| SpellsCwd(g, s', cs');
      OnlyCanonicalSpells(g, s, arg, cs, s', cs');
    }
  }

  lemma NoComponents(g: Geometry, d: Disk, cur: nat)
    ensures Components([]) == [] && Walk(g, d, cur, []).ino == cur
  {
  }

  lemma OnlyCanonicalSpells(g: Geometry, s: State, arg: seq<byte>, cs: seq<seq<byte>>, s': State, cs': seq<seq<byte>>)
    requires SpellsCwd(g, s, cs) && SpellsCwd(g, s', cs') && s'.cwdPath == NextPath(s.cwdPath, arg)
    ensures CanonicalArg(arg) || (arg == [] && s.cwdPath == ROOT_PATH)
  {
    hide Walk;
    if arg == ROOT_PATH || arg == DOT || arg == DOTDOT {
    } else if Absolute(arg) {
      assert cs' == [] ==> arg == ROOT_PATH;
    } else if s.cwdPath == ROOT_PATH {
      assert s'.cwdPath[1..] == arg && s'.cwdPath[1..] == Join(cs');
    } else {
      assert cs != [];
      assert s'.cwdPath[1..] == Join(cs) + [SLASH] + arg && s'.cwdPath[1..] == Join(cs');
      SpellingSplits(cs, arg, cs');
      assert AllPlain(cs'[|cs|..]);
    }
  }

  lemma ChildIsNotRoot(g: Geometry, d: Disk, t: Tree, p: nat, a: seq<byte>)
    requires WellFormed(g, d, t) && LiveDir(t, p) && PlainName(a) && LookIn(g, d, p, a).0 != 0
    ensures LookIn(g, d, p, a).0 != ROOT
  {
    hide DirData, Recs, NoSharing, OwnsData, BitmapsOk, Tiled, ReadInode, IsNamed;
    var rs := DirRecs(g, d, p);
    assert DirectoryOk(DirData(g, d, p), t, p);
    assert NamesChild(t, p, rs[IndexOf(rs, a)]);
  }

  lemma DotDotComponents(a: seq<byte>)
    requires PlainName(a)
    ensures Components(a + [SLASH] + DOTDOT) == [a, DOTDOT]
  {
    var s := a + [SLASH] + DOTDOT;
    var rest := [SLASH] + DOTDOT;
    assert s == a + rest;
    ComponentLenOf(a, rest, MAX_NAME);
    assert s[..|a|] == a && s[|a|..] == rest && rest[1..] == DOTDOT;
    assert SlashRun(rest) == 1 + SlashRun(DOTDOT) == 1;
    assert s[ComponentSpan(s)..] == DOTDOT;
    ComponentsOfOne(DOTDOT);
  }
}
