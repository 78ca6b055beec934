/** The ext2 driver: block buffers and bitmaps changed in place and written back, offset loops
    over record lengths, and the globals of the working directory. Each method is proved equal
    to the step or the transaction it stands for. */
module Ext2 {
  import opened Bits
  import opened Bytes
  import opened DirBlock
  import opened Volume
  import opened Paths
  import opened Transactions
  import FileSystem
  import opened Wrappers

  // ---- block buffers ----

  /** memcpy of `src` into a buffer at `at`. */
  method CopyInto(buf: array<byte>, at: nat, src: seq<byte>)
    requires at + |src| <= buf.Length
    modifies buf
    ensures buf[..] == Put(old(buf[..]), at, src)
  {
    var i := 0;
    while i < |src|
      invariant 0 <= i <= |src|
      invariant forall k :: 0 <= k < buf.Length ==> buf[k] == if at <= k < at + i then src[k - at] else old(buf[k])
    {
      buf[at + i] := src[i];
      i := i + 1;
    }
    assert forall k :: 0 <= k < buf.Length ==> buf[..][k] == Put(old(buf[..]), at, src)[k];
  }

  /** Store an entry's inode, length, name length, type and name at `at`. */
  method StoreEntry(buf: array<byte>, at: nat, ino: nat, len: nat, kind: byte, name: seq<byte>)
    requires |name| < 256 && at + 8 + |name| <= buf.Length == BLOCK_SIZE
    modifies buf
    ensures buf[..] == Put(old(buf[..]), at, EntryBytes(ino, len, kind, name))
  {
    ghost var before := buf[..];
    CopyInto(buf, at, Bytes32(ino));
    CopyInto(buf, at + 7, [kind]);
    CopyInto(buf, at + 6, [|name|]);
    CopyInto(buf, at + 4, Bytes16(len));
    CopyInto(buf, at + 8, name);
    ghost var v := EntryBytes(ino, len, kind, name);
    assert v[..4] == Bytes32(ino) && v[4..6] == Bytes16(len) && v[6] == |name| && v[7] == kind && v[8..] == name;
    assert forall k :: 0 <= k < BLOCK_SIZE ==> buf[..][k] == Put(before, at, v)[k];
  }

  /** Does the entry at `off` have this name? */
  method NameMatches(buf: array<byte>, off: nat, name: seq<byte>) returns (same: bool)
    requires buf.Length == BLOCK_SIZE && Fits(buf[..], off)
    ensures same <==> EntryName(buf[..], off) == name
  {
    if buf[off + 6] != |name| {
      return false;
    }
    var i := 0;
    while i < |name|
      invariant 0 <= i <= |name|
      invariant forall k :: 0 <= k < i ==> buf[off + 8 + k] == name[k]
    {
      if buf[off + 8 + i] != name[i] {
        assert EntryName(buf[..], off)[i] != name[i];
        return false;
      }
      i := i + 1;
    }
    assert forall k :: 0 <= k < |name| ==> EntryName(buf[..], off)[k] == name[k];
    return true;
  }

  // ---- mounting ----

  const MAGIC := 0xEF53

  /** What the driver takes from the superblock in block 1 and the first group descriptor in block 2: nothing
      unless the superblock carries the magic number. */
  function ReadDescriptor(disk: Disk): Option<Geometry>
    requires |disk| > 2
  {
    if Le16(disk[1], 56) != MAGIC then None
    else Some(Geometry(Le32(disk[2], 0), Le32(disk[2], 4), Le32(disk[2], 8), Le32(disk[1], 0)))
  }

  /** Mount a disk; null when it is no ext2 volume. The driver is valid when the disk holds the files of `tree`. */
  method Init(disk: Disk, ghost tree: Tree) returns (driver: Driver?)
    requires |disk| > 2
    ensures driver == null <==> ReadDescriptor(disk) == None
    ensures driver != null ==> fresh(driver) && Some(driver.g) == ReadDescriptor(disk)
    ensures driver != null ==> (driver.Valid() <==> WellFormed(driver.g, disk, tree))
    ensures driver != null ==> driver.Abs() == FileSystem.State(disk, tree, ROOT, ROOT_PATH)
  {
    if Le16(disk[1], 56) != MAGIC {
      return null;
    }
    driver := new Driver(Geometry(Le32(disk[2], 0), Le32(disk[2], 4), Le32(disk[2], 8), Le32(disk[1], 0)), disk, tree);
  }

  class Driver {
    const g: Geometry
    var disk: seq<Block>
    var currentDir: nat
    var currentPath: seq<byte>
    /** The live inodes; each transaction says how it changes. */
    ghost var tree: Tree

    ghost function Abs(): FileSystem.State
      reads this
    {
      FileSystem.State(disk, tree, currentDir, currentPath)
    }

    ghost predicate Valid()
      reads this
    {
      FileSystem.Valid(g, Abs())
    }

    /** The globals as they start: the root is the working directory. */
    constructor (g: Geometry, disk: Disk, ghost tree: Tree)
      ensures Valid() <==> WellFormed(g, disk, tree)
      ensures this.g == g && Abs() == FileSystem.State(disk, tree, ROOT, ROOT_PATH)
    {
      this.g, this.disk, this.tree := g, disk, tree;
      currentDir, currentPath := ROOT, ROOT_PATH;
      new;
      if WellFormed(g, disk, tree) { FileSystem.RootIsLive(g, disk, tree); }
    }

    // ---- blocks, bitmaps and inodes ----

    method ReadBlock(b: nat) returns (buf: array<byte>)
      requires b < |disk|
      ensures fresh(buf) && buf.Length == BLOCK_SIZE && buf[..] == disk[b]
    {
      var content := disk[b];
      buf := new byte[BLOCK_SIZE](i requires 0 <= i < BLOCK_SIZE => content[i]);
    }

    method WriteBlock(b: nat, buf: array<byte>)
      requires b < |disk| && buf.Length == BLOCK_SIZE
      modifies this`disk
      ensures disk == old(disk)[b := buf[..]]
    {
      disk := disk[b := buf[..]];
    }

    /** Mark the first free bit of the bitmap in block `bitmapBlock`; its number plus one, or 0. */
    method AllocBit(bitmapBlock: nat) returns (r: nat)
      requires bitmapBlock < |disk|
      modifies this`disk
      ensures var i := FirstFree(old(disk)[bitmapBlock], 0);
              if i < BITS_PER_BLOCK
              then r == i + 1 && disk == old(disk)[bitmapBlock := Mark(old(disk)[bitmapBlock], i)]
              else r == 0 && disk == old(disk)
    {
      hide FirstFree, Mark, Marked, WithBit, LowestClear, BitAt;
      var bitmap := ReadBlock(bitmapBlock);
      ghost var bm: Block := bitmap[..];
      var i := 0;
      while i < BLOCK_SIZE
        invariant 0 <= i <= BLOCK_SIZE && bitmap[..] == bm && disk == old(disk)
        invariant FirstFree(bm, 0) == FirstFree(bm, i * 8)
      {
        if bitmap[i] != 0xFF {
          var bit := 0;
          FreeBitInByte(bm, i);
          while bit < 8
            invariant 0 <= bit <= LowestClear(bm[i], 8) < 8 && bitmap[..] == bm && disk == old(disk)
            invariant FirstFree(bm, 0) == FirstFree(bm, i * 8 + bit)
          {
            BitOfBlock(bm, i, bit);
            if !BitAt(bitmap[i], bit) {
              bitmap[i] := WithBit(bitmap[i], bit);
              assert bitmap[..] == Mark(bm, i * 8 + bit) by { MarkIsUpdate(bm, i, bit); }
              WriteBlock(bitmapBlock, bitmap);
              return i * 8 + bit + 1;
            }
            bit := bit + 1;
          }
        } else {
          SkipFullByte(bm, i);
        }
        i := i + 1;
      }
      NoneFree(bm);
      return 0;
    }

    method AllocInode() returns (n: nat)
      requires GeometryOk(g, disk)
      modifies this`disk
      ensures (disk, n) == Transactions.AllocInode(g, old(disk))
    {
      n := AllocBit(g.inodeBitmap);
    }

    method AllocBlock() returns (b: nat)
      requires GeometryOk(g, disk)
      modifies this`disk
      ensures (disk, b) == Transactions.AllocBlock(g, old(disk))
    {
      b := AllocBit(g.blockBitmap);
    }

    method FreeInode(n: nat)
      requires GeometryOk(g, disk) && 1 <= n <= BITS_PER_BLOCK
      modifies this`disk
      ensures disk == Transactions.FreeInode(g, old(disk), n)
    {
      var bitmap := ReadBlock(g.inodeBitmap);
      var index := n - 1;
      bitmap[index / 8] := WithoutBit(bitmap[index / 8], index % 8);
      WriteBlock(g.inodeBitmap, bitmap);
    }

    method FreeBlock(b: nat)
      requires GeometryOk(g, disk) && 1 <= b <= BITS_PER_BLOCK
      modifies this`disk
      ensures disk == Transactions.FreeBlock(g, old(disk), b)
    {
      var bitmap := ReadBlock(g.blockBitmap);
      var index := b - 1;
      bitmap[index / 8] := WithoutBit(bitmap[index / 8], index % 8);
      WriteBlock(g.blockBitmap, bitmap);
    }

    method ReadInode(n: nat) returns (x: Inode)
      requires 1 <= n && TableBlock(g, n) < |disk|
      ensures x == Volume.ReadInode(g, disk, n)
    {
      var index := n - 1;
      var at := index % INODES_PER_BLOCK * INODE_SIZE;
      var buf := ReadBlock(g.inodeTable + index / INODES_PER_BLOCK);
      assert at == TableOffset(n);
      x := buf[at..at + INODE_SIZE];
      assert x == buf[..][at..at + INODE_SIZE];
    }

    method WriteInode(n: nat, x: Inode)
      requires 1 <= n && TableBlock(g, n) < |disk|
      modifies this`disk
      ensures disk == Volume.WriteInode(g, old(disk), n, x)
    {
      var index := n - 1;
      var at := index % INODES_PER_BLOCK * INODE_SIZE;
      var buf := ReadBlock(g.inodeTable + index / INODES_PER_BLOCK);
      assert at == TableOffset(n);
      CopyInto(buf, at, x);
      WriteBlock(g.inodeTable + index / INODES_PER_BLOCK, buf);
    }

    // ---- directory blocks ----

    /** The inode and type of `name` in directory `dir`, or 0. */
    method FindInDir(dir: nat, name: seq<byte>) returns (ino: nat, kind: byte)
      requires 1 <= dir && TableBlock(g, dir) < |disk| && HasDirBlock(g, disk, dir)
      ensures (ino, kind) == LookIn(g, disk, dir, name)
    {
      hide Recs, Tiled, EntryLen, EntryIno, EntryKind, EntryNameLen, EntryName, RecSize, RecAt, Look;
      var dirInode := ReadInode(dir);
      var buf := ReadBlock(IBlock(dirInode, 0));
      ghost var b: Block := buf[..];
      var offset := 0;
      while offset < BLOCK_SIZE
        invariant offset <= BLOCK_SIZE && buf[..] == b && Tiled(b, offset)
        invariant Look(Recs(b, 0), name) == Look(Recs(b, offset), name)
        decreases BLOCK_SIZE - offset
      {
        ChainStep(b, offset);
        LookStep(b, offset, name);
        if Le32(buf[..], offset) == 0 || Le16(buf[..], offset + 4) == 0 {
          EntryFields(b, offset);
          break;
        }
        var same := NameMatches(buf, offset, name);
        if same {
          EntryFields(b, offset);
          return Le32(buf[..], offset), buf[offset + 7];
        }
        EntryFields(b, offset);
        offset := offset + Le16(buf[..], offset + 4);
      }
      LookNothing(b, name);
      return 0, 0;
    }

    /** Cut the entry at `offset` to `trueSize` bytes, put a new one behind it and write the block. */
    method StoreLinked(dirBlock: nat, buf: array<byte>, offset: nat, trueSize: nat, ino: nat, len: nat,
        kind: byte, name: seq<byte>)
      requires dirBlock < |disk| && buf.Length == BLOCK_SIZE && |name| < 256
      requires offset + 6 <= BLOCK_SIZE && offset + trueSize + 8 + |name| <= BLOCK_SIZE
      modifies this`disk, buf
      ensures var shortened := Put(old(buf[..]), offset + 4, Bytes16(trueSize));
              disk == old(disk)[dirBlock := Put(shortened, offset + trueSize, EntryBytes(ino, len, kind, name))]
    {
      hide Put, Bytes16, EntryBytes;
      var newOffset := offset + trueSize;
      CopyInto(buf, offset + 4, Bytes16(trueSize));
      StoreEntry(buf, newOffset, ino, len, kind, name);
      WriteBlock(dirBlock, buf);
    }

    /** Give the last record's slack to a new entry; false when the block has no slack. */
    method LinkDirEntry(parent: nat, name: seq<byte>, ino: nat, kind: byte) returns (ok: bool)
      requires 1 <= parent && TableBlock(g, parent) < |disk| && HasDirBlock(g, disk, parent)
      requires |name| <= MAX_NAME && RoomFor(DirData(g, disk, parent), name)
      requires DistinctNames(DirRecs(g, disk, parent))
      modifies this`disk
      ensures (disk, ok) == LinkEntry(g, old(disk), parent, name, ino, kind)
    {
      hide Recs, Tiled, EntryLen, EntryIno, EntryKind, EntryNameLen, EntryName, RecAt, LastOff, RecSize, Put;
      hide EntryBytes, Bytes16, Le16;
      var parentInode := ReadInode(parent);
      var dirBlock := IBlock(parentInode, 0);
      var buf := ReadBlock(dirBlock);
      ghost var b: Block := buf[..];
      AtMost85Entries(b);
      var offset := 0;
      var loopGuard := 0;
      while offset < BLOCK_SIZE && loopGuard < 100
        invariant offset <= BLOCK_SIZE && buf[..] == b && Tiled(b, offset) && disk == old(disk)
        invariant loopGuard + |Recs(b, offset)| == |Recs(b, 0)| <= 85
        invariant offset < BLOCK_SIZE ==> LastOff(b, offset) == LastOff(b, 0)
        invariant offset == BLOCK_SIZE ==> Slack(b) == 0
        decreases BLOCK_SIZE - offset
      {
        ChainStep(b, offset);
        EntryFields(b, offset);
        LastOffStep(b, offset);
        var recLen := Le16(buf[..], offset + 4);
        var nameLen: nat := buf[offset + 6];
        var trueSize := RecSize(nameLen);
        if recLen > trueSize && offset + recLen == BLOCK_SIZE {
          RoomIsInBounds(b, name);
          StoreLinked(dirBlock, buf, offset, trueSize, ino, recLen - trueSize, kind, name);
          return true;
        }
        offset := offset + recLen;
        loopGuard := loopGuard + 1;
      }
      NoChainLeft(b);
      return false;
    }

    /** Let the record before the named one swallow it; false when there is no such name. */
    method UnlinkDirEntry(parent: nat, name: seq<byte>) returns (ok: bool)
      requires 1 <= parent && TableBlock(g, parent) < |disk| && HasDirBlock(g, disk, parent)
      modifies this`disk
      ensures (disk, ok) == UnlinkEntry(g, old(disk), parent, name)
    {
      hide Recs, Tiled, EntryLen, EntryIno, EntryKind, EntryNameLen, EntryName, RecAt, RecSize, Unlinked, Put;
      var parentInode := ReadInode(parent);
      var dirBlock := IBlock(parentInode, 0);
      var buf := ReadBlock(dirBlock);
      ghost var b: Block := buf[..];
      var offset := 0;
      var prev: Option<nat> := None;
      while offset < BLOCK_SIZE
        invariant offset <= BLOCK_SIZE && buf[..] == b && Tiled(b, offset) && disk == old(disk)
        invariant prev.Some? ==> Fits(b, prev.value)
        invariant Unlinked(b, None, 0, name) == Unlinked(b, prev, offset, name)
        decreases BLOCK_SIZE - offset
      {
        ChainStep(b, offset);
        EntryFields(b, offset);
        UnlinkStep(b, prev, offset, name);
        if Le16(buf[..], offset + 4) == 0 {
          break;
        }
        var same := NameMatches(buf, offset, name);
        if same {
          match prev {
            case None => CopyInto(buf, offset, Bytes32(0));
            case Some(p) =>
              EntryFields(b, p);
              CopyInto(buf, p + 4, Bytes16(Le16(buf[..], p + 4) + Le16(buf[..], offset + 4)));
          }
          WriteBlock(dirBlock, buf);
          return true;
        }
        prev := Some(offset);
        offset := offset + Le16(buf[..], offset + 4);
      }
      UnlinkEnds(b, prev, name);
      return false;
    }

    // ---- paths ----

    /** One path component, at most 255 bytes of it, and the slashes after it. */
    method NextComponent(path: CString, start: nat) returns (comp: seq<byte>, i: nat)
      requires start < |path|
      ensures start < i <= |path| && Components(path[start..]) == [comp] + Components(path[i..])
    {
      hide Components, ComponentLen, SlashRun;
      comp, i := [], start;
      while i < |path| && path[i] != SLASH && |comp| < MAX_NAME
        invariant start <= i <= |path| && comp == path[start..i]
        invariant |comp| <= MAX_NAME
        invariant ComponentLen(path[start..], MAX_NAME) == |comp| + ComponentLen(path[i..], MAX_NAME - |comp|)
        decreases |path| - i
      {
        ComponentLenStep(path, i, MAX_NAME - |comp|);
        comp := comp + [path[i]];
        i := i + 1;
      }
      ComponentLenStop(path, i, MAX_NAME - |comp|);
      ghost var stop := i;
      while i < |path| && path[i] == SLASH
        invariant stop <= i <= |path| && SlashRun(path[stop..]) == i - stop + SlashRun(path[i..])
        decreases |path| - i
      {
        SlashRunStep(path, i);
        i := i + 1;
      }
      SlashRunStop(path, i);
      FirstComponent(path, start, stop, i);
    }

    /** Resolve a path, remembering the directory and name of its last step. */
    method TraversePath(path: CString) returns (w: Found)
      requires Valid()
      ensures w == Traverse(g, disk, currentDir, path)
    {
      hide WellFormed, LookIn, Components, ComponentLen, SlashRun;
      var cur: nat := if Absolute(path) then ROOT else currentDir;
      if path == ROOT_PATH {
        return Found(ROOT, ROOT, ROOT_PATH);
      }
      FileSystem.RootIsLive(g, disk, tree);
      var i: nat := if Absolute(path) then 1 else 0;
      assert path[0..] == path;
      while i < |path|
        invariant i <= |path| && LiveDir(tree, cur)
        invariant Walk(g, disk, cur, Components(path[i..])) == Traverse(g, disk, currentDir, path)
        decreases |path| - i
      {
        var comp: seq<byte>;
        comp, i := NextComponent(path, i);
        DirBlockIsData(g, disk, tree, cur);
        InTable(g, disk, tree, cur);
        var next, kind := FindInDir(cur, comp);
        var isLast := i == |path|;
        ComponentsEmpty(path[i..]);
        if isLast {
          return Found(next, cur, comp);
        }
        if next == 0 || kind != FT_DIR {
          return Found(0, 0, []);
        }
        LookIsLive(g, disk, tree, cur, comp);
        cur := next;
      }
      ComponentsEmpty(path[i..]);
      return Found(cur, 0, []);
    }

    // ---- transactions ----

    /** The first block of a new directory: `.` and `..`. */
    method InitDirBlock(b: nat, n: nat, parent: nat)
      requires b < |disk|
      modifies this`disk
      ensures disk == old(disk)[b := FreshDir(n, parent)]
    {
      var buf := new byte[BLOCK_SIZE](_ => 0);
      assert buf[..] == ZeroBlock();
      StoreEntry(buf, 0, n, 12, FT_DIR, DOT);
      StoreEntry(buf, 12, parent, BLOCK_SIZE - 12, FT_DIR, DOTDOT);
      FreshDirBytes(n, parent);
      WriteBlock(b, buf);
    }

    /** Create a directory: inode, block with `.` and `..`, then the entry in its parent. */
    method Mkdir(path: CString) returns (ok: bool)
      requires Valid() && FileSystem.RoomToCreate(g, Abs(), path)
      modifies this`disk, this`tree
      ensures Valid() && (Abs(), ok) == FileSystem.Mkdir(g, old(Abs()), path)
    {
      hide WellFormed, Traverse, LookIn, Recs, Tiled, DirData, Volume.ReadInode, SameView, Ready, NewInode;
      hide FreshDir, Marked;
      hide FileSystem.RoomToCreate, FileSystem.Mkdir, FileSystem.PrepareDir, FileSystem.Created, FileSystem.Untouched;
      hide LinkEntry, Volume.WriteInode, Transactions.AllocInode, Transactions.AllocBlock, HasDirBlock, RoomFor, IsMeta;
      ghost var s := Abs();
      FileSystem.MkdirEffect(g, s, path);
      GeometryOf(g, disk, tree);
      var w := TraversePath(path);
      if w.ino != 0 || w.parent == 0 {
        FileSystem.MkdirCases(g, s, path, s.disk, 0);
        return false;
      }
      AllocInodeKeeps(g, disk, tree);
      var n := AllocInode();
      ghost var d1 := disk;
      if n == 0 {
        FileSystem.PrepareDirSteps(g, s.disk, s.tree, w.parent, d1, n, d1, 0);
        FileSystem.MkdirCases(g, s, path, d1, 0);
        return false;
      }
      GeometryOf(g, disk, tree);
      AllocBlockKeeps(g, disk, tree);
      var b := AllocBlock();
      FileSystem.PrepareDirSteps(g, s.disk, s.tree, w.parent, d1, n, disk, b);
      if b == 0 {
        FileSystem.MkdirCases(g, s, path, disk, 0);
        return false;
      }
      var inode := NewInode(FileSystem.DIR_MODE, BLOCK_SIZE, 2, 2, b);
      WriteInodeKeeps(g, disk, tree, n, inode);
      WriteInode(n, inode);
      InitDirBlock(b, n, w.parent);
      FileSystem.MkdirCases(g, s, path, disk, n);
      InTable(g, disk, tree, w.parent);
      NamesDistinct(g, disk, tree, w.parent);
      ok := LinkDirEntry(w.parent, w.name, n, FT_DIR);
      if ok { tree := tree[n := Node(true, w.parent, tree[w.parent].depth + 1)]; }
    }

    /** Create an empty file: inode, then the entry in its directory. */
    method Touch(path: CString) returns (ok: bool)
      requires Valid() && FileSystem.RoomToCreate(g, Abs(), path)
      modifies this`disk, this`tree
      ensures Valid() && (Abs(), ok) == FileSystem.Touch(g, old(Abs()), path)
    {
      hide WellFormed, Traverse, LookIn, Recs, Tiled, DirData, Volume.ReadInode, SameView, Ready, NewInode, Marked;
      hide FileSystem.RoomToCreate, FileSystem.Touch, FileSystem.PrepareFile, FileSystem.Created, FileSystem.Untouched;
      hide LinkEntry, Volume.WriteInode, Transactions.AllocInode, HasDirBlock, RoomFor, IsMeta;
      ghost var s := Abs();
      FileSystem.TouchEffect(g, s, path);
      GeometryOf(g, disk, tree);
      var w := TraversePath(path);
      if w.ino != 0 || w.parent == 0 {
        FileSystem.TouchCases(g, s, path, s.disk, 0);
        return false;
      }
      AllocInodeKeeps(g, disk, tree);
      var n := AllocInode();
      FileSystem.PrepareFileSteps(g, s.disk, s.tree, disk, n);
      if n == 0 {
        FileSystem.TouchCases(g, s, path, disk, 0);
        return false;
      }
      var inode := NewInode(FileSystem.REG_MODE, 0, 0, 1, 0);
      WriteInodeKeeps(g, disk, tree, n, inode);
      WriteInode(n, inode);
      FileSystem.TouchCases(g, s, path, disk, n);
      InTable(g, disk, tree, w.parent);
      NamesDistinct(g, disk, tree, w.parent);
      ok := LinkDirEntry(w.parent, w.name, n, FT_REG_FILE);
      if ok { tree := tree[n := Node(false, w.parent, tree[w.parent].depth + 1)]; }
    }

    /** Remove a file: free its blocks, unlink its entry, free its inode. */
    method Rm(path: CString) returns (ok: bool)
      requires Valid()
      modifies this`disk, this`tree
      ensures Valid() && (Abs(), ok) == FileSystem.Rm(g, old(Abs()), path)
    {
      hide WellFormed, Traverse, LookIn, Recs, Tiled, DirData, Volume.ReadInode, IMode, IsDirMode, Marked, IsMeta;
      hide Transactions.FreeInode, Transactions.FreeBlock, UnlinkEntry, FileSystem.Deleted;
      ghost var s := Abs();
      FileSystem.RmEffect(g, s, path);
      GeometryOf(g, disk, tree);
      var w := TraversePath(path);
      if w.ino == 0 { return false; }
      FileSystem.TraverseIsLive(g, s, path);
      InTable(g, disk, tree, w.ino);
      var target := ReadInode(w.ino);
      if IsDirMode(IMode(target)) { return false; }
      FileSystem.LiveFile(g, s.disk, s.tree, w.ino);
      ghost var blocks := FileBlocks(target, 0);
      FileSystem.DirSurvivesFreeing(g, s.disk, s.tree, w.parent, w.ino);
      var i := 0;
      while i < DIRECT_BLOCKS && IBlock(target, i) != 0
        invariant 0 <= i <= DIRECT_BLOCKS && GeometryOk(g, disk) && tree == s.tree && currentDir == s.cwd
        invariant currentPath == s.cwdPath
        invariant Freeable(FileBlocks(target, i))
        invariant FreeBlocks(g, disk, FileBlocks(target, i)) == FreeBlocks(g, s.disk, blocks)
      {
        FreeOneBlock(g, disk, target, i);
        FreeBlock(IBlock(target, i));
        i := i + 1;
      }
      FreedAll(g, disk, target, i);
      InTable(g, s.disk, s.tree, w.parent);
      FileSystem.RmDisk(g, s.disk, s.tree, w.parent, w.name, w.ino);
      var unlinked := UnlinkDirEntry(w.parent, w.name);
      if !unlinked { return false; }
      FreeInode(w.ino);
      tree := tree - {w.ino};
      return true;
    }

    /** Change the working directory and its stored path. */
    method Cd(path: CString) returns (ok: bool)
      requires Valid() && |FileSystem.NextPath(currentPath, path)| < FileSystem.PATH_CAPACITY
      modifies this`currentDir, this`currentPath
      ensures Valid() && (Abs(), ok) == FileSystem.Cd(g, old(Abs()), path)
    {
      hide WellFormed, Traverse, LookIn, Volume.ReadInode, IMode, IsDirMode;
      FileSystem.TraverseIsLive(g, Abs(), path);
      var w := TraversePath(path);
      if w.ino == 0 { return false; }
      InTable(g, disk, tree, w.ino);
      FileSystem.LiveFile(g, disk, tree, w.ino);
      var target := ReadInode(w.ino);
      if !IsDirMode(IMode(target)) { return false; }
      currentDir := w.ino;
      if path == ROOT_PATH {
        currentPath := ROOT_PATH;
      } else if path == DOTDOT {
        var lastSlash := 0;
        var i := 0;
        while i < |currentPath|
          invariant 0 <= i <= |currentPath|
          invariant lastSlash == FileSystem.LastSlash(currentPath[..i]) && (i > 0 ==> lastSlash < i)
        {
          assert currentPath[..i + 1][..i] == currentPath[..i];
          if currentPath[i] == SLASH { lastSlash := i; }
          i := i + 1;
        }
        assert currentPath[..i] == currentPath;
        currentPath := if lastSlash == 0 then ROOT_PATH else currentPath[..lastSlash];
      } else if path != DOT {
        if Absolute(path) {
          currentPath := path;
        } else {
          if currentPath != ROOT_PATH { currentPath := currentPath + [SLASH]; }
          currentPath := currentPath + path;
        }
      }
      return true;
    }
  }

  lemma ComponentLenStep(path: seq<byte>, i: nat, limit: nat)
    requires i < |path| && path[i] != SLASH && limit > 0
    ensures ComponentLen(path[i..], limit) == 1 + ComponentLen(path[i + 1..], limit - 1)
  {
    assert path[i..][1..] == path[i + 1..];
  }

  lemma ComponentLenStop(path: seq<byte>, i: nat, limit: nat)
    requires i <= |path| && (i < |path| && path[i] != SLASH ==> limit == 0)
    ensures ComponentLen(path[i..], limit) == 0
  {
  }

  lemma SlashRunStep(path: seq<byte>, i: nat)
    requires i < |path| && path[i] == SLASH
    ensures SlashRun(path[i..]) == 1 + SlashRun(path[i + 1..])
  {
    assert path[i..][1..] == path[i + 1..];
  }

  lemma SlashRunStop(path: seq<byte>, i: nat)
    requires i <= |path| && (i < |path| ==> path[i] != SLASH)
    ensures SlashRun(path[i..]) == 0
  {
  }

  lemma FirstComponent(path: seq<byte>, start: nat, stop: nat, i: nat)
    requires start <= stop <= i <= |path| && start < |path|
    requires ComponentLen(path[start..], MAX_NAME) == stop - start && SlashRun(path[stop..]) == i - stop
    ensures Components(path[start..]) == [path[start..stop]] + Components(path[i..])
    ensures start < i
  {
    hide Components, ComponentLen, SlashRun, ComponentSpan;
    var s := path[start..];
    assert s[..stop - start] == path[start..stop] && s[stop - start..] == path[stop..];
    ComponentsStep(s);
    assert s[i - start..] == path[i..];
  }

  lemma ComponentsStep(s: seq<byte>)
    requires s != []
    ensures var n := ComponentLen(s, MAX_NAME); var span := n + SlashRun(s[n..]);
            0 < span <= |s| && Components(s) == [s[..n]] + Components(s[span..])
  {
    hide ComponentLen, SlashRun;
    assert ComponentSpan(s) == ComponentLen(s, MAX_NAME) + SlashRun(s[ComponentLen(s, MAX_NAME)..]);
  }

  lemma ComponentsEmpty(s: seq<byte>)
    ensures s == [] <==> Components(s) == []
  {
  }

  lemma InTable(g: Geometry, d: Disk, t: Tree, n: nat)
    requires WellFormed(g, d, t) && n in t
    ensures 1 <= n <= g.inodeCount && TableBlock(g, n) < |d|
  {
    hide NoSharing, BitmapsOk, OwnsData, DirectoryOk, IsNamed, Marked, ReadInode;
    assert LiveInode(g, d, n, t[n]);
    TableBlockIsMeta(g, n);
  }

  lemma FreeOneBlock(g: Geometry, d: Disk, x: Inode, i: nat)
    requires GeometryOk(g, d) && i < DIRECT_BLOCKS && IBlock(x, i) != 0 && Freeable(FileBlocks(x, i))
    ensures 1 <= IBlock(x, i) <= BITS_PER_BLOCK && Freeable(FileBlocks(x, i + 1))
    ensures GeometryOk(g, Transactions.FreeBlock(g, d, IBlock(x, i)))
    ensures FreeBlocks(g, d, FileBlocks(x, i))
            == FreeBlocks(g, Transactions.FreeBlock(g, d, IBlock(x, i)), FileBlocks(x, i + 1))
  {
    hide IBlock, Unmark;
    var bs := FileBlocks(x, i);
    assert bs[0] == IBlock(x, i) && bs[1..] == FileBlocks(x, i + 1);
  }

  lemma FreedAll(g: Geometry, d: Disk, x: Inode, i: nat)
    requires GeometryOk(g, d) && i <= DIRECT_BLOCKS && (i < DIRECT_BLOCKS ==> IBlock(x, i) == 0)
    ensures FileBlocks(x, i) == [] && FreeBlocks(g, d, []) == d
  {
  }

  lemma FreshDirBytes(n: nat, p: nat)
    ensures FreshDir(n, p)
            == Put(Put(ZeroBlock(), 0, EntryBytes(n, 12, FT_DIR, DOT)), 12,
                EntryBytes(p, BLOCK_SIZE - 12, FT_DIR, DOTDOT))
  {
  }

  lemma NamesDistinct(g: Geometry, d: Disk, t: Tree, p: nat)
    requires WellFormed(g, d, t) && LiveDir(t, p)
    ensures DistinctNames(DirRecs(g, d, p))
  {
    hide DirData, Recs, NoSharing, LiveInode, OwnsData, IsNamed, BitmapsOk;
    assert DirectoryOk(DirData(g, d, p), t, p);
  }

  lemma EntryFields(b: Block, off: nat)
    requires Fits(b, off)
    ensures Le16(b, off + 4) == EntryLen(b, off) > 0 && Le32(b, off) == EntryIno(b, off)
    ensures b[off + 6] == EntryNameLen(b, off) && b[off + 7] == EntryKind(b, off)
    ensures RecAt(b, off) == DirRec(EntryIno(b, off), EntryLen(b, off), EntryKind(b, off), EntryName(b, off))
    ensures RecSize(EntryNameLen(b, off)) <= EntryLen(b, off)
  {
  }

  lemma LookStep(b: Block, off: nat, name: seq<byte>)
    requires Tiled(b, off) && off < BLOCK_SIZE
    ensures Fits(b, off)
    ensures Look(Recs(b, off), name)
            == if EntryName(b, off) == name then (EntryIno(b, off), EntryKind(b, off))
               else Look(Recs(b, off + EntryLen(b, off)), name)
  {
    ChainStep(b, off);
  }

  lemma LookNothing(b: Block, name: seq<byte>)
    ensures Look(Recs(b, BLOCK_SIZE), name) == (0, 0)
  {
    assert Recs(b, BLOCK_SIZE) == [];
  }

  lemma LastOffStep(b: Block, off: nat)
    requires Tiled(b, off) && off < BLOCK_SIZE
    ensures Fits(b, off)
    ensures var next := off + EntryLen(b, off);
            && next <= BLOCK_SIZE && Tiled(b, next) && |Recs(b, off)| == 1 + |Recs(b, next)|
            && (if next == BLOCK_SIZE then LastOff(b, off) == off else LastOff(b, off) == LastOff(b, next))
  {
    ChainStep(b, off);
  }

  lemma NoChainLeft(b: Block)
    ensures Recs(b, BLOCK_SIZE) == []
  {
  }

  lemma UnlinkStep(b: Block, prev: Option<nat>, off: nat, name: seq<byte>)
    requires Fits(b, off) && (prev.Some? ==> Fits(b, prev.value))
    ensures Unlinked(b, prev, off, name)
            == if EntryName(b, off) != name then Unlinked(b, Some(off), off + EntryLen(b, off), name)
               else if prev.None? then Some(Put(b, off, Bytes32(0)))
               else Some(Put(b, prev.value + 4, Bytes16(EntryLen(b, prev.value) + EntryLen(b, off))))
  {
  }

  lemma UnlinkEnds(b: Block, prev: Option<nat>, name: seq<byte>)
    requires prev.Some? ==> Fits(b, prev.value)
    ensures Unlinked(b, prev, BLOCK_SIZE, name) == None
  {
  }

  lemma RoomIsInBounds(b: Block, name: seq<byte>)
    requires Tiled(b, 0) && RoomFor(b, name) && 0 < Slack(b)
    ensures var last := LastOff(b, 0);
            last + RecSize(EntryNameLen(b, last)) + 8 + |name| <= BLOCK_SIZE
  {
    LinkInBoundsIff(b, name);
  }

  lemma NoneFree(bm: Block)
    ensures FirstFree(bm, BITS_PER_BLOCK) == BITS_PER_BLOCK
  {
  }

  lemma FreeBitInByte(bm: Block, i: nat)
    requires i < BLOCK_SIZE && bm[i] != 0xFF
    ensures LowestClear(bm[i], 8) < 8
  {
    NotOnesHasClear(bm[i], 8);
    assert Pow2(8) == 256;
  }

  /** One step of the search for a free bit. */
  lemma BitOfBlock(bm: Block, i: nat, bit: nat)
    requires i < BLOCK_SIZE && bit < 8
    ensures Marked(bm, i * 8 + bit) == BitAt(bm[i], bit)
    ensures BitAt(bm[i], bit) ==> FirstFree(bm, i * 8 + bit) == FirstFree(bm, i * 8 + bit + 1)
    ensures !BitAt(bm[i], bit) ==> FirstFree(bm, i * 8 + bit) == i * 8 + bit
  {
  }

  lemma MarkIsUpdate(bm: Block, i: nat, bit: nat)
    requires i < BLOCK_SIZE && bit < 8
    ensures Mark(bm, i * 8 + bit) == bm[i := WithBit(bm[i], bit)]
  {
  }

  /** A bitmap byte of 0xFF holds no free bit. */
  lemma SkipFullByte(bm: Block, i: nat)
    requires i < BLOCK_SIZE && bm[i] == 0xFF
    ensures FirstFree(bm, i * 8) == FirstFree(bm, (i + 1) * 8)
  {
    hide FirstFree, BitAt;
    assert Pow2(8) - 1 == 0xFF;
    var k := 0;
    while k < 8
      invariant 0 <= k <= 8 && FirstFree(bm, i * 8) == FirstFree(bm, i * 8 + k)
    {
      OnesAreSet(8, k);
      BitOfBlock(bm, i, k);
      k := k + 1;
    }
  }
}
