/** The on-disk structures of one ext2 block group: two allocation bitmaps, a table of packed
    128-byte inodes and directory blocks, as functions of the blocks of the disk. */
module Volume {
  import opened Bits
  import opened Bytes
  import opened DirBlock

  const INODE_SIZE := 128
  const INODES_PER_BLOCK := 8
  const BITS_PER_BLOCK := 8192
  const ROOT := 2
  const DIRECT_BLOCKS := 12

  type Disk = seq<Block>

  /** What the block group descriptor says, and the number of inodes of the group. */
  datatype Geometry = Geometry(blockBitmap: nat, inodeBitmap: nat, inodeTable: nat, inodeCount: nat)

  function TableBlocks(g: Geometry): nat
  {
    (g.inodeCount + 7) / INODES_PER_BLOCK
  }

  /** Boot block, superblock, group descriptors, the two bitmaps and the inode table. */
  predicate IsMeta(g: Geometry, b: nat)
  {
    || b < 3
    || b == g.blockBitmap
    || b == g.inodeBitmap
    || g.inodeTable <= b < g.inodeTable + TableBlocks(g)
  }

  predicate GeometryOk(g: Geometry, d: Disk)
  {
    && 3 <= g.blockBitmap < |d| && 3 <= g.inodeBitmap < |d| && g.blockBitmap != g.inodeBitmap
    && 3 <= g.inodeTable && g.inodeTable + TableBlocks(g) <= |d| <= BITS_PER_BLOCK + 1
    && !(g.inodeTable <= g.blockBitmap < g.inodeTable + TableBlocks(g))
    && !(g.inodeTable <= g.inodeBitmap < g.inodeTable + TableBlocks(g))
    && ROOT <= g.inodeCount <= BITS_PER_BLOCK
  }

  // ---- bitmaps ----

  predicate Marked(bm: Block, i: nat)
    requires i < BITS_PER_BLOCK
  {
    BitAt(bm[i / 8], i % 8)
  }

  function Mark(bm: Block, i: nat): Block
    requires i < BITS_PER_BLOCK
  {
    bm[i / 8 := WithBit(bm[i / 8], i % 8)]
  }

  function Unmark(bm: Block, i: nat): Block
    requires i < BITS_PER_BLOCK
  {
    bm[i / 8 := WithoutBit(bm[i / 8], i % 8)]
  }

  lemma MarkMarks(bm: Block, i: nat, j: nat)
    requires i < BITS_PER_BLOCK && j < BITS_PER_BLOCK
    ensures Marked(Mark(bm, i), j) <==> j == i || Marked(bm, j)
    ensures Marked(Unmark(bm, i), j) <==> j != i && Marked(bm, j)
  {
    if j / 8 == i / 8 {
      SetBitBits(bm[i / 8], i % 8, j % 8);
      ClearBitBits(bm[i / 8], i % 8, j % 8);
    }
  }

  /** Number `i` has bit i % 8 of byte i / 8, the lowest bit first. */
  lemma MarkPlace(bm: Block, i: nat)
    requires i < BITS_PER_BLOCK
    ensures Marked(bm, i) <==> (bm[i / 8] as int) / [1, 2, 4, 8, 16, 32, 64, 128][i % 8] % 2 == 1
  {
    BitPlace(bm[i / 8], i % 8);
  }

  lemma BitPlace(b: byte, k: nat)
    requires k < 8
    ensures BitAt(b, k) <==> (b as int) / [1, 2, 4, 8, 16, 32, 64, 128][k] % 2 == 1
  {
    var b1: nat := b / 2;
    var b2 := b1 / 2;
    var b3 := b2 / 2;
    var b4 := b3 / 2;
    var b5 := b4 / 2;
    var b6 := b5 / 2;
    assert b / 4 == b2 && b / 8 == b3 && b / 16 == b4 && b / 32 == b5 && b / 64 == b6 && b / 128 == b6 / 2;
    assert BitAt(b, k) <==> if k == 0 then b % 2 == 1 else BitAt(b1, k - 1);
    if k >= 2 { assert BitAt(b1, k - 1) == BitAt(b2, k - 2); }
    if k >= 3 { assert BitAt(b2, k - 2) == BitAt(b3, k - 3); }
    if k >= 4 { assert BitAt(b3, k - 3) == BitAt(b4, k - 4); }
    if k >= 5 { assert BitAt(b4, k - 4) == BitAt(b5, k - 5); }
    if k >= 6 { assert BitAt(b5, k - 5) == BitAt(b6, k - 6); }
    if k >= 7 { assert BitAt(b6, k - 6) == BitAt(b6 / 2, k - 7); }
  }

  lemma UnmarkAfterMark(bm: Block, i: nat)
    requires i < BITS_PER_BLOCK && !Marked(bm, i)
    ensures Unmark(Mark(bm, i), i) == bm
  {
    ClearAfterSet(bm[i / 8], i % 8);
  }

  /** The first unmarked bit at or after `i`, or 8192. */
  function FirstFree(bm: Block, i: nat): (r: nat)
    requires i <= BITS_PER_BLOCK
    ensures i <= r <= BITS_PER_BLOCK
    ensures r < BITS_PER_BLOCK ==> !Marked(bm, r)
    ensures forall j :: i <= j < r ==> Marked(bm, j)
    decreases BITS_PER_BLOCK - i
  {
    if i == BITS_PER_BLOCK || !Marked(bm, i) then i else FirstFree(bm, i + 1)
  }

  // ---- inodes ----

  type Inode = s: seq<byte> | |s| == INODE_SIZE witness seq(INODE_SIZE, _ => 0)

  function ZeroInode(): Inode { seq(INODE_SIZE, _ => 0) }

  function ZeroBlock(): Block { seq(BLOCK_SIZE, _ => 0) }

  function IMode(x: Inode): nat { Le16(x, 0) }

  function IBlock(x: Inode, k: nat): nat
    requires k < 15
  {
    Le32(x, 40 + 4 * k)
  }

  const S_IFDIR := 0x4000
  const S_IFREG := 0x8000

  /** (mode & S_IFDIR) != 0 */
  predicate IsDirMode(mode: nat)
  {
    mode / S_IFDIR % 2 == 1
  }

  /** A zeroed inode with the fields that creation sets. */
  function NewInode(mode: nat, size: nat, sectors: nat, links: nat, block0: nat): Inode
  {
    Put(Put(Put(Put(Put(ZeroInode(), 0, Bytes16(mode)), 4, Bytes32(size)), 26, Bytes16(links)), 28, Bytes32(sectors)),
        40, Bytes32(block0))
  }

  lemma NewInodeFields(mode: nat, size: nat, sectors: nat, links: nat, block0: nat)
    requires mode < 0x1_0000 && block0 < 0x1_0000_0000
    ensures var x := NewInode(mode, size, sectors, links, block0);
            && IMode(x) == mode && IBlock(x, 0) == block0
            && (forall k :: 0 < k < 15 ==> IBlock(x, k) == 0)
            && (size < 0x1_0000_0000 ==> Le32(x, 4) == size) && (sectors < 0x1_0000_0000 ==> Le32(x, 28) == sectors)
            && (links < 0x1_0000 ==> Le16(x, 26) == links)
            && forall i :: 0 <= i < 128 ==> i in {2, 3} || 8 <= i < 26 || 32 <= i < 40 || 44 <= i ==> x[i] == 0
  {
    var x := NewInode(mode, size, sectors, links, block0);
    Put16Reads(ZeroInode(), 0, mode);
    assert IMode(x) == Le16(Put(ZeroInode(), 0, Bytes16(mode)), 0);
    Put32Reads(ZeroInode(), 40, block0);
    assert IBlock(x, 0) == Le32(Put(ZeroInode(), 40, Bytes32(block0)), 40);
    forall k | 0 < k < 15 ensures IBlock(x, k) == 0 {
      assert forall i :: 44 <= i < INODE_SIZE ==> x[i] == 0;
    }
    NewInodeCounts(mode, size, sectors, links, block0);
  }

  lemma NewInodeCounts(mode: nat, size: nat, sectors: nat, links: nat, block0: nat)
    ensures var x := NewInode(mode, size, sectors, links, block0);
            && (size < 0x1_0000_0000 ==> Le32(x, 4) == size) && (sectors < 0x1_0000_0000 ==> Le32(x, 28) == sectors)
            && (links < 0x1_0000 ==> Le16(x, 26) == links)
  {
    hide Bytes16, Bytes32;
    var x := NewInode(mode, size, sectors, links, block0);
    if size < 0x1_0000_0000 {
      Put32Reads(ZeroInode(), 4, size);
      assert Le32(x, 4) == Le32(Put(ZeroInode(), 4, Bytes32(size)), 4);
    }
    if sectors < 0x1_0000_0000 {
      Put32Reads(ZeroInode(), 28, sectors);
      assert Le32(x, 28) == Le32(Put(ZeroInode(), 28, Bytes32(sectors)), 28);
    }
    if links < 0x1_0000 {
      Put16Reads(ZeroInode(), 26, links);
      assert Le16(x, 26) == Le16(Put(ZeroInode(), 26, Bytes16(links)), 26);
    }
  }

  /** Where the fields of an inode lie: its mode first, fifteen block pointers from byte 40 on. */
  lemma InodeFields(x: Inode, k: nat)
    requires k < 15
    ensures IMode(x) == Le16(x, 0) && IBlock(x, k) == Le32(x, 40 + 4 * k)
    ensures IsDirMode(IMode(x)) <==> IMode(x) / 0x4000 % 2 == 1
  {
  }

  function TableBlock(g: Geometry, n: nat): nat
    requires n >= 1
  {
    g.inodeTable + (n - 1) / INODES_PER_BLOCK
  }

  function TableOffset(n: nat): (r: nat)
    requires n >= 1
    ensures r + INODE_SIZE <= BLOCK_SIZE
  {
    (n - 1) % INODES_PER_BLOCK * INODE_SIZE
  }

  /** Inodes are packed: inode `n` is the 128 bytes from byte (n - 1) * 128 of the inode table on. */
  lemma InodePlace(g: Geometry, n: nat)
    requires n >= 1
    ensures TableBlock(g, n) * 1024 + TableOffset(n) == g.inodeTable * 1024 + (n - 1) * 128
  {
    var m := n - 1;
    assert m == m / 8 * 8 + m % 8;
    assert TableOffset(n) == m % 8 * 128 && TableBlock(g, n) == g.inodeTable + m / 8;
  }

  function ReadInode(g: Geometry, d: Disk, n: nat): Inode
  {
    if 1 <= n && TableBlock(g, n) < |d| then
      d[TableBlock(g, n)][TableOffset(n)..TableOffset(n) + INODE_SIZE]
    else ZeroInode()
  }

  function WriteInode(g: Geometry, d: Disk, n: nat, x: Inode): Disk
    requires 1 <= n && TableBlock(g, n) < |d|
  {
    d[TableBlock(g, n) := Put(d[TableBlock(g, n)], TableOffset(n), x)]
  }

  lemma TableBlockIsMeta(g: Geometry, n: nat)
    requires 1 <= n <= g.inodeCount
    ensures g.inodeTable <= TableBlock(g, n) < g.inodeTable + TableBlocks(g)
  {
  }

  lemma ReadAfterWrite(g: Geometry, d: Disk, n: nat, x: Inode, m: nat)
    requires GeometryOk(g, d) && 1 <= n <= g.inodeCount && 1 <= m <= g.inodeCount
    ensures ReadInode(g, WriteInode(g, d, n, x), m) == if m == n then x else ReadInode(g, d, m)
  {
    var d' := WriteInode(g, d, n, x);
    var p, q := TableOffset(n), TableOffset(m);
    TableBlockIsMeta(g, n);
    TableBlockIsMeta(g, m);
    if TableBlock(g, n) == TableBlock(g, m) {
      var a, c := (n - 1) % INODES_PER_BLOCK, (m - 1) % INODES_PER_BLOCK;
      assert m != n ==> a < c || c < a;
      assert m != n ==> p + INODE_SIZE <= q || q + INODE_SIZE <= p;
      var k := TableBlock(g, n);
      assert d'[k][q..q + INODE_SIZE] == if m == n then x else d[k][q..q + INODE_SIZE];
    }
  }

  // ---- directories and files ----

  function DirBlockNo(g: Geometry, d: Disk, n: nat): nat
  {
    IBlock(ReadInode(g, d, n), 0)
  }

  function DirData(g: Geometry, d: Disk, n: nat): Block
  {
    var k := DirBlockNo(g, d, n);
    if k < |d| then d[k] else ZeroBlock()
  }

  function DirRecs(g: Geometry, d: Disk, n: nat): seq<DirRec>
  {
    Recs(DirData(g, d, n), 0)
  }

  /** What a lookup answers: the inode and type of the first entry with this name, or 0. */
  function Look(rs: seq<DirRec>, name: seq<byte>): (nat, byte)
  {
    var i := IndexOf(rs, name);
    if i < |rs| then (rs[i].ino, rs[i].kind) else (0, 0)
  }

  function LookIn(g: Geometry, d: Disk, n: nat, name: seq<byte>): (nat, byte)
  {
    Look(DirRecs(g, d, n), name)
  }

  /** The direct blocks of a file: its block pointers up to the first zero one. */
  function FileBlocks(x: Inode, k: nat): seq<nat>
    requires k <= DIRECT_BLOCKS
    decreases DIRECT_BLOCKS - k
  {
    if k == DIRECT_BLOCKS || IBlock(x, k) == 0 then [] else [IBlock(x, k)] + FileBlocks(x, k + 1)
  }

  function OwnedBlocks(g: Geometry, d: Disk, n: nat, isDir: bool): seq<nat>
  {
    if isDir then [DirBlockNo(g, d, n)] else FileBlocks(ReadInode(g, d, n), 0)
  }

  // ---- the well-formed volume ----

  /** A live inode: its type, the directory that names it and its distance from the root. */
  datatype Node = Node(isDir: bool, parent: nat, depth: nat)

  type Tree = map<nat, Node>

  ghost predicate BitmapsOk(g: Geometry, d: Disk)
    requires GeometryOk(g, d)
  {
    && (forall i :: 0 <= i < BITS_PER_BLOCK && (i + 1 >= |d| || IsMeta(g, i + 1)) ==> Marked(d[g.blockBitmap], i))
    && (forall i :: g.inodeCount <= i < BITS_PER_BLOCK ==> Marked(d[g.inodeBitmap], i))
  }

  ghost predicate LiveInode(g: Geometry, d: Disk, n: nat, node: Node)
    requires GeometryOk(g, d)
  {
    && 1 <= n <= g.inodeCount
    && Marked(d[g.inodeBitmap], n - 1)
    && IsDirMode(IMode(ReadInode(g, d, n))) == node.isDir
  }

  ghost predicate DataBlock(g: Geometry, d: Disk, b: nat)
    requires GeometryOk(g, d)
  {
    b < |d| && !IsMeta(g, b) && Marked(d[g.blockBitmap], b - 1)
  }

  ghost predicate OwnsData(g: Geometry, d: Disk, n: nat, node: Node)
    requires GeometryOk(g, d)
  {
    forall k :: 0 <= k < |OwnedBlocks(g, d, n, node.isDir)| ==> DataBlock(g, d, OwnedBlocks(g, d, n, node.isDir)[k])
  }

  ghost predicate NoRepeats(a: seq<nat>)
  {
    forall i, j :: 0 <= i < j < |a| ==> a[i] != a[j]
  }

  ghost predicate Apart(a: seq<nat>, b: seq<nat>)
  {
    forall x :: x in a ==> x !in b
  }

  /** No block belongs to two inodes, or twice to one. */
  ghost predicate NoSharing(g: Geometry, d: Disk, t: Tree)
  {
    && (forall n {:trigger NoRepeats(OwnedBlocks(g, d, n, t[n].isDir))} :: n in t ==>
       NoRepeats(OwnedBlocks(g, d, n, t[n].isDir)))
    && (forall n, m {:trigger Apart(OwnedBlocks(g, d, n, t[n].isDir), OwnedBlocks(g, d, m, t[m].isDir))} ::
          n in t && m in t && n != m ==>
          Apart(OwnedBlocks(g, d, n, t[n].isDir), OwnedBlocks(g, d, m, t[m].isDir)))
  }

  const DOT: seq<byte> := [46]
  const DOTDOT: seq<byte> := [46, 46]

  /** An entry other than `.` and `..` names a live child of directory `n`, with its type. */
  ghost predicate NamesChild(t: Tree, n: nat, r: DirRec)
    requires n in t
  {
    && r.ino in t && r.ino != ROOT
    && t[r.ino].parent == n
    && t[r.ino].depth == t[n].depth + 1
    && (r.kind == FT_DIR <==> t[r.ino].isDir)
  }

  ghost predicate ChainOk(rs: seq<DirRec>, t: Tree, n: nat)
    requires n in t
  {
    && |rs| >= 2
    && rs[0].name == DOT && rs[0].ino == n && rs[0].kind == FT_DIR
    && rs[1].name == DOTDOT && rs[1].ino == t[n].parent && rs[1].kind == FT_DIR
    && DistinctNames(rs)
    && (forall i :: 2 <= i < |rs| ==> NamesChild(t, n, rs[i]))
    && (forall i, j :: 2 <= i < j < |rs| ==> rs[i].ino != rs[j].ino)
  }

  ghost predicate DirectoryOk(b: Block, t: Tree, n: nat)
    requires n in t
  {
    Tiled(b, 0) && ChainOk(Recs(b, 0), t, n)
  }

  /** Some entry of a directory, past `.` and `..`, names inode `m`. */
  ghost predicate HasEntryFor(rs: seq<DirRec>, m: nat)
  {
    exists i :: 2 <= i < |rs| && rs[i].ino == m
  }

  ghost predicate IsNamed(g: Geometry, d: Disk, t: Tree, m: nat)
    requires m in t
  {
    && t[m].parent in t && t[t[m].parent].isDir
    && (m != ROOT ==> HasEntryFor(DirRecs(g, d, t[m].parent), m))
  }

  /** The disk holds exactly the tree `t` of live inodes, each block of it where it belongs. */
  ghost predicate WellFormed(g: Geometry, d: Disk, t: Tree)
  {
    && GeometryOk(g, d)
    && BitmapsOk(g, d)
    && ROOT in t && t[ROOT] == Node(true, ROOT, 0)
    && (forall n {:trigger LiveInode(g, d, n, t[n])} :: n in t ==> LiveInode(g, d, n, t[n]))
    && (forall n {:trigger OwnsData(g, d, n, t[n])} :: n in t ==> OwnsData(g, d, n, t[n]))
    && NoSharing(g, d, t)
    && (forall n {:trigger DirectoryOk(DirData(g, d, n), t, n)} ::
          n in t && t[n].isDir ==> DirectoryOk(DirData(g, d, n), t, n))
    && (forall n {:trigger IsNamed(g, d, t, n)} :: n in t ==> IsNamed(g, d, t, n))
  }

  lemma GeometryOf(g: Geometry, d: Disk, t: Tree)
    requires WellFormed(g, d, t)
    ensures GeometryOk(g, d) && BitmapsOk(g, d)
  {
    hide NoSharing, GeometryOk, BitmapsOk;
  }

  /** Every mark of `d` is still there in `d'`. */
  ghost predicate KeepsMarks(g: Geometry, d: Disk, d': Disk)
    requires GeometryOk(g, d) && GeometryOk(g, d')
  {
    && (forall i :: 0 <= i < BITS_PER_BLOCK && Marked(d[g.blockBitmap], i) ==> Marked(d'[g.blockBitmap], i))
    && (forall i :: 0 <= i < BITS_PER_BLOCK && Marked(d[g.inodeBitmap], i) ==> Marked(d'[g.inodeBitmap], i))
  }

  /** The live inodes and the blocks of the live directories are the same on both disks. */
  ghost predicate SameView(g: Geometry, d: Disk, d': Disk, t: Tree)
  {
    forall n :: n in t ==>
      && ReadInode(g, d', n) == ReadInode(g, d, n)
      && (t[n].isDir ==> DirData(g, d', n) == DirData(g, d, n))
  }

  lemma SameOwners(g: Geometry, d: Disk, d': Disk, t: Tree)
    requires SameView(g, d, d', t)
    ensures forall n :: n in t ==> OwnedBlocks(g, d', n, t[n].isDir) == OwnedBlocks(g, d, n, t[n].isDir)
  {
    hide ReadInode, DirData, FileBlocks;
  }

  lemma OwnsDataKept(g: Geometry, d: Disk, d': Disk, t: Tree, n: nat)
    requires GeometryOk(g, d) && GeometryOk(g, d') && |d'| == |d| && KeepsMarks(g, d, d') && SameView(g, d, d', t)
    requires n in t && OwnsData(g, d, n, t[n])
    ensures OwnsData(g, d', n, t[n])
  {
    hide OwnedBlocks, Marked, ReadInode, DirData;
    SameOwners(g, d, d', t);
    forall k | 0 <= k < |OwnedBlocks(g, d, n, t[n].isDir)|
      ensures DataBlock(g, d', OwnedBlocks(g, d, n, t[n].isDir)[k])
    {
      assert DataBlock(g, d, OwnedBlocks(g, d, n, t[n].isDir)[k]);
    }
  }

  lemma BitmapsKept(g: Geometry, d: Disk, d': Disk)
    requires GeometryOk(g, d) && GeometryOk(g, d') && |d'| == |d| && KeepsMarks(g, d, d') && BitmapsOk(g, d)
    ensures BitmapsOk(g, d')
  {
    hide Marked, IsMeta;
  }

  lemma UnrelatedAt(g: Geometry, d: Disk, d': Disk, t: Tree, n: nat)
    requires WellFormed(g, d, t) && n in t
    requires |d'| == |d| && KeepsMarks(g, d, d') && SameView(g, d, d', t)
    ensures LiveInode(g, d', n, t[n]) && IsNamed(g, d', t, n)
    ensures t[n].isDir ==> DirectoryOk(DirData(g, d', n), t, n)
  {
    hide ReadInode, Marked, IMode, DirData, NoSharing, HasEntryFor, OwnsData, BitmapsOk, DirectoryOk, Recs;
    assert LiveInode(g, d, n, t[n]) && IsNamed(g, d, t, n);
    assert DirRecs(g, d', t[n].parent) == DirRecs(g, d, t[n].parent);
  }

  /** Marking more and changing only what no live inode owns keeps the volume well-formed. */
  lemma Unrelated(g: Geometry, d: Disk, d': Disk, t: Tree)
    requires WellFormed(g, d, t)
    requires |d'| == |d| && KeepsMarks(g, d, d') && SameView(g, d, d', t)
    ensures WellFormed(g, d', t)
  {
    hide LiveInode, OwnsData, IsNamed, DirectoryOk, Apart, NoRepeats, OwnedBlocks, Marked, IsMeta, DirData, ReadInode;
    BitmapsKept(g, d, d');
    assert NoSharing(g, d', t) by { SameOwners(g, d, d', t); }
    forall n | n in t
      ensures LiveInode(g, d', n, t[n]) && OwnsData(g, d', n, t[n]) && IsNamed(g, d', t, n)
      ensures t[n].isDir ==> DirectoryOk(DirData(g, d', n), t, n)
    {
      UnrelatedAt(g, d, d', t, n);
      OwnsDataKept(g, d, d', t, n);
    }
  }
}
