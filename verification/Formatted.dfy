/** A freshly formatted volume: 65 blocks, 16 inodes, an empty root directory. It shows that the
    states the file system theorems speak about exist. */
module Formatted {
  import opened Bits
  import opened Bytes
  import opened DirBlock
  import opened Volume
  import opened Paths
  import opened Transactions
  import opened FileSystem
  import opened Ext2
  import opened Wrappers

  const GEOMETRY := Geometry(3, 4, 5, 16)
  const ROOT_BLOCK := 7

  /** Bits 0 to 6 and everything from bit 64 on are marked. */
  function BlockBitmap(): Block
  {
    seq(BLOCK_SIZE, i => if i == 0 then 0x7F else if i < 8 then 0 else 0xFF)
  }

  /** The first eight inodes and everything from inode 17 on are marked. */
  function InodeBitmap(): Block
  {
    seq(BLOCK_SIZE, i => if i == 1 then 0 else 0xFF)
  }

  /** The number of inodes and the magic number. */
  function SuperBlock(): Block
  {
    Put(Put(ZeroBlock(), 0, Bytes32(GEOMETRY.inodeCount)), 56, Bytes16(MAGIC))
  }

  function DescriptorBlock(): Block
  {
    Put(Put(Put(ZeroBlock(), 0, Bytes32(GEOMETRY.blockBitmap)), 4, Bytes32(GEOMETRY.inodeBitmap)),
        8, Bytes32(GEOMETRY.inodeTable))
  }

  function BlankBlock(i: int): Block
  {
    if i == 1 then SuperBlock() else if i == 2 then DescriptorBlock()
    else if i == 3 then BlockBitmap() else if i == 4 then InodeBitmap()
    else if i == ROOT_BLOCK then FreshDir(ROOT, ROOT) else ZeroBlock()
  }

  function BlankDisk(): Disk
  {
    seq<Block>(65, i => BlankBlock(i))
  }

  function FormattedDisk(): Disk
  {
    WriteInode(GEOMETRY, BlankDisk(), ROOT, NewInode(DIR_MODE, BLOCK_SIZE, 2, 2, ROOT_BLOCK))
  }

  const ROOT_TREE: Tree := map[ROOT := Node(true, ROOT, 0)]

  lemma BitmapsOfFormatted()
    ensures GeometryOk(GEOMETRY, FormattedDisk()) && BitmapsOk(GEOMETRY, FormattedDisk())
    ensures Marked(FormattedDisk()[4], ROOT - 1) && Marked(FormattedDisk()[3], ROOT_BLOCK - 1)
  {
    hide BitAt, FreshDir, NewInode;
    var d := FormattedDisk();
    assert d[3] == BlockBitmap() && d[4] == InodeBitmap();
    forall i | 0 <= i < BITS_PER_BLOCK && (i < 7 || i >= 64) ensures Marked(d[3], i) {
      assert Pow2(7) - 1 == 0x7F && Pow2(8) - 1 == 0xFF;
      if i < 7 { OnesAreSet(7, i); } else { OnesAreSet(8, i % 8); }
    }
    forall i | 0 <= i < BITS_PER_BLOCK && (i < 8 || i >= 16) ensures Marked(d[4], i) {
      assert Pow2(8) - 1 == 0xFF;
      OnesAreSet(8, i % 8);
    }
  }

  /** The formatted volume is well-formed, with the root as working directory. */
  lemma FormattedIsValid()
    ensures var s := State(FormattedDisk(), ROOT_TREE, ROOT, ROOT_PATH);
            Valid(GEOMETRY, s) && PathMatches(GEOMETRY, s)
  {
    hide BitAt, FreshDir, NewInode, Marked, ReadInode, IMode, IBlock, IsMeta, TableBlocks, BitmapsOk;
    var g, d, t := GEOMETRY, FormattedDisk(), ROOT_TREE;
    BitmapsOfFormatted();
    RootBlockOfFormatted();
    assert OwnedBlocks(g, d, ROOT, true) == [ROOT_BLOCK];
    assert !IsMeta(g, ROOT_BLOCK) by { RootBlockIsData(); }
    FreshDirRecs(ROOT, ROOT);
    assert LiveInode(g, d, ROOT, t[ROOT]) && OwnsData(g, d, ROOT, t[ROOT]);
    assert DirectoryOk(DirData(g, d, ROOT), t, ROOT);
    assert SpellsCwd(g, State(d, t, ROOT, ROOT_PATH), []);
  }

  lemma RootBlockOfFormatted()
    ensures var d := FormattedDisk();
            && DirBlockNo(GEOMETRY, d, ROOT) == ROOT_BLOCK && DirData(GEOMETRY, d, ROOT) == FreshDir(ROOT, ROOT)
            && IsDirMode(IMode(ReadInode(GEOMETRY, d, ROOT))) && d[4] == InodeBitmap()
  {
    hide BitAt, FreshDir, NewInode, Marked, ReadInode, IMode, IBlock, IsMeta;
    assert GeometryOk(GEOMETRY, BlankDisk());
    ReadAfterWrite(GEOMETRY, BlankDisk(), ROOT, NewInode(DIR_MODE, BLOCK_SIZE, 2, 2, ROOT_BLOCK), ROOT);
    NewInodeFields(DIR_MODE, BLOCK_SIZE, 2, 2, ROOT_BLOCK);
  }

  lemma RootBlockIsData()
    ensures !IsMeta(GEOMETRY, ROOT_BLOCK)
  {
  }

  lemma DescriptorOfFormatted()
    ensures |FormattedDisk()| > 2 && ReadDescriptor(FormattedDisk()) == Some(GEOMETRY)
  {
    hide FreshDir, NewInode, BlockBitmap, InodeBitmap;
    var d := FormattedDisk();
    assert d[1] == SuperBlock() && d[2] == DescriptorBlock();
    Put32Reads(ZeroBlock(), 0, GEOMETRY.inodeCount);
    assert Le32(d[1], 0) == Le32(Put(ZeroBlock(), 0, Bytes32(GEOMETRY.inodeCount)), 0);
    Put16Reads(Put(ZeroBlock(), 0, Bytes32(GEOMETRY.inodeCount)), 56, MAGIC);
    FieldsOfDescriptor(GEOMETRY.blockBitmap, GEOMETRY.inodeBitmap, GEOMETRY.inodeTable);
  }

  lemma FieldsOfDescriptor(x: nat, y: nat, z: nat)
    requires x < 0x1_0000_0000 && y < 0x1_0000_0000 && z < 0x1_0000_0000
    ensures var b := Put(Put(Put(ZeroBlock(), 0, Bytes32(x)), 4, Bytes32(y)), 8, Bytes32(z));
            Le32(b, 0) == x && Le32(b, 4) == y && Le32(b, 8) == z
  {
    var b1 := Put(ZeroBlock(), 0, Bytes32(x));
    var b2 := Put(b1, 4, Bytes32(y));
    var b3 := Put(b2, 8, Bytes32(z));
    Put32Reads(ZeroBlock(), 0, x);
    Put32Reads(b1, 4, y);
    Put32Reads(b2, 8, z);
    assert Le32(b3, 0) == Le32(b1, 0) && Le32(b3, 4) == Le32(b2, 4);
  }

  /** Mounting the formatted volume. */
  method MountFormatted() returns (driver: Driver)
    ensures fresh(driver) && driver.Valid() && driver.g == GEOMETRY
    ensures driver.Abs() == State(FormattedDisk(), ROOT_TREE, ROOT, ROOT_PATH)
  {
    DescriptorOfFormatted();
    FormattedIsValid();
    var mounted := Init(FormattedDisk(), ROOT_TREE);
    driver := mounted;
  }

  // ---- too little slack ----

  /** touch of a free name in the working directory, where there is room. */
  lemma TouchHere(g: Geometry, s: State, name: seq<byte>)
    requires Valid(g, s) && PlainName(name) && LookIn(g, s.disk, s.cwd, name).0 == 0
    requires GeometryOk(g, s.disk) && FirstFree(s.disk[g.inodeBitmap], 0) < BITS_PER_BLOCK
    requires Tiled(DirData(g, s.disk, s.cwd), 0) && 0 < Slack(DirData(g, s.disk, s.cwd))
    requires RoomFor(DirData(g, s.disk, s.cwd), name)
    ensures RoomToCreate(g, s, name)
    ensures var (s', ok) := Touch(g, s, name);
            && ok && Valid(g, s') && s'.cwd == s.cwd && GeometryOk(g, s'.disk)
            && s'.disk[g.inodeBitmap] == Mark(s.disk[g.inodeBitmap], FirstFree(s.disk[g.inodeBitmap], 0))
            && Tiled(DirData(g, s'.disk, s.cwd), 0)
            && Slack(DirData(g, s'.disk, s.cwd)) == Slack(DirData(g, s.disk, s.cwd)) - RecSize(|name|)
            && forall x :: x != name ==> LookIn(g, s'.disk, s.cwd, x) == LookIn(g, s.disk, s.cwd, x)
  {
    hide WellFormed, LookIn, FirstFree, Mark, Touch, DirData, Tiled, Slack, Components, ReadInode;
    NameHere(g, s, name);
    HasOwnBlock(g, s);
    var s' := Touch(g, s, name).0;
    TouchEffect(g, s, name);
    HasOwnBlock(g, s');
    SlackOfRecs(DirData(g, s.disk, s.cwd));
    SlackOfRecs(DirData(g, s'.disk, s.cwd));
    GeometryOf(g, s'.disk, s'.tree);
  }

  lemma NameHere(g: Geometry, s: State, name: seq<byte>)
    requires PlainName(name)
    ensures Resolve(g, s, name) == Found(LookIn(g, s.disk, s.cwd, name).0, s.cwd, name)
  {
    hide LookIn, Components;
    assert name[0] in name;
    ComponentsOfOne(name);
  }

  lemma HasOwnBlock(g: Geometry, s: State)
    requires Valid(g, s)
    ensures s.cwd != 0 && HasDirBlock(g, s.disk, s.cwd)
  {
    hide LiveInode, OwnsData, IsNamed, NoSharing, BitmapsOk, Tiled, IsMeta;
    GeometryOf(g, s.disk, s.tree);
    DirBlockIsData(g, s.disk, s.tree, s.cwd);
    LiveIsMarked(g, s.disk, s.tree);
    assert DirectoryOk(DirData(g, s.disk, s.cwd), s.tree, s.cwd);
  }

  /** After two inodes are taken from the bitmap of a formatted volume one is still free. */
  lemma InodesLeft(i: nat, j: nat)
    requires i < BITS_PER_BLOCK && j < BITS_PER_BLOCK
    ensures FirstFree(Mark(Mark(InodeBitmap(), i), j), 0) < BITS_PER_BLOCK
    ensures FirstFree(Mark(InodeBitmap(), i), 0) < BITS_PER_BLOCK && FirstFree(InodeBitmap(), 0) < BITS_PER_BLOCK
  {
    hide FirstFree, Mark, BitAt;
    var k := if 8 != i && 8 != j then 8 else if 9 != i && 9 != j then 9 else 10;
    ByteOneIsFree(k);
    MarkMarks(InodeBitmap(), i, k);
    MarkMarks(Mark(InodeBitmap(), i), j, k);
  }

  lemma ByteOneIsFree(k: nat)
    requires 8 <= k < 16
    ensures !Marked(InodeBitmap(), k)
  {
    ZeroBits(k % 8);
  }

  /** Three files with 255-byte names in the root of a formatted volume: creating a fourth with a name of 201
      bytes or more would write past the block buffer. */
  lemma ShortSlackReached(a: seq<byte>, b: seq<byte>, c: seq<byte>, name: seq<byte>)
    requires PlainName(a) && PlainName(b) && PlainName(c) && PlainName(name)
    requires |a| == |b| == |c| == MAX_NAME && 201 <= |name| && a != b && b != c && a != c && name !in {a, b, c}
    ensures var s0 := State(FormattedDisk(), ROOT_TREE, ROOT, ROOT_PATH);
            Valid(GEOMETRY, s0) && RoomToCreate(GEOMETRY, s0, a) &&
            var (s1, ok1) := Touch(GEOMETRY, s0, a);
            Valid(GEOMETRY, s1) && RoomToCreate(GEOMETRY, s1, b) &&
            var (s2, ok2) := Touch(GEOMETRY, s1, b);
            Valid(GEOMETRY, s2) && RoomToCreate(GEOMETRY, s2, c) &&
            var (s3, ok3) := Touch(GEOMETRY, s2, c);
            ok1 && ok2 && ok3 && Valid(GEOMETRY, s3) && !RoomToCreate(GEOMETRY, s3, name)
  {
    hide Valid, LookIn, FirstFree, Mark, Touch, DirData, Tiled, Slack, FormattedDisk, InodeBitmap, RecSize, GeometryOk;
    hide RoomToCreate, RoomFor, PlainName, Marked;
    var g, s0 := GEOMETRY, State(FormattedDisk(), ROOT_TREE, ROOT, ROOT_PATH);
    Sizes(name);
    FormattedIsValid();
    FormattedRoot(a, b, c, name);
    TouchLong(g, s0, a, 1000);
    var s1 := Touch(g, s0, a).0;
    var i := FirstFree(InodeBitmap(), 0);
    InodesLeft(i, i);
    TouchLong(g, s1, b, 736);
    var s2 := Touch(g, s1, b).0;
    InodesLeft(i, FirstFree(Mark(InodeBitmap(), i), 0));
    TouchLong(g, s2, c, 472);
    NoRoomHere(g, Touch(g, s2, c).0, name);
  }

  lemma FormattedRoot(a: seq<byte>, b: seq<byte>, c: seq<byte>, name: seq<byte>)
    requires PlainName(a) && PlainName(b) && PlainName(c) && PlainName(name)
    ensures var d := FormattedDisk();
            && GeometryOk(GEOMETRY, d) && d[4] == InodeBitmap() && FirstFree(InodeBitmap(), 0) < BITS_PER_BLOCK
            && Tiled(DirData(GEOMETRY, d, ROOT), 0) && Slack(DirData(GEOMETRY, d, ROOT)) == 1000
            && LookIn(GEOMETRY, d, ROOT, a).0 == 0 && LookIn(GEOMETRY, d, ROOT, b).0 == 0
            && LookIn(GEOMETRY, d, ROOT, c).0 == 0 && LookIn(GEOMETRY, d, ROOT, name).0 == 0
  {
    hide LookIn, FirstFree, Mark, DirData, Tiled, Slack, FormattedDisk, InodeBitmap;
    BitmapsOfFormatted();
    RootBlockOfFormatted();
    RootSlack();
    RootLacks(a);
    RootLacks(b);
    RootLacks(c);
    RootLacks(name);
    InodesLeft(0, 0);
  }

  /** TouchHere for a name of 255 bytes, which takes 264 bytes of slack. */
  lemma TouchLong(g: Geometry, s: State, name: seq<byte>, slack: nat)
    requires Valid(g, s) && PlainName(name) && |name| == MAX_NAME && LookIn(g, s.disk, s.cwd, name).0 == 0
    requires GeometryOk(g, s.disk) && FirstFree(s.disk[g.inodeBitmap], 0) < BITS_PER_BLOCK
    requires Tiled(DirData(g, s.disk, s.cwd), 0) && slack == Slack(DirData(g, s.disk, s.cwd)) >= 264
    ensures RoomToCreate(g, s, name)
    ensures var (s', ok) := Touch(g, s, name);
            && ok && Valid(g, s') && s'.cwd == s.cwd && GeometryOk(g, s'.disk)
            && s'.disk[g.inodeBitmap] == Mark(s.disk[g.inodeBitmap], FirstFree(s.disk[g.inodeBitmap], 0))
            && Tiled(DirData(g, s'.disk, s.cwd), 0) && Slack(DirData(g, s'.disk, s.cwd)) == slack - 264
            && forall x :: x != name ==> LookIn(g, s'.disk, s.cwd, x) == LookIn(g, s.disk, s.cwd, x)
  {
    hide Valid, LookIn, FirstFree, Mark, Touch, DirData, Tiled, Slack, GeometryOk, RoomToCreate, PlainName;
    TouchHere(g, s, name);
  }

  lemma Sizes(name: seq<byte>)
    ensures RecSize(MAX_NAME) == 264 && (201 <= |name| ==> RecSize(|name|) > 208)
  {
  }

  lemma RootLacks(name: seq<byte>)
    requires PlainName(name)
    ensures LookIn(GEOMETRY, FormattedDisk(), ROOT, name).0 == 0
  {
    hide BitAt, FreshDir, NewInode, ReadInode, Tiled, FormattedDisk;
    RootBlockOfFormatted();
    FreshDirRecs(ROOT, ROOT);
  }

  lemma RootSlack()
    ensures Tiled(DirData(GEOMETRY, FormattedDisk(), ROOT), 0)
            && Slack(DirData(GEOMETRY, FormattedDisk(), ROOT)) == 1000
  {
    hide FreshDir, ReadInode, Tiled, Slack, FormattedDisk;
    RootBlockOfFormatted();
    FreshDirSlack(ROOT, ROOT);
  }

  lemma NoRoomHere(g: Geometry, s: State, name: seq<byte>)
    requires Valid(g, s) && PlainName(name) && LookIn(g, s.disk, s.cwd, name).0 == 0
    requires Tiled(DirData(g, s.disk, s.cwd), 0) && 0 < Slack(DirData(g, s.disk, s.cwd)) < RecSize(|name|)
    ensures !RoomToCreate(g, s, name)
  {
    hide WellFormed, LookIn, DirData, Tiled, Slack;
    NameHere(g, s, name);
    HasOwnBlock(g, s);
  }

  // ---- cd outside the canonical arguments ----

  lemma BlocksLeft()
    ensures FormattedDisk()[3] == BlockBitmap() && FirstFree(BlockBitmap(), 0) < BITS_PER_BLOCK
  {
    hide FirstFree, BitAt, FreshDir, NewInode;
    assert BlockBitmap()[1] == 0;
    ZeroBits(0);
    assert !Marked(BlockBitmap(), 8);
  }

  /** A directory made on a formatted volume, and two cd calls: the stored path does not resolve to the working
      directory any more. */
  lemma NonCanonicalCdReached(a: seq<byte>)
    requires PlainName(a) && |a| < 250
    ensures var s0 := State(FormattedDisk(), ROOT_TREE, ROOT, ROOT_PATH);
            Valid(GEOMETRY, s0) && RoomToCreate(GEOMETRY, s0, a) &&
            var (s1, ok1) := Mkdir(GEOMETRY, s0, a);
            var (s2, ok2) := Cd(GEOMETRY, s1, a + [SLASH] + DOTDOT);
            var (s3, ok3) := Cd(GEOMETRY, s2, DOTDOT);
            && ok1 && ok2 && ok3 && s3.cwd == ROOT && s3.cwdPath == [SLASH] + a
            && Valid(GEOMETRY, s1) && Resolve(GEOMETRY, s3, s3.cwdPath).ino != s3.cwd
  {
    hide WellFormed, LookIn, FirstFree, Mkdir, Cd, DirData, Tiled, Slack, Components, ReadInode, FormattedDisk;
    hide InodeBitmap, BlockBitmap, GeometryOk, Marked;
    var g, s0 := GEOMETRY, State(FormattedDisk(), ROOT_TREE, ROOT, ROOT_PATH);
    FormattedIsValid();
    FormattedRoot(a, a, a, a);
    BlocksLeft();
    NameHere(g, s0, a);
    HasOwnBlock(g, s0);
    MkdirEffect(g, s0, a);
    NonCanonicalCdBreaks(g, Mkdir(g, s0, a).0, a);
  }
}
