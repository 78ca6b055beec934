# SolsticeOS kernel: a verified model

Dafny models of the stateful parts of the SolsticeOS kernel, each proved against the simpler object it stands for.
`dafny verify dfyconfig.toml` checks the whole project.

**File system** (`DirBlock`, `Volume`, `Paths`, `Transactions`, `FileSystem`, `FileSystemRuns`, `DiskEffects`,
`Formatted`, `Ext2`). A disk of 1024-byte blocks with two bitmaps, packed 128-byte inodes and `rec_len` chains stands
for a tree of finite maps. `Ext2.Driver` is the driver itself, with its buffers changed in place and written back; each
of its methods is proved equal to a step or a transaction of `Transactions` and `FileSystem`. About those the project
proves that every run of mkdir, touch, rm and cd keeps the disk-wide invariant (`Volume.WellFormed`), which paths each
transaction changes and which it does not, which bits and blocks it writes, exactly when each succeeds, and when
`g_current_path` keeps naming `g_current_dir`. `Formatted` mounts a freshly formatted disk, so such drivers exist.

**DEFLATE** (`BitStream`, `Huffman`, `HuffmanTable`, `Deflate`, `DeflateCodes`, `Reader`, `Inflate`, `SampleStreams`).
`Deflate` defines, after RFC 1951, how tokens, block headers and blocks are written as bits and what they expand to, and
`DeflateCodes` proves its tables from the rules of that standard. `Reader` reads bit strings back by that grammar and is
proved its inverse. `Inflate.Inflater` and `HuffmanTable.Table` are the decoder, with its bit buffer, nine-bit fast
table and slow path: as long as it does not read past its input it succeeds exactly on inputs that start with a valid
stream, and its output is the expansion. `GlyphTable` is the run-length coded character table of the font.

**Memory** (`PageTables`, `PageRights`, `Paging`, `Slab`). Four-level page tables (Intel SDM Vol. 3A, section 4.5) as a
tree in memory that stands for a map from pages to frames (`Paging.EmptyTree` is the smallest one) and for what may be
written; the slab allocator as a set of live, disjoint objects.

**Windows** (`Desktop`, `Graphics`, `Compositor`). `Desktop` says pixel by pixel what the screen should show, without
any order of painting. The window manager repaints and presents only a dirty box, and after every frame the
framebuffer shows just that.

**Tasks** (`RoundRobin`, `Tasks`). Stacks, registers and saved stack pointers on a small machine, whose memory is
addressed by eight-byte words, stand for a table of contexts that `schedule` saves and restores.

**Arithmetic** (`Calculator`, `Keypad`, `IntSqrt`, `Eyes`). The keypad machine against the expression it displays; the
integer square root; the geometry of the eyes.

Classes and methods follow the code step by step; the functions and lemmas beside them say what the steps mean.

## Conditions and counterexamples

Some promises hold only under a condition. Each is stated with the condition and with a case where it fails:

- Linking a directory entry tests only that the last record has some slack. The new entry stays inside the block
  buffer exactly when there is no slack at all or enough of it (`Transactions.LinkInBoundsIff`), and three touches
  from a freshly formatted disk lead to the bad case (`Formatted.ShortSlackReached`). mkdir and touch therefore ask for
  that room.
- `cd` keeps `g_current_path` a spelling of `g_current_dir` exactly when its argument is canonical, or empty at the
  root (`FileSystem.CdKeepsSpellingIff`). Besides dot parts, a trailing or doubled slash and an empty argument elsewhere
  break the spelling; after `cd a/..` and `cd ..` the path does not even resolve to the directory
  (`FileSystem.NonCanonicalCdBreaks`, from a freshly formatted disk `Formatted.NonCanonicalCdReached`).
- The 32-byte slab class promises 127 slots to a 64-bit bitmap. A slab with free slots has no bit for them exactly when
  64 objects are live, so that it counts 63 (`Slab.SmallClassRunsOut`), which 64 calls reach (`Slab.SmallClassFilled`). No object of the classes of 5096 and 10192
  bytes fits its page (`Slab.FitsIffBelowCapacity`).
- A window that is created and marked is wholly shown by the next frame exactly when the frame's box holds what the
  window paints and did not show before (`Compositor.WindowManager.CreateMarkFrame`). The calculator marks its window
  without the border, and on an empty screen the border stays unshown (`Compositor.CalculatorBorder`). A window narrower
  than 18 pixels paints its close button outside its own dirty box (`Desktop.NarrowWindowEscapes`).
- A task created before the exited one has left the processor is kept exactly when its slot is not the running one
  (`Tasks.Machine.CreateThenSchedule`); with two slots it is lost (`Tasks.ExitedSlotIsReused`).
- The inflater fills its bit buffer ahead. With four bytes to spare after a valid stream it never reads past its input;
  it always does when the input ends before its stream does, and when the input is shorter than four bytes, a whole
  stream or not (`Inflate.Inflater.ParseZlib`). The two-byte stream of an empty block is such a case
  (`SampleStreams.EmptyStreamOverrun`).
- A full expression buffer breaks the calculator's display for every key but one (`Calculator.FullBuffer`);
  thirty keys lead there (`Calculator.FullBufferReached`).

## Model

| member | source | states |
|---|---|---|
| Bytes.LowByteFirst | src/kernel/filesystem/ext2.cpp:368-374 | a stored field has its low byte first |
| DirBlock.EntryLayout | src/kernel/filesystem/ext2.cpp:177-187 | inode, record length, name length, type and name of an entry lie at bytes 0, 4, 6, 7 and 8 |
| DirBlock.EntryBytesRead | src/kernel/filesystem/ext2.cpp:368-374 | the header and name bytes stored for an entry read back as its inode, length, type and name |
| DirBlock.EntriesAt | src/kernel/filesystem/ext2.cpp:177-187 | a lookup along the chain answers what the block's map of names says, whatever the chain |
| DirBlock.PlaceEntryLinks | src/kernel/filesystem/ext2.cpp:356-374 | the byte edit that splits the last record appends exactly one record to the chain and keeps the block tiled |
| DirBlock.LinkedInserts | src/kernel/filesystem/ext2.cpp:361-377 | linking a free name is inserting it into the map of names |
| DirBlock.ScanStops | src/kernel/filesystem/ext2.cpp:566-584 | the unlink scan stops at the named record, with its predecessor at hand |
| DirBlock.UnlinkRemoves | src/kernel/filesystem/ext2.cpp:572-577 | letting the predecessor swallow a record removes exactly that record and keeps the block tiled |
| DirBlock.RemovedDeletes | src/kernel/filesystem/ext2.cpp:572-577 | removing a record deletes exactly its name from the map and leaves the names distinct |
| DirBlock.AtMost85Entries | src/kernel/filesystem/ext2.cpp:346-348 | a tiled block with distinct names holds at most 85 entries, so the guard of 100 never ends a scan |
| Volume.MarkPlace | src/kernel/filesystem/ext2.cpp:300-304 | number i of a bitmap is bit i % 8 of byte i / 8 |
| Volume.MarkMarks | src/kernel/filesystem/ext2.cpp:303-304 | setting a bitmap bit marks that number and no other |
| Volume.UnmarkAfterMark | src/kernel/filesystem/ext2.cpp:535-540 | clearing the bit just set restores the whole bitmap |
| Volume.InodeFields | src/include/ext2.h:84-102 | the mode comes first and the fifteen block pointers start at byte 40 |
| Volume.InodePlace | src/kernel/filesystem/ext2.cpp:279-291 | inode n is the 128 bytes from byte (n - 1) * 128 of the inode table on |
| Volume.NewInodeFields | src/kernel/filesystem/ext2.cpp:433-440 | a new inode has mode, size, links, sectors and first block where they belong and every other byte 0 |
| Volume.ReadAfterWrite | src/kernel/filesystem/ext2.cpp:279-291 | a written inode reads back, and every other inode reads as before |
| Volume.Unrelated | src/kernel/filesystem/ext2.cpp:293-332 | marking more and changing only what no live inode owns keeps the volume well-formed |
| Paths.ComponentsOfJoin | src/kernel/filesystem/ext2.cpp:86-96 | splitting a path of plain names joined by slashes gives those names back |
| Paths.ComponentsOfSlashes | src/kernel/filesystem/ext2.cpp:91-96 | slashes after a name, however many, separate it from the rest, and at the end they say nothing |
| Paths.LongNameIsCut | src/kernel/filesystem/ext2.cpp:89-94 | a name is cut after 255 bytes |
| Paths.WhereToStart | src/kernel/filesystem/ext2.cpp:78-88 | a path with a slash in front is resolved from inode 2, any other from the working directory |
| Paths.WalkOn | src/kernel/filesystem/ext2.cpp:98-115 | a last name is looked up and reported with its directory; a directory before that is entered |
| Paths.NoWayThrough | src/kernel/filesystem/ext2.cpp:109-111 | nothing is found below a name that is not bound to a directory |
| Paths.LookIsLive | src/kernel/filesystem/ext2.cpp:105-113 | a name found in a live directory leads to a live inode of the recorded type |
| Paths.WalkIsLive | src/kernel/filesystem/ext2.cpp:90-115 | a path from a live directory ends in nothing or in a live inode, bound where the traversal reports |
| Paths.WalkAfterBinding | src/kernel/filesystem/ext2.cpp:77-116 | binding a free name leaves every path that resolved alone and resolves the path of that name |
| Paths.WalkAfterUnbinding | src/kernel/filesystem/ext2.cpp:77-116 | unbinding a file's name makes exactly the paths that ended there fail |
| Transactions.AllocInodeKeeps | src/kernel/filesystem/ext2.cpp:314-332 | allocating an inode keeps the volume well-formed, and the number was not live |
| Transactions.AllocBlockKeeps | src/kernel/filesystem/ext2.cpp:293-312 | allocating a block keeps the volume well-formed, and no live inode owned it |
| Transactions.WriteInodeKeeps | src/kernel/filesystem/ext2.cpp:279-291 | writing an inode that is not live keeps the volume well-formed |
| Transactions.WriteBlockKeeps | src/kernel/filesystem/ext2.cpp:274-277 | writing a block that no live inode owns keeps the volume well-formed |
| Transactions.LinkKeeps | src/kernel/filesystem/ext2.cpp:334-386 | linking a prepared inode keeps the whole invariant with the inode added, appends one record to its directory and leaves every other directory, inode and bitmap alone |
| Transactions.RemovalKeeps | src/kernel/filesystem/ext2.cpp:614-626 | freeing a file's blocks, unlinking its entry and freeing its inode keep the whole invariant with the file gone |
| Transactions.LinkInBoundsIff | src/kernel/filesystem/ext2.cpp:361-374 | the bytes of a link end inside the block exactly when the slack holds the new entry |
| Transactions.ShortSlackHappens | src/kernel/filesystem/ext2.cpp:356-374 | records with three names of 255 bytes leave a fresh directory 208 bytes of slack, too little for any name of 201 bytes or more |
| Formatted.ShortSlackReached | src/kernel/filesystem/ext2.cpp:356-374 | touch of three different names of 255 bytes from a freshly formatted disk succeeds each time and ends where creating any fourth name of 201 bytes or more would write past the buffer |
| Transactions.SlackAfterLink | src/kernel/filesystem/ext2.cpp:363-373 | a link leaves as slack what it found less what the new entry needs |
| Transactions.RemoveAfterLink | src/kernel/filesystem/ext2.cpp:555-587 | unlinking the entry linked last restores the whole record chain |
| FileSystem.PrepareDirIsReady | src/kernel/filesystem/ext2.cpp:421-467 | the inode and block written before the link are marked, unshared and hold only `.` and `..` |
| FileSystem.PrepareFileIsReady | src/kernel/filesystem/ext2.cpp:503-518 | the inode written before the link is marked and owns nothing |
| FileSystem.MkdirEffect | src/kernel/filesystem/ext2.cpp:401-477 | mkdir keeps the invariant; it succeeds exactly when the name is free in an existing directory with slack and an inode and a block are free; then exactly that name is bound, to a new directory; otherwise nothing visible changes |
| FileSystem.TouchEffect | src/kernel/filesystem/ext2.cpp:480-529 | the same for touch and a new empty file |
| FileSystem.RmEffect | src/kernel/filesystem/ext2.cpp:589-630 | rm succeeds exactly on paths of live files, so unlinking never fails; then exactly that file is gone, its inode is unmarked, and of the marked blocks exactly those it owned; otherwise the disk is untouched |
| FileSystem.CreatedPaths | src/kernel/filesystem/ext2.cpp:410-477 | after mkdir or touch every path that resolved resolves as before, to an inode with the same contents, and the new path resolves to the new inode |
| FileSystem.DeletedPaths | src/kernel/filesystem/ext2.cpp:598-629 | after rm exactly the paths of the removed entry stop resolving |
| FileSystem.TouchThenRm | src/kernel/filesystem/ext2.cpp:480-630 | a successful touch followed by rm of the same path succeeds and restores both bitmaps, the record chain, every other directory and inode, and the tree |
| DiskEffects.MkdirWrites | src/kernel/filesystem/ext2.cpp:401-477 | mkdir marks the first free inode and block, writes the new inode and block, and if it succeeds the block of the parent; nothing else changes. A creation that fails half-way leaves exactly the marks set so far |
| DiskEffects.TouchWrites | src/kernel/filesystem/ext2.cpp:480-529 | touch marks the first free inode, writes it, and if it succeeds the block of the parent; nothing else changes |
| DiskEffects.NewNames | src/kernel/filesystem/ext2.cpp:463-529 | the new name is bound to the new inode, as a directory (2) or a file (1) |
| DiskEffects.FreshDirBytes | src/kernel/filesystem/ext2.cpp:444-467 | the block of a new directory byte by byte |
| DiskEffects.FileBlocksAre | src/kernel/filesystem/ext2.cpp:614-616 | the blocks of a file are its twelve direct pointers up to the first zero one |
| DiskEffects.RmWrites | src/kernel/filesystem/ext2.cpp:614-626 | a successful rm unmarks exactly the blocks its pointers name and its inode and rewrites the directory block; nothing else changes |
| DiskEffects.FreedBlocksReturn | src/kernel/filesystem/ext2.cpp:293-312 | the next block allocated after rm is the first that was free before or belonged to the file |
| FileSystem.CdEffect | src/kernel/filesystem/ext2.cpp:190-232 | cd with a canonical argument succeeds exactly on live directories and keeps the stored path a spelling of the working directory |
| FileSystem.PathResolves | src/kernel/filesystem/ext2.cpp:208-229 | a stored path that spells the working directory resolves to it |
| FileSystem.CdKeepsSpellingIff | src/kernel/filesystem/ext2.cpp:210-229 | a successful cd leaves the stored path a spelling of the working directory exactly when its argument is canonical, or empty at the root |
| FileSystem.SpellingSplits | src/kernel/filesystem/ext2.cpp:214-227 | what follows a spelling and a slash in a longer spelling spells just the names that follow, so no other argument can be appended |
| FileSystem.NonCanonicalCdBreaks | src/kernel/filesystem/ext2.cpp:210-229 | `cd a/..` and `cd ..` from the root leave a stored path that does not resolve to the working directory |
| Formatted.NonCanonicalCdReached | src/kernel/filesystem/ext2.cpp:210-229 | on a freshly formatted disk mkdir of any plain name and these two calls of cd lead there |
| FileSystemRuns.CdKeepsValid | src/kernel/filesystem/ext2.cpp:195-208 | cd to any argument keeps the volume and moves only to live directories |
| FileSystemRuns.RunKeepsValid | src/kernel/filesystem/ext2.cpp:190-630 | every run of mkdir, touch, rm and cd keeps the disk-wide invariant |
| FileSystemRuns.StepKeepsFiles | src/kernel/filesystem/ext2.cpp:190-630 | no operation changes the contents of any file |
| FileSystemRuns.StepKeepsDirPath | src/kernel/filesystem/ext2.cpp:190-630 | a path of a live directory means the same directory after any step |
| FileSystemRuns.RunKeepsPath | src/kernel/filesystem/ext2.cpp:190-232 | after any run whose cd arguments are canonical, the stored path resolves to the working directory |
| Ext2.Init | src/kernel/filesystem/ext2.cpp:31-56 | mounting fails exactly without the magic number; otherwise the block numbers of the descriptor are taken and the driver starts in the root, in a valid state exactly when the disk is well-formed |
| Ext2.CopyInto | src/kernel/filesystem/ext2.cpp:288-288 | memcpy into a block buffer replaces exactly the bytes of the range |
| Ext2.StoreEntry | src/kernel/filesystem/ext2.cpp:368-374 | the field stores, in the code's order, write exactly the bytes of the entry |
| Ext2.NameMatches | src/kernel/filesystem/ext2.cpp:160-167 | the comparison is equality of the entry's name and the string |
| Ext2.Driver.AllocBit | src/kernel/filesystem/ext2.cpp:293-332 | the byte and bit loops mark the first free bit and report its number plus one, or 0 and no write when none is free |
| Ext2.Driver.ReadInode | src/kernel/filesystem/ext2.cpp:388-399 | the inode read is the one the table holds |
| Ext2.Driver.WriteInode | src/kernel/filesystem/ext2.cpp:279-291 | the write back changes exactly that inode of the table |
| Ext2.Driver.FreeInode | src/kernel/filesystem/ext2.cpp:531-541 | the mask clears exactly the inode's bit |
| Ext2.Driver.FreeBlock | src/kernel/filesystem/ext2.cpp:543-553 | the mask clears exactly the block's bit |
| Ext2.Driver.FindInDir | src/kernel/filesystem/ext2.cpp:170-188 | the scan answers the directory's lookup |
| Ext2.Driver.LinkDirEntry | src/kernel/filesystem/ext2.cpp:334-386 | the guarded scan and the in-place edit are the link step |
| Ext2.Driver.UnlinkDirEntry | src/kernel/filesystem/ext2.cpp:555-587 | the scan with its predecessor pointer is the unlink step |
| Ext2.Driver.NextComponent | src/kernel/filesystem/ext2.cpp:91-96 | the two inner loops cut off the first component and the slashes after it |
| Ext2.Driver.TraversePath | src/kernel/filesystem/ext2.cpp:77-116 | the loop over the path string resolves it as the walk over its components does |
| Ext2.Driver.Mkdir | src/kernel/filesystem/ext2.cpp:401-477 | the driver's mkdir is the transaction and keeps the invariant |
| Ext2.Driver.Touch | src/kernel/filesystem/ext2.cpp:480-529 | the driver's touch is the transaction and keeps the invariant |
| Ext2.Driver.Rm | src/kernel/filesystem/ext2.cpp:589-630 | the driver's rm is the transaction and keeps the invariant |
| Ext2.Driver.Cd | src/kernel/filesystem/ext2.cpp:190-232 | the driver's cd is the transaction and keeps the invariant |
| BitStream.BitReverse16Is | src/include/ssfn.h:482-489 | four swap steps reverse the low sixteen bits of any word |
| BitStream.BitReverseIs | src/include/ssfn.h:491-494 | the shifted reversal is the reversal of the low bits |
| BitStream.PrefixMatch | src/include/ssfn.h:530-534 | the low bits of a buffer are a reversed code exactly when the first bits of the reversed buffer are the code |
| Huffman.AcceptedIsKraft | src/include/ssfn.h:506-520 | the length-by-length test accepts exactly the lists that satisfy Kraft's inequality |
| Huffman.MatchUnique | src/include/ssfn.h:509-520 | no sixteen-bit window starts with two codes of an accepted list |
| Huffman.IntervalHasMatch | src/include/ssfn.h:581-585 | a window inside the interval of a length starts with a code of that length |
| HuffmanTable.FastMatchIsMatch | src/include/ssfn.h:529-534 | a short code starts a fast index exactly when it starts the window |
| HuffmanTable.CountLengths | src/include/ssfn.h:503-505 | the histogram counts the symbols of every non-zero length |
| HuffmanTable.Table.AssignCodes | src/include/ssfn.h:509-521 | the loop over lengths succeeds exactly on accepted lists and then holds the first code and the bound of every length |
| HuffmanTable.Table.FillFast | src/include/ssfn.h:530-534 | the stepped loop writes exactly the fast entries whose low bits are the reversed code |
| HuffmanTable.Table.Build | src/include/ssfn.h:496-540 | building succeeds exactly on accepted lists and leaves tables that decode their canonical code |
| Deflate.MsbIsReversed | src/include/ssfn.h:491-494 | reversing a code turns first-to-last packing (RFC 1951, section 3.1.1) into the packing of the bit buffer |
| DeflateCodes.LengthFollows | src/include/ssfn.h:625-625 | the length codes start at 3, each takes over where the extra bits of the one before end, and the last is 258 |
| DeflateCodes.LengthBits | src/include/ssfn.h:626-626 | a length code has no extra bits below 8 and at 28, else a quarter of its number less one |
| DeflateCodes.EveryLength | src/include/ssfn.h:625-626 | every length from 3 to 258 is written by some code |
| DeflateCodes.LengthAtMost | src/include/ssfn.h:625-626 | and no code writes any other |
| DeflateCodes.DistFollows | src/include/ssfn.h:627-627 | the distance codes start at 1, each takes over where the one before ends, and the last ends at 32768 |
| DeflateCodes.DistBits | src/include/ssfn.h:628-628 | a distance code has no extra bits below 2, else half of its number less one |
| DeflateCodes.EveryDistance | src/include/ssfn.h:627-628 | every distance from 1 to 32768 is written by some code |
| DeflateCodes.RunLengths | src/include/ssfn.h:686-697 | the three run symbols stand for 3 to 6 copies, 3 to 10 zeros and 11 to 138 zeros |
| DeflateCodes.EveryRun | src/include/ssfn.h:686-697 | every run in these ranges has a token |
| DeflateCodes.SendingOrder | src/include/ssfn.h:665-665 | the code length code is sent in the order 16, 17, 18, 0 and then outwards from 8 |
| DeflateCodes.HeaderCounts | src/include/ssfn.h:670-673 | the counts sent stand for at least 257 lengths, one distance and four code length codes |
| DeflateCodes.FixedLengthOf | src/include/ssfn.h:729-738 | the fixed lengths are 8, 9, 7 and 8 for symbols below 144, 256, 280 and 288, and 5 for the 32 distances |
| Deflate.HeaderLayout | src/include/ssfn.h:670-679 | a dynamic header is a count of five bits, another of five, one of four and then the code length code |
| Deflate.TokenLayout | src/include/ssfn.h:644-650 | a match is a length code, its extra bits, a distance code and its extra bits |
| Deflate.BodyLayout | src/include/ssfn.h:745-752 | types 0, 1 and 2 announce stored, fixed and dynamic blocks |
| DeflateCodes.FixedCodeOf | src/include/ssfn.h:729-737 | the fixed codes of all 288 symbols, by RFC 1951, section 3.2.6 |
| DeflateCodes.FixedDistanceOf | src/include/ssfn.h:738-738 | the fixed distance codes are the numbers themselves in five bits |
| Deflate.CopyMatchRepeats | src/include/ssfn.h:656-658 | a match, overlapping or not, repeats the last `dist` bytes |
| Deflate.FixedCodes | src/include/ssfn.h:729-738 | the fixed code lengths are accepted and code the end of a block |
| Reader.CodesPrefixFree | src/include/ssfn.h:592-604 | no bit string starts with two codes of an accepted list |
| Reader.CodeStarts | src/include/ssfn.h:578-590 | the remaining bits start with a code exactly when the reversed buffer matches it |
| Reader.SymbolIs | src/include/ssfn.h:592-604 | reading bits that start with the code of a symbol gives that symbol and leaves what follows its code |
| Reader.TokensRead | src/include/ssfn.h:630-661 | any token sequence that was written is read back as its LZ77 expansion |
| Reader.TokensOf | src/include/ssfn.h:630-661 | whatever is read as a block was written as some valid token sequence, and the output is its expansion |
| Reader.ZigzagInverts | src/include/ssfn.h:665-678 | the sending order of the code length code lengths visits every symbol once |
| Reader.HeaderRead | src/include/ssfn.h:663-704 | any dynamic header that was written is read back as the code lengths it stands for |
| Reader.HeaderOf | src/include/ssfn.h:663-704 | whatever is read as a dynamic header was written as some valid one |
| Reader.StoredRead | src/include/ssfn.h:706-727 | a stored block that was written, padding included, is read back as its bytes |
| Reader.StoredOf | src/include/ssfn.h:706-727 | whatever is read as a stored block was written as one, its length and complement agreeing |
| Reader.StreamRead | src/include/ssfn.h:740-760 | any stream of blocks that was written is read back as its expansion |
| Reader.StreamOf | src/include/ssfn.h:740-760 | whatever is read as a stream was written as some valid stream of blocks |
| Reader.ReadIff | src/include/ssfn.h:740-760 | reading succeeds on a bit string, with this output and this remainder, exactly when it starts with a stream that expands to the output |
| Reader.StreamExtends | src/include/ssfn.h:740-760 | bytes that follow change nothing about the stream that bits start with, and bits found wrong start with none whatever follows |
| Inflate.FastHit | src/include/ssfn.h:596-602 | a non-zero fast entry names the symbol whose code the buffer starts with |
| Inflate.NoShortMatch | src/include/ssfn.h:596-603 | a zero fast entry means that no code of at most nine bits starts the buffer |
| Inflate.Inflater.FillBits | src/include/ssfn.h:560-566 | filling moves whole input bytes into the buffer and changes no remaining bit; it falls short only when fewer than 25 bits are left |
| Inflate.Inflater.Receive | src/include/ssfn.h:568-576 | the next bits as a number, least significant first, and exactly those consumed |
| Inflate.Inflater.DecodeSlow | src/include/ssfn.h:578-590 | when no short code matches, the search by upper bounds finds the symbol whose code comes next, or that there is none |
| Inflate.Inflater.Decode | src/include/ssfn.h:592-604 | through the fast table or the slow path, the symbol whose code comes next is returned and its bits consumed; -1 exactly when no code comes next |
| Inflate.Inflater.CopyBack | src/include/ssfn.h:656-658 | both copy loops, the one for `dist == 1` and the general one, are the overlapping copy |
| Inflate.Inflater.ParseHuffmanBlock | src/include/ssfn.h:630-661 | on any bits: fails exactly when they start with no token sequence of the two codes, else the expansion of the one they start with is appended |
| Inflate.Inflater.ComputeHuffmanCodes | src/include/ssfn.h:663-704 | on any bits: fails exactly when they start with no valid dynamic header, else both tables are built for the lengths it sends |
| Inflate.Inflater.ParseUncompressedBlock | src/include/ssfn.h:706-727 | on any bits: fails exactly when length and complement differ or bytes are missing, else padding is dropped, the bytes are copied and reading resumes right after them |
| Inflate.Inflater.ParseZlib | src/include/ssfn.h:740-760 | on any input that is not read past its end: true exactly when the input starts with a valid stream, and then the output is its expansion and the rest is what follows; false means that it starts with none whatever bytes are appended. With four bytes to spare after a stream the input is never read past its end; it always is when it ends before its stream does, and when it is shorter than four bytes |
| SampleStreams.EmptyStreamOverrun | src/include/ssfn.h:560-576 | the two bytes 3 and 0 are a whole valid stream with an empty expansion and are read past their end |
| SampleStreams.FourAsInflate | src/include/ssfn.h:630-661 | a literal a and a match of length three at distance one, in four bytes, inflate to aaaa |
| SampleStreams.StoredAInflates | src/include/ssfn.h:706-727 | a stored block of one byte, with padding, length and complement, inflates to it |
| GlyphTable.Walk | src/include/ssfn.h:392-402 | the walk returns a record exactly when the expanded table of 0x110000 slots has it at the code point |
| GlyphTable.EntryOf | src/include/ssfn.h:1484-1489 | an entry stands for a run of empty slots or for one glyph, and the table goes on after it |
| GlyphTable.DecodeEncoded | src/include/ssfn.h:379-390 | the UTF-8 decoder returns every encoded code point and its length, whatever follows |
| GlyphTable.EncodedExamples | src/include/ssfn.h:379-390 | the encoding is that of RFC 3629: its own examples |
| GlyphTable.FirstByte | src/include/ssfn.h:382-387 | bits 7, 5, 4 and 3 of the first byte say how many bytes are taken |
| GlyphTable.PastTheLast | src/include/ssfn.h:392-401 | there is no record past code point 0x10FFFF |
| GlyphTable.GlyphOf | src/include/ssfn.h:364-402 | the first ligature the string starts with is taken, else the decoded code point; the record is the expanded table's |
| GlyphTable.FindForPutc | src/include/ssfn.h:1484-1489 | the loop of ssfn_putc stops at a record exactly when the expanded table has it at the code point |
| GlyphTable.BothLookups | src/include/ssfn.h:1484-1489 | without a ligature the string lookup and the lookup of ssfn_putc find the same record |
| PageTables.PathOfAddr | src/kernel/memory/memory.cpp:88-106 | the four index fields of a page's address are the path it was made from |
| PageTables.AddrOrder | src/kernel/memory/memory.cpp:88-106 | the first index in which two paths differ decides the order of their pages, and an index counts pages of 4 KB, 2 MB, 1 GB or 512 GB |
| PageRights.EntryFields | src/kernel/memory/memory.cpp:83-101 | bits 0, 1 and 7 of an entry say present, writable and huge; bits 12 to 47 are the frame |
| PageTables.StoreKeepsTable | src/kernel/memory/memory.cpp:77-77 | a store into one entry changes only the tables below that entry |
| PageTables.StoreKeepsLeaf | src/kernel/memory/memory.cpp:106-106 | a page whose walk does not use the stored entry keeps its mapping |
| PageTables.InstallKeepsTree | src/kernel/memory/memory.cpp:70-79 | installing an empty table at an absent entry keeps the tables a tree and adds only that table |
| PageTables.InstallKeepsLeaf | src/kernel/memory/memory.cpp:70-79 | and maps no page |
| PageTables.MapLeaf | src/kernel/memory/memory.cpp:106-106 | writing a last-level entry maps its page and changes no other |
| PageRights.InstallKeepsRights | src/kernel/memory/memory.cpp:70-79 | a new table takes no write right away and gives none |
| PageRights.MapLeafRights | src/kernel/memory/memory.cpp:106-106 | the entry written grants its page what the tables above grant, and no other page more or less |
| Paging.Pager.PmmAlloc | src/kernel/memory/memory.cpp:16-23 | pops the head of the free list, 0 when it is empty |
| Paging.Pager.PmmFree | src/kernel/memory/memory.cpp:26-31 | pushes the frame and changes no mapping |
| Paging.Pager.GetOrCreateTable | src/kernel/memory/memory.cpp:68-81 | the table below an entry, created empty from the first free frame when absent, with present and write bits; no mapping and no write right changes |
| Paging.Pager.LastTable | src/kernel/memory/memory.cpp:85-104 | the walk reaches the last-level table, creating exactly the absent ones; it stops under a huge page or when frames run out, and no page changes its mapping |
| Paging.Pager.MapPage | src/kernel/memory/memory.cpp:85-109 | exactly the page of the address becomes mapped to the frame when frames suffice for the missing tables, by a word with the present and write bits alone, writable as the tables above it grant; under a huge page or out of frames no translation and no right changes |
| Paging.Pager.IdentityMapRange | src/kernel/memory/memory.cpp:111-118 | every page outside the rounded range and under a huge page is unchanged; all others of the range become identity-mapped, writable as the tables above them grant, exactly when the free frames suffice for the absent tables, at most three a page; those tables are the frames used; pages whose tables exist are always mapped |
| Paging.RoundedRange | src/kernel/memory/memory.cpp:112-113 | the rounded range holds exactly the pages that meet the requested bytes |
| Paging.RangeWraps | src/kernel/memory/memory.cpp:113-113 | past 2^64 the end of a range wraps around |
| Paging.NeededAtMost | src/kernel/memory/memory.cpp:111-118 | a range needs at most three new tables a page |
| Slab.SizesDouble | src/kernel/memory/memory.cpp:147-151 | the classes that fit a page double from 32 to 2048 bytes |
| Slab.PageIs | src/kernel/memory/memory.cpp:190-190 | the page of a pointer is the pointer without its low twelve bits |
| Slab.TakeCounts | src/kernel/memory/memory.cpp:176-179 | taking the lowest clear bit sets exactly it and keeps taken plus free equal to the capacity |
| Slab.ReleaseCounts | src/kernel/memory/memory.cpp:194-195 | releasing a taken slot clears exactly it and keeps the count |
| Slab.TakeThenRelease | src/kernel/memory/memory.cpp:176-195 | releasing the slot just taken restores the header |
| Slab.SlotIsFree | src/kernel/memory/memory.cpp:162-176 | a slab chosen for its free slots has a clear bit below its capacity |
| Slab.SmallClassRunsOut | src/kernel/memory/memory.cpp:170-176 | a slab with free slots has no bit left for them exactly in the 32-byte class with 63 free slots counted, that is with 64 objects live |
| Slab.TakesFill | src/kernel/memory/memory.cpp:162-179 | n objects taken from a new slab of the 32-byte class fill its lowest n bits, and a slot is left exactly while n < 64 |
| Slab.SmallClassFilled | src/kernel/memory/memory.cpp:162-179 | after 64 of them the slab counts 63 free slots and has no bit left |
| Slab.SlotRecovered | src/kernel/memory/memory.cpp:190-192 | mask and divide find the page and slot of every object, which lies in its page after the header |
| Slab.FitsIffBelowCapacity | src/kernel/memory/memory.cpp:170-179 | an object lies in its page exactly when its slot is below the capacity, which is 0 exactly in the classes of 5096 and 10192 bytes |
| Slab.LiveObjectsDisjoint | src/kernel/memory/memory.cpp:179-182 | live objects share no byte with each other or with a header |
| Slab.Allocator.OpenSlab | src/kernel/memory/memory.cpp:159-174 | the first slab of the class with a free slot, else a new one on the first free frame and on no other page, else null |
| Slab.Allocator.NewSlab | src/kernel/memory/memory.cpp:166-173 | the first free frame becomes an empty slab at the head of its class and leaves the free list |
| Slab.Allocator.TakeSlot | src/kernel/memory/memory.cpp:176-182 | the lowest free slot is taken: one object, not live before, becomes live and no other changes |
| Slab.Allocator.Kmalloc | src/kernel/memory/memory.cpp:154-186 | null exactly for size 0, sizes past the classes, or no slot and no frame; otherwise a fresh object of the smallest class that fits, in a slab that was there or on the frame just popped, behind its header of 32 bytes |
| Slab.Allocator.Kfree | src/kernel/memory/memory.cpp:188-196 | exactly the freed object stops being live |
| Desktop.WindowInExtents | src/kernel/wm/wm.cpp:73-75 | a window paints nothing outside the box marked for it |
| Desktop.NarrowWindowEscapes | src/kernel/wm/wm.cpp:118-119 | a window under 18 pixels wide paints its close button outside that box |
| Desktop.WindowParts | src/kernel/wm/wm.cpp:114-124 | what a window shows, pixel by pixel from its corner: border, contents, close button, title, title bar |
| Desktop.LastIsHighest | src/kernel/wm/wm.cpp:98-112 | in paint order the last window that satisfies a condition is the one of highest layer that does |
| Desktop.PaintingStacks | src/kernel/wm/wm.cpp:111-125 | painting from the bottom up leaves on each pixel the topmost window |
| Desktop.CursorElsewhere | src/kernel/wm/wm.cpp:183-188 | a cursor move changes nothing outside the two boxes marked |
| Desktop.CursorOnTop | src/kernel/wm/gfx.cpp:191-202 | the cursor, a white triangle with a black rim at the mouse, covers every window |
| Desktop.NothingThere | src/kernel/wm/wm.cpp:199-201 | where there is neither cursor nor window the background shows |
| Desktop.ReplacedElsewhere | src/kernel/wm/wm.cpp:166-181 | replacing a window changes no pixel that cannot tell the versions apart |
| Desktop.TextPixelFits | src/kernel/wm/gfx.cpp:141-146 | a text whose ink fits a box paints only in it |
| Desktop.TextGrows | src/kernel/wm/gfx.cpp:141-146 | each glyph is painted where those before it end, over them |
| Graphics.Screen.FillRect | src/kernel/wm/gfx.cpp:42-63 | exactly the pixels in rectangle, screen and clip are coloured |
| Graphics.Screen.DrawRect | src/kernel/wm/gfx.cpp:65-70 | exactly the four edges, clipped |
| Graphics.Screen.Blit | src/kernel/wm/gfx.cpp:121-135 | exactly the clipped rectangle receives the source pixels |
| Graphics.Screen.DrawString | src/kernel/wm/gfx.cpp:141-146 | exactly the ink of the glyphs is painted, unclipped, later glyphs over earlier ones |
| Graphics.Screen.Clear | src/kernel/wm/gfx.cpp:160-165 | every screen pixel gets the colour |
| Graphics.Screen.Present | src/kernel/wm/gfx.cpp:167-175 | the framebuffer becomes the back buffer |
| Graphics.Screen.PresentRect | src/kernel/wm/gfx.cpp:177-189 | the framebuffer changes exactly in the rectangle, clipped to the screen |
| Graphics.Screen.DrawCursor | src/kernel/wm/gfx.cpp:191-202 | the two triangles, clipped |
| Compositor.RaiseKeepsLayers | src/kernel/wm/wm.cpp:93-95 | raising keeps the layers distinct and below the counter |
| Compositor.RaisedIsOnTop | src/kernel/wm/wm.cpp:93-95 | every pixel a raised window paints shows it |
| Compositor.DragKeepsDesk | src/kernel/wm/wm.cpp:165-181 | a drag keeps layers and keeps every title bar on the screen |
| Compositor.HitIsLastPainted | src/kernel/wm/wm.cpp:78-91 | the hit test picks the window painted last among those gripped by the point |
| Compositor.GripsIs | src/kernel/wm/wm.cpp:82-88 | a window is gripped by the 24 rows of its title bar without the close button |
| Compositor.MouseLawHolds | src/kernel/wm/wm.cpp:148-181 | a release ends a drag and moves nothing; a press takes the topmost window gripped, or nothing; while the button is held the window held keeps the mouse where it was gripped, or stops at an edge of the screen, and no other moves |
| Compositor.ChangedElsewhere | src/kernel/wm/wm.cpp:176-179 | outside its old and new boxes a changed window changes nothing |
| Compositor.InsertKeepsOrder | src/kernel/wm/wm.cpp:101-109 | an insertion behind the windows of lower layer keeps the paint order |
| Compositor.WindowManager.AddDirty | src/kernel/wm/wm.cpp:27-36 | the box grows to the bounding box of itself and the rectangle |
| Compositor.WindowManager.TitlebarHitTest | src/kernel/wm/wm.cpp:78-91 | the highest window whose title bar, outside its close box, holds the point |
| Compositor.WindowManager.SortByLayer | src/kernel/wm/wm.cpp:98-109 | the insertion sort yields the in-use windows, each once, by strictly rising layer |
| Compositor.WindowManager.DrawWindow | src/kernel/wm/wm.cpp:114-124 | inside the clip the five drawing steps lay the window over what was there |
| Compositor.WindowManager.Draw | src/kernel/wm/wm.cpp:97-126 | inside the clip the result is the stack of windows |
| Compositor.WindowManager.BringToFront | src/kernel/wm/wm.cpp:93-95 | the window gets the highest layer, below the new counter |
| Compositor.WindowManager.Raise | src/kernel/wm/wm.cpp:154-159 | raising a window and growing the box by its extents changes no pixel outside the box |
| Compositor.WindowManager.HandleButtons | src/kernel/wm/wm.cpp:148-181 | press, release and drag change the windows by that law and grow the box as specified, and no pixel outside the box changes |
| Compositor.WindowManager.HandleCursor | src/kernel/wm/wm.cpp:183-188 | the box grows by both cursor positions and no pixel outside it changes |
| Compositor.WindowManager.Repaint | src/kernel/wm/wm.cpp:190-207 | exactly the pixels of the dirty box become what a full redraw would show |
| Compositor.WindowManager.Frame | src/kernel/wm/wm.cpp:143-210 | the windows move by that law; exactly the pixels of the frame's box become what a full redraw would show; so everything is shown exactly when every stale pixel lies in that box, and always from a state in sync |
| Compositor.WindowManager.FramesHeld | src/kernel/wm/wm.cpp:143-210 | through any number of frames with the button held the window held keeps the mouse where it was gripped, or stands at the edge that stops it, and no other window changes |
| Compositor.WindowManager.ChangeContent | src/kernel/misc/console.cpp:25-32 | new contents together with their mark leave what is unmarked in sync |
| Compositor.WindowManager.CreateWindow | src/kernel/wm/wm.cpp:42-70 | the first free slot becomes a window on top, and each pixel shows it or what was there before, under the cursor |
| Compositor.NewWindowColor | src/kernel/wm/wm.cpp:42-70 | with a new window on top a pixel shows the cursor, else the window, else what it showed before |
| Compositor.NewWindowIs | src/kernel/wm/wm.cpp:42-70 | a new window is where it was asked for, filled with the background, with at most 31 characters of title |
| Compositor.WindowManager.CreateAndMark | src/kernel/applications/calculator.cpp:154-156 | after creation and a mark, what is unmarked is in sync exactly when every unmarked pixel the window paints already shows it |
| Compositor.WindowManager.CreateMarkFrame | src/kernel/wm/wm.cpp:143-210 | the frame after a creation and a mark shows the whole desk exactly when its box holds every pixel on the screen that the window paints and that did not show it already |
| Compositor.CalculatorBorder | src/kernel/applications/calculator.cpp:154-156 | on an empty screen of 800 by 600 the calculator's own call leaves a pixel of its border unshown after the next frame |
| Compositor.WindowManager.Start | src/kernel/wm/wm.cpp:128-142 | the first full redraw shows the whole desk |
| Compositor.WindowManager.Handle | src/kernel/wm/wm.cpp:143-210 | each event - a frame, marked contents, a created and sufficiently marked window - keeps what is unmarked in sync |
| Compositor.WindowManager.Run | src/kernel/wm/wm.cpp:128-213 | for any run of frames, marked content changes and window creations with a sufficient mark the framebuffer shows the desk wherever it is not marked, and everywhere after a frame |
| RoundRobin.NextIsUnique | src/kernel/tasks/task.cpp:22-23 | there is one nearest ready slot in cyclic order |
| RoundRobin.NextInOrder | src/kernel/tasks/task.cpp:22-23 | counting up from the current slot and around, no slot before the one picked is ready |
| RoundRobin.CallApproaches | src/kernel/tasks/task.cpp:20-27 | a call picks a waiting ready slot or brings the current slot nearer to it |
| RoundRobin.FairWithinTable | src/kernel/tasks/task.cpp:20-27 | a slot that stays ready becomes current within as many calls as the table has slots |
| Tasks.SaveRestores | src/kernel/tasks/switch.s:4-19 | what the pushes save is what the pops and the ret restore |
| Tasks.PushedWords | src/kernel/tasks/switch.s:4-9 | from the top down the stack holds rbx, rbp, r12, r13, r14 and r15 |
| Tasks.NewStackContext | src/kernel/tasks/task.cpp:10-15 | a new stack resumes in task_start with `entry` and, above it, task_exit |
| Tasks.SwitchKeeps | src/kernel/tasks/task.cpp:25-26 | a switch keeps every suspended context in memory and adds the one left |
| Tasks.CreateKeeps | src/kernel/tasks/task.cpp:9-16 | a new stack disturbs no suspended one |
| Tasks.Machine.SwitchTask | src/kernel/tasks/switch.s:4-19 | the pushes, the stack pointer exchange and the pops, word by word |
| Tasks.Machine.TaskCreate | src/kernel/tasks/task.cpp:8-19 | -1 exactly when no slot from 1 is free; otherwise the lowest free slot gets a new stack, and it is suspended in a context that starts `entry` exactly when it is not the running slot |
| Tasks.Machine.TaskExit | src/kernel/tasks/task.cpp:7-7 | the running slot becomes free and every suspended context stays |
| Tasks.Machine.TaskStart | src/kernel/tasks/switch.s:20-22 | a new stack's first word becomes the program counter, leaving the return address on top |
| Tasks.Machine.FindNext | src/kernel/tasks/task.cpp:22-23 | the search ends, even when the current slot is not ready, at the nearest ready slot or the current one |
| Tasks.Machine.Schedule | src/kernel/tasks/task.cpp:20-27 | the next ready task continues with exactly its saved context, and the caller's registers, stack pointer and stack become its own |
| Tasks.Machine.Step | src/kernel/tasks/task.cpp:7-27 | every step of any kind does what its kind says and relates the states as a scheduling history and schedule require; only creation brings a slot into being, with `entry` and above it task_exit |
| Tasks.Machine.Run | src/kernel/tasks/task.cpp:7-27 | any run of the machine takes exactly the steps that are possible where they come and is a scheduling history: a created task first gets the processor in task_start with its `entry` and above it task_exit; a task that gets the processor back finds its registers, stack pointer and stack as it left them; one that stays ready runs before schedule has been called as often as there are slots |
| Tasks.StaysSuspended | src/kernel/tasks/task.cpp:20-27 | over any scheduling history a suspended context stays as it is until its slot becomes current |
| Tasks.ResumedAsLeft | src/kernel/tasks/task.cpp:20-27 | over any scheduling history a task that gets the processor back finds the registers, stack pointer and stack it had |
| Tasks.FirstRun | src/kernel/tasks/task.cpp:8-27 | over any scheduling history a slot brought into being by a creation first runs in task_start with `entry` and task_exit on its stack |
| Tasks.TakesTurn | src/kernel/tasks/task.cpp:20-27 | over any scheduling history a task that stays ready runs after as many calls of schedule as it is slots away |
| Tasks.Machine.CreateThenSchedule | src/kernel/tasks/task.cpp:7-27 | after a creation and a switch the slot holds the new task exactly when it was not the running one, that is unless the running slot is free and the lowest such from 1; else it resumes the exited task |
| Tasks.ExitedSlotIsReused | src/kernel/tasks/task.cpp:7-27 | with two slots, exiting the task in slot 1 and creating another loses the new one to the exited one |
| Calculator.OpLaws | src/kernel/applications/calculator.cpp:85-93 | minus undoes plus, times is repeated addition, division truncates toward zero, and dividing by zero keeps the left operand |
| Calculator.ValueGrows | src/kernel/applications/calculator.cpp:137-151 | an expression is evaluated from left to right: one more operator and number act on the value so far |
| Calculator.NumberGrows | src/kernel/applications/calculator.cpp:114-119 | a number is read in base ten |
| Calculator.DigitsInOrder | src/kernel/applications/calculator.cpp:116-116 | the keys 0 to 9 are the numbers 0 to 9 |
| Calculator.OperatorReplaced | src/kernel/applications/calculator.cpp:137-151 | a second operator replaces the first |
| Calculator.AfterEquals | src/kernel/applications/calculator.cpp:113-151 | after = a digit starts anew, an operator goes on with the result and another = changes nothing |
| Calculator.ClearForgets | src/kernel/applications/calculator.cpp:121-128 | C forgets everything and shows 0 |
| Calculator.PressShows | src/kernel/applications/calculator.cpp:113-152 | every key keeps the displayed expression, read from left to right, equal to what the machine holds |
| Calculator.RunShows | src/kernel/applications/calculator.cpp:113-152 | so does every run of keys that fits the buffer |
| Calculator.EqualsShows | src/kernel/applications/calculator.cpp:129-136 | = shows the exact decimal of the result: the value of the expression displayed, or that value combined with itself when an operator still awaits its number |
| Calculator.TypedIsEvaluated | src/kernel/applications/calculator.cpp:113-152 | typing an expression and = yields its left-to-right value in decimal |
| Calculator.FullBuffer | src/kernel/applications/calculator.cpp:38-43 | a key that finds the buffer full breaks the display, except a zero typed onto zero |
| Calculator.FullBufferReached | src/kernel/applications/calculator.cpp:38-43 | thirty keys, 1 and + in turn, fill the buffer, and a further 1 breaks the display |
| Calculator.DecimalReadsBack | src/kernel/applications/calculator.cpp:69-83 | decimal notation reads back as the number |
| Calculator.DecimalForm | src/kernel/applications/calculator.cpp:69-83 | a minus sign in front of negative numbers alone, and no leading zeros |
| Calculator.DecimalLength | src/kernel/applications/calculator.cpp:69-83 | an int32_t takes at most 11 characters |
| Keypad.ItoaDec | src/kernel/applications/calculator.cpp:69-83 | both digit loops write the decimal notation, the smallest int32_t included |
| Keypad.Pad.ExprAppend | src/kernel/applications/calculator.cpp:38-43 | one character is appended, or none when the buffer is full |
| Keypad.Pad.OnButton | src/kernel/applications/calculator.cpp:113-152 | the handler is the keypad machine and keeps display and value in step |
| IntSqrt.FloorSqrt | src/kernel/utils/utils.cpp:109-124 | the floor of the square root for every positive int, 0 for the others, with no sum past INT_MAX |
| IntSqrt.RootIsUnique | src/kernel/utils/utils.cpp:109-124 | there is one floor of a square root |
| Eyes.MoveFollows | src/kernel/applications/xeyes.cpp:65-80 | a pupil moves towards the mouse, alike to both sides; past 13 pixels in its direction, short of 13 pixels by less than one |
| Eyes.NearMouse | src/kernel/applications/xeyes.cpp:71-79 | with the mouse within 13 pixels of the centre the pupil is at the mouse |
| Eyes.PupilStaysNear | src/kernel/applications/xeyes.cpp:65-80 | the pupil's centre stays within 15 pixels of the eye's |
| Eyes.PupilInsideEye | src/kernel/applications/xeyes.cpp:65-101 | every pixel of the pupil lies in the eye, at least a pixel from its rim |
| Eyes.PlacePupil | src/kernel/applications/xeyes.cpp:65-80 | the displacement computed, by truncating division past 13 pixels |
| Eyes.FillCircle | src/kernel/applications/xeyes.cpp:13-28 | exactly the disc, clipped to the window, is filled |
| Eyes.AtIs | src/kernel/applications/xeyes.cpp:13-28 | the buffer holds rows of width pixels one after the other |
| Eyes.DrawEyes | src/kernel/applications/xeyes.cpp:47-101 | the picture: black pupils, white eyes, background elsewhere |

## Left out

- Ext2.Driver.Mkdir: asks for no slack or enough slack in the parent's block, because the code writes past its buffer otherwise; `Transactions.LinkInBoundsIff` gives the condition.
- Ext2.Driver.Touch: the same.
- Ext2.Driver.Cd: asks that the new path string fits its 256 bytes, because the code does not look.
- Ext2.Init: blocks of another size than 1024 bytes are left out; the number of inodes is taken from the superblock, although the code never looks at it.
- Ext2.Driver.TraversePath: path strings are sequence values; the output buffers of 256 bytes are results.
- Ext2.Driver.Rm: frees the direct blocks, as the code does; the indirect blocks of a file stay marked.
- Transactions.WriteBlockKeeps: free counts in the superblock and link counts are not maintained by the driver, and nothing is said about them. A failed creation leaves inodes and blocks allocated, as `DiskEffects.MkdirWrites` says; nothing gives them back.
- Inflate.Inflater.ParseZlib: for inputs of four bytes or more whose stream leaves less than four to spare, or that start with none, it is not said whether they are read past their end, because that depends on how the code lengths fall on the buffer; it stops where the code would read past the end of its input, and says nothing about what is read there; nothing is said about the output of a failed call. Output growth by reallocation is a sequence that grows.
- GlyphTable.Walk: asks for a table whose entries can be read up to the last code point; the header checks of the font and the drawing of the record are left out.
- GlyphTable.GlyphOf: asks that a multi-byte sequence is not cut off by the end of the string, because the decoder does not look; ligatures are given as strings.
- Paging.Pager.MapPage: assumes that the tables form a tree and that free frames are no tables; flushing the TLB is left out, and so is the allocation of several frames at once.
- Slab.Allocator.Kmalloc: asks that an object can be cut from a page at all: for the classes of 5096 and 10192 bytes it is stated only with no frame free, and for the 32-byte class while the slab chosen has a clear bit.
- Graphics.Screen.DrawGlyph: a glyph paints its ink without reading pixels; how ink is computed from the font is left out. Coordinates are integers without a bound.
- Compositor.WindowManager.ChangeContent: a task changes contents and marks them in one step; interrupts between the two are left out.
- Compositor.WindowManager.CreateWindow: asks for a window whose title fits its title bar and whose title bar is on the screen, because titles are painted without clipping.
- Tasks.Machine.TaskCreate: asks for a free frame when a slot is free, because the code does not test the allocation.
- Tasks.Machine.Compute: a task writes its own stack and memory that is no stack; wild writes are left out.
- Keypad.Pad.OnButton: values stay within int32_t, beyond which the C++ code has no meaning.
- Eyes.DrawEyes: asks that the squared distances fit an int.
- ATA port input and output: the disk is an array of blocks whose reads and writes succeed.
- Only block group 0 and the first block of a directory are modelled.
- Shell, printing, boot, interrupt and device set-up: no state worth a model.
- Circle drawing in the window library, outline fonts and their rendering.
