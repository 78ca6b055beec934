/** One ext2 directory block: 1024 bytes tiled by records chained through `rec_len`.
    `Recs` reads the chain as a sequence of records and `Entries` reads that sequence as a
    finite map from names to inodes; the byte-level edits are proved against both. */
module DirBlock {
  import opened Bytes
  import opened Wrappers

  const BLOCK_SIZE := 1024

  type Block = s: seq<byte> | |s| == BLOCK_SIZE witness seq(BLOCK_SIZE, _ => 0)

  const FT_REG_FILE: byte := 1
  const FT_DIR: byte := 2

  datatype DirRec = DirRec(ino: nat, len: nat, kind: byte, name: seq<byte>)

  // ---- the fields of the entry at a byte offset ----

  function EntryIno(b: Block, off: nat): nat
    requires off + 8 <= BLOCK_SIZE
  {
    Le32(b, off)
  }

  function EntryLen(b: Block, off: nat): nat
    requires off + 8 <= BLOCK_SIZE
  {
    Le16(b, off + 4)
  }

  function EntryNameLen(b: Block, off: nat): byte
    requires off + 8 <= BLOCK_SIZE
  {
    b[off + 6]
  }

  function EntryKind(b: Block, off: nat): byte
    requires off + 8 <= BLOCK_SIZE
  {
    b[off + 7]
  }

  /** The bytes an entry needs: header and name, rounded up to a multiple of four. */
  function RecSize(nameLen: nat): (r: nat)
    ensures 8 + nameLen <= r < 12 + nameLen && r % 4 == 0
  {
    var size := 8 + nameLen;
    if size % 4 != 0 then size + (4 - size % 4) else size
  }

  /** The entry at `off`, its name and all of its record lie inside the block. */
  predicate Fits(b: Block, off: nat)
  {
    && off + 8 <= BLOCK_SIZE
    && RecSize(EntryNameLen(b, off)) <= EntryLen(b, off)
    && off + EntryLen(b, off) <= BLOCK_SIZE
  }

  function EntryName(b: Block, off: nat): (r: seq<byte>)
    requires Fits(b, off)
    ensures |r| == EntryNameLen(b, off)
  {
    var n: nat := EntryNameLen(b, off);
    b[off + 8..off + 8 + n]
  }

  function RecAt(b: Block, off: nat): DirRec
    requires Fits(b, off)
  {
    DirRec(EntryIno(b, off), EntryLen(b, off), EntryKind(b, off), EntryName(b, off))
  }

  /** Where the fields of an entry lie. */
  lemma EntryLayout(b: Block, off: nat)
    requires Fits(b, off)
    ensures RecAt(b, off).ino == Le32(b, off) && RecAt(b, off).len == Le16(b, off + 4)
    ensures RecAt(b, off).kind == b[off + 7] && RecAt(b, off).name == b[off + 8..off + 8 + b[off + 6] as int]
  {
  }

  /** From `off` on, records in use tile the block exactly up to its end. */
  predicate Tiled(b: Block, off: nat)
    decreases BLOCK_SIZE - off
  {
    off == BLOCK_SIZE ||
    (&& Fits(b, off)
     && EntryLen(b, off) % 4 == 0
     && EntryIno(b, off) != 0
     && Tiled(b, off + EntryLen(b, off)))
  }

  /** The chain of records from `off` on. */
  function Recs(b: Block, off: nat): seq<DirRec>
    decreases BLOCK_SIZE - off
  {
    if Fits(b, off) then [RecAt(b, off)] + Recs(b, off + EntryLen(b, off)) else []
  }

  /** The offset of the last record of the chain. */
  function LastOff(b: Block, off: nat): (r: nat)
    requires Tiled(b, off) && off < BLOCK_SIZE
    ensures off <= r && Fits(b, r) && r + EntryLen(b, r) == BLOCK_SIZE && EntryLen(b, r) % 4 == 0
    decreases BLOCK_SIZE - off
  {
    if off + EntryLen(b, off) == BLOCK_SIZE then off else LastOff(b, off + EntryLen(b, off))
  }

  /** Bytes of the last record its own header and name do not need. */
  function Slack(b: Block): nat
    requires Tiled(b, 0)
  {
    var last := LastOff(b, 0);
    EntryLen(b, last) - RecSize(EntryNameLen(b, last))
  }

  lemma Assoc<T>(a: seq<T>, b: seq<T>, c: seq<T>)
    ensures a + (b + c) == (a + b) + c
  {
  }

  // ---- lookup ----

  /** The position of the first record with this name, or the length of the chain. */
  function IndexOf(rs: seq<DirRec>, name: seq<byte>): (i: nat)
    ensures i <= |rs|
    ensures i < |rs| ==> rs[i].name == name
    ensures forall j :: 0 <= j < i ==> rs[j].name != name
  {
    if rs == [] || rs[0].name == name then 0 else 1 + IndexOf(rs[1..], name)
  }

  ghost predicate DistinctNames(rs: seq<DirRec>)
  {
    forall i, j :: 0 <= i < j < |rs| ==> rs[i].name != rs[j].name
  }

  /** What a directory means: the inode and type each name is bound to. */
  function Entries(rs: seq<DirRec>): map<seq<byte>, (nat, byte)>
  {
    if rs == [] then map[] else Entries(rs[1..])[rs[0].name := (rs[0].ino, rs[0].kind)]
  }

  lemma {:induction false} EntriesAt(rs: seq<DirRec>, name: seq<byte>)
    ensures name in Entries(rs) <==> IndexOf(rs, name) < |rs|
    ensures name in Entries(rs) ==>
              var r := rs[IndexOf(rs, name)];
              Entries(rs)[name] == (r.ino, r.kind)
  {
    if rs != [] {
      EntriesAt(rs[1..], name);
    }
  }

  // ---- inserting an entry ----

  /** The chain after the last record gives its slack to a new record. */
  function Linked(rs: seq<DirRec>, name: seq<byte>, ino: nat, kind: byte): seq<DirRec>
    requires rs != []
  {
    var last := rs[|rs| - 1];
    var size := RecSize(|last.name|);
    rs[..|rs| - 1] + [last.(len := size)] + [DirRec(ino, if last.len >= size then last.len - size else 0, kind, name)]
  }

  /** The bytes of a directory entry: header, then name. */
  function EntryBytes(ino: nat, len: nat, kind: byte, name: seq<byte>): (r: seq<byte>)
    requires |name| < 256
    ensures |r| == 8 + |name|
  {
    Bytes32(ino) + Bytes16(len) + [|name| as byte, kind] + name
  }

  lemma EntryBytesRead(b: Block, at: nat, ino: nat, len: nat, kind: byte, name: seq<byte>)
    requires |name| < 256 && at + RecSize(|name|) <= at + len <= BLOCK_SIZE && ino < 0x1_0000_0000
    ensures var b' := Put(b, at, EntryBytes(ino, len, kind, name));
            Fits(b', at) && RecAt(b', at) == DirRec(ino, len, kind, name)
  {
    var v := EntryBytes(ino, len, kind, name);
    var b' := Put(b, at, v);
    assert v[0..4] == Bytes32(ino) && v[4..6] == Bytes16(len) && v[8..] == name;
    assert b'[at..at + 4] == Bytes32(ino) && b'[at + 4..at + 6] == Bytes16(len);
    assert Le32(b', at) == Le32(Put(b, at, Bytes32(ino)), at) by {
      assert forall k :: 0 <= k < 4 ==> b'[at + k] == v[k] == Bytes32(ino)[k];
    }
    Put32Reads(b, at, ino);
    assert Le16(b', at + 4) == Le16(Put(b, at + 4, Bytes16(len)), at + 4) by {
      assert forall k :: 0 <= k < 2 ==> b'[at + 4 + k] == v[4 + k] == Bytes16(len)[k];
    }
    Put16Reads(b, at + 4, len);
    assert b'[at + 6] == v[6] == |name| as byte && b'[at + 7] == v[7] == kind;
    assert b'[at + 8..at + 8 + |name|] == name;
  }

  /** Shrink the last record, at `off`, to its true size and write the new entry in the slack. */
  function PlaceEntry(b: Block, off: nat, name: seq<byte>, ino: nat, kind: byte): Block
    requires Fits(b, off) && |name| < 256
    requires off + RecSize(EntryNameLen(b, off)) + 8 + |name| <= BLOCK_SIZE
  {
    var size := RecSize(EntryNameLen(b, off));
    Put(Put(b, off + 4, Bytes16(size)), off + size, EntryBytes(ino, EntryLen(b, off) - size, kind, name))
  }

  /** The records of the chain that starts at `off` and meets offset `at`. */
  predicate Reaches(b: Block, off: nat, at: nat)
    decreases BLOCK_SIZE - off
  {
    off == at ||
    (Fits(b, off) && EntryLen(b, off) % 4 == 0 && EntryIno(b, off) != 0 && off + EntryLen(b, off) <= at
     && Reaches(b, off + EntryLen(b, off), at))
  }

  function PrefixTo(b: Block, off: nat, at: nat): seq<DirRec>
    requires Reaches(b, off, at)
    decreases BLOCK_SIZE - off
  {
    if off == at then [] else [RecAt(b, off)] + PrefixTo(b, off + EntryLen(b, off), at)
  }

  lemma SameEntry(b: Block, b': Block, off: nat)
    requires Fits(b, off)
    requires forall i :: off <= i < off + 8 + EntryNameLen(b, off) ==> b'[i] == b[i]
    ensures Fits(b', off) && RecAt(b', off) == RecAt(b, off)
    ensures EntryLen(b', off) == EntryLen(b, off) && EntryIno(b', off) == EntryIno(b, off)
  {
    assert EntryName(b', off) == EntryName(b, off);
  }

  /** Blocks that agree before offset `at` hold the same records before it. */
  lemma {:induction false} SplitChain(b: Block, b': Block, off: nat, at: nat)
    requires Reaches(b, off, at) && at <= BLOCK_SIZE
    requires forall i :: off <= i < at ==> b'[i] == b[i]
    requires Tiled(b', at)
    ensures Tiled(b', off) && Recs(b', off) == PrefixTo(b, off, at) + Recs(b', at)
    decreases BLOCK_SIZE - off
  {
    hide EntryIno, EntryLen, EntryNameLen, EntryKind, EntryName, RecAt, RecSize, Put;
    if off != at {
      var next := off + EntryLen(b, off);
      SameEntry(b, b', off);
      SplitChain(b, b', next, at);
      Assoc([RecAt(b, off)], PrefixTo(b, next, at), Recs(b', at));
    }
  }

  lemma {:induction false} SameChain(b: Block, b': Block, off: nat)
    requires Tiled(b, off) && off <= BLOCK_SIZE && b'[off..] == b[off..]
    ensures Tiled(b', off) && Recs(b', off) == Recs(b, off)
    decreases BLOCK_SIZE - off
  {
    hide EntryIno, EntryLen, EntryKind, EntryName, RecAt, RecSize;
    if off != BLOCK_SIZE {
      var next := off + EntryLen(b, off);
      forall i | off <= i < BLOCK_SIZE ensures b'[i] == b[i] {
        assert b'[off..][i - off] == b[off..][i - off];
      }
      SameEntry(b, b', off);
      assert b'[next..] == b[next..];
      SameChain(b, b', next);
    } else {
      assert !Fits(b, off) && !Fits(b', off);
    }
  }

  lemma {:induction false} LastIsReached(b: Block, off: nat)
    requires Tiled(b, off) && off < BLOCK_SIZE
    ensures var last := LastOff(b, off);
            && Reaches(b, off, last) && EntryIno(b, last) != 0 && Tiled(b, last)
            && Recs(b, off) == PrefixTo(b, off, last) + [RecAt(b, last)]
    decreases BLOCK_SIZE - off
  {
    hide EntryIno, EntryLen, EntryNameLen, EntryKind, RecSize, Put;
    var next := off + EntryLen(b, off);
    if next == BLOCK_SIZE {
      assert Recs(b, next) == [];
    } else {
      var last := LastOff(b, next);
      LastIsReached(b, next);
      assert PrefixTo(b, off, last) == [RecAt(b, off)] + PrefixTo(b, next, last);
      Assoc([RecAt(b, off)], PrefixTo(b, next, last), [RecAt(b, last)]);
    }
  }

  /** Another record length at `p` changes nothing else about that entry. */
  lemma PutLen(b: Block, p: nat, len: nat)
    requires Fits(b, p) && RecSize(EntryNameLen(b, p)) <= len && p + len <= BLOCK_SIZE
    ensures var b' := Put(b, p + 4, Bytes16(len));
            && Fits(b', p) && RecAt(b', p) == RecAt(b, p).(len := len)
            && b'[p + len..] == b[p + len..]
            && forall i :: 0 <= i < p ==> b'[i] == b[i]
  {
    var b' := Put(b, p + 4, Bytes16(len));
    Put16Reads(b, p + 4, len);
    assert EntryName(b', p) == EntryName(b, p);
  }

  /** Shrinking the last record and placing one more after it, seen from the last record. */
  lemma PlaceEntryAtLast(b: Block, off: nat, name: seq<byte>, ino: nat, kind: byte)
    requires Fits(b, off) && off + EntryLen(b, off) == BLOCK_SIZE && EntryLen(b, off) % 4 == 0 && EntryIno(b, off) != 0
    requires |name| < 256 && 0 < ino < 0x1_0000_0000
    requires RecSize(EntryNameLen(b, off)) + RecSize(|name|) <= EntryLen(b, off)
    ensures var size := RecSize(EntryNameLen(b, off));
            var b' := PlaceEntry(b, off, name, ino, kind);
            && Fits(b', off) && RecAt(b', off) == RecAt(b, off).(len := size)
            && Fits(b', off + size)
            && RecAt(b', off + size) == DirRec(ino, EntryLen(b, off) - size, kind, name)
            && forall i :: 0 <= i < off ==> b'[i] == b[i]
  {
    var size := RecSize(EntryNameLen(b, off));
    var b1 := Put(b, off + 4, Bytes16(size));
    hide EntryBytes, EntryIno, EntryKind, EntryName, RecAt, Bytes16;
    var b' := PlaceEntry(b, off, name, ino, kind);
    PutLen(b, off, size);
    RecAtFields(b1, off);
    EntryBytesRead(b1, off + size, ino, EntryLen(b, off) - size, kind, name);
    assert forall i :: 0 <= i < off + size ==> b'[i] == b1[i];
    SameEntry(b1, b', off);
  }

  lemma TwoRecords(b: Block, off: nat, next: nat)
    requires Fits(b, off) && next == off + EntryLen(b, off) && EntryLen(b, off) % 4 == 0 && EntryIno(b, off) != 0
    requires Fits(b, next) && next + EntryLen(b, next) == BLOCK_SIZE && EntryLen(b, next) % 4 == 0
    requires EntryIno(b, next) != 0
    ensures Tiled(b, off) && Recs(b, off) == [RecAt(b, off), RecAt(b, next)]
  {
    assert Tiled(b, BLOCK_SIZE) && Recs(b, BLOCK_SIZE) == [];
    assert Tiled(b, next) && Recs(b, next) == [RecAt(b, next)];
  }

  lemma RecAtFields(b: Block, off: nat)
    requires Fits(b, off)
    ensures var r := RecAt(b, off);
            && r.len == EntryLen(b, off) && r.ino == EntryIno(b, off) && |r.name| == EntryNameLen(b, off)
            && r.name == EntryName(b, off) && r.kind == EntryKind(b, off)
  {
  }

  /** With room for the name, the byte edit is the insertion into the chain. */
  lemma PlaceEntryLinks(b: Block, name: seq<byte>, ino: nat, kind: byte)
    requires Tiled(b, 0) && |name| < 256 && 0 < ino < 0x1_0000_0000
    requires RecSize(|name|) <= Slack(b)
    ensures var b' := PlaceEntry(b, LastOff(b, 0), name, ino, kind);
            Tiled(b', 0) && Recs(b, 0) != [] && Recs(b', 0) == Linked(Recs(b, 0), name, ino, kind)
  {
    hide EntryIno, EntryNameLen, EntryKind, EntryLen, EntryName, RecSize, RecAt, Put, PlaceEntry, Linked;
    hide Tiled, Recs, Reaches, PrefixTo, LastOff;
    var last := LastOff(b, 0);
    var size := RecSize(EntryNameLen(b, last));
    var b' := PlaceEntry(b, last, name, ino, kind);
    LastIsReached(b, 0);
    PlaceEntryAtLast(b, last, name, ino, kind);
    RecAtFields(b, last);
    RecAtFields(b', last);
    RecAtFields(b', last + size);
    TwoRecords(b', last, last + size);
    SplitChain(b, b', 0, last);
    LinkedShape(PrefixTo(b, 0, last), RecAt(b, last), name, ino, kind);
  }

  lemma LinkedShape(p: seq<DirRec>, last: DirRec, name: seq<byte>, ino: nat, kind: byte)
    requires RecSize(|last.name|) <= last.len
    ensures var size := RecSize(|last.name|);
            Linked(p + [last], name, ino, kind)
            == p + [last.(len := size), DirRec(ino, last.len - size, kind, name)]
  {
    assert (p + [last])[..|p|] == p;
  }

  /** Inserting into the chain is inserting into the map. */
  lemma {:induction false} LinkedInserts(rs: seq<DirRec>, name: seq<byte>, ino: nat, kind: byte)
    requires rs != [] && name !in Entries(rs)
    ensures Entries(Linked(rs, name, ino, kind)) == Entries(rs)[name := (ino, kind)]
  {
    var rs' := Linked(rs, name, ino, kind);
    if |rs| == 1 {
      assert rs'[1..] == [rs'[1]] && rs'[1..][1..] == [] && rs[1..] == [];
      assert Entries(rs'[1..]) == map[name := (ino, kind)];
      assert Entries(rs) == map[rs[0].name := (rs[0].ino, rs[0].kind)];
    } else {
      LinkedInserts(rs[1..], name, ino, kind);
      assert rs'[1..] == Linked(rs[1..], name, ino, kind);
    }
  }

  // ---- removing an entry ----

  /** The chain after record `i` is swallowed by its predecessor. */
  function Removed(rs: seq<DirRec>, i: nat): seq<DirRec>
    requires 0 < i < |rs|
  {
    rs[..i - 1] + [rs[i - 1].(len := rs[i - 1].len + rs[i].len)] + rs[i + 1..]
  }

  /** The unlink scan from `off`, `prev` being the record before it. */
  function Unlinked(b: Block, prev: Option<nat>, off: nat, name: seq<byte>): Option<Block>
    requires prev.Some? ==> Fits(b, prev.value)
    decreases BLOCK_SIZE - off
  {
    if !Fits(b, off) then None
    else if EntryName(b, off) == name then
      match prev
      case None => Some(Put(b, off, Bytes32(0)))
      case Some(p) => Some(Put(b, p + 4, Bytes16(EntryLen(b, p) + EntryLen(b, off))))
    else Unlinked(b, Some(off), off + EntryLen(b, off), name)
  }

  /** A record swallowed by its predecessor, seen from the predecessor at `p`. */
  lemma UnlinkNext(b: Block, p: nat)
    requires Tiled(b, p) && p < BLOCK_SIZE && p + EntryLen(b, p) < BLOCK_SIZE
    ensures var off := p + EntryLen(b, p);
            Fits(b, off) &&
            var sum := EntryLen(b, p) + EntryLen(b, off);
            var b' := Put(b, p + 4, Bytes16(sum));
            && Tiled(b', p)
            && Recs(b', p) == [RecAt(b, p).(len := sum)] + Recs(b, p + sum)
            && forall i :: 0 <= i < p ==> b'[i] == b[i]
  {
    hide EntryIno, EntryNameLen, EntryKind, EntryLen, EntryName, RecSize, RecAt, Put;
    var off := p + EntryLen(b, p);
    ChainStep(b, p);
    ChainStep(b, off);
    var sum := EntryLen(b, p) + EntryLen(b, off);
    var b' := Put(b, p + 4, Bytes16(sum));
    PutLen(b, p, sum);
    RecAtFields(b, p);
    RecAtFields(b', p);
    SameChain(b, b', p + sum);
  }

  lemma ChainStep(b: Block, off: nat)
    requires Tiled(b, off) && off < BLOCK_SIZE
    ensures Fits(b, off) && EntryLen(b, off) % 4 == 0 && EntryIno(b, off) != 0
    ensures Recs(b, off) == [RecAt(b, off)] + Recs(b, off + EntryLen(b, off))
    ensures Recs(b, off)[1..] == Recs(b, off + EntryLen(b, off))
    ensures Tiled(b, off + EntryLen(b, off))
  {
  }

  /** The scan started at `p` stops just after the predecessor, at `q`, of the named record. */
  lemma {:induction false} ScanStops(b: Block, p: nat, name: seq<byte>) returns (q: nat)
    requires Tiled(b, p) && p < BLOCK_SIZE
    requires 0 < IndexOf(Recs(b, p), name) < |Recs(b, p)|
    ensures Reaches(b, p, q) && q < BLOCK_SIZE && Fits(b, q) && Tiled(b, q) && q + EntryLen(b, q) < BLOCK_SIZE
    ensures var off := q + EntryLen(b, q);
            && Fits(b, off)
            && Unlinked(b, Some(p), p + EntryLen(b, p), name)
               == Some(Put(b, q + 4, Bytes16(EntryLen(b, q) + EntryLen(b, off))))
    ensures |PrefixTo(b, p, q)| == IndexOf(Recs(b, p), name) - 1
    decreases BLOCK_SIZE - p
  {
    hide EntryIno, EntryLen, EntryNameLen, EntryKind, EntryName, RecAt, RecSize, Put, Tiled, Recs, IndexOf;
    ChainStep(b, p);
    var off := p + EntryLen(b, p);
    IndexStep(b, p, name);
    MoreEntries(b, off);
    ChainStep(b, off);
    IndexStep(b, off, name);
    if EntryName(b, off) == name {
      q := p;
    } else {
      q := ScanStops(b, off, name);
    }
  }

  /** The first entry of a chain is at index 0; the others are at one less in the rest. */
  lemma IndexStep(b: Block, p: nat, name: seq<byte>)
    requires Tiled(b, p) && p < BLOCK_SIZE
    ensures IndexOf(Recs(b, p), name)
            == if EntryName(b, p) == name then 0 else 1 + IndexOf(Recs(b, p + EntryLen(b, p)), name)
    ensures |Recs(b, p)| == 1 + |Recs(b, p + EntryLen(b, p))|
  {
    hide EntryIno, EntryLen, EntryNameLen, EntryKind, EntryName, RecAt, Tiled, Recs;
    ChainStep(b, p);
    RecAtFields(b, p);
  }

  lemma MoreEntries(b: Block, p: nat)
    requires Tiled(b, p)
    ensures Recs(b, p) != [] ==> p < BLOCK_SIZE
  {
  }

  lemma RemovedShape(p: seq<DirRec>, a: DirRec, c: DirRec, rest: seq<DirRec>)
    ensures Removed(p + ([a, c] + rest), |p| + 1) == p + ([a.(len := a.len + c.len)] + rest)
  {
    var rs := p + ([a, c] + rest);
    assert rs[..|p|] == p && rs[|p| + 2..] == rest;
  }

  lemma TwoSteps(b: Block, q: nat)
    requires Tiled(b, q) && q < BLOCK_SIZE && q + EntryLen(b, q) < BLOCK_SIZE
    ensures var off := q + EntryLen(b, q);
            Fits(b, off) && Recs(b, q) == [RecAt(b, q), RecAt(b, off)] + Recs(b, off + EntryLen(b, off))
  {
    hide EntryLen, EntryIno, EntryNameLen, EntryKind, RecSize, RecAt;
    ChainStep(b, q);
    ChainStep(b, q + EntryLen(b, q));
  }

  lemma UnlinkRemoves(b: Block, name: seq<byte>)
    requires Tiled(b, 0) && 0 < IndexOf(Recs(b, 0), name) < |Recs(b, 0)|
    ensures var r := Unlinked(b, None, 0, name);
            r.Some? && Tiled(r.value, 0) && Recs(r.value, 0) == Removed(Recs(b, 0), IndexOf(Recs(b, 0), name))
  {
    hide EntryLen, EntryIno, EntryNameLen, EntryKind, EntryName, RecSize, RecAt, Put, Removed, IndexOf;
    hide Tiled, Recs, Reaches, PrefixTo;
    var q := ScanStops(b, 0, name);
    FirstNotNamed(b, name);
    var off := q + EntryLen(b, q);
    UnlinkNext(b, q);
    TwoSteps(b, q);
    var b' := Unlinked(b, None, 0, name).value;
    var p := PrefixTo(b, 0, q);
    SplitChain(b, b', 0, q);
    SplitChain(b, b, 0, q);
    RemovedShape(p, RecAt(b, q), RecAt(b, off), Recs(b, off + EntryLen(b, off)));
    RecAtFields(b, q);
    RecAtFields(b, off);
  }

  lemma FirstNotNamed(b: Block, name: seq<byte>)
    requires Tiled(b, 0) && 0 < IndexOf(Recs(b, 0), name)
    ensures Fits(b, 0) && Unlinked(b, None, 0, name) == Unlinked(b, Some(0), EntryLen(b, 0), name)
  {
    ChainStep(b, 0);
  }

  /** Removing from the chain is removing from the map, when names are distinct. */
  lemma {:induction false} RemovedDeletes(rs: seq<DirRec>, i: nat)
    requires 0 < i < |rs| && DistinctNames(rs)
    ensures Entries(Removed(rs, i)) == Entries(rs) - {rs[i].name}
    ensures DistinctNames(Removed(rs, i))
  {
    var rs' := Removed(rs, i);
    hide Entries;
    forall name ensures name in Entries(rs') <==> name in Entries(rs) && name != rs[i].name
      ensures name in Entries(rs') ==> Entries(rs')[name] == Entries(rs)[name]
    {
      EntriesAt(rs, name);
      EntriesAt(rs', name);
      RemovedIndex(rs, i, name);
    }
  }

  lemma RemovedIndex(rs: seq<DirRec>, i: nat, name: seq<byte>)
    requires 0 < i < |rs| && DistinctNames(rs)
    ensures var rs' := Removed(rs, i);
            var j, j' := IndexOf(rs, name), IndexOf(rs', name);
            && (j' < |rs'| <==> j < |rs| && j != i)
            && (j' < |rs'| ==> j == if j' < i then j' else j' + 1)
            && (j' < |rs'| ==> rs'[j'].ino == rs[j].ino && rs'[j'].kind == rs[j].kind)
  {
    hide IndexOf, DistinctNames, Removed;
    var rs' := Removed(rs, i);
    var j, j' := IndexOf(rs, name), IndexOf(rs', name);
    RemovedLength(rs, i);
    if j' < |rs'| {
      RemovedAt(rs, i, j');
      IndexIs(rs, name, if j' < i then j' else j' + 1);
    }
    if j < |rs| && j != i {
      RemovedAt(rs, i, if j < i then j else j - 1);
      IndexFound(rs', name, if j < i then j else j - 1);
    }
  }

  lemma RemovedLength(rs: seq<DirRec>, i: nat)
    requires 0 < i < |rs|
    ensures |Removed(rs, i)| == |rs| - 1
  {
  }

  /** What is left keeps its order, its names, inodes and types. */
  lemma RemovedAt(rs: seq<DirRec>, i: nat, k: nat)
    requires 0 < i < |rs| && k < |rs| - 1
    ensures |Removed(rs, i)| == |rs| - 1
    ensures var r, r' := rs[if k < i then k else k + 1], Removed(rs, i)[k];
            r'.name == r.name && r'.ino == r.ino && r'.kind == r.kind
  {
  }

  lemma IndexIs(rs: seq<DirRec>, name: seq<byte>, k: nat)
    requires DistinctNames(rs) && k < |rs| && rs[k].name == name
    ensures IndexOf(rs, name) == k
  {
    hide IndexOf;
    IndexFound(rs, name, k);
  }

  lemma {:induction false} IndexFound(rs: seq<DirRec>, name: seq<byte>, k: nat)
    requires k < |rs| && rs[k].name == name
    ensures IndexOf(rs, name) <= k
  {
    if rs[0].name != name { IndexFound(rs[1..], name, k - 1); }
  }

  // ---- how many entries fit ----

  function EmptyNames(rs: seq<DirRec>): nat
  {
    if rs == [] then 0 else (if rs[0].name == [] then 1 else 0) + EmptyNames(rs[1..])
  }

  lemma {:induction false} AtMostOneEmptyName(rs: seq<DirRec>)
    requires DistinctNames(rs)
    ensures EmptyNames(rs) <= 1
    ensures (forall i :: 0 <= i < |rs| ==> rs[i].name != []) ==> EmptyNames(rs) == 0
  {
    if rs != [] {
      AtMostOneEmptyName(rs[1..]);
    }
  }

  lemma {:induction false} RecsFillSpan(b: Block, off: nat)
    requires Tiled(b, off)
    ensures 12 * |Recs(b, off)| <= BLOCK_SIZE - off + 4 * EmptyNames(Recs(b, off))
    decreases BLOCK_SIZE - off
  {
    hide EntryIno, EntryLen, EntryKind, EntryName, EntryNameLen, RecAt;
    if off != BLOCK_SIZE {
      var next := off + EntryLen(b, off);
      ChainStep(b, off);
      RecAtFields(b, off);
      RecsFillSpan(b, next);
    }
  }

  /** At most 85 entries fit in a block, so a guard of 100 steps never cuts a scan short. */
  lemma AtMost85Entries(b: Block)
    requires Tiled(b, 0) && DistinctNames(Recs(b, 0))
    ensures |Recs(b, 0)| <= 85
  {
    RecsFillSpan(b, 0);
    AtMostOneEmptyName(Recs(b, 0));
  }
}
