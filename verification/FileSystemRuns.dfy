/** Whole runs of the file system: any sequence of mkdir, touch, rm and cd. */
module FileSystemRuns {
  import opened Bytes
  import opened DirBlock
  import opened Volume
  import opened Paths
  import opened Transactions
  import opened FileSystem
  import opened DiskEffects

  datatype Op = Mkdir(path: seq<byte>) | Touch(path: seq<byte>) | Rm(path: seq<byte>) | Cd(path: seq<byte>)

  /** The step stays inside the block buffer it links into and inside the stored path string. */
  ghost predicate Allowed(g: Geometry, s: State, op: Op)
  {
    match op
    case Mkdir(path) => RoomToCreate(g, s, path)
    case Touch(path) => RoomToCreate(g, s, path)
    case Rm(_) => true
    case Cd(path) => |NextPath(s.cwdPath, path)| < PATH_CAPACITY
  }

  ghost function Step(g: Geometry, s: State, op: Op): State
    requires Valid(g, s) && Allowed(g, s, op)
  {
    match op
    case Mkdir(path) => FileSystem.Mkdir(g, s, path).0
    case Touch(path) => FileSystem.Touch(g, s, path).0
    case Rm(path) => FileSystem.Rm(g, s, path).0
    case Cd(path) => FileSystem.Cd(g, s, path).0
  }

  /** cd to any argument keeps the volume and moves only to live directories. */
  lemma CdKeepsValid(g: Geometry, s: State, arg: seq<byte>)
    requires Valid(g, s)
    ensures Valid(g, FileSystem.Cd(g, s, arg).0)
  {
    hide WellFormed, ReadInode, IMode, IsDirMode, Traverse, NextPath;
    var w := Resolve(g, s, arg);
    TraverseIsLive(g, s, arg);
    if w.ino != 0 { LiveFile(g, s.disk, s.tree, w.ino); }
  }

  lemma StepKeepsValid(g: Geometry, s: State, op: Op)
    requires Valid(g, s) && Allowed(g, s, op)
    ensures Valid(g, Step(g, s, op))
  {
    hide Valid, RoomToCreate, FileSystem.Mkdir, FileSystem.Touch, FileSystem.Rm, FileSystem.Cd, Created, Deleted;
    hide Untouched;
    match op
    case Mkdir(path) => MkdirEffect(g, s, path);
    case Touch(path) => TouchEffect(g, s, path);
    case Rm(path) => RmEffect(g, s, path);
    case Cd(path) => CdKeepsValid(g, s, path);
  }

  ghost predicate RunAllowed(g: Geometry, s: State, ops: seq<Op>)
    requires Valid(g, s)
    decreases |ops|
  {
    ops == [] || (Allowed(g, s, ops[0]) && (StepKeepsValid(g, s, ops[0]); RunAllowed(g, Step(g, s, ops[0]), ops[1..])))
  }

  ghost function Run(g: Geometry, s: State, ops: seq<Op>): State
    requires Valid(g, s) && RunAllowed(g, s, ops)
    decreases |ops|
  {
    if ops == [] then s
    else
      StepKeepsValid(g, s, ops[0]);
      Run(g, Step(g, s, ops[0]), ops[1..])
  }

  /** No step changes the contents of a file, not even of the one it removes. */
  lemma StepKeepsFiles(g: Geometry, s: State, op: Op, m: nat)
    requires Valid(g, s) && Allowed(g, s, op) && m in s.tree && !s.tree[m].isDir
    ensures SameContents(g, s.disk, Step(g, s, op).disk, m)
    ensures m in Step(g, s, op).tree ==> ReadInode(g, Step(g, s, op).disk, m) == ReadInode(g, s.disk, m)
  {
    hide WellFormed, RoomToCreate, FileSystem.Mkdir, FileSystem.Touch, FileSystem.Rm, FileSystem.Cd, SameContents;
    hide ReadInode, DirData, DirRecs, Linked, Removed, LooksChanged, LookIn, Traverse;
    match op
    case Mkdir(path) => MkdirEffect(g, s, path); MkdirKeepsFiles(g, s, path, m);
    case Touch(path) => TouchEffect(g, s, path); TouchKeepsFiles(g, s, path, m);
    case Rm(path) => RmEffect(g, s, path); RmKeepsFiles(g, s, path, m);
    case Cd(path) =>
      CdKeepsDisk(g, s, path);
      ContentsStay(g, s, m);
  }

  lemma ContentsStay(g: Geometry, s: State, m: nat)
    requires Valid(g, s) && m in s.tree && !s.tree[m].isDir
    ensures SameContents(g, s.disk, s.disk, m)
  {
    hide WellFormed, ReadInode, DirBlockNo, IsMeta, Marked, PointsTo;
    RootIsLive(g, s.disk, s.tree);
    FilesKept(g, s.disk, s.disk, s.tree, ROOT, 0, {}, m);
  }

  /** In every run the disk stays a well-formed tree and the working directory stays live in it. */
  lemma {:induction false} RunKeepsValid(g: Geometry, s: State, ops: seq<Op>)
    requires Valid(g, s) && RunAllowed(g, s, ops)
    ensures Valid(g, Run(g, s, ops))
    decreases |ops|
  {
    hide Valid, Allowed, Step;
    if ops != [] {
      StepKeepsValid(g, s, ops[0]);
      RunKeepsValid(g, Step(g, s, ops[0]), ops[1..]);
    }
  }

  // ---- directories are forever ----

  /** A path of a live directory means the same directory after a step. */
  lemma StepKeepsDirPath(g: Geometry, s: State, op: Op, cs: seq<seq<byte>>)
    requires Valid(g, s) && Allowed(g, s, op)
    requires LiveDir(s.tree, Walk(g, s.disk, ROOT, cs).ino)
    ensures Walk(g, Step(g, s, op).disk, ROOT, cs).ino == Walk(g, s.disk, ROOT, cs).ino
    ensures LiveDir(Step(g, s, op).tree, Walk(g, s.disk, ROOT, cs).ino)
  {
    hide WellFormed, RoomToCreate, FileSystem.Mkdir, FileSystem.Touch, FileSystem.Rm, LookIn, LooksChanged, Walk;
    hide ReadInode, DirData, DirRecs, Linked, Removed, SameView, Traverse;
    hide FileSystem.Cd;
    RootIsLive(g, s.disk, s.tree);
    var s' := Step(g, s, op);
    var w := Walk(g, s.disk, ROOT, cs);
    assert 0 !in s.tree by { LiveIsMarked(g, s.disk, s.tree); }
    match op
    case Mkdir(path) =>
      MkdirEffect(g, s, path);
      CreationKeepsWalk(g, s, s', path, cs);
    case Touch(path) =>
      TouchEffect(g, s, path);
      CreationKeepsWalk(g, s, s', path, cs);
    case Rm(path) =>
      RmEffect(g, s, path);
      var r := Resolve(g, s, path);
      if s' != s {
        WalkAfterUnbinding(g, s.disk, s'.disk, s.tree, r.parent, r.name, ROOT, cs);
        WalkIsLive(g, s.disk, s.tree, ROOT, cs);
      }
    case Cd(path) =>
      CdKeepsDisk(g, s, path);
  }

  lemma CdKeepsDisk(g: Geometry, s: State, path: seq<byte>)
    ensures var s' := FileSystem.Cd(g, s, path).0;
            s'.disk == s.disk && s'.tree == s.tree
  {
  }

  lemma CreationKeepsWalk(g: Geometry, s: State, s': State, path: seq<byte>, cs: seq<seq<byte>>)
    requires Valid(g, s) && Walk(g, s.disk, ROOT, cs).ino != 0
    requires || Untouched(g, s, s')
             || exists p, name, n, node, kind :: Created(g, s, s', p, name, n, node, kind)
    ensures Walk(g, s'.disk, ROOT, cs) == Walk(g, s.disk, ROOT, cs)
  {
    hide WellFormed, LookIn, LooksChanged, Walk, ReadInode, DirData, DirRecs, Linked;
    RootIsLive(g, s.disk, s.tree);
    if Untouched(g, s, s') {
      SameWalk(g, s.disk, s'.disk, s.tree, ROOT, cs);
    } else {
      var p, name, n, node, kind :| Created(g, s, s', p, name, n, node, kind);
      WalkAfterBinding(g, s.disk, s'.disk, s.tree, p, name, (n, kind), ROOT, cs);
    }
  }

  lemma {:induction false} SameWalk(g: Geometry, d: Disk, d': Disk, t: Tree, cur: nat, cs: seq<seq<byte>>)
    requires WellFormed(g, d, t) && LiveDir(t, cur) && SameView(g, d, d', t)
    ensures Walk(g, d', cur, cs) == Walk(g, d, cur, cs)
    decreases |cs|
  {
    hide WellFormed, LookIn, SameView;
    if cs != [] {
      SameViewLooks(g, d, d', t, cur, cs[0]);
      LookIsLive(g, d, t, cur, cs[0]);
      var (n, kind) := LookIn(g, d, cur, cs[0]);
      if |cs| > 1 && n != 0 && kind == FT_DIR {
        SameWalk(g, d, d', t, n, cs[1..]);
      }
    }
  }

  lemma SameViewLooks(g: Geometry, d: Disk, d': Disk, t: Tree, n: nat, name: seq<byte>)
    requires SameView(g, d, d', t) && LiveDir(t, n)
    ensures LookIn(g, d', n, name) == LookIn(g, d, n, name)
  {
    hide ReadInode, DirData, Recs, Look;
  }

  // ---- the stored path of the working directory ----

  /** The step is not a cd, or a cd with a canonical argument. */
  ghost predicate CanonicalOp(op: Op)
  {
    op.Cd? ==> CanonicalArg(op.path)
  }

  lemma StepKeepsPath(g: Geometry, s: State, op: Op)
    requires Valid(g, s) && Allowed(g, s, op) && PathMatches(g, s) && CanonicalOp(op)
    ensures PathMatches(g, Step(g, s, op))
  {
    if op.Cd? {
      CdEffect(g, s, op.path);
    } else {
      var cs :| SpellsCwd(g, s, cs);
      var s' := Step(g, s, op);
      StepKeepsDirPath(g, s, op, cs);
      StepKeepsCwd(g, s, op);
      assert SpellsCwd(g, s', cs);
    }
  }

  lemma StepKeepsCwd(g: Geometry, s: State, op: Op)
    requires Valid(g, s) && Allowed(g, s, op) && !op.Cd?
    ensures Step(g, s, op).cwd == s.cwd && Step(g, s, op).cwdPath == s.cwdPath
  {
    hide Valid, RoomToCreate, FileSystem.Mkdir, FileSystem.Touch, FileSystem.Rm, LookIn, LooksChanged, ReadInode;
    hide DirData, DirRecs, SameView;
    match op
    case Mkdir(path) => MkdirEffect(g, s, path);
    case Touch(path) => TouchEffect(g, s, path);
    case Rm(path) => RmEffect(g, s, path);
  }

  /** In every run whose cd arguments are canonical, the stored path resolves to the working
      directory. */
  lemma {:induction false} RunKeepsPath(g: Geometry, s: State, ops: seq<Op>)
    requires Valid(g, s) && RunAllowed(g, s, ops) && PathMatches(g, s)
    requires forall k :: 0 <= k < |ops| ==> CanonicalOp(ops[k])
    ensures PathMatches(g, Run(g, s, ops))
    ensures var s' := Run(g, s, ops); Resolve(g, s', s'.cwdPath).ino == s'.cwd
    decreases |ops|
  {
    hide Valid, Allowed, Step, PathMatches, CanonicalArg, Traverse;
    if ops != [] {
      StepKeepsValid(g, s, ops[0]);
      StepKeepsPath(g, s, ops[0]);
      RunKeepsPath(g, Step(g, s, ops[0]), ops[1..]);
    } else {
      PathResolves(g, s);
    }
  }
}
