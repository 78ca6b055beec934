/** Path strings and their resolution through directories on disk. */
module Paths {
  import opened Bytes
  import opened DirBlock
  import opened Volume

  const SLASH: byte := 47
  const MAX_NAME := 255

  // ---- splitting a path into components ----

  /** Leading bytes of `s` up to a slash, at most `limit` of them. */
  function ComponentLen(s: seq<byte>, limit: nat): (n: nat)
    ensures n <= |s| && n <= limit
    ensures forall k :: 0 <= k < n ==> s[k] != SLASH
    ensures n < |s| && n < limit ==> s[n] == SLASH
  {
    if s == [] || s[0] == SLASH || limit == 0 then 0 else 1 + ComponentLen(s[1..], limit - 1)
  }

  function SlashRun(s: seq<byte>): (n: nat)
    ensures n <= |s|
    ensures forall k :: 0 <= k < n ==> s[k] == SLASH
    ensures n < |s| ==> s[n] != SLASH
  {
    if s == [] || s[0] != SLASH then 0 else 1 + SlashRun(s[1..])
  }

  /** How many bytes the first component and the slashes after it take. */
  function ComponentSpan(s: seq<byte>): (n: nat)
    ensures n <= |s| && (s != [] ==> n > 0)
  {
    ComponentLen(s, MAX_NAME) + SlashRun(s[ComponentLen(s, MAX_NAME)..])
  }

  /** The components of a path, cut at runs of slashes and at 255 bytes. */
  function Components(s: seq<byte>): (cs: seq<seq<byte>>)
    ensures forall k :: 0 <= k < |cs| ==> |cs[k]| <= MAX_NAME
  {
    if s == [] then [] else [s[..ComponentLen(s, MAX_NAME)]] + Components(s[ComponentSpan(s)..])
  }

  predicate PlainName(c: seq<byte>)
  {
    0 < |c| <= MAX_NAME && SLASH !in c && c != DOT && c != DOTDOT
  }

  /** Component names separated by single slashes. */
  function Join(cs: seq<seq<byte>>): seq<byte>
  {
    if cs == [] then [] else if |cs| == 1 then cs[0] else cs[0] + [SLASH] + Join(cs[1..])
  }

  lemma {:induction false} ComponentLenOf(c: seq<byte>, rest: seq<byte>, limit: nat)
    requires SLASH !in c && |c| <= limit && (rest == [] || rest[0] == SLASH)
    ensures ComponentLen(c + rest, limit) == |c|
  {
    if c != [] {
      assert (c + rest)[1..] == c[1..] + rest;
      ComponentLenOf(c[1..], rest, limit - 1);
    } else {
      assert c + rest == rest;
    }
  }

  /** Slashes after a name, however many, separate it from the rest; at the end they say nothing. */
  lemma ComponentsOfSlashes(c: seq<byte>, slashes: seq<byte>, rest: seq<byte>)
    requires SLASH !in c && 0 < |c| <= 255 && (forall k :: 0 <= k < |slashes| ==> slashes[k] == SLASH)
    requires (rest != [] ==> rest[0] != SLASH) && (slashes == [] ==> rest == [])
    ensures Components(c + (slashes + rest)) == [c] + Components(rest)
  {
    var s := c + (slashes + rest);
    ComponentLenOf(c, slashes + rest, MAX_NAME);
    assert s[..|c|] == c && s[|c|..] == slashes + rest;
    SlashRunOf(slashes, rest);
    assert s[ComponentSpan(s)..] == rest;
  }

  lemma {:induction false} SlashRunOf(slashes: seq<byte>, rest: seq<byte>)
    requires (forall k :: 0 <= k < |slashes| ==> slashes[k] == SLASH) && (rest != [] ==> rest[0] != SLASH)
    ensures SlashRun(slashes + rest) == |slashes|
  {
    if slashes == [] {
      assert slashes + rest == rest;
    } else {
      assert (slashes + rest)[1..] == slashes[1..] + rest;
      SlashRunOf(slashes[1..], rest);
    }
  }

  /** A name of more than 255 bytes is cut there. */
  lemma LongNameIsCut(c: seq<byte>, rest: seq<byte>)
    requires SLASH !in c && |c| == 255 && rest != [] && rest[0] != SLASH
    ensures Components(c + rest) == [c] + Components(rest)
  {
    var s := c + rest;
    FullComponent(c, rest, MAX_NAME);
    assert s[..255] == c && s[255..] == rest;
  }

  lemma {:induction false} FullComponent(c: seq<byte>, rest: seq<byte>, limit: nat)
    requires SLASH !in c && |c| == limit
    ensures ComponentLen(c + rest, limit) == limit
  {
    if c != [] {
      assert (c + rest)[1..] == c[1..] + rest;
      FullComponent(c[1..], rest, limit - 1);
    }
  }

  lemma JoinNotEmpty(cs: seq<seq<byte>>)
    requires cs != [] && forall k :: 0 <= k < |cs| ==> PlainName(cs[k])
    ensures Join(cs) != [] && Join(cs)[0] != SLASH
  {
    assert PlainName(cs[0]) && cs[0][0] in cs[0];
  }

  /** Splitting inverts joining. */
  lemma {:induction false} ComponentsOfJoin(cs: seq<seq<byte>>)
    requires forall k :: 0 <= k < |cs| ==> PlainName(cs[k])
    ensures Components(Join(cs)) == cs
  {
    if cs != [] {
      var s := Join(cs);
      var rest := if |cs| == 1 then [] else [SLASH] + Join(cs[1..]);
      assert s == cs[0] + rest;
      ComponentLenOf(cs[0], rest, MAX_NAME);
      assert s[..|cs[0]|] == cs[0] && s[|cs[0]|..] == rest;
      JoinNotEmpty(cs);
      if |cs| > 1 {
        JoinNotEmpty(cs[1..]);
        assert rest[1..] == Join(cs[1..]);
        assert SlashRun(rest) == 1 + SlashRun(rest[1..]) == 1;
        assert s[ComponentSpan(s)..] == Join(cs[1..]);
        ComponentsOfJoin(cs[1..]);
      } else {
        assert s[ComponentSpan(s)..] == [];
      }
    }
  }

  // ---- resolution ----

  /** What traversal reports: the inode (0 if none) and the directory and name of the last step. */
  datatype Found = Found(ino: nat, parent: nat, name: seq<byte>)

  function Walk(g: Geometry, d: Disk, cur: nat, cs: seq<seq<byte>>): Found
    decreases |cs|
  {
    if cs == [] then Found(cur, 0, [])
    else
      var (n, kind) := LookIn(g, d, cur, cs[0]);
      if |cs| == 1 then Found(n, cur, cs[0])
      else if n == 0 || kind != FT_DIR then Found(0, 0, [])
      else Walk(g, d, n, cs[1..])
  }

  /** No path leads on from a name that is not bound to a directory. */
  lemma NoWayThrough(g: Geometry, d: Disk, cur: nat, c: seq<byte>, rest: seq<seq<byte>>)
    requires rest != [] && (LookIn(g, d, cur, c).0 == 0 || LookIn(g, d, cur, c).1 != 2)
    ensures Walk(g, d, cur, [c] + rest) == Found(0, 0, [])
  {
    assert ([c] + rest)[1..] == rest;
  }

  /** A last name is reported with the directory it is looked up in, and a name before that is passed. */
  lemma WalkOn(g: Geometry, d: Disk, cur: nat, c: seq<byte>, rest: seq<seq<byte>>)
    ensures Walk(g, d, cur, [c]) == Found(LookIn(g, d, cur, c).0, cur, c)
    ensures rest != [] && LookIn(g, d, cur, c).0 != 0 && LookIn(g, d, cur, c).1 == 2 ==>
              Walk(g, d, cur, [c] + rest) == Walk(g, d, LookIn(g, d, cur, c).0, rest)
  {
    assert ([c] + rest)[1..] == rest;
  }

  const ROOT_PATH: seq<byte> := [SLASH]

  predicate Absolute(path: seq<byte>)
  {
    path != [] && path[0] == SLASH
  }

  /** Resolve a path string from working directory `cwd`. */
  function Traverse(g: Geometry, d: Disk, cwd: nat, path: seq<byte>): Found
  {
    if path == ROOT_PATH then Found(ROOT, ROOT, ROOT_PATH)
    else if Absolute(path) then Walk(g, d, ROOT, Components(path[1..]))
    else Walk(g, d, cwd, Components(path))
  }

  /** A path that starts with a slash is resolved from the root, wherever the working directory is; any other from
      there. */
  lemma WhereToStart(g: Geometry, d: Disk, cwd: nat, path: seq<byte>)
    ensures Traverse(g, d, cwd, [47]).ino == 2
    ensures path != [] ==> Traverse(g, d, cwd, [47] + path) == Walk(g, d, 2, Components(path))
    ensures path == [] || path[0] != 47 ==> Traverse(g, d, cwd, path) == Walk(g, d, cwd, Components(path))
  {
    assert ([47] + path)[1..] == path;
  }

  ghost predicate LiveDir(t: Tree, n: nat)
  {
    n in t && t[n].isDir
  }

  /** A name found in a live directory is a live inode of the recorded type. */
  lemma LookIsLive(g: Geometry, d: Disk, t: Tree, n: nat, name: seq<byte>)
    requires WellFormed(g, d, t) && LiveDir(t, n)
    ensures var (m, kind) := LookIn(g, d, n, name);
            m != 0 ==> m in t && (kind == FT_DIR <==> t[m].isDir)
    ensures n != 0
  {
    hide Recs, DirData, Tiled, NoSharing, BitmapsOk, OwnsData, ReadInode, IsMeta, TableBlocks;
    assert DirectoryOk(DirData(g, d, n), t, n);
    assert IsNamed(g, d, t, n) && LiveInode(g, d, n, t[n]);
    var rs := DirRecs(g, d, n);
    var i := IndexOf(rs, name);
    if 2 <= i < |rs| {
      assert NamesChild(t, n, rs[i]);
    }
  }

  /** A walk from a live directory ends in nothing or in a live inode, found where it says. */
  lemma {:induction false} WalkIsLive(g: Geometry, d: Disk, t: Tree, cur: nat, cs: seq<seq<byte>>)
    requires WellFormed(g, d, t) && LiveDir(t, cur)
    ensures var w := Walk(g, d, cur, cs);
            && (w.ino != 0 ==> w.ino in t)
            && (w.ino != 0 && w.parent == 0 ==> cs == [] && w.ino == cur)
            && (w.parent != 0 ==> LiveDir(t, w.parent) && LookIn(g, d, w.parent, w.name).0 == w.ino)
            && (w.parent != 0 ==> cs != [] && w.name == cs[|cs| - 1])
    decreases |cs|
  {
    hide WellFormed, LookIn;
    if cs != [] {
      LookIsLive(g, d, t, cur, cs[0]);
      var (n, kind) := LookIn(g, d, cur, cs[0]);
      if |cs| > 1 && n != 0 && kind == FT_DIR {
        WalkIsLive(g, d, t, n, cs[1..]);
      }
    }
  }

  // ---- resolution when one name of one directory changes ----

  /** On `d'` the live directories of `t` answer as on `d`, except for `name` in `p`. */
  ghost predicate LooksChanged(g: Geometry, d: Disk, d': Disk, t: Tree, p: nat, name: seq<byte>, now: (nat, byte))
  {
    forall x, s {:trigger LookIn(g, d', x, s)} {:trigger LookIn(g, d, x, s)} ::
      LiveDir(t, x) ==> LookIn(g, d', x, s) == if x == p && s == name then now else LookIn(g, d, x, s)
  }

  /** Binding a free name leaves every resolved path alone and resolves exactly where it was bound. */
  lemma {:induction false} WalkAfterBinding(g: Geometry, d: Disk, d': Disk, t: Tree, p: nat, name: seq<byte>,
      now: (nat, byte), cur: nat, cs: seq<seq<byte>>)
    requires WellFormed(g, d, t) && LiveDir(t, cur)
    requires LookIn(g, d, p, name).0 == 0 && LooksChanged(g, d, d', t, p, name, now)
    ensures var w := Walk(g, d, cur, cs);
            && (w.ino != 0 ==> Walk(g, d', cur, cs) == w)
            && (w == Found(0, p, name) && p != 0 ==> Walk(g, d', cur, cs) == Found(now.0, p, name))
    decreases |cs|
  {
    hide WellFormed, LookIn;
    if cs != [] {
      LookIsLive(g, d, t, cur, cs[0]);
      var (n, kind) := LookIn(g, d, cur, cs[0]);
      assert LookIn(g, d', cur, cs[0]) == if cur == p && cs[0] == name then now else (n, kind);
      if |cs| > 1 && n != 0 && kind == FT_DIR {
        WalkAfterBinding(g, d, d', t, p, name, now, n, cs[1..]);
      }
    }
  }

  /** Unbinding a file's name makes exactly the walks that end at it fail. */
  lemma {:induction false} WalkAfterUnbinding(g: Geometry, d: Disk, d': Disk, t: Tree, p: nat, name: seq<byte>,
      cur: nat, cs: seq<seq<byte>>)
    requires WellFormed(g, d, t) && LiveDir(t, cur) && p != 0
    requires LookIn(g, d, p, name).1 != FT_DIR && LooksChanged(g, d, d', t, p, name, (0, 0))
    ensures var w := Walk(g, d, cur, cs);
            Walk(g, d', cur, cs) == if w.parent == p && w.name == name then Found(0, p, name) else w
    decreases |cs|
  {
    hide WellFormed, LookIn;
    if cs != [] {
      LookIsLive(g, d, t, cur, cs[0]);
      var (n, kind) := LookIn(g, d, cur, cs[0]);
      assert LookIn(g, d', cur, cs[0]) == if cur == p && cs[0] == name then (0, 0) else (n, kind);
      if |cs| > 1 && n != 0 && kind == FT_DIR {
        WalkAfterUnbinding(g, d, d', t, p, name, n, cs[1..]);
      }
    }
  }
}
