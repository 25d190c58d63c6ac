/** The directories of a file system as a rooted tree, independent of how they are
    stored. */
module FsTree {
  import opened FsCodec
  import opened FsDirLog

  /** The record that names an inode: the directory that holds it and its name. */
  datatype Place = Place(dir: nat, name: Bytes)

  /** For each directory, the inodes its names stand for. */
  type Directories = map<nat, map<Bytes, int>>

  /** Where each live inode is named, and how deep. */
  datatype Shape = Shape(home: map<nat, Place>, depth: map<nat, nat>)

  predicate IsDot(name: Bytes) { name == DOT || name == DOTDOT }

  function ParentOf(s: Shape, n: nat): nat {
    if n in s.home then s.home[n].dir else 0
  }

  /** "." names the directory itself, ".." the directory that names it (the root: itself),
      and every other name in it the inode whose place it is. */
  ghost predicate DirectoryOk(s: Shape, d: nat, names: map<Bytes, int>) {
    && DOT in names && names[DOT] == d
    && DOTDOT in names && names[DOTDOT] == ParentOf(s, d)
    && forall x ::
         x in names && !IsDot(x) ==> names[x] >= 0 && names[x] in s.home && s.home[names[x] as nat] == Place(d, x)
  }

  /** The root is a live directory; all live inodes but it have a place. */
  ghost predicate Domains(live: set<nat>, dirs: Directories, s: Shape) {
    && 0 in live && 0 in dirs && dirs.Keys <= live
    && s.home.Keys == live - {0} && s.depth.Keys == live && s.depth[0] == 0
  }

  /** The live inodes form a tree with root 0. */
  ghost predicate Tree(live: set<nat>, dirs: Directories, s: Shape) {
    && Domains(live, dirs, s)
    && (forall d :: d in dirs ==> DirectoryOk(s, d, dirs[d]))
    && (forall n :: n in s.home ==> Placed(dirs, s, n))
  }

  /** Inode n is named at its place, one level below the directory there. */
  ghost predicate Placed(dirs: Directories, s: Shape, n: nat)
    requires n in s.home
  {
    var p := s.home[n];
    && p.dir in dirs && !IsDot(p.name)
    && p.name in dirs[p.dir] && dirs[p.dir][p.name] == n
    && n in s.depth && p.dir in s.depth && s.depth[n] == s.depth[p.dir] + 1
  }

  // ---- what a tree means ----

  /** Every live inode but the root has exactly one entry other than "." and ".."; the
      root has none; and every entry names a live inode. */
  lemma OneEntry(live: set<nat>, dirs: Directories, s: Shape, n: nat)
    requires Tree(live, dirs, s)
    ensures n in live && n != 0 ==>
              exists p: Place :: Holds(dirs, p, n) && forall q: Place :: Holds(dirs, q, n) ==> q == p
    ensures n == 0 || n !in live ==> forall q: Place :: !Holds(dirs, q, n)
  {
    forall q: Place | Holds(dirs, q, n) ensures n in s.home && q == s.home[n] {
      assert DirectoryOk(s, q.dir, dirs[q.dir]);
    }
    if n in live && n != 0 {
      assert Placed(dirs, s, n);
      assert Holds(dirs, s.home[n], n);
    }
  }

  /** The directory p.dir has the entry p.name, not "." or "..", for inode n. */
  ghost predicate Holds(dirs: Directories, p: Place, n: nat) {
    p.dir in dirs && !IsDot(p.name) && p.name in dirs[p.dir] && dirs[p.dir][p.name] == n
  }

  /** ".." leads one level up, so going up ends at the root. */
  lemma ParentAbove(live: set<nat>, dirs: Directories, s: Shape, d: nat)
    requires Tree(live, dirs, s) && d in dirs
    ensures ParentOf(s, d) in dirs && DOTDOT in dirs[d] && dirs[d][DOTDOT] == ParentOf(s, d)
    ensures d in s.depth && ParentOf(s, d) in s.depth
    ensures d != 0 ==> s.depth[ParentOf(s, d)] + 1 == s.depth[d]
    ensures d == 0 <==> ParentOf(s, d) == d
  {
    assert DirectoryOk(s, d, dirs[d]);
    if d != 0 { assert Placed(dirs, s, d); }
  }

  lemma HomeEntry(live: set<nat>, dirs: Directories, s: Shape, n: nat)
    requires Tree(live, dirs, s) && n in live && n != 0
    ensures n in s.home && s.home[n].dir in dirs
    ensures s.home[n].name in dirs[s.home[n].dir] && dirs[s.home[n].dir][s.home[n].name] == n
  {
    assert Placed(dirs, s, n);
  }

  lemma RootLive(live: set<nat>, dirs: Directories, s: Shape)
    requires Tree(live, dirs, s)
    ensures 0 in live && 0 in dirs
  {}

  lemma DirLive(live: set<nat>, dirs: Directories, s: Shape, d: nat)
    requires Tree(live, dirs, s) && d in dirs
    ensures d in live
  {}

  /** In the directory above d, an entry for d is the one that places it. */
  lemma EntryAbove(live: set<nat>, dirs: Directories, s: Shape, d: nat, x: Bytes)
    requires Tree(live, dirs, s) && d in dirs && d != 0
    requires ParentOf(s, d) in dirs && x in dirs[ParentOf(s, d)] && dirs[ParentOf(s, d)][x] == d
    ensures s.home[d] == Place(ParentOf(s, d), x)
  {
    var p := ParentOf(s, d);
    assert Placed(dirs, s, d);
    ParentAbove(live, dirs, s, p);
    assert DirectoryOk(s, p, dirs[p]);
  }

  // ---- paths ----

  /** The names on the way from the root to inode n. */
  ghost function PathOf(live: set<nat>, dirs: Directories, s: Shape, n: nat): seq<Bytes>
    requires Tree(live, dirs, s) && n in live
    decreases s.depth[n]
  {
    if n == 0 then []
    else
      assert Placed(dirs, s, n);
      PathOf(live, dirs, s, s.home[n].dir) + [s.home[n].name]
  }

  /** Follows names downwards from inode n, as testfs_dir_name_to_inode_nr does one by
      one; negative when a name is missing or a file is on the way. */
  function Walk(dirs: Directories, n: int, path: seq<Bytes>): int
    decreases |path|
  {
    if path == [] then n
    else
      var up := Walk(dirs, n, path[..|path| - 1]);
      if up >= 0 && up in dirs && path[|path| - 1] in dirs[up] then dirs[up][path[|path| - 1]] else -ENOENT
  }

  /** Walking down the path of an inode arrives at it. */
  lemma {:induction false} PathLeadsBack(live: set<nat>, dirs: Directories, s: Shape, n: nat)
    requires Tree(live, dirs, s) && n in live
    ensures Walk(dirs, 0, PathOf(live, dirs, s, n)) == n
    decreases s.depth[n]
  {
    if n != 0 {
      assert Placed(dirs, s, n);
      var path, up := PathOf(live, dirs, s, n), s.home[n].dir;
      PathLeadsBack(live, dirs, s, up);
      assert path[..|path| - 1] == PathOf(live, dirs, s, up);
    }
  }

  /** It has one name for each level, and no dots. */
  lemma {:induction false} PathLevels(live: set<nat>, dirs: Directories, s: Shape, n: nat)
    requires Tree(live, dirs, s) && n in live
    ensures |PathOf(live, dirs, s, n)| == s.depth[n]
    ensures forall k :: 0 <= k < |PathOf(live, dirs, s, n)| ==> !IsDot(PathOf(live, dirs, s, n)[k])
    decreases s.depth[n]
  {
    if n != 0 {
      assert Placed(dirs, s, n);
      PathLevels(live, dirs, s, s.home[n].dir);
    }
  }

  /** No other path without dots arrives there. */
  lemma {:induction false} OnlyPath(live: set<nat>, dirs: Directories, s: Shape, n: nat, path: seq<Bytes>)
    requires Tree(live, dirs, s) && n in live && Walk(dirs, 0, path) == n
    requires forall k :: 0 <= k < |path| ==> !IsDot(path[k])
    ensures path == PathOf(live, dirs, s, n)
    decreases |path|
  {
    if path != [] {
      var front, last := path[..|path| - 1], path[|path| - 1];
      var up := Walk(dirs, 0, front);
      assert DirectoryOk(s, up, dirs[up]);
      OnlyPath(live, dirs, s, up, front);
      assert path == front + [last];
    }
  }

  // ---- changes ----

  /** The tree with a new file. */
  function WithName(dirs: Directories, d: nat, name: Bytes, n: nat): Directories {
    if d in dirs then dirs[d := dirs[d][name := n]] else dirs
  }

  function WithPlace(s: Shape, d: nat, name: Bytes, n: nat): Shape {
    Shape(s.home[n := Place(d, name)], s.depth[n := if d in s.depth then s.depth[d] + 1 else 0])
  }

  /** The names of a new directory. */
  function NewNames(n: nat, parent: nat): map<Bytes, int> { map[DOT := n, DOTDOT := parent] }

  lemma FileNamed(live: set<nat>, dirs: Directories, s: Shape, d: nat, name: Bytes, n: nat, e: nat)
    requires Tree(live, dirs, s) && n !in live && d in dirs && name !in dirs[d] && e in dirs
    ensures DirectoryOk(WithPlace(s, d, name, n), e, WithName(dirs, d, name, n)[e])
  {
    assert DirectoryOk(s, d, dirs[d]) && DirectoryOk(s, e, dirs[e]);
  }

  lemma FilePlaced(live: set<nat>, dirs: Directories, s: Shape, d: nat, name: Bytes, n: nat, m: nat)
    requires Tree(live, dirs, s) && n !in live && d in dirs && name !in dirs[d] && (m in s.home || m == n)
    ensures Placed(WithName(dirs, d, name, n), WithPlace(s, d, name, n), m)
  {
    assert DirectoryOk(s, d, dirs[d]);
    if m != n { assert Placed(dirs, s, m); }
  }

  lemma TreeWithFile(live: set<nat>, dirs: Directories, s: Shape, d: nat, name: Bytes, n: nat)
    requires Tree(live, dirs, s) && n !in live && d in dirs && name !in dirs[d]
    ensures Tree(live + {n}, WithName(dirs, d, name, n), WithPlace(s, d, name, n))
  {
    var dirs', s' := WithName(dirs, d, name, n), WithPlace(s, d, name, n);
    hide DirectoryOk, Placed;
    forall e | e in dirs' ensures DirectoryOk(s', e, dirs'[e]) { FileNamed(live, dirs, s, d, name, n, e); }
    forall m | m in s'.home ensures Placed(dirs', s', m) { FilePlaced(live, dirs, s, d, name, n, m); }
  }

  lemma PlacedFrame(dirs: Directories, s: Shape, m: nat, n: nat, names: map<Bytes, int>)
    requires m in s.home && Placed(dirs, s, m) && n !in dirs
    ensures Placed(dirs[n := names], s, m)
  {}

  lemma NewDirectory(live: set<nat>, dirs: Directories, s: Shape, n: nat)
    requires Tree(live, dirs, s) && n in s.home
    ensures DirectoryOk(s, n, NewNames(n, s.home[n].dir))
  {}

  lemma TreeWithDir(live: set<nat>, dirs: Directories, s: Shape, d: nat, name: Bytes, n: nat)
    requires Tree(live, dirs, s) && n !in live && d in dirs && name !in dirs[d]
    ensures Tree(live + {n}, WithName(dirs, d, name, n)[n := NewNames(n, d)], WithPlace(s, d, name, n))
  {
    TreeWithFile(live, dirs, s, d, name, n);
    var dirs1, s' := WithName(dirs, d, name, n), WithPlace(s, d, name, n);
    NewDirectory(live + {n}, dirs1, s', n);
    hide DirectoryOk, Placed;
    forall m | m in s'.home ensures Placed(dirs1[n := NewNames(n, d)], s', m) {
      PlacedFrame(dirs1, s', m, n, NewNames(n, d));
    }
  }

  /** The tree without inode n and its entry. */
  function Without(dirs: Directories, d: nat, name: Bytes, n: nat): Directories {
    if d in dirs then dirs[d := dirs[d] - {name}] - {n} else dirs
  }

  function WithoutPlace(s: Shape, n: nat): Shape { Shape(s.home - {n}, s.depth - {n}) }

  /** An inode that may be removed: not the root, nor the directory that holds its entry. */
  lemma CanGo(live: set<nat>, dirs: Directories, s: Shape, d: nat, name: Bytes, n: nat)
    requires Tree(live, dirs, s) && d in dirs && !IsDot(name) && name in dirs[d] && dirs[d][name] == n
    ensures n in live && n != 0 && n != d && n in s.home && s.home[n] == Place(d, name)
  {
    assert DirectoryOk(s, d, dirs[d]);
    assert Placed(dirs, s, n);
  }

  lemma GoneNamed(live: set<nat>, dirs: Directories, s: Shape, d: nat, name: Bytes, n: nat, e: nat)
    requires Tree(live, dirs, s) && d in dirs && !IsDot(name) && name in dirs[d] && dirs[d][name] == n
    requires n in dirs ==> forall x :: x in dirs[n] ==> IsDot(x)
    requires e in dirs && e != n
    ensures n != d && DirectoryOk(WithoutPlace(s, n), e, Without(dirs, d, name, n)[e])
  {
    CanGo(live, dirs, s, d, name, n);
    assert DirectoryOk(s, e, dirs[e]);
    if e != 0 { assert Placed(dirs, s, e); }
  }

  lemma GonePlaced(live: set<nat>, dirs: Directories, s: Shape, d: nat, name: Bytes, n: nat, m: nat)
    requires Tree(live, dirs, s) && d in dirs && !IsDot(name) && name in dirs[d] && dirs[d][name] == n
    requires n in dirs ==> forall x :: x in dirs[n] ==> IsDot(x)
    requires m in s.home && m != n
    ensures Placed(Without(dirs, d, name, n), WithoutPlace(s, n), m)
  {
    CanGo(live, dirs, s, d, name, n);
    assert Placed(dirs, s, m);
  }

  lemma GoneDomains(live: set<nat>, dirs: Directories, s: Shape, d: nat, name: Bytes, n: nat)
    requires Domains(live, dirs, s) && d in dirs && n != 0 && n != d
    ensures Domains(live - {n}, Without(dirs, d, name, n), WithoutPlace(s, n))
    ensures Without(dirs, d, name, n).Keys == dirs.Keys - {n} && WithoutPlace(s, n).home.Keys == s.home.Keys - {n}
  {}

  /** Only a file or an empty directory can go. */
  lemma TreeWithout(live: set<nat>, dirs: Directories, s: Shape, d: nat, name: Bytes, n: nat)
    requires Tree(live, dirs, s) && d in dirs && !IsDot(name) && name in dirs[d] && dirs[d][name] == n
    requires n in dirs ==> forall x :: x in dirs[n] ==> IsDot(x)
    ensures n in live && n != 0 && n != d
    ensures Tree(live - {n}, Without(dirs, d, name, n), WithoutPlace(s, n))
  {
    var dirs', s' := Without(dirs, d, name, n), WithoutPlace(s, n);
    CanGo(live, dirs, s, d, name, n);
    hide DirectoryOk, Placed, IsDot;
    GoneDomains(live, dirs, s, d, name, n);
    hide Without, WithoutPlace, Domains;
    forall e | e in dirs' ensures DirectoryOk(s', e, dirs'[e]) { GoneNamed(live, dirs, s, d, name, n, e); }
    forall m | m in s'.home ensures Placed(dirs', s', m) { GonePlaced(live, dirs, s, d, name, n, m); }
  }

  /** The tree of a new file system. */
  lemma RootTree()
    ensures Tree({0}, map[0 := NewNames(0, 0)], Shape(map[], map[0 := 0]))
  {}
}
