// base/file_util_posix.cc: Delete, which unlinks what a traversal hands out and then
// removes the directories it met, the last one first.
module RecursiveDelete {
  import opened Wrappers
  import opened DirectoryTree

  // ----- First pass: everything that is not a directory goes -----

  function FilesIn(nodes: Nodes, s: seq<Path>): set<Path> {
    set q | q in s && Get(nodes, q) == Some(NonDir)
  }

  function DirsIn(nodes: Nodes, s: seq<Path>): (dirs: seq<Path>)
    ensures forall q :: q in dirs <==> q in s && Get(nodes, q) == Some(Dir)
  {
    if s == [] then []
    else
      var n := |s| - 1;
      DirsIn(nodes, s[..n]) + if Get(nodes, s[n]) == Some(Dir) then [s[n]] else []
  }

  // The directories to remove after s was handed out.
  function StackOf(nodes: Nodes, root: Path, s: seq<Path>): seq<Path> {
    [root] + DirsIn(nodes, s)
  }

  lemma WithoutFiles(nodes: Nodes, s: seq<Path>)
    requires WellFormed(nodes)
    ensures WellFormed(nodes - FilesIn(nodes, s))
  {
    forall q
      ensures InPlace(nodes - FilesIn(nodes, s), q)
    {
      assert InPlace(nodes, q);
    }
  }

  // Nothing that was handed out is inside a directory still to be read.
  lemma FilesAreElsewhere(nodes: Nodes, root: Path, dir: Path, left: seq<Entry>, returned: seq<Path>,
                          pending: seq<Path>)
    requires TraversalOk(nodes, root, dir, left, returned, pending)
    ensures Intact(nodes - FilesIn(nodes, returned), nodes, pending)
  {
    forall q | AtOrBelowSome(pending, q)
      ensures q !in FilesIn(nodes, returned)
    {
      var p :| p in pending && p <= q;
      assert nodes[p] == Dir;
      if q in returned {
        assert q in returned + PathsOf(dir, left);
        assert !BelowSome(pending, q);
        assert p == q;
      }
    }
  }

  lemma FilesSnoc(nodes: Nodes, s: seq<Path>, q: Path)
    ensures FilesIn(nodes, s + [q]) == if Get(nodes, q) == Some(NonDir) then FilesIn(nodes, s) + {q}
            else FilesIn(nodes, s)
    ensures Get(nodes, q) == Some(NonDir) ==> nodes - FilesIn(nodes, s + [q]) == nodes - FilesIn(nodes, s) - {q}
    ensures DirsIn(nodes, s + [q]) == if Get(nodes, q) == Some(Dir) then DirsIn(nodes, s) + [q] else DirsIn(nodes, s)
  {
    assert (s + [q])[..|s|] == s;
  }

  // Each path handed out is new and was there at the start.
  lemma NextIsNew(nodes: Nodes, root: Path, dir: Path, left: seq<Entry>, s: seq<Path>, q: Path, pending: seq<Path>)
    requires TraversalOk(nodes, root, dir, left, s + [q], pending)
    ensures q in nodes && q !in s
  {
    var all := s + [q] + PathsOf(dir, left);
    assert all[|s|] == q && q in all;
    forall i | 0 <= i < |s|
      ensures s[i] != q
    {
      assert all[i] == s[i];
    }
  }

  // The state after the first pass has handled what was handed out last.
  lemma AfterHandling(nodes: Nodes, root: Path, dir: Path, left: seq<Entry>, s: seq<Path>, q: Path, pending: seq<Path>)
    requires TraversalOk(nodes, root, dir, left, s + [q], pending)
    ensures q in nodes && q !in s && |s + [q]| <= |nodes|
    ensures WellFormed(nodes - FilesIn(nodes, s + [q])) && Intact(nodes - FilesIn(nodes, s + [q]), nodes, pending)
  {
    NextIsNew(nodes, root, dir, left, s, q, pending);
    WithoutFiles(nodes, s + [q]);
    FilesAreElsewhere(nodes, root, dir, left, s + [q], pending);
    ReturnedFit(nodes, root, dir, left, s + [q], pending);
  }

  lemma HandledNodes(nodes: Nodes, root: Path, s: seq<Path>, q: Path)
    requires q in nodes && q !in s
    ensures var here, here' := nodes - FilesIn(nodes, s), nodes - FilesIn(nodes, s + [q]);
            && (Get(nodes, q) == Some(Dir) ==>
                  here' == here && StackOf(nodes, root, s + [q]) == StackOf(nodes, root, s) + [q])
            && (Get(nodes, q) != Some(Dir) ==>
                  && Get(here, q) == Some(NonDir) && here' == here - {q}
                  && StackOf(nodes, root, s + [q]) == StackOf(nodes, root, s))
  {
    FilesSnoc(nodes, s, q);
    assert q !in FilesIn(nodes, s) && (nodes[q].Dir? || nodes[q].NonDir?);
    assert [root] + (DirsIn(nodes, s) + [q]) == [root] + DirsIn(nodes, s) + [q];
  }

  // ----- Second pass: the directories, deepest first -----

  // Every directory on the stack but the lowest is above its parent.
  ghost predicate Stacked(root: Path, dirs: seq<Path>) {
    && Distinct(dirs)
    && (forall i :: OnParent(root, dirs, i))
  }

  ghost predicate OnParent(root: Path, dirs: seq<Path>, i: int) {
    0 <= i < |dirs| ==>
      if i == 0 then dirs[i] == root
      else dirs[i] != [] && root < dirs[i] && Parent(dirs[i]) in dirs[..i]
  }

  ghost predicate InOrder(root: Path, s: seq<Path>) {
    Distinct(s) && (forall q :: q in s ==> root < q) && forall i :: AfterParent(root, s, i)
  }

  lemma {:induction false} DirsStack(nodes: Nodes, root: Path, s: seq<Path>)
    requires WellFormed(nodes) && root in nodes && InOrder(root, s)
    ensures Stacked(root, StackOf(nodes, root, s))
  {
    if s == [] {
      assert StackOf(nodes, root, s) == [root];
    } else {
      var n := |s| - 1;
      var q, before := s[n], s[..n];
      BeforeLast(root, s, n);
      DirsStack(nodes, root, before);
      LastStacked(nodes, root, before, q);
      assert s == before + [q];
    }
  }

  lemma LastStacked(nodes: Nodes, root: Path, s: seq<Path>, q: Path)
    requires WellFormed(nodes) && root in nodes && root < q && q !in s && InRootOr(root, s, q)
    requires Stacked(root, StackOf(nodes, root, s))
    ensures Stacked(root, StackOf(nodes, root, s + [q]))
  {
    FilesSnoc(nodes, s, q);
    if Get(nodes, q) == Some(Dir) {
      assert InPlace(nodes, q) && InPlace(nodes, root);
      assert Parent(q) == root || Parent(q) in DirsIn(nodes, s);
      StackGrows(nodes, root, StackOf(nodes, root, s), q);
      assert StackOf(nodes, root, s + [q]) == StackOf(nodes, root, s) + [q];
    }
  }

  lemma BeforeLast(root: Path, s: seq<Path>, n: nat)
    requires InOrder(root, s) && n == |s| - 1
    ensures InOrder(root, s[..n]) && root < s[n] && s[n] !in s[..n] && InRootOr(root, s[..n], s[n])
  {
    assert s[n] in s && AfterParent(root, s, n);
    assert forall q :: q in s[..n] ==> q in s;
    forall i
      ensures AfterParent(root, s[..n], i)
    {
      assert AfterParent(root, s, i);
      if 0 <= i < n {
        assert s[..n][..i] == s[..i];
      }
    }
  }

  lemma StackGrows(nodes: Nodes, root: Path, dirs: seq<Path>, q: Path)
    requires Stacked(root, dirs) && dirs != [] && q != [] && root < q && q !in dirs && Parent(q) in dirs
    ensures Stacked(root, dirs + [q])
  {
    forall i
      ensures OnParent(root, dirs + [q], i)
    {
      assert OnParent(root, dirs, i);
      if 0 <= i <= |dirs| {
        assert (dirs + [q])[..i] == dirs[..i];
      }
    }
  }

  // What is left when everything at or below root is gone but the directories dirs.
  function LeftWith(nodes: Nodes, root: Path, dirs: seq<Path>): Nodes {
    map q | q in nodes && (!(root <= q) || q in dirs) :: nodes[q]
  }

  // Nothing on the stack is inside the directory on top of it.
  lemma NotInTop(root: Path, dirs: seq<Path>, i: nat)
    requires Stacked(root, dirs) && i < |dirs| && dirs[i] != []
    ensures Parent(dirs[i]) != dirs[|dirs| - 1]
  {
    var n := |dirs| - 1;
    assert OnParent(root, dirs, i) && OnParent(root, dirs, n);
    if i > 0 {
      var j :| 0 <= j < i && dirs[j] == Parent(dirs[i]);
      assert dirs[j] != dirs[n];
    } else {
      assert |Parent(root)| < |root| <= |dirs[n]|;
    }
  }

  lemma PopTop(nodes: Nodes, root: Path, dirs: seq<Path>)
    requires Stacked(root, dirs) && dirs != [] && forall d :: d in dirs ==> Get(nodes, d) == Some(Dir)
    ensures var n := |dirs| - 1; var here := LeftWith(nodes, root, dirs);
            && Get(here, dirs[n]) == Some(Dir) && (forall c :: c in here && c != [] ==> Parent(c) != dirs[n])
            && here - {dirs[n]} == LeftWith(nodes, root, dirs[..n])
            && Stacked(root, dirs[..n])
  {
    var n, here := |dirs| - 1, LeftWith(nodes, root, dirs);
    assert OnParent(root, dirs, n) && root <= dirs[n];
    forall c | c in here && c != []
      ensures Parent(c) != dirs[n]
    {
      if c in dirs {
        var i :| 0 <= i < |dirs| && dirs[i] == c;
        NotInTop(root, dirs, i);
      } else {
        assert root <= Parent(c) ==> root <= c;
      }
    }
    assert forall q :: q in dirs <==> q in dirs[..n] || q == dirs[n];
    assert dirs[n] !in dirs[..n];
    forall i
      ensures OnParent(root, dirs[..n], i)
    {
      assert OnParent(root, dirs, i);
      if 0 <= i < n {
        assert dirs[..n][..i] == dirs[..i];
      }
    }
  }

  lemma SameMap(a: Nodes, b: Nodes)
    requires forall q :: Get(a, q) == Get(b, q)
    ensures a == b
  {
    forall q
      ensures q in a <==> q in b
      ensures q in a ==> a[q] == b[q]
    {
      assert Get(a, q) == Get(b, q);
    }
  }

  // Between the passes, only directories are left of the tree.
  lemma OnlyDirsLeft(nodes: Nodes, root: Path, s: seq<Path>)
    requires WellFormed(nodes) && Get(nodes, root) == Some(Dir) && Enumerates(nodes, root, s)
    ensures nodes - FilesIn(nodes, s) == LeftWith(nodes, root, StackOf(nodes, root, s))
    ensures Stacked(root, StackOf(nodes, root, s))
    ensures forall d :: d in StackOf(nodes, root, s) ==> Get(nodes, d) == Some(Dir)
  {
    DirsStack(nodes, root, s);
    var dirs := StackOf(nodes, root, s);
    assert forall q :: q in dirs <==> q == root || q in DirsIn(nodes, s);
    forall q
      ensures Get(nodes - FilesIn(nodes, s), q) == Get(LeftWith(nodes, root, dirs), q)
    {
      assert root <= q <==> q == root || root < q;
      assert root < q && q in nodes ==> q in s;
      assert q in s ==> (q in DirsIn(nodes, s) <==> nodes[q] == Dir);
      assert q in s ==> (q in FilesIn(nodes, s) <==> nodes[q] == NonDir);
      assert root !in s;
    }
    SameMap(nodes - FilesIn(nodes, s), LeftWith(nodes, root, dirs));
  }

  // ----- Delete -----

  // The tree without path and everything below it.
  function Without(nodes: Nodes, path: Path): Nodes {
    map q | q in nodes && !(path <= q) :: nodes[q]
  }

  ghost predicate HasChild(nodes: Nodes, path: Path) {
    exists q :: q in nodes && q != [] && Parent(q) == path
  }

  method RemoveDirs(fs: FileSystem, ghost nodes0: Nodes, root: Path, stack: seq<Path>) returns (success: bool)
    requires Stacked(root, stack) && (forall d :: d in stack ==> Get(nodes0, d) == Some(Dir))
    requires fs.nodes == LeftWith(nodes0, root, stack)
    modifies fs
    ensures success && fs.nodes == Without(nodes0, root)
  {
    success := true;
    var directories := stack;
    while success && directories != []
      invariant success && Stacked(root, directories) && fs.nodes == LeftWith(nodes0, root, directories)
      invariant forall d :: d in directories ==> Get(nodes0, d) == Some(Dir)
      decreases |directories|
    {
      PopTop(nodes0, root, directories);
      var dir := directories[|directories| - 1];
      directories := directories[..|directories| - 1];
      success := fs.Rmdir(dir);
    }
  }

  method UnlinkOrPush(fs: FileSystem, kind: Kind, current: Path, stack: seq<Path>,
                      ghost nodes0: Nodes, ghost root: Path, ghost handled: seq<Path>)
    returns (success: bool, directories: seq<Path>)
    requires Get(nodes0, current) == Some(kind) && current !in handled
    requires fs.nodes == nodes0 - FilesIn(nodes0, handled) && stack == StackOf(nodes0, root, handled)
    modifies fs
    ensures success && fs.nodes == nodes0 - FilesIn(nodes0, handled + [current])
    ensures directories == StackOf(nodes0, root, handled + [current])
  {
    HandledNodes(nodes0, root, handled, current);
    success, directories := true, stack;
    if kind == Dir {
      directories := directories + [current];
    } else {
      success := fs.Unlink(current);
    }
  }

  // The first loop after it has handled some paths, with current to be handled next.
  ghost predicate Underway(fs: FileSystem, traversal: FileEnumerator, handled: seq<Path>, current: Option<Path>,
                           directories: seq<Path>)
    reads fs, traversal
  {
    && traversal.Valid() && traversal.fs == fs
    && fs.nodes == traversal.nodes0 - FilesIn(traversal.nodes0, handled)
    && directories == StackOf(traversal.nodes0, traversal.top, handled)
    && match current
       case Some(path) => traversal.returned == handled + [path] && traversal.Info().Some?
         && traversal.Info() == Get(traversal.nodes0, path)
       case None => Enumerates(traversal.nodes0, traversal.top, handled)
  }

  // What the first loop does with one path handed out.
  method HandleOne(fs: FileSystem, traversal: FileEnumerator, ghost handled: seq<Path>, current: Path, stack: seq<Path>)
    returns (success: bool, directories: seq<Path>)
    requires Underway(fs, traversal, handled, Some(current), stack)
    modifies fs
    ensures success && fs.nodes == traversal.nodes0 - FilesIn(traversal.nodes0, handled + [current])
    ensures directories == StackOf(traversal.nodes0, traversal.top, handled + [current])
    ensures WellFormed(fs.nodes) && Intact(fs.nodes, traversal.nodes0, traversal.pending)
    ensures |handled| < |traversal.nodes0|
  {
    AfterHandling(traversal.nodes0, traversal.top, traversal.rootPath, traversal.Left(traversal.current + 1),
        handled, current, traversal.pending);
    success, directories := UnlinkOrPush(fs, traversal.Info().value, current, stack, traversal.nodes0,
        traversal.top, handled);
  }

  // The loop body.
  method HandleAndAdvance(fs: FileSystem, traversal: FileEnumerator, ghost handled: seq<Path>, current: Path,
                          stack: seq<Path>)
    returns (success: bool, directories: seq<Path>, next: Option<Path>)
    requires Underway(fs, traversal, handled, Some(current), stack)
    modifies fs, traversal
    ensures success && Underway(fs, traversal, handled + [current], next, directories)
    ensures |handled| < |traversal.nodes0|
  {
    success, directories := HandleOne(fs, traversal, handled, current, stack);
    next := traversal.Next();
  }

  lemma NothingHandled(nodes: Nodes, root: Path)
    ensures nodes - FilesIn(nodes, []) == nodes && StackOf(nodes, root, []) == [root]
  {
    assert FilesIn(nodes, []) == {};
  }

  method UnlinkFiles(fs: FileSystem, path: Path) returns (success: bool, directories: seq<Path>,
                     ghost handled: seq<Path>)
    requires WellFormed(fs.nodes) && Get(fs.nodes, path) == Some(Dir)
    modifies fs
    ensures success && Enumerates(old(fs.nodes), path, handled)
    ensures fs.nodes == old(fs.nodes) - FilesIn(old(fs.nodes), handled)
            && directories == StackOf(old(fs.nodes), path, handled)
  {
    handled := [];
    NothingHandled(fs.nodes, path);
    success, directories := true, [path];
    var traversal := new FileEnumerator(fs, path);
    var current := traversal.Next();
    while success && current.Some?
      invariant success && fresh(traversal) && traversal.nodes0 == old(fs.nodes) && traversal.top == path
      invariant Underway(fs, traversal, handled, current, directories)
      decreases |traversal.nodes0| - |handled|
    {
      ghost var last := current.value;
      success, directories, current := HandleAndAdvance(fs, traversal, handled, current.value, directories);
      handled := handled + [last];
    }
  }

  /** Deletes path, and everything below it when recursive; a missing path is no failure. */
  method Delete(fs: FileSystem, path: Path, recursive: bool) returns (success: bool)
    requires WellFormed(fs.nodes)
    modifies fs
    ensures success <==> recursive || !(Get(old(fs.nodes), path) == Some(Dir) && HasChild(old(fs.nodes), path))
    ensures fs.nodes == if success && path in old(fs.nodes) then Without(old(fs.nodes), path) else old(fs.nodes)
  {
    if path !in fs.nodes {
      return true;
    }
    NothingBelow(fs.nodes, path);
    if fs.nodes[path] != Dir {
      success := fs.Unlink(path);
      return;
    }
    if !recursive {
      success := fs.Rmdir(path);
      return;
    }
    var directories;
    ghost var handled;
    success, directories, handled := UnlinkFiles(fs, path);
    OnlyDirsLeft(old(fs.nodes), path, handled);
    if success {
      success := RemoveDirs(fs, old(fs.nodes), path, directories);
    }
  }

  // Only a directory with a child has anything below it.
  lemma NothingBelow(nodes: Nodes, path: Path)
    requires WellFormed(nodes) && path in nodes
    ensures (nodes[path] == Dir && HasChild(nodes, path)) || Without(nodes, path) == nodes - {path}
  {
    assert InPlace(nodes, path);
    if q :| q in nodes && path < q {
      AncestorsAreDirs(nodes, path, q);
      var c := q[..|path| + 1];
      if c != q {
        AncestorsAreDirs(nodes, c, q);
      }
      assert c in nodes && Parent(c) == path;
    } else {
      assert forall q :: q in nodes && path <= q ==> q == path;
    }
  }

  // What is left is a well-formed tree again.
  lemma DeleteKeepsWellFormed(nodes: Nodes, path: Path)
    requires WellFormed(nodes) && path in nodes
    ensures WellFormed(Without(nodes, path))
  {
    forall q
      ensures InPlace(Without(nodes, path), q)
    {
      assert InPlace(nodes, q);
      if q != [] && path <= Parent(q) {
        assert path <= q;
      }
    }
  }
}
