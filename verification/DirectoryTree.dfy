// base/file_util_posix.cc: FileEnumerator's traversal of a directory tree, and the
// recursive Delete built on it.
module DirectoryTree {
  import opened Wrappers

  // A path is the list of its components.
  type Path = seq<string>

  datatype Kind = Dir | NonDir     // NonDir includes links, which are not followed

  type Nodes = map<Path, Kind>

  datatype Entry = Entry(name: string, kind: Kind)

  // Every node but a root is in a directory, and "." and ".." are not names.
  ghost predicate WellFormed(nodes: Nodes) {
    forall q :: InPlace(nodes, q)
  }

  ghost predicate InPlace(nodes: Nodes, q: Path) {
    q in nodes ==> q != [] && !IsDots(q[|q| - 1]) && (|q| > 1 ==> Get(nodes, Parent(q)) == Some(Dir))
  }

  function Parent(q: Path): Path
    requires q != []
  {
    q[..|q| - 1]
  }

  // Some pending directory is a proper ancestor of q.
  ghost predicate BelowSome(pending: seq<Path>, q: Path) {
    exists p :: p in pending && p < q
  }

  lemma {:induction false} AncestorsAreDirs(nodes: Nodes, p: Path, q: Path)
    requires WellFormed(nodes) && q in nodes && p != [] && p < q
    ensures p in nodes && nodes[p] == Dir
    decreases |q|
  {
    assert InPlace(nodes, q);
    if |p| < |q| - 1 {
      AncestorsAreDirs(nodes, p, Parent(q));
    } else {
      assert p == Parent(q);
    }
  }

  // ----- The state of a traversal of the tree below root -----

  // returned: handed out so far; rest: read but not yet handed out; pending: directories
  // still to be read.
  datatype Walk = Walk(returned: seq<Path>, rest: seq<Path>, pending: seq<Path>)

  ghost predicate Incomparable(s: seq<Path>) {
    forall i, j :: 0 <= i < |s| && 0 <= j < |s| && i != j ==> !(s[i] <= s[j])
  }

  // Every descendant is handed out, read, or inside a pending directory...
  ghost predicate Covered(nodes: Nodes, root: Path, w: Walk) {
    forall q :: Accounted(nodes, root, w, q)
  }

  ghost predicate Accounted(nodes: Nodes, root: Path, w: Walk, q: Path) {
    q in nodes && root < q ==> q in w.returned || q in w.rest || BelowSome(w.pending, q)
  }

  // ... and only one of these, once.
  ghost predicate CountedOnce(nodes: Nodes, root: Path, w: Walk) {
    && Distinct(w.returned + w.rest)
    && forall q :: q in w.returned + w.rest ==> q in nodes && root < q && !BelowSome(w.pending, q)
  }

  ghost predicate PendingOk(nodes: Nodes, root: Path, w: Walk) {
    && Incomparable(w.pending)
    && forall p :: p in w.pending ==>
         p in nodes && nodes[p] == Dir && (p == root || (root < p && p in w.returned + w.rest))
  }

  ghost predicate InRootOr(root: Path, s: seq<Path>, q: Path) {
    q != [] && (Parent(q) == root || Parent(q) in s)
  }

  ghost predicate AfterParent(root: Path, s: seq<Path>, i: int) {
    0 <= i < |s| ==> InRootOr(root, s[..i], s[i])
  }

  // A directory is handed out before anything in it.
  ghost predicate ParentsFirst(root: Path, w: Walk) {
    && (forall i :: AfterParent(root, w.returned, i))
    && (forall q :: q in w.rest ==> InRootOr(root, w.returned, q))
  }

  ghost predicate WalkOk(nodes: Nodes, root: Path, w: Walk) {
    Covered(nodes, root, w) && CountedOnce(nodes, root, w) && PendingOk(nodes, root, w) && ParentsFirst(root, w)
  }

  lemma StartOk(nodes: Nodes, root: Path)
    requires WellFormed(nodes) && root in nodes && nodes[root] == Dir
    ensures WalkOk(nodes, root, Walk([], [], [root]))
  {
    assert root in [root];
  }

  lemma HandOutOk(nodes: Nodes, root: Path, w: Walk)
    requires WalkOk(nodes, root, w) && w.rest != []
    ensures WalkOk(nodes, root, Walk(w.returned + [w.rest[0]], w.rest[1..], w.pending))
  {
    var w' := Walk(w.returned + [w.rest[0]], w.rest[1..], w.pending);
    assert w'.returned + w'.rest == w.returned + w.rest;
    assert forall q :: q in w.rest <==> q == w.rest[0] || q in w'.rest;
    assert Covered(nodes, root, w') by {
      forall q
        ensures Accounted(nodes, root, w', q)
      {
        assert Accounted(nodes, root, w, q);
      }
    }
    assert ParentsFirst(root, w') by {
      forall i
        ensures AfterParent(root, w'.returned, i)
      {
        assert AfterParent(root, w.returned, i);
        if 0 <= i < |w'.returned| {
          assert w'.returned[..i] == w.returned[..i];
        }
      }
    }
  }

  // The children of a directory, in the order in which they were read.
  ghost predicate ChildrenOf(nodes: Nodes, p: Path, children: seq<Path>) {
    && Distinct(children)
    && (forall q :: q in children ==> q in nodes && q != [] && Parent(q) == p)
    && (forall q :: q in nodes && q != [] && Parent(q) == p ==> q in children)
  }

  ghost predicate DirsAmong(nodes: Nodes, children: seq<Path>, dirs: seq<Path>) {
    && Distinct(dirs)
    && (forall q :: q in dirs ==> q in children && q in nodes && nodes[q] == Dir)
    && (forall q :: q in children && q in nodes && nodes[q] == Dir ==> q in dirs)
  }

  // An ancestor of a child is the parent or an ancestor of it.
  lemma AboveChild(a: Path, c: Path)
    requires c != [] && a < c
    ensures a <= Parent(c)
  {
  }

  lemma IncomparableGrows(others: seq<Path>, p: Path, dirs: seq<Path>)
    requires Incomparable(others + [p]) && Distinct(dirs)
    requires forall d :: d in dirs ==> d != [] && Parent(d) == p
    ensures Incomparable(others + dirs)
  {
    var n, s := |others|, others + dirs;
    forall i, j | 0 <= i < |s| && 0 <= j < |s| && i != j
      ensures !(s[i] <= s[j])
    {
      IncomparablePair(others, p, dirs, i, j);
    }
  }

  lemma IncomparablePair(others: seq<Path>, p: Path, dirs: seq<Path>, i: nat, j: nat)
    requires Incomparable(others + [p]) && Distinct(dirs)
    requires forall d :: d in dirs ==> d != [] && Parent(d) == p
    requires i < |others| + |dirs| && j < |others| + |dirs| && i != j
    ensures !((others + dirs)[i] <= (others + dirs)[j])
  {
    var n, s, before := |others|, others + dirs, others + [p];
    var a, b := s[i], s[j];
    if i < n && j < n {
      assert before[i] == a && before[j] == b;
    } else if i < n {
      assert before[i] == a && before[n] == p;
      assert b == dirs[j-n];
      assert !(p <= a) && !(a <= p);
      if a < b {
        AboveChild(a, b);
      }
    } else if j < n {
      assert before[j] == b && before[n] == p;
      assert a == dirs[i-n] && a in dirs;
      assert Parent(a) <= a;
    } else {
      assert a == dirs[i-n] && a in dirs && b == dirs[j-n] && b in dirs;
      assert |a| == |p| + 1 && |b| == |p| + 1;
      assert a <= b ==> a == b;
    }
  }

  lemma ExpandCovers(nodes: Nodes, root: Path, w: Walk, others: seq<Path>, p: Path, children: seq<Path>,
                     dirs: seq<Path>, q: Path)
    requires WellFormed(nodes) && Covered(nodes, root, w) && w.rest == [] && w.pending == others + [p]
    requires ChildrenOf(nodes, p, children) && DirsAmong(nodes, children, dirs)
    requires q in nodes && root < q
    ensures q in w.returned || q in children || BelowSome(others + dirs, q)
  {
    assert Accounted(nodes, root, w, q);
    if q !in w.returned {
      var a :| a in w.pending && a < q;
      if a in others {
        assert a in others + dirs;
      } else {
        assert a == p;
        var c := q[..|p| + 1];
        assert Parent(c) == p;
        if c != q {
          AncestorsAreDirs(nodes, c, q);
          assert c in others + dirs;
        }
      }
    }
  }

  lemma ExpandDisjoint(nodes: Nodes, root: Path, w: Walk, others: seq<Path>, p: Path, children: seq<Path>,
                       dirs: seq<Path>, q: Path)
    requires CountedOnce(nodes, root, w) && PendingOk(nodes, root, w) && w.rest == [] && w.pending == others + [p]
    requires ChildrenOf(nodes, p, children) && DirsAmong(nodes, children, dirs)
    requires q in w.returned || q in children
    ensures q in nodes && root < q && !BelowSome(others + dirs, q)
    ensures q in w.returned ==> q !in children
  {
    assert p in w.pending;
    assert q in w.returned ==> q in w.returned + w.rest;
    assert q in children ==> p < q;
    forall a | a in others + dirs
      ensures !(a < q)
    {
      if a in others {
        var i :| 0 <= i < |others| && others[i] == a;
        assert w.pending[i] == a && w.pending[|others|] == p && a in w.pending;
        assert !(a <= p);
        if q in children && a < q {
          AboveChild(a, q);
        }
      } else {
        assert a in dirs && p < a;
      }
    }
  }

  // Reading the top pending directory.
  lemma ExpandOk(nodes: Nodes, root: Path, w: Walk, others: seq<Path>, p: Path, children: seq<Path>, dirs: seq<Path>)
    requires WellFormed(nodes) && WalkOk(nodes, root, w) && w.rest == [] && w.pending == others + [p]
    requires ChildrenOf(nodes, p, children) && DirsAmong(nodes, children, dirs)
    ensures WalkOk(nodes, root, Walk(w.returned, children, others + dirs))
  {
    var w' := Walk(w.returned, children, others + dirs);
    assert p in w.pending;
    assert w.returned + w.rest == w.returned;
    assert Covered(nodes, root, w') by {
      forall q
        ensures Accounted(nodes, root, w', q)
      {
        if q in nodes && root < q {
          ExpandCovers(nodes, root, w, others, p, children, dirs, q);
        }
      }
    }
    assert CountedOnce(nodes, root, w') by {
      forall q | q in w.returned || q in children
        ensures q in nodes && root < q && !BelowSome(w'.pending, q) && (q in w.returned ==> q !in children)
      {
        ExpandDisjoint(nodes, root, w, others, p, children, dirs, q);
      }
      DistinctConcat(w.returned, children);
    }
    assert PendingOk(nodes, root, w') by {
      IncomparableGrows(others, p, dirs);
      forall d | d in w'.pending
        ensures d in nodes && nodes[d] == Dir && (d == root || (root < d && d in w.returned + children))
      {
        if d in others {
          assert d in w.pending;
        }
      }
    }
  }

  lemma DistinctConcat(a: seq<Path>, b: seq<Path>)
    requires Distinct(a) && Distinct(b) && forall q :: q in a ==> q !in b
    ensures Distinct(a + b)
  {
    forall i, j | 0 <= i < j < |a + b|
      ensures (a + b)[i] != (a + b)[j]
    {
      if i < |a| <= j {
        assert a[i] in a && b[j - |a|] in b;
      }
    }
  }

  // ----- The file system -----

  // What reading a directory yields: its children, "." and "..", in some order.
  ghost predicate EntriesOf(nodes: Nodes, p: Path, entries: seq<Entry>) {
    && (forall i, j :: 0 <= i < j < |entries| ==> entries[i].name != entries[j].name)
    && (forall e :: e in entries ==> TrueEntry(nodes, p, e))
    && (forall q :: HasEntry(nodes, p, entries, q))
  }

  ghost predicate TrueEntry(nodes: Nodes, p: Path, e: Entry) {
    !IsDots(e.name) ==> Get(nodes, p + [e.name]) == Some(e.kind)
  }

  ghost predicate HasEntry(nodes: Nodes, p: Path, entries: seq<Entry>, q: Path) {
    q in nodes && q != [] && Parent(q) == p ==> Entry(q[|q| - 1], nodes[q]) in entries
  }

  predicate IsDots(name: string) {
    name == "." || name == ".."
  }

  function NamesIn(nodes: Nodes, path: Path): set<string> {
    set q | q in nodes && q != [] && Parent(q) == path :: q[|q| - 1]
  }

  function EntryFor(nodes: Nodes, path: Path, name: string): Entry {
    Entry(name, if path + [name] in nodes then nodes[path + [name]] else Dir)
  }

  // The order in which a directory is read is not specified.
  method AnyOrder(s: set<string>) returns (r: seq<string>)
    ensures Distinct(r) && forall x :: x in r <==> x in s
  {
    r := [];
    var todo := s;
    while todo != {}
      invariant Distinct(r) && todo <= s && forall x :: x in r <==> x in s && x !in todo
      decreases todo
    {
      assert (forall x :: x !in todo) ==> todo == {};
      var x :| x in todo;
      r, todo := r + [x], todo - {x};
    }
  }

  lemma NamedEntries(nodes: Nodes, path: Path, names: seq<string>, entries: seq<Entry>)
    requires WellFormed(nodes) && Distinct(names)
    requires forall n :: n in names <==> n in NamesIn(nodes, path) || IsDots(n)
    requires |entries| == |names| && forall i :: 0 <= i < |names| ==> entries[i] == EntryFor(nodes, path, names[i])
    ensures EntriesOf(nodes, path, entries)
  {
    forall e | e in entries
      ensures TrueEntry(nodes, path, e)
    {
      if !IsDots(e.name) {
        var i :| 0 <= i < |entries| && entries[i] == e;
        assert names[i] in names;
        var q :| q in nodes && q != [] && Parent(q) == path && q[|q| - 1] == e.name;
        assert q == path + [e.name];
      }
    }
    forall q
      ensures HasEntry(nodes, path, entries, q)
    {
      if q in nodes && q != [] && Parent(q) == path {
        var n := q[|q| - 1];
        assert q == path + [n] && n in NamesIn(nodes, path) && n in names;
        var i :| 0 <= i < |names| && names[i] == n;
        assert entries[i] == Entry(n, nodes[q]);
      }
    }
  }

  class FileSystem {
    var nodes: Nodes

    constructor (nodes: Nodes)
      ensures this.nodes == nodes
    {
      this.nodes := nodes;
    }

    method ReadDirectory(path: Path) returns (ok: bool, entries: seq<Entry>)
      requires WellFormed(nodes)
      ensures ok <==> path in nodes && nodes[path] == Dir
      ensures ok ==> EntriesOf(nodes, path, entries)
    {
      ok, entries := path in nodes && nodes[path] == Dir, [];
      if ok {
        var names := AnyOrder(NamesIn(nodes, path) + {".", ".."});
        entries := seq(|names|, i requires 0 <= i < |names| reads this => EntryFor(nodes, path, names[i]));
        NamedEntries(nodes, path, names, entries);
      }
    }

    method Unlink(path: Path) returns (ok: bool)
      modifies this
      ensures ok <==> path in old(nodes) && old(nodes)[path] == NonDir
      ensures nodes == if ok then old(nodes) - {path} else old(nodes)
    {
      ok := path in nodes && nodes[path] == NonDir;
      if ok {
        nodes := nodes - {path};
      }
    }

    // Only an empty directory can be removed.
    method Rmdir(path: Path) returns (ok: bool)
      modifies this
      ensures ok <==> path in old(nodes) && old(nodes)[path] == Dir
                      && forall q :: q in old(nodes) && q != [] ==> Parent(q) != path
      ensures nodes == if ok then old(nodes) - {path} else old(nodes)
    {
      ok := path in nodes && nodes[path] == Dir && forall q :: q in nodes && q != [] ==> Parent(q) != path;
      if ok {
        nodes := nodes - {path};
      }
    }
  }

  // ----- The enumerator: recursive, files and directories, links not followed, no pattern -----

  function PathsOf(root: Path, entries: seq<Entry>): (paths: seq<Path>)
    ensures |paths| == |entries| && forall i :: 0 <= i < |entries| ==> paths[i] == root + [entries[i].name]
  {
    seq(|entries|, i requires 0 <= i < |entries| => root + [entries[i].name])
  }

  ghost predicate AtOrBelowSome(pending: seq<Path>, q: Path) {
    exists p :: p in pending && p <= q
  }

  // What is still to be read has not changed since the start.
  ghost predicate Intact(nodes: Nodes, nodes0: Nodes, pending: seq<Path>) {
    forall q :: AtOrBelowSome(pending, q) ==> Get(nodes, q) == Get(nodes0, q)
  }

  ghost function Todo(nodes0: Nodes, pending: seq<Path>): set<Path> {
    set q | q in nodes0 && AtOrBelowSome(pending, q)
  }

  lemma TodoShrinks(nodes0: Nodes, others: seq<Path>, p: Path, dirs: seq<Path>)
    requires Incomparable(others + [p]) && p in nodes0
    requires forall d :: d in dirs ==> d != [] && Parent(d) == p
    ensures Todo(nodes0, others + dirs) < Todo(nodes0, others + [p])
    ensures forall q :: AtOrBelowSome(others + dirs, q) ==> AtOrBelowSome(others + [p], q)
  {
    forall q | AtOrBelowSome(others + dirs, q)
      ensures AtOrBelowSome(others + [p], q)
    {
      var a :| a in others + dirs && a <= q;
      if a in others {
        assert a in others + [p];
      } else {
        assert a in dirs && Parent(a) <= a && p in others + [p];
      }
    }
    forall a | a in others + dirs
      ensures !(a <= p)
    {
      if a in others {
        var i :| 0 <= i < |others| && others[i] == a;
        assert (others + [p])[i] == a && (others + [p])[|others|] == p;
      } else {
        assert a in dirs && |a| == |p| + 1;
      }
    }
    assert p in others + [p] && p in Todo(nodes0, others + [p]);
  }

  // The entries kept from a directory, and the directories among them.
  function Kept(entries: seq<Entry>): (kept: seq<Entry>)
    ensures forall e :: e in kept <==> e in entries && !IsDots(e.name)
  {
    if entries == [] then []
    else
      var n := |entries| - 1;
      Kept(entries[..n]) + if IsDots(entries[n].name) then [] else [entries[n]]
  }

  function OnlyDirs(entries: seq<Entry>): (dirs: seq<Entry>)
    ensures forall e :: e in dirs <==> e in entries && e.kind == Dir
  {
    if entries == [] then []
    else
      var n := |entries| - 1;
      OnlyDirs(entries[..n]) + if entries[n].kind == Dir then [entries[n]] else []
  }

  ghost predicate DistinctNames(entries: seq<Entry>) {
    forall i, j :: 0 <= i < j < |entries| ==> entries[i].name != entries[j].name
  }

  lemma {:induction false} KeptNames(entries: seq<Entry>)
    requires DistinctNames(entries)
    ensures DistinctNames(Kept(entries))
  {
    if entries != [] {
      var n := |entries| - 1;
      KeptNames(entries[..n]);
      SnocNames(Kept(entries[..n]), entries, n);
    }
  }

  lemma {:induction false} DirNames(entries: seq<Entry>)
    requires DistinctNames(entries)
    ensures DistinctNames(OnlyDirs(entries))
  {
    if entries != [] {
      var n := |entries| - 1;
      DirNames(entries[..n]);
      SnocNames(OnlyDirs(entries[..n]), entries, n);
    }
  }

  lemma SnocNames(some: seq<Entry>, entries: seq<Entry>, n: nat)
    requires DistinctNames(entries) && n < |entries| && DistinctNames(some)
    requires forall e :: e in some ==> e in entries[..n]
    ensures DistinctNames(some + [entries[n]])
  {
    forall i | 0 <= i < |some|
      ensures some[i].name != entries[n].name
    {
      assert some[i] in entries[..n];
    }
  }

  lemma KeptSnoc(entries: seq<Entry>, i: nat)
    requires i < |entries|
    ensures Kept(entries[..i+1]) == Kept(entries[..i]) + if IsDots(entries[i].name) then [] else [entries[i]]
  {
    assert entries[..i+1][..i] == entries[..i];
  }

  lemma DirsSnoc(root: Path, kept: seq<Entry>, e: Entry)
    ensures PathsOf(root, OnlyDirs(kept + [e]))
         == PathsOf(root, OnlyDirs(kept)) + if e.kind == Dir then [root + [e.name]] else []
  {
    assert (kept + [e])[..|kept|] == kept;
  }

  lemma PathsDistinct(root: Path, entries: seq<Entry>)
    requires DistinctNames(entries)
    ensures Distinct(PathsOf(root, entries))
  {
    var paths := PathsOf(root, entries);
    forall i, j | 0 <= i < j < |paths|
      ensures paths[i] != paths[j]
    {
      assert paths[i][|root|] == entries[i].name && paths[j][|root|] == entries[j].name;
    }
  }

  // A path among those of some entries, and its entry.
  lemma PathMeans(root: Path, entries: seq<Entry>, q: Path)
    ensures q in PathsOf(root, entries) <==>
            exists e :: e in entries && q == root + [e.name]
  {
    var paths := PathsOf(root, entries);
    if q in paths {
      var i :| 0 <= i < |paths| && paths[i] == q;
      assert entries[i] in entries;
    }
    if e :| e in entries && q == root + [e.name] {
      var i :| 0 <= i < |entries| && entries[i] == e;
      assert paths[i] == q;
    }
  }

  lemma ChildHasEntry(nodes: Nodes, root: Path, entries: seq<Entry>, q: Path)
    requires WellFormed(nodes) && EntriesOf(nodes, root, entries) && q in nodes && q != [] && Parent(q) == root
    ensures q in PathsOf(root, Kept(entries))
    ensures nodes[q] == Dir ==> q in PathsOf(root, OnlyDirs(Kept(entries)))
  {
    var e := Entry(q[|q| - 1], nodes[q]);
    assert InPlace(nodes, q) && HasEntry(nodes, root, entries, q);
    assert e in entries && e in Kept(entries);
    assert q == root + [e.name];
    PathMeans(root, Kept(entries), q);
    PathMeans(root, OnlyDirs(Kept(entries)), q);
  }

  lemma EntryIsChild(nodes: Nodes, root: Path, entries: seq<Entry>, e: Entry)
    requires EntriesOf(nodes, root, entries) && e in Kept(entries)
    ensures var q := root + [e.name]; q in nodes && q != [] && Parent(q) == root && nodes[q] == e.kind
  {
    assert Parent(root + [e.name]) == root && TrueEntry(nodes, root, e);
  }

  lemma KeptChildren(nodes: Nodes, root: Path, entries: seq<Entry>)
    requires WellFormed(nodes) && EntriesOf(nodes, root, entries)
    ensures ChildrenOf(nodes, root, PathsOf(root, Kept(entries)))
    ensures DirsAmong(nodes, PathsOf(root, Kept(entries)), PathsOf(root, OnlyDirs(Kept(entries))))
  {
    var kept, dirs := Kept(entries), OnlyDirs(Kept(entries));
    KeptNames(entries);
    DirNames(kept);
    PathsDistinct(root, kept);
    PathsDistinct(root, dirs);
    forall q | q in PathsOf(root, kept)
      ensures q in nodes && q != [] && Parent(q) == root
      ensures nodes[q] == Dir ==> q in PathsOf(root, dirs)
    {
      PathMeans(root, kept, q);
      var e :| e in kept && q == root + [e.name];
      EntryIsChild(nodes, root, entries, e);
      ChildHasEntry(nodes, root, entries, q);
    }
    forall q | q in PathsOf(root, dirs)
      ensures q in PathsOf(root, kept) && q in nodes && nodes[q] == Dir
    {
      PathMeans(root, dirs, q);
      var e :| e in dirs && q == root + [e.name];
      EntryIsChild(nodes, root, entries, e);
      ChildHasEntry(nodes, root, entries, q);
    }
    forall q | q in nodes && q != [] && Parent(q) == root
      ensures q in PathsOf(root, kept)
    {
      ChildHasEntry(nodes, root, entries, q);
    }
  }

  // The loop over the entries of one directory.
  method SortEntries(root: Path, entries: seq<Entry>) returns (kept: seq<Entry>, dirs: seq<Path>)
    ensures kept == Kept(entries) && dirs == PathsOf(root, OnlyDirs(Kept(entries)))
  {
    kept, dirs := [], [];
    for i := 0 to |entries|
      invariant kept == Kept(entries[..i]) && dirs == PathsOf(root, OnlyDirs(kept))
    {
      KeptSnoc(entries, i);
      if !IsDots(entries[i].name) {
        DirsSnoc(root, kept, entries[i]);
        if entries[i].kind == Dir {
          dirs := dirs + [root + [entries[i].name]];
        }
        kept := kept + [entries[i]];
      }
    }
    assert entries[..|entries|] == entries;
  }

  ghost predicate EntriesKnown(nodes: Nodes, root: Path, entries: seq<Entry>) {
    forall e :: e in entries ==> Get(nodes, root + [e.name]) == Some(e.kind)
  }

  // What was read is what was there at the start.
  lemma EntriesTransfer(nodes: Nodes, nodes0: Nodes, pending: seq<Path>, p: Path, entries: seq<Entry>)
    requires Intact(nodes, nodes0, pending) && p in pending && EntriesOf(nodes, p, entries)
    ensures EntriesOf(nodes0, p, entries) && EntriesKnown(nodes0, p, Kept(entries))
  {
    forall q
      ensures HasEntry(nodes0, p, entries, q)
    {
      assert HasEntry(nodes, p, entries, q);
      if q != [] && Parent(q) == p {
        SameChild(nodes, nodes0, pending, p, q);
      }
    }
    forall e | e in entries
      ensures TrueEntry(nodes0, p, e)
    {
      assert TrueEntry(nodes, p, e) && Parent(p + [e.name]) == p;
      SameChild(nodes, nodes0, pending, p, p + [e.name]);
    }
    assert forall e :: e in Kept(entries) ==> TrueEntry(nodes0, p, e);
  }

  lemma SameChild(nodes: Nodes, nodes0: Nodes, pending: seq<Path>, p: Path, q: Path)
    requires Intact(nodes, nodes0, pending) && p in pending && q != [] && Parent(q) == p
    ensures Get(nodes, q) == Get(nodes0, q)
  {
    assert p <= q && AtOrBelowSome(pending, q);
  }

  // A traversal that is listing the directory dir, of whose entries some are left.
  ghost predicate TraversalOk(nodes0: Nodes, root: Path, dir: Path, left: seq<Entry>, returned: seq<Path>,
                              pending: seq<Path>) {
    && WellFormed(nodes0) && EntriesKnown(nodes0, dir, left)
    && WalkOk(nodes0, root, Walk(returned, PathsOf(dir, left), pending))
  }

  lemma TopIsDir(nodes: Nodes, nodes0: Nodes, root: Path, dir: Path, returned: seq<Path>, pending: seq<Path>)
    requires TraversalOk(nodes0, root, dir, [], returned, pending) && Intact(nodes, nodes0, pending) && pending != []
    ensures Get(nodes, pending[|pending| - 1]) == Some(Dir) && pending[|pending| - 1] in nodes0
  {
    var p := pending[|pending| - 1];
    assert p in pending && AtOrBelowSome(pending, p);
  }

  // Reading the top pending directory of a traversal whose pending part is intact.
  lemma ReadTopOk(nodes: Nodes, nodes0: Nodes, root: Path, dir: Path, returned: seq<Path>, pending: seq<Path>,
                  read: seq<Entry>)
    requires TraversalOk(nodes0, root, dir, [], returned, pending) && Intact(nodes, nodes0, pending) && pending != []
    requires Get(nodes, pending[|pending| - 1]) == Some(Dir) ==> EntriesOf(nodes, pending[|pending| - 1], read)
    ensures var p := pending[|pending| - 1];
            var pending' := pending[..|pending| - 1] + PathsOf(p, OnlyDirs(Kept(read)));
            && Get(nodes, p) == Some(Dir)
            && TraversalOk(nodes0, root, p, Kept(read), returned, pending')
            && Intact(nodes, nodes0, pending')
            && Todo(nodes0, pending') < Todo(nodes0, pending)
  {
    var p, others := pending[|pending| - 1], pending[..|pending| - 1];
    var dirs := PathsOf(p, OnlyDirs(Kept(read)));
    assert pending == others + [p];
    TopIsDir(nodes, nodes0, root, dir, returned, pending);
    EntriesTransfer(nodes, nodes0, pending, p, read);
    KeptChildren(nodes0, p, read);
    assert PathsOf(dir, []) == [];
    ExpandOk(nodes0, root, Walk(returned, [], pending), others, p, PathsOf(p, Kept(read)), dirs);
    TodoShrinks(nodes0, others, p, dirs);
  }

  lemma HandOutEntry(nodes0: Nodes, root: Path, dir: Path, left: seq<Entry>, returned: seq<Path>, pending: seq<Path>)
    requires TraversalOk(nodes0, root, dir, left, returned, pending) && left != []
    ensures TraversalOk(nodes0, root, dir, left[1..], returned + [dir + [left[0].name]], pending)
    ensures Get(nodes0, dir + [left[0].name]) == Some(left[0].kind)
  {
    assert PathsOf(dir, left)[1..] == PathsOf(dir, left[1..]);
    HandOutOk(nodes0, root, Walk(returned, PathsOf(dir, left), pending));
  }

  // Each descendant of root exactly once, a directory before anything in it.
  ghost predicate Enumerates(nodes: Nodes, root: Path, s: seq<Path>) {
    && Distinct(s)
    && (forall q :: q in s <==> q in nodes && root < q)
    && (forall i :: AfterParent(root, s, i))
  }

  // What a finished traversal has handed out.
  lemma TraversalEnumerates(nodes: Nodes, root: Path, dir: Path, returned: seq<Path>)
    requires TraversalOk(nodes, root, dir, [], returned, [])
    ensures Enumerates(nodes, root, returned)
  {
    var w := Walk(returned, PathsOf(dir, []), []);
    assert returned + w.rest == returned;
    forall q | q in nodes && root < q
      ensures q in returned
    {
      assert Accounted(nodes, root, w, q);
    }
  }

  // A traversal is over after at most as many steps as there are nodes.
  lemma ReturnedFit(nodes: Nodes, root: Path, dir: Path, left: seq<Entry>, returned: seq<Path>, pending: seq<Path>)
    requires TraversalOk(nodes, root, dir, left, returned, pending)
    ensures |returned| <= |nodes|
  {
    var s := returned + PathsOf(dir, left);
    forall q | q in returned
      ensures q in nodes.Keys
    {
      assert q in s;
    }
    forall i, j | 0 <= i < j < |returned|
      ensures returned[i] != returned[j]
    {
      assert s[i] == returned[i] && s[j] == returned[j];
    }
    DistinctFits(returned, nodes.Keys);
    assert |nodes.Keys| == |nodes|;
  }

  lemma {:induction false} DistinctFits(s: seq<Path>, all: set<Path>)
    requires Distinct(s) && forall q :: q in s ==> q in all
    ensures |s| <= |all|
  {
    if s != [] {
      DistinctFits(s[1..], all - {s[0]});
    }
  }

  // ----- FileEnumerator -----

  class FileEnumerator {
    const fs: FileSystem
    var rootPath: Path
    var pending: seq<Path>        // a stack, its top last
    var entries: seq<Entry>
    var current: nat
    ghost const top: Path
    ghost const nodes0: Nodes     // the tree when the traversal started
    ghost var returned: seq<Path>

    // The entries of the directory being listed that are not handed out yet.
    ghost function Left(from: nat): seq<Entry>
      reads this
    {
      if from <= |entries| then entries[from..] else []
    }

    ghost predicate ValidFrom(from: nat)
      reads this
    {
      TraversalOk(nodes0, top, rootPath, Left(from), returned, pending)
    }

    ghost predicate Valid()
      reads this
    {
      ValidFrom(current + 1)
    }

    constructor (fs: FileSystem, path: Path)
      requires WellFormed(fs.nodes) && path in fs.nodes && fs.nodes[path] == Dir
      ensures Valid() && this.fs == fs && top == path && nodes0 == fs.nodes
      ensures returned == [] && pending == [path]
    {
      this.fs := fs;
      rootPath, pending, entries, current := path, [path], [], 0;
      top, nodes0, returned := path, fs.nodes, [];
      StartOk(fs.nodes, path);
    }

    // GetFindInfo: the kind of what was handed out last.
    function Info(): Option<Kind>
      reads this
    {
      if current < |entries| then Some(entries[current].kind) else None
    }

    // Reads the directory on top of the stack.
    method ReadTop() returns (ok: bool, ghost read: seq<Entry>)
      requires WellFormed(fs.nodes) && pending != []
      modifies this`rootPath, this`pending, this`entries, this`current
      ensures rootPath == old(pending[|pending| - 1]) && (ok <==> Get(fs.nodes, rootPath) == Some(Dir))
      ensures ok ==> EntriesOf(fs.nodes, rootPath, read) && current == 0 && entries == Kept(read)
      ensures ok ==> pending == old(pending[..|pending| - 1]) + PathsOf(rootPath, OnlyDirs(Kept(read)))
      ensures !ok ==> entries == old(entries) && current == old(current) && pending == old(pending[..|pending| - 1])
    {
      rootPath := pending[|pending| - 1];
      pending := pending[..|pending| - 1];
      var all;
      ok, all := fs.ReadDirectory(rootPath);
      read := all;
      if ok {
        var dirs;
        current := 0;
        entries, dirs := SortEntries(rootPath, all);
        pending := pending + dirs;
      }
    }

    // ... which keeps the traversal valid.
    method Advance()
      requires WellFormed(fs.nodes) && pending != []
      requires ValidFrom(current) && Left(current) == [] && Intact(fs.nodes, nodes0, pending)
      modifies this`rootPath, this`pending, this`entries, this`current
      ensures ValidFrom(current) && Intact(fs.nodes, nodes0, pending)
      ensures Todo(nodes0, pending) < Todo(nodes0, old(pending))
    {
      ghost var dir, stack := rootPath, pending;
      var ok, read := ReadTop();
      ReadTopOk(fs.nodes, nodes0, top, dir, returned, stack, read);
    }

    /** Hands out one more descendant, or says that there is none left. */
    method Next() returns (path: Option<Path>)
      requires Valid() && Intact(fs.nodes, nodes0, pending) && WellFormed(fs.nodes)
      modifies this
      ensures Valid() && Intact(fs.nodes, nodes0, pending)
      ensures path.Some? ==> returned == old(returned) + [path.value]
      ensures path.Some? ==> Info().Some? && Info() == Get(nodes0, path.value)
      ensures path.None? ==> returned == old(returned) && Enumerates(nodes0, top, returned)
    {
      path := None;
      current := current + 1;
      while current >= |entries|
        invariant ValidFrom(current) && Intact(fs.nodes, nodes0, pending) && returned == old(returned)
        decreases Todo(nodes0, pending)
      {
        if pending == [] {
          TraversalEnumerates(nodes0, top, rootPath, returned);
          assert Left(current + 1) == Left(current);
          return;
        }
        Advance();
      }
      var next := HandOut();
      path := Some(next);
    }

    // Hands out the current entry.
    method HandOut() returns (path: Path)
      requires ValidFrom(current) && current < |entries|
      modifies this`returned
      ensures Valid() && returned == old(returned) + [path]
      ensures Info() == Get(nodes0, path) && Info().Some?
    {
      ghost var left, before := Left(current), returned;
      path := rootPath + [entries[current].name];
      assert left[0] == entries[current] && left[1..] == entries[current+1..];
      HandOutEntry(nodes0, top, rootPath, left, before, pending);
      returned := returned + [path];
      assert Left(current + 1) == left[1..];
      assert TraversalOk(nodes0, top, rootPath, Left(current + 1), returned, pending);
    }
  }
}
