/** The coordinator's directory service: maps of directory objects, updated in place. */
module CoordinatorService {
  import opened Paths
  import opened Sequences
  import opened NamespaceSpec
  import opened NamespaceProofs
  import opened NamespaceHistory
  import opened Subtrees
  import opened Renaming
  import opened Types

  /** Apart from paths at or below `from` and paths below `to`, every path keeps its directory object. */
  ghost predicate KeptElsewhere(before: map<Path, Directory>, after: map<Path, Directory>, from: Path, to: Path) {
    forall q <- before | !(from <= q) && !(to < q) :: q in after && after[q] == before[q]
  }

  lemma KeptTwice(before: map<Path, Directory>, between: map<Path, Directory>, after: map<Path, Directory>, from: Path,
                  to: Path)
    requires KeptElsewhere(before, between, from, to) && KeptElsewhere(between, after, from, to)
    ensures KeptElsewhere(before, after, from, to)
  {
  }

  lemma KeptAfterRekey(before: map<Path, Directory>, after: map<Path, Directory>, from: Path, to: Path, c: Path,
                       target: Path)
    requires from <= c && to < target && c in before
    requires KeptElsewhere((before - {c})[target := before[c]], after, c, target)
    ensures KeptElsewhere(before, after, from, to)
  {
    forall q <- before | !(from <= q) && !(to < q)
      ensures !(c <= q) && !(target <= q) && q in (before - {c})[target := before[c]]
    {
    }
  }

  /** What moving a file does to the two maps. */
  lemma FileMovedIs(s: Namespace, from: Path, to: Path)
    requires from != to
    ensures FileMoved(s, from, to) ==
              if from !in s.files then s
              else s.(files := s.files[to := s.files[from]] - {from},
                      chunks := if from in s.chunks then s.chunks[to := s.chunks[from]] - {from} else s.chunks)
  {
    if from in s.files {
      RenameOne(s.files, from, to);
      RenameOne(s.chunks, from, to);
    } else {
      RenameNothing(s.files, from, to);
      RenameNothing(s.chunks, from, to);
    }
  }

  /** A listing goes on with the next entry of the list. */
  lemma ListedNext(dirs: map<Path, seq<Path>>, children: seq<Path>, i: nat, subdirs: seq<Path>)
    requires i < |children|
    ensures subdirs + ListedDirs(dirs, children[i..])
         == (if children[i] in dirs then subdirs + [children[i]] else subdirs) + ListedDirs(dirs, children[i + 1..])
  {
    assert children[i..][0] == children[i] && children[i..][1..] == children[i + 1..];
  }

  /** Some paths may be gone, the others keep their directory objects. */
  ghost predicate Restricts(before: map<Path, Directory>, after: map<Path, Directory>) {
    forall q <- after :: q in before && after[q] == before[q]
  }

  class Directory {
    var path: Path
    var children: seq<Path>

    constructor (path: Path)
      ensures this.path == path && children == []
    {
      this.path := path;
      children := [];
    }

    method Append(c: Path)
      modifies this`children
      ensures children == old(children) + [c]
    {
      children := children + [c];
    }

    /** Drops every occurrence of `c`, as deleting and moving a directory do. */
    method Unlink(c: Path)
      modifies this`children
      ensures children == Without(old(children), c)
    {
      var newChildren := [];
      var i := 0;
      while i < |children|
        invariant 0 <= i <= |children| && children == old(children)
        invariant newChildren == Without(children[..i], c)
      {
        WithoutAppend(children[..i], children[i], c);
        assert children[..i + 1] == children[..i] + [children[i]];
        if children[i] != c {
          newChildren := newChildren + [children[i]];
        }
        i := i + 1;
      }
      assert children[..i] == children;
      children := newChildren;
    }

    /** Drops the first occurrence of `c`, as deleting a file does. */
    method UnlinkFirst(c: Path)
      modifies this`children
      ensures children == WithoutFirst(old(children), c)
    {
      var i := 0;
      while i < |children|
        invariant 0 <= i <= |children| && children == old(children)
        invariant c !in children[..i]
      {
        if children[i] == c {
          WithoutFirstAt(children[..i], c, children[i + 1..]);
          assert children == children[..i] + [c] + children[i + 1..];
          children := children[..i] + children[i + 1..];
          return;
        }
        i := i + 1;
      }
      WithoutFirstAbsent(children, c);
    }
  }

  class Coordinator {
    var directories: map<Path, Directory>
    var fileEntries: map<Path, FileEntry>
    var fileChunks: map<Path, seq<ChunkID>>

    /** Every directory object records the path it is stored at, so no two paths share one. */
    ghost predicate HeapOk()
      reads this`directories, directories.Values
    {
      forall p <- directories :: directories[p].path == p
    }

    ghost function Abs(): Namespace
      reads this, directories.Values
    {
      Namespace(Dirs(), fileEntries, fileChunks)
    }

    ghost function Dirs(): map<Path, seq<Path>>
      reads this`directories, directories.Values
    {
      map p | p in directories :: directories[p].children
    }

    constructor ()
      ensures HeapOk() && Abs() == INIT && fresh(directories.Values)
    {
      var root := new Directory(ROOT);
      directories := map[ROOT := root];
      fileEntries := map[];
      fileChunks := map[];
    }

    method CreateDirectory(p: Path) returns (r: Outcome)
      requires HeapOk()
      modifies this`directories, directories.Values
      ensures HeapOk() && fresh(directories.Values - old(directories.Values))
      ensures (Abs(), r) == NamespaceSpec.CreateDirectory(old(Abs()), p)
    {
      if p == ROOT { return InvalidPath; }
      if p in directories { return AlreadyExists; }
      if Parent(p) != ROOT && Parent(p) !in directories { return ParentMissing; }
      LinkToParent(p);
      AddDirectory(p);
      return Done;
    }

    /** Puts `p` on the list of its parent, unless that is the root. */
    method LinkToParent(p: Path)
      requires HeapOk() && ParentReady(Dirs(), p)
      modifies directories.Values
      ensures HeapOk() && Dirs() == ListUnderNonRoot(old(Dirs()), p)
    {
      if p != ROOT && Parent(p) != ROOT {
        directories[Parent(p)].Append(p);
        assert Dirs() == ListUnderNonRoot(old(Dirs()), p);
      }
    }

    /** A new directory object without children. */
    method AddDirectory(p: Path)
      requires HeapOk() && p !in directories
      modifies this`directories
      ensures HeapOk() && fresh(directories.Values - old(directories.Values))
      ensures Dirs() == old(Dirs())[p := []]
    {
      var dir := new Directory(p);
      directories := directories[p := dir];
      assert Dirs() == old(Dirs())[p := []];
    }

    method CreateFile(f: Path) returns (r: Outcome)
      requires HeapOk()
      modifies this`fileEntries, directories.Values
      ensures HeapOk()
      ensures (Abs(), r) == NamespaceSpec.CreateFile(old(Abs()), f)
    {
      if f in fileEntries { return AlreadyExists; }
      if f != ROOT && Parent(f) != ROOT {
        if Parent(f) !in directories { return ParentMissing; }
      }
      fileEntries := fileEntries[f := FileEntry(0, [])];
      if f != ROOT && Parent(f) in directories {
        directories[Parent(f)].Append(f);
        assert Dirs() == old(Dirs())[Parent(f) := old(Dirs())[Parent(f)] + [f]];
      } else {
        assert Dirs() == old(Dirs());
      }
      return Done;
    }

    method DeleteFile(f: Path) returns (r: Outcome)
      requires HeapOk()
      modifies this`fileEntries, this`fileChunks, directories.Values
      ensures HeapOk()
      ensures (Abs(), r) == NamespaceSpec.DeleteFile(old(Abs()), f)
    {
      if f !in fileEntries { return NotFound; }
      fileEntries := fileEntries - {f};
      if f != ROOT && Parent(f) in directories {
        directories[Parent(f)].UnlinkFirst(f);
      }
      fileChunks := fileChunks - {f};
      assert Dirs() == if f != ROOT && Parent(f) in old(directories)
                       then old(Dirs())[Parent(f) := WithoutFirst(old(Dirs())[Parent(f)], f)]
                       else old(Dirs());
      return Done;
    }

    /** Whether some file lies directly in `d`. */
    method HasFiles(d: Path) returns (found: bool)
      ensures found <==> FilesIn(Abs(), d) != {}
    {
      var rest := fileEntries.Keys;
      while rest != {}
        invariant rest <= fileEntries.Keys
        invariant forall f <- fileEntries.Keys - rest | f != ROOT :: Parent(f) != d
      {
        var f :| f in rest;
        if f != ROOT && Parent(f) == d {
          assert f in FilesIn(Abs(), d);
          return true;
        }
        rest := rest - {f};
      }
      return false;
    }

    /** Deletes the files directly in `d`, with their chunk lists. */
    method RemoveFilesIn(d: Path)
      modifies this`fileEntries, this`fileChunks
      ensures fileEntries == old(fileEntries) - FilesIn(old(Abs()), d)
      ensures fileChunks == old(fileChunks) - FilesIn(old(Abs()), d)
    {
      var rest := fileEntries.Keys;
      while rest != {}
        invariant rest <= old(fileEntries).Keys
        invariant var gone := set f | f in old(fileEntries).Keys - rest && f != ROOT && Parent(f) == d;
                  fileEntries == old(fileEntries) - gone && fileChunks == old(fileChunks) - gone
      {
        var f :| f in rest;
        if f != ROOT && Parent(f) == d {
          fileEntries := fileEntries - {f};
          fileChunks := fileChunks - {f};
        }
        rest := rest - {f};
      }
      assert FilesIn(old(Abs()), d) == set f | f in old(fileEntries).Keys - rest && f != ROOT && Parent(f) == d;
    }

    method RemoveDirectoryRecursive(p: Path) returns (r: Outcome)
      requires HeapOk() && TreeOk(Dirs(), p)
      modifies this
      ensures Restricts(old(directories), directories)
      ensures r == if p in old(directories) then Done else NotFound
      ensures Abs() == if p in old(directories) then RemoveTree(old(Abs()), p) else old(Abs())
      decreases DirsUnder(Dirs(), p), 2
    {
      if p !in directories { return NotFound; }
      ghost var s := Abs();
      RemoveChildren(p, directories[p]);
      ghost var pruned := Abs();
      RemoveFilesIn(p);
      directories := directories - {p};
      assert Dirs() == pruned.dirs - {p};
      PruneAll(s, p);
      return Done;
    }

    /** Removes the subtree of every listed child that is a directory. */
    method RemoveChildren(p: Path, dir: Directory)
      requires HeapOk() && TreeOk(Dirs(), p) && p in directories && directories[p] == dir
      modifies this
      ensures Restricts(old(directories), directories)
      ensures Abs() == PrunedNamespace(old(Abs()), p, old(Dirs())[p])
      decreases DirsUnder(Dirs(), p), 1
    {
      ghost var s := Abs();
      var children := dir.children;
      var i := 0;
      while i < |children|
        invariant 0 <= i <= |children|
        invariant Restricts(old(directories), directories)
        invariant Abs() == PrunedNamespace(s, p, children[..i])
      {
        RemoveChild(p, children[i], children[..i], s);
        Take(children, i);
        i := i + 1;
      }
      Take(children, i);
    }

    /** Removes the subtree of one listed child, if it is still a directory. */
    method RemoveChild(ghost p: Path, childPath: Path, ghost done: seq<Path>, ghost s: Namespace)
      requires HeapOk() && TreeOk(s.dirs, p) && p in s.dirs && childPath in s.dirs[p]
      requires Abs() == PrunedNamespace(s, p, done)
      modifies this
      ensures Restricts(old(directories), directories)
      ensures Abs() == PrunedNamespace(s, p, done + [childPath])
      decreases DirsUnder(s.dirs, p), 0
    {
      if childPath in directories {
        PrunedKeepsTree(s, p, done, childPath);
        ChildTreeIsSmaller(s, p, done, childPath);
        PruneNext(s, p, done, childPath);
        var _ := RemoveDirectoryRecursive(childPath);
      } else {
        PruneAbsent(s, p, done, childPath);
      }
    }

    /** Re-keys the file at `from`, if any, with its chunk list. */
    method MoveFileEntry(from: Path, to: Path)
      requires from != to
      modifies this`fileEntries, this`fileChunks
      ensures Abs() == FileMoved(old(Abs()), from, to)
    {
      FileMovedIs(Abs(), from, to);
      if from in fileEntries {
        fileEntries := fileEntries[to := fileEntries[from]] - {from};
        if from in fileChunks {
          fileChunks := fileChunks[to := fileChunks[from]] - {from};
        }
      }
    }

    /** Replaces entry `i` of a directory's list. */
    method SetChild(dir: Directory, i: nat, c: Path)
      requires HeapOk() && dir in directories.Values && i < |dir.children|
      modifies dir`children
      ensures HeapOk() && dir.children == old(dir.children)[i := c]
      ensures Abs() == ListRenamed(old(Abs()), dir.path, i, c)
    {
      dir.children := dir.children[i := c];
      assert Dirs() == old(Dirs())[dir.path := dir.children];
    }

    /** Re-keys the directory object at `from`, leaving its list alone. */
    method Rekey(from: Path, to: Path)
      requires HeapOk() && from in directories && from != to
      modifies this`directories, directories[from]
      ensures HeapOk() && directories.Values <= old(directories.Values)
      ensures directories == (old(directories) - {from})[to := old(directories[from])]
      ensures Abs() == old(Abs()).(dirs := Rekeyed(old(Dirs()), from, to))
    {
      var child := directories[from];
      directories := directories[to := child];
      child.path := to;
      directories := directories - {from};
      assert directories == (old(directories) - {from})[to := child];
      assert Dirs() == (old(Dirs()) - {from})[to := old(Dirs())[from]];
    }

    /** Renames entry `i` of a directory's list, with the directory and the file it names. */
    method RenameEntry(oldBase: Path, newBase: Path, dir: Directory, i: nat, ghost from: Path, ghost to: Path,
                       ghost limit: nat)
      requires HeapOk() && LoopReady(Dirs(), from, to, oldBase, i, limit) && newBase == Rebase(oldBase, from, to)
      requires directories[newBase] == dir && i < |dir.children|
      modifies this, directories.Values
      ensures HeapOk() && directories.Values <= old(directories.Values)
      ensures KeptElsewhere(old(directories), directories, oldBase, newBase)
      ensures Abs() == EntryRenamed(old(Abs()), from, to, oldBase, i, limit)
      decreases limit - |oldBase|, 2
    {
      var childPath := dir.children[i];
      if oldBase < childPath {
        var newChildPath := Rebase(childPath, oldBase, newBase);
        EntryTarget(from, to, oldBase, childPath);
        if childPath in directories {
          EntryStarts(Dirs(), from, to, oldBase, i, limit, childPath);
          RenameSubtree(oldBase, newBase, dir, i, childPath, newChildPath, from, to, limit);
        } else {
          RenameListing(dir, i, childPath, newChildPath);
        }
      }
    }

    /** Renames an entry that names no directory, with the file at its path if there is one. */
    method RenameListing(dir: Directory, i: nat, c: Path, target: Path)
      requires HeapOk() && dir in directories.Values && i < |dir.children| && c != target
      modifies this`fileEntries, this`fileChunks, dir`children
      ensures HeapOk()
      ensures Abs() == FileMoved(ListRenamed(old(Abs()), dir.path, i, target), c, target)
    {
      SetChild(dir, i, target);
      MoveFileEntry(c, target);
    }

    /** Re-keys the directory object that entry `i` of a list names, its subtree, and the file at its path. */
    method RenameSubtree(ghost oldBase: Path, ghost newBase: Path, dir: Directory, i: nat, c: Path, target: Path,
                         ghost from: Path, ghost to: Path, ghost limit: nat)
      requires HeapOk() && dir in directories.Values && i < |dir.children|
      requires from <= oldBase < c && newBase < target == Rebase(c, from, to)
      requires c in directories && c != dir.path && c != target && |oldBase| <= limit
      requires LoopReady(Rekeyed(ListRenamed(Abs(), dir.path, i, target).dirs, c, target), from, to, c, 0, limit)
      modifies this, directories.Values
      ensures HeapOk() && directories.Values <= old(directories.Values)
      ensures KeptElsewhere(old(directories), directories, oldBase, newBase)
      ensures Abs() == FileMoved(RenameFrom(old(ChildRekeyed(Abs(), dir.path, i, c, target)), from, to, c, 0, limit),
                                 c, target)
      decreases limit - |oldBase|, 1
    {
      RenameDirectories(oldBase, newBase, dir, i, c, target, from, to, limit);
      MoveFileEntry(c, target);
    }

    method RenameDirectories(ghost oldBase: Path, ghost newBase: Path, dir: Directory, i: nat, c: Path, target: Path,
                             ghost from: Path, ghost to: Path, ghost limit: nat)
      requires HeapOk() && dir in directories.Values && i < |dir.children|
      requires from <= oldBase < c && newBase < target == Rebase(c, from, to)
      requires c in directories && c != dir.path && c != target && |oldBase| <= limit
      requires LoopReady(Rekeyed(ListRenamed(Abs(), dir.path, i, target).dirs, c, target), from, to, c, 0, limit)
      modifies this, directories.Values
      ensures HeapOk() && directories.Values <= old(directories.Values)
      ensures KeptElsewhere(old(directories), directories, oldBase, newBase)
      ensures Abs() == RenameFrom(old(ChildRekeyed(Abs(), dir.path, i, c, target)), from, to, c, 0, limit)
      decreases limit - |oldBase|, 0
    {
      RekeyChild(dir, i, c, target);
      UpdateChildPaths(c, target, directories[target], from, to, limit);
      KeptAfterRekey(old(directories), directories, oldBase, newBase, c, target);
    }

    /** Renames entry `i` of a list and re-keys the directory object it names. */
    method RekeyChild(dir: Directory, i: nat, c: Path, target: Path)
      requires HeapOk() && dir in directories.Values && i < |dir.children|
      requires c in directories && c != target && c != dir.path
      modifies this`directories, directories.Values
      ensures HeapOk() && directories.Values <= old(directories.Values)
      ensures directories == (old(directories) - {c})[target := old(directories[c])]
      ensures Abs() == old(ChildRekeyed(Abs(), dir.path, i, c, target))
    {
      SetChild(dir, i, target);
      Rekey(c, target);
    }

    /** `dir` is the directory object now at `newBase`, whose list still names paths below `oldBase`; the
        whole move is from `from` to `to`. */
    method UpdateChildPaths(oldBase: Path, newBase: Path, dir: Directory, ghost from: Path, ghost to: Path,
                            ghost limit: nat)
      requires HeapOk() && LoopReady(Dirs(), from, to, oldBase, 0, limit) && newBase == Rebase(oldBase, from, to)
      requires directories[newBase] == dir
      modifies this, directories.Values
      ensures HeapOk() && directories.Values <= old(directories.Values)
      ensures KeptElsewhere(old(directories), directories, oldBase, newBase)
      ensures Abs() == RenameFrom(old(Abs()), from, to, oldBase, 0, limit)
      decreases limit - |oldBase|, 4
    {
      ghost var whole := RenameFrom(Abs(), from, to, oldBase, 0, limit);
      var i := 0;
      while i < |dir.children|
        invariant HeapOk() && directories.Values <= old(directories.Values)
        invariant KeptElsewhere(old(directories), directories, oldBase, newBase)
        invariant newBase in directories && directories[newBase] == dir && i <= |dir.children|
        invariant OnCourse(Abs(), from, to, oldBase, i, limit, whole)
        decreases |dir.children| - i
      {
        label Before:
        RenameNext(oldBase, newBase, dir, i, from, to, limit, whole);
        KeptTwice(old(directories), old@Before(directories), directories, oldBase, newBase);
        i := i + 1;
      }
      CourseEnds(Abs(), from, to, oldBase, i, limit, whole);
    }

    /** One entry of the loop. */
    method RenameNext(oldBase: Path, newBase: Path, dir: Directory, i: nat, ghost from: Path, ghost to: Path,
                      ghost limit: nat, ghost whole: Namespace)
      requires HeapOk() && OnCourse(Abs(), from, to, oldBase, i, limit, whole)
      requires newBase == Rebase(oldBase, from, to)
      requires directories[newBase] == dir && i < |dir.children|
      modifies this, directories.Values
      ensures HeapOk() && directories.Values <= old(directories.Values)
      ensures KeptElsewhere(old(directories), directories, oldBase, newBase)
      ensures newBase in directories && directories[newBase] == dir && |dir.children| == old(|dir.children|)
      ensures OnCourse(Abs(), from, to, oldBase, i + 1, limit, whole)
      decreases limit - |oldBase|, 3
    {
      assert !(oldBase <= newBase);
      CourseNext(Abs(), from, to, oldBase, i, limit, whole);
      RenameEntry(oldBase, newBase, dir, i, from, to, limit);
    }

    /** Takes `p` off its parent's list. */
    method UnlinkFromParent(p: Path)
      requires HeapOk() && p != ROOT
      modifies directories.Values
      ensures HeapOk() && Dirs() == NamespaceSpec.Unlink(old(Dirs()), p)
    {
      var parent := Parent(p);
      if parent in directories {
        directories[parent].Unlink(p);
        assert Dirs() == old(Dirs())[parent := Without(old(Dirs())[parent], p)];
      }
    }

    /** Takes `p` off its parent's list and out of the map. */
    method DropDirectory(p: Path)
      requires HeapOk() && p != ROOT
      modifies this`directories, directories.Values
      ensures HeapOk() && directories.Values <= old(directories.Values)
      ensures Abs() == old(Abs()).(dirs := NamespaceSpec.Unlink(old(Dirs()) - {p}, p))
    {
      UnlinkThenRemove(Dirs(), p);
      UnlinkFromParent(p);
      directories := directories - {p};
      assert Dirs() == NamespaceSpec.Unlink(old(Dirs()), p) - {p};
    }

    method DeleteDirectory(p: Path, recursive: bool) returns (r: Outcome)
      requires HeapOk() && ChildrenAreDirect(Abs())
      modifies this, directories.Values
      ensures HeapOk() && directories.Values <= old(directories.Values)
      ensures (Abs(), r) == NamespaceSpec.DeleteDirectory(old(Abs()), p, recursive)
    {
      if p == ROOT { return InvalidPath; }
      if p !in directories { return NotFound; }
      var dir := directories[p];
      var hasFiles := HasFiles(p);
      if (|dir.children| > 0 || hasFiles) && !recursive { return NotEmpty; }
      if recursive {
        DirectBelow(Abs(), p);
        var _ := RemoveDirectoryRecursive(p);
      }
      DeleteDone(old(Abs()), p, recursive, Abs());
      DropDirectory(p);
      return Done;
    }

    /** Re-keys a directory whose parents' lists are up to date, and everything listed below it. */
    method RenameDirectory(from: Path, to: Path)
      requires HeapOk() && ChildrenAreDirect(Abs()) && from in directories && !(from <= to)
      modifies this, directories.Values
      ensures HeapOk() && directories.Values <= old(directories.Values)
      ensures Abs() == if to < from then MovedUp(old(Abs()), from, to) else RenameTree(old(Abs()), from, to)
    {
      ghost var s, limit := Abs(), Longest(Dirs().Keys);
      Rekey(from, to);
      assert Rebase(from, from, to) == to;
      if !(to < from) {
        assert !(to <= from) by { assert to <= from && |to| == |from| ==> to == from; }
        LoopIsTree(s, from, to, limit);
      }
      UpdateChildPaths(from, to, directories[to], from, to, limit);
    }

    method MoveDirectory(from: Path, to: Path) returns (r: Outcome)
      requires HeapOk() && ChildrenAreDirect(Abs()) && from in directories && from != ROOT
      modifies this, directories.Values
      ensures HeapOk() && directories.Values <= old(directories.Values)
      ensures (Abs(), r) == NamespaceSpec.MoveDirectory(old(Abs()), from, to)
    {
      if to in directories { return AlreadyExists; }
      if to in fileEntries { return FileAtDestination; }
      if from < to { return IntoItself; }
      UnlinkFromParent(from);
      if to != ROOT && Parent(to) != ROOT && Parent(to) !in directories { return ParentMissing; }
      assert from <= to && |from| == |to| ==> from == to;
      MoveUnlinked(from, to, old(Abs()));
      return Done;
    }

    /** The rest of a move, once the directory is off its parent's list. */
    method MoveUnlinked(from: Path, to: Path, ghost s: Namespace)
      requires HeapOk() && ChildrenAreDirect(s) && Abs() == s.(dirs := NamespaceSpec.Unlink(s.dirs, from))
      requires from in directories && ParentReady(s.dirs, to) && !(from <= to)
      modifies this, directories.Values
      ensures HeapOk() && directories.Values <= old(directories.Values)
      ensures Abs() == var u := Relinked(s, from, to);
                       if to < from then MovedUp(u, from, to) else RenameTree(u, from, to)
    {
      LinkToParent(to);
      assert Abs() == Relinked(s, from, to);
      RenameDirectory(from, to);
    }

    method MoveFile(from: Path, to: Path) returns (r: Outcome)
      requires HeapOk() && from in fileEntries
      modifies this`fileEntries, this`fileChunks
      ensures (Abs(), r) == NamespaceSpec.MoveFile(old(Abs()), from, to)
    {
      if to in fileEntries { return AlreadyExists; }
      if to in directories { return DirectoryAtDestination; }
      if to != ROOT && Parent(to) != ROOT && Parent(to) !in directories { return ParentMissing; }
      MoveFileEntry(from, to);
      return Done;
    }

    method MoveEntry(from: Path, to: Path) returns (r: Outcome)
      requires HeapOk() && ChildrenAreDirect(Abs())
      modifies this, directories.Values
      ensures HeapOk() && directories.Values <= old(directories.Values)
      ensures (Abs(), r) == NamespaceSpec.MoveEntry(old(Abs()), from, to)
    {
      if from == ROOT { return InvalidPath; }
      if from in directories {
        r := MoveDirectory(from, to);
      } else if from in fileEntries {
        r := MoveFile(from, to);
      } else {
        r := NotFound;
      }
    }

    /** The subdirectories and the files that a listing of `p` shows; map order of files is free. */
    method ListDirectory(p: Path) returns (found: bool, subdirs: seq<Path>, files: seq<Path>)
      requires HeapOk()
      ensures found <==> p in directories
      ensures found ==> subdirs == ListedDirs(Dirs(), Dirs()[p])
      ensures found ==> Distinct(files) && forall f :: f in files <==> f in FilesIn(Abs(), p)
    {
      if p !in directories { return false, [], []; }
      subdirs := ListSubdirectories(directories[p].children);
      files := ListFiles(p);
      return true, subdirs, files;
    }

    method ListSubdirectories(children: seq<Path>) returns (subdirs: seq<Path>)
      requires HeapOk()
      ensures subdirs == ListedDirs(Dirs(), children)
    {
      ghost var dirs := Dirs();
      subdirs := [];
      var i := 0;
      while i < |children|
        invariant 0 <= i <= |children|
        invariant subdirs + ListedDirs(dirs, children[i..]) == ListedDirs(dirs, children)
      {
        ListedNext(dirs, children, i, subdirs);
        if children[i] in directories {
          subdirs := subdirs + [directories[children[i]].path];
        }
        i := i + 1;
      }
    }

    method ListFiles(p: Path) returns (files: seq<Path>)
      ensures Distinct(files) && forall f :: f in files <==> f in FilesIn(Abs(), p)
    {
      files := [];
      var rest := fileEntries.Keys;
      while rest != {}
        invariant rest <= fileEntries.Keys
        invariant Distinct(files)
        invariant forall f :: f in files <==> f in FilesIn(Abs(), p) && f !in rest
      {
        var f :| f in rest;
        if f != ROOT && Parent(f) == p {
          files := files + [f];
        }
        rest := rest - {f};
      }
    }
  }

  /** Performs one operation of a run. */
  method Perform(c: Coordinator, op: Op) returns (r: Outcome)
    requires c.HeapOk() && ChildrenAreDirect(c.Abs())
    modifies c, c.directories.Values
    ensures c.HeapOk() && fresh(c.directories.Values - old(c.directories.Values))
    ensures (c.Abs(), r) == Step(old(c.Abs()), op)
  {
    match op
    case Mkdir(p) => r := c.CreateDirectory(p);
    case Create(f) => r := c.CreateFile(f);
    case Delete(f) => r := c.DeleteFile(f);
    case Rmdir(p, recursive) => r := c.DeleteDirectory(p, recursive);
    case Move(from, to) => r := c.MoveEntry(from, to);
  }

  /** A new coordinator performing a run ends in the state the run ends in. */
  method PerformAll(ops: seq<Op>) returns (c: Coordinator)
    ensures fresh(c) && fresh(c.directories.Values)
    ensures c.HeapOk() && c.Abs() == Run(INIT, ops)
  {
    c := new Coordinator();
    var i := 0;
    assert ops[0..] == ops;
    while i < |ops|
      invariant i <= |ops|
      invariant c.HeapOk() && fresh(c.directories.Values)
      invariant ChildrenAreDirect(c.Abs())
      invariant Run(c.Abs(), ops[i..]) == Run(INIT, ops)
    {
      assert ops[i..][1..] == ops[i + 1..];
      StepKeepsDirect(c.Abs(), ops[i]);
      var _ := Perform(c, ops[i]);
      i := i + 1;
    }
  }

  /** The runs that keep the index are among them. */
  method PerformIndexed(ops: seq<Op>) returns (c: Coordinator)
    requires (InitIsExact(); KeepsIndex(INIT, ops))
    ensures fresh(c) && fresh(c.directories.Values)
    ensures c.HeapOk() && c.Abs() == Run(INIT, ops) && DirInv(c.Abs())
  {
    InitIsExact();
    RunKeepsIndex(INIT, ops);
    c := PerformAll(ops);
  }
}
