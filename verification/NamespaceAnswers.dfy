/** When each namespace operation succeeds and what it leaves at each path, said of the maps alone. */
module NamespaceAnswers {
  import opened Paths
  import opened NamespaceSpec
  import opened NamespaceProofs
  import opened NamespaceRuns
  import opened NamespaceHistory
  import opened Renaming
  import opened MoveLosses
  import opened MoveFileLosses

  // ---------------------------------------------------------------- creating and deleting

  /** A directory is made at a free path below an existing directory, empty and last on its parent's list, which
      the root does not keep; otherwise nothing changes. */
  lemma MkdirIff(s: Namespace, p: Path)
    ensures var (t, outcome) := CreateDirectory(s, p);
      && (outcome.Done? <==> p != ROOT && p !in s.dirs && (Parent(p) == ROOT || Parent(p) in s.dirs))
      && (!outcome.Done? ==> t == s)
      && (outcome.Done? ==>
            && t.files == s.files && t.chunks == s.chunks && t.dirs.Keys == s.dirs.Keys + {p} && t.dirs[p] == []
            && forall q <- s.dirs :: t.dirs[q] == s.dirs[q] + if q == Parent(p) && q != ROOT then [p] else [])
  {
  }

  /** An empty file is created at a path without one below an existing directory, last on its parent's list, the
      root's included; otherwise nothing changes. */
  lemma CreateIff(s: Namespace, f: Path)
    ensures var (t, outcome) := CreateFile(s, f);
      && (outcome.Done? <==> f !in s.files && (f == ROOT || Parent(f) == ROOT || Parent(f) in s.dirs))
      && (!outcome.Done? ==> t == s)
      && (outcome.Done? ==>
            && t.files == s.files[f := FileEntry(0, [])] && t.chunks == s.chunks && t.dirs.Keys == s.dirs.Keys
            && forall q <- s.dirs :: t.dirs[q] == s.dirs[q] + if f != ROOT && q == Parent(f) then [f] else [])
  {
  }

  /** A file goes with its chunk list and one mention on its parent's list, and nothing else does. */
  lemma DeleteIff(s: Namespace, f: Path)
    ensures var (t, outcome) := DeleteFile(s, f);
      && (outcome.Done? <==> f in s.files)
      && (!outcome.Done? ==> t == s)
      && (outcome.Done? ==>
            && t.files == s.files - {f} && t.chunks == s.chunks - {f} && t.dirs.Keys == s.dirs.Keys
            && forall q <- s.dirs ::
                 if f != ROOT && q == Parent(f) then multiset(t.dirs[q]) == multiset(s.dirs[q]) - multiset{f}
                 else t.dirs[q] == s.dirs[q])
  {
    if f in s.files && f != ROOT && Parent(f) in s.dirs { WithoutFirstCount(s.dirs[Parent(f)], f); }
  }

  /** A directory is deleted whenever it exists, below the root, and is empty or the call is recursive. */
  lemma RmdirIff(s: Namespace, p: Path, recursive: bool)
    ensures var (t, outcome) := DeleteDirectory(s, p, recursive);
      && (outcome.Done? <==>
            && p != ROOT && p in s.dirs
            && (recursive || (s.dirs[p] == [] && forall f <- s.files :: f == ROOT || Parent(f) != p)))
      && (!outcome.Done? ==> t == s)
      && (outcome.Done? && !recursive ==> t.files == s.files && t.chunks == s.chunks && t.dirs.Keys == s.dirs.Keys - {p})
  {
    if f :| f in s.files && f != ROOT && Parent(f) == p { assert f in FilesIn(s, p); }
  }

  // ---------------------------------------------------------------- moving

  /** Whether a directory or a file can move to `to`, its own place on lists aside. */
  predicate Free(s: Namespace, to: Path) {
    to !in s.dirs && to !in s.files && (to == ROOT || Parent(to) == ROOT || Parent(to) in s.dirs)
  }

  /** A directory moves to a free path that is not below it. A refused move changes at most its parent's list, which
      loses it when nothing but the destination's parent is missing. */
  lemma MoveDirectoryIff(s: Namespace, from: Path, to: Path)
    requires ChildrenAreDirect(s) && from != ROOT && from in s.dirs
    ensures var (t, outcome) := MoveEntry(s, from, to);
      && (outcome.Done? <==> Free(s, to) && !(from < to))
      && (!outcome.Done? ==>
            && t.files == s.files && t.chunks == s.chunks && t.dirs.Keys == s.dirs.Keys
            && forall q <- s.dirs ::
                 t.dirs[q] == if q == Parent(from) && to !in s.dirs && to !in s.files && !(from < to)
                              then Without(s.dirs[q], from) else s.dirs[q])
  {
  }

  /** A path without a directory or a file cannot move, and neither can the root. */
  lemma MoveNothing(s: Namespace, from: Path, to: Path)
    requires ChildrenAreDirect(s) && (from == ROOT || (from !in s.dirs && from !in s.files))
    ensures MoveEntry(s, from, to).0 == s && !MoveEntry(s, from, to).1.Done?
  {
  }

  /** What is at `q` after the value at `from`, if there is one, has gone to `to`. */
  function Taken<V>(m: map<Path, V>, from: Path, to: Path): map<Path, V> {
    map q | q in m.Keys + {to} && q != from && (q in m || (q == to && from in m)) ::
      if q == to && from in m then m[from] else m[q]
  }

  /** A file moves exactly to a free path. Its entry and its chunk list are then there, no list changes, and every
      other file and chunk list stays; a refused move changes nothing. No file is ever lost. */
  lemma MoveFileIff(s: Namespace, from: Path, to: Path)
    requires ChildrenAreDirect(s) && from != ROOT && from !in s.dirs && from in s.files
    ensures var (t, outcome) := MoveEntry(s, from, to);
      && (outcome.Done? <==> Free(s, to))
      && (!outcome.Done? ==> t == s)
      && (outcome.Done? ==>
            && t.dirs == s.dirs
            && from !in t.files && to in t.files && t.files[to] == s.files[from]
            && (forall q | q != from && q != to ::
                  (q in t.files <==> q in s.files) && (q in s.files ==> t.files[q] == s.files[q]))
            && t.chunks == Taken(s.chunks, from, to))
      && |t.files| == |s.files|
  {
    var (t, outcome) := MoveEntry(s, from, to);
    if outcome.Done? {
      RenameOne(s.files, from, to);
      RenameOne(s.chunks, from, to);
      TakenIs(s.chunks, from, to);
      SameCount(s.files, from, to);
    }
  }

  lemma TakenIs<V>(m: map<Path, V>, from: Path, to: Path)
    requires from != to
    ensures Taken(m, from, to) == if from in m then m[to := m[from]] - {from} else m
  {
    if from in m {
      assert Taken(m, from, to).Keys == (m[to := m[from]] - {from}).Keys;
    } else {
      assert Taken(m, from, to).Keys == m.Keys;
    }
  }

  lemma SameCount<V>(m: map<Path, V>, from: Path, to: Path)
    requires from != to && from in m && to !in m
    ensures |m[to := m[from]] - {from}| == |m|
  {
    var n := m[to := m[from]] - {from};
    assert n.Keys == (m.Keys - {from}) + {to};
    assert |n| == |n.Keys| && |m| == |m.Keys| && |m.Keys - {from}| == |m.Keys| - 1;
  }

  // ---------------------------------------------------------------- lost files

  /** A file is deleted, or its directory with it, or a directory moves and takes one onto the path of another,
      or moves onto the path of a missing ancestor. */
  ghost predicate MayLoseFiles(s: Namespace, op: Op)
    requires ChildrenAreDirect(s)
  {
    match op
    case Delete(f) => f in s.files
    case Rmdir(p, recursive) => recursive && p != ROOT && p in s.dirs && HasFilesIn(s, p)
    case Move(from, to) =>
      from != ROOT && from in s.dirs && Free(s, to) && !(from < to) && (to < from || MovesOntoFile(s, from, to))
    case _ => false
  }

  /** A directory that the lists reach from `p` has a file. */
  predicate HasFilesIn(s: Namespace, p: Path) {
    exists f <- s.files :: f != ROOT && Reached(s.dirs, p, Parent(f))
  }

  predicate MovesOntoFile(s: Namespace, from: Path, to: Path)
    requires ChildrenAreDirect(s) && Free(s, to)
  {
    exists f <- ListedUnder(Relinked(s, from, to), from) :: Rebase(f, from, to) in s.files
  }

  predicate Creates(s: Namespace, op: Op) {
    op.Create? && op.p !in s.files && (op.p == ROOT || Parent(op.p) == ROOT || Parent(op.p) in s.dirs)
  }

  /** No other step loses a file, and of these every one does, but for some moves onto a missing ancestor's path. */
  lemma StepCountsFiles(s: Namespace, op: Op)
    requires ChildrenAreDirect(s)
    ensures !MayLoseFiles(s, op) ==> |After(s, op).files| == |s.files| + if Creates(s, op) then 1 else 0
    ensures MayLoseFiles(s, op) && !(op.Move? && op.to < op.p) ==> |After(s, op).files| < |s.files|
  {
    match op
    case Mkdir(p) => MkdirIff(s, p);
    case Create(f) => CreateIff(s, f);
    case Delete(f) =>
      DeleteIff(s, f);
      FewerKeys(s.files, {f});
    case Rmdir(p, recursive) => RmdirCountsFiles(s, p, recursive);
    case Move(from, to) =>
      if from == ROOT || (from !in s.dirs && from !in s.files) {
        MoveNothing(s, from, to);
      } else if from in s.dirs {
        MoveCountsFiles(s, from, to);
      } else {
        MoveFileIff(s, from, to);
      }
  }

  lemma FewerKeys<V>(m: map<Path, V>, gone: set<Path>)
    ensures |m - gone| <= |m| && (|m - gone| == |m| <==> forall q <- gone :: q !in m)
  {
    assert (m - gone).Keys == m.Keys - gone && |m - gone| == |(m - gone).Keys| && |m| == |m.Keys|;
    var hit := m.Keys * gone;
    assert m.Keys - gone == m.Keys - hit && |m.Keys - hit| == |m.Keys| - |hit|;
    assert |hit| == 0 <==> hit == {};
    if q :| q in gone && q in m { assert q in hit; }
    if hit != {} { var q :| q in hit; }
  }

  lemma RmdirCountsFiles(s: Namespace, p: Path, recursive: bool)
    requires ChildrenAreDirect(s)
    ensures var t := DeleteDirectory(s, p, recursive).0;
            if MayLoseFiles(s, Rmdir(p, recursive)) then |t.files| < |s.files| else |t.files| == |s.files|
  {
    RmdirIff(s, p, recursive);
    if recursive && p != ROOT && p in s.dirs {
      FewerKeys(s.files, Doomed(s, p));
      if HasFilesIn(s, p) {
        var f :| f in s.files && f != ROOT && Reached(s.dirs, p, Parent(f));
        assert f in Doomed(s, p);
      }
    }
  }

  lemma MoveCountsFiles(s: Namespace, from: Path, to: Path)
    requires ChildrenAreDirect(s) && from != ROOT && from in s.dirs
    ensures var t := MoveEntry(s, from, to).0;
            && (!(Free(s, to) && !(from < to)) ==> t.files == s.files)
            && (Free(s, to) && !(from < to) && !(to < from) ==>
                  if MovesOntoFile(s, from, to) then |t.files| < |s.files| else |t.files| == |s.files|)
  {
    MoveDirectoryIff(s, from, to);
    if Free(s, to) && !(from < to) && !(to < from) {
      assert Moves(s, from, to) && MoveEntry(s, from, to) == MoveDirectory(s, from, to);
      MoveApartCountsFiles(s, from, to);
    }
  }

  lemma MoveApartCountsFiles(s: Namespace, from: Path, to: Path)
    requires ChildrenAreDirect(s) && Moves(s, from, to) && Free(s, to) && !(to < from)
    ensures var t := MoveDirectory(s, from, to).0;
            if MovesOntoFile(s, from, to) then |t.files| < |s.files| else |t.files| == |s.files|
  {
    MoveLosesOverwritten(s, from, to);
    if MovesOntoFile(s, from, to) {
      var f :| f in ListedUnder(Relinked(s, from, to), from) && Rebase(f, from, to) in s.files;
    }
  }

  /** The files created along a run. */
  ghost function Creations(s: Namespace, ops: seq<Op>): nat
    requires ChildrenAreDirect(s)
    decreases |ops|
  {
    if ops == [] then 0
    else
      StepKeepsDirect(s, ops[0]);
      (if Creates(s, ops[0]) then 1 else 0) + Creations(After(s, ops[0]), ops[1..])
  }

  /** A run ends with the files it began with and those it created, in number, unless one of its steps deletes
      files or moves directories over them. */
  lemma {:induction false} FilesAreCounted(s: Namespace, ops: seq<Op>) returns (k: nat)
    requires ChildrenAreDirect(s)
    ensures k <= |ops| && ChildrenAreDirect(Run(s, ops[..k]))
    ensures if k < |ops| then MayLoseFiles(Run(s, ops[..k]), ops[k])
            else |Run(s, ops).files| == |s.files| + Creations(s, ops)
    decreases |ops|
  {
    if ops == [] || MayLoseFiles(s, ops[0]) {
      k := 0;
    } else {
      StepCountsFiles(s, ops[0]);
      StepKeepsDirect(s, ops[0]);
      var m := FilesAreCounted(After(s, ops[0]), ops[1..]);
      k := m + 1;
      assert ops[..k][1..] == ops[1..][..m] && ops[..k][0] == ops[0];
    }
  }
}
