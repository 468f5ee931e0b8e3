/** Exactness of the index over whole runs, and the runs that lose it. */
module NamespaceRuns {
  import opened Paths
  import opened Sequences
  import opened NamespaceSpec
  import opened NamespaceProofs

  lemma MovedFileIsListed(s: Namespace, from: Path, to: Path, g: Path)
    requires Exact(s) && Moves(s, from, to) && g in s.files && from < g
    ensures Listed(MoveDirectory(s, from, to).0, Rebase(g, from, to))
  {
    assert Listed(s, g);
    ParentOfRebase(g, from, to);
    MoveRenamesListsBelow(s, from, to, Parent(g));
    var i :| 0 <= i < |s.dirs[Parent(g)]| && s.dirs[Parent(g)][i] == g;
    assert MoveDirectory(s, from, to).0.dirs[Rebase(Parent(g), from, to)][i] == Rebase(g, from, to);
  }

  lemma MoveKeepsFilesListed(s: Namespace, from: Path, to: Path)
    requires Exact(s) && Moves(s, from, to)
    ensures FilesListed(MoveDirectory(s, from, to).0)
  {
    forall f <- MoveDirectory(s, from, to).0.files ensures Listed(MoveDirectory(s, from, to).0, f) {
      MoveRenamesFiles(s, from, to, f);
      var g := Renamed(f, to, from);
      if from <= g {
        assert |from| == |g| ==> from == g;
        MovedFileIsListed(s, from, to, g);
      } else {
        assert Listed(s, g);
        MoveRelinksElsewhere(s, from, to, Parent(g));
      }
    }
  }

  lemma MoveKeepsLists(s: Namespace, from: Path, to: Path)
    requires Exact(s) && Moves(s, from, to)
    ensures ListsExist(MoveDirectory(s, from, to).0) && ListsDistinct(MoveDirectory(s, from, to).0)
  {
    var t := MoveDirectory(s, from, to).0;
    forall d <- t.dirs ensures Distinct(t.dirs[d]) && ListExists(t, d) {
      MoveRenamesDirs(s, from, to, d);
      var q := Renamed(d, to, from);
      if from <= q {
        MoveKeepsListBelow(s, from, to, q);
      } else {
        MoveKeepsListElsewhere(s, from, to, q);
      }
    }
  }

  /** A listed entry still exists under its new name. */
  lemma MoveKeepsListing(s: Namespace, from: Path, to: Path, q: Path, c: Path)
    requires Exact(s) && Moves(s, from, to) && q in s.dirs
    requires c in s.dirs[q] || c == from
    ensures var (t, r) := (MoveDirectory(s, from, to).0, Renamed(c, from, to)); r in t.files || r in t.dirs
  {
    assert c in s.dirs[q] ==> ListingExists(s, q, c);
    MoveRenamesDirs(s, from, to, c);
    MoveRenamesFiles(s, from, to, c);
  }

  lemma MoveKeepsListBelow(s: Namespace, from: Path, to: Path, q: Path)
    requires Exact(s) && Moves(s, from, to) && q in s.dirs && from <= q
    ensures var t := MoveDirectory(s, from, to).0;
            var d := Rebase(q, from, to);
            d in t.dirs && Distinct(t.dirs[d]) && ListExists(t, d)
  {
    var t := MoveDirectory(s, from, to).0;
    var d := Rebase(q, from, to);
    MoveRenamesListsBelow(s, from, to, q);
    assert Distinct(s.dirs[q]);
    RebaseKeepsDistinct(s.dirs[q], from, to);
    forall c <- t.dirs[d] ensures ListingExists(t, d, c) {
      var i :| 0 <= i < |t.dirs[d]| && t.dirs[d][i] == c;
      MoveKeepsListing(s, from, to, q, s.dirs[q][i]);
    }
  }

  /** An entry of another list keeps its name, and still exists. */
  lemma MoveKeepsOtherListing(s: Namespace, from: Path, to: Path, q: Path, c: Path)
    requires Exact(s) && Moves(s, from, to) && q in s.dirs && !(from <= q)
    requires c in s.dirs[q] && c != from
    ensures ListingExists(MoveDirectory(s, from, to).0, q, c)
  {
    assert ListingExists(s, q, c) && DirectChild(q, c);
    assert from <= c && |from| == |c| ==> from == c;
    MoveRenamesDirs(s, from, to, c);
    MoveRenamesFiles(s, from, to, c);
  }

  lemma RelinkedListKept(s: Namespace, t: Namespace, q: Path, from: Path, to: Path, added: seq<Path>)
    requires q in s.dirs && q in t.dirs && t.dirs[q] == Without(s.dirs[q], from) + added
    requires ListExists(s, q) && Distinct(s.dirs[q]) && !ListingExists(s, q, to)
    requires added == [] || (added == [to] && ListingExists(t, q, to))
    requires forall c <- s.dirs[q] | c != from :: ListingExists(t, q, c)
    ensures Distinct(t.dirs[q]) && ListExists(t, q)
  {
    WithoutKeepsDistinct(s.dirs[q], from);
  }

  lemma MoveListsTarget(s: Namespace, from: Path, to: Path)
    requires DirInv(s) && Moves(s, from, to)
    ensures to in MoveDirectory(s, from, to).0.dirs
  {
    assert Rebase(from, from, to) == to;
    MoveRenamesDirs(s, from, to, from);
  }

  lemma MoveKeepsListElsewhere(s: Namespace, from: Path, to: Path, q: Path)
    requires Exact(s) && Moves(s, from, to) && q in s.dirs && !(from <= q)
    ensures var t := MoveDirectory(s, from, to).0;
            q in t.dirs && Distinct(t.dirs[q]) && ListExists(t, q)
  {
    var t, added := MoveDirectory(s, from, to).0, if to != ROOT && q == Parent(to) != ROOT then [to] else [];
    MoveListsTarget(s, from, to);
    MoveRelinksElsewhere(s, from, to, q);
    forall c <- s.dirs[q] | c != from ensures ListingExists(t, q, c) {
      MoveKeepsOtherListing(s, from, to, q, c);
    }
    assert ListExists(s, q) && !ListingExists(s, q, to);
    RelinkedListKept(s, t, q, from, to, added);
  }

  lemma RenameKeysMonotone<A, B>(m: map<Path, A>, n: map<Path, B>, moved: set<Path>, from: Path, to: Path)
    requires m.Keys <= n.Keys && forall q <- moved :: from <= q
    ensures RenameKeys(m, moved, from, to).Keys <= RenameKeys(n, moved, from, to).Keys
  {
  }

  lemma MoveKeepsKindsApart(s: Namespace, from: Path, to: Path)
    requires Exact(s) && Moves(s, from, to)
    ensures KindsApart(MoveDirectory(s, from, to).0)
  {
    var t := MoveDirectory(s, from, to).0;
    forall p ensures p in t.dirs ==> p !in t.files {
      MoveRenamesDirs(s, from, to, p);
      MoveRenamesFiles(s, from, to, p);
    }
    MovedFileKeys(s, from, to);
    RenameKeysMonotone(s.chunks, s.files, ListedUnder(s, from), from, to);
  }

  lemma MoveKeepsExact(s: Namespace, from: Path, to: Path)
    requires Exact(s) && Moves(s, from, to)
    ensures Exact(MoveDirectory(s, from, to).0)
  {
    MoveKeeps(s, from, to);
    MoveKeepsKindsApart(s, from, to);
    MoveKeepsFilesListed(s, from, to);
    MoveKeepsLists(s, from, to);
  }

  // ---------------------------------------------------------------- one step

  /** A directory move that is refused for a missing destination parent, after the source has
      already been taken off its own parent's list. */
  predicate RefusedAfterUnlink(s: Namespace, from: Path, to: Path) {
    && from in s.dirs && from != ROOT && Parent(from) != ROOT
    && to !in s.dirs && to !in s.files && !(from < to)
    && !ParentReady(s.dirs, to)
  }

  /** A move that re-keys a single file. */
  predicate MovesFile(s: Namespace, from: Path, to: Path) {
    && from !in s.dirs && from in s.files && to !in s.dirs && to !in s.files
    && (to == ROOT || Parent(to) == ROOT || Parent(to) in s.dirs)
  }

  predicate LosesIndex(s: Namespace, op: Op)
    requires DirInv(s)
  {
    match op
    case Move(from, to) => RefusedAfterUnlink(s, from, to)
    case Delete(f) => DeletesListingOfDirectory(s, f)
    case _ => false
  }

  predicate LosesExactness(s: Namespace, op: Op) {
    match op
    case Mkdir(p) => p in s.files
    case Create(p) => p in s.dirs
    case Move(from, to) => RefusedAfterUnlink(s, from, to) || MovesFile(s, from, to)
    case _ => false
  }

  lemma RefusedMove(s: Namespace, from: Path, to: Path)
    requires DirInv(s) && from in s.dirs && from != ROOT && !Moves(s, from, to)
    ensures DirInv(MoveDirectory(s, from, to).0) <==> !RefusedAfterUnlink(s, from, to)
    ensures Exact(s) ==> (Exact(MoveDirectory(s, from, to).0) <==> !RefusedAfterUnlink(s, from, to))
  {
    var t := MoveDirectory(s, from, to).0;
    if RefusedAfterUnlink(s, from, to) {
      assert !Rooted(t, from);
    } else if t != s {
      RefusedTopLevelMove(s, from, to);
    }
  }

  /** Unlinking a top-level directory drops at most a stale listing of it from the root. */
  lemma RefusedTopLevelMove(s: Namespace, from: Path, to: Path)
    requires DirInv(s) && from in s.dirs && from != ROOT && Parent(from) == ROOT
    requires MoveDirectory(s, from, to).1.ParentMissing?
    ensures DirInv(MoveDirectory(s, from, to).0)
    ensures Exact(s) ==> MoveDirectory(s, from, to).0 == s
  {
    var t := MoveDirectory(s, from, to).0;
    forall d <- t.dirs ensures Rooted(t, d) { assert Rooted(s, d); }
    if Exact(s) {
      assert ListExists(s, ROOT) && !ListingExists(s, ROOT, from);
      assert s.dirs[ROOT := s.dirs[ROOT]] == s.dirs;
    }
  }

  /** Exactly two steps break the directory index. */
  lemma KeepsDirInvIff(s: Namespace, op: Op)
    requires DirInv(s)
    ensures DirInv(Step(s, op).0) <==> !LosesIndex(s, op)
  {
    match op
    case Mkdir(p) => MkdirKeeps(s, p);
    case Create(p) => CreateKeeps(s, p);
    case Delete(p) => DeleteKeepsIff(s, p);
    case Rmdir(p, recursive) => RmdirKeeps(s, p, recursive);
    case Move(p, to) =>
      if p != ROOT && p in s.dirs {
        if Moves(s, p, to) { MoveKeeps(s, p, to); } else { RefusedMove(s, p, to); }
      }
  }

  lemma DeleteKeepsIff(s: Namespace, f: Path)
    requires DirInv(s)
    ensures DirInv(DeleteFile(s, f).0) <==> !DeletesListingOfDirectory(s, f)
  {
    if DeletesListingOfDirectory(s, f) {
      WithoutFirstCount(s.dirs[Parent(f)], f);
      assert f !in multiset(WithoutFirst(s.dirs[Parent(f)], f));
      assert !Rooted(DeleteFile(s, f).0, f);
    } else {
      DeleteKeeps(s, f);
    }
  }

  /** Exactly four steps break the exactness of the lists. */
  lemma KeepsExactIff(s: Namespace, op: Op)
    requires Exact(s)
    ensures Exact(Step(s, op).0) <==> !LosesExactness(s, op)
  {
    match op
    case Mkdir(p) => MkdirKeepsExactIff(s, p);
    case Create(p) => CreateKeepsExactIff(s, p);
    case Delete(p) => DeleteKeepsExact(s, p);
    case Rmdir(p, recursive) => RmdirKeepsExact(s, p, recursive);
    case Move(p, to) => MoveKeepsExactIff(s, p, to);
  }

  lemma MkdirKeepsExactIff(s: Namespace, p: Path)
    requires Exact(s)
    ensures Exact(CreateDirectory(s, p).0) <==> p !in s.files
  {
    if p in s.files {
      assert Listed(s, p) && p in CreateDirectory(s, p).0.dirs;
    } else {
      MkdirKeepsExact(s, p);
    }
  }

  lemma CreateKeepsExactIff(s: Namespace, f: Path)
    requires Exact(s)
    ensures Exact(CreateFile(s, f).0) <==> f !in s.dirs
  {
    if f in s.dirs {
      assert Rooted(s, f) && f in CreateFile(s, f).0.files;
    } else {
      CreateKeepsExact(s, f);
    }
  }

  lemma MoveKeepsExactIff(s: Namespace, from: Path, to: Path)
    requires Exact(s)
    ensures Exact(MoveEntry(s, from, to).0) <==> !RefusedAfterUnlink(s, from, to) && !MovesFile(s, from, to)
  {
    if from != ROOT && from in s.dirs {
      if Moves(s, from, to) { MoveKeepsExact(s, from, to); } else { RefusedMove(s, from, to); }
    } else if MovesFile(s, from, to) {
      MovedFileStaysListed(s, from, to);
    }
  }

  /** The file's old parent still lists it after `moveFile`. */
  lemma MovedFileStaysListed(s: Namespace, from: Path, to: Path)
    requires Exact(s) && MovesFile(s, from, to)
    ensures !ListsExist(MoveFile(s, from, to).0)
  {
    var t := MoveFile(s, from, to).0;
    assert Listed(s, from) && !ListingExists(t, Parent(from), from);
    assert !ListExists(t, Parent(from));
  }

  // ---------------------------------------------------------------- parents of files

  /** Every file's parent directory exists. */
  predicate FilesSheltered(s: Namespace) {
    forall f <- s.files | f != ROOT :: Parent(f) in s.dirs
  }

  /** A directory moves away from a file below it that its parent does not list. */
  ghost predicate StrandsFile(s: Namespace, op: Op)
    requires DirInv(s)
  {
    op.Move? && Moves(s, op.p, op.to) && exists f <- s.files :: op.p < f && !Listed(s, f)
  }

  /** Of all steps, exactly such a move leaves a file without its parent directory. */
  lemma KeepsShelterIff(s: Namespace, op: Op)
    requires DirInv(s) && FilesSheltered(s)
    ensures FilesSheltered(Step(s, op).0) <==> !StrandsFile(s, op)
  {
    match op
    case Mkdir(p) =>
    case Create(f) =>
    case Delete(f) =>
    case Rmdir(p, recursive) => RmdirKeepsShelter(s, p, recursive);
    case Move(p, to) =>
      if p != ROOT && p in s.dirs {
        if Moves(s, p, to) { MoveKeepsShelterIff(s, p, to); } else { RefusedKeepsShelter(s, p, to); }
      } else if p != ROOT && p in s.files {
        FileMoveKeepsShelter(s, p, to);
      }
  }

  lemma RmdirKeepsShelter(s: Namespace, p: Path, recursive: bool)
    requires DirInv(s) && FilesSheltered(s)
    ensures FilesSheltered(DeleteDirectory(s, p, recursive).0)
  {
    var (t, outcome) := DeleteDirectory(s, p, recursive);
    if outcome.Done? {
      DeleteRemovesSubtree(s, p, recursive);
      DeleteRemovesFiles(s, p, recursive);
      forall f <- t.files | f != ROOT ensures Parent(f) in t.dirs { ReachedIsBelow(s, p, Parent(f)); }
    }
  }

  lemma RefusedKeepsShelter(s: Namespace, from: Path, to: Path)
    requires DirInv(s) && FilesSheltered(s) && from != ROOT && from in s.dirs && !Moves(s, from, to)
    ensures FilesSheltered(MoveDirectory(s, from, to).0)
  {
  }

  lemma FileMoveKeepsShelter(s: Namespace, from: Path, to: Path)
    requires DirInv(s) && FilesSheltered(s) && from in s.files
    ensures FilesSheltered(MoveFile(s, from, to).0)
  {
    var t := MoveFile(s, from, to).0;
    forall f <- t.files | f != ROOT ensures Parent(f) in t.dirs {
      if to <= f && Rebase(f, to, from) == from {
        RebaseBack(f, to, from);
        assert Rebase(from, from, to) == to;
      }
    }
  }

  lemma MoveKeepsShelterIff(s: Namespace, from: Path, to: Path)
    requires DirInv(s) && FilesSheltered(s) && Moves(s, from, to)
    ensures FilesSheltered(MoveDirectory(s, from, to).0) <==> forall f <- s.files | from < f :: Listed(s, f)
  {
    var t := MoveDirectory(s, from, to).0;
    if f :| f in s.files && from < f && !Listed(s, f) {
      FileFollowsIff(s, from, to, f);
    } else {
      forall f <- t.files | f != ROOT ensures Parent(f) in t.dirs { MovedFileIsSheltered(s, from, to, f); }
    }
  }

  lemma MovedFileIsSheltered(s: Namespace, from: Path, to: Path, f: Path)
    requires DirInv(s) && FilesSheltered(s) && Moves(s, from, to)
    requires forall g <- s.files | from < g :: Listed(s, g)
    requires f in MoveDirectory(s, from, to).0.files && f != ROOT
    ensures Parent(f) in MoveDirectory(s, from, to).0.dirs
  {
    FilesAfterMove(s, from, to, f);
    if Arrives(ListedUnder(s, from), from, to, f) {
      var g := Rebase(f, to, from);
      ListedUnderIff(s, from, g);
      RebaseBack(f, to, from);
      ParentOfRebase(g, from, to);
      MoveRenamesDirs(s, from, to, Parent(g));
    } else {
      ListedUnderIff(s, from, f);
      assert from <= Parent(f) ==> from < f;
      MoveRenamesDirs(s, from, to, Parent(f));
    }
  }
}
