/** Whole runs of the namespace, what a listing shows, and runs that lose entries. */
module NamespaceHistory {
  import opened Paths
  import opened Sequences
  import opened NamespaceSpec
  import opened NamespaceProofs
  import opened NamespaceRuns

  ghost function After(s: Namespace, op: Op): Namespace
    requires ChildrenAreDirect(s)
  {
    Step(s, op).0
  }

  /** Every state of the run `ops` from `s`, including the last, has exact lists. */
  ghost predicate ExactThroughout(s: Namespace, ops: seq<Op>)
    decreases |ops|
  {
    Exact(s) && (ops == [] || ExactThroughout(After(s, ops[0]), ops[1..]))
  }

  /** No step of the run is one of the four that lose exactness. */
  ghost predicate Careful(s: Namespace, ops: seq<Op>)
    requires Exact(s)
    decreases |ops|
  {
    ops == [] || (
      && !LosesExactness(s, ops[0])
      && (KeepsExactIff(s, ops[0]); Careful(After(s, ops[0]), ops[1..])))
  }

  /** A run keeps its lists exact precisely when it avoids those four steps. */
  lemma {:induction false} ExactRunIff(s: Namespace, ops: seq<Op>)
    requires Exact(s)
    ensures ExactThroughout(s, ops) <==> Careful(s, ops)
    decreases |ops|
  {
    if ops != [] {
      KeepsExactIff(s, ops[0]);
      if !LosesExactness(s, ops[0]) { ExactRunIff(After(s, ops[0]), ops[1..]); }
    }
  }

  ghost predicate IndexedThroughout(s: Namespace, ops: seq<Op>)
    decreases |ops|
  {
    DirInv(s) && (ops == [] || IndexedThroughout(After(s, ops[0]), ops[1..]))
  }

  ghost predicate KeepsIndex(s: Namespace, ops: seq<Op>)
    requires DirInv(s)
    decreases |ops|
  {
    ops == [] || (
      && !LosesIndex(s, ops[0])
      && (KeepsDirInvIff(s, ops[0]); KeepsIndex(After(s, ops[0]), ops[1..])))
  }

  /** A run keeps the directory index, file moves and all, precisely when it avoids two steps. */
  lemma {:induction false} IndexedRunIff(s: Namespace, ops: seq<Op>)
    requires DirInv(s)
    ensures IndexedThroughout(s, ops) <==> KeepsIndex(s, ops)
    decreases |ops|
  {
    if ops != [] {
      KeepsDirInvIff(s, ops[0]);
      if !LosesIndex(s, ops[0]) { IndexedRunIff(After(s, ops[0]), ops[1..]); }
    }
  }

  /** Every state of the run has the directory index, and a parent directory for each file. */
  ghost predicate ShelteredThroughout(s: Namespace, ops: seq<Op>)
    decreases |ops|
  {
    DirInv(s) && FilesSheltered(s) && (ops == [] || ShelteredThroughout(After(s, ops[0]), ops[1..]))
  }

  ghost predicate KeepsShelter(s: Namespace, ops: seq<Op>)
    requires DirInv(s)
    decreases |ops|
  {
    ops == [] || (
      && !LosesIndex(s, ops[0]) && !StrandsFile(s, ops[0])
      && (KeepsDirInvIff(s, ops[0]); KeepsShelter(After(s, ops[0]), ops[1..])))
  }

  /** A run, file moves and all, keeps both precisely when it avoids three steps. */
  lemma {:induction false} ShelteredRunIff(s: Namespace, ops: seq<Op>)
    requires DirInv(s) && FilesSheltered(s)
    ensures ShelteredThroughout(s, ops) <==> KeepsShelter(s, ops)
    decreases |ops|
  {
    if ops != [] {
      KeepsDirInvIff(s, ops[0]);
      KeepsShelterIff(s, ops[0]);
      if !LosesIndex(s, ops[0]) && !StrandsFile(s, ops[0]) { ShelteredRunIff(After(s, ops[0]), ops[1..]); }
    }
  }

  lemma InitIsExact()
    ensures Exact(INIT)
  {
  }

  /** From the empty namespace, the careful runs are exactly the ones with exact lists throughout. */
  lemma ExactFromInitIff(ops: seq<Op>)
    ensures Exact(INIT) && (ExactThroughout(INIT, ops) <==> Careful(INIT, ops))
  {
    InitIsExact();
    ExactRunIff(INIT, ops);
  }

  lemma IndexedFromInitIff(ops: seq<Op>)
    ensures DirInv(INIT) && (IndexedThroughout(INIT, ops) <==> KeepsIndex(INIT, ops))
  {
    InitIsExact();
    IndexedRunIff(INIT, ops);
  }

  lemma ShelteredFromInitIff(ops: seq<Op>)
    ensures DirInv(INIT) && (ShelteredThroughout(INIT, ops) <==> KeepsShelter(INIT, ops))
  {
    InitIsExact();
    ShelteredRunIff(INIT, ops);
  }

  /** The state a run ends in, whatever its steps. */
  ghost function Run(s: Namespace, ops: seq<Op>): (t: Namespace)
    requires ChildrenAreDirect(s)
    ensures ChildrenAreDirect(t)
    decreases |ops|
  {
    if ops == [] then s else (StepKeepsDirect(s, ops[0]); Run(After(s, ops[0]), ops[1..]))
  }

  lemma {:induction false} RunKeepsIndex(s: Namespace, ops: seq<Op>)
    requires DirInv(s) && KeepsIndex(s, ops)
    ensures DirInv(Run(s, ops))
    decreases |ops|
  {
    if ops != [] {
      KeepsDirInvIff(s, ops[0]);
      RunKeepsIndex(After(s, ops[0]), ops[1..]);
    }
  }

  // ---------------------------------------------------------------- listings

  /** With the index kept, listing a non-root directory shows exactly its subdirectories. */
  lemma ListingIsComplete(s: Namespace, d: Path, q: Path)
    requires DirInv(s) && d in s.dirs && d != ROOT
    ensures q in ListedDirs(s.dirs, s.dirs[d]) <==> q in s.dirs && q != ROOT && Parent(q) == d
  {
    if q in s.dirs { assert Rooted(s, q); }
    if q in s.dirs[d] { assert ListIsDirect(d, s.dirs[d]) && DirectChild(d, q); }
  }

  /** With exact lists, it shows each of them once. */
  lemma {:induction false} ListingIsDistinct(dirs: map<Path, seq<Path>>, children: seq<Path>)
    requires Distinct(children)
    ensures Distinct(ListedDirs(dirs, children))
  {
    if children != [] {
      ListingIsDistinct(dirs, children[1..]);
      assert children[0] !in children[1..];
    }
  }

  lemma Associated(a: seq<Path>, b: seq<Path>, c: seq<Path>)
    ensures a + (b + c) == (a + b) + c
  {
  }

  /** It shows them in the list's order. */
  lemma {:induction false} ListingIsInOrder(dirs: map<Path, seq<Path>>, before: seq<Path>, after: seq<Path>)
    ensures ListedDirs(dirs, before + after) == ListedDirs(dirs, before) + ListedDirs(dirs, after)
  {
    if before == [] {
      assert before + after == after;
    } else {
      ListingIsInOrder(dirs, before[1..], after);
      var head := if before[0] in dirs then [before[0]] else [];
      assert (before + after)[1..] == before[1..] + after && (before + after)[0] == before[0];
      Associated(head, ListedDirs(dirs, before[1..]), ListedDirs(dirs, after));
    }
  }

  /** The root's list gains an entry only when a file is created there. */
  lemma RootGainsCreated(s: Namespace, op: Op)
    requires ChildrenAreDirect(s) && ROOT in s.dirs
    ensures var t := After(s, op); ROOT in t.dirs && forall c <- t.dirs[ROOT] :: c in s.dirs[ROOT] || op == Create(c)
  {
    match op
    case Move(from, to) => if from != ROOT && from in s.dirs { RootKeptByMove(s, from, to); }
    case _ =>
  }

  lemma RootKeptByMove(s: Namespace, from: Path, to: Path)
    requires ChildrenAreDirect(s) && ROOT in s.dirs && from != ROOT && from in s.dirs
    ensures var t := MoveDirectory(s, from, to).0; ROOT in t.dirs && forall c <- t.dirs[ROOT] :: c in s.dirs[ROOT]
  {
    if MoveDirectory(s, from, to).1.Done? {
      RootRelinked(s, from, to);
      if to < from {
        RootKeptByLoop(Relinked(s, from, to), from, to);
      } else {
        RootKeptByTree(Relinked(s, from, to), from, to);
      }
    } else {
      RootUnlinked(s, from);
    }
  }

  lemma RootUnlinked(s: Namespace, from: Path)
    requires ROOT in s.dirs
    ensures var dirs := Unlink(s.dirs, from); ROOT in dirs && forall c <- dirs[ROOT] :: c in s.dirs[ROOT]
  {
  }

  lemma RootRelinked(s: Namespace, from: Path, to: Path)
    requires ChildrenAreDirect(s) && ParentReady(s.dirs, to) && ROOT in s.dirs
    ensures forall c <- Relinked(s, from, to).dirs[ROOT] :: c in s.dirs[ROOT]
  {
    RootUnlinked(s, from);
  }

  lemma RootKeptByTree(s: Namespace, from: Path, to: Path)
    requires ChildrenAreDirect(s) && ROOT in s.dirs && from != ROOT && to != ROOT
    ensures ROOT in RenameTree(s, from, to).dirs && RenameTree(s, from, to).dirs[ROOT] == s.dirs[ROOT]
  {
  }

  lemma RootKeptByLoop(s: Namespace, from: Path, to: Path)
    requires ROOT in s.dirs && from in s.dirs && from != ROOT && to != ROOT && !(from <= to)
    ensures ROOT in MovedUp(s, from, to).dirs && MovedUp(s, from, to).dirs[ROOT] == s.dirs[ROOT]
  {
    assert Rebase(from, from, to) == to;
  }

  lemma {:induction false} RootListIsCreated(s: Namespace, ops: seq<Op>, c: Path)
    requires ChildrenAreDirect(s) && ROOT in s.dirs
    ensures ROOT in Run(s, ops).dirs && (c in Run(s, ops).dirs[ROOT] ==> c in s.dirs[ROOT] || Create(c) in ops)
    decreases |ops|
  {
    if ops != [] {
      StepKeepsDirect(s, ops[0]);
      RootGainsCreated(s, ops[0]);
      RootListIsCreated(After(s, ops[0]), ops[1..], c);
    }
  }

  /** After any run, listing the root shows a directory only if a file was once created at its path. */
  lemma RootListingShowsCreated(ops: seq<Op>, d: Path)
    ensures ROOT in Run(INIT, ops).dirs
    ensures d in ListedDirs(Run(INIT, ops).dirs, Run(INIT, ops).dirs[ROOT]) ==> Create(d) in ops
  {
    RootListIsCreated(INIT, ops, d);
  }

  /** Listing the root shows no directory at all, whatever top-level directories there are. */
  lemma RootListingOmitsDirectories(s: Namespace)
    requires Exact(s)
    ensures ListedDirs(s.dirs, s.dirs[ROOT]) == []
  {
    assert ListExists(s, ROOT);
    forall c <- s.dirs[ROOT] ensures c !in s.dirs { assert ListingExists(s, ROOT, c); }
    ListedNone(s.dirs, s.dirs[ROOT]);
  }

  lemma {:induction false} ListedNone(dirs: map<Path, seq<Path>>, children: seq<Path>)
    requires forall c <- children :: c !in dirs
    ensures ListedDirs(dirs, children) == []
  {
    if children != [] { ListedNone(dirs, children[1..]); }
  }

  // ---------------------------------------------------------------- losses

  /** After a refused move, the source can be orphaned by deleting its parent as an empty directory. */
  lemma RefusedMoveAllowsOrphan(s: Namespace, from: Path, to: Path)
    requires Exact(s) && RefusedAfterUnlink(s, from, to)
    requires s.dirs[Parent(from)] == [from]
    ensures var t := MoveDirectory(s, from, to).0;
            var (w, outcome) := DeleteDirectory(t, Parent(from), false);
            outcome.Done? && from in w.dirs && Parent(from) !in w.dirs
  {
    var p := Parent(from);
    var t := MoveDirectory(s, from, to).0;
    assert [from][1..] == [];
    assert Without([from], from) == [] && t.dirs[p] == [];
    forall f <- s.files ensures f == ROOT || Parent(f) != p {
      assert Listed(s, f);
    }
    assert FilesIn(t, p) == {};
  }

  /** A file moved away stays listed, so creating a directory at its old path lists that path twice. */
  lemma MovedFileIsListedTwice(s: Namespace, from: Path, to: Path)
    requires Exact(s) && MovesFile(s, from, to) && Parent(from) != ROOT
    ensures var t := MoveFile(s, from, to).0;
            var (w, outcome) := CreateDirectory(t, from);
            && outcome.Done?
            && Parent(from) in w.dirs
            && !Distinct(ListedDirs(w.dirs, w.dirs[Parent(from)]))
  {
    assert Listed(s, from);
    var t := MoveFile(s, from, to).0;
    var w := CreateDirectory(t, from).0;
    var kids := s.dirs[Parent(from)];
    assert w.dirs[Parent(from)] == kids + [from];
    ListedAppend(w.dirs, kids, from);
    var shown := ListedDirs(w.dirs, kids);
    var i :| 0 <= i < |shown| && shown[i] == from;
    assert (shown + [from])[i] == (shown + [from])[|shown|];
  }

  lemma {:induction false} ListedAppend(dirs: map<Path, seq<Path>>, children: seq<Path>, c: Path)
    requires c in dirs
    ensures ListedDirs(dirs, children + [c]) == ListedDirs(dirs, children) + [c]
  {
    if children != [] {
      ListedAppend(dirs, children[1..], c);
      assert (children + [c])[1..] == children[1..] + [c];
    }
  }
}
