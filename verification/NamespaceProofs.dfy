/** What every namespace operation keeps, and exactly when it does not. */
module NamespaceProofs {
  import opened Paths
  import opened Sequences
  import opened NamespaceSpec
  import opened Subtrees

  /** `MoveEntry` on a directory succeeds. */
  ghost predicate Moves(s: Namespace, from: Path, to: Path)
    requires ChildrenAreDirect(s)
  {
    from != ROOT && from in s.dirs && MoveDirectory(s, from, to).1.Done?
  }

  /** What is known of a move that succeeds. */
  lemma MovesReady(s: Namespace, from: Path, to: Path)
    requires ChildrenAreDirect(s) && Moves(s, from, to)
    ensures ParentReady(s.dirs, to) && to !in s.dirs && !(from <= to) && from in s.dirs && from != ROOT
    ensures var u := Relinked(s, from, to);
            MoveDirectory(s, from, to).0 == if to < from then MovedUp(u, from, to) else RenameTree(u, from, to)
  {
    assert from <= to && !(from < to) ==> from == to;
  }

  /** Deleting a file that shares its path with a directory listed only once. */
  predicate DeletesListingOfDirectory(s: Namespace, f: Path)
    requires DirInv(s)
  {
    && f in s.files && f in s.dirs && f != ROOT && Parent(f) != ROOT
    && multiset(s.dirs[Parent(f)])[f] == 1
  }

  lemma DirectChildrenOfDelete(s: Namespace, f: Path)
    requires ChildrenAreDirect(s)
    ensures ChildrenAreDirect(DeleteFile(s, f).0)
  {
  }

  lemma DirectChildrenOfMove(s: Namespace, from: Path, to: Path)
    requires ChildrenAreDirect(s) && from != ROOT && from in s.dirs
    ensures ChildrenAreDirect(MoveDirectory(s, from, to).0)
  {
    var (t, outcome) := MoveDirectory(s, from, to);
    if outcome.Done? {
      var u := Relinked(s, from, to);
      if to < from {
        DirectChildrenOfLoop(u, from, to);
      } else {
        DirectChildrenOfRename(u, from, to);
      }
    }
  }

  /** The lists in the middle of the renaming loop: those below the bases direct, and the one at the new
      base renamed up to entry `i`. */
  ghost predicate DirectSoFar(dirs: map<Path, seq<Path>>, base: Path, newBase: Path, i: nat)
    requires newBase in dirs
  {
    && (forall q <- dirs | base < q || newBase < q :: ListIsDirect(q, dirs[q]))
    && (forall j | 0 <= j < |dirs[newBase]| :: DirectChild(if j < i then newBase else base, dirs[newBase][j]))
  }

  /** What they are once it is done. */
  ghost predicate RenamedDirectly(dirs: map<Path, seq<Path>>, base: Path, newBase: Path) {
    newBase in dirs && DirectSoFar(dirs, base, newBase, |dirs[newBase]|)
  }

  lemma {:induction false} LoopKeepsDirect(s: Namespace, from: Path, to: Path, base: Path, i: nat, limit: nat,
                                           whole: Namespace)
    requires OnCourse(s, from, to, base, i, limit, whole) && DirectSoFar(s.dirs, base, Rebase(base, from, to), i)
    ensures RenamedDirectly(whole.dirs, base, Rebase(base, from, to))
    decreases limit - |base|, 2, |s.dirs[Rebase(base, from, to)]| - i, 1
  {
    if i == |s.dirs[Rebase(base, from, to)]| {
      CourseEnds(s, from, to, base, i, limit, whole);
    } else {
      EntryKeepsCourse(s, from, to, base, i, limit, whole);
    }
  }

  lemma EntryKeepsCourse(s: Namespace, from: Path, to: Path, base: Path, i: nat, limit: nat, whole: Namespace)
    requires OnCourse(s, from, to, base, i, limit, whole) && DirectSoFar(s.dirs, base, Rebase(base, from, to), i)
    requires i < |s.dirs[Rebase(base, from, to)]|
    ensures RenamedDirectly(whole.dirs, base, Rebase(base, from, to))
    decreases limit - |base|, 2, |s.dirs[Rebase(base, from, to)]| - i, 0
  {
    EntryKeepsDirect(s, from, to, base, i, limit);
    CourseNext(s, from, to, base, i, limit, whole);
    LoopKeepsDirect(EntryRenamed(s, from, to, base, i, limit), from, to, base, i + 1, limit, whole);
  }

  lemma EntryKeepsDirect(s: Namespace, from: Path, to: Path, base: Path, i: nat, limit: nat)
    requires LoopReady(s.dirs, from, to, base, i, limit) && DirectSoFar(s.dirs, base, Rebase(base, from, to), i)
    requires i < |s.dirs[Rebase(base, from, to)]|
    ensures DirectSoFar(EntryRenamed(s, from, to, base, i, limit).dirs, base, Rebase(base, from, to), i + 1)
    decreases limit - |base|, 1
  {
    var newBase := Rebase(base, from, to);
    var c := s.dirs[newBase][i];
    assert DirectChild(base, c);
    EntryTarget(from, to, base, c);
    ParentOfRebase(c, from, to);
    if c in s.dirs {
      ChildKeepsDirect(s, from, to, base, i, limit, c);
    } else {
      EntryWithoutChild(s, from, to, base, i, limit, c);
      ListStaysDirect(s, base, newBase, i, Rebase(c, from, to));
    }
  }

  lemma ListStaysDirect(s: Namespace, base: Path, newBase: Path, i: nat, target: Path)
    requires newBase in s.dirs && DirectSoFar(s.dirs, base, newBase, i) && i < |s.dirs[newBase]|
    requires DirectChild(newBase, target) && !(base < newBase)
    ensures DirectSoFar(ListRenamed(s, newBase, i, target).dirs, base, newBase, i + 1)
  {
    assert ListRenamed(s, newBase, i, target).dirs[newBase] == s.dirs[newBase][i := target];
  }

  lemma ChildKeepsDirect(s: Namespace, from: Path, to: Path, base: Path, i: nat, limit: nat, c: Path)
    requires LoopReady(s.dirs, from, to, base, i, limit) && DirectSoFar(s.dirs, base, Rebase(base, from, to), i)
    requires i < |s.dirs[Rebase(base, from, to)]| && c == s.dirs[Rebase(base, from, to)][i]
    requires base < c && c in s.dirs && DirectChild(Rebase(base, from, to), Rebase(c, from, to))
    ensures DirectSoFar(EntryRenamed(s, from, to, base, i, limit).dirs, base, Rebase(base, from, to), i + 1)
    decreases limit - |base|, 0
  {
    var newBase, target := Rebase(base, from, to), Rebase(c, from, to);
    var v := ChildRekeyed(s, newBase, i, c, target);
    EntryTarget(from, to, base, c);
    EntryStarts(s.dirs, from, to, base, i, limit, c);
    ChildStartsDirect(s, base, newBase, i, c, target);
    var r := RenameFrom(v, from, to, c, 0, limit);
    LoopKeepsDirect(v, from, to, c, 0, limit, r);
    ChildEndsDirect(s, base, newBase, i, c, target, r.dirs);
    EntryWithChild(s, from, to, base, i, limit, c);
  }

  /** The lists after an entry with a directory at its path. */
  lemma EntryWithChild(s: Namespace, from: Path, to: Path, base: Path, i: nat, limit: nat, c: Path)
    requires LoopReady(s.dirs, from, to, base, i, limit) && i < |s.dirs[Rebase(base, from, to)]|
    requires c == s.dirs[Rebase(base, from, to)][i] && base < c && c in s.dirs
    requires LoopReady(ChildRekeyed(s, Rebase(base, from, to), i, c, Rebase(c, from, to)).dirs, from, to, c, 0, limit)
    ensures EntryRenamed(s, from, to, base, i, limit).dirs
         == RenameFrom(ChildRekeyed(s, Rebase(base, from, to), i, c, Rebase(c, from, to)), from, to, c, 0, limit).dirs
  {
  }

  /** And after one without. */
  lemma EntryWithoutChild(s: Namespace, from: Path, to: Path, base: Path, i: nat, limit: nat, c: Path)
    requires LoopReady(s.dirs, from, to, base, i, limit) && i < |s.dirs[Rebase(base, from, to)]|
    requires c == s.dirs[Rebase(base, from, to)][i] && base < c && c !in s.dirs
    ensures EntryRenamed(s, from, to, base, i, limit).dirs
         == ListRenamed(s, Rebase(base, from, to), i, Rebase(c, from, to)).dirs
  {
    EntryTarget(from, to, base, c);
  }

  lemma ChildStartsDirect(s: Namespace, base: Path, newBase: Path, i: nat, c: Path, target: Path)
    requires newBase in s.dirs && DirectSoFar(s.dirs, base, newBase, i) && i < |s.dirs[newBase]|
    requires c in s.dirs && base < c && newBase < target && !(c <= newBase) && !(c <= target)
    ensures DirectSoFar(ChildRekeyed(s, newBase, i, c, target).dirs, c, target, 0)
  {
    var v := ChildRekeyed(s, newBase, i, c, target);
    assert ListIsDirect(c, s.dirs[c]);
    forall q <- v.dirs | c < q || target < q ensures ListIsDirect(q, v.dirs[q]) {
      assert q in s.dirs && v.dirs[q] == s.dirs[q];
    }
    forall j | 0 <= j < |v.dirs[target]| ensures DirectChild(c, v.dirs[target][j]) {
      assert v.dirs[target] == s.dirs[c] && s.dirs[c][j] in s.dirs[c];
    }
  }

  lemma ChildEndsDirect(s: Namespace, base: Path, newBase: Path, i: nat, c: Path, target: Path,
                        r: map<Path, seq<Path>>)
    requires newBase in s.dirs && DirectSoFar(s.dirs, base, newBase, i) && i < |s.dirs[newBase]|
    requires c in s.dirs && base < c && newBase < target && !(c <= newBase) && !(c <= target)
    requires DirectChild(newBase, target)
    requires SameElsewhere(ChildRekeyed(s, newBase, i, c, target).dirs, r, c, target)
    requires target in r && DirectSoFar(r, c, target, |r[target]|)
    ensures newBase in r && DirectSoFar(r, base, newBase, i + 1)
  {
    var v := ChildRekeyed(s, newBase, i, c, target);
    forall q <- r | base < q || newBase < q ensures ListIsDirect(q, r[q]) {
      if q != target && !(c < q) && !(target < q) {
        assert q in v.dirs && r[q] == v.dirs[q];
        assert q == newBase || (q in s.dirs && v.dirs[q] == s.dirs[q]);
      }
    }
    assert r[newBase] == v.dirs[newBase] == s.dirs[newBase][i := target];
  }

  lemma DirectChildrenOfLoop(s: Namespace, from: Path, to: Path)
    requires ChildrenAreDirect(s) && from in s.dirs && to < from
    ensures ChildrenAreDirect(MovedUp(s, from, to))
  {
    var v, limit := s.(dirs := Rekeyed(s.dirs, from, to)), Longest(s.dirs.Keys);
    assert Rebase(from, from, to) == to;
    forall j | 0 <= j < |s.dirs[from]| ensures DirectChild(from, s.dirs[from][j]) {
      assert ListIsDirect(from, s.dirs[from]) && s.dirs[from][j] in s.dirs[from];
    }
    var r := RenameFrom(v, from, to, from, 0, limit);
    LoopKeepsDirect(v, from, to, from, 0, limit, r);
    forall q <- r.dirs ensures ListIsDirect(q, r.dirs[q]) {
      if q != to && !(from < q) && !(to < q) { assert q in v.dirs && r.dirs[q] == v.dirs[q]; }
    }
  }

  /** A renamed list names direct children of the renamed path. */
  lemma RebasedListIsDirect(q: Path, children: seq<Path>, from: Path, to: Path)
    requires from <= q && ListIsDirect(q, children)
    ensures ListIsDirect(Rebase(q, from, to), RebasedList(q, children, from, to))
  {
    var list := RebasedList(q, children, from, to);
    forall c <- list ensures DirectChild(Rebase(q, from, to), c) {
      var i :| 0 <= i < |list| && list[i] == c;
      assert DirectChild(q, children[i]);
      ParentOfRebase(children[i], from, to);
    }
  }

  lemma DirectChildrenOfRename(s: Namespace, from: Path, to: Path)
    requires ChildrenAreDirect(s)
    ensures ChildrenAreDirect(RenameTree(s, from, to))
  {
    var t := RenameTree(s, from, to);
    forall d <- t.dirs ensures ListIsDirect(d, t.dirs[d]) {
      if to <= d && Rebase(d, to, from) in ReachedDirs(s.dirs, from) {
        var q := Rebase(d, to, from);
        RebaseBack(d, to, from);
        RebasedListIsDirect(q, s.dirs[q], from, to);
      }
    }
  }

  /** The lists name direct children in every state a run can reach. */
  lemma StepKeepsDirect(s: Namespace, op: Op)
    requires ChildrenAreDirect(s)
    ensures ChildrenAreDirect(Step(s, op).0)
  {
    match op
    case Mkdir(p) =>
    case Create(f) =>
    case Delete(f) => DirectChildrenOfDelete(s, f);
    case Rmdir(p, recursive) => DirectChildrenOfRmdir(s, p, recursive);
    case Move(from, to) => if from != ROOT && from in s.dirs { DirectChildrenOfMove(s, from, to); }
  }

  lemma DirectChildrenOfRmdir(s: Namespace, p: Path, recursive: bool)
    requires ChildrenAreDirect(s)
    ensures ChildrenAreDirect(DeleteDirectory(s, p, recursive).0)
  {
  }

  // ---------------------------------------------------------------- the directory index

  /** With the index, everything below a directory is reached from it. */
  lemma {:induction false} ReachedIsBelow(s: Namespace, p: Path, q: Path)
    requires DirInv(s) && p != ROOT
    ensures Reached(s.dirs, p, q) <==> q in s.dirs && p <= q
    decreases |q|
  {
    if q in s.dirs && p < q {
      assert Rooted(s, q) && p <= Parent(q);
      ReachedIsBelow(s, p, Parent(q));
    }
    assert p <= q && |p| == |q| ==> p == q;
  }

  lemma ListedUnderIff(s: Namespace, from: Path, f: Path)
    requires DirInv(s) && from != ROOT
    ensures f in ListedUnder(s, from) <==> f in s.files && from < f && Listed(s, f)
  {
    if f != ROOT { ReachedIsBelow(s, from, Parent(f)); }
  }

  lemma MkdirKeeps(s: Namespace, p: Path)
    requires DirInv(s)
    ensures DirInv(CreateDirectory(s, p).0)
  {
    DirectChildrenOfMkdir(s, p);
    var t := CreateDirectory(s, p).0;
    forall d <- t.dirs ensures Rooted(t, d) { assert d in s.dirs ==> Rooted(s, d); }
  }

  lemma DirectChildrenOfMkdir(s: Namespace, p: Path)
    requires ChildrenAreDirect(s)
    ensures ChildrenAreDirect(CreateDirectory(s, p).0)
  {
  }

  lemma CreateKeeps(s: Namespace, f: Path)
    requires DirInv(s)
    ensures DirInv(CreateFile(s, f).0)
  {
    var t := CreateFile(s, f).0;
    forall d <- t.dirs ensures Rooted(t, d) { assert Rooted(s, d); }
  }

  lemma DeleteKeeps(s: Namespace, f: Path)
    requires DirInv(s) && !DeletesListingOfDirectory(s, f)
    ensures DirInv(DeleteFile(s, f).0)
  {
    DirectChildrenOfDelete(s, f);
    var t := DeleteFile(s, f).0;
    forall d <- t.dirs ensures Rooted(t, d) {
      assert Rooted(s, d);
      if f in s.files && d != ROOT && f != ROOT && Parent(d) == Parent(f) && Parent(f) != ROOT {
        WithoutFirstCount(s.dirs[Parent(d)], f);
        assert d in multiset(s.dirs[Parent(d)]);
        assert d in multiset(WithoutFirst(s.dirs[Parent(d)], f));
      }
    }
  }

  lemma RmdirKeepsRooted(s: Namespace, p: Path, recursive: bool, d: Path)
    requires DirInv(s) && d in DeleteDirectory(s, p, recursive).0.dirs
    ensures Rooted(DeleteDirectory(s, p, recursive).0, d)
  {
    assert Rooted(s, d);
    if p != ROOT {
      ReachedIsBelow(s, p, d);
      if d != ROOT { ReachedIsBelow(s, p, Parent(d)); }
    }
  }

  lemma RmdirKeeps(s: Namespace, p: Path, recursive: bool)
    requires DirInv(s)
    ensures DirInv(DeleteDirectory(s, p, recursive).0)
  {
    var t := DeleteDirectory(s, p, recursive).0;
    forall d <- t.dirs ensures Rooted(t, d) { RmdirKeepsRooted(s, p, recursive, d); }
  }

  /** A directory's ancestors are directories. */
  lemma {:induction false} AncestorExists(s: Namespace, p: Path, q: Path)
    requires DirInv(s) && q in s.dirs && p <= q
    ensures p in s.dirs
    decreases |q|
  {
    if p < q {
      assert Rooted(s, q) && p <= Parent(q);
      AncestorExists(s, p, Parent(q));
    } else {
      assert p == q;
    }
  }

  /** Nothing is at or below a path that is not a directory. */
  lemma Vacant(s: Namespace, p: Path)
    requires DirInv(s) && p !in s.dirs
    ensures forall q <- s.dirs :: !(p <= q)
  {
    forall q <- s.dirs ensures !(p <= q) {
      if p <= q { AncestorExists(s, p, q); }
    }
  }

  /** With the index, no directory moves onto the path of a missing ancestor: a move renames what is reached. */
  lemma MoveIsTree(s: Namespace, from: Path, to: Path)
    requires DirInv(s) && Moves(s, from, to)
    ensures !MovesUp(s, from, to)
    ensures MoveDirectory(s, from, to) == (RenameTree(Relinked(s, from, to), from, to), Done)
  {
    if to < from { AncestorExists(s, to, from); }
  }

  predicate WhollyReached(dirs: map<Path, seq<Path>>, p: Path) {
    forall q <- dirs | p <= q :: Reached(dirs, p, q)
  }

  /** Relinking does not change what is reached from the moved directory. */
  lemma RelinkedReached(s: Namespace, from: Path, to: Path)
    requires DirInv(s) && Moves(s, from, to)
    ensures WhollyReached(Relinked(s, from, to).dirs, from)
    ensures forall q :: Reached(Relinked(s, from, to).dirs, from, q) <==> Reached(s.dirs, from, q)
  {
    var u := Relinked(s, from, to);
    forall q <- s.dirs | from <= q ensures u.dirs[q] == s.dirs[q] { RelinkedLists(s, from, to, q); }
    forall q ensures Reached(u.dirs, from, q) <==> Reached(s.dirs, from, q) {
      ReachedSameBelow(s.dirs, u.dirs, from, q);
    }
    forall q <- s.dirs | from <= q ensures Reached(s.dirs, from, q) { ReachedIsBelow(s, from, q); }
  }

  /** Which directories a renamed tree holds. */
  lemma RenamedKeys(s: Namespace, from: Path, to: Path, d: Path)
    requires ChildrenAreDirect(s) && WhollyReached(s.dirs, from)
    requires forall q <- s.dirs :: !(to <= q)
    ensures d in RenameTree(s, from, to).dirs <==>
              if to <= d then Rebase(d, to, from) in s.dirs else d in s.dirs && !(from <= d)
    ensures d in RenameTree(s, from, to).dirs ==>
              RenameTree(s, from, to).dirs[d] ==
                if to <= d then
                  assert forall c <- s.dirs[Rebase(d, to, from)] :: DirectChild(Rebase(d, to, from), c);
                  RebaseAll(s.dirs[Rebase(d, to, from)], from, to)
                else s.dirs[d]
  {
    if to <= d { RebaseBack(d, to, from); }
  }

  /** Relinking leaves every list below `from` alone, and any other list keeps all but `from`. */
  lemma RelinkedLists(s: Namespace, from: Path, to: Path, d: Path)
    requires DirInv(s) && from in s.dirs && from != ROOT && d in s.dirs
    requires ParentReady(s.dirs, to) && !(from < to)
    ensures from <= d && from != to ==> Relinked(s, from, to).dirs[d] == s.dirs[d]
    ensures forall c <- s.dirs[d] | c != from :: c in Relinked(s, from, to).dirs[d]
    ensures to != ROOT && Parent(to) == d != ROOT ==> to in Relinked(s, from, to).dirs[d]
  {
  }

  function Renamed(p: Path, from: Path, to: Path): Path {
    if from <= p then Rebase(p, from, to) else p
  }

  /** Renaming is undone by the opposite renaming wherever nothing lies at or below `to`. */
  lemma RenamedBack(p: Path, from: Path, to: Path)
    requires !(to <= p)
    ensures Renamed(Renamed(p, from, to), to, from) == p
  {
    if from <= p { RebaseBack(p, from, to); }
  }

  /** A directory move re-keys every directory by its new prefix: none is lost, none appears. */
  lemma MoveRenamesDirs(s: Namespace, from: Path, to: Path, q: Path)
    requires DirInv(s) && Moves(s, from, to)
    ensures var t := MoveDirectory(s, from, to).0;
      && (q in s.dirs ==> Renamed(q, from, to) in t.dirs && Renamed(Renamed(q, from, to), to, from) == q)
      && (q in t.dirs ==> Renamed(q, to, from) in s.dirs && Renamed(Renamed(q, to, from), from, to) == q)
  {
    MoveIsTree(s, from, to);
    var u := Relinked(s, from, to);
    Vacant(s, to);
    RelinkedReached(s, from, to);
    RenamedKeys(u, from, to, q);
    RenamedKeys(u, from, to, Renamed(q, from, to));
    if q in s.dirs {
      RenamedBack(q, from, to);
    }
    if q in RenameTree(u, from, to).dirs && to <= q {
      RebaseBack(q, to, from);
    }
  }

  /** Its `Children` lists follow: below `from`, each list is renamed entry by entry. */
  lemma MoveRenamesListsBelow(s: Namespace, from: Path, to: Path, q: Path)
    requires DirInv(s) && Moves(s, from, to) && q in s.dirs && from <= q
    ensures forall c <- s.dirs[q] :: from <= c
    ensures Rebase(q, from, to) in MoveDirectory(s, from, to).0.dirs
    ensures MoveDirectory(s, from, to).0.dirs[Rebase(q, from, to)] == RebaseAll(s.dirs[q], from, to)
  {
    MoveIsTree(s, from, to);
    Vacant(s, to);
    RelinkedLists(s, from, to, q);
    RelinkedReached(s, from, to);
    RenamedListBelow(Relinked(s, from, to), from, to, q);
  }

  lemma RenamedListBelow(u: Namespace, from: Path, to: Path, q: Path)
    requires ChildrenAreDirect(u) && WhollyReached(u.dirs, from) && q in u.dirs && from <= q
    requires forall d <- u.dirs :: !(to <= d)
    ensures forall c <- u.dirs[q] :: from <= c
    ensures Rebase(q, from, to) in RenameTree(u, from, to).dirs
    ensures RenameTree(u, from, to).dirs[Rebase(q, from, to)] == RebaseAll(u.dirs[q], from, to)
  {
    forall c <- u.dirs[q] ensures from <= c { assert DirectChild(q, c); }
    RebaseBack(q, from, to);
    RenamedKeys(u, from, to, Rebase(q, from, to));
  }

  /** Elsewhere the source leaves its parent's list and the target joins its non-root parent's. */
  lemma MoveRelinksElsewhere(s: Namespace, from: Path, to: Path, q: Path)
    requires DirInv(s) && Moves(s, from, to) && q in s.dirs && !(from <= q)
    ensures q in MoveDirectory(s, from, to).0.dirs
    ensures MoveDirectory(s, from, to).0.dirs[q] ==
              Without(s.dirs[q], from) + if to != ROOT && q == Parent(to) != ROOT then [to] else []
  {
    MoveIsTree(s, from, to);
    Vacant(s, to);
    RelinkedReached(s, from, to);
    RenamedKeys(Relinked(s, from, to), from, to, q);
    RelinkedElsewhere(s, from, to, q);
  }

  lemma RelinkedElsewhere(s: Namespace, from: Path, to: Path, q: Path)
    requires ChildrenAreDirect(s) && ParentReady(s.dirs, to) && from != ROOT && q in s.dirs
    ensures Relinked(s, from, to).dirs[q] ==
              Without(s.dirs[q], from) + if to != ROOT && q == Parent(to) != ROOT then [to] else []
  {
    if q != Parent(from) {
      assert !DirectChild(q, from);
      assert from !in s.dirs[q];
    }
  }

  lemma RenamedBelowIsRooted(s: Namespace, from: Path, to: Path, q: Path)
    requires DirInv(s) && Moves(s, from, to) && q in s.dirs && from < q
    ensures Rooted(MoveDirectory(s, from, to).0, Rebase(q, from, to))
  {
    assert Rooted(s, q);
    ParentOfRebase(q, from, to);
    MoveRenamesListsBelow(s, from, to, Parent(q));
    var i :| 0 <= i < |s.dirs[Parent(q)]| && s.dirs[Parent(q)][i] == q;
    assert MoveDirectory(s, from, to).0.dirs[Parent(Rebase(q, from, to))][i] == Rebase(q, from, to);
  }

  lemma RenamedElsewhereIsRooted(s: Namespace, from: Path, to: Path, d: Path)
    requires DirInv(s) && Moves(s, from, to)
    requires d == to || (d in s.dirs && !(from <= d))
    ensures Rooted(MoveDirectory(s, from, to).0, d)
  {
    if d != ROOT {
      assert d != to ==> Rooted(s, d);
      assert from <= Parent(d) ==> from <= d;
      MoveRelinksElsewhere(s, from, to, Parent(d));
    }
  }

  lemma MoveKeeps(s: Namespace, from: Path, to: Path)
    requires DirInv(s) && Moves(s, from, to)
    ensures DirInv(MoveDirectory(s, from, to).0)
  {
    DirectChildrenOfMove(s, from, to);
    Vacant(s, to);
    MoveRelinksElsewhere(s, from, to, ROOT);
    forall d <- MoveDirectory(s, from, to).0.dirs ensures Rooted(MoveDirectory(s, from, to).0, d) {
      MoveRenamesDirs(s, from, to, d);
      if to <= d && d != to {
        RenamedBelowIsRooted(s, from, to, Rebase(d, to, from));
      } else {
        RenamedElsewhereIsRooted(s, from, to, d);
      }
    }
  }

  // ---------------------------------------------------------------- exactness

  lemma {:induction false} WithoutKeepsDistinct(ps: seq<Path>, p: Path)
    requires Distinct(ps)
    ensures Distinct(Without(ps, p))
    ensures WithoutFirst(ps, p) == Without(ps, p)
  {
    if ps != [] {
      WithoutKeepsDistinct(ps[1..], p);
      assert ps[0] !in ps[1..];
    }
  }

  lemma RebaseKeepsDistinct(ps: seq<Path>, from: Path, to: Path)
    requires Distinct(ps) && forall p <- ps :: from <= p
    ensures Distinct(RebaseAll(ps, from, to))
  {
    var r := RebaseAll(ps, from, to);
    forall i, j | 0 <= i < j < |r| ensures r[i] != r[j] {
      assert ps[i] in ps && ps[j] in ps;
      RebaseBack(ps[i], from, to);
      RebaseBack(ps[j], from, to);
    }
  }

  lemma MkdirKeepsExact(s: Namespace, p: Path)
    requires Exact(s) && p !in s.files
    ensures Exact(CreateDirectory(s, p).0)
  {
    MkdirKeeps(s, p);
    var (t, outcome) := CreateDirectory(s, p);
    if outcome.Done? {
      assert FilesListed(t) by {
        forall f <- t.files ensures Listed(t, f) { assert Listed(s, f); }
      }
      assert ListsExist(t) by {
        forall d <- t.dirs, c <- t.dirs[d] ensures ListingExists(t, d, c) {
          assert d in s.dirs && c in s.dirs[d] ==> ListingExists(s, d, c);
        }
      }
      assert !ListingExists(s, Parent(p), p);
      assert ListsDistinct(t) by {
        forall d <- t.dirs ensures Distinct(t.dirs[d]) {
          assert d in s.dirs ==> Distinct(s.dirs[d]);
        }
      }
    }
  }

  lemma CreateKeepsExact(s: Namespace, f: Path)
    requires Exact(s) && f !in s.dirs
    ensures Exact(CreateFile(s, f).0)
  {
    CreateKeeps(s, f);
    var (t, outcome) := CreateFile(s, f);
    if outcome.Done? {
      CreateKeepsListings(s, f);
      CreateKeepsDistinct(s, f);
    }
  }

  lemma CreateKeepsListings(s: Namespace, f: Path)
    requires FilesListed(s) && ListsExist(s) && CreateFile(s, f).1.Done? && f != ROOT && Parent(f) in s.dirs
    ensures FilesListed(CreateFile(s, f).0) && ListsExist(CreateFile(s, f).0)
  {
    var t := CreateFile(s, f).0;
    forall g <- t.files ensures Listed(t, g) { assert g in s.files ==> Listed(s, g); }
    forall d <- t.dirs, c <- t.dirs[d] ensures ListingExists(t, d, c) {
      assert c in s.dirs[d] ==> ListingExists(s, d, c);
    }
  }

  lemma CreateKeepsDistinct(s: Namespace, f: Path)
    requires ListsExist(s) && ListsDistinct(s) && CreateFile(s, f).1.Done? && f !in s.dirs
    ensures ListsDistinct(CreateFile(s, f).0)
  {
    var t := CreateFile(s, f).0;
    assert f != ROOT && Parent(f) in s.dirs ==> !ListingExists(s, Parent(f), f);
    forall d <- t.dirs ensures Distinct(t.dirs[d]) { assert Distinct(s.dirs[d]); }
  }

  lemma DeleteKeepsExact(s: Namespace, f: Path)
    requires Exact(s)
    ensures Exact(DeleteFile(s, f).0)
  {
    DeleteKeeps(s, f);
    if f in s.files {
      var t := DeleteFile(s, f).0;
      assert Listed(s, f);
      WithoutKeepsDistinct(s.dirs[Parent(f)], f);
      assert FilesListed(t) by {
        forall g <- t.files ensures Listed(t, g) { assert Listed(s, g); }
      }
      assert ListsExist(t) by {
        forall d <- t.dirs, c <- t.dirs[d] ensures ListingExists(t, d, c) {
          assert ListingExists(s, d, c) && DirectChild(d, c);
        }
      }
      assert ListsDistinct(t) by {
        forall d <- t.dirs ensures Distinct(t.dirs[d]) { assert Distinct(s.dirs[d]); }
      }
    }
  }

  /** The first step from `p` towards a directory below it is itself a listed directory. */
  lemma FirstStepListed(s: Namespace, p: Path, q: Path)
    requires DirInv(s) && p != ROOT && q in s.dirs && p < q
    ensures p in s.dirs && q[..|p| + 1] in s.dirs && q[..|p| + 1] in s.dirs[p]
  {
    AncestorExists(s, q[..|p| + 1], q);
    assert Rooted(s, q[..|p| + 1]) && Parent(q[..|p| + 1]) == p;
  }

  /** A successful delete removes exactly the directories at or below `p`, and every mention of `p`. */
  lemma DeleteRemovesSubtree(s: Namespace, p: Path, recursive: bool)
    requires DirInv(s) && DeleteDirectory(s, p, recursive).1.Done?
    ensures var t := DeleteDirectory(s, p, recursive).0;
      && (forall q :: q in t.dirs <==> q in s.dirs && !(p <= q))
      && (forall q <- t.dirs :: t.dirs[q] == Without(s.dirs[q], p))
  {
    var t := DeleteDirectory(s, p, recursive).0;
    forall q ensures Reached(s.dirs, p, q) <==> q in s.dirs && p <= q { ReachedIsBelow(s, p, q); }
    if !recursive {
      forall q <- s.dirs ensures p <= q <==> p == q {
        if p < q { FirstStepListed(s, p, q); }
      }
    }
    forall q <- t.dirs ensures t.dirs[q] == Without(s.dirs[q], p) {
      if q != Parent(p) {
        assert !DirectChild(q, p);
        assert p !in s.dirs[q];
      }
    }
  }

  /** It removes exactly the files whose parent directory it removed, with their chunk lists. */
  lemma DeleteRemovesFiles(s: Namespace, p: Path, recursive: bool)
    requires DirInv(s) && DeleteDirectory(s, p, recursive).1.Done?
    ensures var t := DeleteDirectory(s, p, recursive).0;
      && t.files == s.files - Doomed(s, p)
      && t.chunks == s.chunks - Doomed(s, p)
  {
    if !recursive {
      forall f <- s.files ensures f !in Doomed(s, p) {
        assert f != ROOT && Parent(f) == p ==> f in FilesIn(s, p);
        if f in Doomed(s, p) && p < Parent(f) { FirstStepListed(s, p, Parent(f)); }
      }
    }
  }

  /** When every file is listed, those are the files below `p`. */
  lemma DoomedIsBelow(s: Namespace, p: Path, f: Path)
    requires DirInv(s) && p != ROOT && FilesListed(s) && f in s.files && p !in s.files
    ensures f in Doomed(s, p) <==> p <= f
  {
    assert Listed(s, f);
    ReachedIsBelow(s, p, Parent(f));
    assert p <= f && |p| == |f| ==> p == f;
  }

  lemma RmdirKeepsExact(s: Namespace, p: Path, recursive: bool)
    requires Exact(s)
    ensures Exact(DeleteDirectory(s, p, recursive).0)
  {
    RmdirKeeps(s, p, recursive);
    var (t, outcome) := DeleteDirectory(s, p, recursive);
    if outcome.Done? {
      DeleteRemovesSubtree(s, p, recursive);
      DeleteRemovesFiles(s, p, recursive);
      forall f <- s.files ensures f in Doomed(s, p) <==> p <= f { DoomedIsBelow(s, p, f); }
      RmdirKeepsLists(s, t, p);
      assert KindsApart(t);
    }
  }

  lemma RmdirKeepsLists(s: Namespace, t: Namespace, p: Path)
    requires Exact(s) && p in s.dirs && p != ROOT
    requires forall q :: q in t.dirs <==> q in s.dirs && !(p <= q)
    requires forall q <- t.dirs :: t.dirs[q] == Without(s.dirs[q], p)
    requires forall f :: f in t.files <==> f in s.files && !(p <= f)
    ensures FilesListed(t) && ListsExist(t) && ListsDistinct(t)
  {
    forall f <- t.files ensures Listed(t, f) { RmdirKeepsListed(s, t, p, f); }
    forall d <- t.dirs, c <- t.dirs[d] ensures ListingExists(t, d, c) { RmdirKeepsListing(s, t, p, d, c); }
    RmdirKeepsDistinct(s, t, p);
  }

  lemma RmdirKeepsListed(s: Namespace, t: Namespace, p: Path, f: Path)
    requires Listed(s, f) && !(p <= f)
    requires forall q :: q in t.dirs <==> q in s.dirs && !(p <= q)
    requires forall q <- t.dirs :: t.dirs[q] == Without(s.dirs[q], p)
    ensures Listed(t, f)
  {
    assert !(p <= Parent(f));
  }

  lemma RmdirKeepsListing(s: Namespace, t: Namespace, p: Path, d: Path, c: Path)
    requires ChildrenAreDirect(s) && ListsExist(s) && d in s.dirs && c in s.dirs[d] && c != p && !(p <= d)
    requires forall q :: q in t.dirs <==> q in s.dirs && !(p <= q)
    requires forall f :: f in t.files <==> f in s.files && !(p <= f)
    ensures ListingExists(t, d, c)
  {
    assert ListingExists(s, d, c) && DirectChild(d, c);
  }

  lemma RmdirKeepsDistinct(s: Namespace, t: Namespace, p: Path)
    requires ListsDistinct(s)
    requires forall q <- t.dirs :: q in s.dirs && t.dirs[q] == Without(s.dirs[q], p)
    ensures ListsDistinct(t)
  {
    forall d <- t.dirs ensures Distinct(t.dirs[d]) {
      assert Distinct(s.dirs[d]);
      WithoutKeepsDistinct(s.dirs[d], p);
    }
  }

  // ---------------------------------------------------------------- moves

  /** Files lie below directories, so nothing lies at or below a free path. */
  lemma FilesVacant(s: Namespace, p: Path)
    requires DirInv(s) && FilesListed(s) && p !in s.dirs && p !in s.files
    ensures forall f <- s.files :: !(p <= f)
  {
    forall f <- s.files ensures !(p <= f) {
      assert Listed(s, f);
      Vacant(s, p);
      assert p <= f && |p| == |f| ==> p == f;
    }
  }

  /** Which files a directory move leaves where: the listed ones below `from` are re-keyed. */
  lemma MovedFileKeys(s: Namespace, from: Path, to: Path)
    requires DirInv(s) && Moves(s, from, to)
    ensures ListedUnder(Relinked(s, from, to), from) == ListedUnder(s, from)
    ensures var t := MoveDirectory(s, from, to).0;
      && t.files == RenameKeys(s.files, ListedUnder(s, from), from, to)
      && t.chunks == RenameKeys(s.chunks, ListedUnder(s, from), from, to)
  {
    MoveIsTree(s, from, to);
    var u := Relinked(s, from, to);
    RelinkedReached(s, from, to);
    forall f <- s.files | f != ROOT && Reached(s.dirs, from, Parent(f)) ensures Listed(u, f) == Listed(s, f) {
      RelinkedLists(s, from, to, Parent(f));
    }
    assert ListedUnder(u, from) == ListedUnder(s, from);
  }

  /** After a directory move a file sits at `r` exactly when a listed file was re-keyed to it or one was
      there and was not re-keyed; the re-keyed one wins. Chunk lists follow the same rule, so a file
      without one takes over a list left at its new path. */
  lemma FilesAfterMove(s: Namespace, from: Path, to: Path, r: Path)
    requires DirInv(s) && Moves(s, from, to)
    ensures var (t, moved) := (MoveDirectory(s, from, to).0, ListedUnder(s, from));
      && (r in t.files <==> Arrives(moved, from, to, r) || (r in s.files && r !in moved))
      && (r in t.files ==>
            t.files[r] == (if Arrives(moved, from, to, r) then s.files[Rebase(r, to, from)] else s.files[r]))
      && (r in t.chunks <==> Arrives(moved * s.chunks.Keys, from, to, r) || (r in s.chunks && r !in moved))
      && (r in t.chunks ==>
            t.chunks[r] == (if Arrives(moved * s.chunks.Keys, from, to, r) then s.chunks[Rebase(r, to, from)]
                            else s.chunks[r]))
  {
    MovedFileKeys(s, from, to);
  }

  /** `r` is where one of the moved paths goes. */
  predicate Arrives(moved: set<Path>, from: Path, to: Path, r: Path) {
    to <= r && Rebase(r, to, from) in moved
  }

  /** Nothing is both at or below the source of a move and at or below its target. */
  lemma MoveIsApart(s: Namespace, from: Path, to: Path, p: Path)
    requires DirInv(s) && Moves(s, from, to) && from <= p
    ensures !(to <= p)
  {
    Vacant(s, to);
    assert from <= to && |from| == |to| ==> from == to;
  }

  /** A file below `from` follows a directory move, entry and chunk list, exactly when it is listed;
      otherwise it stays behind unchanged and loses its parent directory. */
  lemma FileFollowsIff(s: Namespace, from: Path, to: Path, f: Path)
    requires DirInv(s) && Moves(s, from, to) && f in s.files && from < f
    ensures var (t, g) := (MoveDirectory(s, from, to).0, Rebase(f, from, to));
      && (f !in t.files && f !in t.chunks && g in t.files && t.files[g] == s.files[f]
          && (f in s.chunks ==> g in t.chunks && t.chunks[g] == s.chunks[f])
          <==> Listed(s, f))
      && (f in t.files && t.files[f] == s.files[f] && (f in s.chunks ==> f in t.chunks && t.chunks[f] == s.chunks[f])
          && Parent(f) !in t.dirs
          <==> !Listed(s, f))
  {
    var g := Rebase(f, from, to);
    ListedUnderIff(s, from, f);
    RebaseBack(f, from, to);
    FilesAfterMove(s, from, to, f);
    FilesAfterMove(s, from, to, g);
    MoveIsApart(s, from, to, f);
    MoveIsApart(s, from, to, Parent(f));
    Vacant(s, to);
    RelinkedReached(s, from, to);
    RenamedKeys(Relinked(s, from, to), from, to, Parent(f));
  }

  /** Re-keying loses exactly the entries at paths that others are re-keyed to. */
  lemma RenameKeysCount<V>(m: map<Path, V>, moved: set<Path>, from: Path, to: Path)
    requires moved <= m.Keys && (forall q <- moved :: from <= q && !(to <= q)) && !(from <= to)
    ensures |RenameKeys(m, moved, from, to)| == |m| - |Overwritten(m, moved, from, to)|
  {
    var targets, hit := RebasedSet(moved, from, to), Overwritten(m, moved, from, to);
    RebasedCount(moved, from, to);
    assert moved * m.Keys == moved;
    CountRekeyed(m.Keys, moved, targets, hit, RenameKeys(m, moved, from, to).Keys);
  }

  lemma CountRekeyed(keys: set<Path>, moved: set<Path>, targets: set<Path>, hit: set<Path>, renamed: set<Path>)
    requires moved <= keys && |targets| == |moved| && hit == targets * (keys - moved)
    requires forall r :: r in renamed <==> r in keys - moved || r in targets
    ensures |renamed| == |keys| - |hit|
  {
    assert renamed == (keys - moved) + (targets - hit);
    assert |targets - hit| == |targets| - |hit|;
    assert |keys - moved| == |keys| - |moved|;
  }

  /** Paths that hold an entry of their own and are the target of a moved one. */
  function Overwritten<V>(m: map<Path, V>, moved: set<Path>, from: Path, to: Path): set<Path> {
    set r | r in m && r !in moved && Arrives(moved, from, to, r)
  }

  lemma {:induction false} RebasedCount(ps: set<Path>, from: Path, to: Path)
    requires forall q <- ps :: from <= q
    ensures |RebasedSet(ps, from, to)| == |ps|
    decreases |ps|
  {
    if ps == {} {
      assert RebasedSet(ps, from, to) == {};
    } else {
      var p :| p in ps;
      var rest := ps - {p};
      RebasedCount(rest, from, to);
      RebaseBack(p, from, to);
      assert RebasedSet(ps, from, to) == RebasedSet(rest, from, to) + {Rebase(p, from, to)} by {
        forall x | to <= x && Rebase(x, to, from) == p ensures x == Rebase(p, from, to) { RebaseBack(x, to, from); }
      }
    }
  }

  /** A directory move elsewhere than to a missing ancestor's path loses exactly the files that a listed file is
      moved onto, whatever the state. */
  lemma MoveLosesOverwritten(s: Namespace, from: Path, to: Path)
    requires ChildrenAreDirect(s) && Moves(s, from, to) && !(to < from)
    ensures ParentReady(s.dirs, to)
    ensures var (t, moved) := (MoveDirectory(s, from, to).0, ListedUnder(Relinked(s, from, to), from));
            && |t.files| == |s.files| - |Overwritten(s.files, moved, from, to)|
            && (|t.files| == |s.files| <==> forall f <- moved :: Rebase(f, from, to) !in s.files)
  {
    MovesReady(s, from, to);
    var moved := ListedUnder(Relinked(s, from, to), from);
    forall f <- moved ensures from < f && !(to <= f) {
      if to <= f { PrefixesCompare(from, to, f); }
    }
    RenameKeysCount(s.files, moved, from, to);
    NoneOverwritten(s.files, moved, from, to);
    forall f <- moved ensures Rebase(f, from, to) !in moved {
      RebaseBack(f, from, to);
    }
  }

  lemma PrefixesCompare(p: Path, q: Path, r: Path)
    requires p <= r && q <= r
    ensures p <= q || q < p
  {
  }

  lemma NoneOverwritten<V>(m: map<Path, V>, moved: set<Path>, from: Path, to: Path)
    requires forall q <- moved :: from <= q
    ensures |Overwritten(m, moved, from, to)| == 0 <==>
              forall q <- moved :: Rebase(q, from, to) in m ==> Rebase(q, from, to) in moved
  {
    var lost := Overwritten(m, moved, from, to);
    if lost != {} {
      var r :| r in lost;
      RebaseBack(r, to, from);
      assert Rebase(r, to, from) in moved;
    }
    if q :| q in moved && Rebase(q, from, to) in m && Rebase(q, from, to) !in moved {
      RebaseBack(q, from, to);
      assert Rebase(q, from, to) in lost;
    }
  }

  /** In exact states every file follows, and none is lost or appears. */
  lemma MoveRenamesFiles(s: Namespace, from: Path, to: Path, f: Path)
    requires Exact(s) && Moves(s, from, to)
    ensures var t := MoveDirectory(s, from, to).0;
      && (f in s.files ==>
            var g := Renamed(f, from, to);
            g in t.files && Renamed(g, to, from) == f && t.files[g] == s.files[f]
            && (g in t.chunks <==> f in s.chunks)
            && (f in s.chunks ==> t.chunks[g] == s.chunks[f]))
      && (f in t.files ==> Renamed(f, to, from) in s.files && Renamed(Renamed(f, to, from), from, to) == f)
  {
    FilesVacant(s, to);
    FilesAfterMove(s, from, to, f);
    ListedUnderIff(s, from, f);
    if f in s.files {
      assert Listed(s, f);
      assert from <= f && |from| == |f| ==> from == f;
      RenamedBack(f, from, to);
      FilesAfterMove(s, from, to, Renamed(f, from, to));
    }
    if to <= f {
      ListedUnderIff(s, from, Rebase(f, to, from));
      RebaseBack(f, to, from);
    }
  }
}
