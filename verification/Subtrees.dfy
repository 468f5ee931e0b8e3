/** Subtrees handled one listed child at a time: the partial results of the recursive helpers. */
module Subtrees {
  import opened Paths
  import opened NamespaceSpec

  /** The lists at and below `p` name direct children. */
  predicate TreeOk(dirs: map<Path, seq<Path>>, p: Path) {
    forall q <- dirs | p <= q :: ListIsDirect(q, dirs[q])
  }

  /** The two maps agree at and below `p`. */
  predicate SameBelow(dirs: map<Path, seq<Path>>, other: map<Path, seq<Path>>, p: Path) {
    (forall q <- other | p <= q :: q in dirs && other[q] == dirs[q]) && forall q <- dirs | p <= q :: q in other
  }

  lemma {:induction false} ReachedSameBelow(dirs: map<Path, seq<Path>>, other: map<Path, seq<Path>>, p: Path, q: Path)
    requires SameBelow(dirs, other, p)
    ensures Reached(dirs, p, q) <==> Reached(other, p, q)
    decreases |q|
  {
    if p < q {
      assert p <= Parent(q);
      ReachedSameBelow(dirs, other, p, Parent(q));
    }
  }

  /** What is reached from a listed child is what is reached through it. */
  lemma {:induction false} ReachedThrough(dirs: map<Path, seq<Path>>, p: Path, c: Path, q: Path)
    requires DirectChild(p, c) && p in dirs && c in dirs[p] && c <= q
    ensures Reached(dirs, p, q) <==> Reached(dirs, c, q)
    decreases |q|
  {
    if |q| == |c| {
      assert q == c;
    } else {
      assert c <= Parent(q);
      ReachedThrough(dirs, p, c, Parent(q));
    }
  }

  /** The name just below `p` on the way to `q`. */
  function Toward(p: Path, q: Path): Path
    requires p < q
  {
    q[..|p| + 1]
  }

  /** `q` is at or below one of the children of `p` handled so far. */
  predicate Handled(p: Path, done: seq<Path>, q: Path) {
    p < q && Toward(p, q) in done
  }

  lemma HandledMore(p: Path, done: seq<Path>, c: Path, q: Path)
    requires DirectChild(p, c)
    ensures Handled(p, done + [c], q) <==> Handled(p, done, q) || c <= q
  {
    if p < q { assert c <= q <==> Toward(p, q) == c; }
    assert c <= q ==> p < q;
  }

  /** What is reached below `p` is reached through one of its children. */
  lemma {:induction false} TowardExists(dirs: map<Path, seq<Path>>, p: Path, q: Path)
    requires Reached(dirs, p, q) && p < q
    ensures Toward(p, q) in dirs && p in dirs && Toward(p, q) in dirs[p]
    decreases |q|
  {
    if |q| == |p| + 1 {
      assert Toward(p, q) == q && Parent(q) == p;
    } else {
      assert p < Parent(q) && Toward(p, Parent(q)) == Toward(p, q);
      TowardExists(dirs, p, Parent(q));
    }
  }

  // ---------------------------------------------------------------- removal

  /** Directories reached from `p` through one of the children handled so far. */
  predicate Gone(dirs: map<Path, seq<Path>>, p: Path, done: seq<Path>, q: Path) {
    Handled(p, done, q) && Reached(dirs, p, q)
  }

  function Pruned(dirs: map<Path, seq<Path>>, p: Path, done: seq<Path>): map<Path, seq<Path>> {
    map q | q in dirs && !Gone(dirs, p, done, q) :: dirs[q]
  }

  function DoomedBelow(s: Namespace, p: Path, done: seq<Path>): set<Path> {
    set f | f in s.files && f != ROOT && Gone(s.dirs, p, done, Parent(f))
  }

  function PrunedNamespace(s: Namespace, p: Path, done: seq<Path>): Namespace {
    Namespace(Pruned(s.dirs, p, done), s.files - DoomedBelow(s, p, done), s.chunks - DoomedBelow(s, p, done))
  }

  /** A listed child that is still a directory has not been handled, and its subtree is untouched. */
  lemma PrunedKeepsTree(s: Namespace, p: Path, done: seq<Path>, c: Path)
    requires TreeOk(s.dirs, p) && p in s.dirs && c in s.dirs[p] && c in Pruned(s.dirs, p, done)
    ensures DirectChild(p, c) && c !in done
    ensures TreeOk(Pruned(s.dirs, p, done), c) && SameBelow(s.dirs, Pruned(s.dirs, p, done), c)
  {
    assert DirectChild(p, c) by { assert p <= p; }
    assert Toward(p, c) == c;
    ReachedThrough(s.dirs, p, c, c);
    assert forall q | c <= q :: p < q && Toward(p, q) == c;
  }

  lemma ChildTreeIsSmaller(s: Namespace, p: Path, done: seq<Path>, c: Path)
    requires p in s.dirs && DirectChild(p, c)
    ensures DirsUnder(Pruned(s.dirs, p, done), c) < DirsUnder(s.dirs, p)
  {
    assert p in DirsUnder(s.dirs, p) && !(c <= p);
    forall q <- s.dirs | c <= q ensures p <= q { }
  }

  /** What is gone once one more child is handled. */
  lemma GoneNext(s: Namespace, p: Path, done: seq<Path>, c: Path, q: Path)
    requires TreeOk(s.dirs, p) && p in s.dirs && c in s.dirs[p] && c in Pruned(s.dirs, p, done)
    ensures Gone(s.dirs, p, done + [c], q) <==> Gone(s.dirs, p, done, q) || Reached(Pruned(s.dirs, p, done), c, q)
  {
    PrunedKeepsTree(s, p, done, c);
    HandledMore(p, done, c, q);
    ReachedSameBelow(s.dirs, Pruned(s.dirs, p, done), c, q);
    if c <= q { ReachedThrough(s.dirs, p, c, q); }
  }

  /** Removing the next child's subtree handles that child. */
  lemma PruneNext(s: Namespace, p: Path, done: seq<Path>, c: Path)
    requires TreeOk(s.dirs, p) && p in s.dirs && c in s.dirs[p] && c in Pruned(s.dirs, p, done)
    ensures RemoveTree(PrunedNamespace(s, p, done), c) == PrunedNamespace(s, p, done + [c])
  {
    var u := PrunedNamespace(s, p, done);
    forall q ensures Gone(s.dirs, p, done + [c], q) <==> Gone(s.dirs, p, done, q) || Reached(u.dirs, c, q) {
      GoneNext(s, p, done, c, q);
    }
    assert DoomedBelow(s, p, done + [c]) == DoomedBelow(s, p, done) + Doomed(u, c);
  }

  /** A listed child that is no directory, or was listed before, leaves nothing to remove. */
  lemma PruneAbsent(s: Namespace, p: Path, done: seq<Path>, c: Path)
    requires TreeOk(s.dirs, p) && p in s.dirs && c in s.dirs[p] && c !in Pruned(s.dirs, p, done)
    ensures PrunedNamespace(s, p, done + [c]) == PrunedNamespace(s, p, done)
  {
    assert DirectChild(p, c) by { assert p <= p; }
    forall q ensures Gone(s.dirs, p, done + [c], q) <==> Gone(s.dirs, p, done, q) {
      HandledMore(p, done, c, q);
      if c <= q && Reached(s.dirs, p, q) {
        assert p < q && Toward(p, q) == c;
        TowardExists(s.dirs, p, q);
        assert Gone(s.dirs, p, done, c) && Toward(p, c) == c;
      }
    }
    assert DoomedBelow(s, p, done + [c]) == DoomedBelow(s, p, done);
  }

  /** With every listed child handled, only `p` and the files directly in it remain to remove. */
  lemma PruneAll(s: Namespace, p: Path)
    requires p in s.dirs
    ensures var u := PrunedNamespace(s, p, s.dirs[p]);
      && u.dirs - {p} == RemoveTree(s, p).dirs
      && u.files - FilesIn(u, p) == s.files - Doomed(s, p)
      && u.chunks - FilesIn(u, p) == s.chunks - Doomed(s, p)
  {
    forall q ensures Reached(s.dirs, p, q) <==> Gone(s.dirs, p, s.dirs[p], q) || q == p {
      if Reached(s.dirs, p, q) && p < q { TowardExists(s.dirs, p, q); }
    }
    var u := PrunedNamespace(s, p, s.dirs[p]);
    assert Doomed(s, p) == DoomedBelow(s, p, s.dirs[p]) + FilesIn(u, p);
  }

  /** Unlinking before or after removing the directory makes no difference. */
  lemma UnlinkThenRemove(dirs: map<Path, seq<Path>>, p: Path)
    requires p != ROOT
    ensures Unlink(dirs, p) - {p} == Unlink(dirs - {p}, p)
    ensures p !in dirs ==> dirs - {p} == dirs
  {
  }

  lemma DeleteDone(s: Namespace, p: Path, recursive: bool, t: Namespace)
    requires p != ROOT && p in s.dirs && (recursive || (s.dirs[p] == [] && FilesIn(s, p) == {}))
    requires t == if recursive then RemoveTree(s, p) else s
    ensures DeleteDirectory(s, p, recursive) == (t.(dirs := Unlink(t.dirs - {p}, p)), Done)
  {
    assert recursive ==> t.dirs - {p} == t.dirs;
  }

  lemma DirectBelow(s: Namespace, p: Path)
    requires ChildrenAreDirect(s)
    ensures TreeOk(s.dirs, p)
  {
  }
}
