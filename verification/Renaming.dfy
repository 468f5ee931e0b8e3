/** Renaming done one listed child at a time: the partial results of `updateChildPaths`. */
module Renaming {
  import opened Paths
  import opened NamespaceSpec
  import opened NamespaceProofs
  import opened Subtrees

  predicate Unrelated(p: Path, q: Path) {
    !(p <= q) && !(q <= p)
  }

  lemma MidTarget(from: Path, to: Path, mid: Path, r: Path)
    requires from <= mid && to <= r
    ensures Rebase(mid, from, to) <= r <==> mid <= Rebase(r, to, from)
    ensures Rebase(mid, from, to) <= r ==> Rebase(r, Rebase(mid, from, to), mid) == Rebase(r, to, from)
  {
    var target := Rebase(mid, from, to);
    RebaseBack(mid, from, to);
    RebaseBack(r, to, from);
    if target <= r {
      RebaseThrough(r, to, target, from);
    }
    if mid <= Rebase(r, to, from) {
      RebaseThrough(Rebase(r, to, from), from, mid, to);
    }
  }

  /** Renaming `moved`, then more paths below `mid`, is renaming both at once. */
  lemma ComposeRename<V>(m: map<Path, V>, moved: set<Path>, more: set<Path>, from: Path, to: Path, mid: Path)
    requires Unrelated(from, to) && from <= mid && moved !! more
    requires (forall q <- moved :: from <= q) && (forall q <- more :: mid <= q)
    ensures forall q <- moved + more :: from <= q
    ensures RenameKeys(RenameKeys(m, moved, from, to), more, mid, Rebase(mid, from, to))
         == RenameKeys(m, moved + more, from, to)
  {
    var all := RenameKeys(m, moved + more, from, to);
    var two := RenameKeys(RenameKeys(m, moved, from, to), more, mid, Rebase(mid, from, to));
    forall r ensures (r in two <==> r in all) && (r in two ==> two[r] == all[r]) {
      ComposeRenameAt(m, moved, more, from, to, mid, r);
    }
  }

  lemma ComposeRenameAt<V>(m: map<Path, V>, moved: set<Path>, more: set<Path>, from: Path, to: Path, mid: Path, r: Path)
    requires Unrelated(from, to) && from <= mid && moved !! more
    requires (forall q <- moved :: from <= q) && (forall q <- more :: mid <= q)
    ensures var all := RenameKeys(m, moved + more, from, to);
            var two := RenameKeys(RenameKeys(m, moved, from, to), more, mid, Rebase(mid, from, to));
            (r in two <==> r in all) && (r in two ==> two[r] == all[r])
  {
    if to <= r { MidTarget(from, to, mid, r); }
  }

  /** Lists can be renamed before or after other directories are re-keyed. */
  lemma RelistLater(
      dirs: map<Path, seq<Path>>, moved: set<Path>, more: set<Path>, from: Path, to: Path, mid: Path)
    requires Unrelated(from, to) && from <= mid && moved !! more
    requires Renamable(dirs, moved, from) && Renamable(dirs, more, mid) && Renamable(dirs, moved + more, from)
    ensures Renamable(RenameDirs(dirs, moved, from, to), more, mid)
    ensures Relisted(RenameDirs(dirs, moved, from, to), more, mid, Rebase(mid, from, to))
         == RenameKeys(Relisted(dirs, moved + more, from, to), moved, from, to)
  {
    var n := RenameDirs(dirs, moved, from, to);
    var late := RenameKeys(Relisted(dirs, moved + more, from, to), moved, from, to);
    forall q <- more | q in dirs
      ensures RebasedList(q, dirs[q], mid, Rebase(mid, from, to)) == RebasedList(q, dirs[q], from, to)
    {
      RebasedListThrough(q, dirs[q], from, mid, to);
    }
    forall r <- n ensures r in more ==> r in dirs && n[r] == dirs[r] {}
  }

  /** The same for directories, whose lists are renamed along. */
  lemma ComposeRenameDirs(
      dirs: map<Path, seq<Path>>, moved: set<Path>, more: set<Path>, from: Path, to: Path, mid: Path)
    requires Unrelated(from, to) && from <= mid && moved !! more
    requires Renamable(dirs, moved, from) && Renamable(dirs, more, mid)
    ensures Renamable(RenameDirs(dirs, moved, from, to), more, mid)
    ensures Renamable(dirs, moved + more, from)
    ensures RenameDirs(RenameDirs(dirs, moved, from, to), more, mid, Rebase(mid, from, to))
         == RenameDirs(dirs, moved + more, from, to)
  {
    RelistLater(dirs, moved, more, from, to, mid);
    ComposeRename(Relisted(dirs, moved + more, from, to), moved, more, from, to, mid);
  }

  lemma RebasedListThrough(q: Path, children: seq<Path>, from: Path, mid: Path, to: Path)
    requires from <= mid <= q && ListIsDirect(q, children)
    ensures RebasedList(q, children, mid, Rebase(mid, from, to)) == RebasedList(q, children, from, to)
  {
    forall i | 0 <= i < |children|
      ensures RebasedList(q, children, mid, Rebase(mid, from, to))[i] == RebasedList(q, children, from, to)[i]
    {
      assert DirectChild(q, children[i]);
      RebaseThrough(children[i], from, mid, to);
    }
  }

  // ---------------------------------------------------------------- one child at a time

  /** `updateChildPaths` may start: the directory object is at `to` already, with its list still
      naming paths below `from`. */
  predicate Ready(s: Namespace, from: Path, to: Path) {
    Unrelated(from, to) && to in s.dirs && from !in s.dirs && TreeOk(Source(s, from, to), from)
  }

  /** The directories as they were when the moved one was still at `from`. */
  function Source(s: Namespace, from: Path, to: Path): map<Path, seq<Path>>
    requires to in s.dirs
  {
    s.dirs[from := s.dirs[to]]
  }

  function MovedDirs(s: Namespace, from: Path, to: Path, done: seq<Path>): set<Path>
    requires to in s.dirs
  {
    set q | q in s.dirs && Handled(from, done, q) && Reached(Source(s, from, to), from, q)
  }

  function MovedFiles(s: Namespace, from: Path, to: Path, done: seq<Path>): set<Path>
    requires to in s.dirs
  {
    set f | f in s.files && Handled(from, done, f)
            && (|f| == |from| + 1 || (Listed(s, f) && Reached(Source(s, from, to), from, Parent(f))))
  }

  lemma ReadyIsRenamable(s: Namespace, from: Path, to: Path, done: seq<Path>)
    requires Ready(s, from, to)
    ensures Renamable(s.dirs, MovedDirs(s, from, to, done), from)
    ensures forall c <- s.dirs[to] :: from <= c
  {
    assert ListIsDirect(from, s.dirs[to]) by { assert from in Source(s, from, to); }
    assert forall c <- s.dirs[to] :: DirectChild(from, c);
    forall q <- MovedDirs(s, from, to, done) ensures ListIsDirect(q, s.dirs[q]) {
      assert q in Source(s, from, to);
    }
  }

  /** The namespace after the first `k` children have been renamed. */
  function RenamedSoFar(s: Namespace, from: Path, to: Path, k: nat): Namespace
    requires Ready(s, from, to) && k <= |s.dirs[to]|
  {
    var children := s.dirs[to];
    var done := children[..k];
    ReadyIsRenamable(s, from, to, done);
    assert forall c <- done :: c in children;
    Namespace(
      RenameDirs(s.dirs, MovedDirs(s, from, to, done), from, to)[to := RebaseAll(done, from, to) + children[k..]],
      RenameKeys(s.files, MovedFiles(s, from, to, done), from, to),
      RenameKeys(s.chunks, MovedFiles(s, from, to, done), from, to))
  }

  /** Below a child not handled yet, nothing has changed. */
  lemma UntouchedBelow(s: Namespace, from: Path, to: Path, k: nat, q: Path)
    requires Ready(s, from, to) && k <= |s.dirs[to]| && from < q
    requires !Handled(from, s.dirs[to][..k], q)
    ensures var u := RenamedSoFar(s, from, to, k);
      && (q in u.dirs <==> q in s.dirs) && (q in s.dirs ==> u.dirs[q] == s.dirs[q])
      && (q in u.files <==> q in s.files)
  {
    ReadyIsRenamable(s, from, to, s.dirs[to][..k]);
  }

  /** The namespace in which the recursive call for child `k` starts: the child's entry in the list
      is renamed, and the child itself re-keyed with its own list unchanged. */
  function ChildMoved(u: Namespace, to: Path, k: nat, c: Path, target: Path): Namespace
    requires to in u.dirs && k < |u.dirs[to]| && c in u.dirs
  {
    u.(dirs := (u.dirs[to := u.dirs[to][k := target]] - {c})[target := u.dirs[c]])
  }

  /** What is known of a child that is still there when its turn comes. */
  lemma NextChild(s: Namespace, from: Path, to: Path, k: nat)
    requires Ready(s, from, to) && k < |s.dirs[to]|
    ensures var c := s.dirs[to][k];
      && DirectChild(from, c) && c != to && from <= c && c in Source(s, from, to)[from]
      && (c in RenamedSoFar(s, from, to, k).dirs ==> c in s.dirs && c !in s.dirs[to][..k])
      && Rebase(c, from, to) != to && Unrelated(c, Rebase(c, from, to))
  {
    var c := s.dirs[to][k];
    assert ListIsDirect(from, s.dirs[to]) by { assert from in Source(s, from, to); }
    assert c in s.dirs[to];
    ReadyIsRenamable(s, from, to, s.dirs[to][..k]);
    assert Toward(from, c) == c;
    assert c in s.dirs ==> Reached(Source(s, from, to), from, c);
    ParentOfRebase(c, from, to);
  }

  /** The entry whose turn comes still has its old name. */
  lemma NextEntry(s: Namespace, from: Path, to: Path, k: nat)
    requires Ready(s, from, to) && k < |s.dirs[to]|
    ensures var u := RenamedSoFar(s, from, to, k);
      && |u.dirs[to]| == |s.dirs[to]| && u.dirs[to][k] == s.dirs[to][k]
      && from < s.dirs[to][k] && DirectChild(from, s.dirs[to][k])
  {
    NextChild(s, from, to, k);
    ReadyIsRenamable(s, from, to, s.dirs[to][..k]);
  }

  /** Seen from the child's old path, only the lists of `to` and of the child's target differ. */
  lemma SourceOfChildMoved(u: Namespace, to: Path, k: nat, c: Path, target: Path, q: Path)
    requires to in u.dirs && k < |u.dirs[to]| && c in u.dirs && c != target && q != to && q != target
    ensures var other := Source(ChildMoved(u, to, k, c, target), c, target);
            (q in other <==> q in u.dirs) && (q in other ==> other[q] == u.dirs[q])
  {
  }

  lemma ChildSourceAt(s: Namespace, from: Path, to: Path, k: nat, u: Namespace, q: Path)
    requires Ready(s, from, to) && k < |s.dirs[to]| && from <= s.dirs[to][k] <= q
    requires u == RenamedSoFar(s, from, to, k) && s.dirs[to][k] in u.dirs
    ensures var c := s.dirs[to][k];
            var other := Source(ChildMoved(u, to, k, c, Rebase(c, from, to)), c, Rebase(c, from, to));
            (q in other <==> q in s.dirs) && (q in other ==> other[q] == s.dirs[q])
  {
    var c := s.dirs[to][k];
    NextChild(s, from, to, k);
    SourceOfChildMoved(u, to, k, c, Rebase(c, from, to), q);
    assert Toward(from, q) == c;
    UntouchedBelow(s, from, to, k, q);
  }

  /** Below a child that is still there, nothing has changed since the start. */
  lemma ChildSource(s: Namespace, from: Path, to: Path, k: nat, v: Namespace)
    requires Ready(s, from, to) && k < |s.dirs[to]| && from <= s.dirs[to][k]
    requires s.dirs[to][k] in RenamedSoFar(s, from, to, k).dirs
    requires v == ChildMoved(RenamedSoFar(s, from, to, k), to, k, s.dirs[to][k], Rebase(s.dirs[to][k], from, to))
    ensures var c := s.dirs[to][k];
            SameBelow(s.dirs, Source(v, c, Rebase(c, from, to)), c)
  {
    forall q | s.dirs[to][k] <= q
      ensures var c := s.dirs[to][k];
              var other := Source(v, c, Rebase(c, from, to));
              (q in other <==> q in s.dirs) && (q in other ==> other[q] == s.dirs[q])
    {
      ChildSourceAt(s, from, to, k, RenamedSoFar(s, from, to, k), q);
    }
  }

  lemma ChildReady(s: Namespace, from: Path, to: Path, k: nat, v: Namespace)
    requires Ready(s, from, to) && k < |s.dirs[to]| && from <= s.dirs[to][k]
    requires s.dirs[to][k] in RenamedSoFar(s, from, to, k).dirs
    requires v == ChildMoved(RenamedSoFar(s, from, to, k), to, k, s.dirs[to][k], Rebase(s.dirs[to][k], from, to))
    ensures Ready(v, s.dirs[to][k], Rebase(s.dirs[to][k], from, to))
  {
    var c := s.dirs[to][k];
    NextChild(s, from, to, k);
    ChildSource(s, from, to, k, v);
    assert forall q <- s.dirs | c <= q :: q in Source(s, from, to) && from <= q;
  }

  /** Renaming does not disturb the entry at a path that is neither moved nor moved onto. */
  lemma RenameKeysAround<V>(m: map<Path, V>, moved: set<Path>, from: Path, to: Path, x: Path, value: V)
    requires (forall q <- moved :: from <= q) && x !in moved
    requires to <= x ==> Rebase(x, to, from) !in moved
    ensures RenameKeys(m[x := value], moved, from, to) == RenameKeys(m, moved, from, to)[x := value]
  {
  }

  lemma RenameAround(
      dirs: map<Path, seq<Path>>, moved: set<Path>, from: Path, to: Path, x: Path, children: seq<Path>)
    requires Renamable(dirs, moved, from) && x !in moved
    requires to <= x ==> Rebase(x, to, from) !in moved
    ensures Renamable(dirs[x := children], moved, from)
    ensures RenameDirs(dirs[x := children], moved, from, to) == RenameDirs(dirs, moved, from, to)[x := children]
  {
    assert Relisted(dirs[x := children], moved, from, to) == Relisted(dirs, moved, from, to)[x := children];
    RenameKeysAround(Relisted(dirs, moved, from, to), moved, from, to, x, children);
  }

  /** Re-keying an entry first and those below it after is re-keying all of them. */
  lemma RenameKeysRootFirst<V>(m: map<Path, V>, below: set<Path>, c: Path, target: Path)
    requires Unrelated(c, target) && c in m && c !in below && forall q <- below :: c <= q
    ensures RenameKeys((m - {c})[target := m[c]], below, c, target) == RenameKeys(m, below + {c}, c, target)
  {
    assert Rebase(target, target, c) == c;
    forall r | target <= r && r != target ensures Rebase(r, target, c) != c { RebaseBack(r, target, c); }
  }

  lemma RenameRootFirst(dirs: map<Path, seq<Path>>, below: set<Path>, c: Path, target: Path)
    requires Unrelated(c, target) && c in dirs && Renamable(dirs, below + {c}, c) && c !in below
    ensures Renamable((dirs - {c})[target := dirs[c]], below, c)
    ensures RenameDirs((dirs - {c})[target := dirs[c]], below, c, target)[target := RebasedList(c, dirs[c], c, target)]
         == RenameDirs(dirs, below + {c}, c, target)
  {
    var v := (dirs - {c})[target := dirs[c]];
    var m := Relisted(dirs, below + {c}, c, target);
    var list := RebasedList(c, dirs[c], c, target);
    assert Rebase(target, target, c) == c;
    RenameKeysAround(Relisted(v, below, c, target), below, c, target, target, list);
    assert Relisted(v, below, c, target)[target := list] == (m - {c})[target := m[c]];
    RenameKeysRootFirst(m, below, c, target);
  }

  /** Renaming one child and everything below it, after those at `moved`, whatever the list at `to`. */
  lemma ComposeChild(
      dirs: map<Path, seq<Path>>, moved: set<Path>, below: set<Path>, from: Path, to: Path, c: Path, list: seq<Path>)
    requires Unrelated(from, to) && from < c && c in dirs && c !in below && !(c <= to)
    requires Unrelated(c, Rebase(c, from, to)) && to < Rebase(c, from, to)
    requires moved !! (below + {c}) && Renamable(dirs, moved, from) && Renamable(dirs, below + {c}, c)
    ensures Renamable(dirs, moved + (below + {c}), from)
    ensures var target := Rebase(c, from, to);
      var v := (RenameDirs(dirs, moved, from, to)[to := list] - {c})[target := dirs[c]];
      && Renamable(v, below, c)
      && RenameDirs(v, below, c, target)[target := RebasedList(c, dirs[c], c, target)]
         == RenameDirs(dirs, moved + (below + {c}), from, to)[to := list]
  {
    var target := Rebase(c, from, to);
    var x := RenameDirs(dirs, moved, from, to);
    ComposeRenameDirs(dirs, moved, below + {c}, from, to, c);
    assert c in x && x[c] == dirs[c];
    RenameAround(x, below + {c}, c, target, to, list);
    RenameRootFirst(x[to := list], below, c, target);
  }

  /** What a child's subtree looks like does not depend on where its parent is. */
  lemma ReachedFromChild(s: Namespace, from: Path, to: Path, c: Path, q: Path)
    requires Ready(s, from, to) && c in s.dirs[to] && DirectChild(from, c) && c <= q
    ensures Reached(Source(s, from, to), from, q) <==> Reached(s.dirs, c, q)
  {
    ReachedThrough(Source(s, from, to), from, c, q);
    ReachedSameBelow(s.dirs, Source(s, from, to), c, q);
  }

  lemma MovedDirsNext(s: Namespace, from: Path, to: Path, done: seq<Path>, c: Path)
    requires Ready(s, from, to) && c in s.dirs[to] && DirectChild(from, c)
    ensures MovedDirs(s, from, to, done + [c]) == MovedDirs(s, from, to, done) + ReachedDirs(s.dirs, c)
    ensures c !in done ==> MovedDirs(s, from, to, done) !! ReachedDirs(s.dirs, c)
  {
    forall q <- s.dirs
      ensures Handled(from, done + [c], q) <==> Handled(from, done, q) || c <= q
      ensures c <= q ==> Toward(from, q) == c && (Reached(Source(s, from, to), from, q) <==> Reached(s.dirs, c, q))
    {
      HandledMore(from, done, c, q);
      if c <= q { ReachedFromChild(s, from, to, c, q); }
    }
  }

  /** The directories the recursive call renames are all those reached below its child. */
  lemma MovedDirsOfChild(s: Namespace, v: Namespace, c: Path, target: Path)
    requires c in s.dirs && Ready(v, c, target) && v.dirs[target] == s.dirs[c]
    requires SameBelow(s.dirs, Source(v, c, target), c)
    ensures MovedDirs(v, c, target, s.dirs[c]) + {c} == ReachedDirs(s.dirs, c)
    ensures c !in MovedDirs(v, c, target, s.dirs[c])
  {
    forall q
      ensures Reached(Source(v, c, target), c, q) <==> Reached(s.dirs, c, q)
      ensures Reached(s.dirs, c, q) && c < q ==> Handled(c, s.dirs[c], q) && q in v.dirs
    {
      ReachedSameBelow(s.dirs, Source(v, c, target), c, q);
      if Reached(s.dirs, c, q) && c < q { TowardExists(s.dirs, c, q); }
    }
  }

  lemma ChildMovedShape(u: Namespace, x: map<Path, seq<Path>>, to: Path, list: seq<Path>, k: nat, c: Path, target: Path)
    requires u.dirs == x[to := list] && k < |list| && c in x && c != to
    ensures ChildMoved(u, to, k, c, target).dirs == (x[to := list[k := target]] - {c})[target := x[c]]
  {
    assert u.dirs[to := list[k := target]] == x[to := list[k := target]];
  }

  lemma NextList(children: seq<Path>, k: nat, from: Path, to: Path)
    requires k < |children| && from <= children[k] && forall c <- children :: from <= c
    ensures forall c <- children[..k] + [children[k]] :: from <= c
    ensures forall c <- children[..k] :: from <= c
    ensures RebaseAll(children[..k] + [children[k]], from, to) + children[k + 1..]
         == (RebaseAll(children[..k], from, to) + children[k..])[k := Rebase(children[k], from, to)]
  {
    forall c <- children[..k] ensures c in children {}
  }

  lemma ChildMovedDirs(s: Namespace, from: Path, to: Path, k: nat, v: Namespace)
    requires Ready(s, from, to) && k < |s.dirs[to]| && from <= s.dirs[to][k]
    requires s.dirs[to][k] in RenamedSoFar(s, from, to, k).dirs
    requires v == ChildMoved(RenamedSoFar(s, from, to, k), to, k, s.dirs[to][k], Rebase(s.dirs[to][k], from, to))
    ensures var c := s.dirs[to][k];
      var done := s.dirs[to][..k];
      && c in s.dirs && Renamable(s.dirs, MovedDirs(s, from, to, done), from)
      && (forall p <- done + [c] :: from <= p)
      && v.dirs == (RenameDirs(s.dirs, MovedDirs(s, from, to, done), from, to)
            [to := RebaseAll(done + [c], from, to) + s.dirs[to][k + 1..]] - {c})[Rebase(c, from, to) := s.dirs[c]]
  {
    var c := s.dirs[to][k];
    var done := s.dirs[to][..k];
    NextChild(s, from, to, k);
    ReadyIsRenamable(s, from, to, done);
    NextList(s.dirs[to], k, from, to);
    var x := RenameDirs(s.dirs, MovedDirs(s, from, to, done), from, to);
    assert c in x && x[c] == s.dirs[c];
    ChildMovedShape(RenamedSoFar(s, from, to, k), x, to, RebaseAll(done, from, to) + s.dirs[to][k..], k,
                    c, Rebase(c, from, to));
  }

  lemma RenameChildDirs(s: Namespace, from: Path, to: Path, k: nat, v: Namespace)
    requires Ready(s, from, to) && k < |s.dirs[to]| && from <= s.dirs[to][k]
    requires s.dirs[to][k] in RenamedSoFar(s, from, to, k).dirs
    requires v == ChildMoved(RenamedSoFar(s, from, to, k), to, k, s.dirs[to][k], Rebase(s.dirs[to][k], from, to))
    ensures var c := s.dirs[to][k];
      var target := Rebase(c, from, to);
      && Ready(v, c, target) && c in s.dirs && v.dirs[target] == s.dirs[c]
      && RenamedSoFar(v, c, target, |s.dirs[c]|).dirs == RenamedSoFar(s, from, to, k + 1).dirs
  {
    var c := s.dirs[to][k];
    var target := Rebase(c, from, to);
    var done := s.dirs[to][..k];
    Take(s.dirs[to], k);
    NextChild(s, from, to, k);
    ChildReady(s, from, to, k, v);
    ChildMovedDirs(s, from, to, k, v);
    ChildSource(s, from, to, k, v);
    MovedDirsOfChild(s, v, c, target);
    MovedDirsNext(s, from, to, done, c);
    ReadyIsRenamable(s, from, to, done + [c]);
    ComposeChild(s.dirs, MovedDirs(s, from, to, done), MovedDirs(v, c, target, s.dirs[c]), from, to, c,
                 RebaseAll(done + [c], from, to) + s.dirs[to][k + 1..]);
    ChildResult(v, c, target);
  }

  lemma ChildResult(v: Namespace, c: Path, target: Path)
    requires Ready(v, c, target)
    ensures var list := v.dirs[target];
      && ListIsDirect(c, list) && Renamable(v.dirs, MovedDirs(v, c, target, list), c)
      && RenamedSoFar(v, c, target, |list|).dirs
         == RenameDirs(v.dirs, MovedDirs(v, c, target, list), c, target)[target := RebasedList(c, list, c, target)]
  {
    var list := v.dirs[target];
    Take(list, |list|);
    Take(RebaseAll(list, c, target), |list|) by { ReadyIsRenamable(v, c, target, list); }
    assert ListIsDirect(c, list) by { assert c in v.dirs[c := list]; }
    ReadyIsRenamable(v, c, target, list);
  }

  // ---------------------------------------------------------------- the files of one child

  /** The file at `c` itself, which is re-keyed after everything below `c`. */
  lemma MovedFilesNext(s: Namespace, from: Path, to: Path, done: seq<Path>, c: Path)
    requires Ready(s, from, to) && c in s.dirs[to] && DirectChild(from, c) && c !in done
    ensures MovedFiles(s, from, to, done + [c]) == MovedFiles(s, from, to, done) + (ListedUnder(s, c) + FileAt(s, c))
    ensures MovedFiles(s, from, to, done) !! (ListedUnder(s, c) + FileAt(s, c))
  {
    forall f <- s.files
      ensures Handled(from, done + [c], f) <==> Handled(from, done, f) || c <= f
      ensures c < f ==> Toward(from, f) == c && |f| > |from| + 1
                        && (Reached(Source(s, from, to), from, Parent(f)) <==> Reached(s.dirs, c, Parent(f)))
      ensures f in ListedUnder(s, c) ==> c < f
      ensures c <= f && f != c ==> c < f
    {
      HandledMore(from, done, c, f);
      if c < f {
        assert c <= Parent(f);
        ReachedFromChild(s, from, to, c, Parent(f));
      }
    }
    assert Toward(from, c) == c;
  }

  /** The files the recursive call re-keys are all those listed by a directory it reaches. */
  lemma MovedFilesOfChild(s: Namespace, v: Namespace, c: Path, target: Path)
    requires c in s.dirs && Ready(v, c, target) && v.dirs[target] == s.dirs[c]
    requires SameBelow(s.dirs, Source(v, c, target), c)
    requires forall f | c < f :: f in v.files <==> f in s.files
    ensures MovedFiles(v, c, target, s.dirs[c]) == ListedUnder(s, c)
  {
    forall f | f in s.files && c < f
      ensures Handled(c, s.dirs[c], f)
              && (|f| == |c| + 1 || (Listed(v, f) && Reached(Source(v, c, target), c, Parent(f))))
              <==> Listed(s, f) && Reached(s.dirs, c, Parent(f))
    {
      ReachedSameBelow(s.dirs, Source(v, c, target), c, Parent(f));
      if |f| == |c| + 1 {
        assert Parent(f) == c && Toward(c, f) == f;
      } else {
        assert c < Parent(f) && Toward(c, Parent(f)) == Toward(c, f);
        if Reached(s.dirs, c, Parent(f)) { TowardExists(s.dirs, c, Parent(f)); }
      }
    }
    forall f <- ListedUnder(s, c) ensures c < f {}
  }

  lemma ComposeFiles<V>(m: map<Path, V>, moved: set<Path>, below: set<Path>, own: set<Path>, from: Path, to: Path,
                       c: Path)
    requires Unrelated(from, to) && from <= c && Unrelated(c, Rebase(c, from, to))
    requires (forall q <- moved :: from <= q) && (forall q <- below + own :: c <= q)
    requires moved !! (below + own) && below !! own
    ensures forall q <- moved + (below + own) :: from <= q
    ensures var (r, x) := (Rebase(c, from, to), RenameKeys(m, moved, from, to));
            RenameKeys(RenameKeys(x, below, c, r), own, c, r) == RenameKeys(m, moved + (below + own), from, to)
  {
    assert Rebase(c, c, Rebase(c, from, to)) == Rebase(c, from, to);
    ComposeRename(RenameKeys(m, moved, from, to), below, own, c, Rebase(c, from, to), c);
    ComposeRename(m, moved, below + own, from, to, c);
  }

  lemma RenameChildFiles<V>(s: Namespace, m: map<Path, V>, from: Path, to: Path, done: seq<Path>, c: Path)
    requires Ready(s, from, to) && c in s.dirs[to] && DirectChild(from, c) && from <= c && c !in done
    requires Unrelated(c, Rebase(c, from, to))
    ensures forall f <- MovedFiles(s, from, to, done) :: from <= f
    ensures forall f <- ListedUnder(s, c) + FileAt(s, c) :: c <= f
    ensures forall f <- MovedFiles(s, from, to, done + [c]) :: from <= f
    ensures var target := Rebase(c, from, to);
      RenameKeys(RenameKeys(RenameKeys(m, MovedFiles(s, from, to, done), from, to), ListedUnder(s, c), c, target),
                 FileAt(s, c), c, target)
      == RenameKeys(m, MovedFiles(s, from, to, done + [c]), from, to)
  {
    MovedFilesNext(s, from, to, done, c);
    ComposeFiles(m, MovedFiles(s, from, to, done), ListedUnder(s, c), FileAt(s, c), from, to, c);
  }

  lemma FilesBelow(s: Namespace, from: Path, to: Path, k: nat)
    requires Ready(s, from, to) && k < |s.dirs[to]|
    requires s.dirs[to][k] in RenamedSoFar(s, from, to, k).dirs
    ensures forall f | s.dirs[to][k] <= f :: f in RenamedSoFar(s, from, to, k).files <==> f in s.files
  {
    NextChild(s, from, to, k);
    forall f | s.dirs[to][k] <= f ensures f in RenamedSoFar(s, from, to, k).files <==> f in s.files {
      assert Toward(from, f) == s.dirs[to][k];
      UntouchedBelow(s, from, to, k, f);
    }
  }

  /** Renaming a child directory, its subtree and the file at its path is one step of the whole. */
  lemma RenameChild(s: Namespace, from: Path, to: Path, k: nat, v: Namespace)
    requires Ready(s, from, to) && k < |s.dirs[to]| && from <= s.dirs[to][k]
    requires s.dirs[to][k] in RenamedSoFar(s, from, to, k).dirs
    requires v == ChildMoved(RenamedSoFar(s, from, to, k), to, k, s.dirs[to][k], Rebase(s.dirs[to][k], from, to))
    ensures var c := s.dirs[to][k];
      var target := Rebase(c, from, to);
      && Ready(v, c, target)
      && FileMoved(RenamedSoFar(v, c, target, |v.dirs[target]|), c, target) == RenamedSoFar(s, from, to, k + 1)
  {
    var c := s.dirs[to][k];
    var target := Rebase(c, from, to);
    var done := s.dirs[to][..k];
    Take(s.dirs[to], k);
    RenameChildDirs(s, from, to, k, v);
    NextChild(s, from, to, k);
    FilesOfChild(s, from, to, k, v);
    RenameChildFiles(s, s.files, from, to, done, c);
    RenameChildFiles(s, s.chunks, from, to, done, c);
  }

  /** The recursive call takes the files listed below the child, and leaves the one at its path. */
  lemma FilesOfChild(s: Namespace, from: Path, to: Path, k: nat, v: Namespace)
    requires Ready(s, from, to) && k < |s.dirs[to]| && from <= s.dirs[to][k]
    requires s.dirs[to][k] in RenamedSoFar(s, from, to, k).dirs
    requires v == ChildMoved(RenamedSoFar(s, from, to, k), to, k, s.dirs[to][k], Rebase(s.dirs[to][k], from, to))
    requires Ready(v, s.dirs[to][k], Rebase(s.dirs[to][k], from, to))
    requires s.dirs[to][k] in s.dirs && v.dirs[Rebase(s.dirs[to][k], from, to)] == s.dirs[s.dirs[to][k]]
    ensures var c := s.dirs[to][k];
      var target := Rebase(c, from, to);
      && MovedFiles(v, c, target, v.dirs[target][..|v.dirs[target]|]) == ListedUnder(s, c)
      && FileAt(RenamedSoFar(v, c, target, |v.dirs[target]|), c) == FileAt(s, c)
  {
    var c := s.dirs[to][k];
    var target := Rebase(c, from, to);
    Take(v.dirs[target], |v.dirs[target]|);
    ChildSource(s, from, to, k, v);
    FilesBelow(s, from, to, k);
    OwnFileStays(v, c, target);
    FilesListedUnder(s, v, c, target);
  }

  lemma FilesListedUnder(s: Namespace, v: Namespace, c: Path, target: Path)
    requires c in s.dirs && Ready(v, c, target) && v.dirs[target] == s.dirs[c]
    requires SameBelow(s.dirs, Source(v, c, target), c)
    requires forall f | c <= f :: f in v.files <==> f in s.files
    ensures MovedFiles(v, c, target, s.dirs[c]) == ListedUnder(s, c) && FileAt(v, c) == FileAt(s, c)
  {
    MovedFilesOfChild(s, v, c, target);
  }

  lemma OwnFileStays(v: Namespace, c: Path, target: Path)
    requires Ready(v, c, target)
    ensures c in RenamedSoFar(v, c, target, |v.dirs[target]|).files <==> c in v.files
  {
    var moved := MovedFiles(v, c, target, v.dirs[target][..|v.dirs[target]|]);
    assert forall f <- moved :: c < f;
    NotRenamed(v.files, moved, c, target, c);
  }

  lemma NotRenamed<V>(m: map<Path, V>, moved: set<Path>, from: Path, to: Path, x: Path)
    requires (forall q <- moved :: from <= q) && x !in moved && !(to <= x)
    ensures x in RenameKeys(m, moved, from, to) <==> x in m
  {
  }

  // ---------------------------------------------------------------- other entries, first and last step

  /** An entry that is no directory any more, or never was, only moves the file at its path. */
  lemma RenameAbsent(s: Namespace, from: Path, to: Path, k: nat)
    requires Ready(s, from, to) && k < |s.dirs[to]| && from <= s.dirs[to][k]
    requires s.dirs[to][k] !in RenamedSoFar(s, from, to, k).dirs
    ensures var c := s.dirs[to][k];
      var target := Rebase(c, from, to);
      FileMoved(ListRenamed(RenamedSoFar(s, from, to, k), to, k, target), c, target) == RenamedSoFar(s, from, to, k + 1)
  {
    var c := s.dirs[to][k];
    var done := s.dirs[to][..k];
    Take(s.dirs[to], k);
    NextChild(s, from, to, k);
    AbsentFiles(s, from, to, k);
    AbsentLists(s, from, to, k);
    OneMoreFile(s.files, MovedFiles(s, from, to, done), from, to, c, FileAt(RenamedSoFar(s, from, to, k), c));
    OneMoreFile(s.chunks, MovedFiles(s, from, to, done), from, to, c, FileAt(RenamedSoFar(s, from, to, k), c));
  }

  lemma AbsentLists(s: Namespace, from: Path, to: Path, k: nat)
    requires Ready(s, from, to) && k < |s.dirs[to]| && from <= s.dirs[to][k]
    requires s.dirs[to][k] !in RenamedSoFar(s, from, to, k).dirs
    ensures ListRenamed(RenamedSoFar(s, from, to, k), to, k, Rebase(s.dirs[to][k], from, to)).dirs
         == RenamedSoFar(s, from, to, k + 1).dirs
  {
    var done := s.dirs[to][..k];
    Take(s.dirs[to], k);
    ReadyIsRenamable(s, from, to, done);
    NextList(s.dirs[to], k, from, to);
    AbsentDirs(s, from, to, k);
    UpdateAgain(RenameDirs(s.dirs, MovedDirs(s, from, to, done), from, to), to,
                RebaseAll(done, from, to) + s.dirs[to][k..], k, Rebase(s.dirs[to][k], from, to));
  }

  lemma UpdateAgain(x: map<Path, seq<Path>>, to: Path, list: seq<Path>, k: nat, target: Path)
    requires k < |list|
    ensures x[to := list][to := list[k := target]] == x[to := list[k := target]]
  {
  }

  lemma OneMoreFile<V>(m: map<Path, V>, moved: set<Path>, from: Path, to: Path, c: Path, own: set<Path>)
    requires Unrelated(from, to) && from <= c && own <= {c} && moved !! own && forall q <- moved :: from <= q
    ensures RenameKeys(RenameKeys(m, moved, from, to), own, c, Rebase(c, from, to))
         == RenameKeys(m, moved + own, from, to)
  {
    ComposeRename(m, moved, own, from, to, c);
  }

  lemma AbsentDirs(s: Namespace, from: Path, to: Path, k: nat)
    requires Ready(s, from, to) && k < |s.dirs[to]|
    requires s.dirs[to][k] !in RenamedSoFar(s, from, to, k).dirs
    ensures var (c, done) := (s.dirs[to][k], s.dirs[to][..k]);
      && MovedDirs(s, from, to, done + [c]) == MovedDirs(s, from, to, done)
      && (c in done || c !in s.dirs)
  {
    NextChild(s, from, to, k);
    AbsentIsGone(s, from, to, k, s.dirs[to][k]);
    DirsOfAbsent(s, from, to, s.dirs[to][..k], s.dirs[to][k]);
  }

  lemma AbsentIsGone(s: Namespace, from: Path, to: Path, k: nat, c: Path)
    requires Ready(s, from, to) && k <= |s.dirs[to]| && DirectChild(from, c) && c !in RenamedSoFar(s, from, to, k).dirs
    ensures c in s.dirs[to][..k] || c !in s.dirs
  {
    assert Toward(from, c) == c;
    UntouchedBelow'(s, from, to, k, c);
  }

  lemma DirsOfAbsent(s: Namespace, from: Path, to: Path, done: seq<Path>, c: Path)
    requires Ready(s, from, to) && c in s.dirs[to] && DirectChild(from, c) && (c in done || c !in s.dirs)
    ensures MovedDirs(s, from, to, done + [c]) == MovedDirs(s, from, to, done)
  {
    MovedDirsNext(s, from, to, done, c);
    forall q <- ReachedDirs(s.dirs, c) ensures q in MovedDirs(s, from, to, done) {
      ReachedFromChild(s, from, to, c, q);
      assert Toward(from, q) == c;
      if c < q { TowardExists(s.dirs, c, q); }
    }
  }

  lemma UntouchedBelow'(s: Namespace, from: Path, to: Path, k: nat, c: Path)
    requires Ready(s, from, to) && k <= |s.dirs[to]| && from < c
    ensures !Handled(from, s.dirs[to][..k], c) ==>
              (c in RenamedSoFar(s, from, to, k).dirs <==> c in s.dirs)
  {
    if !Handled(from, s.dirs[to][..k], c) { UntouchedBelow(s, from, to, k, c); }
  }

  lemma AbsentFiles(s: Namespace, from: Path, to: Path, k: nat)
    requires Ready(s, from, to) && k < |s.dirs[to]|
    requires s.dirs[to][k] !in RenamedSoFar(s, from, to, k).dirs
    ensures var (c, done) := (s.dirs[to][k], s.dirs[to][..k]);
      && MovedFiles(s, from, to, done + [c])
         == MovedFiles(s, from, to, done) + FileAt(RenamedSoFar(s, from, to, k), c)
      && MovedFiles(s, from, to, done) !! FileAt(RenamedSoFar(s, from, to, k), c)
  {
    var (c, done) := (s.dirs[to][k], s.dirs[to][..k]);
    NextChild(s, from, to, k);
    AbsentDirs(s, from, to, k);
    FileAtChild(s, from, to, k, c);
    FilesOfAbsent(s, from, to, done, c);
  }

  /** A listed path that names no directory brings the file at it, unless it was handled before. */
  lemma FilesOfAbsent(s: Namespace, from: Path, to: Path, done: seq<Path>, c: Path)
    requires Ready(s, from, to) && c in s.dirs[to] && DirectChild(from, c) && (c in done || c !in s.dirs)
    ensures var own := if c in done then {} else FileAt(s, c);
      && MovedFiles(s, from, to, done + [c]) == MovedFiles(s, from, to, done) + own
      && MovedFiles(s, from, to, done) !! own
  {
    if c in done {
      HandledAgain(s, from, to, done, c);
    } else {
      MovedFilesNext(s, from, to, done, c);
      NothingListedBelow(s, c);
    }
  }

  /** The file at a child's path is still there until the child is handled. */
  lemma FileAtChild(s: Namespace, from: Path, to: Path, k: nat, c: Path)
    requires Ready(s, from, to) && k <= |s.dirs[to]| && DirectChild(from, c)
    ensures FileAt(RenamedSoFar(s, from, to, k), c) == if c in s.dirs[to][..k] then {} else FileAt(s, c)
  {
    var done := s.dirs[to][..k];
    assert Toward(from, c) == c;
    if c in done {
      HandledAgain(s, from, to, done, c);
      assert !(to <= c);
    } else {
      UntouchedBelow(s, from, to, k, c);
    }
  }

  lemma NothingListedBelow(s: Namespace, c: Path)
    requires c !in s.dirs
    ensures ListedUnder(s, c) == {}
  {
    forall f <- s.files ensures f !in ListedUnder(s, c) {
      if Listed(s, f) && c < Parent(f) && Reached(s.dirs, c, Parent(f)) { TowardExists(s.dirs, c, Parent(f)); }
    }
  }

  lemma HandledAgain(s: Namespace, from: Path, to: Path, done: seq<Path>, c: Path)
    requires to in s.dirs && DirectChild(from, c) && c in done
    ensures MovedFiles(s, from, to, done + [c]) == MovedFiles(s, from, to, done)
    ensures c in s.files ==> c in MovedFiles(s, from, to, done)
  {
    assert Toward(from, c) == c;
    forall f <- s.files ensures Handled(from, done + [c], f) <==> Handled(from, done, f) {
      HandledMore(from, done, c, f);
      assert c <= f ==> Toward(from, f) == c;
    }
  }

  lemma RenameOne<V>(m: map<Path, V>, from: Path, to: Path)
    requires from != to
    ensures RenameKeys(m, {from}, from, to) == if from in m then m[to := m[from]] - {from} else m
  {
    assert Rebase(from, from, to) == to && Rebase(to, to, from) == from;
    forall r | to <= r && Rebase(r, to, from) == from ensures r == to { RebaseBack(r, to, from); }
  }

  lemma RenameNothing<V>(m: map<Path, V>, from: Path, to: Path)
    ensures RenameKeys(m, {}, from, to) == m
  {
  }

  lemma RenamedNone(s: Namespace, from: Path, to: Path)
    requires Ready(s, from, to)
    ensures RenamedSoFar(s, from, to, 0) == s
  {
    Take(s.dirs[to], 0);
    assert s.dirs[to][..0] == [] && RebaseAll([], from, to) + s.dirs[to] == s.dirs[to];
    NothingMoved(s, from, to);
    assert Relisted(s.dirs, {}, from, to) == s.dirs;
    RenameNothing(s.dirs, from, to);
    RenameNothing(s.files, from, to);
    RenameNothing(s.chunks, from, to);
    assert s.dirs[to := s.dirs[to]] == s.dirs;
  }

  lemma NothingMoved(s: Namespace, from: Path, to: Path)
    requires to in s.dirs
    ensures MovedDirs(s, from, to, []) == {} && MovedFiles(s, from, to, []) == {}
  {
  }

  /** Re-keying the directory and then renaming all its children is the prefix rename of its tree. */
  lemma RenameWhole(u: Namespace, from: Path, to: Path, v: Namespace)
    requires ChildrenAreDirect(u) && from in u.dirs && Unrelated(from, to)
    requires v == u.(dirs := (u.dirs - {from})[to := u.dirs[from]])
    ensures Ready(v, from, to)
    ensures RenamedSoFar(v, from, to, |v.dirs[to]|) == RenameTree(u, from, to)
  {
    assert SameBelow(u.dirs, Source(v, from, to), from);
    MovedDirsOfChild(u, v, from, to);
    MovedFilesOfChild(u, v, from, to);
    ChildResult(v, from, to);
    Take(v.dirs[to], |v.dirs[to]|);
    RenameRootFirst(u.dirs, MovedDirs(v, from, to, u.dirs[from]), from, to);
  }

  // ---------------------------------------------------------------- the loop

  /** One entry of the loop is one step of the partial renaming. */
  lemma {:induction false} EntryIsStep(s: Namespace, from: Path, to: Path, base: Path, k: nat, limit: nat)
    requires from <= base && Ready(s, base, Rebase(base, from, to)) && k < |s.dirs[Rebase(base, from, to)]|
    requires LoopReady(RenamedSoFar(s, base, Rebase(base, from, to), k).dirs, from, to, base, k, limit)
    requires k < |RenamedSoFar(s, base, Rebase(base, from, to), k).dirs[Rebase(base, from, to)]|
    ensures EntryRenamed(RenamedSoFar(s, base, Rebase(base, from, to), k), from, to, base, k, limit)
         == RenamedSoFar(s, base, Rebase(base, from, to), k + 1)
    decreases limit - |base|, |s.dirs[Rebase(base, from, to)]| - k, 0
  {
    var newBase := Rebase(base, from, to);
    var u, c := RenamedSoFar(s, base, newBase, k), s.dirs[newBase][k];
    NextEntry(s, base, newBase, k);
    EntryTarget(from, to, base, c);
    if c in u.dirs {
      var target := Rebase(c, from, to);
      var v := ChildRekeyed(u, newBase, k, c, target);
      ChildMovedIsRekeyed(u, newBase, k, c, target);
      RenameChild(s, base, newBase, k, v);
      EntryStarts(u.dirs, from, to, base, k, limit, c);
      RenamedNone(v, c, target);
      LoopIsRenaming(v, from, to, c, 0, limit);
    } else {
      RenameAbsent(s, base, newBase, k);
    }
  }

  lemma ChildMovedIsRekeyed(u: Namespace, to: Path, k: nat, c: Path, target: Path)
    requires to in u.dirs && k < |u.dirs[to]| && c in u.dirs && c != to
    ensures ChildRekeyed(u, to, k, c, target) == ChildMoved(u, to, k, c, target)
  {
  }

  /** From any point on, the loop completes the renaming. */
  lemma {:induction false} LoopIsRenaming(s: Namespace, from: Path, to: Path, base: Path, k: nat, limit: nat)
    requires from <= base && Ready(s, base, Rebase(base, from, to)) && k <= |s.dirs[Rebase(base, from, to)]|
    requires LoopReady(RenamedSoFar(s, base, Rebase(base, from, to), k).dirs, from, to, base, k, limit)
    ensures RenameFrom(RenamedSoFar(s, base, Rebase(base, from, to), k), from, to, base, k, limit)
         == RenamedSoFar(s, base, Rebase(base, from, to), |s.dirs[Rebase(base, from, to)]|)
    decreases limit - |base|, |s.dirs[Rebase(base, from, to)]| - k, 1
  {
    var newBase := Rebase(base, from, to);
    RenamedLength(s, base, newBase, k);
    if k < |s.dirs[newBase]| {
      EntryIsStep(s, from, to, base, k, limit);
      LoopIsRenaming(s, from, to, base, k + 1, limit);
    }
  }

  /** Between unrelated paths, the loop renames everything reached, all at once as it were. */
  lemma LoopIsTree(u: Namespace, from: Path, to: Path, limit: nat)
    requires ChildrenAreDirect(u) && from in u.dirs && Unrelated(from, to) && KeysWithin(u.dirs, from, limit)
    ensures LoopReady(Rekeyed(u.dirs, from, to), from, to, from, 0, limit)
    ensures RenameFrom(u.(dirs := Rekeyed(u.dirs, from, to)), from, to, from, 0, limit) == RenameTree(u, from, to)
  {
    var v := u.(dirs := Rekeyed(u.dirs, from, to));
    RenameWhole(u, from, to, v);
    assert Rebase(from, from, to) == to;
    LoopIsWhole(v, from, to, limit);
  }

  lemma LoopIsWhole(v: Namespace, from: Path, to: Path, limit: nat)
    requires Ready(v, from, to) && LoopReady(v.dirs, from, to, from, 0, limit)
    ensures RenameFrom(v, from, to, from, 0, limit) == RenamedSoFar(v, from, to, |v.dirs[to]|)
  {
    assert Rebase(from, from, to) == to;
    RenamedNone(v, from, to);
    LoopIsRenaming(v, from, to, from, 0, limit);
  }

  lemma RenamedLength(s: Namespace, from: Path, to: Path, k: nat)
    requires Ready(s, from, to) && k <= |s.dirs[to]|
    ensures |RenamedSoFar(s, from, to, k).dirs[to]| == |s.dirs[to]|
  {
  }
}
