/** Which files a directory move overwrites, in every state a run can reach. */
module MoveFileLosses {
  import opened Paths
  import opened NamespaceSpec
  import opened NamespaceProofs
  import opened Subtrees
  import opened MoveLosses
  import opened Renaming

  // ---------------------------------------------------------------- the order of the files

  /** The same paths as `Visits` in the order in which the loop moves the files at them: the one at a listed
      path after those below it. */
  function FileVisits(dirs: map<Path, seq<Path>>, list: seq<Path>): seq<Path>
    decreases dirs.Keys, |list|
  {
    if list == [] then [] else FileVisit(dirs, list[0]) + FileVisits(dirs - {list[0]}, list[1..])
  }

  function FileVisit(dirs: map<Path, seq<Path>>, c: Path): seq<Path>
    decreases dirs.Keys, 0
  {
    (if c in dirs then FileVisits(dirs - {c}, dirs[c]) else []) + [c]
  }

  lemma {:induction false} SamePaths(dirs: map<Path, seq<Path>>, list: seq<Path>, q: Path)
    ensures q in FileVisits(dirs, list) <==> q in Visits(dirs, list)
    decreases dirs.Keys, |list|
  {
    if list != [] {
      SamePathsAt(dirs, list[0], q);
      SamePaths(dirs - {list[0]}, list[1..], q);
    }
  }

  lemma {:induction false} SamePathsAt(dirs: map<Path, seq<Path>>, c: Path, q: Path)
    ensures q in FileVisit(dirs, c) <==> q in Visit(dirs, c)
    decreases dirs.Keys, 0
  {
    if c in dirs { SamePaths(dirs - {c}, dirs[c], q); }
  }

  lemma {:induction false} FileVisitsSame(dirs: map<Path, seq<Path>>, other: map<Path, seq<Path>>, list: seq<Path>)
    requires Agree(dirs, other, Visits(dirs, list))
    ensures FileVisits(other, list) == FileVisits(dirs, list)
    decreases dirs.Keys, |list|
  {
    if list != [] {
      var c := list[0];
      FileVisitSame(dirs, other, c);
      FileVisitsSame(dirs - {c}, other - {c}, list[1..]);
    }
  }

  lemma {:induction false} FileVisitSame(dirs: map<Path, seq<Path>>, other: map<Path, seq<Path>>, c: Path)
    requires Agree(dirs, other, Visit(dirs, c))
    ensures FileVisit(other, c) == FileVisit(dirs, c)
    decreases dirs.Keys, 0
  {
    assert c in Visit(dirs, c);
    if c in dirs { FileVisitsSame(dirs - {c}, other - {c}, dirs[c]); }
  }

  /** The paths visited are those listed first and those that a directory visited lists. */
  predicate ListedAt(dirs: map<Path, seq<Path>>, base: Path, list: seq<Path>, visits: seq<Path>, e: Path) {
    base < e && if Parent(e) == base then e in list
                else Parent(e) in visits && Parent(e) in dirs && e in dirs[Parent(e)]
  }

  lemma {:induction false} VisitsListed(dirs: map<Path, seq<Path>>, base: Path, list: seq<Path>, e: Path)
    requires ListIsDirect(base, list) && BelowIsDirect(dirs, base)
    ensures e in Visits(dirs, list) <==> ListedAt(dirs, base, list, Visits(dirs, list), e)
    decreases dirs.Keys, |list|
  {
    if list != [] {
      var c := list[0];
      assert DirectChild(base, c);
      VisitBelow(dirs, base, c);
      VisitListed(dirs, base, c, e);
      VisitsListed(dirs - {c}, base, list[1..], e);
      assert c in Visit(dirs, c) && list == [c] + list[1..];
      assert c < e ==> Parent(e) != base && c <= Parent(e);
    }
  }

  lemma {:induction false} VisitListed(dirs: map<Path, seq<Path>>, base: Path, c: Path, e: Path)
    requires DirectChild(base, c) && BelowIsDirect(dirs, base)
    ensures e in Visit(dirs, c) <==>
              e == c || (c < e && Parent(e) in Visit(dirs, c) && Parent(e) in dirs && e in dirs[Parent(e)])
    decreases dirs.Keys, 0
  {
    if c in dirs {
      assert ListIsDirect(c, dirs[c]);
      VisitsListed(dirs - {c}, c, dirs[c], e);
      VisitsBelow(dirs - {c}, c, dirs[c]);
      assert c in Visits(dirs - {c}, dirs[c]) ==> ComesUnder(dirs - {c}, c, dirs[c], c);
    }
  }

  // ---------------------------------------------------------------- what the loop does to the files

  ghost predicate KeysShifted<V>(m: map<Path, V>, after: map<Path, V>, moved: set<Path>, from: Path, to: Path) {
    forall q :: KeyShifted(m, after, moved, from, to, q)
  }

  lemma KeysShiftedTwice<V>(m: map<Path, V>, between: map<Path, V>, after: map<Path, V>, a: seq<Path>, b: seq<Path>,
                            from: Path, to: Path)
    requires KeysShifted(m, between, Visited(m, a), from, to)
    requires KeysShifted(between, after, Visited(between, b), from, to)
    requires NoneOnto(m, a, b, from, to) && forall q <- a :: from <= q
    ensures KeysShifted(m, after, Visited(m, a + b), from, to)
  {
    var moved, more := Visited(m, a), Visited(between, b);
    forall q <- b ensures !Arrives(moved, from, to, q) { NotArrived(m, a, b, from, to, q); }
    forall q <- b ensures q in more <==> q in m && q !in moved { assert KeyShifted(m, between, moved, from, to, q); }
    assert Visited(m, a + b) == moved + more;
    forall q ensures KeyShifted(m, after, moved + more, from, to, q) {
      assert KeyShifted(m, between, moved, from, to, q) && KeyShifted(between, after, more, from, to, q);
    }
  }

  lemma NotArrived<V>(m: map<Path, V>, a: seq<Path>, b: seq<Path>, from: Path, to: Path, q: Path)
    requires NoneOnto(m, a, b, from, to) && q in b && forall p <- a :: from <= p
    ensures !Arrives(Visited(m, a), from, to, q)
  {
    if Arrives(Visited(m, a), from, to, q) {
      RebaseBack(q, to, from);
      assert Onto(m, Rebase(q, to, from), from, to, q);
    }
  }

  /** What is left of `b`'s order in the map after `a`. */
  lemma OrderlyLater<V>(m: map<Path, V>, between: map<Path, V>, a: seq<Path>, b: seq<Path>, from: Path, to: Path)
    requires KeysShifted(m, between, Visited(m, a), from, to) && Orderly(m, a + b, from, to)
    requires forall q <- a :: from <= q
    ensures Orderly(between, b, from, to) && NoneOnto(m, a, b, from, to)
  {
    OrderlyParts(m, a, b, from, to);
    forall q <- b ensures q in between ==> q in m {
      NotArrived(m, a, b, from, to, q);
      assert KeyShifted(m, between, Visited(m, a), from, to, q);
    }
    OrderlyWithin(m, between, b, from, to);
  }

  lemma OneShifted<V>(m: map<Path, V>, c: Path, from: Path, to: Path)
    requires from <= c && from != to
    ensures var own := if c in m then {c} else {};
            KeysShifted(m, RenameKeys(m, own, c, Rebase(c, from, to)), Visited(m, [c]), from, to)
  {
    var target := Rebase(c, from, to);
    RebaseMoves(c, from, to);
    if c in m {
      RenameOne(m, c, target);
      assert Visited(m, [c]) == {c};
      var after := m[target := m[c]] - {c};
      forall q ensures KeyShifted(m, after, {c}, from, to, q) { OneRekeyed(m, after, c, from, to, q); }
    } else {
      RenameNothing(m, c, target);
      assert Visited(m, [c]) == {};
      forall q ensures KeyShifted(m, m, {}, from, to, q) {}
    }
  }

  lemma OneRekeyed<V>(m: map<Path, V>, after: map<Path, V>, c: Path, from: Path, to: Path, q: Path)
    requires from <= c && c in m && Rebase(c, from, to) != c && after == m[Rebase(c, from, to) := m[c]] - {c}
    ensures KeyShifted(m, after, {c}, from, to, q)
  {
    RebaseBack(c, from, to);
    if to <= q { RebaseBack(q, to, from); }
  }

  lemma {:induction false} LoopMovesFiles(s: Namespace, from: Path, to: Path, base: Path, i: nat, limit: nat,
                                          whole: Namespace, visits: seq<Path>, fileVisits: seq<Path>)
    requires OnCourse(s, from, to, base, i, limit, whole) && DirectSoFar(s.dirs, base, Rebase(base, from, to), i)
    requires visits == Visits(s.dirs, s.dirs[Rebase(base, from, to)][i..])
    requires Orderly(s.dirs, visits, from, to) && Rebase(base, from, to) !in visits
    requires fileVisits == FileVisits(s.dirs, s.dirs[Rebase(base, from, to)][i..])
    requires Orderly(s.files, fileVisits, from, to)
    ensures KeysShifted(s.files, whole.files, Visited(s.files, fileVisits), from, to)
    decreases limit - |base|, 2, |s.dirs[Rebase(base, from, to)]| - i, 2
  {
    if i == |s.dirs[Rebase(base, from, to)]| {
      CourseEnds(s, from, to, base, i, limit, whole);
      assert Visited(s.files, fileVisits) == {};
      forall q ensures KeyShifted(s.files, s.files, {}, from, to, q) {}
    } else {
      NextMovesFiles(s, from, to, base, i, limit, whole, visits, fileVisits);
    }
  }

  lemma NextMovesFiles(s: Namespace, from: Path, to: Path, base: Path, i: nat, limit: nat, whole: Namespace,
                       visits: seq<Path>, fileVisits: seq<Path>)
    requires OnCourse(s, from, to, base, i, limit, whole) && DirectSoFar(s.dirs, base, Rebase(base, from, to), i)
    requires i < |s.dirs[Rebase(base, from, to)]| && visits == Visits(s.dirs, s.dirs[Rebase(base, from, to)][i..])
    requires Orderly(s.dirs, visits, from, to) && Rebase(base, from, to) !in visits
    requires fileVisits == FileVisits(s.dirs, s.dirs[Rebase(base, from, to)][i..])
    requires Orderly(s.files, fileVisits, from, to)
    ensures KeysShifted(s.files, whole.files, Visited(s.files, fileVisits), from, to)
    decreases limit - |base|, 2, |s.dirs[Rebase(base, from, to)]| - i, 1
  {
    var c, list := s.dirs[Rebase(base, from, to)][i], s.dirs[Rebase(base, from, to)][i + 1..];
    var first, later := FileVisit(s.dirs, c), FileVisits(s.dirs - {c}, list);
    FileVisitsNext(s.dirs, s.dirs[Rebase(base, from, to)], i);
    OrderlyParts(s.files, first, later, from, to);
    var t, _, rest := EntryLeaves(s, from, to, base, i, limit, whole, visits);
    EntryMovesFiles(s, from, to, base, i, limit, c);
    FileVisitsSame(s.dirs - {c}, t.dirs, list);
    OrderlyLater(s.files, t.files, first, later, from, to);
    LoopMovesFiles(t, from, to, base, i + 1, limit, whole, rest, later);
    KeysShiftedTwice(s.files, t.files, whole.files, first, later, from, to);
  }

  lemma FileVisitsNext(dirs: map<Path, seq<Path>>, list: seq<Path>, i: nat)
    requires i < |list|
    ensures FileVisits(dirs, list[i..]) == FileVisit(dirs, list[i]) + FileVisits(dirs - {list[i]}, list[i + 1..])
  {
    assert list[i..][0] == list[i] && list[i..][1..] == list[i + 1..];
  }

  lemma EntryMovesFiles(s: Namespace, from: Path, to: Path, base: Path, i: nat, limit: nat, c: Path)
    requires LoopReady(s.dirs, from, to, base, i, limit) && DirectSoFar(s.dirs, base, Rebase(base, from, to), i)
    requires i < |s.dirs[Rebase(base, from, to)]| && c == s.dirs[Rebase(base, from, to)][i]
    requires Orderly(s.dirs, Visit(s.dirs, c), from, to) && Rebase(base, from, to) !in Visit(s.dirs, c)
    requires Orderly(s.files, FileVisit(s.dirs, c), from, to)
    ensures forall q <- FileVisit(s.dirs, c) :: from <= q
    ensures KeysShifted(s.files, EntryRenamed(s, from, to, base, i, limit).files,
                        Visited(s.files, FileVisit(s.dirs, c)), from, to)
    decreases limit - |base|, 1
  {
    assert DirectChild(base, c);
    EntryTarget(from, to, base, c);
    FileVisitBelow(s.dirs, base, c, from);
    if c in s.dirs {
      ChildMovesFiles(s, from, to, base, i, limit, c);
    } else {
      EntryAloneIs(s, from, to, base, i, limit, c);
      OneShifted(s.files, c, from, to);
      assert FileVisit(s.dirs, c) == [c];
    }
  }

  lemma FileVisitBelow(dirs: map<Path, seq<Path>>, base: Path, c: Path, from: Path)
    requires from <= base < c && BelowIsDirect(dirs, base)
    ensures forall q <- FileVisit(dirs, c) :: from <= q
  {
    VisitBelow(dirs, base, c);
    forall q <- FileVisit(dirs, c) ensures from <= q { SamePathsAt(dirs, c, q); }
  }

  lemma EntryAloneIs(s: Namespace, from: Path, to: Path, base: Path, i: nat, limit: nat, c: Path)
    requires LoopReady(s.dirs, from, to, base, i, limit) && i < |s.dirs[Rebase(base, from, to)]|
    requires c == s.dirs[Rebase(base, from, to)][i] && base < c && c !in s.dirs
    ensures EntryRenamed(s, from, to, base, i, limit).files
         == RenameKeys(s.files, if c in s.files then {c} else {}, c, Rebase(c, from, to))
  {
    EntryTarget(from, to, base, c);
  }

  lemma EntryWithFileIs(s: Namespace, from: Path, to: Path, base: Path, i: nat, limit: nat, c: Path, r: Namespace)
    requires LoopReady(s.dirs, from, to, base, i, limit) && i < |s.dirs[Rebase(base, from, to)]|
    requires c == s.dirs[Rebase(base, from, to)][i] && base < c && c in s.dirs
    requires var v := ChildRekeyed(s, Rebase(base, from, to), i, c, Rebase(c, from, to));
             LoopReady(v.dirs, from, to, c, 0, limit) && RenameFrom(v, from, to, c, 0, limit) == r
    ensures EntryRenamed(s, from, to, base, i, limit).files
         == RenameKeys(r.files, if c in r.files then {c} else {}, c, Rebase(c, from, to))
  {
  }

  lemma ChildMovesFiles(s: Namespace, from: Path, to: Path, base: Path, i: nat, limit: nat, c: Path)
    requires LoopReady(s.dirs, from, to, base, i, limit) && DirectSoFar(s.dirs, base, Rebase(base, from, to), i)
    requires i < |s.dirs[Rebase(base, from, to)]| && c == s.dirs[Rebase(base, from, to)][i]
    requires base < c && c in s.dirs
    requires Orderly(s.dirs, Visit(s.dirs, c), from, to) && Rebase(base, from, to) !in Visit(s.dirs, c)
    requires Orderly(s.files, FileVisit(s.dirs, c), from, to) && forall q <- FileVisit(s.dirs, c) :: from <= q
    ensures KeysShifted(s.files, EntryRenamed(s, from, to, base, i, limit).files,
                        Visited(s.files, FileVisit(s.dirs, c)), from, to)
    decreases limit - |base|, 0
  {
    var v, below, files := ChildReadies(s, from, to, base, i, limit, c);
    var r := RenameFrom(v, from, to, c, 0, limit);
    OrderlyParts(s.files, files, [c], from, to);
    LoopMovesFiles(v, from, to, c, 0, limit, r, below, files);
    EntryWithFileIs(s, from, to, base, i, limit, c, r);
    OwnFileShifted(s.files, r.files, files, c, from, to);
  }

  lemma OwnFileShifted<V>(m: map<Path, V>, between: map<Path, V>, files: seq<Path>, c: Path, from: Path, to: Path)
    requires KeysShifted(m, between, Visited(m, files), from, to) && Orderly(m, files + [c], from, to) && from != to
    requires forall q <- files + [c] :: from <= q
    ensures from <= c
    ensures KeysShifted(m, RenameKeys(between, if c in between then {c} else {}, c, Rebase(c, from, to)),
                        Visited(m, files + [c]), from, to)
  {
    assert c in files + [c] && forall q <- files :: q in files + [c];
    OneShifted(between, c, from, to);
    OrderlyLater(m, between, files, [c], from, to);
    KeysShiftedTwice(m, between, RenameKeys(between, if c in between then {c} else {}, c, Rebase(c, from, to)),
                     files, [c], from, to);
  }

  /** Where the loop goes on below a child just re-keyed. */
  lemma ChildReadies(s: Namespace, from: Path, to: Path, base: Path, i: nat, limit: nat, c: Path)
    returns (v: Namespace, below: seq<Path>, files: seq<Path>)
    requires LoopReady(s.dirs, from, to, base, i, limit) && DirectSoFar(s.dirs, base, Rebase(base, from, to), i)
    requires i < |s.dirs[Rebase(base, from, to)]| && c == s.dirs[Rebase(base, from, to)][i]
    requires base < c && c in s.dirs
    requires Orderly(s.dirs, Visit(s.dirs, c), from, to) && Rebase(base, from, to) !in Visit(s.dirs, c)
    ensures var target := Rebase(c, from, to);
      && v == ChildRekeyed(s, Rebase(base, from, to), i, c, target) && v.files == s.files
      && LoopReady(v.dirs, from, to, c, 0, limit) && DirectSoFar(v.dirs, c, target, 0)
      && below == Visits(v.dirs, v.dirs[target][0..]) && Orderly(v.dirs, below, from, to) && target !in below
      && files == FileVisits(v.dirs, v.dirs[target][0..]) && FileVisit(s.dirs, c) == files + [c]
  {
    var newBase, target := Rebase(base, from, to), Rebase(c, from, to);
    v, below := ChildRekeyed(s, newBase, i, c, target), Visits(s.dirs - {c}, s.dirs[c]);
    files := FileVisits(s.dirs - {c}, s.dirs[c]);
    EntryTarget(from, to, base, c);
    EntryStarts(s.dirs, from, to, base, i, limit, c);
    ChildStartsDirect(s, base, newBase, i, c, target);
    ChildRekeyedIs(s, newBase, i, c, target);
    ChildVisits(s.dirs, v.dirs, c, from, to, newBase);
    ChildVisitsSame(s.dirs, v.dirs, c, from, to, newBase);
    FileVisitsSame(s.dirs - {c}, v.dirs, s.dirs[c]);
  }

  // ---------------------------------------------------------------- how many files are lost

  /** The files that a move re-keys: those listed by a directory that it re-keys. */
  ghost function MovedFiles(s: Namespace, from: Path, to: Path): (moved: set<Path>)
    requires ChildrenAreDirect(s) && Moves(s, from, to)
    ensures forall f <- moved :: from < f && f in s.files
  {
    MovesReady(s, from, to);
    ListedUnder(Relinked(s, from, to), from)
  }

  ghost function MoveFileVisits(s: Namespace, from: Path, to: Path): seq<Path>
    requires ChildrenAreDirect(s) && Moves(s, from, to)
  {
    MovesReady(s, from, to);
    var dirs := Relinked(s, from, to).dirs;
    FileVisits(dirs - {from}, dirs[from])
  }

  /** No file is moved onto a path whose file is to be moved afterwards. */
  ghost predicate FilesInOrder(s: Namespace, from: Path, to: Path)
    requires ChildrenAreDirect(s) && Moves(s, from, to)
  {
    Orderly(s.files, MoveFileVisits(s, from, to), from, to)
  }

  lemma FilesVisited(u: Namespace, from: Path)
    requires ChildrenAreDirect(u) && from in u.dirs
    ensures Visited(u.files, FileVisits(u.dirs - {from}, u.dirs[from])) == ListedUnder(u, from)
  {
    var dirs, list := u.dirs - {from}, u.dirs[from];
    assert ListIsDirect(from, list);
    VisitedIsReached(u.dirs, from);
    forall f <- u.files ensures f in FileVisits(dirs, list) <==> f in ListedUnder(u, from) {
      SamePaths(dirs, list, f);
      VisitsListed(dirs, from, list, f);
      FileListed(u, from, f);
    }
  }

  lemma FileListed(u: Namespace, from: Path, f: Path)
    requires ChildrenAreDirect(u) && from in u.dirs && f in u.files
    requires forall q :: q in ReachedDirs(u.dirs, from) <==>
                           q in u.dirs && (q == from || q in Visits(u.dirs - {from}, u.dirs[from]))
    ensures ListedAt(u.dirs - {from}, from, u.dirs[from], Visits(u.dirs - {from}, u.dirs[from]), f)
            <==> f in ListedUnder(u, from)
  {
    if f != ROOT && f in ListedUnder(u, from) { assert Parent(f) in ReachedDirs(u.dirs, from); }
    if from < f { assert f != ROOT && (Parent(f) in ReachedDirs(u.dirs, from) <==> Reached(u.dirs, from, Parent(f))); }
  }

  /** After a move whose loop keeps both orders there is a file at `q` exactly when one was re-keyed to it or one
      was there and was not re-keyed. */
  lemma MoveRekeysFiles(s: Namespace, from: Path, to: Path, q: Path)
    requires ChildrenAreDirect(s) && Moves(s, from, to) && MovesInOrder(s, from, to) && FilesInOrder(s, from, to)
    ensures q in MoveDirectory(s, from, to).0.files <==>
              (q in s.files && q !in MovedFiles(s, from, to)) || Arrives(MovedFiles(s, from, to), from, to, q)
  {
    MovesReady(s, from, to);
    var u := Relinked(s, from, to);
    if to < from {
      OrderlyWithin(s.dirs, u.dirs, MoveVisits(s, from, to), from, to);
      MovedUpRekeysFiles(u, from, to, q);
    } else {
      assert MovedFiles(s, from, to) * u.files.Keys == MovedFiles(s, from, to);
    }
  }

  lemma MovedUpRekeysFiles(u: Namespace, from: Path, to: Path, q: Path)
    requires ChildrenAreDirect(u) && from in u.dirs && to < from && to !in u.dirs
    requires Orderly(u.dirs, Visits(u.dirs - {from}, u.dirs[from]), from, to)
    requires Orderly(u.files, FileVisits(u.dirs - {from}, u.dirs[from]), from, to)
    ensures KeyShifted(u.files, MovedUp(u, from, to).files, ListedUnder(u, from), from, to, q)
  {
    var v, limit := u.(dirs := Rekeyed(u.dirs, from, to)), Longest(u.dirs.Keys);
    var visits, files := Visits(u.dirs - {from}, u.dirs[from]), FileVisits(u.dirs - {from}, u.dirs[from]);
    assert Rebase(from, from, to) == to;
    UpStartsDirect(u, from, to);
    UpVisits(u.dirs, v.dirs, from, to);
    OrderlyWithin(u.dirs, v.dirs, visits, from, to);
    FileVisitsSame(u.dirs - {from}, v.dirs, u.dirs[from]);
    assert v.dirs[to][0..] == u.dirs[from];
    LoopMovesFiles(v, from, to, from, 0, limit, MovedUp(u, from, to), visits, files);
    FilesVisited(u, from);
  }

  /** A move whose loop keeps both orders loses exactly the files that it does not re-key and re-keys others onto. */
  lemma MoveLosesFiles(s: Namespace, from: Path, to: Path)
    requires ChildrenAreDirect(s) && Moves(s, from, to) && MovesInOrder(s, from, to) && FilesInOrder(s, from, to)
    ensures var (t, moved) := (MoveDirectory(s, from, to).0, MovedFiles(s, from, to));
            && |t.files| == |s.files| - |Overwritten(s.files, moved, from, to)|
            && (|t.files| == |s.files| <==>
                  forall f <- moved :: Rebase(f, from, to) in s.files ==> Rebase(f, from, to) in moved)
  {
    var t, moved := MoveDirectory(s, from, to).0, MovedFiles(s, from, to);
    forall q ensures KeyShifted(s.files, t.files, moved, from, to, q) { MoveRekeysFiles(s, from, to, q); }
    RekeyedCount(s.files, t.files, moved, from, to);
    NoneOverwritten(s.files, moved, from, to);
  }

  /** The order is kept when no file is re-keyed to a path below the source. */
  lemma StaysOutFilesInOrder(s: Namespace, from: Path, to: Path)
    requires ChildrenAreDirect(s) && Moves(s, from, to)
    requires forall f <- MovedFiles(s, from, to) :: !(from < Rebase(f, from, to))
    ensures FilesInOrder(s, from, to)
  {
    MovesReady(s, from, to);
    var u, visits := Relinked(s, from, to), MoveFileVisits(s, from, to);
    assert ListIsDirect(from, u.dirs[from]);
    VisitsBelow(u.dirs - {from}, from, u.dirs[from]);
    FilesVisited(u, from);
    forall k, l | 0 <= k < l < |visits| ensures !Onto(s.files, visits[k], from, to, visits[l]) {
      SamePaths(u.dirs - {from}, u.dirs[from], visits[l]);
      assert visits[k] in visits && ComesUnder(u.dirs - {from}, from, u.dirs[from], visits[l]);
    }
  }
}
