/** Short runs from the empty namespace that reach the states and take the steps that lose something. */
module NamespaceWitnesses {
  import opened Paths
  import opened Sequences
  import opened NamespaceSpec
  import opened NamespaceProofs
  import opened MoveLosses
  import Renaming
  import Subtrees
  import opened NamespaceRuns
  import opened NamespaceHistory

  const EMPTY := FileEntry(0, [])

  /** One more step of a run. */
  lemma {:induction false} RunAppend(s: Namespace, ops: seq<Op>, op: Op)
    requires ChildrenAreDirect(s)
    ensures Run(s, ops + [op]) == After(Run(s, ops), op)
    decreases |ops|
  {
    if ops == [] {
      assert (ops + [op])[1..] == [];
    } else {
      StepKeepsDirect(s, ops[0]);
      RunAppend(After(s, ops[0]), ops[1..], op);
      assert (ops + [op])[1..] == ops[1..] + [op];
    }
  }

  lemma RunTo(ops: seq<Op>, op: Op, longer: seq<Op>, s: Namespace, t: Namespace)
    requires ChildrenAreDirect(s) && Run(INIT, ops) == s && After(s, op) == t && longer == ops + [op]
    ensures Run(INIT, longer) == t
  {
    RunAppend(INIT, ops, op);
  }

  lemma MkdirTop(s: Namespace, a: string)
    requires ChildrenAreDirect(s) && [a] !in s.dirs
    ensures After(s, Mkdir([a])) == s.(dirs := s.dirs[[a] := []])
  {
  }

  lemma MkdirBelow(s: Namespace, a: string, b: string)
    requires ChildrenAreDirect(s) && [a] in s.dirs && [a, b] !in s.dirs
    ensures After(s, Mkdir([a, b])) == s.(dirs := s.dirs[[a] := s.dirs[[a]] + [[a, b]]][[a, b] := []])
  {
    assert Parent([a, b]) == [a];
  }

  lemma CreateIn(s: Namespace, f: Path)
    requires ChildrenAreDirect(s) && f != ROOT && Parent(f) in s.dirs && f !in s.files
    ensures After(s, Create(f))
            == s.(dirs := s.dirs[Parent(f) := s.dirs[Parent(f)] + [f]], files := s.files[f := EMPTY])
  {
  }

  lemma MoveFileIn(s: Namespace, f: Path, g: Path)
    requires ChildrenAreDirect(s) && s.chunks == map[] && f in s.files && f !in s.dirs && f != ROOT
    requires g !in s.files && g != ROOT && g !in s.dirs && Parent(g) in s.dirs
    ensures After(s, Move(f, g)) == s.(files := s.files[g := s.files[f]] - {f})
  {
    Renaming.RenameOne(s.files, f, g);
    Renaming.RenameOne(s.chunks, f, g);
  }

  // ---------------------------------------------------------------- the index

  function TwoDirs(a: string, b: string): Namespace {
    Namespace(map[ROOT := [], [a] := [[a, b]], [a, b] := []], map[], map[])
  }

  lemma TwoDirsReached(a: string, b: string)
    ensures Run(INIT, [Mkdir([a]), Mkdir([a, b])]) == TwoDirs(a, b)
  {
    var s := INIT.(dirs := INIT.dirs[[a] := []]);
    MkdirTop(INIT, a);
    RunTo([], Mkdir([a]), [Mkdir([a])], INIT, s);
    SecondDir(s, a, b);
    RunTo([Mkdir([a])], Mkdir([a, b]), [Mkdir([a]), Mkdir([a, b])], s, TwoDirs(a, b));
  }

  lemma SecondDir(s: Namespace, a: string, b: string)
    requires s == INIT.(dirs := INIT.dirs[[a] := []])
    ensures ChildrenAreDirect(s) && After(s, Mkdir([a, b])) == TwoDirs(a, b)
  {
    MkdirBelow(s, a, b);
    SecondDirIs(s.dirs, a, b);
  }

  lemma SecondDirIs(dirs: map<Path, seq<Path>>, a: string, b: string)
    requires dirs == map[ROOT := []][[a] := []]
    ensures dirs[[a] := dirs[[a]] + [[a, b]]][[a, b] := []] == TwoDirs(a, b).dirs
  {
    assert dirs[[a]] + [[a, b]] == [[a, b]];
  }

  /** Moving a nested directory below a missing one is refused and still takes it off the index. */
  lemma RefusedMoveHappens(a: string, b: string, x: string, y: string)
    requires x != a
    ensures var s := Run(INIT, [Mkdir([a]), Mkdir([a, b])]);
            var (t, outcome) := MoveEntry(s, [a, b], [x, y]);
            Exact(s) && RefusedAfterUnlink(s, [a, b], [x, y]) && outcome.ParentMissing? && !DirInv(t)
  {
    var s := Run(INIT, [Mkdir([a]), Mkdir([a, b])]);
    TwoDirsAre(s, a, b, x, y);
    assert Parent([a, b]) == [a] && Parent([x, y]) == [x];
    RefusedMove(s, [a, b], [x, y]);
  }

  lemma TwoDirsAre(s: Namespace, a: string, b: string, x: string, y: string)
    requires x != a && s == Run(INIT, [Mkdir([a]), Mkdir([a, b])])
    ensures Exact(s) && [a, b] in s.dirs && [x, y] !in s.dirs && [x] !in s.dirs && s.files == map[]
  {
    TwoDirsReached(a, b);
    TwoDirsExact(a, b);
  }

  lemma TwoDirsExact(a: string, b: string)
    ensures Exact(TwoDirs(a, b))
  {
    assert Parent([a]) == ROOT && Parent([a, b]) == [a];
  }

  /** Then deleting its parent as an empty directory leaves it without one. */
  lemma OrphanHappens(a: string, b: string, x: string, y: string)
    requires x != a
    ensures var t := MoveEntry(Run(INIT, [Mkdir([a]), Mkdir([a, b])]), [a, b], [x, y]).0;
            var (w, outcome) := DeleteDirectory(t, [a], false);
            outcome.Done? && [a, b] in w.dirs && [a] !in w.dirs
  {
    RefusedMoveHappens(a, b, x, y);
    TwoDirsReached(a, b);
    assert Parent([a, b]) == [a];
    RefusedMoveAllowsOrphan(TwoDirs(a, b), [a, b], [x, y]);
  }

  /** A directory, and a file that was created at the top and moved into it. */
  function MovedIn(d: string, f: string, x: string): Namespace {
    Namespace(map[ROOT := [[f]], [d] := []], map[[d, x] := EMPTY], map[])
  }

  function MoveInto(d: string, f: string, x: string): seq<Op> {
    [Mkdir([d]), Create([f]), Move([f], [d, x])]
  }

  lemma MovedInReached(d: string, f: string, x: string)
    requires d != f
    ensures ChildrenAreDirect(MovedIn(d, f, x)) && Run(INIT, MoveInto(d, f, x)) == MovedIn(d, f, x)
  {
    var s := INIT.(dirs := INIT.dirs[[d] := []]);
    MkdirTop(INIT, d);
    RunTo([], Mkdir([d]), [Mkdir([d])], INIT, s);
    var t := Namespace(map[ROOT := [[f]], [d] := []], map[[f] := EMPTY], map[]);
    assert Parent([f]) == ROOT && Parent([d, x]) == [d];
    CreateIn(s, [f]);
    assert s.dirs[ROOT] + [[f]] == [[f]];
    assert s.dirs[ROOT := s.dirs[ROOT] + [[f]]] == t.dirs;
    RunTo([Mkdir([d])], Create([f]), [Mkdir([d]), Create([f])], s, t);
    MoveFileIn(t, [f], [d, x]);
    assert t.files[[d, x] := t.files[[f]]] - {[f]} == MovedIn(d, f, x).files;
    RunTo([Mkdir([d]), Create([f])], Move([f], [d, x]), MoveInto(d, f, x), t, MovedIn(d, f, x));
  }

  /** A file moved into a directory, then a directory made over it: deleting the file takes the
      directory off the index. */
  lemma DeleteOfDirectoryHappens(d: string, f: string, x: string)
    requires d != f
    ensures var s := Run(INIT, MoveInto(d, f, x) + [Mkdir([d, x])]);
            DirInv(s) && DeletesListingOfDirectory(s, [d, x]) && !DirInv(DeleteFile(s, [d, x]).0)
  {
    var s := MovedIn(d, f, x);
    var t := Namespace(map[ROOT := [[f]], [d] := [[d, x]], [d, x] := []], map[[d, x] := EMPTY], map[]);
    MovedInReached(d, f, x);
    MkdirBelow(s, d, x);
    assert s.dirs[[d]] + [[d, x]] == [[d, x]];
    assert s.dirs[[d] := s.dirs[[d]] + [[d, x]]][[d, x] := []] == t.dirs;
    RunTo(MoveInto(d, f, x), Mkdir([d, x]), MoveInto(d, f, x) + [Mkdir([d, x])], s, t);
    assert Parent([d]) == ROOT && Parent([d, x]) == [d] && Parent([f]) == ROOT;
    DeleteKeepsIff(t, [d, x]);
  }

  // ---------------------------------------------------------------- exact lists

  lemma TopFileReached(f: string)
    ensures Run(INIT, [Create([f])]) == Namespace(map[ROOT := [[f]]], map[[f] := EMPTY], map[])
    ensures Exact(Run(INIT, [Create([f])]))
  {
    assert Parent([f]) == ROOT;
    CreateIn(INIT, [f]);
    assert INIT.dirs[ROOT] + [[f]] == [[f]];
    var t := Namespace(map[ROOT := [[f]]], map[[f] := EMPTY], map[]);
    assert INIT.dirs[ROOT := [[f]]] == t.dirs;
    RunTo([], Create([f]), [Create([f])], INIT, t);
  }

  lemma TopDirReached(d: string)
    ensures Run(INIT, [Mkdir([d])]) == Namespace(map[ROOT := [], [d] := []], map[], map[])
    ensures Exact(Run(INIT, [Mkdir([d])]))
  {
    assert Parent([d]) == ROOT;
    MkdirTop(INIT, d);
    RunTo([], Mkdir([d]), [Mkdir([d])], INIT, Namespace(map[ROOT := [], [d] := []], map[], map[]));
  }

  /** A directory over a file, a file over a directory and a file move each follow one ordinary step. */
  lemma DirectoryOverFileHappens(f: string)
    ensures var s := Run(INIT, [Create([f])]); Exact(s) && !Exact(After(s, Mkdir([f])))
  {
    TopFileReached(f);
    MkdirKeepsExactIff(Run(INIT, [Create([f])]), [f]);
  }

  lemma FileOverDirectoryHappens(d: string)
    ensures var s := Run(INIT, [Mkdir([d])]); Exact(s) && !Exact(After(s, Create([d])))
  {
    TopDirReached(d);
    CreateKeepsExactIff(Run(INIT, [Mkdir([d])]), [d]);
  }

  lemma FileMoveHappens(f: string, g: string)
    requires f != g
    ensures var s := Run(INIT, [Create([f])]); Exact(s) && !Exact(After(s, Move([f], [g])))
  {
    TopFileReached(f);
    assert Parent([g]) == ROOT;
    MovedFileStaysListed(Run(INIT, [Create([f])]), [f], [g]);
  }

  // ---------------------------------------------------------------- lost files

  function Strand(t: string, f: string, w: string): seq<Op> {
    MoveInto(t, f, f) + [Move([t], [w])]
  }

  /** Nothing is reached from an empty directory but itself. */
  lemma EmptyReachesItself(s: Namespace, t: string)
    requires [t] in s.dirs && s.dirs[[t]] == []
    ensures ReachedDirs(s.dirs, [t]) == {[t]} && ListedUnder(s, [t]) == {}
  {
    forall q ensures Reached(s.dirs, [t], q) <==> q == [t] {
      if Reached(s.dirs, [t], q) && q != [t] { Subtrees.TowardExists(s.dirs, [t], q); }
    }
  }

  lemma RenameEmptyTree(s: Namespace, t: string, w: string)
    requires ChildrenAreDirect(s) && [t] in s.dirs && s.dirs[[t]] == [] && t != w
    ensures RenameTree(s, [t], [w]) == s.(dirs := s.dirs[[w] := []] - {[t]})
  {
    EmptyReachesItself(s, t);
    Renaming.RenameOne(s.dirs, [t], [w]);
    assert Relisted(s.dirs, {[t]}, [t], [w]) == s.dirs;
    Renaming.RenameNothing(s.files, [t], [w]);
    Renaming.RenameNothing(s.chunks, [t], [w]);
  }

  lemma MoveOfEmptyDirectory(s: Namespace, t: string, w: string)
    requires ChildrenAreDirect(s) && ROOT in s.dirs && [t] in s.dirs && s.dirs[[t]] == [] && [t] !in s.dirs[ROOT]
    requires [w] !in s.dirs && [w] !in s.files
    ensures After(s, Move([t], [w])) == s.(dirs := s.dirs[[w] := []] - {[t]})
  {
    UnlistedRelinked(s, t, w);
    RenameEmptyTree(s, t, w);
    MoveRelinked(s, [t], [w]);
  }

  lemma MoveRelinked(s: Namespace, from: Path, to: Path)
    requires ChildrenAreDirect(s) && from != ROOT && from in s.dirs && to !in s.dirs && to !in s.files
    requires |from| == |to| && Unlink(s.dirs, from) == s.dirs && ParentReady(s.dirs, to) && Relinked(s, from, to) == s
    ensures After(s, Move(from, to)) == RenameTree(s, from, to)
  {
    assert !(from < to) && !(to < from);
    assert MoveDirectory(s, from, to) == (RenameTree(s, from, to), Done);
  }

  lemma UnlistedRelinked(s: Namespace, t: string, w: string)
    requires ChildrenAreDirect(s) && ROOT in s.dirs && [t] !in s.dirs[ROOT]
    ensures ParentReady(s.dirs, [w]) && Unlink(s.dirs, [t]) == s.dirs && Relinked(s, [t], [w]) == s
  {
    assert Parent([t]) == ROOT && Parent([w]) == ROOT;
    assert s.dirs[ROOT := s.dirs[ROOT]] == s.dirs;
  }

  /** A file moved into a directory stays behind when that directory moves, without a parent. */
  lemma StrandingHappens(t: string, f: string, w: string)
    requires t != f && t != w
    ensures var s := Run(INIT, Strand(t, f, w));
            DirInv(s) && s == Namespace(map[ROOT := [[f]], [w] := []], map[[t, f] := EMPTY], map[])
  {
    var s := MovedIn(t, f, f);
    var u := Namespace(map[ROOT := [[f]], [w] := []], map[[t, f] := EMPTY], map[]);
    MovedInReached(t, f, f);
    assert Parent([t]) == ROOT && Parent([f]) == ROOT && Parent([w]) == ROOT;
    MoveOfEmptyDirectory(s, t, w);
    assert s.dirs[[w] := []] - {[t]} == u.dirs;
    RunTo(MoveInto(t, f, f), Move([t], [w]), Strand(t, f, w), s, u);
  }

  function Refill(t: string, f: string, w: string, a: string): seq<Op> {
    Strand(t, f, w) + [Mkdir([a]), Create([a, f])]
  }

  function Refilled(t: string, f: string, w: string, a: string): Namespace {
    Namespace(map[ROOT := [[f]], [w] := [], [a] := [[a, f]]], map[[t, f] := EMPTY, [a, f] := EMPTY], map[])
  }

  lemma RefilledReached(t: string, f: string, w: string, a: string)
    requires t != f && t != w && a != w && a != t
    ensures Run(INIT, Refill(t, f, w, a)) == Refilled(t, f, w, a)
  {
    StrandingHappens(t, f, w);
    var s := Run(INIT, Strand(t, f, w));
    var u := Namespace(map[ROOT := [[f]], [w] := [], [a] := []], map[[t, f] := EMPTY], map[]);
    MkdirTop(s, a);
    assert s.dirs[[a] := []] == u.dirs;
    RunTo(Strand(t, f, w), Mkdir([a]), Strand(t, f, w) + [Mkdir([a])], s, u);
    assert Parent([a, f]) == [a] && Parent([a]) == ROOT && Parent([f]) == ROOT;
    assert u.dirs[[a]] + [[a, f]] == [[a, f]];
    assert [a, f] != [t, f] by { assert [a, f][0] != [t, f][0]; }
    CreateIn(u, [a, f]);
    assert u.dirs[[a] := [[a, f]]] == Refilled(t, f, w, a).dirs;
    RunTo(Strand(t, f, w) + [Mkdir([a])], Create([a, f]), Refill(t, f, w, a), u, Refilled(t, f, w, a));
  }

  lemma RefilledMoves(t: string, f: string, w: string, a: string)
    requires t != f && t != w && a != w && a != t
    ensures var s := Refilled(t, f, w, a);
            && DirInv(s) && Moves(s, [a], [t])
            && [a, f] in s.files && Listed(s, [a, f]) && [t, f] in s.files && Rebase([a, f], [a], [t]) == [t, f]
  {
    var s := Refilled(t, f, w, a);
    assert Parent([a, f]) == [a] && Parent([a]) == ROOT && Parent([f]) == ROOT && Parent([w]) == ROOT;
    assert Parent([t]) == ROOT;
    assert DirInv(s);
  }

  lemma RefillMoves(s: Namespace, t: string, f: string, w: string, a: string)
    requires t != f && t != w && a != w && a != t
    requires s == Run(INIT, Refill(t, f, w, a))
    ensures DirInv(s) && Moves(s, [a], [t])
    ensures [a, f] in s.files && Listed(s, [a, f]) && [t, f] in s.files && Rebase([a, f], [a], [t]) == [t, f]
  {
    RefilledReached(t, f, w, a);
    RefilledMoves(t, f, w, a);
  }

  /** A directory with a file of the same name then moves to the vacated path, and one file is lost. */
  lemma OverwritingHappens(t: string, f: string, w: string, a: string)
    requires t != f && t != w && a != w && a != t
    ensures var s := Run(INIT, Refill(t, f, w, a));
            DirInv(s) && Moves(s, [a], [t]) && |MoveDirectory(s, [a], [t]).0.files| < |s.files|
  {
    var s := Run(INIT, Refill(t, f, w, a));
    RefillMoves(s, t, f, w, a);
    MoveOverwrites(s, [a], [t], [a, f], [t, f]);
  }

  lemma MoveOverwrites(s: Namespace, from: Path, to: Path, f: Path, g: Path)
    requires DirInv(s) && Moves(s, from, to) && f in s.files && from < f && Listed(s, f)
    requires g in s.files && Rebase(f, from, to) == g
    ensures |MoveDirectory(s, from, to).0.files| < |s.files|
  {
    MoveIsTree(s, from, to);
    MovedFileKeys(s, from, to);
    ListedUnderIff(s, from, f);
    MoveLosesOverwritten(s, from, to);
  }

  // ---------------------------------------------------------------- lost directories

  lemma MkdirAt(s: Namespace, p: Path)
    requires ChildrenAreDirect(s) && p != ROOT && Parent(p) != ROOT && Parent(p) in s.dirs && p !in s.dirs
    ensures After(s, Mkdir(p)) == s.(dirs := s.dirs[Parent(p) := s.dirs[Parent(p)] + [p]][p := []])
  {
  }

  /** A nested directory with two subdirectories, one of them with a subdirectory named like the other. */
  function Deep(a: string, b: string, c: string): Namespace {
    Namespace(map[ROOT := [], [a] := [[a, b]], [a, b] := [[a, b, b], [a, b, c]], [a, b, b] := [[a, b, b, c]],
                  [a, b, c] := [], [a, b, b, c] := []], map[], map[])
  }

  function MakeDeep(a: string, b: string, c: string): seq<Op> {
    [Mkdir([a]), Mkdir([a, b]), Mkdir([a, b, b]), Mkdir([a, b, c]), Mkdir([a, b, b, c])]
  }

  // The same after three steps and after four.
  function Thin(a: string, b: string): Namespace {
    Namespace(map[ROOT := [], [a] := [[a, b]], [a, b] := [[a, b, b]], [a, b, b] := []], map[], map[])
  }

  function Shallow(a: string, b: string, c: string): Namespace {
    Namespace(map[ROOT := [], [a] := [[a, b]], [a, b] := [[a, b, b], [a, b, c]], [a, b, b] := [], [a, b, c] := []],
              map[], map[])
  }

  lemma ShallowReached(a: string, b: string, c: string)
    requires b != c
    ensures ChildrenAreDirect(TwoDirs(a, b)) && Run(INIT, MakeDeep(a, b, c)[..4]) == Shallow(a, b, c)
  {
    var t := Thin(a, b);
    ThinReached(a, b, c);
    ShallowStep(a, b, c);
    assert MakeDeep(a, b, c)[..4] == MakeDeep(a, b, c)[..3] + [Mkdir([a, b, c])];
    RunTo(MakeDeep(a, b, c)[..3], Mkdir([a, b, c]), MakeDeep(a, b, c)[..4], t, Shallow(a, b, c));
  }

  lemma ThinReached(a: string, b: string, c: string)
    ensures ChildrenAreDirect(TwoDirs(a, b)) && ChildrenAreDirect(Thin(a, b))
    ensures Run(INIT, MakeDeep(a, b, c)[..3]) == Thin(a, b)
  {
    var s := TwoDirs(a, b);
    TwoDirsReached(a, b);
    TwoDirsExact(a, b);
    ThinStep(a, b);
    StepKeepsDirect(s, Mkdir([a, b, b]));
    assert MakeDeep(a, b, c)[..3] == [Mkdir([a]), Mkdir([a, b])] + [Mkdir([a, b, b])];
    RunTo([Mkdir([a]), Mkdir([a, b])], Mkdir([a, b, b]), MakeDeep(a, b, c)[..3], s, Thin(a, b));
  }

  lemma ThinStep(a: string, b: string)
    requires ChildrenAreDirect(TwoDirs(a, b))
    ensures After(TwoDirs(a, b), Mkdir([a, b, b])) == Thin(a, b)
  {
    var s := TwoDirs(a, b);
    assert Parent([a, b, b]) == [a, b];
    MkdirAt(s, [a, b, b]);
    assert s.dirs[[a, b]] + [[a, b, b]] == [[a, b, b]];
    assert s.dirs[[a, b] := [[a, b, b]]][[a, b, b] := []] == Thin(a, b).dirs;
  }

  lemma ShallowStep(a: string, b: string, c: string)
    requires b != c && ChildrenAreDirect(Thin(a, b))
    ensures After(Thin(a, b), Mkdir([a, b, c])) == Shallow(a, b, c)
  {
    var t := Thin(a, b);
    assert Parent([a, b, c]) == [a, b];
    assert [a, b, b] != [a, b, c] by { assert [a, b, b][2] != [a, b, c][2]; }
    MkdirAt(t, [a, b, c]);
    assert t.dirs[[a, b]] + [[a, b, c]] == [[a, b, b], [a, b, c]];
    assert t.dirs[[a, b] := [[a, b, b], [a, b, c]]][[a, b, c] := []] == Shallow(a, b, c).dirs;
  }

  lemma DeepReached(a: string, b: string, c: string)
    requires b != c
    ensures Run(INIT, MakeDeep(a, b, c)) == Deep(a, b, c)
  {
    var u := Shallow(a, b, c);
    ShallowReached(a, b, c);
    ShallowIsDirect(a, b, c);
    assert Parent([a, b, b, c]) == [a, b, b];
    assert [a, b, b] != [a, b, c] by { assert [a, b, b][2] != [a, b, c][2]; }
    MkdirAt(u, [a, b, b, c]);
    assert u.dirs[[a, b, b]] + [[a, b, b, c]] == [[a, b, b, c]];
    assert u.dirs[[a, b, b] := [[a, b, b, c]]][[a, b, b, c] := []] == Deep(a, b, c).dirs;
    RunTo(MakeDeep(a, b, c)[..4], Mkdir([a, b, b, c]), MakeDeep(a, b, c), u, Deep(a, b, c));
  }

  lemma ShallowIsDirect(a: string, b: string, c: string)
    requires b != c
    ensures ChildrenAreDirect(Shallow(a, b, c))
  {
    assert Parent([a, b, b]) == [a, b] && Parent([a, b, c]) == [a, b] && Parent([a, b]) == [a];
  }

  /** Taken off the index by a refused move, and its parent deleted. */
  function LoseParent(a: string, b: string, c: string, x: string, y: string): seq<Op> {
    MakeDeep(a, b, c) + [Move([a, b], [x, y])] + [Rmdir([a], false)]
  }

  function Orphaned(a: string, b: string, c: string): Namespace {
    Namespace(map[ROOT := [], [a, b] := [[a, b, b], [a, b, c]], [a, b, b] := [[a, b, b, c]], [a, b, c] := [],
                  [a, b, b, c] := []], map[], map[])
  }

  lemma RefusedStep(s: Namespace, a: string, b: string, x: string, y: string)
    requires ChildrenAreDirect(s) && [a, b] in s.dirs && [a] in s.dirs && s.files == map[]
    requires [x] !in s.dirs && [x, y] !in s.dirs
    ensures After(s, Move([a, b], [x, y])) == s.(dirs := s.dirs[[a] := Without(s.dirs[[a]], [a, b])])
  {
    assert Parent([a, b]) == [a] && Parent([x, y]) == [x];
    assert [a, b] < [x, y] ==> false by { assert |[a, b]| == |[x, y]|; }
  }

  lemma RmdirStep(s: Namespace, a: string)
    requires ChildrenAreDirect(s) && [a] in s.dirs && s.dirs[[a]] == [] && s.files == map[]
    requires ROOT in s.dirs && s.dirs[ROOT] == []
    ensures After(s, Rmdir([a], false)) == s.(dirs := s.dirs - {[a]})
  {
    assert Parent([a]) == ROOT;
    assert FilesIn(s, [a]) == {};
    assert (s.dirs - {[a]})[ROOT := []] == s.dirs - {[a]};
  }

  lemma OrphanedReached(a: string, b: string, c: string, x: string, y: string)
    requires b != c && x != a
    ensures Run(INIT, LoseParent(a, b, c, x, y)) == Orphaned(a, b, c)
  {
    var s := Deep(a, b, c);
    DeepReached(a, b, c);
    DeepIsDirect(a, b, c);
    RefusedStep(s, a, b, x, y);
    assert [[a, b]][1..] == [];
    assert Without([[a, b]], [a, b]) == [];
    var t := s.(dirs := s.dirs[[a] := []]);
    RunTo(MakeDeep(a, b, c), Move([a, b], [x, y]), MakeDeep(a, b, c) + [Move([a, b], [x, y])], s, t);
    StepKeepsDirect(s, Move([a, b], [x, y]));
    RmdirStep(t, a);
    assert t.dirs - {[a]} == Orphaned(a, b, c).dirs;
    RunTo(MakeDeep(a, b, c) + [Move([a, b], [x, y])], Rmdir([a], false), LoseParent(a, b, c, x, y), t,
          Orphaned(a, b, c));
  }

  lemma DeepIsDirect(a: string, b: string, c: string)
    requires b != c
    ensures ChildrenAreDirect(Deep(a, b, c))
  {
    assert Parent([a, b, b]) == [a, b] && Parent([a, b, c]) == [a, b] && Parent([a, b]) == [a];
    assert Parent([a, b, b, c]) == [a, b, b];
  }

  /** An entry that names a childless directory, in a namespace without files. */
  lemma LeafRenamed(s: Namespace, from: Path, to: Path, base: Path, i: nat, limit: nat)
    requires LoopReady(s.dirs, from, to, base, i, limit) && i < |s.dirs[Rebase(base, from, to)]|
    requires var c := s.dirs[Rebase(base, from, to)][i]; base < c && c in s.dirs && s.dirs[c] == []
    requires s.files == map[] && s.chunks == map[]
    ensures var (newBase, c) := (Rebase(base, from, to), s.dirs[Rebase(base, from, to)][i]);
            EntryRenamed(s, from, to, base, i, limit) == ChildRekeyed(s, newBase, i, c, Rebase(c, from, to))
  {
    var newBase, c := Rebase(base, from, to), s.dirs[Rebase(base, from, to)][i];
    var v := ChildRekeyed(s, newBase, i, c, Rebase(c, from, to));
    EntryTarget(from, to, base, c);
    EntryStarts(s.dirs, from, to, base, i, limit, c);
    assert RenameFrom(v, from, to, c, 0, limit) == v;
    Renaming.RenameNothing(v.files, c, Rebase(c, from, to));
    Renaming.RenameNothing(v.chunks, c, Rebase(c, from, to));
  }

  lemma LoopOfOne(s: Namespace, from: Path, to: Path, base: Path, i: nat, limit: nat)
    requires LoopReady(s.dirs, from, to, base, i, limit) && i + 1 == |s.dirs[Rebase(base, from, to)]|
    ensures RenameFrom(s, from, to, base, i, limit) == EntryRenamed(s, from, to, base, i, limit)
  {
  }

  lemma LoopOfTwo(s: Namespace, from: Path, to: Path, base: Path, limit: nat)
    requires LoopReady(s.dirs, from, to, base, 0, limit) && |s.dirs[Rebase(base, from, to)]| == 2
    ensures LoopReady(EntryRenamed(s, from, to, base, 0, limit).dirs, from, to, base, 1, limit)
    ensures |EntryRenamed(s, from, to, base, 0, limit).dirs[Rebase(base, from, to)]| == 2
    ensures RenameFrom(s, from, to, base, 0, limit)
         == EntryRenamed(EntryRenamed(s, from, to, base, 0, limit), from, to, base, 1, limit)
  {
    LoopOfOne(EntryRenamed(s, from, to, base, 0, limit), from, to, base, 1, limit);
  }

  // What the loop holds: once the directory is re-keyed, within the first entry, after it, at the end.
  function AtTop(a: string, b: string, c: string): Namespace {
    Namespace(map[ROOT := [], [a] := [[a, b, b], [a, b, c]], [a, b, b] := [[a, b, b, c]], [a, b, c] := [],
                  [a, b, b, c] := []], map[], map[])
  }

  function InFirst(a: string, b: string, c: string): Namespace {
    Namespace(map[ROOT := [], [a] := [[a, b], [a, b, c]], [a, b] := [[a, b, b, c]], [a, b, c] := [],
                  [a, b, b, c] := []], map[], map[])
  }

  function AfterFirst(a: string, b: string, c: string): Namespace {
    Namespace(map[ROOT := [], [a] := [[a, b], [a, b, c]], [a, b] := [[a, b, c]], [a, b, c] := []], map[], map[])
  }

  function AtEnd(a: string, b: string, c: string): Namespace {
    Namespace(map[ROOT := [], [a] := [[a, b], [a, c]], [a, b] := [[a, b, c]], [a, c] := []], map[], map[])
  }

  lemma Targets(a: string, b: string, c: string)
    ensures Rebase([a, b], [a, b], [a]) == [a] && Rebase([a, b, b], [a, b], [a]) == [a, b]
    ensures Rebase([a, b, c], [a, b], [a]) == [a, c] && Rebase([a, b, b, c], [a, b], [a]) == [a, b, c]
  {
    assert [a, b][2..] == [] && [a, b, b][2..] == [b] && [a, b, c][2..] == [c] && [a, b, b, c][2..] == [b, c];
    assert [a] + [] == [a] && [a] + [b] == [a, b] && [a] + [c] == [a, c] && [a] + [b, c] == [a, b, c];
  }

  lemma Differ(a: string, b: string, c: string)
    requires b != c
    ensures [a, b, b] != [a, b, c] && [a, b] != [a, c]
  {
    assert [a, b, b][2] != [a, b, c][2] && [a, b][1] != [a, c][1];
  }

  lemma InnerRekeyed(a: string, b: string, c: string)
    requires b != c
    ensures ChildRekeyed(InFirst(a, b, c), [a, b], 0, [a, b, b, c], [a, b, c]) == AfterFirst(a, b, c)
  {
    Differ(a, b, c);
    assert [[a, b, b, c]][0 := [a, b, c]] == [[a, b, c]];
    assert ChildRekeyed(InFirst(a, b, c), [a, b], 0, [a, b, b, c], [a, b, c]).dirs == AfterFirst(a, b, c).dirs;
  }

  lemma InnerEntry(a: string, b: string, c: string, limit: nat)
    requires b != c && limit >= 4
    ensures LoopReady(InFirst(a, b, c).dirs, [a, b], [a], [a, b, b], 0, limit)
    ensures RenameFrom(InFirst(a, b, c), [a, b], [a], [a, b, b], 0, limit) == AfterFirst(a, b, c)
  {
    var s := InFirst(a, b, c);
    Targets(a, b, c);
    Differ(a, b, c);
    assert [a, b] <= [a, b, b] < [a, b, b, c];
    InnerRekeyed(a, b, c);
    LeafRenamed(s, [a, b], [a], [a, b, b], 0, limit);
    LoopOfOne(s, [a, b], [a], [a, b, b], 0, limit);
  }

  lemma FirstEntry(a: string, b: string, c: string, limit: nat)
    requires b != c && limit >= 4
    ensures LoopReady(AtTop(a, b, c).dirs, [a, b], [a], [a, b], 0, limit)
    ensures EntryRenamed(AtTop(a, b, c), [a, b], [a], [a, b], 0, limit) == AfterFirst(a, b, c)
  {
    var s := AtTop(a, b, c);
    Targets(a, b, c);
    Differ(a, b, c);
    assert [a, b] < [a, b, b];
    assert [[a, b, b], [a, b, c]][0 := [a, b]] == [[a, b], [a, b, c]];
    assert ChildRekeyed(s, [a], 0, [a, b, b], [a, b]).dirs == InFirst(a, b, c).dirs;
    InnerEntry(a, b, c, limit);
    NoFileMoved(AfterFirst(a, b, c), [a, b, b], [a, b]);
  }

  lemma NoFileMoved(s: Namespace, c: Path, target: Path)
    requires s.files == map[] && s.chunks == map[]
    ensures FileMoved(s, c, target) == s
  {
    Renaming.RenameNothing(s.files, c, target);
    Renaming.RenameNothing(s.chunks, c, target);
  }

  lemma SecondEntry(a: string, b: string, c: string, limit: nat)
    requires b != c && limit >= 4
    ensures LoopReady(AfterFirst(a, b, c).dirs, [a, b], [a], [a, b], 1, limit)
    ensures EntryRenamed(AfterFirst(a, b, c), [a, b], [a], [a, b], 1, limit) == AtEnd(a, b, c)
  {
    Targets(a, b, c);
    assert [a, b] < [a, b, c];
    SecondRekeyed(a, b, c);
    LeafRenamed(AfterFirst(a, b, c), [a, b], [a], [a, b], 1, limit);
  }

  lemma SecondRekeyed(a: string, b: string, c: string)
    requires b != c
    ensures ChildRekeyed(AfterFirst(a, b, c), [a], 1, [a, b, c], [a, c]) == AtEnd(a, b, c)
  {
    Differ(a, b, c);
    assert [[a, b], [a, b, c]][1 := [a, c]] == [[a, b], [a, c]];
    assert ChildRekeyed(AfterFirst(a, b, c), [a], 1, [a, b, c], [a, c]).dirs == AtEnd(a, b, c).dirs;
  }

  lemma MovedUpIs(a: string, b: string, c: string)
    requires b != c
    ensures MovedUp(Orphaned(a, b, c), [a, b], [a]) == AtEnd(a, b, c)
  {
    var s, limit := Orphaned(a, b, c), Longest(Orphaned(a, b, c).dirs.Keys);
    Targets(a, b, c);
    assert [a, b, b, c] in s.dirs.Keys;
    assert Rekeyed(s.dirs, [a, b], [a]) == AtTop(a, b, c).dirs;
    FirstEntry(a, b, c, limit);
    SecondEntry(a, b, c, limit);
    LoopOfTwo(AtTop(a, b, c), [a, b], [a], [a, b], limit);
  }

  lemma MoveUpIs(s: Namespace, a: string, b: string, c: string)
    requires b != c && s == Orphaned(a, b, c)
    ensures ChildrenAreDirect(s) && MovesUp(s, [a, b], [a])
    ensures MoveEntry(s, [a, b], [a]) == (AtEnd(a, b, c), Done) && Relinked(s, [a, b], [a]) == s
  {
    OrphanedIsDirect(a, b, c);
    assert Parent([a, b]) == [a] && Parent([a]) == ROOT && [a] < [a, b];
    assert Relinked(s, [a, b], [a]) == s;
    MovedUpIs(a, b, c);
  }

  lemma OrphanedIsDirect(a: string, b: string, c: string)
    requires b != c
    ensures ChildrenAreDirect(Orphaned(a, b, c))
  {
    assert Parent([a, b, b]) == [a, b] && Parent([a, b, c]) == [a, b] && Parent([a, b, b, c]) == [a, b, b];
  }

  lemma OneFewer(a: string, b: string, c: string)
    requires b != c
    ensures |AtEnd(a, b, c).dirs| == 4 && |Orphaned(a, b, c).dirs| == 5
  {
    Differ(a, b, c);
    assert AtEnd(a, b, c).dirs.Keys == {ROOT, [a], [a, b], [a, c]};
    assert Orphaned(a, b, c).dirs.Keys == {ROOT, [a, b], [a, b, b], [a, b, c], [a, b, b, c]};
  }

  /** Every directory but the root is moved. */
  lemma AllMoved(s: Namespace, a: string, b: string, c: string)
    requires b != c && s == Orphaned(a, b, c)
    ensures ReachedDirs(s.dirs, [a, b]) == {[a, b], [a, b, b], [a, b, c], [a, b, b, c]}
  {
    Differ(a, b, c);
    assert Parent([a, b, b]) == [a, b] && Parent([a, b, c]) == [a, b] && Parent([a, b, b, c]) == [a, b, b];
    assert Reached(s.dirs, [a, b], [a, b]) && Reached(s.dirs, [a, b], [a, b, b]) && Reached(s.dirs, [a, b], [a, b, c]);
    assert Reached(s.dirs, [a, b], [a, b, b, c]);
    assert !Reached(s.dirs, [a, b], ROOT);
  }

  lemma OutOfOrder(s: Namespace, a: string, b: string, c: string)
    requires b != c && s == Orphaned(a, b, c)
    ensures ChildrenAreDirect(s) && Moves(s, [a, b], [a]) && !MovesInOrder(s, [a, b], [a])
  {
    MoveUpIs(s, a, b, c);
    AllMoved(s, a, b, c);
    OneFewer(a, b, c);
    assert s.dirs.Keys == {ROOT, [a, b], [a, b, b], [a, b, c], [a, b, b, c]};
    assert Overwritten(s.dirs, Moved(s, [a, b], [a]), [a, b], [a]) == {};
    if MovesInOrder(s, [a, b], [a]) { MoveLosesDirs(s, [a, b], [a]); }
  }

  /** Moved onto the path of its deleted parent, the directory loses one of its subdirectories: another
      is re-keyed onto its path before its turn comes, and the list that names it names nothing. */
  lemma MoveUpLosesDirectory(a: string, b: string, c: string, x: string, y: string)
    requires b != c && x != a
    ensures var (s, t) := (Run(INIT, LoseParent(a, b, c, x, y)), AtEnd(a, b, c));
            && MovesUp(s, [a, b], [a]) && MoveEntry(s, [a, b], [a]) == (t, Done)
            && |t.dirs| == |s.dirs| - 1 && [a, b] in t.dirs && [a, b, c] in t.dirs[[a, b]] && [a, b, c] !in t.dirs
            && ChildrenAreDirect(s) && Moves(s, [a, b], [a]) && !MovesInOrder(s, [a, b], [a])
  {
    OrphanedReached(a, b, c, x, y);
    MoveUpIs(Orphaned(a, b, c), a, b, c);
    OutOfOrder(Orphaned(a, b, c), a, b, c);
    OneFewer(a, b, c);
    Differ(a, b, c);
  }

  // The same without the directory at the last path of the first list, which is stale: to start with, once the
  // directory is re-keyed, and within the first entry.
  function Stale(a: string, b: string, c: string): Namespace {
    Namespace(map[ROOT := [], [a, b] := [[a, b, b], [a, b, c]], [a, b, b] := [[a, b, b, c]], [a, b, b, c] := []],
              map[], map[])
  }

  function StaleAtTop(a: string, b: string, c: string): Namespace {
    Namespace(map[ROOT := [], [a] := [[a, b, b], [a, b, c]], [a, b, b] := [[a, b, b, c]], [a, b, b, c] := []],
              map[], map[])
  }

  function StaleInFirst(a: string, b: string, c: string): Namespace {
    Namespace(map[ROOT := [], [a] := [[a, b], [a, b, c]], [a, b] := [[a, b, b, c]], [a, b, b, c] := []], map[], map[])
  }

  lemma StaleInnerRekeyed(a: string, b: string, c: string)
    requires b != c
    ensures ChildRekeyed(StaleInFirst(a, b, c), [a, b], 0, [a, b, b, c], [a, b, c]) == AfterFirst(a, b, c)
  {
    Differ(a, b, c);
    assert [[a, b, b, c]][0 := [a, b, c]] == [[a, b, c]];
    assert ChildRekeyed(StaleInFirst(a, b, c), [a, b], 0, [a, b, b, c], [a, b, c]).dirs == AfterFirst(a, b, c).dirs;
  }

  lemma StaleInnerEntry(a: string, b: string, c: string, limit: nat)
    requires b != c && limit >= 4
    ensures LoopReady(StaleInFirst(a, b, c).dirs, [a, b], [a], [a, b, b], 0, limit)
    ensures RenameFrom(StaleInFirst(a, b, c), [a, b], [a], [a, b, b], 0, limit) == AfterFirst(a, b, c)
  {
    var s := StaleInFirst(a, b, c);
    Targets(a, b, c);
    Differ(a, b, c);
    assert [a, b] <= [a, b, b] < [a, b, b, c];
    StaleInnerRekeyed(a, b, c);
    LeafRenamed(s, [a, b], [a], [a, b, b], 0, limit);
    LoopOfOne(s, [a, b], [a], [a, b, b], 0, limit);
  }

  lemma StaleFirstEntry(a: string, b: string, c: string, limit: nat)
    requires b != c && limit >= 4
    ensures LoopReady(StaleAtTop(a, b, c).dirs, [a, b], [a], [a, b], 0, limit)
    ensures EntryRenamed(StaleAtTop(a, b, c), [a, b], [a], [a, b], 0, limit) == AfterFirst(a, b, c)
  {
    var s := StaleAtTop(a, b, c);
    Targets(a, b, c);
    Differ(a, b, c);
    assert [a, b] < [a, b, b];
    assert [[a, b, b], [a, b, c]][0 := [a, b]] == [[a, b], [a, b, c]];
    assert ChildRekeyed(s, [a], 0, [a, b, b], [a, b]).dirs == StaleInFirst(a, b, c).dirs;
    StaleInnerEntry(a, b, c, limit);
    NoFileMoved(AfterFirst(a, b, c), [a, b, b], [a, b]);
  }

  lemma StaleMovedUpIs(a: string, b: string, c: string)
    requires b != c
    ensures MovedUp(Stale(a, b, c), [a, b], [a]) == AtEnd(a, b, c)
  {
    var s, limit := Stale(a, b, c), Longest(Stale(a, b, c).dirs.Keys);
    Targets(a, b, c);
    assert [a, b, b, c] in s.dirs.Keys;
    assert Rekeyed(s.dirs, [a, b], [a]) == StaleAtTop(a, b, c).dirs;
    StaleFirstEntry(a, b, c, limit);
    SecondEntry(a, b, c, limit);
    LoopOfTwo(StaleAtTop(a, b, c), [a, b], [a], [a, b], limit);
  }

  lemma StaleMoves(s: Namespace, a: string, b: string, c: string)
    requires b != c && s == Stale(a, b, c)
    ensures ChildrenAreDirect(s) && Moves(s, [a, b], [a]) && MoveDirectory(s, [a, b], [a]).0 == AtEnd(a, b, c)
    ensures [a, b, b, c] in Moved(s, [a, b], [a])
  {
    StaleIsDirect(a, b, c);
    StaleReached(a, b, c);
    assert Parent([a, b]) == [a] && Parent([a]) == ROOT && [a] < [a, b];
    assert Relinked(s, [a, b], [a]) == s;
    StaleMovedUpIs(a, b, c);
  }

  lemma StaleIsDirect(a: string, b: string, c: string)
    requires b != c
    ensures ChildrenAreDirect(Stale(a, b, c))
  {
    assert Parent([a, b, b]) == [a, b] && Parent([a, b, c]) == [a, b] && Parent([a, b, b, c]) == [a, b, b];
  }

  lemma StaleReached(a: string, b: string, c: string)
    ensures [a, b, b, c] in ReachedDirs(Stale(a, b, c).dirs, [a, b])
  {
    var dirs := Stale(a, b, c).dirs;
    assert Parent([a, b, b]) == [a, b] && Parent([a, b, b, c]) == [a, b, b];
    assert Reached(dirs, [a, b], [a, b]) && Reached(dirs, [a, b], [a, b, b]);
  }

  /** A stale entry can make the loop re-key a directory a second time, out of order and without a loss. */
  lemma MoveTwiceKeepsDirs(a: string, b: string, c: string)
    requires b != c
    ensures var s := Stale(a, b, c);
            && ChildrenAreDirect(s) && Moves(s, [a, b], [a]) && !MovesInOrder(s, [a, b], [a])
            && |MoveDirectory(s, [a, b], [a]).0.dirs| == |s.dirs|
  {
    var s := Stale(a, b, c);
    StaleMoves(s, a, b, c);
    OneFewer(a, b, c);
    Differ(a, b, c);
    Targets(a, b, c);
    RebaseBack([a, b, b, c], [a, b], [a]);
    assert s.dirs.Keys == {ROOT, [a, b], [a, b, b], [a, b, b, c]} && |s.dirs| == |s.dirs.Keys|;
    assert [a, b, c] !in AtEnd(a, b, c).dirs;
    if MovesInOrder(s, [a, b], [a]) { MoveRekeys(s, [a, b], [a], [a, b, c]); }
  }

  /** An orphaned directory, and another whose subdirectory has the same name. */
  function Occupy(t: string, x: string, q: string, y: string, a: string): seq<Op> {
    [Mkdir([t]), Mkdir([t, x])] + [Move([t, x], [q, y])] + [Rmdir([t], false)] + [Mkdir([a])] + [Mkdir([a, x])]
  }

  function Occupied(t: string, x: string, a: string): Namespace {
    Namespace(map[ROOT := [], [t, x] := [], [a] := [[a, x]], [a, x] := []], map[], map[])
  }

  lemma OrphanAlone(t: string, x: string, q: string, y: string)
    requires q != t
    ensures ChildrenAreDirect(TwoDirs(t, x))
    ensures Run(INIT, [Mkdir([t]), Mkdir([t, x])] + [Move([t, x], [q, y])] + [Rmdir([t], false)])
         == INIT.(dirs := INIT.dirs[[t, x] := []])
  {
    var s, mkdirs := TwoDirs(t, x), [Mkdir([t]), Mkdir([t, x])];
    TwoDirsReached(t, x);
    TwoDirsExact(t, x);
    RefusedStep(s, t, x, q, y);
    assert [[t, x]][1..] == [];
    assert Without([[t, x]], [t, x]) == [];
    var u := s.(dirs := s.dirs[[t] := []]);
    RunTo(mkdirs, Move([t, x], [q, y]), mkdirs + [Move([t, x], [q, y])], s, u);
    StepKeepsDirect(s, Move([t, x], [q, y]));
    RmdirStep(u, t);
    assert u.dirs - {[t]} == INIT.dirs[[t, x] := []];
    RunTo(mkdirs + [Move([t, x], [q, y])], Rmdir([t], false),
          mkdirs + [Move([t, x], [q, y])] + [Rmdir([t], false)], u, INIT.(dirs := INIT.dirs[[t, x] := []]));
  }

  lemma OccupiedReached(t: string, x: string, q: string, y: string, a: string)
    requires q != t && a != t
    ensures Run(INIT, Occupy(t, x, q, y, a)) == Occupied(t, x, a)
  {
    var front := [Mkdir([t]), Mkdir([t, x])] + [Move([t, x], [q, y])] + [Rmdir([t], false)];
    var s := INIT.(dirs := INIT.dirs[[t, x] := []]);
    var u := s.(dirs := s.dirs[[a] := []]);
    OrphanAlone(t, x, q, y);
    MkdirTop(s, a);
    RunTo(front, Mkdir([a]), front + [Mkdir([a])], s, u);
    assert [t, x] != [a, x] by { assert [t, x][0] != [a, x][0]; }
    MkdirBelow(u, a, x);
    assert u.dirs[[a]] + [[a, x]] == [[a, x]];
    assert u.dirs[[a] := [[a, x]]][[a, x] := []] == Occupied(t, x, a).dirs;
    RunTo(front + [Mkdir([a])], Mkdir([a, x]), Occupy(t, x, q, y, a), u, Occupied(t, x, a));
  }

  lemma OccupiedMoves(s: Namespace, t: string, x: string, a: string)
    requires a != t && s == Occupied(t, x, a)
    ensures ChildrenAreDirect(s) && Moves(s, [a], [t]) && !([t] < [a])
    ensures [a, x] in Moved(s, [a], [t]) && Rebase([a, x], [a], [t]) == [t, x]
  {
    assert Parent([a, x]) == [a] && Parent([a]) == ROOT && Parent([t]) == ROOT;
    assert Reached(s.dirs, [a], [a]) && [a, x] in s.dirs[[a]];
    assert s.dirs[ROOT := s.dirs[ROOT]] == s.dirs && Relinked(s, [a], [t]) == s;
    assert [a, x][1..] == [x] && [t] + [x] == [t, x];
  }

  /** A directory moves to the vacated path of an orphaned one's parent, and one of its subdirectories
      overwrites the orphaned directory. */
  lemma MoveOntoOrphanLosesDirectory(t: string, x: string, q: string, y: string, a: string)
    requires q != t && a != t
    ensures var s := Run(INIT, Occupy(t, x, q, y, a));
            && ChildrenAreDirect(s) && Moves(s, [a], [t]) && !MovesUp(s, [a], [t])
            && |MoveDirectory(s, [a], [t]).0.dirs| < |s.dirs|
  {
    var s := Occupied(t, x, a);
    OccupiedReached(t, x, q, y, a);
    OccupiedMoves(s, t, x, a);
    MoveKeepsDirsIff(s, [a], [t]);
    MoveLosesDirs(s, [a], [t]);
  }
}
