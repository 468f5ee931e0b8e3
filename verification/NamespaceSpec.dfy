/** The coordinator's namespace as a value, and what each operation does to it. */
module NamespaceSpec {
  import opened Paths
  import opened Sequences
  import opened Types

  datatype FileEntry = FileEntry(size: int, chunkIDs: seq<ChunkID>)

  /** `dirs` maps each directory to its `Children` list; `chunks` is `fileChunks`. */
  datatype Namespace = Namespace(
    dirs: map<Path, seq<Path>>,
    files: map<Path, FileEntry>,
    chunks: map<Path, seq<ChunkID>>)

  datatype Outcome =
    | Done
    | InvalidPath
    | AlreadyExists
    | ParentMissing
    | NotFound
    | NotEmpty
    | IntoItself
    | FileAtDestination
    | DirectoryAtDestination

  // ---------------------------------------------------------------- operations

  predicate ParentReady(dirs: map<Path, seq<Path>>, p: Path) {
    p == ROOT || Parent(p) == ROOT || Parent(p) in dirs
  }

  function CreateDirectory(s: Namespace, p: Path): (Namespace, Outcome) {
    if p == ROOT then (s, InvalidPath)
    else if p in s.dirs then (s, AlreadyExists)
    else if !ParentReady(s.dirs, p) then (s, ParentMissing)
    else (s.(dirs := ListUnderNonRoot(s.dirs, p)[p := []]), Done)
  }

  /** Directories are listed in their parent only when that parent is not the root. */
  function ListUnderNonRoot(dirs: map<Path, seq<Path>>, p: Path): map<Path, seq<Path>>
    requires ParentReady(dirs, p)
  {
    if p == ROOT || Parent(p) == ROOT then dirs
    else dirs[Parent(p) := dirs[Parent(p)] + [p]]
  }

  function CreateFile(s: Namespace, f: Path): (Namespace, Outcome) {
    if f in s.files then (s, AlreadyExists)
    else if !ParentReady(s.dirs, f) then (s, ParentMissing)
    else
      var dirs := if f != ROOT && Parent(f) in s.dirs
                  then s.dirs[Parent(f) := s.dirs[Parent(f)] + [f]] else s.dirs;
      (s.(dirs := dirs, files := s.files[f := FileEntry(0, [])]), Done)
  }

  function DeleteFile(s: Namespace, f: Path): (Namespace, Outcome) {
    if f !in s.files then (s, NotFound)
    else
      var dirs := if f != ROOT && Parent(f) in s.dirs
                  then s.dirs[Parent(f) := WithoutFirst(s.dirs[Parent(f)], f)] else s.dirs;
      (Namespace(dirs, s.files - {f}, s.chunks - {f}), Done)
  }

  function FilesIn(s: Namespace, d: Path): set<Path> {
    set f | f in s.files && f != ROOT && Parent(f) == d
  }

  function DeleteDirectory(s: Namespace, p: Path, recursive: bool): (Namespace, Outcome) {
    if p == ROOT then (s, InvalidPath)
    else if p !in s.dirs then (s, NotFound)
    else if !recursive && (s.dirs[p] != [] || FilesIn(s, p) != {}) then (s, NotEmpty)
    else
      var t := if recursive then RemoveTree(s, p) else s.(dirs := s.dirs - {p});
      (t.(dirs := Unlink(t.dirs, p)), Done)
  }

  /** `q` is the directory `p` or is reached from it through `Children` lists. */
  predicate Reached(dirs: map<Path, seq<Path>>, p: Path, q: Path)
    decreases |q|
  {
    q in dirs && (q == p || (p < q && Parent(q) in dirs && q in dirs[Parent(q)] && Reached(dirs, p, Parent(q))))
  }

  function ReachedDirs(dirs: map<Path, seq<Path>>, p: Path): set<Path> {
    set q | q in dirs && Reached(dirs, p, q)
  }

  /** Files whose parent directory is reached from `p`. */
  function Doomed(s: Namespace, p: Path): set<Path> {
    set f | f in s.files && f != ROOT && Reached(s.dirs, p, Parent(f))
  }

  function RemoveTree(s: Namespace, p: Path): Namespace {
    Namespace(
      map q | q in s.dirs && !Reached(s.dirs, p, q) :: s.dirs[q],
      s.files - Doomed(s, p),
      s.chunks - Doomed(s, p))
  }

  function Unlink(dirs: map<Path, seq<Path>>, p: Path): map<Path, seq<Path>> {
    if p != ROOT && Parent(p) in dirs
    then dirs[Parent(p) := Without(dirs[Parent(p)], p)] else dirs
  }

  ghost function MoveEntry(s: Namespace, from: Path, to: Path): (Namespace, Outcome)
    requires ChildrenAreDirect(s)
  {
    if from == ROOT then (s, InvalidPath)
    else if from in s.dirs then MoveDirectory(s, from, to)
    else if from in s.files then MoveFile(s, from, to)
    else (s, NotFound)
  }

  /** A directory would move onto the path of an ancestor that does not exist. */
  predicate MovesUp(s: Namespace, from: Path, to: Path) {
    from in s.dirs && to < from && to !in s.dirs && to !in s.files
  }

  ghost function MoveDirectory(s: Namespace, from: Path, to: Path): (Namespace, Outcome)
    requires ChildrenAreDirect(s)
    requires from != ROOT && from in s.dirs
  {
    if to in s.dirs then (s, AlreadyExists)
    else if to in s.files then (s, FileAtDestination)
    else if from < to then (s, IntoItself)
    else
      var unlinked := Unlink(s.dirs, from);
      if !ParentReady(s.dirs, to) then (s.(dirs := unlinked), ParentMissing)
      else if to < from then (MovedUp(Relinked(s, from, to), from, to), Done)
      else (RenameTree(Relinked(s, from, to), from, to), Done)
  }

  /** `from` taken off its parent's list and `to` put on its own, as a move does before renaming. */
  function Relinked(s: Namespace, from: Path, to: Path): (r: Namespace)
    requires ChildrenAreDirect(s) && ParentReady(s.dirs, to)
    ensures ChildrenAreDirect(r)
    ensures r.dirs.Keys == s.dirs.Keys
  {
    s.(dirs := ListUnderNonRoot(Unlink(s.dirs, from), to))
  }

  function MoveFile(s: Namespace, from: Path, to: Path): (Namespace, Outcome)
    requires from in s.files
  {
    if to in s.files then (s, AlreadyExists)
    else if to in s.dirs then (s, DirectoryAtDestination)
    else if !ParentReady(s.dirs, to) then (s, ParentMissing)
    else (s.(files := RenameKeys(s.files, {from}, from, to),
             chunks := RenameKeys(s.chunks, {from}, from, to)), Done)
  }

  function RebasedSet(ps: set<Path>, from: Path, to: Path): (r: set<Path>)
    requires forall q <- ps :: from <= q
    ensures forall x :: x in r <==> to <= x && Rebase(x, to, from) in ps
  {
    assert forall q <- ps :: to <= Rebase(q, from, to) && Rebase(Rebase(q, from, to), to, from) == q by {
      forall q <- ps { RebaseBack(q, from, to); }
    }
    assert forall x | to <= x :: Rebase(Rebase(x, to, from), from, to) == x by {
      forall x | to <= x { RebaseBack(x, to, from); }
    }
    set q | q in ps :: Rebase(q, from, to)
  }

  /** `m` with the entries at `moved` re-keyed from under `from` to under `to`. */
  function RenameKeys<V>(m: map<Path, V>, moved: set<Path>, from: Path, to: Path): (r: map<Path, V>)
    requires forall q <- moved :: from <= q
  {
    var sources := moved * m.Keys;
    map r | r in (m.Keys - moved) + RebasedSet(sources, from, to) ::
      if to <= r && Rebase(r, to, from) in sources then m[Rebase(r, to, from)] else m[r]
  }

  /** The file is on its parent's `Children` list. */
  predicate Listed(s: Namespace, f: Path) {
    f != ROOT && Parent(f) in s.dirs && f in s.dirs[Parent(f)]
  }

  /** Files listed by a directory that is reached from `from`. */
  function ListedUnder(s: Namespace, from: Path): (r: set<Path>)
    ensures forall f <- r :: from < f
  {
    set f | f in s.files && Listed(s, f) && Reached(s.dirs, from, Parent(f))
  }

  function DirsUnder(dirs: map<Path, seq<Path>>, from: Path): set<Path> {
    set q | q in dirs && from <= q
  }

  /** The directories at `moved` can be renamed along with their lists. */
  predicate Renamable(dirs: map<Path, seq<Path>>, moved: set<Path>, from: Path) {
    forall q <- moved :: from <= q && (q in dirs ==> ListIsDirect(q, dirs[q]))
  }

  /** `dirs` with the lists of the directories at `moved` renamed. */
  function Relisted(dirs: map<Path, seq<Path>>, moved: set<Path>, from: Path, to: Path): map<Path, seq<Path>>
    requires Renamable(dirs, moved, from)
  {
    map q | q in dirs :: if q in moved then RebasedList(q, dirs[q], from, to) else dirs[q]
  }

  /** `dirs` with the directories at `moved` re-keyed, and the paths in their lists renamed alike. */
  function RenameDirs(dirs: map<Path, seq<Path>>, moved: set<Path>, from: Path, to: Path): map<Path, seq<Path>>
    requires Renamable(dirs, moved, from)
  {
    RenameKeys(Relisted(dirs, moved, from, to), moved, from, to)
  }

  function RebasedList(q: Path, children: seq<Path>, from: Path, to: Path): seq<Path>
    requires from <= q && ListIsDirect(q, children)
  {
    assert forall c <- children :: DirectChild(q, c);
    RebaseAll(children, from, to)
  }

  function RenameTree(s: Namespace, from: Path, to: Path): Namespace
    requires ChildrenAreDirect(s)
  {
    Namespace(
      RenameDirs(s.dirs, ReachedDirs(s.dirs, from), from, to),
      RenameKeys(s.files, ListedUnder(s, from), from, to),
      RenameKeys(s.chunks, ListedUnder(s, from), from, to))
  }

  // ---------------------------------------------------------------- renaming entry by entry

  /** The directory object at `c` under the key `target` instead, replacing any that is there. */
  function Rekeyed(dirs: map<Path, seq<Path>>, c: Path, target: Path): map<Path, seq<Path>>
    requires c in dirs
  {
    (dirs - {c})[target := dirs[c]]
  }

  /** The namespace once entry `k` of the list is renamed. */
  function ListRenamed(u: Namespace, to: Path, k: nat, target: Path): Namespace
    requires to in u.dirs && k < |u.dirs[to]|
  {
    u.(dirs := u.dirs[to := u.dirs[to][k := target]])
  }

  /** The same, with the directory at `c` re-keyed to the new entry. */
  function ChildRekeyed(u: Namespace, to: Path, k: nat, c: Path, target: Path): Namespace
    requires to in u.dirs && k < |u.dirs[to]| && c in u.dirs
  {
    u.(dirs := Rekeyed(ListRenamed(u, to, k, target).dirs, c, target))
  }

  function FileAt(s: Namespace, c: Path): set<Path> {
    if c in s.files then {c} else {}
  }

  function FileMoved(s: Namespace, c: Path, target: Path): Namespace {
    s.(files := RenameKeys(s.files, FileAt(s, c), c, target), chunks := RenameKeys(s.chunks, FileAt(s, c), c, target))
  }

  /** No directory at or below `from` has a longer path. */
  predicate KeysWithin(dirs: map<Path, seq<Path>>, from: Path, limit: nat) {
    forall q <- dirs | from <= q :: |q| <= limit
  }

  /** The directories at paths strictly below neither base, `newBase` aside, are the same. */
  ghost predicate SameElsewhere(dirs: map<Path, seq<Path>>, other: map<Path, seq<Path>>, base: Path, newBase: Path) {
    forall q | !(base < q) && !(newBase < q) && q != newBase ::
      (q in dirs <==> q in other) && (q in dirs ==> other[q] == dirs[q])
  }

  /** The renaming of what was below `base` can go on with entry `i` of the list now at the new base. */
  predicate LoopReady(dirs: map<Path, seq<Path>>, from: Path, to: Path, base: Path, i: nat, limit: nat) {
    && !(from <= to) && from <= base && |base| <= limit && KeysWithin(dirs, from, limit)
    && Rebase(base, from, to) in dirs && i <= |dirs[Rebase(base, from, to)]|
  }

  /** Where an entry below `base` goes: below the new base, apart from everything in hand. */
  lemma EntryTarget(from: Path, to: Path, base: Path, c: Path)
    requires !(from <= to) && from <= base < c
    ensures var (newBase, target) := (Rebase(base, from, to), Rebase(c, from, to));
      && newBase < target && !(c <= target) && !(c <= newBase) && !(base < newBase)
      && Rebase(c, base, newBase) == target && (from <= target ==> |target| < |c|)
  {
    RebaseThrough(c, from, base, to);
  }

  lemma EntryStarts(dirs: map<Path, seq<Path>>, from: Path, to: Path, base: Path, i: nat, limit: nat, c: Path)
    requires LoopReady(dirs, from, to, base, i, limit) && base < c && c in dirs
    requires i < |dirs[Rebase(base, from, to)]|
    ensures var (newBase, target) := (Rebase(base, from, to), Rebase(c, from, to));
            var u := dirs[newBase := dirs[newBase][i := target]];
            c in u && LoopReady(Rekeyed(u, c, target), from, to, c, 0, limit)
  {
    EntryTarget(from, to, base, c);
  }

  /** The recursive call leaves everything but what is below the entry and its target alone. */
  lemma EntryEnds(dirs: map<Path, seq<Path>>, from: Path, to: Path, base: Path, i: nat, limit: nat, c: Path,
                  r: map<Path, seq<Path>>)
    requires LoopReady(dirs, from, to, base, i, limit) && base < c && i < |dirs[Rebase(base, from, to)]|
    requires KeysWithin(r, from, limit)
    requires var (newBase, target) := (Rebase(base, from, to), Rebase(c, from, to));
             var u := dirs[newBase := dirs[newBase][i := target]];
             if c in u then SameElsewhere(Rekeyed(u, c, target), r, c, target) else r == u
    ensures LoopReady(r, from, to, base, i, limit)
    ensures |r[Rebase(base, from, to)]| == |dirs[Rebase(base, from, to)]|
    ensures SameElsewhere(dirs, r, base, Rebase(base, from, to))
  {
    EntryTarget(from, to, base, c);
  }

  /** What the renaming loop does from entry `i` of the list at the new base on, when `from` moves to `to`. */
  function RenameFrom(s: Namespace, from: Path, to: Path, base: Path, i: nat, limit: nat): (r: Namespace)
    requires LoopReady(s.dirs, from, to, base, i, limit)
    ensures LoopReady(r.dirs, from, to, base, i, limit)
    ensures |r.dirs[Rebase(base, from, to)]| == |s.dirs[Rebase(base, from, to)]|
    ensures SameElsewhere(s.dirs, r.dirs, base, Rebase(base, from, to))
    decreases limit - |base|, |s.dirs[Rebase(base, from, to)]| - i, 1
  {
    if i == |s.dirs[Rebase(base, from, to)]| then s
    else RenameFrom(EntryRenamed(s, from, to, base, i, limit), from, to, base, i + 1, limit)
  }

  /** Entry `i` is renamed, with the directory and the file at its path. */
  function EntryRenamed(s: Namespace, from: Path, to: Path, base: Path, i: nat, limit: nat): (r: Namespace)
    requires LoopReady(s.dirs, from, to, base, i, limit) && i < |s.dirs[Rebase(base, from, to)]|
    ensures LoopReady(r.dirs, from, to, base, i, limit)
    ensures |r.dirs[Rebase(base, from, to)]| == |s.dirs[Rebase(base, from, to)]|
    ensures SameElsewhere(s.dirs, r.dirs, base, Rebase(base, from, to))
    decreases limit - |base|, |s.dirs[Rebase(base, from, to)]| - i, 0
  {
    var newBase := Rebase(base, from, to);
    var c := s.dirs[newBase][i];
    if !(base < c) then s
    else
      var target := Rebase(c, from, to);
      var u := ListRenamed(s, newBase, i, target);
      EntryTarget(from, to, base, c);
      var v := if c in u.dirs then
                 EntryStarts(s.dirs, from, to, base, i, limit, c);
                 RenameFrom(ChildRekeyed(s, newBase, i, c, target), from, to, c, 0, limit)
               else u;
      EntryEnds(s.dirs, from, to, base, i, limit, c, v.dirs);
      FileMoved(v, c, target)
  }

  /** The loop stands before entry `i` and will end in `whole`. */
  predicate OnCourse(s: Namespace, from: Path, to: Path, base: Path, i: nat, limit: nat, whole: Namespace) {
    LoopReady(s.dirs, from, to, base, i, limit) && RenameFrom(s, from, to, base, i, limit) == whole
  }

  lemma CourseNext(s: Namespace, from: Path, to: Path, base: Path, i: nat, limit: nat, whole: Namespace)
    requires OnCourse(s, from, to, base, i, limit, whole) && i < |s.dirs[Rebase(base, from, to)]|
    ensures OnCourse(EntryRenamed(s, from, to, base, i, limit), from, to, base, i + 1, limit, whole)
  {
  }

  lemma CourseEnds(s: Namespace, from: Path, to: Path, base: Path, i: nat, limit: nat, whole: Namespace)
    requires OnCourse(s, from, to, base, i, limit, whole) && i == |s.dirs[Rebase(base, from, to)]|
    ensures s == whole
  {
  }

  /** The whole of a move onto a missing ancestor's path, as the loop does it. */
  ghost function MovedUp(s: Namespace, from: Path, to: Path): Namespace
    requires from in s.dirs && !(from <= to)
  {
    var limit := Longest(s.dirs.Keys);
    assert Rebase(from, from, to) == to;
    RenameFrom(s.(dirs := Rekeyed(s.dirs, from, to)), from, to, from, 0, limit)
  }

  // ---------------------------------------------------------------- invariants

  /** Every `Children` entry is a path directly below its directory. */
  predicate ChildrenAreDirect(s: Namespace) {
    forall d <- s.dirs :: ListIsDirect(d, s.dirs[d])
  }

  predicate ListIsDirect(d: Path, children: seq<Path>) {
    forall c <- children :: DirectChild(d, c)
  }

  predicate DirectChild(d: Path, c: Path) {
    c != ROOT && Parent(c) == d
  }

  /** Every directory below the root has its parent, and the parent lists it unless that is the root. */
  predicate Rooted(s: Namespace, d: Path) {
    d != ROOT ==> Parent(d) in s.dirs && (Parent(d) != ROOT ==> d in s.dirs[Parent(d)])
  }

  predicate DirInv(s: Namespace) {
    && ROOT in s.dirs
    && ChildrenAreDirect(s)
    && forall d <- s.dirs :: Rooted(s, d)
  }

  /** The `Children` lists hold precisely what is there: each file once, each directory below a
      non-root directory once, nothing else; no path is both; only files own chunk lists. */
  predicate Exact(s: Namespace) {
    DirInv(s) && KindsApart(s) && FilesListed(s) && ListsExist(s) && ListsDistinct(s)
  }

  predicate KindsApart(s: Namespace) {
    s.dirs.Keys !! s.files.Keys && s.chunks.Keys <= s.files.Keys
  }

  predicate FilesListed(s: Namespace) {
    forall f <- s.files :: Listed(s, f)
  }

  predicate ListsExist(s: Namespace) {
    forall d <- s.dirs :: ListExists(s, d)
  }

  predicate ListExists(s: Namespace, d: Path)
    requires d in s.dirs
  {
    forall c <- s.dirs[d] :: ListingExists(s, d, c)
  }

  predicate ListingExists(s: Namespace, d: Path, c: Path) {
    c in s.files || (c in s.dirs && d != ROOT)
  }

  predicate ListsDistinct(s: Namespace) {
    forall d <- s.dirs :: Distinct(s.dirs[d])
  }

  /** The directories a listing of `d` shows, in list order. */
  function ListedDirs(dirs: map<Path, seq<Path>>, children: seq<Path>): (r: seq<Path>)
    ensures forall c :: c in r <==> c in children && c in dirs
  {
    if children == [] then []
    else (if children[0] in dirs then [children[0]] else []) + ListedDirs(dirs, children[1..])
  }

  // ---------------------------------------------------------------- runs

  datatype Op =
    | Mkdir(p: Path)
    | Create(p: Path)
    | Delete(p: Path)
    | Rmdir(p: Path, recursive: bool)
    | Move(p: Path, to: Path)

  ghost function Step(s: Namespace, op: Op): (Namespace, Outcome)
    requires ChildrenAreDirect(s)
  {
    match op
    case Mkdir(p) => CreateDirectory(s, p)
    case Create(p) => CreateFile(s, p)
    case Delete(p) => DeleteFile(s, p)
    case Rmdir(p, recursive) => DeleteDirectory(s, p, recursive)
    case Move(p, to) => MoveEntry(s, p, to)
  }

  const INIT := Namespace(map[ROOT := []], map[], map[])
}
