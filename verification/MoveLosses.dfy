/** Which directories and files a move overwrites, in every state a run can reach. */
module MoveLosses {
  import opened Paths
  import opened NamespaceSpec
  import opened NamespaceProofs
  import opened Subtrees

  // ---------------------------------------------------------------- the order of visits

  /** The paths that the renaming loop comes to below the listed ones, in its order: each entry of a list,
      and after it, the first time, what is below it. */
  function Visits(dirs: map<Path, seq<Path>>, list: seq<Path>): seq<Path>
    decreases dirs.Keys, |list|
  {
    if list == [] then [] else Visit(dirs, list[0]) + Visits(dirs - {list[0]}, list[1..])
  }

  function Visit(dirs: map<Path, seq<Path>>, c: Path): seq<Path>
    decreases dirs.Keys, 0
  {
    [c] + if c in dirs then Visits(dirs - {c}, dirs[c]) else []
  }

  function Visited<V>(dirs: map<Path, V>, visits: seq<Path>): set<Path> {
    set q | q in visits && q in dirs
  }

  /** No path is visited after a directory that is re-keyed onto it. */
  predicate Orderly<V>(dirs: map<Path, V>, visits: seq<Path>, from: Path, to: Path) {
    forall k, l | 0 <= k < l < |visits| :: !Onto(dirs, visits[k], from, to, visits[l])
  }

  /** The directory at `p` is re-keyed onto `r`. */
  predicate Onto<V>(dirs: map<Path, V>, p: Path, from: Path, to: Path, r: Path) {
    p in dirs && from <= p && Rebase(p, from, to) == r
  }

  lemma OrderlyWithin<V>(dirs: map<Path, V>, other: map<Path, V>, visits: seq<Path>, from: Path, to: Path)
    requires Orderly(dirs, visits, from, to) && forall q <- visits :: q in other ==> q in dirs
    ensures Orderly(other, visits, from, to)
  {
    forall k, l | 0 <= k < l < |visits| ensures !Onto(other, visits[k], from, to, visits[l]) {
      assert !Onto(dirs, visits[k], from, to, visits[l]) && visits[k] in visits;
    }
  }

  predicate NoneOnto<V>(dirs: map<Path, V>, earlier: seq<Path>, later: seq<Path>, from: Path, to: Path) {
    forall p <- earlier, r <- later :: !Onto(dirs, p, from, to, r)
  }

  lemma OrderlyParts<V>(dirs: map<Path, V>, a: seq<Path>, b: seq<Path>, from: Path, to: Path)
    ensures Orderly(dirs, a + b, from, to) <==>
              && Orderly(dirs, a, from, to) && Orderly(dirs, b, from, to)
              && NoneOnto(dirs, a, b, from, to)
  {
    var v := a + b;
    if Orderly(dirs, v, from, to) {
      forall k, l | 0 <= k < l < |a| ensures !Onto(dirs, a[k], from, to, a[l]) {
        assert !Onto(dirs, v[k], from, to, v[l]);
      }
      forall k, l | 0 <= k < l < |b| ensures !Onto(dirs, b[k], from, to, b[l]) {
        assert !Onto(dirs, v[|a| + k], from, to, v[|a| + l]);
      }
      forall p <- a, r <- b ensures !Onto(dirs, p, from, to, r) {
        var k :| 0 <= k < |a| && a[k] == p;
        var l :| 0 <= l < |b| && b[l] == r;
        assert !Onto(dirs, v[k], from, to, v[|a| + l]);
      }
    }
    if Orderly(dirs, a, from, to) && Orderly(dirs, b, from, to) && NoneOnto(dirs, a, b, from, to) {
      forall k, l | 0 <= k < l < |v| ensures !Onto(dirs, v[k], from, to, v[l]) {
        if l < |a| {
          assert v[k] == a[k] && v[l] == a[l];
        } else if k >= |a| {
          assert v[k] == b[k - |a|] && v[l] == b[l - |a|];
        } else {
          assert v[k] in a && v[l] in b;
        }
      }
    }
  }

  /** The two maps agree at the paths visited. */
  predicate Agree(dirs: map<Path, seq<Path>>, other: map<Path, seq<Path>>, visits: seq<Path>) {
    forall q <- visits :: (q in dirs <==> q in other) && (q in dirs ==> dirs[q] == other[q])
  }

  lemma {:induction false} VisitsSame(dirs: map<Path, seq<Path>>, other: map<Path, seq<Path>>, list: seq<Path>)
    requires Agree(dirs, other, Visits(dirs, list))
    ensures Visits(other, list) == Visits(dirs, list)
    decreases dirs.Keys, |list|
  {
    if list != [] {
      var c := list[0];
      VisitSame(dirs, other, c);
      VisitsSame(dirs - {c}, other - {c}, list[1..]);
    }
  }

  lemma {:induction false} VisitSame(dirs: map<Path, seq<Path>>, other: map<Path, seq<Path>>, c: Path)
    requires Agree(dirs, other, Visit(dirs, c))
    ensures Visit(other, c) == Visit(dirs, c)
    decreases dirs.Keys, 0
  {
    assert c in Visit(dirs, c);
    if c in dirs { VisitsSame(dirs - {c}, other - {c}, dirs[c]); }
  }

  /** The lists below `base` name direct children. */
  predicate BelowIsDirect(dirs: map<Path, seq<Path>>, base: Path) {
    forall q <- dirs | base < q :: ListIsDirect(q, dirs[q])
  }

  /** `q` is the child of `base` named like it, or below that child, which is then a directory. */
  predicate ComesUnder(dirs: map<Path, seq<Path>>, base: Path, list: seq<Path>, q: Path) {
    base < q && Toward(base, q) in list && (q == Toward(base, q) || Toward(base, q) in dirs)
  }

  lemma {:induction false} VisitsBelow(dirs: map<Path, seq<Path>>, base: Path, list: seq<Path>)
    requires ListIsDirect(base, list) && BelowIsDirect(dirs, base)
    ensures forall q <- Visits(dirs, list) :: ComesUnder(dirs, base, list, q)
    decreases dirs.Keys, |list|
  {
    if list != [] {
      var c := list[0];
      assert DirectChild(base, c);
      VisitBelow(dirs, base, c);
      VisitsBelow(dirs - {c}, base, list[1..]);
      forall q <- Visits(dirs, list) ensures ComesUnder(dirs, base, list, q) {
        if q in Visit(dirs, c) {
          assert Toward(base, q) == c;
        } else {
          assert ComesUnder(dirs - {c}, base, list[1..], q);
        }
      }
    }
  }

  lemma {:induction false} VisitBelow(dirs: map<Path, seq<Path>>, base: Path, c: Path)
    requires base < c && BelowIsDirect(dirs, base)
    ensures forall q <- Visit(dirs, c) :: c <= q && (c == q || c in dirs)
    decreases dirs.Keys, 0
  {
    if c in dirs {
      assert ListIsDirect(c, dirs[c]);
      VisitsBelow(dirs - {c}, c, dirs[c]);
      forall q <- Visit(dirs, c) ensures c <= q {
        assert q != c ==> ComesUnder(dirs - {c}, c, dirs[c], q);
      }
    }
  }

  /** The directories visited are those that the lists reach. */
  lemma {:induction false} VisitsReached(dirs: map<Path, seq<Path>>, base: Path, list: seq<Path>, q: Path)
    requires ListIsDirect(base, list) && BelowIsDirect(dirs, base) && q in dirs
    ensures q in Visits(dirs, list) <==>
              base < q && Toward(base, q) in list && Reached(dirs, Toward(base, q), q)
    decreases dirs.Keys, |list|
  {
    if list != [] {
      var c := list[0];
      assert DirectChild(base, c) && Toward(base, c) == c;
      VisitReached(dirs, c, q);
      if q != c {
        VisitsReached(dirs - {c}, base, list[1..], q);
        if base < q { ReachedWithout(dirs, c, Toward(base, q), q); }
      }
    }
  }

  lemma {:induction false} VisitReached(dirs: map<Path, seq<Path>>, c: Path, q: Path)
    requires (c in dirs ==> ListIsDirect(c, dirs[c])) && BelowIsDirect(dirs, c) && q in dirs
    ensures q in Visit(dirs, c) <==> c <= q && Reached(dirs, c, q)
    decreases dirs.Keys, 0
  {
    if c in dirs && q != c {
      VisitsReached(dirs - {c}, c, dirs[c], q);
      if c < q {
        var d := Toward(c, q);
        ReachedWithout(dirs, c, d, q);
        if d in dirs[c] {
          ReachedThrough(dirs, c, d, q);
        } else if Reached(dirs, c, q) {
          TowardExists(dirs, c, q);
        }
      }
    } else if q != c && Reached(dirs, c, q) {
      TowardExists(dirs, c, q);
    }
  }

  /** Nothing is reached from `c` once it is gone; elsewhere that makes no difference. */
  lemma ReachedWithout(dirs: map<Path, seq<Path>>, c: Path, d: Path, q: Path)
    requires d <= q && q != c && (d == c || !(d <= c))
    ensures Reached(dirs - {c}, d, q) <==> d != c && Reached(dirs, d, q)
  {
    if d == c {
      if Reached(dirs - {c}, c, q) { TowardExists(dirs - {c}, c, q); }
    } else {
      ReachedSameBelow(dirs, dirs - {c}, d, q);
    }
  }

  // ---------------------------------------------------------------- what the loop does in order

  /** There is a directory at `q` after those at `moved` are re-keyed, if one is re-keyed to it or was there
      and was not re-keyed. */
  predicate KeyShifted<V>(dirs: map<Path, V>, after: map<Path, V>, moved: set<Path>, from: Path, to: Path,
                       q: Path)
  {
    q in after <==> (q in dirs && q !in moved) || Arrives(moved, from, to, q)
  }

  /** And nothing but the list at `newBase` changes at the paths that none is re-keyed to. */
  predicate ShiftedAt(dirs: map<Path, seq<Path>>, after: map<Path, seq<Path>>, moved: set<Path>, from: Path, to: Path,
                      newBase: Path, q: Path)
  {
    && KeyShifted(dirs, after, moved, from, to, q)
    && (q in after && q != newBase && !Arrives(moved, from, to, q) ==> after[q] == dirs[q])
  }

  ghost predicate Shifted(dirs: map<Path, seq<Path>>, after: map<Path, seq<Path>>, moved: set<Path>, from: Path,
                          to: Path, newBase: Path)
  {
    forall q :: ShiftedAt(dirs, after, moved, from, to, newBase, q)
  }

  predicate NoneArrives(moved: set<Path>, from: Path, to: Path, others: set<Path>) {
    forall q <- others :: !Arrives(moved, from, to, q)
  }

  lemma ShiftedTwice(dirs: map<Path, seq<Path>>, between: map<Path, seq<Path>>, after: map<Path, seq<Path>>,
                     moved: set<Path>, more: set<Path>, from: Path, to: Path, newBase: Path)
    requires Shifted(dirs, between, moved, from, to, newBase) && Shifted(between, after, more, from, to, newBase)
    requires NoneArrives(moved, from, to, more)
    ensures Shifted(dirs, after, moved + more, from, to, newBase)
  {
    forall q ensures ShiftedAt(dirs, after, moved + more, from, to, newBase, q) {
      assert ShiftedAt(dirs, between, moved, from, to, newBase, q);
      assert ShiftedAt(between, after, more, from, to, newBase, q);
    }
  }

  /** Re-keying a directory and then those below it. */
  lemma ShiftedChild(dirs: map<Path, seq<Path>>, v: map<Path, seq<Path>>, after: map<Path, seq<Path>>, c: Path,
                     below: set<Path>, from: Path, to: Path, newBase: Path)
    requires from <= c && c in dirs
    requires v.Keys == dirs.Keys - {c} + {Rebase(c, from, to)}
    requires forall q <- v | q != newBase && q != Rebase(c, from, to) :: v[q] == dirs[q]
    requires Rebase(c, from, to) !in below && Shifted(v, after, below, from, to, Rebase(c, from, to))
    ensures Shifted(dirs, after, {c} + below, from, to, newBase)
  {
    var target := Rebase(c, from, to);
    forall q ensures ShiftedAt(dirs, after, {c} + below, from, to, newBase, q) {
      assert ShiftedAt(v, after, below, from, to, target, q);
      RebaseBack(c, from, to);
      if to <= q { RebaseBack(q, to, from); }
    }
  }

  /** The lists at the two ends of an entry. */
  predicate EntryDone(dirs: map<Path, seq<Path>>, after: map<Path, seq<Path>>, newBase: Path, i: nat, target: Path) {
    newBase in dirs && newBase in after && i < |dirs[newBase]| && after[newBase] == dirs[newBase][i := target]
  }

  lemma {:induction false} LoopShifts(s: Namespace, from: Path, to: Path, base: Path, i: nat, limit: nat,
                                      whole: Namespace, visits: seq<Path>)
    requires OnCourse(s, from, to, base, i, limit, whole) && DirectSoFar(s.dirs, base, Rebase(base, from, to), i)
    requires visits == Visits(s.dirs, s.dirs[Rebase(base, from, to)][i..])
    requires Orderly(s.dirs, visits, from, to) && Rebase(base, from, to) !in visits
    ensures Shifted(s.dirs, whole.dirs, Visited(s.dirs, visits), from, to, Rebase(base, from, to))
    decreases limit - |base|, 2, |s.dirs[Rebase(base, from, to)]| - i, 2
  {
    if i == |s.dirs[Rebase(base, from, to)]| {
      CourseEnds(s, from, to, base, i, limit, whole);
      NothingShifted(s.dirs, Visited(s.dirs, visits), from, to, Rebase(base, from, to));
    } else {
      NextShifts(s, from, to, base, i, limit, whole, visits);
    }
  }

  lemma NothingShifted(dirs: map<Path, seq<Path>>, moved: set<Path>, from: Path, to: Path, newBase: Path)
    requires moved == {}
    ensures Shifted(dirs, dirs, moved, from, to, newBase)
  {
    forall q ensures ShiftedAt(dirs, dirs, moved, from, to, newBase, q) {}
  }

  lemma NextShifts(s: Namespace, from: Path, to: Path, base: Path, i: nat, limit: nat, whole: Namespace,
                   visits: seq<Path>)
    requires OnCourse(s, from, to, base, i, limit, whole) && DirectSoFar(s.dirs, base, Rebase(base, from, to), i)
    requires i < |s.dirs[Rebase(base, from, to)]| && visits == Visits(s.dirs, s.dirs[Rebase(base, from, to)][i..])
    requires Orderly(s.dirs, visits, from, to) && Rebase(base, from, to) !in visits
    ensures Shifted(s.dirs, whole.dirs, Visited(s.dirs, visits), from, to, Rebase(base, from, to))
    decreases limit - |base|, 2, |s.dirs[Rebase(base, from, to)]| - i, 1
  {
    var newBase := Rebase(base, from, to);
    var t, moved, rest := EntryLeaves(s, from, to, base, i, limit, whole, visits);
    LoopShifts(t, from, to, base, i + 1, limit, whole, rest);
    ShiftedTwice(s.dirs, t.dirs, whole.dirs, moved, Visited(t.dirs, rest), from, to, newBase);
  }

  /** One entry, and where it leaves the loop. */
  lemma EntryLeaves(s: Namespace, from: Path, to: Path, base: Path, i: nat, limit: nat, whole: Namespace,
                    visits: seq<Path>) returns (t: Namespace, moved: set<Path>, rest: seq<Path>)
    requires OnCourse(s, from, to, base, i, limit, whole) && DirectSoFar(s.dirs, base, Rebase(base, from, to), i)
    requires i < |s.dirs[Rebase(base, from, to)]| && visits == Visits(s.dirs, s.dirs[Rebase(base, from, to)][i..])
    requires Orderly(s.dirs, visits, from, to) && Rebase(base, from, to) !in visits
    ensures OnCourse(t, from, to, base, i + 1, limit, whole) && DirectSoFar(t.dirs, base, Rebase(base, from, to), i + 1)
    ensures t == EntryRenamed(s, from, to, base, i, limit)
    ensures |t.dirs[Rebase(base, from, to)]| == |s.dirs[Rebase(base, from, to)]|
    ensures t.dirs[Rebase(base, from, to)][i + 1..] == s.dirs[Rebase(base, from, to)][i + 1..]
    ensures rest == Visits(t.dirs, t.dirs[Rebase(base, from, to)][i + 1..])
    ensures var (list, c) := (s.dirs[Rebase(base, from, to)], s.dirs[Rebase(base, from, to)][i]);
            && rest == Visits(s.dirs - {c}, list[i + 1..]) && Agree(s.dirs - {c}, t.dirs, rest)
            && visits == Visit(s.dirs, c) + rest && Orderly(s.dirs, Visit(s.dirs, c), from, to)
    ensures Orderly(t.dirs, rest, from, to) && Rebase(base, from, to) !in rest
    ensures Shifted(s.dirs, t.dirs, moved, from, to, Rebase(base, from, to))
    ensures Visited(s.dirs, visits) == moved + Visited(t.dirs, rest)
    ensures NoneArrives(moved, from, to, Visited(t.dirs, rest))
    decreases limit - |base|, 2, |s.dirs[Rebase(base, from, to)]| - i, 0
  {
    var newBase := Rebase(base, from, to);
    var c, list := s.dirs[newBase][i], s.dirs[newBase][i + 1..];
    t := EntryRenamed(s, from, to, base, i, limit);
    moved, rest := Visited(s.dirs, Visit(s.dirs, c)), Visits(s.dirs - {c}, list);
    VisitsNext(s.dirs, s.dirs[newBase], i, from, to);
    EntryShifts(s, from, to, base, i, limit, c);
    EntryKeepsDirect(s, from, to, base, i, limit);
    CourseNext(s, from, to, base, i, limit, whole);
    assert t.dirs[newBase][i + 1..] == list;
    RestIsDirect(s.dirs, base, newBase, i);
    RestIsLeft(s.dirs, t.dirs, base, newBase, list, c, from, to);
  }

  lemma RestIsDirect(dirs: map<Path, seq<Path>>, base: Path, newBase: Path, i: nat)
    requires newBase in dirs && DirectSoFar(dirs, base, newBase, i) && i < |dirs[newBase]|
    ensures DirectChild(base, dirs[newBase][i]) && ListIsDirect(base, dirs[newBase][i + 1..]) && BelowIsDirect(dirs, base)
  {
  }

  lemma VisitsNext(dirs: map<Path, seq<Path>>, list: seq<Path>, i: nat, from: Path, to: Path)
    requires i < |list| && Orderly(dirs, Visits(dirs, list[i..]), from, to)
    ensures var (first, rest) := (Visit(dirs, list[i]), Visits(dirs - {list[i]}, list[i + 1..]));
            && Visits(dirs, list[i..]) == first + rest
            && Orderly(dirs, first, from, to) && Orderly(dirs, rest, from, to)
            && NoneOnto(dirs, first, rest, from, to)
  {
    assert list[i..][0] == list[i] && list[i..][1..] == list[i + 1..];
    OrderlyParts(dirs, Visit(dirs, list[i]), Visits(dirs - {list[i]}, list[i + 1..]), from, to);
  }

  /** After an entry the loop still has the same visits to make as before it. */
  lemma RestIsLeft(dirs: map<Path, seq<Path>>, after: map<Path, seq<Path>>, base: Path, newBase: Path,
                   list: seq<Path>, c: Path, from: Path, to: Path)
    requires from <= base && DirectChild(base, c) && ListIsDirect(base, list) && BelowIsDirect(dirs, base)
    requires var (first, rest) := (Visit(dirs, c), Visits(dirs - {c}, list));
             && newBase !in rest && Shifted(dirs, after, Visited(dirs, first), from, to, newBase)
             && Orderly(dirs, rest, from, to) && NoneOnto(dirs, first, rest, from, to)
    ensures var (first, rest) := (Visit(dirs, c), Visits(dirs - {c}, list));
            && Visits(after, list) == rest && Orderly(after, rest, from, to) && Agree(dirs - {c}, after, rest)
            && Visited(after, rest) == Visited(dirs, rest) - {c}
            && NoneArrives(Visited(dirs, first), from, to, Visited(after, rest))
  {
    RestIsSame(dirs, after, base, newBase, list, c, from, to);
    OrderlyWithin(dirs, after, Visits(dirs - {c}, list), from, to);
  }

  lemma RestIsSame(dirs: map<Path, seq<Path>>, after: map<Path, seq<Path>>, base: Path, newBase: Path,
                   list: seq<Path>, c: Path, from: Path, to: Path)
    requires from <= base && DirectChild(base, c) && ListIsDirect(base, list) && BelowIsDirect(dirs, base)
    requires var (first, rest) := (Visit(dirs, c), Visits(dirs - {c}, list));
             && newBase !in rest && Shifted(dirs, after, Visited(dirs, first), from, to, newBase)
             && NoneOnto(dirs, first, rest, from, to)
    ensures var (first, rest) := (Visit(dirs, c), Visits(dirs - {c}, list));
            && Visits(after, list) == rest && Agree(dirs - {c}, after, rest)
            && Visited(after, rest) == Visited(dirs, rest) - {c} && (forall q <- rest :: q in after ==> q in dirs)
            && NoneArrives(Visited(dirs, first), from, to, Visited(after, rest))
  {
    var (first, rest) := (Visit(dirs, c), Visits(dirs - {c}, list));
    forall r <- rest ensures RestAgrees(dirs, after, c, r) && !Arrives(Visited(dirs, first), from, to, r) {
      RestAgreesAt(dirs, after, base, newBase, list, c, from, to, r);
    }
    RestAgree(dirs, after, c, rest);
    VisitsSame(dirs - {c}, after, list);
  }

  predicate RestAgrees(dirs: map<Path, seq<Path>>, after: map<Path, seq<Path>>, c: Path, r: Path) {
    (r in after <==> r in dirs && r != c) && (r in after ==> dirs[r] == after[r])
  }

  lemma RestAgree(dirs: map<Path, seq<Path>>, after: map<Path, seq<Path>>, c: Path, rest: seq<Path>)
    requires forall r <- rest :: RestAgrees(dirs, after, c, r)
    ensures Agree(dirs - {c}, after, rest) && Visited(after, rest) == Visited(dirs, rest) - {c}
    ensures forall q <- rest :: q in after ==> q in dirs
  {
    forall q <- rest ensures (q in dirs - {c} <==> q in after) && (q in after ==> (dirs - {c})[q] == after[q]) {
      assert RestAgrees(dirs, after, c, q);
    }
  }

  lemma RestAgreesAt(dirs: map<Path, seq<Path>>, after: map<Path, seq<Path>>, base: Path, newBase: Path,
                     list: seq<Path>, c: Path, from: Path, to: Path, r: Path)
    requires from <= base && DirectChild(base, c) && ListIsDirect(base, list) && BelowIsDirect(dirs, base)
    requires var (first, rest) := (Visit(dirs, c), Visits(dirs - {c}, list));
             && r in rest && newBase != r && Shifted(dirs, after, Visited(dirs, first), from, to, newBase)
             && NoneOnto(dirs, first, rest, from, to)
    ensures RestAgrees(dirs, after, c, r) && !Arrives(Visited(dirs, Visit(dirs, c)), from, to, r)
  {
    var (first, rest) := (Visit(dirs, c), Visits(dirs - {c}, list));
    VisitBelow(dirs, base, c);
    VisitsBelow(dirs - {c}, base, list);
    assert ComesUnder(dirs - {c}, base, list, r) && ShiftedAt(dirs, after, Visited(dirs, first), from, to, newBase, r);
    assert c <= r ==> Toward(base, r) == c;
    if Arrives(Visited(dirs, first), from, to, r) {
      RebaseBack(r, to, from);
      assert Onto(dirs, Rebase(r, to, from), from, to, r);
    }
  }

  lemma EntryShifts(s: Namespace, from: Path, to: Path, base: Path, i: nat, limit: nat, c: Path)
    requires LoopReady(s.dirs, from, to, base, i, limit) && DirectSoFar(s.dirs, base, Rebase(base, from, to), i)
    requires i < |s.dirs[Rebase(base, from, to)]| && c == s.dirs[Rebase(base, from, to)][i]
    requires Orderly(s.dirs, Visit(s.dirs, c), from, to) && Rebase(base, from, to) !in Visit(s.dirs, c)
    ensures var (newBase, t) := (Rebase(base, from, to), EntryRenamed(s, from, to, base, i, limit));
            && Shifted(s.dirs, t.dirs, Visited(s.dirs, Visit(s.dirs, c)), from, to, newBase)
            && from <= c && EntryDone(s.dirs, t.dirs, newBase, i, Rebase(c, from, to))
    decreases limit - |base|, 1
  {
    var newBase := Rebase(base, from, to);
    assert DirectChild(base, c);
    EntryTarget(from, to, base, c);
    if c in s.dirs {
      ChildShifts(s, from, to, base, i, limit, c);
    } else {
      EntryWithoutChild(s, from, to, base, i, limit, c);
      ListingShifts(s, newBase, i, c, from, to);
    }
  }

  lemma ListingShifts(s: Namespace, newBase: Path, i: nat, c: Path, from: Path, to: Path)
    requires newBase in s.dirs && i < |s.dirs[newBase]| && from <= c && c !in s.dirs
    ensures var t := ListRenamed(s, newBase, i, Rebase(c, from, to));
            && Shifted(s.dirs, t.dirs, Visited(s.dirs, Visit(s.dirs, c)), from, to, newBase)
            && EntryDone(s.dirs, t.dirs, newBase, i, Rebase(c, from, to))
  {
    var t := ListRenamed(s, newBase, i, Rebase(c, from, to));
    assert Visited(s.dirs, Visit(s.dirs, c)) == {};
    forall q ensures ShiftedAt(s.dirs, t.dirs, {}, from, to, newBase, q) {}
  }

  lemma ChildShifts(s: Namespace, from: Path, to: Path, base: Path, i: nat, limit: nat, c: Path)
    requires LoopReady(s.dirs, from, to, base, i, limit) && DirectSoFar(s.dirs, base, Rebase(base, from, to), i)
    requires i < |s.dirs[Rebase(base, from, to)]| && c == s.dirs[Rebase(base, from, to)][i]
    requires base < c && c in s.dirs
    requires Orderly(s.dirs, Visit(s.dirs, c), from, to) && Rebase(base, from, to) !in Visit(s.dirs, c)
    ensures var (newBase, t) := (Rebase(base, from, to), EntryRenamed(s, from, to, base, i, limit));
            && Shifted(s.dirs, t.dirs, Visited(s.dirs, Visit(s.dirs, c)), from, to, newBase)
            && EntryDone(s.dirs, t.dirs, newBase, i, Rebase(c, from, to))
    decreases limit - |base|, 0
  {
    var newBase, target := Rebase(base, from, to), Rebase(c, from, to);
    var v, below := ChildRekeyed(s, newBase, i, c, target), Visits(s.dirs - {c}, s.dirs[c]);
    EntryTarget(from, to, base, c);
    EntryStarts(s.dirs, from, to, base, i, limit, c);
    ChildStartsDirect(s, base, newBase, i, c, target);
    var r := RenameFrom(v, from, to, c, 0, limit);
    ChildRekeyedIs(s, newBase, i, c, target);
    ChildVisits(s.dirs, v.dirs, c, from, to, newBase);
    LoopShifts(v, from, to, c, 0, limit, r, below);
    EntryWithChild(s, from, to, base, i, limit, c);
    ShiftedChild(s.dirs, v.dirs, r.dirs, c, Visited(v.dirs, below), from, to, newBase);
    ListStays(s.dirs, v.dirs, r.dirs, c, base, i, from, to);
  }

  lemma ChildRekeyedIs(s: Namespace, newBase: Path, i: nat, c: Path, target: Path)
    requires newBase in s.dirs && i < |s.dirs[newBase]| && c in s.dirs && newBase != c && newBase != target && c != target
    ensures var v := ChildRekeyed(s, newBase, i, c, target).dirs;
            && v.Keys == s.dirs.Keys - {c} + {target} && EntryDone(s.dirs, v, newBase, i, target)
            && v[target][0..] == s.dirs[c] && forall q <- v | q != newBase && q != target :: v[q] == s.dirs[q]
  {
  }

  /** Nothing below a child is re-keyed to the directory whose list the child is on. */
  lemma ListStays(dirs: map<Path, seq<Path>>, v: map<Path, seq<Path>>, after: map<Path, seq<Path>>, c: Path,
                  base: Path, i: nat, from: Path, to: Path)
    requires from <= base < c && c in dirs && ListIsDirect(c, dirs[c]) && BelowIsDirect(dirs, c)
    requires EntryDone(dirs, v, Rebase(base, from, to), i, Rebase(c, from, to))
    requires var below := Visits(dirs - {c}, dirs[c]);
             && Shifted(v, after, Visited(v, below), from, to, Rebase(c, from, to))
             && Rebase(base, from, to) !in below && Rebase(base, from, to) != Rebase(c, from, to)
    ensures EntryDone(dirs, after, Rebase(base, from, to), i, Rebase(c, from, to))
  {
    var newBase, below := Rebase(base, from, to), Visits(dirs - {c}, dirs[c]);
    RebaseBack(base, from, to);
    VisitsBelow(dirs - {c}, c, dirs[c]);
    assert base !in below by { assert base in below ==> ComesUnder(dirs - {c}, c, dirs[c], base); }
    assert ShiftedAt(v, after, Visited(v, below), from, to, Rebase(c, from, to), newBase);
  }

  /** Below a child just re-keyed the loop visits what it would have visited before. */
  lemma ChildVisits(dirs: map<Path, seq<Path>>, v: map<Path, seq<Path>>, c: Path, from: Path, to: Path, newBase: Path)
    requires from <= c && c in dirs && ListIsDirect(c, dirs[c]) && BelowIsDirect(dirs, c)
    requires newBase !in Visit(dirs, c) && Orderly(dirs, Visit(dirs, c), from, to)
    requires v.Keys == dirs.Keys - {c} + {Rebase(c, from, to)}
    requires forall q <- v | q != newBase && q != Rebase(c, from, to) :: v[q] == dirs[q]
    ensures var below := Visits(dirs - {c}, dirs[c]);
            && Visits(v, dirs[c]) == below && Orderly(v, below, from, to) && Rebase(c, from, to) !in below
            && Visited(dirs, Visit(dirs, c)) == {c} + Visited(v, below)
  {
    var below := Visits(dirs - {c}, dirs[c]);
    OrderlyParts(dirs, [c], below, from, to);
    NotOntoBelow(dirs, c, below, from, to);
    ChildVisitsSame(dirs, v, c, from, to, newBase);
    OrderlyWithin(dirs, v, below, from, to);
  }

  lemma ChildVisitsSame(dirs: map<Path, seq<Path>>, v: map<Path, seq<Path>>, c: Path, from: Path, to: Path,
                        newBase: Path)
    requires from <= c && c in dirs && ListIsDirect(c, dirs[c]) && BelowIsDirect(dirs, c)
    requires newBase !in Visits(dirs - {c}, dirs[c]) && Rebase(c, from, to) !in Visits(dirs - {c}, dirs[c])
    requires v.Keys == dirs.Keys - {c} + {Rebase(c, from, to)}
    requires forall q <- v | q != newBase && q != Rebase(c, from, to) :: v[q] == dirs[q]
    ensures var below := Visits(dirs - {c}, dirs[c]);
            && Visits(v, dirs[c]) == below && Agree(dirs - {c}, v, below) && c !in below
            && Visited(dirs, Visit(dirs, c)) == {c} + Visited(v, below) && (forall q <- below :: q in v ==> q in dirs)
  {
    var below := Visits(dirs - {c}, dirs[c]);
    forall q <- below ensures RestAgrees(dirs, v, c, q) && q != c { ChildAgreesAt(dirs, v, c, from, to, newBase, q); }
    RestAgree(dirs, v, c, below);
    VisitsSame(dirs - {c}, v, dirs[c]);
  }

  lemma NotOntoBelow(dirs: map<Path, seq<Path>>, c: Path, below: seq<Path>, from: Path, to: Path)
    requires from <= c && c in dirs && NoneOnto(dirs, [c], below, from, to)
    ensures Rebase(c, from, to) !in below
  {
    if Rebase(c, from, to) in below { assert c in [c] && Onto(dirs, c, from, to, Rebase(c, from, to)); }
  }

  lemma ChildAgreesAt(dirs: map<Path, seq<Path>>, v: map<Path, seq<Path>>, c: Path, from: Path, to: Path,
                      newBase: Path, q: Path)
    requires from <= c && c in dirs && ListIsDirect(c, dirs[c]) && BelowIsDirect(dirs, c)
    requires q in Visits(dirs - {c}, dirs[c]) && q != newBase && q != Rebase(c, from, to)
    requires v.Keys == dirs.Keys - {c} + {Rebase(c, from, to)}
    requires forall q <- v | q != newBase && q != Rebase(c, from, to) :: v[q] == dirs[q]
    ensures RestAgrees(dirs, v, c, q) && q != c
  {
    VisitsBelow(dirs - {c}, c, dirs[c]);
    assert ComesUnder(dirs - {c}, c, dirs[c], q);
  }

  // ---------------------------------------------------------------- what a move overwrites

  /** The directories that a move re-keys: those reached from its source once it has changed the two parents' lists. */
  ghost function Moved(s: Namespace, from: Path, to: Path): set<Path>
    requires ChildrenAreDirect(s) && Moves(s, from, to)
  {
    MovesReady(s, from, to);
    ReachedDirs(Relinked(s, from, to).dirs, from)
  }

  /** The loop's visits below the source, in the lists it finds. */
  ghost function MoveVisits(s: Namespace, from: Path, to: Path): seq<Path>
    requires ChildrenAreDirect(s) && Moves(s, from, to)
  {
    MovesReady(s, from, to);
    var dirs := Relinked(s, from, to).dirs;
    Visits(dirs - {from}, dirs[from])
  }

  /** The loop comes to no path after a directory has been re-keyed onto it. */
  ghost predicate MovesInOrder(s: Namespace, from: Path, to: Path)
    requires ChildrenAreDirect(s) && Moves(s, from, to)
  {
    Orderly(s.dirs, MoveVisits(s, from, to), from, to)
  }

  /** After a move whose loop keeps the order there is a directory at `q` exactly when one was re-keyed to it
      or one was there and was not re-keyed. */
  lemma MoveRekeys(s: Namespace, from: Path, to: Path, q: Path)
    requires ChildrenAreDirect(s) && Moves(s, from, to) && MovesInOrder(s, from, to)
    ensures q in MoveDirectory(s, from, to).0.dirs <==>
              (q in s.dirs && q !in Moved(s, from, to)) || Arrives(Moved(s, from, to), from, to, q)
  {
    MovesReady(s, from, to);
    var u := Relinked(s, from, to);
    if to < from {
      OrderlyWithin(s.dirs, u.dirs, MoveVisits(s, from, to), from, to);
      MovedUpRekeys(u, from, to, q);
    } else {
      RenameTreeRekeys(u, from, to, q);
    }
  }

  lemma RenameTreeRekeys(u: Namespace, from: Path, to: Path, q: Path)
    requires ChildrenAreDirect(u)
    ensures KeyShifted(u.dirs, RenameTree(u, from, to).dirs, ReachedDirs(u.dirs, from), from, to, q)
  {
    var moved := ReachedDirs(u.dirs, from);
    var listed := Relisted(u.dirs, moved, from, to);
    assert listed.Keys == u.dirs.Keys && moved * listed.Keys == moved;
  }

  lemma MovedUpRekeys(u: Namespace, from: Path, to: Path, q: Path)
    requires ChildrenAreDirect(u) && from in u.dirs && to < from && to !in u.dirs
    requires Orderly(u.dirs, Visits(u.dirs - {from}, u.dirs[from]), from, to)
    ensures KeyShifted(u.dirs, MovedUp(u, from, to).dirs, ReachedDirs(u.dirs, from), from, to, q)
  {
    var v, limit := u.(dirs := Rekeyed(u.dirs, from, to)), Longest(u.dirs.Keys);
    var visits, whole := Visits(u.dirs - {from}, u.dirs[from]), MovedUp(u, from, to);
    assert Rebase(from, from, to) == to;
    UpStartsDirect(u, from, to);
    UpVisits(u.dirs, v.dirs, from, to);
    OrderlyWithin(u.dirs, v.dirs, visits, from, to);
    assert v.dirs[to][0..] == u.dirs[from];
    LoopShifts(v, from, to, from, 0, limit, whole, visits);
    ShiftedChild(u.dirs, v.dirs, whole.dirs, from, Visited(v.dirs, visits), from, to, to);
    assert ShiftedAt(u.dirs, whole.dirs, {from} + Visited(v.dirs, visits), from, to, to, q);
  }

  lemma UpStartsDirect(u: Namespace, from: Path, to: Path)
    requires ChildrenAreDirect(u) && from in u.dirs && to < from
    ensures DirectSoFar(Rekeyed(u.dirs, from, to), from, to, 0)
  {
    var v := Rekeyed(u.dirs, from, to);
    assert ListIsDirect(from, u.dirs[from]);
    forall j | 0 <= j < |v[to]| ensures DirectChild(from, v[to][j]) { assert v[to][j] in u.dirs[from]; }
  }

  lemma UpVisits(dirs: map<Path, seq<Path>>, v: map<Path, seq<Path>>, from: Path, to: Path)
    requires from in dirs && to < from && to !in dirs && v == Rekeyed(dirs, from, to)
    requires ListIsDirect(from, dirs[from]) && BelowIsDirect(dirs, from)
    ensures var visits := Visits(dirs - {from}, dirs[from]);
            && Visits(v, dirs[from]) == visits && to !in visits && Agree(dirs - {from}, v, visits)
            && (forall q <- visits :: q in v <==> q in dirs)
            && ReachedDirs(dirs, from) == {from} + Visited(v, visits)
  {
    var visits := Visits(dirs - {from}, dirs[from]);
    VisitsBelow(dirs - {from}, from, dirs[from]);
    forall q <- visits ensures from < q && RestAgrees(dirs, v, from, q) {
      assert ComesUnder(dirs - {from}, from, dirs[from], q);
    }
    RestAgree(dirs, v, from, visits);
    VisitsSame(dirs - {from}, v, dirs[from]);
    VisitedIsReached(dirs, from);
  }

  lemma VisitedIsReached(dirs: map<Path, seq<Path>>, from: Path)
    requires from in dirs && ListIsDirect(from, dirs[from]) && BelowIsDirect(dirs, from)
    ensures forall q :: q in ReachedDirs(dirs, from) <==>
                          q in dirs && (q == from || q in Visits(dirs - {from}, dirs[from]))
  {
    assert Visit(dirs, from) == [from] + Visits(dirs - {from}, dirs[from]);
    forall q <- dirs
      ensures Reached(dirs, from, q) <==> q == from || q in Visits(dirs - {from}, dirs[from])
    {
      VisitReached(dirs, from, q);
    }
  }

  // ---------------------------------------------------------------- how many directories are lost

  lemma RekeyedCount<V>(dirs: map<Path, V>, after: map<Path, V>, moved: set<Path>, from: Path, to: Path)
    requires moved <= dirs.Keys && (forall q <- moved :: from <= q)
    requires forall q :: KeyShifted(dirs, after, moved, from, to, q)
    ensures |after| == |dirs| - |Overwritten(dirs, moved, from, to)|
  {
    var targets, hit := RebasedSet(moved, from, to), Overwritten(dirs, moved, from, to);
    RebasedCount(moved, from, to);
    assert hit == targets * (dirs.Keys - moved);
    forall r ensures r in after.Keys <==> r in dirs.Keys - moved || r in targets {
      assert KeyShifted(dirs, after, moved, from, to, r);
    }
    CountRekeyed(dirs.Keys, moved, targets, hit, after.Keys);
  }

  /** A move whose loop keeps the order loses exactly the directories that it does not re-key and re-keys
      others onto. */
  lemma MoveLosesDirs(s: Namespace, from: Path, to: Path)
    requires ChildrenAreDirect(s) && Moves(s, from, to) && MovesInOrder(s, from, to)
    ensures var (t, moved) := (MoveDirectory(s, from, to).0, Moved(s, from, to));
            && |t.dirs| == |s.dirs| - |Overwritten(s.dirs, moved, from, to)|
            && (|t.dirs| == |s.dirs| <==>
                  forall q <- moved :: Rebase(q, from, to) in s.dirs ==> Rebase(q, from, to) in moved)
  {
    var t, moved := MoveDirectory(s, from, to).0, Moved(s, from, to);
    MovesReady(s, from, to);
    forall q ensures KeyShifted(s.dirs, t.dirs, moved, from, to, q) { MoveRekeys(s, from, to, q); }
    RekeyedCount(s.dirs, t.dirs, moved, from, to);
    NoneOverwritten(s.dirs, moved, from, to);
  }

  /** The order is kept when no directory is re-keyed to a path below the source. */
  lemma StaysOutInOrder(s: Namespace, from: Path, to: Path)
    requires ChildrenAreDirect(s) && Moves(s, from, to)
    requires forall q <- Moved(s, from, to) :: !(from < Rebase(q, from, to))
    ensures MovesInOrder(s, from, to)
  {
    MovesReady(s, from, to);
    var dirs, visits := Relinked(s, from, to).dirs, MoveVisits(s, from, to);
    VisitsBelow(dirs - {from}, from, dirs[from]);
    VisitedIsReached(dirs, from);
    forall k, l | 0 <= k < l < |visits| ensures !Onto(s.dirs, visits[k], from, to, visits[l]) {
      assert visits[k] in visits && ComesUnder(dirs - {from}, from, dirs[from], visits[l]);
    }
  }

  /** A move elsewhere than to a missing ancestor's path keeps every directory exactly when there is none yet
      at a path to which one is re-keyed. */
  lemma MoveKeepsDirsIff(s: Namespace, from: Path, to: Path)
    requires ChildrenAreDirect(s) && Moves(s, from, to) && !(to < from)
    ensures MovesInOrder(s, from, to)
    ensures |MoveDirectory(s, from, to).0.dirs| == |s.dirs| <==>
              forall q <- Moved(s, from, to) :: Rebase(q, from, to) !in s.dirs
  {
    MovesReady(s, from, to);
    forall q <- Moved(s, from, to) ensures !(from <= Rebase(q, from, to)) {
      RebaseBack(q, from, to);
      if from <= Rebase(q, from, to) { PrefixesCompare(from, to, Rebase(q, from, to)); }
    }
    StaysOutInOrder(s, from, to);
    MoveLosesDirs(s, from, to);
  }

  // ---------------------------------------------------------------- when the order is needed

  /** No directory is re-keyed a second time: a path visited after a directory is re-keyed onto it is one itself,
      and visited for the first time. */
  predicate MovesOnce(dirs: map<Path, seq<Path>>, visits: seq<Path>, from: Path, to: Path) {
    forall k, l | 0 <= k < l < |visits| && Onto(dirs, visits[k], from, to, visits[l]) ::
      visits[l] in dirs && visits[l] !in visits[..k]
  }

  lemma MovesOnceParts(dirs: map<Path, seq<Path>>, a: seq<Path>, b: seq<Path>, from: Path, to: Path, c: Path)
    requires MovesOnce(dirs, a + b, from, to) && c in a
    ensures MovesOnce(dirs, a, from, to) && MovesOnce(dirs - {c}, b, from, to)
  {
    var v := a + b;
    forall k, l | 0 <= k < l < |a| && Onto(dirs, a[k], from, to, a[l]) ensures a[l] in dirs && a[l] !in a[..k] {
      assert Onto(dirs, v[k], from, to, v[l]) && v[..k] == a[..k];
    }
    forall k, l | 0 <= k < l < |b| && Onto(dirs - {c}, b[k], from, to, b[l])
      ensures b[l] in dirs - {c} && b[l] !in b[..k]
    {
      assert Onto(dirs, v[|a| + k], from, to, v[|a| + l]) && v[..|a| + k] == a + b[..k];
    }
  }

  lemma MovesOnceSame(dirs: map<Path, seq<Path>>, other: map<Path, seq<Path>>, visits: seq<Path>, from: Path, to: Path)
    requires MovesOnce(dirs, visits, from, to) && Agree(dirs, other, visits)
    ensures MovesOnce(other, visits, from, to)
  {
    forall k, l | 0 <= k < l < |visits| && Onto(other, visits[k], from, to, visits[l])
      ensures visits[l] in other && visits[l] !in visits[..k]
    {
      assert visits[k] in visits && visits[l] in visits && Onto(dirs, visits[k], from, to, visits[l]);
    }
  }

  /** Directories visited are re-keyed onto none but those visited. */
  predicate OntoVisited(dirs: map<Path, seq<Path>>, visits: seq<Path>, from: Path, to: Path) {
    forall p <- visits | p in dirs && from <= p && Rebase(p, from, to) in dirs :: Rebase(p, from, to) in visits
  }

  lemma RebaseMoves(p: Path, from: Path, to: Path)
    requires from <= p && from != to
    ensures Rebase(p, from, to) != p
  {
    if |to| == |from| { assert Rebase(p, from, to)[..|to|] == to && p[..|to|] == from; }
  }

  lemma NoneOntoRest(dirs: map<Path, seq<Path>>, first: seq<Path>, rest: seq<Path>, from: Path, to: Path)
    requires from != to && MovesOnce(dirs, first + rest, from, to)
    requires Orderly(dirs, first, from, to) && OntoVisited(dirs, first, from, to)
    ensures NoneOnto(dirs, first, rest, from, to)
  {
    forall p <- first, r <- rest ensures !Onto(dirs, p, from, to, r) {
      var k :| 0 <= k < |first| && first[k] == p;
      var l :| 0 <= l < |rest| && rest[l] == r;
      NotOntoRest(dirs, first, rest, from, to, k, l);
    }
  }

  lemma NotOntoRest(dirs: map<Path, seq<Path>>, first: seq<Path>, rest: seq<Path>, from: Path, to: Path, k: nat, l: nat)
    requires from != to && MovesOnce(dirs, first + rest, from, to) && k < |first| && l < |rest|
    requires Orderly(dirs, first, from, to) && OntoVisited(dirs, first, from, to)
    ensures !Onto(dirs, first[k], from, to, rest[l])
  {
    var v := first + rest;
    assert v[k] == first[k] && v[|first| + l] == rest[l] && v[..k] == first[..k];
    if rest[l] in first {
      var j :| 0 <= j < |first| && first[j] == rest[l];
      if j < k {
        assert rest[l] == first[..k][j];
      } else if k < j {
        assert !Onto(dirs, first[k], from, to, first[j]);
      } else if from <= first[k] {
        RebaseMoves(first[k], from, to);
      }
    }
  }

  lemma RekeyNeverGains(dirs: map<Path, seq<Path>>, c: Path, target: Path)
    requires c in dirs && c != target
    ensures |Rekeyed(dirs, c, target)| == |dirs| - if target in dirs then 1 else 0
  {
    assert Rekeyed(dirs, c, target).Keys == (dirs.Keys - {c}) + {target};
    assert |dirs.Keys - {c}| == |dirs| - 1;
    if target in dirs {
      assert dirs.Keys - {c} + {target} == dirs.Keys - {c};
    } else {
      assert |dirs.Keys - {c} + {target}| == |dirs.Keys - {c}| + 1;
    }
  }

  lemma ChildRekeyedCount(s: Namespace, newBase: Path, i: nat, c: Path, target: Path)
    requires newBase in s.dirs && i < |s.dirs[newBase]| && c in s.dirs && c != target
    ensures |ListRenamed(s, newBase, i, target).dirs| == |s.dirs|
    ensures |ChildRekeyed(s, newBase, i, c, target).dirs| == |s.dirs| - if target in s.dirs then 1 else 0
  {
    var u := ListRenamed(s, newBase, i, target);
    assert u.dirs.Keys == s.dirs.Keys && |u.dirs| == |u.dirs.Keys| && |s.dirs| == |s.dirs.Keys|;
    RekeyNeverGains(u.dirs, c, target);
  }

  /** The loop never leaves more directories than there were. */
  lemma {:induction false} LoopNeverGains(s: Namespace, from: Path, to: Path, base: Path, i: nat, limit: nat,
                                          whole: Namespace)
    requires OnCourse(s, from, to, base, i, limit, whole) && DirectSoFar(s.dirs, base, Rebase(base, from, to), i)
    ensures |whole.dirs| <= |s.dirs|
    decreases limit - |base|, 1, |s.dirs[Rebase(base, from, to)]| - i, 1
  {
    if i == |s.dirs[Rebase(base, from, to)]| {
      CourseEnds(s, from, to, base, i, limit, whole);
    } else {
      NextNeverGains(s, from, to, base, i, limit, whole);
    }
  }

  lemma NextNeverGains(s: Namespace, from: Path, to: Path, base: Path, i: nat, limit: nat, whole: Namespace)
    requires OnCourse(s, from, to, base, i, limit, whole) && DirectSoFar(s.dirs, base, Rebase(base, from, to), i)
    requires i < |s.dirs[Rebase(base, from, to)]|
    ensures |whole.dirs| <= |EntryRenamed(s, from, to, base, i, limit).dirs| <= |s.dirs|
    decreases limit - |base|, 1, |s.dirs[Rebase(base, from, to)]| - i, 0
  {
    EntryNeverGains(s, from, to, base, i, limit);
    EntryKeepsDirect(s, from, to, base, i, limit);
    CourseNext(s, from, to, base, i, limit, whole);
    LoopNeverGains(EntryRenamed(s, from, to, base, i, limit), from, to, base, i + 1, limit, whole);
  }

  lemma EntryNeverGains(s: Namespace, from: Path, to: Path, base: Path, i: nat, limit: nat)
    requires LoopReady(s.dirs, from, to, base, i, limit) && DirectSoFar(s.dirs, base, Rebase(base, from, to), i)
    requires i < |s.dirs[Rebase(base, from, to)]|
    ensures var c := s.dirs[Rebase(base, from, to)][i];
            && from <= c
            && |EntryRenamed(s, from, to, base, i, limit).dirs|
                 <= |s.dirs| - if c in s.dirs && Rebase(c, from, to) in s.dirs then 1 else 0
    decreases limit - |base|, 0
  {
    var newBase := Rebase(base, from, to);
    var c := s.dirs[newBase][i];
    var target := Rebase(c, from, to);
    assert DirectChild(base, c);
    EntryTarget(from, to, base, c);
    if c in s.dirs {
      var v := ChildRekeyed(s, newBase, i, c, target);
      EntryStarts(s.dirs, from, to, base, i, limit, c);
      ChildStartsDirect(s, base, newBase, i, c, target);
      LoopNeverGains(v, from, to, c, 0, limit, RenameFrom(v, from, to, c, 0, limit));
      EntryWithChild(s, from, to, base, i, limit, c);
      ChildRekeyedCount(s, newBase, i, c, target);
    } else {
      EntryWithoutChild(s, from, to, base, i, limit, c);
      assert ListRenamed(s, newBase, i, target).dirs.Keys == s.dirs.Keys;
    }
  }

  /** If nothing moves twice, a loop that loses no directory keeps the order. */
  lemma {:induction false} LoopInOrder(s: Namespace, from: Path, to: Path, base: Path, i: nat, limit: nat,
                                       whole: Namespace, visits: seq<Path>)
    requires OnCourse(s, from, to, base, i, limit, whole) && DirectSoFar(s.dirs, base, Rebase(base, from, to), i)
    requires visits == Visits(s.dirs, s.dirs[Rebase(base, from, to)][i..]) && Rebase(base, from, to) !in visits
    requires MovesOnce(s.dirs, visits, from, to) && |whole.dirs| == |s.dirs|
    ensures Orderly(s.dirs, visits, from, to)
    decreases limit - |base|, 2, |s.dirs[Rebase(base, from, to)]| - i, 2
  {
    if i < |s.dirs[Rebase(base, from, to)]| {
      var newBase := Rebase(base, from, to);
      var c := s.dirs[newBase][i];
      var first, rest := Visit(s.dirs, c), Visits(s.dirs - {c}, s.dirs[newBase][i + 1..]);
      assert s.dirs[newBase][i..][0] == c && s.dirs[newBase][i..][1..] == s.dirs[newBase][i + 1..];
      NextNeverGains(s, from, to, base, i, limit, whole);
      MovesOnceParts(s.dirs, first, rest, from, to, c);
      FirstInOrder(s, from, to, base, i, limit, c);
      NoneOntoRest(s.dirs, first, rest, from, to);
      RestInOrder(s, from, to, base, i, limit, whole, c);
      OrderlyParts(s.dirs, first, rest, from, to);
    }
  }

  lemma RestInOrder(s: Namespace, from: Path, to: Path, base: Path, i: nat, limit: nat, whole: Namespace, c: Path)
    requires OnCourse(s, from, to, base, i, limit, whole) && DirectSoFar(s.dirs, base, Rebase(base, from, to), i)
    requires i < |s.dirs[Rebase(base, from, to)]| && c == s.dirs[Rebase(base, from, to)][i]
    requires |whole.dirs| == |EntryRenamed(s, from, to, base, i, limit).dirs|
    requires var (newBase, first) := (Rebase(base, from, to), Visit(s.dirs, c));
             var rest := Visits(s.dirs - {c}, s.dirs[newBase][i + 1..]);
             && newBase !in first && newBase !in rest && Orderly(s.dirs, first, from, to)
             && NoneOnto(s.dirs, first, rest, from, to) && MovesOnce(s.dirs - {c}, rest, from, to)
    ensures Orderly(s.dirs, Visits(s.dirs - {c}, s.dirs[Rebase(base, from, to)][i + 1..]), from, to)
    decreases limit - |base|, 2, |s.dirs[Rebase(base, from, to)]| - i, 1
  {
    var newBase, t := Rebase(base, from, to), EntryRenamed(s, from, to, base, i, limit);
    var list := s.dirs[newBase][i + 1..];
    var rest := Visits(s.dirs - {c}, list);
    EntryShifts(s, from, to, base, i, limit, c);
    EntryKeepsDirect(s, from, to, base, i, limit);
    CourseNext(s, from, to, base, i, limit, whole);
    RestIsDirect(s.dirs, base, newBase, i);
    RestIsSame(s.dirs, t.dirs, base, newBase, list, c, from, to);
    MovesOnceSame(s.dirs - {c}, t.dirs, rest, from, to);
    assert t.dirs[newBase][i + 1..] == list;
    LoopInOrder(t, from, to, base, i + 1, limit, whole, rest);
    OrderlyBut(s.dirs, t.dirs, Visit(s.dirs, c), rest, c, from, to);
  }

  lemma OrderlyBut(dirs: map<Path, seq<Path>>, other: map<Path, seq<Path>>, first: seq<Path>, visits: seq<Path>,
                   c: Path, from: Path, to: Path)
    requires Agree(dirs - {c}, other, visits) && Orderly(other, visits, from, to)
    requires c in first && NoneOnto(dirs, first, visits, from, to)
    ensures Orderly(dirs, visits, from, to)
  {
    forall k, l | 0 <= k < l < |visits| ensures !Onto(dirs, visits[k], from, to, visits[l]) {
      assert visits[k] in visits && visits[l] in visits && !Onto(other, visits[k], from, to, visits[l]);
    }
  }

  lemma FirstInOrder(s: Namespace, from: Path, to: Path, base: Path, i: nat, limit: nat, c: Path)
    requires LoopReady(s.dirs, from, to, base, i, limit) && DirectSoFar(s.dirs, base, Rebase(base, from, to), i)
    requires i < |s.dirs[Rebase(base, from, to)]| && c == s.dirs[Rebase(base, from, to)][i]
    requires MovesOnce(s.dirs, Visit(s.dirs, c), from, to) && Rebase(base, from, to) !in Visit(s.dirs, c)
    requires |EntryRenamed(s, from, to, base, i, limit).dirs| == |s.dirs|
    ensures Orderly(s.dirs, Visit(s.dirs, c), from, to) && OntoVisited(s.dirs, Visit(s.dirs, c), from, to)
    decreases limit - |base|, 1
  {
    EntryNeverGains(s, from, to, base, i, limit);
    if c in s.dirs {
      ChildInOrder(s, from, to, base, i, limit, c);
    }
  }

  lemma ChildInOrder(s: Namespace, from: Path, to: Path, base: Path, i: nat, limit: nat, c: Path)
    requires LoopReady(s.dirs, from, to, base, i, limit) && DirectSoFar(s.dirs, base, Rebase(base, from, to), i)
    requires i < |s.dirs[Rebase(base, from, to)]| && c == s.dirs[Rebase(base, from, to)][i] && c in s.dirs
    requires MovesOnce(s.dirs, Visit(s.dirs, c), from, to) && Rebase(base, from, to) !in Visit(s.dirs, c)
    requires |EntryRenamed(s, from, to, base, i, limit).dirs| == |s.dirs| && from <= c && Rebase(c, from, to) !in s.dirs
    ensures Orderly(s.dirs, Visit(s.dirs, c), from, to) && OntoVisited(s.dirs, Visit(s.dirs, c), from, to)
    decreases limit - |base|, 0
  {
    var v, below := ChildIsReady(s, from, to, base, i, limit, c);
    EntryWithChild(s, from, to, base, i, limit, c);
    var r := RenameFrom(v, from, to, c, 0, limit);
    LoopInOrder(v, from, to, c, 0, limit, r, below);
    LoopShifts(v, from, to, c, 0, limit, r, below);
    FirstIsInOrder(s.dirs, v.dirs, r.dirs, c, below, from, to);
  }

  /** Where the loop goes on below a child that is re-keyed onto no other directory. */
  lemma ChildIsReady(s: Namespace, from: Path, to: Path, base: Path, i: nat, limit: nat, c: Path)
    returns (v: Namespace, below: seq<Path>)
    requires LoopReady(s.dirs, from, to, base, i, limit) && DirectSoFar(s.dirs, base, Rebase(base, from, to), i)
    requires i < |s.dirs[Rebase(base, from, to)]| && c == s.dirs[Rebase(base, from, to)][i] && c in s.dirs
    requires MovesOnce(s.dirs, Visit(s.dirs, c), from, to) && Rebase(base, from, to) !in Visit(s.dirs, c)
    requires from <= c && Rebase(c, from, to) !in s.dirs
    ensures below == Visits(s.dirs - {c}, s.dirs[c]) && base < c
    ensures var target := Rebase(c, from, to);
      && v == ChildRekeyed(s, Rebase(base, from, to), i, c, target)
      && LoopReady(v.dirs, from, to, c, 0, limit) && DirectSoFar(v.dirs, c, target, 0)
      && below == Visits(v.dirs, v.dirs[target][0..]) && MovesOnce(v.dirs, below, from, to)
      && target !in below && c !in below && (forall q <- below :: from <= q)
      && v.dirs.Keys == s.dirs.Keys - {c} + {target} && |v.dirs| == |s.dirs| && Agree(s.dirs - {c}, v.dirs, below)
  {
    var newBase, target := Rebase(base, from, to), Rebase(c, from, to);
    v, below := ChildRekeyed(s, newBase, i, c, target), Visits(s.dirs - {c}, s.dirs[c]);
    assert DirectChild(base, c);
    EntryTarget(from, to, base, c);
    EntryStarts(s.dirs, from, to, base, i, limit, c);
    ChildStartsDirect(s, base, newBase, i, c, target);
    ChildRekeyedIs(s, newBase, i, c, target);
    ChildRekeyedCount(s, newBase, i, c, target);
    AbsentTarget(s.dirs, c, below, from, to);
    ChildVisitsSame(s.dirs, v.dirs, c, from, to, newBase);
    MovesOnceSame(s.dirs - {c}, v.dirs, below, from, to);
    AllBelow(s.dirs, c, below, from);
  }

  lemma AllBelow(dirs: map<Path, seq<Path>>, c: Path, below: seq<Path>, from: Path)
    requires from <= c && c in dirs && ListIsDirect(c, dirs[c]) && BelowIsDirect(dirs, c)
    requires below == Visits(dirs - {c}, dirs[c])
    ensures forall q <- below :: from <= q
  {
    VisitsBelow(dirs - {c}, c, dirs[c]);
    forall q <- below ensures from <= q { assert ComesUnder(dirs - {c}, c, dirs[c], q); }
  }

  /** A path that no directory is at is not visited after one is re-keyed onto it. */
  lemma AbsentTarget(dirs: map<Path, seq<Path>>, c: Path, below: seq<Path>, from: Path, to: Path)
    requires from <= c && c in dirs && Rebase(c, from, to) !in dirs && MovesOnce(dirs, [c] + below, from, to)
    ensures Rebase(c, from, to) !in below && MovesOnce(dirs - {c}, below, from, to)
  {
    MovesOnceParts(dirs, [c], below, from, to, c);
    var v := [c] + below;
    forall l | 0 <= l < |below| ensures below[l] != Rebase(c, from, to) {
      assert v[0] == c && v[1 + l] == below[l];
      assert below[l] == Rebase(c, from, to) ==> Onto(dirs, v[0], from, to, v[1 + l]);
    }
  }

  lemma FirstIsInOrder(dirs: map<Path, seq<Path>>, v: map<Path, seq<Path>>, after: map<Path, seq<Path>>, c: Path,
                       below: seq<Path>, from: Path, to: Path)
    requires from <= c && c in dirs && Rebase(c, from, to) !in dirs && Rebase(c, from, to) !in below && c !in below
    requires v.Keys == dirs.Keys - {c} + {Rebase(c, from, to)} && Agree(dirs - {c}, v, below)
    requires (forall q <- below :: from <= q) && Orderly(v, below, from, to)
    requires Shifted(v, after, Visited(v, below), from, to, Rebase(c, from, to)) && |after| == |v|
    ensures Orderly(dirs, [c] + below, from, to) && OntoVisited(dirs, [c] + below, from, to)
  {
    var moved := Visited(v, below);
    forall q ensures KeyShifted(v, after, moved, from, to, q) {
      assert ShiftedAt(v, after, moved, from, to, Rebase(c, from, to), q);
    }
    RekeyedCount(v, after, moved, from, to);
    NoneOverwritten(v, moved, from, to);
    OrderlyWithin(v, dirs, below, from, to);
    OrderlyParts(dirs, [c], below, from, to);
  }

  lemma MovedUpInOrder(u: Namespace, from: Path, to: Path)
    requires ChildrenAreDirect(u) && from in u.dirs && to < from && to !in u.dirs
    requires MovesOnce(u.dirs, Visits(u.dirs - {from}, u.dirs[from]), from, to)
    requires |MovedUp(u, from, to).dirs| == |u.dirs|
    ensures Orderly(u.dirs, Visits(u.dirs - {from}, u.dirs[from]), from, to)
  {
    var v, limit := u.(dirs := Rekeyed(u.dirs, from, to)), Longest(u.dirs.Keys);
    var visits := Visits(u.dirs - {from}, u.dirs[from]);
    assert Rebase(from, from, to) == to;
    UpStartsDirect(u, from, to);
    UpVisits(u.dirs, v.dirs, from, to);
    RekeyNeverGains(u.dirs, from, to);
    MovesOnceWithout(u.dirs, v.dirs, visits, from, to);
    assert v.dirs[to][0..] == u.dirs[from];
    LoopInOrder(v, from, to, from, 0, limit, MovedUp(u, from, to), visits);
    OrderlyWithin(v.dirs, u.dirs, visits, from, to);
  }

  lemma MovesOnceWithout(dirs: map<Path, seq<Path>>, other: map<Path, seq<Path>>, visits: seq<Path>, from: Path,
                         to: Path)
    requires MovesOnce(dirs, visits, from, to) && forall q <- visits :: q in other <==> q in dirs
    ensures MovesOnce(other, visits, from, to)
  {
    forall k, l | 0 <= k < l < |visits| && Onto(other, visits[k], from, to, visits[l])
      ensures visits[l] in other && visits[l] !in visits[..k]
    {
      assert visits[k] in visits && visits[l] in visits && Onto(dirs, visits[k], from, to, visits[l]);
    }
  }

  /** No directory is re-keyed onto a path that the loop comes to afterwards, unless one is there to be re-keyed
      for the first time. */
  ghost predicate NoneMovesTwice(s: Namespace, from: Path, to: Path)
    requires ChildrenAreDirect(s) && Moves(s, from, to)
  {
    MovesOnce(s.dirs, MoveVisits(s, from, to), from, to)
  }

  /** A move that re-keys no directory twice keeps every directory exactly when its loop keeps the order and
      it re-keys none onto one that stays. */
  lemma MoveOnceKeepsDirsIff(s: Namespace, from: Path, to: Path)
    requires ChildrenAreDirect(s) && Moves(s, from, to) && NoneMovesTwice(s, from, to)
    ensures |MoveDirectory(s, from, to).0.dirs| == |s.dirs| <==>
              && MovesInOrder(s, from, to)
              && forall q <- Moved(s, from, to) ::
                   Rebase(q, from, to) in s.dirs ==> Rebase(q, from, to) in Moved(s, from, to)
  {
    MovesReady(s, from, to);
    if MovesInOrder(s, from, to) {
      MoveLosesDirs(s, from, to);
    } else if to < from {
      var u := Relinked(s, from, to);
      MovesOnceWithout(s.dirs, u.dirs, MoveVisits(s, from, to), from, to);
      if |MoveDirectory(s, from, to).0.dirs| == |u.dirs| {
        MovedUpInOrder(u, from, to);
        OrderlyWithin(u.dirs, s.dirs, MoveVisits(s, from, to), from, to);
      }
      assert |u.dirs| == |u.dirs.Keys| && |s.dirs| == |s.dirs.Keys|;
    } else {
      MoveKeepsDirsIff(s, from, to);
    }
  }
}
