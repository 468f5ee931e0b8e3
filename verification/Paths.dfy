/** Clean absolute paths as sequences of names: `/a/b` is `["a", "b"]` and `/` is `[]`. */
module Paths {
  type Path = seq<string>

  const ROOT: Path := []

  function Parent(p: Path): Path
    requires p != ROOT
  {
    p[..|p| - 1]
  }

  /** `p` seen from the prefix `to` instead of the prefix `from`. */
  function Rebase(p: Path, from: Path, to: Path): Path
    requires from <= p
  {
    to + p[|from|..]
  }

  function RebaseAll(ps: seq<Path>, from: Path, to: Path): (r: seq<Path>)
    requires forall p <- ps :: from <= p
    ensures |r| == |ps|
  {
    seq(|ps|, i requires 0 <= i < |ps| => assert ps[i] in ps; Rebase(ps[i], from, to))
  }

  /** `ps` without any occurrence of `p`. */
  function Without(ps: seq<Path>, p: Path): (r: seq<Path>)
    ensures forall x :: x in r <==> x in ps && x != p
    ensures p !in ps ==> r == ps
  {
    if ps == [] then []
    else if ps[0] == p then Without(ps[1..], p)
    else [ps[0]] + Without(ps[1..], p)
  }

  /** `ps` without the first occurrence of `p`. */
  function WithoutFirst(ps: seq<Path>, p: Path): (r: seq<Path>)
    ensures forall x :: x in r ==> x in ps
    ensures forall x :: x in ps && x != p ==> x in r
  {
    if ps == [] then []
    else if ps[0] == p then ps[1..]
    else [ps[0]] + WithoutFirst(ps[1..], p)
  }

  /** The length of the longest of the paths. */
  ghost function Longest(ps: set<Path>): (n: nat)
    ensures forall p <- ps :: |p| <= n
  {
    if ps == {} then 0
    else
      var p :| p in ps;
      var n := Longest(ps - {p});
      if |p| <= n then n else |p|
  }

  lemma {:induction false} WithoutFirstCount(ps: seq<Path>, p: Path)
    ensures multiset(WithoutFirst(ps, p)) == multiset(ps) - multiset{p}
  {
    if ps != [] {
      assert ps == [ps[0]] + ps[1..];
      WithoutFirstCount(ps[1..], p);
    }
  }

  lemma {:induction false} WithoutAppend(ps: seq<Path>, q: Path, p: Path)
    ensures Without(ps + [q], p) == Without(ps, p) + if q == p then [] else [q]
  {
    if ps != [] {
      WithoutAppend(ps[1..], q, p);
      assert (ps + [q])[1..] == ps[1..] + [q];
    }
  }

  lemma {:induction false} WithoutFirstAt(before: seq<Path>, p: Path, after: seq<Path>)
    requires p !in before
    ensures WithoutFirst(before + [p] + after, p) == before + after
  {
    var ps := before + [p] + after;
    if before == [] {
      assert ps[1..] == after;
    } else {
      assert ps[1..] == before[1..] + [p] + after;
      WithoutFirstAt(before[1..], p, after);
    }
  }

  lemma {:induction false} WithoutFirstAbsent(ps: seq<Path>, p: Path)
    requires p !in ps
    ensures WithoutFirst(ps, p) == ps
  {
    if ps != [] { WithoutFirstAbsent(ps[1..], p); }
  }

  lemma Take(ps: seq<Path>, k: nat)
    requires k <= |ps|
    ensures k < |ps| ==> ps[..k + 1] == ps[..k] + [ps[k]]
    ensures ps[..|ps|] == ps && ps + ps[|ps|..] == ps
  {
  }

  lemma ParentOfRebase(p: Path, from: Path, to: Path)
    requires from < p
    ensures Rebase(p, from, to) != ROOT
    ensures from <= Parent(p)
    ensures Parent(Rebase(p, from, to)) == Rebase(Parent(p), from, to)
  {
    assert p[|from|..] != [];
  }

  lemma RebaseBack(p: Path, from: Path, to: Path)
    requires from <= p
    ensures to <= Rebase(p, from, to)
    ensures Rebase(Rebase(p, from, to), to, from) == p
  {
    assert p == from + p[|from|..];
  }

  lemma RebaseThrough(p: Path, from: Path, mid: Path, to: Path)
    requires from <= mid <= p
    ensures Rebase(p, mid, Rebase(mid, from, to)) == Rebase(p, from, to)
  {
    assert p[|from|..] == mid[|from|..] + p[|mid|..];
  }
}
