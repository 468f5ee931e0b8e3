/** Hybrid placement: by score, with at most two nodes per member in the first half. */
module HybridSelection {
  import opened Sorting
  import opened PlacementSpec
  import opened Sequences
  import opened Selection
  import opened Types

  // ---------------------------------------------------------------- counting by member

  function CountMember(s: seq<NodeInfo>, d: string): nat {
    if s == [] then 0
    else CountMember(s[..|s| - 1], d) + if s[|s| - 1].memberDomain == d then 1 else 0
  }

  /** How many nodes remain when each member is cut down to its first two. */
  function Capped(s: seq<NodeInfo>): nat {
    if s == [] then 0
    else
      var rest, d := s[..|s| - 1], s[|s| - 1].memberDomain;
      Capped(rest) + if CountMember(rest, d) < 2 then 1 else 0
  }

  /** The sum over the members `ds` of the smaller of two and the member's number of nodes. */
  function CappedSum(ds: seq<string>, s: seq<NodeInfo>): nat {
    if ds == [] then 0
    else CappedSum(ds[..|ds| - 1], s) + Min(2, CountMember(s, ds[|ds| - 1]))
  }

  lemma CountNext(s: seq<NodeInfo>, n: NodeInfo, d: string)
    ensures CountMember(s + [n], d) == CountMember(s, d) + if n.memberDomain == d then 1 else 0
  {
    assert (s + [n])[..|s|] == s;
  }

  lemma {:induction false} CappedSumNext(ds: seq<string>, s: seq<NodeInfo>, n: NodeInfo)
    requires Distinct(ds)
    ensures CappedSum(ds, s + [n]) == CappedSum(ds, s)
              + if n.memberDomain in ds && CountMember(s, n.memberDomain) < 2 then 1 else 0
  {
    if ds != [] {
      var front, d := ds[..|ds| - 1], ds[|ds| - 1];
      CappedSumNext(front, s, n);
      CountNext(s, n, d);
      assert d !in front && ds == front + [d];
    }
  }

  /** Whatever the order, the cut-down number is that sum, over any list of all members. */
  lemma {:induction false} CappedIsSum(ds: seq<string>, s: seq<NodeInfo>)
    requires Distinct(ds) && forall n <- s :: n.memberDomain in ds
    ensures Capped(s) == CappedSum(ds, s)
  {
    if s == [] {
      NoneCapped(ds);
    } else {
      var rest, n := s[..|s| - 1], s[|s| - 1];
      assert s == rest + [n];
      CappedIsSum(ds, rest);
      CappedSumNext(ds, rest, n);
    }
  }

  lemma {:induction false} NoneCapped(ds: seq<string>)
    ensures CappedSum(ds, []) == 0
  {
    if ds != [] { NoneCapped(ds[..|ds| - 1]); }
  }

  lemma {:induction false} CountRemove(s: seq<NodeInfo>, k: nat, d: string)
    requires k < |s|
    ensures CountMember(s, d) == CountMember(s[..k] + s[k + 1..], d) + if s[k].memberDomain == d then 1 else 0
  {
    if k < |s| - 1 {
      var rest, n := s[..|s| - 1], s[|s| - 1];
      assert s == rest + [n] && rest[..k] == s[..k] && s[k + 1..] == rest[k + 1..] + [n];
      assert s[..k] + s[k + 1..] == (rest[..k] + rest[k + 1..]) + [n];
      CountRemove(rest, k, d);
      CountNext(rest[..k] + rest[k + 1..], n, d);
    } else {
      assert s[..k] + s[k + 1..] == s[..k];
    }
  }

  lemma LastRemoved(a: seq<NodeInfo>, b: seq<NodeInfo>, k: nat)
    requires a != [] && multiset(a) == multiset(b) && k < |b| && b[k] == a[|a| - 1]
    ensures multiset(a[..|a| - 1]) == multiset(b[..k] + b[k + 1..])
  {
    WithoutIndex(b, k);
    WithoutIndex(a, |a| - 1);
    assert a[..|a| - 1] + a[|a|..] == a[..|a| - 1];
  }

  /** Counting ignores the order. */
  lemma {:induction false} CountPermuted(a: seq<NodeInfo>, b: seq<NodeInfo>, d: string)
    requires multiset(a) == multiset(b)
    ensures CountMember(a, d) == CountMember(b, d)
    decreases |a|
  {
    SameElements(a, b);
    if a != [] {
      var n := a[|a| - 1];
      assert n in b;
      var k :| 0 <= k < |b| && b[k] == n;
      LastRemoved(a, b, k);
      CountRemove(b, k, d);
      CountPermuted(a[..|a| - 1], b[..k] + b[k + 1..], d);
    }
  }

  lemma {:induction false} CappedSumPermuted(ds: seq<string>, a: seq<NodeInfo>, b: seq<NodeInfo>)
    requires multiset(a) == multiset(b)
    ensures CappedSum(ds, a) == CappedSum(ds, b)
  {
    if ds != [] {
      CappedSumPermuted(ds[..|ds| - 1], a, b);
      CountPermuted(a, b, ds[|ds| - 1]);
    }
  }

  // ---------------------------------------------------------------- the selection loop

  /** A third node of one member is passed over while the first half is being filled. */
  predicate Skips(picks: seq<NodeInfo>, n: NodeInfo, count: nat) {
    CountMember(picks, n.memberDomain) >= 2 && |picks| < count / 2
  }

  /** The picks after the whole of `ranked` has been looked at. */
  function HybridPicks(ranked: seq<NodeInfo>, count: nat): (picks: seq<NodeInfo>)
    ensures |picks| <= count && |picks| <= |ranked|
  {
    if ranked == [] then []
    else
      var picks, n := HybridPicks(ranked[..|ranked| - 1], count), ranked[|ranked| - 1];
      if |picks| >= count || Skips(picks, n, count) then picks else picks + [n]
  }

  /** While the first half is not full, the picks are exactly the cut-down members; once it is, the
      members had enough for it. */
  lemma {:induction false} FirstHalf(ranked: seq<NodeInfo>, count: nat, d: string)
    ensures var picks := HybridPicks(ranked, count);
      && (|picks| < count / 2 ==> |picks| == Capped(ranked) && CountMember(picks, d) == Min(2, CountMember(ranked, d)))
      && (|picks| >= count / 2 ==> Capped(ranked) >= count / 2)
  {
    if ranked != [] {
      var rest, n := ranked[..|ranked| - 1], ranked[|ranked| - 1];
      FirstHalf(rest, count, d);
      FirstHalf(rest, count, n.memberDomain);
      CountNext(HybridPicks(rest, count), n, d);
    }
  }

  /** Hybrid placement fills its first half exactly when two nodes per member suffice for it; when
      they do not, those two per member are all it returns. */
  lemma HybridLowerBound(nodes: seq<NodeInfo>, ranked: seq<NodeInfo>, count: nat, ds: seq<string>)
    requires multiset(ranked) == multiset(nodes)
    requires Distinct(ds) && forall n <- nodes :: n.memberDomain in ds
    ensures |HybridPicks(ranked, count)| >= Min(count / 2, CappedSum(ds, nodes))
    ensures |HybridPicks(ranked, count)| < count / 2 <==> CappedSum(ds, nodes) < count / 2
    ensures CappedSum(ds, nodes) < count / 2 ==> |HybridPicks(ranked, count)| == CappedSum(ds, nodes)
  {
    SameElements(ranked, nodes);
    CappedIsSum(ds, ranked);
    CappedSumPermuted(ds, ranked, nodes);
    FirstHalf(ranked, count, "");
  }

  /** After the first half is full, every further node is taken until there are `count`. */
  lemma {:induction false} PicksGrow(ranked: seq<NodeInfo>, m: nat, count: nat)
    requires m <= |ranked|
    ensures var (before, after) := (|HybridPicks(ranked[..m], count)|, |HybridPicks(ranked, count)|);
      && before <= after <= before + |ranked| - m
      && (before >= count / 2 ==> after == Min(count, before + |ranked| - m))
    decreases |ranked| - m
  {
    if m == |ranked| {
      assert ranked[..m] == ranked;
    } else {
      var rest := ranked[..|ranked| - 1];
      assert rest[..m] == ranked[..m];
      PicksGrow(rest, m, count);
    }
  }

  /** Hybrid placement returns all `count` nodes exactly when the first half can be filled, two per
      member, without the `count - count / 2` lowest-ranked nodes. */
  lemma HybridCompleteIff(ranked: seq<NodeInfo>, count: nat)
    requires count <= |ranked|
    ensures |HybridPicks(ranked, count)| == count <==>
              Capped(ranked[..|ranked| - (count - count / 2)]) >= count / 2
  {
    var half: nat := count / 2;
    var m: nat := |ranked| - (count - half);
    var before, after := |HybridPicks(ranked[..m], count)|, |HybridPicks(ranked, count)|;
    PicksGrow(ranked, m, count);
    FirstHalf(ranked[..m], count, "");
    CompleteIff(count, half, before, after, |ranked| - m, Capped(ranked[..m]));
  }

  /** The counting behind `HybridCompleteIff`. */
  lemma CompleteIff(count: nat, half: nat, before: nat, after: nat, more: nat, capped: nat)
    requires half <= count && more == count - half && after <= before + more
    requires before >= half ==> after == Min(count, before + more)
    requires if before < half then before == capped else capped >= half
    ensures after == count <==> capped >= half
  {
  }

  /** Six or more replicas asked of a single member yield two, however many nodes it has. */
  lemma HybridStarvesSingleMember(nodes: seq<NodeInfo>, ranked: seq<NodeInfo>, count: nat, d: string)
    requires multiset(ranked) == multiset(nodes) && 6 <= count <= |nodes|
    requires forall n <- nodes :: n.memberDomain == d
    ensures |HybridPicks(ranked, count)| == 2
  {
    CountAll(nodes, d);
    assert [d][..0] == [] && CappedSum([d], nodes) == CappedSum([], nodes) + 2;
    HybridLowerBound(nodes, ranked, count, [d]);
  }

  lemma {:induction false} CountAll(nodes: seq<NodeInfo>, d: string)
    requires forall n <- nodes :: n.memberDomain == d
    ensures CountMember(nodes, d) == |nodes|
  {
    if nodes != [] { CountAll(nodes[..|nodes| - 1], d); }
  }

  /** No member has more than two nodes in the first half. */
  lemma {:induction false} HybridDiversity(ranked: seq<NodeInfo>, count: nat, j: nat, d: string)
    requires j <= count / 2 && j <= |HybridPicks(ranked, count)|
    ensures CountMember(HybridPicks(ranked, count)[..j], d) <= 2
  {
    if ranked != [] {
      var rest, n := ranked[..|ranked| - 1], ranked[|ranked| - 1];
      var before, picks := HybridPicks(rest, count), HybridPicks(ranked, count);
      if j <= |before| {
        assert picks[..j] == before[..j];
        HybridDiversity(rest, count, j, d);
      } else {
        assert picks[..j] == before + [n] && before[..j - 1] == before;
        HybridDiversity(rest, count, j - 1, d);
        CountNext(before, n, d);
      }
    }
  }

  lemma {:induction false} CountBound(s: seq<NodeInfo>, d: string)
    ensures CountMember(s, d) <= |s|
  {
    if s != [] { CountBound(s[..|s| - 1], d); }
  }

  /** For up to five replicas nothing is ever skipped: the best-scored nodes are returned. */
  lemma {:induction false} HybridSmall(ranked: seq<NodeInfo>, count: nat)
    requires count <= 5
    ensures HybridPicks(ranked, count) == ranked[..Min(count, |ranked|)]
  {
    if ranked != [] {
      var rest, n := ranked[..|ranked| - 1], ranked[|ranked| - 1];
      HybridSmall(rest, count);
      CountBound(HybridPicks(rest, count), n.memberDomain);
    }
  }

  predicate Offers(nodes: seq<NodeInfo>, id: NodeID) {
    exists n <- nodes :: n.nodeID == id
  }

  lemma {:induction false} PicksAreOffered(ranked: seq<NodeInfo>, count: nat)
    ensures forall n <- HybridPicks(ranked, count) :: n in ranked
    ensures forall id <- Ids(HybridPicks(ranked, count)) :: Offers(ranked, id)
  {
    if ranked != [] { PicksAreOffered(ranked[..|ranked| - 1], count); }
  }

  lemma {:induction false} HybridIsChoice(ranked: seq<NodeInfo>, count: nat)
    requires Distinct(Ids(ranked))
    ensures Choice(ranked, HybridPicks(ranked, count))
  {
    if ranked != [] {
      var rest, n := ranked[..|ranked| - 1], ranked[|ranked| - 1];
      assert Ids(ranked) == Ids(rest) + [n.nodeID];
      HybridIsChoice(rest, count);
      var picks := HybridPicks(rest, count);
      IdsAppend(picks, n);
      forall i | 0 <= i < |picks| ensures Ids(picks)[i] != n.nodeID {
        assert picks[i] in rest;
        var k :| 0 <= k < |rest| && rest[k] == picks[i];
        assert Ids(ranked)[k] != Ids(ranked)[|rest|];
      }
    }
  }

  // ---------------------------------------------------------------- the method

  datatype ScoredNode = ScoredNode(node: NodeInfo, score: real)

  predicate HigherScore(a: ScoredNode, b: ScoredNode) {
    a.score > b.score
  }

  function Nodes(scored: seq<ScoredNode>): (r: seq<NodeInfo>)
    ensures |r| == |scored| && forall i | 0 <= i < |r| :: r[i] == scored[i].node
  {
    seq(|scored|, i requires 0 <= i < |scored| => scored[i].node)
  }

  /** The nodes from the highest score to the lowest; the order is open when a node has no capacity, since
      a quotient by zero need not compare with the others. */
  method RankByScore(nodes: seq<NodeInfo>, policy: Policy) returns (ranked: seq<NodeInfo>)
    ensures multiset(ranked) == multiset(nodes) && Ranked(ranked, policy.localFirst)
  {
    ranked := nodes;
    if Measurable(nodes) {
      ranked := SortByScore(nodes, policy);
    }
  }

  method SortByScore(nodes: seq<NodeInfo>, policy: Policy) returns (ranked: seq<NodeInfo>)
    requires Measurable(nodes)
    ensures multiset(ranked) == multiset(nodes) && Ranked(ranked, policy.localFirst)
  {
    var scored: seq<ScoredNode> := [];
    for i := 0 to |nodes|
      invariant |scored| == i
      invariant forall j | 0 <= j < i :: scored[j].node == nodes[j] && Scored(scored[j], policy.localFirst)
    {
      assert nodes[i] in nodes;
      scored := scored + [ScoredNode(nodes[i], HybridScore(policy.localFirst, nodes[i]))];
    }
    var sorted := SortSlice(scored, HigherScore);
    ranked := Nodes(sorted);
    assert Nodes(scored) == nodes;
    NodesPermuted(scored, sorted);
    forall i | 0 <= i < |sorted| ensures Scored(sorted[i], policy.localFirst) {
      assert sorted[i] in scored;
    }
  }

  predicate Measurable(nodes: seq<NodeInfo>) {
    forall n <- nodes :: n.capacity != 0
  }

  predicate Scored(s: ScoredNode, localFirst: bool) {
    s.node.capacity != 0 && s.score == HybridScore(localFirst, s.node)
  }

  predicate Ranked(nodes: seq<NodeInfo>, localFirst: bool) {
    Measurable(nodes) ==>
      forall i, j | 0 <= i < j < |nodes| ::
        nodes[i].capacity != 0 && nodes[j].capacity != 0
        && HybridScore(localFirst, nodes[i]) >= HybridScore(localFirst, nodes[j])
  }

  method SelectHybridNodes(nodes: seq<NodeInfo>, count: nat, policy: Policy)
    returns (selected: seq<NodeID>, ghost ranked: seq<NodeInfo>)
    ensures |selected| <= count && forall id <- selected :: Offers(nodes, id)
    ensures count <= 5 ==> |selected| == Min(count, |nodes|)
    ensures multiset(ranked) == multiset(nodes) && Ranked(ranked, policy.localFirst)
    ensures selected == Ids(HybridPicks(ranked, count))
  {
    var scored := RankByScore(nodes, policy);
    ranked := scored;
    selected := PickDiverse(scored, count);
    SameElements(ranked, nodes);
    PicksAreOffered(ranked, count);
    if count <= 5 { HybridSmall(ranked, count); }
  }

  /** The selection loop: `membersUsed` tallies the picks by member. */
  method PickDiverse(ranked: seq<NodeInfo>, count: nat) returns (selected: seq<NodeID>)
    ensures selected == Ids(HybridPicks(ranked, count))
  {
    selected := [];
    var membersUsed: map<string, nat> := map[];
    var i := 0;
    NothingPicked(ranked, count);
    while i < |ranked|
      invariant i <= |ranked|
      invariant PickedSoFar(ranked, i, count, selected, membersUsed)
    {
      var n := ranked[i];
      var used := Used(membersUsed, n.memberDomain);
      PickStep(ranked, i, count, selected, membersUsed, n, used);
      if |selected| < count && !(used >= 2 && |selected| < count / 2) {
        selected := selected + [n.nodeID];
        membersUsed := membersUsed[n.memberDomain := used + 1];
      }
      i := i + 1;
    }
    assert ranked[..i] == ranked;
  }

  /** The loop's variables agree with the picks from the first `i` nodes. */
  ghost predicate PickedSoFar(ranked: seq<NodeInfo>, i: nat, count: nat, selected: seq<NodeID>,
                              membersUsed: map<string, nat>)
    requires i <= |ranked|
  {
    var picks := HybridPicks(ranked[..i], count);
    selected == Ids(picks) && Tallies(membersUsed, picks)
  }

  lemma NothingPicked(ranked: seq<NodeInfo>, count: nat)
    ensures PickedSoFar(ranked, 0, count, [], map[])
  {
    assert HybridPicks(ranked[..0], count) == [];
    forall d ensures TallyAt(map[], [], d) {}
  }

  lemma TallyIs(membersUsed: map<string, nat>, picks: seq<NodeInfo>, d: string)
    requires Tallies(membersUsed, picks)
    ensures Used(membersUsed, d) == CountMember(picks, d)
  {
    assert TallyAt(membersUsed, picks, d);
  }

  predicate TallyAt(membersUsed: map<string, nat>, picks: seq<NodeInfo>, d: string) {
    Used(membersUsed, d) == CountMember(picks, d)
  }

  ghost predicate Tallies(membersUsed: map<string, nat>, picks: seq<NodeInfo>) {
    forall d :: TallyAt(membersUsed, picks, d)
  }

  lemma TallyNext(membersUsed: map<string, nat>, picks: seq<NodeInfo>, n: NodeInfo)
    requires Tallies(membersUsed, picks)
    ensures Tallies(membersUsed[n.memberDomain := Used(membersUsed, n.memberDomain) + 1], picks + [n])
  {
    var (updated, longer) := (membersUsed[n.memberDomain := Used(membersUsed, n.memberDomain) + 1], picks + [n]);
    forall d ensures TallyAt(updated, longer, d) {
      assert TallyAt(membersUsed, picks, d) && TallyAt(membersUsed, picks, n.memberDomain);
      CountNext(picks, n, d);
    }
  }

  /** What looking at one more node does to the picks, their IDs and the tally. */
  lemma PickStep(ranked: seq<NodeInfo>, i: nat, count: nat, selected: seq<NodeID>, membersUsed: map<string, nat>,
                 n: NodeInfo, used: nat)
    requires i < |ranked| && PickedSoFar(ranked, i, count, selected, membersUsed)
    requires n == ranked[i] && used == Used(membersUsed, n.memberDomain)
    ensures if |selected| < count && !(used >= 2 && |selected| < count / 2) then
              PickedSoFar(ranked, i + 1, count, selected + [n.nodeID], membersUsed[n.memberDomain := used + 1])
            else PickedSoFar(ranked, i + 1, count, selected, membersUsed)
  {
    var picks := HybridPicks(ranked[..i], count);
    assert ranked[..i + 1][..i] == ranked[..i];
    TallyIs(membersUsed, picks, ranked[i].memberDomain);
    IdsAppend(picks, ranked[i]);
    TallyNext(membersUsed, picks, ranked[i]);
  }

  /** A missing key reads as zero. */
  function Used(membersUsed: map<string, nat>, d: string): nat {
    if d in membersUsed then membersUsed[d] else 0
  }

  lemma NodesRemove(s: seq<ScoredNode>, k: nat)
    requires k < |s|
    ensures multiset(Nodes(s)) == multiset(Nodes(s[..k] + s[k + 1..])) + multiset{s[k].node}
  {
    WithoutIndex(Nodes(s), k);
    assert Nodes(s)[..k] + Nodes(s)[k + 1..] == Nodes(s[..k] + s[k + 1..]);
    assert s[k].node in Nodes(s);
  }

  /** Equal sequences of scored nodes up to order, with equal elements taken out. */
  lemma PermutedRest(a: seq<ScoredNode>, b: seq<ScoredNode>, k: nat)
    requires a != [] && multiset(a) == multiset(b) && k < |b| && b[k] == a[0]
    ensures multiset(a[..0] + a[1..]) == multiset(b[..k] + b[k + 1..])
  {
    WithoutIndex(a, 0);
    WithoutIndex(b, k);
  }

  lemma {:induction false} NodesPermuted(a: seq<ScoredNode>, b: seq<ScoredNode>)
    requires multiset(a) == multiset(b)
    ensures multiset(Nodes(a)) == multiset(Nodes(b))
    decreases |a|
  {
    if a == [] {
      assert |multiset(b)| == 0;
    } else {
      assert a[0] in multiset(a) && a[0] in multiset(b);
      var k :| 0 <= k < |b| && b[k] == a[0];
      PermutedRest(a, b, k);
      NodesPermuted(a[..0] + a[1..], b[..k] + b[k + 1..]);
      NodesRemove(a, 0);
      NodesRemove(b, k);
    }
  }
}
