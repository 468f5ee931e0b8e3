/** The placement engine: registered nodes, policies, chunk popularity, node selection. */
module Placement {
  import opened Types
  import opened Wrappers
  import opened Sorting
  import opened PlacementSpec
  import opened Preferences
  import opened Sequences
  import opened Selection
  import opened HybridSelection
  import opened Failures

  datatype PlacementError = InsufficientNodes(need: int, have: int)

  // ---------------------------------------------------------------- popularity

  lemma Decayed(score: real, decay: real)
    requires 0.0 <= score && 0.0 <= decay <= 1.0
    ensures 0.0 <= score * decay <= score
  {
    assert score * decay + score * (1.0 - decay) == score;
  }

  /** One access: the old score decays, a tenth is added, and one is the ceiling. */
  function Heat(score: real, decay: real): (r: real)
    requires 0.0 <= score <= 1.0 && 0.0 <= decay <= 1.0
    ensures 0.0 <= r <= 1.0 && r <= score + 0.1
  {
    Decayed(score, decay);
    var raw := score * decay + 0.1;
    if raw < 1.0 then raw else 1.0
  }

  predicate Decays(ds: seq<real>) {
    forall i | 0 <= i < |ds| :: 0.0 <= ds[i] <= 1.0
  }

  /** The score of a chunk after its accesses, given the decay each of them saw. */
  function HeatAll(decays: seq<real>): (r: real)
    requires Decays(decays)
    ensures 0.0 <= r <= 1.0
  {
    if decays == [] then 0.0 else Heat(HeatAll(decays[..|decays| - 1]), decays[|decays| - 1])
  }

  function HalfTowardZero(x: int): (r: int)
    ensures if x >= 0 then 2 * r <= x <= 2 * r + 1 else 2 * r - 1 <= x <= 2 * r
  {
    if x >= 0 then x / 2 else -(-x / 2)
  }

  /** Replicas for a chunk of the given score; an unknown chunk is cold. */
  function ReplicaCount(policy: Policy, score: Option<real>): (r: int)
    ensures policy.minReplicas <= policy.maxReplicas ==> policy.minReplicas <= r <= policy.maxReplicas
  {
    match score
    case None => policy.minReplicas
    case Some(hot) =>
      if hot > 0.7 then policy.maxReplicas
      else if hot > 0.4 then HalfTowardZero(policy.minReplicas + policy.maxReplicas)
      else policy.minReplicas
  }

  /** However they decay, fewer than eight accesses never make a chunk hot, nor fewer than five warm. */
  lemma {:induction false} HeatIsBounded(decays: seq<real>)
    requires Decays(decays)
    ensures HeatAll(decays) <= |decays| as real * 0.1
  {
    if decays != [] { HeatIsBounded(decays[..|decays| - 1]); }
  }

  lemma ProductGrows(a: real, b: real, c: real, d: real)
    requires 0.0 <= a <= b && 0.0 <= c <= d
    ensures 0.0 <= a * c <= b * d
  {
    assert b * d - a * c == (b - a) * d + a * (d - c);
  }

  lemma HeatGrows(score: real, score': real, decay: real, decay': real)
    requires 0.0 <= score <= score' <= 1.0 && 0.0 <= decay <= decay' <= 1.0
    ensures Heat(score, decay) <= Heat(score', decay')
  {
    ProductGrows(score, score', decay, decay');
  }

  /** More accesses, or accesses that decay less, never make a chunk colder. */
  lemma {:induction false} HeatAllGrows(some: seq<real>, all: seq<real>)
    requires Decays(some) && Decays(all) && |some| <= |all|
    requires forall i | 0 <= i < |some| :: some[i] <= all[|all| - |some| + i]
    ensures HeatAll(some) <= HeatAll(all)
  {
    if some != [] {
      var (front, front') := (some[..|some| - 1], all[..|all| - 1]);
      HeatAllGrows(front, front');
      assert some[|some| - 1] <= all[|all| - |some| + (|some| - 1)];
      HeatGrows(HeatAll(front), HeatAll(front'), some[|some| - 1], all[|all| - 1]);
    }
  }

  function Steady(d: real, n: nat): (r: seq<real>)
    ensures |r| == n && forall i | 0 <= i < n :: r[i] == d
  {
    seq(n, i => d)
  }

  lemma SteadyNext(d: real, n: nat)
    requires 0.0 <= d <= 1.0
    ensures Decays(Steady(d, n)) && Decays(Steady(d, n + 1))
    ensures HeatAll(Steady(d, n + 1)) == Heat(HeatAll(Steady(d, n)), d)
  {
    assert Steady(d, n + 1)[..n] == Steady(d, n);
  }

  /** Eight accesses that all decay by this factor make a chunk hot. */
  predicate Close(d: real) {
    0.0 <= d <= 1.0 && HeatAll(Steady(d, 8)) > 0.7
  }

  /** A chunk gets the maximum from its eighth access on and not before, if no access decays its score
      by more than a factor with which eight accesses suffice at all. */
  lemma HotIff(policy: Policy, decays: seq<real>, d: real)
    requires Decays(decays) && Close(d) && forall i | 0 <= i < |decays| :: d <= decays[i]
    requires policy.minReplicas < policy.maxReplicas
    requires HalfTowardZero(policy.minReplicas + policy.maxReplicas) < policy.maxReplicas
    ensures ReplicaCount(policy, Some(HeatAll(decays))) == policy.maxReplicas <==> |decays| >= 8
  {
    HeatIsBounded(decays);
    if |decays| >= 8 { HeatAllGrows(Steady(d, 8), decays); }
  }

  lemma {:induction false} SteadyRises(d: real, n: nat, k: nat)
    requires 0.0 <= d <= 1.0
    ensures Decays(Steady(d, n)) && Decays(Steady(d, n + k))
    ensures HeatAll(Steady(d, n + k)) <= HeatAll(Steady(d, n)) + k as real * 0.1
  {
    if k > 0 {
      SteadyRises(d, n, k - 1);
      SteadyNext(d, n + k - 1);
    }
  }

  /** Such a chunk gets the minimum up to its fourth access, the middle from its fifth, and the maximum from its
      eighth. */
  lemma ReplicasByAccesses(policy: Policy, decays: seq<real>, d: real)
    requires Decays(decays) && Close(d) && forall i | 0 <= i < |decays| :: d <= decays[i]
    ensures var (min, max, n) := (policy.minReplicas, policy.maxReplicas, |decays|);
            ReplicaCount(policy, Some(HeatAll(decays))) ==
              if n < 5 then min else if n < 8 then HalfTowardZero(min + max) else max
  {
    HeatIsBounded(decays);
    SteadyRises(d, 5, 3);
    if |decays| >= 5 { HeatAllGrows(Steady(d, 5), decays); }
    if |decays| >= 8 { HeatAllGrows(Steady(d, 8), decays); }
  }

  lemma EightAt97()
    ensures HeatAll(Steady(0.97, 8)) > 0.7
  {
    SteadyNext(0.97, 0);
    assert HeatAll(Steady(0.97, 1)) == 0.1;
    SteadyNext(0.97, 1);
    assert HeatAll(Steady(0.97, 2)) >= 0.197;
    SteadyNext(0.97, 2);
    assert HeatAll(Steady(0.97, 3)) >= 0.291;
    SteadyNext(0.97, 3);
    assert HeatAll(Steady(0.97, 4)) >= 0.382;
    SteadyNext(0.97, 4);
    assert HeatAll(Steady(0.97, 5)) >= 0.470;
    SteadyNext(0.97, 5);
    assert HeatAll(Steady(0.97, 6)) >= 0.555;
    SteadyNext(0.97, 6);
    assert HeatAll(Steady(0.97, 7)) >= 0.638;
    SteadyNext(0.97, 7);
    assert HeatAll(Steady(0.97, 8)) >= 0.718;
  }

  lemma EightAt96()
    ensures HeatAll(Steady(0.96, 8)) <= 0.7
  {
    SteadyNext(0.96, 0);
    assert HeatAll(Steady(0.96, 1)) == 0.1;
    SteadyNext(0.96, 1);
    assert HeatAll(Steady(0.96, 2)) <= 0.196;
    SteadyNext(0.96, 2);
    assert HeatAll(Steady(0.96, 3)) <= 0.289;
    SteadyNext(0.96, 3);
    assert HeatAll(Steady(0.96, 4)) <= 0.378;
    SteadyNext(0.96, 4);
    assert HeatAll(Steady(0.96, 5)) <= 0.463;
    SteadyNext(0.96, 5);
    assert HeatAll(Steady(0.96, 6)) <= 0.545;
    SteadyNext(0.96, 6);
    assert HeatAll(Steady(0.96, 7)) <= 0.624;
    SteadyNext(0.96, 7);
    assert HeatAll(Steady(0.96, 8)) <= 0.7;
  }

  /** A factor of 0.97 is enough, one of 0.96 is not. */
  lemma CloseAt97(d: real)
    requires 0.0 <= d <= 1.0
    ensures (d >= 0.97 ==> Close(d)) && (d <= 0.96 ==> !Close(d))
  {
    EightAt97();
    EightAt96();
    if d >= 0.97 { HeatAllGrows(Steady(0.97, 8), Steady(d, 8)); }
    if d <= 0.96 { HeatAllGrows(Steady(d, 8), Steady(0.96, 8)); }
  }

  // ---------------------------------------------------------------- what a placement promises

  function MembersOf(nodes: map<NodeID, NodeInfo>, ids: set<NodeID>): set<string> {
    set id | id in ids && id in nodes :: nodes[id].memberDomain
  }

  /** `ids` are different eligible nodes, at most `count`. */
  predicate Placed(nodes: map<NodeID, NodeInfo>, minSpace: int, count: int, ids: seq<NodeID>) {
    Distinct(ids) && |ids| <= count && forall id <- ids :: id in Eligible(nodes, minSpace)
  }

  /** No eligible node left out ranks strictly before one that was chosen. */
  predicate TopPlaced(
      nodes: map<NodeID, NodeInfo>, minSpace: int, ids: seq<NodeID>, less: (NodeInfo, NodeInfo) -> bool)
  {
    forall a, b | a in ids && b in Eligible(nodes, minSpace) && b !in ids && a in nodes ::
      !less(nodes[b], nodes[a])
  }

  /** `snapshot` lists every eligible node once. */
  predicate Snapshot(nodes: map<NodeID, NodeInfo>, minSpace: int, snapshot: seq<NodeInfo>) {
    && Distinct(Ids(snapshot))
    && (forall n <- snapshot :: n.nodeID in Eligible(nodes, minSpace) && nodes[n.nodeID] == n)
    && (forall id <- Eligible(nodes, minSpace) :: nodes[id] in snapshot)
  }

  lemma SnapshotIds(nodes: map<NodeID, NodeInfo>, minSpace: int, snapshot: seq<NodeInfo>)
    requires Snapshot(nodes, minSpace, snapshot) && forall id <- nodes :: nodes[id].nodeID == id
    ensures (set id | id in Ids(snapshot)) == Eligible(nodes, minSpace)
    ensures |snapshot| == |Eligible(nodes, minSpace)|
  {
    DistinctCount(Ids(snapshot));
    forall id ensures id in Ids(snapshot) <==> id in Eligible(nodes, minSpace) {
      if id in Eligible(nodes, minSpace) {
        var k :| 0 <= k < |snapshot| && snapshot[k] == nodes[id];
        assert Ids(snapshot)[k] == id;
      }
      if id in Ids(snapshot) {
        var k :| 0 <= k < |snapshot| && Ids(snapshot)[k] == id;
        assert snapshot[k] in snapshot;
      }
    }
    assert (set id | id in Ids(snapshot)) == Eligible(nodes, minSpace);
  }

  lemma ChoiceIsPlaced(
      nodes: map<NodeID, NodeInfo>, minSpace: int, snapshot: seq<NodeInfo>, picks: seq<NodeInfo>, count: int)
    requires Snapshot(nodes, minSpace, snapshot) && Choice(snapshot, picks) && |picks| <= count
    ensures Placed(nodes, minSpace, count, Ids(picks))
  {
    forall id <- Ids(picks) ensures id in Eligible(nodes, minSpace) {
      var k :| 0 <= k < |picks| && Ids(picks)[k] == id;
      assert picks[k] in picks;
    }
  }

  lemma TopIsTopPlaced(
      nodes: map<NodeID, NodeInfo>, minSpace: int, snapshot: seq<NodeInfo>, picks: seq<NodeInfo>,
      less: (NodeInfo, NodeInfo) -> bool)
    requires Snapshot(nodes, minSpace, snapshot) && Choice(snapshot, picks) && TopRanked(snapshot, picks, less)
    requires forall id <- nodes :: nodes[id].nodeID == id
    ensures TopPlaced(nodes, minSpace, Ids(picks), less)
  {
    forall a, b | a in Ids(picks) && b in Eligible(nodes, minSpace) && b !in Ids(picks) && a in nodes
      ensures !less(nodes[b], nodes[a])
    {
      var k :| 0 <= k < |picks| && Ids(picks)[k] == a;
      assert picks[k] in snapshot && nodes[a] == picks[k];
      assert forall l | 0 <= l < |picks| :: Ids(picks)[l] in Ids(picks);
    }
  }

  lemma MembersOfPicks(
      nodes: map<NodeID, NodeInfo>, minSpace: int, snapshot: seq<NodeInfo>, picks: seq<NodeInfo>)
    requires Snapshot(nodes, minSpace, snapshot) && forall n <- picks :: n in snapshot
    ensures MembersOf(nodes, set id | id in Ids(picks)) == Domains(picks)
  {
    var members := MembersOf(nodes, set id | id in Ids(picks));
    forall d <- Domains(picks) ensures d in members {
      var n := DomainWitness(picks, d);
      var k :| 0 <= k < |picks| && picks[k] == n;
      assert Ids(picks)[k] in Ids(picks) && nodes[n.nodeID] == n;
    }
    forall d <- members ensures d in Domains(picks) {
      var id :| id in Ids(picks) && id in nodes && nodes[id].memberDomain == d;
      var k :| 0 <= k < |picks| && Ids(picks)[k] == id;
      assert picks[k] in snapshot && nodes[id] == picks[k];
    }
  }

  lemma MembersOfSnapshot(nodes: map<NodeID, NodeInfo>, minSpace: int, snapshot: seq<NodeInfo>)
    requires Snapshot(nodes, minSpace, snapshot) && forall id <- nodes :: nodes[id].nodeID == id
    ensures MembersOf(nodes, Eligible(nodes, minSpace)) == Domains(snapshot)
  {
    MembersOfPicks(nodes, minSpace, snapshot, snapshot);
    SnapshotIds(nodes, minSpace, snapshot);
  }

  /** The chosen nodes span as many members as `count` nodes can. */
  predicate Spread(nodes: map<NodeID, NodeInfo>, minSpace: int, count: int, ids: seq<NodeID>) {
    |MembersOf(nodes, set id | id in ids)| == Min(count, |MembersOf(nodes, Eligible(nodes, minSpace))|)
  }

  lemma {:induction false} MembersCount(nodes: map<NodeID, NodeInfo>, ids: seq<NodeID>)
    ensures |MembersOf(nodes, set id | id in ids)| <= |ids|
  {
    if ids != [] {
      var front, last := ids[..|ids| - 1], ids[|ids| - 1];
      MembersCount(nodes, front);
      assert ids == front + [last];
      var all, some := MembersOf(nodes, set id | id in ids), MembersOf(nodes, set id | id in front);
      var own := if last in nodes then {nodes[last].memberDomain} else {};
      assert all == some + own;
    }
  }

  /** No other set of at most `count` eligible nodes spans more members. */
  lemma SpreadIsMaximal(nodes: map<NodeID, NodeInfo>, minSpace: int, count: int, ids: seq<NodeID>, other: seq<NodeID>)
    requires Spread(nodes, minSpace, count, ids) && Placed(nodes, minSpace, count, other)
    ensures |MembersOf(nodes, set id | id in other)| <= |MembersOf(nodes, set id | id in ids)|
  {
    MembersCount(nodes, other);
    SubsetCount(MembersOf(nodes, set id | id in other), MembersOf(nodes, Eligible(nodes, minSpace)));
  }

  /** The nodes that come first, one of each of as many members as fit, are the best of theirs by health
      and space; those that follow have as much space as any eligible node left out. */
  predicate BackupPlaced(nodes: map<NodeID, NodeInfo>, minSpace: int, count: nat, ids: seq<NodeID>) {
    var firsts := Min(count, |MembersOf(nodes, Eligible(nodes, minSpace))|);
    && firsts <= |ids|
    && (forall i, j | 0 <= i < j < firsts ::
          ids[i] in nodes && ids[j] in nodes && nodes[ids[i]].memberDomain != nodes[ids[j]].memberDomain)
    && (forall i | 0 <= i < firsts :: BestPlaced(nodes, minSpace, ids[i]))
    && (forall i, b | firsts <= i < |ids| && b in Eligible(nodes, minSpace) && b !in ids ::
          ids[i] in nodes && nodes[b].available <= nodes[ids[i]].available)
  }

  predicate BestPlaced(nodes: map<NodeID, NodeInfo>, minSpace: int, id: NodeID) {
    && id in nodes
    && forall b <- Eligible(nodes, minSpace) | nodes[b].memberDomain == nodes[id].memberDomain ::
         !BackupLess(nodes[b], nodes[id])
  }

  lemma DiverseIsPlaced(
      nodes: map<NodeID, NodeInfo>, minSpace: int, snapshot: seq<NodeInfo>, picks: seq<NodeInfo>, count: nat)
    requires Snapshot(nodes, minSpace, snapshot) && Choice(snapshot, picks) && MostDiverse(snapshot, count, picks)
    requires forall id <- nodes :: nodes[id].nodeID == id
    ensures BackupPlaced(nodes, minSpace, count, Ids(picks))
  {
    var k, ids := Min(count, |Domains(snapshot)|), Ids(picks);
    MembersOfSnapshot(nodes, minSpace, snapshot);
    forall i | 0 <= i < |picks| ensures ids[i] in nodes && nodes[ids[i]] == picks[i] && picks[i] in snapshot {
      assert picks[i] in picks;
    }
    forall i, j | 0 <= i < j < k ensures nodes[ids[i]].memberDomain != nodes[ids[j]].memberDomain {
      assert picks[..k][i] == picks[i] && picks[..k][j] == picks[j];
    }
    forall i | 0 <= i < k ensures BestPlaced(nodes, minSpace, ids[i]) {
      assert BestOfMember(snapshot, picks[i]);
    }
    forall i, b | k <= i < |ids| && b in Eligible(nodes, minSpace) && b !in ids
      ensures nodes[b].available <= nodes[ids[i]].available
    {
      assert nodes[b] in snapshot;
      PickedById(picks, nodes[b]);
    }
  }

  lemma PickedById(picks: seq<NodeInfo>, n: NodeInfo)
    ensures n in picks ==> n.nodeID in Ids(picks)
  {
    if n in picks {
      var j :| 0 <= j < |picks| && picks[j] == n;
      assert Ids(picks)[j] == n.nodeID;
    }
  }

  /** What each strategy promises when enough nodes are eligible. */
  ghost predicate Promised(
      nodes: map<NodeID, NodeInfo>, policy: Policy, minSpace: int, count: nat, ids: seq<NodeID>)
  {
    && Placed(nodes, minSpace, count, ids)
    && (policy.strategy != PlacementHybrid || count <= 5 ==> |ids| == count)
    && (policy.strategy == PlacementMedia ==>
          TopPlaced(nodes, minSpace, ids, (a, b) => MediaLess(policy.localFirst, a, b)))
    && (policy.strategy == PlacementUnknown ==> TopPlaced(nodes, minSpace, ids, DefaultLess))
    && (policy.strategy == PlacementBackup ==>
          Spread(nodes, minSpace, count, ids) && BackupPlaced(nodes, minSpace, count, ids))
    && (policy.strategy == PlacementHybrid ==> HybridPlaced(nodes, minSpace, count, ids, policy.localFirst))
  }

  /** An eligible node left out is better than a chosen one only where it was passed over, as a third of its
      member before half were chosen; if an eligible node has no capacity, nothing is said. */
  predicate HybridPlaced(nodes: map<NodeID, NodeInfo>, minSpace: int, count: nat, ids: seq<NodeID>, localFirst: bool) {
    (forall id <- Eligible(nodes, minSpace) :: nodes[id].capacity != 0) ==>
      forall k, b | 0 <= k < |ids| && b in Eligible(nodes, minSpace) && b !in ids && ids[k] in nodes ::
        Better(localFirst, nodes[b], nodes[ids[k]]) ==> IdPassedOver(nodes, ids, k, count, nodes[b].memberDomain)
  }

  predicate IdPassedOver(nodes: map<NodeID, NodeInfo>, ids: seq<NodeID>, k: nat, count: nat, member: string) {
    exists i, j | 0 <= i < j < |ids| ::
      && j < k && j + 1 < count / 2 && ids[i] in nodes && ids[j] in nodes
      && nodes[ids[i]].memberDomain == member && nodes[ids[j]].memberDomain == member
  }

  lemma PreferredIsPlaced(
      nodes: map<NodeID, NodeInfo>, minSpace: int, snapshot: seq<NodeInfo>, ranked: seq<NodeInfo>, count: nat,
      localFirst: bool)
    requires Snapshot(nodes, minSpace, snapshot) && forall id <- nodes :: nodes[id].nodeID == id
    requires multiset(ranked) == multiset(snapshot) && Ranked(ranked, localFirst)
    ensures HybridPlaced(nodes, minSpace, count, Ids(HybridPicks(ranked, count)), localFirst)
  {
    var picks := HybridPicks(ranked, count);
    SameElements(ranked, snapshot);
    PicksAreOffered(ranked, count);
    if forall id <- Eligible(nodes, minSpace) :: nodes[id].capacity != 0 {
      forall n <- ranked ensures n.capacity != 0 { assert n in snapshot; }
      forall k, b | 0 <= k < |picks| && b in Eligible(nodes, minSpace) && b !in Ids(picks)
                    && Better(localFirst, nodes[b], nodes[Ids(picks)[k]])
        ensures IdPassedOver(nodes, Ids(picks), k, count, nodes[b].memberDomain)
      {
        LeftOutWasPassedOver(nodes, minSpace, snapshot, ranked, count, localFirst, k, b);
      }
    }
  }

  lemma LeftOutWasPassedOver(
      nodes: map<NodeID, NodeInfo>, minSpace: int, snapshot: seq<NodeInfo>, ranked: seq<NodeInfo>, count: nat,
      localFirst: bool, k: nat, b: NodeID)
    requires Snapshot(nodes, minSpace, snapshot) && forall id <- nodes :: nodes[id].nodeID == id
    requires (forall n :: n in ranked <==> n in snapshot) && Ranked(ranked, localFirst) && Measurable(ranked)
    requires forall n <- HybridPicks(ranked, count) :: n in ranked
    requires k < |HybridPicks(ranked, count)| && b in Eligible(nodes, minSpace) && b !in Ids(HybridPicks(ranked, count))
    requires HybridPicks(ranked, count)[k].nodeID in nodes
    requires Better(localFirst, nodes[b], nodes[HybridPicks(ranked, count)[k].nodeID])
    ensures IdPassedOver(nodes, Ids(HybridPicks(ranked, count)), k, count, nodes[b].memberDomain)
  {
    var picks, member := HybridPicks(ranked, count), nodes[b].memberDomain;
    assert picks[k] in snapshot;
    forall i | 0 <= i < |picks| ensures picks[i].nodeID in nodes && nodes[picks[i].nodeID] == picks[i] {
      assert picks[i] in picks && picks[i] in snapshot;
    }
    forall i | 0 <= i < |picks| ensures picks[i] != nodes[b] {
      assert Ids(picks)[i] == picks[i].nodeID && Ids(picks)[i] in Ids(picks);
    }
    BetterWasPassedOver(ranked, count, localFirst, k, nodes[b]);
    var i, j :| 0 <= i < j < |picks| && j < k && j + 1 < count / 2
                && picks[i].memberDomain == member && picks[j].memberDomain == member;
    assert Ids(picks)[i] == picks[i].nodeID && Ids(picks)[j] == picks[j].nodeID;
  }

  // What a promise means of a chosen node `a` and an eligible one `b` that was left out.

  predicate Left(nodes: map<NodeID, NodeInfo>, minSpace: int, ids: seq<NodeID>, a: NodeID, b: NodeID) {
    a in ids && a in nodes && b in Eligible(nodes, minSpace) && b !in ids
  }

  /** Locality counts first, if it counts, then latency, then bandwidth, then load. */
  lemma MediaChoice(nodes: map<NodeID, NodeInfo>, policy: Policy, minSpace: int, count: nat, ids: seq<NodeID>,
                    a: NodeID, b: NodeID)
    requires Promised(nodes, policy, minSpace, count, ids) && policy.strategy == PlacementMedia
    requires Left(nodes, minSpace, ids, a, b)
    ensures var (n, m) := (nodes[a], nodes[b]);
      && (policy.localFirst && m.isLocal ==> n.isLocal)
      && ((policy.localFirst && n.isLocal != m.isLocal)
          || n.latency < m.latency
          || (n.latency == m.latency
              && (n.bandwidth > m.bandwidth || (n.bandwidth == m.bandwidth && n.loadScore <= m.loadScore))))
  {
    assert !MediaLess(policy.localFirst, nodes[b], nodes[a]);
  }

  /** Load counts first, then free space. */
  lemma DefaultChoice(nodes: map<NodeID, NodeInfo>, policy: Policy, minSpace: int, count: nat, ids: seq<NodeID>,
                      a: NodeID, b: NodeID)
    requires Promised(nodes, policy, minSpace, count, ids) && policy.strategy == PlacementUnknown
    requires Left(nodes, minSpace, ids, a, b)
    ensures var (n, m) := (nodes[a], nodes[b]);
            n.loadScore < m.loadScore || (n.loadScore == m.loadScore && n.available >= m.available)
  {
    assert !DefaultLess(nodes[b], nodes[a]);
  }

  /** Among the nodes of its member, one of the first has the best health, and then the most free space. */
  lemma BackupChoice(nodes: map<NodeID, NodeInfo>, policy: Policy, minSpace: int, count: nat, ids: seq<NodeID>, i: nat,
                     b: NodeID)
    requires Promised(nodes, policy, minSpace, count, ids) && policy.strategy == PlacementBackup
    requires i < Min(count, |MembersOf(nodes, Eligible(nodes, minSpace))|) && i < |ids| && ids[i] in nodes
    requires b in Eligible(nodes, minSpace) && nodes[b].memberDomain == nodes[ids[i]].memberDomain
    ensures var (n, m) := (nodes[ids[i]], nodes[b]);
            Healthier(n.health, m.health) || (n.health == m.health && n.available >= m.available)
  {
    assert BestPlaced(nodes, minSpace, ids[i]);
  }

  /** Up to five nodes are chosen so that no other is better. */
  lemma HybridChoice(nodes: map<NodeID, NodeInfo>, policy: Policy, minSpace: int, count: nat, ids: seq<NodeID>,
                     a: NodeID, b: NodeID)
    requires Promised(nodes, policy, minSpace, count, ids) && policy.strategy == PlacementHybrid && count <= 5
    requires Left(nodes, minSpace, ids, a, b) && forall id <- Eligible(nodes, minSpace) :: nodes[id].capacity != 0
    ensures !Better(policy.localFirst, nodes[b], nodes[a])
  {
    var k :| 0 <= k < |ids| && ids[k] == a;
    assert !IdPassedOver(nodes, ids, k, count, nodes[b].memberDomain);
  }

  // ---------------------------------------------------------------- the engine

  datatype Popularity = Popularity(accessCount: int, hotScore: real)

  class PlacementEngine {
    var nodes: map<NodeID, NodeInfo>
    var policies: map<string, Policy>
    var chunkPopularity: map<string, Popularity>
    ghost var renewed: set<NodeID>
    const localDomain: string

    ghost predicate Valid()
      reads this
    {
      && (forall id <- nodes :: nodes[id].nodeID == id)
      && (forall c <- chunkPopularity :: 0.0 <= chunkPopularity[c].hotScore <= 1.0)
    }

    constructor (localDomain: string)
      ensures Valid() && nodes == map[] && policies == map[] && chunkPopularity == map[] && renewed == {}
      ensures this.localDomain == localDomain
      ensures forall path :: GetPolicy(path) == Policy(PlacementHybrid, false, 2, 3)
    {
      nodes, policies, chunkPopularity := map[], map[], map[];
      renewed := {};
      this.localDomain := localDomain;
    }

    method RegisterNode(node: NodeInfo)
      requires Valid()
      modifies this`nodes, this`renewed
      ensures Valid() && renewed == old(renewed) + {node.nodeID}
      ensures nodes == old(nodes)[node.nodeID := node.(isLocal := node.isLocal || node.memberDomain == localDomain)]
    {
      var stored := node;
      if node.memberDomain == localDomain {
        stored := stored.(isLocal := true);
      }
      nodes := nodes[node.nodeID := stored];
      renewed := renewed + {node.nodeID};
    }

    method UnregisterNode(id: NodeID)
      requires Valid()
      modifies this`nodes
      ensures Valid() && nodes == old(nodes) - {id}
    {
      nodes := nodes - {id};
    }

    method SetPolicy(path: string, policy: Policy)
      requires Valid()
      modifies this`policies
      ensures Valid() && policies == old(policies)[path := policy]
      ensures forall p :: GetPolicy(p) == if p == path then policy else old(GetPolicy(p))
    {
      policies := policies[path := policy];
    }

    function GetPolicy(path: string): Policy
      reads this
    {
      if path in policies then policies[path] else DEFAULT_POLICY
    }

    /** `decay` is the factor computed from the time since the last access. */
    method TrackAccess(chunkID: string, decay: real)
      requires Valid() && 0.0 <= decay <= 1.0
      modifies this`chunkPopularity
      ensures Valid()
      ensures var before := if chunkID in old(chunkPopularity) then old(chunkPopularity)[chunkID] else Popularity(0, 0.0);
              0.0 <= before.hotScore <= 1.0
              && chunkPopularity == old(chunkPopularity)
                   [chunkID := Popularity(before.accessCount + 1, Heat(before.hotScore, decay))]
    {
      var pop := if chunkID in chunkPopularity then chunkPopularity[chunkID] else Popularity(0, 0.0);
      var score := pop.hotScore * decay + 0.1;
      var hot := if score < 1.0 then score else 1.0;
      assert hot == Heat(pop.hotScore, decay);
      chunkPopularity := chunkPopularity[chunkID := Popularity(pop.accessCount + 1, hot)];
    }

    method GetReplicationFactor(chunkID: string, path: string) returns (replicas: int)
      ensures replicas == ReplicaCount(GetPolicy(path),
                if chunkID in chunkPopularity then Some(chunkPopularity[chunkID].hotScore) else None)
    {
      var policy := GetPolicy(path);
      replicas := policy.minReplicas;
      if chunkID in chunkPopularity {
        var pop := chunkPopularity[chunkID];
        if pop.hotScore > 0.7 {
          replicas := policy.maxReplicas;
        } else if pop.hotScore > 0.4 {
          replicas := HalfTowardZero(policy.minReplicas + policy.maxReplicas);
        }
      }
    }

    /** The eligible nodes, in any order. */
    method GetHealthyNodes(minSpace: int) returns (healthy: seq<NodeInfo>)
      requires Valid()
      ensures Snapshot(nodes, minSpace, healthy) && |healthy| == |Eligible(nodes, minSpace)|
    {
      healthy := [];
      var rest := nodes.Keys;
      while rest != {}
        invariant rest <= nodes.Keys && Distinct(Ids(healthy))
        invariant forall n <- healthy ::
          n.nodeID in Eligible(nodes, minSpace) && nodes[n.nodeID] == n && n.nodeID !in rest
        invariant forall id <- Eligible(nodes, minSpace) :: id in rest || nodes[id] in healthy
      {
        var id :| id in rest;
        rest := rest - {id};
        var node := nodes[id];
        if node.health != Unhealthy && node.available >= minSpace {
          IdsAppend(healthy, node);
          assert forall i | 0 <= i < |healthy| :: healthy[i] in healthy;
          healthy := healthy + [node];
        }
      }
      SnapshotIds(nodes, minSpace, healthy);
    }

    /** `count` is the replication factor; a negative one makes the original panic. */
    method SelectNodes(path: string, minSpace: int, count: int)
      returns (r: Result<seq<NodeID>, PlacementError>, ghost snapshot: seq<NodeInfo>, ghost ranked: seq<NodeInfo>)
      requires Valid() && count >= 0
      ensures r.Failure? <==> |Eligible(nodes, minSpace)| < count
      ensures r.Success? ==> Promised(nodes, GetPolicy(path), minSpace, count, r.value)
      ensures r.Success? && GetPolicy(path).strategy == PlacementHybrid ==>
                && Snapshot(nodes, minSpace, snapshot) && multiset(ranked) == multiset(snapshot)
                && Ranked(ranked, GetPolicy(path).localFirst) && r.value == Ids(HybridPicks(ranked, count))
    {
      var policy := GetPolicy(path);
      var available := GetHealthyNodes(minSpace);
      snapshot, ranked := available, available;
      if |available| < count {
        return Failure(InsufficientNodes(count, |available|)), snapshot, ranked;
      }
      var selected: seq<NodeID>;
      ghost var picks: seq<NodeInfo>;
      match policy.strategy {
        case PlacementMedia =>
          selected, picks := SelectMediaNodes(available, count, policy);
          TopIsTopPlaced(nodes, minSpace, available, picks, (a, b) => MediaLess(policy.localFirst, a, b));
        case PlacementBackup =>
          selected, picks := SelectBackupNodes(available, count);
          BackupIsPlaced(nodes, minSpace, available, picks, count);
        case PlacementHybrid =>
          selected, ranked := SelectHybridNodes(available, count, policy);
          picks := HybridPicks(ranked, count);
          HybridIsPlaced(available, ranked, count);
          PreferredIsPlaced(nodes, minSpace, available, ranked, count, policy.localFirst);
        case PlacementUnknown =>
          selected, picks := SelectDefaultNodes(available, count);
          TopIsTopPlaced(nodes, minSpace, available, picks, DefaultLess);
      }
      ChoiceIsPlaced(nodes, minSpace, available, picks, count);
      return Success(selected), snapshot, ranked;
    }
  }

  lemma BackupIsPlaced(
      nodes: map<NodeID, NodeInfo>, minSpace: int, snapshot: seq<NodeInfo>, picks: seq<NodeInfo>, count: nat)
    requires Snapshot(nodes, minSpace, snapshot) && Choice(snapshot, picks) && MostDiverse(snapshot, count, picks)
    requires forall id <- nodes :: nodes[id].nodeID == id
    ensures Spread(nodes, minSpace, count, Ids(picks)) && BackupPlaced(nodes, minSpace, count, Ids(picks))
  {
    MembersOfPicks(nodes, minSpace, snapshot, picks);
    MembersOfSnapshot(nodes, minSpace, snapshot);
    DiverseIsPlaced(nodes, minSpace, snapshot, picks, count);
  }

  lemma HybridIsPlaced(snapshot: seq<NodeInfo>, ranked: seq<NodeInfo>, count: nat)
    requires Distinct(Ids(snapshot)) && multiset(ranked) == multiset(snapshot) && count <= |snapshot|
    ensures Choice(snapshot, HybridPicks(ranked, count))
    ensures count <= 5 ==> |HybridPicks(ranked, count)| == count
  {
    PermutedDistinct(snapshot, ranked);
    SameElements(ranked, snapshot);
    HybridIsChoice(ranked, count);
    if count <= 5 { HybridSmall(ranked, count); }
  }

  // ---------------------------------------------------------------- failures

  class FailureHandler {
    const engine: PlacementEngine
    var failedNodes: map<NodeID, int>
    var chunksToReplace: map<string, seq<NodeID>>

    constructor (engine: PlacementEngine)
      requires engine.Valid()
      ensures this.engine == engine && failedNodes == map[] && chunksToReplace == map[]
    {
      this.engine := engine;
      failedNodes, chunksToReplace := map[], map[];
    }

    ghost function Abs(): Cluster
      reads this, engine
    {
      Cluster(engine.nodes, failedNodes.Keys, chunksToReplace, engine.renewed)
    }

    method RecordFailure(id: NodeID, now: int)
      requires engine.Valid()
      modifies this`failedNodes, engine`nodes, engine`renewed
      ensures engine.Valid()
      ensures Abs() == Step(old(Abs()), Fail(id, [])) && failedNodes == old(failedNodes)[id := now]
    {
      failedNodes := failedNodes[id := now];
      engine.renewed := engine.renewed - {id};
      if id in engine.nodes {
        engine.nodes := engine.nodes[id := engine.nodes[id].(health := Unhealthy)];
      }
    }

    method ScheduleReplacement(chunkID: string, failedNode: NodeID)
      modifies this`chunksToReplace
      ensures chunksToReplace == Schedule(old(chunksToReplace), chunkID, failedNode)
    {
      if chunkID in chunksToReplace {
        var found := Contains(chunksToReplace[chunkID], failedNode);
        if !found {
          chunksToReplace := chunksToReplace[chunkID := chunksToReplace[chunkID] + [failedNode]];
        }
      } else {
        chunksToReplace := chunksToReplace[chunkID := [failedNode]];
      }
    }

    method ClearFailure(id: NodeID)
      requires engine.Valid()
      modifies this, engine`nodes
      ensures engine.Valid() && Abs() == Step(old(Abs()), Recover(id))
    {
      failedNodes := failedNodes - {id};
      if id in engine.nodes {
        engine.nodes := engine.nodes[id := engine.nodes[id].(health := Healthy)];
      }
      ClearPending(id);
    }

    method ClearPending(id: NodeID)
      modifies this`chunksToReplace
      ensures chunksToReplace == Clear(old(chunksToReplace), id)
    {
      ghost var before := chunksToReplace;
      var rest := chunksToReplace.Keys;
      while rest != {}
        invariant rest <= before.Keys
        invariant Clearing(before, chunksToReplace, id, rest)
      {
        var chunkID :| chunkID in rest;
        ClearOne(before, chunksToReplace, id, rest, chunkID);
        rest := rest - {chunkID};
        var newNodes := FilterOut(chunksToReplace[chunkID], id);
        if |newNodes| == 0 {
          chunksToReplace := chunksToReplace - {chunkID};
        } else {
          chunksToReplace := chunksToReplace[chunkID := newNodes];
        }
      }
      assert forall c <- before :: ClearedAt(before, chunksToReplace, c, id, false);
    }
  }

  /** The lists while they are being cleared, with those in `rest` still to come. */
  predicate Clearing(before: map<string, seq<NodeID>>, after: map<string, seq<NodeID>>, id: NodeID, rest: set<string>) {
    after.Keys <= before.Keys && forall c <- before :: ClearedAt(before, after, c, id, c in rest)
  }

  lemma ClearOne(before: map<string, seq<NodeID>>, after: map<string, seq<NodeID>>, id: NodeID, rest: set<string>,
                 chunk: string)
    requires Clearing(before, after, id, rest) && chunk in rest && rest <= before.Keys
    ensures chunk in after && after[chunk] == before[chunk]
    ensures var left := Remove(before[chunk], id);
            Clearing(before, if left == [] then after - {chunk} else after[chunk := left], id, rest - {chunk})
  {
    assert ClearedAt(before, after, chunk, id, true);
    var left := Remove(before[chunk], id);
    var next := if left == [] then after - {chunk} else after[chunk := left];
    forall c <- before ensures ClearedAt(before, next, c, id, c in rest - {chunk}) {
      assert ClearedAt(before, after, c, id, c in rest);
    }
  }

  /** One list while the lists are being cleared: untouched so far, or cleared and dropped if empty. */
  predicate ClearedAt(
      before: map<string, seq<NodeID>>, after: map<string, seq<NodeID>>, c: string, id: NodeID, waiting: bool)
    requires c in before
  {
    if waiting then c in after && after[c] == before[c]
    else
      && (c in after <==> Remove(before[c], id) != [])
      && (c in after ==> after[c] == Remove(before[c], id))
  }

  method FilterOut(ids: seq<NodeID>, id: NodeID) returns (r: seq<NodeID>)
    ensures r == Remove(ids, id)
  {
    r := [];
    var i := 0;
    while i < |ids|
      invariant 0 <= i <= |ids| && r == Remove(ids[..i], id)
    {
      assert ids[..i + 1][..i] == ids[..i];
      if ids[i] != id { r := r + [ids[i]]; }
      i := i + 1;
    }
    assert ids[..i] == ids;
  }

  // ---------------------------------------------------------------- the controller

  const CRITICAL_SIZE := 1024 * 1024

  class PlacementController {
    const engine: PlacementEngine
    const failureHandler: FailureHandler

    ghost predicate Valid()
      reads this, engine, failureHandler
    {
      failureHandler.engine == engine && engine.Valid() && ClusterInv(failureHandler.Abs())
    }

    constructor (localDomain: string)
      ensures Valid() && fresh(engine) && fresh(failureHandler)
      ensures failureHandler.Abs() == INIT && engine.localDomain == localDomain
    {
      var e := new PlacementEngine(localDomain);
      engine := e;
      var h := new FailureHandler(e);
      failureHandler := h;
    }

    /** Registering through the engine keeps the invariant and clears a failed node for placement. */
    method RegisterNode(node: NodeInfo)
      requires Valid()
      modifies engine
      ensures Valid()
      ensures failureHandler.Abs() == Step(old(failureHandler.Abs()),
                Register(node.(isLocal := node.isLocal || node.memberDomain == engine.localDomain)))
    {
      var isLocal := node.isLocal || node.memberDomain == engine.localDomain;
      StepKeeps(failureHandler.Abs(), Register(node.(isLocal := isLocal)));
      engine.RegisterNode(node);
    }

    method UnregisterNode(id: NodeID)
      requires Valid()
      modifies engine
      ensures Valid() && failureHandler.Abs() == Step(old(failureHandler.Abs()), Unregister(id))
    {
      StepKeeps(failureHandler.Abs(), Unregister(id));
      engine.UnregisterNode(id);
    }

    method PlaceChunk(chunkID: string, chunkSize: int, path: string)
      returns (r: Result<seq<NodeID>, PlacementError>, ghost replicas: int)
      requires Valid()
      requires engine.GetPolicy(path).minReplicas >= 0 && engine.GetPolicy(path).maxReplicas >= 0
      ensures replicas == ReplicaCount(engine.GetPolicy(path),
                if chunkID in engine.chunkPopularity then Some(engine.chunkPopularity[chunkID].hotScore) else None)
      ensures r.Failure? <==> |Eligible(engine.nodes, chunkSize)| < replicas
      ensures r.Success? ==> Promised(engine.nodes, engine.GetPolicy(path), chunkSize, replicas, r.value)
      ensures r.Success? ==> forall id <- r.value :: id in failureHandler.failedNodes ==> id in engine.renewed
    {
      var count := engine.GetReplicationFactor(chunkID, path);
      replicas := count;
      ghost var snapshot, ranked;
      r, snapshot, ranked := engine.SelectNodes(path, chunkSize, count);
    }

    /** The first tenth of the chunks, but at least one if there are any. */
    method IdentifyCriticalChunks(chunks: seq<string>) returns (critical: seq<string>)
      ensures critical <= chunks
      ensures |critical| == if 0 < |chunks| < 10 then 1 else |chunks| / 10
    {
      var count := |chunks| / 10;
      if count < 1 && |chunks| > 0 {
        count := 1;
      }
      critical := [];
      var i := 0;
      while i < count && i < |chunks|
        invariant 0 <= i <= count <= |chunks| && critical == chunks[..i]
      {
        critical := critical + [chunks[i]];
        i := i + 1;
      }
    }

    /** The failure is recorded and every chunk scheduled even when a critical chunk finds no new node. */
    method HandleNodeFailure(id: NodeID, chunks: seq<string>, now: int) returns (r: Result<(), PlacementError>)
      requires Valid()
      modifies engine`nodes, engine`renewed, failureHandler
      ensures Valid() && failureHandler.Abs() == Step(old(failureHandler.Abs()), Fail(id, chunks))
      ensures r.Failure? <==> |chunks| > 0 && Eligible(engine.nodes, CRITICAL_SIZE) == {}
    {
      StepKeeps(failureHandler.Abs(), Fail(id, chunks));
      failureHandler.RecordFailure(id, now);
      ScheduleReplacements(id, chunks);
      var critical := IdentifyCriticalChunks(chunks);
      r := ReplaceCritical(critical);
    }

    method ScheduleReplacements(id: NodeID, chunks: seq<string>)
      requires Valid()
      modifies failureHandler`chunksToReplace
      ensures failureHandler.Abs() ==
                old(failureHandler.Abs()).(pending := ScheduleAll(old(failureHandler.Abs()).pending, chunks, id))
    {
      ghost var recorded := failureHandler.Abs();
      var i := 0;
      while i < |chunks|
        modifies failureHandler`chunksToReplace
        invariant 0 <= i <= |chunks|
        invariant failureHandler.Abs() == recorded.(pending := ScheduleAll(recorded.pending, chunks[..i], id))
      {
        assert chunks[..i + 1][..i] == chunks[..i];
        failureHandler.ScheduleReplacement(chunks[i], id);
        i := i + 1;
      }
      assert chunks[..i] == chunks;
    }

    /** Looks for a new node for each critical chunk, and gives up at the first without. */
    method ReplaceCritical(critical: seq<string>) returns (r: Result<(), PlacementError>)
      requires Valid()
      ensures r.Failure? <==> |critical| > 0 && Eligible(engine.nodes, CRITICAL_SIZE) == {}
    {
      var i := 0;
      while i < |critical|
        invariant 0 <= i <= |critical| && (i > 0 ==> Eligible(engine.nodes, CRITICAL_SIZE) != {})
      {
        var choice, _, _ := engine.SelectNodes("/", CRITICAL_SIZE, 1);
        if choice.Failure? {
          assert |Eligible(engine.nodes, CRITICAL_SIZE)| == 0;
          return Failure(choice.error);
        }
        i := i + 1;
      }
      return Success(());
    }

    method HandleNodeRecovery(id: NodeID)
      requires Valid()
      modifies engine`nodes, failureHandler
      ensures Valid() && failureHandler.Abs() == Step(old(failureHandler.Abs()), Recover(id))
    {
      StepKeeps(failureHandler.Abs(), Recover(id));
      failureHandler.ClearFailure(id);
    }
  }

  /** Performs one operation of a run; a registered node is local whenever its domain is. */
  method Perform(c: PlacementController, op: Op, now: int)
    requires c.Valid() && (op.Register? && op.node.memberDomain == c.engine.localDomain ==> op.node.isLocal)
    modifies c.engine, c.failureHandler
    ensures c.Valid() && c.failureHandler.Abs() == Step(old(c.failureHandler.Abs()), op)
  {
    match op
    case Register(node) => c.RegisterNode(node);
    case Unregister(id) => c.UnregisterNode(id);
    case Fail(id, chunks) => var _ := c.HandleNodeFailure(id, chunks, now);
    case Recover(id) => c.HandleNodeRecovery(id);
  }

  /** A new controller performing a run, each operation at its own time, ends with the cluster the run ends in. */
  method PerformAll(localDomain: string, ops: seq<Op>, times: seq<int>) returns (c: PlacementController)
    requires |times| == |ops|
    requires forall op <- ops | op.Register? && op.node.memberDomain == localDomain :: op.node.isLocal
    ensures fresh(c) && fresh(c.engine) && fresh(c.failureHandler) && c.engine.localDomain == localDomain
    ensures c.Valid() && c.failureHandler.Abs() == Run(INIT, ops)
  {
    if ops == [] {
      c := new PlacementController(localDomain);
    } else {
      c := PerformAll(localDomain, ops[..|ops| - 1], times[..|ops| - 1]);
      Perform(c, ops[|ops| - 1], times[|ops| - 1]);
    }
  }
}
