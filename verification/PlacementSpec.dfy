/** Nodes, policies, ranking orders, and what a choice of nodes must satisfy. */
module PlacementSpec {
  import opened Sequences
  import opened Sorting
  import opened Types

  datatype Health = Healthy | Degraded | Unhealthy

  datatype NodeInfo = NodeInfo(
    nodeID: NodeID,
    memberDomain: string,
    capacity: int,
    available: int,
    bandwidth: int,
    latency: int,
    isLocal: bool,
    health: Health,
    loadScore: real)

  datatype Strategy = PlacementUnknown | PlacementMedia | PlacementBackup | PlacementHybrid

  datatype Policy = Policy(strategy: Strategy, localFirst: bool, minReplicas: int, maxReplicas: int)

  const DEFAULT_POLICY := Policy(PlacementHybrid, false, 2, 3)

  // ---------------------------------------------------------------- ranking orders

  predicate MediaLess(localFirst: bool, a: NodeInfo, b: NodeInfo) {
    if localFirst && a.isLocal != b.isLocal then a.isLocal
    else if a.latency != b.latency then a.latency < b.latency
    else if a.bandwidth != b.bandwidth then a.bandwidth > b.bandwidth
    else a.loadScore < b.loadScore
  }

  function HealthRank(h: Health): int {
    match h case Healthy => 0 case Degraded => 1 case Unhealthy => 2
  }

  predicate BackupLess(a: NodeInfo, b: NodeInfo) {
    if a.health != b.health then HealthRank(a.health) < HealthRank(b.health)
    else a.available > b.available
  }

  predicate UnusedFirstLess(used: set<string>, a: NodeInfo, b: NodeInfo) {
    if (a.memberDomain in used) != (b.memberDomain in used) then a.memberDomain !in used
    else a.available > b.available
  }

  predicate DefaultLess(a: NodeInfo, b: NodeInfo) {
    if a.loadScore != b.loadScore then a.loadScore < b.loadScore
    else a.available > b.available
  }

  const SECOND := 1_000_000_000

  /** Combined score; durations are nanoseconds, bandwidth bytes per second. */
  function HybridScore(localFirst: bool, n: NodeInfo): real
    requires n.capacity != 0
  {
    var capacityScore := n.available as real / n.capacity as real;
    var rawLatency := 1.0 - n.latency as real / SECOND as real;
    var latencyScore := if rawLatency < 0.0 then 0.0 else rawLatency;
    var bandwidthScore := n.bandwidth as real / 1073741824.0;
    var healthScore := match n.health case Healthy => 1.0 case Degraded => 0.5 case Unhealthy => 0.0;
    capacityScore * 0.3
    + (latencyScore + bandwidthScore) / 2.0 * 0.3
    + (healthScore + (1.0 - n.loadScore)) / 2.0 * 0.2
    + (if localFirst && n.isLocal then 0.2 else 0.0)
  }

  lemma MediaOrder(localFirst: bool)
    ensures StrictWeakOrder((a, b) => MediaLess(localFirst, a, b))
  {
  }

  lemma BackupOrder()
    ensures StrictWeakOrder(BackupLess)
  {
  }

  lemma UnusedFirstOrder(used: set<string>)
    ensures StrictWeakOrder((a, b) => UnusedFirstLess(used, a, b))
  {
  }

  lemma DefaultOrder()
    ensures StrictWeakOrder(DefaultLess)
  {
  }

  // ---------------------------------------------------------------- choices

  function Ids(nodes: seq<NodeInfo>): (r: seq<NodeID>)
    ensures |r| == |nodes| && forall i | 0 <= i < |nodes| :: r[i] == nodes[i].nodeID
  {
    seq(|nodes|, i requires 0 <= i < |nodes| => nodes[i].nodeID)
  }

  lemma IdsAppend(nodes: seq<NodeInfo>, n: NodeInfo)
    ensures Ids(nodes + [n]) == Ids(nodes) + [n.nodeID]
  {
  }

  /** `picks` are different nodes out of `nodes`. */
  predicate Choice(nodes: seq<NodeInfo>, picks: seq<NodeInfo>) {
    Distinct(Ids(picks)) && forall n <- picks :: n in nodes
  }

  /** The member domains of `nodes`. */
  function Domains(nodes: seq<NodeInfo>): (r: set<string>)
    ensures forall n <- nodes :: n.memberDomain in r
  {
    if nodes == [] then {}
    else
      var last := nodes[|nodes| - 1];
      assert nodes == nodes[..|nodes| - 1] + [last];
      Domains(nodes[..|nodes| - 1]) + {last.memberDomain}
  }

  lemma DomainsNext(nodes: seq<NodeInfo>, n: NodeInfo)
    ensures Domains(nodes + [n]) == Domains(nodes) + {n.memberDomain}
  {
    assert (nodes + [n])[..|nodes|] == nodes;
  }

  lemma {:induction false} DomainWitness(nodes: seq<NodeInfo>, d: string) returns (n: NodeInfo)
    requires d in Domains(nodes)
    ensures n in nodes && n.memberDomain == d
  {
    n := nodes[|nodes| - 1];
    if n.memberDomain != d { n := DomainWitness(nodes[..|nodes| - 1], d); }
  }

  /** No node left out of `picks` ranks strictly before one that is in. */
  predicate TopRanked(nodes: seq<NodeInfo>, picks: seq<NodeInfo>, less: (NodeInfo, NodeInfo) -> bool) {
    forall a, b | a in picks && b in nodes && b !in picks :: !less(b, a)
  }

  function Min(a: int, b: int): int {
    if a < b then a else b
  }

  // ---------------------------------------------------------------- counting

  lemma {:induction false} DistinctCount<T>(s: seq<T>)
    requires Distinct(s)
    ensures |set x | x in s| == |s|
  {
    if s != [] {
      DistinctCount(s[1..]);
      assert (set x | x in s) == {s[0]} + (set x | x in s[1..]);
      assert s[0] !in s[1..];
    }
  }

  lemma SubsetCount<T>(a: set<T>, b: set<T>)
    requires a <= b
    ensures |a| <= |b| && (|a| == |b| ==> a == b)
  {
    assert b == a + (b - a) && a !! (b - a);
    assert |b| == |a| + |b - a|;
  }

  lemma ChoiceIsDistinct(nodes: seq<NodeInfo>, picks: seq<NodeInfo>)
    requires Choice(nodes, picks)
    ensures Distinct(picks)
  {
    forall i, j | 0 <= i < j < |picks| ensures picks[i] != picks[j] { assert Ids(picks)[i] != Ids(picks)[j]; }
  }

  /** A choice is never larger than what it is taken from, and covers everything only if equally large. */
  lemma ChoiceSize(nodes: seq<NodeInfo>, picks: seq<NodeInfo>)
    requires Choice(nodes, picks) && Distinct(nodes)
    ensures |picks| <= |nodes|
    ensures |picks| == |nodes| <==> forall n <- nodes :: n in picks
  {
    ChoiceIsDistinct(nodes, picks);
    DistinctCount(picks);
    DistinctCount(nodes);
    var a, b := set n | n in picks, set n | n in nodes;
    SubsetCount(a, b);
    if |picks| == |nodes| {
      forall n <- nodes ensures n in picks { assert n in b; }
    }
    if forall n <- nodes :: n in picks { assert a == b; }
  }

  lemma {:induction false} DomainsWithin(nodes: seq<NodeInfo>, picks: seq<NodeInfo>)
    requires forall n <- picks :: n in nodes
    ensures Domains(picks) <= Domains(nodes)
  {
    forall d <- Domains(picks) ensures d in Domains(nodes) {
      var n := DomainWitness(picks, d);
    }
  }

  lemma {:induction false} DomainsCount(picks: seq<NodeInfo>)
    ensures |Domains(picks)| <= |picks|
  {
    if picks != [] {
      DomainsCount(picks[..|picks| - 1]);
    }
  }

  /** A choice of `k` nodes covers at most `k` member domains, and at most those there are. */
  lemma ChoiceDomains(nodes: seq<NodeInfo>, picks: seq<NodeInfo>)
    requires Choice(nodes, picks)
    ensures |Domains(picks)| <= Min(|picks|, |Domains(nodes)|)
  {
    DomainsWithin(nodes, picks);
    SubsetCount(Domains(picks), Domains(nodes));
    DomainsCount(picks);
  }
}
