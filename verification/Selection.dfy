/** The four node-selection strategies. Slices are sorted as wholes; map iteration order is free. */
module Selection {
  import opened Sorting
  import opened PlacementSpec
  import opened Sequences
  import opened Types

  /** The first `count` of `sorted`, or all of them. */
  method TakeTop(nodes: seq<NodeInfo>, sorted: seq<NodeInfo>, count: nat, less: (NodeInfo, NodeInfo) -> bool)
    returns (selected: seq<NodeID>, ghost picks: seq<NodeInfo>)
    requires Distinct(Ids(nodes)) && StrictWeakOrder(less)
    requires multiset(sorted) == multiset(nodes) && Sorted(sorted, less)
    ensures selected == Ids(picks) && Choice(nodes, picks)
    ensures |selected| == Min(count, |nodes|) && TopRanked(nodes, picks, less)
  {
    SameElements(sorted, nodes);
    selected := [];
    picks := [];
    var i := 0;
    while i < count && i < |sorted|
      invariant 0 <= i <= count && i <= |sorted|
      invariant picks == sorted[..i] && selected == Ids(picks)
    {
      IdsAppend(picks, sorted[i]);
      selected := selected + [sorted[i].nodeID];
      picks := picks + [sorted[i]];
      i := i + 1;
    }
    PermutedDistinct(nodes, sorted);
    forall a, b | a in picks && b in nodes && b !in picks ensures !less(b, a) {
      var j :| 0 <= j < |picks| && picks[j] == a;
      var k :| 0 <= k < |sorted| && sorted[k] == b;
      assert k >= i;
    }
  }

  /** Reordering keeps node IDs different. */
  lemma PermutedDistinct(nodes: seq<NodeInfo>, sorted: seq<NodeInfo>)
    requires Distinct(Ids(nodes)) && multiset(sorted) == multiset(nodes)
    ensures Distinct(Ids(sorted)) && Distinct(sorted)
  {
    SameElements(sorted, nodes);
    forall i, j | 0 <= i < j < |sorted| ensures sorted[i].nodeID != sorted[j].nodeID {
      var a, b := sorted[i], sorted[j];
      assert a in nodes && b in nodes;
      if a == b {
        TwiceInSorted(sorted, i, j);
        OnceInDistinct(nodes, a);
      } else {
        var k :| 0 <= k < |nodes| && nodes[k] == a;
        var l :| 0 <= l < |nodes| && nodes[l] == b;
        assert Ids(nodes)[k] != Ids(nodes)[l];
      }
    }
  }

  lemma TwiceInSorted(s: seq<NodeInfo>, i: nat, j: nat)
    requires i < j < |s| && s[i] == s[j]
    ensures multiset(s)[s[i]] >= 2
  {
    assert s == s[..i] + [s[i]] + s[i + 1..j] + [s[j]] + s[j + 1..];
  }

  lemma {:induction false} OnceInDistinct(s: seq<NodeInfo>, x: NodeInfo)
    requires Distinct(Ids(s))
    ensures multiset(s)[x] <= 1
  {
    if s != [] {
      DistinctTail(s);
      OnceInDistinct(s[1..], x);
      assert s == [s[0]] + s[1..];
    }
  }

  lemma DistinctTail(s: seq<NodeInfo>)
    requires s != [] && Distinct(Ids(s))
    ensures Distinct(Ids(s[1..])) && s[0] !in s[1..]
  {
    assert Ids(s[1..]) == Ids(s)[1..];
    forall i | 0 <= i < |s| - 1 ensures s[1..][i] != s[0] { assert Ids(s)[0] != Ids(s)[i + 1]; }
  }

  method SelectMediaNodes(nodes: seq<NodeInfo>, count: nat, policy: Policy)
    returns (selected: seq<NodeID>, ghost picks: seq<NodeInfo>)
    requires Distinct(Ids(nodes))
    ensures selected == Ids(picks) && Choice(nodes, picks) && |selected| == Min(count, |nodes|)
    ensures TopRanked(nodes, picks, (a, b) => MediaLess(policy.localFirst, a, b))
  {
    var less := (a, b) => MediaLess(policy.localFirst, a, b);
    MediaOrder(policy.localFirst);
    var sorted := SortSlice(nodes, less);
    selected, picks := TakeTop(nodes, sorted, count, less);
  }

  method SelectDefaultNodes(nodes: seq<NodeInfo>, count: nat)
    returns (selected: seq<NodeID>, ghost picks: seq<NodeInfo>)
    requires Distinct(Ids(nodes))
    ensures selected == Ids(picks) && Choice(nodes, picks) && |selected| == Min(count, |nodes|)
    ensures TopRanked(nodes, picks, DefaultLess)
  {
    DefaultOrder();
    var sorted := SortSlice(nodes, DefaultLess);
    selected, picks := TakeTop(nodes, sorted, count, DefaultLess);
  }

  // ---------------------------------------------------------------- backup

  /** `group` holds the nodes of member `d` among `nodes`. */
  predicate GroupOf(nodes: seq<NodeInfo>, d: string, group: seq<NodeInfo>) {
    && (forall n <- group :: n in nodes && n.memberDomain == d)
    && (forall n <- nodes | n.memberDomain == d :: n in group)
  }

  lemma GroupsNext(nodes: seq<NodeInfo>, node: NodeInfo, groups: map<string, seq<NodeInfo>>)
    requires groups.Keys == Domains(nodes) && forall d <- groups :: GroupOf(nodes, d, groups[d])
    ensures var own := if node.memberDomain in groups then groups[node.memberDomain] else [];
            && GroupOf(nodes + [node], node.memberDomain, own + [node])
            && forall d <- groups | d != node.memberDomain :: GroupOf(nodes + [node], d, groups[d])
  {
    assert forall n <- nodes :: n.memberDomain in Domains(nodes);
  }

  method GroupByMember(nodes: seq<NodeInfo>) returns (memberNodes: map<string, seq<NodeInfo>>)
    ensures memberNodes.Keys == Domains(nodes)
    ensures forall d <- memberNodes :: GroupOf(nodes, d, memberNodes[d])
  {
    memberNodes := map[];
    var i := 0;
    while i < |nodes|
      invariant 0 <= i <= |nodes|
      invariant memberNodes.Keys == Domains(nodes[..i])
      invariant forall d <- memberNodes :: GroupOf(nodes[..i], d, memberNodes[d])
    {
      var node := nodes[i];
      var d := node.memberDomain;
      assert nodes[..i + 1] == nodes[..i] + [node];
      DomainsNext(nodes[..i], node);
      GroupsNext(nodes[..i], node, memberNodes);
      memberNodes := memberNodes[d := (if d in memberNodes then memberNodes[d] else []) + [node]];
      i := i + 1;
    }
    assert nodes[..i] == nodes;
  }

  /** `n` is the best of its member's nodes, by health and then space. */
  predicate BestOfMember(nodes: seq<NodeInfo>, n: NodeInfo) {
    n in nodes && forall m <- nodes | m.memberDomain == n.memberDomain :: !BackupLess(m, n)
  }

  predicate DistinctMembers(picks: seq<NodeInfo>) {
    forall i, j | 0 <= i < j < |picks| :: picks[i].memberDomain != picks[j].memberDomain
  }

  /** The state of the first pass: one best node for each member used so far. */
  predicate FirstPass(nodes: seq<NodeInfo>, selected: seq<NodeID>, membersUsed: set<string>, picks: seq<NodeInfo>) {
    && selected == Ids(picks) && membersUsed == Domains(picks) && |membersUsed| == |picks|
    && DistinctMembers(picks) && forall i | 0 <= i < |picks| :: BestOfMember(nodes, picks[i])
  }

  lemma FirstPassNext(
      nodes: seq<NodeInfo>, selected: seq<NodeID>, membersUsed: set<string>, picks: seq<NodeInfo>, n: NodeInfo)
    requires FirstPass(nodes, selected, membersUsed, picks)
    requires n.memberDomain !in membersUsed && BestOfMember(nodes, n)
    ensures FirstPass(nodes, selected + [n.nodeID], membersUsed + {n.memberDomain}, picks + [n])
  {
    IdsAppend(picks, n);
    DomainsNext(picks, n);
    forall i | 0 <= i < |picks| ensures picks[i].memberDomain != n.memberDomain {
      assert picks[i] in picks && picks[i].memberDomain in Domains(picks);
    }
  }

  /** The best node of one member. */
  method BestOf(nodes: seq<NodeInfo>, member: string, mnodes: seq<NodeInfo>) returns (best: NodeInfo)
    requires member in Domains(nodes) && GroupOf(nodes, member, mnodes)
    ensures BestOfMember(nodes, best) && best.memberDomain == member
  {
    BackupOrder();
    var sorted := SortSlice(mnodes, BackupLess);
    ghost var n := DomainWitness(nodes, member);
    assert n in sorted;
    best := sorted[0];
    assert best in mnodes;
    forall m <- nodes | m.memberDomain == member ensures !BackupLess(m, best) {
      assert m in sorted;
    }
  }

  /** First pass: one node per member, members in any order. */
  method OnePerMember(nodes: seq<NodeInfo>, count: nat)
    returns (selected: seq<NodeID>, membersUsed: set<string>, ghost picks: seq<NodeInfo>)
    ensures FirstPass(nodes, selected, membersUsed, picks)
    ensures |selected| == |membersUsed| == Min(count, |Domains(nodes)|) && membersUsed <= Domains(nodes)
    ensures |picks| < count ==> membersUsed == Domains(nodes)
  {
    var memberNodes := GroupByMember(nodes);
    selected, membersUsed := [], {};
    picks := [];
    var rest := memberNodes.Keys;
    while rest != {} && |selected| < count
      invariant forall d <- rest :: d in Domains(nodes) && d !in membersUsed
      invariant forall d <- Domains(nodes) :: d in rest || d in membersUsed
      invariant forall d <- membersUsed :: d in Domains(nodes)
      invariant FirstPass(nodes, selected, membersUsed, picks) && |picks| <= count
    {
      var member :| member in rest;
      selected, membersUsed, picks := PickMember(nodes, memberNodes[member], member, selected, membersUsed, picks);
      rest := rest - {member};
    }
    SubsetCount(membersUsed, Domains(nodes));
    if rest == {} { assert membersUsed == Domains(nodes); }
  }

  /** One step of the first pass: the best node of one more member. */
  method PickMember(
      nodes: seq<NodeInfo>, mnodes: seq<NodeInfo>, member: string,
      selected: seq<NodeID>, membersUsed: set<string>, ghost picks: seq<NodeInfo>)
    returns (selected': seq<NodeID>, membersUsed': set<string>, ghost picks': seq<NodeInfo>)
    requires member in Domains(nodes) && GroupOf(nodes, member, mnodes) && member !in membersUsed
    requires FirstPass(nodes, selected, membersUsed, picks)
    ensures FirstPass(nodes, selected', membersUsed', picks')
    ensures membersUsed' == membersUsed + {member} && |picks'| == |picks| + 1
  {
    var best := BestOf(nodes, member, mnodes);
    FirstPassNext(nodes, selected, membersUsed, picks, best);
    selected' := selected + [best.nodeID];
    picks' := picks + [best];
    membersUsed' := membersUsed + {member};
  }

  lemma FirstPassIsChoice(
      nodes: seq<NodeInfo>, selected: seq<NodeID>, membersUsed: set<string>, picks: seq<NodeInfo>)
    requires Distinct(Ids(nodes)) && FirstPass(nodes, selected, membersUsed, picks)
    ensures Choice(nodes, picks)
  {
    forall i, j | 0 <= i < j < |picks| ensures Ids(picks)[i] != Ids(picks)[j] {
      assert BestOfMember(nodes, picks[i]) && BestOfMember(nodes, picks[j]);
      if picks[i].nodeID == picks[j].nodeID { SameIdSameNode(nodes, picks[i], picks[j]); }
    }
  }

  lemma SameIdSameNode(nodes: seq<NodeInfo>, a: NodeInfo, b: NodeInfo)
    requires Distinct(Ids(nodes)) && a in nodes && b in nodes && a.nodeID == b.nodeID
    ensures a == b
  {
    var i :| 0 <= i < |nodes| && nodes[i] == a;
    var j :| 0 <= j < |nodes| && nodes[j] == b;
    assert Ids(nodes)[i] == Ids(nodes)[j];
  }

  method Contains(ids: seq<NodeID>, id: NodeID) returns (found: bool)
    ensures found <==> id in ids
  {
    for i := 0 to |ids|
      invariant id !in ids[..i]
    {
      if ids[i] == id { return true; }
    }
    return false;
  }

  /** The picks of the second pass never have less space than a node left out. */
  predicate RoomiestFrom(nodes: seq<NodeInfo>, picks: seq<NodeInfo>, k: nat) {
    forall i, b | k <= i < |picks| && b in nodes && b !in picks :: b.available <= picks[i].available
  }

  /** Second pass: fill up with the roomiest nodes not yet selected. */
  method FillUp(nodes: seq<NodeInfo>, count: nat, first: seq<NodeID>, membersUsed: set<string>,
                ghost picked: seq<NodeInfo>)
    returns (selected: seq<NodeID>, ghost picks: seq<NodeInfo>)
    requires Distinct(Ids(nodes)) && Choice(nodes, picked) && first == Ids(picked) && |picked| < count
    requires membersUsed == Domains(nodes)
    ensures first <= selected && |selected| <= count
    ensures selected == Ids(picks) && picked <= picks && Choice(nodes, picks)
    ensures |picks| <= count && (|picks| < count ==> forall n <- nodes :: n in picks)
    ensures RoomiestFrom(nodes, picks, |picked|)
  {
    UnusedFirstOrder(membersUsed);
    var sorted := SortSlice(nodes, (a, b) => UnusedFirstLess(membersUsed, a, b));
    PermutedDistinct(nodes, sorted);
    selected, picks := first, picked;
    var i := 0;
    while i < |sorted| && |selected| < count
      invariant i <= |sorted| && |picks| <= count && selected == Ids(picks) && picked <= picks
      invariant SecondPass(nodes, sorted, i, |picked|, picks)
    {
      var node := sorted[i];
      var already := Contains(selected, node.nodeID);
      SecondPassNext(nodes, sorted, i, |picked|, picks);
      if !already {
        selected := selected + [node.nodeID];
        picks := picks + [node];
      }
      i := i + 1;
    }
    FilledRoomiest(nodes, sorted, membersUsed, picks, |picked|, i);
  }

  /** The state of the second pass: the first `i` nodes are all picked, and all later picks are among them. */
  predicate SecondPass(nodes: seq<NodeInfo>, sorted: seq<NodeInfo>, i: nat, from: nat, picks: seq<NodeInfo>)
    requires i <= |sorted|
  {
    && Choice(nodes, picks)
    && (forall j | 0 <= j < i :: sorted[j] in picks)
    && forall j | from <= j < |picks| :: picks[j] in sorted[..i]
  }

  lemma SecondPassNext(nodes: seq<NodeInfo>, sorted: seq<NodeInfo>, i: nat, from: nat, picks: seq<NodeInfo>)
    requires i < |sorted| && sorted[i] in nodes && Distinct(Ids(nodes)) && SecondPass(nodes, sorted, i, from, picks)
    ensures Ids(picks + [sorted[i]]) == Ids(picks) + [sorted[i].nodeID]
    ensures SecondPass(nodes, sorted, i + 1, from,
                       if sorted[i].nodeID in Ids(picks) then picks else picks + [sorted[i]])
  {
    var node := sorted[i];
    IdsAppend(picks, node);
    assert sorted[..i + 1] == sorted[..i] + [node];
    if node.nodeID in Ids(picks) {
      var j :| 0 <= j < |picks| && Ids(picks)[j] == node.nodeID;
      SameIdSameNode(nodes, picks[j], node);
    }
  }

  lemma FilledRoomiest(nodes: seq<NodeInfo>, sorted: seq<NodeInfo>, membersUsed: set<string>, picks: seq<NodeInfo>,
                       from: nat, i: nat)
    requires multiset(sorted) == multiset(nodes) && i <= |sorted| && from <= |picks|
    requires forall k, l | 0 <= k < l < |sorted| :: !UnusedFirstLess(membersUsed, sorted[l], sorted[k])
    requires membersUsed == Domains(nodes)
    requires forall j | 0 <= j < i :: sorted[j] in picks
    requires forall j | from <= j < |picks| :: picks[j] in sorted[..i]
    ensures RoomiestFrom(nodes, picks, from)
  {
    forall j, b | from <= j < |picks| && b in nodes && b !in picks ensures b.available <= picks[j].available {
      var k :| 0 <= k < i && sorted[k] == picks[j];
      assert b in multiset(sorted) && sorted[k] in multiset(sorted);
      var l :| 0 <= l < |sorted| && sorted[l] == b;
      assert !UnusedFirstLess(membersUsed, sorted[l], sorted[k]);
    }
  }

  /** What backup placement promises of `count` picks. */
  predicate MostDiverse(nodes: seq<NodeInfo>, count: nat, picks: seq<NodeInfo>) {
    var k := Min(count, |Domains(nodes)|);
    && k <= |picks| && |Domains(picks)| == k
    && DistinctMembers(picks[..k]) && (forall i | 0 <= i < k :: BestOfMember(nodes, picks[i]))
    && RoomiestFrom(nodes, picks, k)
  }

  lemma FirstPassIsDiverse(
      nodes: seq<NodeInfo>, count: nat, selected: seq<NodeID>, membersUsed: set<string>, picks: seq<NodeInfo>)
    requires FirstPass(nodes, selected, membersUsed, picks) && |picks| == Min(count, |Domains(nodes)|)
    ensures MostDiverse(nodes, count, picks)
  {
    assert picks[..|picks|] == picks;
  }

  lemma FillingKeepsDiverse(nodes: seq<NodeInfo>, count: nat, first: seq<NodeInfo>, picks: seq<NodeInfo>)
    requires MostDiverse(nodes, count, first) && |first| == |Domains(nodes)| <= count
    requires first <= picks && Choice(nodes, picks) && RoomiestFrom(nodes, picks, |first|)
    ensures MostDiverse(nodes, count, picks)
  {
    DomainsWithin(nodes, picks);
    DomainsWithin(picks, first);
    SubsetCount(Domains(first), Domains(picks));
    SubsetCount(Domains(picks), Domains(nodes));
    assert picks[..|first|] == first[..|first|];
    forall i | 0 <= i < |first| ensures BestOfMember(nodes, picks[i]) { assert picks[i] == first[i]; }
  }

  method SelectBackupNodes(nodes: seq<NodeInfo>, count: nat)
    returns (selected: seq<NodeID>, ghost picks: seq<NodeInfo>)
    requires Distinct(Ids(nodes))
    ensures selected == Ids(picks) && Choice(nodes, picks) && |selected| == Min(count, |nodes|)
    ensures MostDiverse(nodes, count, picks)
  {
    var membersUsed;
    selected, membersUsed, picks := OnePerMember(nodes, count);
    FirstPassIsChoice(nodes, selected, membersUsed, picks);
    FirstPassIsDiverse(nodes, count, selected, membersUsed, picks);
    ghost var first := picks;
    if |selected| < count {
      selected, picks := FillUp(nodes, count, selected, membersUsed, picks);
      FillingKeepsDiverse(nodes, count, first, picks);
    }
    ChoiceSizeById(nodes, picks);
  }

  /** No other choice of as many nodes covers more member domains. */
  lemma BackupIsMostDiverse(nodes: seq<NodeInfo>, count: nat, picks: seq<NodeInfo>, other: seq<NodeInfo>)
    requires MostDiverse(nodes, count, picks) && Choice(nodes, other) && |other| <= count
    ensures |Domains(other)| <= |Domains(picks)|
  {
    ChoiceDomains(nodes, other);
  }

  lemma ChoiceSizeById(nodes: seq<NodeInfo>, picks: seq<NodeInfo>)
    requires Distinct(Ids(nodes)) && Choice(nodes, picks)
    ensures |picks| <= |nodes| && (|picks| == |nodes| <==> forall n <- nodes :: n in picks)
  {
    forall i, j | 0 <= i < j < |nodes| ensures nodes[i] != nodes[j] { assert Ids(nodes)[i] != Ids(nodes)[j]; }
    ChoiceSize(nodes, picks);
  }
}
