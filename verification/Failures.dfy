/** Node failures and recoveries as steps over a cluster value. */
module Failures {
  import opened PlacementSpec
  import opened Sequences
  import opened Types

  /** `renewed` records which nodes were registered after their last recorded failure. */
  datatype Cluster = Cluster(
    nodes: map<NodeID, NodeInfo>,
    failed: set<NodeID>,
    pending: map<string, seq<NodeID>>,
    renewed: set<NodeID>)

  datatype Op =
    | Register(node: NodeInfo)
    | Unregister(id: NodeID)
    | Fail(id: NodeID, chunks: seq<string>)
    | Recover(id: NodeID)

  function SetHealth(nodes: map<NodeID, NodeInfo>, id: NodeID, h: Health): map<NodeID, NodeInfo> {
    if id in nodes then nodes[id := nodes[id].(health := h)] else nodes
  }

  /** `id` joins the chunk's list unless it is there already. */
  function Schedule(pending: map<string, seq<NodeID>>, chunk: string, id: NodeID): map<string, seq<NodeID>> {
    if chunk !in pending then pending[chunk := [id]]
    else if id in pending[chunk] then pending
    else pending[chunk := pending[chunk] + [id]]
  }

  function ScheduleAll(pending: map<string, seq<NodeID>>, chunks: seq<string>, id: NodeID): map<string, seq<NodeID>> {
    if chunks == [] then pending
    else Schedule(ScheduleAll(pending, chunks[..|chunks| - 1], id), chunks[|chunks| - 1], id)
  }

  function Remove(ids: seq<NodeID>, id: NodeID): (r: seq<NodeID>)
    ensures forall x :: x in r <==> x in ids && x != id
    ensures Distinct(ids) ==> Distinct(r)
  {
    if ids == [] then []
    else
      var rest, last := Remove(ids[..|ids| - 1], id), ids[|ids| - 1];
      assert ids == ids[..|ids| - 1] + [last];
      assert Distinct(ids) ==> last !in ids[..|ids| - 1];
      if last == id then rest else rest + [last]
  }

  /** `id` leaves every list, and lists that become empty are dropped. */
  function Clear(pending: map<string, seq<NodeID>>, id: NodeID): map<string, seq<NodeID>> {
    map c | c in pending && Remove(pending[c], id) != [] :: Remove(pending[c], id)
  }

  function Step(s: Cluster, op: Op): Cluster {
    match op
    case Register(node) => s.(nodes := s.nodes[node.nodeID := node], renewed := s.renewed + {node.nodeID})
    case Unregister(id) => s.(nodes := s.nodes - {id})
    case Fail(id, chunks) =>
      Cluster(SetHealth(s.nodes, id, Unhealthy), s.failed + {id}, ScheduleAll(s.pending, chunks, id), s.renewed - {id})
    case Recover(id) =>
      s.(nodes := SetHealth(s.nodes, id, Healthy), failed := s.failed - {id}, pending := Clear(s.pending, id))
  }

  predicate PendingOk(s: Cluster) {
    forall c <- s.pending :: ListOk(s, s.pending[c])
  }

  /** A non-empty list of different nodes, all of them failed now. */
  predicate ListOk(s: Cluster, ids: seq<NodeID>) {
    ids != [] && Distinct(ids) && forall id <- ids :: id in s.failed
  }

  /** A failed node that has not been registered again is marked unhealthy. */
  predicate FailedOk(s: Cluster) {
    forall id <- s.nodes | id in s.failed && id !in s.renewed :: s.nodes[id].health == Unhealthy
  }

  predicate ClusterInv(s: Cluster) {
    PendingOk(s) && FailedOk(s)
  }

  lemma {:induction false} ScheduleAllKeeps(s: Cluster, chunks: seq<string>, id: NodeID)
    requires PendingOk(s)
    ensures PendingOk(Cluster(s.nodes, s.failed + {id}, ScheduleAll(s.pending, chunks, id), s.renewed))
    ensures forall c :: c in ScheduleAll(s.pending, chunks, id) <==> c in s.pending || c in chunks
    ensures forall c <- chunks :: c in ScheduleAll(s.pending, chunks, id) && id in ScheduleAll(s.pending, chunks, id)[c]
    ensures forall c <- s.pending, x <- s.pending[c] ::
              c in ScheduleAll(s.pending, chunks, id) && x in ScheduleAll(s.pending, chunks, id)[c]
  {
    if chunks != [] {
      var front, last := chunks[..|chunks| - 1], chunks[|chunks| - 1];
      assert chunks == front + [last];
      ScheduleAllKeeps(s, front, id);
      var before := ScheduleAll(s.pending, front, id);
      var t := Cluster(s.nodes, s.failed + {id}, ScheduleAll(s.pending, chunks, id), s.renewed);
      forall c <- t.pending ensures ListOk(t, t.pending[c]) {
        if c in before { assert ListOk(t.(pending := before), before[c]); }
      }
    }
  }

  lemma StepKeeps(s: Cluster, op: Op)
    requires ClusterInv(s)
    ensures ClusterInv(Step(s, op))
  {
    var t := Step(s, op);
    match op
    case Fail(id, chunks) =>
      ScheduleAllKeeps(s, chunks, id);
      forall c <- t.pending ensures ListOk(t, t.pending[c]) {
        assert ListOk(Cluster(s.nodes, s.failed + {id}, t.pending, s.renewed), t.pending[c]);
      }
    case Recover(id) =>
      forall c <- t.pending ensures ListOk(t, t.pending[c]) { assert ListOk(s, s.pending[c]); }
    case _ =>
      forall c <- t.pending ensures ListOk(t, t.pending[c]) { assert ListOk(s, s.pending[c]); }
  }

  /** A recovered node waits for no replacement any more; every other entry is kept in order. */
  lemma RecoveredIsClear(s: Cluster, id: NodeID)
    ensures var t := Step(s, Recover(id));
      && id !in t.failed
      && (forall c <- t.pending :: id !in t.pending[c])
      && (forall c <- s.pending, x <- s.pending[c] | x != id :: c in t.pending && x in t.pending[c])
  {
    var t := Step(s, Recover(id));
    forall c <- s.pending, x <- s.pending[c] | x != id ensures c in t.pending && x in t.pending[c] {
      assert x in Remove(s.pending[c], id);
    }
  }

  function Run(s: Cluster, ops: seq<Op>): Cluster {
    if ops == [] then s else Step(Run(s, ops[..|ops| - 1]), ops[|ops| - 1])
  }

  const INIT := Cluster(map[], {}, map[], {})

  /** After any run, pending lists are sound and eligible failed nodes were registered again. */
  lemma {:induction false} RunKeeps(ops: seq<Op>)
    ensures ClusterInv(Run(INIT, ops))
  {
    if ops != [] {
      RunKeeps(ops[..|ops| - 1]);
      StepKeeps(Run(INIT, ops[..|ops| - 1]), ops[|ops| - 1]);
    }
  }

  /** The nodes a placement may choose from. */
  function Eligible(nodes: map<NodeID, NodeInfo>, minSpace: int): set<NodeID> {
    set id | id in nodes && nodes[id].health != Unhealthy && nodes[id].available >= minSpace
  }

  /** In no run is a failed node eligible unless it was registered after its last failure. */
  lemma FailedNodesAreNotEligible(ops: seq<Op>, minSpace: int, id: NodeID)
    requires id in Eligible(Run(INIT, ops).nodes, minSpace) && id in Run(INIT, ops).failed
    ensures id in Run(INIT, ops).renewed
  {
    RunKeeps(ops);
  }
}
