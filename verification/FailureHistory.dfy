/** What a run of registrations, failures and recoveries has left, told from its operations alone. */
module FailureHistory {
  import opened Failures
  import opened PlacementSpec
  import opened Sequences
  import opened Types

  predicate Registers(op: Op, id: NodeID) {
    op.Register? && op.node.nodeID == id
  }

  predicate Fails(op: Op, id: NodeID) {
    op.Fail? && op.id == id
  }

  /** The node fails while it holds the chunk. */
  predicate FailsWith(op: Op, id: NodeID, chunk: string) {
    Fails(op, id) && chunk in op.chunks
  }

  /** The operation tells of the node's health. */
  predicate Judges(op: Op, id: NodeID) {
    Registers(op, id) || Fails(op, id) || op == Recover(id)
  }

  function HealthTold(op: Op): Health {
    match op
    case Register(node) => node.health
    case Fail(_, _) => Unhealthy
    case _ => Healthy
  }

  /** The node failed, and has not recovered since. */
  ghost predicate HasFailed(ops: seq<Op>, id: NodeID) {
    exists k | 0 <= k < |ops| :: Fails(ops[k], id) && forall l | k < l < |ops| :: ops[l] != Recover(id)
  }

  /** It failed with the chunk, and has not recovered since. */
  ghost predicate Waits(ops: seq<Op>, chunk: string, id: NodeID) {
    exists k | 0 <= k < |ops| :: FailsWith(ops[k], id, chunk) && forall l | k < l < |ops| :: ops[l] != Recover(id)
  }

  /** It was registered, and has not failed since. */
  ghost predicate IsRenewed(ops: seq<Op>, id: NodeID) {
    exists k | 0 <= k < |ops| :: Registers(ops[k], id) && forall l | k < l < |ops| :: !Fails(ops[l], id)
  }

  /** Its last registration, if it was not unregistered since, and the last word on its health. */
  ghost predicate LastRegisters(ops: seq<Op>, k: nat, id: NodeID) {
    && k < |ops| && Registers(ops[k], id)
    && forall l | k < l < |ops| :: !Registers(ops[l], id) && ops[l] != Unregister(id)
  }

  ghost predicate LastJudges(ops: seq<Op>, k: nat, id: NodeID) {
    k < |ops| && Judges(ops[k], id) && forall l | k < l < |ops| :: !Judges(ops[l], id)
  }

  ghost predicate IsRegistered(ops: seq<Op>, id: NodeID) {
    exists k: nat :: LastRegisters(ops, k, id)
  }

  /** It is registered, and but for its health as `node`. */
  ghost predicate RegisteredAs(ops: seq<Op>, id: NodeID, node: NodeInfo) {
    exists k: nat :: LastRegisters(ops, k, id) && node == ops[k].node.(health := node.health)
  }

  ghost predicate HealthIs(ops: seq<Op>, id: NodeID, h: Health) {
    exists k: nat :: LastJudges(ops, k, id) && HealthTold(ops[k]) == h
  }

  // ---------------------------------------------------------------- one more operation

  lemma HasFailedNext(ops: seq<Op>, op: Op, id: NodeID)
    ensures HasFailed(ops + [op], id) <==> Fails(op, id) || (HasFailed(ops, id) && op != Recover(id))
  {
    var longer := ops + [op];
    if HasFailed(ops, id) && op != Recover(id) {
      var k :| 0 <= k < |ops| && Fails(ops[k], id) && forall l | k < l < |ops| :: ops[l] != Recover(id);
      assert Fails(longer[k], id);
    }
    if Fails(op, id) { assert Fails(longer[|ops|], id); }
    if HasFailed(longer, id) && !Fails(op, id) {
      var k :| 0 <= k < |longer| && Fails(longer[k], id) && forall l | k < l < |longer| :: longer[l] != Recover(id);
      assert k < |ops| && Fails(ops[k], id) && longer[|ops|] == op;
      assert forall l | k < l < |ops| :: ops[l] == longer[l];
    }
  }

  lemma WaitsNext(ops: seq<Op>, op: Op, chunk: string, id: NodeID)
    ensures Waits(ops + [op], chunk, id) <==> FailsWith(op, id, chunk) || (Waits(ops, chunk, id) && op != Recover(id))
  {
    var longer := ops + [op];
    if Waits(ops, chunk, id) && op != Recover(id) {
      var k :| 0 <= k < |ops| && FailsWith(ops[k], id, chunk) && forall l | k < l < |ops| :: ops[l] != Recover(id);
      assert FailsWith(longer[k], id, chunk);
    }
    if FailsWith(op, id, chunk) { assert FailsWith(longer[|ops|], id, chunk); }
    if Waits(longer, chunk, id) && !FailsWith(op, id, chunk) {
      var k :| 0 <= k < |longer| && FailsWith(longer[k], id, chunk)
               && forall l | k < l < |longer| :: longer[l] != Recover(id);
      assert k < |ops| && FailsWith(ops[k], id, chunk) && longer[|ops|] == op;
      assert forall l | k < l < |ops| :: ops[l] == longer[l];
    }
  }

  lemma RenewedNext(ops: seq<Op>, op: Op, id: NodeID)
    ensures IsRenewed(ops + [op], id) <==> Registers(op, id) || (IsRenewed(ops, id) && !Fails(op, id))
  {
    var longer := ops + [op];
    if IsRenewed(ops, id) && !Fails(op, id) {
      var k :| 0 <= k < |ops| && Registers(ops[k], id) && forall l | k < l < |ops| :: !Fails(ops[l], id);
      assert Registers(longer[k], id);
    }
    if Registers(op, id) { assert Registers(longer[|ops|], id); }
    if IsRenewed(longer, id) && !Registers(op, id) {
      var k :| 0 <= k < |longer| && Registers(longer[k], id) && forall l | k < l < |longer| :: !Fails(longer[l], id);
      assert k < |ops| && Registers(ops[k], id) && longer[|ops|] == op;
      assert forall l | k < l < |ops| :: ops[l] == longer[l];
    }
  }

  lemma RegistersNext(ops: seq<Op>, op: Op, id: NodeID)
    ensures IsRegistered(ops + [op], id) <==> Registers(op, id) || (IsRegistered(ops, id) && op != Unregister(id))
  {
    var longer := ops + [op];
    if Registers(op, id) {
      assert LastRegisters(longer, |ops|, id);
    } else if IsRegistered(ops, id) && op != Unregister(id) {
      var k: nat :| LastRegisters(ops, k, id);
      assert LastRegisters(longer, k, id);
    }
    if IsRegistered(longer, id) && !Registers(op, id) {
      var k: nat :| LastRegisters(longer, k, id);
      assert longer[|ops|] == op;
      assert forall l | k < l < |ops| :: ops[l] == longer[l];
      assert LastRegisters(ops, k, id);
    }
  }

  lemma RegisteredAsNext(ops: seq<Op>, op: Op, id: NodeID, node: NodeInfo)
    requires if Registers(op, id) then node == op.node else RegisteredAs(ops, id, node) && op != Unregister(id)
    ensures RegisteredAs(ops + [op], id, node)
  {
    var longer := ops + [op];
    if Registers(op, id) {
      assert LastRegisters(longer, |ops|, id) && longer[|ops|] == op;
    } else {
      var k: nat :| LastRegisters(ops, k, id) && node == ops[k].node.(health := node.health);
      assert LastRegisters(longer, k, id) && longer[k] == ops[k];
    }
  }

  lemma OtherHealth(ops: seq<Op>, id: NodeID, node: NodeInfo, h: Health)
    requires RegisteredAs(ops, id, node)
    ensures RegisteredAs(ops, id, node.(health := h))
  {
    var k: nat :| LastRegisters(ops, k, id) && node == ops[k].node.(health := node.health);
    assert node.(health := h) == ops[k].node.(health := h);
  }

  lemma JudgesNext(ops: seq<Op>, op: Op, id: NodeID, h: Health)
    ensures HealthIs(ops + [op], id, h) <==> if Judges(op, id) then h == HealthTold(op) else HealthIs(ops, id, h)
  {
    var longer := ops + [op];
    if Judges(op, id) {
      assert LastJudges(longer, |ops|, id) && longer[|ops|] == op;
    } else if HealthIs(ops, id, h) {
      var k: nat :| LastJudges(ops, k, id) && HealthTold(ops[k]) == h;
      assert LastJudges(longer, k, id) && longer[k] == ops[k];
    }
    if HealthIs(longer, id, h) {
      var k: nat :| LastJudges(longer, k, id) && HealthTold(longer[k]) == h;
      assert longer[|ops|] == op;
      if k < |ops| {
        assert forall l | k < l < |ops| :: ops[l] == longer[l];
        assert LastJudges(ops, k, id);
      }
    }
  }

  // ---------------------------------------------------------------- the nodes

  /** A registered node is as it was last registered, but for its health, on which the last word counts. */
  ghost predicate NodeTold(nodes: map<NodeID, NodeInfo>, ops: seq<Op>, id: NodeID) {
    && (id in nodes <==> IsRegistered(ops, id))
    && (id in nodes ==> RegisteredAs(ops, id, nodes[id]) && HealthIs(ops, id, nodes[id].health))
  }

  lemma NodeNext(s: Cluster, ops: seq<Op>, op: Op, id: NodeID)
    requires NodeTold(s.nodes, ops, id)
    ensures NodeTold(Step(s, op).nodes, ops + [op], id)
  {
    var nodes := Step(s, op).nodes;
    RegistersNext(ops, op, id);
    if id in nodes {
      if !Registers(op, id) { OtherHealth(ops, id, s.nodes[id], nodes[id].health); }
      RegisteredAsNext(ops, op, id, nodes[id]);
      JudgesNext(ops, op, id, nodes[id].health);
    }
  }

  lemma FailedNext(s: Cluster, ops: seq<Op>, op: Op, id: NodeID)
    requires (id in s.failed <==> HasFailed(ops, id)) && (id in s.renewed <==> IsRenewed(ops, id))
    ensures id in Step(s, op).failed <==> HasFailed(ops + [op], id)
    ensures id in Step(s, op).renewed <==> IsRenewed(ops + [op], id)
  {
    HasFailedNext(ops, op, id);
    RenewedNext(ops, op, id);
  }

  /** After any run, the failed, the renewed and the registered nodes are those the operations tell of. */
  lemma {:induction false} NodesAreTold(ops: seq<Op>, id: NodeID)
    ensures id in Run(INIT, ops).failed <==> HasFailed(ops, id)
    ensures id in Run(INIT, ops).renewed <==> IsRenewed(ops, id)
    ensures NodeTold(Run(INIT, ops).nodes, ops, id)
  {
    if ops != [] {
      var front, op := ops[..|ops| - 1], ops[|ops| - 1];
      NodesAreTold(front, id);
      FailedNext(Run(INIT, front), front, op, id);
      NodeNext(Run(INIT, front), front, op, id);
      assert ops == front + [op];
    }
  }

  /** It is registered with this much space. */
  ghost predicate Roomy(ops: seq<Op>, minSpace: int, id: NodeID) {
    exists k: nat :: LastRegisters(ops, k, id) && ops[k].node.available >= minSpace
  }

  lemma RoomyIff(ops: seq<Op>, minSpace: int, id: NodeID, node: NodeInfo)
    requires RegisteredAs(ops, id, node)
    ensures Roomy(ops, minSpace, id) <==> node.available >= minSpace
  {
    var k: nat :| LastRegisters(ops, k, id) && node == ops[k].node.(health := node.health);
    if Roomy(ops, minSpace, id) {
      var l: nat :| LastRegisters(ops, l, id) && ops[l].node.available >= minSpace;
      assert k == l;
    }
  }

  lemma OneHealth(ops: seq<Op>, id: NodeID, h: Health, h': Health)
    requires HealthIs(ops, id, h) && HealthIs(ops, id, h')
    ensures h == h'
  {
    var k: nat :| LastJudges(ops, k, id) && HealthTold(ops[k]) == h;
    var k': nat :| LastJudges(ops, k', id) && HealthTold(ops[k']) == h';
    assert k == k';
  }

  /** A node may be chosen in a run exactly if it is registered, with enough space, and the last of its registrations,
      failures and recoveries left it healthy or degraded. */
  lemma EligibleIff(ops: seq<Op>, minSpace: int, id: NodeID)
    ensures id in Eligible(Run(INIT, ops).nodes, minSpace) <==> Roomy(ops, minSpace, id) && !HealthIs(ops, id, Unhealthy)
  {
    var nodes := Run(INIT, ops).nodes;
    NodesAreTold(ops, id);
    if id in nodes {
      RoomyIff(ops, minSpace, id, nodes[id]);
      if HealthIs(ops, id, Unhealthy) { OneHealth(ops, id, nodes[id].health, Unhealthy); }
    } else {
      assert !Roomy(ops, minSpace, id);
    }
  }

  /** A recovered node may be chosen at once if it is registered with enough space, whatever happened to it before. */
  lemma RecoveredIsEligible(ops: seq<Op>, minSpace: int, id: NodeID)
    requires Roomy(ops, minSpace, id)
    ensures id in Eligible(Run(INIT, ops + [Recover(id)]).nodes, minSpace)
  {
    var longer := ops + [Recover(id)];
    var k: nat :| LastRegisters(ops, k, id) && ops[k].node.available >= minSpace;
    assert LastRegisters(longer, k, id) && longer[k] == ops[k];
    JudgesNext(ops, Recover(id), id, Unhealthy);
    EligibleIff(longer, minSpace, id);
  }

  // ---------------------------------------------------------------- the lists

  /** The nodes waiting in the chunk's list. */
  function Waiting(pending: map<string, seq<NodeID>>, chunk: string): seq<NodeID> {
    if chunk in pending then pending[chunk] else []
  }

  function Joined(ids: seq<NodeID>, id: NodeID): seq<NodeID> {
    if id in ids then ids else ids + [id]
  }

  lemma ScheduledOne(pending: map<string, seq<NodeID>>, c: string, id: NodeID, chunk: string)
    ensures var was := Waiting(pending, chunk);
            Waiting(Schedule(pending, c, id), chunk) == if chunk == c then Joined(was, id) else was
  {
  }

  lemma {:induction false} ScheduledAt(pending: map<string, seq<NodeID>>, chunks: seq<string>, id: NodeID, chunk: string)
    ensures var was := Waiting(pending, chunk);
            Waiting(ScheduleAll(pending, chunks, id), chunk) == if chunk in chunks then Joined(was, id) else was
  {
    if chunks != [] {
      var front, last := chunks[..|chunks| - 1], chunks[|chunks| - 1];
      ScheduledAt(pending, front, id, chunk);
      ScheduledOne(ScheduleAll(pending, front, id), last, id, chunk);
      assert chunk in chunks <==> chunk in front || chunk == last by { assert chunks == front + [last]; }
    }
  }

  lemma ClearedOf(pending: map<string, seq<NodeID>>, id: NodeID, chunk: string)
    ensures Waiting(Clear(pending, id), chunk) == Remove(Waiting(pending, chunk), id)
  {
  }

  /** `x` waits for the chunk since before `y` does. */
  ghost predicate WaitsLonger(ops: seq<Op>, chunk: string, x: NodeID, y: NodeID) {
    exists k: nat :: WaitsSince(ops, chunk, x, k) && !Waits(ops[..k], chunk, y)
  }

  ghost predicate WaitsSince(ops: seq<Op>, chunk: string, x: NodeID, k: nat) {
    k <= |ops| && forall l | k <= l <= |ops| :: Waits(ops[..l], chunk, x)
  }

  ghost predicate InOrder(ops: seq<Op>, chunk: string, ids: seq<NodeID>) {
    forall i, j | 0 <= i < j < |ids| :: WaitsLonger(ops, chunk, ids[i], ids[j])
  }

  /** The list names those who wait, the longest first. */
  ghost predicate ListTold(ids: seq<NodeID>, ops: seq<Op>, chunk: string) {
    Distinct(ids) && (forall id :: id in ids <==> Waits(ops, chunk, id)) && InOrder(ops, chunk, ids)
  }

  lemma WaitsSinceNext(ops: seq<Op>, op: Op, chunk: string, x: NodeID, k: nat)
    requires Waits(ops + [op], chunk, x) && WaitsSince(ops, chunk, x, k)
    ensures WaitsSince(ops + [op], chunk, x, k) && (ops + [op])[..k] == ops[..k]
  {
    var longer := ops + [op];
    forall l | k <= l <= |longer| ensures Waits(longer[..l], chunk, x) {
      assert longer[..l] == if l <= |ops| then ops[..l] else longer;
    }
  }

  lemma WaitsLongerNext(ops: seq<Op>, op: Op, chunk: string, x: NodeID, y: NodeID)
    requires Waits(ops + [op], chunk, x)
    requires WaitsLonger(ops, chunk, x, y) || (Waits(ops, chunk, x) && !Waits(ops, chunk, y))
    ensures WaitsLonger(ops + [op], chunk, x, y)
  {
    var k: nat := |ops|;
    assert ops[..k] == ops;
    if WaitsLonger(ops, chunk, x, y) { k :| WaitsSince(ops, chunk, x, k) && !Waits(ops[..k], chunk, y); }
    WaitsSinceNext(ops, op, chunk, x, k);
  }

  /** What stays in a list stays in order. */
  lemma {:induction false} RemovedAt(ids: seq<NodeID>, id: NodeID, i: nat, j: nat) returns (i': nat, j': nat)
    requires i < j < |Remove(ids, id)|
    ensures i' < j' < |ids| && ids[i'] == Remove(ids, id)[i] && ids[j'] == Remove(ids, id)[j]
  {
    var front, last := ids[..|ids| - 1], ids[|ids| - 1];
    if j < |Remove(front, id)| {
      i', j' := RemovedAt(front, id, i, j);
    } else {
      assert Remove(front, id)[i] in front;
      i' :| 0 <= i' < |front| && front[i'] == Remove(front, id)[i];
      j' := |front|;
    }
  }

  function ListAfter(ids: seq<NodeID>, op: Op, chunk: string): seq<NodeID> {
    match op
    case Fail(id, chunks) => if chunk in chunks then Joined(ids, id) else ids
    case Recover(id) => Remove(ids, id)
    case _ => ids
  }

  lemma ListNext(ids: seq<NodeID>, ids': seq<NodeID>, ops: seq<Op>, op: Op, chunk: string)
    requires ListTold(ids, ops, chunk)
    requires ids' == ListAfter(ids, op, chunk)
    ensures ListTold(ids', ops + [op], chunk)
  {
    forall id ensures id in ids' <==> Waits(ops + [op], chunk, id) { WaitsNext(ops, op, chunk, id); }
    forall i, j | 0 <= i < j < |ids'| ensures WaitsLonger(ops + [op], chunk, ids'[i], ids'[j]) {
      assert ids'[i] in ids';
      if op.Recover? {
        var k, l := RemovedAt(ids, op.id, i, j);
        assert WaitsLonger(ops, chunk, ids[k], ids[l]);
      } else if j < |ids| {
        assert WaitsLonger(ops, chunk, ids[i], ids[j]);
      } else {
        assert ids[i] in ids && ids'[j] !in ids;
      }
      WaitsLongerNext(ops, op, chunk, ids'[i], ids'[j]);
    }
  }

  lemma WaitingNext(s: Cluster, op: Op, chunk: string)
    ensures Waiting(Step(s, op).pending, chunk) == ListAfter(Waiting(s.pending, chunk), op, chunk)
  {
    match op
    case Fail(id, chunks) => ScheduledAt(s.pending, chunks, id, chunk);
    case Recover(id) => ClearedOf(s.pending, id, chunk);
    case _ =>
  }

  /** After any run, a chunk has a list exactly if some node waits for it to be replaced; the list names every such node
      once, the longest waiting first. */
  lemma {:induction false} ListsAreTold(ops: seq<Op>, chunk: string)
    ensures ListTold(Waiting(Run(INIT, ops).pending, chunk), ops, chunk)
    ensures chunk in Run(INIT, ops).pending <==> exists id :: Waits(ops, chunk, id)
  {
    if ops != [] {
      var front, op := ops[..|ops| - 1], ops[|ops| - 1];
      ListsAreTold(front, chunk);
      WaitingNext(Run(INIT, front), op, chunk);
      ListNext(Waiting(Run(INIT, front).pending, chunk), Waiting(Run(INIT, ops).pending, chunk), front, op, chunk);
      assert ops == front + [op];
    }
    ListedIff(ops, chunk);
  }

  lemma ListedIff(ops: seq<Op>, chunk: string)
    requires ListTold(Waiting(Run(INIT, ops).pending, chunk), ops, chunk)
    ensures chunk in Run(INIT, ops).pending <==> exists id :: Waits(ops, chunk, id)
  {
    var s := Run(INIT, ops);
    RunKeeps(ops);
    if chunk in s.pending {
      assert ListOk(s, s.pending[chunk]);
      assert s.pending[chunk][0] in s.pending[chunk];
      assert Waits(ops, chunk, s.pending[chunk][0]);
    }
  }
}
