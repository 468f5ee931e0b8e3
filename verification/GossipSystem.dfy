/** Many gossip nodes and the messages between them: nothing is known before it happened, and the
    versions form a Lamport clock. */
module GossipSystem {
  import opened Address
  import opened GossipSpec
  import opened Wrappers

  /** A message on the wire, its sender, and how many ticks the system had made when it was written. */
  datatype Sent = Sent(message: Message, from: string, ticksBefore: nat)

  /** One tick of a node's clock: the value it reached, and the message that caused it. */
  datatype Tick = Tick(domain: string, value: nat, cause: Option<Sent>)

  /** Messages and vectors stay on the wire: they may arrive in any order, repeatedly or never. */
  datatype System = System(nodes: map<string, Node>, messages: set<Sent>, vectors: set<Vector>, ticks: seq<Tick>)

  datatype Event =
    | Added(domain: string, address: FederatedAddress)
    | Removed(domain: string, peer: string)
    | Marked(domain: string, peer: string, status: PeerStatus)
    | Wrote(domain: string, payload: Payload)
    | Published(domain: string)
    | Arrived(domain: string, sent: Sent)
    | Merged(domain: string, vector: Vector)

  /** The event can happen: its node exists, what it says is what it knows, and what arrives was sent. */
  predicate Enabled(s: System, e: Event) {
    && e.domain in s.nodes
    && (e.Wrote? ==> Speaks(s.nodes[e.domain], e.payload))
    && (e.Arrived? ==> e.sent in s.messages)
    && (e.Merged? ==> e.vector in s.vectors)
  }

  function Ticked(s: System, node: Node, cause: Option<Sent>): System {
    s.(nodes := s.nodes[node.domain := node], ticks := s.ticks + [Tick(node.domain, node.version, cause)])
  }

  function Step(s: System, e: Event): System
    requires Enabled(s, e)
  {
    var n := s.nodes[e.domain];
    match e
    case Added(_, address) => Ticked(s, AddPeer(n, address), None)
    case Removed(_, peer) => Ticked(s, RemovePeer(n, peer), None)
    case Marked(_, peer, status) => s.(nodes := s.nodes[e.domain := SetStatus(n, peer, status)])
    case Wrote(_, payload) =>
      var m := Message(ToString(LocalAddress(n.domain)), n.version, payload);
      s.(messages := s.messages + {Sent(m, n.domain, |s.ticks|)})
    case Published(_) => s.(vectors := s.vectors + {n.vector})
    case Arrived(_, sent) => Ticked(s, Received(n, sent.message), Some(sent))
    case Merged(_, vector) => s.(nodes := s.nodes[e.domain := n.(vector := Merge(n.vector, vector))])
  }

  predicate Proper(s: System, events: seq<Event>)
    decreases |events|, 0
  {
    events == [] || (Proper(s, events[..|events| - 1]) && Enabled(Run(s, events[..|events| - 1]), events[|events| - 1]))
  }

  function Run(s: System, events: seq<Event>): System
    requires Proper(s, events)
    decreases |events|, 1
  {
    if events == [] then s else Step(Run(s, events[..|events| - 1]), events[|events| - 1])
  }

  /** Nodes just created, each under its own readable domain. */
  predicate Initial(s: System) {
    && s.messages == {} && s.vectors == {} && s.ticks == []
    && forall d <- s.nodes :: Writable(LocalAddress(d)) && s.nodes[d] == Node(d, 0, map[], map[])
  }

  function Clock(s: System, domain: string): nat {
    if domain in s.nodes then s.nodes[domain].version else 0
  }

  // ---------------------------------------------------------------- nobody is ahead of a clock

  ghost predicate BoundedVector(s: System, v: Vector) {
    forall d {:trigger Entry(v, d)} :: Entry(v, d) <= Clock(s, d)
  }

  ghost predicate BoundedNode(s: System, n: Node) {
    && BoundedVector(s, n.vector)
    && forall d <- n.peers :: n.peers[d].version <= Clock(s, d)
  }

  ghost predicate BoundedSent(s: System, m: Sent) {
    && m.from in s.nodes && m.message.version <= Clock(s, m.from) && Writable(LocalAddress(m.from))
    && m.message.source == ToString(LocalAddress(m.from))
    && BoundedVector(s, Carried(m.message.payload))
  }

  /** No vector entry, stored peer version or version on the wire for a domain, in a message's head or
      payload or in a vector, exceeds its clock. */
  ghost predicate Bounded(s: System) {
    && (forall d <- s.nodes :: s.nodes[d].domain == d && Writable(LocalAddress(d)) && BoundedNode(s, s.nodes[d]))
    && (forall m <- s.messages :: BoundedSent(s, m))
    && (forall v <- s.vectors :: BoundedVector(s, v))
  }

  /** Clocks only go up. */
  ghost predicate Later(s: System, t: System) {
    s.nodes.Keys == t.nodes.Keys && forall d {:trigger Clock(t, d)} :: Clock(s, d) <= Clock(t, d)
  }

  lemma LaterKeepsNode(s: System, t: System, n: Node)
    requires Later(s, t) && BoundedNode(s, n)
    ensures BoundedNode(t, n)
  {
    forall d ensures Entry(n.vector, d) <= Clock(t, d) { assert Clock(s, d) <= Clock(t, d); }
    forall d <- n.peers ensures n.peers[d].version <= Clock(t, d) { assert Clock(s, d) <= Clock(t, d); }
  }

  lemma LaterKeepsWire(s: System, t: System)
    requires Later(s, t) && Bounded(s)
    ensures forall m <- s.messages :: BoundedSent(t, m)
    ensures forall v <- s.vectors :: BoundedVector(t, v)
  {
    forall m <- s.messages ensures BoundedSent(t, m) {
      assert BoundedSent(s, m) && Clock(s, m.from) <= Clock(t, m.from);
      LaterKeepsVector(s, t, Carried(m.message.payload));
    }
    forall v <- s.vectors ensures BoundedVector(t, v) { LaterKeepsVector(s, t, v); }
  }

  lemma LaterKeepsVector(s: System, t: System, v: Vector)
    requires Later(s, t) && BoundedVector(s, v)
    ensures BoundedVector(t, v)
  {
    forall d ensures Entry(v, d) <= Clock(t, d) { assert Entry(v, d) <= Clock(s, d) <= Clock(t, d); }
  }

  /** What a bounded node says is bounded. */
  lemma SpokenIsBounded(s: System, n: Node, payload: Payload)
    requires BoundedNode(s, n) && Speaks(n, payload)
    ensures BoundedVector(s, Carried(payload))
  {
    var v := Carried(payload);
    forall d ensures Entry(v, d) <= Clock(s, d) {
      if d in v && payload.Heartbeat? { assert n.peers[d].version <= Clock(s, d); }
    }
  }

  /** Replacing one node by a later, bounded version of itself keeps everything bounded. */
  lemma ReplacedIsBounded(s: System, t: System, n: Node)
    requires Bounded(s) && n.domain in s.nodes && s.nodes[n.domain].version <= n.version
    requires t.nodes == s.nodes[n.domain := n] && t.messages == s.messages && t.vectors == s.vectors
    requires BoundedNode(t, n)
    ensures Bounded(t)
  {
    assert Later(s, t);
    forall d <- t.nodes ensures t.nodes[d].domain == d && Writable(LocalAddress(d)) && BoundedNode(t, t.nodes[d]) {
      assert d in s.nodes;
      if d != n.domain { LaterKeepsNode(s, t, s.nodes[d]); }
    }
    LaterKeepsWire(s, t);
  }

  lemma ReceivedIsBounded(s: System, t: System, n: Node, m: Sent)
    requires Later(s, t) && BoundedNode(s, n) && BoundedSent(s, m)
    ensures BoundedNode(t, Received(n, m.message))
  {
    LaterKeepsNode(s, t, n);
    ParseIffPrint(m.message.source, LocalAddress(m.from));
    var r := Received(n, m.message);
    forall d ensures Entry(r.vector, d) <= Clock(t, d) { assert Entry(n.vector, d) <= Clock(t, d); }
    assert Clock(s, m.from) <= Clock(t, m.from);
  }

  lemma StepIsLater(s: System, e: Event)
    requires Enabled(s, e) && s.nodes[e.domain].domain == e.domain
    ensures Later(s, Step(s, e))
  {
  }

  lemma MembershipIsBounded(s: System, e: Event)
    requires Bounded(s) && Enabled(s, e) && (e.Added? || e.Removed?)
    ensures Bounded(Step(s, e))
  {
    var t, n := Step(s, e), s.nodes[e.domain];
    StepIsLater(s, e);
    LaterKeepsNode(s, t, n);
    if e.Added? {
      IncrementIsBounded(t, n.(peers := n.peers[e.address.domain := Peer(e.address, 0, Alive)]));
      ReplacedIsBounded(s, t, AddPeer(n, e.address));
    } else {
      IncrementIsBounded(t, n.(peers := n.peers - {e.peer}));
      ReplacedIsBounded(s, t, RemovePeer(n, e.peer));
    }
  }

  lemma ArrivalIsBounded(s: System, e: Event)
    requires Bounded(s) && Enabled(s, e) && (e.Arrived? || e.Merged?)
    ensures Bounded(Step(s, e))
  {
    var t, n := Step(s, e), s.nodes[e.domain];
    StepIsLater(s, e);
    if e.Arrived? {
      ReceivedIsBounded(s, t, n, e.sent);
      ReplacedIsBounded(s, t, Received(n, e.sent.message));
    } else {
      LaterKeepsNode(s, t, n);
      MergedIsBounded(s, t, n, e.vector);
      ReplacedIsBounded(s, t, n.(vector := Merge(n.vector, e.vector)));
    }
  }

  lemma StepIsBounded(s: System, e: Event)
    requires Bounded(s) && Enabled(s, e)
    ensures Bounded(Step(s, e))
  {
    var t, n := Step(s, e), s.nodes[e.domain];
    match e
    case Added(_, _) => MembershipIsBounded(s, e);
    case Removed(_, _) => MembershipIsBounded(s, e);
    case Arrived(_, _) => ArrivalIsBounded(s, e);
    case Merged(_, _) => ArrivalIsBounded(s, e);
    case Marked(_, peer, status) =>
      StepIsLater(s, e);
      LaterKeepsNode(s, t, n);
      ReplacedIsBounded(s, t, SetStatus(n, peer, status));
    case Wrote(_, payload) =>
      SpokenIsBounded(s, n, payload);
      SameNodesAreBounded(s, t);
    case Published(_) => SameNodesAreBounded(s, t);
  }

  lemma SameNodesAreBounded(s: System, t: System)
    requires Bounded(s) && t.nodes == s.nodes
    requires forall m <- t.messages :: m in s.messages || BoundedSent(s, m)
    requires forall v <- t.vectors :: v in s.vectors || BoundedVector(s, v)
    ensures Bounded(t)
  {
    assert Later(s, t);
    forall d <- t.nodes ensures BoundedNode(t, t.nodes[d]) { LaterKeepsNode(s, t, s.nodes[d]); }
    LaterKeepsWire(s, t);
    forall v <- t.vectors ensures BoundedVector(t, v) { LaterKeepsVector(s, t, v); }
    forall m <- t.messages ensures BoundedSent(t, m) {
      assert BoundedSent(s, m);
      LaterKeepsVector(s, t, Carried(m.message.payload));
    }
  }

  lemma IncrementIsBounded(t: System, n: Node)
    requires BoundedNode(t, n) && n.domain in t.nodes && t.nodes[n.domain].version == n.version + 1
    ensures BoundedNode(t, Increment(n))
  {
    forall d ensures Entry(Increment(n).vector, d) <= Clock(t, d) { assert Entry(n.vector, d) <= Clock(t, d); }
  }

  lemma MergedIsBounded(s: System, t: System, n: Node, vector: Vector)
    requires Later(s, t) && BoundedNode(t, n) && BoundedVector(s, vector)
    ensures BoundedNode(t, n.(vector := Merge(n.vector, vector)))
  {
    forall d ensures Entry(Merge(n.vector, vector), d) <= Clock(t, d) {
      MergeIsMax(n.vector, vector, d);
      assert Entry(n.vector, d) <= Clock(t, d) && Clock(s, d) <= Clock(t, d) && Entry(vector, d) <= Clock(s, d);
    }
  }

  /** In every run, no version anywhere exceeds the clock of its domain. */
  lemma {:induction false} RunIsBounded(s: System, events: seq<Event>)
    requires Initial(s) && Proper(s, events)
    ensures Bounded(Run(s, events))
  {
    if events != [] {
      RunIsBounded(s, events[..|events| - 1]);
      StepIsBounded(Run(s, events[..|events| - 1]), events[|events| - 1]);
    }
  }

  // ---------------------------------------------------------------- Lamport's clock condition

  /** Tick `a` comes directly before tick `b`: on the same node, or through a message written after `a`
      whose arrival is `b`. */
  predicate Directly(ticks: seq<Tick>, a: nat, b: nat)
    requires a < b < |ticks|
  {
    || ticks[a].domain == ticks[b].domain
    || (ticks[b].cause.Some? && ticks[b].cause.value.from == ticks[a].domain && a < ticks[b].cause.value.ticksBefore)
  }

  predicate HappensBefore(ticks: seq<Tick>, a: nat, b: nat)
    requires a < b < |ticks|
    decreases b
  {
    Directly(ticks, a, b) || exists c | a < c < b :: HappensBefore(ticks, a, c) && Directly(ticks, c, b)
  }

  /** A message carries at least the value of every tick its sender had made. */
  predicate CoversPast(ticks: seq<Tick>, m: Sent) {
    && m.ticksBefore <= |ticks|
    && forall a | 0 <= a < m.ticksBefore && ticks[a].domain == m.from :: ticks[a].value <= m.message.version
  }

  ghost predicate Traced(s: System) {
    && (forall d <- s.nodes :: s.nodes[d].domain == d && s.nodes[d].version <= |s.ticks|)
    && (forall a | 0 <= a < |s.ticks| :: s.ticks[a].domain in s.nodes && s.ticks[a].value <= Clock(s, s.ticks[a].domain))
    && (forall a, b | 0 <= a < b < |s.ticks| && s.ticks[a].domain == s.ticks[b].domain ::
          s.ticks[a].value < s.ticks[b].value)
    && (forall m <- s.messages :: CoversPast(s.ticks, m) && m.message.version <= |s.ticks|)
    && (forall b | 0 <= b < |s.ticks| && s.ticks[b].cause.Some? ::
          CoversPast(s.ticks, s.ticks[b].cause.value) && s.ticks[b].cause.value.message.version < s.ticks[b].value)
  }

  lemma TickIsTraced(s: System, node: Node, cause: Option<Sent>)
    requires Traced(s) && node.domain in s.nodes && s.nodes[node.domain].version < node.version <= |s.ticks| + 1
    requires cause.Some? ==> cause.value in s.messages && cause.value.message.version < node.version
    ensures Traced(Ticked(s, node, cause))
  {
    var t := Ticked(s, node, cause);
    forall m: Sent | CoversPast(s.ticks, m) ensures CoversPast(t.ticks, m) {
      assert forall a | 0 <= a < m.ticksBefore :: t.ticks[a] == s.ticks[a];
    }
    forall a | 0 <= a < |t.ticks|
      ensures t.ticks[a].domain in t.nodes && t.ticks[a].value <= Clock(t, t.ticks[a].domain)
    {
      if a < |s.ticks| { assert t.ticks[a] == s.ticks[a]; }
    }
    forall a, b | 0 <= a < b < |t.ticks| && t.ticks[a].domain == t.ticks[b].domain
      ensures t.ticks[a].value < t.ticks[b].value
    {
      assert t.ticks[a] == s.ticks[a];
      if b < |s.ticks| { assert t.ticks[b] == s.ticks[b]; }
    }
    forall b | 0 <= b < |t.ticks| && t.ticks[b].cause.Some?
      ensures CoversPast(t.ticks, t.ticks[b].cause.value) && t.ticks[b].cause.value.message.version < t.ticks[b].value
    {
      if b < |s.ticks| { assert t.ticks[b] == s.ticks[b]; }
    }
  }

  lemma StepIsTraced(s: System, e: Event)
    requires Traced(s) && Enabled(s, e)
    ensures Traced(Step(s, e))
  {
    var n := s.nodes[e.domain];
    match e
    case Added(_, address) => TickIsTraced(s, AddPeer(n, address), None);
    case Removed(_, peer) => TickIsTraced(s, RemovePeer(n, peer), None);
    case Arrived(_, sent) => TickIsTraced(s, Received(n, sent.message), Some(sent));
    case Wrote(_, _) =>
    case _ =>
  }

  lemma {:induction false} RunIsTraced(s: System, events: seq<Event>)
    requires Initial(s) && Proper(s, events)
    ensures Traced(Run(s, events))
  {
    if events != [] {
      RunIsTraced(s, events[..|events| - 1]);
      StepIsTraced(Run(s, events[..|events| - 1]), events[|events| - 1]);
    }
  }

  lemma {:induction false} ClockCondition(s: System, a: nat, b: nat)
    requires Traced(s) && a < b < |s.ticks| && HappensBefore(s.ticks, a, b)
    ensures s.ticks[a].value < s.ticks[b].value
    decreases b
  {
    if Directly(s.ticks, a, b) {
      if s.ticks[a].domain != s.ticks[b].domain { assert CoversPast(s.ticks, s.ticks[b].cause.value); }
    } else {
      var c :| a < c < b && HappensBefore(s.ticks, a, c) && Directly(s.ticks, c, b);
      ClockCondition(s, a, c);
      if s.ticks[c].domain != s.ticks[b].domain { assert CoversPast(s.ticks, s.ticks[b].cause.value); }
    }
  }

  /** In every run the versions are a Lamport clock: of two ticks, the one that happens before the
      other has the smaller value. No value exceeds the number of ticks made, so a 64-bit counter
      cannot wrap around before the system has made 2^64 of them. */
  lemma VersionsAreLamportClocks(s: System, events: seq<Event>, a: nat, b: nat)
    requires Initial(s) && Proper(s, events) && a < b < |Run(s, events).ticks|
    ensures var ticks := Run(s, events).ticks;
            && (HappensBefore(ticks, a, b) ==> ticks[a].value < ticks[b].value)
            && ticks[b].value <= |ticks|
  {
    RunIsTraced(s, events);
    if HappensBefore(Run(s, events).ticks, a, b) { ClockCondition(Run(s, events), a, b); }
  }

  // ---------------------------------------------------------------- one node's part of a run

  /** What the event does to the node it happens at. */
  function Performed(n: Node, e: Event): Node {
    match e
    case Added(_, address) => AddPeer(n, address)
    case Removed(_, peer) => RemovePeer(n, peer)
    case Marked(_, peer, status) => SetStatus(n, peer, status)
    case Arrived(_, sent) => Received(n, sent.message)
    case Merged(_, vector) => n.(vector := Merge(n.vector, vector))
    case _ => n
  }

  /** An event changes only the node it happens at. */
  lemma StepIsLocal(s: System, e: Event)
    requires Enabled(s, e) && s.nodes[e.domain].domain == e.domain
    ensures Step(s, e).nodes == s.nodes[e.domain := Performed(s.nodes[e.domain], e)]
    ensures Performed(s.nodes[e.domain], e).domain == e.domain
  {
  }

  // ---------------------------------------------------------------- a response

  function Messages(sents: seq<Sent>): (ms: seq<Message>)
    ensures |ms| == |sents|
  {
    seq(|sents|, i requires 0 <= i < |sents| => sents[i].message)
  }

  function Arrivals(domain: string, sents: seq<Sent>): (events: seq<Event>)
    ensures |events| == |sents|
  {
    seq(|sents|, i requires 0 <= i < |sents| => Arrived(domain, sents[i]))
  }

  lemma RunSnoc(s: System, events: seq<Event>, e: Event)
    requires Proper(s, events) && Enabled(Run(s, events), e)
    ensures Proper(s, events + [e]) && Run(s, events + [e]) == Step(Run(s, events), e)
  {
    assert (events + [e])[..|events|] == events;
  }

  /** `t` is `s` after the messages have been handled at one node. */
  predicate Handled(s: System, domain: string, ms: seq<Message>, t: System)
    requires domain in s.nodes
  {
    var n := ReceivedAll(s.nodes[domain], ms);
    n.domain == domain && t.messages == s.messages && t.vectors == s.vectors && t.nodes == s.nodes[domain := n]
  }

  lemma ArrivalStep(s: System, domain: string, ms: seq<Message>, t: System, sent: Sent)
    requires domain in s.nodes && Handled(s, domain, ms, t) && sent in s.messages
    ensures Enabled(t, Arrived(domain, sent))
    ensures Handled(s, domain, ms + [sent.message], Step(t, Arrived(domain, sent)))
  {
    assert (ms + [sent.message])[..|ms|] == ms;
    StepIsLocal(t, Arrived(domain, sent));
  }

  lemma {:induction false} ArrivalsAreRun(s: System, domain: string, sents: seq<Sent>)
    requires domain in s.nodes && s.nodes[domain].domain == domain && forall m <- sents :: m in s.messages
    ensures Proper(s, Arrivals(domain, sents))
    ensures Handled(s, domain, Messages(sents), Run(s, Arrivals(domain, sents)))
  {
    if sents == [] {
      assert s.nodes == s.nodes[domain := s.nodes[domain]];
    } else {
      var (front, last) := (sents[..|sents| - 1], sents[|sents| - 1]);
      ArrivalsAreRun(s, domain, front);
      assert last in s.messages;
      assert Arrivals(domain, sents) == Arrivals(domain, front) + [Arrived(domain, last)];
      assert Messages(sents) == Messages(front) + [last.message];
      ArrivalStep(s, domain, Messages(front), Run(s, Arrivals(domain, front)), last);
      RunSnoc(s, Arrivals(domain, front), Arrived(domain, last));
    }
  }

  lemma MergeStep(s: System, domain: string, ms: seq<Message>, t: System, vector: Vector)
    requires domain in s.nodes && Handled(s, domain, ms, t) && vector in s.vectors
    ensures Enabled(t, Merged(domain, vector))
    ensures Step(t, Merged(domain, vector)).nodes == s.nodes[domain := Responded(s.nodes[domain], ms, vector)]
  {
    StepIsLocal(t, Merged(domain, vector));
  }

  /** Handling a response of messages and a vector that were sent is a run of the system. */
  lemma ResponseIsRun(s: System, domain: string, sents: seq<Sent>, vector: Vector)
    requires domain in s.nodes && s.nodes[domain].domain == domain
    requires vector in s.vectors && forall m <- sents :: m in s.messages
    ensures var events := Arrivals(domain, sents) + [Merged(domain, vector)];
            && Proper(s, events)
            && Run(s, events).nodes == s.nodes[domain := Responded(s.nodes[domain], Messages(sents), vector)]
  {
    ArrivalsAreRun(s, domain, sents);
    MergeStep(s, domain, Messages(sents), Run(s, Arrivals(domain, sents)), vector);
    RunSnoc(s, Arrivals(domain, sents), Merged(domain, vector));
  }
}
