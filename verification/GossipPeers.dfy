/** Whom a node knows in a run, and as what, told from the events alone. */
module GossipPeers {
  import opened Address
  import opened GossipSpec
  import opened GossipSystem
  import opened Wrappers

  /** The event tells the node at `d` of the peer `p`: it adds the peer, or a join of the peer's arrives. */
  predicate Teaches(e: Event, d: string, p: string) {
    && e.domain == d
    && ((e.Added? && e.address.domain == p) || (e.Arrived? && e.sent.message.payload.Join? && e.sent.from == p))
  }

  predicate Forgets(e: Event, d: string, p: string) {
    e == Removed(d, p)
  }

  /** It tells of a version: so does a heartbeat of the peer's. */
  predicate Dates(e: Event, d: string, p: string) {
    Teaches(e, d, p) || (e.domain == d && e.Arrived? && e.sent.message.payload.Heartbeat? && e.sent.from == p)
  }

  /** It tells of a status: so does marking the peer. */
  predicate Marks(e: Event, d: string, p: string) {
    Dates(e, d, p) || (e.Marked? && e.domain == d && e.peer == p)
  }

  function AddressTold(e: Event, p: string): FederatedAddress {
    if e.Added? then e.address else FederatedAddress("coord", p, "")
  }

  function VersionTold(e: Event): nat {
    if e.Arrived? then e.sent.message.version else 0
  }

  function StatusTold(e: Event): PeerStatus {
    if e.Marked? then e.status else Alive
  }

  /** Some event taught the peer, and none since made the node forget it. */
  ghost predicate Knows(events: seq<Event>, d: string, p: string) {
    exists k | 0 <= k < |events| :: Teaches(events[k], d, p) && forall l | k < l < |events| :: !Forgets(events[l], d, p)
  }

  /** The last event to tell of the address, of the version, of the status. */
  ghost predicate LastTeaches(events: seq<Event>, k: nat, d: string, p: string) {
    k < |events| && Teaches(events[k], d, p) && forall l | k < l < |events| :: !Teaches(events[l], d, p)
  }

  ghost predicate LastDates(events: seq<Event>, k: nat, d: string, p: string) {
    k < |events| && Dates(events[k], d, p) && forall l | k < l < |events| :: !Dates(events[l], d, p)
  }

  ghost predicate LastMarks(events: seq<Event>, k: nat, d: string, p: string) {
    k < |events| && Marks(events[k], d, p) && forall l | k < l < |events| :: !Marks(events[l], d, p)
  }

  // ---------------------------------------------------------------- one event

  /** What arrives says truly and readably whom it is from. */
  ghost predicate Readable(e: Event) {
    e.Arrived? ==>
      e.sent.message.source == ToString(LocalAddress(e.sent.from)) && Writable(LocalAddress(e.sent.from))
  }

  lemma EventTells(n: Node, e: Event, p: string)
    requires e.domain == n.domain && Readable(e)
    ensures var (m, d) := (Performed(n, e), n.domain);
      && (p in m.peers <==> Teaches(e, d, p) || (p in n.peers && !Forgets(e, d, p)))
      && (p in m.peers ==>
            && m.peers[p].address == (if Teaches(e, d, p) then AddressTold(e, p) else n.peers[p].address)
            && m.peers[p].version == (if Dates(e, d, p) then VersionTold(e) else n.peers[p].version)
            && m.peers[p].status == (if Marks(e, d, p) then StatusTold(e) else n.peers[p].status))
  {
    if e.Arrived? { ParseIffPrint(e.sent.message.source, LocalAddress(e.sent.from)); }
  }

  // ---------------------------------------------------------------- whole runs

  ghost predicate AddressIs(events: seq<Event>, d: string, p: string, address: FederatedAddress) {
    exists k: nat :: LastTeaches(events, k, d, p) && address == AddressTold(events[k], p)
  }

  ghost predicate VersionIs(events: seq<Event>, d: string, p: string, version: nat) {
    exists k: nat :: LastDates(events, k, d, p) && version == VersionTold(events[k])
  }

  ghost predicate StatusIs(events: seq<Event>, d: string, p: string, status: PeerStatus) {
    exists k: nat :: LastMarks(events, k, d, p) && status == StatusTold(events[k])
  }

  /** The node's peers are what the events tell. */
  ghost predicate Told(n: Node, events: seq<Event>, d: string, p: string) {
    && (p in n.peers <==> Knows(events, d, p))
    && (p in n.peers ==>
          AddressIs(events, d, p, n.peers[p].address) && VersionIs(events, d, p, n.peers[p].version)
          && StatusIs(events, d, p, n.peers[p].status))
  }

  lemma KnowsNext(events: seq<Event>, e: Event, d: string, p: string)
    ensures Knows(events + [e], d, p) <==> Teaches(e, d, p) || (Knows(events, d, p) && !Forgets(e, d, p))
  {
    var longer := events + [e];
    if Knows(events, d, p) && !Forgets(e, d, p) {
      var k :| 0 <= k < |events| && Teaches(events[k], d, p) && forall l | k < l < |events| :: !Forgets(events[l], d, p);
      assert Teaches(longer[k], d, p) && forall l | k < l < |longer| :: !Forgets(longer[l], d, p);
    }
    if Teaches(e, d, p) { assert Teaches(longer[|events|], d, p); }
    if Knows(longer, d, p) && !Teaches(e, d, p) {
      var k :| 0 <= k < |longer| && Teaches(longer[k], d, p) && forall l | k < l < |longer| :: !Forgets(longer[l], d, p);
      assert k < |events| && Teaches(events[k], d, p) && longer[|events|] == e;
      assert forall l | k < l < |events| :: events[l] == longer[l];
    }
  }

  lemma TeachesNext(events: seq<Event>, e: Event, d: string, p: string, k: nat)
    ensures Teaches(e, d, p) ==> LastTeaches(events + [e], |events|, d, p)
    ensures !Teaches(e, d, p) && LastTeaches(events, k, d, p) ==> LastTeaches(events + [e], k, d, p)
  {
  }

  lemma DatesNext(events: seq<Event>, e: Event, d: string, p: string, k: nat)
    ensures Dates(e, d, p) ==> LastDates(events + [e], |events|, d, p)
    ensures !Dates(e, d, p) && LastDates(events, k, d, p) ==> LastDates(events + [e], k, d, p)
  {
  }

  lemma MarksNext(events: seq<Event>, e: Event, d: string, p: string, k: nat)
    ensures Marks(e, d, p) ==> LastMarks(events + [e], |events|, d, p)
    ensures !Marks(e, d, p) && LastMarks(events, k, d, p) ==> LastMarks(events + [e], k, d, p)
  {
  }

  lemma ToldNext(n: Node, m: Node, events: seq<Event>, e: Event, d: string, p: string)
    requires Told(n, events, d, p) && n.domain == d && Readable(e)
    requires m == if e.domain == d then Performed(n, e) else n
    ensures Told(m, events + [e], d, p)
  {
    KnowsNext(events, e, d, p);
    if e.domain == d { EventTells(n, e, p); }
    if p in m.peers {
      AddressNext(n, m, events, e, d, p);
      VersionNext(n, m, events, e, d, p);
      StatusNext(n, m, events, e, d, p);
    }
  }

  lemma AddressNext(n: Node, m: Node, events: seq<Event>, e: Event, d: string, p: string)
    requires p in m.peers && (!Teaches(e, d, p) ==> p in n.peers)
    requires p in n.peers ==> AddressIs(events, d, p, n.peers[p].address)
    requires m.peers[p].address == if Teaches(e, d, p) then AddressTold(e, p) else n.peers[p].address
    ensures AddressIs(events + [e], d, p, m.peers[p].address)
  {
    var longer := events + [e];
    if Teaches(e, d, p) {
      TeachesNext(events, e, d, p, 0);
      assert LastTeaches(longer, |events|, d, p) && longer[|events|] == e;
    } else {
      var k: nat :| LastTeaches(events, k, d, p) && n.peers[p].address == AddressTold(events[k], p);
      TeachesNext(events, e, d, p, k);
      assert LastTeaches(longer, k, d, p) && longer[k] == events[k];
    }
  }

  lemma VersionNext(n: Node, m: Node, events: seq<Event>, e: Event, d: string, p: string)
    requires p in m.peers && (!Dates(e, d, p) ==> p in n.peers)
    requires p in n.peers ==> VersionIs(events, d, p, n.peers[p].version)
    requires m.peers[p].version == if Dates(e, d, p) then VersionTold(e) else n.peers[p].version
    ensures VersionIs(events + [e], d, p, m.peers[p].version)
  {
    var longer := events + [e];
    if Dates(e, d, p) {
      DatesNext(events, e, d, p, 0);
      assert LastDates(longer, |events|, d, p) && longer[|events|] == e;
    } else {
      var k: nat :| LastDates(events, k, d, p) && n.peers[p].version == VersionTold(events[k]);
      DatesNext(events, e, d, p, k);
      assert LastDates(longer, k, d, p) && longer[k] == events[k];
    }
  }

  lemma StatusNext(n: Node, m: Node, events: seq<Event>, e: Event, d: string, p: string)
    requires p in m.peers && (!Marks(e, d, p) ==> p in n.peers)
    requires p in n.peers ==> StatusIs(events, d, p, n.peers[p].status)
    requires m.peers[p].status == if Marks(e, d, p) then StatusTold(e) else n.peers[p].status
    ensures StatusIs(events + [e], d, p, m.peers[p].status)
  {
    var longer := events + [e];
    if Marks(e, d, p) {
      MarksNext(events, e, d, p, 0);
      assert LastMarks(longer, |events|, d, p) && longer[|events|] == e;
    } else {
      var k: nat :| LastMarks(events, k, d, p) && n.peers[p].status == StatusTold(events[k]);
      MarksNext(events, e, d, p, k);
      assert LastMarks(longer, k, d, p) && longer[k] == events[k];
    }
  }

  lemma NodeNext(s: System, events: seq<Event>, front: seq<Event>, e: Event, d: string)
    requires Initial(s) && Proper(s, events) && events != []
    requires front == events[..|events| - 1] && e == events[|events| - 1] && d in Run(s, front).nodes
    ensures Readable(e) && d in Run(s, events).nodes
    ensures var n := Run(s, front).nodes[d];
            n.domain == d && Run(s, events).nodes[d] == if e.domain == d then Performed(n, e) else n
  {
    RunIsBounded(s, front);
    StepIsLocal(Run(s, front), e);
    assert e.Arrived? ==> BoundedSent(Run(s, front), e.sent);
  }

  /** In every run a node knows exactly the peers it was last told of, at the address, with the version and the status
      it was last told. */
  lemma {:induction false} PeersAreTold(s: System, events: seq<Event>, d: string, p: string)
    requires Initial(s) && Proper(s, events) && d in s.nodes
    ensures d in Run(s, events).nodes && Run(s, events).nodes[d].domain == d
    ensures Told(Run(s, events).nodes[d], events, d, p)
  {
    if events != [] {
      var front, e := events[..|events| - 1], events[|events| - 1];
      PeersAreTold(s, front, d, p);
      NodeNext(s, events, front, e, d);
      ToldNext(Run(s, front).nodes[d], Run(s, events).nodes[d], front, e, d, p);
      assert events == front + [e];
    }
  }
}
