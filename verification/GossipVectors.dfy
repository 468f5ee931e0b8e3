/** Who may speak for a domain: no vector is ahead of the domain's own entry in its own. */
module GossipVectors {
  import opened Address
  import opened GossipPeers
  import opened GossipSpec
  import opened GossipSystem
  import opened Wrappers

  /** The domain's entry in the vector of its own node. */
  function Own(s: System, d: string): nat {
    if d in s.nodes then Entry(s.nodes[d].vector, d) else 0
  }

  ghost predicate Follows(s: System, v: Vector) {
    forall d {:trigger Entry(v, d)} :: Entry(v, d) <= Own(s, d)
  }

  ghost predicate AllFollow(s: System) {
    && (forall d <- s.nodes :: Follows(s, s.nodes[d].vector))
    && (forall v <- s.vectors :: Follows(s, v))
  }

  /** Changing who a node's peers are sets its own entry to its clock. */
  predicate SetsOwn(e: Event, d: string) {
    e.domain == d && (e.Added? || e.Removed?)
  }

  /** One node changes, and its own entry grows with its clock or stays. */
  lemma ReplacedFollows(s: System, t: System, n: Node)
    requires AllFollow(s) && n.domain in s.nodes && t.nodes == s.nodes[n.domain := n] && t.vectors == s.vectors
    requires Own(s, n.domain) <= Entry(n.vector, n.domain)
    requires forall d {:trigger Entry(n.vector, d)} | d != n.domain :: Entry(n.vector, d) <= Own(s, d)
    ensures AllFollow(t)
  {
    forall d ensures Own(s, d) <= Own(t, d) {}
    forall v <- t.vectors ensures Follows(t, v) { LaterFollows(s, t, v); }
    forall d <- t.nodes ensures Follows(t, t.nodes[d].vector) {
      if d == n.domain {
        forall x ensures Entry(n.vector, x) <= Own(t, x) { assert x != n.domain ==> Own(s, x) == Own(t, x); }
      } else {
        LaterFollows(s, t, s.nodes[d].vector);
      }
    }
  }

  lemma LaterFollows(s: System, t: System, v: Vector)
    requires Follows(s, v) && forall d {:trigger Own(t, d)} :: Own(s, d) <= Own(t, d)
    ensures Follows(t, v)
  {
    forall d ensures Entry(v, d) <= Own(t, d) { assert Entry(v, d) <= Own(s, d); }
  }

  /** What an event does to the vector of its node. */
  lemma EventFollows(s: System, n: Node, e: Event)
    requires AllFollow(s) && Enabled(s, e) && n == s.nodes[e.domain] && n.domain == e.domain
    requires Own(s, e.domain) <= n.version
    ensures var m := Performed(n, e);
      && Entry(m.vector, n.domain) == (if SetsOwn(e, n.domain) then m.version else Own(s, n.domain))
      && Own(s, n.domain) <= Entry(m.vector, n.domain) <= m.version
      && forall d {:trigger Entry(m.vector, d)} | d != n.domain :: Entry(m.vector, d) <= Own(s, d)
  {
    var m := Performed(n, e);
    assert Follows(s, n.vector);
    forall d ensures Entry(m.vector, d) <= (if d == n.domain && SetsOwn(e, d) then m.version else Own(s, d))
             ensures d == n.domain && !SetsOwn(e, d) ==> Entry(m.vector, d) == Own(s, d)
    {
      assert Entry(n.vector, d) <= Own(s, d);
      if e.Merged? {
        assert Follows(s, e.vector) && Entry(e.vector, d) <= Own(s, d);
        MergeIsMax(n.vector, e.vector, d);
      } else if e.Arrived? {
        ReceivedEntry(n, e.sent.message, d);
      }
    }
  }

  lemma ReceivedEntry(n: Node, m: Message, d: string)
    ensures Entry(Received(n, m).vector, d) <= Entry(n.vector, d)
    ensures d == n.domain ==> Entry(Received(n, m).vector, d) == Entry(n.vector, d)
    ensures n.version <= Received(n, m).version
  {
  }

  // ---------------------------------------------------------------- whole runs

  /** What the own entry was last set to. */
  ghost function OwnTold(s: System, events: seq<Event>, d: string): nat
    requires Proper(s, events)
  {
    if events == [] then 0
    else if SetsOwn(events[|events| - 1], d) then Clock(Run(s, events), d)
    else OwnTold(s, events[..|events| - 1], d)
  }

  ghost predicate OwnIs(s: System, t: System, events: seq<Event>, d: string)
    requires Proper(s, events)
  {
    Own(t, d) == OwnTold(s, events, d) && Own(t, d) <= Clock(t, d)
  }

  /** In every run a node's own entry is its clock when it last changed who its peers are, and no vector, kept or
      published, has a greater entry for the domain. */
  lemma {:induction false} OwnEntryLeads(s: System, events: seq<Event>)
    requires Initial(s) && Proper(s, events)
    ensures AllFollow(Run(s, events)) && forall d :: OwnIs(s, Run(s, events), events, d)
  {
    if events == [] {
      forall d ensures OwnIs(s, s, events, d) {}
    } else {
      var front, e := events[..|events| - 1], events[|events| - 1];
      OwnEntryLeads(s, front);
      RunIsBounded(s, front);
      assert OwnIs(s, Run(s, front), front, e.domain);
      StepFollows(Run(s, front), e);
      forall d ensures OwnIs(s, Run(s, events), events, d) {
        assert OwnIs(s, Run(s, front), front, d);
        StepOwn(Run(s, front), e, d);
      }
    }
  }

  lemma StepFollows(s: System, e: Event)
    requires AllFollow(s) && Bounded(s) && Enabled(s, e) && Own(s, e.domain) <= Clock(s, e.domain)
    ensures AllFollow(Step(s, e))
  {
    var n := s.nodes[e.domain];
    StepIsLocal(s, e);
    EventFollows(s, n, e);
    var t := s.(nodes := s.nodes[e.domain := Performed(n, e)]);
    ReplacedFollows(s, t, Performed(n, e));
    WireFollows(t, Step(s, e), n);
  }

  lemma WireFollows(t: System, u: System, n: Node)
    requires AllFollow(t) && u.nodes == t.nodes
    requires u.vectors == t.vectors
             || (u.vectors == t.vectors + {n.vector} && n.domain in t.nodes && n == t.nodes[n.domain])
    ensures AllFollow(u)
  {
    forall v <- u.vectors ensures Follows(u, v) { SameFollows(t, u, v); }
    forall d <- u.nodes ensures Follows(u, u.nodes[d].vector) { SameFollows(t, u, u.nodes[d].vector); }
  }

  lemma SameFollows(t: System, u: System, v: Vector)
    requires u.nodes == t.nodes && Follows(t, v)
    ensures Follows(u, v)
  {
    forall d ensures Entry(v, d) <= Own(u, d) { assert Entry(v, d) <= Own(t, d); }
  }

  lemma StepOwn(s: System, e: Event, d: string)
    requires AllFollow(s) && Bounded(s) && Enabled(s, e) && Own(s, e.domain) <= Clock(s, e.domain)
    ensures Own(Step(s, e), d) == if SetsOwn(e, d) then Clock(Step(s, e), d) else Own(s, d)
    ensures Clock(s, d) <= Clock(Step(s, e), d)
  {
    StepIsLocal(s, e);
    StepIsLater(s, e);
    EventFollows(s, s.nodes[e.domain], e);
  }

  // ---------------------------------------------------------------- the entries of others

  /** A heartbeat names a domain that the node does not know. */
  ghost predicate Resets(before: seq<Event>, e: Event, d: string, p: string) {
    && e.domain == d && e.Arrived? && e.sent.message.payload.Heartbeat?
    && p in e.sent.message.payload.knownPeers && !Knows(before, d, p)
  }

  /** The greatest entry merged since the last reset. */
  ghost function EntryTold(events: seq<Event>, d: string, p: string): nat {
    if events == [] then 0
    else
      var (front, e) := (events[..|events| - 1], events[|events| - 1]);
      if Resets(front, e, d, p) then 0
      else if e.Merged? && e.domain == d then Max(EntryTold(front, d, p), Entry(e.vector, p))
      else EntryTold(front, d, p)
  }

  lemma EventSetsEntry(n: Node, e: Event, p: string)
    requires e.domain == n.domain && p != n.domain && Readable(e)
    ensures Entry(Performed(n, e).vector, p) ==
              if e.Arrived? && e.sent.message.payload.Heartbeat?
                 && p in e.sent.message.payload.knownPeers && p !in n.peers
              then 0
              else if e.Merged? then Max(Entry(n.vector, p), Entry(e.vector, p))
              else Entry(n.vector, p)
  {
    if e.Arrived? {
      ParseIffPrint(e.sent.message.source, LocalAddress(e.sent.from));
    } else if e.Merged? {
      MergeIsMax(n.vector, e.vector, p);
    }
  }

  /** In every run a node's entry for another domain is the greatest it merged since a heartbeat last named the domain
      without the node knowing it. */
  lemma {:induction false} EntriesAreTold(s: System, events: seq<Event>, d: string, p: string)
    requires Initial(s) && Proper(s, events) && d in s.nodes && p != d
    ensures d in Run(s, events).nodes && Entry(Run(s, events).nodes[d].vector, p) == EntryTold(events, d, p)
  {
    if events != [] {
      var front, e := events[..|events| - 1], events[|events| - 1];
      EntriesAreTold(s, front, d, p);
      PeersAreTold(s, front, d, p);
      NodeNext(s, events, front, e, d);
      if e.domain == d { EventSetsEntry(Run(s, front).nodes[d], e, p); }
    }
  }
}
