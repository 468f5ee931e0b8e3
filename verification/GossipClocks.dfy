/** What the value of a tick says exactly: how many ticks the longest way to it passes. */
module GossipClocks {
  import opened GossipSpec
  import opened GossipSystem
  import opened Wrappers

  /** The value was reached by a tick of the domain, among the first `n`; zero needs none. */
  ghost predicate Reached(ticks: seq<Tick>, n: nat, domain: string, value: nat) {
    value == 0 || exists a: nat :: ReachedBy(ticks, n, domain, value, a)
  }

  predicate ReachedBy(ticks: seq<Tick>, n: nat, domain: string, value: nat, a: nat) {
    a < n <= |ticks| && ticks[a].domain == domain && ticks[a].value == value
  }

  /** A tick comes one after some tick directly before it, or it is a first one. */
  ghost predicate TightAt(ticks: seq<Tick>, b: nat)
    requires b < |ticks|
  {
    ticks[b].value == 1 || exists a: nat :: StepsTo(ticks, a, b)
  }

  predicate StepsTo(ticks: seq<Tick>, a: nat, b: nat) {
    a < b < |ticks| && Directly(ticks, a, b) && ticks[a].value + 1 == ticks[b].value
  }

  ghost predicate Tight(s: System) {
    && (forall d <- s.nodes :: s.nodes[d].domain == d && Reached(s.ticks, |s.ticks|, d, s.nodes[d].version))
    && (forall m <- s.messages ::
          m.ticksBefore <= |s.ticks| && Reached(s.ticks, m.ticksBefore, m.from, m.message.version))
    && (forall b: nat | b < |s.ticks| :: TightAt(s.ticks, b))
  }

  lemma ReachedLater(ticks: seq<Tick>, t: Tick, n: nat, domain: string, value: nat)
    requires n <= |ticks| && Reached(ticks, n, domain, value)
    ensures Reached(ticks + [t], n, domain, value) && Reached(ticks + [t], n + 1, domain, value)
  {
    if value != 0 {
      var a: nat :| ReachedBy(ticks, n, domain, value, a);
      assert ReachedBy(ticks + [t], n, domain, value, a) && ReachedBy(ticks + [t], n + 1, domain, value, a);
    }
  }

  lemma TightLater(ticks: seq<Tick>, t: Tick, b: nat)
    requires b < |ticks| && TightAt(ticks, b)
    ensures TightAt(ticks + [t], b)
  {
    if ticks[b].value != 1 {
      var a: nat :| StepsTo(ticks, a, b);
      assert StepsTo(ticks + [t], a, b);
    }
  }

  /** A new tick is one past its node's clock and past the message it handles. */
  predicate IsNext(version: nat, t: Tick) {
    t.value == 1 + if t.cause.Some? then Max(version, t.cause.value.message.version) else version
  }

  lemma NewTickIsTight(ticks: seq<Tick>, t: Tick, version: nat)
    requires IsNext(version, t) && Reached(ticks, |ticks|, t.domain, version)
    requires t.cause.Some? ==>
               var m := t.cause.value;
               m.ticksBefore <= |ticks| && Reached(ticks, m.ticksBefore, m.from, m.message.version)
    ensures TightAt(ticks + [t], |ticks|)
  {
    var b := |ticks|;
    if t.value == version + 1 && version != 0 {
      var a: nat :| ReachedBy(ticks, b, t.domain, version, a);
      assert StepsTo(ticks + [t], a, b);
    } else if t.value != 1 {
      var m := t.cause.value;
      var a: nat :| ReachedBy(ticks, m.ticksBefore, m.from, m.message.version, a);
      assert StepsTo(ticks + [t], a, b);
    }
  }

  lemma TickIsTight(s: System, node: Node, cause: Option<Sent>)
    requires Tight(s) && node.domain in s.nodes && (cause.Some? ==> cause.value in s.messages)
    requires IsNext(s.nodes[node.domain].version, Tick(node.domain, node.version, cause))
    ensures Tight(Ticked(s, node, cause))
  {
    var t, tick := Ticked(s, node, cause), Tick(node.domain, node.version, cause);
    NewTickIsTight(s.ticks, tick, s.nodes[node.domain].version);
    forall b: nat | b < |t.ticks| ensures TightAt(t.ticks, b) {
      if b < |s.ticks| { TightLater(s.ticks, tick, b); }
    }
    forall m <- t.messages ensures Reached(t.ticks, m.ticksBefore, m.from, m.message.version) {
      ReachedLater(s.ticks, tick, m.ticksBefore, m.from, m.message.version);
    }
    forall d <- t.nodes ensures t.nodes[d].domain == d && Reached(t.ticks, |t.ticks|, d, t.nodes[d].version) {
      if d == node.domain {
        assert ReachedBy(t.ticks, |t.ticks|, d, node.version, |s.ticks|);
      } else {
        ReachedLater(s.ticks, tick, |s.ticks|, d, s.nodes[d].version);
      }
    }
  }

  lemma StepIsTight(s: System, e: Event)
    requires Tight(s) && Enabled(s, e)
    ensures Tight(Step(s, e))
  {
    var n := s.nodes[e.domain];
    match e
    case Added(_, address) => TickIsTight(s, AddPeer(n, address), None);
    case Removed(_, peer) => TickIsTight(s, RemovePeer(n, peer), None);
    case Arrived(_, sent) => TickIsTight(s, Received(n, sent.message), Some(sent));
    case Wrote(_, _) =>
    case _ =>
  }

  lemma {:induction false} RunIsTight(s: System, events: seq<Event>)
    requires Initial(s) && Proper(s, events)
    ensures Tight(Run(s, events))
  {
    if events != [] {
      RunIsTight(s, events[..|events| - 1]);
      StepIsTight(Run(s, events[..|events| - 1]), events[|events| - 1]);
    }
  }

  // ---------------------------------------------------------------- chains of ticks

  /** Ticks in order, each directly before the next, and `b` the last. */
  predicate Chain(ticks: seq<Tick>, c: seq<nat>, b: nat) {
    && c != [] && c[|c| - 1] == b && (forall i | 0 <= i < |c| :: c[i] < |ticks|)
    && forall i | 0 <= i < |c| - 1 :: c[i] < c[i + 1] && Directly(ticks, c[i], c[i + 1])
  }

  lemma ChainFront(ticks: seq<Tick>, c: seq<nat>, b: nat)
    requires Chain(ticks, c, b) && |c| > 1
    ensures var a := c[|c| - 2]; Chain(ticks, c[..|c| - 1], a) && a < b < |ticks| && Directly(ticks, a, b)
  {
    var k := |c| - 2;
    assert c[k] < c[k + 1] && Directly(ticks, c[k], c[k + 1]);
  }

  lemma {:induction false} ChainsAreShort(s: System, c: seq<nat>, b: nat)
    requires Traced(s) && Tight(s) && Chain(s.ticks, c, b)
    ensures |c| <= s.ticks[b].value
    decreases |c|
  {
    if |c| > 1 {
      ChainFront(s.ticks, c, b);
      ChainsAreShort(s, c[..|c| - 1], c[|c| - 2]);
      ClockCondition(s, c[|c| - 2], b);
    } else {
      assert TightAt(s.ticks, b);
    }
  }

  lemma {:induction false} SomeChainIsLong(s: System, b: nat) returns (c: seq<nat>)
    requires Tight(s) && b < |s.ticks|
    ensures Chain(s.ticks, c, b) && |c| == s.ticks[b].value
    decreases b
  {
    assert TightAt(s.ticks, b);
    if s.ticks[b].value == 1 {
      c := [b];
    } else {
      var a: nat :| StepsTo(s.ticks, a, b);
      var front := SomeChainIsLong(s, a);
      c := front + [b];
    }
  }

  /** In every run the value of a tick is the length of the longest chain of ticks that leads to it. */
  lemma ValueIsLongestChain(s: System, events: seq<Event>, b: nat)
    requires Initial(s) && Proper(s, events) && b < |Run(s, events).ticks|
    ensures var ticks := Run(s, events).ticks;
            && (exists c :: Chain(ticks, c, b) && |c| == ticks[b].value)
            && (forall c | Chain(ticks, c, b) :: |c| <= ticks[b].value)
  {
    var t := Run(s, events);
    RunIsTraced(s, events);
    RunIsTight(s, events);
    var longest := SomeChainIsLong(t, b);
    forall c | Chain(t.ticks, c, b) ensures |c| <= t.ticks[b].value { ChainsAreShort(t, c, b); }
  }

  /** And a node's clock is the value of its last tick. */
  lemma ClockIsLastTick(s: System, events: seq<Event>, d: string)
    requires Initial(s) && Proper(s, events) && d in s.nodes
    ensures var t := Run(s, events);
            && Reached(t.ticks, |t.ticks|, d, Clock(t, d))
            && forall a | 0 <= a < |t.ticks| && t.ticks[a].domain == d :: t.ticks[a].value <= Clock(t, d)
  {
    RunIsTraced(s, events);
    RunIsTight(s, events);
    SameDomains(s, events);
  }

  lemma {:induction false} SameDomains(s: System, events: seq<Event>)
    requires Initial(s) && Proper(s, events)
    ensures Run(s, events).nodes.Keys == s.nodes.Keys
  {
    if events != [] {
      var front := events[..|events| - 1];
      SameDomains(s, front);
      RunIsTight(s, front);
      StepIsLater(Run(s, front), events[|events| - 1]);
    }
  }
}
