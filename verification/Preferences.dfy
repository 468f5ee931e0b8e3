/** Which of two nodes hybrid placement prefers, field by field, and when it takes the other all the same. */
module Preferences {
  import opened HybridSelection
  import opened PlacementSpec
  import opened Sequences

  // ---------------------------------------------------------------- one node better than another

  predicate Healthier(a: Health, b: Health) {
    (a.Healthy? && !b.Healthy?) || (a.Degraded? && b.Unhealthy?)
  }

  /** In no respect is `a` worse than `b`: share of space free, latency up to a second, bandwidth, health, load and,
      if that counts, locality. */
  predicate AsGood(localFirst: bool, a: NodeInfo, b: NodeInfo) {
    && a.available * b.capacity >= b.available * a.capacity
    && (a.latency <= b.latency || b.latency >= SECOND)
    && a.bandwidth >= b.bandwidth
    && !Healthier(b.health, a.health)
    && a.loadScore <= b.loadScore
    && (localFirst && b.isLocal ==> a.isLocal)
  }

  /** And in some respect better. */
  predicate Better(localFirst: bool, a: NodeInfo, b: NodeInfo) {
    && a.capacity > 0 && b.capacity > 0 && AsGood(localFirst, a, b)
    && (|| a.available * b.capacity > b.available * a.capacity
        || (a.latency < b.latency && a.latency < SECOND)
        || a.bandwidth > b.bandwidth
        || Healthier(a.health, b.health)
        || a.loadScore < b.loadScore
        || (localFirst && a.isLocal && !b.isLocal))
  }

  lemma ShareGrows(x: int, c: int, y: int, d: int)
    requires c > 0 && d > 0
    ensures x * d >= y * c ==> x as real / c as real >= y as real / d as real
    ensures x * d > y * c ==> x as real / c as real > y as real / d as real
  {
    var (p, q) := (x as real / c as real, y as real / d as real);
    assert p * c as real == x as real && q * d as real == y as real;
    assert p * c as real * d as real == (x * d) as real && q * d as real * c as real == (y * c) as real;
    var e := c as real * d as real;
    assert e > 0.0 && p * e == (x * d) as real && q * e == (y * c) as real;
    if p < q { assert p * e < q * e; }
    if p <= q { assert p * e <= q * e; }
  }

  /** What latency adds to a score. */
  function Promptness(latency: int): real {
    if 1.0 - latency as real / SECOND as real < 0.0 then 0.0 else 1.0 - latency as real / SECOND as real
  }

  lemma PromptnessFalls(a: int, b: int)
    ensures a <= b || b >= SECOND ==> Promptness(a) >= Promptness(b)
    ensures a < b && a < SECOND ==> Promptness(a) > Promptness(b)
  {
    ShareGrows(b, SECOND, a, SECOND);
    ShareGrows(SECOND, SECOND, a, SECOND);
    ShareGrows(b, SECOND, SECOND, SECOND);
  }

  /** A better node has the higher score. */
  lemma BetterScores(localFirst: bool, a: NodeInfo, b: NodeInfo)
    requires a.capacity > 0 && b.capacity > 0 && AsGood(localFirst, a, b)
    ensures HybridScore(localFirst, a) >= HybridScore(localFirst, b)
    ensures Better(localFirst, a, b) ==> HybridScore(localFirst, a) > HybridScore(localFirst, b)
  {
    ShareGrows(a.available, a.capacity, b.available, b.capacity);
    PromptnessFalls(a.latency, b.latency);
  }

  /** The share of its space that `m` has free and `n`, of the same size, has not. */
  function MoreFree(n: NodeInfo, m: NodeInfo): real
    requires n.capacity == m.capacity && n.capacity != 0
  {
    (m.available - n.available) as real / n.capacity as real
  }

  lemma SharesDiffer(n: NodeInfo, m: NodeInfo)
    requires n.capacity == m.capacity && n.capacity != 0
    ensures m.available as real / m.capacity as real - n.available as real / n.capacity as real == MoreFree(n, m)
  {
    var c := n.capacity as real;
    var (p, q, r) := (m.available as real / c, n.available as real / c, MoreFree(n, m));
    assert p * c == m.available as real && q * c == n.available as real && r * c == p * c - q * c;
    assert (p - q - r) * c == 0.0;
  }

  /** What each advantage is worth in free space: `n`, otherwise like `m` and with less space free, stands first exactly
      when it has more than three times that share less load, or is better by more than six times it in steps of
      health, or by more than twice it in seconds below one or in gibibytes per second, or when the share is
      below two thirds and `n` alone is local. */
  lemma Rates(localFirst: bool, n: NodeInfo, m: NodeInfo)
    requires n.capacity == m.capacity && n.capacity != 0
    ensures var (before, more) := (HybridScore(localFirst, n) > HybridScore(localFirst, m), MoreFree(n, m));
      && (m == n.(available := m.available, loadScore := m.loadScore) ==>
            (before <==> m.loadScore - n.loadScore > 3.0 * more))
      && (m == n.(available := m.available, health := m.health) ==>
            (before <==> (HealthRank(m.health) - HealthRank(n.health)) as real > 6.0 * more))
      && (m == n.(available := m.available, latency := m.latency) && n.latency <= SECOND && m.latency <= SECOND ==>
            (before <==> (m.latency - n.latency) as real / SECOND as real > 2.0 * more))
      && (m == n.(available := m.available, bandwidth := m.bandwidth) ==>
            (before <==> (n.bandwidth - m.bandwidth) as real / 1073741824.0 > 2.0 * more))
      && (m == n.(available := m.available, isLocal := false) && localFirst && n.isLocal ==>
            (before <==> 3.0 * more < 2.0))
  {
    SharesDiffer(n, m);
  }

  // ---------------------------------------------------------------- the nodes left out

  /** Before position `k`, while fewer than half of `count` were chosen, two of the member were. */
  predicate PassedOver(picks: seq<NodeInfo>, k: nat, count: nat, member: string) {
    exists i, j | 0 <= i < j < |picks| ::
      j < k && j + 1 < count / 2 && picks[i].memberDomain == member && picks[j].memberDomain == member
  }

  lemma {:induction false} OneOf(s: seq<NodeInfo>, member: string) returns (i: nat)
    requires CountMember(s, member) >= 1
    ensures i < |s| && s[i].memberDomain == member
  {
    i := |s| - 1;
    if s[i].memberDomain != member { i := OneOf(s[..i], member); }
  }

  lemma {:induction false} TwoOf(s: seq<NodeInfo>, member: string) returns (i: nat, j: nat)
    requires CountMember(s, member) >= 2
    ensures i < j < |s| && s[i].memberDomain == member && s[j].memberDomain == member
  {
    j := |s| - 1;
    if s[j].memberDomain == member {
      i := OneOf(s[..j], member);
    } else {
      i, j := TwoOf(s[..j], member);
    }
  }

  /** A node looked at and not chosen came too late, or was passed over. */
  lemma {:induction false} NotChosen(ranked: seq<NodeInfo>, count: nat, b: NodeInfo)
    requires b in ranked && b !in HybridPicks(ranked, count)
    ensures var picks := HybridPicks(ranked, count);
            |picks| >= count || PassedOver(picks, |picks|, count, b.memberDomain)
  {
    var rest, n := ranked[..|ranked| - 1], ranked[|ranked| - 1];
    var front, picks := HybridPicks(rest, count), HybridPicks(ranked, count);
    assert ranked == rest + [n];
    if b in rest && b !in front {
      NotChosen(rest, count, b);
      if |front| < count {
        var i, j :| 0 <= i < j < |front| && j < |front| && j + 1 < count / 2
                    && front[i].memberDomain == b.memberDomain && front[j].memberDomain == b.memberDomain;
        assert picks[i] == front[i] && picks[j] == front[j];
      }
    } else if |front| < count {
      assert b == n && Skips(front, n, count);
      var i, j := TwoOf(front, n.memberDomain);
      assert picks == front;
    }
  }

  /** Whenever a node left out is better than the one chosen `k`th, it was passed over as a third of its member. */
  lemma {:induction false} BetterWasPassedOver(ranked: seq<NodeInfo>, count: nat, localFirst: bool, k: nat, b: NodeInfo)
    requires Measurable(ranked) && Ranked(ranked, localFirst) && k < |HybridPicks(ranked, count)|
    requires b in ranked && b !in HybridPicks(ranked, count)
    requires Better(localFirst, b, HybridPicks(ranked, count)[k])
    ensures PassedOver(HybridPicks(ranked, count), k, count, b.memberDomain)
  {
    var rest, n := ranked[..|ranked| - 1], ranked[|ranked| - 1];
    var front, picks := HybridPicks(rest, count), HybridPicks(ranked, count);
    PicksNext(ranked, count, front, picks);
    if b in rest {
      if k < |front| {
        assert picks[k] == front[k];
        BetterWasPassedOver(rest, count, localFirst, k, b);
        PassedOverStays(front, picks, k, count, b.memberDomain);
      } else {
        NotChosen(rest, count, b);
        PassedOverStays(front, picks, |front|, count, b.memberDomain);
      }
    } else {
      LastIsNotBetter(ranked, count, localFirst, k);
    }
  }

  lemma PicksNext(ranked: seq<NodeInfo>, count: nat, front: seq<NodeInfo>, picks: seq<NodeInfo>)
    requires ranked != [] && front == HybridPicks(ranked[..|ranked| - 1], count) && picks == HybridPicks(ranked, count)
    ensures picks == front || (picks == front + [ranked[|ranked| - 1]] && |front| < count)
    ensures forall b :: b in ranked <==> b in ranked[..|ranked| - 1] || b == ranked[|ranked| - 1]
  {
    assert ranked == ranked[..|ranked| - 1] + [ranked[|ranked| - 1]];
  }

  lemma PassedOverStays(front: seq<NodeInfo>, picks: seq<NodeInfo>, k: nat, count: nat, member: string)
    requires front <= picks && PassedOver(front, k, count, member)
    ensures PassedOver(picks, k, count, member)
  {
    var i, j :| 0 <= i < j < |front| && j < k && j + 1 < count / 2
                && front[i].memberDomain == member && front[j].memberDomain == member;
    assert picks[i] == front[i] && picks[j] == front[j];
  }

  lemma LastIsNotBetter(ranked: seq<NodeInfo>, count: nat, localFirst: bool, k: nat)
    requires Measurable(ranked) && Ranked(ranked, localFirst) && k < |HybridPicks(ranked, count)|
    ensures !Better(localFirst, ranked[|ranked| - 1], HybridPicks(ranked, count)[k])
  {
    PicksAreOffered(ranked, count);
    assert HybridPicks(ranked, count)[k] in ranked;
    var i :| 0 <= i < |ranked| && ranked[i] == HybridPicks(ranked, count)[k];
    EarlierIsNoWorse(ranked, localFirst, i, |ranked| - 1);
  }

  /** A better node stands earlier. */
  lemma EarlierIsNoWorse(ranked: seq<NodeInfo>, localFirst: bool, i: nat, j: nat)
    requires Measurable(ranked) && Ranked(ranked, localFirst) && i <= j < |ranked|
    ensures !Better(localFirst, ranked[j], ranked[i])
  {
    if i < j { NotBetter(localFirst, ranked[i], ranked[j]); }
  }

  lemma NotBetter(localFirst: bool, a: NodeInfo, b: NodeInfo)
    requires a.capacity != 0 && b.capacity != 0 && HybridScore(localFirst, a) >= HybridScore(localFirst, b)
    ensures !Better(localFirst, b, a)
  {
    if a.capacity > 0 && b.capacity > 0 && AsGood(localFirst, b, a) { BetterScores(localFirst, b, a); }
  }
}
