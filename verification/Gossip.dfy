/** The gossip service: one node's clock, vector and peers, updated in place. */
module Gossip {
  import opened Address
  import opened GossipSpec
  import opened GossipSystem
  import opened Strings
  import opened Wrappers

  class PeerState {
    const address: FederatedAddress
    var version: nat
    var status: PeerStatus

    constructor (address: FederatedAddress, version: nat)
      ensures this.address == address && AsPeer() == Peer(address, version, Alive)
    {
      this.address := address;
      this.version, status := version, Alive;
    }

    ghost function AsPeer(): Peer
      reads this
    {
      Peer(address, version, status)
    }
  }

  class GossipService {
    const localDomain: string
    const localAddress: FederatedAddress
    var peers: map<string, PeerState>
    var version: nat
    var versionVector: Vector

    /** Each peer sits under its own domain, so no two domains share an object. */
    ghost predicate Valid()
      reads this`peers
    {
      localAddress == LocalAddress(localDomain) && forall d <- peers :: peers[d].address.domain == d
    }

    ghost function PeerValues(): (r: map<string, Peer>)
      reads this`peers, peers.Values
      ensures r.Keys == peers.Keys
    {
      map d | d in peers :: peers[d].AsPeer()
    }

    ghost function Abs(): Node
      reads this, peers.Values
    {
      Node(localDomain, version, versionVector, PeerValues())
    }

    /** `address` is what the local domain's coordinator address parsed to. */
    constructor (localDomain: string, address: FederatedAddress)
      requires ParseAddress("coord@" + localDomain) == Success(address)
      ensures Valid() && Abs() == Node(localDomain, 0, map[], map[]) && Writable(LocalAddress(localDomain))
      ensures peers == map[]
    {
      this.localDomain := localDomain;
      localAddress := address;
      peers, version, versionVector := map[], 0, map[];
      new;
      ParseIffPrint("coord@" + localDomain, address);
      CoordinatorAddress(localDomain, address);
    }

    method IncrementVersion()
      modifies this`version, this`versionVector
      ensures version == old(version) + 1 && versionVector == old(versionVector)[localDomain := version]
    {
      version := version + 1;
      versionVector := versionVector[localDomain := version];
    }

    /** Puts a new peer under its domain. */
    method StorePeer(address: FederatedAddress, version: nat)
      requires Valid()
      modifies this`peers
      ensures Valid() && fresh(peers.Values - old(peers.Values))
      ensures PeerValues() == old(PeerValues())[address.domain := Peer(address, version, Alive)]
    {
      var peer := new PeerState(address, version);
      assert PeerValues() == old(PeerValues());
      peers := peers[address.domain := peer];
    }

    method AddPeer(address: FederatedAddress)
      requires Valid()
      modifies this
      ensures Valid() && Abs() == GossipSpec.AddPeer(old(Abs()), address)
      ensures fresh(peers.Values - old(peers.Values))
    {
      StorePeer(address, 0);
      IncrementVersion();
    }

    method RemovePeer(domain: string)
      requires Valid()
      modifies this
      ensures Valid() && Abs() == GossipSpec.RemovePeer(old(Abs()), domain)
      ensures fresh(peers.Values - old(peers.Values))
    {
      peers := peers - {domain};
      IncrementVersion();
      assert PeerValues() == old(PeerValues()) - {domain};
    }

    method UpdatePeerStatus(domain: string, status: PeerStatus)
      requires Valid()
      modifies peers.Values
      ensures Valid() && Abs() == SetStatus(old(Abs()), domain, status)
    {
      if domain in peers {
        var peer := peers[domain];
        peer.status := status;
      }
    }

    /** The version and all that is known of peers, visited in any order. */
    method PrepareGossipMessage() returns (m: Message)
      requires Valid()
      ensures m.source == ToString(LocalAddress(localDomain)) && m.version == version && m.payload.Heartbeat?
      ensures Speaks(Abs(), m.payload)
    {
      var knownPeers: seq<string> := [];
      var peerVersions: Vector := map[];
      var left := peers.Keys;
      while left != {}
        invariant left <= peers.Keys
        invariant forall d :: d in knownPeers <==> d in peers && d !in left
        invariant |knownPeers| + |left| == |peers|
        invariant peerVersions == VersionsBut(PeerValues(), left)
        decreases |left|
      {
        var domain :| domain in left;
        VersionsOfOne(PeerValues(), left, domain);
        left := left - {domain};
        knownPeers := knownPeers + [domain];
        peerVersions := peerVersions[domain := peers[domain].version];
      }
      return Message(ToString(localAddress), version, Heartbeat(knownPeers, peerVersions));
    }

    method ProcessGossipResponse(messages: seq<Message>, vector: Vector)
      requires Valid()
      modifies this, peers.Values
      ensures Valid() && Abs() == Responded(old(Abs()), messages, vector)
      ensures fresh(peers.Values - old(peers.Values))
    {
      ProcessMessages(messages);
      MergeVector(vector);
    }

    method ProcessMessages(messages: seq<Message>)
      requires Valid()
      modifies this, peers.Values
      ensures Valid() && Abs() == ReceivedAll(old(Abs()), messages)
      ensures fresh(peers.Values - old(peers.Values))
    {
      for i := 0 to |messages|
        modifies this, peers.Values
        invariant Valid() && Abs() == ReceivedAll(old(Abs()), messages[..i])
        invariant fresh(peers.Values - old(peers.Values))
      {
        assert messages[..i + 1][..i] == messages[..i];
        ProcessGossipMessage(messages[i]);
      }
      assert messages[..|messages|] == messages;
    }

    /** Raises entries to those of the other vector, in any order. */
    method MergeVector(vector: Vector)
      modifies this`versionVector
      ensures versionVector == Merge(old(versionVector), vector)
    {
      var left := vector.Keys;
      ghost var before := versionVector;
      MergeNone(before, vector);
      while left != {}
        modifies this`versionVector
        invariant left <= vector.Keys
        invariant versionVector == MergeBut(before, vector, left)
        decreases |left|
      {
        var domain :| domain in left;
        MergeOne(before, vector, left, domain);
        left := left - {domain};
        if vector[domain] > Entry(versionVector, domain) {
          versionVector := versionVector[domain := vector[domain]];
        }
      }
    }

    method ProcessGossipMessage(m: Message)
      requires Valid()
      modifies this, peers.Values
      ensures Valid() && Abs() == Received(old(Abs()), m)
      ensures fresh(peers.Values - old(peers.Values))
    {
      AdvanceClock(m.version);
      match m.payload
      case Join => HandleJoinMessage(m);
      case Heartbeat(_, _) => HandleHeartbeatMessage(m);
      case _ =>
    }

    /** Past the version received, and one more. */
    method AdvanceClock(received: nat)
      modifies this`version
      ensures version == Max(old(version), received) + 1
    {
      if received > version {
        version := received;
      }
      version := version + 1;
    }

    method HandleJoinMessage(m: Message)
      requires Valid()
      modifies this`peers
      ensures Valid() && Abs() == HandleJoin(old(Abs()), m)
      ensures fresh(peers.Values - old(peers.Values))
    {
      var addr := ParseAddress(m.source);
      if addr.Success? {
        StorePeer(addr.value, m.version);
      }
    }

    method HandleHeartbeatMessage(m: Message)
      requires Valid() && m.payload.Heartbeat?
      modifies this`versionVector, peers.Values
      ensures Valid() && Abs() == HandleHeartbeat(old(Abs()), m)
    {
      var addr := ParseAddress(m.source);
      if addr.Success? {
        RefreshPeer(addr.value.domain, m.version);
        NoteUnknown(m.payload.knownPeers);
      }
    }

    /** A message of a known peer sets its version and shows that it is alive. */
    method RefreshPeer(domain: string, version: nat)
      requires Valid()
      modifies peers.Values
      ensures Valid()
      ensures PeerValues() == if domain in peers
                              then old(PeerValues()[domain := PeerValues()[domain].(version := version, status := Alive)])
                              else old(PeerValues())
    {
      if domain in peers {
        var peer := peers[domain];
        peer.version := version;
        peer.status := Alive;
      }
    }

    method NoteUnknown(knownPeers: seq<string>)
      modifies this`versionVector
      ensures versionVector == ResetUnknown(old(versionVector), knownPeers, peers.Keys, localDomain)
    {
      for i := 0 to |knownPeers|
        modifies this`versionVector
        invariant versionVector == ResetUnknown(old(versionVector), knownPeers[..i], peers.Keys, localDomain)
      {
        ResetOne(old(versionVector), knownPeers, i, peers.Keys, localDomain);
        if knownPeers[i] !in peers && knownPeers[i] != localDomain {
          versionVector := versionVector[knownPeers[i] := 0];
        }
      }
      assert knownPeers[..|knownPeers|] == knownPeers;
    }
  }

  /** The versions of all peers but those in `left`. */
  function VersionsBut(peers: map<string, Peer>, left: set<string>): Vector {
    map d | d in peers && d !in left :: peers[d].version
  }

  lemma VersionsOfOne(peers: map<string, Peer>, left: set<string>, domain: string)
    requires domain in left && domain in peers
    ensures VersionsBut(peers, left - {domain}) == VersionsBut(peers, left)[domain := peers[domain].version]
  {
  }

  /** Performs what an event does at its node; sending leaves the node as it is. */
  method Perform(g: GossipService, e: Event)
    requires g.Valid()
    modifies g, g.peers.Values
    ensures g.Valid() && fresh(g.peers.Values - old(g.peers.Values))
    ensures g.Abs() == Performed(old(g.Abs()), e)
  {
    match e
    case Added(_, address) => g.AddPeer(address);
    case Removed(_, peer) => g.RemovePeer(peer);
    case Marked(_, peer, status) => g.UpdatePeerStatus(peer, status);
    case Arrived(_, sent) => g.ProcessGossipMessage(sent.message);
    case Merged(_, vector) => g.MergeVector(vector);
    case _ =>
  }

  /** One more event of a run changes the node it happens at alone. */
  lemma NextIsLocal(s: System, events: seq<Event>, front: seq<Event>, e: Event)
    requires Initial(s) && Proper(s, events) && events != []
    requires front == events[..|events| - 1] && e == events[|events| - 1]
    ensures Proper(s, front) && e.domain in Run(s, front).nodes
    ensures var nodes := Run(s, front).nodes; Run(s, events).nodes == nodes[e.domain := Performed(nodes[e.domain], e)]
  {
    RunIsBounded(s, front);
    StepIsLocal(Run(s, front), e);
  }

  /** A service that takes part in a run of the system ends as that run says of its node. */
  method PerformAll(localDomain: string, address: FederatedAddress, ghost s: System, events: seq<Event>)
    returns (g: GossipService)
    requires ParseAddress("coord@" + localDomain) == Success(address)
    requires Initial(s) && localDomain in s.nodes && Proper(s, events)
    ensures fresh(g) && fresh(g.peers.Values) && g.Valid()
    ensures localDomain in Run(s, events).nodes && g.Abs() == Run(s, events).nodes[localDomain]
  {
    if events == [] {
      g := new GossipService(localDomain, address);
    } else {
      var front, e := events[..|events| - 1], events[|events| - 1];
      g := PerformAll(localDomain, address, s, front);
      NextIsLocal(s, events, front, e);
      if e.domain == localDomain {
        Perform(g, e);
      }
    }
  }

  lemma CoordinatorAddress(domain: string, address: FederatedAddress)
    requires Writable(address) && "coord@" + domain == ToString(address)
    ensures address == LocalAddress(domain)
  {
    assert "coord@" + domain == "coord" + "@" + domain;
    FirstSeparator("coord", domain, address.GetIdentifier(), address.domain, '@');
    assert "coord"[0] == 'c';
  }
}
