/** One gossip node as a value: Lamport clock, version vector, peers. */
module GossipSpec {
  import opened Address
  import opened Wrappers

  datatype PeerStatus = Alive | Suspected | Dead

  datatype Peer = Peer(address: FederatedAddress, version: nat, status: PeerStatus)

  type Vector = map<string, nat>

  /** What a message carries; `Malformed` when type and payload do not fit. */
  datatype Payload =
    | Join
    | Heartbeat(knownPeers: seq<string>, peerVersions: Vector)
    | Update
    | Sync(haveVersions: Vector)
    | Malformed

  datatype Message = Message(source: string, version: nat, payload: Payload)

  datatype Node = Node(domain: string, version: nat, vector: Vector, peers: map<string, Peer>)

  function LocalAddress(domain: string): FederatedAddress {
    FederatedAddress("coord", domain, "")
  }

  function Entry(v: Vector, domain: string): nat {
    if domain in v then v[domain] else 0
  }

  // ---------------------------------------------------------------- steps of one node

  /** One tick of the clock, recorded in the node's own entry. */
  function Increment(n: Node): Node {
    n.(version := n.version + 1, vector := n.vector[n.domain := n.version + 1])
  }

  function AddPeer(n: Node, address: FederatedAddress): Node {
    Increment(n.(peers := n.peers[address.domain := Peer(address, 0, Alive)]))
  }

  function RemovePeer(n: Node, domain: string): Node {
    Increment(n.(peers := n.peers - {domain}))
  }

  function SetStatus(n: Node, domain: string, status: PeerStatus): Node {
    if domain in n.peers then n.(peers := n.peers[domain := n.peers[domain].(status := status)]) else n
  }

  function Max(a: nat, b: nat): nat {
    if a > b then a else b
  }

  function HandleJoin(n: Node, m: Message): Node {
    var a := ParseAddress(m.source);
    if a.Failure? then n
    else n.(peers := n.peers[a.value.domain := Peer(a.value, m.version, Alive)])
  }

  /** Peers of the sender that this node, `self`, does not know get entry zero, whatever it was. */
  function ResetUnknown(v: Vector, known: seq<string>, peers: set<string>, self: string): Vector {
    v + Zeros(known, peers, self)
  }

  function Zeros(known: seq<string>, peers: set<string>, self: string): Vector {
    map d | d in known && d !in peers && d != self :: 0
  }

  function HandleHeartbeat(n: Node, m: Message): Node
    requires m.payload.Heartbeat?
  {
    var a := ParseAddress(m.source);
    if a.Failure? then n
    else
      var d := a.value.domain;
      var peers := if d in n.peers then n.peers[d := n.peers[d].(version := m.version, status := Alive)] else n.peers;
      n.(peers := peers, vector := ResetUnknown(n.vector, m.payload.knownPeers, n.peers.Keys, n.domain))
  }

  /** The versions a node sends are its own: of its peers in a heartbeat, its vector in a sync. */
  predicate Speaks(n: Node, payload: Payload) {
    match payload
    case Heartbeat(known, versions) =>
      (forall d <- known :: d in n.peers) && (forall d <- n.peers :: d in known) && |known| == |n.peers|
      && versions == map d | d in n.peers :: n.peers[d].version
    case Sync(have) => have == n.vector
    case _ => true
  }

  /** The versions in a payload. */
  function Carried(payload: Payload): Vector {
    match payload
    case Heartbeat(_, versions) => versions
    case Sync(have) => have
    case _ => map[]
  }

  /** Past the message's version, and one more. */
  function Received(n: Node, m: Message): Node {
    var ticked := n.(version := Max(n.version, m.version) + 1);
    match m.payload
    case Join => HandleJoin(ticked, m)
    case Heartbeat(_, _) => HandleHeartbeat(ticked, m)
    case _ => ticked
  }

  function ReceivedAll(n: Node, ms: seq<Message>): Node {
    if ms == [] then n else Received(ReceivedAll(n, ms[..|ms| - 1]), ms[|ms| - 1])
  }

  /** Entrywise maximum; an entry the other does not have counts as zero, and zero makes no new entry. */
  function Merge(v: Vector, other: Vector): Vector {
    MergeBut(v, other, {})
  }

  /** The merge of those entries of `other` that are not in `left`. */
  function MergeBut(v: Vector, other: Vector, left: set<string>): Vector {
    map d | d in v.Keys + other.Keys && (d in v || (d !in left && other[d] > 0)) ::
      if d in left then v[d] else Max(Entry(v, d), Entry(other, d))
  }

  function Responded(n: Node, ms: seq<Message>, vector: Vector): Node {
    var r := ReceivedAll(n, ms);
    r.(vector := Merge(r.vector, vector))
  }

  // ---------------------------------------------------------------- what one step keeps

  lemma ResetOne(v: Vector, known: seq<string>, i: nat, peers: set<string>, self: string)
    requires i < |known|
    ensures var w := ResetUnknown(v, known[..i], peers, self);
            ResetUnknown(v, known[..i + 1], peers, self)
            == if known[i] !in peers && known[i] != self then w[known[i] := 0] else w
  {
    var z, z' := Zeros(known[..i], peers, self), Zeros(known[..i + 1], peers, self);
    assert known[..i + 1] == known[..i] + [known[i]];
    assert z' == if known[i] !in peers && known[i] != self then z[known[i] := 0] else z;
  }

  lemma MergeNone(v: Vector, other: Vector)
    ensures MergeBut(v, other, other.Keys) == v
  {
  }

  lemma MergeOne(v: Vector, other: Vector, left: set<string>, d: string)
    requires d in left && d in other
    ensures var w := MergeBut(v, other, left);
            MergeBut(v, other, left - {d}) == if other[d] > Entry(w, d) then w[d := other[d]] else w
  {
    var w, w' := MergeBut(v, other, left), MergeBut(v, other, left - {d});
    assert Entry(w, d) == Entry(v, d);
    assert forall x | x != d :: (x in w <==> x in w') && (x in w ==> w[x] == w'[x]);
  }

  lemma MergeIsMax(v: Vector, other: Vector, d: string)
    ensures Entry(Merge(v, other), d) == Max(Entry(v, d), Entry(other, d))
  {
  }

  /** The vector does not lose anything it knew. */
  ghost predicate Grows(v: Vector, v': Vector) {
    forall d {:trigger Entry(v', d)} :: Entry(v, d) <= Entry(v', d)
  }

  /** Handling a message lowers a vector entry exactly when a readable heartbeat names a peer that
      this node does not know and has a positive entry for. */
  lemma VectorGrowsIff(n: Node, m: Message)
    ensures Grows(n.vector, Received(n, m).vector) <==>
              (m.payload.Heartbeat? && ParseAddress(m.source).Success? ==>
                 forall d <- m.payload.knownPeers :: d in n.peers || d == n.domain || Entry(n.vector, d) == 0)
  {
    var r := Received(n, m);
    if m.payload.Heartbeat? && ParseAddress(m.source).Success? {
      forall d ensures Entry(r.vector, d) ==
                         if d in m.payload.knownPeers && d !in n.peers && d != n.domain then 0 else Entry(n.vector, d)
      {
      }
    }
  }

  /** A join or a heartbeat whose sender is of the domain. */
  predicate IsFrom(m: Message, domain: string) {
    var a := ParseAddress(m.source);
    (m.payload.Heartbeat? || m.payload.Join?) && a.Success? && a.value.domain == domain
  }

  /** A heartbeat overwrites the version stored for its sender, older or not: the stored version goes
      back exactly when a known sender's message is older than what is stored. */
  lemma PeerVersionGrowsIff(n: Node, m: Message, d: string)
    requires d in n.peers
    ensures d in Received(n, m).peers
    ensures n.peers[d].version <= Received(n, m).peers[d].version <==> (IsFrom(m, d) ==> n.peers[d].version <= m.version)
  {
  }
}
