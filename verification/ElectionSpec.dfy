// Leader election: the state of one node, what each handler does to it, and the
// steps of the whole cluster.
//
// The functions here are the specification of the imperative class in
// ClusterManager.dfy; ElectionSafety.dfy proves what every run of them keeps.
module ElectionSpec {
  import opened Wrappers

  type NodeId = nat

  // Terms are 64-bit counters.
  const TERM_LIMIT: nat := 0x1_0000_0000_0000_0000

  datatype Role = Follower | Candidate | Leader

  // The state file: what a node still knows after a crash.
  datatype Ballot = Ballot(term: nat, votedFor: Option<NodeId>)

  datatype Node = Node(
    id: NodeId,
    peers: map<NodeId, nat>,          // the other members, with the highest term heard from each
    term: nat,
    votedFor: Option<NodeId>,
    role: Role,
    electionTerm: nat,
    votesNeeded: nat,
    voters: set<NodeId>,
    electionWon: bool,
    leaderId: Option<NodeId>,
    leaderTerm: nat,
    disk: Ballot)

  datatype Message =
    | VoteRequest(candidate: NodeId, term: nat)
    | VoteResponse(voter: NodeId, term: nat, granted: bool)
    | Heartbeat(sender: NodeId, term: nat, role: Role)
    | NodeUpdate(about: NodeId, term: nat)

  datatype Packet = Packet(dst: NodeId, msg: Message)

  // A handler's effect: the new node and the packets handed to the transport.
  datatype Outcome = Outcome(node: Node, sent: set<Packet>)

  function ToAll(dsts: set<NodeId>, m: Message): set<Packet> {
    set d | d in dsts :: Packet(d, m)
  }

  // atomic.Uint64's Add(1) wraps around.
  function NextTerm(t: nat): nat {
    if t + 1 == TERM_LIMIT then 0 else t + 1
  }

  function Persisted(n: Node): Node {
    n.(disk := Ballot(n.term, n.votedFor))
  }

  // A node as NewClusterManager builds it, then loadState on the state file.
  function Restarted(id: NodeId, peers: set<NodeId>, disk: Ballot): Node {
    Node(id, map p | p in peers :: 0, disk.term, disk.votedFor, Follower, 0, 0, {}, false, None, 0, disk)
  }

  function Beat(n: Node): set<Packet> {
    ToAll(n.peers.Keys, Heartbeat(n.id, n.term, n.role))
  }

  function BecomeLeader(n: Node): Outcome {
    if n.electionWon then Outcome(n, {})
    else
      var won := n.(electionWon := true, role := Leader, leaderId := Some(n.id), leaderTerm := n.term);
      Outcome(won, Beat(won))
  }

  // A new term with a vote for oneself, on disk before anyone hears of it.
  function Campaign(n: Node): Node {
    var t := NextTerm(n.term);
    Node(n.id, n.peers, t, Some(n.id), Candidate, t, (|n.peers| + 1) / 2 + 1, {n.id}, false,
         n.leaderId, n.leaderTerm, Ballot(t, Some(n.id)))
  }

  // `failed` names the destinations whose send reported an error.
  function StartElection(n: Node, failed: set<NodeId>): Outcome {
    var c := Campaign(n);
    if |n.peers| + 1 == 1 then BecomeLeader(c)
    else
      var sent := ToAll(n.peers.Keys - failed, VoteRequest(n.id, c.term));
      if n.peers.Keys * failed != {} then Outcome(c.(role := Follower), sent) else Outcome(c, sent)
  }

  function OnVoteRequest(n: Node, candidate: NodeId, t: nat): Outcome {
    if t < n.term then
      Outcome(Persisted(n), {Packet(candidate, VoteResponse(n.id, n.term, false))})
    else
      var m := if t > n.term then n.(term := t, role := Follower, votedFor := None) else n;
      var granted := m.votedFor.None? || m.votedFor.value == candidate;
      var voted := if granted then m.(votedFor := Some(candidate)) else m;
      Outcome(Persisted(voted), {Packet(candidate, VoteResponse(n.id, t, granted))})
  }

  function OnVoteResponse(n: Node, voter: NodeId, t: nat, granted: bool): Outcome {
    if n.role != Candidate || t != n.electionTerm then Outcome(n, {})
    else if t > n.term then
      Outcome(Persisted(n.(term := t, role := Follower, votedFor := None)), {})
    else if !granted then Outcome(n, {})
    else
      var m := n.(voters := n.voters + {voter});
      if |m.voters| >= m.votesNeeded then BecomeLeader(m) else Outcome(m, {})
  }

  // The leader claim that handleHeartbeat logs as conflicting and ignores.
  predicate ConflictingClaim(n: Node, sender: NodeId, t: nat) {
    && n.leaderId.Some?
    && t <= n.leaderTerm
    && !(t == n.leaderTerm && n.leaderId.value == sender)
  }

  function OnHeartbeat(n: Node, sender: NodeId, t: nat, role: Role): Outcome {
    if sender !in n.peers then Outcome(n, {})
    else
      var heard := if t > n.peers[sender] then n.(peers := n.peers[sender := t]) else n;
      var m := if t > n.term then Persisted(heard.(term := t, role := Follower, votedFor := None)) else heard;
      if role == Leader && t >= m.term && !ConflictingClaim(m, sender, t)
      then Outcome(m.(leaderId := Some(sender), leaderTerm := t), {})
      else Outcome(m, {})
  }

  // A join request from a member already known: its record starts afresh, and the others are
  // told.  The response to the joining node is not part of this model.
  function OnRejoin(n: Node, about: NodeId): Outcome {
    if about !in n.peers then Outcome(n, {})
    else Outcome(n.(peers := n.peers[about := 0]), ToAll(n.peers.Keys - {about}, NodeUpdate(about, n.term)))
  }

  // The term rises in memory only: the vote, the role and the state file stay.
  function TermRaised(n: Node, t: nat): Node {
    if t > n.term then n.(term := t) else n
  }

  function OnNodeUpdate(n: Node, about: NodeId, t: nat): Outcome {
    var m := TermRaised(n, t);
    Outcome(if about in m.peers then m.(peers := m.peers[about := 0]) else m, {})
  }

  function Receive(n: Node, m: Message): Outcome {
    match m
    case VoteRequest(c, t) => OnVoteRequest(n, c, t)
    case VoteResponse(v, t, g) => OnVoteResponse(n, v, t, g)
    case Heartbeat(s, t, r) => OnHeartbeat(n, s, t, r)
    case NodeUpdate(a, t) => OnNodeUpdate(n, a, t)
  }

  /* The cluster */

  // A vote some node has durably cast.
  datatype Vote = Vote(voter: NodeId, term: nat, candidate: NodeId)

  // `net` holds every packet ever sent, so a packet may be delivered late, out of
  // order, many times or never.  `votes` is a history variable: no step reads it.
  datatype System = System(members: set<NodeId>, nodes: map<NodeId, Node>, net: set<Packet>, votes: set<Vote>)

  datatype Event =
    | Timeout(node: NodeId, failed: set<NodeId>)
    | Deliver(packet: Packet)
    | Tick(node: NodeId)
    | Rejoin(node: NodeId, about: NodeId)
    | Crash(node: NodeId)

  function Cast(n: Node): set<Vote> {
    if n.disk.votedFor.Some? then {Vote(n.id, n.disk.term, n.disk.votedFor.value)} else {}
  }

  function Install(s: System, i: NodeId, out: Outcome): System {
    s.(nodes := s.nodes[i := out.node], net := s.net + out.sent, votes := s.votes + Cast(out.node))
  }

  predicate WellFormed(s: System) {
    s.nodes.Keys == s.members
  }

  // Timeout carries the assumption that the term counter does not wrap.
  predicate Enabled(s: System, e: Event)
    requires WellFormed(s)
  {
    match e
    case Timeout(i, _) => i in s.members && s.nodes[i].role != Leader && s.nodes[i].term + 1 < TERM_LIMIT
    case Deliver(p) => p in s.net && p.dst in s.members
    case Tick(i) => i in s.members
    case Rejoin(i, about) => i in s.members && about in s.members - {i}
    case Crash(i) => i in s.members
  }

  function Effect(s: System, e: Event): Outcome
    requires WellFormed(s) && Enabled(s, e)
  {
    match e
    case Timeout(i, failed) => StartElection(s.nodes[i], failed)
    case Deliver(p) => Receive(s.nodes[p.dst], p.msg)
    case Tick(i) => Outcome(s.nodes[i], Beat(s.nodes[i]))
    case Rejoin(i, about) => OnRejoin(s.nodes[i], about)
    case Crash(i) => Outcome(Restarted(i, s.members - {i}, s.nodes[i].disk), {})
  }

  function Actor(e: Event): NodeId {
    match e
    case Timeout(i, _) => i
    case Deliver(p) => p.dst
    case Tick(i) => i
    case Rejoin(i, _) => i
    case Crash(i) => i
  }

  function Step(s: System, e: Event): System
    requires WellFormed(s) && Enabled(s, e)
  {
    Install(s, Actor(e), Effect(s, e))
  }

  predicate Init(s: System) {
    && WellFormed(s)
    && s.net == {} && s.votes == {}
    && forall i :: i in s.members ==> s.nodes[i] == Restarted(i, s.members - {i}, Ballot(0, None))
  }

  ghost predicate Execution(ss: seq<System>, es: seq<Event>) {
    && |ss| == |es| + 1
    && Init(ss[0])
    && forall k :: 0 <= k < |es| ==>
         WellFormed(ss[k]) && Enabled(ss[k], es[k]) && ss[k + 1] == Step(ss[k], es[k])
  }

  // The step raises the term of a candidate or a leader.
  predicate RaisesActive(s: System, e: Event)
    requires WellFormed(s) && Enabled(s, e)
  {
    e.Deliver? && e.packet.msg.NodeUpdate? &&
    e.packet.msg.term > s.nodes[e.packet.dst].term && s.nodes[e.packet.dst].role != Follower
  }

  // A run in which node updates raise the term of followers only.
  ghost predicate Guarded(ss: seq<System>, es: seq<Event>) {
    Execution(ss, es) && forall k :: 0 <= k < |es| ==> !RaisesActive(ss[k], es[k])
  }
}
