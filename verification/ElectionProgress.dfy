// What every step of a run does to a node's term, role, vote, recorded leader and peers, and to
// the packets in flight.
module ElectionProgress {
  import opened Wrappers
  import opened ElectionSpec
  import opened ElectionSafety

  /* One step, one node */

  // What a step leaves of node i: its effect there, or the node as it was.
  lemma StepAt(ss: seq<System>, es: seq<Event>, k: nat, i: NodeId)
    requires Guarded(ss, es) && k < |es| && i in ss[k].nodes
    ensures i in ss[k + 1].nodes && Inv(ss[k]) && NodeInv(ss[k].members, ss[k].votes, i, ss[k].nodes[i])
    ensures ss[k + 1].nodes[i] == if i == Actor(es[k]) then Effect(ss[k], es[k]).node else ss[k].nodes[i]
  {
    RunsKeepInv(ss, es, k);
  }

  /* The recorded leader */

  // A leader's heartbeat from a known member, in a term no older than the receiver's.
  predicate Claims(n: Node, m: Message) {
    m.Heartbeat? && m.role == Leader && m.sender in n.peers && m.term >= n.term
  }

  // In a guarded run every such heartbeat is believed.
  lemma LeaderIsRecorded(ss: seq<System>, es: seq<Event>, k: nat)
    requires Guarded(ss, es) && k < |es| && es[k].Deliver?
    requires Claims(ss[k].nodes[es[k].packet.dst], es[k].packet.msg)
    ensures var p := es[k].packet;
            && p.dst in ss[k + 1].nodes
            && var n := ss[k + 1].nodes[p.dst];
            n.leaderId == Some(p.msg.sender) && n.leaderTerm == n.term == p.msg.term
  {
    var p := es[k].packet;
    StepAt(ss, es, k, p.dst);
    NoConflictingClaim(ss, es, k, p);
    Believes(ss[k].nodes[p.dst], p.msg);
  }

  lemma Believes(n: Node, m: Message)
    requires Claims(n, m) && !ConflictingClaim(n, m.sender, m.term) && (n.leaderId.Some? ==> n.leaderTerm <= n.term)
    ensures var n' := Receive(n, m).node;
            n'.leaderId == Some(m.sender) && n'.leaderTerm == n'.term == m.term
  {
  }

  predicate Wins(n: Node, n': Node) {
    n.role != Leader && n'.role == Leader
  }

  predicate SameRecord(n: Node, n': Node) {
    n'.leaderId == n.leaderId && n'.leaderTerm == n.leaderTerm
  }

  // The record of a node that has moved from n to n'.
  predicate RecordMoved(i: NodeId, n: Node, n': Node) {
    if Wins(n, n') then n'.leaderId == Some(i) && n'.leaderTerm == n'.term else SameRecord(n, n')
  }

  lemma ResponseMovesRecord(members: set<NodeId>, votes: set<Vote>, i: NodeId, n: Node, v: NodeId, t: nat, g: bool)
    requires NodeInv(members, votes, i, n)
    ensures RecordMoved(i, n, OnVoteResponse(n, v, t, g).node)
  {
  }

  lemma RequestMovesRecord(members: set<NodeId>, votes: set<Vote>, i: NodeId, n: Node, c: NodeId, t: nat)
    requires NodeInv(members, votes, i, n)
    ensures RecordMoved(i, n, OnVoteRequest(n, c, t).node)
  {
  }

  lemma StandingMovesRecord(members: set<NodeId>, votes: set<Vote>, i: NodeId, n: Node, failed: set<NodeId>)
    requires NodeInv(members, votes, i, n) && n.role != Leader
    ensures RecordMoved(i, n, StartElection(n, failed).node)
  {
  }

  lemma HeartbeatMovesRecord(members: set<NodeId>, votes: set<Vote>, i: NodeId, n: Node, m: Message)
    requires NodeInv(members, votes, i, n) && m.Heartbeat? && !Claims(n, m)
    ensures RecordMoved(i, n, OnHeartbeat(n, m.sender, m.term, m.role).node)
  {
  }

  // In any state at all, the record of a term is never given to another node.
  lemma RecordIsNotTaken(n: Node, sender: NodeId, t: nat, role: Role)
    ensures var n' := OnHeartbeat(n, sender, t, role).node;
            && (n.leaderId.Some? && n'.leaderId != n.leaderId ==> n'.leaderTerm > n.leaderTerm)
            && (n.leaderId.Some? ==> n'.leaderId.Some? && n'.leaderTerm >= n.leaderTerm)
  {
  }

  // What a step does to a node's record: a crash clears it, a believed heartbeat and a won
  // election set it, and nothing else touches it.
  lemma RecordsMove(ss: seq<System>, es: seq<Event>, k: nat, i: NodeId)
    requires Guarded(ss, es) && k < |es| && i in ss[k].nodes
    ensures i in ss[k + 1].nodes
    ensures var n, n' := ss[k].nodes[i], ss[k + 1].nodes[i];
            if es[k] == Crash(i) then n'.leaderId.None?
            else if es[k].Deliver? && es[k].packet.dst == i && Claims(n, es[k].packet.msg)
            then n'.leaderId == Some(es[k].packet.msg.sender) && n'.leaderTerm == es[k].packet.msg.term
            else RecordMoved(i, n, n')
  {
    StepAt(ss, es, k, i);
    if i == Actor(es[k]) {
      var n, members, votes := ss[k].nodes[i], ss[k].members, ss[k].votes;
      match es[k] {
        case Timeout(_, failed) => StandingMovesRecord(members, votes, i, n, failed);
        case Deliver(p) =>
          match p.msg {
            case VoteRequest(c, t) => RequestMovesRecord(members, votes, i, n, c, t);
            case VoteResponse(v, t, g) => ResponseMovesRecord(members, votes, i, n, v, t, g);
            case Heartbeat(_, _, _) =>
              if Claims(n, p.msg) {
                LeaderIsRecorded(ss, es, k);
              } else {
                HeartbeatMovesRecord(members, votes, i, n, p.msg);
              }
            case NodeUpdate(_, _) =>
          }
        case _ =>
      }
    }
  }

  /* Terms and roles */

  // Terms are counted modulo 2^64.
  lemma NextTermIsModular(t: nat)
    requires t < TERM_LIMIT
    ensures NextTerm(t) == (t + 1) % TERM_LIMIT
  {
  }

  // A second win of the same election changes nothing and tells nobody.
  lemma WinningIsIdempotent(n: Node)
    ensures BecomeLeader(BecomeLeader(n).node) == Outcome(BecomeLeader(n).node, {})
  {
  }

  // In any state at all, a candidate that is answered in a term later than its own steps down.
  lemma LaterResponseStepsDown(n: Node, v: NodeId, t: nat, g: bool)
    requires n.role == Candidate && n.electionTerm == t > n.term
    ensures var n' := OnVoteResponse(n, v, t, g).node;
            n'.role == Follower && n'.term == t && n'.votedFor.None? && n'.disk == Ballot(t, None)
  {
  }

  // The term a message carries to its receiver: that of a request, of a node update, or of a
  // heartbeat from a known member.
  function Carried(n: Node, m: Message): nat {
    match m
    case VoteRequest(_, t) => t
    case VoteResponse(_, _, _) => 0
    case Heartbeat(s, t, _) => if s in n.peers then t else 0
    case NodeUpdate(_, t) => t
  }

  function Later(a: nat, b: nat): nat {
    if a > b then a else b
  }

  lemma DeliveryMovesTerm(members: set<NodeId>, votes: set<Vote>, i: NodeId, n: Node, m: Message)
    requires NodeInv(members, votes, i, n)
    ensures Receive(n, m).node.term == Later(Carried(n, m), n.term)
  {
  }

  // A node's term is the latest it has met, and goes up by one when it stands; a crash takes it
  // back to that of the state file.
  lemma TermsMove(ss: seq<System>, es: seq<Event>, k: nat, i: NodeId)
    requires Guarded(ss, es) && k < |es| && i in ss[k].nodes
    ensures i in ss[k + 1].nodes
    ensures var n, t' := ss[k].nodes[i], ss[k + 1].nodes[i].term;
            match es[k]
            case Timeout(j, _) => t' == if i == j then n.term + 1 else n.term
            case Deliver(p) => t' == if p.dst == i then Later(Carried(n, p.msg), n.term) else n.term
            case Crash(j) => t' == if i == j then n.disk.term else n.term
            case _ => t' == n.term
  {
    StepAt(ss, es, k, i);
    if es[k].Deliver? && es[k].packet.dst == i {
      DeliveryMovesTerm(ss[k].members, ss[k].votes, i, ss[k].nodes[i], es[k].packet.msg);
    }
  }

  // A leader stays one for as long as its term does; a node becomes leader only from candidate;
  // a later term makes a follower.
  predicate RoleMoved(n: Node, n': Node) {
    && (n.role == Leader ==> n'.role == if n'.term == n.term then Leader else Follower)
    && (n.role == Follower ==> n'.role == Follower)
    && (n.role == Candidate ==> if n'.term == n.term then n'.role != Follower else n'.role == Follower)
  }

  lemma DeliveryMovesRole(members: set<NodeId>, votes: set<Vote>, i: NodeId, n: Node, m: Message)
    requires NodeInv(members, votes, i, n) && (m.NodeUpdate? && m.term > n.term ==> n.role == Follower)
    ensures RoleMoved(n, Receive(n, m).node)
  {
  }

  // Apart from standing and crashing, which make a follower of whoever was what.
  lemma RolesMove(ss: seq<System>, es: seq<Event>, k: nat, i: NodeId)
    requires Guarded(ss, es) && k < |es| && i in ss[k].nodes
    requires !(es[k].Timeout? && es[k].node == i)
    ensures i in ss[k + 1].nodes
    ensures if es[k] == Crash(i) then ss[k + 1].nodes[i].role == Follower
            else RoleMoved(ss[k].nodes[i], ss[k + 1].nodes[i])
  {
    StepAt(ss, es, k, i);
    if es[k].Deliver? && es[k].packet.dst == i {
      DeliveryMovesRole(ss[k].members, ss[k].votes, i, ss[k].nodes[i], es[k].packet.msg);
    }
  }

  // A node that stands is a candidate with its own vote, unless it is alone or a send failed.
  lemma StandingMakesCandidate(ss: seq<System>, es: seq<Event>, k: nat)
    requires Guarded(ss, es) && k < |es| && es[k].Timeout?
    ensures var i, failed := es[k].node, es[k].failed;
            && i in ss[k].nodes && i in ss[k + 1].nodes
            && var others, n := ss[k].members - {i}, ss[k + 1].nodes[i];
            && n.votedFor == Some(i)
            && n.role == (if others == {} then Leader else if others * failed == {} then Candidate else Follower)
            && n.electionTerm == n.term && n.voters == {i} && n.votesNeeded == |others| / 2 + (|others| % 2) + 1
            && (others != {} ==> Effect(ss[k], es[k]).sent == ToAll(others - failed, VoteRequest(i, n.term)))
  {
    RunsKeepInv(ss, es, k);
    var n := ss[k].nodes[es[k].node];
    assert |n.peers| == |n.peers.Keys|;
  }

  /* Votes */

  // A request is answered to its candidate, once, in the later of the two terms.
  lemma RequestIsAnswered(ss: seq<System>, es: seq<Event>, k: nat, c: NodeId, t: nat)
    requires Guarded(ss, es) && k < |es| && es[k].Deliver? && es[k].packet.msg == VoteRequest(c, t)
    ensures var i := es[k].packet.dst;
            && i in ss[k].nodes && i in ss[k + 1].nodes
            && var n, n' := ss[k].nodes[i], ss[k + 1].nodes[i];
            var granted := n'.term == t && n'.votedFor == Some(c);
            && Effect(ss[k], es[k]).sent == {Packet(c, VoteResponse(i, n'.term, granted))}
            && (t > n.term ==> granted)
            && (t == n.term && (n.votedFor.None? || n.votedFor == Some(c)) ==> granted)
            && (t == n.term && n.votedFor.Some? ==> n'.votedFor == n.votedFor)
            && (t < n.term ==> n'.votedFor == n.votedFor)
  {
    RunsKeepInv(ss, es, k);
  }

  // A vote once cast is given again to whoever asks for it again, for as long as the voter is
  // in that term: also after it has crashed.
  lemma VoteIsGivenAgain(ss: seq<System>, es: seq<Event>, k: nat, c: NodeId, t: nat)
    requires Guarded(ss, es) && k < |es| && es[k].Deliver? && es[k].packet.msg == VoteRequest(c, t)
    requires var i := es[k].packet.dst;
             Vote(i, t, c) in ss[k].votes && i in ss[k].nodes && ss[k].nodes[i].term == t
    ensures Packet(c, VoteResponse(es[k].packet.dst, t, true)) in ss[k + 1].net
  {
    RunsKeepInv(ss, es, k);
    var n := ss[k].nodes[es[k].packet.dst];
    assert Recorded(n, Vote(n.id, t, c));
  }

  // Every grant that reaches a candidate in its term is counted, and the majority makes it
  // leader at once.
  lemma GrantIsCounted(ss: seq<System>, es: seq<Event>, k: nat, v: NodeId, t: nat)
    requires Guarded(ss, es) && k < |es| && es[k].Deliver? && es[k].packet.msg == VoteResponse(v, t, true)
    requires var i := es[k].packet.dst; i in ss[k].nodes && ss[k].nodes[i].role == Candidate && ss[k].nodes[i].term == t
    ensures var i := es[k].packet.dst;
            && i in ss[k + 1].nodes
            && var n, n' := ss[k].nodes[i], ss[k + 1].nodes[i];
            && n'.voters == n.voters + {v} && n'.term == t
            && (n'.role == Leader <==> |n.voters + {v}| >= |ss[k].members| / 2 + 1)
  {
    StepAt(ss, es, k, es[k].packet.dst);
    Counts(ss[k].members, ss[k].votes, es[k].packet.dst, ss[k].nodes[es[k].packet.dst], v, t);
  }

  lemma Counts(members: set<NodeId>, votes: set<Vote>, i: NodeId, n: Node, v: NodeId, t: nat)
    requires NodeInv(members, votes, i, n) && n.role == Candidate && n.term == t
    ensures var n' := OnVoteResponse(n, v, t, true).node;
            && n'.voters == n.voters + {v} && n'.term == t
            && (n'.role == Leader <==> |n.voters + {v}| >= |members| / 2 + 1)
  {
  }

  // A step's vote: a node that stands votes for itself, one that grants a request votes for its
  // candidate, and one that hears a heartbeat of a later term has no vote in it.
  predicate VoteMoved(n: Node, m: Message, n': Node) {
    if n'.term == n.term then
      n'.votedFor == n.votedFor || (m.VoteRequest? && n.votedFor.None? && n'.votedFor == Some(m.candidate))
    else if m.VoteRequest? then n'.votedFor == Some(m.candidate)
    else if m.Heartbeat? then n'.votedFor.None?
    else n'.votedFor == n.votedFor
  }

  lemma DeliveryMovesVote(members: set<NodeId>, votes: set<Vote>, i: NodeId, n: Node, m: Message)
    requires NodeInv(members, votes, i, n)
    ensures VoteMoved(n, m, Receive(n, m).node)
  {
  }

  // The state file holds the ballot after every request, and whenever a later term arrives with a
  // heartbeat; nothing else that is delivered writes it.
  predicate FileMoved(n: Node, m: Message, n': Node) {
    if m.VoteRequest? || (m.Heartbeat? && n'.term > n.term) then n'.disk == Ballot(n'.term, n'.votedFor)
    else n'.disk == n.disk
  }

  lemma DeliveryMovesFile(members: set<NodeId>, votes: set<Vote>, i: NodeId, n: Node, m: Message)
    requires NodeInv(members, votes, i, n)
    ensures FileMoved(n, m, Receive(n, m).node)
  {
  }

  lemma StandingMovesBallot(n: Node, failed: set<NodeId>)
    ensures var n' := StartElection(n, failed).node;
            n'.votedFor == Some(n.id) && n'.disk == Ballot(n'.term, Some(n.id))
  {
  }

  lemma BallotsMove(ss: seq<System>, es: seq<Event>, k: nat, i: NodeId)
    requires Guarded(ss, es) && k < |es| && i in ss[k].nodes
    ensures i in ss[k + 1].nodes
    ensures var n, n' := ss[k].nodes[i], ss[k + 1].nodes[i];
            match es[k]
            case Timeout(j, _) =>
              if i == j then n'.votedFor == Some(i) && n'.disk == Ballot(n'.term, Some(i))
              else n'.votedFor == n.votedFor && n'.disk == n.disk
            case Deliver(p) =>
              if p.dst == i then VoteMoved(n, p.msg, n') && FileMoved(n, p.msg, n')
              else n'.votedFor == n.votedFor && n'.disk == n.disk
            case Crash(j) => n'.votedFor == n.disk.votedFor && n'.disk == n.disk
            case _ => n'.votedFor == n.votedFor && n'.disk == n.disk
  {
    StepAt(ss, es, k, i);
    var n := ss[k].nodes[i];
    if es[k].Timeout? { StandingMovesBallot(n, es[k].failed); }
    if es[k].Deliver? && es[k].packet.dst == i {
      DeliveryMovesVote(ss[k].members, ss[k].votes, i, n, es[k].packet.msg);
      DeliveryMovesFile(ss[k].members, ss[k].votes, i, n, es[k].packet.msg);
    }
  }

  /* What a node knows of the others, and tells them */

  // The highest term heard from p since it last joined here.
  predicate PeerMoved(n: Node, e: Event, p: NodeId, n': Node) {
    p in n.peers && p in n'.peers &&
    match e
    case Deliver(packet) =>
      (match packet.msg
       case Heartbeat(s, t, _) => n'.peers[p] == if s == p then Later(t, n.peers[p]) else n.peers[p]
       case NodeUpdate(a, _) => n'.peers[p] == if a == p then 0 else n.peers[p]
       case _ => n'.peers[p] == n.peers[p])
    case Rejoin(_, a) => n'.peers[p] == if a == p then 0 else n.peers[p]
    case Crash(_) => n'.peers[p] == 0
    case _ => n'.peers[p] == n.peers[p]
  }

  lemma DeliveryMovesPeers(n: Node, packet: Packet, p: NodeId)
    requires p in n.peers
    ensures PeerMoved(n, Deliver(packet), p, Receive(n, packet.msg).node)
  {
  }

  lemma StandingKeepsPeers(n: Node, failed: set<NodeId>)
    ensures StartElection(n, failed).node.peers == n.peers
  {
  }

  lemma PeersMove(ss: seq<System>, es: seq<Event>, k: nat, p: NodeId)
    requires Guarded(ss, es) && k < |es| && p in ss[k].members - {Actor(es[k])}
    ensures var i := Actor(es[k]);
            i in ss[k].nodes && i in ss[k + 1].nodes && PeerMoved(ss[k].nodes[i], es[k], p, ss[k + 1].nodes[i])
  {
    var i := Actor(es[k]);
    RunsKeepInv(ss, es, k);
    StepAt(ss, es, k, i);
    match es[k]
    case Timeout(_, failed) => StandingKeepsPeers(ss[k].nodes[i], failed);
    case Deliver(packet) => DeliveryMovesPeers(ss[k].nodes[i], packet, p);
    case _ =>
  }

  lemma StepSends(ss: seq<System>, es: seq<Event>, k: nat, packet: Packet)
    requires Guarded(ss, es) && k < |es|
    ensures packet in ss[k + 1].net <==> packet in ss[k].net || packet in Effect(ss[k], es[k]).sent
  {
  }

  lemma WinningTells(members: set<NodeId>, votes: set<Vote>, i: NodeId, n: Node, m: Message, p: NodeId)
    requires NodeInv(members, votes, i, n) && p in n.peers
    ensures var out := Receive(n, m);
            Wins(n, out.node) ==> Packet(p, Heartbeat(i, out.node.term, Leader)) in out.sent
  {
  }

  lemma LoneWinner(n: Node, failed: set<NodeId>, p: NodeId)
    requires p in n.peers
    ensures !Wins(n, StartElection(n, failed).node)
  {
    assert |n.peers| == |n.peers.Keys|;
  }

  // A tick and a win tell every other member the node's term and role, and a member's return is
  // told to all others.
  lemma OthersAreTold(ss: seq<System>, es: seq<Event>, k: nat, p: NodeId)
    requires Guarded(ss, es) && k < |es| && p in ss[k].members - {Actor(es[k])}
    ensures var i := Actor(es[k]);
            && i in ss[k].nodes && i in ss[k + 1].nodes
            && var n := ss[k + 1].nodes[i];
            && (es[k].Tick? || Wins(ss[k].nodes[i], n) ==> Packet(p, Heartbeat(i, n.term, n.role)) in ss[k + 1].net)
            && (es[k].Rejoin? && es[k].about != p ==> Packet(p, NodeUpdate(es[k].about, n.term)) in ss[k + 1].net)
  {
    var i := Actor(es[k]);
    RunsKeepInv(ss, es, k);
    StepAt(ss, es, k, i);
    var n, n' := ss[k].nodes[i], ss[k + 1].nodes[i];
    StepSends(ss, es, k, Packet(p, Heartbeat(i, n'.term, n'.role)));
    match es[k]
    case Timeout(_, failed) => LoneWinner(n, failed, p);
    case Deliver(packet) => WinningTells(ss[k].members, ss[k].votes, i, n, packet.msg, p);
    case Rejoin(_, about) => StepSends(ss, es, k, Packet(p, NodeUpdate(about, n'.term)));
    case _ =>
  }
}
