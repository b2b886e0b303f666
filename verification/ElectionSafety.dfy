// Election Safety and agreement of the recorded leader, over every run.
module ElectionSafety {
  import opened Wrappers
  import opened ElectionSpec

  function Supporters(members: set<NodeId>, votes: set<Vote>, c: NodeId, t: nat): set<NodeId> {
    set v | v in members && Vote(v, t, c) in votes
  }

  // A majority of the fixed membership voted for c in term t.
  predicate Won(members: set<NodeId>, votes: set<Vote>, c: NodeId, t: nat) {
    |Supporters(members, votes, c, t)| >= |members| / 2 + 1
  }

  ghost predicate OneVotePerTerm(votes: set<Vote>) {
    forall x, y :: x in votes && y in votes && x.voter == y.voter && x.term == y.term ==> x == y
  }

  // Memory never falls behind the state file, and holds the same vote.
  ghost predicate BallotInv(n: Node) {
    n.disk.votedFor == n.votedFor && n.disk.term <= n.term
  }

  ghost predicate NodeInv(members: set<NodeId>, votes: set<Vote>, i: NodeId, n: Node) {
    && i in members
    && n.id == i
    && n.peers.Keys == members - {i}
    && BallotInv(n)
    && (n.role != Follower ==> n.electionTerm == n.term == n.disk.term)
    && (n.role == Candidate ==>
          && !n.electionWon
          && n.votesNeeded == |members| / 2 + 1
          && n.voters <= Supporters(members, votes, i, n.term))
    && (n.role == Leader ==> Won(members, votes, i, n.term))
    && (n.leaderId.Some? ==> n.leaderTerm <= n.term && Won(members, votes, n.leaderId.value, n.leaderTerm))
  }

  ghost predicate PacketInv(members: set<NodeId>, votes: set<Vote>, p: Packet) {
    match p.msg
    case VoteRequest(_, _) => true
    case VoteResponse(v, t, granted) => granted ==> v in members && Vote(v, t, p.dst) in votes
    case Heartbeat(l, t, role) => role == Leader ==> Won(members, votes, l, t)
    case NodeUpdate(_, _) => true
  }

  // Every recorded vote is in the past of its voter's state file, or is the ballot in it.
  ghost predicate Recorded(n: Node, v: Vote) {
    v.term < n.disk.term || (v.term == n.disk.term && n.disk.votedFor == Some(v.candidate))
  }

  ghost predicate Inv(s: System) {
    && WellFormed(s)
    && (forall i :: i in s.members ==> NodeInv(s.members, s.votes, i, s.nodes[i]))
    && (forall p :: p in s.net ==> PacketInv(s.members, s.votes, p))
    && (forall v :: v in s.votes ==> v.voter in s.members && Recorded(s.nodes[v.voter], v))
    && OneVotePerTerm(s.votes)
  }

  // The ballot in the state file only ever moves to a later term, or fills an empty vote.
  ghost predicate Advances(n: Node, m: Node) {
    || m.disk.term > n.disk.term
    || (m.disk.term == n.disk.term && (n.disk.votedFor.None? || m.disk.votedFor == n.disk.votedFor))
  }

  lemma WonIsMonotone(members: set<NodeId>, votes: set<Vote>, more: set<Vote>, c: NodeId, t: nat)
    requires votes <= more
    ensures Supporters(members, votes, c, t) <= Supporters(members, more, c, t)
    ensures Won(members, votes, c, t) ==> Won(members, more, c, t)
  {
    SubsetSize(Supporters(members, votes, c, t), Supporters(members, more, c, t));
  }

  lemma SubsetSize<T>(a: set<T>, b: set<T>)
    requires a <= b
    ensures |a| <= |b|
  {
    assert b == a + (b - a);
  }

  lemma NodeInvIsMonotone(members: set<NodeId>, votes: set<Vote>, more: set<Vote>, i: NodeId, n: Node)
    requires votes <= more && NodeInv(members, votes, i, n)
    ensures NodeInv(members, more, i, n)
  {
    WonIsMonotone(members, votes, more, i, n.term);
    if n.leaderId.Some? { WonIsMonotone(members, votes, more, n.leaderId.value, n.leaderTerm); }
  }

  lemma PacketInvIsMonotone(members: set<NodeId>, votes: set<Vote>, more: set<Vote>, p: Packet)
    requires votes <= more && PacketInv(members, votes, p)
    ensures PacketInv(members, more, p)
  {
    if p.msg.Heartbeat? { WonIsMonotone(members, votes, more, p.msg.sender, p.msg.term); }
  }

  // What a handler owes: its ballot advances, and its node and packets are sound under the
  // votes it has just made durable.
  ghost predicate Sound(members: set<NodeId>, votes: set<Vote>, i: NodeId, n: Node, out: Outcome) {
    && Advances(n, out.node)
    && NodeInv(members, votes + Cast(out.node), i, out.node)
    && forall p :: p in out.sent ==> PacketInv(members, votes + Cast(out.node), p)
  }

  lemma InstallKeepsInv(s: System, i: NodeId, out: Outcome)
    requires Inv(s) && i in s.members && Sound(s.members, s.votes, i, s.nodes[i], out)
    ensures Inv(Install(s, i, out))
  {
    var s' := Install(s, i, out);
    assert s'.nodes.Keys == s'.members;
    forall j | j in s'.members ensures NodeInv(s'.members, s'.votes, j, s'.nodes[j]) {
      if j != i { NodeInvIsMonotone(s.members, s.votes, s'.votes, j, s.nodes[j]); }
    }
    forall p | p in s'.net ensures PacketInv(s'.members, s'.votes, p) {
      if p in s.net { PacketInvIsMonotone(s.members, s.votes, s'.votes, p); }
    }
  }

  lemma VoteRequestKeepsNodeInv(members: set<NodeId>, votes: set<Vote>, i: NodeId, n: Node, c: NodeId, t: nat)
    requires NodeInv(members, votes, i, n)
    ensures NodeInv(members, votes, i, OnVoteRequest(n, c, t).node)
  {
  }

  // A grant is in the state file before it is sent.
  lemma GrantIsCast(n: Node, c: NodeId, t: nat)
    ensures forall p :: p in OnVoteRequest(n, c, t).sent ==>
              p.dst == c && p.msg.VoteResponse? && p.msg.voter == n.id &&
              (p.msg.granted ==> Vote(n.id, p.msg.term, c) in Cast(OnVoteRequest(n, c, t).node))
  {
  }

  lemma VoteRequestIsSound(members: set<NodeId>, votes: set<Vote>, i: NodeId, n: Node, c: NodeId, t: nat)
    requires NodeInv(members, votes, i, n)
    ensures Sound(members, votes, i, n, OnVoteRequest(n, c, t))
  {
    var m := OnVoteRequest(n, c, t).node;
    VoteRequestKeepsNodeInv(members, votes, i, n, c, t);
    NodeInvIsMonotone(members, votes, votes + Cast(m), i, m);
    VoteRequestAdvances(n, c, t);
    GrantIsCast(n, c, t);
  }

  lemma WinningIsSound(members: set<NodeId>, votes: set<Vote>, i: NodeId, n: Node)
    requires NodeInv(members, votes, i, n) && n.role == Candidate && |n.voters| >= n.votesNeeded
    ensures Sound(members, votes, i, n, BecomeLeader(n))
  {
    SubsetSize(n.voters, Supporters(members, votes, i, n.term));
    NodeInvIsMonotone(members, votes, votes + Cast(n), i, n);
    WonIsMonotone(members, votes, votes + Cast(n), i, n.term);
  }

  lemma VoteResponseIsSound(members: set<NodeId>, votes: set<Vote>, i: NodeId, n: Node, v: NodeId, t: nat,
                            granted: bool)
    requires NodeInv(members, votes, i, n)
    requires PacketInv(members, votes, Packet(i, VoteResponse(v, t, granted)))
    ensures Sound(members, votes, i, n, OnVoteResponse(n, v, t, granted))
  {
    NodeInvIsMonotone(members, votes, votes + Cast(n), i, n);
    if n.role == Candidate && t == n.electionTerm && granted {
      var m := n.(voters := n.voters + {v});
      assert NodeInv(members, votes, i, m);
      NodeInvIsMonotone(members, votes, votes + Cast(m), i, m);
      if |m.voters| >= m.votesNeeded { WinningIsSound(members, votes, i, m); }
    }
  }

  lemma AdoptKeepsNodeInv(members: set<NodeId>, votes: set<Vote>, i: NodeId, n: Node, t: nat)
    requires NodeInv(members, votes, i, n) && t > n.term
    ensures NodeInv(members, votes, i, Persisted(n.(term := t, role := Follower, votedFor := None)))
  {
  }

  lemma HeartbeatKeepsNodeInv(members: set<NodeId>, votes: set<Vote>, i: NodeId, n: Node, l: NodeId, t: nat, role: Role)
    requires NodeInv(members, votes, i, n)
    requires PacketInv(members, votes, Packet(i, Heartbeat(l, t, role)))
    ensures NodeInv(members, votes, i, OnHeartbeat(n, l, t, role).node)
  {
    if l in n.peers {
      var heard := if t > n.peers[l] then n.(peers := n.peers[l := t]) else n;
      assert heard.peers.Keys == n.peers.Keys;
      assert NodeInv(members, votes, i, heard);
      if t > n.term { AdoptKeepsNodeInv(members, votes, i, heard, t); }
    }
  }

  lemma HeartbeatIsSound(members: set<NodeId>, votes: set<Vote>, i: NodeId, n: Node, l: NodeId, t: nat, role: Role)
    requires NodeInv(members, votes, i, n)
    requires PacketInv(members, votes, Packet(i, Heartbeat(l, t, role)))
    ensures Sound(members, votes, i, n, OnHeartbeat(n, l, t, role))
  {
    HeartbeatKeepsNodeInv(members, votes, i, n, l, t, role);
    var m := OnHeartbeat(n, l, t, role).node;
    NodeInvIsMonotone(members, votes, votes + Cast(m), i, m);
  }

  lemma CampaignKeepsNodeInv(members: set<NodeId>, votes: set<Vote>, i: NodeId, n: Node)
    requires NodeInv(members, votes, i, n) && n.term + 1 < TERM_LIMIT
    ensures NodeInv(members, votes + Cast(Campaign(n)), i, Campaign(n))
  {
    NodeInvIsMonotone(members, votes, votes + Cast(Campaign(n)), i, n);
    assert |n.peers| == |n.peers.Keys| == |members| - 1;
    assert Cast(Campaign(n)) == {Vote(i, n.term + 1, i)};
  }

  lemma StartElectionIsSound(members: set<NodeId>, votes: set<Vote>, i: NodeId, n: Node, failed: set<NodeId>)
    requires NodeInv(members, votes, i, n) && n.term + 1 < TERM_LIMIT
    ensures Sound(members, votes, i, n, StartElection(n, failed))
  {
    CampaignKeepsNodeInv(members, votes, i, n);
    var c := Campaign(n);
    if |n.peers| + 1 == 1 {
      assert |members| == 1 by { assert |n.peers| == |n.peers.Keys|; }
      WinningIsSound(members, votes + Cast(c), i, c);
      assert votes + Cast(c) + Cast(c) == votes + Cast(c);
    }
  }

  lemma RejoinIsSound(members: set<NodeId>, votes: set<Vote>, i: NodeId, n: Node, about: NodeId)
    requires NodeInv(members, votes, i, n)
    ensures Sound(members, votes, i, n, OnRejoin(n, about))
  {
    var m := OnRejoin(n, about).node;
    assert m.peers.Keys == n.peers.Keys;
    NodeInvIsMonotone(members, votes, votes + Cast(m), i, m);
  }

  // A raised follower may hold a vote it cast in an earlier term, which only makes it refuse.
  lemma NodeUpdateIsSound(members: set<NodeId>, votes: set<Vote>, i: NodeId, n: Node, about: NodeId, t: nat)
    requires NodeInv(members, votes, i, n) && (t > n.term ==> n.role == Follower)
    ensures Sound(members, votes, i, n, OnNodeUpdate(n, about, t))
  {
    var m := OnNodeUpdate(n, about, t).node;
    assert m.peers.Keys == n.peers.Keys;
    NodeInvIsMonotone(members, votes, votes + Cast(m), i, m);
  }

  lemma EffectIsSound(s: System, e: Event)
    requires Inv(s) && Enabled(s, e) && !RaisesActive(s, e)
    ensures Sound(s.members, s.votes, Actor(e), s.nodes[Actor(e)], Effect(s, e))
  {
    var i := Actor(e);
    var n := s.nodes[i];
    match e {
      case Timeout(_, failed) => StartElectionIsSound(s.members, s.votes, i, n, failed);
      case Deliver(p) =>
        assert PacketInv(s.members, s.votes, Packet(i, p.msg));
        match p.msg {
          case VoteRequest(c, t) => VoteRequestIsSound(s.members, s.votes, i, n, c, t);
          case VoteResponse(v, t, g) => VoteResponseIsSound(s.members, s.votes, i, n, v, t, g);
          case Heartbeat(l, t, r) => HeartbeatIsSound(s.members, s.votes, i, n, l, t, r);
          case NodeUpdate(a, t) => NodeUpdateIsSound(s.members, s.votes, i, n, a, t);
        }
      case Tick(_) =>
        NodeInvIsMonotone(s.members, s.votes, s.votes + Cast(n), i, n);
        WonIsMonotone(s.members, s.votes, s.votes + Cast(n), i, n.term);
      case Rejoin(_, about) => RejoinIsSound(s.members, s.votes, i, n, about);
      case Crash(_) =>
    }
  }

  lemma {:induction false} RunsKeepInv(ss: seq<System>, es: seq<Event>, k: nat)
    requires Guarded(ss, es) && k < |ss|
    ensures Inv(ss[k])
    decreases k
  {
    if k > 0 {
      RunsKeepInv(ss, es, k - 1);
      EffectIsSound(ss[k - 1], es[k - 1]);
      InstallKeepsInv(ss[k - 1], Actor(es[k - 1]), Effect(ss[k - 1], es[k - 1]));
    }
  }

  // Membership never changes and a cast vote is never forgotten.
  lemma {:induction false} RunsOnlyAddVotes(ss: seq<System>, es: seq<Event>, i: nat, j: nat)
    requires Execution(ss, es) && i <= j < |ss|
    ensures ss[i].members == ss[j].members && ss[i].votes <= ss[j].votes
    decreases j - i
  {
    if i < j {
      RunsOnlyAddVotes(ss, es, i, j - 1);
    }
  }

  // Two majorities share a member, and that member voted once in the term.
  lemma WinnersAgree(members: set<NodeId>, votes: set<Vote>, a: NodeId, b: NodeId, t: nat)
    requires OneVotePerTerm(votes) && Won(members, votes, a, t) && Won(members, votes, b, t)
    ensures a == b
  {
    var A, B := Supporters(members, votes, a, t), Supporters(members, votes, b, t);
    SubsetSize(A + B, members);
    assert |A + B| + |A * B| == |A| + |B|;
    var v :| v in A * B;
    assert Vote(v, t, a) in votes && Vote(v, t, b) in votes;
  }

  // Election Safety (Raft, section 5.2): whatever the moments i <= j of a run at which
  // a and b are leader, equal terms mean the same node.
  lemma ElectionSafety(ss: seq<System>, es: seq<Event>, i: nat, j: nat, a: NodeId, b: NodeId)
    requires Guarded(ss, es) && i < |ss| && j < |ss|
    requires a in ss[i].nodes && ss[i].nodes[a].role == Leader
    requires b in ss[j].nodes && ss[j].nodes[b].role == Leader
    requires ss[i].nodes[a].term == ss[j].nodes[b].term
    ensures a == b
  {
    if i > j {
      ElectionSafety(ss, es, j, i, b, a);
    } else {
      RunsKeepInv(ss, es, i);
      RunsKeepInv(ss, es, j);
      RunsOnlyAddVotes(ss, es, i, j);
      WonIsMonotone(ss[i].members, ss[i].votes, ss[j].votes, a, ss[i].nodes[a].term);
      WinnersAgree(ss[j].members, ss[j].votes, a, b, ss[j].nodes[b].term);
    }
  }

  // Nodes that recorded a leader for the same term recorded the same leader, at any two
  // moments of a run, and no record runs ahead of its node's own term.
  lemma LeaderRecordsAgree(ss: seq<System>, es: seq<Event>, i: nat, j: nat, a: NodeId, b: NodeId)
    requires Guarded(ss, es) && i < |ss| && j < |ss|
    requires a in ss[i].nodes && ss[i].nodes[a].leaderId.Some?
    requires b in ss[j].nodes && ss[j].nodes[b].leaderId.Some?
    ensures ss[i].nodes[a].leaderTerm <= ss[i].nodes[a].term
    ensures ss[i].nodes[a].leaderTerm == ss[j].nodes[b].leaderTerm ==>
              ss[i].nodes[a].leaderId == ss[j].nodes[b].leaderId
  {
    RunsKeepInv(ss, es, i);
    RunsKeepInv(ss, es, j);
    var x, y := ss[i].nodes[a], ss[j].nodes[b];
    if x.leaderTerm == y.leaderTerm {
      if i <= j {
        RunsOnlyAddVotes(ss, es, i, j);
        WonIsMonotone(ss[i].members, ss[i].votes, ss[j].votes, x.leaderId.value, x.leaderTerm);
        WinnersAgree(ss[j].members, ss[j].votes, x.leaderId.value, y.leaderId.value, y.leaderTerm);
      } else {
        RunsOnlyAddVotes(ss, es, j, i);
        WonIsMonotone(ss[j].members, ss[j].votes, ss[i].votes, y.leaderId.value, y.leaderTerm);
        WinnersAgree(ss[i].members, ss[i].votes, x.leaderId.value, y.leaderId.value, x.leaderTerm);
      }
    }
  }

  // The branch that ignores a conflicting leader claim is never taken: a leader's
  // heartbeat that passes the term test never conflicts with the receiver's record.
  lemma NoConflictingClaim(ss: seq<System>, es: seq<Event>, k: nat, p: Packet)
    requires Guarded(ss, es) && k < |ss|
    requires p in ss[k].net && p.dst in ss[k].nodes && p.msg.Heartbeat?
    requires p.msg.role == Leader && p.msg.term >= ss[k].nodes[p.dst].term
    ensures !ConflictingClaim(ss[k].nodes[p.dst], p.msg.sender, p.msg.term)
  {
    RunsKeepInv(ss, es, k);
    var n := ss[k].nodes[p.dst];
    if n.leaderId.Some? && p.msg.term <= n.leaderTerm {
      WinnersAgree(ss[k].members, ss[k].votes, n.leaderId.value, p.msg.sender, p.msg.term);
    }
  }

  lemma VoteRequestAdvances(n: Node, c: NodeId, t: nat)
    requires BallotInv(n)
    ensures BallotInv(OnVoteRequest(n, c, t).node) && Advances(n, OnVoteRequest(n, c, t).node)
  {
  }

  lemma VoteResponseAdvances(n: Node, v: NodeId, t: nat, granted: bool)
    requires BallotInv(n)
    ensures BallotInv(OnVoteResponse(n, v, t, granted).node) && Advances(n, OnVoteResponse(n, v, t, granted).node)
  {
  }

  lemma HeartbeatAdvances(n: Node, l: NodeId, t: nat, role: Role)
    requires BallotInv(n)
    ensures BallotInv(OnHeartbeat(n, l, t, role).node) && Advances(n, OnHeartbeat(n, l, t, role).node)
  {
  }

  lemma StartElectionAdvances(n: Node, failed: set<NodeId>)
    requires BallotInv(n) && n.term + 1 < TERM_LIMIT
    ensures BallotInv(StartElection(n, failed).node) && Advances(n, StartElection(n, failed).node)
  {
  }

  lemma EffectAdvances(s: System, e: Event)
    requires WellFormed(s) && Enabled(s, e) && BallotInv(s.nodes[Actor(e)])
    ensures BallotInv(Effect(s, e).node) && Advances(s.nodes[Actor(e)], Effect(s, e).node)
  {
    var n := s.nodes[Actor(e)];
    match e
    case Timeout(_, failed) => StartElectionAdvances(n, failed);
    case Deliver(p) =>
      match p.msg {
        case VoteRequest(c, t) => VoteRequestAdvances(n, c, t);
        case VoteResponse(v, t, g) => VoteResponseAdvances(n, v, t, g);
        case Heartbeat(l, t, r) => HeartbeatAdvances(n, l, t, r);
        case NodeUpdate(_, _) =>
      }
    case Tick(_) =>
    case Rejoin(_, _) =>
    case Crash(_) =>
  }

  lemma StepAdvances(s: System, e: Event, v: NodeId)
    requires WellFormed(s) && Enabled(s, e) && v in s.nodes && BallotInv(s.nodes[v])
    ensures v in Step(s, e).nodes && BallotInv(Step(s, e).nodes[v]) && Advances(s.nodes[v], Step(s, e).nodes[v])
  {
    if v == Actor(e) { EffectAdvances(s, e); }
  }

  lemma {:induction false} RunsKeepBallots(ss: seq<System>, es: seq<Event>, k: nat, v: NodeId)
    requires Execution(ss, es) && k < |ss| && v in ss[0].nodes
    ensures v in ss[k].nodes && BallotInv(ss[k].nodes[v])
    decreases k
  {
    if k > 0 {
      RunsKeepBallots(ss, es, k - 1, v);
      StepAdvances(ss[k - 1], es[k - 1], v);
    }
  }

  // Whatever happens in between, crashes, restarts and every node update included, the ballot
  // in a node's state file only moves to a later term or fills an empty vote: no second vote
  // in a term.
  lemma {:induction false} BallotsAdvance(ss: seq<System>, es: seq<Event>, i: nat, j: nat, v: NodeId)
    requires Execution(ss, es) && i <= j < |ss| && v in ss[0].nodes
    ensures v in ss[i].nodes && v in ss[j].nodes && Advances(ss[i].nodes[v], ss[j].nodes[v])
    decreases j - i
  {
    RunsKeepBallots(ss, es, i, v);
    if i < j {
      StepAdvances(ss[i], es[i], v);
      BallotsAdvance(ss, es, i + 1, j, v);
    }
  }

  // What the guard is for: delivering a node update keeps the cluster's invariant exactly
  // when it does not raise the term of a candidate or a leader.
  lemma NodeUpdateKeepsInvIff(s: System, p: Packet)
    requires Inv(s) && p in s.net && p.dst in s.members && p.msg.NodeUpdate?
    ensures Inv(Step(s, Deliver(p))) <==> !RaisesActive(s, Deliver(p))
  {
    if RaisesActive(s, Deliver(p)) {
      var m := Step(s, Deliver(p)).nodes[p.dst];
      assert m.term > s.nodes[p.dst].term == m.electionTerm;
    } else {
      EffectIsSound(s, Deliver(p));
      InstallKeepsInv(s, p.dst, Effect(s, Deliver(p)));
    }
  }
}
