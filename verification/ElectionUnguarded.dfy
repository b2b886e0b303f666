// Two runs of three nodes in which a node update raises the term of a leader, and of a
// candidate, and which end with two leaders in one term.
module ElectionUnguarded {
  import opened Wrappers
  import opened ElectionSpec

  const MEMBERS: set<NodeId> := {0, 1, 2}

  ghost predicate Known(n: Node, id: NodeId, term: nat) {
    n.id == id && n.term == term && n.peers.Keys == MEMBERS - {id}
  }

  ghost predicate IsCandidate(n: Node, id: NodeId, term: nat, electionTerm: nat) {
    Known(n, id, term) && n.role == Candidate && n.electionTerm == electionTerm && n.votesNeeded == 2 &&
    n.voters == {id} && !n.electionWon
  }

  ghost predicate IsFollower(n: Node, id: NodeId, term: nat) {
    Known(n, id, term) && n.role == Follower
  }

  ghost predicate IsLeader(n: Node, id: NodeId, term: nat) {
    Known(n, id, term) && n.role == Leader
  }

  // A run so far: its states, its events, and the state it has reached.
  ghost predicate Reaches(ss: seq<System>, es: seq<Event>, s: System) {
    Execution(ss, es) && WellFormed(s) && s.members == MEMBERS && ss[|es|] == s
  }

  lemma Extend(ss: seq<System>, es: seq<Event>, s: System, e: Event) returns (s': System)
    requires Reaches(ss, es, s) && Enabled(s, e)
    ensures s' == Step(s, e) && Reaches(ss + [s'], es + [e], s')
  {
    s' := Step(s, e);
    var all, events := ss + [s'], es + [e];
    forall k | 0 <= k < |events|
      ensures WellFormed(all[k]) && Enabled(all[k], events[k]) && all[k + 1] == Step(all[k], events[k])
    {
      if k < |es| { assert all[k] == ss[k] && events[k] == es[k]; }
    }
  }

  lemma Campaigns(n: Node, id: NodeId, term: nat)
    requires Known(n, id, term) && term + 1 < TERM_LIMIT && id in MEMBERS
    ensures var out := StartElection(n, {});
            IsCandidate(out.node, id, term + 1, term + 1) &&
            forall p :: p in MEMBERS - {id} ==> Packet(p, VoteRequest(id, term + 1)) in out.sent
  {
    assert |n.peers| == |n.peers.Keys| == |MEMBERS - {id}| == 2;
    assert n.peers.Keys * {} == {} && n.peers.Keys - {} == n.peers.Keys;
  }

  // A node of an earlier term follows and votes.
  lemma Grants(n: Node, id: NodeId, candidate: NodeId, term: nat)
    requires IsFollower(n, id, n.term) && n.term < term
    ensures var out := OnVoteRequest(n, candidate, term);
            IsFollower(out.node, id, term) && Packet(candidate, VoteResponse(id, term, true)) in out.sent
  {
  }

  // The second vote wins, in whatever term the node then is.
  lemma Wins(n: Node, id: NodeId, voter: NodeId, electionTerm: nat)
    requires IsCandidate(n, id, n.term, electionTerm) && voter != id && electionTerm <= n.term
    ensures IsLeader(OnVoteResponse(n, voter, electionTerm, true).node, id, n.term)
  {
    assert |n.voters + {voter}| == 2;
  }

  lemma Start() returns (s: System)
    ensures Reaches([s], [], s) && forall i :: i in MEMBERS ==> IsFollower(s.nodes[i], i, 0)
  {
    s := System(MEMBERS, map i | i in MEMBERS :: Restarted(i, MEMBERS - {i}, Ballot(0, None)), {}, {});
  }

  // Node 0 stands in term 1, and node 1 votes for it.
  lemma FirstElection() returns (ss: seq<System>, es: seq<Event>, s: System)
    ensures Reaches(ss, es, s)
    ensures IsCandidate(s.nodes[0], 0, 1, 1) && IsFollower(s.nodes[1], 1, 1) && IsFollower(s.nodes[2], 2, 0)
    ensures Packet(0, VoteResponse(1, 1, true)) in s.net
  {
    var s0 := Start();
    var s1 := Extend([s0], [], s0, Timeout(0, {}));
    Campaigns(s0.nodes[0], 0, 0);
    var request := Packet(1, VoteRequest(0, 1));
    assert request in s1.net;
    s := Extend([s0] + [s1], [] + [Timeout(0, {})], s1, Deliver(request));
    Grants(s1.nodes[1], 1, 0, 1);
    ss, es := [s0] + [s1] + [s], [] + [Timeout(0, {})] + [Deliver(request)];
  }

  // Node 1 stands in term 2 and wins it with the vote of node 2; node 0 hears nothing of it.
  lemma SecondElection(ss: seq<System>, es: seq<Event>, s: System)
    returns (ss': seq<System>, es': seq<Event>, s': System)
    requires Reaches(ss, es, s) && IsFollower(s.nodes[1], 1, 1) && IsFollower(s.nodes[2], 2, 0)
    ensures Reaches(ss', es', s') && s'.nodes[0] == s.nodes[0] && s.net <= s'.net && IsLeader(s'.nodes[1], 1, 2)
  {
    var stand := Timeout(1, {});
    var s1 := Extend(ss, es, s, stand);
    Campaigns(s.nodes[1], 1, 1);
    var request := Deliver(Packet(2, VoteRequest(1, 2)));
    assert request.packet in s1.net;
    var s2 := Extend(ss + [s1], es + [stand], s1, request);
    Grants(s1.nodes[2], 2, 1, 2);
    var response := Deliver(Packet(1, VoteResponse(2, 2, true)));
    assert response.packet in s2.net;
    s' := Extend(ss + [s1] + [s2], es + [stand] + [request], s2, response);
    Wins(s2.nodes[1], 1, 2, 2);
    ss', es' := ss + [s1] + [s2] + [s'], es + [stand] + [request] + [response];
  }

  // Node 2 rejoins at node 1, whose node update then raises node 0 to term 2.
  lemma Raise(ss: seq<System>, es: seq<Event>, s: System) returns (ss': seq<System>, es': seq<Event>, s': System)
    requires Reaches(ss, es, s) && IsLeader(s.nodes[1], 1, 2) && Known(s.nodes[0], 0, 1)
    ensures Reaches(ss', es', s') && IsLeader(s'.nodes[1], 1, 2) && s.net <= s'.net
    ensures Known(s'.nodes[0], 0, 2) && s'.nodes[0] == s.nodes[0].(term := 2, peers := s'.nodes[0].peers)
  {
    var rejoin := Rejoin(1, 2);
    var s1 := Extend(ss, es, s, rejoin);
    var update := Deliver(Packet(0, NodeUpdate(2, 2)));
    assert 0 in s.nodes[1].peers.Keys - {2} && update.packet in s1.net;
    s' := Extend(ss + [s1], es + [rejoin], s1, update);
    ss', es' := ss + [s1] + [s'], es + [rejoin] + [update];
  }

  ghost predicate TwoLeaders(s: System, a: NodeId, b: NodeId) {
    a != b && a in s.nodes && b in s.nodes && s.nodes[a].role == s.nodes[b].role == Leader &&
    s.nodes[a].term == s.nodes[b].term
  }

  // A raised leader: node 0 wins term 1 and is raised to the term that node 1 has won.
  lemma RaisedLeaderRun() returns (ss: seq<System>, es: seq<Event>)
    ensures Execution(ss, es) && TwoLeaders(ss[|es|], 0, 1)
  {
    var ss0, es0, s0 := FirstElection();
    var response := Deliver(Packet(0, VoteResponse(1, 1, true)));
    var s1 := Extend(ss0, es0, s0, response);
    Wins(s0.nodes[0], 0, 1, 1);
    var ss2, es2, s2 := SecondElection(ss0 + [s1], es0 + [response], s1);
    var s3;
    ss, es, s3 := Raise(ss2, es2, s2);
  }

  // A raised candidate: the delayed vote of term 1 makes node 0 leader in the raised term.
  lemma RaisedCandidateRun() returns (ss: seq<System>, es: seq<Event>)
    ensures Execution(ss, es) && TwoLeaders(ss[|es|], 0, 1)
  {
    var ss0, es0, s0 := FirstElection();
    var ss1, es1, s1 := SecondElection(ss0, es0, s0);
    var ss2, es2, s2 := Raise(ss1, es1, s1);
    var response := Deliver(Packet(0, VoteResponse(1, 1, true)));
    var s3 := Extend(ss2, es2, s2, response);
    Wins(s2.nodes[0], 0, 1, 1);
    ss, es := ss2 + [s3], es2 + [response];
  }
}
