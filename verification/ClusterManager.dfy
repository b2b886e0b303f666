// The election half of ClusterManager, with its fields updated in place as the handlers do.
// Every handler is proved to have exactly the effect ElectionSpec gives it.
module ClusterManagerModel {
  import opened Wrappers
  import opened ElectionSpec

  class ClusterManager {
    const nodeId: NodeId
    var peers: map<NodeId, nat>
    var currentTerm: nat
    var votedFor: Option<NodeId>
    var state: Role
    var electionTerm: nat
    var votesNeeded: nat
    var voters: set<NodeId>
    var electionWon: bool
    var leaderId: Option<NodeId>
    var leaderTerm: nat
    var stateFile: Ballot

    ghost function View(): Node
      reads this
    {
      Node(nodeId, peers, currentTerm, votedFor, state, electionTerm, votesNeeded, voters, electionWon,
           leaderId, leaderTerm, stateFile)
    }

    // NewClusterManager followed by loadState; a first start reads the empty ballot.
    constructor (id: NodeId, members: set<NodeId>, file: Ballot)
      ensures View() == Restarted(id, members - {id}, file)
    {
      nodeId := id;
      peers := map p | p in members - {id} :: 0;
      currentTerm, votedFor, state := file.term, file.votedFor, Follower;
      electionTerm, votesNeeded, voters, electionWon := 0, 0, {}, false;
      leaderId, leaderTerm := None, 0;
      stateFile := file;
    }

    method PersistState()
      modifies this`stateFile
      ensures View() == Persisted(old(View()))
    {
      stateFile := Ballot(currentTerm, votedFor);
    }

    // Adopt a newer term as a follower with no vote, as three of the handlers do.
    method AdoptTerm(t: nat)
      modifies this`currentTerm, this`state, this`votedFor
      ensures View() == old(View()).(term := t, role := Follower, votedFor := None)
    {
      currentTerm := t;
      state := Follower;
      votedFor := None;
    }

    method SendHeartbeats() returns (sent: set<Packet>)
      ensures sent == ElectionSpec.Beat(View())
    {
      sent := ToAll(peers.Keys, Heartbeat(nodeId, currentTerm, state));
    }

    method BecomeLeader() returns (sent: set<Packet>)
      modifies this
      ensures Outcome(View(), sent) == ElectionSpec.BecomeLeader(old(View()))
    {
      if electionWon { return {}; }
      electionWon := true;
      state := Leader;
      leaderId := Some(nodeId);
      leaderTerm := currentTerm;
      sent := SendHeartbeats();
    }

    // The first half of startElection: the new term, the self-vote and the vote count.
    method BeginCampaign()
      modifies this
      ensures View() == Campaign(old(View()))
    {
      state := Candidate;
      currentTerm := NextTerm(currentTerm);
      votedFor := Some(nodeId);
      PersistState();
      electionTerm := currentTerm;
      electionWon := false;
      voters := {nodeId};
      votesNeeded := (|peers| + 1) / 2 + 1;
    }

    method StartElection(failed: set<NodeId>) returns (sent: set<Packet>)
      modifies this
      ensures Outcome(View(), sent) == ElectionSpec.StartElection(old(View()), failed)
    {
      BeginCampaign();
      if |peers| + 1 == 1 {
        sent := BecomeLeader();
        return;
      }
      sent := ToAll(peers.Keys - failed, VoteRequest(nodeId, currentTerm));
      if peers.Keys * failed != {} {
        state := Follower;
      }
    }

    method HandleVoteRequest(candidate: NodeId, term: nat) returns (sent: set<Packet>)
      modifies this
      ensures Outcome(View(), sent) == OnVoteRequest(old(View()), candidate, term)
    {
      var term' := currentTerm;
      var voteGranted := false;
      if term >= term' {
        if term > term' {
          AdoptTerm(term);
          term' := term;
        }
        if votedFor.None? || votedFor.value == candidate {
          votedFor := Some(candidate);
          voteGranted := true;
        }
      }
      PersistState();
      sent := {Packet(candidate, VoteResponse(nodeId, term', voteGranted))};
    }

    method HandleVoteResponse(voter: NodeId, term: nat, granted: bool) returns (sent: set<Packet>)
      modifies this
      ensures Outcome(View(), sent) == OnVoteResponse(old(View()), voter, term, granted)
    {
      sent := {};
      if state != Candidate { return; }
      if term != electionTerm { return; }
      if term > currentTerm {
        AdoptTerm(term);
        PersistState();
        return;
      }
      if granted {
        voters := voters + {voter};
        var votes := |voters|;
        if votes >= votesNeeded && state == Candidate {
          sent := BecomeLeader();
        }
      }
    }

    method HandleHeartbeat(sender: NodeId, term: nat, role: Role)
      modifies this
      ensures Outcome(View(), {}) == OnHeartbeat(old(View()), sender, term, role)
    {
      if sender !in peers { return; }
      if term > peers[sender] {
        peers := peers[sender := term];
      }
      var term' := currentTerm;
      if term > term' {
        AdoptTerm(term);
        PersistState();
        term' := term;
      }
      if role == Leader && term >= term' {
        if term > leaderTerm || leaderId.None? {
          leaderId := Some(sender);
          leaderTerm := term;
        } else if term == leaderTerm && leaderId.value == sender {
          // the leader already recorded for this term: only the timer is reset
        } else {
          // a conflicting claim for a term that already has a leader is ignored
        }
      }
    }

    // The part of handleJoinRequest that tells the other members.
    method HandleRejoin(about: NodeId) returns (sent: set<Packet>)
      modifies this
      ensures Outcome(View(), sent) == OnRejoin(old(View()), about)
    {
      sent := {};
      if about !in peers { return; }
      peers := peers[about := 0];
      sent := ToAll(peers.Keys - {about}, NodeUpdate(about, currentTerm));
    }

    method HandleNodeUpdate(about: NodeId, term: nat)
      modifies this
      ensures Outcome(View(), {}) == OnNodeUpdate(old(View()), about, term)
    {
      if term > currentTerm {
        currentTerm := term;
      }
      if about in peers {
        peers := peers[about := 0];
      }
    }
  }
}
