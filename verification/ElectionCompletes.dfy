// An election that is not disturbed completes: from any state that a run reaches, a node that is
// nowhere behind can stand, be voted for by all and be followed by all.
module ElectionCompletes {
  import opened Wrappers
  import opened ElectionSpec
  import opened ElectionSafety

  /* Going on with a run */

  // A guarded run so far, and the state it has reached.
  ghost predicate Reaches(ss: seq<System>, es: seq<Event>, s: System) {
    Guarded(ss, es) && ss[|es|] == s
  }

  // One run goes on from another.
  ghost predicate GoesOn(ss: seq<System>, es: seq<Event>, ss': seq<System>, es': seq<Event>) {
    ss <= ss' && es <= es'
  }

  lemma StepsJoin(ss: seq<System>, es: seq<Event>, s: System, e: Event, s': System)
    requires Reaches(ss, es, s) && WellFormed(s) && Enabled(s, e) && !RaisesActive(s, e) && s' == Step(s, e)
    ensures Reaches(ss + [s'], es + [e], s')
  {
    var all, events := ss + [s'], es + [e];
    forall k | 0 <= k < |events|
      ensures WellFormed(all[k]) && Enabled(all[k], events[k]) && all[k + 1] == Step(all[k], events[k])
      ensures !RaisesActive(all[k], events[k])
    {
      if k < |es| { assert all[k] == ss[k] && all[k + 1] == ss[k + 1] && events[k] == es[k]; }
    }
  }

  lemma NodeAt(ss: seq<System>, es: seq<Event>, s: System, i: NodeId)
    requires Reaches(ss, es, s) && i in s.members
    ensures WellFormed(s) && NodeInv(s.members, s.votes, i, s.nodes[i])
  {
    RunsKeepInv(ss, es, |es|);
  }

  // One packet is delivered, to a node other than those a run has settled.
  lemma Delivers(ss: seq<System>, es: seq<Event>, s: System, p: NodeId, m: Message)
    returns (ss': seq<System>, es': seq<Event>, s': System)
    requires Reaches(ss, es, s) && p in s.members && Packet(p, m) in s.net && !m.NodeUpdate?
    ensures WellFormed(s) && Reaches(ss', es', s') && GoesOn(ss, es, ss', es')
    ensures s'.members == s.members && s.net <= s'.net && Receive(s.nodes[p], m).sent <= s'.net
    ensures s'.nodes == s.nodes[p := Receive(s.nodes[p], m).node]
  {
    NodeAt(ss, es, s, p);
    var e := Deliver(Packet(p, m));
    s' := Step(s, e);
    StepsJoin(ss, es, s, e, s');
    ss', es' := ss + [s'], es + [e];
  }

  /* The votes */

  ghost predicate Votes(s: System, i: NodeId, t: nat, p: NodeId) {
    p in s.nodes && s.nodes[p].role == Follower && s.nodes[p].term == t && Packet(i, VoteResponse(p, t, true)) in s.net
  }

  ghost predicate Stands(s: System, i: NodeId, t: nat) {
    && i in s.nodes && s.nodes[i].role == Candidate && s.nodes[i].term == t && s.nodes[i].voters == {i}
    && forall p :: p in s.members - {i} ==> Packet(p, VoteRequest(i, t)) in s.net
  }

  ghost predicate Behind(s: System, t: nat, p: NodeId) {
    p in s.nodes && s.nodes[p].term < t
  }

  lemma Grants(n: Node, p: NodeId, i: NodeId, t: nat)
    requires n.id == p && n.term < t
    ensures var out := OnVoteRequest(n, i, t);
            out.node.role == Follower && out.node.term == t && Packet(i, VoteResponse(p, t, true)) in out.sent
  {
  }

  // All the others, of whom some have not been asked yet, vote.
  lemma AllVote(ss: seq<System>, es: seq<Event>, s: System, i: NodeId, t: nat, rest: set<NodeId>)
    returns (ss': seq<System>, es': seq<Event>, s': System)
    requires Reaches(ss, es, s) && Stands(s, i, t) && rest <= s.members - {i}
    requires forall p :: p in rest ==> Behind(s, t, p)
    requires forall p :: p in s.members - {i} - rest ==> Votes(s, i, t, p)
    ensures Reaches(ss', es', s') && GoesOn(ss, es, ss', es') && s'.members == s.members && Stands(s', i, t)
    ensures forall p :: p in s.members - {i} ==> Votes(s', i, t, p)
    decreases rest
  {
    if p :| p in rest {
      NodeAt(ss, es, s, p);
      Grants(s.nodes[p], p, i, t);
      var ss1, es1, s1 := Delivers(ss, es, s, p, VoteRequest(i, t));
      assert Behind(s, t, p);
      forall q | q in s.members - {i} - (rest - {p}) ensures Votes(s1, i, t, q) {
        if q != p { assert Votes(s, i, t, q); }
      }
      forall q | q in rest - {p} ensures Behind(s1, t, q) {
        assert Behind(s, t, q);
      }
      ss', es', s' := AllVote(ss1, es1, s1, i, t, rest - {p});
    } else {
      ss', es', s' := ss, es, s;
    }
  }

  /* The count */

  // i leads term t, records itself, and has told everyone.
  ghost predicate IsWon(s: System, i: NodeId, t: nat) {
    && i in s.nodes && Follows(s.nodes[i], Leader, i, t)
    && forall p :: p in s.members - {i} ==> Packet(p, Heartbeat(i, t, Leader)) in s.net
  }

  predicate Follows(n: Node, role: Role, i: NodeId, t: nat) {
    n.role == role && n.term == t && n.leaderId == Some(i) && n.leaderTerm == t
  }

  // The votes of all but the rest are counted, and are enough or too few.
  ghost predicate Counts(s: System, i: NodeId, t: nat, rest: set<NodeId>) {
    || IsWon(s, i, t)
    || (i in s.nodes && s.nodes[i].role == Candidate && s.nodes[i].term == t &&
        s.nodes[i].voters == s.members - rest && |s.members - rest| < |s.members| / 2 + 1)
  }

  lemma CountsOne(members: set<NodeId>, votes: set<Vote>, i: NodeId, n: Node, t: nat, p: NodeId, voters: set<NodeId>)
    requires NodeInv(members, votes, i, n) && n.role == Candidate && n.term == t && voters == n.voters + {p}
    ensures var out := OnVoteResponse(n, p, t, true);
            if |voters| < |members| / 2 + 1 then out.node == n.(voters := voters)
            else Follows(out.node, Leader, i, t) &&
                 forall q :: q in members - {i} ==> Packet(q, Heartbeat(i, t, Leader)) in out.sent
  {
  }

  lemma VotesStay(s: System, s': System, i: NodeId, t: nat)
    requires s'.members == s.members && s.net <= s'.net && s'.nodes.Keys == s.nodes.Keys
    requires forall p :: p in s.nodes && p != i ==> s'.nodes[p] == s.nodes[p]
    requires forall p :: p in s.members - {i} ==> Votes(s, i, t, p)
    ensures forall p :: p in s.members - {i} ==> Votes(s', i, t, p)
  {
    forall p | p in s.members - {i} ensures Votes(s', i, t, p) {
      assert Votes(s, i, t, p);
    }
  }

  ghost predicate AllVoted(s: System, i: NodeId, t: nat) {
    forall p :: p in s.members - {i} ==> Votes(s, i, t, p)
  }

  lemma CountNext(ss: seq<System>, es: seq<Event>, s: System, i: NodeId, t: nat, rest: set<NodeId>, p: NodeId)
    returns (ss': seq<System>, es': seq<Event>, s': System)
    requires Reaches(ss, es, s) && i in s.members && Counts(s, i, t, rest) && !IsWon(s, i, t) && AllVoted(s, i, t)
    requires rest <= s.members - {i} && p in rest
    ensures Reaches(ss', es', s') && GoesOn(ss, es, ss', es') && s'.members == s.members
    ensures Counts(s', i, t, rest - {p}) && AllVoted(s', i, t)
  {
    NodeAt(ss, es, s, i);
    assert s.members - (rest - {p}) == (s.members - rest) + {p};
    CountsOne(s.members, s.votes, i, s.nodes[i], t, p, s.members - (rest - {p}));
    assert Votes(s, i, t, p);
    ss', es', s' := Delivers(ss, es, s, i, VoteResponse(p, t, true));
    VotesStay(s, s', i, t);
  }

  lemma AllCounted(ss: seq<System>, es: seq<Event>, s: System, i: NodeId, t: nat, rest: set<NodeId>)
    returns (ss': seq<System>, es': seq<Event>, s': System)
    requires Reaches(ss, es, s) && i in s.members && rest <= s.members - {i} && Counts(s, i, t, rest)
    requires AllVoted(s, i, t)
    ensures Reaches(ss', es', s') && GoesOn(ss, es, ss', es') && s'.members == s.members && IsWon(s', i, t)
    ensures AllVoted(s', i, t)
    decreases rest
  {
    if rest == {} {
      AllAreEnough(s, i, t);
      ss', es', s' := ss, es, s;
    } else if IsWon(s, i, t) {
      ss', es', s' := ss, es, s;
    } else {
      var p :| p in rest;
      var ss1, es1, s1 := CountNext(ss, es, s, i, t, rest, p);
      ss', es', s' := AllCounted(ss1, es1, s1, i, t, rest - {p});
    }
  }

  lemma AllAreEnough(s: System, i: NodeId, t: nat)
    requires Counts(s, i, t, {}) && i in s.members
    ensures IsWon(s, i, t)
  {
    assert s.members - {} == s.members;
  }

  /* The announcement */

  ghost predicate Hears(s: System, t: nat, p: NodeId) {
    p in s.nodes && s.nodes[p].role == Follower && s.nodes[p].term == t
  }

  lemma BelievesOne(members: set<NodeId>, votes: set<Vote>, p: NodeId, n: Node, i: NodeId, t: nat)
    requires NodeInv(members, votes, p, n) && n.role == Follower && n.term == t && i in members - {p}
    requires !ConflictingClaim(n, i, t)
    ensures Follows(OnHeartbeat(n, i, t, Leader).node, Follower, i, t)
  {
  }

  lemma AllFollow(ss: seq<System>, es: seq<Event>, s: System, i: NodeId, t: nat, rest: set<NodeId>)
    returns (ss': seq<System>, es': seq<Event>, s': System)
    requires Reaches(ss, es, s) && IsWon(s, i, t) && i in s.members && rest <= s.members - {i}
    requires forall p :: p in rest ==> Hears(s, t, p)
    requires forall p :: p in s.members - {i} - rest ==> p in s.nodes && Follows(s.nodes[p], Follower, i, t)
    ensures Reaches(ss', es', s') && GoesOn(ss, es, ss', es') && s'.members == s.members && IsWon(s', i, t)
    ensures forall p :: p in s.members - {i} ==> p in s'.nodes && Follows(s'.nodes[p], Follower, i, t)
    decreases rest
  {
    if p :| p in rest {
      NodeAt(ss, es, s, p);
      assert Hears(s, t, p);
      NoConflictingClaim(ss, es, |es|, Packet(p, Heartbeat(i, t, Leader)));
      BelievesOne(s.members, s.votes, p, s.nodes[p], i, t);
      var ss1, es1, s1 := Delivers(ss, es, s, p, Heartbeat(i, t, Leader));
      forall q | q in rest - {p} ensures Hears(s1, t, q) {
        assert Hears(s, t, q);
      }
      ss', es', s' := AllFollow(ss1, es1, s1, i, t, rest - {p});
    } else {
      ss', es', s' := ss, es, s;
    }
  }

  /* All of it */

  lemma Stand(ss: seq<System>, es: seq<Event>, s: System, i: NodeId)
    returns (ss': seq<System>, es': seq<Event>, s': System)
    requires Reaches(ss, es, s) && i in s.members && s.nodes.Keys == s.members
    requires s.nodes[i].role != Leader && s.nodes[i].term + 1 < TERM_LIMIT
    ensures Reaches(ss', es', s') && GoesOn(ss, es, ss', es') && s'.members == s.members
    ensures var out := StartElection(s.nodes[i], {}); s'.nodes == s.nodes[i := out.node] && out.sent <= s'.net
  {
    var e := Timeout(i, {});
    s' := Step(s, e);
    StepsJoin(ss, es, s, e, s');
    ss', es' := ss + [s'], es + [e];
  }

  // The node that has stood has won alone, or is where the votes begin.
  lemma Stood(s: System, s': System, i: NodeId, t: nat)
    requires i in s.members && s.nodes.Keys == s.members && NodeInv(s.members, s.votes, i, s.nodes[i])
    requires t == s.nodes[i].term + 1 < TERM_LIMIT && s'.members == s.members
    requires var out := StartElection(s.nodes[i], {}); s'.nodes == s.nodes[i := out.node] && out.sent <= s'.net
    ensures if s.members == {i} then AllFollowing(s', s.members, i, t) else Stands(s', i, t)
  {
    Campaigns(s.members, s.votes, i, s.nodes[i]);
  }

  lemma AtLeastTwo(members: set<NodeId>, i: NodeId)
    requires i in members && members != {i}
    ensures |members| >= 2
  {
    assert members == {i} + (members - {i});
    var p :| p in members - {i};
    assert |members - {i} - {p}| == |members| - 2;
  }

  lemma Campaigns(members: set<NodeId>, votes: set<Vote>, i: NodeId, n: Node)
    requires NodeInv(members, votes, i, n) && n.term + 1 < TERM_LIMIT
    ensures var out := StartElection(n, {});
            if members == {i} then Follows(out.node, Leader, i, n.term + 1)
            else out.node.role == Candidate && out.node.term == n.term + 1 && out.node.voters == {i} &&
                 forall p :: p in members - {i} ==> Packet(p, VoteRequest(i, n.term + 1)) in out.sent
  {
    assert |n.peers| == |n.peers.Keys|;
    assert n.peers.Keys * {} == {} && n.peers.Keys - {} == n.peers.Keys;
    if members != {i} {
      AtLeastTwo(members, i);
      assert |members - {i}| == |members| - 1;
    } else {
      assert members - {i} == {};
    }
  }

  // i leads term t and every other member follows it.
  ghost predicate AllFollowing(s: System, members: set<NodeId>, i: NodeId, t: nat) {
    s.nodes.Keys == members &&
    forall p :: p in members ==> Follows(s.nodes[p], if p == i then Leader else Follower, i, t)
  }

  // Once i stands and the others are behind it, they vote, i wins, and they follow.
  lemma RestCompletes(ss: seq<System>, es: seq<Event>, s: System, i: NodeId, t: nat)
    returns (ss': seq<System>, es': seq<Event>, s': System)
    requires Reaches(ss, es, s) && i in s.members && s.members != {i} && Stands(s, i, t)
    requires forall p :: p in s.members - {i} ==> Behind(s, t, p)
    ensures Reaches(ss', es', s') && GoesOn(ss, es, ss', es') && AllFollowing(s', s.members, i, t)
  {
    var others := s.members - {i};
    var ss1, es1, s1 := AllVote(ss, es, s, i, t, others);
    assert s1.members - others == {i};
    AtLeastTwo(s1.members, i);
    var ss2, es2, s2 := AllCounted(ss1, es1, s1, i, t, others);
    forall p | p in others ensures Hears(s2, t, p) {
      assert Votes(s2, i, t, p);
    }
    ss', es', s' := AllFollow(ss2, es2, s2, i, t, others);
    NodeAt(ss', es', s', i);
  }

  lemma OthersStayBehind(s: System, s': System, i: NodeId, t: nat)
    requires s.nodes.Keys == s.members && s'.nodes.Keys == s.members && i in s.members
    requires forall p :: p in s.nodes ==> s.nodes[p].term < t
    requires forall p :: p in s.nodes && p != i ==> s'.nodes[p] == s.nodes[p]
    ensures forall p :: p in s.members - {i} ==> Behind(s', t, p)
  {
  }

  lemma FromHere(ss: seq<System>, es: seq<Event>, s: System, i: NodeId, t: nat)
    returns (ss': seq<System>, es': seq<Event>, s': System)
    requires Reaches(ss, es, s) && i in s.members && s.nodes.Keys == s.members
    requires s.nodes[i].role != Leader && t == s.nodes[i].term + 1 < TERM_LIMIT
    requires forall p :: p in s.nodes ==> s.nodes[p].term < t
    ensures Reaches(ss', es', s') && GoesOn(ss, es, ss', es') && AllFollowing(s', s.members, i, t)
  {
    NodeAt(ss, es, s, i);
    var ss1, es1, s1 := Stand(ss, es, s, i);
    Stood(s, s1, i, t);
    if s.members == {i} {
      ss', es', s' := ss1, es1, s1;
    } else {
      OthersStayBehind(s, s1, i, t);
      ss', es', s' := RestCompletes(ss1, es1, s1, i, t);
    }
  }

  // From any state of any guarded run, a node that does not lead and whose term no other exceeds
  // can still win: some continuation makes it leader of the next term, with every other member
  // following it.
  lemma ElectionCompletes(ss: seq<System>, es: seq<Event>, i: NodeId)
    returns (ss': seq<System>, es': seq<Event>)
    requires Guarded(ss, es) && i in ss[|es|].members && i in ss[|es|].nodes
    requires ss[|es|].nodes[i].role != Leader && ss[|es|].nodes[i].term + 1 < TERM_LIMIT
    requires forall p :: p in ss[|es|].nodes ==> ss[|es|].nodes[p].term <= ss[|es|].nodes[i].term
    ensures Guarded(ss', es') && ss <= ss' && es <= es'
    ensures AllFollowing(ss'[|es'|], ss[|es|].members, i, ss[|es|].nodes[i].term + 1)
  {
    var s := ss[|es|];
    NodeAt(ss, es, s, i);
    var s';
    ss', es', s' := FromHere(ss, es, s, i, s.nodes[i].term + 1);
  }
}
