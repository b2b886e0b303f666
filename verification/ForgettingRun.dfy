// A run in which two replicas go through a full rotation each way and still read differently,
// because one of them has forgotten a delete that the other never heard.
module ForgettingRun {
  import opened Wrappers
  import opened Hlc
  import opened LwwSpec
  import opened LwwConvergence
  import opened LwwStore
  import opened LwwKeyspace
  import opened Replication
  import opened ReplicaNodeModel
  import opened ReplicaRun
  import opened ReplicaHeard
  import opened ReplicaAgreement

  const ADDED := Stamp(HLCTimestamp(10, 0), 1)
  const REMOVED := Stamp(HLCTimestamp(20, 0), 1)

  // The set with its one member, and with the member removed.
  const WITH := State(map["k" := Elements(Crdt(map["x" := ADDED], map[]))], map[])
  const WITHOUT := State(map["k" := Elements(Crdt(map["x" := ADDED], map["x" := REMOVED]))], map[])

  const LAST := 4 + 2 * NUM_SHARDS

  function IsSet(key: string): bool {
    key == "k"
  }

  // Node 1 adds the member and pushes it to node 2, removes it and does not push that, pulls
  // every shard of node 2 and collects the removal.  Then node 2 pulls every shard of node 1.
  function StepAt(hash: string -> nat, k: nat): Step {
    if k == 0 then Write(1, 10, Add("k", ["x"]))
    else if k == 1 then Push(2, 0, 0)
    else if k == 2 then Write(1, 20, Rem("k", ["x"]))
    else if k < 3 + NUM_SHARDS then Pull(1, 30, 2, 3, k - 3, Digest(hash, k - 3))
    else if k == 3 + NUM_SHARDS then Step.Gc(1, 130, 30)
    else Pull(2, 140, 1, 4 + NUM_SHARDS, k - 4 - NUM_SHARDS, [])
  }

  function Digest(hash: string -> nat, shard: nat): seq<Entry> {
    if shard == ShardOf(hash, "k") then [Entry("k", "x", "", ADDED, false)] else []
  }

  function First(k: nat): Replica {
    if k == 0 then NEW_REPLICA
    else if k <= 2 then Replica(ADDED.ts, WITH, map[])
    else if k <= 3 + NUM_SHARDS then Replica(REMOVED.ts, WITHOUT, map[])
    else Replica(REMOVED.ts, EMPTY_STATE, map[])
  }

  function Second(k: nat): Replica {
    if k <= 1 then NEW_REPLICA else Replica(HLCTimestamp(10, 1), WITH, map[])
  }

  function ClockAfter(hash: string -> nat, k: nat): HLCTimestamp {
    if StepAt(hash, k).node == 1 then First(k + 1).clock else Second(k + 1).clock
  }

  function TheRun(hash: string -> nat): Trace {
    Trace(hash, {1, 2}, seq(LAST, k requires 0 <= k < LAST => StepAt(hash, k)),
          seq(LAST, k requires 0 <= k < LAST => ClockAfter(hash, k)),
          seq(LAST + 1, k requires 0 <= k <= LAST => map[1 := First(k), 2 := Second(k)]))
  }

  lemma TheSteps(hash: string -> nat, k: nat)
    requires k < LAST
    ensures var t := TheRun(hash);
            && |t.steps| == |t.times| == LAST && |t.ss| == LAST + 1 && t.steps[k] == StepAt(hash, k)
            && t.times[k] == ClockAfter(hash, k)
            && t.ss[k] == map[1 := First(k), 2 := Second(k)]
            && t.ss[k + 1] == map[1 := First(k + 1), 2 := Second(k + 1)]
  {
  }

  lemma OneMember(s: State, st: Stamp)
    ensures Run(s, AddOps("k", st, ["x"])) == Apply(s, AddOp("k", "x", st))
    ensures Run(s, RemOps("k", st, ["x"])) == Apply(s, RemOp("k", "x", st))
  {
    assert AddOps("k", st, ["x"]) == [AddOp("k", "x", st)] && RemOps("k", st, ["x"]) == [RemOp("k", "x", st)];
    assert Run(s, [AddOp("k", "x", st)]) == Run(Apply(s, AddOp("k", "x", st)), []);
    assert Run(s, [RemOp("k", "x", st)]) == Run(Apply(s, RemOp("k", "x", st)), []);
  }

  lemma TheMemberComesAndGoes()
    ensures Run(EMPTY_STATE, OpsFor(Add("k", ["x"]), ADDED)) == WITH
    ensures ApplyEvent(EMPTY_STATE, EventFor(Add("k", ["x"]), ADDED)) == WITH
    ensures Run(WITH, OpsFor(Rem("k", ["x"]), REMOVED)) == WITHOUT
  {
    OneMember(EMPTY_STATE, ADDED);
    OneMember(WITH, REMOVED);
    assert Apply(EMPTY_STATE, AddOp("k", "x", ADDED)) == WITH;
    assert Apply(WITH, RemOp("k", "x", REMOVED)) == WITHOUT;
    assert Nuls("x") == 0 && Nuls("k") == 0;
    EventRunsAsOps(EMPTY_STATE, Add("k", ["x"]), ADDED);
  }

  lemma AddIsOk(hash: string -> nat)
    ensures StepOk(TheRun(hash), 0)
  {
    TheSteps(hash, 0);
    TheMemberComesAndGoes();
  }

  lemma PushIsOk(hash: string -> nat)
    ensures StepOk(TheRun(hash), 1)
  {
    TheSteps(hash, 0);
    TheSteps(hash, 1);
    TheMemberComesAndGoes();
  }

  lemma RemoveIsOk(hash: string -> nat)
    ensures StepOk(TheRun(hash), 2)
  {
    TheSteps(hash, 2);
    TheMemberComesAndGoes();
  }

  lemma PullChangesNothing(hash: string -> nat, shard: nat)
    ensures ShardDigest(WITH, hash, shard, Digest(hash, shard))
    ensures ApplyEvents(WITHOUT, EventsOf(Digest(hash, shard))) == WITHOUT
  {
    var x, slot := Entry("k", "x", "", ADDED, false), ElementSlot("k", "x");
    assert Winner(WITH, slot) == Some(Fact(ADDED, Some(""))) && x == EntryFor(slot, Winner(WITH, slot).value);
    forall other: Slot | other != slot ensures Winner(WITH, other).None? {}
    if shard == ShardOf(hash, "k") {
      var digest := [x];
      EntriesRunAsOps(WITHOUT, digest);
      assert OpsOf(digest) == [AddOp("k", "x", ADDED)];
      assert Run(WITHOUT, OpsOf(digest)) == Run(Apply(WITHOUT, AddOp("k", "x", ADDED)), []);
      assert Apply(WITHOUT, AddOp("k", "x", ADDED)) == WITHOUT;
    }
  }

  lemma EmptyPullChangesNothing(hash: string -> nat, shard: nat)
    ensures ShardDigest(EMPTY_STATE, hash, shard, []) && ApplyEvents(WITH, EventsOf([])) == WITH
  {
  }

  lemma CollectionForgets()
    ensures Collect(WITHOUT, {}, 100) == EMPTY_STATE
  {
    assert Prune(WITHOUT.data["k"].crdt, 100) == EMPTY_CRDT;
  }

  lemma PullsAreOk(hash: string -> nat, k: nat)
    requires 3 <= k < LAST
    ensures StepOk(TheRun(hash), k)
  {
    TheSteps(hash, k);
    TheSteps(hash, 3);
    TheSteps(hash, 4 + NUM_SHARDS);
    if k < 3 + NUM_SHARDS {
      PullChangesNothing(hash, k - 3);
    } else if k == 3 + NUM_SHARDS {
      CollectionForgets();
    } else {
      EmptyPullChangesNothing(hash, k - 4 - NUM_SHARDS);
    }
  }

  lemma StepsAreOk(hash: string -> nat, k: nat)
    requires k < LAST
    ensures |TheRun(hash).steps| == |TheRun(hash).times| == LAST && |TheRun(hash).ss| == LAST + 1
    ensures StepOk(TheRun(hash), k)
  {
    TheSteps(hash, k);
    if k == 0 {
      AddIsOk(hash);
    } else if k == 1 {
      PushIsOk(hash);
    } else if k == 2 {
      RemoveIsOk(hash);
    } else {
      PullsAreOk(hash, k);
    }
  }

  lemma TheStart(hash: string -> nat)
    ensures var t := TheRun(hash); t.ss[0] == (map n | n in t.nodes :: NEW_REPLICA)
  {
    TheSteps(hash, 0);
  }

  lemma TheRunIsExecution(hash: string -> nat)
    ensures Execution(TheRun(hash)) && SoundTrace(TheRun(hash), IsSet)
  {
    var t := TheRun(hash);
    StepsAreOk(hash, 0);
    forall k | 0 <= k < LAST ensures StepOk(t, k) {
      StepsAreOk(hash, k);
    }
    TheStart(hash);
    TheRunIsSound(hash);
  }

  lemma TheRunIsSound(hash: string -> nat)
    ensures SoundTrace(TheRun(hash), IsSet)
  {
    assert Nuls("x") == 0 && Nuls("k") == 0;
  }

  lemma BothRotate(hash: string -> nat)
    ensures Rotated(TheRun(hash), 1, 2, 3, LAST) && Rotated(TheRun(hash), 2, 1, 3, LAST)
  {
    var t := TheRun(hash);
    forall shard: nat | shard < NUM_SHARDS
      ensures Asked(t, 1, 2, shard, 3, LAST) && Asked(t, 2, 1, shard, 3, LAST)
    {
      TheSteps(hash, 3 + shard);
      TheSteps(hash, 4 + NUM_SHARDS + shard);
      assert PulledAt(t, 1, 2, shard, 3, 3 + shard) && PulledAt(t, 2, 1, shard, 3, 4 + NUM_SHARDS + shard);
    }
  }

  // All there is to hear was heard by node 1 before it began.
  lemma NothingNewIsHeard(hash: string -> nat)
    requires Execution(TheRun(hash))
    ensures Quiet(TheRun(hash), 1, 2, 3, LAST)
  {
    var t := TheRun(hash);
    forall op | op in Heard(t, 1, LAST) || op in Heard(t, 2, LAST) ensures op in Heard(t, 1, 3) {
      var i := HeardBy(hash, op);
      TheSteps(hash, i);
      assert i == 0 || i == 2;
      HeardAtOnce(t, i);
      HeardStays(t, 1, i + 1, 3, op);
    }
  }

  lemma HeardBy(hash: string -> nat, op: Op) returns (i: nat)
    requires Execution(TheRun(hash))
    requires op in Heard(TheRun(hash), 1, LAST) || op in Heard(TheRun(hash), 2, LAST)
    ensures var t := TheRun(hash); IsWrite(t, i) && op in OpsFor(t.steps[i].update, StampAt(t, i))
  {
    if op in Heard(TheRun(hash), 1, LAST) {
      i := HeardIsWritten(TheRun(hash), 1, LAST, op);
    } else {
      i := HeardIsWritten(TheRun(hash), 2, LAST, op);
    }
  }

  lemma HeardAtOnce(t: Trace, i: nat)
    requires Execution(t) && IsWrite(t, i)
    ensures forall op :: op in OpsFor(t.steps[i].update, StampAt(t, i)) ==> op in Heard(t, t.steps[i].node, i + 1)
  {
    assert Heard(t, t.steps[i].node, i + 1) == Heard(t, t.steps[i].node, i) + Told(t, i);
  }

  // The digest that node 1 pulls does not take effect, and no other brings anything.
  lemma NoStepIsStale(hash: string -> nat, k: nat, op: Op, d: Op)
    requires Execution(TheRun(hash)) && k < LAST
    ensures !StaleOp(TheRun(hash), k, op, d)
  {
    var t := TheRun(hash);
    TheSteps(hash, k);
    if k == 0 {
      assert Heard(t, 1, 0) == [];
    } else if k == 1 {
      assert Heard(t, 2, 1) == Heard(t, 2, 0) == [];
    } else if k == 2 {
      RemovalIsNoAdd(hash, op);
    } else if k < 3 + NUM_SHARDS {
      PulledIsOld(hash, k, op);
    }
  }

  lemma RemovalIsNoAdd(hash: string -> nat, op: Op)
    requires Execution(TheRun(hash))
    ensures op in Arriving(TheRun(hash), 2) ==> FactOf(op).content.None?
  {
    TheSteps(hash, 2);
    assert RemOps("k", REMOVED, ["x"]) == [RemOp("k", "x", REMOVED)];
  }

  lemma PulledIsOld(hash: string -> nat, k: nat, op: Op)
    requires Execution(TheRun(hash)) && 3 <= k < 3 + NUM_SHARDS
    ensures op in Arriving(TheRun(hash), k) ==> !Lands(TheRun(hash), k, op)
  {
    TheSteps(hash, k);
    assert op in OpsOf(Digest(hash, k - 3)) ==> op == AddOp("k", "x", ADDED);
    assert Winner(WITHOUT, ElementSlot("k", "x")) == Some(Fact(REMOVED, None));
  }

  // Everything that RotationsAgree asks for but Shares holds, and the replicas disagree.
  lemma ForgettingDisagrees(hash: string -> nat)
    ensures var t := TheRun(hash);
            && Execution(t) && SoundTrace(t, IsSet) && Quiet(t, 1, 2, 3, LAST)
            && NothingStale(t, 1, LAST) && NothingStale(t, 2, LAST)
            && Rotated(t, 1, 2, 3, LAST) && Rotated(t, 2, 1, 3, LAST)
            && 1 in t.ss[LAST] && 2 in t.ss[LAST] && !SameReads(t.ss[LAST][1].state, t.ss[LAST][2].state)
  {
    var t := TheRun(hash);
    TheRunIsExecution(hash);
    BothRotate(hash);
    NothingNewIsHeard(hash);
    forall k | 0 <= k < LAST ensures !StaleLands(t, k) {
      forall op, d ensures !StaleOp(t, k, op, d) {
        NoStepIsStale(hash, k, op, d);
      }
    }
    TheSteps(hash, LAST - 1);
    assert "x" in MembersOf(WITH, "k") && "x" !in MembersOf(EMPTY_STATE, "k");
  }
}
