// A node's own writes: which of them land, and what hides the others.
module LocalWrites {
  import opened Wrappers
  import opened Hlc
  import opened LwwSpec
  import opened LwwConvergence
  import opened LwwStore
  import opened LwwKeyspace
  import opened Replication
  import opened ReplicaNodeModel
  import opened ReplicaRun
  import opened ReplicaHeard

  /* What a replica holds beyond its clock */

  // The fact came to n in a digest.
  ghost predicate CameByPull(t: Trace, n: Origin, k: nat, slot: Slot, f: Fact)
    requires Execution(t)
  {
    exists i, op :: 0 <= i < k && i < |t.steps| && t.steps[i].Pull? && t.steps[i].node == n &&
                    op in Arriving(t, i) && SlotOf(op) == slot && FactOf(op) == f
  }

  // A fact held at step k that is stamped after the node's clock came in a digest.
  ghost predicate BehindOrPulled(t: Trace, n: Origin, k: nat, clock: HLCTimestamp, slot: Slot, v: Option<Fact>)
    requires Execution(t)
  {
    v.Some? && v.value.stamp.ts.After(clock) ==> CameByPull(t, n, k, slot, v.value)
  }

  ghost predicate SlotBehindOrPulled(t: Trace, n: Origin, k: nat, slot: Slot)
    requires Execution(t) && k <= |t.steps| && n in t.ss[k]
  {
    BehindOrPulled(t, n, k, Clock(t, k, n), slot, Winner(t.ss[k][n].state, slot))
  }

  lemma StaysBehindOrPulled(t: Trace, n: Origin, k: nat, clock: HLCTimestamp, clock': HLCTimestamp, slot: Slot,
                            v: Option<Fact>)
    requires Execution(t) && BehindOrPulled(t, n, k, clock, slot, v) && !clock.After(clock')
    ensures BehindOrPulled(t, n, k + 1, clock', slot, v)
  {
    if v.Some? { NotBefore(v.value.stamp.ts, clock, clock'); }
  }

  lemma BroughtIsBehindOrPulled(t: Trace, k: nat, slot: Slot, g: Option<Fact>)
    requires Execution(t) && k < |t.steps| && OneFact(slot, Arriving(t, k), g)
    ensures BehindOrPulled(t, t.steps[k].node, k + 1, t.times[k], slot, g)
  {
    assert StepOk(t, k);
    if g.Some? {
      var op :| op in Arriving(t, k) && SlotOf(op) == slot && FactOf(op) == g.value;
      if Ticks(t, k) {
        var i := Origins(t, k);
        OpsOfUpdate(t.steps[i].update, StampAt(t, i), op);
        StepAdvances(t, k, t.steps[k].node);
      }
    }
  }

  lemma StepStaysBehind(t: Trace, isSet: string -> bool, k: nat, slot: Slot)
    requires Execution(t) && SoundTrace(t, isSet) && k < |t.steps| && PeerGrounded(t, isSet, k)
    requires var n := t.steps[k].node; Grounded(t, isSet, n, k) && SlotBehindOrPulled(t, n, k, slot)
    ensures var n := t.steps[k].node; n in t.ss[k + 1] && SlotBehindOrPulled(t, n, k + 1, slot)
  {
    assert StepOk(t, k);
    var n := t.steps[k].node;
    StepAdvances(t, k, n);
    var g := StepLeaves(t, isSet, k, slot);
    BroughtIsBehindOrPulled(t, k, slot, g);
    StaysBehindOrPulled(t, n, k, Clock(t, k, n), Clock(t, k + 1, n), slot, Winner(t.ss[k][n].state, slot));
  }

  lemma {:induction false} HeldIsBehindOrPulled(t: Trace, isSet: string -> bool, n: Origin, k: nat, slot: Slot)
    requires Execution(t) && SoundTrace(t, isSet) && k <= |t.steps| && n in t.nodes
    ensures n in t.ss[k] && SlotBehindOrPulled(t, n, k, slot)
    decreases k
  {
    if k > 0 {
      HeldIsBehindOrPulled(t, isSet, n, k - 1, slot);
      assert StepOk(t, k - 1);
      var e := t.steps[k - 1];
      if e.node == n {
        RunsAreGrounded(t, isSet, n, k - 1);
        PeersAreGrounded(t, isSet, k - 1);
        StepStaysBehind(t, isSet, k - 1, slot);
      } else {
        var r := t.ss[k][n];
        StaysBehindOrPulled(t, n, k - 1, r.clock, r.clock, slot, Winner(r.state, slot));
      }
    }
  }

  /* Landing */

  // The next stamp of a node: what its clock makes of physical time pt.
  function NextStamp(t: Trace, n: Origin, k: nat, pt: int): Stamp
    requires k < |t.ss| && n in t.ss[k]
  {
    Stamp(AfterNow(Clock(t, k, n), pt), n)
  }

  // No fact that a node holds carries the stamp of a write still to come.
  lemma HeldStampIsOld(t: Trace, isSet: string -> bool, k: nat, slot: Slot)
    requires Execution(t) && SoundTrace(t, isSet) && IsWrite(t, k)
    ensures var n := t.steps[k].node;
            n in t.ss[k] && (Winner(t.ss[k][n].state, slot).Some? ==>
                               Winner(t.ss[k][n].state, slot).value.stamp != StampAt(t, k))
  {
    var n := t.steps[k].node;
    assert StepOk(t, k);
    RunsAreGrounded(t, isSet, n, k);
    var v := Winner(t.ss[k][n].state, slot);
    assert HeldAt(slot, v, Heard(t, n, k));
    if v.Some? {
      var op :| op in Heard(t, n, k) && SlotOf(op) == slot && FactOf(op) == v.value;
      var i := HeardIsWritten(t, n, k, op);
      OpsOfUpdate(t.steps[i].update, StampAt(t, i), op);
      if v.value.stamp == StampAt(t, k) { StampsAreUnique(t, i, k); }
    }
  }

  // What a local write leaves in each of its slots.
  lemma WriteLeaves(t: Trace, isSet: string -> bool, k: nat, op: Op)
    requires Execution(t) && SoundTrace(t, isSet) && IsWrite(t, k) && op in Arriving(t, k)
    ensures var n, slot := t.steps[k].node, SlotOf(op);
            && n in t.ss[k] && n in t.ss[k + 1]
            && op.stamp == StampAt(t, k) == NextStamp(t, n, k, t.steps[k].pt)
            && Winner(t.ss[k + 1][n].state, slot) == Join(slot, Winner(t.ss[k][n].state, slot), FactOf(op))
  {
    assert StepOk(t, k);
    RunsAreGrounded(t, isSet, t.steps[k].node, k);
    var g := StepLeaves(t, isSet, k, SlotOf(op));
    OpsOfUpdate(t.steps[k].update, StampAt(t, k), op);
  }

  // A local write lands in a slot exactly when the stamp that the node's clock gives it next
  // is later than the fact held there; and that is what SetLWW and DeleteLWW report.
  lemma LocalWriteLandsIff(t: Trace, isSet: string -> bool, k: nat, op: Op)
    requires Execution(t) && SoundTrace(t, isSet) && IsWrite(t, k) && op in Arriving(t, k)
    ensures var n, slot := t.steps[k].node, SlotOf(op);
            && n in t.ss[k] && n in t.ss[k + 1]
            && var v := Winner(t.ss[k][n].state, slot);
            && (Winner(t.ss[k + 1][n].state, slot) == Some(FactOf(op)) <==>
                v.None? || NextStamp(t, n, k, t.steps[k].pt).After(v.value.stamp))
            && (op.SetOp? || op.DelOp? ==>
                  (Winner(t.ss[k + 1][n].state, slot) == Some(FactOf(op)) <==>
                   !Superseded(t.ss[k][n].state, op.key, op.stamp)))
  {
    var n := t.steps[k].node;
    WriteLeaves(t, isSet, k, op);
    HeldStampIsOld(t, isSet, k, SlotOf(op));
    assert StepOk(t, k);
    RunsAreGrounded(t, isSet, n, k);
    PeersAreGrounded(t, isSet, k);
    ArrivingIsTyped(t, isSet, k);
    if op.SetOp? || op.DelOp? { SupersededIff(t.ss[k][n].state, op, isSet); }
  }

  // And what hides a write that does not land came in a digest, stamped after the clock.
  lemma OnlyPullsHideWrites(t: Trace, isSet: string -> bool, k: nat, op: Op)
    requires Execution(t) && SoundTrace(t, isSet) && IsWrite(t, k) && op in Arriving(t, k)
    ensures var n, slot := t.steps[k].node, SlotOf(op);
            && n in t.ss[k] && n in t.ss[k + 1]
            && var v := Winner(t.ss[k][n].state, slot);
            Winner(t.ss[k + 1][n].state, slot) != Some(FactOf(op)) ==>
            && v.Some? && Winner(t.ss[k + 1][n].state, slot) == v
            && v.value.stamp.ts.After(Clock(t, k, n)) && CameByPull(t, n, k, slot, v.value)
  {
    var n, slot := t.steps[k].node, SlotOf(op);
    WriteLeaves(t, isSet, k, op);
    LocalWriteLandsIff(t, isSet, k, op);
    assert StepOk(t, k);
    HeldIsBehindOrPulled(t, isSet, n, k, slot);
    StepAdvances(t, k, n);
    if Winner(t.ss[k][n].state, slot).Some? {
      NotBefore(Winner(t.ss[k][n].state, slot).value.stamp.ts, Clock(t, k, n), t.times[k]);
    }
  }

  // So while a node has pulled nothing, every write of its own lands: SetLWW and DeleteLWW
  // never report it dropped.
  lemma LocalWritesLand(t: Trace, isSet: string -> bool, k: nat, op: Op)
    requires Execution(t) && SoundTrace(t, isSet) && IsWrite(t, k) && op in Arriving(t, k)
    requires forall i :: 0 <= i < k && t.steps[i].node == t.steps[k].node ==> !t.steps[i].Pull?
    ensures var n := t.steps[k].node;
            && n in t.ss[k] && n in t.ss[k + 1]
            && Winner(t.ss[k + 1][n].state, SlotOf(op)) == Some(FactOf(op))
            && (op.SetOp? || op.DelOp? ==> !Superseded(t.ss[k][n].state, op.key, op.stamp))
  {
    LocalWriteLandsIff(t, isSet, k, op);
    OnlyPullsHideWrites(t, isSet, k, op);
  }

  // The guard of SetWithHLC and DeleteWithHLC.
  lemma SupersededIff(s: State, op: Op, isSet: string -> bool)
    requires Typed(s, isSet) && TypedOp(op, isSet) && (op.SetOp? || op.DelOp?)
    ensures var v := Winner(s, SlotOf(op));
            Superseded(s, op.key, op.stamp) <==> v.Some? && !op.stamp.After(v.value.stamp)
  {
  }

  // Node 2's clock is ahead.  Node 1 pulls its value and then writes the key itself.
  function HidingRun(hash: string -> nat): Trace {
    var st := Stamp(HLCTimestamp(100, 0), 2);
    var held := State(map["k" := Text("theirs", st)], map[]);
    var theirs := Replica(HLCTimestamp(100, 0), held, map[]);
    Trace(hash, {1, 2},
          [Write(2, 100, Set("k", "theirs")),
           Pull(1, 5, 2, 1, ShardOf(hash, "k"), [Entry("k", "", "theirs", st, false)]),
           Write(1, 6, Set("k", "mine"))],
          [HLCTimestamp(100, 0), ZERO_TIME, HLCTimestamp(6, 0)],
          [map[1 := NEW_REPLICA, 2 := NEW_REPLICA],
           map[1 := NEW_REPLICA, 2 := theirs],
           map[1 := Replica(ZERO_TIME, held, map[]), 2 := theirs],
           map[1 := Replica(HLCTimestamp(6, 0), held, map[]), 2 := theirs]])
  }

  lemma HidingRunStarts(hash: string -> nat)
    ensures StepOk(HidingRun(hash), 0)
  {
    RunOne(EMPTY_STATE, SetOp("k", "theirs", Stamp(HLCTimestamp(100, 0), 2)));
  }

  lemma HidingRunPulls(hash: string -> nat)
    ensures StepOk(HidingRun(hash), 1)
  {
    var st := Stamp(HLCTimestamp(100, 0), 2);
    var digest := [Entry("k", "", "theirs", st, false)];
    DigestOfOne(hash, "k", "theirs", st);
    RunOne(EMPTY_STATE, SetOp("k", "theirs", st));
    EventRunsAsOps(EMPTY_STATE, Set("k", "theirs"), st);
    assert EventsOf(digest) == [EventOf(digest[0])];
    assert ApplyEvents(EMPTY_STATE, EventsOf(digest)) ==
           ApplyEvents(ApplyEvent(EMPTY_STATE, EventOf(digest[0])), []);
  }

  lemma HidingRunDrops(hash: string -> nat)
    ensures StepOk(HidingRun(hash), 2)
  {
    RunOne(HidingRun(hash).ss[2][1].state, SetOp("k", "mine", Stamp(HLCTimestamp(6, 0), 1)));
  }

  // Anti-entropy does not merge stamps into the clock, so the exception is real: in this run
  // a node's own write is dropped after a pull.
  lemma PullHidesLocalWrite(hash: string -> nat)
    ensures var t := HidingRun(hash);
            && Execution(t) && SoundTrace(t, _ => false)
            && t.steps[2] == Write(1, 6, Set("k", "mine")) && 1 in t.ss[3]
            && Get(t.ss[3][1].state, "k") == Some("theirs")
  {
    var t := HidingRun(hash);
    HidingRunStarts(hash);
    HidingRunPulls(hash);
    HidingRunDrops(hash);
    assert t.ss[0] == (map n | n in t.nodes :: NEW_REPLICA);
  }

  lemma RunOne(s: State, op: Op)
    ensures Run(s, [op]) == Apply(s, op)
  {
    assert Run(s, [op]) == Run(Apply(s, op), []);
  }

  lemma DigestOfOne(hash: string -> nat, k: string, v: string, st: Stamp)
    ensures ShardDigest(State(map[k := Text(v, st)], map[]), hash, ShardOf(hash, k), [Entry(k, "", v, st, false)])
  {
    var s, x := State(map[k := Text(v, st)], map[]), Entry(k, "", v, st, false);
    var slot := StringSlot(k);
    assert Winner(s, slot) == Some(Fact(st, Some(v))) && x == EntryFor(slot, Winner(s, slot).value);
    forall other: Slot | other != slot ensures Winner(s, other).None? {
      assert CrdtAt(s, other.key) == EMPTY_CRDT;
    }
  }
}
