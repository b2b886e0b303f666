// What the replicas of a run have heard of each other's writes, and that every fact in a
// replica was heard.
module ReplicaHeard {
  import opened Wrappers
  import opened Hlc
  import opened LwwSpec
  import opened LwwConvergence
  import opened LwwStore
  import opened LwwKeyspace
  import opened Replication
  import opened ReplicaNodeModel
  import opened ReplicaRun

  /* What arrives, and what is heard by it */

  // What the wire can carry: see Replication.MembersSurviveTheWire and EntryStandsForItsFact.
  predicate CleanUpdate(u: Update) {
    match u
    case Set(_, _) => true
    case Del(_) => true
    case Add(k, es) => Nuls(k) == 0 && NulFree(es) && "" !in es
    case Rem(k, es) => Nuls(k) == 0 && NulFree(es) && "" !in es
    case Pop(k, e) => Nuls(k) == 0 && Nuls(e) == 0 && e != ""
  }

  // Every key is used with one type, and every write can be carried.
  ghost predicate SoundTrace(t: Trace, isSet: string -> bool) {
    forall k :: 0 <= k < |t.steps| && t.steps[k].Write? ==>
      var u := t.steps[k].update;
      CleanUpdate(u) && (isSet(u.key) <==> !(u.Set? || u.Del?))
  }

  // The write that step k makes or brings.
  function Origins(t: Trace, k: nat): nat
    requires Ticks(t, k)
  {
    if t.steps[k].Push? then t.steps[k].src else k
  }

  // The operations that step k brings to its node.
  ghost function Arriving(t: Trace, k: nat): seq<Op>
    requires Execution(t) && k < |t.steps|
  {
    assert StepOk(t, k);
    match t.steps[k]
    case Write(_, _, u) => OpsFor(u, StampAt(t, k))
    case Push(_, _, src) => OpsFor(t.steps[src].update, StampAt(t, src))
    case Pull(_, _, _, _, _, digest) => OpsOf(digest)
    case Gc(_, _, _) => []
  }

  // A state holds a fact for the operation's slot, and the operation is not newer: so that
  // fact speaks for the operation too.
  predicate SpeaksFor(s: State, op: Op) {
    var w := Winner(s, SlotOf(op));
    w.Some? && !Beats(SlotOf(op), FactOf(op), w.value)
  }

  // Of the operations a peer has heard, those its digest of one shard speaks for.
  function Sent(ops: seq<Op>, s: State, hash: string -> nat, shard: nat): seq<Op> {
    if ops == [] then []
    else (if ShardOf(hash, ops[0].key) == shard && SpeaksFor(s, ops[0]) then [ops[0]] else [])
         + Sent(ops[1..], s, hash, shard)
  }

  lemma {:induction false} SentIff(ops: seq<Op>, s: State, hash: string -> nat, shard: nat, op: Op)
    ensures op in Sent(ops, s, hash, shard) <==> op in ops && ShardOf(hash, op.key) == shard && SpeaksFor(s, op)
  {
    if ops != [] {
      SentIff(ops[1..], s, hash, shard, op);
      assert op in ops <==> op == ops[0] || op in ops[1..];
    }
  }

  // What step k tells its node: the write itself, or what the digest speaks for.
  ghost function Told(t: Trace, k: nat): seq<Op>
    requires Execution(t) && k < |t.steps|
    decreases k, 1
  {
    assert StepOk(t, k);
    if t.steps[k].Pull? then
      var e := t.steps[k];
      Sent(Heard(t, e.peer, e.taken), t.ss[e.taken][e.peer].state, t.hash, e.shard)
    else Arriving(t, k)
  }

  // What node n has heard in the first k steps, directly or through others.
  ghost function Heard(t: Trace, n: Origin, k: nat): seq<Op>
    requires Execution(t) && k <= |t.steps|
    decreases k, 0
  {
    if k == 0 then []
    else Heard(t, n, k - 1) + (if t.steps[k - 1].node == n then Told(t, k - 1) else [])
  }

  lemma {:induction false} HeardStays(t: Trace, n: Origin, i: nat, k: nat, op: Op)
    requires Execution(t) && i <= k <= |t.steps| && op in Heard(t, n, i)
    ensures op in Heard(t, n, k)
    decreases k
  {
    if i < k { HeardStays(t, n, i, k - 1, op); }
  }

  // Everything heard anywhere was written at some earlier step.
  lemma {:induction false} HeardIsWritten(t: Trace, n: Origin, k: nat, op: Op) returns (i: nat)
    requires Execution(t) && k <= |t.steps| && op in Heard(t, n, k)
    ensures i < k && IsWrite(t, i) && op in OpsFor(t.steps[i].update, StampAt(t, i))
    decreases k
  {
    var e := t.steps[k - 1];
    assert StepOk(t, k - 1);
    if op in Heard(t, n, k - 1) {
      i := HeardIsWritten(t, n, k - 1, op);
    } else if e.Pull? {
      SentIff(Heard(t, e.peer, e.taken), t.ss[e.taken][e.peer].state, t.hash, e.shard, op);
      i := HeardIsWritten(t, e.peer, e.taken, op);
    } else {
      i := if e.Write? then k - 1 else e.src;
    }
  }

  lemma OpsOfUpdate(u: Update, st: Stamp, op: Op)
    requires op in OpsFor(u, st)
    ensures op.stamp == st && op.key == u.key && (SlotOf(op).StringSlot? <==> u.Set? || u.Del?)
    ensures SlotOf(op).StringSlot? ==> OpsFor(u, st) == [op]
    ensures CleanUpdate(u) && SlotOf(op).ElementSlot? ==> op.elem != "" && Nuls(op.key) == 0 && Nuls(op.elem) == 0
    ensures forall other :: other in OpsFor(u, st) && SlotOf(other) == SlotOf(op) ==> FactOf(other) == FactOf(op)
  {
    match u
    case Set(_, _) =>
    case Del(_) =>
    case Add(k, es) =>
      var i :| 0 <= i < |es| && op == AddOp(k, es[i], st);
    case Rem(k, es) =>
      var i :| 0 <= i < |es| && op == RemOp(k, es[i], st);
    case Pop(k, e) =>
      assert op == RemOp(k, [e][0], st);
  }

  lemma EitherIsWritten(t: Trace, a: Origin, i: nat, b: Origin, j: nat, op: Op) returns (k: nat)
    requires Execution(t) && i <= |t.steps| && j <= |t.steps| && op in Heard(t, a, i) + Heard(t, b, j)
    ensures IsWrite(t, k) && op in OpsFor(t.steps[k].update, StampAt(t, k))
  {
    if op in Heard(t, a, i) {
      k := HeardIsWritten(t, a, i, op);
    } else {
      k := HeardIsWritten(t, b, j, op);
    }
  }

  // So what any two replicas have heard satisfies what convergence asks for.
  lemma HeardIsConsistent(t: Trace, a: Origin, i: nat, b: Origin, j: nat)
    requires Execution(t) && i <= |t.steps| && j <= |t.steps|
    ensures Consistent(Heard(t, a, i) + Heard(t, b, j))
  {
    var ops := Heard(t, a, i) + Heard(t, b, j);
    forall x, y | x in ops && y in ops && SlotOf(x).StringSlot? && x.stamp == y.stamp ensures x == y {
      var p := EitherIsWritten(t, a, i, b, j, x);
      var q := EitherIsWritten(t, a, i, b, j, y);
      OpsOfUpdate(t.steps[p].update, StampAt(t, p), x);
      OpsOfUpdate(t.steps[q].update, StampAt(t, q), y);
      StampsAreUnique(t, p, q);
    }
  }

  // What is heard is typed, stamped, and can be carried on.
  lemma HeardIsSound(t: Trace, isSet: string -> bool, n: Origin, k: nat, op: Op)
    requires Execution(t) && SoundTrace(t, isSet) && k <= |t.steps| && op in Heard(t, n, k)
    ensures TypedOp(op, isSet) && !op.stamp.ts.IsZero()
    ensures SlotOf(op).ElementSlot? ==> op.elem != "" && Nuls(op.key) == 0 && Nuls(op.elem) == 0
  {
    var i := HeardIsWritten(t, n, k, op);
    OpsOfUpdate(t.steps[i].update, StampAt(t, i), op);
    WritesAreStamped(t, i);
  }

  /* One step */

  lemma EventRunsAsOps(s: State, u: Update, st: Stamp)
    requires CleanUpdate(u) && !st.ts.IsZero()
    ensures ApplyEvent(s, EventFor(u, st)) == Run(s, OpsFor(u, st))
  {
    if u.Add? || u.Rem? {
      PayloadSplits(u.key, u.elems);
      assert Split(SetPayload(u.key, u.elems))[1..] == u.elems;
      if u.elems == [] { assert OpsFor(u, st) == []; }
    }
    if u.Pop? { assert OpsFor(u, st) == [RemOp(u.key, u.elem, st)]; }
  }

  ghost predicate HeldAt(slot: Slot, v: Option<Fact>, ops: seq<Op>) {
    v.Some? ==> exists op :: op in ops && SlotOf(op) == slot && FactOf(op) == v.value
  }

  // The operations for the slot all carry the one fact g; or there are none.
  ghost predicate OneFact(slot: Slot, ops: seq<Op>, g: Option<Fact>) {
    match g
    case None => forall op :: op in ops ==> SlotOf(op) != slot
    case Some(f) =>
      && (exists op :: op in ops && SlotOf(op) == slot && FactOf(op) == f)
      && (forall op :: op in ops && SlotOf(op) == slot ==> FactOf(op) == f)
  }

  lemma JoinByOneFact(s: State, ops: seq<Op>, isSet: string -> bool, slot: Slot, g: Option<Fact>)
    requires Typed(s, isSet) && TypedOps(ops, isSet) && OneFact(slot, ops, g)
    ensures Winner(Run(s, ops), slot) == JoinWinners(slot, Winner(s, slot), g)
  {
    RunJoinsOnce(s, ops, isSet, slot, if g.Some? then g.value else Fact(ZERO_STAMP, None));
  }

  lemma JoinByGreatest(before: seq<Op>, ops: seq<Op>, isSet: string -> bool, slot: Slot, g: Option<Fact>)
    requires TypedOps(before + ops, isSet) && Consistent(before + ops) && Greatest(slot, ops, g)
    ensures Winner(Run(EMPTY_STATE, before + ops), slot) ==
            JoinWinners(slot, Winner(Run(EMPTY_STATE, before), slot), g)
  {
    var v, w := Winner(Run(EMPTY_STATE, before), slot), Winner(Run(EMPTY_STATE, before + ops), slot);
    assert TypedOps(before, isSet) by {
      assert forall op :: op in before ==> op in before + ops;
    }
    DecidedByGreatest(before, isSet, slot);
    DecidedByGreatest(before + ops, isSet, slot);
    JoinOfGreatest(slot, before, ops, v, g);
    GreatestIsUnique(slot, before + ops, before + ops, w, JoinWinners(slot, v, g));
  }

  // A replica's state is typed and every fact in it was heard.
  ghost predicate Grounded(t: Trace, isSet: string -> bool, n: Origin, k: nat)
    requires Execution(t)
  {
    && k <= |t.steps| && n in t.ss[k] && Typed(t.ss[k][n].state, isSet)
    && forall slot :: HeldAt(slot, Winner(t.ss[k][n].state, slot), Heard(t, n, k))
  }

  lemma GroundedIsTransmissible(t: Trace, isSet: string -> bool, n: Origin, k: nat)
    requires Execution(t) && SoundTrace(t, isSet) && Grounded(t, isSet, n, k)
    ensures Transmissible(t.ss[k][n].state)
  {
    var s := t.ss[k][n].state;
    forall slot | Winner(s, slot).Some?
      ensures !Winner(s, slot).value.stamp.ts.IsZero()
      ensures slot.ElementSlot? ==> slot.elem != "" && Nuls(slot.key) == 0 && Nuls(slot.elem) == 0
    {
      assert HeldAt(slot, Winner(s, slot), Heard(t, n, k));
      var op :| op in Heard(t, n, k) && SlotOf(op) == slot && FactOf(op) == Winner(s, slot).value;
      HeardIsSound(t, isSet, n, k, op);
    }
  }

  // When the step is a pull, the peer's state was grounded when it took the digest.
  ghost predicate PeerGrounded(t: Trace, isSet: string -> bool, k: nat)
    requires Execution(t) && k < |t.steps|
  {
    t.steps[k].Pull? ==> Grounded(t, isSet, t.steps[k].peer, t.steps[k].taken)
  }

  lemma DigestStands(t: Trace, isSet: string -> bool, k: nat)
    requires Execution(t) && SoundTrace(t, isSet) && k < |t.steps| && t.steps[k].Pull? && PeerGrounded(t, isSet, k)
    ensures var e := t.steps[k];
            && (forall x :: x in e.digest ==> Clean(x))
            && DigestOf(t.ss[e.taken][e.peer].state, key => ShardOf(t.hash, key) == e.shard, OpsOf(e.digest))
  {
    var e := t.steps[k];
    assert StepOk(t, k);
    GroundedIsTransmissible(t, isSet, e.peer, e.taken);
    ShardDigestStandsForWinners(t.ss[e.taken][e.peer].state, t.hash, e.shard, e.digest);
  }

  lemma ArrivingIsTyped(t: Trace, isSet: string -> bool, k: nat)
    requires Execution(t) && SoundTrace(t, isSet) && k < |t.steps| && PeerGrounded(t, isSet, k)
    ensures TypedOps(Arriving(t, k), isSet)
  {
    assert StepOk(t, k);
    var e := t.steps[k];
    if e.Pull? {
      DigestStands(t, isSet, k);
      DigestIsTyped(t.ss[e.taken][e.peer].state, key => ShardOf(t.hash, key) == e.shard, OpsOf(e.digest), isSet);
    } else {
      forall op | op in Arriving(t, k) ensures TypedOp(op, isSet) {
        var i := Origins(t, k);
        OpsOfUpdate(t.steps[i].update, StampAt(t, i), op);
      }
    }
  }

  // Whatever its kind, a step other than a collection runs the operations it brings.
  lemma StepRunsArriving(t: Trace, isSet: string -> bool, k: nat)
    requires Execution(t) && SoundTrace(t, isSet) && k < |t.steps| && PeerGrounded(t, isSet, k) && !t.steps[k].Gc?
    ensures var n := t.steps[k].node;
            n in t.ss[k] && n in t.ss[k + 1] && t.ss[k + 1][n].state == Run(t.ss[k][n].state, Arriving(t, k))
  {
    assert StepOk(t, k);
    var e := t.steps[k];
    var s := t.ss[k][e.node].state;
    if e.Push? {
      WritesAreStamped(t, e.src);
      EventRunsAsOps(s, t.steps[e.src].update, StampAt(t, e.src));
    } else if e.Pull? {
      DigestStands(t, isSet, k);
      EntriesRunAsOps(s, e.digest);
    }
  }

  // What a step brings for a slot is one fact, and the greatest of what the step tells.
  lemma StepBrings(t: Trace, isSet: string -> bool, k: nat, slot: Slot) returns (g: Option<Fact>)
    requires Execution(t) && SoundTrace(t, isSet) && k < |t.steps| && PeerGrounded(t, isSet, k)
    ensures OneFact(slot, Arriving(t, k), g) && Greatest(slot, Told(t, k), g) && HeldAt(slot, g, Told(t, k))
  {
    if t.steps[k].Pull? {
      g := DigestBrings(t, isSet, k, slot);
    } else {
      if Ticks(t, k) { WriteBringsOneFact(t, k, slot); }
      g := FactIn(Arriving(t, k), slot);
    }
  }

  // The fact that some operations carry for a slot.
  lemma FactIn(ops: seq<Op>, slot: Slot) returns (g: Option<Fact>)
    requires forall x, y :: x in ops && y in ops && SlotOf(x) == SlotOf(y) == slot ==> FactOf(x) == FactOf(y)
    ensures OneFact(slot, ops, g) && Greatest(slot, ops, g) && HeldAt(slot, g, ops)
  {
    if op :| op in ops && SlotOf(op) == slot {
      g := Some(FactOf(op));
    } else {
      g := None;
    }
  }

  lemma WriteBringsOneFact(t: Trace, k: nat, slot: Slot)
    requires Execution(t) && Ticks(t, k)
    ensures forall x, y :: x in Arriving(t, k) && y in Arriving(t, k) && SlotOf(x) == SlotOf(y) == slot ==>
                             FactOf(x) == FactOf(y)
  {
    assert StepOk(t, k);
    var i := Origins(t, k);
    forall x | x in Arriving(t, k)
      ensures forall y :: y in Arriving(t, k) && SlotOf(y) == SlotOf(x) ==> FactOf(y) == FactOf(x)
    {
      OpsOfUpdate(t.steps[i].update, StampAt(t, i), x);
    }
  }

  lemma DigestBrings(t: Trace, isSet: string -> bool, k: nat, slot: Slot) returns (g: Option<Fact>)
    requires Execution(t) && SoundTrace(t, isSet) && k < |t.steps| && t.steps[k].Pull? && PeerGrounded(t, isSet, k)
    ensures OneFact(slot, Arriving(t, k), g) && Greatest(slot, Told(t, k), g) && HeldAt(slot, g, Told(t, k))
  {
    var e := t.steps[k];
    assert StepOk(t, k);
    var s, heard := t.ss[e.taken][e.peer].state, Heard(t, e.peer, e.taken);
    g := if ShardOf(t.hash, slot.key) == e.shard then Winner(s, slot) else None;
    DigestStands(t, isSet, k);
    DigestIsOneFact(s, key => ShardOf(t.hash, key) == e.shard, OpsOf(e.digest), slot);
    assert HeldAt(slot, Winner(s, slot), heard);
    SentIsGreatest(heard, s, t.hash, e.shard, slot);
  }

  lemma DigestIsOneFact(s: State, scope: string -> bool, ops: seq<Op>, slot: Slot)
    requires DigestOf(s, scope, ops)
    ensures OneFact(slot, ops, if scope(slot.key) then Winner(s, slot) else None)
  {
  }

  lemma SentIsGreatest(heard: seq<Op>, s: State, hash: string -> nat, shard: nat, slot: Slot)
    requires HeldAt(slot, Winner(s, slot), heard)
    ensures var g := if ShardOf(hash, slot.key) == shard then Winner(s, slot) else None;
            Greatest(slot, Sent(heard, s, hash, shard), g) && HeldAt(slot, g, Sent(heard, s, hash, shard))
  {
    var sent := Sent(heard, s, hash, shard);
    forall op | op in sent
      ensures ShardOf(hash, op.key) == shard && SpeaksFor(s, op)
    {
      SentIff(heard, s, hash, shard, op);
    }
    if ShardOf(hash, slot.key) == shard && Winner(s, slot).Some? {
      var op :| op in heard && SlotOf(op) == slot && FactOf(op) == Winner(s, slot).value;
      SentIff(heard, s, hash, shard, op);
    }
  }

  /* Whole runs */

  lemma HeardIsTyped(t: Trace, isSet: string -> bool, n: Origin, k: nat)
    requires Execution(t) && SoundTrace(t, isSet) && k <= |t.steps|
    ensures TypedOps(Heard(t, n, k), isSet)
  {
    forall op | op in Heard(t, n, k) ensures TypedOp(op, isSet) {
      HeardIsSound(t, isSet, n, k, op);
    }
  }

  lemma HeardIsConsistentAlone(t: Trace, n: Origin, k: nat)
    requires Execution(t) && k <= |t.steps|
    ensures Consistent(Heard(t, n, k))
  {
    HeardIsConsistent(t, n, k, n, k);
    assert forall op :: op in Heard(t, n, k) ==> op in Heard(t, n, k) + Heard(t, n, k);
  }

  lemma JoinIsHeld(slot: Slot, v: Option<Fact>, g: Option<Fact>, before: seq<Op>, ops: seq<Op>)
    requires HeldAt(slot, v, before) && HeldAt(slot, g, ops)
    ensures HeldAt(slot, JoinWinners(slot, v, g), before + ops)
  {
    var r := JoinWinners(slot, v, g);
    if r.Some? {
      var op :| (op in before || op in ops) && SlotOf(op) == slot && FactOf(op) == r.value;
      assert op in before + ops;
    }
  }

  // What a step leaves in a slot of its node: the join of what was there and what the step
  // brings; or, after a collection, what was there or nothing.
  lemma StepLeaves(t: Trace, isSet: string -> bool, k: nat, slot: Slot) returns (g: Option<Fact>)
    requires Execution(t) && SoundTrace(t, isSet) && k < |t.steps| && PeerGrounded(t, isSet, k)
    requires Grounded(t, isSet, t.steps[k].node, k)
    ensures OneFact(slot, Arriving(t, k), g) && Greatest(slot, Told(t, k), g) && HeldAt(slot, g, Told(t, k))
    ensures var n := t.steps[k].node;
            && n in t.ss[k + 1]
            && var v, v' := Winner(t.ss[k][n].state, slot), Winner(t.ss[k + 1][n].state, slot);
            if t.steps[k].Gc? then g.None? && (v' == v || Forgets(t, k, slot)) else v' == JoinWinners(slot, v, g)
  {
    assert StepOk(t, k);
    var e := t.steps[k];
    var s := t.ss[k][e.node].state;
    g := StepBrings(t, isSet, k, slot);
    if e.Gc? {
      CollectionLeaves(t, isSet, k, slot);
    } else {
      StepRunsArriving(t, isSet, k);
      ArrivingIsTyped(t, isSet, k);
      JoinByOneFact(s, Arriving(t, k), isSet, slot, g);
    }
  }

  lemma CollectionLeaves(t: Trace, isSet: string -> bool, k: nat, slot: Slot)
    requires Execution(t) && k < |t.steps| && t.steps[k].Gc?
    requires var n := t.steps[k].node; n in t.ss[k] && Typed(t.ss[k][n].state, isSet)
    ensures var n := t.steps[k].node;
            && n in t.ss[k + 1] && Arriving(t, k) == []
            && (Winner(t.ss[k + 1][n].state, slot) == Winner(t.ss[k][n].state, slot) || Forgets(t, k, slot))
  {
    assert StepOk(t, k);
    var r, cutoff := t.ss[k][t.steps[k].node], t.steps[k].pt - t.steps[k].retain;
    CollectForgetsOnlyDead(r.state, Overdue(r, cutoff), cutoff, isSet, slot);
  }

  // Step k collects the winner of the slot, a delete.
  ghost predicate Forgets(t: Trace, k: nat, slot: Slot)
    requires Execution(t) && k < |t.steps|
  {
    assert StepOk(t, k);
    var n := t.steps[k].node;
    && t.steps[k].Gc?
    && var v := Winner(t.ss[k][n].state, slot);
    v.Some? && v.value.content.None? && Winner(t.ss[k + 1][n].state, slot).None?
  }

  lemma StepKeepsTyped(t: Trace, isSet: string -> bool, k: nat)
    requires Execution(t) && SoundTrace(t, isSet) && k < |t.steps| && PeerGrounded(t, isSet, k)
    requires Grounded(t, isSet, t.steps[k].node, k)
    ensures t.steps[k].node in t.ss[k + 1] && Typed(t.ss[k + 1][t.steps[k].node].state, isSet)
  {
    assert StepOk(t, k);
    var e := t.steps[k];
    var s := t.ss[k][e.node].state;
    if e.Gc? {
      var cutoff := e.pt - e.retain;
      CollectForgetsOnlyDead(s, Overdue(t.ss[k][e.node], cutoff), cutoff, isSet, StringSlot(""));
    } else {
      StepRunsArriving(t, isSet, k);
      ArrivingIsTyped(t, isSet, k);
      RunKeepsTyped(s, Arriving(t, k), isSet);
    }
  }

  lemma StepKeepsGrounded(t: Trace, isSet: string -> bool, k: nat)
    requires Execution(t) && SoundTrace(t, isSet) && k < |t.steps| && PeerGrounded(t, isSet, k)
    requires Grounded(t, isSet, t.steps[k].node, k)
    ensures Grounded(t, isSet, t.steps[k].node, k + 1)
  {
    var n := t.steps[k].node;
    StepKeepsTyped(t, isSet, k);
    var s, s', heard := t.ss[k][n].state, t.ss[k + 1][n].state, Heard(t, n, k + 1);
    assert heard == Heard(t, n, k) + Told(t, k);
    forall slot ensures HeldAt(slot, Winner(s', slot), heard) {
      var g := StepLeaves(t, isSet, k, slot);
      assert HeldAt(slot, Winner(s, slot), Heard(t, n, k));
      JoinIsHeld(slot, Winner(s, slot), g, Heard(t, n, k), Told(t, k));
    }
  }

  // At every moment of every run, whatever is collected and however early, every fact that a
  // replica holds was heard.
  lemma {:induction false} RunsAreGrounded(t: Trace, isSet: string -> bool, n: Origin, k: nat)
    requires Execution(t) && SoundTrace(t, isSet) && k <= |t.steps| && n in t.nodes
    ensures Grounded(t, isSet, n, k)
    decreases k, 0
  {
    if k > 0 {
      RunsAreGrounded(t, isSet, n, k - 1);
      assert StepOk(t, k - 1);
      PeersAreGrounded(t, isSet, k - 1);
      if t.steps[k - 1].node == n {
        StepKeepsGrounded(t, isSet, k - 1);
      } else {
        assert Heard(t, n, k) == Heard(t, n, k - 1);
      }
    }
  }

  lemma {:induction false} PeersAreGrounded(t: Trace, isSet: string -> bool, k: nat)
    requires Execution(t) && SoundTrace(t, isSet) && k < |t.steps|
    ensures PeerGrounded(t, isSet, k)
    decreases k, 1
  {
    assert StepOk(t, k);
    if t.steps[k].Pull? { RunsAreGrounded(t, isSet, t.steps[k].peer, t.steps[k].taken); }
  }
}
