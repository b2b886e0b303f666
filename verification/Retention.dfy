// The retention window: which tombstones a collection forgets, and that the window is enough for
// replicas that hear of every write within it.
module Retention {
  import opened Wrappers
  import opened Hlc
  import opened LwwSpec
  import opened LwwConvergence
  import opened LwwStore
  import opened LwwKeyspace
  import opened Replication
  import opened ReplicaNodeModel
  import opened ReplicaRun
  import opened ReplicaHeard
  import opened ReplicaAgreement

  /* What one collection forgets */

  // The element is no member and its remove is older than the cutoff.
  predicate LongGone(c: Crdt, e: string, cutoff: int) {
    e !in c.Members() && e in c.removes && c.removes[e].ts.physical < cutoff
  }

  predicate Stamped(c: Crdt, e: string) {
    e in c.adds || e in c.removes
  }

  // An element loses its stamps exactly when it is long gone, and keeps them all otherwise.
  lemma ElementsForgottenIff(s: State, aged: set<string>, cutoff: int, k: string, e: string)
    ensures var c, d := CrdtAt(s, k), CrdtAt(Collect(s, aged, cutoff), k);
            if LongGone(c, e, cutoff) then !Stamped(d, e)
            else && (e in d.adds <==> e in c.adds) && (e in c.adds ==> d.adds[e] == c.adds[e])
                 && (e in d.removes <==> e in c.removes) && (e in c.removes ==> d.removes[e] == c.removes[e])
  {
  }

  // A set goes exactly when no element of it has a stamp left; a string stays as it is, and a
  // string's tombstone goes exactly when it is aged.
  lemma KeysForgottenIff(s: State, aged: set<string>, cutoff: int, k: string)
    ensures var s' := Collect(s, aged, cutoff);
            && (k in s.data && s.data[k].Text? ==> k in s'.data && s'.data[k] == s.data[k])
            && (k in s.data && s.data[k].Elements? ==>
                  (k in s'.data <==> exists e :: Stamped(s.data[k].crdt, e) && !LongGone(s.data[k].crdt, e, cutoff)))
            && (k in s'.tombs <==> k in s.tombs && k !in aged) && (k in s'.tombs ==> s'.tombs[k] == s.tombs[k])
  {
    if k in s.data && s.data[k].Elements? {
      var c, p := s.data[k].crdt, Prune(s.data[k].crdt, cutoff);
      forall e ensures Stamped(p, e) <==> Stamped(c, e) && !LongGone(c, e, cutoff) {
        ElementsForgottenIff(s, aged, cutoff, k, e);
      }
      assert p == EMPTY_CRDT <==> p.adds == map[] && p.removes == map[];
      if e :| e in p.adds || e in p.removes { assert Stamped(p, e); }
    }
  }

  /* Whole runs */

  // The time of a step.
  function TimeAt(t: Trace, k: nat): int
    requires k < |t.steps|
  {
    t.steps[k].pt
  }

  // Step j, at the time recorded, brought n the delete whose tombstone it keeps for the key.
  ghost predicate DeletedAt(t: Trace, n: Origin, k: nat, j: nat, key: string)
    requires Execution(t) && k <= |t.steps| && n in t.ss[k]
  {
    var r := t.ss[k][n];
    && j < k && t.steps[j].node == n && key in r.state.tombs && key in r.deleted && r.deleted[key] == TimeAt(t, j)
    && exists op :: op in Arriving(t, j) && op == DelOp(key, r.state.tombs[key])
  }

  ghost predicate TombstonesAreDated(t: Trace, n: Origin, k: nat)
    requires Execution(t) && k <= |t.steps| && n in t.ss[k]
  {
    forall key :: key in t.ss[k][n].state.tombs ==> exists j :: DeletedAt(t, n, k, j, key)
  }

  lemma StepDatesTombstone(t: Trace, isSet: string -> bool, k: nat, key: string) returns (j: nat)
    requires Execution(t) && SoundTrace(t, isSet) && k < |t.steps|
    requires var n := t.steps[k].node; n in t.ss[k] && n in t.ss[k + 1] && key in t.ss[k + 1][n].state.tombs
    requires TombstonesAreDated(t, t.steps[k].node, k)
    ensures DeletedAt(t, t.steps[k].node, k + 1, j, key)
  {
    assert StepOk(t, k);
    var n := t.steps[k].node;
    var r, q := t.ss[k][n], t.ss[k + 1][n];
    if !t.steps[k].Gc? {
      PeersAreGrounded(t, isSet, k);
      StepRunsArriving(t, isSet, k);
      NewTombstone(r.state, Arriving(t, k), key);
    }
    if SameTombstone(r, q.state, key) {
      j :| DeletedAt(t, n, k, j, key);
    } else {
      if key in r.state.tombs { var i :| DeletedAt(t, n, k, i, key); }
      j := k;
    }
  }

  lemma OwnStepDates(t: Trace, isSet: string -> bool, k: nat)
    requires Execution(t) && SoundTrace(t, isSet) && k < |t.steps|
    requires var n := t.steps[k].node; n in t.ss[k] && n in t.ss[k + 1] && TombstonesAreDated(t, n, k)
    ensures TombstonesAreDated(t, t.steps[k].node, k + 1)
  {
    var n, after := t.steps[k].node, k + 1;
    forall key | key in t.ss[after][n].state.tombs ensures exists j :: DeletedAt(t, n, after, j, key) {
      var j := StepDatesTombstone(t, isSet, k, key);
    }
  }

  lemma OtherStepDates(t: Trace, n: Origin, k: nat)
    requires Execution(t) && k < |t.steps| && t.steps[k].node != n && n in t.ss[k] && TombstonesAreDated(t, n, k)
    ensures n in t.ss[k + 1] && TombstonesAreDated(t, n, k + 1)
  {
    assert StepOk(t, k);
    var after := k + 1;
    forall key | key in t.ss[after][n].state.tombs ensures exists j :: DeletedAt(t, n, after, j, key) {
      var j :| DeletedAt(t, n, k, j, key);
      assert DeletedAt(t, n, after, j, key);
    }
  }

  lemma {:induction false} RunsDateTombstones(t: Trace, isSet: string -> bool, n: Origin, k: nat)
    requires Execution(t) && SoundTrace(t, isSet) && k <= |t.steps| && n in t.nodes
    ensures n in t.ss[k] && TombstonesAreDated(t, n, k)
    decreases k
  {
    NodesStay(t, k, n);
    if k > 0 {
      RunsDateTombstones(t, isSet, n, k - 1);
      if t.steps[k - 1].node == n {
        OwnStepDates(t, isSet, k - 1);
      } else {
        OtherStepDates(t, n, k - 1);
      }
    }
  }

  // The time by which a fact's age is told: the local time of a string's delete, the stamp of an
  // element's remove.
  ghost predicate AgedBefore(t: Trace, n: Origin, k: nat, slot: Slot, f: Fact, cutoff: int)
    requires Execution(t) && k <= |t.steps| && n in t.ss[k]
  {
    match slot
    case StringSlot(key) => exists j :: DeletedAt(t, n, k, j, key) && TimeAt(t, j) < cutoff
    case ElementSlot(_, _) => f.stamp.ts.physical < cutoff
  }

  // The winner v of a slot is a delete, and nothing is left of it in v'.
  predicate Goes(v: Option<Fact>, v': Option<Fact>) {
    v.Some? && v.value.content.None? && v'.None?
  }

  lemma StringGoesIff(r: Replica, cutoff: int, key: string, isSet: string -> bool)
    requires Typed(r.state, isSet) && r.deleted.Keys == r.state.tombs.Keys
    ensures Goes(Winner(r.state, StringSlot(key)),
                 Winner(Collect(r.state, Overdue(r, cutoff), cutoff), StringSlot(key)))
            <==> key in r.state.tombs && r.deleted[key] < cutoff
  {
    KeysForgottenIff(r.state, Overdue(r, cutoff), cutoff, key);
  }

  lemma ElementGoesIff(s: State, aged: set<string>, cutoff: int, key: string, e: string)
    ensures var v := Winner(s, ElementSlot(key, e));
            Goes(v, Winner(Collect(s, aged, cutoff), ElementSlot(key, e)))
            <==> v.Some? && v.value.content.None? && v.value.stamp.ts.physical < cutoff
  {
    ElementsForgottenIff(s, aged, cutoff, key, e);
  }

  lemma WhenDeleted(t: Trace, n: Origin, k: nat, key: string, cutoff: int)
    requires Execution(t) && k <= |t.steps| && n in t.ss[k] && TombstonesAreDated(t, n, k)
    requires key in t.ss[k][n].state.tombs
    ensures key in t.ss[k][n].deleted
    ensures t.ss[k][n].deleted[key] < cutoff <==> exists j :: DeletedAt(t, n, k, j, key) && TimeAt(t, j) < cutoff
  {
    var j :| DeletedAt(t, n, k, j, key);
  }

  lemma GcLeaves(t: Trace, k: nat, slot: Slot)
    requires Execution(t) && k < |t.steps| && t.steps[k].Gc?
    ensures var e := t.steps[k];
            && e.node in t.nodes && e.node in t.ss[k]
            && var r, cutoff := t.ss[k][e.node], e.pt - e.retain;
            Forgets(t, k, slot) <==>
            Goes(Winner(r.state, slot), Winner(Collect(r.state, Overdue(r, cutoff), cutoff), slot))
  {
    assert StepOk(t, k);
  }

  // In any run, a collection forgets a delete exactly when it is older than the window: nothing
  // younger ever goes, and nothing older ever stays.
  lemma ForgetsIffAged(t: Trace, isSet: string -> bool, k: nat, slot: Slot)
    requires Execution(t) && SoundTrace(t, isSet) && k < |t.steps| && t.steps[k].Gc?
    ensures var n := t.steps[k].node;
            && n in t.ss[k]
            && var v := Winner(t.ss[k][n].state, slot);
            Forgets(t, k, slot) <==>
            v.Some? && v.value.content.None? && AgedBefore(t, n, k, slot, v.value, TimeAt(t, k) - t.steps[k].retain)
  {
    var e := t.steps[k];
    GcLeaves(t, k, slot);
    var n, r, cutoff := e.node, t.ss[k][e.node], e.pt - e.retain;
    RunsAreGrounded(t, isSet, n, k);
    RunsDateTombstones(t, isSet, n, k);
    match slot {
      case StringSlot(key) => StringForgotten(t, isSet, k, key, r, cutoff);
      case ElementSlot(key, elem) => ElementGoesIff(r.state, Overdue(r, cutoff), cutoff, key, elem);
    }
  }

  lemma StringForgotten(t: Trace, isSet: string -> bool, k: nat, key: string, r: Replica, cutoff: int)
    requires Execution(t) && k < |t.steps| && t.steps[k].node in t.ss[k] && r == t.ss[k][t.steps[k].node]
    requires Typed(r.state, isSet) && TombstonesAreDated(t, t.steps[k].node, k)
    ensures var v, slot := Winner(r.state, StringSlot(key)), StringSlot(key);
            Goes(v, Winner(Collect(r.state, Overdue(r, cutoff), cutoff), slot)) <==>
            v.Some? && v.value.content.None? && AgedBefore(t, t.steps[k].node, k, slot, v.value, cutoff)
  {
    var n := t.steps[k].node;
    DeletedKeys(t, n, k);
    StringGoesIff(r, cutoff, key, isSet);
    if key in r.state.tombs { WhenDeleted(t, n, k, key, cutoff); }
  }

  lemma DeletedKeys(t: Trace, n: Origin, k: nat)
    requires Execution(t) && k <= |t.steps| && n in t.ss[k]
    ensures t.ss[k][n].deleted.Keys == t.ss[k][n].state.tombs.Keys
    decreases k
  {
    if k > 0 {
      assert StepOk(t, k - 1);
      if t.steps[k - 1].node != n { DeletedKeys(t, n, k - 1); }
    }
  }

  /* The window is enough */

  // The window is w.  At node n time does not go back, every collection up to m keeps at least
  // the last w, every set and add is heard within w of its stamp, and no delete comes from the
  // node's future.
  ghost predicate Timely(t: Trace, n: Origin, m: nat, w: int)
    requires Execution(t)
  {
    && (forall i, j :: 0 <= i < j < m && j < |t.steps| && t.steps[i].node == n && t.steps[j].node == n ==>
          TimeAt(t, i) <= TimeAt(t, j))
    && (forall k :: 0 <= k < m && k < |t.steps| && t.steps[k].node == n && t.steps[k].Gc? ==> t.steps[k].retain >= w)
    && (forall j, op :: 0 <= j < m && j < |t.steps| && t.steps[j].node == n && op in Arriving(t, j) ==>
          InTime(op, TimeAt(t, j), w))
  }

  predicate InTime(op: Op, now: int, w: int) {
    if FactOf(op).content.Some? then now - w <= op.stamp.ts.physical else op.stamp.ts.physical <= now
  }

  // What was aged at a collection is older than whatever set or add is heard later.
  lemma AgedIsOlder(t: Trace, isSet: string -> bool, n: Origin, m: nat, w: int, i: nat, j: nat, slot: Slot, op: Op)
    requires Execution(t) && SoundTrace(t, isSet) && Timely(t, n, m, w) && i < j < m <= |t.steps|
    requires t.steps[i].node == n && t.steps[j].node == n && n in t.ss[i] && Forgets(t, i, slot)
    requires op in Arriving(t, j) && FactOf(op).content.Some?
    ensures op.stamp.After(Winner(t.ss[i][n].state, slot).value.stamp)
  {
    ForgetsIffAged(t, isSet, i, slot);
    var f := Winner(t.ss[i][n].state, slot).value;
    var cutoff := TimeAt(t, i) - t.steps[i].retain;
    assert InTime(op, TimeAt(t, j), w);
    if slot.StringSlot? {
      var d :| DeletedAt(t, n, i, d, slot.key) && TimeAt(t, d) < cutoff;
      var del :| del in Arriving(t, d) && del == DelOp(slot.key, t.ss[i][n].state.tombs[slot.key]);
      assert InTime(del, TimeAt(t, d), w);
    }
  }

  // So in timely runs nothing stale lands: the window of the collections is enough.
  lemma TimelyRunsRetain(t: Trace, isSet: string -> bool, n: Origin, m: nat, w: int)
    requires Execution(t) && SoundTrace(t, isSet) && Timely(t, n, m, w) && m <= |t.steps| && n in t.nodes
    ensures RetainedAt(t, n, m) && NothingStale(t, n, m)
  {
    forall i, j, slot, op |
      0 <= i < j < m && j < |t.steps| && t.steps[i].node == n && t.steps[j].node == n && n in t.ss[i] &&
      Forgets(t, i, slot) && op in Arriving(t, j) && SlotOf(op) == slot && FactOf(op).content.Some?
      ensures Beats(slot, FactOf(op), Winner(t.ss[i][n].state, slot).value)
    {
      AgedIsOlder(t, isSet, n, m, w, i, j, slot, op);
    }
    RetainedLetsNothingStaleLand(t, isSet, n, m);
  }

  // Replicas that have heard the same writes, each in time, read alike, whatever they collect.
  lemma TimelyReplicasConverge(t: Trace, isSet: string -> bool, a: Origin, i: nat, b: Origin, j: nat, w: int)
    requires Execution(t) && SoundTrace(t, isSet) && a in t.nodes && b in t.nodes
    requires i <= |t.steps| && j <= |t.steps| && Timely(t, a, i, w) && Timely(t, b, j, w)
    requires forall op :: op in Heard(t, a, i) <==> op in Heard(t, b, j)
    ensures a in t.ss[i] && b in t.ss[j] && SameReads(t.ss[i][a].state, t.ss[j][b].state)
  {
    TimelyRunsRetain(t, isSet, a, i, w);
    TimelyRunsRetain(t, isSet, b, j, w);
    ReplicasConverge(t, isSet, a, i, b, j);
  }
}
