// Replicas that have heard the same writes read alike, and anti-entropy gets them there.
module ReplicaAgreement {
  import opened Wrappers
  import opened Hlc
  import opened LwwSpec
  import opened LwwConvergence
  import opened LwwStore
  import opened LwwKeyspace
  import opened Replication
  import opened ReplicaNodeModel
  import opened ReplicaRun
  import opened ReplicaHeard

  /* A replica and its ideal */

  // The replica that has heard the same and never collects a tombstone.
  ghost function Ideal(t: Trace, n: Origin, k: nat): State
    requires Execution(t) && k <= |t.steps|
  {
    Run(EMPTY_STATE, Heard(t, n, k))
  }

  // n has collected the fact f of the slot before step k.
  ghost predicate Forgotten(t: Trace, n: Origin, k: nat, slot: Slot, f: Fact)
    requires Execution(t)
  {
    exists i :: 0 <= i < k && i < |t.steps| && ForgotAt(t, n, i, slot, f)
  }

  ghost predicate ForgotAt(t: Trace, n: Origin, i: nat, slot: Slot, f: Fact)
    requires Execution(t) && i < |t.steps|
  {
    && t.steps[i].node == n && n in t.ss[i] && Forgets(t, i, slot)
    && Winner(t.ss[i][n].state, slot) == Some(f)
  }

  // A replica's winner v for a slot is the ideal one w, or w is a delete that the replica has
  // collected, and v is older or nothing.
  ghost predicate Tracks(t: Trace, n: Origin, k: nat, slot: Slot, v: Option<Fact>, w: Option<Fact>)
    requires Execution(t)
  {
    || v == w
    || (w.Some? && w.value.content.None? && Forgotten(t, n, k, slot, w.value) &&
        (v.None? || !Beats(slot, v.value, w.value)))
  }

  ghost predicate TracksIdeal(t: Trace, n: Origin, k: nat, slot: Slot)
    requires Execution(t) && k <= |t.steps| && n in t.ss[k]
  {
    Tracks(t, n, k, slot, Winner(t.ss[k][n].state, slot), Winner(Ideal(t, n, k), slot))
  }

  lemma TracksStays(t: Trace, n: Origin, k: nat, slot: Slot, v: Option<Fact>, w: Option<Fact>)
    requires Execution(t) && Tracks(t, n, k, slot, v, w)
    ensures Tracks(t, n, k + 1, slot, v, w)
  {
    if v != w {
      var i :| 0 <= i < k && i < |t.steps| && ForgotAt(t, n, i, slot, w.value);
      assert i < k + 1;
    }
  }

  // Both the replica and the ideal one join the fact that a step brings.
  lemma JoinTracks(t: Trace, n: Origin, k: nat, slot: Slot, v: Option<Fact>, w: Option<Fact>, g: Option<Fact>)
    requires Execution(t) && Tracks(t, n, k, slot, v, w)
    ensures Tracks(t, n, k, slot, JoinWinners(slot, v, g), JoinWinners(slot, w, g))
  {
  }

  lemma IdealJoins(t: Trace, isSet: string -> bool, k: nat, slot: Slot, g: Option<Fact>)
    requires Execution(t) && SoundTrace(t, isSet) && k < |t.steps| && Greatest(slot, Told(t, k), g)
    ensures var n := t.steps[k].node;
            Winner(Ideal(t, n, k + 1), slot) == JoinWinners(slot, Winner(Ideal(t, n, k), slot), g)
  {
    var n := t.steps[k].node;
    assert Heard(t, n, k + 1) == Heard(t, n, k) + Told(t, k);
    HeardIsTyped(t, isSet, n, k + 1);
    HeardIsConsistentAlone(t, n, k + 1);
    JoinByGreatest(Heard(t, n, k), Told(t, k), isSet, slot, g);
  }

  lemma StepKeepsTracking(t: Trace, isSet: string -> bool, k: nat, slot: Slot)
    requires Execution(t) && SoundTrace(t, isSet) && k < |t.steps| && PeerGrounded(t, isSet, k)
    requires var n := t.steps[k].node; Grounded(t, isSet, n, k) && TracksIdeal(t, n, k, slot)
    ensures var n := t.steps[k].node; n in t.ss[k + 1] && TracksIdeal(t, n, k + 1, slot)
  {
    var n := t.steps[k].node;
    var v, w := Winner(t.ss[k][n].state, slot), Winner(Ideal(t, n, k), slot);
    var g := StepLeaves(t, isSet, k, slot);
    IdealJoins(t, isSet, k, slot, g);
    if Forgets(t, k, slot) && v == w {
      assert ForgotAt(t, n, k, slot, w.value);
    } else {
      JoinTracks(t, n, k, slot, v, w, g);
      TracksStays(t, n, k, slot, JoinWinners(slot, v, g), JoinWinners(slot, w, g));
    }
  }

  lemma StartsIdeal(t: Trace, n: Origin, slot: Slot)
    requires Execution(t) && n in t.nodes
    ensures n in t.ss[0] && TracksIdeal(t, n, 0, slot)
  {
    assert Heard(t, n, 0) == [];
  }

  lemma AnyStepKeepsTracking(t: Trace, isSet: string -> bool, n: Origin, k: nat, slot: Slot)
    requires Execution(t) && SoundTrace(t, isSet) && k < |t.steps| && n in t.nodes
    requires n in t.ss[k] && TracksIdeal(t, n, k, slot)
    ensures n in t.ss[k + 1] && TracksIdeal(t, n, k + 1, slot)
  {
    if t.steps[k].node == n {
      RunsAreGrounded(t, isSet, n, k);
      PeersAreGrounded(t, isSet, k);
      StepKeepsTracking(t, isSet, k, slot);
    } else {
      OtherStepKeepsTracking(t, n, k, slot);
    }
  }

  // At every moment of every run.
  lemma {:induction false} RunsTrackIdeal(t: Trace, isSet: string -> bool, n: Origin, k: nat, slot: Slot)
    requires Execution(t) && SoundTrace(t, isSet) && k <= |t.steps| && n in t.nodes
    ensures n in t.ss[k] && TracksIdeal(t, n, k, slot)
    decreases k
  {
    if k == 0 {
      StartsIdeal(t, n, slot);
    } else {
      RunsTrackIdeal(t, isSet, n, k - 1, slot);
      AnyStepKeepsTracking(t, isSet, n, k - 1, slot);
    }
  }

  lemma OtherStepKeepsTracking(t: Trace, n: Origin, k: nat, slot: Slot)
    requires Execution(t) && k < |t.steps| && t.steps[k].node != n && n in t.ss[k] && TracksIdeal(t, n, k, slot)
    ensures n in t.ss[k + 1] && TracksIdeal(t, n, k + 1, slot)
  {
    assert StepOk(t, k);
    assert Heard(t, n, k + 1) == Heard(t, n, k);
    TracksStays(t, n, k, slot, Winner(t.ss[k][n].state, slot), Winner(Ideal(t, n, k), slot));
  }

  /* When a collection shows */

  // Step k brings its node a set or add that takes effect there, although the node has heard
  // an event of the same slot that beats it.
  ghost predicate StaleLands(t: Trace, k: nat)
    requires Execution(t) && k < |t.steps|
  {
    exists op, d :: StaleOp(t, k, op, d)
  }

  ghost predicate StaleOp(t: Trace, k: nat, op: Op, d: Op)
    requires Execution(t) && k < |t.steps|
  {
    var n := t.steps[k].node;
    && op in Arriving(t, k) && FactOf(op).content.Some? && Lands(t, k, op)
    && d in Heard(t, n, k) && SlotOf(d) == SlotOf(op) && Beats(SlotOf(op), FactOf(d), FactOf(op))
  }

  ghost predicate Lands(t: Trace, k: nat, op: Op)
    requires Execution(t) && k < |t.steps|
  {
    assert StepOk(t, k);
    var v := Winner(t.ss[k][t.steps[k].node].state, SlotOf(op));
    v.None? || Beats(SlotOf(op), FactOf(op), v.value)
  }

  // Nothing stale lands at n before moment m.
  ghost predicate NothingStale(t: Trace, n: Origin, m: nat)
    requires Execution(t)
  {
    forall k :: 0 <= k < m && k < |t.steps| && t.steps[k].node == n ==> !StaleLands(t, k)
  }

  ghost predicate ReadsLikeIdeal(t: Trace, n: Origin, k: nat)
    requires Execution(t) && k <= |t.steps|
  {
    n in t.ss[k] && SameReads(t.ss[k][n].state, Ideal(t, n, k))
  }

  lemma SameReadsIsSameLive(s: State, t: State)
    ensures SameReads(s, t) <==> SameLive(s, t)
  {
    if SameLive(s, t) { SameLiveReadsAlike(s, t); }
    if SameReads(s, t) {
      forall slot ensures Live(Winner(s, slot)) == Live(Winner(t, slot)) {
        var e := if slot.ElementSlot? then slot.elem else "";
        ReadsFollowWinners(s, slot.key, e);
        ReadsFollowWinners(t, slot.key, e);
        assert MembersOf(s, slot.key) == MembersOf(t, slot.key);
      }
    }
  }

  // A slot that reads like the ideal one goes on to, if what arrives is not stale.
  lemma SlotStaysAlike(t: Trace, isSet: string -> bool, k: nat, slot: Slot)
    requires Execution(t) && SoundTrace(t, isSet) && k < |t.steps| && !StaleLands(t, k)
    requires ReadsLikeIdeal(t, t.steps[k].node, k)
    ensures var n := t.steps[k].node;
            n in t.ss[k + 1] && Live(Winner(t.ss[k + 1][n].state, slot)) == Live(Winner(Ideal(t, n, k + 1), slot))
  {
    var n := t.steps[k].node;
    assert StepOk(t, k);
    RunsAreGrounded(t, isSet, n, k);
    PeersAreGrounded(t, isSet, k);
    var s, ideal := t.ss[k][n].state, Ideal(t, n, k);
    var v, w := Winner(s, slot), Winner(ideal, slot);
    var g := StepLeaves(t, isSet, k, slot);
    IdealJoins(t, isSet, k, slot, g);
    RunsTrackIdeal(t, isSet, n, k, slot);
    SameReadsIsSameLive(s, ideal);
    assert Live(v) == Live(w);
    if TakesEffect(slot, v, w, g) { LandedBeatsHeard(t, isSet, k, slot, g.value, v, w); }
    JoinsStayAlike(slot, v, w, g);
  }

  // A set or add g that wins over v, where v is not what the ideal replica holds.
  predicate TakesEffect(slot: Slot, v: Option<Fact>, w: Option<Fact>, g: Option<Fact>) {
    v != w && g.Some? && g.value.content.Some? && (v.None? || Beats(slot, g.value, v.value))
  }

  lemma JoinsStayAlike(slot: Slot, v: Option<Fact>, w: Option<Fact>, g: Option<Fact>)
    requires Live(v) == Live(w)
    requires v == w || (w.Some? && w.value.content.None? && (v.None? || !Beats(slot, v.value, w.value)))
    requires TakesEffect(slot, v, w, g) ==> Beats(slot, g.value, w.value)
    ensures Live(JoinWinners(slot, v, g)) == Live(JoinWinners(slot, w, g))
  {
  }

  // What lands and is not stale beats the ideal winner.
  lemma LandedBeatsHeard(t: Trace, isSet: string -> bool, k: nat, slot: Slot, f: Fact, v: Option<Fact>, w: Option<Fact>)
    requires Execution(t) && SoundTrace(t, isSet) && k < |t.steps| && !StaleLands(t, k)
    requires OneFact(slot, Arriving(t, k), Some(f)) && HeldAt(slot, Some(f), Told(t, k))
    requires var n := t.steps[k].node;
             n in t.ss[k] && v == Winner(t.ss[k][n].state, slot) && w == Winner(Ideal(t, n, k), slot)
    requires w.Some? && w.value.content.None? && TakesEffect(slot, v, w, Some(f))
    ensures Beats(slot, f, w.value)
  {
    var n := t.steps[k].node;
    var op :| op in Arriving(t, k) && SlotOf(op) == slot && FactOf(op) == f;
    HeardIsTyped(t, isSet, n, k);
    DecidedByGreatest(Heard(t, n, k), isSet, slot);
    var d :| d in Heard(t, n, k) && SlotOf(d) == slot && FactOf(d) == w.value;
    assert !StaleOp(t, k, op, d);
    var told :| told in Told(t, k) && SlotOf(told) == slot && FactOf(told) == f;
    HeardDiffer(t, k, told, d);
    LiveBeatsDead(slot, f, w.value);
  }

  // Two different events of a string key, one told now and one heard before.
  lemma HeardDiffer(t: Trace, k: nat, told: Op, d: Op)
    requires Execution(t) && k < |t.steps| && told in Told(t, k) && d in Heard(t, t.steps[k].node, k)
    requires SlotOf(told) == SlotOf(d) && told != d
    ensures SlotOf(d).StringSlot? ==> told.stamp != d.stamp
  {
    var n := t.steps[k].node;
    assert Heard(t, n, k + 1) == Heard(t, n, k) + Told(t, k);
    HeardIsConsistentAlone(t, n, k + 1);
  }

  lemma LiveBeatsDead(slot: Slot, f: Fact, d: Fact)
    requires f.content.Some? && d.content.None? && !Beats(slot, d, f)
    requires slot.StringSlot? ==> f.stamp != d.stamp
    ensures Beats(slot, f, d)
  {
  }

  lemma {:induction false} FreshReadsAlike(t: Trace, isSet: string -> bool, n: Origin, k: nat)
    requires Execution(t) && SoundTrace(t, isSet) && k <= |t.steps| && n in t.nodes && NothingStale(t, n, k)
    ensures ReadsLikeIdeal(t, n, k)
    decreases k
  {
    NodesStay(t, k, n);
    if k > 0 {
      FreshReadsAlike(t, isSet, n, k - 1);
      assert StepOk(t, k - 1);
      if t.steps[k - 1].node == n {
        StepReadsAlike(t, isSet, k - 1);
      } else {
        assert Heard(t, n, k) == Heard(t, n, k - 1);
      }
    }
  }

  lemma StepReadsAlike(t: Trace, isSet: string -> bool, k: nat)
    requires Execution(t) && SoundTrace(t, isSet) && k < |t.steps| && !StaleLands(t, k)
    requires ReadsLikeIdeal(t, t.steps[k].node, k)
    ensures ReadsLikeIdeal(t, t.steps[k].node, k + 1)
  {
    assert StepOk(t, k);
    var n := t.steps[k].node;
    var s, ideal := t.ss[k + 1][n].state, Ideal(t, n, k + 1);
    forall slot ensures Live(Winner(s, slot)) == Live(Winner(ideal, slot)) {
      SlotStaysAlike(t, isSet, k, slot);
    }
    SameLiveReadsAlike(s, ideal);
  }

  // A stale set or add that takes effect shows at once.
  lemma StaleShows(t: Trace, isSet: string -> bool, k: nat)
    requires Execution(t) && SoundTrace(t, isSet) && k < |t.steps| && StaleLands(t, k)
    ensures !ReadsLikeIdeal(t, t.steps[k].node, k + 1)
  {
    assert StepOk(t, k);
    var n := t.steps[k].node;
    var op, d :| StaleOp(t, k, op, d);
    var slot := SlotOf(op);
    RunsAreGrounded(t, isSet, n, k);
    PeersAreGrounded(t, isSet, k);
    var g := StepLeaves(t, isSet, k, slot);
    IdealJoins(t, isSet, k, slot, g);
    RunsTrackIdeal(t, isSet, n, k, slot);
    HeardIsTyped(t, isSet, n, k);
    DecidedByGreatest(Heard(t, n, k), isSet, slot);
    StaleLosesToIdeal(slot, Winner(t.ss[k][n].state, slot), Winner(Ideal(t, n, k), slot), FactOf(op), FactOf(d));
    SameReadsIsSameLive(t.ss[k + 1][n].state, Ideal(t, n, k + 1));
    assert Live(Winner(t.ss[k + 1][n].state, slot)) != Live(Winner(Ideal(t, n, k + 1), slot));
  }

  lemma StaleLosesToIdeal(slot: Slot, v: Option<Fact>, w: Option<Fact>, f: Fact, d: Fact)
    requires v == w || (w.Some? && w.value.content.None?)
    requires v.None? || Beats(slot, f, v.value)
    requires w.Some? && !Beats(slot, d, w.value) && Beats(slot, d, f) && f.content.Some?
    ensures JoinWinners(slot, v, Some(f)) == Some(f) && Live(JoinWinners(slot, w, Some(f))).None?
  {
  }

  // The exact condition: a replica reads, at every moment up to k, like the one that never
  // collects, exactly when nothing stale lands.
  lemma ReadsAlikeIff(t: Trace, isSet: string -> bool, n: Origin, k: nat)
    requires Execution(t) && SoundTrace(t, isSet) && k <= |t.steps| && n in t.nodes
    ensures (forall m :: 0 <= m <= k ==> ReadsLikeIdeal(t, n, m)) <==> NothingStale(t, n, k)
  {
    if NothingStale(t, n, k) {
      forall m | 0 <= m <= k ensures ReadsLikeIdeal(t, n, m) {
        FreshReadsAlike(t, isSet, n, m);
      }
    } else {
      var i :| 0 <= i < k && i < |t.steps| && t.steps[i].node == n && StaleLands(t, i);
      StaleShows(t, isSet, i);
      assert !ReadsLikeIdeal(t, n, i + 1);
    }
  }

  // The retention window of n suffices up to moment m: each collection of its own forgets
  // only deletes that no set or add reaching it later, up to then, is older than.
  ghost predicate RetainedAt(t: Trace, n: Origin, m: nat)
    requires Execution(t)
  {
    forall i, j, slot, op ::
      0 <= i < j < m && j < |t.steps| && t.steps[i].node == n && t.steps[j].node == n && n in t.ss[i] &&
      Forgets(t, i, slot) && op in Arriving(t, j) && SlotOf(op) == slot && FactOf(op).content.Some?
      ==> Beats(slot, FactOf(op), Winner(t.ss[i][n].state, slot).value)
  }

  // What lands stale is beaten by a delete that its node has collected.
  lemma StaleIsBeatenByForgotten(t: Trace, isSet: string -> bool, j: nat, op: Op, d: Op) returns (i: nat)
    requires Execution(t) && SoundTrace(t, isSet) && j < |t.steps| && StaleOp(t, j, op, d)
    ensures var n, slot := t.steps[j].node, SlotOf(op);
            && i < j && t.steps[i].node == n && n in t.ss[i] && Forgets(t, i, slot)
            && !Beats(slot, FactOf(op), Winner(t.ss[i][n].state, slot).value)
  {
    assert StepOk(t, j);
    var n, slot := t.steps[j].node, SlotOf(op);
    RunsTrackIdeal(t, isSet, n, j, slot);
    HeardIsTyped(t, isSet, n, j);
    DecidedByGreatest(Heard(t, n, j), isSet, slot);
    var v, w := Winner(t.ss[j][n].state, slot), Winner(Ideal(t, n, j), slot);
    StaleIsNotTracked(slot, v, w, FactOf(op), FactOf(d));
    i :| 0 <= i < j && i < |t.steps| && ForgotAt(t, n, i, slot, w.value);
  }

  lemma StaleIsNotTracked(slot: Slot, v: Option<Fact>, w: Option<Fact>, f: Fact, d: Fact)
    requires v.None? || Beats(slot, f, v.value)
    requires w.Some? && !Beats(slot, d, w.value) && Beats(slot, d, f)
    ensures v != w && !Beats(slot, f, w.value)
  {
  }

  // Such a window is enough.
  lemma RetainedLetsNothingStaleLand(t: Trace, isSet: string -> bool, n: Origin, m: nat)
    requires Execution(t) && SoundTrace(t, isSet) && m <= |t.steps| && n in t.nodes && RetainedAt(t, n, m)
    ensures NothingStale(t, n, m)
  {
    forall j, op, d | 0 <= j < m && t.steps[j].node == n ensures !StaleOp(t, j, op, d) {
      if StaleOp(t, j, op, d) {
        var i := StaleIsBeatenByForgotten(t, isSet, j, op, d);
      }
    }
  }

  // End to end: two replicas that have heard the same writes, at whatever moments of a run,
  // directly or through the digests of others, in whatever order and however often, and with
  // whatever tombstones collected, show the same values and members.
  lemma ReplicasConverge(t: Trace, isSet: string -> bool, a: Origin, i: nat, b: Origin, j: nat)
    requires Execution(t) && SoundTrace(t, isSet) && a in t.nodes && b in t.nodes
    requires i <= |t.steps| && j <= |t.steps| && NothingStale(t, a, i) && NothingStale(t, b, j)
    requires forall op :: op in Heard(t, a, i) <==> op in Heard(t, b, j)
    ensures a in t.ss[i] && b in t.ss[j] && SameReads(t.ss[i][a].state, t.ss[j][b].state)
  {
    FreshReadsAlike(t, isSet, a, i);
    FreshReadsAlike(t, isSet, b, j);
    HeardIsTyped(t, isSet, a, i);
    HeardIsTyped(t, isSet, b, j);
    HeardIsConsistentAlone(t, a, i);
    Convergence(Heard(t, a, i), Heard(t, b, j), [], isSet);
  }

  /* Anti-entropy in a run */

  // From step j to step k, n received from p the digest of one shard, taken no sooner than j.
  ghost predicate Asked(t: Trace, n: Origin, p: Origin, shard: nat, j: nat, k: nat) {
    exists i :: 0 <= i < k <= |t.steps| && PulledAt(t, n, p, shard, j, i)
  }

  predicate PulledAt(t: Trace, n: Origin, p: Origin, shard: nat, j: nat, i: nat) {
    i < |t.steps| && t.steps[i].Pull? && t.steps[i].node == n && t.steps[i].peer == p &&
    t.steps[i].shard == shard && j <= t.steps[i].taken
  }

  // A full rotation of the shards, in any order, with whatever else happens meanwhile.
  ghost predicate Rotated(t: Trace, n: Origin, p: Origin, j: nat, k: nat) {
    forall shard: nat :: shard < NUM_SHARDS ==> Asked(t, n, p, shard, j, k)
  }

  // p's state speaks for the operation at every moment from j to k.
  ghost predicate KeepsHolding(t: Trace, p: Origin, j: nat, k: nat, op: Op) {
    forall m :: j <= m <= k && m < |t.ss| && p in t.ss[m] ==> SpeaksFor(t.ss[m][p].state, op)
  }

  // A full rotation teaches all that the peer had heard when it began and has not forgotten.
  lemma RotationTeaches(t: Trace, n: Origin, p: Origin, j: nat, k: nat, op: Op)
    requires Execution(t) && j <= k <= |t.steps| && Rotated(t, n, p, j, k)
    requires op in Heard(t, p, j) && KeepsHolding(t, p, j, k, op)
    ensures op in Heard(t, n, k)
  {
    var shard := ShardOf(t.hash, op.key);
    assert Asked(t, n, p, shard, j, k);
    var i :| 0 <= i < k && PulledAt(t, n, p, shard, j, i);
    assert StepOk(t, i);
    var taken := t.steps[i].taken;
    HeardStays(t, p, j, taken, op);
    SentIff(Heard(t, p, taken), t.ss[taken][p].state, t.hash, shard, op);
    assert op in Heard(t, n, i + 1);
    HeardStays(t, n, i + 1, k, op);
  }

  ghost predicate Collected(t: Trace, n: Origin, k: nat) {
    exists i :: 0 <= i < k && i < |t.steps| && t.steps[i].Gc? && t.steps[i].node == n
  }

  // A replica forgets only operations on slots whose greatest event it has heard is a delete,
  // and only by collecting that delete itself.
  lemma OnlyDeletesAreForgotten(t: Trace, isSet: string -> bool, n: Origin, k: nat, op: Op)
    requires Execution(t) && SoundTrace(t, isSet) && k <= |t.steps| && n in t.nodes && op in Heard(t, n, k)
    ensures n in t.ss[k]
    ensures var w := Winner(Ideal(t, n, k), SlotOf(op));
            || SpeaksFor(t.ss[k][n].state, op)
            || (w.Some? && w.value.content.None? && Forgotten(t, n, k, SlotOf(op), w.value))
  {
    var slot := SlotOf(op);
    RunsTrackIdeal(t, isSet, n, k, slot);
    HeardIsTyped(t, isSet, n, k);
    DecidedByGreatest(Heard(t, n, k), isSet, slot);
  }

  lemma UncollectedKeepsHolding(t: Trace, isSet: string -> bool, n: Origin, j: nat, k: nat, op: Op)
    requires Execution(t) && SoundTrace(t, isSet) && j <= k <= |t.steps| && n in t.nodes
    requires op in Heard(t, n, j) && !Collected(t, n, k)
    ensures KeepsHolding(t, n, j, k, op)
  {
    forall m | j <= m <= k && m < |t.ss| && n in t.ss[m] ensures SpeaksFor(t.ss[m][n].state, op) {
      HeardStays(t, n, j, m, op);
      OnlyDeletesAreForgotten(t, isSet, n, m, op);
      NeverForgotten(t, n, m);
    }
  }

  lemma NeverForgotten(t: Trace, n: Origin, m: nat)
    requires Execution(t) && !Collected(t, n, m)
    ensures forall slot, f :: !Forgotten(t, n, m, slot, f)
  {
  }

  // What a has heard by step j reaches b by step k: b has heard it already, or a does not
  // forget it meanwhile.
  ghost predicate Shares(t: Trace, a: Origin, b: Origin, j: nat, k: nat)
    requires Execution(t) && j <= |t.steps|
  {
    forall op :: op in Heard(t, a, j) ==> op in Heard(t, b, j) || KeepsHolding(t, a, j, k, op)
  }

  // In particular a replica that collects nothing shares all it has heard.
  lemma UncollectedShares(t: Trace, isSet: string -> bool, a: Origin, b: Origin, j: nat, k: nat)
    requires Execution(t) && SoundTrace(t, isSet) && j <= k <= |t.steps| && a in t.nodes
    requires !Collected(t, a, k)
    ensures Shares(t, a, b, j, k)
  {
    forall op | op in Heard(t, a, j) ensures KeepsHolding(t, a, j, k, op) {
      UncollectedKeepsHolding(t, isSet, a, j, k, op);
    }
  }

  // Nothing that neither had heard at step j has reached either by step k.
  ghost predicate Quiet(t: Trace, a: Origin, b: Origin, j: nat, k: nat)
    requires Execution(t) && j <= |t.steps| && k <= |t.steps|
  {
    forall op :: op in Heard(t, a, k) || op in Heard(t, b, k) ==> op in Heard(t, a, j) || op in Heard(t, b, j)
  }

  // Eventual consistency by anti-entropy alone: once writes stop reaching two replicas, one
  // full rotation each way, digests delayed or repeated, leaves them reading alike, if neither
  // has forgotten, nor forgets meanwhile, what the other has not heard.
  lemma RotationsAgree(t: Trace, isSet: string -> bool, a: Origin, b: Origin, j: nat, k: nat)
    requires Execution(t) && SoundTrace(t, isSet) && a in t.nodes && b in t.nodes
    requires j <= k <= |t.steps| && Quiet(t, a, b, j, k) && NothingStale(t, a, k) && NothingStale(t, b, k)
    requires Rotated(t, a, b, j, k) && Rotated(t, b, a, j, k)
    requires Shares(t, a, b, j, k) && Shares(t, b, a, j, k)
    ensures a in t.ss[k] && b in t.ss[k] && SameReads(t.ss[k][a].state, t.ss[k][b].state)
  {
    forall op ensures op in Heard(t, a, k) <==> op in Heard(t, b, k) {
      if op in Heard(t, a, k) || op in Heard(t, b, k) {
        RotationsTeach(t, a, b, j, k, op);
      }
    }
    ReplicasConverge(t, isSet, a, k, b, k);
  }

  lemma RotationsTeach(t: Trace, a: Origin, b: Origin, j: nat, k: nat, op: Op)
    requires Execution(t) && j <= k <= |t.steps|
    requires Rotated(t, a, b, j, k) && Rotated(t, b, a, j, k)
    requires Shares(t, a, b, j, k) && Shares(t, b, a, j, k)
    requires op in Heard(t, a, j) || op in Heard(t, b, j)
    ensures op in Heard(t, a, k) && op in Heard(t, b, k)
  {
    if op in Heard(t, a, j) {
      HeardStays(t, a, j, k, op);
      if op in Heard(t, b, j) { HeardStays(t, b, j, k, op); } else { RotationTeaches(t, b, a, j, k, op); }
    } else {
      HeardStays(t, b, j, k, op);
      RotationTeaches(t, a, b, j, k, op);
    }
  }

  /* Rotations undisturbed */

  // Between j and k, n only pulls from p, and only digests that p took meanwhile.
  predicate OnlyPulls(t: Trace, n: Origin, p: Origin, j: nat, k: nat) {
    forall i :: j <= i < k && i < |t.steps| && t.steps[i].node == n ==>
      t.steps[i].Pull? && t.steps[i].peer == p && j <= t.steps[i].taken
  }

  // A pulled digest joins the peer's winners, as they were when it was taken.
  lemma PullJoins(t: Trace, isSet: string -> bool, i: nat, slot: Slot)
    requires Execution(t) && SoundTrace(t, isSet) && i < |t.steps| && t.steps[i].Pull?
    ensures var e := t.steps[i];
            && e.node in t.ss[i] && e.node in t.ss[i + 1] && e.taken <= i && e.peer in t.ss[e.taken]
            && Winner(t.ss[i + 1][e.node].state, slot) ==
                 if ShardOf(t.hash, slot.key) == e.shard
                 then JoinWinners(slot, Winner(t.ss[i][e.node].state, slot), Winner(t.ss[e.taken][e.peer].state, slot))
                 else Winner(t.ss[i][e.node].state, slot)
  {
    var e := t.steps[i];
    assert StepOk(t, i);
    RunsAreGrounded(t, isSet, e.node, i);
    PeersAreGrounded(t, isSet, i);
    DigestStands(t, isSet, i);
    StepRunsArriving(t, isSet, i);
    PullIsJoin(t.ss[i][e.node].state, t.ss[e.taken][e.peer].state, key => ShardOf(t.hash, key) == e.shard,
               OpsOf(e.digest), isSet, slot);
  }

  // Two replicas' winners join to the same fact either way around.
  lemma WinnersCommute(t: Trace, isSet: string -> bool, a: Origin, b: Origin, j: nat, slot: Slot)
    requires Execution(t) && SoundTrace(t, isSet) && j <= |t.steps| && a in t.nodes && b in t.nodes
    ensures a in t.ss[j] && b in t.ss[j]
    ensures var v, w := Winner(t.ss[j][a].state, slot), Winner(t.ss[j][b].state, slot);
            JoinWinners(slot, v, w) == JoinWinners(slot, w, v)
  {
    RunsAreGrounded(t, isSet, a, j);
    RunsAreGrounded(t, isSet, b, j);
    HeardIsConsistent(t, a, j, b, j);
    HeldCommute(slot, Heard(t, a, j), Heard(t, b, j), Winner(t.ss[j][a].state, slot),
                Winner(t.ss[j][b].state, slot));
  }

  lemma HeldCommute(slot: Slot, xs: seq<Op>, ys: seq<Op>, v: Option<Fact>, w: Option<Fact>)
    requires Consistent(xs + ys) && HeldAt(slot, v, xs) && HeldAt(slot, w, ys)
    ensures JoinWinners(slot, v, w) == JoinWinners(slot, w, v)
  {
    if v.Some? && w.Some? {
      var x :| x in xs && SlotOf(x) == slot && FactOf(x) == v.value;
      var y :| y in ys && SlotOf(y) == slot && FactOf(y) == w.value;
      assert x in xs + ys && y in xs + ys;
    }
  }

  // A winner on the way from v to the join of v and w.
  predicate Between(slot: Slot, x: Option<Fact>, v: Option<Fact>, w: Option<Fact>) {
    x == v || x == JoinWinners(slot, v, w)
  }

  lemma JoinsMeet(slot: Slot, x: Option<Fact>, y: Option<Fact>, v: Option<Fact>, w: Option<Fact>)
    requires JoinWinners(slot, v, w) == JoinWinners(slot, w, v)
    requires Between(slot, x, v, w) && Between(slot, y, w, v)
    ensures JoinWinners(slot, x, y) == JoinWinners(slot, v, w)
  {
  }

  ghost predicate Undisturbed(t: Trace, isSet: string -> bool, a: Origin, b: Origin, j: nat, k: nat) {
    && Execution(t) && SoundTrace(t, isSet) && a in t.nodes && b in t.nodes && j <= k <= |t.steps|
    && OnlyPulls(t, a, b, j, k) && OnlyPulls(t, b, a, j, k)
  }

  // Pull by pull: a goes from its own winner to the join of both, and is there once it has
  // pulled the shard.
  lemma {:induction false} PullsClimb(t: Trace, isSet: string -> bool, a: Origin, b: Origin, j: nat, k: nat, slot: Slot)
    requires Undisturbed(t, isSet, a, b, j, k)
    ensures a in t.ss[j] && b in t.ss[j] && a in t.ss[k]
    ensures var v, w, x := Winner(t.ss[j][a].state, slot), Winner(t.ss[j][b].state, slot),
                           Winner(t.ss[k][a].state, slot);
            && Between(slot, x, v, w)
            && (Asked(t, a, b, ShardOf(t.hash, slot.key), j, k) ==> x == JoinWinners(slot, v, w))
    decreases k
  {
    WinnersCommute(t, isSet, a, b, j, slot);
    NodesStay(t, k, a);
    var shard := ShardOf(t.hash, slot.key);
    if k == j {
      NotAskedYet(t, a, b, shard, j);
    } else {
      var i := k - 1;
      PullsClimb(t, isSet, a, b, j, i, slot);
      assert StepOk(t, i);
      if t.steps[i].node == a {
        PullJoins(t, isSet, i, slot);
        PullsClimb(t, isSet, b, a, j, t.steps[i].taken, slot);
        JoinsMeet(slot, Winner(t.ss[i][a].state, slot), Winner(t.ss[t.steps[i].taken][b].state, slot),
                  Winner(t.ss[j][a].state, slot), Winner(t.ss[j][b].state, slot));
      }
      AskedBefore(t, a, b, shard, j, i);
    }
  }

  lemma NotAskedYet(t: Trace, n: Origin, p: Origin, shard: nat, j: nat)
    requires Execution(t) && j <= |t.steps|
    ensures !Asked(t, n, p, shard, j, j)
  {
    forall i | 0 <= i < j ensures !PulledAt(t, n, p, shard, j, i) {
      assert StepOk(t, i);
    }
  }

  lemma AskedBefore(t: Trace, n: Origin, p: Origin, shard: nat, j: nat, i: nat)
    requires i < |t.steps|
    ensures Asked(t, n, p, shard, j, i + 1) <==> Asked(t, n, p, shard, j, i) || PulledAt(t, n, p, shard, j, i)
  {
  }

  // Whatever either has forgotten: if two replicas do nothing meanwhile but pull from each
  // other, a full rotation each way leaves every slot of both with the join of the winners
  // they began with.
  lemma UndisturbedRotationsJoin(t: Trace, isSet: string -> bool, a: Origin, b: Origin, j: nat, k: nat, slot: Slot)
    requires Undisturbed(t, isSet, a, b, j, k) && Rotated(t, a, b, j, k) && Rotated(t, b, a, j, k)
    ensures a in t.ss[j] && b in t.ss[j] && a in t.ss[k] && b in t.ss[k]
    ensures var join := JoinWinners(slot, Winner(t.ss[j][a].state, slot), Winner(t.ss[j][b].state, slot));
            Winner(t.ss[k][a].state, slot) == join && Winner(t.ss[k][b].state, slot) == join
  {
    PullsClimb(t, isSet, a, b, j, k, slot);
    PullsClimb(t, isSet, b, a, j, k, slot);
    WinnersCommute(t, isSet, a, b, j, slot);
    assert Asked(t, a, b, ShardOf(t.hash, slot.key), j, k) && Asked(t, b, a, ShardOf(t.hash, slot.key), j, k);
  }

  // So they read alike, and go on to under the same later operations.
  lemma UndisturbedRotationsAgree(t: Trace, isSet: string -> bool, a: Origin, b: Origin, j: nat, k: nat, later: seq<Op>)
    requires Undisturbed(t, isSet, a, b, j, k) && Rotated(t, a, b, j, k) && Rotated(t, b, a, j, k)
    requires TypedOps(later, isSet)
    ensures a in t.ss[k] && b in t.ss[k] && SameReads(t.ss[k][a].state, t.ss[k][b].state)
    ensures SameReads(Run(t.ss[k][a].state, later), Run(t.ss[k][b].state, later))
  {
    RunsAreGrounded(t, isSet, a, k);
    RunsAreGrounded(t, isSet, b, k);
    var x, y := t.ss[k][a].state, t.ss[k][b].state;
    forall slot ensures Winner(x, slot) == Winner(y, slot) {
      UndisturbedRotationsJoin(t, isSet, a, b, j, k, slot);
    }
    SameWinnersForever(x, y, [], isSet);
    SameWinnersForever(x, y, later, isSet);
  }
}
