// Strong eventual consistency of the stamped operations, winner-only anti-entropy, and the
// invisibility of tombstone collection.
module LwwConvergence {
  import opened Wrappers
  import opened Hlc
  import opened LwwSpec

  /* Reads depend on winners alone */

  ghost predicate SameWinners(s: State, t: State) {
    forall slot :: Winner(s, slot) == Winner(t, slot)
  }

  ghost predicate SameReads(s: State, t: State) {
    forall k :: Get(s, k) == Get(t, k) && MembersOf(s, k) == MembersOf(t, k)
  }

  lemma ReadsFollowWinners(s: State, k: string, e: string)
    ensures Get(s, k) == match Winner(s, StringSlot(k)) case Some(f) => f.content case None => None
    ensures e in MembersOf(s, k) <==>
              Winner(s, ElementSlot(k, e)).Some? && Winner(s, ElementSlot(k, e)).value.content.Some?
  {
  }

  // Two states agree on liveness at every slot, and on the content of the live ones.
  ghost predicate SameLive(s: State, t: State) {
    forall slot :: Live(Winner(s, slot)) == Live(Winner(t, slot))
  }

  function Live(w: Option<Fact>): Option<string> {
    if w.Some? then w.value.content else None
  }

  lemma SameLiveReadsAlike(s: State, t: State)
    requires SameLive(s, t)
    ensures SameReads(s, t)
  {
    forall k ensures Get(s, k) == Get(t, k) && MembersOf(s, k) == MembersOf(t, k) {
      assert Live(Winner(s, StringSlot(k))) == Live(Winner(t, StringSlot(k)));
      ReadsFollowWinners(s, k, "");
      ReadsFollowWinners(t, k, "");
      forall e ensures e in MembersOf(s, k) <==> e in MembersOf(t, k) {
        assert Live(Winner(s, ElementSlot(k, e))) == Live(Winner(t, ElementSlot(k, e)));
        ReadsFollowWinners(s, k, e);
        ReadsFollowWinners(t, k, e);
      }
    }
  }

  lemma {:induction false} RunAppend(s: State, a: seq<Op>, b: seq<Op>)
    ensures Run(s, a + b) == Run(Run(s, a), b)
    decreases |a|
  {
    if a == [] {
      assert a + b == b;
    } else {
      assert (a + b)[1..] == a[1..] + b;
      RunAppend(Apply(s, a[0]), a[1..], b);
    }
  }

  lemma {:induction false} RunKeepsTyped(s: State, ops: seq<Op>, isSet: string -> bool)
    requires Typed(s, isSet) && TypedOps(ops, isSet)
    ensures Typed(Run(s, ops), isSet)
    decreases |ops|
  {
    if ops != [] {
      ApplyKeepsTyped(s, ops[0], isSet);
      RunKeepsTyped(Apply(s, ops[0]), ops[1..], isSet);
    }
  }

  // Where a new tombstone comes from.
  lemma {:induction false} NewTombstone(s: State, ops: seq<Op>, key: string)
    requires key in Run(s, ops).tombs
    ensures (key in s.tombs && s.tombs[key] == Run(s, ops).tombs[key]) || DelOp(key, Run(s, ops).tombs[key]) in ops
    decreases |ops|
  {
    if ops != [] { NewTombstone(Apply(s, ops[0]), ops[1..], key); }
  }

  // States with the same winners stay indistinguishable under every later operation.
  lemma {:induction false} SameWinnersForever(s: State, t: State, ops: seq<Op>, isSet: string -> bool)
    requires SameWinners(s, t) && Typed(s, isSet) && Typed(t, isSet) && TypedOps(ops, isSet)
    ensures SameWinners(Run(s, ops), Run(t, ops)) && SameReads(Run(s, ops), Run(t, ops))
    decreases |ops|
  {
    if ops == [] {
      SameLiveReadsAlike(s, t);
    } else {
      var op := ops[0];
      forall slot ensures Winner(Apply(s, op), slot) == Winner(Apply(t, op), slot) {
        ApplyIsJoin(s, op, isSet, slot);
        ApplyIsJoin(t, op, isSet, slot);
      }
      ApplyKeepsTyped(s, op, isSet);
      ApplyKeepsTyped(t, op, isSet);
      SameWinnersForever(Apply(s, op), Apply(t, op), ops[1..], isSet);
    }
  }

  /* Convergence */

  // w is the greatest event that ops hold for the slot.
  ghost predicate Greatest(slot: Slot, ops: seq<Op>, w: Option<Fact>) {
    match w
    case None => forall op :: op in ops ==> SlotOf(op) != slot
    case Some(f) =>
      && (exists op :: op in ops && SlotOf(op) == slot && FactOf(op) == f)
      && (forall op :: op in ops && SlotOf(op) == slot ==> !Beats(slot, FactOf(op), f))
  }

  // Distinct events on one string key carry distinct stamps.
  ghost predicate Consistent(ops: seq<Op>) {
    forall a, b :: a in ops && b in ops && SlotOf(a) == SlotOf(b) && SlotOf(a).StringSlot? && a.stamp == b.stamp
                   ==> a == b
  }

  lemma GreatestExtends(slot: Slot, ops: seq<Op>, op: Op, w: Option<Fact>)
    requires Greatest(slot, ops, w)
    ensures Greatest(slot, ops + [op], if SlotOf(op) == slot then Join(slot, w, FactOf(op)) else w)
  {
    assert op in ops + [op] && forall o :: o in ops + [op] <==> o in ops || o == op;
  }

  // Whatever the order and duplication, each slot ends with the greatest of its events.
  lemma {:induction false} DecidedByGreatest(ops: seq<Op>, isSet: string -> bool, slot: Slot)
    requires TypedOps(ops, isSet)
    ensures Greatest(slot, ops, Winner(Run(EMPTY_STATE, ops), slot))
    decreases |ops|
  {
    if ops != [] {
      var before, op := ops[..|ops| - 1], ops[|ops| - 1];
      assert ops == before + [op];
      DecidedByGreatest(before, isSet, slot);
      RunAppend(EMPTY_STATE, before, [op]);
      var s := Run(EMPTY_STATE, before);
      assert Run(s, [op]) == Apply(s, op);
      RunKeepsTyped(EMPTY_STATE, before, isSet);
      ApplyIsJoin(s, op, isSet, slot);
      GreatestExtends(slot, before, op, Winner(s, slot));
    }
  }

  lemma GreatestIsUnique(slot: Slot, xs: seq<Op>, ys: seq<Op>, v: Option<Fact>, w: Option<Fact>)
    requires Greatest(slot, xs, v) && Greatest(slot, ys, w)
    requires forall op :: op in xs <==> op in ys
    requires Consistent(xs)
    ensures v == w
  {
    if v.Some? && w.Some? {
      var a :| a in xs && SlotOf(a) == slot && FactOf(a) == v.value;
      var b :| b in ys && SlotOf(b) == slot && FactOf(b) == w.value;
      assert a.stamp == b.stamp;
    }
  }

  // Strong eventual consistency: replicas that have applied the same events agree, and no
  // common sequence of later events can tell them apart.
  lemma Convergence(xs: seq<Op>, ys: seq<Op>, later: seq<Op>, isSet: string -> bool)
    requires TypedOps(xs, isSet) && TypedOps(later, isSet) && Consistent(xs)
    requires forall op :: op in xs <==> op in ys
    ensures SameReads(Run(EMPTY_STATE, xs), Run(EMPTY_STATE, ys))
    ensures SameReads(Run(EMPTY_STATE, xs + later), Run(EMPTY_STATE, ys + later))
  {
    var s, t := Run(EMPTY_STATE, xs), Run(EMPTY_STATE, ys);
    forall slot ensures Winner(s, slot) == Winner(t, slot) {
      DecidedByGreatest(xs, isSet, slot);
      DecidedByGreatest(ys, isSet, slot);
      GreatestIsUnique(slot, xs, ys, Winner(s, slot), Winner(t, slot));
    }
    RunKeepsTyped(EMPTY_STATE, xs, isSet);
    RunKeepsTyped(EMPTY_STATE, ys, isSet);
    SameWinnersForever(s, t, [], isSet);
    SameWinnersForever(s, t, later, isSet);
    RunAppend(EMPTY_STATE, xs, later);
    RunAppend(EMPTY_STATE, ys, later);
  }

  // An element is a member exactly when some add of it is not older than any remove of it.
  lemma MembershipRule(ops: seq<Op>, isSet: string -> bool, k: string, e: string)
    requires TypedOps(ops, isSet)
    ensures e in MembersOf(Run(EMPTY_STATE, ops), k) <==>
            exists st :: AddOp(k, e, st) in ops && forall r :: RemOp(k, e, r) in ops ==> !r.After(st)
  {
    var slot := ElementSlot(k, e);
    var w := Winner(Run(EMPTY_STATE, ops), slot);
    DecidedByGreatest(ops, isSet, slot);
    ReadsFollowWinners(Run(EMPTY_STATE, ops), k, e);
    if w.Some? && w.value.content.Some? {
      var op :| op in ops && SlotOf(op) == slot && FactOf(op) == w.value;
      assert op == AddOp(k, e, op.stamp);
      forall r | RemOp(k, e, r) in ops ensures !r.After(op.stamp) {
        assert !Beats(slot, FactOf(RemOp(k, e, r)), w.value);
      }
    } else {
      forall st | AddOp(k, e, st) in ops ensures exists r :: RemOp(k, e, r) in ops && r.After(st) {
        assert SlotOf(AddOp(k, e, st)) == slot;
        var op :| op in ops && SlotOf(op) == slot && FactOf(op) == w.value;
        assert op == RemOp(k, e, op.stamp);
        assert !Beats(slot, FactOf(AddOp(k, e, st)), w.value);
      }
    }
  }

  // A string key reads v exactly when some set of v carries the greatest stamp on the key.
  lemma StringRule(ops: seq<Op>, isSet: string -> bool, k: string, v: string)
    requires TypedOps(ops, isSet) && Consistent(ops)
    ensures Get(Run(EMPTY_STATE, ops), k) == Some(v) <==>
            exists st :: SetOp(k, v, st) in ops &&
                         forall op :: op in ops && SlotOf(op) == StringSlot(k) ==> !op.stamp.After(st)
  {
    var slot := StringSlot(k);
    var w := Winner(Run(EMPTY_STATE, ops), slot);
    DecidedByGreatest(ops, isSet, slot);
    ReadsFollowWinners(Run(EMPTY_STATE, ops), k, "");
    if Get(Run(EMPTY_STATE, ops), k) == Some(v) {
      var op :| op in ops && SlotOf(op) == slot && FactOf(op) == w.value;
      assert op == SetOp(k, v, op.stamp);
    } else {
      forall st | SetOp(k, v, st) in ops
        ensures exists op :: op in ops && SlotOf(op) == slot && op.stamp.After(st)
      {
        assert SlotOf(SetOp(k, v, st)) == slot;
        var op :| op in ops && SlotOf(op) == slot && FactOf(op) == w.value;
        assert !Beats(slot, FactOf(SetOp(k, v, st)), w.value);
      }
    }
  }

  /* Anti-entropy */

  // ops list, in some order, the winner of every slot of s whose key is in scope, and
  // nothing else: what ShardLWWDigest sends.
  ghost predicate DigestOf(s: State, scope: string -> bool, ops: seq<Op>) {
    && (forall op :: op in ops ==> scope(op.key) && Winner(s, SlotOf(op)) == Some(FactOf(op)))
    && (forall slot: Slot :: scope(slot.key) && Winner(s, slot).Some? ==>
          exists op :: op in ops && SlotOf(op) == slot)
  }

  function JoinWinners(slot: Slot, held: Option<Fact>, sent: Option<Fact>): Option<Fact> {
    if sent.None? then held else Join(slot, held, sent.value)
  }

  lemma DigestIsTyped(s: State, scope: string -> bool, ops: seq<Op>, isSet: string -> bool)
    requires Typed(s, isSet) && DigestOf(s, scope, ops)
    ensures TypedOps(ops, isSet)
  {
  }

  // Applying operations that carry one and the same fact for a slot joins that fact once.
  lemma {:induction false} RunJoinsOnce(s: State, ops: seq<Op>, isSet: string -> bool, slot: Slot, f: Fact)
    requires Typed(s, isSet) && TypedOps(ops, isSet)
    requires forall op :: op in ops && SlotOf(op) == slot ==> FactOf(op) == f
    ensures Winner(Run(s, ops), slot) ==
              if exists op :: op in ops && SlotOf(op) == slot then Join(slot, Winner(s, slot), f) else Winner(s, slot)
    decreases |ops|
  {
    if ops != [] {
      ApplyIsJoin(s, ops[0], isSet, slot);
      ApplyKeepsTyped(s, ops[0], isSet);
      RunJoinsOnce(Apply(s, ops[0]), ops[1..], isSet, slot, f);
      assert ops[0] in ops && forall op :: op in ops <==> op == ops[0] || op in ops[1..];
    }
  }

  // Pulling a digest leaves, in every slot in scope, the join of both replicas' winners, and
  // every other slot as it was.
  lemma PullIsJoin(a: State, b: State, scope: string -> bool, ops: seq<Op>, isSet: string -> bool, slot: Slot)
    requires Typed(a, isSet) && Typed(b, isSet) && DigestOf(b, scope, ops)
    ensures Winner(Run(a, ops), slot) ==
              if scope(slot.key) then JoinWinners(slot, Winner(a, slot), Winner(b, slot)) else Winner(a, slot)
  {
    DigestIsTyped(b, scope, ops, isSet);
    var f := if Winner(b, slot).Some? then Winner(b, slot).value else Fact(ZERO_STAMP, None);
    RunJoinsOnce(a, ops, isSet, slot, f);
  }

  // A replica knows a set of events when its winners are those of applying them all.
  ghost predicate Knows(s: State, ops: seq<Op>, isSet: string -> bool) {
    Typed(s, isSet) && TypedOps(ops, isSet) && SameWinners(s, Run(EMPTY_STATE, ops))
  }

  // Sending only winners loses nothing: after a full pull, a replica cannot be told from
  // one that has applied every event either side knew.
  lemma PullLearnsEverything(a: State, b: State, xs: seq<Op>, ys: seq<Op>, digest: seq<Op>, isSet: string -> bool)
    requires Knows(a, xs, isSet) && Knows(b, ys, isSet) && Consistent(xs + ys)
    requires DigestOf(b, k => true, digest)
    ensures Knows(Run(a, digest), xs + ys, isSet)
  {
    DigestIsTyped(b, k => true, digest, isSet);
    RunKeepsTyped(a, digest, isSet);
    var t := Run(EMPTY_STATE, xs + ys);
    forall slot ensures Winner(Run(a, digest), slot) == Winner(t, slot) {
      PullIsJoin(a, b, k => true, digest, isSet, slot);
      DecidedByGreatest(xs, isSet, slot);
      DecidedByGreatest(ys, isSet, slot);
      DecidedByGreatest(xs + ys, isSet, slot);
      JoinOfGreatest(slot, xs, ys, Winner(a, slot), Winner(b, slot));
      GreatestIsUnique(slot, xs + ys, xs + ys, Winner(Run(a, digest), slot), Winner(t, slot));
    }
  }

  lemma JoinOfGreatest(slot: Slot, xs: seq<Op>, ys: seq<Op>, v: Option<Fact>, w: Option<Fact>)
    requires Greatest(slot, xs, v) && Greatest(slot, ys, w)
    ensures Greatest(slot, xs + ys, JoinWinners(slot, v, w))
  {
    forall op | op in xs ensures op in xs + ys {}
    forall op | op in ys ensures op in xs + ys {}
  }

  // Pulls both ways make two replicas agree, for now and under every later event.
  lemma PullsMakeReplicasAgree(a: State, b: State, xs: seq<Op>, ys: seq<Op>, fromB: seq<Op>, fromA: seq<Op>,
                               later: seq<Op>, isSet: string -> bool)
    requires Knows(a, xs, isSet) && Knows(b, ys, isSet) && Consistent(xs + ys)
    requires DigestOf(b, k => true, fromB)
    requires DigestOf(Run(a, fromB), k => true, fromA)
    requires TypedOps(later, isSet)
    ensures SameReads(Run(Run(a, fromB), later), Run(Run(b, fromA), later))
  {
    PullLearnsEverything(a, b, xs, ys, fromB, isSet);
    PullLearnsEverything(b, Run(a, fromB), ys, xs + ys, fromA, isSet) by {
      assert forall op :: op in ys + (xs + ys) <==> op in xs + ys;
    }
    var s, t := Run(a, fromB), Run(b, fromA);
    forall slot ensures Winner(s, slot) == Winner(t, slot) {
      DecidedByGreatest(xs + ys, isSet, slot);
      DecidedByGreatest(ys + (xs + ys), isSet, slot);
      GreatestIsUnique(slot, xs + ys, ys + (xs + ys), Winner(s, slot), Winner(t, slot)) by {
        assert forall op :: op in ys + (xs + ys) <==> op in xs + ys;
      }
    }
    SameWinnersForever(s, t, later, isSet);
  }

  /* The full-state merge that the digests stand in for */

  function Newest(a: map<string, Stamp>, b: map<string, Stamp>): map<string, Stamp> {
    map e | e in a.Keys + b.Keys ::
      if e !in b || (e in a && !b[e].After(a[e])) then a[e] else b[e]
  }

  function MergeCrdts(a: Crdt, b: Crdt): Crdt {
    Crdt(Newest(a.adds, b.adds), Newest(a.removes, b.removes))
  }

  function StringJoin(a: State, b: State, k: string): Option<Fact> {
    JoinWinners(StringSlot(k), Winner(a, StringSlot(k)), Winner(b, StringSlot(k)))
  }

  // Keep every add and remove stamp of both sides, and the newer value or tombstone.
  function FullMerge(a: State, b: State): State {
    var keys := a.data.Keys + b.data.Keys;
    State(map k | k in keys &&
                  (CrdtAt(a, k) != EMPTY_CRDT || CrdtAt(b, k) != EMPTY_CRDT || Live(StringJoin(a, b, k)).Some?) ::
            if Live(StringJoin(a, b, k)).Some?
            then Text(Live(StringJoin(a, b, k)).value, StringJoin(a, b, k).value.stamp)
            else Elements(MergeCrdts(CrdtAt(a, k), CrdtAt(b, k))),
          map k | k in a.tombs.Keys + b.tombs.Keys && StringJoin(a, b, k).Some? && Live(StringJoin(a, b, k)).None? ::
            StringJoin(a, b, k).value.stamp)
  }

  lemma MergeCrdtsJoinsWinners(a: Crdt, b: Crdt, k: string, e: string)
    ensures ElementWinner(MergeCrdts(a, b), e) ==
              JoinWinners(ElementSlot(k, e), ElementWinner(a, e), ElementWinner(b, e))
  {
  }

  lemma FullMergeIsTyped(a: State, b: State, isSet: string -> bool)
    requires Typed(a, isSet) && Typed(b, isSet)
    ensures Typed(FullMerge(a, b), isSet)
  {
  }

  lemma FullMergeJoinsStrings(a: State, b: State, isSet: string -> bool, k: string)
    requires Typed(a, isSet) && Typed(b, isSet)
    ensures Winner(FullMerge(a, b), StringSlot(k)) == StringJoin(a, b, k)
  {
  }

  lemma FullMergeJoinsSets(a: State, b: State, isSet: string -> bool, k: string)
    requires Typed(a, isSet) && Typed(b, isSet)
    ensures CrdtAt(FullMerge(a, b), k) == MergeCrdts(CrdtAt(a, k), CrdtAt(b, k))
  {
    assert Newest(map[], map[]) == map[];
  }

  lemma FullMergeJoinsWinners(a: State, b: State, isSet: string -> bool, slot: Slot)
    requires Typed(a, isSet) && Typed(b, isSet)
    ensures Winner(FullMerge(a, b), slot) == JoinWinners(slot, Winner(a, slot), Winner(b, slot))
  {
    if slot.ElementSlot? {
      FullMergeJoinsSets(a, b, isSet, slot.key);
      MergeCrdtsJoinsWinners(CrdtAt(a, slot.key), CrdtAt(b, slot.key), slot.key, slot.elem);
    } else {
      FullMergeJoinsStrings(a, b, isSet, slot.key);
    }
  }

  // No later stamped operation can tell a winner-only pull from a full-state merge.
  lemma DigestIsAsGoodAsFullState(a: State, b: State, digest: seq<Op>, later: seq<Op>, isSet: string -> bool)
    requires Typed(a, isSet) && Typed(b, isSet) && DigestOf(b, k => true, digest) && TypedOps(later, isSet)
    ensures SameReads(Run(Run(a, digest), later), Run(FullMerge(a, b), later))
  {
    DigestIsTyped(b, k => true, digest, isSet);
    RunKeepsTyped(a, digest, isSet);
    FullMergeIsTyped(a, b, isSet);
    forall slot ensures Winner(Run(a, digest), slot) == Winner(FullMerge(a, b), slot) {
      PullIsJoin(a, b, k => true, digest, isSet, slot);
      FullMergeJoinsWinners(a, b, isSet, slot);
    }
    SameWinnersForever(Run(a, digest), FullMerge(a, b), later, isSet);
  }

  /* Tombstone collection */

  function Prune(c: Crdt, cutoff: int): Crdt {
    var dead := set e | e in c.removes && !c.Contains(e) && c.removes[e].ts.physical < cutoff;
    Crdt(c.adds - dead, c.removes - dead)
  }

  // gcTombstones: drop the string tombstones in `aged` (kept since before the window), prune
  // each set, and drop the sets left with no stamp at all.
  function Collect(s: State, aged: set<string>, cutoff: int): State {
    State(map k | k in s.data && !(s.data[k].Elements? && Prune(s.data[k].crdt, cutoff) == EMPTY_CRDT) ::
            if s.data[k].Elements? then Elements(Prune(s.data[k].crdt, cutoff)) else s.data[k],
          s.tombs - aged)
  }

  lemma PruneForgetsOnlyDead(c: Crdt, cutoff: int, e: string)
    ensures ElementWinner(Prune(c, cutoff), e) == ElementWinner(c, e)
         || (ElementWinner(Prune(c, cutoff), e).None? && Live(ElementWinner(c, e)).None?)
  {
  }

  // Collection changes no read: it only ever forgets a slot whose winner is a delete.
  lemma CollectForgetsOnlyDead(s: State, aged: set<string>, cutoff: int, isSet: string -> bool, slot: Slot)
    requires Typed(s, isSet)
    ensures Typed(Collect(s, aged, cutoff), isSet)
    ensures Winner(Collect(s, aged, cutoff), slot) == Winner(s, slot)
         || (Winner(Collect(s, aged, cutoff), slot).None? && Live(Winner(s, slot)).None?)
  {
    if slot.ElementSlot? && slot.key in s.data && s.data[slot.key].Elements? {
      PruneForgetsOnlyDead(s.data[slot.key].crdt, cutoff, slot.elem);
    }
  }

  datatype Action = Do(op: Op) | Gc(aged: set<string>, cutoff: int)

  function RunWithGc(s: State, acts: seq<Action>): State
    decreases |acts|
  {
    if acts == [] then s
    else match acts[0]
      case Do(op) => RunWithGc(Apply(s, op), acts[1..])
      case Gc(aged, cutoff) => RunWithGc(Collect(s, aged, cutoff), acts[1..])
  }

  function WithoutGc(acts: seq<Action>): seq<Op> {
    if acts == [] then []
    else (if acts[0].Do? then [acts[0].op] else []) + WithoutGc(acts[1..])
  }

  // No later set or add of this slot loses to f.
  ghost predicate Outdated(slot: Slot, f: Fact, acts: seq<Action>) {
    forall a :: a in acts && a.Do? && SlotOf(a.op) == slot && FactOf(a.op).content.Some? ==>
      Beats(slot, FactOf(a.op), f)
  }

  // Each collection forgets only deletes that no later set or add is older than.
  ghost predicate RetentionSuffices(s: State, acts: seq<Action>)
    decreases |acts|
  {
    if acts == [] then true
    else match acts[0]
      case Do(op) => RetentionSuffices(Apply(s, op), acts[1..])
      case Gc(aged, cutoff) =>
        var t := Collect(s, aged, cutoff);
        && (forall slot :: Winner(s, slot).Some? && Winner(t, slot).None? ==>
              Outdated(slot, Winner(s, slot).value, acts[1..]))
        && RetentionSuffices(t, acts[1..])
  }

  // s has collected, t has not: they differ only where t holds a delete that s has either
  // forgotten or replaced by an older one, and that every later write will beat.
  ghost predicate Behind(s: State, t: State, acts: seq<Action>) {
    forall slot :: BehindAt(slot, Winner(s, slot), Winner(t, slot), acts)
  }

  ghost predicate BehindAt(slot: Slot, v: Option<Fact>, w: Option<Fact>, acts: seq<Action>) {
    || v == w
    || (w.Some? && w.value.content.None? && Outdated(slot, w.value, acts) &&
        (v.None? || (v.value.content.None? && !Beats(slot, v.value, w.value))))
  }

  lemma DoStaysBehind(s: State, t: State, acts: seq<Action>, isSet: string -> bool)
    requires Typed(s, isSet) && Typed(t, isSet)
    requires acts != [] && acts[0].Do? && TypedOp(acts[0].op, isSet) && Behind(s, t, acts)
    ensures Behind(Apply(s, acts[0].op), Apply(t, acts[0].op), acts[1..])
  {
    var op := acts[0].op;
    forall slot ensures BehindAt(slot, Winner(Apply(s, op), slot), Winner(Apply(t, op), slot), acts[1..]) {
      ApplyIsJoin(s, op, isSet, slot);
      ApplyIsJoin(t, op, isSet, slot);
      assert BehindAt(slot, Winner(s, slot), Winner(t, slot), acts);
      assert acts[0] in acts && forall a :: a in acts[1..] ==> a in acts;
    }
  }

  lemma {:induction false} CollectionStaysInvisible(s: State, t: State, acts: seq<Action>, isSet: string -> bool)
    requires Typed(s, isSet) && Typed(t, isSet) && TypedOps(WithoutGc(acts), isSet)
    requires Behind(s, t, acts) && RetentionSuffices(s, acts)
    ensures SameReads(RunWithGc(s, acts), Run(t, WithoutGc(acts)))
    decreases |acts|
  {
    if acts == [] {
      forall slot ensures Live(Winner(s, slot)) == Live(Winner(t, slot)) {
        assert BehindAt(slot, Winner(s, slot), Winner(t, slot), acts);
      }
      SameLiveReadsAlike(s, t);
    } else {
      match acts[0] {
        case Do(op) =>
          assert WithoutGc(acts) == [op] + WithoutGc(acts[1..]);
          DoStaysBehind(s, t, acts, isSet);
          ApplyKeepsTyped(s, op, isSet);
          ApplyKeepsTyped(t, op, isSet);
          assert WithoutGc(acts)[1..] == WithoutGc(acts[1..]);
          CollectionStaysInvisible(Apply(s, op), Apply(t, op), acts[1..], isSet);
        case Gc(aged, cutoff) =>
          var u := Collect(s, aged, cutoff);
          CollectForgetsOnlyDead(s, aged, cutoff, isSet, StringSlot(""));
          forall slot ensures BehindAt(slot, Winner(u, slot), Winner(t, slot), acts[1..]) {
            CollectForgetsOnlyDead(s, aged, cutoff, isSet, slot);
            assert BehindAt(slot, Winner(s, slot), Winner(t, slot), acts);
            assert forall a :: a in acts[1..] ==> a in acts;
          }
          assert WithoutGc(acts) == WithoutGc(acts[1..]);
          CollectionStaysInvisible(u, t, acts[1..], isSet);
      }
    }
  }

  // A replica that collects tombstones along the way and one that never does show the same
  // values and members after any further events, as long as the retention window suffices.
  lemma CollectionIsInvisible(s: State, acts: seq<Action>, isSet: string -> bool)
    requires Typed(s, isSet) && TypedOps(WithoutGc(acts), isSet) && RetentionSuffices(s, acts)
    ensures SameReads(RunWithGc(s, acts), Run(s, WithoutGc(acts)))
  {
    CollectionStaysInvisible(s, s, acts, isSet);
  }

  // And the retention window is needed: for the very next set or add of a forgotten slot,
  // both replicas read alike exactly when it beats the delete that was forgotten.
  lemma StaleWriteShowsCollection(s: State, aged: set<string>, cutoff: int, op: Op, isSet: string -> bool)
    requires Typed(s, isSet) && TypedOp(op, isSet) && FactOf(op).content.Some?
    requires Winner(s, SlotOf(op)).Some? && Winner(Collect(s, aged, cutoff), SlotOf(op)).None?
    ensures SameReads(Apply(Collect(s, aged, cutoff), op), Apply(s, op)) <==>
            Beats(SlotOf(op), FactOf(op), Winner(s, SlotOf(op)).value)
  {
    var u, slot := Collect(s, aged, cutoff), SlotOf(op);
    CollectForgetsOnlyDead(s, aged, cutoff, isSet, slot);
    ApplyIsJoin(s, op, isSet, slot);
    ApplyIsJoin(u, op, isSet, slot);
    if Beats(slot, FactOf(op), Winner(s, slot).value) {
      forall other ensures Live(Winner(Apply(u, op), other)) == Live(Winner(Apply(s, op), other)) {
        CollectForgetsOnlyDead(s, aged, cutoff, isSet, other);
        ApplyIsJoin(s, op, isSet, other);
        ApplyIsJoin(u, op, isSet, other);
      }
      SameLiveReadsAlike(Apply(u, op), Apply(s, op));
    } else {
      var e := if slot.ElementSlot? then slot.elem else "";
      ReadsFollowWinners(Apply(u, op), slot.key, e);
      ReadsFollowWinners(Apply(s, op), slot.key, e);
    }
  }
}
