// A whole cluster of replicas, each stamping its own writes from its hybrid logical clock.
// Writes reach other replicas as pushed events and as digests of anti-entropy, late, in any
// order, more than once or not at all; and each replica collects its tombstones.
module ReplicaRun {
  import opened Wrappers
  import opened Hlc
  import opened LwwSpec
  import opened LwwConvergence
  import opened LwwStore
  import opened LwwKeyspace
  import opened Replication
  import opened ReplicaNodeModel

  // A node is named by its origin, so distinct nodes have distinct origins.
  type Origin = nat

  // `deleted` holds the local time of each delete whose tombstone the state keeps.
  datatype Replica = Replica(clock: HLCTimestamp, state: State, deleted: map<string, int>)

  const NEW_REPLICA := Replica(ZERO_TIME, EMPTY_STATE, map[])

  // What one command writes, under one stamp.
  datatype Update =
    | Set(key: string, value: string)
    | Del(key: string)
    | Add(key: string, elems: seq<string>)
    | Rem(key: string, elems: seq<string>)
    | Pop(key: string, elem: string)

  // The operations that the command's node applies.
  function OpsFor(u: Update, st: Stamp): seq<Op> {
    match u
    case Set(k, v) => [SetOp(k, v, st)]
    case Del(k) => [DelOp(k, st)]
    case Add(k, es) => AddOps(k, st, es)
    case Rem(k, es) => RemOps(k, st, es)
    case Pop(k, e) => RemOps(k, st, [e])
  }

  // The event that is pushed to the other nodes.
  function EventFor(u: Update, st: Stamp): ReplicationEvent {
    match u
    case Set(k, v) => ReplicationEvent("SET", k, v, st)
    case Del(k) => ReplicationEvent("DEL", k, "", st)
    case Add(k, es) => ReplicationEvent("SADD", k, SetPayload(k, es), st)
    case Rem(k, es) => ReplicationEvent("SREM", k, SetPayload(k, es), st)
    case Pop(k, e) => ReplicationEvent("SPOP", k, e, st)
  }

  // Each step happens at the node's physical time pt.  It is a local write; the push of the
  // write made at step src; the digest of one shard that the peer took at moment `taken`; or a
  // collection of the tombstones older than `retain`.
  datatype Step =
    | Write(node: Origin, pt: int, update: Update)
    | Push(node: Origin, pt: int, src: nat)
    | Pull(node: Origin, pt: int, peer: Origin, taken: nat, shard: nat, digest: seq<Entry>)
    | Gc(node: Origin, pt: int, retain: int)

  // times[k] is the clock of step k's node after the step.
  datatype Trace =
    Trace(hash: string -> nat, nodes: set<Origin>, steps: seq<Step>, times: seq<HLCTimestamp>,
          ss: seq<map<Origin, Replica>>)

  predicate IsWrite(t: Trace, i: nat) {
    i < |t.steps| && t.steps[i].Write?
  }

  // The stamp of the write at step i.
  function StampAt(t: Trace, i: nat): Stamp
    requires |t.times| == |t.steps| && IsWrite(t, i)
  {
    Stamp(t.times[i], t.steps[i].node)
  }

  // At time pt the node comes to hold s: a tombstone with a stamp that was not there is new.
  ghost predicate Holds(q: Replica, r: Replica, clock: HLCTimestamp, s: State, pt: int) {
    && q.clock == clock && q.state == s && q.deleted.Keys == s.tombs.Keys
    && forall k :: k in s.tombs ==> q.deleted[k] == if SameTombstone(r, s, k) then r.deleted[k] else pt
  }

  predicate SameTombstone(r: Replica, s: State, k: string) {
    k in s.tombs && k in r.state.tombs && k in r.deleted && r.state.tombs[k] == s.tombs[k]
  }

  // The keys whose deletes are older than the cutoff.
  function Overdue(r: Replica, cutoff: int): set<string> {
    set k | k in r.state.tombs && k in r.deleted && r.deleted[k] < cutoff
  }

  // The node of a step goes from r to q.
  ghost predicate Moves(t: Trace, k: nat, r: Replica, q: Replica)
    requires |t.times| == |t.steps| && |t.ss| == |t.steps| + 1 && k < |t.steps|
  {
    match t.steps[k]
    case Write(n, pt, u) =>
      Holds(q, r, AfterNow(r.clock, pt), Run(r.state, OpsFor(u, Stamp(t.times[k], n))), pt)
    case Push(_, pt, src) =>
      && src < k && IsWrite(t, src)
      && var ev := EventFor(t.steps[src].update, StampAt(t, src));
         Holds(q, r, PushedClock(r.clock, ev, pt), ApplyEvent(r.state, ev), pt)
    case Pull(_, pt, peer, taken, shard, digest) =>
      && taken <= k && peer in t.ss[taken] && peer in t.nodes
      && ShardDigest(t.ss[taken][peer].state, t.hash, shard, digest)
      && Holds(q, r, r.clock, ApplyEvents(r.state, EventsOf(digest)), pt)
    case Gc(_, pt, retain) =>
      Holds(q, r, r.clock, Collect(r.state, Overdue(r, pt - retain), pt - retain), pt)
  }

  // The logical counter does not wrap.
  predicate Unwrapped(t: Trace, k: nat, last: HLCTimestamp)
    requires |t.times| == |t.steps| && k < |t.steps|
  {
    match t.steps[k]
    case Write(_, pt, _) => AfterNow(last, pt).After(last)
    case Push(_, pt, src) => src < |t.times| ==> !WrapsOnUpdate(last, t.times[src], pt)
    case _ => true
  }

  ghost predicate StepOk(t: Trace, k: nat)
    requires |t.times| == |t.steps| && |t.ss| == |t.steps| + 1 && k < |t.steps|
  {
    var s, n := t.ss[k], t.steps[k].node;
    && n in t.nodes && n in s && n in t.ss[k + 1]
    && t.ss[k + 1] == s[n := t.ss[k + 1][n]] && t.times[k] == t.ss[k + 1][n].clock
    && Moves(t, k, s[n], t.ss[k + 1][n]) && Unwrapped(t, k, s[n].clock)
  }

  // Every step is legal and no logical counter wraps.
  ghost predicate Execution(t: Trace) {
    && |t.times| == |t.steps| && |t.ss| == |t.steps| + 1
    && t.ss[0] == (map n | n in t.nodes :: NEW_REPLICA)
    && forall k :: 0 <= k < |t.steps| ==> StepOk(t, k)
  }

  /* Causality */

  // Step i directly precedes step j: same node, or j is the push of i's write.
  predicate Direct(t: Trace, i: nat, j: nat) {
    i < j < |t.steps| && (t.steps[i].node == t.steps[j].node || (t.steps[j].Push? && t.steps[j].src == i))
  }

  // A chain of direct precedence from its first step to its last.
  predicate Chain(t: Trace, path: seq<nat>) {
    |path| >= 2 && forall i :: 0 <= i < |path| - 1 ==> Direct(t, path[i], path[i + 1])
  }

  // The steps that move their node's clock.
  predicate Ticks(t: Trace, k: nat) {
    k < |t.steps| && (t.steps[k].Write? || t.steps[k].Push?)
  }

  lemma {:induction false} NodesStay(t: Trace, k: nat, n: Origin)
    requires Execution(t) && k < |t.ss| && n in t.nodes
    ensures n in t.ss[k]
  {
    if k > 0 {
      NodesStay(t, k - 1, n);
      assert StepOk(t, k - 1);
    }
  }

  function Clock(t: Trace, k: nat, n: Origin): HLCTimestamp
    requires k < |t.ss| && n in t.ss[k]
  {
    t.ss[k][n].clock
  }

  lemma NotBefore(a: HLCTimestamp, b: HLCTimestamp, c: HLCTimestamp)
    ensures !a.After(b) && !b.After(c) ==> !a.After(c)
    ensures c.After(b) && !a.After(b) ==> c.After(a)
    ensures !b.After(c) && b.After(a) ==> c.After(a)
  {
  }

  lemma PushMoves(last: HLCTimestamp, u: Update, st: Stamp, pt: int)
    requires !st.ts.IsZero() && !WrapsOnUpdate(last, st.ts, pt)
    ensures PushedClock(last, EventFor(u, st), pt) == AfterUpdate(last, st.ts, pt)
    ensures PushedClock(last, EventFor(u, st), pt).After(last) && PushedClock(last, EventFor(u, st), pt).After(st.ts)
  {
  }

  // Clocks never go back, and every write is stamped after the clock it started from.
  lemma {:induction false} ClocksAdvance(t: Trace, i: nat, j: nat, n: Origin)
    requires Execution(t) && i <= j < |t.ss| && n in t.nodes
    ensures n in t.ss[i] && n in t.ss[j] && !Clock(t, i, n).After(Clock(t, j, n))
    decreases j, 1
  {
    NodesStay(t, i, n);
    NodesStay(t, j, n);
    if i < j {
      ClocksAdvance(t, i, j - 1, n);
      StepAdvances(t, j - 1, n);
      NotBefore(Clock(t, i, n), Clock(t, j - 1, n), Clock(t, j, n));
    }
  }

  // No stamp is the zero stamp, which the apply path takes for unstamped.
  lemma {:induction false} WritesAreStamped(t: Trace, k: nat)
    requires Execution(t) && IsWrite(t, k)
    ensures !t.times[k].IsZero()
    decreases k, 2
  {
    assert StepOk(t, k);
    var n := t.steps[k].node;
    ClocksAdvance(t, 0, k, n);
    NotBefore(ZERO_TIME, Clock(t, k, n), t.times[k]);
  }

  lemma {:induction false} StepAdvances(t: Trace, k: nat, n: Origin)
    requires Execution(t) && k < |t.steps| && n in t.nodes
    ensures n in t.ss[k] && n in t.ss[k + 1]
    ensures !Clock(t, k, n).After(Clock(t, k + 1, n))
    ensures t.steps[k].node == n && Ticks(t, k) ==> t.times[k].After(Clock(t, k, n))
    ensures t.steps[k].Push? ==> t.steps[k].src < k && t.times[k].After(t.times[t.steps[k].src])
    decreases k, 0
  {
    assert StepOk(t, k);
    NodesStay(t, k, n);
    if t.steps[k].Push? {
      var src, m := t.steps[k].src, t.steps[k].node;
      WritesAreStamped(t, src);
      PushMoves(Clock(t, k, m), t.steps[src].update, StampAt(t, src), t.steps[k].pt);
    }
  }

  lemma DirectIsLater(t: Trace, i: nat, j: nat)
    requires Execution(t) && Direct(t, i, j) && Ticks(t, j)
    ensures t.times[j].After(t.times[i])
  {
    assert StepOk(t, j) && StepOk(t, i);
    var n := t.steps[j].node;
    StepAdvances(t, j, n);
    if !(t.steps[j].Push? && t.steps[j].src == i) {
      ClocksAdvance(t, i + 1, j, n);
      NotBefore(t.times[i], Clock(t, j, n), t.times[j]);
    }
  }

  lemma DirectIsNotEarlier(t: Trace, i: nat, j: nat)
    requires Execution(t) && Direct(t, i, j)
    ensures !t.times[i].After(t.times[j])
  {
    if Ticks(t, j) {
      DirectIsLater(t, i, j);
    } else {
      assert StepOk(t, j) && StepOk(t, i);
      ClocksAdvance(t, i + 1, j + 1, t.steps[j].node);
    }
  }

  lemma {:induction false} ChainIsNotEarlier(t: Trace, path: seq<nat>)
    requires Execution(t) && Chain(t, path)
    ensures path[0] < |t.times| && path[|path| - 1] < |t.times|
    ensures !t.times[path[0]].After(t.times[path[|path| - 1]])
    decreases |path|
  {
    var n := |path| - 1;
    assert Direct(t, path[n - 1], path[n]);
    DirectIsNotEarlier(t, path[n - 1], path[n]);
    if n > 1 {
      ChainIsNotEarlier(t, path[..n]);
      NotBefore(t.times[path[0]], t.times[path[n - 1]], t.times[path[n]]);
    } else {
      assert path[0] == path[n - 1];
    }
  }

  // Happens-before implies timestamp order, however far back the physical clocks go: a write
  // or a push is strictly later than everything that led to it.
  lemma CausalityIsOrdered(t: Trace, path: seq<nat>)
    requires Execution(t) && Chain(t, path) && Ticks(t, path[|path| - 1])
    ensures path[0] < |t.times| && t.times[path[|path| - 1]].After(t.times[path[0]])
  {
    var n := |path| - 1;
    assert Direct(t, path[n - 1], path[n]);
    DirectIsLater(t, path[n - 1], path[n]);
    if n > 1 {
      ChainIsNotEarlier(t, path[..n]);
      NotBefore(t.times[path[0]], t.times[path[n - 1]], t.times[path[n]]);
    } else {
      assert path[0] == path[n - 1];
    }
  }

  // No two writes of a run carry the same (timestamp, origin) stamp.
  lemma StampsAreUnique(t: Trace, i: nat, j: nat)
    requires Execution(t) && IsWrite(t, i) && IsWrite(t, j) && StampAt(t, i) == StampAt(t, j)
    ensures i == j
  {
    if i < j { DirectIsLater(t, i, j); }
    if j < i { DirectIsLater(t, j, i); }
  }
}
