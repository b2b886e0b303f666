// The deferred-command scheduler's two indexes, and whole runs of it.
module DeferredSpec {
  // What a command does when it runs is not part of this model; its time is in whole seconds.
  datatype Command = Command(id: string, executeAt: int, commandType: string, key: string, args: seq<string>)

  datatype Scheduler = Scheduler(commands: map<string, Command>, timeIndex: map<int, seq<Command>>)

  const EMPTY := Scheduler(map[], map[])

  function Bucket(s: Scheduler, t: int): seq<Command> {
    if t in s.timeIndex then s.timeIndex[t] else []
  }

  // Commands lie in the bucket of their own second.
  ghost predicate Bucketed(s: Scheduler) {
    forall t, c :: c in Bucket(s, t) ==> c.executeAt == t
  }

  predicate Pending(s: Scheduler, c: Command) {
    c.id in s.commands && s.commands[c.id] == c
  }

  // How often the time index holds a command, and how often the id map does.
  function Copies(s: Scheduler, c: Command): nat {
    multiset(Bucket(s, c.executeAt))[c]
  }

  function Wanted(s: Scheduler, c: Command): nat {
    if Pending(s, c) then 1 else 0
  }

  // The two indexes hold the same commands, each once and under its own id and second, and no
  // bucket is left empty.
  ghost predicate Agree(s: Scheduler) {
    Bucketed(s) && Keyed(s) && forall c :: Copies(s, c) == Wanted(s, c)
  }

  ghost predicate Keyed(s: Scheduler) {
    && (forall t :: t in s.timeIndex ==> s.timeIndex[t] != [])
    && (forall id :: id in s.commands ==> s.commands[id].id == id)
  }

  /* The operations */

  function Added(s: Scheduler, c: Command): Scheduler {
    Scheduler(s.commands[c.id := c], s.timeIndex[c.executeAt := Bucket(s, c.executeAt) + [c]])
  }

  // A bucket without its first command of the given id.
  function WithoutFirst(bucket: seq<Command>, id: string): (r: seq<Command>)
  {
    if bucket == [] then []
    else if bucket[0].id == id then bucket[1..]
    else [bucket[0]] + WithoutFirst(bucket[1..], id)
  }

  function SetBucket(index: map<int, seq<Command>>, t: int, bucket: seq<Command>): map<int, seq<Command>> {
    if bucket == [] then index - {t} else index[t := bucket]
  }

  function Cancelled(s: Scheduler, id: string): Scheduler {
    if id !in s.commands then s
    else
      var t := s.commands[id].executeAt;
      Scheduler(s.commands - {id},
                if Bucket(s, t) == [] then s.timeIndex
                else SetBucket(s.timeIndex, t, WithoutFirst(Bucket(s, t), id)))
  }

  function Due(s: Scheduler, now: int): set<int> {
    set t | t in s.timeIndex && t <= now
  }

  function DueIds(s: Scheduler, now: int): set<string> {
    set t, i | t in Due(s, now) && 0 <= i < |s.timeIndex[t]| :: s.timeIndex[t][i].id
  }

  function Ticked(s: Scheduler, now: int): Scheduler {
    Scheduler(s.commands - DueIds(s, now), s.timeIndex - Due(s, now))
  }

  // The commands of one second, in the order in which they stand.
  function OfSecond(cs: seq<Command>, t: int): seq<Command> {
    if cs == [] then [] else (if cs[0].executeAt == t then [cs[0]] else []) + OfSecond(cs[1..], t)
  }

  // ran lists the buckets that are due: the seconds in any order, mixed in any way, but the
  // commands of one second in the order of their bucket.
  ghost predicate RunsDue(s: Scheduler, now: int, ran: seq<Command>) {
    forall t :: OfSecond(ran, t) == if t <= now then Bucket(s, t) else []
  }

  lemma {:induction false} OfSecondCounts(cs: seq<Command>, c: Command)
    ensures multiset(OfSecond(cs, c.executeAt))[c] == multiset(cs)[c]
  {
    if cs != [] {
      OfSecondCounts(cs[1..], c);
      assert cs == [cs[0]] + cs[1..];
    }
  }

  lemma RunsDueCounts(s: Scheduler, now: int, ran: seq<Command>, c: Command)
    requires RunsDue(s, now, ran)
    ensures multiset(ran)[c] == if c.executeAt <= now then Copies(s, c) else 0
  {
    OfSecondCounts(ran, c);
    assert OfSecond(ran, c.executeAt) == if c.executeAt <= now then Bucket(s, c.executeAt) else [];
  }

  /* What each operation keeps */

  lemma AddedCopies(s: Scheduler, c: Command, x: Command)
    ensures Copies(Added(s, c), x) == Copies(s, x) + if x == c then 1 else 0
  {
    var b := Bucket(s, c.executeAt);
    assert multiset(b + [c]) == multiset(b) + multiset{c};
  }

  lemma AddedBucketed(s: Scheduler, c: Command)
    requires Bucketed(s)
    ensures Bucketed(Added(s, c))
  {
    forall t, x | x in Bucket(Added(s, c), t) ensures x.executeAt == t {
      assert x in Bucket(s, t) || x == c;
    }
  }

  lemma AddKeepsAgreement(s: Scheduler, c: Command)
    requires Agree(s) && c.id !in s.commands
    ensures Agree(Added(s, c))
  {
    AddedBucketed(s, c);
    forall x ensures Copies(Added(s, c), x) == Wanted(Added(s, c), x) {
      AddedCopies(s, c, x);
      assert Copies(s, x) == Wanted(s, x);
    }
  }

  // Adding keeps the agreement exactly when the id is not in use.
  lemma AddAgreesIff(s: Scheduler, c: Command)
    requires Agree(s)
    ensures Agree(Added(s, c)) <==> c.id !in s.commands
  {
    if c.id in s.commands {
      var was := s.commands[c.id];
      AddedCopies(s, c, was);
      assert Copies(s, was) == Wanted(s, was) == 1;
      assert Copies(Added(s, c), was) != Wanted(Added(s, c), was);
    } else {
      AddKeepsAgreement(s, c);
    }
  }

  lemma {:induction false} WithoutFirstRemoves(bucket: seq<Command>, id: string, c: Command)
    requires c.id == id && c in bucket && forall x :: x in bucket && x.id == id ==> x == c
    ensures multiset(WithoutFirst(bucket, id)) == multiset(bucket) - multiset{c}
  {
    assert bucket == [bucket[0]] + bucket[1..];
    if bucket[0].id != id {
      WithoutFirstRemoves(bucket[1..], id, c);
    }
  }

  // Under the agreement a bucket holds one command of an id, if any.
  lemma InBucket(s: Scheduler, x: Command)
    requires Agree(s) && x in Bucket(s, x.executeAt)
    ensures Pending(s, x)
  {
    assert Copies(s, x) > 0;
  }

  // The bucket of a pending command, once it is cancelled.
  lemma CancelledBucket(s: Scheduler, c: Command)
    requires Agree(s) && Pending(s, c)
    ensures multiset(Bucket(Cancelled(s, c.id), c.executeAt)) == multiset(Bucket(s, c.executeAt)) - multiset{c}
    ensures forall t :: t != c.executeAt ==> Bucket(Cancelled(s, c.id), t) == Bucket(s, t)
  {
    var bucket := Bucket(s, c.executeAt);
    assert Copies(s, c) == 1 && c in bucket;
    forall x | x in bucket && x.id == c.id ensures x == c {
      InBucket(s, x);
    }
    WithoutFirstRemoves(bucket, c.id, c);
    assert Bucket(Cancelled(s, c.id), c.executeAt) == WithoutFirst(bucket, c.id);
  }

  lemma CancelledCopies(s: Scheduler, c: Command, x: Command)
    requires Agree(s) && Pending(s, c)
    ensures Copies(Cancelled(s, c.id), x) == Wanted(Cancelled(s, c.id), x)
  {
    CancelledBucket(s, c);
    assert Copies(s, x) == Wanted(s, x);
  }

  lemma CancelledBucketed(s: Scheduler, c: Command, t: int, x: Command)
    requires Agree(s) && Pending(s, c) && x in Bucket(Cancelled(s, c.id), t)
    ensures x.executeAt == t
  {
    CancelledBucket(s, c);
    assert multiset(Bucket(Cancelled(s, c.id), t))[x] > 0;
    assert x in Bucket(s, t);
  }

  lemma CancelKeepsAgreement(s: Scheduler, id: string)
    requires Agree(s)
    ensures Agree(Cancelled(s, id)) && Cancelled(s, id).commands == s.commands - {id}
  {
    if id in s.commands {
      var s', c := Cancelled(s, id), s.commands[id];
      assert Pending(s, c);
      forall t, x | x in Bucket(s', t) ensures x.executeAt == t {
        CancelledBucketed(s, c, t, x);
      }
      forall x ensures Copies(s', x) == Wanted(s', x) {
        CancelledCopies(s, c, x);
      }
    }
  }

  lemma DueIdsAreDue(s: Scheduler, now: int, id: string)
    requires Agree(s) && id in s.commands
    ensures id in DueIds(s, now) <==> s.commands[id].executeAt <= now
  {
    var c := s.commands[id];
    assert Copies(s, c) == 1 && c in Bucket(s, c.executeAt);
    if c.executeAt <= now {
      var i :| 0 <= i < |s.timeIndex[c.executeAt]| && s.timeIndex[c.executeAt][i] == c;
      assert s.timeIndex[c.executeAt][i].id == id;
    }
    if id in DueIds(s, now) {
      var t, i :| t in Due(s, now) && 0 <= i < |s.timeIndex[t]| && s.timeIndex[t][i].id == id;
      assert s.timeIndex[t][i] in Bucket(s, t);
      InBucket(s, s.timeIndex[t][i]);
    }
  }

  lemma TickedPending(s: Scheduler, now: int, c: Command)
    requires Agree(s)
    ensures Pending(Ticked(s, now), c) <==> Pending(s, c) && c.executeAt > now
  {
    if c.id in s.commands { DueIdsAreDue(s, now, c.id); }
  }

  lemma TickKeepsAgreement(s: Scheduler, now: int)
    requires Agree(s)
    ensures Agree(Ticked(s, now))
  {
    var s' := Ticked(s, now);
    forall t, x | x in Bucket(s', t) ensures x.executeAt == t {
      assert x in Bucket(s, t);
    }
    forall x ensures Copies(s', x) == Wanted(s', x) {
      assert Copies(s, x) == Wanted(s, x);
      TickedPending(s, now, x);
    }
  }

  // A tick runs exactly the pending commands whose second has come, each once.
  lemma TickRunsThePending(s: Scheduler, now: int, ran: seq<Command>, c: Command)
    requires Agree(s) && RunsDue(s, now, ran)
    ensures multiset(ran)[c] == if Pending(s, c) && c.executeAt <= now then 1 else 0
  {
    RunsDueCounts(s, now, ran, c);
    assert Copies(s, c) == Wanted(s, c);
  }

  lemma {:induction false} WithoutFirstIs(before: seq<Command>, x: Command, after: seq<Command>)
    requires forall y :: y in before ==> y.id != x.id
    ensures WithoutFirst(before + [x] + after, x.id) == before + after
  {
    var bucket := before + [x] + after;
    if before == [] {
      assert bucket[1..] == after;
    } else {
      assert bucket[1..] == before[1..] + [x] + after;
      WithoutFirstIs(before[1..], x, after);
    }
  }

  lemma UnusedIdIsNowhere(s: Scheduler, id: string, t: int)
    requires Agree(s) && id !in s.commands
    ensures forall y :: y in Bucket(s, t) ==> y.id != id
  {
    forall y | y in Bucket(s, t) ensures y.id != id {
      InBucket(s, y);
    }
  }

  // Of two commands added under one id, the one that a cancel of that id leaves behind.
  function LeftBehind(c: Command, repeat: Command): Command {
    if repeat.executeAt == c.executeAt then repeat else c
  }

  // Adding a command again under its id, with whatever deadline and body the repeat carries,
  // breaks cancelling it: the cancel reports success, and one of the two stays in the time
  // index, under no id, until its second comes.
  lemma RepeatOutlivesCancel(s: Scheduler, c: Command, repeat: Command)
    requires Agree(s) && c.id !in s.commands && repeat.id == c.id
    ensures var twice := Added(Added(s, c), repeat);
            var s' := Cancelled(twice, c.id);
            && c.id in twice.commands && c.id !in s'.commands
            && LeftBehind(c, repeat) in Bucket(s', LeftBehind(c, repeat).executeAt)
  {
    var t := repeat.executeAt;
    var b := Bucket(s, t);
    var twice := Added(Added(s, c), repeat);
    UnusedIdIsNowhere(s, c.id, t);
    if t == c.executeAt {
      WithoutFirstIs(b, c, [repeat]);
      assert Bucket(Cancelled(twice, c.id), t) == b + [repeat];
    } else {
      WithoutFirstIs(b, repeat, []);
      assert b + [repeat] + [] == b + [repeat];
      assert Bucket(Cancelled(twice, c.id), c.executeAt) == Bucket(s, c.executeAt) + [c];
    }
  }

  // So it runs after the cancel.
  lemma CancelAfterRepeatStillRuns(s: Scheduler, c: Command, repeat: Command, now: int, ran: seq<Command>)
    requires Agree(s) && c.id !in s.commands && repeat.id == c.id && LeftBehind(c, repeat).executeAt <= now
    requires RunsDue(Cancelled(Added(Added(s, c), repeat), c.id), now, ran)
    ensures c.id in Added(Added(s, c), repeat).commands && LeftBehind(c, repeat) in ran
  {
    RepeatOutlivesCancel(s, c, repeat);
    RunsDueCounts(Cancelled(Added(Added(s, c), repeat), c.id), now, ran, LeftBehind(c, repeat));
    assert Copies(Cancelled(Added(Added(s, c), repeat), c.id), LeftBehind(c, repeat)) > 0;
    assert multiset(ran)[LeftBehind(c, repeat)] > 0;
  }

  /* Runs */

  datatype Event = Add(c: Command) | Cancel(id: string) | Tick(now: int)

  ghost predicate Step(s: Scheduler, e: Event, s': Scheduler, ran: seq<Command>) {
    match e
    case Add(c) => s' == Added(s, c) && ran == []
    case Cancel(id) => s' == Cancelled(s, id) && ran == []
    case Tick(now) => s' == Ticked(s, now) && RunsDue(s, now, ran)
  }

  // states[k], then event k running ran[k], then states[k + 1].
  datatype Run = Run(states: seq<Scheduler>, events: seq<Event>, ran: seq<seq<Command>>)

  ghost predicate Execution(r: Run) {
    && |r.states| == |r.events| + 1 && |r.ran| == |r.events| && r.states[0] == EMPTY
    && forall k :: 0 <= k < |r.events| ==> Step(r.states[k], r.events[k], r.states[k + 1], r.ran[k])
  }

  // No id is used for two commands.
  predicate FreshIds(events: seq<Event>) {
    forall i, j :: 0 <= i < j < |events| && events[i].Add? && events[j].Add? ==> events[i].c.id != events[j].c.id
  }

  // How often, in the first n events, c was added; and how often it was run or cancelled.
  function Adds(r: Run, c: Command, n: nat): nat
    requires n <= |r.events|
  {
    if n == 0 then 0 else Adds(r, c, n - 1) + if r.events[n - 1] == Add(c) then 1 else 0
  }

  function Ran(r: Run, c: Command, n: nat): nat
    requires n <= |r.ran|
  {
    if n == 0 then 0 else Ran(r, c, n - 1) + multiset(r.ran[n - 1])[c]
  }

  function Cancels(r: Run, c: Command, n: nat): nat
    requires n <= |r.events| <= |r.states|
  {
    if n == 0 then 0
    else Cancels(r, c, n - 1) + if r.events[n - 1] == Cancel(c.id) && Pending(r.states[n - 1], c) then 1 else 0
  }

  lemma {:induction false} PendingWasAdded(r: Run, id: string, n: nat)
    requires Execution(r) && n <= |r.events| && id in r.states[n].commands
    ensures exists i :: 0 <= i < n && r.events[i].Add? && r.events[i].c.id == id
  {
    assert n > 0;
    assert Step(r.states[n - 1], r.events[n - 1], r.states[n], r.ran[n - 1]);
    if !(r.events[n - 1].Add? && r.events[n - 1].c.id == id) {
      PendingWasAdded(r, id, n - 1);
    }
  }

  lemma FreshAdd(r: Run, n: nat)
    requires Execution(r) && FreshIds(r.events) && n < |r.events| && r.events[n].Add?
    ensures r.events[n].c.id !in r.states[n].commands
  {
    if r.events[n].c.id in r.states[n].commands { PendingWasAdded(r, r.events[n].c.id, n); }
  }

  lemma StepKeepsAgreement(s: Scheduler, e: Event, s': Scheduler, ran: seq<Command>)
    requires Agree(s) && Step(s, e, s', ran) && (e.Add? ==> e.c.id !in s.commands)
    ensures Agree(s')
  {
    match e
    case Add(c) => AddKeepsAgreement(s, c);
    case Cancel(id) => CancelKeepsAgreement(s, id);
    case Tick(now) => TickKeepsAgreement(s, now);
  }

  // The indexes agree throughout every run with fresh ids.
  lemma {:induction false} RunsAgree(r: Run, n: nat)
    requires Execution(r) && FreshIds(r.events) && n <= |r.events|
    ensures Agree(r.states[n])
  {
    if n > 0 {
      RunsAgree(r, n - 1);
      if r.events[n - 1].Add? { FreshAdd(r, n - 1); }
      StepKeepsAgreement(r.states[n - 1], r.events[n - 1], r.states[n - 1 + 1], r.ran[n - 1]);
    }
  }

  // One event settles no more than it takes away from what is pending.
  lemma StepSettles(s: Scheduler, e: Event, s': Scheduler, ran: seq<Command>, c: Command)
    requires Agree(s) && Step(s, e, s', ran) && (e.Add? ==> e.c.id !in s.commands)
    ensures Wanted(s', c) + multiset(ran)[c] + (if e == Cancel(c.id) && Pending(s, c) then 1 else 0) ==
            Wanted(s, c) + if e == Add(c) then 1 else 0
  {
    match e
    case Add(x) =>
    case Cancel(id) => CancelKeepsAgreement(s, id);
    case Tick(now) =>
      TickRunsThePending(s, now, ran, c);
      TickedPending(s, now, c);
  }

  // Conservation: every command added is pending, or was run, or was cancelled, and only one
  // of these, once.
  lemma {:induction false} EveryCommandIsSettledOnce(r: Run, c: Command, n: nat)
    requires Execution(r) && FreshIds(r.events) && n <= |r.events|
    ensures Adds(r, c, n) == Wanted(r.states[n], c) + Ran(r, c, n) + Cancels(r, c, n)
  {
    if n > 0 {
      EveryCommandIsSettledOnce(r, c, n - 1);
      RunsAgree(r, n - 1);
      if r.events[n - 1].Add? { FreshAdd(r, n - 1); }
      StepSettles(r.states[n - 1], r.events[n - 1], r.states[n - 1 + 1], r.ran[n - 1], c);
    }
  }

  lemma {:induction false} AddsAtMostOnce(r: Run, c: Command, n: nat)
    requires FreshIds(r.events) && n <= |r.events|
    ensures Adds(r, c, n) <= 1
    ensures Adds(r, c, n) == 1 ==> exists i :: 0 <= i < n && r.events[i] == Add(c)
  {
    if n > 0 { AddsAtMostOnce(r, c, n - 1); }
  }

  // So a command runs at most once, and a cancelled one never does.
  lemma RunsAtMostOnceNeverCancelled(r: Run, c: Command)
    requires Execution(r) && FreshIds(r.events)
    ensures Ran(r, c, |r.events|) + Cancels(r, c, |r.events|) <= 1
  {
    EveryCommandIsSettledOnce(r, c, |r.events|);
    AddsAtMostOnce(r, c, |r.events|);
  }

  // A pending command runs at the first tick that reaches its second, and no command runs
  // before its second.
  lemma RunsOnTime(r: Run, c: Command, k: nat)
    requires Execution(r) && FreshIds(r.events) && k < |r.events| && r.events[k].Tick?
    ensures c in r.ran[k] <==> Pending(r.states[k], c) && c.executeAt <= r.events[k].now
    ensures Pending(r.states[k + 1], c) ==> c.executeAt > r.events[k].now
  {
    RunsAgree(r, k);
    assert Step(r.states[k], r.events[k], r.states[k + 1], r.ran[k]);
    TickRunsThePending(r.states[k], r.events[k].now, r.ran[k], c);
    TickedPending(r.states[k], r.events[k].now, c);
    assert c in r.ran[k] <==> multiset(r.ran[k])[c] > 0;
  }

  /* Order within a second */

  // Event i adds the command.
  predicate AddedBy(r: Run, i: nat, c: Command) {
    i < |r.events| && r.events[i] == Add(c)
  }

  ghost predicate WasAdded(r: Run, c: Command, n: nat) {
    exists i: nat :: i < n && AddedBy(r, i, c)
  }

  ghost predicate AddedBefore(r: Run, c: Command, d: Command) {
    forall i: nat, j: nat :: AddedBy(r, i, c) && AddedBy(r, j, d) ==> i < j
  }

  // The commands of a bucket stand in the order in which the first n events added them.
  ghost predicate InOrder(r: Run, bucket: seq<Command>, n: nat) {
    && (forall c :: c in bucket ==> WasAdded(r, c, n))
    && forall p, q :: 0 <= p < q < |bucket| ==> AddedBefore(r, bucket[p], bucket[q])
  }

  lemma EarlierIsBefore(r: Run, c: Command, d: Command, n: nat)
    requires FreshIds(r.events) && WasAdded(r, c, n) && AddedBy(r, n, d)
    ensures AddedBefore(r, c, d)
  {
    var k: nat :| k < n && AddedBy(r, k, c);
    forall i: nat, j: nat | AddedBy(r, i, c) && AddedBy(r, j, d) ensures i < j {
      assert i == k && j == n;
    }
  }

  lemma {:induction false} WithoutFirstKeepsOrder(bucket: seq<Command>, id: string, p: nat) returns (was: nat)
    requires p < |WithoutFirst(bucket, id)|
    ensures p <= was < |bucket| && was <= p + 1 && bucket[was] == WithoutFirst(bucket, id)[p]
    ensures was == p + 1 <==> exists k :: 0 <= k <= p && bucket[k].id == id
  {
    if bucket[0].id == id {
      was := p + 1;
    } else if p == 0 {
      was := 0;
    } else {
      var before := WithoutFirstKeepsOrder(bucket[1..], id, p - 1);
      was := before + 1;
      if k :| 0 <= k <= p - 1 && bucket[1..][k].id == id { assert bucket[k + 1].id == id; }
      if k :| 0 <= k <= p && bucket[k].id == id { assert bucket[1..][k - 1].id == id; }
    }
  }

  lemma CancelKeepsOrder(r: Run, bucket: seq<Command>, id: string, n: nat)
    requires InOrder(r, bucket, n)
    ensures InOrder(r, WithoutFirst(bucket, id), n)
  {
    var left := WithoutFirst(bucket, id);
    forall c | c in left ensures WasAdded(r, c, n) {
      var p :| 0 <= p < |left| && left[p] == c;
      var was := WithoutFirstKeepsOrder(bucket, id, p);
    }
    forall p, q | 0 <= p < q < |left| ensures AddedBefore(r, left[p], left[q]) {
      var a := WithoutFirstKeepsOrder(bucket, id, p);
      var b := WithoutFirstKeepsOrder(bucket, id, q);
    }
  }

  lemma AddKeepsOrder(r: Run, bucket: seq<Command>, n: nat, c: Command)
    requires FreshIds(r.events) && InOrder(r, bucket, n) && AddedBy(r, n, c)
    ensures InOrder(r, bucket + [c], n + 1)
  {
    var more := bucket + [c];
    forall p, q | 0 <= p < q < |more| ensures AddedBefore(r, more[p], more[q]) {
      if q == |bucket| {
        assert more[p] in bucket;
        EarlierIsBefore(r, more[p], c, n);
      }
    }
  }

  lemma {:induction false} BucketsAreInOrder(r: Run, n: nat, t: int)
    requires Execution(r) && FreshIds(r.events) && n <= |r.events|
    ensures InOrder(r, Bucket(r.states[n], t), n)
  {
    if n > 0 {
      var k := n - 1;
      BucketsAreInOrder(r, k, t);
      var before := Bucket(r.states[k], t);
      assert Step(r.states[k], r.events[k], r.states[k + 1], r.ran[k]);
      match r.events[k] {
        case Add(c) => if c.executeAt == t { AddKeepsOrder(r, before, k, c); }
        case Cancel(id) => CancelKeepsOrder(r, before, id, n);
        case Tick(now) =>
      }
    }
  }

  lemma {:induction false} OfSecondPlaces(cs: seq<Command>, t: int, p: nat, q: nat) returns (a: nat, b: nat)
    requires p < q < |OfSecond(cs, t)|
    ensures a < b < |cs| && cs[a] == OfSecond(cs, t)[p] && cs[b] == OfSecond(cs, t)[q]
  {
    if cs[0].executeAt == t && p == 0 {
      var rest := OfSecondPlace(cs[1..], t, q - 1);
      a, b := 0, rest + 1;
    } else {
      var skip := if cs[0].executeAt == t then 1 else 0;
      var c, d := OfSecondPlaces(cs[1..], t, p - skip, q - skip);
      a, b := c + 1, d + 1;
    }
  }

  lemma {:induction false} OfSecondPlace(cs: seq<Command>, t: int, p: nat) returns (a: nat)
    requires p < |OfSecond(cs, t)|
    ensures a < |cs| && cs[a] == OfSecond(cs, t)[p]
  {
    if cs[0].executeAt == t && p == 0 {
      a := 0;
    } else {
      var rest := OfSecondPlace(cs[1..], t, if cs[0].executeAt == t then p - 1 else p);
      a := rest + 1;
    }
  }

  // Commands of one second run in the order in which they were added: in any run, when a tick
  // runs two of them, the one that was added first runs first.
  lemma RunInAddedOrder(r: Run, k: nat, i: nat, j: nat, c: Command, d: Command) returns (a: nat, b: nat)
    requires Execution(r) && FreshIds(r.events) && k < |r.events| && r.events[k].Tick?
    requires i < j < k && AddedBy(r, i, c) && AddedBy(r, j, d) && c.executeAt == d.executeAt
    requires c in r.ran[k] && d in r.ran[k]
    ensures a < b < |r.ran[k]| && r.ran[k][a] == c && r.ran[k][b] == d
  {
    var t := c.executeAt;
    var bucket := Bucket(r.states[k], t);
    RanIsBucket(r, k, c);
    RanIsBucket(r, k, d);
    BucketsAreInOrder(r, k, t);
    var p :| 0 <= p < |bucket| && bucket[p] == c;
    var q :| 0 <= q < |bucket| && bucket[q] == d;
    StandsBefore(r, bucket, k, i, j, p, q);
    a, b := OfSecondPlaces(r.ran[k], t, p, q);
  }

  lemma RanIsBucket(r: Run, k: nat, c: Command)
    requires Execution(r) && k < |r.events| && r.events[k].Tick? && c in r.ran[k]
    ensures OfSecond(r.ran[k], c.executeAt) == Bucket(r.states[k], c.executeAt)
    ensures c in Bucket(r.states[k], c.executeAt)
  {
    assert Step(r.states[k], r.events[k], r.states[k + 1], r.ran[k]);
    RunsDueCounts(r.states[k], r.events[k].now, r.ran[k], c);
    assert multiset(r.ran[k])[c] > 0;
  }

  lemma StandsBefore(r: Run, bucket: seq<Command>, n: nat, i: nat, j: nat, p: nat, q: nat)
    requires FreshIds(r.events) && InOrder(r, bucket, n) && i < j && p < |bucket| && q < |bucket|
    requires AddedBy(r, i, bucket[p]) && AddedBy(r, j, bucket[q])
    ensures p < q
  {
  }
}
