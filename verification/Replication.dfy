// Carrying stamped operations between replicas: the wire encoding, the apply path, and the
// digests of anti-entropy.
module Replication {
  import opened Wrappers
  import opened Hlc
  import opened LwwSpec
  import opened LwwConvergence
  import opened LwwStore
  import opened LwwKeyspace

  const NUL: char := '\0'

  datatype ReplicationEvent = ReplicationEvent(operation: string, key: string, value: string, stamp: Stamp)

  // What ApplyReplication does with an event: stamped operations, the plain (unstamped)
  // path, or nothing.
  datatype Dispatch = Stamped(ops: seq<Op>) | Unstamped | Malformed | OtherOperation

  // strings.Split(s, "\x00"): always at least one part.
  function Split(s: string): (parts: seq<string>)
    ensures |parts| == 1 + Nuls(s)
  {
    if s == "" then [""]
    else
      var rest := Split(s[1..]);
      if s[0] == NUL then [""] + rest else [[s[0]] + rest[0]] + rest[1..]
  }

  function Nuls(s: string): nat {
    if s == "" then 0 else (if s[0] == NUL then 1 else 0) + Nuls(s[1..])
  }

  // "key\x00member1\x00member2..."
  function SetPayload(key: string, members: seq<string>): string {
    if members == [] then key
    else SetPayload(key, members[..|members| - 1]) + [NUL] + members[|members| - 1]
  }

  function Decode(ev: ReplicationEvent): Dispatch {
    var parts := Split(ev.value);
    var stamped := ev.stamp.ts.physical != 0 || ev.stamp.ts.logical != 0;
    if ev.operation == "SET" then
      if stamped then Stamped([SetOp(ev.key, ev.value, ev.stamp)]) else Unstamped
    else if ev.operation == "DEL" then
      if stamped then Stamped([DelOp(ev.key, ev.stamp)]) else Unstamped
    else if ev.operation == "SADD" then
      if |parts| < 2 then Malformed
      else if stamped then Stamped(AddOps(ev.key, ev.stamp, parts[1..])) else Unstamped
    else if ev.operation == "SREM" then
      if |parts| < 2 then Malformed
      else if stamped then Stamped(RemOps(ev.key, ev.stamp, parts[1..])) else Unstamped
    else if ev.operation == "SPOP" then
      if stamped then Stamped([RemOp(ev.key, ev.value, ev.stamp)]) else Unstamped
    else OtherOperation
  }

  /* The set encoding */

  lemma {:induction false} NulsOfConcat(s: string, t: string)
    ensures Nuls(s + t) == Nuls(s) + Nuls(t)
    decreases |s|
  {
    if s == "" {
      assert s + t == t;
    } else {
      assert (s + t)[1..] == s[1..] + t;
      NulsOfConcat(s[1..], t);
    }
  }

  lemma {:induction false} SplitAtLastNul(s: string, t: string)
    requires Nuls(t) == 0
    ensures Split(s + [NUL] + t) == Split(s) + [t]
    decreases |s|
  {
    if s == "" {
      assert s + [NUL] + t == [NUL] + t;
      SplitWithoutNul(t);
    } else {
      assert (s + [NUL] + t)[1..] == s[1..] + [NUL] + t;
      SplitAtLastNul(s[1..], t);
    }
  }

  lemma {:induction false} SplitWithoutNul(t: string)
    requires Nuls(t) == 0
    ensures Split(t) == [t]
    decreases |t|
  {
    if t != "" {
      SplitWithoutNul(t[1..]);
      assert [t[0]] + t[1..] == t;
    }
  }

  predicate NulFree(ss: seq<string>) {
    forall i :: 0 <= i < |ss| ==> Nuls(ss[i]) == 0
  }

  lemma {:induction false} PayloadNuls(key: string, members: seq<string>)
    ensures Nuls(SetPayload(key, members)) >= |members| + Nuls(key)
    ensures Nuls(SetPayload(key, members)) == |members| <==> Nuls(key) == 0 && NulFree(members)
    decreases |members|
  {
    if members != [] {
      var n := |members| - 1;
      var before, last := members[..n], members[n];
      PayloadNuls(key, before);
      NulsOfConcat(SetPayload(key, before), [NUL] + last);
      assert SetPayload(key, before) + [NUL] + last == SetPayload(key, before) + ([NUL] + last);
      assert Nuls([NUL] + last) == 1 + Nuls(last) by { assert ([NUL] + last)[1..] == last; }
      assert NulFree(members) <==> NulFree(before) && Nuls(last) == 0;
    }
  }

  lemma {:induction false} PayloadSplits(key: string, members: seq<string>)
    requires Nuls(key) == 0 && NulFree(members)
    ensures Split(SetPayload(key, members)) == [key] + members
    decreases |members|
  {
    if members == [] {
      SplitWithoutNul(key);
    } else {
      var n := |members| - 1;
      PayloadSplits(key, members[..n]);
      SplitAtLastNul(SetPayload(key, members[..n]), members[n]);
      assert members == members[..n] + [members[n]];
    }
  }

  // The receiver gets back the members that were sent exactly when neither they nor the key
  // contain a NUL.
  lemma MembersSurviveTheWire(key: string, members: seq<string>)
    ensures Split(SetPayload(key, members))[1..] == members <==> Nuls(key) == 0 && NulFree(members)
  {
    PayloadNuls(key, members);
    if Nuls(key) == 0 && NulFree(members) { PayloadSplits(key, members); }
  }

  /* Digest entries */

  // handleSyncResponse turns a digest entry into a replication event.
  function EventOf(x: Entry): ReplicationEvent {
    if x.member != "" then
      ReplicationEvent(if x.deleted then "SREM" else "SADD", x.key, SetPayload(x.key, [x.member]), x.stamp)
    else
      ReplicationEvent(if x.deleted then "DEL" else "SET", x.key, x.value, x.stamp)
  }

  // The operation a digest entry stands for.
  function OpOf(x: Entry): Op {
    if x.member != "" then
      (if x.deleted then RemOp(x.key, x.member, x.stamp) else AddOp(x.key, x.member, x.stamp))
    else if x.deleted then DelOp(x.key, x.stamp)
    else SetOp(x.key, x.value, x.stamp)
  }

  predicate Clean(x: Entry) {
    && !x.stamp.ts.IsZero()
    && (x.member != "" ==> Nuls(x.key) == 0 && Nuls(x.member) == 0)
  }

  // Sent as an event, an entry is applied as the one operation it stands for exactly when
  // it is stamped and free of NULs.
  lemma EntrySurvivesTheWire(x: Entry)
    ensures Decode(EventOf(x)) == Stamped([OpOf(x)]) <==> Clean(x)
  {
    if x.member != "" {
      PayloadNuls(x.key, [x.member]);
      var parts := Split(SetPayload(x.key, [x.member]));
      if Nuls(x.key) == 0 && Nuls(x.member) == 0 {
        PayloadSplits(x.key, [x.member]);
        assert parts[1..] == [x.member];
        assert AddOps(x.key, x.stamp, parts[1..]) == [AddOp(x.key, x.member, x.stamp)];
        assert RemOps(x.key, x.stamp, parts[1..]) == [RemOp(x.key, x.member, x.stamp)];
      } else {
        assert NulFree([x.member]) ==> Nuls([x.member][0]) == 0;
        assert |AddOps(x.key, x.stamp, parts[1..])| > 1 && |RemOps(x.key, x.stamp, parts[1..])| > 1;
      }
    }
  }

  // An entry stands for the fact it was made from unless that fact is about the empty
  // element, which reads as a fact about the key itself.
  lemma EntryStandsForItsFact(slot: Slot, f: Fact)
    requires slot.ElementSlot? && f.content.Some? ==> f.content.value == ""
    ensures SlotOf(OpOf(EntryFor(slot, f))) == slot && FactOf(OpOf(EntryFor(slot, f))) == f
            <==> slot.StringSlot? || slot.elem != ""
  {
  }

  // Which events are applied as stamped operations, and that they speak of the event's own key,
  // whatever key the payload names, under the event's own stamp.
  lemma EventIsRead(ev: ReplicationEvent)
    ensures Decode(ev).Stamped? <==>
            !ev.stamp.ts.IsZero() &&
            (ev.operation in ["SET", "DEL", "SPOP"] || (ev.operation in ["SADD", "SREM"] && Nuls(ev.value) > 0))
    ensures Decode(ev).Stamped? ==>
              forall op :: op in Decode(ev).ops ==> op.key == ev.key && op.stamp == ev.stamp && Names(ev.operation, op)
  {
  }

  predicate Names(operation: string, op: Op) {
    match op
    case SetOp(_, _, _) => operation == "SET"
    case DelOp(_, _) => operation == "DEL"
    case AddOp(_, _, _) => operation == "SADD"
    case RemOp(_, _, _) => operation == "SREM" || operation == "SPOP"
  }

  function ApplyEvent(s: State, ev: ReplicationEvent): State {
    var d := Decode(ev);
    if d.Stamped? then Run(s, d.ops) else s
  }

  function ApplyEvents(s: State, evs: seq<ReplicationEvent>): State
    decreases |evs|
  {
    if evs == [] then s else ApplyEvents(ApplyEvent(s, evs[0]), evs[1..])
  }

  function EventsOf(entries: seq<Entry>): seq<ReplicationEvent> {
    seq(|entries|, i requires 0 <= i < |entries| => EventOf(entries[i]))
  }

  function OpsOf(entries: seq<Entry>): seq<Op> {
    seq(|entries|, i requires 0 <= i < |entries| => OpOf(entries[i]))
  }

  // Applying a digest's entries one by one is the run of the operations they stand for.
  lemma {:induction false} EntriesRunAsOps(s: State, entries: seq<Entry>)
    requires forall x :: x in entries ==> Clean(x)
    ensures ApplyEvents(s, EventsOf(entries)) == Run(s, OpsOf(entries))
    decreases |entries|
  {
    if entries != [] {
      var x := entries[0];
      EntrySurvivesTheWire(x);
      assert EventsOf(entries)[0] == EventOf(x) && EventsOf(entries)[1..] == EventsOf(entries[1..]);
      assert OpsOf(entries)[0] == OpOf(x) && OpsOf(entries)[1..] == OpsOf(entries[1..]);
      assert Run(s, [OpOf(x)]) == Run(Apply(s, OpOf(x)), []);
      EntriesRunAsOps(Apply(s, OpOf(x)), entries[1..]);
    }
  }

  /* A full rotation of the shards */

  // The facts of a replica that the wire format can carry.
  ghost predicate Transmissible(s: State) {
    forall slot :: Winner(s, slot).Some? ==>
      !Winner(s, slot).value.stamp.ts.IsZero() &&
      (slot.ElementSlot? ==> slot.elem != "" && Nuls(slot.key) == 0 && Nuls(slot.elem) == 0)
  }

  // The digest of one shard, as ShardLWWDigest leaves it.
  ghost predicate ShardDigest(s: State, hash: string -> nat, shard: nat, entries: seq<Entry>) {
    && (forall slot: Slot :: ShardOf(hash, slot.key) == shard && Winner(s, slot).Some? ==>
          EntryFor(slot, Winner(s, slot).value) in entries)
    && (forall x :: x in entries ==> exists slot: Slot ::
          ShardOf(hash, slot.key) == shard && Winner(s, slot).Some? && x == EntryFor(slot, Winner(s, slot).value))
  }

  // What the store's ShardLWWDigest promises is the digest of the shard.
  lemma StoreSendsShardDigest(s: State, hash: string -> nat, shard: nat, entries: seq<Entry>)
    requires Digested(s, entries, ShardKeys(hash, s.data.Keys, shard), ShardKeys(hash, s.tombs.Keys, shard))
    ensures ShardDigest(s, hash, shard, entries)
  {
    forall slot: Slot | ShardOf(hash, slot.key) == shard && Winner(s, slot).Some?
      ensures EntryFor(slot, Winner(s, slot).value) in entries
    {
      assert Covered(s, slot, ShardKeys(hash, s.data.Keys, shard), ShardKeys(hash, s.tombs.Keys, shard));
    }
    forall x | x in entries
      ensures exists slot: Slot ::
        ShardOf(hash, slot.key) == shard && Winner(s, slot).Some? && x == EntryFor(slot, Winner(s, slot).value)
    {
      var slot :| Covered(s, slot, ShardKeys(hash, s.data.Keys, shard), ShardKeys(hash, s.tombs.Keys, shard)) &&
                  Winner(s, slot).Some? && x == EntryFor(slot, Winner(s, slot).value);
      assert ShardOf(hash, slot.key) == shard;
    }
  }

  lemma ShardDigestStandsForWinners(s: State, hash: string -> nat, shard: nat, entries: seq<Entry>)
    requires Transmissible(s) && ShardDigest(s, hash, shard, entries)
    ensures forall x :: x in entries ==> Clean(x)
    ensures DigestOf(s, k => ShardOf(hash, k) == shard, OpsOf(entries))
  {
    forall x | x in entries
      ensures Clean(x) && ShardOf(hash, OpOf(x).key) == shard && Winner(s, SlotOf(OpOf(x))) == Some(FactOf(OpOf(x)))
    {
      var slot: Slot :|
        ShardOf(hash, slot.key) == shard && Winner(s, slot).Some? && x == EntryFor(slot, Winner(s, slot).value);
      EntryStandsForItsFact(slot, Winner(s, slot).value);
    }
    forall slot: Slot | ShardOf(hash, slot.key) == shard && Winner(s, slot).Some?
      ensures exists op :: op in OpsOf(entries) && SlotOf(op) == slot
    {
      var x := EntryFor(slot, Winner(s, slot).value);
      EntryStandsForItsFact(slot, Winner(s, slot).value);
      var i :| 0 <= i < |entries| && entries[i] == x;
      assert OpsOf(entries)[i] == OpOf(x);
    }
  }

  // antiEntropyLoop asks for shard `start`, then the next, and so on around.
  function Requested(start: nat, i: nat): nat {
    (start + i) % NUM_SHARDS
  }

  lemma RotationReachesEveryShard(start: nat, shard: nat) returns (i: nat)
    requires shard < NUM_SHARDS && start < NUM_SHARDS
    ensures i < NUM_SHARDS && Requested(start, i) == shard
  {
    i := if shard >= start then shard - start else shard + NUM_SHARDS - start;
  }

  // Each tick goes on from where the last one left off.
  lemma RotationGoesOn(start: nat, i: nat)
    ensures Requested(Requested(start, i), 1) == Requested(start, i + 1)
    ensures Requested(Requested(start, i), 0) == Requested(start, i)
  {
  }

  lemma {:induction false} InFlatten(digests: seq<seq<Entry>>, x: Entry)
    ensures x in Flatten(digests) <==> exists i :: 0 <= i < |digests| && x in digests[i]
  {
    if digests != [] {
      InFlatten(digests[1..], x);
      if x in Flatten(digests) && x !in digests[0] {
        var i :| 0 <= i < |digests[1..]| && x in digests[1..][i];
        assert x in digests[i + 1];
      }
      if i :| 0 <= i < |digests| && x in digests[i] {
        if i > 0 { assert x in digests[1..][i - 1]; }
      }
    }
  }

  // The digests of one whole rotation, in any order within each shard, make up a digest of
  // the whole peer: so the theorems about pulls apply to what the code sends.
  lemma RotationIsFullDigest(s: State, hash: string -> nat, start: nat, digests: seq<seq<Entry>>)
    requires start < NUM_SHARDS && |digests| == NUM_SHARDS && Transmissible(s)
    requires forall i :: 0 <= i < NUM_SHARDS ==> ShardDigest(s, hash, Requested(start, i), digests[i])
    ensures forall x :: x in Flatten(digests) ==> Clean(x)
    ensures DigestOf(s, k => true, OpsOf(Flatten(digests)))
  {
    var all := Flatten(digests);
    forall x | x in all ensures Clean(x) && Winner(s, SlotOf(OpOf(x))) == Some(FactOf(OpOf(x))) {
      InFlatten(digests, x);
      var i :| 0 <= i < |digests| && x in digests[i];
      ShardDigestStandsForWinners(s, hash, Requested(start, i), digests[i]);
      var j :| 0 <= j < |digests[i]| && digests[i][j] == x;
      assert OpsOf(digests[i])[j] == OpOf(x);
    }
    forall slot: Slot | Winner(s, slot).Some? ensures exists op :: op in OpsOf(all) && SlotOf(op) == slot {
      var i := RotationReachesEveryShard(start, ShardOf(hash, slot.key));
      var x := EntryFor(slot, Winner(s, slot).value);
      assert x in digests[i];
      InFlatten(digests, x);
      EntryStandsForItsFact(slot, Winner(s, slot).value);
      var j :| 0 <= j < |all| && all[j] == x;
      assert OpsOf(all)[j] == OpOf(x);
    }
  }
}
