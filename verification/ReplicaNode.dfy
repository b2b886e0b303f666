// One node's replication handlers, in place over its clock and its store.
module ReplicaNodeModel {
  import opened Wrappers
  import opened Hlc
  import opened LwwSpec
  import opened LwwConvergence
  import opened LwwStore
  import opened LwwKeyspace
  import opened Replication

  // handleReplicationPush on one event: merge a non-zero stamp into the clock, then apply.
  function PushedClock(clock: HLCTimestamp, ev: ReplicationEvent, pt: int): HLCTimestamp {
    if ev.stamp.ts.physical != 0 || ev.stamp.ts.logical != 0 then AfterUpdate(clock, ev.stamp.ts, pt) else clock
  }

  // A push moves the clock exactly when its event is stamped.
  lemma PushMovesClockIff(clock: HLCTimestamp, ev: ReplicationEvent, pt: int)
    requires !WrapsOnUpdate(clock, ev.stamp.ts, pt)
    ensures PushedClock(clock, ev, pt) == clock <==> ev.stamp.ts.IsZero()
  {
  }

  function PushedClocks(clock: HLCTimestamp, evs: seq<ReplicationEvent>, pts: seq<int>): HLCTimestamp
    requires |pts| == |evs|
  {
    if evs == [] then clock
    else PushedClock(PushedClocks(clock, evs[..|evs| - 1], pts[..|evs| - 1]), evs[|evs| - 1], pts[|evs| - 1])
  }

  lemma {:induction false} ApplyOneMore(s: State, evs: seq<ReplicationEvent>, ev: ReplicationEvent)
    ensures ApplyEvents(s, evs + [ev]) == ApplyEvent(ApplyEvents(s, evs), ev)
    decreases |evs|
  {
    if evs == [] {
      assert (evs + [ev])[1..] == [];
    } else {
      assert (evs + [ev])[1..] == evs[1..] + [ev];
      ApplyOneMore(ApplyEvent(s, evs[0]), evs[1..], ev);
    }
  }

  // A tombstone is one that was there, or the delete of some event, dated when the event came.
  ghost predicate DatedBy(before: map<string, Tombstone>, after: map<string, Tombstone>, evs: seq<ReplicationEvent>,
                          pts: seq<int>)
    requires |pts| == |evs|
  {
    forall k :: k in after ==> (k in before && after[k] == before[k]) || Brought(k, after[k], evs, pts)
  }

  ghost predicate Brought(k: string, tomb: Tombstone, evs: seq<ReplicationEvent>, pts: seq<int>)
    requires |pts| == |evs|
  {
    exists i :: 0 <= i < |evs| && Deletes(evs[i], k, tomb.stamp) && pts[i] == tomb.deleted
  }

  predicate Deletes(ev: ReplicationEvent, k: string, st: Stamp) {
    ev.operation == "DEL" && ev.key == k && ev.stamp == st
  }

  lemma OneMoreDated(a: map<string, Tombstone>, b: map<string, Tombstone>, c: map<string, Tombstone>, s: State,
                     evs: seq<ReplicationEvent>, pts: seq<int>, ev: ReplicationEvent, pt: int)
    requires |pts| == |evs| && DatedBy(a, b, evs, pts) && Dated(b, c, pt)
    requires StampedAs(b, s) && StampedAs(c, ApplyEvent(s, ev))
    ensures DatedBy(a, c, evs + [ev], pts + [pt])
  {
    var all, times := evs + [ev], pts + [pt];
    forall k | k in c && !(k in a && c[k] == a[k]) ensures Brought(k, c[k], all, times) {
      if k in b && b[k].stamp == c[k].stamp {
        var i :| 0 <= i < |evs| && Deletes(evs[i], k, b[k].stamp) && pts[i] == b[k].deleted;
        assert all[i] == evs[i] && times[i] == pts[i];
      } else {
        NewTombstoneIsDelete(s, ev, k);
        assert all[|evs|] == ev && times[|evs|] == pt;
      }
    }
  }

  // The stamps of the tombstones are those of the state.
  ghost predicate StampedAs(tombstones: map<string, Tombstone>, s: State) {
    tombstones.Keys == s.tombs.Keys && forall k :: k in tombstones ==> tombstones[k].stamp == s.tombs[k]
  }

  lemma NewTombstoneIsDelete(s: State, ev: ReplicationEvent, k: string)
    requires k in ApplyEvent(s, ev).tombs && !(k in s.tombs && s.tombs[k] == ApplyEvent(s, ev).tombs[k])
    ensures Deletes(ev, k, ApplyEvent(s, ev).tombs[k])
  {
    EventIsRead(ev);
    if Decode(ev).Stamped? {
      NewTombstone(s, Decode(ev).ops, k);
      assert Names(ev.operation, DelOp(k, ApplyEvent(s, ev).tombs[k]));
    }
  }

  function Times(now: int, n: nat): (pts: seq<int>)
    ensures |pts| == n
  {
    seq(n, _ => now)
  }

  lemma NextEntry(entries: seq<Entry>, i: nat, now: int)
    requires i < |entries|
    ensures EventsOf(entries[..i + 1]) == EventsOf(entries[..i]) + [EventOf(entries[i])]
    ensures Times(now, i + 1) == Times(now, i) + [now]
  {
  }

  class ReplicaNode {
    const origin: nat
    const hlc: HLC
    const store: Store
    var shardIdx: nat

    constructor (id: nat, h: string -> nat)
      ensures fresh(hlc) && fresh(store) && store.Valid() && store.home == map[]
      ensures origin == id && hlc.last == ZERO_TIME && store.contents == EMPTY_STATE && shardIdx == 0
    {
      origin := id;
      hlc := new HLC();
      store := new Store(h);
      shardIdx := 0;
    }

    method NextStamp(pt: int) returns (st: Stamp)
      modifies hlc
      ensures hlc.last == AfterNow(old(hlc.last), pt) && st == Stamp(hlc.last, origin)
    {
      var ts := hlc.Now(pt);
      return Stamp(ts, origin);
    }

    // Returns whether the event took the stamped path; the plain path is not modelled.
    method ApplyReplication(ev: ReplicationEvent, now: int) returns (stamped: bool)
      requires store.Valid()
      modifies store, store.home.Keys
      ensures store.Valid() && fresh(store.home.Keys - old(store.home.Keys))
      ensures store.contents == ApplyEvent(old(store.contents), ev)
      ensures stamped <==> Decode(ev).Stamped?
      ensures Dated(old(store.tombstones), store.tombstones, now)
    {
      var key, st := ev.key, ev.stamp;
      var parts := Split(ev.value);
      if st.ts.physical == 0 && st.ts.logical == 0 { return false; }
      ghost var s := store.contents;
      match ev.operation {
        case "SET" =>
          var _ := store.SetWithHLC(key, ev.value, st);
          SingleRun(s, SetOp(key, ev.value, st));
        case "DEL" =>
          var _ := store.DeleteWithHLC(key, st, now);
          SingleRun(s, DelOp(key, st));
        case "SADD" =>
          if |parts| < 2 { return false; }
          RunAddOps(s, key, st, parts[1..]);
          var _ := store.SAddLWW(key, st, parts[1..]);
        case "SREM" =>
          if |parts| < 2 { return false; }
          RunRemOps(s, key, st, parts[1..]);
          var _ := store.SRemLWW(key, st, parts[1..]);
        case "SPOP" =>
          RunRemOps(s, key, st, [ev.value]);
          assert RemOps(key, st, [ev.value]) == [RemOp(key, ev.value, st)];
          var _ := store.SRemLWW(key, st, [ev.value]);
        case _ => return false;
      }
      return true;
    }

    lemma SingleRun(s: State, op: Op)
      ensures Run(s, [op]) == Apply(s, op)
    {
      assert Run(s, [op]) == Run(Apply(s, op), []);
    }

    method HandleReplicationPush(events: seq<ReplicationEvent>, pts: seq<int>)
      requires store.Valid() && |pts| == |events|
      modifies hlc, store, store.home.Keys
      ensures store.Valid()
      ensures hlc.last == PushedClocks(old(hlc.last), events, pts)
      ensures store.contents == ApplyEvents(old(store.contents), events)
      ensures DatedBy(old(store.tombstones), store.tombstones, events, pts)
    {
      for i := 0 to |events|
        invariant store.Valid() && fresh(store.home.Keys - old(store.home.Keys))
        invariant hlc.last == PushedClocks(old(hlc.last), events[..i], pts[..i])
        invariant store.contents == ApplyEvents(old(store.contents), events[..i])
        invariant DatedBy(old(store.tombstones), store.tombstones, events[..i], pts[..i])
      {
        ghost var before, was := store.tombstones, store.contents;
        var ev := events[i];
        assert events[..i + 1] == events[..i] + [ev] && pts[..i + 1][..i] == pts[..i];
        ApplyOneMore(old(store.contents), events[..i], ev);
        if ev.stamp.ts.physical != 0 || ev.stamp.ts.logical != 0 {
          var _ := hlc.Update(ev.stamp.ts, pts[i]);
        }
        var _ := ApplyReplication(ev, pts[i]);
        OneMoreDated(old(store.tombstones), before, store.tombstones, was, events[..i], pts[..i], ev, pts[i]);
        assert pts[..i + 1] == pts[..i] + [pts[i]];
      }
      assert events[..|events|] == events && pts[..|events|] == pts;
    }

    // The peer's digest goes through the apply path; the clock is left alone.
    method HandleSyncResponse(entries: seq<Entry>, now: int)
      requires store.Valid()
      modifies store, store.home.Keys
      ensures store.Valid() && hlc.last == old(hlc.last)
      ensures store.contents == ApplyEvents(old(store.contents), EventsOf(entries))
      ensures DatedBy(old(store.tombstones), store.tombstones, EventsOf(entries), Times(now, |entries|))
    {
      for i := 0 to |entries|
        invariant store.Valid() && fresh(store.home.Keys - old(store.home.Keys)) && hlc.last == old(hlc.last)
        invariant store.contents == ApplyEvents(old(store.contents), EventsOf(entries[..i]))
        invariant DatedBy(old(store.tombstones), store.tombstones, EventsOf(entries[..i]), Times(now, i))
      {
        ghost var before, was := store.tombstones, store.contents;
        NextEntry(entries, i, now);
        ApplyOneMore(old(store.contents), EventsOf(entries[..i]), EventOf(entries[i]));
        var _ := ApplyReplication(EventOf(entries[i]), now);
        OneMoreDated(old(store.tombstones), before, store.tombstones, was, EventsOf(entries[..i]), Times(now, i),
                     EventOf(entries[i]), now);
      }
      assert entries[..|entries|] == entries;
    }

    method HandleSyncRequest(shard: int) returns (entries: seq<Entry>)
      requires store.Valid()
      ensures 0 <= shard < NUM_SHARDS ==> ShardDigest(store.contents, store.hash, shard, entries)
      ensures !(0 <= shard < NUM_SHARDS) ==> entries == []
    {
      entries := store.ShardLWWDigest(shard);
      if 0 <= shard < NUM_SHARDS { StoreSendsShardDigest(store.contents, store.hash, shard, entries); }
    }

    // One tick of antiEntropyLoop with a peer to ask.
    method NextShardToRequest() returns (shard: nat)
      modifies this
      ensures shard == Requested(old(shardIdx), 0) && shardIdx == Requested(old(shardIdx), 1)
    {
      shard := shardIdx % NUM_SHARDS;
      shardIdx := (shardIdx + 1) % NUM_SHARDS;
    }
  }
}
