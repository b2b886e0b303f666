// The scheduler as it runs, over its two maps.
module DeferredModel {
  import opened DeferredSpec

  class DeferredScheduler {
    var commands: map<string, Command>
    var timeIndex: map<int, seq<Command>>

    ghost function View(): Scheduler
      reads this
    {
      Scheduler(commands, timeIndex)
    }

    constructor ()
      ensures View() == EMPTY
    {
      commands, timeIndex := map[], map[];
    }

    method AddDeferredCommand(cmd: Command)
      modifies this
      ensures View() == Added(old(View()), cmd)
    {
      commands := commands[cmd.id := cmd];
      var timeKey := cmd.executeAt;
      timeIndex := timeIndex[timeKey := (if timeKey in timeIndex then timeIndex[timeKey] else []) + [cmd]];
    }

    method CancelDeferredCommand(commandID: string) returns (ok: bool)
      modifies this
      ensures View() == Cancelled(old(View()), commandID)
      ensures ok <==> commandID in old(commands)
    {
      if commandID !in commands { return false; }
      var cmd := commands[commandID];
      commands := commands - {commandID};
      var timeKey := cmd.executeAt;
      if timeKey in timeIndex {
        var timeSlice := timeIndex[timeKey];
        var i := 0;
        while i < |timeSlice|
          invariant 0 <= i <= |timeSlice| && timeIndex == old(timeIndex)
          invariant forall j :: 0 <= j < i ==> timeSlice[j].id != commandID
        {
          if timeSlice[i].id == commandID {
            WithoutFirstAt(timeSlice, commandID, i);
            timeIndex := timeIndex[timeKey := timeSlice[..i] + timeSlice[i + 1..]];
            if |timeIndex[timeKey]| == 0 {
              timeIndex := timeIndex - {timeKey};
            }
            return true;
          }
          i := i + 1;
        }
        WithoutFirstNone(timeSlice, commandID);
      }
      return true;
    }

    // The commands that are due, in the order in which they then run.
    method ExecuteReadyCommands(now: int) returns (readyCommands: seq<Command>)
      requires Bucketed(View())
      modifies this
      ensures View() == Ticked(old(View()), now) && RunsDue(old(View()), now, readyCommands)
    {
      var keysToDelete;
      readyCommands, keysToDelete := CollectReady(now);
      timeIndex := timeIndex - keysToDelete;
      var i := 0;
      while i < |readyCommands|
        invariant 0 <= i <= |readyCommands| && timeIndex == old(timeIndex) - keysToDelete
        invariant commands == old(commands) - Ids(readyCommands, i)
      {
        OneMoreId(old(commands), readyCommands, i);
        commands := commands - {readyCommands[i].id};
        i := i + 1;
      }
    }

    method CollectReady(currentTime: int) returns (readyCommands: seq<Command>, keysToDelete: set<int>)
      requires Bucketed(View())
      ensures keysToDelete == Due(View(), currentTime) && RunsDue(View(), currentTime, readyCommands)
      ensures Ids(readyCommands, |readyCommands|) == DueIds(View(), currentTime)
    {
      readyCommands, keysToDelete := [], {};
      var todo: set<int> := timeIndex.Keys;
      while todo != {}
        invariant todo <= timeIndex.Keys && keysToDelete == (set t | t in timeIndex && t !in todo && t <= currentTime)
        invariant Collected(View(), keysToDelete, readyCommands)
        decreases todo
      {
        var timeKey := Next(todo);
        todo := todo - {timeKey};
        if timeKey <= currentTime {
          CollectOneMore(View(), keysToDelete, readyCommands, timeKey);
          readyCommands := readyCommands + timeIndex[timeKey];
          keysToDelete := keysToDelete + {timeKey};
        }
      }
      CollectedIsDue(View(), currentTime, readyCommands);
    }
  }

  // The ids of the first n commands.
  function Ids(commands: seq<Command>, n: nat): set<string>
    requires n <= |commands|
  {
    set j | 0 <= j < n :: commands[j].id
  }

  lemma OneMoreId(m: map<string, Command>, commands: seq<Command>, n: nat)
    requires n < |commands|
    ensures m - Ids(commands, n + 1) == m - Ids(commands, n) - {commands[n].id}
  {
    assert Ids(commands, n + 1) == Ids(commands, n) + {commands[n].id};
  }

  // Map iteration takes the keys in any order.
  method Next<T>(todo: set<T>) returns (t: T)
    requires todo != {}
    ensures t in todo
  {
    t :| t in todo;
  }

  lemma {:induction false} WithoutFirstNone(bucket: seq<Command>, id: string)
    requires forall j :: 0 <= j < |bucket| ==> bucket[j].id != id
    ensures WithoutFirst(bucket, id) == bucket
  {
    if bucket != [] { WithoutFirstNone(bucket[1..], id); }
  }

  lemma {:induction false} WithoutFirstAt(bucket: seq<Command>, id: string, i: nat)
    requires i < |bucket| && bucket[i].id == id && forall j :: 0 <= j < i ==> bucket[j].id != id
    ensures WithoutFirst(bucket, id) == bucket[..i] + bucket[i + 1..]
  {
    if i > 0 {
      WithoutFirstAt(bucket[1..], id, i - 1);
      assert bucket[..i] + bucket[i + 1..] == [bucket[0]] + (bucket[1..][..i - 1] + bucket[1..][i..]);
    }
  }

  // The buckets of some seconds, the seconds in some order.
  ghost predicate Collected(s: Scheduler, keys: set<int>, ready: seq<Command>) {
    keys <= s.timeIndex.Keys && forall t :: OfSecond(ready, t) == if t in keys then Bucket(s, t) else []
  }

  lemma {:induction false} OfSecondConcat(a: seq<Command>, b: seq<Command>, t: int)
    ensures OfSecond(a + b, t) == OfSecond(a, t) + OfSecond(b, t)
  {
    if a == [] {
      assert a + b == b;
    } else {
      assert (a + b)[1..] == a[1..] + b;
      OfSecondConcat(a[1..], b, t);
    }
  }

  lemma {:induction false} OfOneSecond(bucket: seq<Command>, u: int, t: int)
    requires forall c :: c in bucket ==> c.executeAt == u
    ensures OfSecond(bucket, t) == if t == u then bucket else []
  {
    if bucket != [] {
      assert bucket[0] in bucket;
      OfOneSecond(bucket[1..], u, t);
    }
  }

  lemma CollectOneMore(s: Scheduler, keys: set<int>, ready: seq<Command>, t: int)
    requires Bucketed(s) && Collected(s, keys, ready) && t in s.timeIndex && t !in keys
    ensures Collected(s, keys + {t}, ready + s.timeIndex[t])
  {
    forall u ensures OfSecond(ready + s.timeIndex[t], u) == if u in keys + {t} then Bucket(s, u) else [] {
      OfSecondConcat(ready, s.timeIndex[t], u);
      assert forall c :: c in Bucket(s, t) ==> c.executeAt == t;
      OfOneSecond(s.timeIndex[t], t, u);
    }
  }

  lemma CollectedIsDue(s: Scheduler, now: int, ready: seq<Command>)
    requires Bucketed(s) && Collected(s, Due(s, now), ready)
    ensures RunsDue(s, now, ready)
    ensures Ids(ready, |ready|) == DueIds(s, now)
  {
    assert RunsDue(s, now, ready);
    forall id ensures id in Ids(ready, |ready|) <==> id in DueIds(s, now) {
      if id in DueIds(s, now) { DueIsReady(s, now, ready, id); }
      if id in Ids(ready, |ready|) { ReadyIsDue(s, now, ready, id); }
    }
  }

  lemma DueIsReady(s: Scheduler, now: int, ready: seq<Command>, id: string)
    requires Bucketed(s) && RunsDue(s, now, ready) && id in DueIds(s, now)
    ensures id in Ids(ready, |ready|)
  {
    var t, i :| t in Due(s, now) && 0 <= i < |s.timeIndex[t]| && s.timeIndex[t][i].id == id;
    var c := s.timeIndex[t][i];
    RunsDueCounts(s, now, ready, c);
    assert c in Bucket(s, t) && Copies(s, c) > 0;
    assert multiset(ready)[c] > 0 && c in ready;
  }

  lemma ReadyIsDue(s: Scheduler, now: int, ready: seq<Command>, id: string)
    requires RunsDue(s, now, ready) && id in Ids(ready, |ready|)
    ensures id in DueIds(s, now)
  {
    var j :| 0 <= j < |ready| && ready[j].id == id;
    RunsDueCounts(s, now, ready, ready[j]);
    assert multiset(ready)[ready[j]] > 0 && Copies(s, ready[j]) > 0;
    var i :| 0 <= i < |Bucket(s, ready[j].executeAt)| && Bucket(s, ready[j].executeAt)[i] == ready[j];
  }
}
