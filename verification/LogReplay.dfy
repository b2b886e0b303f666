// Recovery: read every segment, sort by timestamp, replay.
module LogReplay {
  import opened Wrappers
  import opened LogEntry
  import opened CompactionSpec

  ghost predicate ByTime(log: seq<Entry>) {
    forall i, j :: 0 <= i < j < |log| ==> log[i].timestamp <= log[j].timestamp
  }

  function Replay(log: seq<Entry>): map<seq<byte>, seq<byte>> {
    if log == [] then map[]
    else
      var n := |log| - 1;
      var snapshot, e := Replay(log[..n]), log[n];
      if IsWrite(e) then snapshot[e.key := e.value]
      else if IsDelete(e) then snapshot - {e.key}
      else snapshot
  }

  // Replaying a sorted log leaves each key with its newest record.
  lemma {:induction false} ReplayFindsTops(log: seq<Entry>, k: seq<byte>)
    requires ByTime(log)
    ensures k in Replay(log) <==> Written(Top(log, k))
    ensures k in Replay(log) ==> Replay(log)[k] == Top(log, k).value.value
    decreases |log|
  {
    if log != [] {
      var n := |log| - 1;
      ReplayFindsTops(log[..n], k);
      if Top(log[..n], k).Some? {
        var i :| 0 <= i < n && log[i] == Top(log[..n], k).value;
        assert log[i].timestamp <= log[n].timestamp;
      }
    }
  }

  // Whatever order the sort leaves records of equal timestamp in.
  lemma SameRecordsSameTop(a: seq<Entry>, b: seq<Entry>, k: seq<byte>)
    requires UniqueTimes(a) && forall e :: e in a <==> e in b
    ensures Top(a, k) == Top(b, k)
  {
    if Top(a, k).Some? {
      TopIsTheNewest(b, k, Top(a, k).value);
    }
  }

  lemma ReplayIsSnapshot(log: seq<Entry>, sorted: seq<Entry>)
    requires UniqueTimes(log) && ByTime(sorted) && multiset(sorted) == multiset(log)
    ensures Replay(sorted) == Snapshot(log)
  {
    forall e ensures e in log <==> e in sorted {
      assert e in log <==> e in multiset(log);
      assert e in sorted <==> e in multiset(sorted);
    }
    forall k ensures k in Replay(sorted) <==> k in Snapshot(log) {
      ReplayFindsTops(sorted, k);
      SameRecordsSameTop(log, sorted, k);
      TopKey(log, k);
    }
    forall k | k in Snapshot(log) ensures Replay(sorted)[k] == Snapshot(log)[k] {
      ReplayFindsTops(sorted, k);
      SameRecordsSameTop(log, sorted, k);
    }
  }

  function InsertByTime(sorted: seq<Entry>, e: Entry): seq<Entry> {
    if sorted == [] || sorted[|sorted| - 1].timestamp <= e.timestamp then sorted + [e]
    else InsertByTime(sorted[..|sorted| - 1], e) + [sorted[|sorted| - 1]]
  }

  lemma {:induction false} InsertKeepsRecords(sorted: seq<Entry>, e: Entry)
    ensures multiset(InsertByTime(sorted, e)) == multiset(sorted) + multiset{e}
    decreases |sorted|
  {
    if sorted != [] && sorted[|sorted| - 1].timestamp > e.timestamp {
      var n := |sorted| - 1;
      InsertKeepsRecords(sorted[..n], e);
      assert sorted == sorted[..n] + [sorted[n]];
    }
  }

  lemma {:induction false} InsertStaysBefore(sorted: seq<Entry>, e: Entry, time: int64)
    requires e.timestamp <= time && forall i :: 0 <= i < |sorted| ==> sorted[i].timestamp <= time
    ensures forall i :: 0 <= i < |InsertByTime(sorted, e)| ==> InsertByTime(sorted, e)[i].timestamp <= time
    decreases |sorted|
  {
    if sorted != [] && sorted[|sorted| - 1].timestamp > e.timestamp {
      InsertStaysBefore(sorted[..|sorted| - 1], e, time);
    }
  }

  lemma {:induction false} InsertKeepsOrder(sorted: seq<Entry>, e: Entry)
    requires ByTime(sorted)
    ensures ByTime(InsertByTime(sorted, e))
    decreases |sorted|
  {
    if sorted != [] && sorted[|sorted| - 1].timestamp > e.timestamp {
      var n := |sorted| - 1;
      InsertKeepsOrder(sorted[..n], e);
      InsertStaysBefore(sorted[..n], e, sorted[n].timestamp);
    }
  }

  // Stands for sort.Slice; of its result only the order and the records are used.
  method SortByTime(log: seq<Entry>) returns (sorted: seq<Entry>)
    ensures ByTime(sorted) && multiset(sorted) == multiset(log)
  {
    sorted := [];
    for i := 0 to |log|
      invariant ByTime(sorted) && multiset(sorted) == multiset(log[..i])
    {
      InsertKeepsOrder(sorted, log[i]);
      InsertKeepsRecords(sorted, log[i]);
      assert log[..i + 1] == log[..i] + [log[i]];
      sorted := InsertByTime(sorted, log[i]);
    }
    assert log[..|log|] == log;
  }

  method ReadAll(files: seq<File>) returns (all: seq<Entry>)
    ensures ByTime(all) && multiset(all) == multiset(LogOf(files))
  {
    all := [];
    for i := 0 to |files|
      invariant all + LogOf(files[i..]) == LogOf(files)
    {
      assert files[i..][1..] == files[i + 1..];
      all := all + files[i].content;
    }
    assert files[|files|..] == [];
    all := SortByTime(all);
  }

  method GetLatestSnapshot(files: seq<File>) returns (snapshot: map<seq<byte>, seq<byte>>)
    ensures UniqueTimes(LogOf(files)) ==> snapshot == Snapshot(LogOf(files))
  {
    var all := ReadAll(files);
    snapshot := map[];
    for i := 0 to |all|
      invariant snapshot == Replay(all[..i])
    {
      assert all[..i + 1][..i] == all[..i];
      var entry := all[i];
      if IsWrite(entry) {
        snapshot := snapshot[entry.key := entry.value];
      } else if IsDelete(entry) {
        snapshot := snapshot - {entry.key};
      }
    }
    assert all[..|all|] == all;
    if UniqueTimes(LogOf(files)) { ReplayIsSnapshot(LogOf(files), all); }
  }
}
