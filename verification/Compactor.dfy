// The compactor and the snapshot reader as they run: loops over the segment files, a state
// map updated record by record, and file operations that stop taking effect at a crash.
module CompactorModel {
  import opened Wrappers
  import opened LogEntry
  import opened CompactionSpec
  import opened CrashSafety
  import opened KeyOrder

  // The data directory.  `fuel` is how many more file operations the process lives to do.
  class DataDir {
    var disk: Disk
    var fuel: nat

    constructor (d: Disk, n: nat)
      ensures disk == d && fuel == n
    {
      disk, fuel := d, n;
    }

    method Perform(op: DiskOp)
      modifies this
      ensures disk == Reached(old(disk), [op], old(fuel)) && fuel == Left(old(fuel), 1)
    {
      ReachedOne(disk, op, fuel);
      if fuel > 0 {
        disk := Do(disk, op);
        fuel := fuel - 1;
      }
    }

    method PerformAll(ops: seq<DiskOp>)
      modifies this
      ensures disk == Reached(old(disk), ops, old(fuel)) && fuel == Left(old(fuel), |ops|)
    {
      for i := 0 to |ops|
        invariant disk == Reached(old(disk), ops[..i], old(fuel)) && fuel == Left(old(fuel), i)
      {
        assert ops[..i] + [ops[i]] == ops[..i + 1];
        ReachedConcat(old(disk), ops[..i], [ops[i]], old(fuel));
        Perform(ops[i]);
      }
      assert ops[..|ops|] == ops;
    }
  }

  function Left(fuel: nat, n: nat): nat {
    if fuel >= n then fuel - n else 0
  }

  // The disk a process leaves when it dies after `fuel` of these operations.
  function Reached(d: Disk, ops: seq<DiskOp>, fuel: nat): Disk {
    DoAll(d, ops[..if fuel < |ops| then fuel else |ops|])
  }

  lemma ReachedOne(d: Disk, op: DiskOp, fuel: nat)
    ensures Reached(d, [op], fuel) == if fuel > 0 then Do(d, op) else d
  {
    assert [op][..0] == [] && [op][..1] == [op];
    assert DoAll(d, [op]) == Do(DoAll(d, []), op);
  }

  lemma {:induction false} DoAllConcat(d: Disk, a: seq<DiskOp>, b: seq<DiskOp>)
    ensures DoAll(d, a + b) == DoAll(DoAll(d, a), b)
    decreases |b|
  {
    if b == [] {
      assert a + b == a;
    } else {
      var n := |b| - 1;
      assert (a + b)[..|a| + n] == a + b[..n];
      DoAllConcat(d, a, b[..n]);
    }
  }

  lemma ReachedConcat(d: Disk, a: seq<DiskOp>, b: seq<DiskOp>, fuel: nat)
    ensures Reached(d, a + b, fuel) == Reached(Reached(d, a, fuel), b, Left(fuel, |a|))
  {
    if fuel <= |a| {
      assert (a + b)[..fuel] == a[..fuel] && b[..0] == [];
      assert fuel == |a| ==> a[..fuel] == a;
    } else {
      var n := if fuel < |a + b| then fuel else |a + b|;
      assert (a + b)[..n] == a + b[..n - |a|] && a[..|a|] == a;
      DoAllConcat(d, a, b[..n - |a|]);
    }
  }

  function SegmentsBut(files: seq<File>, current: nat): seq<Name> {
    if files == [] then []
    else (if files[0].name == Name(current, 0) then [] else [files[0].name]) + SegmentsBut(files[1..], current)
  }

  // On any directory these are the names of all files but the current segment itself.
  lemma {:induction false} SegmentsButIff(files: seq<File>, current: nat, n: Name)
    ensures n in SegmentsBut(files, current) <==>
            n != Name(current, 0) && exists i :: 0 <= i < |files| && files[i].name == n
  {
    if files != [] {
      SegmentsButIff(files[1..], current, n);
      if i :| 0 <= i < |files[1..]| && files[1..][i].name == n { assert files[i + 1].name == n; }
      if i :| 0 <= i < |files| && files[i].name == n && i > 0 { assert files[1..][i - 1].name == n; }
    }
  }

  // In the layout that every run keeps, these are all the files but the current one.
  lemma {:induction false} SegmentsAreClosed(closed: seq<File>, last: File, current: nat)
    requires last.name == Name(current, 0) && forall f :: f in closed ==> f.name.id < current
    ensures SegmentsBut(closed + [last], current) == Names(closed)
  {
    if closed == [] {
      assert (closed + [last])[1..] == [];
    } else {
      assert (closed + [last])[1..] == closed[1..] + [last];
      SegmentsAreClosed(closed[1..], last, current);
      assert Names(closed) == [closed[0].name] + Names(closed[1..]);
    }
  }

  function ReadSegment(files: seq<File>, name: Name): seq<Entry> {
    if Lookup(files, name).Some? then Lookup(files, name).value else []
  }

  function ReadSegments(files: seq<File>, names: seq<Name>): seq<Entry> {
    if names == [] then [] else ReadSegments(files, names[..|names| - 1]) + ReadSegment(files, names[|names| - 1])
  }

  lemma {:induction false} LookupAt(files: seq<File>, i: nat)
    requires Sorted(files) && i < |files|
    ensures Lookup(files, files[i].name) == Some(files[i].content)
    decreases |files|
  {
    if i > 0 {
      assert Before(files[0].name, files[i].name);
      TailIsSorted(files);
      LookupAt(files[1..], i - 1);
    }
  }

  lemma {:induction false} ReadingClosedSegments(files: seq<File>, n: nat)
    requires Sorted(files) && n <= |files|
    ensures ReadSegments(files, Names(files[..n])) == LogOf(files[..n])
    decreases n
  {
    if n > 0 {
      var names := Names(files[..n]);
      assert names[..n - 1] == Names(files[..n - 1]);
      ReadingClosedSegments(files, n - 1);
      LookupAt(files, n - 1);
      assert files[..n] == files[..n - 1] + [files[n - 1]];
      LastEntries(files[..n - 1], files[n - 1]);
    }
  }

  // garbageRatio < 0.5 with both counts below 2^53; with no records the ratio is NaN, and
  // compaction goes ahead.
  predicate TooLittleGarbage(total: nat, live: nat) {
    total > 0 && 2 * (total - live) < total
  }

  // The disk that Compact leaves, with the given records for the compacted segment.
  function Compacted(d: Disk, current: nat, content: seq<Entry>, fuel: nat): Disk {
    var segments := SegmentsBut(d.files, current);
    var log := ReadSegments(d.files, segments);
    if |segments| < 2 || TooLittleGarbage(|log|, |BuildState(log)|) then d
    else Reached(d, CompactionOps(segments, content), fuel)
  }

  class Compactor {
    const dir: DataDir

    constructor (d: DataDir)
      ensures dir == d
    {
      dir := d;
    }

    method FindSegmentsToCompact(current: nat) returns (segments: seq<Name>)
      ensures segments == SegmentsBut(dir.disk.files, current)
    {
      segments := [];
      var files := dir.disk.files;
      for i := 0 to |files|
        invariant files == dir.disk.files
        invariant segments + SegmentsBut(files[i..], current) == SegmentsBut(files, current)
      {
        assert files[i..][1..] == files[i + 1..];
        if files[i].name != Name(current, 0) {
          segments := segments + [files[i].name];
        }
      }
      assert files[|files|..] == [];
    }

    // The callback that buildCurrentState runs on each record of a segment.
    method FoldSegment(before: KeyState, entries: seq<Entry>, ghost done: seq<Entry>) returns (state: KeyState)
      requires before == BuildState(done)
      ensures state == BuildState(done + entries)
    {
      state := before;
      assert done + entries[..0] == done;
      for j := 0 to |entries|
        invariant state == BuildState(done + entries[..j])
      {
        BuildStateOfNext(done, entries, j);
        var entry := entries[j];
        if IsWrite(entry) {
          if entry.key !in state || entry.timestamp > state[entry.key].timestamp {
            state := state[entry.key := entry];
          }
        } else if IsDelete(entry) {
          if entry.key in state && entry.timestamp > state[entry.key].timestamp {
            state := state - {entry.key};
          }
        }
      }
      assert entries[..|entries|] == entries;
    }

    method BuildCurrentState(segments: seq<Name>) returns (state: KeyState, total: nat)
      ensures state == BuildState(ReadSegments(dir.disk.files, segments))
      ensures total == |ReadSegments(dir.disk.files, segments)|
    {
      state, total := map[], 0;
      for i := 0 to |segments|
        invariant state == BuildState(ReadSegments(dir.disk.files, segments[..i]))
        invariant total == |ReadSegments(dir.disk.files, segments[..i])|
      {
        var entries := ReadSegment(dir.disk.files, segments[i]);
        ghost var done := ReadSegments(dir.disk.files, segments[..i]);
        assert segments[..i + 1][..i] == segments[..i];
        state := FoldSegment(state, entries, done);
        total := total + |entries|;
      }
      assert segments[..|segments|] == segments;
    }

    // One record per live key, in the order of the keys.
    method WriteCompactedSegment(state: KeyState) returns (content: seq<Entry>)
      requires forall k :: k in state ==> state[k].key == k
      ensures IsContent(content, state) && ByKey(content)
    {
      var keys := SortStrings(state.Keys);
      content := [];
      for i := 0 to |keys|
        invariant |content| == i && forall j :: 0 <= j < i ==> content[j] == state[keys[j]]
      {
        content := content + [state[keys[i]]];
      }
      forall k | k in state ensures state[k] in content {
        var j :| 0 <= j < |keys| && keys[j] == k;
        assert content[j] == state[k];
      }
    }

    method ReplaceSegments(segments: seq<Name>, compacted: Name)
      modifies dir
      ensures dir.disk == Reached(old(dir.disk),
                                  [WriteMarker(compacted)] + RemoveOps(segments) +
                                   [RenameFile(compacted, Unsuffixed(compacted)), RemoveMarker],
                                  old(dir.fuel))
    {
      var ops := [WriteMarker(compacted)] + RemoveOps(segments);
      dir.Perform(WriteMarker(compacted));
      dir.PerformAll(RemoveOps(segments));
      ReachedConcat(old(dir.disk), [WriteMarker(compacted)], RemoveOps(segments), old(dir.fuel));
      label removed:
      dir.Perform(RenameFile(compacted, Unsuffixed(compacted)));
      dir.Perform(RemoveMarker);
      ghost var rename := [RenameFile(compacted, Unsuffixed(compacted))];
      ReachedConcat(old@removed(dir.disk), rename, [RemoveMarker], old@removed(dir.fuel));
      ReachedConcat(old(dir.disk), ops, rename + [RemoveMarker], old(dir.fuel));
      assert rename + [RemoveMarker] == [RenameFile(compacted, Unsuffixed(compacted)), RemoveMarker];
    }

    // With `content` the compacted records: the disk a crash or normal end leaves.
    method Compact(current: nat) returns (ghost content: seq<Entry>)
      modifies dir
      ensures var segments := SegmentsBut(old(dir.disk.files), current);
              var log := ReadSegments(old(dir.disk.files), segments);
              && IsContent(content, BuildState(log)) && ByKey(content)
              && dir.disk == Compacted(old(dir.disk), current, content, old(dir.fuel))
    {
      var segments := FindSegmentsToCompact(current);
      var state, total := BuildCurrentState(segments);
      BuildStateKeys(ReadSegments(dir.disk.files, segments));
      var c := WriteCompactedSegment(state);
      content := c;
      if |segments| < 2 { return; }
      if TooLittleGarbage(total, |state|) { return; }
      var to := CompactedName(segments[0]);
      dir.Perform(Publish(to, c));
      ReplaceSegments(segments, to);
      ghost var rest := [WriteMarker(to)] + RemoveOps(segments) + [RenameFile(to, Unsuffixed(to)), RemoveMarker];
      ReachedConcat(old(dir.disk), [Publish(to, c)], rest, old(dir.fuel));
      assert [Publish(to, c)] + rest == CompactionOps(segments, c);
    }

    method RecoverFromInterruptedCompaction()
      modifies dir
      ensures dir.disk == Reached(old(dir.disk), RecoveryOps(old(dir.disk)), old(dir.fuel))
    {
      if dir.disk.marker.None? {
        assert RecoveryOps(dir.disk)[..0] == [];
        return;
      }
      var compacted := dir.disk.marker.value;
      if Lookup(dir.disk.files, compacted).Some? {
        dir.Perform(RenameFile(compacted, Unsuffixed(compacted)));
        ReachedConcat(old(dir.disk), [RenameFile(compacted, Unsuffixed(compacted))], [RemoveMarker], old(dir.fuel));
        assert [RenameFile(compacted, Unsuffixed(compacted))] + [RemoveMarker] == RecoveryOps(old(dir.disk));
      }
      dir.Perform(RemoveMarker);
    }
  }

  lemma BuildStateOfNext(done: seq<Entry>, entries: seq<Entry>, j: nat)
    requires j < |entries|
    ensures BuildState(done + entries[..j + 1]) == Fold(BuildState(done + entries[..j]), entries[j])
  {
    var all := done + entries[..j + 1];
    assert all[..|done| + j] == done + entries[..j] && all[|done| + j] == entries[j];
  }

  lemma {:induction false} BuildStateKeys(log: seq<Entry>)
    ensures forall k :: k in BuildState(log) ==> BuildState(log)[k].key == k
    decreases |log|
  {
    if log != [] { BuildStateKeys(log[..|log| - 1]); }
  }

  function Current(d: Disk): File
    requires d.files != []
  {
    d.files[|d.files| - 1]
  }

  // In the layout that every run keeps, Compact reads exactly the closed files.
  lemma CompactReadsClosed(d: Disk, current: nat)
    requires Layout(d.files, current)
    ensures SegmentsBut(d.files, current) == Names(Closed(d.files))
    ensures ReadSegments(d.files, SegmentsBut(d.files, current)) == LogOf(Closed(d.files))
  {
    var n := |d.files| - 1;
    var closed := Closed(d.files);
    assert d.files == closed + [d.files[n]];
    SegmentsAreClosed(closed, d.files[n], current) by {
      forall f | f in closed ensures f.name.id < current {
        var i :| 0 <= i < |closed| && closed[i] == f;
        assert d.files[i] == f;
      }
    }
    ReadingClosedSegments(d.files, n);
  }

  // A compaction of two or more segments that runs to its end rewrites them exactly when that
  // at least halves their records, so that afterwards they hold at most two records for each
  // live key.
  lemma CompactionHalvesIff(d: Disk, current: nat, content: seq<Entry>, fuel: nat)
    requires Layout(d.files, current) && |d.files| >= 3 && fuel >= |d.files| + 3
    requires IsContent(content, BuildState(LogOf(Closed(d.files)))) && ByKey(content)
    ensures var d' := Compacted(d, current, content, fuel);
            var log := LogOf(Closed(d.files));
            var live := |BuildState(log)|;
            && d'.files != [] && |LogOf(Closed(d'.files))| <= 2 * live
            && if 2 * live <= |log| then |content| == live && d'.files == [File(d.files[0].name, content), Current(d)]
               else d' == d
  {
    var closed, log := Closed(d.files), LogOf(Closed(d.files));
    CompactReadsClosed(d, current);
    BuildStateKeys(log);
    OneRecordPerKey(content, BuildState(log));
    if 2 * |BuildState(log)| <= |log| {
      var ops := CompactionOps(Names(closed), content);
      OpsAt(Names(closed), content, 0);
      CompactionReaches(d, content, current, |ops|);
      var last := [File(d.files[0].name, content), Current(d)];
      assert Closed(last) == [last[0]] && LogOf(Closed(last)) == content + LogOf([]);
    }
  }

  // So a crash anywhere inside Compact, with whatever came before, is a step of CrashSafety's
  // runs: the snapshot survives it.
  lemma CompactIsCrashSafe(d: Disk, current: nat, history: seq<Entry>, c: seq<Entry>, fuel: nat)
    requires Inv(d, current, history)
    requires var segments := SegmentsBut(d.files, current);
             |segments| >= 2 && IsContent(c, BuildState(ReadSegments(d.files, segments)))
    ensures var d' := Reached(d, CompactionOps(SegmentsBut(d.files, current), c), fuel);
            Inv(d', current, history) && Snapshot(LogOf(d'.files)) == Snapshot(LogOf(d.files))
  {
    var closed := Closed(d.files);
    CompactReadsClosed(d, current);
    var ops := CompactionOps(Names(closed), c);
    CompactionKeepsInv(d, current, history, c, if fuel < |ops| then fuel else |ops|);
    FaithfulSnapshot(LogOf(d.files), history);
    FaithfulSnapshot(LogOf(Reached(d, ops, fuel).files), history);
  }
}
