// What compaction does to the segment files, one file operation at a time, and why a crash
// between any two of them loses and revives nothing.
module CompactionSpec {
  import opened Wrappers
  import opened LogEntry

  type KeyState = map<seq<byte>, Entry>

  // buildCurrentState on one more record.
  function Fold(state: KeyState, e: Entry): KeyState {
    if IsWrite(e) then
      if e.key !in state || e.timestamp > state[e.key].timestamp then state[e.key := e] else state
    else if IsDelete(e) then
      if e.key in state && e.timestamp > state[e.key].timestamp then state - {e.key} else state
    else state
  }

  function BuildState(log: seq<Entry>): KeyState {
    if log == [] then map[] else Fold(BuildState(log[..|log| - 1]), log[|log| - 1])
  }

  // The records of a compacted segment: one per live key, in some order.
  ghost predicate IsContent(c: seq<Entry>, state: KeyState) {
    && (forall e :: e in c ==> e.key in state && state[e.key] == e)
    && (forall k :: k in state ==> state[k] in c)
  }

  predicate HoldsTop(state: KeyState, k: seq<byte>, t: Option<Entry>) {
    (k in state <==> Written(t)) && (k in state ==> state[k] == t.value)
  }

  // One more record keeps the fold exact, unless and only unless it is a late write.
  lemma FoldStaysExactIff(state: KeyState, log: seq<Entry>, e: Entry)
    requires HoldsTop(state, e.key, Top(log, e.key)) && UniqueTimes(log + [e])
    ensures HoldsTop(Fold(state, e), e.key, Top(log + [e], e.key)) <==> !LateWrite(log, e)
  {
    TopOfAppend(log, e, e.key);
    if Concerns(e, e.key) && Top(log, e.key).Some? {
      assert Top(log, e.key).value in log + [e] && e in log + [e];
    }
  }

  // For instance, compaction then revives the deleted key.
  lemma LateWriteIsRevived(k: seq<byte>, v: seq<byte>)
    ensures var log := [Entry(ENTRY_DELETE, 5, [], k, [], 0), Entry(ENTRY_WRITE, 3, [], k, v, 0)];
            k !in Snapshot(log) && k in BuildState(log)
  {
    var d, w := Entry(ENTRY_DELETE, 5, [], k, [], 0), Entry(ENTRY_WRITE, 3, [], k, v, 0);
    assert [d, w][..1] == [d] && [d][..0] == [];
    assert Top([d], k) == Some(d) && Top([d, w], k) == Some(d);
    assert BuildState([d]) == Fold(BuildState([]), d) && BuildState([d, w]) == Fold(BuildState([d]), w);
  }

  /* What the fold keeps, on any log */

  // w is written at i, and no newer delete of its key comes after.
  ghost predicate SurvivesAt(log: seq<Entry>, i: nat, w: Entry)
    requires i < |log|
  {
    log[i] == w && IsWrite(w) && !BuriedAt(log, i)
  }

  lemma BuriedByLast(log: seq<Entry>, n: nat, i: nat)
    requires i < n && |log| == n + 1
    ensures BuriedAt(log, i) <==> BuriedAt(log[..n], i) || Newer(log[n], log[i])
  {
    var before := log[..n];
    if j :| i < j < |before| && Newer(before[j], before[i]) { assert Newer(log[j], log[i]); }
    if j :| i < j < |log| && Newer(log[j], log[i]) && j < n { assert Newer(before[j], before[i]); }
  }

  // A write that no newer delete follows keeps its key in the fold.
  lemma {:induction false} SurvivorIsKept(log: seq<Entry>, i: nat)
    requires i < |log| && SurvivesAt(log, i, log[i])
    ensures log[i].key in BuildState(log) && BuildState(log)[log[i].key].timestamp >= log[i].timestamp
    decreases |log|
  {
    var n := |log| - 1;
    if i < n {
      BuriedByLast(log, n, i);
      SurvivorIsKept(log[..n], i);
    }
  }

  // No write of the key that survives before i has as late a timestamp.
  ghost predicate IsFirst(log: seq<Entry>, i: nat)
    requires i < |log|
  {
    forall j :: 0 <= j < i && log[j].key == log[i].key && SurvivesAt(log, j, log[j]) ==>
      log[j].timestamp < log[i].timestamp
  }

  // Whatever the fold keeps for a key is a write of it that no newer delete follows, and of
  // those with one timestamp the first.
  lemma {:induction false} KeptSurvives(log: seq<Entry>, k: seq<byte>) returns (i: nat)
    requires k in BuildState(log)
    ensures i < |log| && SurvivesAt(log, i, BuildState(log)[k]) && log[i].key == k && IsFirst(log, i)
    decreases |log|
  {
    var n := |log| - 1;
    var before := log[..n];
    if k in BuildState(before) && BuildState(log)[k] == BuildState(before)[k] {
      i := KeptSurvives(before, k);
      BuriedByLast(log, n, i);
      FirstStays(log, n, i);
    } else {
      i := n;
      forall j | 0 <= j < i && log[j].key == log[i].key && SurvivesAt(log, j, log[j])
        ensures log[j].timestamp < log[i].timestamp
      {
        BuriedByLast(log, n, j);
        SurvivorIsKept(before, j);
      }
    }
  }

  lemma FirstStays(log: seq<Entry>, n: nat, i: nat)
    requires i < n && |log| == n + 1 && IsFirst(log[..n], i)
    ensures IsFirst(log, i)
  {
    var before := log[..n];
    forall j | 0 <= j < i && log[j].key == log[i].key && SurvivesAt(log, j, log[j])
      ensures log[j].timestamp < log[i].timestamp
    {
      BuriedByLast(log, n, j);
      assert before[j] == log[j] && before[i] == log[i] && SurvivesAt(before, j, before[j]);
    }
  }

  // Record i is the first of the newest writes of its key that survive.
  ghost predicate IsKept(log: seq<Entry>, i: nat)
    requires i < |log|
  {
    && SurvivesAt(log, i, log[i]) && IsFirst(log, i)
    && forall j :: 0 <= j < |log| && log[j].key == log[i].key && SurvivesAt(log, j, log[j]) ==>
         log[j].timestamp <= log[i].timestamp
  }

  // What the fold keeps, exactly, on any log, whatever its order and its timestamps.
  lemma KeptIff(log: seq<Entry>, i: nat)
    requires i < |log|
    ensures IsKept(log, i) ==> log[i].key in BuildState(log) && BuildState(log)[log[i].key] == log[i]
    ensures forall k :: k in BuildState(log) ==> exists j: nat :: j < |log| && IsKept(log, j) && log[j].key == k
  {
    if IsKept(log, i) {
      SurvivorIsKept(log, i);
      var j := KeptSurvives(log, log[i].key);
      assert j <= i && i <= j;
    }
    forall k | k in BuildState(log) ensures exists j: nat :: j < |log| && IsKept(log, j) && log[j].key == k {
      var j := KeptSurvives(log, k);
      forall l | 0 <= l < |log| && log[l].key == k && SurvivesAt(log, l, log[l])
        ensures log[l].timestamp <= log[j].timestamp
      {
        SurvivorIsKept(log, l);
      }
      assert IsKept(log, j);
    }
  }

  // Every late write is revived by a compaction of the log it ends, whatever came before.
  lemma EveryLateWriteIsRevived(log: seq<Entry>, history: seq<Entry>, e: Entry)
    requires Faithful(log, history) && LateWrite(history, e)
    ensures e.key !in Snapshot(history + [e]) && e.key in BuildState(log + [e])
  {
    TopOfAppend(history, e, e.key);
    assert !BuriedAt(log + [e], |log|);
    SurvivorIsKept(log + [e], |log|);
  }

  lemma TopIsNotBuried(log: seq<Entry>, k: seq<byte>, i: nat)
    requires i < |log| && Top(log, k) == Some(log[i])
    ensures !BuriedAt(log, i)
  {
    forall j | i < j < |log| ensures !Newer(log[j], log[i]) {
      assert log[j] in log;
    }
  }

  // The newest record of a key is kept if it is a write, in whatever order the log came.
  lemma LiveTopIsKept(log: seq<Entry>, k: seq<byte>)
    requires UniqueTimes(log) && Written(Top(log, k))
    ensures k in BuildState(log) && BuildState(log)[k] == Top(log, k).value
  {
    var i :| 0 <= i < |log| && log[i] == Top(log, k).value;
    TopIsNotBuried(log, k, i);
    SurvivorIsKept(log, i);
    var j := KeptSurvives(log, k);
    assert log[j] in log && Concerns(log[j], k);
  }

  // On any log, folding finds a key's newest record, and keeps it when it is a write, exactly
  // when it is one or every write of the key is followed by a newer delete.
  lemma BuildStateFindsTopIff(log: seq<Entry>, k: seq<byte>)
    requires UniqueTimes(log)
    ensures HoldsTop(BuildState(log), k, Top(log, k)) <==> Written(Top(log, k)) || Buried(log, k)
  {
    if Written(Top(log, k)) {
      LiveTopIsKept(log, k);
    } else if k in BuildState(log) {
      var i := KeptSurvives(log, k);
    } else {
      forall i | 0 <= i < |log| && IsWrite(log[i]) && log[i].key == k ensures BuriedAt(log, i) {
        if !BuriedAt(log, i) { SurvivorIsKept(log, i); }
      }
    }
  }

  /* Putting the compacted records in front, and dropping what they stand for */

  lemma ContentIsWrites(c: seq<Entry>, s: seq<Entry>)
    requires IsContent(c, BuildState(s))
    ensures forall e :: e in c ==> IsWrite(e) && e in s
  {
    forall e | e in c ensures IsWrite(e) && e in s {
      var i := KeptSurvives(s, e.key);
    }
  }

  // A compacted record is followed in the rest of the log by whatever buried it there.
  lemma BuriedInRest(s: seq<Entry>, r: seq<Entry>, w: Entry) returns (d: Entry)
    requires w.key in BuildState(s) && BuildState(s)[w.key] == w && Buried(s + r, w.key)
    ensures d in r && Newer(d, w)
  {
    var i := KeptSurvives(s, w.key);
    var log := s + r;
    assert log[i] == s[i] && BuriedAt(log, i);
    forall j | i < j < |s| ensures !Newer(log[j], log[i]) { assert !Newer(s[j], s[i]); }
    var j :| i < j < |log| && Newer(log[j], log[i]);
    d := log[j];
  }

  // Writes in front of a log in which their key is buried, each with a newer delete there.
  lemma FrontIsBuried(c: seq<Entry>, x: seq<Entry>, k: seq<byte>)
    requires Buried(x, k) && forall w :: w in c && w.key == k ==> exists d :: d in x && Newer(d, w)
    ensures Buried(c + x, k)
  {
    var log := c + x;
    forall i | 0 <= i < |log| && IsWrite(log[i]) && log[i].key == k ensures BuriedAt(log, i) {
      if i < |c| {
        assert log[i] in c;
        var d :| d in x && Newer(d, log[i]);
        var j :| 0 <= j < |x| && x[j] == d;
        assert Newer(log[|c| + j], log[i]);
      } else {
        assert BuriedAt(x, i - |c|);
        var j :| i - |c| < j < |x| && Newer(x[j], x[i - |c|]);
        assert Newer(log[|c| + j], log[i]);
      }
    }
  }

  lemma SuffixIsBuried(s: seq<Entry>, t: seq<Entry>, k: seq<byte>)
    requires Buried(s + t, k)
    ensures Buried(t, k)
  {
    forall i | 0 <= i < |t| && IsWrite(t[i]) && t[i].key == k ensures BuriedAt(t, i) {
      assert (s + t)[|s| + i] == t[i] && BuriedAt(s + t, |s| + i);
      var j :| |s| + i < j < |s + t| && Newer((s + t)[j], (s + t)[|s| + i]);
      assert Newer(t[j - |s|], t[i]);
    }
  }

  // Compacted records of the prefix s, put before any log x that is itself faithful and
  // still holds the rest r, change nothing.
  lemma FrontKeepsFaithful(c: seq<Entry>, s: seq<Entry>, r: seq<Entry>, x: seq<Entry>, history: seq<Entry>)
    requires Faithful(s + r, history) && Faithful(x, history) && UniqueTimes(history)
    requires IsContent(c, BuildState(s)) && forall e :: e in r ==> e in x
    ensures Faithful(c + x, history)
  {
    ContentIsWrites(c, s);
    assert forall e :: e in s ==> e in s + r;
    forall k ensures StandsFor(c + x, history, k) {
      FrontStandsFor(c, s, r, x, history, k);
    }
  }

  lemma FrontStandsFor(c: seq<Entry>, s: seq<Entry>, r: seq<Entry>, x: seq<Entry>, history: seq<Entry>, k: seq<byte>)
    requires Faithful(s + r, history) && StandsFor(x, history, k) && UniqueTimes(history)
    requires (forall e :: e in c + x ==> e in history) && IsContent(c, BuildState(s)) && forall e :: e in r ==> e in x
    ensures StandsFor(c + x, history, k)
  {
    assert StandsFor(s + r, history, k);
    if Written(Top(history, k)) {
      TopIsTheNewest(c + x, k, Top(history, k).value);
    } else {
      forall w | w in c && w.key == k ensures exists d :: d in x && Newer(d, w) {
        var d := BuriedInRest(s, r, w);
      }
      FrontIsBuried(c, x, k);
    }
  }

  // A key's live record is among the compacted records or in what is left.
  lemma LiveRecordIsLeft(c: seq<Entry>, s1: seq<Entry>, s2: seq<Entry>, r: seq<Entry>, k: seq<byte>)
    requires UniqueTimes(s1 + s2 + r) && IsContent(c, BuildState(s1 + s2)) && Written(Top(s1 + s2 + r, k))
    ensures Top(s1 + s2 + r, k).value in c + (s2 + r)
  {
    var s, log := s1 + s2, s1 + s2 + r;
    var m := Top(log, k).value;
    if m in s {
      assert forall e :: e in s ==> e in log;
      TopIsTheNewest(s, k, m);
      LiveTopIsKept(s, k);
    }
  }

  // With the compacted records in front, the records they were made from can go, oldest
  // files first: s1 already removed, s2 still there.
  lemma DroppingOldestIsFaithful(c: seq<Entry>, s1: seq<Entry>, s2: seq<Entry>, r: seq<Entry>, history: seq<Entry>)
    requires Faithful(s1 + s2 + r, history) && UniqueTimes(history) && IsContent(c, BuildState(s1 + s2))
    ensures Faithful(c + (s2 + r), history)
  {
    var log := s1 + s2 + r;
    ContentIsWrites(c, s1 + s2);
    assert forall e :: e in s1 + s2 || e in s2 + r ==> e in log;
    forall k ensures StandsFor(c + (s2 + r), history, k) {
      DroppingOldestAt(c, s1, s2, r, history, k);
    }
  }

  lemma DroppingOldestAt(c: seq<Entry>, s1: seq<Entry>, s2: seq<Entry>, r: seq<Entry>, history: seq<Entry>,
                         k: seq<byte>)
    requires StandsFor(s1 + s2 + r, history, k) && UniqueTimes(history) && IsContent(c, BuildState(s1 + s2))
    requires forall e :: e in s1 + s2 + r || e in c + (s2 + r) ==> e in history
    ensures StandsFor(c + (s2 + r), history, k)
  {
    if Written(Top(history, k)) {
      LiveRecordIsLeft(c, s1, s2, r, k);
      TopIsTheNewest(c + (s2 + r), k, Top(history, k).value);
    } else {
      assert s1 + s2 + r == s1 + (s2 + r);
      SuffixIsBuried(s1, s2 + r, k);
      forall w | w in c && w.key == k ensures exists d :: d in s2 + r && Newer(d, w) {
        var d := BuriedInRest(s1 + s2, r, w);
        assert d in s2 + r;
      }
      FrontIsBuried(c, s2 + r, k);
    }
  }

  /* The data directory */

  // A segment file's name: a 16-digit id, then any number of ".compacted", then ".log".
  datatype Name = Name(id: nat, depth: nat)

  // The order sort.Strings puts such names in: ".compacted..." sorts before ".log".
  predicate Before(a: Name, b: Name) {
    a.id < b.id || (a.id == b.id && a.depth > b.depth)
  }

  // A file's contents are its records, or its bytes.
  datatype NamedFile<T> = File(name: Name, content: T)

  // The segment files in name order, and the .compaction_in_progress marker.
  datatype Directory<T> = Disk(files: seq<NamedFile<T>>, marker: Option<Name>)

  type File = NamedFile<seq<Entry>>
  type Disk = Directory<seq<Entry>>

  // A file operation that takes effect whole or not at all.  Publish is the rename of the
  // fully written and synced temporary file to its segment name.
  datatype FileOp<T> =
    | Publish(name: Name, content: T)
    | WriteMarker(name: Name)
    | RemoveFile(name: Name)
    | RenameFile(from: Name, to: Name)
    | RemoveMarker

  type DiskOp = FileOp<seq<Entry>>

  function Put<T>(files: seq<NamedFile<T>>, f: NamedFile<T>): seq<NamedFile<T>> {
    if files == [] then [f]
    else if f.name == files[0].name then [f] + files[1..]
    else if Before(f.name, files[0].name) then [f] + files
    else [files[0]] + Put(files[1..], f)
  }

  function Remove<T>(files: seq<NamedFile<T>>, name: Name): seq<NamedFile<T>> {
    if files == [] then []
    else if files[0].name == name then files[1..]
    else [files[0]] + Remove(files[1..], name)
  }

  function Lookup<T>(files: seq<NamedFile<T>>, name: Name): Option<T> {
    if files == [] then None
    else if files[0].name == name then Some(files[0].content)
    else Lookup(files[1..], name)
  }

  function Do<T>(d: Directory<T>, op: FileOp<T>): Directory<T> {
    match op
    case Publish(n, es) => d.(files := Put(d.files, File(n, es)))
    case WriteMarker(n) => d.(marker := Some(n))
    case RemoveFile(n) => d.(files := Remove(d.files, n))
    case RenameFile(a, b) =>
      if Lookup(d.files, a).None? then d
      else d.(files := Put(Remove(d.files, a), File(b, Lookup(d.files, a).value)))
    case RemoveMarker => d.(marker := None)
  }

  function DoAll<T>(d: Directory<T>, ops: seq<FileOp<T>>): Directory<T> {
    if ops == [] then d else Do(DoAll(d, ops[..|ops| - 1]), ops[|ops| - 1])
  }

  function LogOf(files: seq<File>): seq<Entry> {
    if files == [] then [] else files[0].content + LogOf(files[1..])
  }

  ghost predicate Sorted(files: seq<File>) {
    forall i, j :: 0 <= i < j < |files| ==> Before(files[i].name, files[j].name)
  }

  // strings.Replace(name, ".compacted", "", 1)
  function Unsuffixed(n: Name): Name {
    Name(n.id, if n.depth > 0 then n.depth - 1 else 0)
  }

  // strings.TrimSuffix(oldest, ".log") + ".compacted.log"
  function CompactedName(oldest: Name): Name {
    Name(oldest.id, oldest.depth + 1)
  }

  function Names(files: seq<File>): seq<Name> {
    seq(|files|, i requires 0 <= i < |files| => files[i].name)
  }

  function RemoveOps(names: seq<Name>): seq<DiskOp> {
    seq(|names|, i requires 0 <= i < |names| => RemoveFile(names[i]))
  }

  // writeCompactedSegment and replaceSegments, with the compacted records c.
  function CompactionOps(segments: seq<Name>, c: seq<Entry>): seq<DiskOp>
    requires segments != []
  {
    var to := CompactedName(segments[0]);
    [Publish(to, c), WriteMarker(to)] + RemoveOps(segments) + [RenameFile(to, Unsuffixed(to)), RemoveMarker]
  }

  function RecoveryOps(d: Disk): seq<DiskOp> {
    match d.marker
    case None => []
    case Some(c) =>
      if Lookup(d.files, c).Some? then [RenameFile(c, Unsuffixed(c)), RemoveMarker] else [RemoveMarker]
  }
}
