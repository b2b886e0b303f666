// Commit log records, and what a list of them means.
module LogEntry {
  import opened Wrappers

  const ENTRY_WRITE: byte := 1
  const ENTRY_DELETE: byte := 2

  datatype Entry =
    Entry(typ: byte, timestamp: int64, operation: seq<byte>, key: seq<byte>, value: seq<byte>, crc: uint32)

  predicate IsWrite(e: Entry) {
    e.typ == ENTRY_WRITE
  }

  predicate IsDelete(e: Entry) {
    e.typ == ENTRY_DELETE
  }

  // Records of any other type are read and ignored.
  predicate Concerns(e: Entry, k: seq<byte>) {
    e.key == k && (IsWrite(e) || IsDelete(e))
  }

  // The newest record of a key; among equal timestamps, the last in the list.
  function Top(log: seq<Entry>, k: seq<byte>): (t: Option<Entry>)
    ensures t.None? ==> forall e :: e in log ==> !Concerns(e, k)
    ensures t.Some? ==> t.value in log && Concerns(t.value, k)
    ensures t.Some? ==> forall e :: e in log && Concerns(e, k) ==> e.timestamp <= t.value.timestamp
  {
    if log == [] then None
    else
      var n := |log| - 1;
      var t := Top(log[..n], k);
      if Concerns(log[n], k) && (t.None? || log[n].timestamp >= t.value.timestamp) then Some(log[n]) else t
  }

  predicate Written(t: Option<Entry>) {
    t.Some? && IsWrite(t.value)
  }

  function Keys(log: seq<Entry>): set<seq<byte>> {
    set i | 0 <= i < |log| :: log[i].key
  }

  // The live keys and their values.
  function Snapshot(log: seq<Entry>): map<seq<byte>, seq<byte>> {
    map k | k in Keys(log) && Written(Top(log, k)) :: Top(log, k).value.value
  }

  // Two records of one key with one timestamp are the same record.
  ghost predicate UniqueTimes(log: seq<Entry>) {
    forall a, b, k :: a in log && b in log && Concerns(a, k) && Concerns(b, k) && a.timestamp == b.timestamp ==> a == b
  }

  predicate Newer(d: Entry, w: Entry) {
    IsDelete(d) && d.key == w.key && d.timestamp > w.timestamp
  }

  // A newer delete of its key comes after record i.
  ghost predicate BuriedAt(log: seq<Entry>, i: nat)
    requires i < |log|
  {
    exists j :: i < j < |log| && Newer(log[j], log[i])
  }

  // Every write of the key is buried.
  ghost predicate Buried(log: seq<Entry>, k: seq<byte>) {
    forall i :: 0 <= i < |log| && IsWrite(log[i]) && log[i].key == k ==> BuriedAt(log, i)
  }

  // The log holds the live record of a key that has one; of any other key it holds only
  // buried writes.
  ghost predicate StandsFor(log: seq<Entry>, history: seq<Entry>, k: seq<byte>) {
    if Written(Top(history, k)) then Top(log, k) == Top(history, k) else Buried(log, k)
  }

  // log stands for history: it invents nothing, keeps every live record, and can revive nothing.
  ghost predicate Faithful(log: seq<Entry>, history: seq<Entry>) {
    (forall e :: e in log ==> e in history) && forall k :: StandsFor(log, history, k)
  }

  lemma TopIsTheNewest(log: seq<Entry>, k: seq<byte>, m: Entry)
    requires UniqueTimes(log) && m in log && Concerns(m, k)
    requires forall e :: e in log && Concerns(e, k) ==> e.timestamp <= m.timestamp
    ensures Top(log, k) == Some(m)
  {
    var t := Top(log, k);
    assert t.Some? && t.value.timestamp == m.timestamp;
  }

  lemma TopKey(log: seq<Entry>, k: seq<byte>)
    ensures Written(Top(log, k)) ==> k in Keys(log)
  {
    if Written(Top(log, k)) {
      var i :| 0 <= i < |log| && log[i] == Top(log, k).value;
    }
  }

  lemma BuriedHasNewer(log: seq<Entry>, w: Entry)
    requires Buried(log, w.key) && w in log && IsWrite(w)
    ensures exists d :: d in log && Newer(d, w)
  {
    var i :| 0 <= i < |log| && log[i] == w;
    assert BuriedAt(log, i);
  }

  lemma BuriedIsDead(log: seq<Entry>, k: seq<byte>)
    requires Buried(log, k)
    ensures !Written(Top(log, k))
  {
    if Written(Top(log, k)) { BuriedHasNewer(log, Top(log, k).value); }
  }

  lemma FaithfulAt(log: seq<Entry>, history: seq<Entry>, k: seq<byte>)
    requires Faithful(log, history)
    ensures Written(Top(log, k)) || Written(Top(history, k)) ==> Top(log, k) == Top(history, k)
  {
    assert StandsFor(log, history, k);
    if !Written(Top(history, k)) { BuriedIsDead(log, k); }
  }

  // A faithful log recovers exactly the history's snapshot.
  lemma FaithfulSnapshot(log: seq<Entry>, history: seq<Entry>)
    requires Faithful(log, history)
    ensures Snapshot(log) == Snapshot(history)
  {
    forall k ensures k in Snapshot(log) <==> k in Snapshot(history) {
      FaithfulAt(log, history, k);
      TopKey(log, k);
      TopKey(history, k);
    }
    forall k | k in Snapshot(log) ensures Snapshot(log)[k] == Snapshot(history)[k] {
      FaithfulAt(log, history, k);
    }
  }

  // A write that reaches the log when its key's newest record is a newer delete.
  predicate LateWrite(history: seq<Entry>, e: Entry) {
    IsWrite(e) && Top(history, e.key).Some? && Newer(Top(history, e.key).value, e)
  }

  // What the writer must respect when it appends e: timestamps are unique per key, and e is
  // no late write.
  ghost predicate Appendable(history: seq<Entry>, e: Entry) {
    UniqueTimes(history + [e]) && !LateWrite(history, e)
  }

  lemma TopOfAppend(log: seq<Entry>, e: Entry, k: seq<byte>)
    ensures Top(log + [e], k) ==
            if Concerns(e, k) && (Top(log, k).None? || e.timestamp >= Top(log, k).value.timestamp) then Some(e)
            else Top(log, k)
  {
    assert (log + [e])[..|log|] == log;
  }

  lemma BuriedStays(log: seq<Entry>, e: Entry, k: seq<byte>)
    requires Buried(log, k) && !(IsWrite(e) && e.key == k)
    ensures Buried(log + [e], k)
  {
    var all := log + [e];
    forall i | 0 <= i < |all| && IsWrite(all[i]) && all[i].key == k ensures BuriedAt(all, i) {
      assert all[i] == log[i] && BuriedAt(log, i);
      var j :| i < j < |log| && Newer(log[j], log[i]);
      assert Newer(all[j], all[i]);
    }
  }

  // A delete newer than every write of its key buries them.
  lemma DeleteBuries(log: seq<Entry>, e: Entry)
    requires IsDelete(e) && forall w :: w in log && IsWrite(w) && w.key == e.key ==> w.timestamp < e.timestamp
    ensures Buried(log + [e], e.key)
  {
    var all := log + [e];
    forall i | 0 <= i < |all| && IsWrite(all[i]) && all[i].key == e.key ensures BuriedAt(all, i) {
      assert all[i] == log[i] && Newer(all[|log|], all[i]);
    }
  }

  // One more record, when it is the history's newest of its key.
  lemma NewestAppend(log: seq<Entry>, history: seq<Entry>, e: Entry, k: seq<byte>)
    requires Faithful(log, history) && UniqueTimes(history + [e]) && Concerns(e, k) && Top(history + [e], k) == Some(e)
    ensures StandsFor(log + [e], history + [e], k)
  {
    var all := history + [e];
    assert e in all && forall x :: x in log ==> x in all;
    if IsWrite(e) {
      TopOfAppend(log, e, k);
    } else {
      forall w | w in log && IsWrite(w) && w.key == k ensures w.timestamp < e.timestamp {
        assert w in all && Concerns(w, k) && w != e;
      }
      DeleteBuries(log, e);
    }
  }

  lemma AppendAt(log: seq<Entry>, history: seq<Entry>, e: Entry, k: seq<byte>)
    requires Faithful(log, history) && Appendable(history, e)
    ensures StandsFor(log + [e], history + [e], k)
  {
    TopOfAppend(history, e, k);
    assert StandsFor(log, history, k);
    if Concerns(e, k) && Top(history + [e], k) == Some(e) {
      NewestAppend(log, history, e, k);
    } else if Written(Top(history, k)) {
      TopOfAppend(log, e, k);
    } else {
      BuriedStays(log, e, k);
    }
  }

  lemma FaithfulAppend(log: seq<Entry>, history: seq<Entry>, e: Entry)
    requires Faithful(log, history) && Appendable(history, e)
    ensures Faithful(log + [e], history + [e])
  {
    forall k ensures StandsFor(log + [e], history + [e], k) {
      AppendAt(log, history, e, k);
    }
  }

  // Appending keeps a log faithful exactly when the record is no late write.
  lemma AppendIsFaithfulIff(log: seq<Entry>, history: seq<Entry>, e: Entry)
    requires Faithful(log, history) && UniqueTimes(history + [e])
    ensures Faithful(log + [e], history + [e]) <==> !LateWrite(history, e)
  {
    if LateWrite(history, e) {
      TopOfAppend(history, e, e.key);
      assert !BuriedAt(log + [e], |log|);
      assert !StandsFor(log + [e], history + [e], e.key);
    } else {
      FaithfulAppend(log, history, e);
    }
  }
}
