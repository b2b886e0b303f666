// The order that compaction writes keys in.
module KeyOrder {
  import opened Wrappers
  import opened LogEntry
  import opened CompactionSpec

  // The order of Go strings: byte by byte, a proper prefix first.
  predicate Less(a: seq<byte>, b: seq<byte>) {
    b != [] && (a == [] || a[0] < b[0] || (a[0] == b[0] && Less(a[1..], b[1..])))
  }

  // The strings agree up to i, and there the first one ends or has the smaller byte.
  ghost predicate LessAt(a: seq<byte>, b: seq<byte>, i: nat) {
    i <= |a| && i < |b| && a[..i] == b[..i] && (i == |a| || a[i] < b[i])
  }

  lemma LessAtMoves(a: seq<byte>, b: seq<byte>, i: nat, after: nat)
    requires a != [] && b != [] && a[0] == b[0] && after == i + 1
    ensures LessAt(a[1..], b[1..], i) <==> LessAt(a, b, after)
  {
    if after <= |a| && after < |b| {
      assert a[..after] == [a[0]] + a[1..][..i] && b[..after] == [b[0]] + b[1..][..i];
      assert a[1..][..i] == a[..after][1..] && b[1..][..i] == b[..after][1..];
    }
  }

  lemma {:induction false} LessIff(a: seq<byte>, b: seq<byte>)
    ensures Less(a, b) <==> exists i: nat :: LessAt(a, b, i)
  {
    if a != [] && b != [] && a[0] == b[0] {
      LessIff(a[1..], b[1..]);
      if i: nat :| LessAt(a[1..], b[1..], i) { LessAtMoves(a, b, i, i + 1); }
      if i: nat :| LessAt(a, b, i) { LessAtMoves(a, b, i - 1, i); }
    } else if b != [] && (a == [] || a[0] < b[0]) {
      assert LessAt(a, b, 0);
    } else {
      forall i: nat ensures !LessAt(a, b, i) {
        assert 0 < i <= |a| && i < |b| ==> a[..i][0] == a[0] && b[..i][0] == b[0];
      }
    }
  }

  lemma {:induction false} LessIsTotal(a: seq<byte>, b: seq<byte>)
    ensures Less(a, b) || a == b || Less(b, a)
  {
    if a != [] && b != [] && a[0] == b[0] {
      LessIsTotal(a[1..], b[1..]);
      assert a == [a[0]] + a[1..] && b == [b[0]] + b[1..];
    }
  }

  lemma {:induction false} LessIsTransitive(a: seq<byte>, b: seq<byte>, c: seq<byte>)
    requires Less(a, b) && Less(b, c)
    ensures Less(a, c)
  {
    if a != [] && a[0] == b[0] == c[0] { LessIsTransitive(a[1..], b[1..], c[1..]); }
  }

  ghost predicate Ascending(keys: seq<seq<byte>>) {
    forall i, j :: 0 <= i < j < |keys| ==> Less(keys[i], keys[j])
  }

  ghost predicate ByKey(content: seq<Entry>) {
    forall i, j :: 0 <= i < j < |content| ==> Less(content[i].key, content[j].key)
  }

  function Insert(keys: seq<seq<byte>>, k: seq<byte>): seq<seq<byte>> {
    if keys == [] || Less(k, keys[0]) then [k] + keys else [keys[0]] + Insert(keys[1..], k)
  }

  lemma {:induction false} InsertedKeys(keys: seq<seq<byte>>, k: seq<byte>, x: seq<byte>)
    ensures x in Insert(keys, k) <==> x in keys || x == k
  {
    if keys != [] && !Less(k, keys[0]) {
      InsertedKeys(keys[1..], k, x);
      assert keys == [keys[0]] + keys[1..];
    }
  }

  lemma {:induction false} InsertAscends(keys: seq<seq<byte>>, k: seq<byte>)
    requires Ascending(keys) && k !in keys
    ensures Ascending(Insert(keys, k))
  {
    if keys != [] && Less(k, keys[0]) {
      forall j | 0 < j < |keys| ensures Less(k, keys[j]) { LessIsTransitive(k, keys[0], keys[j]); }
    } else if keys != [] {
      InsertAscends(keys[1..], k);
      LessIsTotal(keys[0], k);
      var rest := Insert(keys[1..], k);
      forall j | 0 <= j < |rest| ensures Less(keys[0], rest[j]) { InsertedKeys(keys[1..], k, rest[j]); }
    }
  }

  // Stands for sort.Strings on a map's keys, which come in any order.
  method SortStrings(keys: set<seq<byte>>) returns (sorted: seq<seq<byte>>)
    ensures Ascending(sorted) && forall k :: k in sorted <==> k in keys
  {
    sorted := [];
    var todo := keys;
    while todo != {}
      invariant todo <= keys && Ascending(sorted) && forall k :: k in sorted <==> k in keys && k !in todo
      decreases todo
    {
      var k :| k in todo;
      forall x ensures x in Insert(sorted, k) <==> x in sorted || x == k { InsertedKeys(sorted, k, x); }
      InsertAscends(sorted, k);
      sorted := Insert(sorted, k);
      todo := todo - {k};
    }
  }

  // Sorted by key, the compacted records are one list: the state leaves no choice.
  lemma ContentIsUnique(a: seq<Entry>, b: seq<Entry>, state: KeyState)
    requires IsContent(a, state) && IsContent(b, state) && ByKey(a) && ByKey(b)
    ensures a == b
  {
    SameKeysSameContent(a, b);
  }

  lemma {:induction false} LessIsIrreflexive(a: seq<byte>)
    ensures !Less(a, a)
  {
    if a != [] { LessIsIrreflexive(a[1..]); }
  }

  // So it holds one record for each live key.
  lemma {:induction false} OneRecordPerKey(c: seq<Entry>, state: KeyState)
    requires IsContent(c, state) && ByKey(c) && forall k :: k in state ==> state[k].key == k
    ensures |c| == |state|
  {
    var keys := set i | 0 <= i < |c| :: c[i].key;
    KeysAreDistinct(c);
    assert keys == state.Keys by {
      forall k | k in state ensures k in keys {
        var i :| 0 <= i < |c| && c[i] == state[k];
        assert c[i].key in keys;
      }
      forall k | k in keys ensures k in state {
        var i :| 0 <= i < |c| && c[i].key == k;
        assert c[i] in c;
      }
    }
  }

  lemma {:induction false} KeysAreDistinct(c: seq<Entry>)
    requires ByKey(c)
    ensures |set i | 0 <= i < |c| :: c[i].key| == |c|
  {
    var keys := set i | 0 <= i < |c| :: c[i].key;
    if c != [] {
      var n := |c| - 1;
      var front := set i | 0 <= i < n :: c[..n][i].key;
      KeysAreDistinct(c[..n]);
      LessIsIrreflexive(c[n].key);
      assert front == set i | 0 <= i < |c[..n]| :: c[..n][i].key;
      assert c[n].key !in front;
      assert keys == front + {c[n].key};
    }
  }

  lemma EmptyTogether(a: seq<Entry>, b: seq<Entry>)
    requires forall e :: e in a <==> e in b
    ensures a == [] <==> b == []
  {
    if a != [] { assert a[0] in a; }
    if b != [] { assert b[0] in b; }
  }

  lemma FirstsAlike(a: seq<Entry>, b: seq<Entry>)
    requires a != [] && b != [] && ByKey(a) && ByKey(b) && forall e :: e in a <==> e in b
    ensures a[0] == b[0]
  {
    assert a[0] in a && b[0] in b;
    var i :| 0 <= i < |b| && b[i] == a[0];
    var j :| 0 <= j < |a| && a[j] == b[0];
    LessIsIrreflexive(a[0].key);
    if i > 0 && j > 0 { LessIsTransitive(a[0].key, b[0].key, a[0].key); }
  }

  lemma {:induction false} SameKeysSameContent(a: seq<Entry>, b: seq<Entry>)
    requires ByKey(a) && ByKey(b) && forall e :: e in a <==> e in b
    ensures a == b
  {
    EmptyTogether(a, b);
    if a != [] {
      FirstsAlike(a, b);
      TailsAlike(a, b);
      SameKeysSameContent(a[1..], b[1..]);
    }
  }

  lemma TailsAlike(a: seq<Entry>, b: seq<Entry>)
    requires a != [] && b != [] && a[0] == b[0] && ByKey(a) && ByKey(b) && forall e :: e in a <==> e in b
    ensures forall e :: e in a[1..] <==> e in b[1..]
  {
    LessIsIrreflexive(a[0].key);
    forall e ensures e in a[1..] <==> e in b[1..] {
      if e in a[1..] { InTail(a, b, e); }
      if e in b[1..] { InTail(b, a, e); }
    }
  }

  lemma InTail(a: seq<Entry>, b: seq<Entry>, e: Entry)
    requires a != [] && b != [] && a[0] == b[0] && ByKey(a) && e in a[1..] && e in b && !Less(a[0].key, a[0].key)
    ensures e in b[1..]
  {
    var i :| 0 <= i < |a[1..]| && a[1..][i] == e;
    assert Less(a[0].key, a[i + 1].key);
    assert b == [b[0]] + b[1..];
  }
}
