// The memory and key counters of a string-only store, and what the string operations do to
// them.  Counters are taken not to overflow.
module AccountingSpec {
  import opened Wrappers
  import opened Integers
  import LwwSpec

  type Stamp = LwwSpec.Stamp

  const NO_STAMP := LwwSpec.ZERO_STAMP

  datatype StoredValue = StoredValue(text: seq<byte>, memorySize: nat, hlc: Stamp)

  datatype Shard =
    Shard(data: map<seq<byte>, StoredValue>, tombstones: map<seq<byte>, Stamp>, keyCount: int, memoryUsage: int)

  datatype Keyspace = Keyspace(shards: seq<Shard>, totalKeys: int, totalMemory: int)

  // structSize is the size of a stored value's record, which an unsized value is charged.
  datatype Limits = Limits(maxKeySize: int, maxValueSize: int, maxMemoryUsage: int, structSize: nat)

  datatype Op =
    | Set(key: seq<byte>, value: seq<byte>)
    | SetWithOptions(key: seq<byte>, value: seq<byte>, nx: bool, xx: bool)
    | SetWithHLC(key: seq<byte>, value: seq<byte>, stamp: Stamp)
    | IncrBy(key: seq<byte>, increment: int64)
    | Append(key: seq<byte>, value: seq<byte>)
    | GetSet(key: seq<byte>, value: seq<byte>)
    | Delete(key: seq<byte>)
    | DeleteWithHLC(key: seq<byte>, stamp: Stamp)

  datatype Refusal = KeyTooLarge | ValueTooLarge | MemoryLimit | NotInteger | Overflow

  datatype Reply = Applied(ok: bool) | Number(n: int) | Previous(was: Option<seq<byte>>) | Refused(why: Refusal)

  datatype Result = Result(store: Keyspace, reply: Reply)

  function NewValue(key: seq<byte>, text: seq<byte>, stamp: Stamp): StoredValue {
    StoredValue(text, |key| + |text|, stamp)
  }

  // The charge of a value: its recorded size, or, if that is zero, a size worked out anew.
  function MemoryUsage(limits: Limits, v: StoredValue): nat {
    if v.memorySize > 0 then v.memorySize else limits.structSize + |v.text|
  }

  function Charged(data: map<seq<byte>, StoredValue>, key: seq<byte>): nat {
    if key in data then data[key].memorySize else 0
  }

  function Metered(limits: Limits, data: map<seq<byte>, StoredValue>, key: seq<byte>): nat {
    if key in data then MemoryUsage(limits, data[key]) else 0
  }

  // Store a value and move the counters: by delta if the key exists, by one key and delta if not.
  function Put(s: Keyspace, i: nat, key: seq<byte>, v: StoredValue, delta: int): Keyspace
    requires i < |s.shards|
  {
    var shard := s.shards[i];
    var added := if key in shard.data then 0 else 1;
    Keyspace(s.shards[i := shard.(data := shard.data[key := v], keyCount := shard.keyCount + added,
                                  memoryUsage := shard.memoryUsage + delta)],
             s.totalKeys + added, s.totalMemory + delta)
  }

  function Drop(s: Keyspace, i: nat, key: seq<byte>, freed: int): Keyspace
    requires i < |s.shards|
  {
    var shard := s.shards[i];
    Keyspace(s.shards[i := shard.(data := shard.data - {key}, keyCount := shard.keyCount - 1,
                                  memoryUsage := shard.memoryUsage - freed)],
             s.totalKeys - 1, s.totalMemory - freed)
  }

  function SetTombstones(s: Keyspace, i: nat, tombstones: map<seq<byte>, Stamp>): Keyspace
    requires i < |s.shards|
  {
    s.(shards := s.shards[i := s.shards[i].(tombstones := tombstones)])
  }

  predicate WouldExceedMemory(s: Keyspace, limits: Limits, delta: int) {
    limits.maxMemoryUsage > 0 && delta > 0 && s.totalMemory + delta > limits.maxMemoryUsage
  }

  // The size checks, the memory check and the write that the three kinds of SET share.
  function GuardedPut(s: Keyspace, limits: Limits, i: nat, key: seq<byte>, v: StoredValue): Result
    requires i < |s.shards|
  {
    var delta := v.memorySize - Charged(s.shards[i].data, key);
    if WouldExceedMemory(s, limits, delta) then Result(s, Refused(MemoryLimit))
    else Result(Put(s, i, key, v, delta), Applied(true))
  }

  function SizeRefusal(limits: Limits, key: seq<byte>, value: seq<byte>): Option<Refusal> {
    if |key| > limits.maxKeySize then Some(KeyTooLarge)
    else if |value| > limits.maxValueSize then Some(ValueTooLarge)
    else None
  }

  // Whether a stamped operation loses to the stored value or to a tombstone.
  predicate Stale(shard: Shard, key: seq<byte>, stamp: Stamp) {
    (key in shard.data && !stamp.After(shard.data[key].hlc)) ||
    (key in shard.tombstones && !stamp.After(shard.tombstones[key]))
  }

  // A rewrite that frees what MemoryUsage says and is not checked against the limit.
  function Rewrite(s: Keyspace, limits: Limits, i: nat, key: seq<byte>, text: seq<byte>): Keyspace
    requires i < |s.shards|
  {
    var v := NewValue(key, text, NO_STAMP);
    Put(s, i, key, v, v.memorySize - Metered(limits, s.shards[i].data, key))
  }

  function Text(shard: Shard, key: seq<byte>): seq<byte> {
    if key in shard.data then shard.data[key].text else []
  }

  function ApplyIncrBy(s: Keyspace, limits: Limits, i: nat, key: seq<byte>, increment: int64): Result
    requires i < |s.shards|
  {
    var current := ParseInteger(Text(s.shards[i], key));
    if current.None? then Result(s, Refused(NotInteger))
    else if !(MIN_INT64 <= current.value + increment <= MAX_INT64) then Result(s, Refused(Overflow))
    else
      var n := current.value + increment;
      Result(Rewrite(s, limits, i, key, FormatInteger(n)), Number(n))
  }

  // One operation on the shard of its key.
  function Apply(s: Keyspace, limits: Limits, i: nat, op: Op): Result
    requires i < |s.shards|
  {
    var shard := s.shards[i];
    match op
    case Set(key, value) =>
      var refusal := SizeRefusal(limits, key, value);
      if refusal.Some? then Result(s, Refused(refusal.value))
      else GuardedPut(s, limits, i, key, NewValue(key, value, NO_STAMP))
    case SetWithOptions(key, value, nx, xx) =>
      var refusal := SizeRefusal(limits, key, value);
      if refusal.Some? then Result(s, Refused(refusal.value))
      else if (nx && key in shard.data) || (xx && key !in shard.data) then Result(s, Applied(false))
      else GuardedPut(s, limits, i, key, NewValue(key, value, NO_STAMP))
    case SetWithHLC(key, value, stamp) =>
      var refusal := SizeRefusal(limits, key, value);
      if refusal.Some? then Result(s, Refused(refusal.value))
      else if Stale(shard, key, stamp) then Result(s, Applied(false))
      else
        var r := GuardedPut(s, limits, i, key, NewValue(key, value, stamp));
        if r.reply.Refused? then r else r.(store := SetTombstones(r.store, i, shard.tombstones - {key}))
    case IncrBy(key, increment) => ApplyIncrBy(s, limits, i, key, increment)
    case Append(key, value) =>
      var text := Text(shard, key) + value;
      Result(Rewrite(s, limits, i, key, text), Number(|text|))
    case GetSet(key, value) =>
      var was := if key in shard.data then Some(shard.data[key].text) else None;
      Result(Rewrite(s, limits, i, key, value), Previous(was))
    case Delete(key) =>
      if key !in shard.data then Result(s, Applied(false))
      else Result(Drop(s, i, key, MemoryUsage(limits, shard.data[key])), Applied(true))
    case DeleteWithHLC(key, stamp) =>
      if Stale(shard, key, stamp) then Result(s, Applied(false))
      else
        var s1 := if key in shard.data then Drop(s, i, key, MemoryUsage(limits, shard.data[key])) else s;
        Result(SetTombstones(s1, i, shard.tombstones[key := stamp]), Applied(true))
  }

  /* What the counters should say */

  // The summed sizes of the values of a shard.
  ghost function Charge(data: map<seq<byte>, StoredValue>): nat {
    if data == map[] then 0
    else
      var k :| k in data;
      data[k].memorySize + Charge(data - {k})
  }

  lemma {:induction false} ChargeWithout(data: map<seq<byte>, StoredValue>, key: seq<byte>)
    requires key in data
    ensures Charge(data) == data[key].memorySize + Charge(data - {key})
  {
    var k :| k in data && Charge(data) == data[k].memorySize + Charge(data - {k});
    if k != key {
      ChargeWithout(data - {k}, key);
      ChargeWithout(data - {key}, k);
      assert data - {k} - {key} == data - {key} - {k};
    }
  }

  lemma ChargeWith(data: map<seq<byte>, StoredValue>, key: seq<byte>, v: StoredValue)
    ensures Charge(data[key := v]) == Charge(data) - Charged(data, key) + v.memorySize
  {
    ChargeWithout(data[key := v], key);
    assert data[key := v] - {key} == data - {key};
    if key in data { ChargeWithout(data, key); } else { assert data - {key} == data; }
  }

  ghost predicate ShardBalanced(shard: Shard) {
    && shard.keyCount == |shard.data| && shard.memoryUsage == Charge(shard.data)
    && forall k :: k in shard.data ==> shard.data[k].memorySize == |k| + |shard.data[k].text|
  }

  function SumKeys(shards: seq<Shard>): int {
    if shards == [] then 0 else shards[0].keyCount + SumKeys(shards[1..])
  }

  function SumMemory(shards: seq<Shard>): int {
    if shards == [] then 0 else shards[0].memoryUsage + SumMemory(shards[1..])
  }

  // Every shard's counters equal its key count and summed sizes, and the totals equal the
  // sums over the shards.
  ghost predicate Balanced(s: Keyspace) {
    && (forall j :: 0 <= j < |s.shards| ==> ShardBalanced(s.shards[j]))
    && s.totalKeys == SumKeys(s.shards) && s.totalMemory == SumMemory(s.shards)
  }

  lemma {:induction false} SumsAfterUpdate(shards: seq<Shard>, i: nat, shard: Shard)
    requires i < |shards|
    ensures SumKeys(shards[i := shard]) == SumKeys(shards) - shards[i].keyCount + shard.keyCount
    ensures SumMemory(shards[i := shard]) == SumMemory(shards) - shards[i].memoryUsage + shard.memoryUsage
  {
    if i == 0 {
      assert shards[0 := shard][1..] == shards[1..];
    } else {
      SumsAfterUpdate(shards[1..], i - 1, shard);
      assert shards[i := shard][1..] == shards[1..][i - 1 := shard];
    }
  }

  // A balanced store with one shard replaced is balanced exactly when the new shard is and
  // the totals moved with it.
  lemma BalanceOfUpdate(s: Keyspace, i: nat, shard: Shard, s': Keyspace)
    requires Balanced(s) && i < |s.shards| && s'.shards == s.shards[i := shard]
    requires s'.totalKeys - s.totalKeys == shard.keyCount - s.shards[i].keyCount
    requires s'.totalMemory - s.totalMemory == shard.memoryUsage - s.shards[i].memoryUsage
    ensures Balanced(s') <==> ShardBalanced(shard)
  {
    SumsAfterUpdate(s.shards, i, shard);
    if Balanced(s') { assert ShardBalanced(s'.shards[i]); }
  }

  lemma PutBalancesIff(s: Keyspace, i: nat, key: seq<byte>, v: StoredValue, delta: int)
    requires Balanced(s) && i < |s.shards| && v.memorySize == |key| + |v.text|
    ensures Balanced(Put(s, i, key, v, delta)) <==> delta == v.memorySize - Charged(s.shards[i].data, key)
  {
    var s', data := Put(s, i, key, v, delta), s.shards[i].data;
    BalanceOfUpdate(s, i, s'.shards[i], s');
    ChargeWith(data, key, v);
    assert ShardBalanced(s.shards[i]);
    assert data[key := v].Keys == data.Keys + {key};
  }

  lemma DropBalancesIff(s: Keyspace, i: nat, key: seq<byte>, freed: int)
    requires Balanced(s) && i < |s.shards| && key in s.shards[i].data
    ensures Balanced(Drop(s, i, key, freed)) <==> freed == s.shards[i].data[key].memorySize
  {
    var s', data := Drop(s, i, key, freed), s.shards[i].data;
    BalanceOfUpdate(s, i, s'.shards[i], s');
    ChargeWithout(data, key);
    assert ShardBalanced(s.shards[i]);
    assert (data - {key}).Keys == data.Keys - {key};
  }

  lemma TombstonesDoNotCount(s: Keyspace, i: nat, tombstones: map<seq<byte>, Stamp>)
    requires i < |s.shards|
    ensures Balanced(SetTombstones(s, i, tombstones)) <==> Balanced(s)
  {
    var s' := SetTombstones(s, i, tombstones);
    SumsAfterUpdate(s.shards, i, s'.shards[i]);
    assert s.shards == s'.shards[i := s.shards[i]];
    if Balanced(s') {
      forall j | 0 <= j < |s.shards| ensures ShardBalanced(s.shards[j]) {
        assert ShardBalanced(s'.shards[j]);
      }
    }
  }

  // The operation frees an empty value under the empty key.  Its recorded size is zero, so it
  // is charged again on the way out, by the size of its record.
  predicate Misbills(s: Keyspace, i: nat, op: Op)
    requires i < |s.shards|
  {
    var shard := s.shards[i];
    op.key == [] && [] in shard.data && shard.data[[]].text == [] &&
    (op.IncrBy? || op.Append? || op.GetSet? || op.Delete? || (op.DeleteWithHLC? && !Stale(shard, [], op.stamp)))
  }

  lemma MeteredIsChargedIff(s: Keyspace, limits: Limits, i: nat, key: seq<byte>)
    requires Balanced(s) && i < |s.shards| && limits.structSize > 0
    ensures var data := s.shards[i].data;
            Metered(limits, data, key) == Charged(data, key) <==> !(key == [] && [] in data && data[[]].text == [])
  {
    assert ShardBalanced(s.shards[i]);
  }

  lemma RewriteBalancesIff(s: Keyspace, limits: Limits, i: nat, key: seq<byte>, text: seq<byte>)
    requires Balanced(s) && i < |s.shards| && limits.structSize > 0
    ensures Balanced(Rewrite(s, limits, i, key, text)) <==>
            !(key == [] && [] in s.shards[i].data && s.shards[i].data[[]].text == [])
  {
    var v := NewValue(key, text, NO_STAMP);
    PutBalancesIff(s, i, key, v, v.memorySize - Metered(limits, s.shards[i].data, key));
    MeteredIsChargedIff(s, limits, i, key);
  }

  lemma GuardedPutBalances(s: Keyspace, limits: Limits, i: nat, key: seq<byte>, v: StoredValue)
    requires Balanced(s) && i < |s.shards| && v.memorySize == |key| + |v.text|
    ensures Balanced(GuardedPut(s, limits, i, key, v).store)
  {
    PutBalancesIff(s, i, key, v, v.memorySize - Charged(s.shards[i].data, key));
  }

  lemma DeleteBalancesIff(s: Keyspace, limits: Limits, i: nat, key: seq<byte>)
    requires Balanced(s) && i < |s.shards| && limits.structSize > 0 && key in s.shards[i].data
    ensures Balanced(Drop(s, i, key, MemoryUsage(limits, s.shards[i].data[key]))) <==>
            !(key == [] && s.shards[i].data[[]].text == [])
  {
    DropBalancesIff(s, i, key, MemoryUsage(limits, s.shards[i].data[key]));
    MeteredIsChargedIff(s, limits, i, key);
  }

  lemma StampedPutBalances(s: Keyspace, limits: Limits, i: nat, key: seq<byte>, value: seq<byte>, stamp: Stamp)
    requires Balanced(s) && i < |s.shards|
    ensures Balanced(Apply(s, limits, i, SetWithHLC(key, value, stamp)).store)
  {
    var v, kept := NewValue(key, value, stamp), s.shards[i].tombstones - {key};
    var r := GuardedPut(s, limits, i, key, v);
    GuardedPutBalances(s, limits, i, key, v);
    TombstonesDoNotCount(r.store, i, kept);
    StampedPutLeaves(s, limits, i, key, value, stamp, r, SetTombstones(r.store, i, kept));
  }

  // A stamped set leaves the store as it was, or as the write and the cleared tombstone do.
  lemma StampedPutLeaves(s: Keyspace, limits: Limits, i: nat, key: seq<byte>, value: seq<byte>, stamp: Stamp,
                         r: Result, cleared: Keyspace)
    requires i < |s.shards| && r == GuardedPut(s, limits, i, key, NewValue(key, value, stamp))
    requires cleared == SetTombstones(r.store, i, s.shards[i].tombstones - {key})
    ensures Apply(s, limits, i, SetWithHLC(key, value, stamp)).store in {s, r.store, cleared}
  {
  }

  lemma StampedDeleteBalancesIff(s: Keyspace, limits: Limits, i: nat, key: seq<byte>, stamp: Stamp)
    requires Balanced(s) && i < |s.shards| && limits.structSize > 0
    ensures Balanced(Apply(s, limits, i, DeleteWithHLC(key, stamp)).store) <==>
            !Misbills(s, i, DeleteWithHLC(key, stamp))
  {
    var data := s.shards[i].data;
    var s1 := if key in data then Drop(s, i, key, MemoryUsage(limits, data[key])) else s;
    if key in data { DeleteBalancesIff(s, limits, i, key); }
    TombstonesDoNotCount(s1, i, s.shards[i].tombstones[key := stamp]);
  }

  lemma IncrByBalancesIff(s: Keyspace, limits: Limits, i: nat, key: seq<byte>, increment: int64)
    requires Balanced(s) && i < |s.shards| && limits.structSize > 0
    ensures Balanced(Apply(s, limits, i, IncrBy(key, increment)).store) <==> !Misbills(s, i, IncrBy(key, increment))
  {
    var r := ApplyIncrBy(s, limits, i, key, increment);
    if r.reply.Number? { RewriteBalancesIff(s, limits, i, key, FormatInteger(r.reply.n)); }
  }

  // An operation keeps the counters exact exactly when it does not free an empty value under
  // the empty key.
  lemma BalanceKeptIff(s: Keyspace, limits: Limits, i: nat, op: Op)
    requires Balanced(s) && i < |s.shards| && limits.structSize > 0
    ensures Balanced(Apply(s, limits, i, op).store) <==> !Misbills(s, i, op)
  {
    match op
    case Set(key, value) => GuardedPutBalances(s, limits, i, key, NewValue(key, value, NO_STAMP));
    case SetWithOptions(key, value, nx, xx) => GuardedPutBalances(s, limits, i, key, NewValue(key, value, NO_STAMP));
    case SetWithHLC(key, value, stamp) => StampedPutBalances(s, limits, i, key, value, stamp);
    case IncrBy(key, increment) => IncrByBalancesIff(s, limits, i, key, increment);
    case Append(key, value) => RewriteBalancesIff(s, limits, i, key, Text(s.shards[i], key) + value);
    case GetSet(key, value) => RewriteBalancesIff(s, limits, i, key, value);
    case Delete(key) =>
      if key in s.shards[i].data { DeleteBalancesIff(s, limits, i, key); }
    case DeleteWithHLC(key, stamp) => StampedDeleteBalancesIff(s, limits, i, key, stamp);
  }

  /* Runs */

  function ShardOf(hash: seq<byte> -> nat, s: Keyspace, key: seq<byte>): (i: nat)
    requires s.shards != []
    ensures i < |s.shards|
  {
    hash(key) % |s.shards|
  }

  function Run(s: Keyspace, limits: Limits, hash: seq<byte> -> nat, ops: seq<Op>): (r: Keyspace)
    requires s.shards != []
    ensures |r.shards| == |s.shards|
    decreases |ops|
  {
    if ops == [] then s
    else Run(Apply(s, limits, ShardOf(hash, s, ops[0].key), ops[0]).store, limits, hash, ops[1..])
  }

  // Conservation: after any run on non-empty keys the counters are exact.
  lemma {:induction false} RunsKeepBalance(s: Keyspace, limits: Limits, hash: seq<byte> -> nat, ops: seq<Op>)
    requires Balanced(s) && s.shards != [] && limits.structSize > 0
    requires forall k :: 0 <= k < |ops| ==> ops[k].key != []
    ensures Balanced(Run(s, limits, hash, ops))
    decreases |ops|
  {
    if ops != [] {
      var i := ShardOf(hash, s, ops[0].key);
      BalanceKeptIff(s, limits, i, ops[0]);
      RunsKeepBalance(Apply(s, limits, i, ops[0]).store, limits, hash, ops[1..]);
    }
  }

  // A new store: so many empty shards.
  function NewStore(n: nat): Keyspace {
    Keyspace(seq(n, _ => Shard(map[], map[], 0, 0)), 0, 0)
  }

  lemma {:induction false} NewStoreIsBalanced(n: nat)
    ensures Balanced(NewStore(n))
  {
    if n > 0 {
      NewStoreIsBalanced(n - 1);
      assert NewStore(n).shards[1..] == NewStore(n - 1).shards;
    }
  }

  /* How far the counters drift */

  ghost predicate ShardSized(shard: Shard) {
    && shard.keyCount == |shard.data|
    && forall k :: k in shard.data ==> shard.data[k].memorySize == |k| + |shard.data[k].text|
  }

  // Everything is exact but the memory counters, which still agree with each other.
  ghost predicate Sized(s: Keyspace) {
    && (forall j :: 0 <= j < |s.shards| ==> ShardSized(s.shards[j]))
    && s.totalKeys == SumKeys(s.shards) && s.totalMemory == SumMemory(s.shards)
  }

  ghost function SumCharge(shards: seq<Shard>): int {
    if shards == [] then 0 else Charge(shards[0].data) + SumCharge(shards[1..])
  }

  // What the store holds beyond what its counter says.
  ghost function Shortfall(s: Keyspace): int {
    SumCharge(s.shards) - s.totalMemory
  }

  lemma {:induction false} ChargeAfterUpdate(shards: seq<Shard>, i: nat, shard: Shard)
    requires i < |shards|
    ensures SumCharge(shards[i := shard]) == SumCharge(shards) - Charge(shards[i].data) + Charge(shard.data)
  {
    if i == 0 {
      assert shards[0 := shard][1..] == shards[1..];
    } else {
      ChargeAfterUpdate(shards[1..], i - 1, shard);
      assert shards[i := shard][1..] == shards[1..][i - 1 := shard];
    }
  }

  lemma {:induction false} BalancedChargeIsMemory(shards: seq<Shard>)
    requires forall j :: 0 <= j < |shards| ==> ShardBalanced(shards[j])
    ensures SumCharge(shards) == SumMemory(shards)
  {
    if shards != [] {
      assert ShardBalanced(shards[0]);
      BalancedChargeIsMemory(shards[1..]);
    }
  }

  lemma BalancedIsSized(s: Keyspace)
    requires Balanced(s)
    ensures Sized(s) && Shortfall(s) == 0
  {
    BalancedChargeIsMemory(s.shards);
    forall j | 0 <= j < |s.shards| ensures ShardSized(s.shards[j]) {
      assert ShardBalanced(s.shards[j]);
    }
  }

  lemma PutDrifts(s: Keyspace, i: nat, key: seq<byte>, v: StoredValue, delta: int)
    requires Sized(s) && i < |s.shards| && v.memorySize == |key| + |v.text|
    ensures var s' := Put(s, i, key, v, delta);
            Sized(s') && Shortfall(s') == Shortfall(s) + v.memorySize - Charged(s.shards[i].data, key) - delta
  {
    var s', data := Put(s, i, key, v, delta), s.shards[i].data;
    SumsAfterUpdate(s.shards, i, s'.shards[i]);
    ChargeAfterUpdate(s.shards, i, s'.shards[i]);
    ChargeWith(data, key, v);
    assert ShardSized(s.shards[i]);
    assert data[key := v].Keys == data.Keys + {key};
  }

  lemma DropDrifts(s: Keyspace, i: nat, key: seq<byte>, freed: int)
    requires Sized(s) && i < |s.shards| && key in s.shards[i].data
    ensures var s' := Drop(s, i, key, freed);
            Sized(s') && Shortfall(s') == Shortfall(s) + freed - s.shards[i].data[key].memorySize
  {
    var s', data := Drop(s, i, key, freed), s.shards[i].data;
    SumsAfterUpdate(s.shards, i, s'.shards[i]);
    ChargeAfterUpdate(s.shards, i, s'.shards[i]);
    ChargeWithout(data, key);
    assert ShardSized(s.shards[i]);
    assert (data - {key}).Keys == data.Keys - {key};
  }

  lemma TombstonesDoNotDrift(s: Keyspace, i: nat, tombstones: map<seq<byte>, Stamp>)
    requires Sized(s) && i < |s.shards|
    ensures var s' := SetTombstones(s, i, tombstones); Sized(s') && Shortfall(s') == Shortfall(s)
  {
    var s' := SetTombstones(s, i, tombstones);
    SumsAfterUpdate(s.shards, i, s'.shards[i]);
    ChargeAfterUpdate(s.shards, i, s'.shards[i]);
    assert ShardSized(s.shards[i]);
  }

  // The key's value is empty and so is the key: it is metered as a whole record.
  predicate Unsized(s: Keyspace, i: nat, key: seq<byte>)
    requires i < |s.shards|
  {
    key == [] && [] in s.shards[i].data && s.shards[i].data[[]].text == []
  }

  lemma MeteredOverCharge(s: Keyspace, limits: Limits, i: nat, key: seq<byte>)
    requires Sized(s) && i < |s.shards|
    ensures Metered(limits, s.shards[i].data, key) ==
            Charged(s.shards[i].data, key) + if Unsized(s, i, key) then limits.structSize else 0
  {
    assert ShardSized(s.shards[i]);
  }

  // The store after an operation, drifted by one record or not at all.
  ghost predicate Drifted(s: Keyspace, limits: Limits, misbilled: bool, s': Keyspace) {
    Sized(s') && Shortfall(s') == Shortfall(s) + if misbilled then limits.structSize else 0
  }

  lemma RewriteDrifts(s: Keyspace, limits: Limits, i: nat, key: seq<byte>, text: seq<byte>)
    requires Sized(s) && i < |s.shards|
    ensures Drifted(s, limits, Unsized(s, i, key), Rewrite(s, limits, i, key, text))
  {
    var v := NewValue(key, text, NO_STAMP);
    PutDrifts(s, i, key, v, v.memorySize - Metered(limits, s.shards[i].data, key));
    MeteredOverCharge(s, limits, i, key);
  }

  lemma DeleteDrifts(s: Keyspace, limits: Limits, i: nat, key: seq<byte>)
    requires Sized(s) && i < |s.shards| && key in s.shards[i].data
    ensures Drifted(s, limits, Unsized(s, i, key), Drop(s, i, key, MemoryUsage(limits, s.shards[i].data[key])))
  {
    DropDrifts(s, i, key, MemoryUsage(limits, s.shards[i].data[key]));
    MeteredOverCharge(s, limits, i, key);
  }

  lemma GuardedPutDrifts(s: Keyspace, limits: Limits, i: nat, key: seq<byte>, v: StoredValue)
    requires Sized(s) && i < |s.shards| && v.memorySize == |key| + |v.text|
    ensures Drifted(s, limits, false, GuardedPut(s, limits, i, key, v).store)
  {
    PutDrifts(s, i, key, v, v.memorySize - Charged(s.shards[i].data, key));
  }

  lemma StampedPutDrifts(s: Keyspace, limits: Limits, i: nat, key: seq<byte>, value: seq<byte>, stamp: Stamp)
    requires Sized(s) && i < |s.shards|
    ensures Drifted(s, limits, false, Apply(s, limits, i, SetWithHLC(key, value, stamp)).store)
  {
    var v, kept := NewValue(key, value, stamp), s.shards[i].tombstones - {key};
    var r := GuardedPut(s, limits, i, key, v);
    GuardedPutDrifts(s, limits, i, key, v);
    TombstonesDoNotDrift(r.store, i, kept);
    StampedPutLeaves(s, limits, i, key, value, stamp, r, SetTombstones(r.store, i, kept));
  }

  lemma StampedDeleteDrifts(s: Keyspace, limits: Limits, i: nat, key: seq<byte>, stamp: Stamp)
    requires Sized(s) && i < |s.shards|
    ensures Drifted(s, limits, Misbills(s, i, DeleteWithHLC(key, stamp)),
                    Apply(s, limits, i, DeleteWithHLC(key, stamp)).store)
  {
    var data := s.shards[i].data;
    var s1 := if key in data then Drop(s, i, key, MemoryUsage(limits, data[key])) else s;
    if key in data { DeleteDrifts(s, limits, i, key); }
    TombstonesDoNotDrift(s1, i, s.shards[i].tombstones[key := stamp]);
  }

  lemma IncrByDrifts(s: Keyspace, limits: Limits, i: nat, key: seq<byte>, increment: int64)
    requires Sized(s) && i < |s.shards|
    ensures Drifted(s, limits, Misbills(s, i, IncrBy(key, increment)),
                    Apply(s, limits, i, IncrBy(key, increment)).store)
  {
    var r := ApplyIncrBy(s, limits, i, key, increment);
    if r.reply.Number? { RewriteDrifts(s, limits, i, key, FormatInteger(r.reply.n)); }
  }

  // From whatever shortfall, an operation that misbills adds one record's size to it, and no
  // other operation changes it.
  lemma OperationDrifts(s: Keyspace, limits: Limits, i: nat, op: Op)
    requires Sized(s) && i < |s.shards|
    ensures Drifted(s, limits, Misbills(s, i, op), Apply(s, limits, i, op).store)
  {
    match op
    case Set(key, value) => GuardedPutDrifts(s, limits, i, key, NewValue(key, value, NO_STAMP));
    case SetWithOptions(key, value, nx, xx) => GuardedPutDrifts(s, limits, i, key, NewValue(key, value, NO_STAMP));
    case SetWithHLC(key, value, stamp) => StampedPutDrifts(s, limits, i, key, value, stamp);
    case IncrBy(key, increment) => IncrByDrifts(s, limits, i, key, increment);
    case Append(key, value) => RewriteDrifts(s, limits, i, key, Text(s.shards[i], key) + value);
    case GetSet(key, value) => RewriteDrifts(s, limits, i, key, value);
    case Delete(key) =>
      if key in s.shards[i].data { DeleteDrifts(s, limits, i, key); }
    case DeleteWithHLC(key, stamp) => StampedDeleteDrifts(s, limits, i, key, stamp);
  }

  // How many operations of a run misbill.
  function Misbillings(s: Keyspace, limits: Limits, hash: seq<byte> -> nat, ops: seq<Op>): nat
    requires s.shards != []
    decreases |ops|
  {
    if ops == [] then 0
    else
      var i := ShardOf(hash, s, ops[0].key);
      (if Misbills(s, i, ops[0]) then 1 else 0) + Misbillings(Apply(s, limits, i, ops[0]).store, limits, hash, ops[1..])
  }

  lemma {:induction false} RunDrifts(s: Keyspace, limits: Limits, hash: seq<byte> -> nat, ops: seq<Op>)
    requires Sized(s) && s.shards != []
    ensures var s' := Run(s, limits, hash, ops);
            Sized(s') && Shortfall(s') == Shortfall(s) + Times(Misbillings(s, limits, hash, ops), limits.structSize)
    decreases |ops|
  {
    if ops != [] {
      var i := ShardOf(hash, s, ops[0].key);
      var s1 := Apply(s, limits, i, ops[0]).store;
      OperationDrifts(s, limits, i, ops[0]);
      RunDrifts(s1, limits, hash, ops[1..]);
      RunGoesOn(s, limits, hash, ops, s1);
    }
  }

  lemma RunGoesOn(s: Keyspace, limits: Limits, hash: seq<byte> -> nat, ops: seq<Op>, s1: Keyspace)
    requires s.shards != [] && ops != []
    requires s1 == Apply(s, limits, ShardOf(hash, s, ops[0].key), ops[0]).store
    ensures s1.shards != [] && Run(s, limits, hash, ops) == Run(s1, limits, hash, ops[1..])
    ensures var rest := Times(Misbillings(s1, limits, hash, ops[1..]), limits.structSize);
            Times(Misbillings(s, limits, hash, ops), limits.structSize) ==
            if Misbills(s, ShardOf(hash, s, ops[0].key), ops[0]) then limits.structSize + rest else rest
  {
  }

  function Times(n: nat, size: nat): (r: nat)
    ensures n > 0 && size > 0 ==> r > 0
  {
    if n == 0 then 0 else size + Times(n - 1, size)
  }

  lemma {:induction false} CleanRunStaysBalanced(s: Keyspace, limits: Limits, hash: seq<byte> -> nat, ops: seq<Op>)
    requires Balanced(s) && s.shards != [] && limits.structSize > 0 && Misbillings(s, limits, hash, ops) == 0
    ensures Balanced(Run(s, limits, hash, ops))
    decreases |ops|
  {
    if ops != [] {
      var i := ShardOf(hash, s, ops[0].key);
      BalanceKeptIff(s, limits, i, ops[0]);
      CleanRunStaysBalanced(Apply(s, limits, i, ops[0]).store, limits, hash, ops[1..]);
    }
  }

  // The whole life of a store, on any keys: its memory counter falls short of what it holds by
  // one record for each operation that misbilled, so it is exact exactly when none did.
  lemma StoreBalancedIff(n: nat, limits: Limits, hash: seq<byte> -> nat, ops: seq<Op>)
    requires n > 0 && limits.structSize > 0
    ensures var s, misbilled := Run(NewStore(n), limits, hash, ops), Misbillings(NewStore(n), limits, hash, ops);
            && SumCharge(s.shards) - s.totalMemory == Times(misbilled, limits.structSize)
            && (Balanced(s) <==> misbilled == 0)
  {
    NewStoreIsBalanced(n);
    BalancedIsSized(NewStore(n));
    RunDrifts(NewStore(n), limits, hash, ops);
    var s := Run(NewStore(n), limits, hash, ops);
    if Misbillings(NewStore(n), limits, hash, ops) == 0 {
      CleanRunStaysBalanced(NewStore(n), limits, hash, ops);
    } else if Balanced(s) {
      BalancedIsSized(s);
    }
  }

  /* The memory limit */

  // The operations that check the limit, or only free.
  predicate ChecksLimit(op: Op) {
    !(op.IncrBy? || op.Append? || op.GetSet?)
  }

  // Such an operation leaves total memory within the limit, or no higher than it was, whether
  // the counters are exact or not.
  lemma GrowthIsWithinLimit(s: Keyspace, limits: Limits, i: nat, op: Op)
    requires i < |s.shards| && ChecksLimit(op) && limits.maxMemoryUsage > 0
    ensures var s' := Apply(s, limits, i, op).store;
            s'.totalMemory <= s.totalMemory || s'.totalMemory <= limits.maxMemoryUsage
  {
  }

  lemma {:induction false} CheckedRunsStayWithinLimit(s: Keyspace, limits: Limits, hash: seq<byte> -> nat, ops: seq<Op>)
    requires s.shards != [] && limits.maxMemoryUsage > 0 && s.totalMemory <= limits.maxMemoryUsage
    requires forall k :: 0 <= k < |ops| ==> ChecksLimit(ops[k])
    ensures Run(s, limits, hash, ops).totalMemory <= limits.maxMemoryUsage
    decreases |ops|
  {
    if ops != [] {
      var i := ShardOf(hash, s, ops[0].key);
      GrowthIsWithinLimit(s, limits, i, ops[0]);
      CheckedRunsStayWithinLimit(Apply(s, limits, i, ops[0]).store, limits, hash, ops[1..]);
    }
  }

  // An append is not checked: it goes over the limit exactly when it is long enough to.
  lemma AppendPassesLimitIff(s: Keyspace, limits: Limits, i: nat, key: seq<byte>, value: seq<byte>)
    requires Balanced(s) && i < |s.shards| && key != [] && limits.structSize > 0
    ensures var s' := Apply(s, limits, i, Append(key, value)).store;
            s'.totalMemory > limits.maxMemoryUsage <==>
            |value| + (if key in s.shards[i].data then 0 else |key|) > limits.maxMemoryUsage - s.totalMemory
  {
    assert ShardBalanced(s.shards[i]);
  }

  /* Counters kept as strings */

  // One increment after another: the second adds to what the first replied, unless that was
  // the smallest integer, which is stored as a lone sign and then refused.
  lemma IncrementsAddUp(s: Keyspace, limits: Limits, i: nat, key: seq<byte>, a: int64, b: int64)
    requires i < |s.shards| && Apply(s, limits, i, IncrBy(key, a)).reply.Number?
    ensures var first := Apply(s, limits, i, IncrBy(key, a));
            Apply(first.store, limits, i, IncrBy(key, b)).reply ==
            if first.reply.n == MIN_INT64 then Refused(NotInteger)
            else if MIN_INT64 <= first.reply.n + b <= MAX_INT64 then Number(first.reply.n + b)
            else Refused(Overflow)
  {
    var first := Apply(s, limits, i, IncrBy(key, a));
    FormatRoundTripIff(first.reply.n);
    assert Text(first.store.shards[i], key) == FormatInteger(first.reply.n);
  }
}
