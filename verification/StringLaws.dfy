// What the string operations do to the texts of the store: they are operations on a map from keys
// to bytes, one at a time and over whole runs.
module StringLaws {
  import opened Wrappers
  import opened Integers
  import opened AccountingSpec

  type Texts = map<seq<byte>, seq<byte>>

  /* What the store holds */

  // The text a key holds: what a read returns.
  function TextAt(s: Keyspace, hash: seq<byte> -> nat, key: seq<byte>): Option<seq<byte>>
    requires s.shards != []
  {
    var data := s.shards[ShardOf(hash, s, key)].data;
    if key in data then Some(data[key].text) else None
  }

  function Held(m: Texts, key: seq<byte>): Option<seq<byte>> {
    if key in m then Some(m[key]) else None
  }

  ghost predicate Refines(s: Keyspace, hash: seq<byte> -> nat, m: Texts)
    requires s.shards != []
  {
    forall key :: TextAt(s, hash, key) == Held(m, key)
  }

  // A key that holds nothing counts as one that holds no bytes.
  function Bytes(t: Option<seq<byte>>): seq<byte> {
    if t.Some? then t.value else []
  }

  /* What the operations mean */

  // The map afterwards: a refused operation, and a set or delete that reports false, changes
  // nothing.
  function Meaning(m: Texts, op: Op, reply: Reply): Texts {
    if reply.Refused? || reply == Applied(false) then m
    else match op
      case Set(key, value) => m[key := value]
      case SetWithOptions(key, value, _, _) => m[key := value]
      case SetWithHLC(key, value, _) => m[key := value]
      case IncrBy(key, _) => if reply.Number? then m[key := FormatInteger64(reply.n)] else m
      case Append(key, value) => m[key := Bytes(Held(m, key)) + value]
      case GetSet(key, value) => m[key := value]
      case Delete(key) => m - {key}
      case DeleteWithHLC(key, _) => m - {key}
  }

  function FormatInteger64(n: int): seq<byte> {
    if MIN_INT64 <= n <= MAX_INT64 then FormatInteger(n) else []
  }

  // The replies that an operation may give, by what the map holds before it.
  predicate Answers(m: Texts, limits: Limits, op: Op, reply: Reply) {
    var held := Held(m, op.key);
    match op
    case Set(key, value) => reply == Applied(true) || SetRefusal(limits, key, value, reply)
    case SetWithOptions(key, value, nx, xx) =>
      if SizeOk(limits, key, value) && ((nx && held.Some?) || (xx && held.None?)) then reply == Applied(false)
      else reply == Applied(true) || SetRefusal(limits, key, value, reply)
    case SetWithHLC(key, value, _) => reply.Applied? || SetRefusal(limits, key, value, reply)
    case IncrBy(_, increment) =>
      var current := ParseInteger(Bytes(held));
      if current.None? then reply == Refused(NotInteger)
      else if MIN_INT64 <= current.value + increment <= MAX_INT64 then reply == Number(current.value + increment)
      else reply == Refused(Overflow)
    case Append(_, value) => reply == Number(|Bytes(held)| + |value|)
    case GetSet(_, _) => reply == Previous(held)
    case Delete(_) => reply == Applied(held.Some?)
    case DeleteWithHLC(_, _) => reply.Applied?
  }

  predicate SizeOk(limits: Limits, key: seq<byte>, value: seq<byte>) {
    |key| <= limits.maxKeySize && |value| <= limits.maxValueSize
  }

  // Too large a key is refused as that, then too large a value, and only then for memory.
  predicate SetRefusal(limits: Limits, key: seq<byte>, value: seq<byte>, reply: Reply) {
    if |key| > limits.maxKeySize then reply == Refused(KeyTooLarge)
    else if |value| > limits.maxValueSize then reply == Refused(ValueTooLarge)
    else reply == Refused(MemoryLimit) && limits.maxMemoryUsage > 0
  }

  /* One operation */

  lemma OperationAnswers(s: Keyspace, limits: Limits, hash: seq<byte> -> nat, m: Texts, op: Op)
    requires s.shards != [] && Refines(s, hash, m)
    ensures Answers(m, limits, op, Apply(s, limits, ShardOf(hash, s, op.key), op).reply)
  {
    assert TextAt(s, hash, op.key) == Held(m, op.key);
  }

  lemma OperationRefines(s: Keyspace, limits: Limits, hash: seq<byte> -> nat, m: Texts, op: Op)
    requires s.shards != [] && Refines(s, hash, m)
    ensures var r := Apply(s, limits, ShardOf(hash, s, op.key), op);
            r.store.shards != [] && Refines(r.store, hash, Meaning(m, op, r.reply))
  {
    var r := Apply(s, limits, ShardOf(hash, s, op.key), op);
    OwnText(s, limits, ShardOf(hash, s, op.key), m, op);
    forall key ensures TextAt(r.store, hash, key) == Held(Meaning(m, op, r.reply), key) {
      assert TextAt(s, hash, key) == Held(m, key);
      if key != op.key { OthersKeepTheirTexts(s, limits, hash, op, key); }
    }
  }

  lemma OwnText(s: Keyspace, limits: Limits, i: nat, m: Texts, op: Op)
    requires i < |s.shards|
    requires Held(m, op.key) == if op.key in s.shards[i].data then Some(s.shards[i].data[op.key].text) else None
    ensures var r := Apply(s, limits, i, op);
            && |r.store.shards| == |s.shards|
            && var data := r.store.shards[i].data;
            Held(Meaning(m, op, r.reply), op.key) == if op.key in data then Some(data[op.key].text) else None
  {
  }

  // When a write of this size is refused for memory: it makes the store grow past the limit.
  predicate TooMuch(s: Keyspace, limits: Limits, i: nat, key: seq<byte>, value: seq<byte>)
    requires i < |s.shards|
  {
    var data := s.shards[i].data;
    var growth := |key| + |value| - if key in data then data[key].memorySize else 0;
    limits.maxMemoryUsage > 0 && growth > 0 && s.totalMemory + growth > limits.maxMemoryUsage
  }

  // A set is refused for memory exactly when it would make the store grow past the limit.
  lemma SetRefusedForMemoryIff(s: Keyspace, limits: Limits, i: nat, op: Op)
    requires i < |s.shards| && (op.Set? || op.SetWithOptions? || op.SetWithHLC?) && SizeOk(limits, op.key, op.value)
    requires op.SetWithOptions? ==> !(op.nx && op.key in s.shards[i].data) && !(op.xx && op.key !in s.shards[i].data)
    requires op.SetWithHLC? ==> Newest(s.shards[i], op.key, op.stamp)
    ensures Apply(s, limits, i, op).reply == Refused(MemoryLimit) <==> TooMuch(s, limits, i, op.key, op.value)
  {
  }

  // The stamp is later than that of the value held and that of the last delete.
  predicate Newest(shard: Shard, key: seq<byte>, stamp: Stamp) {
    && (key in shard.data ==> stamp.After(shard.data[key].hlc))
    && (key in shard.tombstones ==> stamp.After(shard.tombstones[key]))
  }

  // What a stamped operation leaves behind.
  predicate StampedLeaves(op: Op, shard: Shard) {
    if op.SetWithHLC? then
      op.key in shard.data && shard.data[op.key].hlc == op.stamp && op.key !in shard.tombstones
    else
      op.DeleteWithHLC? ==>
        op.key !in shard.data && op.key in shard.tombstones && shard.tombstones[op.key] == op.stamp
  }

  // A stamped operation that is not refused is applied exactly when it is the newest of its key,
  // and leaves its stamp; so of two of them on one key the later stamp stays.
  lemma StampedAppliesIff(s: Keyspace, limits: Limits, i: nat, op: Op)
    requires i < |s.shards| && (op.SetWithHLC? || op.DeleteWithHLC?)
    ensures var r := Apply(s, limits, i, op);
            && (!r.reply.Refused? ==> (r.reply == Applied(true) <==> Newest(s.shards[i], op.key, op.stamp)))
            && (r.reply == Applied(true) ==> StampedLeaves(op, r.store.shards[i]))
            && (r.reply != Applied(true) ==> r.store == s)
  {
  }

  // No other operation touches a tombstone, and a plain write drops the stamp.
  lemma PlainLeavesTombstones(s: Keyspace, limits: Limits, i: nat, op: Op, j: nat)
    requires i < |s.shards| && j < |s.shards| && !op.SetWithHLC? && !op.DeleteWithHLC?
    ensures var s' := Apply(s, limits, i, op).store;
            && |s'.shards| == |s.shards| && s'.shards[j].tombstones == s.shards[j].tombstones
            && (op.key in s'.shards[i].data && s'.shards[i].data != s.shards[i].data ==>
                  s'.shards[i].data[op.key].hlc == NO_STAMP)
  {
  }

  /* Whole runs */

  function Replies(s: Keyspace, limits: Limits, hash: seq<byte> -> nat, ops: seq<Op>): (r: seq<Reply>)
    requires s.shards != []
    ensures |r| == |ops|
    decreases |ops|
  {
    if ops == [] then []
    else
      var first := Apply(s, limits, ShardOf(hash, s, ops[0].key), ops[0]);
      [first.reply] + Replies(first.store, limits, hash, ops[1..])
  }

  // The map after a run, by the operations and their replies alone.
  function Meanings(m: Texts, ops: seq<Op>, replies: seq<Reply>): Texts
    requires |ops| == |replies|
    decreases |ops|
  {
    if ops == [] then m else Meanings(Meaning(m, ops[0], replies[0]), ops[1..], replies[1..])
  }

  predicate AllAnswer(m: Texts, limits: Limits, ops: seq<Op>, replies: seq<Reply>)
    requires |ops| == |replies|
    decreases |ops|
  {
    ops == [] ||
    (&& Answers(m, limits, ops[0], replies[0])
     && AllAnswer(Meaning(m, ops[0], replies[0]), limits, ops[1..], replies[1..]))
  }

  // Over any run, on any keys, the store behaves as the map: every reply is one that the map
  // allows, and at the end it holds what the map holds.
  lemma {:induction false} RunsRefine(s: Keyspace, limits: Limits, hash: seq<byte> -> nat, m: Texts, ops: seq<Op>)
    requires s.shards != [] && Refines(s, hash, m)
    ensures var replies := Replies(s, limits, hash, ops);
            AllAnswer(m, limits, ops, replies) && Refines(Run(s, limits, hash, ops), hash, Meanings(m, ops, replies))
    decreases |ops|
  {
    if ops != [] {
      var first := Apply(s, limits, ShardOf(hash, s, ops[0].key), ops[0]);
      OperationAnswers(s, limits, hash, m, ops[0]);
      OperationRefines(s, limits, hash, m, ops[0]);
      RunsRefine(first.store, limits, hash, Meaning(m, ops[0], first.reply), ops[1..]);
    }
  }

  // A new store is the empty map.
  lemma NewStoreIsEmpty(n: nat, hash: seq<byte> -> nat)
    requires n > 0
    ensures Refines(NewStore(n), hash, map[])
  {
  }

  // No operation changes what another key holds.
  lemma OthersKeepTheirTexts(s: Keyspace, limits: Limits, hash: seq<byte> -> nat, op: Op, key: seq<byte>)
    requires s.shards != [] && key != op.key
    ensures var s' := Apply(s, limits, ShardOf(hash, s, op.key), op).store;
            s'.shards != [] && TextAt(s', hash, key) == TextAt(s, hash, key)
  {
  }

  /* Laws */

  // The value is stored empty under the empty key, and would be metered as a whole record.
  predicate IsNothing(key: seq<byte>, value: seq<byte>) {
    key == [] && value == []
  }

  // A set and then an append leave the store, counters and all, as the set of both together does.
  lemma SetThenAppend(s: Keyspace, limits: Limits, i: nat, key: seq<byte>, a: seq<byte>, b: seq<byte>)
    requires i < |s.shards| && !IsNothing(key, a)
    requires Apply(s, limits, i, Set(key, a)).reply == Applied(true)
    requires Apply(s, limits, i, Set(key, a + b)).reply == Applied(true)
    ensures Apply(Apply(s, limits, i, Set(key, a)).store, limits, i, Append(key, b)).store ==
            Apply(s, limits, i, Set(key, a + b)).store
  {
    var first := Apply(s, limits, i, Set(key, a)).store;
    var both := Apply(first, limits, i, Append(key, b)).store;
    var once := Apply(s, limits, i, Set(key, a + b)).store;
    assert both.shards[i] == once.shards[i];
    assert both.shards == once.shards;
  }

  // Two appends are one of the bytes together.
  lemma AppendsConcatenate(s: Keyspace, limits: Limits, i: nat, key: seq<byte>, a: seq<byte>, b: seq<byte>)
    requires i < |s.shards| && !IsNothing(key, Text(s.shards[i], key) + a)
    ensures var first := Apply(s, limits, i, Append(key, a));
            Apply(first.store, limits, i, Append(key, b)) == Apply(s, limits, i, Append(key, a + b))
  {
    var first := Apply(s, limits, i, Append(key, a));
    var both, once := Apply(first.store, limits, i, Append(key, b)), Apply(s, limits, i, Append(key, a + b));
    assert (Text(s.shards[i], key) + a) + b == Text(s.shards[i], key) + (a + b);
    assert both.store.shards[i] == once.store.shards[i];
    assert both.store.shards == once.store.shards;
  }

  // GETSET replies with what the last applied set stored.
  lemma GetSetRepliesLast(s: Keyspace, limits: Limits, i: nat, op: Op, value: seq<byte>)
    requires i < |s.shards| && (op.Set? || op.SetWithOptions? || op.SetWithHLC? || op.GetSet?)
    requires op.GetSet? || Apply(s, limits, i, op).reply == Applied(true)
    ensures Apply(Apply(s, limits, i, op).store, limits, i, GetSet(op.key, value)).reply == Previous(Some(op.value))
  {
  }

  // A delete that finds its key leaves it absent: deleting it again finds nothing.
  lemma DeleteOnce(s: Keyspace, limits: Limits, i: nat, key: seq<byte>)
    requires i < |s.shards|
    ensures var s' := Apply(s, limits, i, Delete(key)).store;
            key !in s'.shards[i].data && Apply(s', limits, i, Delete(key)) == Result(s', Applied(false))
  {
  }
}
