// The string operations of the store as they run, with the helpers that move the counters.
module AccountingModel {
  import opened Wrappers
  import opened Integers
  import opened AccountingSpec

  class LockFreeStore {
    const limits: Limits
    const hash: seq<byte> -> nat
    var shards: seq<Shard>
    var totalKeys: int
    var totalMemory: int

    ghost function View(): Keyspace
      reads this
    {
      Keyspace(shards, totalKeys, totalMemory)
    }

    // What an operation on a key must do and reply.
    ghost function After(op: Op): Result
      requires shards != []
      reads this
    {
      Apply(View(), limits, ShardOf(hash, View(), op.key), op)
    }

    function Index(key: seq<byte>): (i: nat)
      requires shards != []
      reads this
      ensures i < |shards| && i == ShardOf(hash, View(), key)
    {
      hash(key) % |shards|
    }

    method AccountKeyAdded(i: nat, memSize: int)
      requires i < |shards|
      modifies this
      ensures shards == old(shards)[i := old(shards[i].(keyCount := shards[i].keyCount + 1,
                                                        memoryUsage := shards[i].memoryUsage + memSize))]
      ensures totalKeys == old(totalKeys) + 1 && totalMemory == old(totalMemory) + memSize
    {
      var shard := shards[i];
      shards := shards[i := shard.(keyCount := shard.keyCount + 1, memoryUsage := shard.memoryUsage + memSize)];
      totalKeys := totalKeys + 1;
      totalMemory := totalMemory + memSize;
    }

    method AccountKeyRemoved(i: nat, memSize: int)
      requires i < |shards|
      modifies this
      ensures shards == old(shards)[i := old(shards[i].(keyCount := shards[i].keyCount - 1,
                                                        memoryUsage := shards[i].memoryUsage - memSize))]
      ensures totalKeys == old(totalKeys) - 1 && totalMemory == old(totalMemory) - memSize
    {
      var shard := shards[i];
      shards := shards[i := shard.(keyCount := shard.keyCount - 1, memoryUsage := shard.memoryUsage - memSize)];
      totalKeys := totalKeys - 1;
      totalMemory := totalMemory - memSize;
    }

    method AccountMemoryDelta(i: nat, delta: int)
      requires i < |shards|
      modifies this
      ensures shards == old(shards)[i := old(shards[i]).(memoryUsage := old(shards[i].memoryUsage) + delta)]
      ensures totalKeys == old(totalKeys) && totalMemory == old(totalMemory) + delta
    {
      if delta == 0 { return; }
      var shard := shards[i];
      shards := shards[i := shard.(memoryUsage := shard.memoryUsage + delta)];
      totalMemory := totalMemory + delta;
    }

    method WouldExceed(delta: int) returns (exceeds: bool)
      ensures exceeds <==> WouldExceedMemory(View(), limits, delta)
    {
      if limits.maxMemoryUsage <= 0 || delta <= 0 { return false; }
      exceeds := totalMemory + delta > limits.maxMemoryUsage;
    }

    // Write a value into its shard and move the counters by delta.
    method Replace(i: nat, key: seq<byte>, v: StoredValue, delta: int)
      requires i < |shards|
      modifies this
      ensures View() == Put(old(View()), i, key, v, delta)
    {
      var existed := key in shards[i].data;
      shards := shards[i := shards[i].(data := shards[i].data[key := v])];
      if existed {
        AccountMemoryDelta(i, delta);
      } else {
        AccountKeyAdded(i, delta);
      }
    }

    // The part that the three kinds of SET share, under the shard lock.
    method CheckAndReplace(i: nat, key: seq<byte>, v: StoredValue) returns (reply: Reply)
      requires i < |shards|
      modifies this
      ensures Result(View(), reply) == GuardedPut(old(View()), limits, i, key, v)
    {
      var memoryDelta := v.memorySize;
      if key in shards[i].data {
        memoryDelta := v.memorySize - shards[i].data[key].memorySize;
      }
      var exceeds := WouldExceed(memoryDelta);
      if exceeds { return Refused(MemoryLimit); }
      Replace(i, key, v, memoryDelta);
      return Applied(true);
    }

    method Set(key: seq<byte>, value: seq<byte>) returns (reply: Reply)
      requires shards != []
      modifies this
      ensures Result(View(), reply) == old(After(Op.Set(key, value)))
    {
      if |key| > limits.maxKeySize { return Refused(KeyTooLarge); }
      if |value| > limits.maxValueSize { return Refused(ValueTooLarge); }
      reply := CheckAndReplace(Index(key), key, NewValue(key, value, NO_STAMP));
    }

    method SetWithOptions(key: seq<byte>, value: seq<byte>, nx: bool, xx: bool) returns (reply: Reply)
      requires shards != []
      modifies this
      ensures Result(View(), reply) == old(After(Op.SetWithOptions(key, value, nx, xx)))
    {
      if |key| > limits.maxKeySize { return Refused(KeyTooLarge); }
      if |value| > limits.maxValueSize { return Refused(ValueTooLarge); }
      var i := Index(key);
      var existed := key in shards[i].data;
      if (nx && existed) || (xx && !existed) { return Applied(false); }
      reply := CheckAndReplace(i, key, NewValue(key, value, NO_STAMP));
    }

    method SetWithHLC(key: seq<byte>, value: seq<byte>, stamp: Stamp) returns (reply: Reply)
      requires shards != []
      modifies this
      ensures Result(View(), reply) == old(After(Op.SetWithHLC(key, value, stamp)))
    {
      if |key| > limits.maxKeySize { return Refused(KeyTooLarge); }
      if |value| > limits.maxValueSize { return Refused(ValueTooLarge); }
      var i := Index(key);
      if key in shards[i].data && !stamp.After(shards[i].data[key].hlc) { return Applied(false); }
      if key in shards[i].tombstones && !stamp.After(shards[i].tombstones[key]) { return Applied(false); }
      reply := CheckAndReplace(i, key, NewValue(key, value, stamp));
      if reply.Refused? { return; }
      shards := shards[i := shards[i].(tombstones := shards[i].tombstones - {key})];
    }

    // Take a key out of its shard and move the counters.
    method Remove(i: nat, key: seq<byte>)
      requires i < |shards| && key in shards[i].data
      modifies this
      ensures View() == Drop(old(View()), i, key, MemoryUsage(limits, old(shards[i].data[key])))
    {
      var freed := MemoryUsage(limits, shards[i].data[key]);
      shards := shards[i := shards[i].(data := shards[i].data - {key})];
      AccountKeyRemoved(i, freed);
    }

    method Delete(key: seq<byte>) returns (reply: Reply)
      requires shards != []
      modifies this
      ensures Result(View(), reply) == old(After(Op.Delete(key)))
    {
      var i := Index(key);
      if key !in shards[i].data { return Applied(false); }
      Remove(i, key);
      return Applied(true);
    }

    method DeleteWithHLC(key: seq<byte>, stamp: Stamp) returns (reply: Reply)
      requires shards != []
      modifies this
      ensures Result(View(), reply) == old(After(Op.DeleteWithHLC(key, stamp)))
    {
      var i := Index(key);
      if key in shards[i].data && !stamp.After(shards[i].data[key].hlc) { return Applied(false); }
      if key in shards[i].tombstones && !stamp.After(shards[i].tombstones[key]) { return Applied(false); }
      if key in shards[i].data { Remove(i, key); }
      shards := shards[i := shards[i].(tombstones := shards[i].tombstones[key := stamp])];
      return Applied(true);
    }

    // Store a new text, charged against what MemoryUsage says of the one it replaces.
    method Overwrite(i: nat, key: seq<byte>, text: seq<byte>)
      requires i < |shards|
      modifies this
      ensures View() == Rewrite(old(View()), limits, i, key, text)
    {
      var oldMem := 0;
      if key in shards[i].data {
        oldMem := MemoryUsage(limits, shards[i].data[key]);
      }
      var v := NewValue(key, text, NO_STAMP);
      Replace(i, key, v, v.memorySize - oldMem);
    }

    method IncrBy(key: seq<byte>, increment: int64) returns (reply: Reply)
      requires shards != []
      modifies this
      ensures Result(View(), reply) == old(After(Op.IncrBy(key, increment)))
    {
      var i := Index(key);
      var currentValue: int64 := 0;
      if key in shards[i].data {
        var text := shards[i].data[key].text;
        if text != [] {
          var parsed := ParseIntegerStrict(text);
          if parsed.None? { return Refused(NotInteger); }
          currentValue := parsed.value;
        }
      }
      var newValue := Wrap64(currentValue + increment);
      OverflowTestIsExact(currentValue, increment);
      if (increment > 0 && newValue < currentValue) || (increment < 0 && newValue > currentValue) {
        return Refused(Overflow);
      }
      var newText := FormatInt64Fast(newValue);
      Overwrite(i, key, newText);
      return Number(newValue);
    }

    method Append(key: seq<byte>, value: seq<byte>) returns (reply: Reply)
      requires shards != []
      modifies this
      ensures Result(View(), reply) == old(After(Op.Append(key, value)))
    {
      var i := Index(key);
      var newValue := value;
      if key in shards[i].data {
        newValue := shards[i].data[key].text + value;
      } else {
        assert [] + value == value;
      }
      Overwrite(i, key, newValue);
      return Number(|newValue|);
    }

    method GetSet(key: seq<byte>, value: seq<byte>) returns (reply: Reply)
      requires shards != []
      modifies this
      ensures Result(View(), reply) == old(After(Op.GetSet(key, value)))
    {
      var i := Index(key);
      var was := if key in shards[i].data then Some(shards[i].data[key].text) else None;
      Overwrite(i, key, value);
      return Previous(was);
    }
  }
}
