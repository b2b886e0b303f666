// The keyed store behind SetLWW, DeleteLWW, SAddLWW, SRemLWW, the digests and tombstone
// collection.  The 256 shard maps are kept as one map; ShardOf says which shard owns a key.
module LwwKeyspace {
  import opened Wrappers
  import opened Hlc
  import opened LwwSpec
  import opened LwwConvergence
  import opened LwwStore

  const NUM_SHARDS := 256

  datatype StoredValue = StringValue(val: string, hlc: Stamp) | SetStored(sv: SetValue)

  // `deleted` is the local time of the delete; it is not replicated.
  datatype Tombstone = Tombstone(stamp: Stamp, deleted: int)

  // At time `now` the tombstones come to be those: one with a stamp that was not there is new.
  ghost predicate Dated(before: map<string, Tombstone>, tombstones: map<string, Tombstone>, now: int) {
    forall k :: k in tombstones ==>
      tombstones[k].deleted ==
        if k in before && before[k].stamp == tombstones[k].stamp then before[k].deleted else now
  }

  // FastHash(key) & shardMask.
  function ShardOf(hash: string -> nat, key: string): nat {
    hash(key) % NUM_SHARDS
  }

  // Of the 256 shards two keys share one exactly when their hashes differ by a multiple of 256.
  lemma SameShardIff(hash: string -> nat, a: string, b: string)
    ensures ShardOf(hash, a) < 256
    ensures ShardOf(hash, a) == ShardOf(hash, b) <==> exists n :: hash(a) == hash(b) + 256 * n
  {
    var n := (hash(a) - hash(b)) / 256;
    if ShardOf(hash, a) == ShardOf(hash, b) { assert hash(a) == hash(b) + 256 * n; }
  }

  function ShardKeys(hash: string -> nat, keys: set<string>, shardIdx: int): set<string> {
    set k | k in keys && ShardOf(hash, k) == shardIdx
  }

  datatype Reply = Count(n: int) | ErrWrongType

  function AddOps(key: string, st: Stamp, members: seq<string>): seq<Op> {
    seq(|members|, i requires 0 <= i < |members| => AddOp(key, members[i], st))
  }

  function RemOps(key: string, st: Stamp, members: seq<string>): seq<Op> {
    seq(|members|, i requires 0 <= i < |members| => RemOp(key, members[i], st))
  }

  // What SAddLWW and SRemLWW do to the whole store.
  function Added(s: State, key: string, st: Stamp, members: seq<string>): State {
    if members == [] || WrongType(s, key) then s else PutCrdt(s, key, AddAll(CrdtAt(s, key), members, st))
  }

  function Removed(s: State, key: string, st: Stamp, members: seq<string>): State {
    if members == [] || WrongType(s, key) then s else PutCrdt(s, key, RemoveAll(CrdtAt(s, key), members, st))
  }

  lemma PutTwice(s: State, k: string, c: Crdt, d: Crdt)
    ensures PutCrdt(PutCrdt(s, k, c), k, d) == PutCrdt(s, k, d)
    ensures CrdtAt(PutCrdt(s, k, c), k) == c
  {
  }

  // A multi-member SADD is the run of its single adds.
  lemma {:induction false} RunAddOps(s: State, key: string, st: Stamp, members: seq<string>)
    ensures Run(s, AddOps(key, st, members)) == Added(s, key, st, members)
    decreases |members|
  {
    if members == [] { return; }
    var n := |members| - 1;
    var before, last := members[..n], AddOp(key, members[n], st);
    assert AddOps(key, st, members) == AddOps(key, st, before) + [last];
    RunAppend(s, AddOps(key, st, before), [last]);
    assert Run(s, []) == s;
    RunAddOps(s, key, st, before);
    var t := Run(s, AddOps(key, st, before));
    assert Run(t, [last]) == Run(Apply(t, last), []);
    if !WrongType(s, key) {
      var c := AddAll(CrdtAt(s, key), before, st);
      PutTwice(s, key, c, c.Add(members[n], st));
    }
  }

  lemma {:induction false} RunRemOps(s: State, key: string, st: Stamp, members: seq<string>)
    ensures Run(s, RemOps(key, st, members)) == Removed(s, key, st, members)
    decreases |members|
  {
    if members == [] { return; }
    var n := |members| - 1;
    var before, last := members[..n], RemOp(key, members[n], st);
    assert RemOps(key, st, members) == RemOps(key, st, before) + [last];
    RunAppend(s, RemOps(key, st, before), [last]);
    assert Run(s, []) == s;
    RunRemOps(s, key, st, before);
    var t := Run(s, RemOps(key, st, before));
    assert Run(t, [last]) == Run(Apply(t, last), []);
    if !WrongType(s, key) {
      var c := RemoveAll(CrdtAt(s, key), before, st);
      PutTwice(s, key, c, c.Remove(members[n], st));
    }
  }

  ghost function Root(v: StoredValue): set<SetValue> {
    if v.SetStored? then {v.sv} else {}
  }

  // v stands for the abstract value w; its set value, if any, belongs to key k.
  ghost predicate Stands(v: StoredValue, k: string, home: map<SetValue, string>, w: Stored)
    reads Root(v)
  {
    match v
    case StringValue(s, st) => w == Text(s, st)
    case SetStored(sv) => sv in home && home[sv] == k && sv.Valid() && w == Elements(sv.View())
  }

  class Store {
    const hash: string -> nat
    var data: map<string, StoredValue>
    var tombstones: map<string, Tombstone>

    // What the store holds, as LwwSpec sees it.
    ghost var contents: State
    // Which key each set value belongs to, so that no two keys share one.
    ghost var home: map<SetValue, string>

    // Everything is in order except, perhaps, at the key being updated.
    ghost predicate ValidBut(key: Option<string>)
      reads this, home.Keys
    {
      && contents.data.Keys == data.Keys && contents.tombs.Keys == tombstones.Keys
      && (forall k :: k in tombstones ==>
            contents.tombs[k] == tombstones[k].stamp && (k in data ==> data[k].SetStored?))
      && (forall k :: k in data && Some(k) != key ==>
            Root(data[k]) <= home.Keys && Stands(data[k], k, home, contents.data[k]))
    }

    ghost predicate Valid()
      reads this, home.Keys
    {
      ValidBut(None)
    }

    constructor (h: string -> nat)
      ensures Valid() && contents == EMPTY_STATE && hash == h && home == map[]
    {
      hash, data, tombstones := h, map[], map[];
      contents, home := EMPTY_STATE, map[];
    }

    // The stamp field of a stored value; a set leaves it zero.
    function HlcOf(v: StoredValue): Stamp {
      if v.StringValue? then v.hlc else ZERO_STAMP
    }

    method SetWithHLC(key: string, value: string, stamp: Stamp) returns (applied: bool)
      requires Valid()
      modifies this
      ensures Valid() && home == old(home) && contents == ApplySet(old(contents), key, value, stamp)
      ensures applied <==> !Superseded(old(contents), key, stamp)
      ensures tombstones == if applied then old(tombstones) - {key} else old(tombstones)
    {
      if key in data && !stamp.After(HlcOf(data[key])) { return false; }
      if key in tombstones && !stamp.After(tombstones[key].stamp) { return false; }
      data := data[key := StringValue(value, stamp)];
      tombstones := tombstones - {key};
      contents := ApplySet(contents, key, value, stamp);
      return true;
    }

    method DeleteWithHLC(key: string, stamp: Stamp, now: int) returns (applied: bool)
      requires Valid()
      modifies this
      ensures Valid() && home == old(home) && contents == ApplyDelete(old(contents), key, stamp)
      ensures applied <==> !Superseded(old(contents), key, stamp)
      ensures tombstones == if applied then old(tombstones)[key := Tombstone(stamp, now)] else old(tombstones)
    {
      if key in data && !stamp.After(HlcOf(data[key])) { return false; }
      if key in tombstones && !stamp.After(tombstones[key].stamp) { return false; }
      data := data - {key};
      tombstones := tombstones[key := Tombstone(stamp, now)];
      contents := ApplyDelete(contents, key, stamp);
      return true;
    }

    // Files an updated set value under its key.
    method PutSet(key: string, sv: SetValue)
      requires ValidBut(Some(key)) && sv.Valid() && sv in home && home[sv] == key
      requires key in data ==> data[key].SetStored?
      modifies this`data, this`contents
      ensures Valid() && contents == PutCrdt(old(contents), key, sv.View())
    {
      data := data[key := SetStored(sv)];
      contents := PutCrdt(contents, key, sv.View());
    }

    // The set value to update: the stored one, or a new empty one.
    method SetFor(key: string) returns (sv: SetValue)
      requires Valid() && !WrongType(contents, key)
      modifies this`home
      ensures Valid() && fresh(home.Keys - old(home.Keys))
      ensures sv.Valid() && sv.View() == CrdtAt(contents, key)
      ensures sv in home && home[sv] == key && (sv in old(home) || fresh(sv))
    {
      if key in data {
        sv := data[key].sv;
      } else {
        sv := new SetValue();
        home := home[sv := key];
      }
    }

    // Updating one key's set value leaves every other key in order.
    method AddIn(sv: SetValue, key: string, members: seq<string>, st: Stamp) returns (added: int)
      requires Valid() && sv in home && home[sv] == key && sv.Valid()
      modifies sv
      ensures ValidBut(Some(key)) && sv.Valid() && sv.View() == AddAll(old(sv.View()), members, st)
      ensures added == |sv.View().Members()| - |old(sv.View()).Members()|
    {
      added := sv.AddMembers(members, st);
    }

    method RemoveIn(sv: SetValue, key: string, members: seq<string>, st: Stamp) returns (removed: int)
      requires Valid() && sv in home && home[sv] == key && sv.Valid()
      modifies sv
      ensures ValidBut(Some(key)) && sv.Valid() && sv.View() == RemoveAll(old(sv.View()), members, st)
      ensures removed == |old(sv.View()).Members()| - |sv.View().Members()|
    {
      removed := sv.RemoveMembers(members, st);
    }

    method PruneIn(sv: SetValue, key: string, cutoffNanos: int) returns (pruned: nat, empty: bool)
      requires Valid() && sv in home && home[sv] == key && sv.Valid()
      modifies sv
      ensures ValidBut(Some(key)) && sv.Valid() && sv.View() == Prune(old(sv.View()), cutoffNanos)
      ensures empty <==> sv.View() == EMPTY_CRDT
    {
      pruned, empty := sv.GcElementTombstones(cutoffNanos);
    }

    method AddInSet(key: string, stamp: Stamp, members: seq<string>) returns (added: int)
      requires Valid() && !WrongType(contents, key)
      modifies this`data, this`contents, this`home, home.Keys
      ensures Valid() && fresh(home.Keys - old(home.Keys))
      ensures contents == PutCrdt(old(contents), key, AddAll(CrdtAt(old(contents), key), members, stamp))
      ensures added == |MembersOf(contents, key)| - |MembersOf(old(contents), key)|
    {
      var sv := SetFor(key);
      added := AddIn(sv, key, members, stamp);
      PutSet(key, sv);
    }

    method RemoveInSet(key: string, stamp: Stamp, members: seq<string>) returns (removed: int)
      requires Valid() && !WrongType(contents, key)
      modifies this`data, this`contents, this`home, home.Keys
      ensures Valid() && fresh(home.Keys - old(home.Keys))
      ensures contents == PutCrdt(old(contents), key, RemoveAll(CrdtAt(old(contents), key), members, stamp))
      ensures removed == |MembersOf(old(contents), key)| - |MembersOf(contents, key)|
    {
      var sv := SetFor(key);
      removed := RemoveIn(sv, key, members, stamp);
      PutSet(key, sv);
    }

    // Returns how many members became present.
    method SAddLWW(key: string, stamp: Stamp, members: seq<string>) returns (r: Reply)
      requires Valid()
      modifies this`data, this`contents, this`home, home.Keys
      ensures Valid() && fresh(home.Keys - old(home.Keys))
      ensures contents == Added(old(contents), key, stamp, members)
      ensures r == if members != [] && WrongType(old(contents), key) then ErrWrongType
                   else Count(|MembersOf(contents, key)| - |MembersOf(old(contents), key)|)
    {
      if |members| == 0 { return Count(0); }
      if key in data && !data[key].SetStored? { return ErrWrongType; }
      var added := AddInSet(key, stamp, members);
      return Count(added);
    }

    // Returns how many members were present and are now removed.
    method SRemLWW(key: string, stamp: Stamp, members: seq<string>) returns (r: Reply)
      requires Valid()
      modifies this`data, this`contents, this`home, home.Keys
      ensures Valid() && fresh(home.Keys - old(home.Keys))
      ensures contents == Removed(old(contents), key, stamp, members)
      ensures r == if members != [] && WrongType(old(contents), key) then ErrWrongType
                   else Count(|MembersOf(old(contents), key)| - |MembersOf(contents, key)|)
    {
      if |members| == 0 { return Count(0); }
      if key in data && !data[key].SetStored? { return ErrWrongType; }
      var removed := RemoveInSet(key, stamp, members);
      return Count(removed);
    }

    method DropSet(key: string)
      requires ValidBut(Some(key)) && key in data
      modifies this`data, this`contents
      ensures Valid() && contents == old(contents).(data := old(contents).data - {key})
    {
      data := data - {key};
      contents := contents.(data := contents.data - {key});
    }

    method GcSet(key: string, cutoffNanos: int) returns (gone: bool)
      requires Valid() && key in data && data[key].SetStored?
      modifies this`data, this`contents, home.Keys
      ensures Valid() && gone == Emptied(old(contents).data[key], cutoffNanos)
      ensures contents == if gone then old(contents).(data := old(contents).data - {key})
                          else PutCrdt(old(contents), key, Prune(old(contents).data[key].crdt, cutoffNanos))
    {
      var sv := data[key].sv;
      var pruned;
      pruned, gone := PruneIn(sv, key, cutoffNanos);
      if gone { DropSet(key); } else { PutSet(key, sv); }
    }

    // One key of gcTombstones' second loop.
    method GcKey(key: string, cutoffNanos: int) returns (gone: bool)
      requires Valid() && key in data
      modifies this, home.Keys
      ensures Valid() && home == old(home) && tombstones == old(tombstones)
      ensures contents == CollectSets(old(contents), {key}, cutoffNanos)
      ensures gone <==> Emptied(old(contents).data[key], cutoffNanos)
    {
      CollectKey(contents, key, cutoffNanos);
      gone := false;
      if data[key].SetStored? { gone := GcSet(key, cutoffNanos); }
    }

    // The second loop of gcTombstones: set elements, aged by the physical part of their stamp.
    method GcSets(cutoff: int) returns (emptied: nat)
      requires Valid()
      modifies this, home.Keys
      ensures Valid() && home == old(home) && tombstones == old(tombstones)
      ensures contents == CollectSets(old(contents), old(contents).data.Keys, cutoff)
      ensures emptied == |EmptiedKeys(old(contents), cutoff)|
    {
      ghost var s := contents;
      emptied := 0;
      var keys := data.Keys;
      var todo := keys;
      CollectNothing(s, keys, cutoff);
      while todo != {}
        invariant todo <= keys == s.data.Keys && Valid() && home == old(home) && tombstones == old(tombstones)
        invariant contents == CollectSets(s, keys - todo, cutoff)
        invariant emptied == |EmptiedKeys(s, cutoff) - todo|
        decreases todo
      {
        var k :| k in todo;
        OneFewer(EmptiedKeys(s, cutoff), todo, k);
        OneFewer(keys, todo, k);
        CollectOneMore(s, keys - todo, k, cutoff);
        var gone := GcKey(k, cutoff);
        if gone { emptied := emptied + 1; }
        todo := todo - {k};
      }
      assert keys - todo == keys && EmptiedKeys(s, cutoff) - todo == EmptiedKeys(s, cutoff);
    }

    method GcStrings(cutoff: int) returns (removed: nat)
      requires Valid()
      modifies this`tombstones, this`contents
      ensures Valid() && removed == |Aged(old(tombstones), cutoff)|
      ensures contents == old(contents).(tombs := old(contents).tombs - Aged(old(tombstones), cutoff))
      ensures tombstones == old(tombstones) - Aged(old(tombstones), cutoff)
    {
      ghost var aged := Aged(tombstones, cutoff);
      var kept;
      kept, removed := DropAged(tombstones, cutoff);
      tombstones := kept;
      contents := contents.(tombs := contents.tombs - aged);
    }

    // `cutoff` is the start of the retention window.
    method GcTombstones(cutoff: int) returns (removed: nat)
      requires Valid()
      modifies this, home.Keys
      ensures Valid() && home == old(home)
      ensures contents == Collect(old(contents), Aged(old(tombstones), cutoff), cutoff)
      ensures removed == |Aged(old(tombstones), cutoff)| + |EmptiedKeys(old(contents), cutoff)|
      ensures forall k :: k in tombstones <==> k in old(tombstones) && old(tombstones)[k].deleted >= cutoff
      ensures forall k :: k in tombstones ==> tombstones[k] == old(tombstones)[k]
    {
      CollectInTwoLoops(contents, Aged(tombstones, cutoff), cutoff);
      var strings := GcStrings(cutoff);
      var sets := GcSets(cutoff);
      removed := strings + sets;
    }

    // The loops of ShardLWWDigest: the shard's stored values, then its tombstones.
    method ShardLWWDigest(shardIdx: int) returns (entries: seq<Entry>)
      requires Valid()
      ensures !(0 <= shardIdx < NUM_SHARDS) ==> entries == []
      ensures 0 <= shardIdx < NUM_SHARDS ==>
                Digested(contents, entries, ShardKeys(hash, contents.data.Keys, shardIdx),
                         ShardKeys(hash, contents.tombs.Keys, shardIdx))
    {
      if !(0 <= shardIdx < NUM_SHARDS) { return []; }
      entries := DigestData(shardIdx);
      var keys := ShardKeys(hash, tombstones.Keys, shardIdx);
      ghost var dk := ShardKeys(hash, data.Keys, shardIdx);
      var todo := keys;
      assert keys - todo == {};
      while todo != {}
        invariant todo <= keys && Digested(contents, entries, dk, keys - todo)
        decreases todo
      {
        var k :| k in todo;
        OneFewer(keys, todo, k);
        DigestTombstone(contents, entries, dk, keys - todo, k);
        entries := entries + [Entry(k, "", "", tombstones[k].stamp, true)];
        todo := todo - {k};
      }
      assert keys - todo == keys;
    }

    method DigestData(shardIdx: int) returns (entries: seq<Entry>)
      requires Valid() && 0 <= shardIdx < NUM_SHARDS
      ensures Digested(contents, entries, ShardKeys(hash, contents.data.Keys, shardIdx), {})
    {
      entries := [];
      var keys := ShardKeys(hash, data.Keys, shardIdx);
      var todo := keys;
      assert keys - todo == {};
      while todo != {}
        invariant todo <= keys && Digested(contents, entries, keys - todo, {})
        decreases todo
      {
        var k :| k in todo;
        OneFewer(keys, todo, k);
        match data[k] {
          case StringValue(v, st) =>
            DigestText(contents, entries, keys - todo, k);
            entries := entries + [Entry(k, "", v, st, false)];
          case SetStored(sv) =>
            var es := sv.AppendLWWDigest(k);
            DigestElements(contents, entries, keys - todo, k, es);
            entries := entries + es;
        }
        todo := todo - {k};
      }
      assert keys - todo == keys;
    }
  }

  // The slots that the digest of data keys dk and tombstone keys tk speaks for.
  ghost predicate Covered(s: State, slot: Slot, dk: set<string>, tk: set<string>) {
    match slot
    case StringSlot(k) => (k in dk && k in s.data && s.data[k].Text?) || (k in tk && k in s.tombs)
    case ElementSlot(k, _) => k in dk
  }

  // entries hold the winner of each covered slot and nothing else.
  ghost predicate Digested(s: State, entries: seq<Entry>, dk: set<string>, tk: set<string>) {
    && (forall slot :: Covered(s, slot, dk, tk) && Winner(s, slot).Some? ==>
          EntryFor(slot, Winner(s, slot).value) in entries)
    && (forall x :: x in entries ==>
          exists slot ::
            Covered(s, slot, dk, tk) && Winner(s, slot).Some? && x == EntryFor(slot, Winner(s, slot).value))
  }

  lemma DigestMore(s: State, entries: seq<Entry>, es: seq<Entry>, dk: set<string>, tk: set<string>,
                   dk': set<string>, tk': set<string>)
    requires Digested(s, entries, dk, tk) && dk <= dk' && tk <= tk'
    requires forall slot :: Covered(s, slot, dk', tk') && !Covered(s, slot, dk, tk) && Winner(s, slot).Some? ==>
               EntryFor(slot, Winner(s, slot).value) in es
    requires forall x :: x in es ==>
               exists slot ::
                 Covered(s, slot, dk', tk') && Winner(s, slot).Some? && x == EntryFor(slot, Winner(s, slot).value)
    ensures Digested(s, entries + es, dk', tk')
  {
    forall x | x in entries + es
      ensures exists slot ::
        Covered(s, slot, dk', tk') && Winner(s, slot).Some? && x == EntryFor(slot, Winner(s, slot).value)
    {
      if x in entries {
        var slot :| Covered(s, slot, dk, tk) && Winner(s, slot).Some? && x == EntryFor(slot, Winner(s, slot).value);
        assert Covered(s, slot, dk', tk');
      }
    }
  }

  lemma DigestText(s: State, entries: seq<Entry>, dk: set<string>, k: string)
    requires Digested(s, entries, dk, {}) && k in s.data && s.data[k].Text?
    ensures Digested(s, entries + [Entry(k, "", s.data[k].value, s.data[k].stamp, false)], dk + {k}, {})
  {
    var slot := StringSlot(k);
    assert Covered(s, slot, dk + {k}, {});
    assert EntryFor(slot, Winner(s, slot).value) == Entry(k, "", s.data[k].value, s.data[k].stamp, false);
    DigestMore(s, entries, [Entry(k, "", s.data[k].value, s.data[k].stamp, false)], dk, {}, dk + {k}, {});
  }

  lemma DigestElements(s: State, entries: seq<Entry>, dk: set<string>, k: string, es: seq<Entry>)
    requires Digested(s, entries, dk, {}) && k in s.data && s.data[k].Elements?
    requires ListsWinners(es, s.data[k].crdt, k, Stamped(s.data[k].crdt))
    ensures Digested(s, entries + es, dk + {k}, {})
  {
    forall x | x in es
      ensures exists slot ::
        Covered(s, slot, dk + {k}, {}) && Winner(s, slot).Some? && x == EntryFor(slot, Winner(s, slot).value)
    {
      assert Covered(s, ElementSlot(k, x.member), dk + {k}, {}) && Winner(s, ElementSlot(k, x.member)).Some?;
    }
    DigestMore(s, entries, es, dk, {}, dk + {k}, {});
  }

  lemma DigestTombstone(s: State, entries: seq<Entry>, dk: set<string>, tk: set<string>, k: string)
    requires Digested(s, entries, dk, tk) && k in s.tombs && (k in s.data ==> s.data[k].Elements?)
    ensures Digested(s, entries + [Entry(k, "", "", s.tombs[k], true)], dk, tk + {k})
  {
    var slot := StringSlot(k);
    assert Covered(s, slot, dk, tk + {k});
    assert EntryFor(slot, Winner(s, slot).value) == Entry(k, "", "", s.tombs[k], true);
    DigestMore(s, entries, [Entry(k, "", "", s.tombs[k], true)], dk, tk, dk, tk + {k});
  }

  function Aged(tombstones: map<string, Tombstone>, cutoff: int): set<string> {
    set k | k in tombstones && tombstones[k].deleted < cutoff
  }

  predicate Emptied(v: Stored, cutoff: int) {
    v.Elements? && Prune(v.crdt, cutoff) == EMPTY_CRDT
  }

  function EmptiedKeys(s: State, cutoff: int): set<string> {
    set k | k in s.data && Emptied(s.data[k], cutoff)
  }

  // Collection restricted to the sets at some of the keys.
  function CollectSets(s: State, keys: set<string>, cutoff: int): State {
    s.(data := map k | k in s.data && !(k in keys && Emptied(s.data[k], cutoff)) ::
                 if k in keys && s.data[k].Elements? then Elements(Prune(s.data[k].crdt, cutoff)) else s.data[k])
  }

  // The first loop of gcTombstones: string tombstones, aged by the local time of the delete.
  method DropAged(tombstones: map<string, Tombstone>, cutoff: int) returns (kept: map<string, Tombstone>, removed: nat)
    ensures kept == tombstones - Aged(tombstones, cutoff)
    ensures removed == |Aged(tombstones, cutoff)|
  {
    ghost var aged := Aged(tombstones, cutoff);
    AllTombstonesLeft(tombstones, cutoff);
    kept, removed := tombstones, 0;
    var todo := tombstones.Keys;
    while todo != {}
      invariant todo <= tombstones.Keys
      invariant kept == tombstones - (aged - todo)
      invariant removed == |aged - todo|
      decreases todo
    {
      var k :| k in todo;
      OneFewer(aged, todo, k);
      if tombstones[k].deleted < cutoff {
        kept := kept - {k};
        removed := removed + 1;
      }
      todo := todo - {k};
    }
    assert aged - todo == aged;
  }

  lemma AllTombstonesLeft(tombstones: map<string, Tombstone>, cutoff: int)
    ensures |Aged(tombstones, cutoff) - tombstones.Keys| == 0
    ensures tombstones - (Aged(tombstones, cutoff) - tombstones.Keys) == tombstones
  {
    assert Aged(tombstones, cutoff) - tombstones.Keys == {};
  }

  lemma CollectKey(s: State, k: string, cutoff: int)
    requires k in s.data
    ensures CollectSets(s, {k}, cutoff) ==
              if s.data[k].Text? then s
              else if Emptied(s.data[k], cutoff) then s.(data := s.data - {k})
              else PutCrdt(s, k, Prune(s.data[k].crdt, cutoff))
  {
    var t := if s.data[k].Text? then s
             else if Emptied(s.data[k], cutoff) then s.(data := s.data - {k})
             else PutCrdt(s, k, Prune(s.data[k].crdt, cutoff));
    assert CollectSets(s, {k}, cutoff).data == t.data;
  }

  lemma CollectNothing(s: State, keys: set<string>, cutoff: int)
    requires keys == s.data.Keys
    ensures CollectSets(s, keys - keys, cutoff) == s
    ensures |EmptiedKeys(s, cutoff) - keys| == 0
  {
    assert CollectSets(s, {}, cutoff).data == s.data;
    assert EmptiedKeys(s, cutoff) - keys == {};
  }

  lemma CollectOneMore(s: State, done: set<string>, k: string, cutoff: int)
    requires k in s.data && k !in done
    ensures var t := CollectSets(s, done, cutoff);
            k in t.data && t.data[k] == s.data[k] && CollectSets(t, {k}, cutoff) == CollectSets(s, done + {k}, cutoff)
  {
    assert CollectSets(CollectSets(s, done, cutoff), {k}, cutoff).data == CollectSets(s, done + {k}, cutoff).data;
  }

  lemma CollectInTwoLoops(s: State, aged: set<string>, cutoff: int)
    ensures CollectSets(s.(tombs := s.tombs - aged), s.data.Keys, cutoff) == Collect(s, aged, cutoff)
    ensures EmptiedKeys(s.(tombs := s.tombs - aged), cutoff) == EmptiedKeys(s, cutoff)
  {
    assert CollectSets(s, s.data.Keys, cutoff).data == Collect(s, aged, cutoff).data;
  }
}
