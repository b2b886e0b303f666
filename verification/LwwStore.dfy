// A set value updated in place: its members, materialised from the element CRDT.  Each
// method is proved against LwwSpec.
module LwwStore {
  import opened Wrappers
  import opened Hlc
  import opened LwwSpec
  import opened LwwConvergence

  // An add can only bring its element in, and a remove can only take it out.
  lemma AddKeepsMembers(c: Crdt, e: string, st: Stamp)
    ensures c.Members() <= c.Add(e, st).Members() <= c.Members() + {e}
  {
  }

  lemma RemoveKeepsOthers(c: Crdt, e: string, st: Stamp)
    ensures c.Members() - {e} <= c.Remove(e, st).Members() <= c.Members()
  {
  }

  // The stamps of a set only touched by the plain path: its members, at the zero stamp.
  function Seeded(elements: set<string>): Crdt {
    Crdt(map e | e in elements :: ZERO_STAMP, map[])
  }

  // So they lose to any stamp at all, and travel unstamped.
  lemma SeededYields(elements: set<string>, e: string, st: Stamp)
    ensures var c := Seeded(elements);
            && c.Members() == elements
            && (e in c.Remove(e, st).Members() <==> e in elements && !st.After(ZERO_STAMP))
            && (ElementWinner(c, e).Some? <==> e in elements)
            && (e in elements ==> ElementWinner(c, e).value.stamp.ts.IsZero())
  {
  }

  function DeadBefore(c: Crdt, cutoff: int): set<string> {
    set e | e in c.removes && !c.Contains(e) && c.removes[e].ts.physical < cutoff
  }

  // One fact exchanged by anti-entropy: a string key's state when member is empty, else one
  // set element.
  datatype Entry = Entry(key: string, member: string, value: string, stamp: Stamp, deleted: bool)

  function EntryFor(slot: Slot, f: Fact): Entry {
    match slot
    case StringSlot(k) => Entry(k, "", if f.content.Some? then f.content.value else "", f.stamp, f.content.None?)
    case ElementSlot(k, e) => Entry(k, e, "", f.stamp, f.content.None?)
  }

  function AddAll(c: Crdt, members: seq<string>, st: Stamp): Crdt {
    if members == [] then c
    else AddAll(c, members[..|members| - 1], st).Add(members[|members| - 1], st)
  }

  function RemoveAll(c: Crdt, members: seq<string>, st: Stamp): Crdt {
    if members == [] then c
    else RemoveAll(c, members[..|members| - 1], st).Remove(members[|members| - 1], st)
  }

  function WinnerEntry(c: Crdt, setKey: string, e: string): Entry
    requires ElementWinner(c, e).Some?
  {
    EntryFor(ElementSlot(setKey, e), ElementWinner(c, e).value)
  }

  // es holds exactly the winners of the given elements.
  ghost predicate ListsWinners(es: seq<Entry>, c: Crdt, setKey: string, elems: set<string>) {
    && (forall e :: e in elems ==> ElementWinner(c, e).Some? && WinnerEntry(c, setKey, e) in es)
    && (forall x :: x in es ==> x.member in elems && x == WinnerEntry(c, setKey, x.member))
  }

  lemma ListsOneMore(es: seq<Entry>, c: Crdt, setKey: string, elems: set<string>, e: string)
    requires ListsWinners(es, c, setKey, elems) && ElementWinner(c, e).Some?
    ensures ListsWinners(es + [WinnerEntry(c, setKey, e)], c, setKey, elems + {e})
  {
  }

  // The elements that hold any stamp at all.
  function Stamped(c: Crdt): set<string> {
    c.adds.Keys + c.removes.Keys
  }

  function Without(c: Crdt, elems: set<string>): Crdt {
    Crdt(c.adds - elems, c.removes - elems)
  }

  lemma SameButOne(a: set<string>, b: set<string>, e: string)
    requires a - {e} == b - {e}
    ensures b == if e in b then a + {e} else a - {e}
    ensures e in b && e in a ==> b == a
    ensures e !in b && e !in a ==> b == a
  {
    forall x | x != e ensures x in a <==> x in b {
      assert x in a <==> x in a - {e};
    }
  }

  class SetValue {
    var elements: set<string>
    var totalSize: int
    // None until the first stamped operation.
    var crdt: Option<Crdt>

    ghost function View(): Crdt
      reads this
    {
      if crdt.None? then Seeded(elements) else crdt.value
    }

    // The materialised view: the element set is what the CRDT contains, counted exactly.
    ghost predicate Valid()
      reads this
    {
      elements == View().Members() && totalSize == |elements|
    }

    constructor ()
      ensures Valid() && View() == EMPTY_CRDT && crdt == None && elements == {}
    {
      elements, totalSize, crdt := {}, 0, None;
    }

    // Lazy seeding: invisible to anything that reads the stamps.
    method EnsureCrdt()
      requires Valid()
      modifies this`crdt
      ensures Valid() && crdt.Some? && View() == old(View())
    {
      if crdt.Some? { return; }
      var c := EMPTY_CRDT;
      var todo := elements;
      while todo != {}
        invariant todo <= elements
        invariant c == Seeded(elements - todo)
        decreases todo
      {
        var elem :| elem in todo;
        todo := todo - {elem};
        c := c.(adds := c.adds[elem := ZERO_STAMP]);
      }
      assert elements - todo == elements;
      crdt := Some(c);
    }

    method SyncMember(elem: string) returns (flipped: bool)
      requires crdt.Some? && totalSize == |elements|
      requires elements - {elem} == View().Members() - {elem}
      modifies this`elements, this`totalSize
      ensures Valid()
      ensures flipped <==> (elem in elements) != (elem in old(elements))
      ensures elements == old(elements) + {elem} || elements == old(elements) - {elem} || !flipped
      ensures !flipped ==> elements == old(elements)
    {
      SameButOne(elements, View().Members(), elem);
      var want := crdt.value.Contains(elem);
      flipped := false;
      if want && elem !in elements {
        elements := elements + {elem};
        totalSize := totalSize + 1;
        flipped := true;
      } else if !want && elem in elements {
        elements := elements - {elem};
        totalSize := totalSize - 1;
        flipped := true;
      }
    }

    method AddWithStamp(elem: string, st: Stamp) returns (flipped: bool)
      requires Valid()
      modifies this
      ensures Valid() && View() == old(View()).Add(elem, st)
      ensures |elements| == |old(elements)| + if flipped then 1 else 0
    {
      AddKeepsMembers(View(), elem, st);
      EnsureCrdt();
      crdt := Some(crdt.value.Add(elem, st));
      flipped := SyncMember(elem);
      assert flipped ==> elements == old(elements) + {elem};
    }

    method RemoveWithStamp(elem: string, st: Stamp) returns (flipped: bool)
      requires Valid()
      modifies this
      ensures Valid() && View() == old(View()).Remove(elem, st)
      ensures |elements| == |old(elements)| - if flipped then 1 else 0
    {
      RemoveKeepsOthers(View(), elem, st);
      EnsureCrdt();
      crdt := Some(crdt.value.Remove(elem, st));
      flipped := SyncMember(elem);
      assert flipped ==> elements == old(elements) - {elem};
    }

    // The member loops of SAddLWW and SRemLWW, which count the membership flips.
    method AddMembers(members: seq<string>, st: Stamp) returns (added: int)
      requires Valid()
      modifies this
      ensures Valid() && View() == AddAll(old(View()), members, st)
      ensures added == |View().Members()| - |old(View()).Members()|
    {
      added := 0;
      for i := 0 to |members|
        invariant Valid() && View() == AddAll(old(View()), members[..i], st)
        invariant added == |elements| - |old(elements)|
      {
        assert members[..i + 1][..i] == members[..i];
        var flipped := AddWithStamp(members[i], st);
        if flipped { added := added + 1; }
      }
      assert members[..|members|] == members;
    }

    method RemoveMembers(members: seq<string>, st: Stamp) returns (removed: int)
      requires Valid()
      modifies this
      ensures Valid() && View() == RemoveAll(old(View()), members, st)
      ensures removed == |old(View()).Members()| - |View().Members()|
    {
      removed := 0;
      for i := 0 to |members|
        invariant Valid() && View() == RemoveAll(old(View()), members[..i], st)
        invariant removed == |old(elements)| - |elements|
      {
        assert members[..i + 1][..i] == members[..i];
        var flipped := RemoveWithStamp(members[i], st);
        if flipped { removed := removed + 1; }
      }
      assert members[..|members|] == members;
    }

    method EmitElement(setKey: string, elem: string) returns (entry: Entry)
      requires ElementWinner(View(), elem).Some?
      ensures entry == WinnerEntry(View(), setKey, elem)
    {
      if crdt.None? { return Entry(setKey, elem, "", ZERO_STAMP, false); }
      var c := crdt.value;
      if c.Contains(elem) { return Entry(setKey, elem, "", c.adds[elem], false); }
      return Entry(setKey, elem, "", c.removes[elem], true);
    }

    // Lists the winner of every element that holds a stamp, and nothing else.
    method AppendLWWDigest(setKey: string) returns (emitted: seq<Entry>)
      requires Valid()
      ensures ListsWinners(emitted, View(), setKey, Stamped(View()))
    {
      emitted := [];
      var elems := if crdt.None? then elements else Stamped(crdt.value);
      var todo := elems;
      while todo != {}
        invariant todo <= elems == Stamped(View())
        invariant ListsWinners(emitted, View(), setKey, elems - todo)
        decreases todo
      {
        var elem :| elem in todo;
        var entry := EmitElement(setKey, elem);
        ListsOneMore(emitted, View(), setKey, elems - todo, elem);
        OneFewer(elems, todo, elem);
        emitted, todo := emitted + [entry], todo - {elem};
      }
      assert elems - todo == elems;
    }

    method GcElementTombstones(cutoffNanos: int) returns (pruned: nat, empty: bool)
      requires Valid()
      modifies this`crdt
      ensures Valid() && View() == Prune(old(View()), cutoffNanos)
      ensures pruned == |DeadBefore(old(View()), cutoffNanos)|
      ensures empty <==> View() == EMPTY_CRDT
    {
      PruneKeepsMembers(View(), cutoffNanos);
      if crdt.None? {
        return 0, |elements| == 0;
      }
      var c;
      pruned, c := DropDead(crdt.value, cutoffNanos);
      crdt := Some(c);
      empty := |elements| == 0 && |c.adds| == 0 && |c.removes| == 0;
    }
  }

  // The pruning loop of gcElementTombstones.
  method DropDead(c: Crdt, cutoffNanos: int) returns (pruned: nat, kept: Crdt)
    ensures kept == Prune(c, cutoffNanos)
    ensures pruned == |DeadBefore(c, cutoffNanos)|
  {
    pruned, kept := 0, c;
    ghost var dead := DeadBefore(c, cutoffNanos);
    AllLeft(c, cutoffNanos);
    var todo := c.removes.Keys;
    while todo != {}
      invariant todo <= c.removes.Keys
      invariant pruned == |dead - todo|
      invariant kept == Without(c, dead - todo)
      decreases todo
    {
      var elem :| elem in todo;
      DeadTest(c, dead - todo, elem, cutoffNanos);
      WithoutOneMore(c, dead - todo, elem);
      OneFewer(dead, todo, elem);
      if !kept.Contains(elem) && kept.removes[elem].ts.physical < cutoffNanos {
        kept := Without(kept, {elem});
        pruned := pruned + 1;
      }
      todo := todo - {elem};
    }
    assert dead - todo == dead;
    PruneKeepsMembers(c, cutoffNanos);
  }

  lemma AllLeft(c: Crdt, cutoff: int)
    ensures |DeadBefore(c, cutoff) - c.removes.Keys| == 0
    ensures Without(c, DeadBefore(c, cutoff) - c.removes.Keys) == c
  {
    assert DeadBefore(c, cutoff) - c.removes.Keys == {};
    assert c.adds - {} == c.adds && c.removes - {} == c.removes;
  }

  lemma OneFewer(all: set<string>, todo: set<string>, e: string)
    requires e in todo
    ensures all - (todo - {e}) == if e in all then (all - todo) + {e} else all - todo
    ensures |all - (todo - {e})| == |all - todo| + if e in all then 1 else 0
  {
    assert all - (todo - {e}) == if e in all then (all - todo) + {e} else all - todo;
  }

  // Dropping other elements does not change whether e is dead.
  lemma DeadTest(c: Crdt, dropped: set<string>, e: string, cutoff: int)
    requires e in c.removes && e !in dropped
    ensures var w := Without(c, dropped);
            e in w.removes && (e in DeadBefore(c, cutoff) <==> !w.Contains(e) && w.removes[e].ts.physical < cutoff)
  {
  }

  lemma WithoutOneMore(c: Crdt, elems: set<string>, e: string)
    ensures Without(Without(c, elems), {e}) == Without(c, elems + {e})
  {
    assert (c.adds - elems) - {e} == c.adds - (elems + {e});
    assert (c.removes - elems) - {e} == c.removes - (elems + {e});
  }

  lemma PruneKeepsMembers(c: Crdt, cutoff: int)
    ensures Prune(c, cutoff) == Without(c, DeadBefore(c, cutoff))
    ensures Prune(c, cutoff).Members() == c.Members()
  {
  }
}
