// The double-ended queue over a circular buffer, refining a sequence.
module DequeModel {
  import opened Wrappers
  import opened DequeSpec

  const INITIAL_CAPACITY := 8
  const GROWTH_FACTOR := 2

  class Deque {
    var data: array<string>
    var head: nat
    var tail: nat
    var count: nat
    var contentSize: int

    ghost var contents: seq<string>

    // The tail is head + count around the ring, except that it may stand one past the end
    // of the array instead of at its start.
    ghost predicate Valid()
      reads this, data
    {
      && head < data.Length && tail <= data.Length && count == |contents| <= data.Length
      && Wrap(tail, data.Length) == Wrap(head + count, data.Length)
      && Holds(data[..], head, contents)
      && contentSize == Total(contents)
    }

    // One past the end, with room left: the state in which a push at the back is out of range.
    ghost predicate Overhangs()
      reads this
    {
      tail == data.Length && count < data.Length
    }

    constructor ()
      ensures Valid() && contents == [] && tail < data.Length && fresh(data)
      ensures data.Length == INITIAL_CAPACITY
    {
      data := new string[INITIAL_CAPACITY](_ => "");
      head, tail, count, contentSize, contents := 0, 0, 0, 0, [];
      new;
      HoldsFlat(data[..], []);
    }

    // NewDequeWithElements leaves the tail one past the end exactly when the elements fill the
    // array.
    constructor WithElements(elements: seq<string>)
      ensures Valid() && contents == elements && fresh(data)
      ensures IsCapacityFor(data.Length, |elements|)
      ensures tail == data.Length <==> |elements| == data.Length
    {
      var capacity := CapacityFor(|elements|);
      var size := SizeOf(elements);
      data := new string[capacity](i => if 0 <= i < |elements| then elements[i] else "");
      head, tail, count, contentSize, contents := 0, |elements|, |elements|, size, elements;
      new;
      assert data[..] == elements + Blank(capacity - |elements|);
      HoldsFlat(data[..], elements);
    }

    method Grow()
      requires Valid() && count == data.Length
      modifies this
      ensures Valid() && contents == old(contents) && fresh(data)
      ensures data.Length == GROWTH_FACTOR * old(data.Length) && count == tail < data.Length
    {
      var newCap := data.Length * GROWTH_FACTOR;
      var pieces := if head < tail then data[head..tail] else data[head..] + data[..tail];
      HoldsUnwrapped(data[..], head, contents);
      assert pieces == contents;
      var newData := new string[newCap](i => if 0 <= i < |pieces| then pieces[i] else "");
      assert newData[..] == contents + Blank(newCap - count);
      HoldsFlat(newData[..], contents);
      data := newData;
      head := 0;
      tail := count;
    }

    method PushFront(elements: seq<string>) returns (n: nat)
      requires Valid()
      modifies this, data
      ensures Valid() && (data == old(data) || fresh(data))
      ensures contents == elements + old(contents) && n == |contents|
      ensures |contents| <= old(data.Length) ==> data == old(data)
      ensures tail == data.Length ==> old(tail == data.Length)
    {
      var i := |elements|;
      assert elements[i..] + contents == contents;
      while i > 0
        invariant 0 <= i <= |elements|
        invariant Valid() && (data == old(data) || fresh(data))
        invariant contents == elements[i..] + old(contents)
        invariant |contents| <= old(data.Length) ==> data == old(data)
        invariant tail == data.Length ==> old(tail == data.Length)
      {
        i := i - 1;
        PushFrontOne(elements[i]);
        assert [elements[i]] + elements[i + 1..] == elements[i..];
      }
      n := count;
    }

    method PushFrontOne(element: string)
      requires Valid()
      modifies this, data
      ensures Valid() && (data == old(data) || fresh(data))
      ensures contents == [element] + old(contents)
      ensures old(count) < old(data.Length) ==> data == old(data)
      ensures tail == data.Length ==> old(tail == data.Length)
    {
      if count == data.Length {
        Grow();
      }
      PlaceFront(element);
    }

    method PlaceFront(element: string)
      requires Valid() && count < data.Length
      modifies this, data
      ensures Valid() && data == old(data) && tail == old(tail)
      ensures contents == [element] + old(contents)
    {
      HoldsPushFront(data[..], head, contents, element);
      head := Wrap(head - 1 + data.Length, data.Length);
      data[head] := element;
      count := count + 1;
      contentSize := contentSize + |element|;
      contents := [element] + contents;
    }

    // None is the index-out-of-range panic, and it happens exactly when the tail overhangs.
    method PushBack(elements: seq<string>) returns (n: Option<nat>)
      requires Valid()
      modifies this, data
      ensures Valid() && (data == old(data) || fresh(data))
      ensures |contents| <= old(data.Length) ==> data == old(data)
      ensures n.None? <==> old(Overhangs()) && elements != []
      ensures n.None? ==> contents == old(contents)
      ensures n.Some? ==> contents == old(contents) + elements && n.value == |contents|
      ensures n.Some? && elements != [] ==> tail < data.Length
    {
      var i := 0;
      assert contents + elements[..0] == contents;
      while i < |elements|
        invariant 0 <= i <= |elements|
        invariant Valid() && (data == old(data) || fresh(data))
        invariant contents == old(contents) + elements[..i]
        invariant |contents| <= old(data.Length) ==> data == old(data)
        invariant if i == 0 then Overhangs() == old(Overhangs()) else tail < data.Length && !old(Overhangs())
      {
        var ok := PushBackOne(elements[i]);
        if !ok { return None; }
        assert elements[..i] + [elements[i]] == elements[..i + 1];
        i := i + 1;
      }
      assert elements[..i] == elements;
      return Some(count);
    }

    method PushBackOne(element: string) returns (ok: bool)
      requires Valid()
      modifies this, data
      ensures Valid() && (data == old(data) || fresh(data))
      ensures old(count) < old(data.Length) ==> data == old(data)
      ensures ok <==> !old(Overhangs())
      ensures contents == (if ok then old(contents) + [element] else old(contents)) && (ok ==> tail < data.Length)
    {
      if count == data.Length {
        Grow();
      }
      if tail == data.Length { return false; }
      PlaceBack(element);
      return true;
    }

    method PlaceBack(element: string)
      requires Valid() && count < data.Length && tail < data.Length
      modifies this, data
      ensures Valid() && data == old(data) && tail < data.Length
      ensures contents == old(contents) + [element]
    {
      HoldsPushBack(data[..], head, contents, element);
      data[tail] := element;
      tail := Wrap(tail + 1, data.Length);
      count := count + 1;
      contentSize := contentSize + |element|;
      TotalConcat(contents, [element]);
      contents := contents + [element];
    }

    method PopFront(n: int) returns (result: seq<string>)
      requires Valid()
      modifies this, data
      ensures Valid() && data == old(data) && tail == old(tail)
      ensures |result| == if n <= 0 then 0 else if n > |old(contents)| then |old(contents)| else n
      ensures result + contents == old(contents)
    {
      if n <= 0 || count == 0 { return []; }
      var n := if n > count then count else n;
      result := [];
      while |result| < n
        invariant |result| <= n && Valid() && data == old(data) && tail == old(tail)
        invariant result + contents == old(contents) && n <= |old(contents)|
      {
        var first := PopFrontOne();
        result := result + [first];
      }
    }

    method PopFrontOne() returns (first: string)
      requires Valid() && count > 0
      modifies this, data
      ensures Valid() && data == old(data) && tail == old(tail)
      ensures [first] + contents == old(contents)
    {
      HoldsPopFront(data[..], head, contents);
      first := data[head];
      contentSize := contentSize - |data[head]|;
      data[head] := "";
      head := Wrap(head + 1, data.Length);
      count := count - 1;
      contents := contents[1..];
    }

    method PopBack(n: int) returns (result: seq<string>)
      requires Valid()
      modifies this, data
      ensures Valid() && data == old(data) && (result != [] ==> tail < data.Length)
      ensures |result| == if n <= 0 then 0 else if n > |old(contents)| then |old(contents)| else n
      ensures contents + Reverse(result) == old(contents)
    {
      if n <= 0 || count == 0 {
        assert Reverse<string>([]) == [];
        return [];
      }
      var n := if n > count then count else n;
      result := [];
      assert Reverse<string>([]) == [];
      while |result| < n
        invariant |result| <= n && Valid() && data == old(data) && (result != [] ==> tail < data.Length)
        invariant contents + Reverse(result) == old(contents) && n <= |old(contents)|
      {
        var last := PopBackOne();
        assert Reverse(result + [last]) == [last] + Reverse(result);
        result := result + [last];
      }
    }

    method PopBackOne() returns (last: string)
      requires Valid() && count > 0
      modifies this, data
      ensures Valid() && data == old(data) && tail < data.Length
      ensures contents + [last] == old(contents)
    {
      HoldsPopBack(data[..], head, contents);
      WrapBack(head, count, tail, data.Length);
      TotalDropLast(contents);
      tail := Wrap(tail - 1 + data.Length, data.Length);
      last := data[tail];
      contentSize := contentSize - |data[tail]|;
      data[tail] := "";
      count := count - 1;
      contents := contents[..count];
    }

    // The element i places from the head.
    method At(i: nat) returns (element: string)
      requires Valid() && i < count
      ensures element == contents[i]
    {
      HoldsSet(data[..], head, contents, i, "");
      element := data[Wrap(head + i, data.Length)];
    }

    method Get(index: int) returns (element: string, ok: bool)
      requires Valid()
      ensures ok <==> 0 <= index < |contents|
      ensures element == if ok then contents[index] else ""
    {
      if index < 0 || index >= count { return "", false; }
      element := At(index);
      ok := true;
    }

    method Set(index: int, value: string) returns (ok: bool)
      requires Valid()
      modifies this, data
      ensures Valid() && data == old(data) && tail == old(tail)
      ensures ok <==> 0 <= index < |old(contents)|
      ensures contents == if ok then old(contents)[index := value] else old(contents)
    {
      if index < 0 || index >= count { return false; }
      HoldsSet(data[..], head, contents, index, value);
      TotalSet(contents, index, value);
      var actualIndex := Wrap(head + index, data.Length);
      contentSize := contentSize - |data[actualIndex]| + |value|;
      data[actualIndex] := value;
      contents := contents[index := value];
      return true;
    }

    method Range(start: int, stop: int) returns (result: seq<string>)
      requires Valid()
      ensures result == Slice(contents, start, stop)
    {
      if count == 0 { return []; }
      SliceOfClamped(contents, start, stop);
      var lo, hi := if start < 0 then count + start else start, if stop < 0 then count + stop else stop;
      if lo < 0 { lo := 0; }
      if hi >= count { hi := count - 1; }
      if lo > hi { return []; }
      result := CopyOut(lo, hi);
    }

    method CopyOut(lo: nat, hi: nat) returns (result: seq<string>)
      requires Valid() && lo <= hi < count
      ensures result == contents[lo..hi + 1]
    {
      result := [];
      while |result| < hi - lo + 1
        invariant |result| <= hi - lo + 1
        invariant result == contents[lo..lo + |result|]
      {
        var index := lo + |result|;
        var element := At(index);
        SliceExtend(contents, lo, index);
        result := result + [element];
      }
    }

    method ToSlice() returns (result: seq<string>)
      requires Valid()
      ensures result == contents
    {
      if count == 0 { return []; }
      result := Range(0, count - 1);
      assert contents[0..count] == contents;
    }

    method Contains(element: string) returns (found: bool)
      requires Valid()
      ensures found <==> element in contents
    {
      var i := 0;
      while i < count
        invariant 0 <= i <= count && element !in contents[..i]
      {
        var x := At(i);
        if x == element { return true; }
        assert contents[..i + 1] == contents[..i] + [contents[i]];
        i := i + 1;
      }
      assert contents[..i] == contents;
      return false;
    }

    // The array rewritten from its start with the kept elements, the rest cleared.
    method Refill(kept: seq<string>, size: int)
      requires 0 < data.Length && |kept| <= data.Length && size == Total(kept)
      modifies this, data
      ensures Valid() && contents == kept && data == old(data) && tail == |kept|
    {
      head := 0;
      tail := |kept|;
      count := |kept|;
      contentSize := size;
      contents := kept;
      forall i | 0 <= i < data.Length {
        data[i] := if i < |kept| then kept[i] else "";
      }
      assert data[..] == kept + Blank(data.Length - |kept|);
      HoldsFlat(data[..], kept);
    }

    method Clear()
      requires Valid()
      modifies this, data
      ensures Valid() && contents == [] && data == old(data) && tail < data.Length
    {
      Refill([], 0);
    }

    method Trim(start: int, stop: int)
      requires Valid()
      modifies this, data
      ensures Valid() && contents == Slice(old(contents), start, stop) && data == old(data)
      ensures old(contents) != [] ==> (tail == data.Length <==> |contents| == data.Length)
    {
      if count == 0 { return; }
      SliceOfClamped(contents, start, stop);
      var lo, hi := if start < 0 then count + start else start, if stop < 0 then count + stop else stop;
      if lo < 0 { lo := 0; }
      if hi >= count { hi := count - 1; }
      if lo > hi || lo >= count {
        Refill([], 0);
        return;
      }
      var kept := Range(lo, hi);
      var size := SizeOf(kept);
      Refill(kept, size);
    }

    method Remove(c: int64, element: string) returns (removed: nat)
      requires Valid()
      modifies this, data
      ensures Valid() && contents == Removed(old(contents), c, element) && data == old(data)
      ensures removed == |old(contents)| - |contents|
      ensures if removed > 0 then tail < data.Length else tail == old(tail)
    {
      if count == 0 { return 0; }
      var keep, removedSize;
      if c >= 0 {
        keep, removed, removedSize := KeepForward(c, element);
      } else {
        keep, removed, removedSize := KeepBackward(Negated(c), element);
      }
      RemovedFrees(contents, c, element);
      if removed > 0 {
        Refill(keep, contentSize - removedSize);
      }
    }

    // The forward scan.
    method KeepForward(c: nat, element: string) returns (keep: seq<string>, removed: nat, removedSize: int)
      requires Valid()
      ensures keep == if c == 0 then Without(contents, element) else DropFirst(contents, element, c)
      ensures removed == |contents| - |keep| && removedSize == Copies(removed, element)
    {
      keep, removed, removedSize := [], 0, 0;
      ghost var limit := if c == 0 then count else c;
      assert contents[0..] == contents;
      var i := 0;
      while i < count
        invariant 0 <= i <= count && removed <= limit
        invariant keep + DropFirst(contents[i..], element, limit - removed) == DropFirst(contents, element, limit)
        invariant removed == i - |keep| && removedSize == Copies(removed, element)
      {
        DropFirstGoesOn(keep, contents, element, limit - removed, i, DropFirst(contents, element, limit));
        var x := At(i);
        if x == element && (c == 0 || removed < c) {
          removed := removed + 1;
          removedSize := removedSize + |element|;
        } else {
          keep := keep + [x];
        }
        i := i + 1;
      }
      if c == 0 { DropFirstAll(contents, element, count); }
    }

    // The backward scan: mark from the back, then collect.
    method KeepBackward(maxRemove: int, element: string) returns (keep: seq<string>, removed: nat, removedSize: int)
      requires Valid()
      ensures keep == DropLast(contents, element, if maxRemove < 0 then 0 else maxRemove)
      ensures removed == |contents| - |keep| && removedSize == Copies(removed, element)
    {
      var temp := ToSlice();
      var flags;
      flags, removed, removedSize := MarkFromBack(temp, maxRemove, element);
      keep := Collect(temp, flags);
    }
  }

  method MarkFromBack(temp: seq<string>, maxRemove: int, element: string)
    returns (flags: seq<bool>, removed: nat, removedSize: int)
    ensures |flags| == |temp|
    ensures Unflagged(temp, flags) == DropLast(temp, element, if maxRemove < 0 then 0 else maxRemove)
    ensures removed == |temp| - |Unflagged(temp, flags)| && removedSize == Copies(removed, element)
  {
    flags, removed, removedSize := seq(|temp|, _ => false), 0, 0;
    ghost var limit: nat := if maxRemove < 0 then 0 else maxRemove;
    MarkedAtStart(temp, flags, element, limit);
    var i: nat := |temp|;
    while i > 0 && removed < maxRemove
      invariant i <= |temp| == |flags| && removed <= limit
      invariant Marked(temp, flags, element, limit, i, removed) && removedSize == Copies(removed, element)
    {
      i := i - 1;
      if temp[i] == element {
        MarkMatch(temp, flags, element, limit, i, removed);
        flags := flags[i := true];
        removed := removed + 1;
        removedSize := removedSize + |element|;
      } else {
        MarkOther(temp, flags, element, limit, i, removed);
      }
    }
    MarkedAtEnd(temp, flags, element, limit, i, removed);
  }

  method Collect(temp: seq<string>, flags: seq<bool>) returns (keep: seq<string>)
    requires |temp| == |flags|
    ensures keep == Unflagged(temp, flags)
  {
    keep := [];
    assert temp[0..] == temp && flags[0..] == flags;
    var i := 0;
    while i < |temp|
      invariant 0 <= i <= |temp| && keep + Unflagged(temp[i..], flags[i..]) == Unflagged(temp, flags)
    {
      UnflaggedStep(temp, flags, i);
      Associate(keep, [temp[i]], Unflagged(temp[i + 1..], flags[i + 1..]));
      if !flags[i] {
        keep := keep + [temp[i]];
      }
      i := i + 1;
    }
  }

  // The capacities are 8, 16, 32 and so on; the one chosen is the least that fits.
  function Capacity(k: nat): (c: nat)
    ensures c >= INITIAL_CAPACITY
  {
    if k == 0 then INITIAL_CAPACITY else Capacity(k - 1) * GROWTH_FACTOR
  }

  ghost predicate IsCapacityFor(capacity: nat, n: nat) {
    exists k: nat :: capacity == Capacity(k) && n <= capacity && (k == 0 || Capacity(k - 1) < n)
  }

  method CapacityFor(n: nat) returns (capacity: nat)
    ensures IsCapacityFor(capacity, n) && n <= capacity && capacity > 0
  {
    capacity := INITIAL_CAPACITY;
    ghost var k := 0;
    while capacity < n
      invariant capacity == Capacity(k) && (k == 0 || Capacity(k - 1) < n)
      decreases n - capacity
    {
      capacity := capacity * GROWTH_FACTOR;
      k := k + 1;
    }
  }

  method SizeOf(elements: seq<string>) returns (size: int)
    ensures size == Total(elements)
  {
    size := 0;
    var i := 0;
    while i < |elements|
      invariant 0 <= i <= |elements| && size + Total(elements[i..]) == Total(elements)
    {
      assert elements[i..][1..] == elements[i + 1..];
      size := size + |elements[i]|;
      i := i + 1;
    }
  }

  // A list of eight elements trimmed to all of itself, popped once at the front and pushed
  // once at the back: the push is out of range.
  method TrimmedListPanics(elements: seq<string>, element: string) returns (n: Option<nat>)
    requires |elements| == INITIAL_CAPACITY
    ensures n.None?
  {
    var d := new Deque();
    var pushed := d.PushBack(elements);
    d.Trim(0, -1);
    var popped := d.PopFront(1);
    n := d.PushBack([element]);
  }

  // The same without the trim, from a deque built with eight elements.
  method RestoredListPanics(elements: seq<string>, element: string) returns (n: Option<nat>)
    requires |elements| == INITIAL_CAPACITY
    ensures n.None?
  {
    var d := new Deque.WithElements(elements);
    var popped := d.PopFront(1);
    n := d.PushBack([element]);
  }
}
