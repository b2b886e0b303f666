// Lists of strings, and the ring they are laid out in.
module DequeSpec {
  import opened Wrappers

  /* The ring */

  // The remainder of an index less than twice the capacity.
  function Wrap(i: nat, n: nat): (r: nat)
    requires i < 2 * n
    ensures r < n
  {
    if i < n then i else i - n
  }

  // One step back from the index after the last element is the index of that element.
  lemma WrapBack(head: nat, count: nat, tail: nat, n: nat)
    requires head < n && 0 < count <= n && tail <= n && Wrap(tail, n) == Wrap(head + count, n)
    ensures Wrap(tail + n - 1, n) == Wrap(head + count - 1, n)
    ensures Wrap(tail + n - 1, n) == Wrap(Wrap(tail + n - 1, n), n)
  {
  }

  // The array as seen from head, once around.
  function Ring<T>(d: seq<T>, head: nat): (r: seq<T>)
    requires head < |d|
    ensures |r| == |d| && forall i :: 0 <= i < |d| ==> r[i] == d[Wrap(head + i, |d|)]
  {
    d[head..] + d[..head]
  }

  lemma RingSet<T>(d: seq<T>, head: nat, i: nat, x: T)
    requires head < |d| && i < |d|
    ensures Ring(d[Wrap(head + i, |d|) := x], head) == Ring(d, head)[i := x]
  {
  }

  lemma RingAdvance<T>(d: seq<T>, head: nat)
    requires head < |d|
    ensures Ring(d, Wrap(head + 1, |d|)) == Ring(d, head)[1..] + [Ring(d, head)[0]]
  {
  }

  lemma RingRetreat<T>(d: seq<T>, head: nat)
    requires head < |d|
    ensures Ring(d, Wrap(head + |d| - 1, |d|)) == [Ring(d, head)[|d| - 1]] + Ring(d, head)[..|d| - 1]
  {
  }

  function Blank(n: nat): (s: seq<string>)
    ensures |s| == n
  {
    seq(n, _ => "")
  }

  // A ring whose first elements are s and whose other slots are cleared.
  ghost predicate Holds(d: seq<string>, head: nat, s: seq<string>)
    requires head < |d|
  {
    |s| <= |d| && Ring(d, head) == s + Blank(|d| - |s|)
  }

  lemma HoldsPushBack(d: seq<string>, head: nat, s: seq<string>, x: string)
    requires head < |d| && Holds(d, head, s) && |s| < |d|
    ensures Holds(d[Wrap(head + |s|, |d|) := x], head, s + [x])
  {
    RingSet(d, head, |s|, x);
    assert (s + Blank(|d| - |s|))[|s| := x] == (s + [x]) + Blank(|d| - |s| - 1);
  }

  lemma HoldsPushFront(d: seq<string>, head: nat, s: seq<string>, x: string)
    requires head < |d| && Holds(d, head, s) && |s| < |d|
    ensures var front := Wrap(head + |d| - 1, |d|);
            Holds(d[front := x], front, [x] + s)
  {
    var front := Wrap(head + |d| - 1, |d|);
    RingRetreat(d, head);
    RingSet(d, front, 0, x);
    var ring := s + Blank(|d| - |s|);
    assert ([ring[|d| - 1]] + ring[..|d| - 1])[0 := x] == ([x] + s) + Blank(|d| - |s| - 1);
  }

  lemma HoldsPopFront(d: seq<string>, head: nat, s: seq<string>)
    requires head < |d| && Holds(d, head, s) && s != []
    ensures d[head] == s[0] && Holds(d[head := ""], Wrap(head + 1, |d|), s[1..])
  {
    RingSet(d, head, 0, "");
    RingAdvance(d[head := ""], head);
    var ring := s + Blank(|d| - |s|);
    assert Ring(d, head)[0] == ring[0];
    assert ring[0 := ""][1..] + [""] == s[1..] + Blank(|d| - |s| + 1);
  }

  lemma HoldsPopBack(d: seq<string>, head: nat, s: seq<string>)
    requires head < |d| && Holds(d, head, s) && s != []
    ensures var back := Wrap(head + |s| - 1, |d|);
            d[back] == s[|s| - 1] && Holds(d[back := ""], head, s[..|s| - 1])
  {
    var i := |s| - 1;
    RingSet(d, head, i, "");
    var ring := s + Blank(|d| - |s|);
    assert Ring(d, head)[i] == ring[i];
    assert ring[i := ""] == s[..i] + Blank(|d| - i);
  }

  lemma HoldsSet(d: seq<string>, head: nat, s: seq<string>, i: nat, x: string)
    requires head < |d| && Holds(d, head, s) && i < |s|
    ensures var at := Wrap(head + i, |d|);
            d[at] == s[i] && Holds(d[at := x], head, s[i := x])
  {
    RingSet(d, head, i, x);
    var ring := s + Blank(|d| - |s|);
    assert Ring(d, head)[i] == ring[i];
    assert ring[i := x] == s[i := x] + Blank(|d| - |s|);
  }

  // What grow copies, in one piece or two, when the ring is full.
  lemma HoldsUnwrapped(d: seq<string>, head: nat, s: seq<string>)
    requires head < |d| && Holds(d, head, s) && |s| == |d|
    ensures d[head..] + d[..head] == s
  {
    assert s + Blank(0) == s;
  }

  lemma HoldsFlat(d: seq<string>, s: seq<string>)
    requires 0 < |d| && |s| <= |d| && d == s + Blank(|d| - |s|)
    ensures Holds(d, 0, s)
  {
    assert Ring(d, 0) == d;
  }

  /* Lists */

  function Total(s: seq<string>): (n: nat)
  {
    if s == [] then 0 else |s[0]| + Total(s[1..])
  }

  lemma {:induction false} TotalConcat(s: seq<string>, t: seq<string>)
    ensures Total(s + t) == Total(s) + Total(t)
  {
    if s == [] {
      assert s + t == t;
    } else {
      assert (s + t)[1..] == s[1..] + t;
      TotalConcat(s[1..], t);
    }
  }

  lemma TotalSplit(s: seq<string>, i: nat)
    requires i <= |s|
    ensures Total(s) == Total(s[..i]) + Total(s[i..])
  {
    assert s == s[..i] + s[i..];
    TotalConcat(s[..i], s[i..]);
  }

  lemma TotalDropLast(s: seq<string>)
    requires s != []
    ensures s == s[..|s| - 1] + [s[|s| - 1]] && Total(s[..|s| - 1]) == Total(s) - |s[|s| - 1]|
  {
    TotalSplit(s, |s| - 1);
  }

  lemma TotalSet(s: seq<string>, i: nat, x: string)
    requires i < |s|
    ensures Total(s[i := x]) == Total(s) - |s[i]| + |x|
  {
    TotalSplit(s, i);
    TotalSplit(s[i := x], i);
    assert s[i := x][..i] == s[..i] && s[i := x][i..][1..] == s[i..][1..];
  }

  function Reverse<T>(s: seq<T>): (r: seq<T>)
    ensures |r| == |s| && forall i :: 0 <= i < |s| ==> r[i] == s[|s| - 1 - i]
  {
    seq(|s|, i requires 0 <= i < |s| => s[|s| - 1 - i])
  }

  // A position counted from the end when negative.
  function Position(n: nat, i: int): int {
    if i < 0 then n + i else i
  }

  // LRANGE: the elements between two positions, both included.
  function Slice(s: seq<string>, start: int, stop: int): seq<string> {
    var lo := if Position(|s|, start) < 0 then 0 else Position(|s|, start);
    var hi := if Position(|s|, stop) >= |s| then |s| - 1 else Position(|s|, stop);
    if lo > hi then [] else s[lo..hi + 1]
  }

  // Positions clamped to the list first give the same slice.
  lemma SliceOfClamped(s: seq<string>, start: int, stop: int)
    ensures var lo := if Position(|s|, start) < 0 then 0 else Position(|s|, start);
            var hi := if Position(|s|, stop) >= |s| then |s| - 1 else Position(|s|, stop);
            if lo > hi then Slice(s, start, stop) == [] else lo < |s| && Slice(s, start, stop) == Slice(s, lo, hi)
  {
  }

  lemma SliceExtend(s: seq<string>, lo: nat, i: nat)
    requires lo <= i < |s|
    ensures s[lo..i] + [s[i]] == s[lo..i + 1]
  {
  }

  // The slice holds s[i] exactly for the i between the positions, in order.
  lemma SliceIsBetween(s: seq<string>, start: int, stop: int, i: nat)
    requires i < |s|
    ensures var before := if Position(|s|, start) < 0 then 0 else Position(|s|, start);
            Position(|s|, start) <= i <= Position(|s|, stop) <==>
            before <= i < before + |Slice(s, start, stop)|
    ensures var before := if Position(|s|, start) < 0 then 0 else Position(|s|, start);
            before <= i < before + |Slice(s, start, stop)| ==> Slice(s, start, stop)[i - before] == s[i]
  {
  }

  // Minus k names the k-th element from the end, and what lies further back than the first
  // element counts as the first.
  lemma NegativeCountsFromEnd(s: seq<string>, k: nat, other: int)
    requires 0 < k
    ensures Slice(s, 0 - k, other) == Slice(s, if k <= |s| then |s| - k else 0, other)
    ensures k <= |s| ==> Slice(s, other, 0 - k) == Slice(s, other, |s| - k)
    ensures k > |s| ==> Slice(s, other, 0 - k) == []
  {
  }

  // From the first element to the last is the whole list, and from one to itself is that one.
  lemma SliceOfAll(s: seq<string>, i: nat)
    ensures Slice(s, 0, -1) == s
    ensures Slice(s, i, i) == if i < |s| then [s[i]] else []
  {
  }

  /* Removal */

  function Without(s: seq<string>, x: string): (r: seq<string>)
    ensures |r| <= |s|
  {
    if s == [] then [] else (if s[0] == x then [] else [s[0]]) + Without(s[1..], x)
  }

  function DropFirst(s: seq<string>, x: string, c: nat): (r: seq<string>)
    ensures |s| - c <= |r| <= |s|
  {
    if s == [] || c == 0 then s
    else if s[0] == x then DropFirst(s[1..], x, c - 1)
    else [s[0]] + DropFirst(s[1..], x, c)
  }

  function DropLast(s: seq<string>, x: string, c: nat): (r: seq<string>)
    ensures |s| - c <= |r| <= |s|
  {
    var n := |s| - 1;
    if s == [] || c == 0 then s
    else if s[n] == x then DropLast(s[..n], x, c - 1)
    else DropLast(s[..n], x, c) + [s[n]]
  }

  lemma DropFirstStep(s: seq<string>, x: string, c: nat, i: nat)
    requires i < |s|
    ensures DropFirst(s[i..], x, c) ==
            if s[i] == x && c > 0 then DropFirst(s[i + 1..], x, c - 1) else [s[i]] + DropFirst(s[i + 1..], x, c)
  {
    assert s[i..][1..] == s[i + 1..] && s[i..] == [s[i]] + s[i + 1..];
  }

  // One element of the forward scan.
  lemma DropFirstGoesOn(kept: seq<string>, s: seq<string>, x: string, c: nat, i: nat, all: seq<string>)
    requires i < |s| && kept + DropFirst(s[i..], x, c) == all
    ensures if s[i] == x && c > 0 then kept + DropFirst(s[i + 1..], x, c - 1) == all
            else (kept + [s[i]]) + DropFirst(s[i + 1..], x, c) == all
  {
    DropFirstStep(s, x, c, i);
    Associate(kept, [s[i]], DropFirst(s[i + 1..], x, c));
  }

  lemma DropLastStep(s: seq<string>, x: string, c: nat, i: nat)
    requires i < |s| && c > 0
    ensures DropLast(s[..i + 1], x, c) ==
            if s[i] == x then DropLast(s[..i], x, c - 1) else DropLast(s[..i], x, c) + [s[i]]
  {
    assert s[..i + 1][..i] == s[..i];
  }

  // The elements that are not flagged.
  function Unflagged(s: seq<string>, flags: seq<bool>): (r: seq<string>)
    requires |s| == |flags|
  {
    if s == [] then [] else (if flags[0] then [] else [s[0]]) + Unflagged(s[1..], flags[1..])
  }

  lemma UnflaggedStep(s: seq<string>, flags: seq<bool>, i: nat)
    requires i < |s| == |flags|
    ensures Unflagged(s[i..], flags[i..]) ==
            (if flags[i] then [] else [s[i]]) + Unflagged(s[i + 1..], flags[i + 1..])
  {
    assert s[i..][1..] == s[i + 1..] && flags[i..][1..] == flags[i + 1..];
  }

  lemma UnflaggedFlag(s: seq<string>, flags: seq<bool>, i: nat)
    requires i < |s| == |flags|
    ensures Unflagged(s[i..], flags[i := true][i..]) == Unflagged(s[i + 1..], flags[i + 1..])
  {
    UnflaggedStep(s, flags[i := true], i);
    assert flags[i := true][i + 1..] == flags[i + 1..];
  }

  lemma {:induction false} UnflaggedPrefix(s: seq<string>, flags: seq<bool>, k: nat)
    requires k <= |s| == |flags| && forall j :: 0 <= j < k ==> !flags[j]
    ensures Unflagged(s, flags) == s[..k] + Unflagged(s[k..], flags[k..])
  {
    if k == 0 {
      assert s[0..] == s && flags[0..] == flags;
    } else {
      UnflaggedPrefix(s, flags, k - 1);
      UnflaggedStep(s, flags, k - 1);
    }
  }

  // The backward scan has dealt with the elements from i on.
  ghost predicate Marked(s: seq<string>, flags: seq<bool>, x: string, c: nat, i: nat, removed: nat)
    requires i <= |s| == |flags| && removed <= c
  {
    && (forall j :: 0 <= j < i ==> !flags[j])
    && DropLast(s[..i], x, c - removed) + Unflagged(s[i..], flags[i..]) == DropLast(s, x, c)
    && |Unflagged(s[i..], flags[i..])| + removed == |s| - i
  }

  lemma MarkedAtStart(s: seq<string>, flags: seq<bool>, x: string, c: nat)
    requires |flags| == |s| && forall j :: 0 <= j < |s| ==> !flags[j]
    ensures Marked(s, flags, x, c, |s|, 0)
  {
    assert s[..|s|] == s && s[|s|..] == [];
  }

  lemma MarkMatch(s: seq<string>, flags: seq<bool>, x: string, c: nat, i: nat, removed: nat)
    requires i < |s| == |flags| && removed < c && Marked(s, flags, x, c, i + 1, removed) && s[i] == x
    ensures Marked(s, flags[i := true], x, c, i, removed + 1)
  {
    DropLastStep(s, x, c - removed, i);
    UnflaggedFlag(s, flags, i);
  }

  lemma MarkOther(s: seq<string>, flags: seq<bool>, x: string, c: nat, i: nat, removed: nat)
    requires i < |s| == |flags| && removed < c && Marked(s, flags, x, c, i + 1, removed) && s[i] != x
    ensures Marked(s, flags, x, c, i, removed)
  {
    var dropped, rest := DropLast(s[..i], x, c - removed), Unflagged(s[i + 1..], flags[i + 1..]);
    DropLastStep(s, x, c - removed, i);
    UnflaggedStep(s, flags, i);
    Associate(dropped, [s[i]], rest);
  }

  lemma MarkedAtEnd(s: seq<string>, flags: seq<bool>, x: string, c: nat, i: nat, removed: nat)
    requires i <= |s| == |flags| && removed <= c && Marked(s, flags, x, c, i, removed)
    requires i == 0 || removed == c
    ensures Unflagged(s, flags) == DropLast(s, x, c) && |Unflagged(s, flags)| + removed == |s|
  {
    UnflaggedPrefix(s, flags, i);
  }

  // What Remove leaves, with the 64-bit negation it does.
  function Removed(s: seq<string>, c: int64, x: string): seq<string> {
    if c > 0 then DropFirst(s, x, c)
    else if c == 0 then Without(s, x)
    else DropLast(s, x, if Negated(c) < 0 then 0 else Negated(c))
  }

  lemma CutAfterFirst<T>(s: seq<T>, cut: nat)
    requires 0 < cut <= |s|
    ensures s[..cut][0] == s[0] && s[..cut][1..] == s[1..][..cut - 1] && s[cut..] == s[1..][cut - 1..]
    ensures multiset(s) == multiset{s[0]} + multiset(s[1..])
    ensures multiset(s[..cut]) == multiset{s[0]} + multiset(s[1..][..cut - 1])
  {
    assert s == [s[0]] + s[1..] && s[..cut] == [s[0]] + s[1..][..cut - 1];
  }

  // DropFirst drops exactly the matches up to some cut, min(c, all) of them, and nothing after.
  lemma {:induction false} DropFirstIsPrefixFilter(s: seq<string>, x: string, c: nat) returns (cut: nat)
    ensures cut <= |s| && DropFirst(s, x, c) == Without(s[..cut], x) + s[cut..]
    ensures multiset(s[..cut])[x] == if c < multiset(s)[x] then c else multiset(s)[x]
  {
    if s == [] || c == 0 {
      cut := 0;
    } else {
      var rest := DropFirstIsPrefixFilter(s[1..], x, if s[0] == x then c - 1 else c);
      cut := rest + 1;
      CutAfterFirst(s, cut);
    }
  }

  lemma {:induction false} DropFirstAll(s: seq<string>, x: string, c: nat)
    requires c >= |s|
    ensures DropFirst(s, x, c) == Without(s, x)
  {
    if s != [] { DropFirstAll(s[1..], x, if s[0] == x then c - 1 else c); }
  }

  // The size of n copies of x.
  function Copies(n: nat, x: string): nat {
    if n == 0 then 0 else |x| + Copies(n - 1, x)
  }

  // A removal that leaves r frees as many times the element's size as there were removals,
  // and a removal of none leaves the list as it was.
  ghost predicate Frees(s: seq<string>, r: seq<string>, x: string) {
    && |r| <= |s|
    && Total(r) + Copies(|s| - |r|, x) == Total(s)
    && (|r| == |s| ==> r == s)
  }

  lemma FreesFirst(s: seq<string>, r: seq<string>, x: string)
    requires s != [] && s[0] == x && Frees(s[1..], r, x)
    ensures Frees(s, r, x)
  {
    assert |s| - |r| == 1 + (|s[1..]| - |r|);
  }

  lemma KeepsFirst(s: seq<string>, r: seq<string>, x: string)
    requires s != [] && Frees(s[1..], r, x)
    ensures Frees(s, [s[0]] + r, x)
  {
    assert ([s[0]] + r)[1..] == r && s == [s[0]] + s[1..];
    assert |s| - |[s[0]] + r| == |s[1..]| - |r|;
  }

  lemma {:induction false} WithoutFrees(s: seq<string>, x: string)
    ensures Frees(s, Without(s, x), x)
  {
    if s != [] {
      WithoutFrees(s[1..], x);
      if s[0] == x {
        assert Without(s, x) == Without(s[1..], x);
        FreesFirst(s, Without(s[1..], x), x);
      } else {
        KeepsFirst(s, Without(s[1..], x), x);
      }
    }
  }

  lemma {:induction false} DropFirstFrees(s: seq<string>, x: string, c: nat)
    ensures Frees(s, DropFirst(s, x, c), x)
  {
    if s != [] && c > 0 {
      if s[0] == x {
        DropFirstFrees(s[1..], x, c - 1);
        FreesFirst(s, DropFirst(s[1..], x, c - 1), x);
      } else {
        DropFirstFrees(s[1..], x, c);
        KeepsFirst(s, DropFirst(s[1..], x, c), x);
      }
    }
  }

  lemma {:induction false} DropLastFrees(s: seq<string>, x: string, c: nat)
    ensures Frees(s, DropLast(s, x, c), x)
  {
    var n := |s| - 1;
    if s != [] && c > 0 {
      assert s == s[..n] + [s[n]];
      TotalConcat(s[..n], [s[n]]);
      if s[n] == x {
        DropLastFrees(s[..n], x, c - 1);
      } else {
        DropLastFrees(s[..n], x, c);
        TotalConcat(DropLast(s[..n], x, c), [s[n]]);
      }
    }
  }

  lemma RemovedFrees(s: seq<string>, c: int64, x: string)
    ensures |Removed(s, c, x)| <= |s| && Total(Removed(s, c, x)) + Copies(|s| - |Removed(s, c, x)|, x) == Total(s)
    ensures |Removed(s, c, x)| == |s| ==> Removed(s, c, x) == s
  {
    WithoutFrees(s, x);
    if c > 0 { DropFirstFrees(s, x, c); }
    if c < 0 { DropLastFrees(s, x, if Negated(c) < 0 then 0 else Negated(c)); }
  }

  lemma {:induction false} DropLastIsMirror(s: seq<string>, x: string, c: nat)
    ensures DropLast(s, x, c) == Reverse(DropFirst(Reverse(s), x, c))
  {
    if s == [] || c == 0 {
      assert Reverse(Reverse(s)) == s;
    } else {
      var n := |s| - 1;
      assert Reverse(s)[1..] == Reverse(s[..n]);
      if s[n] == x {
        DropLastIsMirror(s[..n], x, c - 1);
      } else {
        DropLastIsMirror(s[..n], x, c);
        var t := DropFirst(Reverse(s[..n]), x, c);
        assert Reverse([s[n]] + t) == Reverse(t) + [s[n]];
      }
    }
  }

  // Counting from the tail mirrors counting from the head.
  lemma RemovalMirrors(s: seq<string>, c: int64, x: string)
    requires 0 < c
    ensures Removed(s, -c, x) == Reverse(Removed(Reverse(s), c, x))
  {
    DropLastIsMirror(s, x, c);
  }

  lemma {:induction false} DropLastUnchangedIffAbsent(s: seq<string>, x: string, c: nat)
    requires c > 0
    ensures DropLast(s, x, c) == s <==> x !in s
  {
    var n := |s| - 1;
    if s != [] && s[n] != x {
      DropLastUnchangedIffAbsent(s[..n], x, c);
      assert s == s[..n] + [s[n]];
    }
  }

  lemma {:induction false} WithoutConcat(s: seq<string>, t: seq<string>, x: string)
    ensures Without(s + t, x) == Without(s, x) + Without(t, x)
  {
    if s == [] {
      assert s + t == t;
    } else {
      assert (s + t)[1..] == s[1..] + t;
      WithoutConcat(s[1..], t, x);
    }
  }

  lemma WithoutOne(y: string, x: string)
    ensures Without([y], x) == if y == x then [] else [y]
  {
    assert [y][1..] == [];
  }

  // What Remove leaves holds the other elements as they were, and of x as many as were not
  // asked for.
  ghost predicate Leaves(s: seq<string>, r: seq<string>, x: string, count: nat) {
    && Without(r, x) == Without(s, x)
    && multiset(r)[x] == if multiset(s)[x] < count then 0 else multiset(s)[x] - count
  }

  lemma {:induction false} WithoutLeaves(s: seq<string>, x: string)
    ensures Without(Without(s, x), x) == Without(s, x) && multiset(Without(s, x))[x] == 0
  {
    if s != [] {
      WithoutLeaves(s[1..], x);
      WithoutOne(s[0], x);
      WithoutConcat(if s[0] == x then [] else [s[0]], Without(s[1..], x), x);
    }
  }

  lemma {:induction false} DropFirstLeaves(s: seq<string>, x: string, c: nat)
    ensures Leaves(s, DropFirst(s, x, c), x, c)
  {
    if s != [] && c > 0 {
      var rest := DropFirst(s[1..], x, if s[0] == x then c - 1 else c);
      DropFirstLeaves(s[1..], x, if s[0] == x then c - 1 else c);
      assert s == [s[0]] + s[1..];
      WithoutOne(s[0], x);
      WithoutConcat([s[0]], rest, x);
    }
  }

  lemma {:induction false} DropLastLeaves(s: seq<string>, x: string, c: nat)
    ensures Leaves(s, DropLast(s, x, c), x, c)
  {
    if s != [] && c > 0 {
      var n := |s| - 1;
      var rest := DropLast(s[..n], x, if s[n] == x then c - 1 else c);
      DropLastLeaves(s[..n], x, if s[n] == x then c - 1 else c);
      assert s == s[..n] + [s[n]];
      WithoutOne(s[n], x);
      WithoutConcat(s[..n], [s[n]], x);
      WithoutConcat(rest, [s[n]], x);
    }
  }

  // How many removals a count asks for; zero asks for all there are.
  function Asked(s: seq<string>, c: int64): nat {
    if c > 0 then c else if c == 0 then |s| else if c == MIN_INT64 then 0 else -c
  }

  lemma RemovedLeaves(s: seq<string>, c: int64, x: string)
    ensures Leaves(s, Removed(s, c, x), x, Asked(s, c))
  {
    if c > 0 {
      DropFirstLeaves(s, x, c);
    } else if c < 0 {
      DropLastLeaves(s, x, if Negated(c) < 0 then 0 else Negated(c));
    } else {
      WithoutLeaves(s, x);
      assert multiset(s)[x] <= |multiset(s)| == |s|;
    }
  }

  // The smallest count asks for 2^63 removals from the tail but negates to itself: nothing is
  // removed, which is right exactly when there is nothing to remove.
  lemma SmallestCountRemovesNothing(s: seq<string>, x: string)
    ensures Removed(s, MIN_INT64, x) == s
    ensures Removed(s, MIN_INT64, x) == DropLast(s, x, -MIN_INT64) <==> x !in s
  {
    DropLastUnchangedIffAbsent(s, x, -MIN_INT64);
  }
}
