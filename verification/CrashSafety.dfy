// Crash safety of the commit log: whatever appends, rotations, compactions, recoveries and
// crashes a run contains, the segment files always recover the snapshot of everything that
// was ever appended.
module CrashSafety {
  import opened Wrappers
  import opened LogEntry
  import opened CompactionSpec

  // A removal that recovery is about to make: once the marked compacted file exists, the file
  // it will be renamed over must not be needed.
  ghost predicate MarkerOk(d: Disk, current: nat, history: seq<Entry>) {
    d.marker.Some? ==>
      var c := d.marker.value;
      && c.depth >= 1 && c.id < current
      && (Lookup(d.files, c).Some? ==> Faithful(LogOf(Remove(d.files, Unsuffixed(c))), history))
  }

  // The file being appended to has the highest id; all others are closed.
  ghost predicate Layout(files: seq<File>, current: nat) {
    && Sorted(files) && |files| > 0
    && files[|files| - 1].name == Name(current, 0)
    && forall i :: 0 <= i < |files| - 1 ==> files[i].name.id < current
  }

  ghost predicate Inv(d: Disk, current: nat, history: seq<Entry>) {
    && Layout(d.files, current)
    && UniqueTimes(history)
    && Faithful(LogOf(d.files), history)
    && MarkerOk(d, current, history)
  }

  /* Lists of files */

  lemma {:induction false} LogOfConcat(a: seq<File>, b: seq<File>)
    ensures LogOf(a + b) == LogOf(a) + LogOf(b)
  {
    if a == [] {
      assert a + b == b;
    } else {
      assert (a + b)[1..] == a[1..] + b;
      LogOfConcat(a[1..], b);
    }
  }

  lemma {:induction false} RemoveKeepsLast(a: seq<File>, f: File, u: Name)
    requires f.name != u
    ensures Remove(a + [f], u) == Remove(a, u) + [f]
  {
    if a == [] {
      assert (a + [f])[1..] == [];
    } else {
      assert (a + [f])[1..] == a[1..] + [f];
      if a[0].name != u { RemoveKeepsLast(a[1..], f, u); }
    }
  }

  lemma {:induction false} RemoveAbsent(files: seq<File>, u: Name)
    requires forall f :: f in files ==> f.name != u
    ensures Remove(files, u) == files && Lookup(files, u) == None
  {
    if files != [] {
      assert files[0] in files;
      RemoveAbsent(files[1..], u);
    }
  }

  lemma {:induction false} LookupFinds(files: seq<File>, u: Name)
    ensures Lookup(files, u).Some? ==> exists i :: 0 <= i < |files| && files[i].name == u
  {
    if files != [] && files[0].name != u {
      LookupFinds(files[1..], u);
      if Lookup(files, u).Some? {
        var i :| 0 <= i < |files[1..]| && files[1..][i].name == u;
        assert files[i + 1].name == u;
      }
    }
  }

  lemma LookupKeepsLast(a: seq<File>, f: File, g: File, u: Name)
    requires f.name == g.name != u
    ensures Lookup(a + [f], u) == Lookup(a + [g], u)
    decreases |a|
  {
    if a != [] {
      assert (a + [f])[1..] == a[1..] + [f] && (a + [g])[1..] == a[1..] + [g];
      LookupKeepsLast(a[1..], f, g, u);
    }
  }

  lemma TailIsSorted(files: seq<File>)
    requires Sorted(files) && files != []
    ensures Sorted(files[1..])
  {
  }

  // Nothing fits between a compacted file's name and its unsuffixed name.
  lemma NothingBetween(c: Name, g: Name)
    requires c.depth >= 1 && Before(c, g) && g != Unsuffixed(c)
    ensures Before(Unsuffixed(c), g)
  {
  }

  lemma HeadIsBefore(files: seq<File>, g: File)
    requires Sorted(files) && files != [] && g in files[1..]
    ensures Before(files[0].name, g.name)
  {
    var i :| 0 <= i < |files[1..]| && files[1..][i] == g;
    assert files[i + 1] == g;
  }

  // Renaming the file at the head.
  lemma RenameHead(files: seq<File>, c: Name)
    requires Sorted(files) && files != [] && files[0].name == c && c.depth >= 1
    ensures var u := Unsuffixed(c);
            var files' := Put(files[1..], File(u, files[0].content));
            && Remove(files, u) == [files[0]] + files'[1..]
            && files' != [] && files'[0] == File(u, files[0].content)
            && (forall g :: g in files'[1..] ==> g in files[1..] && g.name != u)
  {
    var u := Unsuffixed(c);
    var rest := files[1..];
    if rest != [] && rest[0].name == u {
      TailIsSorted(files);
      forall g | g in rest[1..] ensures g.name != u { HeadIsBefore(rest, g); }
    } else {
      forall g | g in rest ensures g.name != u {
        HeadIsBefore(files, g);
        if rest[0] != g {
          TailIsSorted(files);
          assert g in rest[1..] by { var i :| 0 <= i < |rest| && rest[i] == g; assert rest[1..][i - 1] == g; }
          HeadIsBefore(rest, g);
          HeadIsBefore(files, rest[0]);
          NothingBetween(c, rest[0].name);
        }
      }
      if rest != [] {
        HeadIsBefore(files, rest[0]);
        NothingBetween(c, rest[0].name);
      }
      RemoveAbsent(files[1..], u);
    }
  }

  // Renaming a compacted file to its unsuffixed name reads exactly like removing the file
  // that name belonged to, if there was one.
  lemma {:induction false} RenameReadsAsRemove(files: seq<File>, c: Name)
    requires Sorted(files) && c.depth >= 1 && Lookup(files, c).Some?
    ensures var files' := Put(Remove(files, c), File(Unsuffixed(c), Lookup(files, c).value));
            && LogOf(files') == LogOf(Remove(files, Unsuffixed(c)))
            && Sorted(files')
            && (forall f :: f in files' ==> f.name != c && (f.name == Unsuffixed(c) || f in files))
    decreases |files|
  {
    var u := Unsuffixed(c);
    var files' := Put(Remove(files, c), File(u, Lookup(files, c).value));
    if files[0].name == c {
      RenameHead(files, c);
      forall g | g in files'[1..] ensures Before(u, g.name) {
        HeadIsBefore(files, g);
        NothingBetween(c, g.name);
      }
      RenamedTailIsSorted(files, c);
    } else {
      var rest := files[1..];
      TailIsSorted(files);
      LookupFinds(files, c);
      var i :| 0 <= i < |files| && files[i].name == c;
      assert Before(files[0].name, c);
      RenameReadsAsRemove(rest, c);
      var rest' := Put(Remove(rest, c), File(u, Lookup(rest, c).value));
      assert files' == [files[0]] + rest';
      forall g | g in rest' ensures Before(files[0].name, g.name) {
        if g.name != u { HeadIsBefore(files, g); }
      }
      PrependIsSorted(files[0], rest');
    }
  }

  lemma PrependIsSorted(f: File, files: seq<File>)
    requires Sorted(files) && forall g :: g in files ==> Before(f.name, g.name)
    ensures Sorted([f] + files)
  {
    assert forall i :: 0 <= i < |files| ==> files[i] in files;
  }

  lemma RenamedTailIsSorted(files: seq<File>, c: Name)
    requires Sorted(files) && files != [] && files[0].name == c && c.depth >= 1
    ensures Sorted(Put(files[1..], File(Unsuffixed(c), files[0].content)))
  {
    var u, rest := Unsuffixed(c), files[1..];
    var f := File(u, files[0].content);
    TailIsSorted(files);
    RenameHead(files, c);
    var tail := Put(rest, f)[1..];
    forall g | g in tail ensures Before(u, g.name) {
      HeadIsBefore(files, g);
      NothingBetween(c, g.name);
    }
    assert tail == rest || (rest != [] && tail == rest[1..]);
    if rest != [] { TailIsSorted(rest); }
    PrependIsSorted(f, tail);
    assert Put(rest, f) == [f] + tail;
  }

  // The current file, whose name is neither, stays last.
  lemma {:induction false} RenameKeepsLast(a: seq<File>, cur: File, c: Name)
    requires Sorted(a + [cur]) && c.depth >= 1 && c.id < cur.name.id && Lookup(a + [cur], c).Some?
    ensures Lookup(a, c).Some? && Lookup(a + [cur], c) == Lookup(a, c)
    ensures Put(Remove(a + [cur], c), File(Unsuffixed(c), Lookup(a, c).value))
            == Put(Remove(a, c), File(Unsuffixed(c), Lookup(a, c).value)) + [cur]
  {
    LookupSkipsLast(a, cur, c);
    RemoveKeepsLast(a, cur, c);
    PutKeepsLast(Remove(a, c), cur, File(Unsuffixed(c), Lookup(a, c).value));
  }

  lemma {:induction false} PutKeepsLast(a: seq<File>, cur: File, f: File)
    requires f.name.id < cur.name.id
    ensures Put(a + [cur], f) == Put(a, f) + [cur]
    decreases |a|
  {
    if a == [] {
      assert a + [cur] == [cur] && Put([], f) + [cur] == [f, cur];
    } else {
      assert (a + [cur])[1..] == a[1..] + [cur];
      PutKeepsLast(a[1..], cur, f);
    }
  }

  lemma RenameKeepsLayout(files: seq<File>, c: Name, current: nat)
    requires Layout(files, current) && c.depth >= 1 && c.id < current && Lookup(files, c).Some?
    ensures Layout(Put(Remove(files, c), File(Unsuffixed(c), Lookup(files, c).value)), current)
  {
    var n := |files| - 1;
    var a, cur := files[..n], files[n];
    assert files == a + [cur];
    RenameKeepsLast(a, cur, c);
    RenameReadsAsRemove(files, c);
    var a' := Put(Remove(a, c), File(Unsuffixed(c), Lookup(a, c).value));
    var files' := a' + [cur];
    assert Sorted(files');
    forall i | 0 <= i < |files'| - 1 ensures files'[i].name.id < current {
      assert Before(files'[i].name, files'[|files'| - 1].name);
      assert files'[i] in files';
      if files'[i] in files {
        var j :| 0 <= j < |files| && files[j] == files'[i];
        assert j != n;
      }
    }
  }

  /* Appending and rotating */

  function AppendTo(files: seq<File>, e: Entry): seq<File>
    requires files != []
  {
    var n := |files| - 1;
    files[..n] + [files[n].(content := files[n].content + [e])]
  }

  lemma LastEntries(a: seq<File>, f: File)
    ensures LogOf(a + [f]) == LogOf(a) + f.content
  {
    LogOfConcat(a, [f]);
    assert LogOf([f]) == f.content + LogOf([]);
  }

  // One more record in the last of some files.
  lemma AppendKeepsFaithful(a: seq<File>, f: File, history: seq<Entry>, e: Entry)
    requires Faithful(LogOf(a + [f]), history) && Appendable(history, e) && UniqueTimes(history)
    ensures Faithful(LogOf(a + [f.(content := f.content + [e])]), history + [e]) && UniqueTimes(history + [e])
  {
    var g := f.(content := f.content + [e]);
    LastEntries(a, f);
    LastEntries(a, g);
    assert LogOf(a) + (f.content + [e]) == LogOf(a) + f.content + [e];
    FaithfulAppend(LogOf(a + [f]), history, e);
  }

  lemma AppendKeepsLayout(files: seq<File>, current: nat, e: Entry)
    requires Layout(files, current)
    ensures Layout(AppendTo(files, e), current)
  {
    assert forall i :: 0 <= i < |files| ==> AppendTo(files, e)[i].name == files[i].name;
  }

  lemma AppendKeepsMarker(a: seq<File>, f: File, marker: Option<Name>, current: nat, history: seq<Entry>, e: Entry)
    requires MarkerOk(Disk(a + [f], marker), current, history) && f.name.id == current
    requires Appendable(history, e) && UniqueTimes(history)
    ensures MarkerOk(Disk(a + [f.(content := f.content + [e])], marker), current, history + [e])
  {
    if marker.Some? {
      var c, g := marker.value, f.(content := f.content + [e]);
      LookupKeepsLast(a, f, g, c);
      if Lookup(a + [f], c).Some? {
        RemoveKeepsLast(a, f, Unsuffixed(c));
        RemoveKeepsLast(a, g, Unsuffixed(c));
        AppendKeepsFaithful(Remove(a, Unsuffixed(c)), f, history, e);
      }
    }
  }

  lemma AppendKeepsInv(d: Disk, current: nat, history: seq<Entry>, e: Entry)
    requires Inv(d, current, history) && Appendable(history, e)
    ensures Inv(d.(files := AppendTo(d.files, e)), current, history + [e])
  {
    var n := |d.files| - 1;
    var a, f := d.files[..n], d.files[n];
    assert d.files == a + [f] && d == Disk(a + [f], d.marker);
    AppendKeepsLayout(d.files, current, e);
    AppendKeepsFaithful(a, f, history, e);
    AppendKeepsMarker(a, f, d.marker, current, history, e);
  }

  lemma LookupSkipsLast(a: seq<File>, f: File, u: Name)
    requires f.name != u
    ensures Lookup(a + [f], u) == Lookup(a, u)
    decreases |a|
  {
    if a != [] {
      assert (a + [f])[1..] == a[1..] + [f];
      LookupSkipsLast(a[1..], f, u);
    }
  }

  lemma RotateKeepsLayout(files: seq<File>, current: nat)
    requires Layout(files, current)
    ensures Layout(files + [File(Name(current + 1, 0), [])], current + 1)
  {
    var files' := files + [File(Name(current + 1, 0), [])];
    assert forall i :: 0 <= i < |files| ==> files'[i] == files[i] && files'[i].name.id <= current;
  }

  lemma RotateKeepsInv(d: Disk, current: nat, history: seq<Entry>)
    requires Inv(d, current, history)
    ensures Inv(d.(files := d.files + [File(Name(current + 1, 0), [])]), current + 1, history)
  {
    var f := File(Name(current + 1, 0), []);
    RotateKeepsLayout(d.files, current);
    LastEntries(d.files, f);
    assert LogOf(d.files) + [] == LogOf(d.files);
    if d.marker.Some? {
      var c := d.marker.value;
      LookupSkipsLast(d.files, f, c);
      RemoveKeepsLast(d.files, f, Unsuffixed(c));
      LastEntries(Remove(d.files, Unsuffixed(c)), f);
      assert LogOf(Remove(d.files, Unsuffixed(c))) + [] == LogOf(Remove(d.files, Unsuffixed(c)));
    }
  }

  /* Compaction */

  // What findSegmentsToCompact returns: every file but the current one.
  function Closed(files: seq<File>): seq<File>
    requires files != []
  {
    files[..|files| - 1]
  }

  // The disk after the first n operations of a compaction.
  function DuringCompaction(d: Disk, c: seq<Entry>, n: nat): Disk
    requires |d.files| >= 2
  {
    var closed, cur := Closed(d.files), d.files[|d.files| - 1];
    var to := CompactedName(closed[0].name);
    if n == 0 then d
    else if n == 1 then d.(files := [File(to, c)] + d.files)
    else if n <= 2 + |closed| then Disk([File(to, c)] + d.files[n - 2..], Some(to))
    else Disk([File(closed[0].name, c), cur], if n == 3 + |closed| then Some(to) else None)
  }

  lemma OldFileGoes(d: Disk, c: seq<Entry>, current: nat, j: nat)
    requires Layout(d.files, current) && |d.files| >= 2 && j < |d.files| - 1
    ensures Do(DuringCompaction(d, c, j + 2), RemoveFile(d.files[j].name)) == DuringCompaction(d, c, j + 3)
  {
    var f := File(CompactedName(d.files[0].name), c);
    if j > 0 { assert Before(d.files[0].name, d.files[j].name); }
    assert ([f] + d.files[j..])[1..] == d.files[j..];
    assert Remove(d.files[j..], d.files[j].name) == d.files[j..][1..] == d.files[j + 1..];
  }

  lemma CompactedFileTakesOver(d: Disk, c: seq<Entry>, current: nat)
    requires Layout(d.files, current) && |d.files| >= 2
    ensures var to, n := CompactedName(d.files[0].name), |d.files| - 1;
            Do(DuringCompaction(d, c, n + 2), RenameFile(to, Unsuffixed(to))) == DuringCompaction(d, c, n + 3)
  {
    var n := |d.files| - 1;
    var first, cur := d.files[0].name, d.files[n];
    var to := CompactedName(first);
    assert d.files[n..] == [cur];
    var files := [File(to, c), cur];
    assert DuringCompaction(d, c, n + 2).files == files && files[1..] == [cur];
    assert Before(first, cur.name);
    assert Put([cur], File(first, c)) == [File(first, c)] + [cur];
  }

  lemma OpsAt(segments: seq<Name>, c: seq<Entry>, i: nat)
    requires segments != [] && i < |segments| + 4
    ensures var to := CompactedName(segments[0]);
            && |CompactionOps(segments, c)| == |segments| + 4
            && CompactionOps(segments, c)[i] ==
                 if i == 0 then Publish(to, c)
                 else if i == 1 then WriteMarker(to)
                 else if i < 2 + |segments| then RemoveFile(segments[i - 2])
                 else if i == 2 + |segments| then RenameFile(to, Unsuffixed(to))
                 else RemoveMarker
  {
  }

  lemma FirstStep(d: Disk, c: seq<Entry>)
    requires |d.files| >= 2
    ensures Do(d, Publish(CompactedName(d.files[0].name), c)) == DuringCompaction(d, c, 1)
    ensures Do(DuringCompaction(d, c, 1), WriteMarker(CompactedName(d.files[0].name))) == DuringCompaction(d, c, 2)
  {
    assert d.files[0..] == d.files;
  }

  lemma CompactionStep(d: Disk, c: seq<Entry>, current: nat, n: nat)
    requires Layout(d.files, current) && |d.files| >= 2
    requires n < |CompactionOps(Names(Closed(d.files)), c)|
    ensures Do(DuringCompaction(d, c, n), CompactionOps(Names(Closed(d.files)), c)[n]) == DuringCompaction(d, c, n + 1)
  {
    OpsAt(Names(Closed(d.files)), c, n);
    FirstStep(d, c);
    if 2 <= n < 2 + |Closed(d.files)| {
      OldFileGoes(d, c, current, n - 2);
    } else if n == 2 + |Closed(d.files)| {
      CompactedFileTakesOver(d, c, current);
    }
  }

  lemma DoOneMore(d: Disk, ops: seq<DiskOp>, n: nat)
    requires n < |ops|
    ensures DoAll(d, ops[..n + 1]) == Do(DoAll(d, ops[..n]), ops[n])
  {
    assert ops[..n + 1][..n] == ops[..n];
  }

  lemma {:induction false} CompactionReaches(d: Disk, c: seq<Entry>, current: nat, n: nat)
    requires Layout(d.files, current) && |d.files| >= 2
    requires n <= |CompactionOps(Names(Closed(d.files)), c)|
    ensures DoAll(d, CompactionOps(Names(Closed(d.files)), c)[..n]) == DuringCompaction(d, c, n)
    decreases n
  {
    if n > 0 {
      CompactionReaches(d, c, current, n - 1);
      DoOneMore(d, CompactionOps(Names(Closed(d.files)), c), n - 1);
      CompactionStep(d, c, current, n - 1);
    }
  }

  lemma FrontLog(f: File, files: seq<File>)
    ensures LogOf([f] + files) == f.content + LogOf(files)
  {
    assert ([f] + files)[1..] == files;
  }

  // Compacted records in front, the files `gone` no longer there.
  lemma PartlyReplaced(gone: seq<File>, left: seq<File>, cur: File, history: seq<Entry>, f: File)
    requires Faithful(LogOf(gone + left + [cur]), history) && UniqueTimes(history)
    requires IsContent(f.content, BuildState(LogOf(gone + left)))
    ensures Faithful(LogOf([f] + (left + [cur])), history)
  {
    LastEntries(gone + left, cur);
    LogOfConcat(gone, left);
    LastEntries(left, cur);
    FrontLog(f, left + [cur]);
    DroppingOldestIsFaithful(f.content, LogOf(gone), LogOf(left), cur.content, history);
  }

  lemma PartlyReplacedIsFaithful(d: Disk, current: nat, history: seq<Entry>, c: seq<Entry>, name: Name, j: nat)
    requires Inv(d, current, history) && |d.files| >= 2 && j <= |d.files| - 1
    requires IsContent(c, BuildState(LogOf(Closed(d.files))))
    ensures Faithful(LogOf([File(name, c)] + d.files[j..]), history)
  {
    var closed, cur := Closed(d.files), d.files[|d.files| - 1];
    assert closed[..j] + closed[j..] == closed && closed + [cur] == d.files && closed[j..] + [cur] == d.files[j..];
    PartlyReplaced(closed[..j], closed[j..], cur, history, File(name, c));
  }

  lemma FrontLayout(files: seq<File>, current: nat, f: File, j: nat)
    requires Layout(files, current) && j < |files|
    requires f.name.id < current && Before(f.name, files[j].name)
    ensures Layout([f] + files[j..], current)
  {
    var all := [f] + files[j..];
    forall a, b | 0 <= a < b < |all| ensures Before(all[a].name, all[b].name) {
      if a > 0 { assert Before(files[j + a - 1].name, files[j + b - 1].name); }
      else if b > 1 { assert Before(files[j].name, files[j + b - 1].name); }
    }
  }

  // Just after the compacted file appears, a marker left by an earlier compaction is still good.
  lemma OldMarkerStaysOk(d: Disk, current: nat, history: seq<Entry>, c: seq<Entry>)
    requires Inv(d, current, history) && |d.files| >= 2
    requires IsContent(c, BuildState(LogOf(Closed(d.files))))
    ensures MarkerOk(DuringCompaction(d, c, 1), current, history)
  {
    if d.marker.Some? {
      var m, f := d.marker.value, File(CompactedName(d.files[0].name), c);
      assert ([f] + d.files)[1..] == d.files;
      if m == f.name {
        SameMarkerStaysOk(d, current, history, f);
      } else if Lookup(d.files, m).Some? {
        MarkedIsNotFront(d.files, m, f);
        var n := |d.files| - 1;
        assert d.files == Closed(d.files) + [d.files[n]];
        OtherMarkerStaysOk(Closed(d.files), d.files[n], Unsuffixed(m), f, history);
      }
    }
  }

  lemma SameMarkerStaysOk(d: Disk, current: nat, history: seq<Entry>, f: File)
    requires Inv(d, current, history) && |d.files| >= 2
    requires IsContent(f.content, BuildState(LogOf(Closed(d.files)))) && f.name == CompactedName(d.files[0].name)
    ensures Faithful(LogOf(Remove([f] + d.files, Unsuffixed(f.name))), history)
  {
    PartlyReplacedIsFaithful(d, current, history, f.content, f.name, 1);
    assert ([f] + d.files)[1..] == d.files;
    assert Remove([f] + d.files, Unsuffixed(f.name)) == [f] + d.files[1..];
  }

  lemma MarkedIsNotFront(files: seq<File>, m: Name, f: File)
    requires Sorted(files) && files != [] && f.name == CompactedName(files[0].name) != m
    requires Lookup(files, m).Some? && m.depth >= 1
    ensures Remove([f] + files, Unsuffixed(m)) == [f] + Remove(files, Unsuffixed(m))
  {
    LookupFinds(files, m);
    var i :| 0 <= i < |files| && files[i].name == m;
    if i > 0 { assert Before(files[0].name, files[i].name); }
    assert ([f] + files)[1..] == files;
  }

  lemma OtherMarkerStaysOk(closed: seq<File>, cur: File, u: Name, f: File, history: seq<Entry>)
    requires Faithful(LogOf(closed + [cur]), history) && UniqueTimes(history) && cur.name != u
    requires IsContent(f.content, BuildState(LogOf(closed)))
    requires Faithful(LogOf(Remove(closed + [cur], u)), history)
    ensures Faithful(LogOf([f] + Remove(closed + [cur], u)), history)
  {
    RemoveKeepsLast(closed, cur, u);
    LastEntries(Remove(closed, u), cur);
    LastEntries(closed, cur);
    FrontLog(f, Remove(closed + [cur], u));
    FrontKeepsFaithful(f.content, LogOf(closed), cur.content, LogOf(Remove(closed + [cur], u)), history);
  }

  // While old files go, the marker names the compacted file, and the oldest file is either
  // next to go or gone.
  lemma ReplacingMarkerOk(d: Disk, current: nat, history: seq<Entry>, f: File, j: nat)
    requires Inv(d, current, history) && |d.files| >= 2 && j <= |d.files| - 1
    requires IsContent(f.content, BuildState(LogOf(Closed(d.files)))) && f.name == CompactedName(d.files[0].name)
    ensures Faithful(LogOf(Remove([f] + d.files[j..], d.files[0].name)), history)
  {
    WithoutOldest(d.files, f, j);
    PartlyReplacedIsFaithful(d, current, history, f.content, f.name, if j == 0 then 1 else j);
  }

  lemma WithoutOldest(files: seq<File>, f: File, j: nat)
    requires Sorted(files) && |files| >= 2 && j < |files| && f.name == CompactedName(files[0].name)
    ensures Remove([f] + files[j..], files[0].name) == [f] + files[if j == 0 then 1 else j..]
  {
    if j == 0 {
      assert ([f] + files[0..])[1..] == files;
    } else {
      OldestIsGone(files, f, j);
      RemoveAbsent([f] + files[j..], files[0].name);
    }
  }

  lemma OldestIsGone(files: seq<File>, f: File, j: nat)
    requires Sorted(files) && 0 < j < |files| && f.name == CompactedName(files[0].name)
    ensures forall g :: g in [f] + files[j..] ==> g.name != files[0].name
  {
    forall g | g in [f] + files[j..] ensures g.name != files[0].name {
      if g != f {
        var i :| 0 <= i < |files[j..]| && files[j..][i] == g;
        assert Before(files[0].name, files[j + i].name);
      }
    }
  }

  lemma ReplacingKeepsInv(d: Disk, current: nat, history: seq<Entry>, c: seq<Entry>, j: nat)
    requires Inv(d, current, history) && |d.files| >= 2 && j <= |d.files| - 1
    requires IsContent(c, BuildState(LogOf(Closed(d.files))))
    ensures Inv(DuringCompaction(d, c, j + 2), current, history)
  {
    var f := File(CompactedName(d.files[0].name), c);
    if j > 0 { assert Before(d.files[0].name, d.files[j].name); }
    FrontLayout(d.files, current, f, j);
    PartlyReplacedIsFaithful(d, current, history, c, f.name, j);
    ReplacingMarkerOk(d, current, history, f, j);
  }

  lemma RenamedKeepsInv(d: Disk, current: nat, history: seq<Entry>, c: seq<Entry>, n: nat)
    requires Inv(d, current, history) && |d.files| >= 2 && n > 2 + |Closed(d.files)|
    requires IsContent(c, BuildState(LogOf(Closed(d.files))))
    ensures Inv(DuringCompaction(d, c, n), current, history)
  {
    var last, first := |d.files| - 1, d.files[0].name;
    var g := File(first, c);
    assert d.files[last..] == [d.files[last]];
    FrontLayout(d.files, current, g, last);
    PartlyReplacedIsFaithful(d, current, history, c, first, last);
    RemoveAbsent([g, d.files[last]], CompactedName(first));
  }

  // A crash after any number of a compaction's file operations leaves the invariant intact.
  lemma CompactionKeepsInv(d: Disk, current: nat, history: seq<Entry>, c: seq<Entry>, n: nat)
    requires Inv(d, current, history) && |d.files| >= 2
    requires IsContent(c, BuildState(LogOf(Closed(d.files))))
    requires n <= |CompactionOps(Names(Closed(d.files)), c)|
    ensures Inv(DoAll(d, CompactionOps(Names(Closed(d.files)), c)[..n]), current, history)
  {
    CompactionReaches(d, c, current, n);
    if n == 1 {
      assert d.files[0..] == d.files;
      FrontLayout(d.files, current, File(CompactedName(d.files[0].name), c), 0);
      PartlyReplacedIsFaithful(d, current, history, c, CompactedName(d.files[0].name), 0);
      OldMarkerStaysOk(d, current, history, c);
    } else if 2 <= n <= 2 + |Closed(d.files)| {
      ReplacingKeepsInv(d, current, history, c, n - 2);
    } else if n > 2 {
      RenamedKeepsInv(d, current, history, c, n);
    }
  }

  /* Recovery */

  // The first step of recovery: the rename, if the marked file is there.
  lemma RecoveryRenames(d: Disk, current: nat, history: seq<Entry>)
    requires Inv(d, current, history) && d.marker.Some? && Lookup(d.files, d.marker.value).Some?
    ensures Inv(Do(d, RecoveryOps(d)[0]), current, history)
  {
    var c := d.marker.value;
    RenameReadsAsRemove(d.files, c);
    RenameKeepsLayout(d.files, c, current);
    RemoveAbsent(Do(d, RecoveryOps(d)[0]).files, c);
  }

  lemma UnmarkingKeepsInv(d: Disk, current: nat, history: seq<Entry>)
    requires Inv(d, current, history)
    ensures Inv(Do(d, RemoveMarker), current, history)
  {
  }

  lemma {:induction false} RecoveryKeepsInv(d: Disk, current: nat, history: seq<Entry>, n: nat)
    requires Inv(d, current, history) && n <= |RecoveryOps(d)|
    ensures Inv(DoAll(d, RecoveryOps(d)[..n]), current, history)
  {
    if n > 0 {
      RecoveryKeepsInv(d, current, history, n - 1);
      DoOneMore(d, RecoveryOps(d), n - 1);
      if RecoveryOps(d)[n - 1] == RemoveMarker {
        UnmarkingKeepsInv(DoAll(d, RecoveryOps(d)[..n - 1]), current, history);
      } else {
        RecoveryRenames(d, current, history);
      }
    }
  }

  lemma {:induction false} PutIsFound(files: seq<File>, f: File)
    ensures Lookup(Put(files, f), f.name) == Some(f.content)
  {
    if files != [] && f.name != files[0].name && !Before(f.name, files[0].name) { PutIsFound(files[1..], f); }
  }

  lemma BothSteps(d: Disk, a: DiskOp, b: DiskOp)
    ensures DoAll(d, [a, b]) == Do(Do(d, a), b) && DoAll(d, [a]) == Do(d, a)
  {
    assert [a, b][..1] == [a] && [a][..0] == [];
    assert DoAll(d, [a]) == Do(DoAll(d, []), a);
  }

  lemma {:induction false} PutKeepsOthers(files: seq<File>, f: File, n: Name)
    requires n != f.name
    ensures Lookup(Put(files, f), n) == Lookup(files, n)
  {
    if files != [] && f.name != files[0].name && !Before(f.name, files[0].name) { PutKeepsOthers(files[1..], f, n); }
  }

  lemma {:induction false} RemoveKeepsOthers(files: seq<File>, m: Name, n: Name)
    requires n != m
    ensures Lookup(Remove(files, m), n) == Lookup(files, n)
  {
    if files != [] && files[0].name != m { RemoveKeepsOthers(files[1..], m, n); }
  }

  lemma {:induction false} RemovedIsGone(files: seq<File>, m: Name)
    requires Sorted(files)
    ensures Lookup(Remove(files, m), m) == None
  {
    if files != [] {
      TailIsSorted(files);
      if files[0].name == m {
        forall f | f in files[1..] ensures f.name != m { HeadIsBefore(files, f); }
        RemoveAbsent(files[1..], m);
      } else {
        RemovedIsGone(files[1..], m);
      }
    }
  }

  // A sorted directory is a map from names to contents, and the file operations are those of a
  // map; to rename a file that is not there does nothing.
  lemma DirectoryIsMap(d: Disk, op: DiskOp, n: Name)
    requires Sorted(d.files)
    ensures Lookup(Do(d, op).files, n) ==
            match op
            case Publish(m, es) => if n == m then Some(es) else Lookup(d.files, n)
            case RemoveFile(m) => if n == m then None else Lookup(d.files, n)
            case RenameFile(a, b) =>
              if Lookup(d.files, a).None? then Lookup(d.files, n)
              else if n == b then Lookup(d.files, a)
              else if n == a then None
              else Lookup(d.files, n)
            case WriteMarker(_) => Lookup(d.files, n)
            case RemoveMarker => Lookup(d.files, n)
    ensures op.RenameFile? && Lookup(d.files, op.from).None? ==> Do(d, op) == d
  {
    match op
    case Publish(m, es) =>
      PutIsFound(d.files, File(m, es));
      if n != m { PutKeepsOthers(d.files, File(m, es), n); }
    case RemoveFile(m) =>
      RemovedIsGone(d.files, m);
      if n != m { RemoveKeepsOthers(d.files, m, n); }
    case RenameFile(a, b) =>
      if Lookup(d.files, a).Some? {
        var f := File(b, Lookup(d.files, a).value);
        PutIsFound(Remove(d.files, a), f);
        RemovedIsGone(d.files, a);
        if n != b { PutKeepsOthers(Remove(d.files, a), f, n); }
        if n != a { RemoveKeepsOthers(d.files, a, n); }
      }
    case _ =>
  }

  // A recovery that runs to its end leaves no marker, and the marked file, if it was there,
  // under its plain name alone.
  lemma RecoveryFinishes(d: Disk, current: nat)
    requires Layout(d.files, current) && (d.marker.Some? ==> d.marker.value.depth >= 1)
    ensures var d' := DoAll(d, RecoveryOps(d));
            && d'.marker == None
            && match d.marker
               case None => d' == d
               case Some(c) =>
                 if Lookup(d.files, c).None? then d'.files == d.files
                 else Lookup(d'.files, Unsuffixed(c)) == Lookup(d.files, c) && Lookup(d'.files, c) == None
  {
    if d.marker.Some? {
      var c := d.marker.value;
      BothSteps(d, RenameFile(c, Unsuffixed(c)), RemoveMarker);
      BothSteps(d, RemoveMarker, RemoveMarker);
      if Lookup(d.files, c).Some? {
        var f := File(Unsuffixed(c), Lookup(d.files, c).value);
        PutIsFound(Remove(d.files, c), f);
        RenameReadsAsRemove(d.files, c);
        RemoveAbsent(Put(Remove(d.files, c), f), c);
      }
    }
  }

  // Once the marker is written, recovery finishes what the compaction began: the compacted
  // records take the place of the oldest file, before whichever old files are still there.
  lemma RecoveryTakesOver(d: Disk, c: seq<Entry>, current: nat, n: nat)
    requires Layout(d.files, current) && |d.files| >= 2 && 2 <= n <= |d.files| + 1
    ensures var crashed := DuringCompaction(d, c, n);
            DoAll(crashed, RecoveryOps(crashed)) ==
            Disk([File(d.files[0].name, c)] + d.files[if n == 2 then 1 else n - 2..], None)
  {
    var crashed, j := DuringCompaction(d, c, n), n - 2;
    var to, f := CompactedName(d.files[0].name), File(d.files[0].name, c);
    BothSteps(crashed, RenameFile(to, f.name), RemoveMarker);
    assert ([File(to, c)] + d.files[j..])[1..] == d.files[j..];
    assert d.files[j..][1..] == d.files[j + 1..];
    if j > 0 { assert Before(d.files[0].name, d.files[j].name); }
    assert Put(d.files[j..], f) == [f] + d.files[if j == 0 then 1 else j..];
  }

  /* Whole runs */

  // `history` is what was ever appended; nothing reads it.
  datatype System = System(disk: Disk, current: nat, history: seq<Entry>)

  // Compact and Recover stop after n of their file operations: a crash if n falls short.
  datatype Step =
    | Append(e: Entry)
    | Rotate
    | Compact(content: seq<Entry>, n: nat)
    | Recover(n: nat)
    | Restart

  const FRESH := System(Disk([File(Name(1, 0), [])], None), 1, [])

  // initializeSegments: the highest id in the directory.
  function HighestId(files: seq<File>): nat {
    if files == [] then 0
    else
      var h := HighestId(files[..|files| - 1]);
      if files[|files| - 1].name.id > h then files[|files| - 1].name.id else h
  }

  ghost predicate Enabled(s: System, a: Step) {
    match a
    case Append(e) => s.disk.files != [] && Appendable(s.history, e)
    case Rotate => true
    case Compact(c, n) =>
      && |s.disk.files| >= 3
      && IsContent(c, BuildState(LogOf(Closed(s.disk.files))))
      && n <= |CompactionOps(Names(Closed(s.disk.files)), c)|
    case Recover(n) => n <= |RecoveryOps(s.disk)|
    case Restart => true
  }

  ghost function Next(s: System, a: Step): System
    requires Enabled(s, a)
  {
    match a
    case Append(e) => System(s.disk.(files := AppendTo(s.disk.files, e)), s.current, s.history + [e])
    case Rotate =>
      System(s.disk.(files := s.disk.files + [File(Name(s.current + 1, 0), [])]), s.current + 1, s.history)
    case Compact(c, n) => s.(disk := DoAll(s.disk, CompactionOps(Names(Closed(s.disk.files)), c)[..n]))
    case Recover(n) => s.(disk := DoAll(s.disk, RecoveryOps(s.disk)[..n]))
    case Restart => s.(current := HighestId(s.disk.files))
  }

  lemma {:induction false} HighestIsLast(files: seq<File>, current: nat)
    requires forall i :: 0 <= i < |files| ==> files[i].name.id <= current
    ensures HighestId(files) <= current
    ensures files != [] && files[|files| - 1].name.id == current ==> HighestId(files) == current
  {
    if files != [] { HighestIsLast(files[..|files| - 1], current); }
  }

  ghost predicate Execution(ss: seq<System>, steps: seq<Step>) {
    && |ss| == |steps| + 1 && ss[0] == FRESH
    && forall k :: 0 <= k < |steps| ==> Enabled(ss[k], steps[k]) && ss[k + 1] == Next(ss[k], steps[k])
  }

  lemma StepKeepsInv(s: System, a: Step)
    requires Inv(s.disk, s.current, s.history) && Enabled(s, a)
    ensures var t := Next(s, a); Inv(t.disk, t.current, t.history)
  {
    match a {
      case Append(e) => AppendKeepsInv(s.disk, s.current, s.history, e);
      case Rotate => RotateKeepsInv(s.disk, s.current, s.history);
      case Compact(c, n) => CompactionKeepsInv(s.disk, s.current, s.history, c, n);
      case Recover(n) => RecoveryKeepsInv(s.disk, s.current, s.history, n);
      case Restart => HighestIsLast(s.disk.files, s.current);
    }
  }

  lemma {:induction false} RunsKeepInv(ss: seq<System>, steps: seq<Step>, k: nat)
    requires Execution(ss, steps) && k < |ss|
    ensures Inv(ss[k].disk, ss[k].current, ss[k].history)
    decreases k
  {
    if k == 0 {
      assert LogOf(FRESH.disk.files) == FRESH.disk.files[0].content + LogOf([]);
    } else {
      RunsKeepInv(ss, steps, k - 1);
      StepKeepsInv(ss[k - 1], steps[k - 1]);
    }
  }

  // At every moment of every run, recovering from the files gives the snapshot of everything
  // ever appended.
  lemma NothingLostNothingRevived(ss: seq<System>, steps: seq<Step>, k: nat)
    requires Execution(ss, steps) && k < |ss|
    ensures Snapshot(LogOf(ss[k].disk.files)) == Snapshot(ss[k].history)
  {
    RunsKeepInv(ss, steps, k);
    FaithfulSnapshot(LogOf(ss[k].disk.files), ss[k].history);
  }
}
