// The commit log down to the bytes of its files.  Appends go to the current file in batches,
// and a crash may cut a batch anywhere.  What is recovered is always what was whole, as long
// as nothing is appended to a file that was cut inside a frame.
module TornLog {
  import opened Wrappers
  import opened LogEntry
  import opened CompactionSpec
  import opened LogCodec
  import opened LogReopen
  import CrashSafety

  type ByteFile = NamedFile<seq<byte>>
  type ByteDisk = Directory<seq<byte>>

  /* Reading the files */

  function ReadFiles(h: seq<byte> -> uint32, files: seq<ByteFile>): (r: seq<File>)
    ensures |r| == |files|
    ensures forall i :: 0 <= i < |files| ==> r[i] == File(files[i].name, Deliver(h, files[i].content))
  {
    seq(|files|, i requires 0 <= i < |files| => File(files[i].name, Deliver(h, files[i].content)))
  }

  function ReadDisk(h: seq<byte> -> uint32, d: ByteDisk): Disk {
    Disk(ReadFiles(h, d.files), d.marker)
  }

  // A file operation as it is done to the bytes.
  function Encoded(op: DiskOp): FileOp<seq<byte>> {
    match op
    case Publish(name, es) => Publish(name, EncodeAll(es))
    case WriteMarker(name) => WriteMarker(name)
    case RemoveFile(name) => RemoveFile(name)
    case RenameFile(from, to) => RenameFile(from, to)
    case RemoveMarker => RemoveMarker
  }

  function EncodedOps(ops: seq<DiskOp>): seq<FileOp<seq<byte>>> {
    seq(|ops|, i requires 0 <= i < |ops| => Encoded(ops[i]))
  }

  ghost predicate AllSealed(h: seq<byte> -> uint32, es: seq<Entry>) {
    forall i :: 0 <= i < |es| ==> Sealed(h, es[i])
  }

  ghost predicate SealedOp(h: seq<byte> -> uint32, op: DiskOp) {
    op.Publish? ==> AllSealed(h, op.content)
  }

  lemma ReadTail(h: seq<byte> -> uint32, files: seq<ByteFile>)
    requires files != []
    ensures ReadFiles(h, files)[1..] == ReadFiles(h, files[1..])
  {
  }

  lemma ReadCons(h: seq<byte> -> uint32, f: ByteFile, files: seq<ByteFile>)
    ensures ReadFiles(h, [f] + files) == [File(f.name, Deliver(h, f.content))] + ReadFiles(h, files)
  {
  }

  lemma {:induction false} ReadPut(h: seq<byte> -> uint32, files: seq<ByteFile>, f: ByteFile)
    ensures ReadFiles(h, Put(files, f)) == Put(ReadFiles(h, files), File(f.name, Deliver(h, f.content)))
  {
    if files == [] {
      ReadCons(h, f, []);
    } else {
      ReadTail(h, files);
      ReadCons(h, f, files[1..]);
      ReadCons(h, f, files);
      ReadPut(h, files[1..], f);
      ReadCons(h, files[0], Put(files[1..], f));
    }
  }

  lemma {:induction false} ReadRemove(h: seq<byte> -> uint32, files: seq<ByteFile>, name: Name)
    ensures ReadFiles(h, Remove(files, name)) == Remove(ReadFiles(h, files), name)
  {
    if files != [] {
      ReadTail(h, files);
      ReadRemove(h, files[1..], name);
      ReadCons(h, files[0], Remove(files[1..], name));
    }
  }

  lemma {:induction false} ReadLookup(h: seq<byte> -> uint32, files: seq<ByteFile>, name: Name)
    ensures Lookup(ReadFiles(h, files), name) ==
            if Lookup(files, name).Some? then Some(Deliver(h, Lookup(files, name).value)) else None
  {
    if files != [] {
      ReadTail(h, files);
      ReadLookup(h, files[1..], name);
    }
  }

  // Every file operation does to the bytes what it does to the records read from them.
  lemma ReadDo(h: seq<byte> -> uint32, d: ByteDisk, op: DiskOp)
    requires SealedOp(h, op)
    ensures ReadDisk(h, Do(d, Encoded(op))) == Do(ReadDisk(h, d), op)
  {
    match op
    case Publish(name, es) =>
      SegmentRoundTrip(h, es);
      ReadPut(h, d.files, File(name, EncodeAll(es)));
    case RemoveFile(name) => ReadRemove(h, d.files, name);
    case RenameFile(from, to) =>
      ReadLookup(h, d.files, from);
      if Lookup(d.files, from).Some? {
        ReadRemove(h, d.files, from);
        ReadPut(h, Remove(d.files, from), File(to, Lookup(d.files, from).value));
      }
    case _ =>
  }

  lemma {:induction false} ReadDoAll(h: seq<byte> -> uint32, d: ByteDisk, ops: seq<DiskOp>)
    requires forall i :: 0 <= i < |ops| ==> SealedOp(h, ops[i])
    ensures ReadDisk(h, DoAll(d, EncodedOps(ops))) == DoAll(ReadDisk(h, d), ops)
  {
    if ops != [] {
      var n := |ops| - 1;
      assert EncodedOps(ops)[..n] == EncodedOps(ops[..n]);
      ReadDoAll(h, d, ops[..n]);
      ReadDo(h, DoAll(d, EncodedOps(ops[..n])), ops[n]);
    }
  }

  /* Flushing a batch */

  // The file ends at the end of a frame: encoding what is read of it gives it back.
  predicate Clean(h: seq<byte> -> uint32, bytes: seq<byte>) {
    bytes == EncodeAll(Deliver(h, bytes))
  }

  function LastBytes(files: seq<ByteFile>): seq<byte>
    requires files != []
  {
    files[|files| - 1].content
  }

  function AppendBytes(files: seq<ByteFile>, bytes: seq<byte>): seq<ByteFile>
    requires files != []
  {
    var n := |files| - 1;
    files[..n] + [files[n].(content := files[n].content + bytes)]
  }

  function AppendAll(files: seq<File>, es: seq<Entry>): seq<File>
    requires files != []
  {
    var n := |files| - 1;
    files[..n] + [files[n].(content := files[n].content + es)]
  }

  lemma DeliveredAreSealed(h: seq<byte> -> uint32, s: seq<byte>)
    ensures AllSealed(h, Deliver(h, s))
  {
    var es := Deliver(h, s);
    forall i | 0 <= i < |es| ensures Sealed(h, es[i]) {
      DeliveredIsSound(h, s, es[i]);
    }
  }

  // A batch cut at any byte: its whole frames are read after what was there.
  lemma CutBatchReads(h: seq<byte> -> uint32, bytes: seq<byte>, batch: seq<Entry>, n: nat)
    requires Clean(h, bytes) && AllSealed(h, batch) && n <= |EncodeAll(batch)|
    ensures Deliver(h, bytes + EncodeAll(batch)[..n]) == Deliver(h, bytes) + batch[..WholeFrames(batch, n)]
  {
    DeliveredAreSealed(h, bytes);
    WholeThenRest(h, Deliver(h, bytes), EncodeAll(batch)[..n]);
    TruncatedSegmentReads(h, batch, n);
  }

  lemma ReadFlush(h: seq<byte> -> uint32, files: seq<ByteFile>, batch: seq<Entry>, n: nat)
    requires files != [] && Clean(h, LastBytes(files)) && AllSealed(h, batch) && n <= |EncodeAll(batch)|
    ensures ReadFiles(h, AppendBytes(files, EncodeAll(batch)[..n])) ==
            AppendAll(ReadFiles(h, files), batch[..WholeFrames(batch, n)])
  {
    CutBatchReads(h, LastBytes(files), batch, n);
  }

  /* Runs */

  // `history` is what a completed or cut flush brought to disk whole; nothing reads it.
  datatype System = System(disk: ByteDisk, current: nat, history: seq<Entry>)

  // Flush writes n bytes of a batch: a crash if n falls short.  Compact and Recover stop after
  // n of their file operations.
  datatype Step =
    | Flush(batch: seq<Entry>, n: nat)
    | Rotate
    | Compact(content: seq<Entry>, n: nat)
    | Recover(n: nat)
    | Restart

  const FRESH := System(Disk([File(Name(1, 0), [])], None), 1, [])

  // Each record of the batch in turn is one that may be appended.
  ghost predicate AllAppendable(history: seq<Entry>, batch: seq<Entry>) {
    forall i :: 0 <= i < |batch| ==> AppendableAt(history, batch, i)
  }

  ghost predicate AppendableAt(history: seq<Entry>, batch: seq<Entry>, i: nat)
    requires i < |batch|
  {
    Appendable(history + batch[..i], batch[i])
  }

  ghost predicate Enabled(h: seq<byte> -> uint32, s: System, a: Step) {
    s.disk.files != [] &&
    match a
    case Flush(batch, n) => AllSealed(h, batch) && AllAppendable(s.history, batch) && n <= |EncodeAll(batch)|
    case Rotate => true
    case Compact(c, n) =>
      var closed := CrashSafety.Closed(ReadFiles(h, s.disk.files));
      |s.disk.files| >= 3 && IsContent(c, BuildState(LogOf(closed))) && n <= |CompactionOps(Names(closed), c)|
    case Recover(n) => n <= |RecoveryOps(ReadDisk(h, s.disk))|
    case Restart => true
  }

  ghost function Next(h: seq<byte> -> uint32, s: System, a: Step): System
    requires Enabled(h, s, a)
  {
    match a
    case Flush(batch, n) =>
      System(s.disk.(files := AppendBytes(s.disk.files, EncodeAll(batch)[..n])), s.current,
             s.history + batch[..WholeFrames(batch, n)])
    case Rotate =>
      System(s.disk.(files := s.disk.files + [File(Name(s.current + 1, 0), [])]), s.current + 1, s.history)
    case Compact(c, n) =>
      var ops := CompactionOps(Names(CrashSafety.Closed(ReadFiles(h, s.disk.files))), c);
      s.(disk := DoAll(s.disk, EncodedOps(ops[..n])))
    case Recover(n) => s.(disk := DoAll(s.disk, EncodedOps(RecoveryOps(ReadDisk(h, s.disk))[..n])))
    case Restart => s.(current := CrashSafety.HighestId(ReadFiles(h, s.disk.files)))
  }

  ghost predicate Execution(h: seq<byte> -> uint32, ss: seq<System>, steps: seq<Step>) {
    && |ss| == |steps| + 1 && ss[0] == FRESH
    && forall k :: 0 <= k < |steps| ==> Enabled(h, ss[k], steps[k]) && ss[k + 1] == Next(h, ss[k], steps[k])
  }

  // No batch goes to a file that was cut inside a frame.
  ghost predicate Guarded(h: seq<byte> -> uint32, ss: seq<System>, steps: seq<Step>)
    requires |ss| == |steps| + 1
  {
    forall k :: 0 <= k < |steps| && steps[k].Flush? && ss[k].disk.files != [] ==> Clean(h, LastBytes(ss[k].disk.files))
  }

  ghost predicate Inv(h: seq<byte> -> uint32, s: System) {
    CrashSafety.Inv(ReadDisk(h, s.disk), s.current, s.history)
  }

  lemma AppendablePrefix(history: seq<Entry>, batch: seq<Entry>, k: nat)
    requires AllAppendable(history, batch) && k <= |batch|
    ensures AllAppendable(history, batch[..k])
  {
    forall i | 0 <= i < k ensures AppendableAt(history, batch[..k], i) {
      assert batch[..k][..i] == batch[..i] && AppendableAt(history, batch, i);
    }
  }

  lemma {:induction false} AppendAllKeepsInv(d: Disk, current: nat, history: seq<Entry>, batch: seq<Entry>)
    requires CrashSafety.Inv(d, current, history) && AllAppendable(history, batch)
    ensures CrashSafety.Inv(d.(files := AppendAll(d.files, batch)), current, history + batch)
    decreases |batch|
  {
    var n := |d.files| - 1;
    if batch == [] {
      assert d.files[n].content + [] == d.files[n].content && history + [] == history;
      assert AppendAll(d.files, []) == d.files;
    } else {
      var k := |batch| - 1;
      var before, e := batch[..k], batch[k];
      assert batch[..k + 1] == batch;
      AppendablePrefix(history, batch, k);
      assert AppendableAt(history, batch, k);
      AppendAllKeepsInv(d, current, history, before);
      var d' := d.(files := AppendAll(d.files, before));
      CrashSafety.AppendKeepsInv(d', current, history + before, e);
      AppendOneMore(d.files, before, e);
      assert batch == before + [e] && (history + before) + [e] == history + batch;
    }
  }

  lemma AppendOneMore(files: seq<File>, before: seq<Entry>, e: Entry)
    requires files != []
    ensures CrashSafety.AppendTo(AppendAll(files, before), e) == AppendAll(files, before + [e])
  {
    var n := |files| - 1;
    assert (files[n].content + before) + [e] == files[n].content + (before + [e]);
  }

  lemma FlushKeepsInv(h: seq<byte> -> uint32, s: System, batch: seq<Entry>, n: nat)
    requires Inv(h, s) && Enabled(h, s, Flush(batch, n)) && Clean(h, LastBytes(s.disk.files))
    ensures Inv(h, Next(h, s, Flush(batch, n)))
  {
    var k := WholeFrames(batch, n);
    ReadFlush(h, s.disk.files, batch, n);
    AppendablePrefix(s.history, batch, k);
    AppendAllKeepsInv(ReadDisk(h, s.disk), s.current, s.history, batch[..k]);
  }

  lemma RotateKeepsInv(h: seq<byte> -> uint32, s: System)
    requires Inv(h, s) && Enabled(h, s, Rotate)
    ensures Inv(h, Next(h, s, Rotate))
  {
    var name, d := Name(s.current + 1, 0), ReadDisk(h, s.disk);
    ReadEmptyLast(h, s.disk.files, name);
    var d' := d.(files := d.files + [File(name, [])]);
    CrashSafety.RotateKeepsInv(d, s.current, s.history);
    assert ReadDisk(h, Next(h, s, Rotate).disk) == d';
  }

  lemma ReadEmptyLast(h: seq<byte> -> uint32, files: seq<ByteFile>, name: Name)
    ensures ReadFiles(h, files + [File(name, [])]) == ReadFiles(h, files) + [File(name, [])]
  {
  }

  lemma {:induction false} ReadRecordsAreSealed(h: seq<byte> -> uint32, files: seq<ByteFile>, e: Entry)
    requires e in LogOf(ReadFiles(h, files))
    ensures Sealed(h, e)
  {
    ReadTail(h, files);
    if e in Deliver(h, files[0].content) {
      DeliveredIsSound(h, files[0].content, e);
    } else {
      ReadRecordsAreSealed(h, files[1..], e);
    }
  }

  // What compaction writes was read before, so it is read back.
  lemma ContentIsSealed(h: seq<byte> -> uint32, files: seq<ByteFile>, c: seq<Entry>)
    requires files != [] && IsContent(c, BuildState(LogOf(CrashSafety.Closed(ReadFiles(h, files)))))
    ensures AllSealed(h, c)
  {
    var closed := files[..|files| - 1];
    assert CrashSafety.Closed(ReadFiles(h, files)) == ReadFiles(h, closed);
    ContentIsWrites(c, LogOf(ReadFiles(h, closed)));
    forall i | 0 <= i < |c| ensures Sealed(h, c[i]) {
      ReadRecordsAreSealed(h, closed, c[i]);
    }
  }

  lemma CompactKeepsInv(h: seq<byte> -> uint32, s: System, c: seq<Entry>, n: nat)
    requires Inv(h, s) && Enabled(h, s, Compact(c, n))
    ensures Inv(h, Next(h, s, Compact(c, n)))
  {
    var d := ReadDisk(h, s.disk);
    var ops := CompactionOps(Names(CrashSafety.Closed(d.files)), c);
    ContentIsSealed(h, s.disk.files, c);
    forall i | 0 <= i < |ops| ensures SealedOp(h, ops[i]) {
      CrashSafety.OpsAt(Names(CrashSafety.Closed(d.files)), c, i);
    }
    ReadDoAll(h, s.disk, ops[..n]);
    CrashSafety.CompactionKeepsInv(d, s.current, s.history, c, n);
  }

  lemma RecoverKeepsInv(h: seq<byte> -> uint32, s: System, n: nat)
    requires Inv(h, s) && Enabled(h, s, Recover(n))
    ensures Inv(h, Next(h, s, Recover(n)))
  {
    var d := ReadDisk(h, s.disk);
    ReadDoAll(h, s.disk, RecoveryOps(d)[..n]);
    CrashSafety.RecoveryKeepsInv(d, s.current, s.history, n);
  }

  lemma StepKeepsInv(h: seq<byte> -> uint32, s: System, a: Step)
    requires Inv(h, s) && Enabled(h, s, a) && (a.Flush? ==> Clean(h, LastBytes(s.disk.files)))
    ensures Inv(h, Next(h, s, a))
  {
    match a {
      case Flush(batch, n) => FlushKeepsInv(h, s, batch, n);
      case Rotate => RotateKeepsInv(h, s);
      case Compact(c, n) => CompactKeepsInv(h, s, c, n);
      case Recover(n) => RecoverKeepsInv(h, s, n);
      case Restart => CrashSafety.HighestIsLast(ReadFiles(h, s.disk.files), s.current);
    }
  }

  lemma FreshInv(h: seq<byte> -> uint32)
    ensures Inv(h, FRESH)
  {
    ReadEmptyLast(h, [], Name(1, 0));
    assert ReadDisk(h, FRESH.disk).files == [File(Name(1, 0), [])];
    assert LogOf(ReadDisk(h, FRESH.disk).files) == [];
  }

  lemma {:induction false} RunsKeepInv(h: seq<byte> -> uint32, ss: seq<System>, steps: seq<Step>, k: nat)
    requires Execution(h, ss, steps) && Guarded(h, ss, steps) && k < |ss|
    ensures Inv(h, ss[k])
    decreases k
  {
    if k == 0 {
      FreshInv(h);
    } else {
      RunsKeepInv(h, ss, steps, k - 1);
      StepKeepsInv(h, ss[k - 1], steps[k - 1]);
    }
  }

  // At every moment of every such run, what is recovered from the bytes of the files, torn
  // ones included, is the snapshot of all that ever reached them whole.
  lemma NothingWholeIsLost(h: seq<byte> -> uint32, ss: seq<System>, steps: seq<Step>, k: nat)
    requires Execution(h, ss, steps) && Guarded(h, ss, steps) && k < |ss|
    ensures Snapshot(LogOf(ReadFiles(h, ss[k].disk.files))) == Snapshot(ss[k].history)
  {
    RunsKeepInv(h, ss, steps, k);
    FaithfulSnapshot(LogOf(ReadFiles(h, ss[k].disk.files)), ss[k].history);
  }

  // A flush that completes brings its whole batch to disk, and a cut one a prefix of it.
  lemma FlushAddsPrefix(h: seq<byte> -> uint32, s: System, batch: seq<Entry>, n: nat)
    requires Enabled(h, s, Flush(batch, n))
    ensures var k := WholeFrames(batch, n);
            && Next(h, s, Flush(batch, n)).history == s.history + batch[..k]
            && (n == |EncodeAll(batch)| ==> batch[..k] == batch)
  {
    WholeFramesIsExact(batch, n, |batch|);
    assert batch[..|batch|] == batch;
  }

  /* The guard */

  // Of a segment cut at m bytes the guard says exactly whether it is safe to append to.
  lemma CleanIsSafeIff(h: seq<byte> -> uint32, es: seq<Entry>, m: nat)
    requires AllSealed(h, es) && m <= |EncodeAll(es)|
    ensures Clean(h, EncodeAll(es)[..m]) <==> SafeToReopen(h, es, m)
  {
    TruncatedSegmentReads(h, es, m);
    PrefixIsWholeThenTorn(es, m);
    ReopenIsSafeIff(h, es, m);
    if Torn(es, m) == [] {
      assert EncodeAll(es[..WholeFrames(es, m)]) + [] == EncodeAll(es[..WholeFrames(es, m)]);
    }
  }

  // Two writes, and the first without its last byte.
  function FirstWrite(h: seq<byte> -> uint32): Entry {
    var e := Entry(ENTRY_WRITE, 1, [], [], [], 0);
    e.(crc := CalculateCRC(h, e))
  }

  function SecondWrite(h: seq<byte> -> uint32): Entry {
    var e := Entry(ENTRY_WRITE, 2, [], [1], [], 0);
    e.(crc := CalculateCRC(h, e))
  }

  function CutLength(h: seq<byte> -> uint32): nat {
    3 + TotalLen(FirstWrite(h))
  }

  // Nothing of the second write's key is delivered.
  lemma KeyIsLost(h: seq<byte> -> uint32, x: Entry)
    requires x in Deliver(h, Encode(FirstWrite(h))[..CutLength(h)] + Encode(SecondWrite(h)))
    ensures CutLength(h) < |Encode(FirstWrite(h))| && x.key != [1]
  {
    var e, next := FirstWrite(h), SecondWrite(h);
    FrameLength(e);
    FrameLength(next);
    FirstByteIsZero(next);
    var m := CutLength(h);
    LastByteTorn(e, m, Encode(next));
    var s := Encode(e)[..m] + Encode(next);
    DeliveredIsSound(h, s, x);
    if x.key == [1] {
      FirstOrLater(h, s, Parsed(LowByteZero(e), Encode(next)[1..]), x);
    }
  }

  // A log that is one file of these bytes.
  function OneFile(bytes: seq<byte>, history: seq<Entry>): System {
    System(Disk([File(Name(1, 0), bytes)], None), 1, history)
  }

  lemma WholeOne(e: Entry, n: nat)
    requires n <= |Encode(e)|
    ensures EncodeAll([e]) == Encode(e)
    ensures [e][..WholeFrames([e], n)] == if n == |Encode(e)| then [e] else []
  {
    OneFrame(e);
    FrameLength(e);
    assert WholeFrames([e][1..], 0) == 0;
    assert WholeFrames([e], n) == if n == |Encode(e)| then 1 else 0;
  }

  // What a batch of one record does to such a log.
  lemma FlushOne(h: seq<byte> -> uint32, bytes: seq<byte>, e: Entry, n: nat)
    requires Sealed(h, e) && n <= |Encode(e)|
    ensures var s, a := OneFile(bytes, []), Flush([e], n);
            && Enabled(h, s, a)
            && Next(h, s, a) == OneFile(bytes + Encode(e)[..n], if n == |Encode(e)| then [e] else [])
  {
    WholeOne(e, n);
    assert [] + [e][..0] == [] && UniqueTimes([e]);
    assert AppendableAt([], [e], 0);
  }

  lemma RestartOne(h: seq<byte> -> uint32, bytes: seq<byte>, history: seq<Entry>)
    ensures Enabled(h, OneFile(bytes, history), Restart)
    ensures Next(h, OneFile(bytes, history), Restart) == OneFile(bytes, history)
  {
    var files := ReadFiles(h, OneFile(bytes, history).disk.files);
    assert files[..0] == [];
    assert CrashSafety.HighestId(files) == 1;
  }

  lemma NoRecordNoKey(h: seq<byte> -> uint32, bytes: seq<byte>, k: seq<byte>)
    requires forall x :: x in Deliver(h, bytes) ==> x.key != k
    ensures k !in Snapshot(LogOf(ReadFiles(h, OneFile(bytes, []).disk.files)))
  {
    var files := ReadFiles(h, OneFile(bytes, []).disk.files);
    assert LogOf(files) == Deliver(h, bytes) + LogOf(files[1..]) == Deliver(h, bytes);
  }

  lemma SecondIsGone(h: seq<byte> -> uint32)
    ensures CutLength(h) < |Encode(FirstWrite(h))|
    ensures var bytes := Encode(FirstWrite(h))[..CutLength(h)] + Encode(SecondWrite(h));
            [1] !in Snapshot(LogOf(ReadFiles(h, OneFile(bytes, []).disk.files)))
  {
    FrameLength(FirstWrite(h));
    var bytes := Encode(FirstWrite(h))[..CutLength(h)] + Encode(SecondWrite(h));
    forall x | x in Deliver(h, bytes) ensures x.key != [1] {
      KeyIsLost(h, x);
    }
    NoRecordNoKey(h, bytes, [1]);
  }

  // The steps of two flushes around a restart, the first cut and the second whole.
  lemma FlushRestartFlush(h: seq<byte> -> uint32, e: Entry, m: nat, next: Entry)
    returns (ss: seq<System>, steps: seq<Step>)
    requires Sealed(h, e) && Sealed(h, next) && m < |Encode(e)|
    ensures steps == [Flush([e], m), Restart, Flush([next], |Encode(next)|)]
    ensures Execution(h, ss, steps) && ss[3] == OneFile(Encode(e)[..m] + Encode(next), [next])
  {
    var torn := Encode(e)[..m];
    steps := [Flush([e], m), Restart, Flush([next], |Encode(next)|)];
    ss := [FRESH, OneFile(torn, []), OneFile(torn, []), OneFile(torn + Encode(next), [next])];
    FlushOne(h, [], e, m);
    RestartOne(h, torn, []);
    FlushOne(h, torn, next, |Encode(next)|);
    assert [] + torn == torn && Encode(next)[..|Encode(next)|] == Encode(next);
  }

  // And the guard is needed: a batch is cut one byte short, the process restarts and flushes
  // another batch to the same file, completely; that batch is lost.
  lemma ReopenedRunLoses(h: seq<byte> -> uint32) returns (ss: seq<System>, steps: seq<Step>)
    ensures Execution(h, ss, steps) && |steps| == 3
    ensures steps[1] == Restart && steps[2] == Flush([SecondWrite(h)], |Encode(SecondWrite(h))|)
    ensures ss[3].history == [SecondWrite(h)] && [1] in Snapshot(ss[3].history)
    ensures [1] !in Snapshot(LogOf(ReadFiles(h, ss[3].disk.files)))
  {
    SecondIsGone(h);
    SecondIsLive(h);
    ss, steps := FlushRestartFlush(h, FirstWrite(h), CutLength(h), SecondWrite(h));
  }

  lemma SecondIsLive(h: seq<byte> -> uint32)
    ensures [1] in Snapshot([SecondWrite(h)])
  {
    var log := [SecondWrite(h)];
    assert log[..0] == [] && Top(log, [1]) == Some(log[0]) && log[0].key in Keys(log);
  }
}
