// The byte format of a segment: what writeEntry produces, what the reader makes of any
// bytes at all, and that the two fit, also when the file is cut short.
module LogCodec {
  import opened Wrappers
  import opened LogEntry

  const MAX_FIELD_LEN := 65535
  const MAX_ENTRY_SIZE := 10 * 1024 * 1024

  /* Big-endian numbers */

  function Pow256(n: nat): nat {
    if n == 0 then 1 else 256 * Pow256(n - 1)
  }

  function BigEndian(v: nat, n: nat): (s: seq<byte>)
    ensures |s| == n
  {
    if n == 0 then [] else BigEndian(v / 256, n - 1) + [v % 256]
  }

  function FromBytes(s: seq<byte>): nat {
    if s == [] then 0 else 256 * FromBytes(s[..|s| - 1]) + s[|s| - 1]
  }

  lemma {:induction false} FromBytesInvertsBigEndian(v: nat, n: nat)
    requires v < Pow256(n)
    ensures FromBytes(BigEndian(v, n)) == v
  {
    if n > 0 {
      FromBytesInvertsBigEndian(v / 256, n - 1);
      assert BigEndian(v, n)[..n - 1] == BigEndian(v / 256, n - 1);
    }
  }

  lemma {:induction false} FromBytesBound(s: seq<byte>)
    ensures FromBytes(s) < Pow256(|s|)
  {
    if s != [] { FromBytesBound(s[..|s| - 1]); }
  }

  lemma Widths()
    ensures Pow256(2) == 0x1_0000 && Pow256(4) == 0x1_0000_0000 && Pow256(8) == 0x1_0000_0000_0000_0000
  {
    assert Pow256(1) == 256 * Pow256(0);
    assert Pow256(3) == 256 * Pow256(2);
    assert Pow256(5) == 256 * Pow256(4) && Pow256(6) == 256 * Pow256(5);
    assert Pow256(7) == 256 * Pow256(6);
  }

  // int64 to uint64 and back, in two's complement.
  function Unsigned(t: int64): nat {
    if t < 0 then t + 0x1_0000_0000_0000_0000 else t
  }

  function Signed(u: nat): int64
    requires u < 0x1_0000_0000_0000_0000
  {
    if u >= 0x8000_0000_0000_0000 then u - 0x1_0000_0000_0000_0000 else u
  }

  /* Writing */

  function TotalLen(e: Entry): nat {
    1 + 8 + 2 + |e.operation| + 2 + |e.key| + 4 + |e.value| + 4
  }

  // validateEntrySizes
  predicate ValidSizes(e: Entry) {
    |e.operation| <= MAX_FIELD_LEN && |e.key| <= MAX_FIELD_LEN && TotalLen(e) <= MAX_ENTRY_SIZE
  }

  // A length of the given width, truncated as uint16 and uint32 conversions do, then the bytes.
  function Field(f: seq<byte>, width: nat): seq<byte>
    requires width == 2 || width == 4
  {
    BigEndian(|f| % Pow256(width), width) + f
  }

  function Body(e: Entry): seq<byte> {
    [e.typ] + (BigEndian(Unsigned(e.timestamp), 8) +
    (Field(e.operation, 2) + (Field(e.key, 2) + (Field(e.value, 4) + BigEndian(e.crc, 4)))))
  }

  // writeEntry
  function Encode(e: Entry): seq<byte> {
    BigEndian(TotalLen(e) % Pow256(4), 4) + Body(e)
  }

  function Frames(es: seq<Entry>): (frames: seq<seq<byte>>)
    ensures |frames| == |es| && forall i :: 0 <= i < |es| ==> frames[i] == Encode(es[i])
  {
    seq(|es|, i requires 0 <= i < |es| => Encode(es[i]))
  }

  // The bytes of a segment.
  function EncodeAll(es: seq<Entry>): seq<byte> {
    Flatten(Frames(es))
  }

  // CRC32 is left uninterpreted: h is any hash of the bytes that CalculateCRC feeds it.
  function CalculateCRC(h: seq<byte> -> uint32, e: Entry): uint32 {
    h([e.typ] + BigEndian(Unsigned(e.timestamp), 8) + e.operation + e.key + e.value)
  }

  /* Reading */

  datatype Split = NoField | Split(field: seq<byte>, rest: seq<byte>)

  // A length of the given width and that many bytes, bounds-checked.
  function ReadField(data: seq<byte>, width: nat): Split {
    if |data| < width then NoField
    else
      var n, rest := FromBytes(data[..width]), data[width..];
      if |rest| < n then NoField else Split(rest[..n], rest[n..])
  }

  // readEntry on the bytes of one frame, field by field; bytes after the CRC are ignored.
  function ParseBody(data: seq<byte>): Option<Entry> {
    if |data| < 9 then None
    else
      FromBytesBound(data[1..9]);
      Widths();
      ParseOperation(data[0], Signed(FromBytes(data[1..9])), data[9..])
  }

  function ParseOperation(typ: byte, time: int64, data: seq<byte>): Option<Entry> {
    var op := ReadField(data, 2);
    if op.NoField? then None else ParseKey(typ, time, op.field, op.rest)
  }

  function ParseKey(typ: byte, time: int64, op: seq<byte>, data: seq<byte>): Option<Entry> {
    var key := ReadField(data, 2);
    if key.NoField? then None else ParseValue(typ, time, op, key.field, key.rest)
  }

  function ParseValue(typ: byte, time: int64, op: seq<byte>, key: seq<byte>, data: seq<byte>): Option<Entry> {
    var value := ReadField(data, 4);
    if value.NoField? then None else ParseCRC(typ, time, op, key, value.field, value.rest)
  }

  function ParseCRC(typ: byte, time: int64, op: seq<byte>, key: seq<byte>, value: seq<byte>, data: seq<byte>)
    : Option<Entry>
  {
    if |data| < 4 then None
    else
      FromBytesBound(data[..4]);
      Widths();
      Some(Entry(typ, time, op, key, value, FromBytes(data[..4])))
  }

  // What readEntry makes of the rest of the stream: the end, an error with what is left to
  // read, or an entry with what is left.
  datatype Frame = EndOfFile | Corrupt(rest: seq<byte>) | Parsed(entry: Entry, rest: seq<byte>)

  function ParseFrame(s: seq<byte>): (f: Frame)
    ensures !f.EndOfFile? ==> |f.rest| < |s|
  {
    if s == [] then EndOfFile
    else if |s| < 4 then Corrupt([])
    else
      ParseSized(FromBytes(s[..4]), s[4..])
  }

  // ... after the length n has been read.
  function ParseSized(n: nat, rest: seq<byte>): (f: Frame)
    ensures !f.EndOfFile? ==> |f.rest| <= |rest|
  {
    if n > MAX_ENTRY_SIZE then Corrupt(rest)
    else if |rest| < n then (if rest == [] then EndOfFile else Corrupt([]))
    else
      var e := ParseBody(rest[..n]);
      if e.None? then Corrupt(rest[n..]) else Parsed(e.value, rest[n..])
  }

  // seekToNextEntry
  function Seek(s: seq<byte>): (r: Option<seq<byte>>)
    ensures r.Some? ==> |r.value| <= |s|
  {
    if |s| < 4 then None
    else if 0 < FromBytes(s[..4]) < MAX_ENTRY_SIZE then Some(s)
    else Seek(s[1..])
  }

  // readSegment: the entries handed to the callback, for any bytes.
  function Deliver(h: seq<byte> -> uint32, s: seq<byte>): seq<Entry>
    decreases |s|
  {
    match ParseFrame(s)
    case EndOfFile => []
    case Corrupt(rest) =>
      var next := Seek(rest);
      if next.None? then [] else Deliver(h, next.value)
    case Parsed(e, rest) =>
      (if CalculateCRC(h, e) == e.crc then [e] else []) + Deliver(h, rest)
  }

  /* The two fit */

  lemma Cut(a: seq<byte>, b: seq<byte>)
    ensures (a + b)[..|a|] == a && (a + b)[|a|..] == b
  {
  }

  lemma SmallMod(v: nat, m: nat)
    requires v < m
    ensures v % m == v
  {
  }

  lemma ReadFieldInvertsField(f: seq<byte>, width: nat, rest: seq<byte>)
    requires width == 2 || width == 4
    requires |f| < Pow256(width)
    ensures ReadField(Field(f, width) + rest, width) == Split(f, rest)
  {
    SmallMod(|f|, Pow256(width));
    var len := BigEndian(|f|, width);
    FromBytesInvertsBigEndian(|f|, width);
    assert Field(f, width) + rest == len + (f + rest);
    Cut(len, f + rest);
    Cut(f, rest);
  }

  // The lengths fit their prefixes.
  predicate Fits(e: Entry) {
    |e.operation| < 0x1_0000 && |e.key| < 0x1_0000 && |e.value| < 0x1_0000_0000
  }

  // The part of a body after the timestamp, and any bytes after the CRC.
  function Fields(e: Entry, junk: seq<byte>): seq<byte> {
    Field(e.operation, 2) + (Field(e.key, 2) + (Field(e.value, 4) + (BigEndian(e.crc, 4) + junk)))
  }

  lemma ParseFieldsInvertsFields(e: Entry, junk: seq<byte>)
    requires Fits(e)
    ensures ParseOperation(e.typ, e.timestamp, Fields(e, junk)) == Some(e)
  {
    Widths();
    var crc := BigEndian(e.crc, 4) + junk;
    var value := Field(e.value, 4) + crc;
    FromBytesInvertsBigEndian(e.crc, 4);
    Cut(BigEndian(e.crc, 4), junk);
    ReadFieldInvertsField(e.value, 4, crc);
    assert ParseValue(e.typ, e.timestamp, e.operation, e.key, value) == Some(e);
    ReadFieldInvertsField(e.key, 2, value);
    assert ParseKey(e.typ, e.timestamp, e.operation, Field(e.key, 2) + value) == Some(e);
    ReadFieldInvertsField(e.operation, 2, Field(e.key, 2) + value);
  }

  lemma BodyIsFields(e: Entry, junk: seq<byte>)
    ensures Body(e) + junk == [e.typ] + (BigEndian(Unsigned(e.timestamp), 8) + Fields(e, junk))
  {
  }

  lemma ParseBodyInvertsBody(e: Entry, junk: seq<byte>)
    requires Fits(e)
    ensures ParseBody(Body(e) + junk) == Some(e)
  {
    BodyIsFields(e, junk);
    ParseFieldsInvertsFields(e, junk);
    ParseBodyOf(e.typ, e.timestamp, Fields(e, junk));
  }

  lemma BodyParses(e: Entry)
    requires Fits(e)
    ensures ParseBody(Body(e)) == Some(e)
  {
    ParseBodyInvertsBody(e, []);
    assert Body(e) + [] == Body(e);
  }

  lemma ParseBodyOf(typ: byte, time: int64, fields: seq<byte>)
    ensures ParseBody([typ] + (BigEndian(Unsigned(time), 8) + fields)) == ParseOperation(typ, time, fields)
  {
    Widths();
    var bytes := BigEndian(Unsigned(time), 8);
    var body := [typ] + (bytes + fields);
    assert body[1..9] == bytes && body[9..] == fields;
    FromBytesInvertsBigEndian(Unsigned(time), 8);
  }

  lemma BodyLength(e: Entry)
    ensures |Body(e)| == TotalLen(e)
  {
  }

  // The frame's length prefix, and what follows it.
  lemma FramePrefix(e: Entry, rest: seq<byte>)
    requires ValidSizes(e)
    ensures var s := BigEndian(TotalLen(e), 4) + rest;
            FromBytes(s[..4]) == TotalLen(e) && s[4..] == rest
    ensures Encode(e) == BigEndian(TotalLen(e), 4) + Body(e)
  {
    Widths();
    SmallMod(TotalLen(e), Pow256(4));
    FromBytesInvertsBigEndian(TotalLen(e), 4);
    Cut(BigEndian(TotalLen(e), 4), rest);
  }

  lemma FrameRoundTrip(e: Entry, rest: seq<byte>)
    requires ValidSizes(e)
    ensures ParseFrame(Encode(e) + rest) == Parsed(e, rest)
  {
    FramePrefix(e, Body(e) + rest);
    assert Encode(e) + rest == BigEndian(TotalLen(e), 4) + (Body(e) + rest);
    BodyParses(e);
    BodyLength(e);
    Cut(Body(e), rest);
  }

  // An entry the writer accepts, with the CRC the writer computes.
  ghost predicate Sealed(h: seq<byte> -> uint32, e: Entry) {
    ValidSizes(e) && e.crc == CalculateCRC(h, e)
  }

  // Of the frames of es, how many fit whole in n bytes.
  function WholeFrames(es: seq<Entry>, n: nat): (k: nat)
    ensures k <= |es|
  {
    if es == [] || n < 4 + TotalLen(es[0]) then 0 else 1 + WholeFrames(es[1..], n - (4 + TotalLen(es[0])))
  }

  function EncodedSize(es: seq<Entry>): nat {
    if es == [] then 0 else 4 + TotalLen(es[0]) + EncodedSize(es[1..])
  }

  lemma FrameLength(e: Entry)
    ensures |Encode(e)| == 4 + TotalLen(e)
  {
    BodyLength(e);
  }

  lemma {:induction false} ConcatLength(es: seq<Entry>, frames: seq<seq<byte>>)
    requires |frames| == |es| && forall i :: 0 <= i < |es| ==> |frames[i]| == 4 + TotalLen(es[i])
    ensures |Flatten(frames)| == EncodedSize(es)
  {
    if es != [] { ConcatLength(es[1..], frames[1..]); }
  }

  lemma EncodedLength(es: seq<Entry>)
    ensures |EncodeAll(es)| == EncodedSize(es)
  {
    forall i | 0 <= i < |es| ensures |Frames(es)[i]| == 4 + TotalLen(es[i]) {
      FrameLength(es[i]);
    }
    ConcatLength(es, Frames(es));
  }

  lemma {:induction false} WholeFramesBySize(es: seq<Entry>, n: nat, k: nat)
    requires k <= |es|
    ensures k <= WholeFrames(es, n) <==> EncodedSize(es[..k]) <= n
    decreases |es|
  {
    if k > 0 {
      assert es[..k][1..] == es[1..][..k - 1];
      if n >= 4 + TotalLen(es[0]) {
        WholeFramesBySize(es[1..], n - (4 + TotalLen(es[0])), k - 1);
      }
    }
  }

  lemma WholeFramesIsExact(es: seq<Entry>, n: nat, k: nat)
    requires k <= |es|
    ensures k <= WholeFrames(es, n) <==> |EncodeAll(es[..k])| <= n
  {
    WholeFramesBySize(es, n, k);
    EncodedLength(es[..k]);
  }

  // A frame cut short delivers nothing.
  lemma TornFrameDeliversNothing(h: seq<byte> -> uint32, e: Entry, m: nat)
    requires ValidSizes(e) && m < |Encode(e)|
    ensures Deliver(h, Encode(e)[..m]) == []
  {
    BodyLength(e);
    if m >= 4 {
      FramePrefix(e, Body(e)[..m - 4]);
      assert Encode(e)[..m] == BigEndian(TotalLen(e), 4) + Body(e)[..m - 4];
    }
    assert Seek([]) == None;
  }

  // How the bytes of one frame are read: whole, whatever follows; or, cut short, as nothing.
  ghost predicate ReadsAs(h: seq<byte> -> uint32, f: seq<byte>, e: Entry) {
    && |f| == 4 + TotalLen(e)
    && (forall rest :: Deliver(h, f + rest) == [e] + Deliver(h, rest))
    && (forall m :: 0 <= m < |f| ==> Deliver(h, f[..m]) == [])
  }

  lemma FrameReadsAs(h: seq<byte> -> uint32, e: Entry)
    requires Sealed(h, e)
    ensures ReadsAs(h, Encode(e), e)
  {
    FrameLength(e);
    forall rest ensures Deliver(h, Encode(e) + rest) == [e] + Deliver(h, rest) {
      FrameRoundTrip(e, rest);
    }
    forall m | 0 <= m < |Encode(e)| ensures Deliver(h, Encode(e)[..m]) == [] {
      TornFrameDeliversNothing(h, e, m);
    }
  }

  lemma CutWithin<T>(a: seq<T>, b: seq<T>, n: nat)
    requires n <= |a| + |b|
    ensures (a + b)[..n] == if n < |a| then a[..n] else a + b[..n - |a|]
  {
  }

  lemma TakeFirst<T>(s: seq<T>, k: nat)
    requires k < |s|
    ensures [s[0]] + s[1..][..k] == s[..1 + k]
  {
  }

  lemma {:induction false} TruncatedFramesRead(h: seq<byte> -> uint32, es: seq<Entry>, frames: seq<seq<byte>>, n: nat)
    requires |frames| == |es| && (forall i :: 0 <= i < |es| ==> ReadsAs(h, frames[i], es[i]))
    requires n <= |Flatten(frames)|
    ensures Deliver(h, Flatten(frames)[..n]) == es[..WholeFrames(es, n)]
    decreases |es|
  {
    if es == [] {
      assert Flatten(frames)[..n] == [];
    } else {
      var f, rest := frames[0], Flatten(frames[1..]);
      assert ReadsAs(h, f, es[0]);
      CutWithin(f, rest, n);
      if n >= |f| {
        TruncatedFramesRead(h, es[1..], frames[1..], n - |f|);
        TakeFirst(es, WholeFrames(es[1..], n - |f|));
      }
    }
  }

  // Truncation: any byte prefix of a segment reads as exactly the entries whose frames fit
  // whole in it.
  lemma TruncatedSegmentReads(h: seq<byte> -> uint32, es: seq<Entry>, n: nat)
    requires (forall i :: 0 <= i < |es| ==> Sealed(h, es[i])) && n <= |EncodeAll(es)|
    ensures Deliver(h, EncodeAll(es)[..n]) == es[..WholeFrames(es, n)]
  {
    forall i | 0 <= i < |es| ensures ReadsAs(h, Frames(es)[i], es[i]) {
      FrameReadsAs(h, es[i]);
    }
    TruncatedFramesRead(h, es, Frames(es), n);
  }

  // Reading back a whole segment gives exactly what was written.
  lemma SegmentRoundTrip(h: seq<byte> -> uint32, es: seq<Entry>)
    requires forall i :: 0 <= i < |es| ==> Sealed(h, es[i])
    ensures Deliver(h, EncodeAll(es)) == es
  {
    var n := |EncodeAll(es)|;
    assert EncodeAll(es)[..n] == EncodeAll(es);
    TruncatedSegmentReads(h, es, n);
    assert es[..|es|] == es;
    WholeFramesIsExact(es, n, |es|);
  }

  lemma ParsedIsValid(data: seq<byte>)
    requires |data| <= MAX_ENTRY_SIZE && ParseBody(data).Some?
    ensures ValidSizes(ParseBody(data).value)
  {
    var op := ReadField(data[9..], 2);
    var key := ReadField(op.rest, 2);
    FromBytesBound(data[9..][..2]);
    FromBytesBound(op.rest[..2]);
    Widths();
  }

  ghost predicate FrameAt(s: seq<byte>, i: nat, e: Entry) {
    i <= |s| && ParseFrame(s[i..]).Parsed? && ParseFrame(s[i..]).entry == e
  }

  lemma RestIsSuffix(s: seq<byte>)
    ensures var f := ParseFrame(s);
            !f.EndOfFile? ==> f.rest == s[|s| - |f.rest|..]
  {
  }

  lemma FrameInSuffix(s: seq<byte>, t: seq<byte>, i: nat, e: Entry)
    requires |t| <= |s| && t == s[|s| - |t|..] && FrameAt(t, i, e)
    ensures FrameAt(s, |s| - |t| + i, e)
  {
    assert t[i..] == s[|s| - |t| + i..];
  }

  // e is a well-sized frame somewhere in s, and its stored and computed CRC agree.
  ghost predicate Sound(h: seq<byte> -> uint32, s: seq<byte>, e: Entry) {
    Sealed(h, e) && exists i :: FrameAt(s, i, e)
  }

  lemma SoundInSuffix(h: seq<byte> -> uint32, s: seq<byte>, t: seq<byte>, e: Entry)
    requires |t| <= |s| && t == s[|s| - |t|..] && Sound(h, t, e)
    ensures Sound(h, s, e)
  {
    var i :| FrameAt(t, i, e);
    FrameInSuffix(s, t, i, e);
  }

  lemma SuffixOfSuffix<T>(s: seq<T>, t: seq<T>, u: seq<T>)
    requires |u| <= |t| <= |s| && t == s[|s| - |t|..] && u == t[|t| - |u|..]
    ensures u == s[|s| - |u|..]
  {
  }

  lemma FirstFrameIsSound(s: seq<byte>)
    requires ParseFrame(s).Parsed?
    ensures ValidSizes(ParseFrame(s).entry) && FrameAt(s, 0, ParseFrame(s).entry)
  {
    ParsedIsValid(s[4..][..FromBytes(s[..4])]);
    assert s[0..] == s;
  }

  // Every delivered entry is the one parsed here, or delivered from a shorter suffix.
  lemma DeliveredHereOrLater(h: seq<byte> -> uint32, s: seq<byte>, e: Entry) returns (later: seq<byte>)
    requires e in Deliver(h, s)
    ensures |later| <= |s| && later == s[|s| - |later|..]
    ensures Sound(h, s, e) || (|later| < |s| && e in Deliver(h, later))
  {
    var f := ParseFrame(s);
    RestIsSuffix(s);
    later := if f.Corrupt? then Seek(f.rest).value else f.rest;
    if f.Corrupt? {
      SeekFindsSuffix(f.rest);
      SuffixOfSuffix(s, f.rest, later);
    } else if e !in Deliver(h, f.rest) {
      FirstFrameIsSound(s);
    }
  }

  // On any bytes whatever, each delivered entry is a well-sized frame of the input whose
  // stored and computed CRC agree.
  lemma {:induction false} DeliveredIsSound(h: seq<byte> -> uint32, s: seq<byte>, e: Entry)
    requires e in Deliver(h, s)
    ensures Sound(h, s, e)
    decreases |s|
  {
    var later := DeliveredHereOrLater(h, s, e);
    if !Sound(h, s, e) {
      DeliveredIsSound(h, later, e);
      SoundInSuffix(h, s, later, e);
    }
  }

  lemma {:induction false} SeekFindsSuffix(s: seq<byte>)
    ensures Seek(s).Some? ==> Seek(s).value == s[|s| - |Seek(s).value|..]
    decreases |s|
  {
    if |s| >= 4 && !(0 < FromBytes(s[..4]) < MAX_ENTRY_SIZE) {
      SeekFindsSuffix(s[1..]);
    }
  }

  // Delete does not call validateEntrySizes.  An entry is read back exactly when it passes.
  lemma ReadBackIff(h: seq<byte> -> uint32, e: Entry)
    ensures Deliver(h, Encode(e)) == [e] <==> Sealed(h, e)
  {
    if Sealed(h, e) {
      SegmentRoundTrip(h, [e]);
      assert Flatten(Frames([e])[1..]) == [] && EncodeAll([e]) == Encode(e);
    } else if Deliver(h, Encode(e)) == [e] {
      DeliveredIsSound(h, Encode(e), e);
    }
  }
}
