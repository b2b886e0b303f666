// Segments that were cut short and are then appended to: what is read of them, and when it is
// everything.
module LogReopen {
  import opened Wrappers
  import opened LogEntry
  import opened LogCodec

  /* Reopening a file that was cut */

  // A file cut at a frame boundary is safe to append to: what was whole and what is appended
  // is read, and nothing else.
  lemma ReopenedAtBoundaryReads(h: seq<byte> -> uint32, before: seq<Entry>, n: nat, appended: seq<Entry>)
    requires forall i :: 0 <= i < |before| ==> Sealed(h, before[i])
    requires forall i :: 0 <= i < |appended| ==> Sealed(h, appended[i])
    requires n <= |EncodeAll(before)| && n == |EncodeAll(before[..WholeFrames(before, n)])|
    ensures Deliver(h, EncodeAll(before)[..n] + EncodeAll(appended)) == before[..WholeFrames(before, n)] + appended
  {
    var k := WholeFrames(before, n);
    EncodedPrefix(before, k);
    EncodeAllConcat(before[..k], appended);
    SegmentRoundTrip(h, before[..k] + appended);
  }

  lemma EncodedPrefix(es: seq<Entry>, k: nat)
    requires k <= |es|
    ensures |EncodeAll(es[..k])| <= |EncodeAll(es)| && EncodeAll(es)[..|EncodeAll(es[..k])|] == EncodeAll(es[..k])
  {
    assert es == es[..k] + es[k..];
    EncodeAllConcat(es[..k], es[k..]);
  }

  lemma EncodeAllConcat(a: seq<Entry>, b: seq<Entry>)
    ensures EncodeAll(a + b) == EncodeAll(a) + EncodeAll(b)
  {
    assert Frames(a + b) == Frames(a) + Frames(b);
    FlattenConcat(Frames(a), Frames(b));
  }

  lemma ParsedTakes(data: seq<byte>)
    requires ParseBody(data).Some?
    ensures TotalLen(ParseBody(data).value) <= |data|
  {
    var op := ReadField(data[9..], 2);
    var key := ReadField(op.rest, 2);
  }

  lemma FrameTakes(s: seq<byte>)
    requires ParseFrame(s).Parsed?
    ensures 4 + TotalLen(ParseFrame(s).entry) <= |s|
  {
    ParsedTakes(s[4..][..FromBytes(s[..4])]);
  }

  lemma FrameAtTakes(s: seq<byte>, i: nat, e: Entry)
    requires FrameAt(s, i, e)
    ensures 4 + TotalLen(e) <= |s|
  {
    FrameTakes(s[i..]);
  }

  // A delivered entry takes its whole frame's worth of the bytes.
  lemma DeliveredTakes(h: seq<byte> -> uint32, s: seq<byte>, e: Entry)
    requires e in Deliver(h, s)
    ensures 4 + TotalLen(e) <= |s|
  {
    DeliveredIsSound(h, s, e);
    SoundTakes(h, s, e);
  }

  lemma SoundTakes(h: seq<byte> -> uint32, s: seq<byte>, e: Entry)
    requires Sound(h, s, e)
    ensures 4 + TotalLen(e) <= |s|
  {
    var i :| FrameAt(s, i, e);
    FrameAtTakes(s, i, e);
  }

  // Whatever the first frame of a stream is, four bytes or more are gone after it.
  lemma FirstFrameTakes(s: seq<byte>)
    ensures var f := ParseFrame(s); !f.EndOfFile? ==> |f.rest| + 4 <= |s| || f.rest == []
  {
  }

  // What the first frame of a stream reads as, carried whole.
  ghost predicate Reads(s: seq<byte>, f: Frame) {
    ParseFrame(s) == f
  }

  // An entry delivered from a stream is its first frame or comes from what is left after it.
  lemma FirstOrLater(h: seq<byte> -> uint32, s: seq<byte>, f: Frame, x: Entry)
    requires Sealed(h, x) && Reads(s, f) && (!f.EndOfFile? ==> |f.rest| < 4 + TotalLen(x))
    ensures x in Deliver(h, s) <==> f.Parsed? && f.entry == x
  {
    if f.Parsed? {
      if x in Deliver(h, f.rest) { DeliveredTakes(h, f.rest, x); }
    } else if f.Corrupt? {
      var next := Seek(f.rest);
      if next.Some? && x in Deliver(h, next.value) { DeliveredTakes(h, next.value, x); }
    }
  }

  lemma CutBody(body: seq<byte>, k: nat, next: seq<byte>)
    requires k <= |body| && |body| - k <= |next|
    ensures (body[..k] + next)[..|body|] == body[..k] + next[..|body| - k]
    ensures (body[..k] + next)[|body|..] == next[|body| - k..]
  {
  }

  lemma SplicedIsSized(e: Entry, m: nat, next: seq<byte>)
    requires 4 <= m < |Encode(e)| && ValidSizes(e)
    ensures |Body(e)| == TotalLen(e) == |Encode(e)| - 4
    ensures Reads(Encode(e)[..m] + next, ParseSized(TotalLen(e), Body(e)[..m - 4] + next))
  {
    BodyLength(e);
    var rest := Body(e)[..m - 4] + next;
    FramePrefix(e, rest);
    assert Encode(e)[..m] + next == BigEndian(TotalLen(e), 4) + rest;
  }

  // What a frame is read as when all its bytes are there.
  function SizedFrame(body: seq<byte>, rest: seq<byte>): Frame {
    var e := ParseBody(body);
    if e.None? then Corrupt(rest) else Parsed(e.value, rest)
  }

  lemma SizedFrameOf(n: nat, rest: seq<byte>)
    requires n <= MAX_ENTRY_SIZE && n <= |rest|
    ensures ParseSized(n, rest) == SizedFrame(rest[..n], rest[n..])
  {
  }

  // The frame that a cut body and the bytes appended after it make up.
  function Spliced(body: seq<byte>, k: nat, next: seq<byte>): Frame
    requires k <= |body|
  {
    var missing := |body| - k;
    if |next| < missing then Corrupt([]) else SizedFrame(body[..k] + next[..missing], next[missing..])
  }

  lemma SplicedBody(body: seq<byte>, k: nat, next: seq<byte>)
    requires k < |body| <= MAX_ENTRY_SIZE && next != []
    ensures ParseSized(|body|, body[..k] + next) == Spliced(body, k, next)
  {
    if |next| >= |body| - k {
      CutBody(body, k, next);
      SizedFrameOf(|body|, body[..k] + next);
    }
  }

  // A file cut in a frame's body reads, where that frame was, as the cut body made up with
  // the first bytes appended, and goes on after those.
  lemma SplicedFrame(e: Entry, m: nat, next: seq<byte>)
    requires 4 <= m < |Encode(e)| && ValidSizes(e) && next != []
    ensures m - 4 < |Body(e)| == |Encode(e)| - 4
    ensures Reads(Encode(e)[..m] + next, Spliced(Body(e), m - 4, next))
  {
    SplicedIsSized(e, m, next);
    SplicedBody(Body(e), m - 4, next);
  }

  // After the spliced frame less is left than the appended bytes.
  lemma SplicedRestIsShort(e: Entry, m: nat, next: seq<byte>)
    requires 0 < m < |Encode(e)| && ValidSizes(e) && next != []
    ensures var f := ParseFrame(Encode(e)[..m] + next); !f.EndOfFile? ==> |f.rest| < |next|
  {
    if m < 4 {
      FirstFrameTakes(Encode(e)[..m] + next);
    } else {
      SplicedFrame(e, m, next);
    }
  }

  // A file cut inside a frame, at any byte, and then appended to.  The appended entry is
  // delivered only if the spliced frame, made of the cut one and the start of the next,
  // happens to parse to that very entry.
  lemma AppendedAfterTornIff(h: seq<byte> -> uint32, e: Entry, m: nat, next: Entry)
    requires 0 < m < |Encode(e)| && ValidSizes(e) && Sealed(h, next)
    ensures var s := Encode(e)[..m] + Encode(next);
            next in Deliver(h, s) <==> ParseFrame(s).Parsed? && ParseFrame(s).entry == next
  {
    var s := Encode(e)[..m] + Encode(next);
    FrameLength(next);
    SplicedRestIsShort(e, m, Encode(next));
    FirstOrLater(h, s, ParseFrame(s), next);
  }

  // What the bytes of a body parse to, carried whole.
  ghost predicate Parses(body: seq<byte>, e: Entry) {
    ParseBody(body) == Some(e)
  }

  lemma SplicedParses(body: seq<byte>, k: nat, next: seq<byte>, e: Entry)
    requires k + 1 == |body| && next != [] && next[..1] == [0] && Parses(body[..k] + [0], e)
    ensures Spliced(body, k, next) == Parsed(e, next[1..])
  {
    assert body[..k] + next[..1] == body[..k] + [0];
  }

  // The entry whose CRC is rounded down to the byte boundary.
  function LowByteZero(e: Entry): Entry {
    e.(crc := e.crc - e.crc % 256)
  }

  // A frame that lacks its last byte takes the zero that every frame starts with.
  lemma LastByteTorn(e: Entry, m: nat, next: seq<byte>)
    requires ValidSizes(e) && next != [] && next[..1] == [0] && m + 1 == |Encode(e)|
    ensures Reads(Encode(e)[..m] + next, Parsed(LowByteZero(e), next[1..]))
  {
    FrameLength(e);
    BodyLength(e);
    var k := m - 4;
    SplicedFrame(e, m, next);
    LastByteReplaced(e, k);
    SplicedParses(Body(e), k, next, LowByteZero(e));
  }

  // For every frame that lacks its last byte: an entry appended after it is lost, unless it is
  // the torn entry itself with the low byte of its CRC zero.
  lemma AppendAfterTornFrameIsLost(h: seq<byte> -> uint32, e: Entry, next: Entry)
    requires ValidSizes(e) && Sealed(h, next)
    ensures |Encode(e)| > 0
    ensures next in Deliver(h, Encode(e)[..|Encode(e)| - 1] + Encode(next)) <==> next == LowByteZero(e)
  {
    FrameLength(e);
    FrameLength(next);
    FirstByteIsZero(next);
    var m := |Encode(e)| - 1;
    LastByteTorn(e, m, Encode(next));
    FirstOrLater(h, Encode(e)[..m] + Encode(next), Parsed(LowByteZero(e), Encode(next)[1..]), next);
  }

  // So a file whose last byte is missing loses the next entry written to it.
  lemma EntryAfterTornFrameIsLost(h: seq<byte> -> uint32) returns (e: Entry, m: nat, next: Entry)
    ensures Sealed(h, e) && Sealed(h, next) && m + 1 == |Encode(e)|
    ensures next !in Deliver(h, Encode(e)[..m] + Encode(next))
  {
    e := Entry(0, 1, [], [], [], 0);
    e := e.(crc := CalculateCRC(h, e));
    next := Entry(0, 2, [], [], [], 0);
    next := next.(crc := CalculateCRC(h, next));
    AppendAfterTornFrameIsLost(h, e, next);
    m := |Encode(e)| - 1;
  }

  lemma FirstByteIsZero(e: Entry)
    requires ValidSizes(e)
    ensures Encode(e)[..1] == [0]
  {
    Widths();
    SmallMod(TotalLen(e), Pow256(4));
    TopByte(TotalLen(e));
    assert Encode(e)[..1] == BigEndian(TotalLen(e), 4)[..1];
  }

  lemma TopByte(v: nat)
    requires v < 0x100_0000
    ensures BigEndian(v, 4)[..1] == [0]
  {
    assert BigEndian(v, 4) == BigEndian(v / 256, 3) + [v % 256];
    assert BigEndian(v / 256, 3) == BigEndian(v / 256 / 256, 2) + [v / 256 % 256];
    assert BigEndian(v / 256 / 256, 2) == BigEndian(v / 256 / 256 / 256, 1) + [v / 256 / 256 % 256];
    assert v / 256 / 256 / 256 == 0 && BigEndian(0, 1) == BigEndian(0, 0) + [0];
  }

  // With zero for its last byte a body is that of the entry with its CRC rounded down.
  lemma LastByteReplaced(e: Entry, k: nat)
    requires ValidSizes(e) && k + 1 == |Body(e)|
    ensures Parses(Body(e)[..k] + [0], LowByteZero(e))
  {
    LowByteBody(e, k);
    BodyParses(LowByteZero(e));
  }

  lemma LowByteBody(e: Entry, k: nat)
    requires k + 1 == |Body(e)|
    ensures Body(e)[..k] + [0] == Body(LowByteZero(e))
  {
    CrcIsLast(e, Front(e));
    CrcIsLast(LowByteZero(e), Front(e));
    LastReplaced(Body(e), Front(e), BigEndian(e.crc, 4), k);
    LowByteOfCrc(e.crc);
  }

  // The body without its CRC.
  function Front(e: Entry): seq<byte> {
    [e.typ] + (BigEndian(Unsigned(e.timestamp), 8) + (Field(e.operation, 2) + (Field(e.key, 2) + Field(e.value, 4))))
  }

  lemma CrcIsLast(e: Entry, front: seq<byte>)
    requires front == Front(e)
    ensures Body(e) == front + BigEndian(e.crc, 4)
  {
    AssociateFields([e.typ], BigEndian(Unsigned(e.timestamp), 8), Field(e.operation, 2), Field(e.key, 2),
              Field(e.value, 4), BigEndian(e.crc, 4));
  }

  lemma AssociateFields<T>(a: seq<T>, b: seq<T>, c: seq<T>, d: seq<T>, e: seq<T>, f: seq<T>)
    ensures a + (b + (c + (d + (e + f)))) == (a + (b + (c + (d + e)))) + f
  {
    assert c + (d + (e + f)) == (c + (d + e)) + f;
    assert b + ((c + (d + e)) + f) == (b + (c + (d + e))) + f;
  }

  lemma LowByteOfCrc(crc: uint32)
    ensures BigEndian(crc - crc % 256, 4) == BigEndian(crc, 4)[..3] + [0]
  {
    assert (crc - crc % 256) / 256 == crc / 256 && (crc - crc % 256) % 256 == 0;
  }

  lemma LastReplaced(body: seq<byte>, front: seq<byte>, last: seq<byte>, k: nat)
    requires body == front + last && |last| == 4 && k + 1 == |body|
    ensures body[..k] + [0] == front + (last[..3] + [0])
  {
  }

  /* When reopening is safe */

  // What a stream delivers, carried whole.
  ghost predicate Delivers(h: seq<byte> -> uint32, s: seq<byte>, es: seq<Entry>) {
    Deliver(h, s) == es
  }

  lemma FirstFrameDelivers(h: seq<byte> -> uint32, f: seq<byte>, e: Entry, rest: seq<byte>, es: seq<Entry>)
    requires ReadsAs(h, f, e) && Delivers(h, rest, es)
    ensures Delivers(h, f + rest, [e] + es)
  {
  }

  // Whole frames in front of anything are read first.
  lemma {:induction false} FramesThenRest(h: seq<byte> -> uint32, es: seq<Entry>, frames: seq<seq<byte>>,
                                          rest: seq<byte>, others: seq<Entry>)
    requires |frames| == |es| && (forall i :: 0 <= i < |es| ==> ReadsAs(h, frames[i], es[i]))
    requires Delivers(h, rest, others)
    ensures Delivers(h, Flatten(frames) + rest, es + others)
    decreases |es|
  {
    if es == [] {
      assert Flatten(frames) + rest == rest && es + others == others;
    } else {
      var tail := Flatten(frames[1..]);
      FramesThenRest(h, es[1..], frames[1..], rest, others);
      FirstFrameDelivers(h, frames[0], es[0], tail + rest, es[1..] + others);
      Associate(frames[0], tail, rest);
      Associate([es[0]], es[1..], others);
      assert [es[0]] + es[1..] == es;
    }
  }

  lemma WholeThenRest(h: seq<byte> -> uint32, es: seq<Entry>, rest: seq<byte>)
    requires forall i :: 0 <= i < |es| ==> Sealed(h, es[i])
    ensures Deliver(h, EncodeAll(es) + rest) == es + Deliver(h, rest)
  {
    forall i | 0 <= i < |es| ensures ReadsAs(h, Frames(es)[i], es[i]) {
      FrameReadsAs(h, es[i]);
    }
    FramesThenRest(h, es, Frames(es), rest, Deliver(h, rest));
  }

  // A prefix of a segment is its whole frames and part of one more, or of none.
  ghost predicate IsTorn(torn: seq<byte>, es: seq<Entry>, k: nat) {
    if k < |es| then |torn| < |Encode(es[k])| && torn == Encode(es[k])[..|torn|] else torn == []
  }

  // The bytes of the first n that are no part of a whole frame.
  function Torn(es: seq<Entry>, n: nat): seq<byte>
    requires n <= |EncodeAll(es)|
  {
    var whole := |EncodeAll(es[..WholeFrames(es, n)])|;
    if whole <= n then EncodeAll(es)[whole..n] else []
  }

  lemma PrefixIsWholeThenTorn(es: seq<Entry>, n: nat)
    requires n <= |EncodeAll(es)|
    ensures var k := WholeFrames(es, n);
            && |EncodeAll(es[..k])| + |Torn(es, n)| == n
            && EncodeAll(es)[..n] == EncodeAll(es[..k]) + Torn(es, n)
            && IsTorn(Torn(es, n), es, k)
  {
    var k := WholeFrames(es, n);
    WholeFramesIsExact(es, n, k);
    EncodedPrefix(es, k);
    CutAt(EncodeAll(es), EncodeAll(es[..k]), n);
    if k < |es| {
      WholeFramesIsExact(es, n, k + 1);
      NextFrame(es, k);
      TornPart(EncodeAll(es), EncodeAll(es[..k]), Encode(es[k]), n);
    } else {
      assert es[..k] == es;
    }
  }

  lemma CutAt(all: seq<byte>, whole: seq<byte>, n: nat)
    requires |whole| <= n <= |all| && all[..|whole|] == whole
    ensures all[..n] == whole + all[|whole|..n]
  {
    assert all[..n][..|whole|] == all[..|whole|];
  }

  lemma NextFrame(es: seq<Entry>, k: nat)
    requires k < |es|
    ensures var whole := EncodeAll(es[..k]);
            && EncodeAll(es[..k + 1]) == whole + Encode(es[k])
            && |whole| + |Encode(es[k])| <= |EncodeAll(es)|
            && EncodeAll(es)[..|whole| + |Encode(es[k])|] == whole + Encode(es[k])
  {
    EncodedPrefix(es, k + 1);
    EncodeAllConcat(es[..k], [es[k]]);
    assert es[..k + 1] == es[..k] + [es[k]];
    OneFrame(es[k]);
  }

  lemma OneFrame(e: Entry)
    ensures EncodeAll([e]) == Encode(e)
  {
    assert Flatten(Frames([e])[1..]) == [];
  }

  lemma TornPart(all: seq<byte>, whole: seq<byte>, next: seq<byte>, n: nat)
    requires |whole| <= n < |whole| + |next| <= |all| && all[..|whole| + |next|] == whole + next
    ensures all[|whole|..n] == next[..n - |whole|]
  {
    assert all[|whole|..n] == all[..|whole| + |next|][|whole|..n];
  }

  // The type of a parsed entry is the fifth byte of the stream.
  lemma TypeIsFifthByte(s: seq<byte>)
    requires ParseFrame(s).Parsed?
    ensures |s| > 4 && ParseFrame(s).entry.typ == s[4]
  {
  }

  // Two entries that differ in their type only.
  function Typed(h: seq<byte> -> uint32, typ: byte): Entry {
    var e := Entry(typ, 1, [], [], [], 0);
    e.(crc := CalculateCRC(h, e))
  }

  lemma FifthByteIsTorn(h: seq<byte> -> uint32, e: Entry, m: nat, a: byte, b: byte)
    requires 0 < m < |Encode(e)|
    ensures |Encode(Typed(h, a))| == |Encode(Typed(h, b))| == 25
    ensures (Encode(e)[..m] + Encode(Typed(h, a)))[4] == (Encode(e)[..m] + Encode(Typed(h, b)))[4]
  {
    var x, y := Typed(h, a), Typed(h, b);
    FrameLength(x);
    FrameLength(y);
    assert Encode(x)[..4] == BigEndian(TotalLen(x) % Pow256(4), 4) == Encode(y)[..4];
    if m <= 4 {
      assert Encode(x)[4 - m] == Encode(x)[..4][4 - m] && Encode(y)[4 - m] == Encode(y)[..4][4 - m];
    }
  }

  // After a cut at any byte inside a frame, some entry is lost.
  lemma TornLosesSome(h: seq<byte> -> uint32, e: Entry, m: nat) returns (next: Entry)
    requires ValidSizes(e) && 0 < m < |Encode(e)|
    ensures Sealed(h, next) && next !in Deliver(h, Encode(e)[..m] + Encode(next))
  {
    var x, y := Typed(h, 7), Typed(h, 8);
    FifthByteIsTorn(h, e, m, 7, 8);
    AppendedAfterTornIff(h, e, m, x);
    AppendedAfterTornIff(h, e, m, y);
    var s, t := Encode(e)[..m] + Encode(x), Encode(e)[..m] + Encode(y);
    if x in Deliver(h, s) { TypeIsFifthByte(s); }
    if y in Deliver(h, t) { TypeIsFifthByte(t); }
    next := if x in Deliver(h, s) then y else x;
  }

  // Whatever is appended next is read, after what was whole.
  ghost predicate SafeToReopen(h: seq<byte> -> uint32, before: seq<Entry>, n: nat)
    requires n <= |EncodeAll(before)|
  {
    forall next :: Sealed(h, next) ==>
      Deliver(h, EncodeAll(before)[..n] + Encode(next)) == before[..WholeFrames(before, n)] + [next]
  }

  lemma BoundaryIsSafe(h: seq<byte> -> uint32, before: seq<Entry>, n: nat)
    requires (forall i :: 0 <= i < |before| ==> Sealed(h, before[i])) && n <= |EncodeAll(before)|
    requires n == |EncodeAll(before[..WholeFrames(before, n)])|
    ensures SafeToReopen(h, before, n)
  {
    forall next | Sealed(h, next)
      ensures Deliver(h, EncodeAll(before)[..n] + Encode(next)) == before[..WholeFrames(before, n)] + [next]
    {
      OneFrame(next);
      ReopenedAtBoundaryReads(h, before, n, [next]);
    }
  }

  lemma InsideIsUnsafe(h: seq<byte> -> uint32, before: seq<Entry>, n: nat) returns (next: Entry)
    requires (forall i :: 0 <= i < |before| ==> Sealed(h, before[i])) && n <= |EncodeAll(before)|
    requires Torn(before, n) != []
    ensures Sealed(h, next)
    ensures Deliver(h, EncodeAll(before)[..n] + Encode(next)) != before[..WholeFrames(before, n)] + [next]
  {
    var k, torn := WholeFrames(before, n), Torn(before, n);
    PrefixIsWholeThenTorn(before, n);
    next := TornLosesSome(h, before[k], |torn|);
    WholeThenRest(h, before[..k], torn + Encode(next));
    Associate(EncodeAll(before[..k]), torn, Encode(next));
    LastIsLost(before[..k], Deliver(h, torn + Encode(next)), next);
  }

  // A segment cut at n bytes is safe to append to exactly when n is the end of a frame.
  lemma ReopenIsSafeIff(h: seq<byte> -> uint32, before: seq<Entry>, n: nat)
    requires (forall i :: 0 <= i < |before| ==> Sealed(h, before[i])) && n <= |EncodeAll(before)|
    ensures SafeToReopen(h, before, n) <==> n == |EncodeAll(before[..WholeFrames(before, n)])|
  {
    PrefixIsWholeThenTorn(before, n);
    if Torn(before, n) == [] {
      BoundaryIsSafe(h, before, n);
    } else {
      var next := InsideIsUnsafe(h, before, n);
    }
  }

  lemma LastIsLost<T>(a: seq<T>, b: seq<T>, x: T)
    requires x !in b
    ensures a + b != a + [x]
  {
    if |b| == 1 { assert (a + b)[|a|] == b[0] && (a + [x])[|a|] == x; }
  }
}
