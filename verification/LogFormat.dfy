// The segment format, byte by byte: where each part of a record stands, which bytes are a record,
// and what its CRC covers.
module LogFormat {
  import opened Wrappers
  import opened LogEntry
  import opened LogCodec
  import opened KeyOrder

  /* Numbers */

  // Numbers of one width compare as their bytes do, from the first byte on.
  lemma {:induction false} NumbersCompareAsBytes(a: seq<byte>, b: seq<byte>)
    requires |a| == |b|
    ensures FromBytes(a) < FromBytes(b) <==> exists i: nat :: LessAt(a, b, i)
    decreases |a|
  {
    if a != [] {
      var n := |a| - 1;
      NumbersCompareAsBytes(a[..n], b[..n]);
      SameNumberSameBytes(a[..n], b[..n]);
      assert a == a[..n] + [a[n]] && b == b[..n] + [b[n]];
      if i: nat :| LessAt(a[..n], b[..n], i) {
        assert a[..n][..i] == a[..i] && b[..n][..i] == b[..i];
        assert LessAt(a, b, i);
      }
      if i: nat :| LessAt(a, b, i) && i < n {
        assert a[..n][..i] == a[..i] && b[..n][..i] == b[..i];
        assert LessAt(a[..n], b[..n], i);
      }
      if a[..n] == b[..n] && a[n] < b[n] { assert LessAt(a, b, n); }
    }
  }

  lemma {:induction false} BytesOfNumber(s: seq<byte>)
    ensures BigEndian(FromBytes(s), |s|) == s
    decreases |s|
  {
    if s != [] { BytesOfNumber(s[..|s| - 1]); }
  }

  lemma SameNumberSameBytes(a: seq<byte>, b: seq<byte>)
    requires |a| == |b|
    ensures FromBytes(a) == FromBytes(b) <==> a == b
  {
    BytesOfNumber(a);
    BytesOfNumber(b);
  }

  /* Which bytes are a record */

  lemma FieldRead(data: seq<byte>, width: nat, f: seq<byte>, rest: seq<byte>)
    requires (width == 2 || width == 4) && ReadField(data, width) == Split(f, rest)
    ensures |f| < Pow256(width) && data == Field(f, width) + rest
  {
    FromBytesBound(data[..width]);
    BytesOfNumber(data[..width]);
    SmallMod(|f|, Pow256(width));
    assert data == data[..width] + (f + rest);
  }

  lemma FieldIff(data: seq<byte>, width: nat, f: seq<byte>, rest: seq<byte>)
    requires width == 2 || width == 4
    ensures ReadField(data, width) == Split(f, rest) <==> |f| < Pow256(width) && data == Field(f, width) + rest
  {
    if ReadField(data, width) == Split(f, rest) { FieldRead(data, width, f, rest); }
    if |f| < Pow256(width) && data == Field(f, width) + rest { ReadFieldInvertsField(f, width, rest); }
  }

  lemma CrcIff(data: seq<byte>, e: Entry) returns (junk: seq<byte>)
    requires ParseCRC(e.typ, e.timestamp, e.operation, e.key, e.value, data) == Some(e)
    ensures data == BigEndian(e.crc, 4) + junk
  {
    BytesOfNumber(data[..4]);
    junk := data[4..];
  }

  lemma ParsedFields(data: seq<byte>, typ: byte, time: int64, e: Entry) returns (junk: seq<byte>)
    requires ParseOperation(typ, time, data) == Some(e)
    ensures typ == e.typ && time == e.timestamp && Fits(e) && data == Fields(e, junk)
  {
    Widths();
    var op := ReadField(data, 2);
    var key := ReadField(op.rest, 2);
    var value := ReadField(key.rest, 4);
    FieldIff(data, 2, e.operation, op.rest);
    FieldIff(op.rest, 2, e.key, key.rest);
    FieldIff(key.rest, 4, e.value, value.rest);
    junk := CrcIff(value.rest, e);
  }

  lemma BodyHeader(data: seq<byte>) returns (time: int64)
    requires |data| >= 9
    ensures ParseBody(data) == ParseOperation(data[0], time, data[9..])
    ensures data == [data[0]] + (BigEndian(Unsigned(time), 8) + data[9..])
  {
    Widths();
    FromBytesBound(data[1..9]);
    BytesOfNumber(data[1..9]);
    time := Signed(FromBytes(data[1..9]));
    assert data == [data[0]] + (data[1..9] + data[9..]);
  }

  lemma ParsedBody(data: seq<byte>, e: Entry) returns (junk: seq<byte>)
    requires ParseBody(data) == Some(e)
    ensures Fits(e) && data == Body(e) + junk
  {
    var time := BodyHeader(data);
    junk := ParsedFields(data[9..], data[0], time, e);
    BodyIsFields(e, junk);
  }

  // A record's body, with anything after the CRC.
  ghost predicate HasBody(data: seq<byte>, e: Entry) {
    Fits(e) && exists junk :: data == Body(e) + junk
  }

  // The bytes of a frame are read as a record exactly when they are its body, with anything
  // after the CRC; so no two records share their bytes.
  lemma BodyIff(data: seq<byte>, e: Entry)
    ensures ParseBody(data) == Some(e) <==> HasBody(data, e)
  {
    if ParseBody(data) == Some(e) {
      var junk := ParsedBody(data, e);
    }
    forall junk | Fits(e) && data == Body(e) + junk ensures ParseBody(data) == Some(e) {
      ParseBodyInvertsBody(e, junk);
    }
  }

  // A whole frame: its length, at most the limit, and that many bytes.
  ghost predicate IsFrame(f: seq<byte>, data: seq<byte>) {
    |data| <= MAX_ENTRY_SIZE && f == BigEndian(|data|, 4) + data
  }

  lemma FrameIsRead(f: seq<byte>, data: seq<byte>, e: Entry, rest: seq<byte>)
    requires IsFrame(f, data) && ParseBody(data) == Some(e)
    ensures ParseFrame(f + rest) == Parsed(e, rest)
  {
    Widths();
    FromBytesInvertsBigEndian(|data|, 4);
    Associate(BigEndian(|data|, 4), data, rest);
    Cut(BigEndian(|data|, 4), data + rest);
    Cut(data, rest);
  }

  lemma ReadHasLength(s: seq<byte>, e: Entry, rest: seq<byte>) returns (n: nat)
    requires ParseFrame(s) == Parsed(e, rest)
    ensures |s| >= 4 && n == FromBytes(s[..4]) <= MAX_ENTRY_SIZE && n <= |s[4..]|
    ensures ParseBody(s[4..][..n]) == Some(e) && rest == s[4..][n..]
  {
    n := FromBytes(s[..4]);
  }

  lemma ReadIsFrame(s: seq<byte>, e: Entry, rest: seq<byte>) returns (f: seq<byte>, data: seq<byte>)
    requires ParseFrame(s) == Parsed(e, rest)
    ensures IsFrame(f, data) && ParseBody(data) == Some(e) && s == f + rest
  {
    var n := ReadHasLength(s, e, rest);
    data := s[4..][..n];
    f := s[..4] + data;
    BytesOfNumber(s[..4]);
    assert s == s[..4] + s[4..] && s[4..] == data + rest;
    Associate(s[..4], data, rest);
  }

  // What is read from the stream as a record is exactly such a frame, and what follows is left.
  lemma FrameIff(s: seq<byte>, e: Entry, rest: seq<byte>)
    ensures ParseFrame(s) == Parsed(e, rest) <==>
            exists f, data :: IsFrame(f, data) && HasBody(data, e) && s == f + rest
  {
    if ParseFrame(s) == Parsed(e, rest) {
      var f, data := ReadIsFrame(s, e, rest);
      BodyIff(data, e);
    }
    forall f, data | IsFrame(f, data) && HasBody(data, e) && s == f + rest ensures ParseFrame(s) == Parsed(e, rest) {
      BodyIff(data, e);
      FrameIsRead(f, data, e, rest);
    }
  }

  /* Where each part stands */

  // The offsets of a record's parts in its frame.
  function KeyAt(e: Entry): nat {
    17 + |e.operation|
  }

  function ValueAt(e: Entry): nat {
    KeyAt(e) + |e.key| + 4
  }

  lemma HeaderLayout(e: Entry)
    requires ValidSizes(e)
    ensures var s := Encode(e);
            && |s| == ValueAt(e) + |e.value| + 4 && FromBytes(s[..4]) == |s| - 4
            && s[4] == e.typ
            && FromBytes(s[5..13]) == if e.timestamp < 0 then e.timestamp + 0x1_0000_0000_0000_0000 else e.timestamp
  {
    Widths();
    FrameLength(e);
    FramePrefix(e, Body(e));
    var time := BigEndian(Unsigned(e.timestamp), 8);
    FromBytesInvertsBigEndian(Unsigned(e.timestamp), 8);
    BodyIsFields(e, []);
    assert Body(e) + [] == Body(e);
    assert Encode(e)[5..13] == time;
  }

  // Each part after the timestamp: its length, big-endian in the given width, then its bytes.
  predicate StandsAt(s: seq<byte>, at: nat, width: nat, part: seq<byte>) {
    && width <= at && at + |part| <= |s|
    && FromBytes(s[at - width..at]) == |part| && s[at..at + |part|] == part
  }

  lemma FieldStands(s: seq<byte>, before: seq<byte>, width: nat, part: seq<byte>, after: seq<byte>)
    requires (width == 2 || width == 4) && |part| < Pow256(width) && s == before + (Field(part, width) + after)
    ensures StandsAt(s, |before| + width, width, part)
  {
    SmallMod(|part|, Pow256(width));
    FromBytesInvertsBigEndian(|part|, width);
    var at := |before| + width;
    assert s[at - width..at] == BigEndian(|part|, width);
    assert s[at..at + |part|] == part;
  }

  // A part, then what follows it.
  lemma PartStands(s: seq<byte>, at: nat, width: nat, part: seq<byte>, after: seq<byte>)
    requires (width == 2 || width == 4) && |part| < Pow256(width) && at <= |s|
    requires s[at..] == Field(part, width) + after
    ensures StandsAt(s, at + width, width, part)
    ensures at + width + |part| <= |s| && s[at + width + |part|..] == after
  {
    FieldStands(s, s[..at], width, part, after);
    assert s[at + width + |part|..] == s[at..][width + |part|..];
  }

  lemma PartsInOrder(s: seq<byte>, a: seq<byte>, b: seq<byte>, c: seq<byte>, end: seq<byte>)
    requires |s| >= 13 && s[13..] == Field(a, 2) + (Field(b, 2) + (Field(c, 4) + end))
    requires |a| < Pow256(2) && |b| < Pow256(2) && |c| < Pow256(4)
    ensures StandsAt(s, 15, 2, a) && StandsAt(s, 17 + |a|, 2, b) && StandsAt(s, 21 + |a| + |b|, 4, c)
    ensures |s| == 21 + |a| + |b| + |c| + |end| && s[|s| - |end|..] == end
  {
    PartStands(s, 13, 2, a, Field(b, 2) + (Field(c, 4) + end));
    PartStands(s, 15 + |a|, 2, b, Field(c, 4) + end);
    PartStands(s, 17 + |a| + |b|, 4, c, end);
  }

  lemma PartsLayout(e: Entry)
    requires ValidSizes(e)
    ensures var s := Encode(e);
            && StandsAt(s, 15, 2, e.operation)
            && StandsAt(s, KeyAt(e), 2, e.key)
            && StandsAt(s, ValueAt(e), 4, e.value)
            && |s| == ValueAt(e) + |e.value| + 4 && FromBytes(s[|s| - 4..]) == e.crc
  {
    PartsFollowHeader(e, Field(e.operation, 2) + (Field(e.key, 2) + (Field(e.value, 4) + BigEndian(e.crc, 4))));
    PartsOf(Encode(e), e, BigEndian(e.crc, 4));
  }

  lemma PartsOf(s: seq<byte>, e: Entry, crc: seq<byte>)
    requires ValidSizes(e) && |s| >= 13 && crc == BigEndian(e.crc, 4)
    requires s[13..] == Field(e.operation, 2) + (Field(e.key, 2) + (Field(e.value, 4) + crc))
    ensures StandsAt(s, 15, 2, e.operation) && StandsAt(s, KeyAt(e), 2, e.key) && StandsAt(s, ValueAt(e), 4, e.value)
    ensures |s| == ValueAt(e) + |e.value| + 4 && FromBytes(s[|s| - 4..]) == e.crc
  {
    SizesFit(e);
    CrcReads(e.crc, crc);
    PartsInOrder(s, e.operation, e.key, e.value, crc);
  }

  lemma SizesFit(e: Entry)
    requires ValidSizes(e)
    ensures |e.operation| < Pow256(2) && |e.key| < Pow256(2) && |e.value| < Pow256(4)
  {
    Widths();
  }

  lemma CrcReads(n: uint32, crc: seq<byte>)
    requires crc == BigEndian(n, 4)
    ensures FromBytes(crc) == n
  {
    Widths();
    FromBytesInvertsBigEndian(n, 4);
  }

  lemma PartsFollowHeader(e: Entry, parts: seq<byte>)
    requires parts == Field(e.operation, 2) + (Field(e.key, 2) + (Field(e.value, 4) + BigEndian(e.crc, 4)))
    ensures |Encode(e)| >= 13 && Encode(e)[13..] == parts
  {
    var head := BigEndian(TotalLen(e) % Pow256(4), 4) + ([e.typ] + BigEndian(Unsigned(e.timestamp), 8));
    assert Encode(e) == head + parts;
  }

  /* What the CRC covers */

  // The text that the CRC sees of a record's operation, key and value.
  function Covered(e: Entry): seq<byte> {
    e.operation + (e.key + e.value)
  }

  // Two records can be told apart by some hash exactly when their type, their time or this text
  // differ: where the key begins and ends the CRC does not see.
  lemma CrcTellsApartIff(a: Entry, b: Entry)
    ensures (exists h :: CalculateCRC(h, a) != CalculateCRC(h, b)) <==>
            a.typ != b.typ || a.timestamp != b.timestamp || Covered(a) != Covered(b)
  {
    CrcText(a);
    CrcText(b);
    var x, y := CrcInput(a), CrcInput(b);
    var h := (s: seq<byte>) => if s == x then 1 else 0;
    assert x != y ==> CalculateCRC(h, a) != CalculateCRC(h, b);
    InputsAgreeIff(a, b);
  }

  function CrcInput(e: Entry): seq<byte> {
    [e.typ] + (BigEndian(Unsigned(e.timestamp), 8) + Covered(e))
  }

  lemma CrcText(e: Entry)
    ensures forall h :: CalculateCRC(h, e) == h(CrcInput(e))
  {
    assert [e.typ] + BigEndian(Unsigned(e.timestamp), 8) + e.operation + e.key + e.value == CrcInput(e);
  }

  lemma InputsAgreeIff(a: Entry, b: Entry)
    ensures CrcInput(a) == CrcInput(b) <==>
            a.typ == b.typ && a.timestamp == b.timestamp && Covered(a) == Covered(b)
  {
    Widths();
    var x, y := BigEndian(Unsigned(a.timestamp), 8), BigEndian(Unsigned(b.timestamp), 8);
    FromBytesInvertsBigEndian(Unsigned(a.timestamp), 8);
    FromBytesInvertsBigEndian(Unsigned(b.timestamp), 8);
    assert CrcInput(a)[0] == a.typ && CrcInput(a)[1..9] == x && CrcInput(a)[9..] == Covered(a);
    assert CrcInput(b)[0] == b.typ && CrcInput(b)[1..9] == y && CrcInput(b)[9..] == Covered(b);
  }
}
