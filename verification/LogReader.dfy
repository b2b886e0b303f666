// The segment reader as it runs, with a cursor over the bytes of the file.
module LogReaderModel {
  import opened Wrappers
  import opened ByteReader
  import opened LogEntry
  import opened LogCodec

  datatype EntryError = EndOfStream | Invalid

  datatype EntryResult = Delivered(entry: Entry) | Failed(error: EntryError)

  method ReadEntry(reader: Reader) returns (r: EntryResult)
    requires reader.Valid()
    modifies reader
    ensures reader.Valid()
    ensures match ParseFrame(old(reader.Rest()))
            case EndOfFile => r == Failed(EndOfStream)
            case Corrupt(rest) => r == Failed(Invalid) && reader.Rest() == rest
            case Parsed(e, rest) => r == Delivered(e) && reader.Rest() == rest
  {
    var len := reader.ReadFull(4);
    if len.Err? { return Failed(if len.error == EOF then EndOfStream else Invalid); }
    var totalLen := FromBytes(len.value);
    if totalLen > MAX_ENTRY_SIZE { return Failed(Invalid); }
    var body := reader.ReadFull(totalLen);
    if body.Err? { return Failed(if body.error == EOF then EndOfStream else Invalid); }
    var entry := ParseEntry(body.value);
    if entry.None? { return Failed(Invalid); }
    return Delivered(entry.value);
  }

  method SeekToNextEntry(reader: Reader) returns (found: bool)
    requires reader.Valid()
    modifies reader
    ensures reader.Valid() && (found <==> Seek(old(reader.Rest())).Some?)
    ensures found ==> Seek(old(reader.Rest())) == Some(reader.Rest())
  {
    while true
      invariant reader.Valid() && Seek(reader.Rest()) == Seek(old(reader.Rest()))
      decreases |reader.Rest()|
    {
      var lengthBytes := reader.Peek(4);
      if lengthBytes.Err? { return false; }
      var length := FromBytes(lengthBytes.value);
      if 0 < length < MAX_ENTRY_SIZE { return true; }
      var skipped := reader.ReadByte();
    }
  }

  // One pass of the loop: an entry to deliver or none, and whether to go on.
  method ReadNext(reader: Reader, h: seq<byte> -> uint32) returns (delivered: seq<Entry>, more: bool)
    requires reader.Valid()
    modifies reader
    ensures reader.Valid() && (more ==> |reader.Rest()| < old(|reader.Rest()|))
    ensures Deliver(h, old(reader.Rest())) == delivered + (if more then Deliver(h, reader.Rest()) else [])
  {
    var r := ReadEntry(reader);
    if r == Failed(EndOfStream) {
      return [], false;
    }
    if r.Failed? {
      more := SeekToNextEntry(reader);
      return [], more;
    }
    if CalculateCRC(h, r.entry) == r.entry.crc {
      return [r.entry], true;
    }
    return [], true;
  }

  // Terminates on every byte string, and hands over exactly the entries of the format.
  method ReadSegment(reader: Reader, h: seq<byte> -> uint32) returns (entries: seq<Entry>)
    requires reader.Valid()
    modifies reader
    ensures entries == Deliver(h, old(reader.Rest()))
  {
    entries := [];
    var more := true;
    while more
      invariant reader.Valid() && entries + (if more then Deliver(h, reader.Rest()) else []) ==
                                  Deliver(h, old(reader.Rest()))
      decreases more, |reader.Rest()|
    {
      var delivered;
      delivered, more := ReadNext(reader, h);
      Associate(entries, delivered, if more then Deliver(h, reader.Rest()) else []);
      entries := entries + delivered;
    }
  }

  // The bounds-checked parse of one frame, with its cursor.
  method ParseEntry(data: seq<byte>) returns (entry: Option<Entry>)
    ensures entry == ParseBody(data)
  {
    if 9 > |data| { return None; }
    var timestamp := ParseTimestamp(data[1..9]);
    entry := ParseFields(data, 9, data[0], timestamp);
  }

  method ParseTimestamp(bytes: seq<byte>) returns (t: int64)
    requires |bytes| == 8
    ensures FromBytes(bytes) < 0x1_0000_0000_0000_0000 && t == Signed(FromBytes(bytes))
  {
    FromBytesBound(bytes);
    Widths();
    t := Signed(FromBytes(bytes));
  }

  method ParseFields(data: seq<byte>, start: nat, typ: byte, timestamp: int64) returns (entry: Option<Entry>)
    requires start <= |data|
    ensures entry == ParseOperation(typ, timestamp, data[start..])
  {
    var pos := start;
    var operation, key, value: Split;
    operation, pos := ParseField(data, pos, 2);
    if operation.NoField? { return None; }
    key, pos := ParseField(data, pos, 2);
    if key.NoField? { return None; }
    value, pos := ParseField(data, pos, 4);
    if value.NoField? { return None; }
    if pos + 4 > |data| { return None; }
    FromBytesBound(data[pos..pos + 4]);
    Widths();
    assert data[pos..][..4] == data[pos..pos + 4];
    return Some(Entry(typ, timestamp, operation.field, key.field, value.field, FromBytes(data[pos..pos + 4])));
  }

  method ParseField(data: seq<byte>, start: nat, width: nat) returns (f: Split, pos: nat)
    requires start <= |data|
    ensures f == ReadField(data[start..], width)
    ensures f.Split? ==> start <= pos <= |data| && f.rest == data[pos..]
  {
    pos := start;
    if pos + width > |data| { return NoField, pos; }
    var len := FromBytes(data[pos..pos + width]);
    assert data[start..][..width] == data[pos..pos + width];
    pos := pos + width;
    assert data[start..][width..] == data[pos..];
    if pos + len > |data| { return NoField, pos; }
    f := Split.Split(data[pos..pos + len], data[pos + len..]);
    assert data[pos..][..len] == data[pos..pos + len] && data[pos..][len..] == data[pos + len..];
    pos := pos + len;
  }

  // An entry with its own CRC.
  function Stamped(h: seq<byte> -> uint32, e: Entry): Entry {
    e.(crc := CalculateCRC(h, e))
  }

  // writeEntry, field by field, onto a segment's bytes; and the segment's size with it.
  class Segment {
    var bytes: seq<byte>
    var size: nat

    constructor ()
      ensures bytes == [] && size == 0
    {
      bytes, size := [], 0;
    }

    method WriteEntry(entry: Entry)
      modifies this
      ensures bytes == old(bytes) + Encode(entry) && size == old(size) + 4 + TotalLen(entry)
    {
      var totalLen := 1 + 8 + 2 + |entry.operation| + 2 + |entry.key| + 4 + |entry.value| + 4;
      var out := BigEndian(totalLen % Pow256(4), 4);
      out := out + [entry.typ];
      out := out + BigEndian(Unsigned(entry.timestamp), 8);
      out := out + BigEndian(|entry.operation| % Pow256(2), 2) + entry.operation;
      out := out + BigEndian(|entry.key| % Pow256(2), 2) + entry.key;
      out := out + BigEndian(|entry.value| % Pow256(4), 4) + entry.value;
      out := out + BigEndian(entry.crc, 4);
      assert out == Encode(entry);
      bytes := bytes + out;
      size := size + 4 + totalLen;
    }

    // Write: entries that fail the size check are refused.
    method Write(h: seq<byte> -> uint32, operation: seq<byte>, key: seq<byte>, value: seq<byte>, now: int64)
      returns (ok: bool)
      modifies this
      ensures var e := Stamped(h, Entry(ENTRY_WRITE, now, operation, key, value, 0));
              && (ok <==> ValidSizes(e))
              && (ok ==> Sealed(h, e))
              && bytes == old(bytes) + (if ok then Encode(e) else [])
              && size == old(size) + (if ok then |Encode(e)| else 0)
    {
      var entry := Entry(ENTRY_WRITE, now, operation, key, value, 0);
      if |operation| > MAX_FIELD_LEN { return false; }
      if |key| > MAX_FIELD_LEN { return false; }
      var total := 1 + 8 + 2 + |operation| + 2 + |key| + 4 + |value| + 4;
      if total > MAX_ENTRY_SIZE { return false; }
      entry := entry.(crc := CalculateCRC(h, entry));
      WriteEntry(entry);
      FrameLength(entry);
      return true;
    }
  }
}
