// The command parser over its growing buffer, and the reply writer.
module RespModel {
  import opened Wrappers
  import opened ByteReader
  import opened Digits
  import opened RespSpec

  const INITIAL_BUFFER_SIZE := 16384
  // Buffers over 256 KB do not go back to the pool.
  const MAX_POOLED_DOUBLINGS := 4

  function BufferSize(doublings: nat): (n: nat)
    ensures n >= INITIAL_BUFFER_SIZE
  {
    if doublings == 0 then INITIAL_BUFFER_SIZE else 2 * BufferSize(doublings - 1)
  }

  lemma {:induction false} BufferSizeGrows(j: nat, k: nat)
    requires j <= k
    ensures BufferSize(j) <= BufferSize(k)
  {
    if j < k { BufferSizeGrows(j, k - 1); }
  }

  lemma LargestBuffer()
    ensures BufferSize(10) == MAX_BUFFER_SIZE
  {
    assert BufferSize(2) == 4 * BufferSize(0);
    assert BufferSize(4) == 4 * BufferSize(2);
    assert BufferSize(6) == 4 * BufferSize(4);
    assert BufferSize(8) == 4 * BufferSize(6);
  }

  // The least size in the family that holds what is needed exceeds the maximum exactly when
  // the need does.
  lemma LeastSizeFits(k: nat, needed: nat)
    requires BufferSize(k) >= needed && (k == 0 || BufferSize(k - 1) < needed)
    ensures BufferSize(k) <= MAX_BUFFER_SIZE <==> needed <= MAX_BUFFER_SIZE
  {
    LargestBuffer();
    if k <= 10 { BufferSizeGrows(k, 10); } else { BufferSizeGrows(10, k - 1); }
  }

  // An argument as the caller gets it: part of a buffer, not a copy.
  datatype Slice = Nil | Slice(buffer: array<byte>, start: nat, len: nat) {
    ghost predicate Valid() {
      Slice? ==> start + len <= buffer.Length
    }

    ghost function Buffers(): set<object> {
      if Slice? then {buffer} else {}
    }

    ghost function View(): Arg
      requires Valid()
      reads Buffers()
    {
      if Nil? then Null else Bulk(buffer[start..start + len])
    }
  }

  // One slice for each argument, showing its bytes, and none in a part of buf that is still
  // to be written.
  ghost predicate Shows(slices: seq<Slice>, args: seq<Arg>, buf: array<byte>, bufPos: nat)
    reads set i, b | 0 <= i < |slices| && b in slices[i].Buffers() :: b
  {
    |slices| == |args| &&
    forall i :: 0 <= i < |slices| ==> ShowsOne(slices[i], args[i], buf, bufPos)
  }

  ghost predicate ShowsOne(slice: Slice, arg: Arg, buf: array<byte>, bufPos: nat)
    reads slice.Buffers()
  {
    slice.Valid() && slice.View() == arg && (slice.Slice? && slice.buffer == buf ==> slice.start + slice.len <= bufPos)
  }

  class Parser {
    var buf: array<byte>
    var bufPos: nat
    ghost var doublings: nat

    ghost predicate Valid()
      reads this
    {
      buf.Length == BufferSize(doublings) <= MAX_BUFFER_SIZE && bufPos <= buf.Length
    }

    constructor (pooled: nat)
      requires pooled <= MAX_POOLED_DOUBLINGS
      ensures Valid() && fresh(buf)
    {
      buf := new byte[BufferSize(pooled)];
      bufPos := 0;
      doublings := pooled;
      LargestBuffer();
      BufferSizeGrows(pooled, 10);
    }

    // Make room for the bytes up to end; false if that takes too large a buffer.
    method EnsureRoom(end: nat) returns (ok: bool)
      requires Valid() && bufPos <= end
      modifies this
      ensures Valid() && bufPos == old(bufPos) && (buf == old(buf) || fresh(buf))
      ensures forall k :: 0 <= k < bufPos ==> buf[k] == old(buf[k])
      ensures ok <==> end <= MAX_BUFFER_SIZE
      ensures ok ==> end <= buf.Length
    {
      if end > buf.Length {
        var newSize := buf.Length;
        ghost var k: nat := doublings;
        while newSize < end
          invariant newSize == BufferSize(k) && k >= doublings && (k > doublings ==> BufferSize(k - 1) < end)
          decreases end - newSize
        {
          newSize := newSize * 2;
          k := k + 1;
        }
        LeastSizeFits(k, end);
        if newSize > MAX_BUFFER_SIZE { return false; }
        var newBuf := new byte[newSize](i requires 0 <= i < newSize reads this, buf =>
                                          if i < buf.Length then buf[i] else 0);
        buf := newBuf;
        doublings := k;
      }
      return true;
    }

    // The next bulk string.  Bytes already handed out are not touched.
    method ParseRESPString(reader: Reader) returns (r: Option<Slice>)
      requires Valid() && reader.Valid()
      modifies this, buf, reader
      ensures Valid() && reader.Valid() && (buf == old(buf) || fresh(buf))
      ensures forall k :: 0 <= k < old(bufPos) ==> old(buf)[k] == old(buf[k])
      ensures match ReadBulk(old(reader.Rest()), old(bufPos))
              case NoBulk => r.None?
              case GotBulk(arg, rest, end) =>
                r.Some? && ShowsOne(r.value, arg, buf, bufPos) && r.value.Buffers() <= {buf} &&
                reader.Rest() == rest && old(bufPos) <= bufPos == end
    {
      var lengthLine := ReadTextLine(reader);
      if lengthLine.None? || |lengthLine.value| == 0 || lengthLine.value[0] != DOLLAR { return None; }
      var length := ParseNumber(lengthLine.value[1..]);
      if length.None? { return None; }
      r := ParseBody(length.value, reader);
    }

    method ParseBody(length: int64, reader: Reader) returns (r: Option<Slice>)
      requires Valid() && reader.Valid()
      modifies this, buf, reader
      ensures Valid() && reader.Valid() && (buf == old(buf) || fresh(buf))
      ensures forall k :: 0 <= k < old(bufPos) ==> old(buf)[k] == old(buf[k])
      ensures match ReadBody(length, old(reader.Rest()), old(bufPos))
              case NoBulk => r.None?
              case GotBulk(arg, rest, end) =>
                r.Some? && ShowsOne(r.value, arg, buf, bufPos) && r.value.Buffers() <= {buf} &&
                reader.Rest() == rest && old(bufPos) <= bufPos == end
    {
      if length == -1 { return Some(Nil); }
      if length < 0 { return None; }
      if length > MAX_COMMAND_SIZE { return None; }
      var startPos, needed := bufPos, length + 2;
      var room := EnsureRoom(startPos + needed);
      if !room { return None; }
      var body := reader.ReadFull(needed);
      if body.Err? { return None; }
      CopyIn(body.value);
      assert buf[startPos..startPos + length] == body.value[..length];
      bufPos := startPos + needed;
      return Some(Slice.Slice(buf, startPos, length));
    }

    method CopyIn(bytes: seq<byte>)
      requires bufPos + |bytes| <= buf.Length
      modifies buf
      ensures forall k :: 0 <= k < bufPos ==> buf[k] == old(buf[k])
      ensures forall n :: 0 <= n <= |bytes| ==> buf[bufPos..bufPos + n] == bytes[..n]
    {
      forall i | 0 <= i < |bytes| {
        buf[bufPos + i] := bytes[i];
      }
    }

    method ParseRESPArray(reader: Reader, firstLine: seq<byte>, pooled: nat) returns (r: Option<seq<Slice>>)
      requires Valid() && reader.Valid() && bufPos == 0 && pooled <= MAX_POOLED_DOUBLINGS
      modifies this, buf, reader
      ensures Valid() && reader.Valid() && (buf == old(buf) || fresh(buf))
      ensures IsParsed(r, ReadArray(firstLine, old(reader.Rest())), reader, buf) && (r.Some? ==> fresh(buf))
    {
      if |firstLine| < 2 { return None; }
      var argCount := ParseNumber(firstLine[1..]);
      if argCount.None? || argCount.value <= 0 || argCount.value > MAX_ARG_COUNT { return None; }
      ghost var command := ReadBulks(reader.Rest(), argCount.value, 0);
      r := ParseArgs(reader, argCount.value, command);
      if r.Some? { Detach(pooled, r.value, command.args); }
    }

    method ParseArgs(reader: Reader, argCount: nat, ghost command: CommandResult) returns (r: Option<seq<Slice>>)
      requires Valid() && reader.Valid() && bufPos == 0 && Remains(command, reader.Rest(), argCount, 0)
      modifies this, buf, reader
      ensures Valid() && reader.Valid() && (buf == old(buf) || fresh(buf))
      ensures if command.NoCommand? then r.None?
              else r.Some? && Shows(r.value, command.args, buf, bufPos) && reader.Rest() == command.rest
    {
      var args: seq<Slice> := [];
      ghost var views: seq<Arg> := [];
      PrependNothing(command);
      ghost var left: nat, remaining := argCount, command;
      while |args| < argCount
        invariant |args| + left == argCount && Valid() && reader.Valid() && (buf == old(buf) || fresh(buf))
        invariant Shows(args, views, buf, bufPos)
        invariant Remains(remaining, reader.Rest(), left, bufPos) && command == PrependAll(views, remaining)
        decreases left
      {
        var arg, view, after := ParseStep(reader, args, views, left, remaining);
        if arg.None? { return None; }
        args := args + [arg.value];
        views := views + [view];
        left, remaining := left - 1, after;
      }
      PrependNoMore(views, remaining, reader.Rest(), bufPos);
      return Some(args);
    }

    // One more argument, beside those already read, of n to come.
    method ParseStep(reader: Reader, args: seq<Slice>, ghost views: seq<Arg>, ghost n: nat,
                     ghost remaining: CommandResult)
      returns (r: Option<Slice>, ghost view: Arg, ghost after: CommandResult)
      requires reader.Valid() && n > 0 && Remains(remaining, reader.Rest(), n, bufPos)
      requires Valid() && Shows(args, views, buf, bufPos)
      modifies this, buf, reader
      ensures Valid() && reader.Valid() && (buf == old(buf) || fresh(buf))
      ensures r.Some? ==>
                Shows(args + [r.value], views + [view], buf, bufPos) && Remains(after, reader.Rest(), n - 1, bufPos)
      ensures PrependAll(views, remaining) == if r.None? then NoCommand else PrependAll(views + [view], after)
    {
      ReadBulksPrepends(views, reader.Rest(), n, bufPos);
      ghost var next := ReadBulk(reader.Rest(), bufPos);
      r := ParseNext(reader, args, views, next);
      view := if next.NoBulk? then Null else next.arg;
      after := ReadBulks(reader.Rest(), n - 1, bufPos);
    }

    method ParseNext(reader: Reader, args: seq<Slice>, ghost views: seq<Arg>, ghost next: BulkResult)
      returns (r: Option<Slice>)
      requires Valid() && reader.Valid() && IsNext(next, reader.Rest(), bufPos) && Shows(args, views, buf, bufPos)
      modifies this, buf, reader
      ensures Valid() && reader.Valid() && (buf == old(buf) || fresh(buf)) && (r.None? <==> next.NoBulk?)
      ensures r.Some? ==>
                Shows(args + [r.value], views + [next.arg], buf, bufPos) &&
                reader.Rest() == next.rest && bufPos == next.end
    {
      ghost var was := buf;
      r := ParseKnown(reader, next);
      if r.None? { return; }
      forall i | 0 <= i < |args| ensures ShowsOne(args[i], views[i], buf, bufPos) {
        assert old(ShowsOne(args[i], views[i], buf, bufPos));
        if args[i].Slice? && args[i].buffer == was {
          var lo, hi := args[i].start, args[i].start + args[i].len;
          assert was[lo..hi] == old(buf[lo..hi]);
        }
      }
    }

    method ParseKnown(reader: Reader, ghost next: BulkResult) returns (r: Option<Slice>)
      requires Valid() && reader.Valid() && IsNext(next, reader.Rest(), bufPos)
      modifies this, buf, reader
      ensures Valid() && reader.Valid() && (buf == old(buf) || fresh(buf)) && (r.None? <==> next.NoBulk?)
      ensures forall lo, hi :: 0 <= lo <= hi <= old(bufPos) ==> old(buf)[lo..hi] == old(buf[lo..hi])
      ensures r.Some? ==> ShowsOne(r.value, next.arg, buf, bufPos) && r.value.Buffers() <= {buf}
      ensures r.Some? ==> reader.Rest() == next.rest && old(bufPos) <= bufPos == next.end
    {
      r := ParseRESPString(reader);
    }

    // One command.  Its arguments lie outside the buffer the parser goes on with, so no later
    // read or reallocation can change them.
    method ParseCommand(reader: Reader, pooled: nat) returns (r: Option<seq<Slice>>)
      requires Valid() && reader.Valid() && pooled <= MAX_POOLED_DOUBLINGS
      modifies this, buf, reader
      ensures Valid() && reader.Valid() && (buf == old(buf) || fresh(buf))
      ensures IsParsed(r, ReadCommand(old(reader.Rest())), reader, buf) && (r.Some? ==> fresh(buf))
    {
      bufPos := 0;
      var line;
      while true
        invariant Valid() && reader.Valid() && bufPos == 0 && buf == old(buf)
        invariant ReadCommand(reader.Rest()) == ReadCommand(old(reader.Rest()))
        decreases |reader.Rest()|
      {
        line := ReadTextLine(reader);
        if line.None? { return None; }
        if |line.value| > 0 { break; }
      }
      if line.value[0] != STAR {
        r := ParseSimpleCommand(line.value, reader, pooled);
      } else {
        r := ParseRESPArray(reader, line.value, pooled);
      }
    }

    method ParseSimpleCommand(line: seq<byte>, reader: Reader, pooled: nat) returns (r: Option<seq<Slice>>)
      requires Valid() && reader.Valid() && pooled <= MAX_POOLED_DOUBLINGS
      modifies this
      ensures Valid() && (buf == old(buf) || fresh(buf))
      ensures IsParsed(r, ReadInline(line, reader.Rest()), reader, buf) && (r.Some? ==> fresh(buf))
    {
      var data := new byte[|line|](i requires 0 <= i < |line| => line[i]);
      assert data[..] == line;
      var args := SplitBySpace(data);
      if |args| == 0 { return None; }
      forall i | 0 <= i < |args| ensures ShowsOne(args[i], Bulks(Words(line))[i], buf, bufPos) {
        assert CoversOne(args[i], Words(line)[i], data, line);
        assert data[args[i].start..args[i].start + args[i].len] == line[args[i].start..args[i].start + args[i].len];
      }
      Detach(pooled, args, Bulks(Words(line)));
      return Some(args);
    }

    // The buffer goes with the command; the parser takes another.
    method Detach(pooled: nat, slices: seq<Slice>, ghost args: seq<Arg>)
      requires pooled <= MAX_POOLED_DOUBLINGS && Shows(slices, args, buf, bufPos)
      modifies this
      ensures Valid() && fresh(buf) && Shows(slices, args, buf, 0)
    {
      ghost var was, pos := buf, bufPos;
      buf := new byte[BufferSize(pooled)];
      bufPos := 0;
      doublings := pooled;
      LargestBuffer();
      BufferSizeGrows(pooled, 10);
      forall i | 0 <= i < |args| ensures ShowsOne(slices[i], args[i], buf, 0) {
        assert ShowsOne(slices[i], args[i], was, pos);
      }
    }
  }

  ghost function PrependAll(args: seq<Arg>, others: CommandResult): CommandResult {
    if others.NoCommand? then NoCommand else Command(args + others.args, others.rest)
  }

  // What is still to be read, as a predicate so that loops can carry it whole.
  ghost predicate Remains(command: CommandResult, s: seq<byte>, n: nat, start: nat) {
    command == ReadBulks(s, n, start)
  }

  lemma ReadBulksPrepends(args: seq<Arg>, s: seq<byte>, n: nat, start: nat)
    requires n > 0
    ensures var first := ReadBulk(s, start);
            PrependAll(args, ReadBulks(s, n, start)) ==
            if first.NoBulk? then NoCommand else PrependAll(args + [first.arg], ReadBulks(first.rest, n - 1, first.end))
  {
    var first := ReadBulk(s, start);
    if first.GotBulk? { PrependTwice(args, first.arg, ReadBulks(first.rest, n - 1, first.end)); }
  }

  lemma PrependNothing(command: CommandResult)
    ensures PrependAll([], command) == command
  {
    if command.Command? { assert [] + command.args == command.args; }
  }

  lemma PrependNoMore(args: seq<Arg>, command: CommandResult, rest: seq<byte>, start: nat)
    requires Remains(command, rest, 0, start)
    ensures PrependAll(args, command) == Command(args, rest)
  {
    assert args + [] == args;
  }

  lemma PrependTwice(args: seq<Arg>, arg: Arg, others: CommandResult)
    ensures PrependAll(args, Prepend(arg, others)) == PrependAll(args + [arg], others)
  {
    if others.Command? { assert args + ([arg] + others.args) == args + [arg] + others.args; }
  }

  // The result of parsing a command: nothing, or slices that show its arguments and stay
  // clear of buf, with the reader just after the command.
  ghost predicate IsParsed(r: Option<seq<Slice>>, command: CommandResult, reader: Reader, buf: array<byte>)
    requires reader.Valid()
    reads reader, if r.Some? then set i, b | 0 <= i < |r.value| && b in r.value[i].Buffers() :: b else {}
  {
    if command.NoCommand? then r.None?
    else r.Some? && Shows(r.value, command.args, buf, 0) && reader.Rest() == command.rest
  }

  // Slices of data, whose bytes are s, that are the given words.
  ghost predicate Covers(slices: seq<Slice>, words: seq<seq<byte>>, data: array<byte>, s: seq<byte>) {
    |slices| == |words| && forall i :: 0 <= i < |slices| ==> CoversOne(slices[i], words[i], data, s)
  }

  ghost predicate CoversOne(slice: Slice, word: seq<byte>, data: array<byte>, s: seq<byte>) {
    && slice.Slice? && slice.buffer == data
    && slice.start + slice.len <= |s| && s[slice.start..slice.start + slice.len] == word
  }

  lemma SkipBlank(s: seq<byte>, i: nat)
    requires i < |s| && IsBlank(s[i])
    ensures Words(s[i..]) == Words(s[i + 1..])
  {
    assert s[i..][1..] == s[i + 1..];
  }

  lemma TakeWord(s: seq<byte>, start: nat, i: nat)
    requires start < i <= |s| && (forall k :: start <= k < i ==> !IsBlank(s[k])) && (i < |s| ==> IsBlank(s[i]))
    ensures Words(s[start..]) == [s[start..i]] + Words(s[i..])
  {
    var t := s[start..];
    WordEndIs(t, i - start);
    assert t[..i - start] == s[start..i] && t[i - start..] == s[i..];
  }

  // The words up to start have been split off.
  ghost predicate SplitTo(slices: seq<Slice>, words: seq<seq<byte>>, data: array<byte>, s: seq<byte>, start: nat)
    requires start <= |s|
  {
    Covers(slices, words, data, s) && words + Words(s[start..]) == Words(s)
  }

  lemma WordTaken(slices: seq<Slice>, words: seq<seq<byte>>, data: array<byte>, s: seq<byte>, start: nat, i: nat)
    requires start < i <= |s| && (forall k :: start <= k < i ==> !IsBlank(s[k])) && (i < |s| ==> IsBlank(s[i]))
    requires SplitTo(slices, words, data, s, start)
    ensures SplitTo(slices + [Slice.Slice(data, start, i - start)], words + [s[start..i]], data, s, i)
  {
    TakeWord(s, start, i);
    Associate(words, [s[start..i]], Words(s[i..]));
  }

  lemma AllSplit(slices: seq<Slice>, words: seq<seq<byte>>, data: array<byte>, s: seq<byte>)
    requires SplitTo(slices, words, data, s, |s|)
    ensures Covers(slices, Words(s), data, s)
  {
    assert words + [] == words;
  }

  method SplitBySpace(data: array<byte>) returns (result: seq<Slice>)
    ensures Covers(result, Words(data[..]), data, data[..])
  {
    result := [];
    ghost var s, words: seq<seq<byte>> := data[..], [];
    assert s[0..] == s;
    var start, i := 0, 0;
    while i < data.Length
      invariant 0 <= start <= i <= data.Length && forall k :: start <= k < i ==> !IsBlank(s[k])
      invariant SplitTo(result, words, data, s, start)
    {
      if IsBlank(data[i]) {
        if i > start {
          WordTaken(result, words, data, s, start, i);
          result := result + [Slice.Slice(data, start, i - start)];
          words := words + [s[start..i]];
        }
        i := SkipBlanks(data, i);
        start := i;
        i := i - 1;
      }
      i := i + 1;
    }
    if start < data.Length {
      WordTaken(result, words, data, s, start, i);
      result := result + [Slice.Slice(data, start, data.Length - start)];
      words := words + [s[start..i]];
    }
    AllSplit(result, words, data, s);
  }

  // Skip multiple blanks.
  method SkipBlanks(data: array<byte>, start: nat) returns (i: nat)
    requires start <= data.Length
    ensures start <= i <= data.Length && Words(data[i..]) == Words(data[start..])
    ensures start < data.Length && IsBlank(data[start]) ==> start < i
  {
    i := start;
    while i < data.Length && IsBlank(data[i])
      invariant start <= i <= data.Length && Words(data[i..]) == Words(data[start..])
    {
      SkipBlank(data[..], i);
      assert data[i..] == data[..][i..] && data[i + 1..] == data[..][i + 1..];
      i := i + 1;
    }
  }

  // The first bytes of s have been read, and there is no end of line among them.
  ghost predicate LineSoFar(s: seq<byte>, line: seq<byte>, rest: seq<byte>) {
    && |line| <= |s| && |line| <= MAX_LINE_SIZE && line == s[..|line|] && rest == s[|line|..]
    && LineFrom(s, 0) == LineFrom(s, |line|)
  }

  lemma NoMoreLine(s: seq<byte>, line: seq<byte>)
    requires LineSoFar(s, line, [])
    ensures ReadLine(s) == NoLine
  {
  }

  // One more byte: too many, the end of the line, or one of its bytes.
  lemma NextLineByte(s: seq<byte>, line: seq<byte>, b: byte, rest: seq<byte>)
    requires LineSoFar(s, line, [b] + rest)
    ensures if |line| + 1 > MAX_LINE_SIZE then ReadLine(s) == NoLine
            else if b == LF then ReadLine(s) == Line(Chomped(line), rest)
            else LineSoFar(s, line + [b], rest)
  {
    assert s[|line|] == ([b] + rest)[0] && s[|line| + 1..] == ([b] + rest)[1..] == rest;
    assert s[..|line| + 1] == line + [b];
  }

  method ReadTextLine(reader: Reader) returns (text: Option<seq<byte>>)
    requires reader.Valid()
    modifies reader
    ensures reader.Valid()
    ensures match ReadLine(old(reader.Rest()))
            case NoLine => text.None?
            case Line(t, rest) => text == Some(t) && reader.Rest() == rest
  {
    var line: seq<byte> := [];
    ghost var s := reader.Rest();
    while true
      invariant reader.Valid() && LineSoFar(s, line, reader.Rest())
      decreases |reader.Rest()|
    {
      ghost var rest := reader.Rest();
      var b := reader.ReadByte();
      if b.Err? {
        NoMoreLine(s, line);
        return None;
      }
      assert [b.value] + reader.Rest() == rest;
      NextLineByte(s, line, b.value, reader.Rest());
      line := line + [b.value];
      if |line| > MAX_LINE_SIZE { return None; }
      if b.value == LF {
        var end := |line| - 1;
        if end > 0 && line[end - 1] == CR { end := end - 1; }
        LineWithoutEnd(line[..|line| - 1], end);
        assert line[..|line| - 1][..end] == line[..end];
        return Some(line[..end]);
      }
    }
  }

  lemma LineWithoutEnd(text: seq<byte>, end: nat)
    requires end == if text != [] && text[|text| - 1] == CR then |text| - 1 else |text|
    ensures text[..end] == Chomped(text)
  {
  }

  method ParseNumber(data: seq<byte>) returns (r: Option<int64>)
    ensures r == Number(data)
  {
    if |data| == 0 { return None; }
    if |data| == 1 && IsDigit(data[0]) {
      assert data[..0] == [];
      return Some(data[0] - ZERO);
    }
    var start, sign := 0, 1;
    if data[0] == MINUS { start, sign := 1, -1; }
    var n := ParseDigits(data[start..]);
    if n.None? { return None; }
    return Some(n.value * sign);
  }

  method ParseDigits(d: seq<byte>) returns (r: Option<int64>)
    ensures r == Magnitude(d)
  {
    var result: int64 := 0;
    var i := 0;
    while i < |d|
      invariant 0 <= i <= |d| && AllDigits(d[..i]) && result == Value(d[..i])
      invariant i > 0 ==> Value(d[..i - 1]) <= NUMBER_GUARD
    {
      if !IsDigit(d[i]) { return None; }
      assert d[..i + 1][..i] == d[..i];
      if result > NUMBER_GUARD {
        if AllDigits(d) {
          ValueGrows(d[..|d| - 1], i);
          assert d[..|d| - 1][..i] == d[..i];
        }
        return None;
      }
      result := result * 10 + (d[i] - ZERO);
      i := i + 1;
    }
    assert d[..i] == d;
    return Some(result);
  }

  // Parsing another command, whether it succeeds or fails, leaves whatever slices were handed
  // out before as they were.
  method ParseAnother(parser: Parser, reader: Reader, pooled: nat, earlier: seq<Slice>, ghost args: seq<Arg>)
    returns (r: Option<seq<Slice>>)
    requires parser.Valid() && reader.Valid() && pooled <= MAX_POOLED_DOUBLINGS
    requires Shows(earlier, args, parser.buf, 0)
    modifies parser, parser.buf, reader
    ensures parser.Valid() && reader.Valid() && IsParsed(r, ReadCommand(old(reader.Rest())), reader, parser.buf)
    ensures Shows(earlier, args, parser.buf, 0)
  {
    ghost var was := parser.buf;
    r := ParseApart(parser, reader, pooled, ReadCommand(reader.Rest()));
    forall i | 0 <= i < |args| ensures ShowsOne(earlier[i], args[i], parser.buf, 0) {
      assert old(ShowsOne(earlier[i], args[i], was, 0));
      if earlier[i].Slice? && earlier[i].buffer == was { assert earlier[i].len == 0; }
    }
  }

  method ParseApart(parser: Parser, reader: Reader, pooled: nat, ghost command: CommandResult)
    returns (r: Option<seq<Slice>>)
    requires parser.Valid() && reader.Valid() && pooled <= MAX_POOLED_DOUBLINGS
    requires command == ReadCommand(reader.Rest())
    modifies parser, parser.buf, reader
    ensures parser.Valid() && reader.Valid() && (parser.buf == old(parser.buf) || fresh(parser.buf))
    ensures IsParsed(r, command, reader, parser.buf)
  {
    r := parser.ParseCommand(reader, pooled);
  }

  // The reply writer, over the bytes written so far.
  class Writer {
    var out: seq<byte>

    method WriteArrayStart(count: nat)
      modifies this
      ensures out == old(out) + PrintHeader(STAR, count)
    {
      var buf := [STAR];
      buf := buf + Decimal(count);
      buf := buf + [CR, LF];
      out := out + buf;
    }

    method WriteBulkString(value: seq<byte>)
      modifies this
      ensures out == old(out) + PrintBulk(value)
    {
      var buf := [DOLLAR];
      buf := buf + Decimal(|value|);
      buf := buf + [CR, LF];
      buf := buf + value;
      buf := buf + [CR, LF];
      assert buf == PrintBulk(value);
      out := out + buf;
    }

    method WriteArray(values: seq<seq<byte>>)
      modifies this
      ensures out == old(out) + PrintArray(values)
    {
      WriteArrayStart(|values|);
      NonePrinted(values);
      var i := 0;
      while i < |values|
        invariant 0 <= i <= |values| && out == old(out) + Printed(values, i)
      {
        WriteBulkString(values[i]);
        OneMorePrinted(old(out), values, i);
        i := i + 1;
      }
      AllPrinted(values);
    }
  }

  // An array's header and its first i values.
  function Printed(values: seq<seq<byte>>, i: nat): seq<byte>
    requires i <= |values|
  {
    PrintHeader(STAR, |values|) + Flatten(PrintedBulks(values)[..i])
  }

  lemma NonePrinted(values: seq<seq<byte>>)
    ensures Printed(values, 0) == PrintHeader(STAR, |values|)
  {
  }

  lemma OneMorePrinted(before: seq<byte>, values: seq<seq<byte>>, i: nat)
    requires i < |values|
    ensures (before + Printed(values, i)) + PrintBulk(values[i]) == before + Printed(values, i + 1)
  {
    FlattenOneMore(PrintedBulks(values), i);
    assert (before + Printed(values, i)) + PrintBulk(values[i]) == before + (Printed(values, i) + PrintBulk(values[i]));
  }

  lemma AllPrinted(values: seq<seq<byte>>)
    ensures Printed(values, |values|) == PrintArray(values)
  {
    assert PrintedBulks(values)[..|values|] == PrintedBulks(values);
  }

  lemma FlattenOneMore(pieces: seq<seq<byte>>, i: nat)
    requires i < |pieces|
    ensures Flatten(pieces[..i + 1]) == Flatten(pieces[..i]) + pieces[i]
  {
    FlattenConcat(pieces[..i], [pieces[i]]);
    assert [pieces[i]] == [pieces[i]] + [] && Flatten([pieces[i]]) == pieces[i];
    assert pieces[..i + 1] == pieces[..i] + [pieces[i]];
  }
}
