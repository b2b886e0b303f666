// What a client may write for a command, however it spells its lines, its numbers and its
// arguments, and what the parser makes of it.
module RespLaws {
  import opened Wrappers
  import opened Digits
  import opened RespSpec

  /* Lines */

  // What ends a line: LF or CR LF.  A CR before a lone LF is part of the end.
  predicate EndsLine(text: seq<byte>, end: seq<byte>) {
    && LF !in text && |text| + |end| <= MAX_LINE_SIZE
    && (end == [CR, LF] || (end == [LF] && (text == [] || text[|text| - 1] != CR)))
  }

  lemma LineReads(text: seq<byte>, end: seq<byte>, rest: seq<byte>)
    requires EndsLine(text, end)
    ensures ReadLine(text + end + rest) == Line(text, rest)
  {
    var s, i := text + end + rest, |text| + |end| - 1;
    assert s[0..i] == (text + end)[..i];
    LineFromSkips(s, 0, i);
    assert s[..i] == if end == [LF] then text else text + [CR];
    assert s[i] == LF && s[i + 1..] == rest;
    assert Chomped(s[..i]) == text;
  }

  lemma {:induction false} LineIsFrom(s: seq<byte>, i: nat, j: nat)
    requires i <= |s| && LineFrom(s, i).Line? && j == |s| - |LineFrom(s, i).rest| - 1
    ensures i <= j < |s| && j < MAX_LINE_SIZE && s[j] == LF && LF !in s[i..j]
    ensures LineFrom(s, i) == Line(Chomped(s[..j]), s[j + 1..])
    decreases |s| - i
  {
    if s[i] != LF {
      LineIsFrom(s, i + 1, j);
      assert s[i..j] == [s[i]] + s[i + 1..j];
    }
  }

  // A line is read exactly when the input starts with it and one of its two ends, and they
  // are not too long.
  lemma LineIff(s: seq<byte>, text: seq<byte>, rest: seq<byte>)
    ensures ReadLine(s) == Line(text, rest) <==> exists end :: EndsLine(text, end) && s == text + end + rest
  {
    if ReadLine(s) == Line(text, rest) {
      var j := |s| - |rest| - 1;
      LineIsFrom(s, 0, j);
      assert s[0..j] == s[..j];
      var end := if s[..j] == text then [LF] else [CR, LF];
      assert s[..j] + [LF] + s[j + 1..] == s;
      assert s == text + end + rest && forall b :: b in text ==> b in s[..j];
      assert EndsLine(text, end);
    }
    forall end | EndsLine(text, end) && s == text + end + rest ensures ReadLine(s) == Line(text, rest) {
      LineReads(text, end, rest);
    }
  }

  /* Numbers */

  function Sign(negative: bool): seq<byte> {
    if negative then [MINUS] else []
  }

  lemma UnsignedDigits(negative: bool, digits: seq<byte>)
    requires digits != [] && AllDigits(digits)
    ensures Unsigned(Sign(negative) + digits) == digits
    ensures (Sign(negative) + digits)[0] == MINUS <==> negative
  {
    if !negative { assert [] + digits == digits && IsDigit(digits[0]); }
  }

  lemma SignedReads(negative: bool, digits: seq<byte>, m: Option<int64>)
    requires digits != [] && AllDigits(digits) && m == Magnitude(digits)
    ensures Number(Sign(negative) + digits) ==
            if m.None? then None else Some(if negative then 0 - m.value else m.value)
  {
    UnsignedDigits(negative, digits);
  }

  lemma DigitsRead(zeros: nat, n: nat)
    ensures Magnitude(Zeros(zeros) + Decimal(n)) == if n > 10 * NUMBER_GUARD + 9 then None else Some(n)
  {
    var d, digits := Decimal(n), Zeros(zeros) + Decimal(n);
    ValueOfDecimal(n);
    ZerosAddNothing(zeros, d);
    ZerosAddNothing(zeros, d[..|d| - 1]);
    assert digits[..|digits| - 1] == Zeros(zeros) + d[..|d| - 1];
  }

  // However a number is spelt it is read as its value, up to the guard, and refused beyond.
  lemma NumberReads(negative: bool, zeros: nat, n: nat)
    ensures Number(Spelt(Sign(negative), zeros, n)) ==
            if n > 10 * NUMBER_GUARD + 9 then None else Some(if negative then 0 - n else n)
  {
    DigitsRead(zeros, n);
    SignedReads(negative, Zeros(zeros) + Decimal(n), Magnitude(Zeros(zeros) + Decimal(n)));
  }

  lemma ReadIsSpelling(data: seq<byte>) returns (negative: bool, zeros: nat, n: nat)
    requires Number(data).Some? && data != [MINUS]
    ensures data == Spelt(Sign(negative), zeros, n)
  {
    var digits := Unsigned(data);
    negative, n := data[0] == MINUS, Value(digits);
    zeros := DigitsSpell(digits);
    assert data == Sign(negative) + digits;
  }

  // And nothing else is read as a number, but a lone sign, which is zero.
  lemma NumberIff(data: seq<byte>, n: int)
    ensures Number(data) == Some(n) <==>
            (data == [MINUS] && n == 0) ||
            exists negative, zeros: nat, m: nat ::
              data == Spelt(Sign(negative), zeros, m) && m <= 10 * NUMBER_GUARD + 9 &&
              n == if negative then 0 - m else m
  {
    if Number(data).Some? && data != [MINUS] {
      var negative, zeros, m := ReadIsSpelling(data);
      NumberReads(negative, zeros, m);
    }
    forall negative, zeros: nat, m: nat | data == Spelt(Sign(negative), zeros, m)
      ensures data != [MINUS] &&
              Number(data) == if m > 10 * NUMBER_GUARD + 9 then None else Some(if negative then 0 - m else m)
    {
      NumberReads(negative, zeros, m);
      assert |data| >= 1 + |Sign(negative)|;
    }
  }

  /* Arrays */

  // One argument as a client may write it: a line that announces its length, then its bytes and
  // two more; or a line that announces -1.
  predicate Writes(piece: seq<byte>, arg: Arg, text: seq<byte>, end: seq<byte>, tail: seq<byte>) {
    && EndsLine(text, end) && text != [] && text[0] == DOLLAR && piece == text + end + tail
    && match arg
       case Null => Number(text[1..]) == Some(-1) && tail == []
       case Bulk(b) => Number(text[1..]) == Some(|b|) && |tail| == |b| + 2 && tail[..|b|] == b
  }

  ghost predicate IsPiece(piece: seq<byte>, arg: Arg) {
    exists text, end, tail :: Writes(piece, arg, text, end, tail)
  }

  lemma WrittenReads(piece: seq<byte>, arg: Arg, text: seq<byte>, end: seq<byte>, tail: seq<byte>, rest: seq<byte>,
                     start: nat)
    requires Writes(piece, arg, text, end, tail)
    ensures ReadBulk(piece + rest, start) == BulkRead(arg, rest, start)
  {
    Associate(text + end, tail, rest);
    LineReads(text, end, tail + rest);
    if arg.Bulk? {
      assert (tail + rest)[..|arg.bytes|] == arg.bytes && (tail + rest)[|arg.bytes| + 2..] == rest;
    } else {
      assert tail + rest == rest;
    }
  }

  lemma PieceIsBulk(piece: seq<byte>, arg: Arg)
    requires IsPiece(piece, arg)
    ensures IsBulk(piece, arg)
  {
    var text, end, tail :| Writes(piece, arg, text, end, tail);
    forall rest, start: nat ensures ReadBulk(piece + rest, start) == BulkRead(arg, rest, start) {
      WrittenReads(piece, arg, text, end, tail, rest, start);
    }
  }

  // Where an argument's length stands, and where its body.
  lemma ReadHasLine(s: seq<byte>, start: nat, got: BulkResult) returns (text: seq<byte>, n: int64, body: seq<byte>)
    requires IsNext(got, s, start) && got.GotBulk?
    ensures ReadLine(s) == Line(text, body) && text != [] && text[0] == DOLLAR && Number(text[1..]) == Some(n)
    ensures ReadBody(n, body, start) == got
  {
    text, body := ReadLine(s).text, ReadLine(s).rest;
    n := Number(text[1..]).value;
  }

  lemma ReadHasBody(n: int64, body: seq<byte>, start: nat, got: BulkResult) returns (tail: seq<byte>)
    requires ReadBody(n, body, start) == got && got.GotBulk?
    ensures body == tail + got.rest && got == BulkRead(got.arg, got.rest, start)
    ensures match got.arg
            case Null => n == -1 && tail == []
            case Bulk(b) => n == |b| && |tail| == |b| + 2 && tail[..|b|] == b
  {
    tail := body[..if n == -1 then 0 else n + 2];
  }

  lemma ReadIsPiece(s: seq<byte>, start: nat, got: BulkResult) returns (piece: seq<byte>)
    requires IsNext(got, s, start) && got.GotBulk?
    ensures IsPiece(piece, got.arg) && s == piece + got.rest && got == BulkRead(got.arg, got.rest, start)
  {
    var text, n, body := ReadHasLine(s, start, got);
    LineIff(s, text, body);
    var end :| EndsLine(text, end) && s == text + end + body;
    var tail := ReadHasBody(n, body, start, got);
    piece := text + end + tail;
    Associate(text + end, tail, got.rest);
    assert Writes(piece, got.arg, text, end, tail);
  }

  // What is read as an argument is exactly what is so written, if it fits.
  lemma BulkIff(s: seq<byte>, start: nat, arg: Arg, rest: seq<byte>, end: nat)
    ensures ReadBulk(s, start) == GotBulk(arg, rest, end) <==>
            BulkFits(arg, start) && end == start + Room(arg) && exists piece :: IsPiece(piece, arg) && s == piece + rest
  {
    if ReadBulk(s, start) == GotBulk(arg, rest, end) {
      assert IsNext(GotBulk(arg, rest, end), s, start);
      var piece := ReadIsPiece(s, start, GotBulk(arg, rest, end));
    }
    forall piece | IsPiece(piece, arg) && s == piece + rest
      ensures ReadBulk(s, start) == BulkRead(arg, rest, start)
    {
      PieceIsBulk(piece, arg);
    }
  }

  ghost predicate ArePieces(pieces: seq<seq<byte>>, args: seq<Arg>) {
    |pieces| == |args| && forall i :: 0 <= i < |args| ==> IsPiece(pieces[i], args[i])
  }

  // The command read, as a predicate that can be carried whole.
  ghost predicate IsRead(read: CommandResult, s: seq<byte>, n: nat, start: nat) {
    forall command, m: nat :: IsThat(command, s, m, start) && m == n ==> command == read
  }

  ghost predicate IsThat(read: CommandResult, s: seq<byte>, n: nat, start: nat) {
    ReadBulks(s, n, start) == read
  }

  lemma {:induction false} ReadHasFirst(s: seq<byte>, n: nat, start: nat, read: CommandResult)
    returns (first: BulkResult, others: CommandResult)
    requires IsRead(read, s, n, start) && read.Command? && n > 0
    ensures IsNext(first, s, start) && first.GotBulk?
    ensures IsRead(others, first.rest, n - 1, first.end) && others.Command?
    ensures read == Command([first.arg] + others.args, others.rest)
  {
    assert IsThat(ReadBulks(s, n, start), s, n, start);
    first := ReadBulk(s, start);
    others := ReadBulks(first.rest, n - 1, first.end);
  }

  lemma {:induction false} ReadNone(s: seq<byte>, start: nat, read: CommandResult)
    requires IsRead(read, s, 0, start)
    ensures read == Command([], s)
  {
    assert IsThat(Command([], s), s, 0, start);
  }

  // The pieces of some arguments, read from start on.
  ghost predicate ReadAs(s: seq<byte>, start: nat, read: CommandResult, pieces: seq<seq<byte>>) {
    && read.Command? && AllFit(read.args, start)
    && ArePieces(pieces, read.args) && s == Flatten(pieces) + read.rest
  }

  lemma {:induction false} OnePieceMore(s: seq<byte>, start: nat, piece: seq<byte>, first: BulkResult,
                                        others: CommandResult, more: seq<seq<byte>>)
    requires first.GotBulk? && IsPiece(piece, first.arg) && s == piece + first.rest && start <= MAX_BUFFER_SIZE
    requires first == BulkRead(first.arg, first.rest, start) && ReadAs(first.rest, first.end, others, more)
    ensures ReadAs(s, start, Command([first.arg] + others.args, others.rest), [piece] + more)
  {
    var pieces, args := [piece] + more, [first.arg] + others.args;
    assert pieces[1..] == more && args[1..] == others.args;
    AllFitStep(args, start);
    Associate(piece, Flatten(more), others.rest);
  }

  lemma {:induction false} ReadArePieces(s: seq<byte>, n: nat, start: nat, read: CommandResult)
    returns (pieces: seq<seq<byte>>)
    requires IsRead(read, s, n, start) && read.Command? && start <= MAX_BUFFER_SIZE
    ensures |read.args| == n && ReadAs(s, start, read, pieces)
    decreases n
  {
    if n == 0 {
      ReadNone(s, start, read);
      pieces := [];
      assert [] + s == s;
    } else {
      var first, others := ReadHasFirst(s, n, start, read);
      var piece := ReadIsPiece(s, start, first);
      var more := ReadArePieces(first.rest, n - 1, first.end, others);
      pieces := [piece] + more;
      OnePieceMore(s, start, piece, first, others, more);
    }
  }

  // What is read as an array's arguments is exactly a list of them, one after another, that fit
  // the buffer together.
  lemma BulksIff(s: seq<byte>, args: seq<Arg>, rest: seq<byte>)
    ensures ReadBulks(s, |args|, 0) == Command(args, rest) <==>
            AllFit(args, 0) && exists pieces :: ArePieces(pieces, args) && s == Flatten(pieces) + rest
  {
    if ReadBulks(s, |args|, 0) == Command(args, rest) {
      assert IsRead(Command(args, rest), s, |args|, 0);
      var pieces := ReadArePieces(s, |args|, 0, Command(args, rest));
    }
    forall pieces | ArePieces(pieces, args) && s == Flatten(pieces) + rest
      ensures ReadBulks(s, |args|, 0) == BulksRead(args, rest, 0)
    {
      forall i | 0 <= i < |args| ensures IsBulk(pieces[i], args[i]) { PieceIsBulk(pieces[i], args[i]); }
      JoinedAreBulks(pieces, args);
    }
  }

  // What a line that is not empty, and what follows it, are read as: with the array mark, an
  // array of as many arguments as it announces; with any other first byte, the line's words.
  lemma CommandIff(text: seq<byte>, end: seq<byte>, tail: seq<byte>, args: seq<Arg>, rest: seq<byte>)
    requires EndsLine(text, end) && text != []
    ensures ReadCommand(text + end + tail) == Command(args, rest) <==>
            if text[0] == STAR then
              && Number(text[1..]) == Some(|args|) && Fits(args)
              && exists pieces :: ArePieces(pieces, args) && tail == Flatten(pieces) + rest
            else Words(text) != [] && args == Bulks(Words(text)) && rest == tail
  {
    LineReads(text, end, tail);
    if text[0] == STAR {
      ArrayIff(text, tail, args, rest);
      BulksIff(tail, args, rest);
    }
  }

  lemma ArrayIff(text: seq<byte>, tail: seq<byte>, args: seq<Arg>, rest: seq<byte>)
    requires text != []
    ensures ReadArray(text, tail) == Command(args, rest) <==>
            Number(text[1..]) == Some(|args|) && 0 < |args| <= MAX_ARG_COUNT &&
            ReadBulks(tail, |args|, 0) == Command(args, rest)
  {
    var n := Number(text[1..]);
    if |text| >= 2 && n.Some? && 0 < n.value <= MAX_ARG_COUNT && ReadBulks(tail, n.value, 0) == Command(args, rest) {
      assert IsRead(Command(args, rest), tail, n.value, 0);
      var pieces := ReadArePieces(tail, n.value, 0, Command(args, rest));
    }
  }

  /* Inline commands */

  // Words on a line, with blanks around them, are the command's arguments; a line of blanks
  // alone is no command.
  lemma InlineReads(gaps: seq<seq<byte>>, words: seq<seq<byte>>, end: seq<byte>, rest: seq<byte>)
    requires Spaced(gaps, words) && EndsLine(LaidOut(gaps, words), end)
    requires LaidOut(gaps, words) != [] && LaidOut(gaps, words)[0] != STAR
    ensures ReadCommand(LaidOut(gaps, words) + end + rest) ==
            if words == [] then NoCommand else Command(Bulks(words), rest)
  {
    LineReads(LaidOut(gaps, words), end, rest);
    WordsOfLine(gaps, words);
  }

  // Empty lines before a command are skipped.
  lemma EmptyLineSkips(end: seq<byte>, rest: seq<byte>)
    requires end == [LF] || end == [CR, LF]
    ensures ReadCommand(end + rest) == ReadCommand(rest)
  {
    LineReads([], end, rest);
    assert [] + end + rest == end + rest;
  }
}
