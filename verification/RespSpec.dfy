// The Redis serialization protocol as this server reads and writes it ("Arrays" and "Bulk
// strings" in the protocol specification, plus inline commands), on whole byte strings.
module RespSpec {
  import opened Wrappers
  import opened Digits

  const TAB: byte := 9
  const LF: byte := 10
  const CR: byte := 13
  const SPACE: byte := 32
  const DOLLAR: byte := 36
  const STAR: byte := 42

  const MAX_BUFFER_SIZE := 16 * 1024 * 1024
  const MAX_COMMAND_SIZE := 1024 * 1024
  const MAX_ARG_COUNT := 1024 * 1024
  const MAX_LINE_SIZE := 64 * 1024

  /* Lines */

  datatype LineResult = NoLine | Line(text: seq<byte>, rest: seq<byte>)

  // The line whose LF is the first one from i on; none if the input ends first or the line,
  // with its LF, is too long.
  function LineFrom(s: seq<byte>, i: nat): (r: LineResult)
    ensures r.Line? ==> |r.rest| < |s|
    decreases |s| - i
  {
    if i >= |s| || i >= MAX_LINE_SIZE then NoLine
    else if s[i] == LF then Line(Chomped(s[..i]), s[i + 1..])
    else LineFrom(s, i + 1)
  }

  lemma {:induction false} LineFromSkips(s: seq<byte>, i: nat, j: nat)
    requires i <= j <= |s| && j <= MAX_LINE_SIZE && LF !in s[i..j]
    ensures LineFrom(s, i) == LineFrom(s, j)
    decreases j - i
  {
    if i < j {
      assert s[i] == s[i..j][0] && s[i + 1..j] == s[i..j][1..];
      LineFromSkips(s, i + 1, j);
    }
  }

  // A line without its LF or CR LF.
  function ReadLine(s: seq<byte>): (r: LineResult)
    ensures r.Line? ==> |r.rest| < |s|
  {
    LineFrom(s, 0)
  }

  function Chomped(text: seq<byte>): seq<byte> {
    if text != [] && text[|text| - 1] == CR then text[..|text| - 1] else text
  }

  /* Numbers */

  // The overflow guard: the value before the last digit is at most this.
  const NUMBER_GUARD := (MAX_INT64 - 9) / 10

  // Digits, perhaps none, up to the guard.
  function Magnitude(d: seq<byte>): Option<int64> {
    if !AllDigits(d) || (d != [] && Value(d[..|d| - 1]) > NUMBER_GUARD) then None else Some(Value(d))
  }

  // An optional sign and digits.  A lone sign is zero, and the eight largest 64-bit integers
  // are refused by the guard.
  function Number(data: seq<byte>): Option<int64> {
    if data == [] then None
    else
      var m := Magnitude(Unsigned(data));
      if m.None? then None else Some(if data[0] == MINUS then 0 - m.value else m.value)
  }

  function Unsigned(data: seq<byte>): seq<byte> {
    if data != [] && data[0] == MINUS then data[1..] else data
  }

  lemma NumberOfDecimal(n: nat)
    ensures Number(Decimal(n)) == if n <= 10 * NUMBER_GUARD + 9 then Some(n) else None
  {
    ValueOfDecimal(n);
  }

  /* Commands */

  datatype Arg = Null | Bulk(bytes: seq<byte>)

  datatype BulkResult = NoBulk | GotBulk(arg: Arg, rest: seq<byte>, end: nat)

  // A bulk string, put in the command's buffer from position start.  The two bytes after it
  // are taken to be CR LF.
  function ReadBulk(s: seq<byte>, start: nat): (r: BulkResult)
    ensures r.GotBulk? ==> |r.rest| < |s|
  {
    var line := ReadLine(s);
    if line.NoLine? || line.text == [] || line.text[0] != DOLLAR then NoBulk
    else
      var n := Number(line.text[1..]);
      if n.None? then NoBulk else ReadBody(n.value, line.rest, start)
  }

  function ReadBody(n: int64, s: seq<byte>, start: nat): (r: BulkResult)
    ensures r.GotBulk? ==> |r.rest| <= |s|
  {
    if n == -1 then GotBulk(Null, s, start)
    else if n < 0 || n > MAX_COMMAND_SIZE || start + n + 2 > MAX_BUFFER_SIZE || n + 2 > |s| then NoBulk
    else GotBulk(Bulk(s[..n]), s[n + 2..], start + n + 2)
  }

  datatype CommandResult = NoCommand | Command(args: seq<Arg>, rest: seq<byte>)

  function Prepend(arg: Arg, others: CommandResult): CommandResult {
    if others.NoCommand? then NoCommand else Command([arg] + others.args, others.rest)
  }

  function ReadBulks(s: seq<byte>, n: nat, start: nat): CommandResult
    decreases n
  {
    if n == 0 then Command([], s)
    else
      var first := ReadBulk(s, start);
      if first.NoBulk? then NoCommand else Prepend(first.arg, ReadBulks(first.rest, n - 1, first.end))
  }

  function ReadArray(text: seq<byte>, rest: seq<byte>): CommandResult {
    if |text| < 2 then NoCommand
    else
      var n := Number(text[1..]);
      if n.None? || n.value <= 0 || n.value > MAX_ARG_COUNT then NoCommand
      else ReadBulks(rest, n.value, 0)
  }

  predicate IsBlank(b: byte) {
    b == SPACE || b == TAB
  }

  function WordEnd(s: seq<byte>): (i: nat)
    ensures i <= |s| && (forall k :: 0 <= k < i ==> !IsBlank(s[k])) && (i < |s| ==> IsBlank(s[i]))
  {
    if s == [] || IsBlank(s[0]) then 0 else 1 + WordEnd(s[1..])
  }

  // An inline command's words: the maximal runs of bytes that are not blank.
  function Words(s: seq<byte>): seq<seq<byte>>
    decreases |s|
  {
    if s == [] then []
    else if IsBlank(s[0]) then Words(s[1..])
    else [s[..WordEnd(s)]] + Words(s[WordEnd(s)..])
  }

  function Bulks(words: seq<seq<byte>>): (args: seq<Arg>)
    ensures |args| == |words| && forall i :: 0 <= i < |words| ==> args[i] == Bulk(words[i])
  {
    seq(|words|, i requires 0 <= i < |words| => Bulk(words[i]))
  }

  function ReadInline(text: seq<byte>, rest: seq<byte>): CommandResult {
    if Words(text) == [] then NoCommand else Command(Bulks(Words(text)), rest)
  }

  // One command, after any empty lines.
  function ReadCommand(s: seq<byte>): CommandResult
    decreases |s|
  {
    var line := ReadLine(s);
    if line.NoLine? then NoCommand
    else if line.text == [] then ReadCommand(line.rest)
    else if line.text[0] != STAR then ReadInline(line.text, line.rest)
    else ReadArray(line.text, line.rest)
  }

  // The bytes of the words are those of the line that are not blank, in order, and no word is
  // empty.
  function NonBlank(s: seq<byte>): seq<byte> {
    if s == [] then [] else (if IsBlank(s[0]) then [] else [s[0]]) + NonBlank(s[1..])
  }

  lemma {:induction false} NonBlankPrefix(s: seq<byte>, i: nat)
    requires i <= |s| && forall k :: 0 <= k < i ==> !IsBlank(s[k])
    ensures NonBlank(s) == s[..i] + NonBlank(s[i..])
  {
    if i > 0 {
      NonBlankPrefix(s[1..], i - 1);
      assert s[..i] == [s[0]] + s[1..][..i - 1] && s[1..][i - 1..] == s[i..];
    }
  }

  lemma {:induction false} WordsKeepTheBytes(s: seq<byte>)
    ensures Flatten(Words(s)) == NonBlank(s)
    decreases |s|
  {
    if s != [] {
      if IsBlank(s[0]) {
        WordsKeepTheBytes(s[1..]);
      } else {
        WordsKeepTheBytes(s[WordEnd(s)..]);
        NonBlankPrefix(s, WordEnd(s));
      }
    }
  }

  predicate IsWord(w: seq<byte>) {
    w != [] && forall k :: 0 <= k < |w| ==> w[k] != SPACE && w[k] != TAB
  }

  lemma {:induction false} WordsAreWords(s: seq<byte>, i: nat)
    requires i < |Words(s)|
    ensures IsWord(Words(s)[i])
    decreases |s|
  {
    if IsBlank(s[0]) {
      WordsAreWords(s[1..], i);
    } else if i > 0 {
      WordsAreWords(s[WordEnd(s)..], i - 1);
    }
  }

  // A line laid out from words with a gap before, between and after them.
  function LaidOut(gaps: seq<seq<byte>>, words: seq<seq<byte>>): seq<byte>
    requires |gaps| == |words| + 1
  {
    if words == [] then gaps[0] else gaps[0] + (words[0] + LaidOut(gaps[1..], words[1..]))
  }

  predicate AllBlank(s: seq<byte>) {
    forall k :: 0 <= k < |s| ==> s[k] == SPACE || s[k] == TAB
  }

  // The gaps are blank, and those between two words are not empty.
  predicate Spaced(gaps: seq<seq<byte>>, words: seq<seq<byte>>) {
    && |gaps| == |words| + 1
    && (forall i :: 0 <= i < |gaps| ==> AllBlank(gaps[i]))
    && (forall i :: 0 <= i < |words| ==> IsWord(words[i]))
    && (forall i :: 0 < i < |words| ==> gaps[i] != [])
  }

  lemma {:induction false} WordEndIs(t: seq<byte>, n: nat)
    requires n <= |t| && (forall k :: 0 <= k < n ==> !IsBlank(t[k])) && (n < |t| ==> IsBlank(t[n]))
    ensures WordEnd(t) == n
  {
    if n > 0 { WordEndIs(t[1..], n - 1); }
  }

  lemma {:induction false} WordsAfterGap(gap: seq<byte>, rest: seq<byte>)
    requires AllBlank(gap)
    ensures Words(gap + rest) == Words(rest)
  {
    if gap == [] {
      assert gap + rest == rest;
    } else {
      assert (gap + rest)[1..] == gap[1..] + rest;
      WordsAfterGap(gap[1..], rest);
    }
  }

  lemma WordsAfterWord(word: seq<byte>, rest: seq<byte>)
    requires IsWord(word) && (rest == [] || IsBlank(rest[0]))
    ensures Words(word + rest) == [word] + Words(rest)
  {
    var s := word + rest;
    WordEndIs(s, |word|);
    assert s[..|word|] == word && s[|word|..] == rest;
  }

  lemma LineStartsBlank(gaps: seq<seq<byte>>, words: seq<seq<byte>>)
    requires Spaced(gaps, words) && (words != [] ==> gaps[0] != [])
    ensures LaidOut(gaps, words) == [] || IsBlank(LaidOut(gaps, words)[0])
  {
    assert AllBlank(gaps[0]);
  }

  // Whatever the words and the gaps, the line splits into the words.
  lemma {:induction false} WordsOfLine(gaps: seq<seq<byte>>, words: seq<seq<byte>>)
    requires Spaced(gaps, words)
    ensures Words(LaidOut(gaps, words)) == words
    decreases |words|
  {
    assert AllBlank(gaps[0]);
    if words == [] {
      WordsAfterGap(gaps[0], []);
      assert gaps[0] + [] == gaps[0];
    } else {
      var rest := LaidOut(gaps[1..], words[1..]);
      assert IsWord(words[0]);
      WordsOfLine(gaps[1..], words[1..]);
      LineStartsBlank(gaps[1..], words[1..]);
      WordsAfterGap(gaps[0], words[0] + rest);
      WordsAfterWord(words[0], rest);
    }
  }

  // Every line is laid out so from its words.
  lemma {:induction false} LineOfWords(s: seq<byte>) returns (gaps: seq<seq<byte>>)
    ensures Spaced(gaps, Words(s)) && LaidOut(gaps, Words(s)) == s
    ensures s != [] && !IsBlank(s[0]) ==> gaps[0] == []
    ensures s != [] && IsBlank(s[0]) ==> gaps[0] != []
    decreases |s|
  {
    if s == [] {
      gaps := [[]];
    } else if IsBlank(s[0]) {
      var others := LineOfWords(s[1..]);
      gaps := GapGrows(s, others);
    } else {
      var n := WordEnd(s);
      var others := LineOfWords(s[n..]);
      gaps := [[]] + others;
      assert gaps[1..] == others && Words(s)[1..] == Words(s[n..]);
      assert [] + (s[..n] + s[n..]) == s;
    }
  }

  lemma GapGrows(s: seq<byte>, others: seq<seq<byte>>) returns (gaps: seq<seq<byte>>)
    requires s != [] && IsBlank(s[0])
    requires Spaced(others, Words(s[1..])) && LaidOut(others, Words(s[1..])) == s[1..]
    ensures Spaced(gaps, Words(s)) && LaidOut(gaps, Words(s)) == s && gaps[0] != []
  {
    gaps := OneMoreBlank(s[0], others, Words(s[1..]));
    assert [s[0]] + s[1..] == s;
  }

  lemma OneMoreBlank(b: byte, gaps: seq<seq<byte>>, words: seq<seq<byte>>) returns (more: seq<seq<byte>>)
    requires IsBlank(b) && Spaced(gaps, words)
    ensures Spaced(more, words) && LaidOut(more, words) == [b] + LaidOut(gaps, words) && more[0] != []
  {
    more := [[b] + gaps[0]] + gaps[1..];
    assert AllBlank(gaps[0]) && more[1..] == gaps[1..];
    if words != [] { Associate([b], gaps[0], words[0] + LaidOut(gaps[1..], words[1..])); }
  }

  // So the words of a line are the one list that the line is laid out from.
  lemma WordsIff(s: seq<byte>, words: seq<seq<byte>>)
    ensures Words(s) == words <==> exists gaps :: Spaced(gaps, words) && LaidOut(gaps, words) == s
  {
    var gaps := LineOfWords(s);
    forall other | Spaced(other, words) && LaidOut(other, words) == s ensures Words(s) == words {
      WordsOfLine(other, words);
    }
  }

  /* Printing */

  function PrintHeader(mark: byte, n: nat): seq<byte> {
    [mark] + Decimal(n) + [CR, LF]
  }

  function PrintBulk(value: seq<byte>): seq<byte> {
    PrintHeader(DOLLAR, |value|) + value + [CR, LF]
  }

  function PrintedBulks(values: seq<seq<byte>>): (pieces: seq<seq<byte>>)
    ensures |pieces| == |values| && forall i :: 0 <= i < |values| ==> pieces[i] == PrintBulk(values[i])
  {
    seq(|values|, i requires 0 <= i < |values| => PrintBulk(values[i]))
  }

  function PrintArray(values: seq<seq<byte>>): seq<byte> {
    PrintHeader(STAR, |values|) + Flatten(PrintedBulks(values))
  }

  // A first line that reads as the mark and the number n, unless it is far too large.
  ghost predicate IsHeader(header: seq<byte>, mark: byte, n: nat) {
    forall rest :: HeaderReads(ReadLine(header + rest), mark, n, rest)
  }

  ghost predicate HeaderReads(line: LineResult, mark: byte, n: nat, rest: seq<byte>) {
    match line
    case NoLine => n >= 100_000_000
    case Line(text, tail) =>
      |text| >= 2 && text[0] == mark && Number(text[1..]) == (if n <= 10 * NUMBER_GUARD + 9 then Some(n) else None) &&
      tail == rest
  }

  lemma PrintedHeaderLine(mark: byte, n: nat, rest: seq<byte>)
    requires mark == STAR || mark == DOLLAR
    ensures var line := ReadLine(PrintHeader(mark, n) + rest);
            if line.NoLine? then n >= 100_000_000 else line == Line([mark] + Decimal(n), rest)
  {
    var text := [mark] + Decimal(n);
    var s := PrintHeader(mark, n) + rest;
    var i := |text| + 1;
    assert s[..i] == text + [CR] && s[i + 1..] == rest && s[i] == LF;
    assert Chomped(s[..i]) == text;
    if i < MAX_LINE_SIZE {
      assert s[0..i] == s[..i];
      LineFromSkips(s, 0, i);
    } else {
      assert s[0..MAX_LINE_SIZE] == s[..i][..MAX_LINE_SIZE];
      LineFromSkips(s, 0, MAX_LINE_SIZE);
    }
    if n < 100_000_000 {
      assert Pow10(2) == 100 && Pow10(4) == 10_000 && Pow10(6) == 1_000_000;
      DecimalLength(n, 8);
    }
  }

  lemma PrintedHeaderIsHeader(mark: byte, n: nat)
    requires mark == STAR || mark == DOLLAR
    ensures IsHeader(PrintHeader(mark, n), mark, n)
  {
    forall rest ensures HeaderReads(ReadLine(PrintHeader(mark, n) + rest), mark, n, rest) {
      PrintedHeaderLine(mark, n, rest);
      NumberOfDecimal(n);
      assert ([mark] + Decimal(n))[1..] == Decimal(n);
    }
  }

  // The bytes an argument takes up in the command's buffer.
  function Room(arg: Arg): nat {
    if arg.Null? then 0 else |arg.bytes| + 2
  }

  predicate BulkFits(arg: Arg, start: nat) {
    arg.Bulk? ==> |arg.bytes| <= MAX_COMMAND_SIZE && start + Room(arg) <= MAX_BUFFER_SIZE
  }

  function BulkRead(arg: Arg, rest: seq<byte>, start: nat): BulkResult {
    if BulkFits(arg, start) then GotBulk(arg, rest, start + Room(arg)) else NoBulk
  }

  lemma BodyReads(value: seq<byte>, two: seq<byte>, rest: seq<byte>, start: nat)
    requires |value| <= MAX_INT64 && |two| == 2
    ensures ReadBody(|value|, value + (two + rest), start) == BulkRead(Bulk(value), rest, start)
  {
    var tail := value + (two + rest);
    assert tail[..|value|] == value && tail[|value| + 2..] == rest;
  }

  lemma BulkReads(header: seq<byte>, value: seq<byte>, two: seq<byte>, rest: seq<byte>, start: nat)
    requires IsHeader(header, DOLLAR, |value|) && |two| == 2
    ensures ReadBulk(header + (value + (two + rest)), start) == BulkRead(Bulk(value), rest, start)
  {
    var tail := value + (two + rest);
    assert HeaderReads(ReadLine(header + tail), DOLLAR, |value|, tail);
    if |value| <= MAX_INT64 { BodyReads(value, two, rest, start); }
  }

  // Bytes that are read as one argument, whatever follows them.
  ghost predicate IsBulk(piece: seq<byte>, arg: Arg) {
    forall rest, start: nat :: ReadBulk(piece + rest, start) == BulkRead(arg, rest, start)
  }

  lemma {:induction false} FramedReads(framed: seq<byte>, header: seq<byte>, value: seq<byte>, two: seq<byte>,
                                       rest: seq<byte>, start: nat)
    requires framed == header + value + two && IsHeader(header, DOLLAR, |value|) && |two| == 2
    ensures ReadBulk(framed + rest, start) == BulkRead(Bulk(value), rest, start)
  {
    assert framed + rest == header + (value + (two + rest));
    BulkReads(header, value, two, rest, start);
  }

  // The two bytes after a bulk string need not be CR LF.
  lemma FramedIsBulk(header: seq<byte>, value: seq<byte>, two: seq<byte>)
    requires IsHeader(header, DOLLAR, |value|) && |two| == 2
    ensures IsBulk(header + value + two, Bulk(value))
  {
    var framed := header + value + two;
    forall rest, start: nat ensures ReadBulk(framed + rest, start) == BulkRead(Bulk(value), rest, start) {
      FramedReads(framed, header, value, two, rest, start);
    }
  }

  lemma PrintedBulkIsBulk(value: seq<byte>)
    ensures IsBulk(PrintBulk(value), Bulk(value))
  {
    PrintedHeaderIsHeader(DOLLAR, |value|);
    FramedIsBulk(PrintHeader(DOLLAR, |value|), value, [CR, LF]);
  }

  function Size(args: seq<Arg>): nat {
    if args == [] then 0 else Room(args[0]) + Size(args[1..])
  }

  predicate AllFit(args: seq<Arg>, start: nat) {
    && (forall i :: 0 <= i < |args| && args[i].Bulk? ==> |args[i].bytes| <= MAX_COMMAND_SIZE)
    && start + Size(args) <= MAX_BUFFER_SIZE
  }

  lemma AllFitStep(args: seq<Arg>, start: nat)
    requires args != [] && start <= MAX_BUFFER_SIZE
    ensures AllFit(args, start) <==> BulkFits(args[0], start) && AllFit(args[1..], start + Room(args[0]))
  {
    if AllFit(args[1..], start + Room(args[0])) && BulkFits(args[0], start) {
      forall i | 0 < i < |args| && args[i].Bulk? ensures |args[i].bytes| <= MAX_COMMAND_SIZE {
        assert args[1..][i - 1] == args[i];
      }
    }
  }

  // What comes next, as a predicate that can be carried whole.
  ghost predicate IsNext(next: BulkResult, s: seq<byte>, start: nat) {
    next == ReadBulk(s, start)
  }

  lemma {:induction false} ReadsFirst(s: seq<byte>, arg: Arg, rest: seq<byte>, end: nat, m: nat, n: nat, start: nat)
    requires IsNext(GotBulk(arg, rest, end), s, start) && m == n + 1
    ensures ReadBulks(s, m, start) == Prepend(arg, ReadBulks(rest, n, end))
  {
  }

  lemma {:induction false} ReadsNone(s: seq<byte>, m: nat, start: nat)
    requires IsNext(NoBulk, s, start) && m > 0
    ensures ReadBulks(s, m, start) == NoCommand
  {
  }

  lemma BulkIsNext(piece: seq<byte>, arg: Arg, tail: seq<byte>, start: nat)
    requires IsBulk(piece, arg)
    ensures IsNext(BulkRead(arg, tail, start), piece + tail, start)
  {
  }

  // How pieces are read together, whatever follows them.
  ghost predicate AreBulks(joined: seq<byte>, args: seq<Arg>) {
    forall rest, start: nat :: start <= MAX_BUFFER_SIZE ==>
      ReadBulks(joined + rest, |args|, start) == BulksRead(args, rest, start)
  }

  function BulksRead(args: seq<Arg>, rest: seq<byte>, start: nat): CommandResult {
    if AllFit(args, start) then Command(args, rest) else NoCommand
  }

  lemma BulksReadStep(args: seq<Arg>, rest: seq<byte>, start: nat)
    requires args != [] && start <= MAX_BUFFER_SIZE
    ensures BulksRead(args, rest, start) ==
            if BulkFits(args[0], start) then Prepend(args[0], BulksRead(args[1..], rest, start + Room(args[0])))
            else NoCommand
  {
    AllFitStep(args, start);
    assert [args[0]] + args[1..] == args;
  }

  lemma OneMoreBulk(piece: seq<byte>, joined: seq<byte>, args: seq<Arg>, rest: seq<byte>, start: nat)
    requires args != [] && IsBulk(piece, args[0]) && AreBulks(joined, args[1..]) && start <= MAX_BUFFER_SIZE
    ensures ReadBulks(piece + joined + rest, |args|, start) == BulksRead(args, rest, start)
  {
    var n, next := |args[1..]|, start + Room(args[0]);
    assert piece + joined + rest == piece + (joined + rest);
    BulksReadStep(args, rest, start);
    BulkIsNext(piece, args[0], joined + rest, start);
    if BulkFits(args[0], start) {
      ReadsFirst(piece + (joined + rest), args[0], joined + rest, next, |args|, n, start);
      assert ReadBulks(joined + rest, n, next) == BulksRead(args[1..], rest, next);
    } else {
      ReadsNone(piece + (joined + rest), |args|, start);
    }
  }

  lemma {:induction false} JoinedAreBulks(pieces: seq<seq<byte>>, args: seq<Arg>)
    requires |pieces| == |args| && forall i :: 0 <= i < |args| ==> IsBulk(pieces[i], args[i])
    ensures AreBulks(Flatten(pieces), args)
    decreases |args|
  {
    if args == [] {
      assert forall rest: seq<byte> :: [] + rest == rest;
    } else {
      JoinedAreBulks(pieces[1..], args[1..]);
      assert IsBulk(pieces[0], args[0]);
      forall rest, start: nat | start <= MAX_BUFFER_SIZE
        ensures ReadBulks(Flatten(pieces) + rest, |args|, start) == BulksRead(args, rest, start)
      {
        OneMoreBulk(pieces[0], Flatten(pieces[1..]), args, rest, start);
      }
    }
  }

  predicate Fits(args: seq<Arg>) {
    args != [] && |args| <= MAX_ARG_COUNT && AllFit(args, 0)
  }

  // An array in any spelling: a header line and the arguments it announces.
  lemma ArrayReads(header: seq<byte>, pieces: seq<seq<byte>>, args: seq<Arg>, rest: seq<byte>)
    requires IsHeader(header, STAR, |args|)
    requires |pieces| == |args| && forall i :: 0 <= i < |args| ==> IsBulk(pieces[i], args[i])
    ensures ReadCommand(header + (Flatten(pieces) + rest)) == if Fits(args) then Command(args, rest) else NoCommand
  {
    var tail := Flatten(pieces) + rest;
    assert HeaderReads(ReadLine(header + tail), STAR, |args|, tail);
    JoinedAreBulks(pieces, args);
  }

  // A printed array within the limits is read back as the same arguments, leaving what
  // follows; any other is refused, never misread.
  lemma ArrayRoundTrip(values: seq<seq<byte>>, rest: seq<byte>)
    ensures ReadCommand(PrintArray(values) + rest) ==
            if Fits(Bulks(values)) then Command(Bulks(values), rest) else NoCommand
  {
    PrintedHeaderIsHeader(STAR, |values|);
    forall i | 0 <= i < |values| ensures IsBulk(PrintedBulks(values)[i], Bulks(values)[i]) {
      PrintedBulkIsBulk(values[i]);
    }
    ArrayReads(PrintHeader(STAR, |values|), PrintedBulks(values), Bulks(values), rest);
    assert PrintArray(values) + rest == PrintHeader(STAR, |values|) + (Flatten(PrintedBulks(values)) + rest);
  }
}
