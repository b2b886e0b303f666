// What patterns mean, as they are written: every pattern is one way of writing some items down,
// and a few laws fix which names the items admit.
module GlobLaws {
  import opened Wrappers
  import opened Glob

  /* Writing patterns */

  // A member of a class as it is written: one byte, bare or escaped, or a range.
  datatype Mark = Lone(c: char, escaped: bool) | Range(lo: char, hi: char)

  // A piece of a pattern as it is written.  Only a class at the end of a pattern may be left open.
  datatype Token =
    | AnyRun
    | AnyByte
    | Letter(c: char, escaped: bool)
    | Set(negate: bool, marks: seq<Mark>, closed: bool)

  function Escaped(c: char, escaped: bool): string {
    if escaped then ['\\', c] else [c]
  }

  function WriteMark(m: Mark): string {
    match m
    case Lone(c, escaped) => Escaped(c, escaped)
    case Range(lo, hi) => [lo, '-', hi]
  }

  function WriteMarks(marks: seq<Mark>): string {
    if marks == [] then [] else WriteMark(marks[0]) + WriteMarks(marks[1..])
  }

  // What follows the marks of a class, the rest of the pattern included.
  function Closing(closed: bool, rest: string): string {
    if closed then [']'] + rest else []
  }

  function WriteToken(t: Token, rest: string): string {
    match t
    case AnyRun => ['*'] + rest
    case AnyByte => ['?'] + rest
    case Letter(c, escaped) => Escaped(c, escaped) + rest
    case Set(negate, marks, closed) =>
      ['['] + ((if negate then ['^'] else []) + (WriteMarks(marks) + Closing(closed, rest)))
  }

  function Write(tokens: seq<Token>): string {
    if tokens == [] then [] else WriteToken(tokens[0], Write(tokens[1..]))
  }

  // What they stand for.
  function ElementOf(m: Mark): Element {
    match m
    case Lone(c, _) => Exactly(c)
    case Range(lo, hi) => Between(lo, hi)
  }

  function ElementsOf(marks: seq<Mark>): (es: seq<Element>)
    ensures |es| == |marks| && forall i :: 0 <= i < |marks| ==> es[i] == ElementOf(marks[i])
  {
    seq(|marks|, i requires 0 <= i < |marks| => ElementOf(marks[i]))
  }

  function ItemOf(t: Token): Item {
    match t
    case AnyRun => Star
    case AnyByte => Any
    case Letter(c, _) => Literal(c)
    case Set(negate, marks, _) => Class(negate, ElementsOf(marks))
  }

  function ItemsOf(tokens: seq<Token>): (items: seq<Item>)
    ensures |items| == |tokens| && forall i :: 0 <= i < |tokens| ==> items[i] == ItemOf(tokens[i])
  {
    seq(|tokens|, i requires 0 <= i < |tokens| => ItemOf(tokens[i]))
  }

  /* When they may be written so */

  // Text that would make a range of the byte before it.
  predicate MakesRange(after: string) {
    |after| >= 2 && after[0] == '-' && after[1] != ']'
  }

  // A bare member is no bracket, no backslash unless the pattern ends there, and starts no range.
  predicate FairMark(m: Mark, after: string) {
    match m
    case Lone(c, escaped) => escaped || (c != ']' && (c == '\\' ==> after == []) && !MakesRange(after))
    case Range(lo, hi) => lo != ']' && lo != '\\' && hi != ']'
  }

  predicate FairMarks(marks: seq<Mark>, after: string) {
    marks == [] || (FairMark(marks[0], WriteMarks(marks[1..]) + after) && FairMarks(marks[1..], after))
  }

  predicate FairToken(t: Token, rest: string) {
    match t
    case AnyRun => true
    case AnyByte => true
    case Letter(c, escaped) => escaped || (c != '*' && c != '?' && c != '[' && (c == '\\' ==> rest == []))
    case Set(negate, marks, closed) =>
      var inner := WriteMarks(marks) + Closing(closed, rest);
      && (closed || rest == [])
      && FairMarks(marks, Closing(closed, rest))
      && (negate || inner == [] || inner[0] != '^')
  }

  predicate Fair(tokens: seq<Token>) {
    tokens == [] || (FairToken(tokens[0], Write(tokens[1..])) && Fair(tokens[1..]))
  }

  /* Reading them back */

  // Where the class that ends with `after` leaves the rest of the pattern.
  predicate Ends(after: string, rest: string) {
    if after == [] then rest == [] else after == [']'] + rest
  }

  lemma FirstMark(m: Mark, after: string)
    requires FairMark(m, after)
    ensures var p := WriteMark(m) + after;
            var b := ParseElements(after);
            ParseElements(p) == Bracket([ElementOf(m)] + b.elements, b.rest)
  {
    var p := WriteMark(m) + after;
    if m.Range? || m.escaped {
      assert p[|WriteMark(m)|..] == after;
    } else {
      assert p[1..] == after;
    }
  }

  lemma FirstElement(marks: seq<Mark>)
    requires marks != []
    ensures ElementsOf(marks) == [ElementOf(marks[0])] + ElementsOf(marks[1..])
  {
  }

  lemma {:induction false} ReadMarks(marks: seq<Mark>, after: string, rest: string)
    requires FairMarks(marks, after) && Ends(after, rest)
    ensures ParseElements(WriteMarks(marks) + after) == Bracket(ElementsOf(marks), rest)
  {
    if marks == [] {
      assert [] + after == after;
      if after != [] { assert after[1..] == rest; }
    } else {
      var tail := WriteMarks(marks[1..]) + after;
      ReadMarks(marks[1..], after, rest);
      assert WriteMarks(marks) + after == WriteMark(marks[0]) + tail;
      FirstMark(marks[0], tail);
      FirstElement(marks);
    }
  }

  lemma ReadToken(t: Token, rest: string)
    requires FairToken(t, rest)
    ensures Parse(WriteToken(t, rest)) == [ItemOf(t)] + Parse(rest)
  {
    var p := WriteToken(t, rest);
    match t {
      case AnyRun => assert p[1..] == rest;
      case AnyByte => assert p[1..] == rest;
      case Letter(c, escaped) => assert p[|Escaped(c, escaped)|..] == rest;
      case Set(negate, marks, closed) => ReadSet(negate, marks, closed, rest);
    }
  }

  lemma ReadSet(negate: bool, marks: seq<Mark>, closed: bool, rest: string)
    requires FairToken(Set(negate, marks, closed), rest)
    ensures Parse(WriteToken(Set(negate, marks, closed), rest)) == [Class(negate, ElementsOf(marks))] + Parse(rest)
  {
    var after := Closing(closed, rest);
    var inner := WriteMarks(marks) + after;
    ReadMarks(marks, after, rest);
    if negate {
      ParseNegated(inner, Bracket(ElementsOf(marks), rest));
      TwoBytes('[', '^', inner);
    } else {
      assert [] + inner == inner;
      OpensClass(inner, Bracket(ElementsOf(marks), rest));
    }
  }

  lemma TwoBytes(a: char, b: char, s: string)
    ensures [a] + ([b] + s) == [a, b] + s
  {
  }

  lemma OpensClass(inner: string, b: Bracket)
    requires ParseElements(inner) == b && (inner == [] || inner[0] != '^')
    ensures Parse(['['] + inner) == [Class(false, b.elements)] + Parse(b.rest)
  {
    assert (['['] + inner)[1..] == inner;
  }

  // A pattern means the items it is a writing of.
  lemma {:induction false} ReadTokens(tokens: seq<Token>)
    requires Fair(tokens)
    ensures Parse(Write(tokens)) == ItemsOf(tokens)
  {
    if tokens != [] {
      ReadTokens(tokens[1..]);
      ReadToken(tokens[0], Write(tokens[1..]));
      assert ItemsOf(tokens) == [ItemOf(tokens[0])] + ItemsOf(tokens[1..]);
    }
  }

  /* Every pattern is written so */

  // The inside of a class, as it is written.
  lemma {:induction false} MarksOf(p: string) returns (marks: seq<Mark>, closed: bool, rest: string)
    ensures p == WriteMarks(marks) + Closing(closed, rest) && FairMarks(marks, Closing(closed, rest))
    ensures |rest| <= |p| && (closed || rest == [])
    decreases |p|
  {
    if p == [] {
      marks, closed, rest := [], false, [];
    } else if p[0] == ']' {
      marks, closed, rest := [], true, p[1..];
      assert p == [] + ([']'] + p[1..]);
    } else {
      var m := FirstMarkOf(p);
      var tail := p[|WriteMark(m)|..];
      var others;
      others, closed, rest := MarksOf(tail);
      marks := [m] + others;
      assert marks[1..] == others;
      assert WriteMark(m) + tail == WriteMark(m) + (WriteMarks(others) + Closing(closed, rest));
      Associate(WriteMark(m), WriteMarks(others), Closing(closed, rest));
    }
  }

  lemma FirstMarkOf(p: string) returns (m: Mark)
    requires p != [] && p[0] != ']'
    ensures 0 < |WriteMark(m)| <= |p| && p == WriteMark(m) + p[|WriteMark(m)|..] && FairMark(m, p[|WriteMark(m)|..])
  {
    if p[0] == '\\' && |p| > 1 {
      m := Lone(p[1], true);
    } else if |p| >= 3 && p[1] == '-' && p[2] != ']' {
      m := Range(p[0], p[2]);
    } else {
      m := Lone(p[0], false);
    }
  }

  lemma SetOf(p: string) returns (t: Token, rest: string)
    requires p != [] && p[0] == '['
    ensures p == WriteToken(t, rest) && FairToken(t, rest) && |rest| < |p|
  {
    var negate := |p| > 1 && p[1] == '^';
    var inner := if negate then p[2..] else p[1..];
    var marks, closed;
    marks, closed, rest := MarksOf(inner);
    t := Set(negate, marks, closed);
    if negate { TwoBytes('[', '^', inner); } else { assert [] + inner == inner; }
    assert p == (if negate then ['[', '^'] else ['[']) + inner;
  }

  lemma FirstTokenOf(p: string) returns (t: Token, rest: string)
    requires p != []
    ensures p == WriteToken(t, rest) && FairToken(t, rest) && |rest| < |p|
  {
    if p[0] == '*' {
      t, rest := AnyRun, p[1..];
    } else if p[0] == '?' {
      t, rest := AnyByte, p[1..];
    } else if p[0] == '[' {
      t, rest := SetOf(p);
    } else if p[0] == '\\' && |p| > 1 {
      t, rest := Letter(p[1], true), p[2..];
    } else {
      t, rest := Letter(p[0], false), p[1..];
    }
  }

  // Every pattern is a writing of some items, unclosed classes and a final backslash included.
  lemma {:induction false} EveryPatternIsWritten(p: string) returns (tokens: seq<Token>)
    ensures Fair(tokens) && Write(tokens) == p
    decreases |p|
  {
    if p == [] {
      tokens := [];
    } else {
      var t, rest := FirstTokenOf(p);
      var others := EveryPatternIsWritten(rest);
      tokens := [t] + others;
      assert tokens[1..] == others;
    }
  }

  // So parsing gives exactly the items that the pattern is a writing of.
  lemma ParseIff(p: string, items: seq<Item>)
    ensures Parse(p) == items <==> exists tokens :: Fair(tokens) && Write(tokens) == p && ItemsOf(tokens) == items
  {
    var tokens := EveryPatternIsWritten(p);
    ReadTokens(tokens);
    forall other | Fair(other) && Write(other) == p ensures ItemsOf(other) == Parse(p) {
      ReadTokens(other);
    }
  }

  /* What the items admit */

  predicate IsPlain(name: string) {
    forall i :: 0 <= i < |name| ==> name[i] != '*' && name[i] != '?' && name[i] != '[' && name[i] != '\\'
  }

  lemma {:induction false} PlainParses(name: string)
    requires IsPlain(name)
    ensures Parse(name) == seq(|name|, i requires 0 <= i < |name| => Literal(name[i]))
  {
    if name != [] {
      assert IsPlain(name[1..]);
      PlainParses(name[1..]);
    }
  }

  // A name without special bytes is a pattern for itself and no other.
  lemma PlainMatchesOnlyItself(name: string, s: string)
    requires IsPlain(name)
    ensures Admits(Parse(name), s) <==> s == name
  {
    PlainParses(name);
    LiteralsMatchThemselves(Parse(name), s);
    MatchesIsAdmits(Parse(name), s);
  }

  // Items one after another admit the names that can be cut in two for them.
  lemma AdmitsConcat(a: seq<Item>, b: seq<Item>, s: string)
    ensures Admits(a + b, s) <==> exists i :: 0 <= i <= |s| && Admits(a, s[..i]) && Admits(b, s[i..])
  {
    if Admits(a + b, s) {
      var pieces :| AreAdmitted(a + b, pieces) && Flatten(pieces) == s;
      var i := CutPieces(a, b, pieces);
      assert Admits(a, s[..i]) && Admits(b, s[i..]);
    }
    if i :| 0 <= i <= |s| && Admits(a, s[..i]) && Admits(b, s[i..]) {
      JoinPieces(a, b, s[..i], s[i..]);
      assert s[..i] + s[i..] == s;
    }
  }

  lemma CutPieces(a: seq<Item>, b: seq<Item>, pieces: seq<string>) returns (i: nat)
    requires AreAdmitted(a + b, pieces)
    ensures i <= |Flatten(pieces)| && Admits(a, Flatten(pieces)[..i]) && Admits(b, Flatten(pieces)[i..])
  {
    var first, second := pieces[..|a|], pieces[|a|..];
    assert pieces == first + second;
    FlattenConcat(first, second);
    i := |Flatten(first)|;
    assert AreAdmitted(a, first) by {
      forall j | 0 <= j < |a| ensures AdmitsPiece(a[j], first[j]) { assert (a + b)[j] == a[j]; }
    }
    assert AreAdmitted(b, second) by {
      forall j | 0 <= j < |b| ensures AdmitsPiece(b[j], second[j]) { assert (a + b)[|a| + j] == b[j]; }
    }
    assert Flatten(pieces)[..i] == Flatten(first) && Flatten(pieces)[i..] == Flatten(second);
  }

  lemma JoinPieces(a: seq<Item>, b: seq<Item>, s: string, t: string)
    requires Admits(a, s) && Admits(b, t)
    ensures Admits(a + b, s + t)
  {
    var first :| AreAdmitted(a, first) && Flatten(first) == s;
    var second :| AreAdmitted(b, second) && Flatten(second) == t;
    FlattenConcat(first, second);
    assert AreAdmitted(a + b, first + second);
  }

  lemma AdmitsOne(item: Item, s: string)
    ensures Admits([item], s) <==> AdmitsPiece(item, s)
  {
    if Admits([item], s) {
      var pieces :| AreAdmitted([item], pieces) && Flatten(pieces) == s;
      assert pieces == [pieces[0]] && Flatten(pieces[1..]) == [] && AdmitsPiece([item][0], pieces[0]);
    }
    if AdmitsPiece(item, s) {
      assert Flatten([s][1..]) == [] && Flatten([s]) == s && AreAdmitted([item], [s]);
    }
  }

  // A star admits every name, a question mark every name of one byte.
  lemma WildcardsAdmit(s: string)
    ensures Admits(Parse("*"), s)
    ensures Admits(Parse("?"), s) <==> |s| == 1
  {
    AdmitsOne(Star, s);
    AdmitsOne(Any, s);
    assert "*"[1..] == "" && "?"[1..] == "";
    assert Parse("*") == [Star] && Parse("?") == [Any];
  }

  // The byte is one of those written in the class.
  predicate IsMarked(marks: seq<Mark>, c: char) {
    exists i :: 0 <= i < |marks| && Marks(marks[i], c)
  }

  predicate Marks(m: Mark, c: char) {
    match m
    case Lone(x, _) => x == c
    case Range(lo, hi) => (lo <= c && c <= hi) || (hi <= c && c <= lo)
  }

  // A class admits one byte that is written in it, or, negated, one that is not; left open at the
  // end of the pattern it means the same.
  lemma ClassesAdmit(negate: bool, marks: seq<Mark>, closed: bool, s: string)
    requires Fair([Set(negate, marks, closed)])
    ensures Admits(Parse(Write([Set(negate, marks, closed)])), s) <==>
            |s| == 1 && if negate then !IsMarked(marks, s[0]) else IsMarked(marks, s[0])
  {
    var t := Set(negate, marks, closed);
    ReadTokens([t]);
    assert ItemsOf([t]) == [ItemOf(t)];
    AdmitsOne(ItemOf(t), s);
    if |s| == 1 { MarkedInClass(marks, s[0]); }
  }

  lemma MarkedInClass(marks: seq<Mark>, c: char)
    ensures InClass(ElementsOf(marks), c) <==> IsMarked(marks, c)
  {
    if i :| 0 <= i < |marks| && Marks(marks[i], c) { assert InElement(ElementsOf(marks)[i], c); }
    if i :| 0 <= i < |marks| && InElement(ElementsOf(marks)[i], c) { assert Marks(marks[i], c); }
  }

  // An escaped byte, whatever it is, admits itself; so does a backslash that ends the pattern.
  lemma EscapesAdmit(c: char, s: string)
    ensures Admits(Parse(['\\', c]), s) <==> s == [c]
    ensures Admits(Parse(['\\']), s) <==> s == ['\\']
  {
    AdmitsOne(Literal(c), s);
    AdmitsOne(Literal('\\'), s);
    assert ['\\', c][2..] == [] && ['\\'][1..] == [];
    assert Parse(['\\', c]) == [Literal(c)] && Parse(['\\']) == [Literal('\\')];
  }

  // Parts of a pattern that can be written one after the other mean their items one after the other.
  lemma WritingsConcat(a: seq<Token>, b: seq<Token>, s: string)
    requires Fair(a + b)
    ensures Admits(Parse(Write(a + b)), s) <==>
            exists i :: 0 <= i <= |s| && Admits(ItemsOf(a), s[..i]) && Admits(ItemsOf(b), s[i..])
  {
    ReadTokens(a + b);
    assert ItemsOf(a + b) == ItemsOf(a) + ItemsOf(b);
    AdmitsConcat(ItemsOf(a), ItemsOf(b), s);
  }
}
