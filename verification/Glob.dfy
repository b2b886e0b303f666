// Redis-style glob patterns: what a pattern means, and the matcher.  A char is one byte.
module Glob {
  import opened Wrappers

  datatype Element = Exactly(c: char) | Between(lo: char, hi: char)

  datatype Item = Star | Any | Class(negate: bool, elements: seq<Element>) | Literal(c: char)

  /* Meaning */

  predicate InElement(e: Element, c: char) {
    match e
    case Exactly(x) => c == x
    case Between(lo, hi) => lo <= c <= hi || hi <= c <= lo
  }

  predicate InClass(elements: seq<Element>, c: char) {
    exists i :: 0 <= i < |elements| && InElement(elements[i], c)
  }

  predicate AdmitsPiece(item: Item, piece: string) {
    match item
    case Star => true
    case Any => |piece| == 1
    case Class(negate, elements) => |piece| == 1 && InClass(elements, piece[0]) != negate
    case Literal(c) => piece == [c]
  }

  ghost predicate AreAdmitted(items: seq<Item>, pieces: seq<string>) {
    |pieces| == |items| && forall i :: 0 <= i < |items| ==> AdmitsPiece(items[i], pieces[i])
  }

  // A name is admitted when it can be cut into pieces that the items admit in turn.
  ghost predicate Admits(items: seq<Item>, s: string) {
    exists pieces :: AreAdmitted(items, pieces) && Flatten(pieces) == s
  }

  /* Syntax */

  datatype Bracket = Bracket(elements: seq<Element>, rest: string)

  // The inside of a class, up to its closing bracket or the end of the pattern.
  function ParseElements(p: string): (b: Bracket)
    ensures |b.rest| <= |p|
  {
    if p == [] then Bracket([], [])
    else if p[0] == ']' then Bracket([], p[1..])
    else if p[0] == '\\' && |p| > 1 then
      var b := ParseElements(p[2..]);
      Bracket([Exactly(p[1])] + b.elements, b.rest)
    else if |p| >= 3 && p[1] == '-' && p[2] != ']' then
      var b := ParseElements(p[3..]);
      Bracket([Between(p[0], p[2])] + b.elements, b.rest)
    else
      var b := ParseElements(p[1..]);
      Bracket([Exactly(p[0])] + b.elements, b.rest)
  }

  function Parse(p: string): seq<Item>
    decreases |p|
  {
    if p == [] then []
    else if p[0] == '*' then [Star] + Parse(p[1..])
    else if p[0] == '?' then [Any] + Parse(p[1..])
    else if p[0] == '[' then
      var negate := |p| > 1 && p[1] == '^';
      var b := ParseElements(if negate then p[2..] else p[1..]);
      [Class(negate, b.elements)] + Parse(b.rest)
    else if p[0] == '\\' && |p| > 1 then [Literal(p[1])] + Parse(p[2..])
    else [Literal(p[0])] + Parse(p[1..])
  }

  // A pattern for given items: literals and lone class members are escaped.
  function Print(items: seq<Item>): string {
    if items == [] then [] else PrintItem(items[0]) + Print(items[1..])
  }

  function PrintItem(item: Item): string {
    match item
    case Star => "*"
    case Any => "?"
    case Class(negate, elements) => (if negate then "[^" else "[") + PrintElements(elements) + "]"
    case Literal(c) => ['\\', c]
  }

  function PrintElements(elements: seq<Element>): string {
    if elements == [] then [] else PrintElement(elements[0]) + PrintElements(elements[1..])
  }

  function PrintElement(e: Element): string {
    match e
    case Exactly(c) => ['\\', c]
    case Between(lo, hi) => [lo, '-', hi]
  }

  // A range cannot start with a backslash or a bracket nor end with a bracket, and a class
  // that is not negated cannot open with a range from '^'.
  predicate Printable(item: Item) {
    item.Class? ==>
      (forall i :: 0 <= i < |item.elements| ==> PrintableElement(item.elements[i])) &&
      (item.negate || item.elements == [] || !item.elements[0].Between? || item.elements[0].lo != '^')
  }

  predicate PrintableElement(e: Element) {
    e.Between? ==> e.lo != '\\' && e.lo != ']' && e.hi != ']'
  }

  lemma {:induction false} ParsePrintedElements(elements: seq<Element>, rest: string)
    requires forall i :: 0 <= i < |elements| ==> PrintableElement(elements[i])
    ensures ParseElements(PrintElements(elements) + "]" + rest) == Bracket(elements, rest)
  {
    var p := PrintElements(elements) + "]" + rest;
    if elements != [] {
      var tail := PrintElements(elements[1..]) + "]" + rest;
      ParsePrintedElements(elements[1..], rest);
      assert PrintableElement(elements[0]);
      assert p == PrintElement(elements[0]) + tail;
      assert p[|PrintElement(elements[0])|..] == tail;
      assert elements == [elements[0]] + elements[1..];
    } else {
      assert p == "]" + rest;
    }
  }

  // A class that is negated, and one that is not.
  lemma ParseNegated(inner: string, b: Bracket)
    requires ParseElements(inner) == b
    ensures Parse("[^" + inner) == [Class(true, b.elements)] + Parse(b.rest)
  {
    assert ("[^" + inner)[2..] == inner;
  }

  lemma ParsePlain(inner: string, b: Bracket)
    requires ParseElements(inner) == b && inner != [] && inner[0] != '^'
    ensures Parse("[" + inner) == [Class(false, b.elements)] + Parse(b.rest)
  {
    assert ("[" + inner)[1..] == inner;
  }

  lemma ParsePrintedClass(negate: bool, elements: seq<Element>, rest: string)
    requires Printable(Class(negate, elements))
    ensures Parse(PrintItem(Class(negate, elements)) + rest) == [Class(negate, elements)] + Parse(rest)
  {
    var inner := PrintElements(elements) + "]" + rest;
    ParsePrintedElements(elements, rest);
    if negate {
      assert PrintItem(Class(negate, elements)) + rest == "[^" + inner;
      ParseNegated(inner, Bracket(elements, rest));
    } else {
      assert PrintItem(Class(negate, elements)) + rest == "[" + inner;
      PrintedStart(elements, rest);
      ParsePlain(inner, Bracket(elements, rest));
    }
  }

  lemma PrintedStart(elements: seq<Element>, rest: string)
    requires Printable(Class(false, elements))
    ensures var inner := PrintElements(elements) + "]" + rest; inner != [] && inner[0] != '^'
  {
  }

  lemma ParsePrintedItem(item: Item, rest: string)
    requires Printable(item)
    ensures Parse(PrintItem(item) + rest) == [item] + Parse(rest)
  {
    if item.Class? {
      ParsePrintedClass(item.negate, item.elements, rest);
    } else {
      var p := PrintItem(item) + rest;
      assert p[|PrintItem(item)|..] == rest;
    }
  }

  // Every list of printable items is what its printed form parses to.
  lemma {:induction false} ParseInvertsPrint(items: seq<Item>)
    requires forall i :: 0 <= i < |items| ==> Printable(items[i])
    ensures Parse(Print(items)) == items
  {
    if items != [] {
      assert Printable(items[0]);
      ParsePrintedItem(items[0], Print(items[1..]));
      ParseInvertsPrint(items[1..]);
    }
  }

  /* The relation, one item at a time */

  predicate Matches(items: seq<Item>, s: string)
    decreases |items|, |s|
  {
    if items == [] then s == []
    else if items[0].Star? then Matches(items[1..], s) || (s != [] && Matches(items, s[1..]))
    else s != [] && AdmitsPiece(items[0], s[..1]) && Matches(items[1..], s[1..])
  }

  lemma {:induction false} StarSkips(items: seq<Item>, s: string)
    requires items != [] && items[0].Star?
    ensures Matches(items, s) <==> exists i :: 0 <= i <= |s| && Matches(items[1..], s[i..])
    decreases |s|
  {
    assert s[0..] == s;
    if s != [] {
      StarSkips(items, s[1..]);
      assert forall i :: 0 <= i < |s| ==> s[1..][i..] == s[i + 1..];
      if i :| 0 <= i <= |s| && Matches(items[1..], s[i..]) && i > 0 {
        assert s[1..][i - 1..] == s[i..];
      }
    }
  }

  lemma {:induction false} PiecesFromMatch(items: seq<Item>, s: string) returns (pieces: seq<string>)
    requires Matches(items, s)
    ensures AreAdmitted(items, pieces) && Flatten(pieces) == s
    decreases |items|
  {
    if items == [] {
      pieces := [];
    } else {
      var n := 1;
      if items[0].Star? {
        StarSkips(items, s);
        n :| 0 <= n <= |s| && Matches(items[1..], s[n..]);
      }
      var rest := PiecesFromMatch(items[1..], s[n..]);
      pieces := [s[..n]] + rest;
      assert s == s[..n] + s[n..];
    }
  }

  lemma {:induction false} MatchFromPieces(items: seq<Item>, s: string, pieces: seq<string>)
    requires AreAdmitted(items, pieces) && Flatten(pieces) == s
    ensures Matches(items, s)
    decreases |items|
  {
    if items != [] {
      var n, rest := |pieces[0]|, Flatten(pieces[1..]);
      assert AdmitsPiece(items[0], pieces[0]);
      assert s[..n] == pieces[0] && s[n..] == rest;
      MatchFromPieces(items[1..], rest, pieces[1..]);
      if items[0].Star? { StarSkips(items, s); }
    }
  }

  lemma MatchesIsAdmits(items: seq<Item>, s: string)
    ensures Matches(items, s) <==> Admits(items, s)
  {
    if Matches(items, s) {
      var pieces := PiecesFromMatch(items, s);
    }
    if Admits(items, s) {
      var pieces :| AreAdmitted(items, pieces) && Flatten(pieces) == s;
      MatchFromPieces(items, s, pieces);
    }
  }

  // A name with every byte escaped is a pattern for that name and no other.
  function Quote(name: string): string {
    Print(seq(|name|, i requires 0 <= i < |name| => Literal(name[i])))
  }

  lemma {:induction false} LiteralsMatchThemselves(items: seq<Item>, s: string)
    requires forall i :: 0 <= i < |items| ==> items[i].Literal?
    ensures Matches(items, s) <==> |s| == |items| && forall i :: 0 <= i < |s| ==> s[i] == items[i].c
    decreases |items|
  {
    if items != [] && s != [] {
      LiteralsMatchThemselves(items[1..], s[1..]);
      if Matches(items, s) {
        forall i | 0 < i < |s| ensures s[i] == items[i].c {
          assert s[1..][i - 1] == items[1..][i - 1].c;
        }
      }
    }
  }

  lemma QuotedMatchesOnlyItself(name: string, s: string)
    ensures Admits(Parse(Quote(name)), s) <==> s == name
  {
    var items := seq(|name|, i requires 0 <= i < |name| => Literal(name[i]));
    ParseInvertsPrint(items);
    LiteralsMatchThemselves(items, s);
    MatchesIsAdmits(items, s);
  }

  /* The matcher */

  // Consecutive stars count as one.
  lemma StarsCollapse(items: seq<Item>, s: string)
    requires |items| >= 2 && items[0].Star? && items[1].Star?
    ensures Matches(items, s) <==> Matches(items[1..], s)
  {
    StarSkips(items, s);
    StarSkips(items[1..], s);
    assert s[0..] == s;
    assert forall i, j :: 0 <= i <= |s| && 0 <= j <= |s[i..]| ==> s[i..][j..] == s[i + j..];
    if i :| 0 <= i <= |s| && Matches(items[1..], s[i..]) {
      StarSkips(items[1..], s[i..]);
    }
  }

  method GlobMatch(pattern: string, name: string) returns (matched: bool)
    ensures matched <==> Admits(Parse(pattern), name)
  {
    matched := GlobMatchBytes(pattern, name);
    MatchesIsAdmits(Parse(pattern), name);
  }

  method GlobMatchBytes(pattern: string, name: string) returns (matched: bool)
    ensures matched <==> Matches(Parse(pattern), name)
    decreases |pattern|, 1
  {
    var p, s := pattern, name;
    while |p| > 0
      invariant |p| <= |pattern| && (Matches(Parse(p), s) <==> Matches(Parse(pattern), name))
      decreases |p|
    {
      match p[0]
      case '*' =>
        matched := MatchStar(p, s);
        return;
      case '?' =>
        if |s| == 0 { return false; }
        s, p := s[1..], p[1..];
      case '[' =>
        if |s| == 0 { return false; }
        var negate, inClass, rest := MatchClass(p[1..], s[0]);
        if inClass == negate { return false; }
        s, p := s[1..], rest;
      case '\\' =>
        if |p| > 1 { p := p[1..]; }
        if |s| == 0 || p[0] != s[0] { return false; }
        s, p := s[1..], p[1..];
      case _ =>
        if |s| == 0 || p[0] != s[0] { return false; }
        s, p := s[1..], p[1..];
    }
    matched := |s| == 0;
  }

  lemma ParseStar(p: string)
    requires p != [] && p[0] == '*'
    ensures Parse(p) != [] && Parse(p)[0].Star? && Parse(p)[1..] == Parse(p[1..])
  {
  }

  // The star: collapse a run of them, then try the rest of the pattern at every suffix.
  method MatchStar(pattern: string, s: string) returns (matched: bool)
    requires pattern != [] && pattern[0] == '*'
    ensures matched <==> Matches(Parse(pattern), s)
    decreases |pattern|, 0
  {
    var p := pattern;
    while |p| > 1 && p[1] == '*'
      invariant 0 < |p| <= |pattern| && p[0] == '*'
      invariant Matches(Parse(p), s) <==> Matches(Parse(pattern), s)
    {
      ParseStar(p);
      ParseStar(p[1..]);
      StarsCollapse(Parse(p), s);
      p := p[1..];
    }
    ParseStar(p);
    StarSkips(Parse(p), s);
    if |p| == 1 {
      assert s[|s|..] == [];
      return true;
    }
    matched := MatchSomeSuffix(p[1..], s);
  }

  method MatchSomeSuffix(p: string, s: string) returns (matched: bool)
    ensures matched <==> exists i :: 0 <= i <= |s| && Matches(Parse(p), s[i..])
    decreases |p|, 2
  {
    var i := 0;
    while i <= |s|
      invariant 0 <= i <= |s| + 1 && forall j :: 0 <= j < i ==> !Matches(Parse(p), s[j..])
    {
      matched := GlobMatchBytes(p, s[i..]);
      if matched { return; }
      i := i + 1;
    }
    return false;
  }

  lemma InClassFirst(e: Element, elements: seq<Element>, c: char)
    ensures InClass([e] + elements, c) <==> InElement(e, c) || InClass(elements, c)
  {
    var all := [e] + elements;
    if InElement(e, c) { assert InElement(all[0], c); }
    if i :| 0 <= i < |elements| && InElement(elements[i], c) { assert InElement(all[i + 1], c); }
  }

  // The class after its opening bracket, against one byte.
  method MatchClass(pattern: string, c: char) returns (negate: bool, matched: bool, rest: string)
    ensures negate <==> |pattern| > 0 && pattern[0] == '^'
    ensures var b := ParseElements(if negate then pattern[1..] else pattern);
            rest == b.rest && (matched <==> InClass(b.elements, c))
  {
    var p := pattern;
    negate := false;
    if |p| > 0 && p[0] == '^' {
      negate := true;
      p := p[1..];
    }
    matched := false;
    ghost var b := ParseElements(p);
    while |p| > 0 && p[0] != ']'
      invariant matched || InClass(ParseElements(p).elements, c) <==> InClass(b.elements, c)
      invariant ParseElements(p).rest == b.rest
      decreases |p|
    {
      if p[0] == '\\' && |p| > 1 {
        InClassFirst(Exactly(p[1]), ParseElements(p[2..]).elements, c);
        p := p[1..];
        if p[0] == c { matched := true; }
        p := p[1..];
      } else if |p| >= 3 && p[1] == '-' && p[2] != ']' {
        InClassFirst(Between(p[0], p[2]), ParseElements(p[3..]).elements, c);
        var lo, hi := p[0], p[2];
        if lo > hi { lo, hi := hi, lo; }
        if c >= lo && c <= hi { matched := true; }
        p := p[3..];
      } else {
        InClassFirst(Exactly(p[0]), ParseElements(p[1..]).elements, c);
        if p[0] == c { matched := true; }
        p := p[1..];
      }
    }
    rest := if |p| > 0 then p[1..] else p;
  }
}
