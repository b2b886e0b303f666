// The integers that counters are stored as: parsing and printing 64-bit decimals.
module Integers {
  import opened Wrappers
  import opened Digits

  const TWO_TO_64 := 0x1_0000_0000_0000_0000

  lemma WrapIsUnique(x: int, r: int64, k: int)
    requires x == r + TWO_TO_64 * k
    ensures Wrap64(x) == r
  {
  }

  lemma WrapDigit(v: int, d: int)
    ensures Wrap64(10 * Wrap64(v) + d) == Wrap64(10 * v + d)
  {
    var k := (v - Wrap64(v)) / TWO_TO_64;
    assert v == Wrap64(v) + TWO_TO_64 * k;
    var x := 10 * v + d;
    var j := (x - Wrap64(x)) / TWO_TO_64;
    assert x == Wrap64(x) + TWO_TO_64 * j;
    WrapIsUnique(10 * Wrap64(v) + d, Wrap64(x), j - 10 * k);
  }

  lemma WrapNegation(v: int)
    ensures Negated(Wrap64(v)) == Wrap64(-v)
  {
    var k := (v - Wrap64(v)) / TWO_TO_64;
    assert v == Wrap64(v) + TWO_TO_64 * k;
    if Wrap64(v) == MIN_INT64 {
      WrapIsUnique(-v, MIN_INT64, 1 - k);
    } else {
      WrapIsUnique(-v, -Wrap64(v), -k);
    }
  }

  // The digits after an optional sign.
  function Unsigned(s: seq<byte>): seq<byte> {
    if s != [] && (s[0] == MINUS || s[0] == PLUS) then s[1..] else s
  }

  // An optional sign and at least one digit, or nothing at all, which is zero.  A number that
  // does not fit wraps around.
  function ParseInteger(s: seq<byte>): Option<int64> {
    if s == [] then Some(0)
    else if Unsigned(s) == [] || !AllDigits(Unsigned(s)) then None
    else Some(Wrap64(Denoted(s)))
  }

  // The number a signed digit string denotes.
  function Denoted(s: seq<byte>): int
    requires AllDigits(Unsigned(s))
  {
    if s != [] && s[0] == MINUS then 0 - Value(Unsigned(s)) else Value(Unsigned(s))
  }

  // The smallest integer prints as a lone sign: its negation is itself, and has no digits.
  function FormatInteger(n: int64): (s: seq<byte>)
    ensures s != []
  {
    if n == MIN_INT64 then [MINUS] else if n < 0 then [MINUS] + Decimal(-n) else Decimal(n)
  }

  // What is printed parses back as it was, except for the smallest integer, which is refused.
  lemma FormatRoundTripIff(n: int64)
    ensures ParseInteger(FormatInteger(n)) == if n == MIN_INT64 then None else Some(n)
  {
    if n < 0 && n != MIN_INT64 {
      ValueOfDecimal(-n);
      assert FormatInteger(n)[1..] == Decimal(-n);
    } else if n >= 0 {
      ValueOfDecimal(n);
      assert Unsigned(Decimal(n)) == Decimal(n);
    } else {
      assert Unsigned([MINUS]) == [];
    }
  }

  predicate IsSign(sign: seq<byte>) {
    sign == [] || sign == [PLUS] || sign == [MINUS]
  }

  function Denotes(sign: seq<byte>, n: nat): int64 {
    Wrap64(if sign == [MINUS] then 0 - n else n)
  }

  lemma SignedParses(sign: seq<byte>, digits: seq<byte>)
    requires IsSign(sign) && digits != [] && AllDigits(digits)
    ensures ParseInteger(sign + digits) == Some(Denotes(sign, Value(digits)))
  {
    if sign == [] {
      assert sign + digits == digits;
    } else {
      assert (sign + digits)[1..] == digits;
    }
  }

  lemma SpellingParses(sign: seq<byte>, zeros: nat, n: nat)
    requires IsSign(sign)
    ensures ParseInteger(Spelt(sign, zeros, n)) == Some(Denotes(sign, n))
  {
    SignedParses(sign, Zeros(zeros) + Decimal(n));
    ZerosAddNothing(zeros, Decimal(n));
    ValueOfDecimal(n);
  }

  lemma ParsedIsSpelling(s: seq<byte>) returns (sign: seq<byte>, zeros: nat, n: nat)
    requires ParseInteger(s).Some? && s != []
    ensures IsSign(sign) && s == Spelt(sign, zeros, n)
  {
    sign, n := if Unsigned(s) == s then [] else [s[0]], Value(Unsigned(s));
    zeros := DigitsSpell(Unsigned(s));
    assert s == sign + Unsigned(s);
  }

  // What is read as a counter: nothing at all, which is zero, or any spelling of a number with
  // a sign of either kind or none; it wraps around however far out it is.
  lemma ParseIntegerIff(s: seq<byte>, r: int64)
    ensures ParseInteger(s) == Some(r) <==>
            (s == [] && r == 0) ||
            exists sign, zeros: nat, n: nat :: IsSign(sign) && s == Spelt(sign, zeros, n) && r == Denotes(sign, n)
  {
    if ParseInteger(s).Some? && s != [] {
      var sign, zeros, n := ParsedIsSpelling(s);
      SpellingParses(sign, zeros, n);
    }
    forall sign, zeros: nat, n: nat | IsSign(sign) && s == Spelt(sign, zeros, n)
      ensures s != [] && ParseInteger(s) == Some(Denotes(sign, n))
    {
      SpellingParses(sign, zeros, n);
    }
  }

  // The overflow test of IncrBy, on the wrapped sum, is exact.
  lemma OverflowTestIsExact(a: int64, b: int64)
    ensures (b > 0 && Wrap64(a + b) < a) || (b < 0 && Wrap64(a + b) > a) <==> !(MIN_INT64 <= a + b <= MAX_INT64)
  {
    if a + b > MAX_INT64 { WrapIsUnique(a + b, a + b - TWO_TO_64, 1); }
    if a + b < MIN_INT64 { WrapIsUnique(a + b, a + b + TWO_TO_64, -1); }
  }

  method ParseIntegerStrict(s: seq<byte>) returns (r: Option<int64>)
    ensures r == ParseInteger(s)
  {
    if |s| == 0 { return Some(0); }
    var negative, i := false, 0;
    if s[0] == MINUS {
      negative, i := true, 1;
      if |s| == 1 { return None; }
    } else if s[0] == PLUS {
      i := 1;
      if |s| == 1 { return None; }
    }
    var result := AccumulateDigits(s[i..]);
    if result.None? { return None; }
    WrapNegation(Value(s[i..]));
    return Some(if negative then Negated(result.value) else result.value);
  }

  method AccumulateDigits(d: seq<byte>) returns (r: Option<int64>)
    ensures r == if AllDigits(d) then Some(Wrap64(Value(d))) else None
  {
    var result: int64 := 0;
    var i := 0;
    while i < |d|
      invariant 0 <= i <= |d| && AllDigits(d[..i]) && result == Wrap64(Value(d[..i]))
    {
      if !IsDigit(d[i]) { return None; }
      assert d[..i + 1][..i] == d[..i];
      WrapDigit(Value(d[..i]), d[i] - ZERO);
      result := Wrap64(result * 10 + (d[i] - ZERO));
      i := i + 1;
    }
    assert d[..i] == d;
    return Some(result);
  }

  method CountDigits(n: int64) returns (digits: nat)
    ensures digits == if n <= 0 then 0 else |Decimal(n)|
  {
    var temp := n;
    digits := 0;
    while temp > 0
      invariant temp >= 0 || temp == n
      invariant digits + (if temp > 0 then |Decimal(temp)| else 0) == if n <= 0 then 0 else |Decimal(n)|
      decreases temp
    {
      digits := digits + 1;
      temp := temp / 10;
    }
  }

  // The digits that are still to be written; none if n is not positive.
  function DigitsLeft(n: int): seq<byte> {
    if n > 0 then Decimal(n) else []
  }

  lemma LastDigit(n: int, after: seq<byte>)
    requires n > 0
    ensures DigitsLeft(n / 10) + ([ZERO + n % 10] + after) == DigitsLeft(n) + after
    ensures |DigitsLeft(n)| == |DigitsLeft(n / 10)| + 1
  {
  }

  method PutBefore(buf: array<byte>, pos: nat, b: byte)
    requires pos < buf.Length
    modifies buf
    ensures buf[pos..] == [b] + old(buf[pos + 1..])
  {
    buf[pos] := b;
    assert buf[pos + 1..] == old(buf[pos + 1..]);
  }

  // Digits are written from the end of the buffer.
  method FormatInt64Fast(value: int64) returns (s: seq<byte>)
    ensures s == FormatInteger(value)
  {
    if value == 0 { return [ZERO]; }
    var negative := value < 0;
    var n := if negative then Negated(value) else value;
    var digits := CountDigits(n);
    var sign := if negative then 1 else 0;
    var result := new byte[digits + sign];
    var pos := result.Length - 1;
    ghost var whole := DigitsLeft(n);
    while n > 0
      invariant pos + 1 == sign + |DigitsLeft(n)| && pos < result.Length == |whole| + sign
      invariant DigitsLeft(n) + result[pos + 1..] == whole
      invariant n > 0 || n == MIN_INT64 || n == 0
      decreases n
    {
      LastDigit(n, result[pos + 1..]);
      PutBefore(result, pos, ZERO + n % 10);
      n := n / 10;
      pos := pos - 1;
    }
    assert result[sign..] == whole;
    if negative { result[0] := MINUS; }
    assert result[..] == result[..sign] + result[sign..];
    return result[..];
  }
}
