// Decimal digits, as bytes.
module Digits {
  import opened Wrappers

  const PLUS: byte := 43
  const MINUS: byte := 45
  const ZERO: byte := 48

  predicate IsDigit(b: byte) {
    ZERO <= b <= ZERO + 9
  }

  predicate AllDigits(d: seq<byte>) {
    forall i :: 0 <= i < |d| ==> IsDigit(d[i])
  }

  function Value(d: seq<byte>): nat
    requires AllDigits(d)
  {
    if d == [] then 0 else 10 * Value(d[..|d| - 1]) + (d[|d| - 1] - ZERO)
  }

  function Decimal(n: nat): (d: seq<byte>)
    ensures d != [] && AllDigits(d)
  {
    if n < 10 then [ZERO + n] else Decimal(n / 10) + [ZERO + n % 10]
  }

  lemma {:induction false} ValueOfDecimal(n: nat)
    ensures Value(Decimal(n)) == n && Value(Decimal(n)[..|Decimal(n)| - 1]) == n / 10
  {
    if n < 10 {
      assert Decimal(n)[..0] == [];
    } else {
      ValueOfDecimal(n / 10);
      assert Decimal(n)[..|Decimal(n)| - 1] == Decimal(n / 10);
    }
  }

  function Pow10(k: nat): nat {
    if k == 0 then 1 else 10 * Pow10(k - 1)
  }

  lemma {:induction false} DecimalLength(n: nat, k: nat)
    requires 0 < k && n < Pow10(k)
    ensures |Decimal(n)| <= k
  {
    if n >= 10 {
      assert k > 1;
      DecimalLength(n / 10, k - 1);
    }
  }

  lemma {:induction false} ValueGrows(d: seq<byte>, i: nat)
    requires AllDigits(d) && i <= |d|
    ensures Value(d[..i]) <= Value(d)
  {
    if i == |d| {
      assert d[..i] == d;
    } else {
      assert d[..|d| - 1][..i] == d[..i];
      ValueGrows(d[..|d| - 1], i);
    }
  }

  function Zeros(k: nat): (d: seq<byte>)
    ensures |d| == k && AllDigits(d) && forall i :: 0 <= i < k ==> d[i] == ZERO
  {
    seq(k, i => ZERO)
  }

  // A sign or none, then n with any number of zeros before it.
  function Spelt(sign: seq<byte>, zeros: nat, n: nat): (s: seq<byte>)
    ensures s != []
  {
    sign + (Zeros(zeros) + Decimal(n))
  }

  lemma {:induction false} ZerosAddNothing(k: nat, d: seq<byte>)
    requires AllDigits(d)
    ensures Value(Zeros(k) + d) == Value(d)
    decreases k + |d|
  {
    var s := Zeros(k) + d;
    if d != [] {
      assert s[..|s| - 1] == Zeros(k) + d[..|d| - 1];
      ZerosAddNothing(k, d[..|d| - 1]);
    } else if k > 0 {
      assert s[..|s| - 1] == Zeros(k - 1) + [];
      ZerosAddNothing(k - 1, []);
    }
  }

  // The digits of a number are zeros, then its decimal.
  lemma {:induction false} DigitsSpell(d: seq<byte>) returns (zeros: nat)
    requires AllDigits(d) && d != []
    ensures d == Zeros(zeros) + Decimal(Value(d))
    decreases |d|
  {
    var front, last := d[..|d| - 1], d[|d| - 1];
    assert d == front + [last];
    if front == [] {
      zeros := 0;
    } else {
      zeros := DigitsSpell(front);
      if Value(front) == 0 {
        zeros := zeros + 1;
        assert front == Zeros(zeros);
      }
    }
  }
}
