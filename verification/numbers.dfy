/** Numeric comparison of number strings (keyenc.go): compareNumbers is the sign of the exact
    difference. */
module Numbers {
  import opened Wrappers
  import opened Bytes
  import opened Powers
  import opened Decimal

  /** padRight(d, other), for an other of length n. */
  function Padded(d: Digits, n: nat): (r: Digits)
    ensures |r| == if |d| < n then n else |d|
  {
    AllDigitsConcat(d, Zeros(if |d| < n then n - |d| else 0));
    d + Zeros(if |d| < n then n - |d| else 0)
  }

  method PadRight(d: Digits, other: string) returns (r: string)
    ensures r == Padded(d, |other|)
  {
    r := d;
    while |r| < |other|
      invariant |d| <= |r| && (|r| <= |other| || r == d)
      invariant r == d + Zeros(|r| - |d|)
    {
      r := r + "0";
      assert Zeros(|r| - |d|) == Zeros(|r| - 1 - |d|) + "0";
    }
  }

  function DigitBytes(d: Digits): (b: bytes)
    ensures |b| == |d|
  {
    seq(|d|, i requires 0 <= i < |d| => d[i] as int)
  }

  /** strings.Compare of the two significands, the shorter one padded. */
  function CompareSignificands(a: Digits, b: Digits): int {
    Compare(DigitBytes(Padded(a, |b|)), DigitBytes(Padded(b, |a|)))
  }

  /** The part of compareNumbers after parsing. */
  function CompareDec(a: Dec, b: Dec): int
    requires a.Canonical() && b.Canonical()
  {
    if a.sign != b.sign then if a.sign < b.sign then -1 else 1
    else if a.sign == 0 then 0
    else
      var cmp := if a.exp != b.exp then (if a.exp < b.exp then -1 else 1)
                 else CompareSignificands(a.digits, b.digits);
      cmp * a.sign
  }

  function CompareNumbers(a: string, b: string): Result<int> {
    if DecOf(a).None? || DecOf(b).None? then Err
    else Ok(CompareDec(DecOf(a).value, DecOf(b).value))
  }

  predicate NumbersEqual(a: string, b: string) {
    CompareNumbers(a, b) == Ok(0)
  }

  // ---- the meaning of the comparison ----

  ghost function SignOf(x: real): int {
    if x < 0.0 then -1 else if x > 0.0 then 1 else 0
  }

  /** The rational number a number string denotes, read off the text. */
  ghost function NumberValue(s: string): real
    requires PartsOf(s).Some?
  {
    Denotation(PartsOf(s).value)
  }

  lemma {:induction false} SignificandOrder(a: Digits, b: Digits)
    requires |a| == |b|
    ensures Compare(DigitBytes(a), DigitBytes(b)) == SignOf(Fraction(a) - Fraction(b))
  {
    if a != "" {
      SignificandOrder(a[1..], b[1..]);
      FractionBounds(a[1..]);
      FractionBounds(b[1..]);
      assert DigitBytes(a)[1..] == DigitBytes(a[1..]);
      assert DigitBytes(b)[1..] == DigitBytes(b[1..]);
    }
  }

  lemma PaddedSignificandOrder(a: Digits, b: Digits)
    ensures CompareSignificands(a, b) == SignOf(Fraction(a) - Fraction(b))
  {
    hide Fraction;
    FractionPadded(a, |Padded(a, |b|)| - |a|);
    FractionPadded(b, |Padded(b, |a|)| - |b|);
    SignificandOrder(Padded(a, |b|), Padded(b, |a|));
  }

  lemma MagnitudePositive(a: Dec)
    requires a.Canonical() && a.sign != 0
    ensures Magnitude(a.digits, a.exp) > 0.0
  {
    FractionBounds(a.digits);
    ShiftMonotone(0.0, Fraction(a.digits), a.exp);
    ShiftZero(a.exp);
  }

  /** A larger exponent wins, whatever the digits. */
  lemma ExponentOrder(a: Dec, b: Dec)
    requires a.Canonical() && b.Canonical() && a.sign != 0 && b.sign != 0
    requires a.exp < b.exp
    ensures Magnitude(a.digits, a.exp) < Magnitude(b.digits, b.exp)
  {
    FractionBounds(a.digits);
    FractionBounds(b.digits);
    ShiftMonotone(Fraction(a.digits), 1.0, a.exp);
    ShiftGrows(1.0, a.exp, b.exp - 1);
    ShiftLinear(0.1, 0.0, b.exp - 1);
    ShiftStep(0.1, b.exp - 1);
    ShiftMonotone(Fraction(b.digits), 0.1, b.exp);
  }

  lemma MagnitudeOrder(a: Dec, b: Dec)
    requires a.Canonical() && b.Canonical() && a.sign != 0 && b.sign != 0
    ensures (if a.exp != b.exp then (if a.exp < b.exp then -1 else 1) else CompareSignificands(a.digits, b.digits))
         == SignOf(Magnitude(a.digits, a.exp) - Magnitude(b.digits, b.exp))
  {
    if a.exp < b.exp {
      ExponentOrder(a, b);
    } else if b.exp < a.exp {
      ExponentOrder(b, a);
    } else {
      PaddedSignificandOrder(a.digits, b.digits);
      ShiftMonotone(Fraction(a.digits), Fraction(b.digits), a.exp);
      ShiftMonotone(Fraction(b.digits), Fraction(a.digits), a.exp);
    }
  }

  lemma CompareDecIsSign(a: Dec, b: Dec)
    requires a.Canonical() && b.Canonical()
    ensures CompareDec(a, b) == SignOf(Value(a) - Value(b))
  {
    ZeroValue(a);
    ZeroValue(b);
    if a.sign != 0 {
      MagnitudePositive(a);
    }
    if b.sign != 0 {
      MagnitudePositive(b);
    }
    if a.sign == b.sign != 0 {
      MagnitudeOrder(a, b);
    }
  }

  lemma ZeroValue(a: Dec)
    requires a.Canonical()
    ensures a.sign == 0 ==> Value(a) == 0.0
  {
    ShiftZero(a.exp);
  }

  /** compareNumbers fails exactly on unparsable text, and otherwise is the sign of the exact
      difference of the two numbers. */
  lemma CompareNumbersIsSign(a: string, b: string)
    ensures CompareNumbers(a, b).Ok? <==> PartsOf(a).Some? && PartsOf(b).Some?
    ensures CompareNumbers(a, b).Ok? ==>
              CompareNumbers(a, b).value == SignOf(NumberValue(a) - NumberValue(b))
  {
    if PartsOf(a).Some? && PartsOf(b).Some? {
      NormalizeExact(PartsOf(a).value);
      NormalizeExact(PartsOf(b).value);
      CompareDecIsSign(DecOf(a).value, DecOf(b).value);
    }
  }

  /** compareNumbers is a total preorder on the texts that parse. */
  lemma CompareNumbersTotalPreorder(a: string, b: string, c: string)
    requires PartsOf(a).Some? && PartsOf(b).Some? && PartsOf(c).Some?
    ensures CompareNumbers(a, b).Ok? && CompareNumbers(b, a).Ok? && CompareNumbers(b, c).Ok? && CompareNumbers(a, c).Ok?
    ensures CompareNumbers(a, a) == Ok(0)
    ensures CompareNumbers(b, a).value == -CompareNumbers(a, b).value
    ensures CompareNumbers(a, b).value <= 0 && CompareNumbers(b, c).value <= 0 ==> CompareNumbers(a, c).value <= 0
    ensures CompareNumbers(a, b).value <= 0 && CompareNumbers(b, c).value < 0 ==> CompareNumbers(a, c).value < 0
  {
    hide CompareNumbers, PartsOf, NumberValue;
    CompareNumbersIsSign(a, a);
    CompareNumbersIsSign(a, b);
    CompareNumbersIsSign(b, a);
    CompareNumbersIsSign(b, c);
    CompareNumbersIsSign(a, c);
  }

  /** Two significands of one value are the same text: neither ends in a zero. */
  lemma {:induction false} EqualFractions(a: Digits, b: Digits)
    requires Fraction(a) == Fraction(b)
    requires a != "" ==> a[|a| - 1] != '0'
    requires b != "" ==> b[|b| - 1] != '0'
    ensures a == b
  {
    if a != "" {
      FractionBounds(a[1..]);
    }
    if b != "" {
      FractionBounds(b[1..]);
    }
    if a != "" && b != "" {
      assert DigitValue(a[0]) == DigitValue(b[0]);
      EqualFractions(a[1..], b[1..]);
      assert a == [a[0]] + a[1..] && b == [b[0]] + b[1..];
    } else if a != "" {
      NonzeroFraction(a);
    } else if b != "" {
      NonzeroFraction(b);
    }
  }

  lemma {:induction false} NonzeroFraction(d: Digits)
    requires d != "" && d[|d| - 1] != '0'
    ensures Fraction(d) > 0.0
  {
    FractionBounds(d[1..]);
    if d[0] == '0' {
      NonzeroFraction(d[1..]);
    }
  }

  /** The triple is canonical: equal exactly when the numbers are equal. */
  lemma DecCanonical(a: Dec, b: Dec)
    requires a.Canonical() && b.Canonical()
    ensures Value(a) == Value(b) <==> a == b
    ensures CompareDec(a, b) == 0 <==> a == b
  {
    CompareDecIsSign(a, b);
    if CompareDec(a, b) == 0 && a.sign != 0 {
      if a.exp == b.exp {
        PaddedSignificandOrder(a.digits, b.digits);
        EqualFractions(a.digits, b.digits);
      }
    }
  }

  lemma TripleIffSameNumber(a: string, b: string)
    requires PartsOf(a).Some? && PartsOf(b).Some?
    ensures DecOf(a) == DecOf(b) <==> NumberValue(a) == NumberValue(b)
  {
    NormalizeExact(PartsOf(a).value);
    NormalizeExact(PartsOf(b).value);
    DecCanonical(DecOf(a).value, DecOf(b).value);
  }

  /** numbersEqual holds exactly when both parse, to the same triple. */
  lemma NumbersEqualIffSameTriple(a: string, b: string)
    ensures NumbersEqual(a, b) <==> DecOf(a).Some? && DecOf(a) == DecOf(b)
  {
    if DecOf(a).Some? && DecOf(b).Some? {
      DecCanonical(DecOf(a).value, DecOf(b).value);
    }
  }
}
