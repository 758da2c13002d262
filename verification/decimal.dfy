/** DynamoDB number strings: normalisation without loss of precision, and exact comparison
    (keyenc.go). A Go string is a Dafny string whose characters are its bytes. */
module Decimal {
  import opened Wrappers
  import opened Powers

  // ---- digit strings ----

  predicate IsDigit(c: char) {
    '0' <= c <= '9'
  }

  predicate AllDigits(s: string) {
    forall i :: 0 <= i < |s| ==> IsDigit(s[i])
  }

  type Digits = s: string | AllDigits(s) witness ""

  function DigitValue(c: char): (d: nat)
    requires IsDigit(c)
    ensures d < 10
  {
    c as int - '0' as int
  }

  /** The natural number a digit string writes. */
  function NatOf(s: Digits): nat {
    if s == "" then 0 else 10 * NatOf(s[..|s| - 1]) + DigitValue(s[|s| - 1])
  }

  lemma {:induction false} NatOfConcat(a: Digits, b: Digits)
    ensures AllDigits(a + b)
    ensures NatOf(a + b) as real == Shift(NatOf(a) as real, |b|) + NatOf(b) as real
    decreases |b|
  {
    if b == "" {
      assert a + b == a;
    } else {
      NatOfConcat(a, b[..|b| - 1]);
      assert (a + b)[..|a + b| - 1] == a + b[..|b| - 1];
    }
  }

  lemma NatOfDigit(c: char)
    requires IsDigit(c)
    ensures NatOf([c]) == DigitValue(c)
  {
    assert [c][..0] == "";
  }

  /** The first digit of a number is its most significant one. */
  lemma NatOfHead(s: Digits)
    requires s != ""
    ensures NatOf(s) as real == Shift(DigitValue(s[0]) as real, |s| - 1) + NatOf(s[1..]) as real
  {
    assert s == [s[0]] + s[1..];
    NatOfDigit(s[0]);
    NatOfConcat([s[0]], s[1..]);
  }

  function Zeros(n: nat): (s: string)
    ensures |s| == n && AllDigits(s)
  {
    seq(n, i => '0')
  }

  lemma {:induction false} NatOfZeros(n: nat)
    ensures NatOf(Zeros(n)) == 0
  {
    if n > 0 {
      NatOfZeros(n - 1);
      assert Zeros(n)[..n - 1] == Zeros(n - 1);
    }
  }

  // ---- library helpers of the Go source ----

  lemma ZerosAhead(s: string, t: string)
    requires s != "" && s[0] == '0' && |t| < |s| && s[1..] == Zeros(|s| - 1 - |t|) + t
    ensures s == Zeros(|s| - |t|) + t
  {
    assert Zeros(|s| - |t|) == ['0'] + Zeros(|s| - 1 - |t|);
    assert s == ['0'] + s[1..];
  }

  /** strings.TrimLeft(s, "0"). */
  function TrimLeftZeros(s: Digits): (t: Digits)
    ensures |t| <= |s| && (t != "" ==> t[0] != '0')
    ensures s == Zeros(|s| - |t|) + t
  {
    if s != "" && s[0] == '0' then
      var t := TrimLeftZeros(s[1..]);
      ZerosAhead(s, t);
      t
    else s
  }

  /** strings.TrimRight(s, "0"). */
  function TrimRightZeros(s: Digits): (t: Digits)
    ensures |t| <= |s| && (t != "" ==> t[|t| - 1] != '0' && t[0] == s[0])
    ensures s == t + Zeros(|s| - |t|)
  {
    if s != "" && s[|s| - 1] == '0' then
      var t := TrimRightZeros(s[..|s| - 1]);
      assert s == s[..|s| - 1] + [s[|s| - 1]];
      assert Zeros(|s| - |t|) == Zeros(|s| - 1 - |t|) + ['0'];
      t
    else s
  }

  /** Index of the first character of s that is in cs, or |s| if there is none. */
  function IndexAny(s: string, cs: set<char>): (i: nat)
    ensures i <= |s| && (i < |s| ==> s[i] in cs)
    ensures forall j :: 0 <= j < i ==> s[j] !in cs
  {
    if s == "" || s[0] in cs then 0 else 1 + IndexAny(s[1..], cs)
  }

  function LeadingDigits(s: string): (t: Digits)
    ensures t <= s
  {
    if s != "" && IsDigit(s[0]) then [s[0]] + LeadingDigits(s[1..]) else ""
  }

  function SkipBlanks(s: string): string {
    if s != "" && s[0] in {' ', '\t', '\r', '\U{0B}', '\U{0C}'} then SkipBlanks(s[1..]) else s
  }

  /** fmt.Sscanf(s, "%d", &n): blanks, an optional sign, digits; whatever follows is ignored. */
  function ScanInt(s: string): Option<int> {
    var t := SkipBlanks(s);
    var signed := t != "" && t[0] in {'+', '-'};
    var digits := LeadingDigits(if signed then t[1..] else t);
    if digits == "" then None
    else if signed && t[0] == '-' then Some(-(NatOf(digits) as int))
    else Some(NatOf(digits))
  }

  // ---- decimal text of a natural number: "%d" and big.Int.String ----

  function DecimalText(n: nat): (s: Digits)
    ensures s != "" && NatOf(s) == n
    ensures n > 0 ==> s[0] != '0'
    ensures DigitValue(s[|s| - 1]) == n % 10
  {
    var c := ('0' as int + n % 10) as char;
    NatOfDigit(c);
    if n < 10 then [c]
    else
      var s := DecimalText(n / 10) + [c];
      assert s[..|s| - 1] == DecimalText(n / 10);
      s
  }

  // ---- parseDecimal ----

  /** A number string taken apart: sign * (intPart . fracPart) * 10^exp. */
  datatype Parts = Parts(negative: bool, intPart: Digits, fracPart: Digits, exp: int)

  const MAX_EXPONENT := 100000

  function ExponentOf(expText: string): Option<int> {
    if expText == "" then Some(0)
    else
      var n :- ScanInt(expText);
      if n > MAX_EXPONENT || n < -MAX_EXPONENT then None else Some(n)
  }

  predicate Signed(s: string) {
    s != "" && s[0] in {'+', '-'}
  }

  function Unsigned(s: string): string {
    if Signed(s) then s[1..] else s
  }

  function Mantissa(s: string): string {
    Unsigned(s)[..IndexAny(Unsigned(s), {'e', 'E'})]
  }

  /** The text after the first e or E, empty if there is none. */
  function ExponentText(s: string): string {
    var rest := Unsigned(s);
    var j := IndexAny(rest, {'e', 'E'});
    if j < |rest| then rest[j + 1..] else ""
  }

  function IntPart(s: string): string {
    Mantissa(s)[..IndexAny(Mantissa(s), {'.'})]
  }

  function FracPart(s: string): string {
    var mant := Mantissa(s);
    var j := IndexAny(mant, {'.'});
    if j < |mant| then mant[j + 1..] else ""
  }

  /** Everything parseDecimal checks, before normalisation. */
  function PartsOf(s: string): Option<Parts> {
    if s == "" then None
    else
      var exp :- ExponentOf(ExponentText(s));
      if IntPart(s) == "" && FracPart(s) == "" then None
      else if !AllDigits(IntPart(s)) || !AllDigits(FracPart(s)) then None
      else Some(Parts(s[0] == '-', IntPart(s), FracPart(s), exp))
  }

  /** sign * 0.digits * 10^exp */
  datatype Dec = Dec(sign: int, digits: string, exp: int) {
    /** Zero has one representation; any other significand has no outer zeros. */
    predicate Canonical() {
      AllDigits(digits) &&
      if sign == 0 then digits == "" && exp == 0
      else (sign == 1 || sign == -1) && digits != "" && digits[0] != '0' && digits[|digits| - 1] != '0'
    }
  }

  function Raw(p: Parts): (raw: Digits)
    ensures |raw| == |p.intPart| + |p.fracPart|
  {
    AllDigitsConcat(p.intPart, p.fracPart);
    p.intPart + p.fracPart
  }

  function Significand(p: Parts): (d: Digits)
    ensures d != "" ==> d[0] != '0' && d[|d| - 1] != '0'
  {
    TrimRightZeros(TrimLeftZeros(Raw(p)))
  }

  function Normalize(p: Parts): (d: Dec)
    ensures d.Canonical()
  {
    if Significand(p) == "" then Dec(0, "", 0)
    else Dec(if p.negative then -1 else 1, Significand(p), p.exp - |p.fracPart| + |TrimLeftZeros(Raw(p))|)
  }

  /** What parseDecimal returns; None stands for its errors. */
  function DecOf(s: string): (d: Option<Dec>)
    ensures d.Some? ==> d.value.Canonical()
  {
    var p :- PartsOf(s);
    Some(Normalize(p))
  }

  /** The loop of parseDecimal that looks at every character of the mantissa. */
  method CheckDigits(raw: string) returns (ok: bool)
    ensures ok <==> AllDigits(raw)
  {
    var k := 0;
    while k < |raw|
      invariant 0 <= k <= |raw|
      invariant AllDigits(raw[..k])
    {
      if raw[k] < '0' || raw[k] > '9' {
        return false;
      }
      k := k + 1;
    }
    return true;
  }

  lemma AllDigitsConcat(a: string, b: string)
    ensures AllDigits(a + b) <==> AllDigits(a) && AllDigits(b)
  {
    if AllDigits(a + b) {
      assert forall i :: 0 <= i < |a| ==> a[i] == (a + b)[i];
      assert forall i :: 0 <= i < |b| ==> b[i] == (a + b)[|a| + i];
    }
  }

  /** The first half of parseDecimal: sign, exponent and the two parts of the mantissa. */
  method SplitNumber(s: string) returns (p: Option<Parts>)
    ensures p == PartsOf(s)
  {
    hide IndexAny, ScanInt;
    if s == "" {
      return None;
    }
    var i := if s[0] == '+' || s[0] == '-' then 1 else 0;
    var rest := s[i..];
    var mant, expStr := rest, "";
    var j := IndexAny(rest, {'e', 'E'});
    if j < |rest| {
      mant, expStr := rest[..j], rest[j + 1..];
    }
    assert mant == Mantissa(s) && expStr == ExponentText(s);
    var e := 0;
    if expStr != "" {
      var n := ScanInt(expStr);
      if n.None? || n.value > MAX_EXPONENT || n.value < -MAX_EXPONENT {
        return None;
      }
      e := n.value;
    }
    var intPart, fracPart := mant, "";
    j := IndexAny(mant, {'.'});
    if j < |mant| {
      intPart, fracPart := mant[..j], mant[j + 1..];
    }
    assert intPart == IntPart(s) && fracPart == FracPart(s) && ExponentOf(expStr) == Some(e);
    if intPart == "" && fracPart == "" {
      return None;
    }
    var ok := CheckDigits(intPart + fracPart);
    AllDigitsConcat(intPart, fracPart);
    if !ok {
      return None;
    }
    return Some(Parts(s[0] == '-', intPart, fracPart, e));
  }

  /** parseDecimal. */
  method ParseDecimal(s: string) returns (sign: int, digits: string, exp: int, ok: bool)
    ensures ok <==> DecOf(s).Some?
    ensures DecOf(s) == if ok then Some(Dec(sign, digits, exp)) else None
  {
    hide PartsOf, TrimLeftZeros, TrimRightZeros;
    sign, digits, exp, ok := 0, "", 0, false;
    var p := SplitNumber(s);
    if p.None? {
      return;
    }
    var Parts(negative, intPart, fracPart, e) := p.value;
    var raw := Raw(p.value);
    var scale := |fracPart|;
    var trimmed := TrimLeftZeros(raw);
    var lz := |raw| - |trimmed|;
    trimmed := TrimRightZeros(trimmed);
    ok := true;
    if trimmed == "" {
      return;
    }
    sign, digits, exp := if negative then -1 else 1, trimmed, e - scale + |raw| - lz;
  }

  // ---- what a number string denotes ----

  /** 0.f as an exact fraction, digit by digit. */
  ghost function Fraction(f: Digits): real {
    if f == "" then 0.0 else (DigitValue(f[0]) as real + Fraction(f[1..])) / 10.0
  }

  /** The rational number written by a sign, a decimal mantissa and an exponent. */
  ghost function Denotation(p: Parts): real {
    var m := Shift(NatOf(p.intPart) as real + Fraction(p.fracPart), p.exp);
    if p.negative then -m else m
  }

  /** sign * 0.digits * 10^exp. */
  ghost function Magnitude(digits: Digits, exp: int): real {
    Shift(Fraction(digits), exp)
  }

  ghost function Value(d: Dec): real
    requires d.Canonical()
  {
    var m := Magnitude(d.digits, d.exp);
    if d.sign < 0 then -m else m
  }

  lemma {:induction false} FractionIsNat(f: Digits)
    ensures Fraction(f) == Shift(NatOf(f) as real, -|f|)
    ensures Shift(Fraction(f), |f|) == NatOf(f) as real
  {
    var n := NatOf(f) as real;
    if f != "" {
      var d, r, k := DigitValue(f[0]) as real, NatOf(f[1..]) as real, |f| - 1;
      FractionIsNat(f[1..]);
      NatOfHead(f);
      ShiftLinear(Shift(d, k), r, -|f|);
      ShiftAdd(d, k, -|f|);
      ShiftStep(r, -|f|);
      assert Shift(d, -1) == d / 10.0;
    }
    ShiftAdd(n, -|f|, |f|);
  }

  /** Trailing zeros of a fraction do not count. */
  lemma FractionPadded(d: Digits, n: nat)
    ensures AllDigits(d + Zeros(n)) && Fraction(d + Zeros(n)) == Fraction(d)
  {
    NatOfConcat(d, Zeros(n));
    NatOfZeros(n);
    FractionIsNat(d);
    FractionIsNat(d + Zeros(n));
    ShiftAdd(NatOf(d) as real, n, -|d| - n);
  }

  lemma {:induction false} FractionBounds(d: Digits)
    ensures 0.0 <= Fraction(d) < 1.0
    ensures d != "" && d[0] != '0' ==> Fraction(d) >= 0.1
  {
    if d != "" {
      FractionBounds(d[1..]);
    }
  }

  /** A mantissa is the number its digits write without the point, shifted back. */
  lemma MantissaExact(intPart: Digits, fracPart: Digits)
    ensures AllDigits(intPart + fracPart)
    ensures NatOf(intPart) as real + Fraction(fracPart) == Shift(NatOf(intPart + fracPart) as real, -|fracPart|)
  {
    hide Shift, NatOf, Fraction;
    NatOfConcat(intPart, fracPart);
    FractionIsNat(fracPart);
    var i, f, n := NatOf(intPart) as real, NatOf(fracPart) as real, |fracPart|;
    ShiftLinear(Shift(i, n), f, -n);
    ShiftBack(i, n);
  }

  /** Trimming zeros on the left keeps the number, on the right it keeps the fraction. */
  lemma TrimmedExact(raw: Digits)
    ensures var left := TrimLeftZeros(raw);
            NatOf(raw) as real == Shift(Fraction(TrimRightZeros(left)), |left|)
  {
    hide Shift, NatOf, Fraction, TrimLeftZeros, TrimRightZeros;
    var left := TrimLeftZeros(raw);
    var digits := TrimRightZeros(left);
    NatOfConcat(Zeros(|raw| - |left|), left);
    NatOfZeros(|raw| - |left|);
    ShiftZero(|left|);
    FractionPadded(digits, |left| - |digits|);
    FractionIsNat(left);
  }

  lemma EmptyFraction()
    ensures Fraction("") == 0.0
  {
  }

  /** Normalisation is exact: the canonical triple has the value of the text. */
  lemma NormalizeExact(p: Parts)
    ensures Value(Normalize(p)) == Denotation(p)
  {
    hide Shift, NatOf, Fraction, TrimLeftZeros, TrimRightZeros;
    var mantissa := NatOf(p.intPart) as real + Fraction(p.fracPart);
    var k, n := |TrimLeftZeros(Raw(p))|, |p.fracPart|;
    var f := Fraction(Significand(p));
    assert mantissa == Shift(f, k - n) by {
      MantissaExact(p.intPart, p.fracPart);
      TrimmedExact(Raw(p));
      ShiftAdd(f, k, -n);
    }
    ShiftAdd(f, k - n, p.exp);
    if Significand(p) == "" {
      EmptyFraction();
      ShiftZero(0);
      ShiftZero(k - n + p.exp);
    }
  }
}
