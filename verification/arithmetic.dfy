/** Exact addition of number strings (update.go addNumbers, ratDecimalString). */
module Arithmetic {
  import opened Wrappers
  import opened Powers
  import opened Decimal
  import opened Numbers
  import opened Values

  function Pow10(n: nat): (p: nat)
    ensures p >= 1
  {
    if n == 0 then 1 else 10 * Pow10(n - 1)
  }

  /** The rational num / 10^scale. big.Rat keeps lowest terms; what is computed does not depend on the
      terms, see RatDecimalString. */
  datatype Rat = Rat(num: int, scale: nat)

  ghost function RatValue(r: Rat): real {
    Shift(r.num as real, -(r.scale as int))
  }

  // ---- big.Rat.SetString on decimal text ----

  /** The exponent text is empty because there is none, or is a whole decimal integer. */
  predicate WholeExponent(s: string) {
    var e := ExponentText(s);
    var digits := if Signed(e) then e[1..] else e;
    if IndexAny(Unsigned(s), {'e', 'E'}) == |Unsigned(s)| then true
    else digits != "" && AllDigits(digits)
  }

  /** None for text that big.Rat rejects although parseDecimal takes it: a bare e, or an exponent
      followed by more text. */
  function RatOf(s: string): Option<Rat> {
    var p :- PartsOf(s);
    if WholeExponent(s) then Some(RatOfParts(p)) else None
  }

  function RatOfParts(p: Parts): Rat {
    var n := NatOf(Raw(p));
    var e := p.exp - |p.fracPart|;
    var num := if p.negative then -(n as int) else n;
    if e >= 0 then Rat(num * Pow10(e), 0) else Rat(num, -e)
  }

  function AddRat(a: Rat, b: Rat): Rat {
    Rat(a.num * Pow10(b.scale) + b.num * Pow10(a.scale), a.scale + b.scale)
  }

  // ---- ratDecimalString ----

  const MAX_SCALE := 400

  /** The scaling loop: multiply by ten until the denominator 10^m divides; the quotient and the number
      of steps, or None past the cap. */
  function ScaleUp(num: nat, m: nat, k: nat): Option<(nat, nat)>
    decreases MAX_SCALE + 1 - k
  {
    if num % Pow10(m) == 0 then Some((num / Pow10(m), k))
    else if k + 1 > MAX_SCALE then None
    else ScaleUp(10 * num, m, k + 1)
  }

  /** q * 10^-k before trimming. */
  function Layout(digits: Digits, k: nat): string {
    if k == 0 then digits
    else if k < |digits| then digits[..|digits| - k] + "." + digits[|digits| - k..]
    else "0." + Zeros(k - |digits|) + digits
  }

  function TrimZeros(s: string): string {
    if s != "" && s[|s| - 1] == '0' then TrimZeros(s[..|s| - 1]) else s
  }

  function TrimDot(s: string): string {
    if s != "" && s[|s| - 1] == '.' then s[..|s| - 1] else s
  }

  function Trimmed(s: string): string {
    var t := TrimDot(TrimZeros(s));
    if t == "" then "0" else t
  }

  function Abs(x: int): nat {
    if x < 0 then -x else x
  }

  function RatText(r: Rat): string {
    if r.num == 0 then "0"
    else
      match ScaleUp(Abs(r.num), r.scale, 0)
      case None => "0"
      case Some((q, k)) =>
        var t := Trimmed(Layout(DecimalText(q), k));
        if r.num < 0 then "-" + t else t
  }

  lemma Cancel(a: int, b: int, c: int)
    requires a * c == b * c && c > 0
    ensures a == b
  {
  }

  lemma SwapFactors(q: int, d: int, p: int)
    ensures (q * d) * p == (q * p) * d
  {
  }

  /** num / den and m / p are the same rational. */
  ghost predicate SameRatio(num: int, den: nat, m: int, p: nat) {
    den > 0 && p > 0 && num * p == m * den
  }

  /** The division of the one leaves no remainder exactly if that of the other does not, and then both
      give the same quotient. */
  lemma SameQuotient(num: nat, den: nat, m: nat, p: nat)
    requires SameRatio(num, den, m, p)
    ensures num % den == 0 <==> m % p == 0
    ensures num % den == 0 ==> num / den == m / p
    ensures num / den >= 0
  {
    DivMod(num, den);
    DivMod(m, p);
    if num % den == 0 {
      SwapFactors(num / den, den, p);
      Cancel((num / den) * p, m, den);
      MultipleMod(m, num / den, p);
      Cancel(num / den, m / p, p);
    }
    if m % p == 0 {
      SwapFactors(m / p, p, den);
      Cancel((m / p) * den, num, p);
      MultipleMod(num, m / p, den);
    }
  }

  lemma TenTimes(num: nat, den: nat, m: nat, p: nat)
    requires SameRatio(num, den, m, p)
    ensures SameRatio(10 * num, den, 10 * m, p)
  {
    Regroup(p, num);
    Regroup(den, m);
  }

  lemma SameSign(num: int, den: nat, m: int, p: nat)
    requires SameRatio(num, den, m, p)
    ensures num < 0 <==> m < 0
    ensures num == 0 <==> m == 0
    ensures SameRatio(Abs(num), den, Abs(m), p)
  {
  }

  /** ratDecimalString of num / den, with its loop over the scaled numerator, whatever the terms in which
      the rational is kept. */
  method RatDecimalString(num: int, den: nat, ghost r: Rat) returns (out: string)
    requires den > 0 && num * Pow10(r.scale) == r.num * den
    ensures out == RatText(r)
  {
    hide Pow10, Trimmed, Layout, DecimalText, SameRatio, Abs, ScaleUp;
    ghost var p := Pow10(r.scale);
    assert SameRatio(num, den, r.num, p) by {
      SameRatioOf(num, den, r.num, p);
    }
    SameSign(num, den, r.num, p);
    if num == 0 {
      return "0";
    }
    var n: nat, k := Abs(num), 0;
    ghost var m: nat := Abs(r.num);
    while n % den != 0
      invariant k <= MAX_SCALE && SameRatio(n, den, m, p)
      invariant ScaleUp(Abs(r.num), r.scale, 0) == ScaleUp(m, r.scale, k)
      decreases MAX_SCALE - k
    {
      SameQuotient(n, den, m, p);
      ScaleStep(m, r.scale, k);
      TenTimes(n, den, m, p);
      n := 10 * n;
      m := 10 * m;
      k := k + 1;
      if k > MAX_SCALE {
        return "0";
      }
    }
    SameQuotient(n, den, m, p);
    ScaleStep(m, r.scale, k);
    out := Trimmed(Layout(DecimalText(n / den), k));
    if num < 0 {
      out := "-" + out;
    }
  }

  lemma ScaleStep(num: nat, m: nat, k: nat)
    requires k <= MAX_SCALE
    ensures ScaleUp(num, m, k) ==
              if num % Pow10(m) == 0 then Some((num / Pow10(m), k))
              else if k + 1 > MAX_SCALE then None
              else ScaleUp(10 * num, m, k + 1)
  {
    hide Pow10;
  }

  lemma SameRatioOf(num: int, den: nat, m: int, p: nat)
    requires den > 0 && p > 0 && num * p == m * den
    ensures SameRatio(num, den, m, p)
  {
  }

  function AddNumbers(a: string, b: string, sub: bool): Result<string> {
    match (RatOf(a), RatOf(b))
    case (Some(ra), Some(rb)) => Ok(RatText(AddRat(ra, if sub then Rat(-rb.num, rb.scale) else rb)))
    case _ => Err
  }

  // ---- rationals are exact ----

  ghost predicate IsInteger(x: real) {
    x == x.Floor as real
  }

  lemma {:induction false} TimesPow10(q: int, m: nat)
    ensures (q * Pow10(m)) as real == Shift(q as real, m)
  {
    if m > 0 {
      TimesPow10(q, m - 1);
      assert q * Pow10(m) == 10 * (q * Pow10(m - 1)) by {
        Regroup(q, Pow10(m - 1));
      }
    }
  }

  lemma Regroup(q: int, p: int)
    ensures q * (10 * p) == 10 * (q * p)
  {
  }

  lemma RatOfPartsExact(p: Parts)
    ensures RatValue(RatOfParts(p)) == Denotation(p)
  {
    hide NatOf, Fraction, Shift, Pow10;
    MantissaExact(p.intPart, p.fracPart);
    var n, e := NatOf(Raw(p)), p.exp - |p.fracPart|;
    var num: int := if p.negative then -(n as int) else n;
    ShiftAdd(n as real, -|p.fracPart|, p.exp);
    ShiftLinear(n as real, 0.0, e);
    assert Denotation(p) == Shift(num as real, e);
    if e >= 0 {
      TimesPow10(num, e);
      ShiftByZero(Shift(num as real, e));
    }
  }

  lemma ShiftByZero(x: real)
    ensures Shift(x, 0) == x
  {
  }

  lemma AddRatExact(a: Rat, b: Rat)
    ensures RatValue(AddRat(a, b)) == RatValue(a) + RatValue(b)
    ensures RatValue(Rat(-b.num, b.scale)) == -RatValue(b)
  {
    hide Shift, Pow10;
    var x, y, m, n := a.num as real, b.num as real, a.scale, b.scale;
    TimesPow10(a.num, n);
    TimesPow10(b.num, m);
    ShiftLinear(Shift(x, n), Shift(y, m), -((m + n) as int));
    ShiftAdd(x, n, -((m + n) as int));
    ShiftAdd(y, m, -((m + n) as int));
    ShiftLinear(y, 0.0, -(n as int));
  }

  // ---- the scaling loop finds the least scale ----

  lemma MulAtLeast(k: int, p: int)
    requires k >= 1 && p > 0
    ensures k * p >= p
  {
  }

  lemma MulSub(q: int, d: int, p: int)
    ensures (q - d) * p == q * p - d * p
  {
  }

  lemma DivMod(num: nat, p: nat)
    requires p > 0
    ensures num == (num / p) * p + num % p && 0 <= num % p < p
  {
  }

  lemma UniqueQuotient(q: int, d: int, p: int, r: int)
    requires q * p == d * p + r && 0 <= r < p
    ensures r == 0
  {
    MulSub(q, d, p);
    MulSub(d, q, p);
    if q > d {
      MulAtLeast(q - d, p);
    } else if q < d {
      MulAtLeast(d - q, p);
    }
  }

  lemma MultipleMod(num: nat, q: int, p: nat)
    requires p > 0 && num == q * p
    ensures num % p == 0
  {
    DivMod(num, p);
    UniqueQuotient(q, num / p, p, num % p);
  }

  /** One test of the loop: the denominator divides exactly when the scaled value is an integer. */
  lemma DividesIffInteger(num: nat, m: nat, y: real)
    requires num as real == Shift(y, m)
    ensures num % Pow10(m) == 0 <==> IsInteger(y)
    ensures num % Pow10(m) == 0 ==> y == (num / Pow10(m)) as real
  {
    hide Shift, Pow10;
    var p := Pow10(m);
    if num % p == 0 {
      var q := num / p;
      assert num == q * p;
      TimesPow10(q, m);
      ShiftMonotone(q as real, y, m);
    }
    if IsInteger(y) {
      TimesPow10(y.Floor, m);
      MultipleMod(num, y.Floor, p);
    }
  }

  /** If some scale up to the cap makes x an integer, the loop stops at the least one. */
  lemma {:induction false} ScaleUpLeast(x: real, num: nat, m: nat, k: nat, bound: nat)
    requires num as real == Shift(Shift(x, k), m)
    requires k <= bound <= MAX_SCALE && IsInteger(Shift(x, bound))
    ensures ScaleUp(num, m, k).Some?
    ensures var (q, n) := ScaleUp(num, m, k).value;
            && k <= n <= bound && Shift(x, n) == q as real
            && forall j :: k <= j < n ==> !IsInteger(Shift(x, j))
    decreases bound - k
  {
    hide Shift, Pow10, IsInteger;
    DividesIffInteger(num, m, Shift(x, k));
    if num % Pow10(m) != 0 {
      ShiftStep(x, k);
      ShiftLinear(Shift(x, k), 0.0, m);
      ScaleUpLeast(x, 10 * num, m, k + 1, bound);
    }
  }

  // ---- the text denotes the quotient ----

  predicate NoneOf(s: string, cs: set<char>) {
    forall i :: 0 <= i < |s| ==> s[i] !in cs
  }

  lemma {:induction false} IndexOfNone(s: string, cs: set<char>, t: string)
    requires NoneOf(s, cs) && (t != "" ==> t[0] in cs)
    ensures IndexAny(s + t, cs) == |s|
  {
    if s != "" {
      IndexOfNone(s[1..], cs, t);
      assert (s + t)[1..] == s[1..] + t && (s + t)[0] == s[0];
    } else {
      assert s + t == t;
    }
  }

  /** How a plain decimal text is taken apart. */
  lemma PlainParts(negative: bool, i: Digits, point: bool, f: Digits)
    requires i != "" && (point || f == "")
    ensures var s := (if negative then "-" else "") + i + (if point then "." else "") + f;
            PartsOf(s) == Some(Parts(negative, i, f, 0))
  {
    hide Unsigned, ExponentOf, IndexAny;
    var sign, dot := if negative then "-" else "", if point then "." else "";
    var body := i + dot + f;
    Reassociated(sign, i, dot, f);
    assert body[0] == i[0];
    UnsignedOf(negative, body);
    PlainBody(i, point, f);
    NoExponent();
  }

  lemma UnsignedOf(negative: bool, body: string)
    requires body != "" && '0' <= body[0] <= '9'
    ensures var s := (if negative then "-" else "") + body;
            s != "" && Unsigned(s) == body && (s[0] == '-' <==> negative)
  {
    var s := (if negative then "-" else "") + body;
    if negative {
      assert s[0] == '-' && s[1..] == body;
    } else {
      assert s == body && body[0] != '-' && body[0] != '+';
    }
  }

  lemma NoExponent()
    ensures ExponentOf("") == Some(0)
  {
  }

  /** An unsigned plain text has no exponent, and splits at the point. */
  lemma PlainBody(i: Digits, point: bool, f: Digits)
    requires point || f == ""
    ensures var body := i + (if point then "." else "") + f;
            && IndexAny(body, {'e', 'E'}) == |body|
            && IndexAny(body, {'.'}) == |i|
            && body[..|body|] == body
            && body[..|i|] == i
            && (if |i| < |body| then body[|i| + 1..] else "") == f
  {
    var dot := if point then "." else "";
    var body := i + dot + f;
    IndexOfNone(body, {'e', 'E'}, "");
    assert body + "" == body;
    assert body == i + (dot + f);
    IndexOfNone(i, {'.'}, dot + f);
  }

  /** The text that size() gives for a count denotes the count. */
  lemma NaturalText(n: nat)
    ensures PartsOf(DecimalText(n)).Some? && NumberValue(DecimalText(n)) == n as real
  {
    hide PartsOf;
    var d := DecimalText(n);
    PlainParts(false, d, false, "");
    assert "" + d + "" + "" == d;
    assert Fraction("") == 0.0;
    ShiftByZero(n as real);
  }

  /** The two digit strings that Layout puts around the point. */
  function LayoutInt(digits: Digits, k: nat): Digits {
    if k < |digits| then digits[..|digits| - k] else "0"
  }

  function LayoutFrac(digits: Digits, k: nat): (f: Digits)
    ensures |f| == k
  {
    if k < |digits| then digits[|digits| - k..]
    else
      AllDigitsConcat(Zeros(k - |digits|), digits);
      Zeros(k - |digits|) + digits
  }

  lemma LayoutParts(digits: Digits, k: nat, negative: bool)
    requires digits != ""
    ensures Layout(digits, k) == LayoutInt(digits, k) + (if k > 0 then "." else "") + LayoutFrac(digits, k)
    ensures PartsOf((if negative then "-" else "") + Layout(digits, k)) ==
              Some(Parts(negative, LayoutInt(digits, k), LayoutFrac(digits, k), 0))
  {
    hide PartsOf, Layout, LayoutInt, LayoutFrac;
    var i, f, dot := LayoutInt(digits, k), LayoutFrac(digits, k), if k > 0 then "." else "";
    LayoutSplit(digits, k);
    PlainParts(negative, i, k > 0, f);
    Reassociated(if negative then "-" else "", i, dot, f);
  }

  lemma LayoutSplit(digits: Digits, k: nat)
    requires digits != ""
    ensures Layout(digits, k) == LayoutInt(digits, k) + (if k > 0 then "." else "") + LayoutFrac(digits, k)
    ensures LayoutInt(digits, k) != ""
  {
    var i, f := LayoutInt(digits, k), LayoutFrac(digits, k);
    if k == 0 {
      assert i == digits && f == "" && digits + "" + "" == digits;
    } else if k >= |digits| {
      assert "0" + "." == "0.";
      assert "0." + Zeros(k - |digits|) + digits == "0." + (Zeros(k - |digits|) + digits);
    }
  }

  lemma Reassociated(a: string, b: string, c: string, d: string)
    ensures a + (b + c + d) == a + b + c + d
  {
  }

  /** The text before trimming denotes the number, shifted by the scale. */
  lemma LayoutExact(digits: Digits, k: nat)
    requires digits != ""
    ensures Denotation(Parts(false, LayoutInt(digits, k), LayoutFrac(digits, k), 0)) ==
            Shift(NatOf(digits) as real, -(k as int))
    ensures Denotation(Parts(true, LayoutInt(digits, k), LayoutFrac(digits, k), 0)) ==
            -Shift(NatOf(digits) as real, -(k as int))
  {
    hide Shift, NatOf, Fraction;
    var i, f := LayoutInt(digits, k), LayoutFrac(digits, k);
    MantissaExact(i, f);
    if k < |digits| {
      assert i + f == digits;
    } else {
      NatOfDigit('0');
      NatOfConcat("0", f);
      NatOfConcat(Zeros(k - |digits|), digits);
      NatOfZeros(k - |digits|);
      ShiftZero(|f|);
      ShiftZero(|digits|);
    }
    ShiftByZero(Shift(NatOf(digits) as real, -(k as int)));
  }

  // ---- trimming ----

  /** Trimming does nothing to a text that ends in a digit other than zero. */
  lemma TrimNothing(s: string)
    requires s != "" && s[|s| - 1] != '0' && s[|s| - 1] != '.'
    ensures Trimmed(s) == s
  {
  }

  /** On a digit string trimming divides by ten as often as it can. */
  lemma {:induction false} TrimDigits(d: Digits)
    requires d != "" && d[0] != '0'
    ensures AllDigits(TrimZeros(d)) && TrimZeros(d) != "" && |TrimZeros(d)| <= |d|
    ensures Trimmed(d) == TrimZeros(d) && TrimZeros(d)[|TrimZeros(d)| - 1] != '0'
    ensures NatOf(d) as real == Shift(NatOf(TrimZeros(d)) as real, |d| - |TrimZeros(d)|)
    ensures NatOf(TrimZeros(d)) > 0
    ensures d[|d| - 1] == '0' <==> |TrimZeros(d)| < |d|
  {
    hide Shift;
    if d[|d| - 1] == '0' {
      assert |d| > 1 && d[..|d| - 1][0] == d[0];
      TrimDigits(d[..|d| - 1]);
      ShiftStep(NatOf(TrimZeros(d)) as real, |d| - 1 - |TrimZeros(d)|);
    } else {
      ShiftByZero(NatOf(d) as real);
    }
  }

  /** A number with a fraction ends in a nonzero digit at its least scale. */
  lemma LastDigit(x: real, q: nat, n: nat)
    requires n > 0 && Shift(x, n) == q as real && !IsInteger(Shift(x, n - 1))
    ensures q % 10 != 0
  {
    if q % 10 == 0 {
      TenthOf(x, q, n);
    }
  }

  lemma TenthOf(x: real, q: nat, n: nat)
    requires n > 0 && Shift(x, n) == q as real && q % 10 == 0
    ensures IsInteger(Shift(x, n - 1))
  {
    ShiftStep(x, n - 1);
    assert Shift(x, n - 1) == (q / 10) as real;
  }

  // ---- addNumbers ----

  /** What rendering a decimal fraction gives, told from its value alone: with the least number n of
      decimals and the digits of the scaled value. */
  lemma RenderedByValue(r: Rat, bound: nat) returns (q: nat, n: nat)
    requires r.num != 0 && bound <= MAX_SCALE && IsInteger(Shift(RatValue(r), bound))
    ensures n <= bound && q > 0
    ensures RatValue(r) == (if r.num < 0 then -Shift(q as real, -(n as int)) else Shift(q as real, -(n as int)))
    ensures n > 0 ==> q % 10 != 0
    ensures n == 0 || !IsInteger(Shift(RatValue(r), 0))
    ensures RatText(r) == (if r.num < 0 then "-" else "") + Trimmed(Layout(DecimalText(q), n))
  {
    hide Shift, Layout, Trimmed, DecimalText, IsInteger;
    var num, m := Abs(r.num), r.scale;
    var x := Shift(num as real, -(m as int));
    ShiftLinear(r.num as real, 0.0, -(m as int));
    assert RatValue(r) == if r.num < 0 then -x else x;
    ShiftLinear(x, 0.0, bound);
    ShiftLinear(x, 0.0, 0);
    IntegerNegated(Shift(x, bound));
    IntegerNegated(Shift(x, 0));
    ShiftAdd(num as real, -(m as int), m);
    ShiftByZero(num as real);
    ShiftByZero(x);
    ScaleUpLeast(x, num, m, 0, bound);
    q, n := ScaleUp(num, m, 0).value.0, ScaleUp(num, m, 0).value.1;
    ShiftBack(x, n);
    if n > 0 {
      LastDigit(x, q, n);
    }
    ShiftZero(-(n as int));
    ShiftZero(-(m as int));
    ShiftMonotone(0.0, num as real, -(m as int));
  }

  lemma WholeIsInteger(n: int)
    ensures IsInteger(n as real)
  {
  }

  lemma IntegerNegated(x: real)
    ensures IsInteger(x) <==> IsInteger(-x)
  {
    if IsInteger(x) {
      assert -x == (-x.Floor) as real;
    }
    if IsInteger(-x) {
      assert x == (-(-x).Floor) as real;
    }
  }

  function Sign(negative: bool): string {
    if negative then "-" else ""
  }

  ghost function Signed1(negative: bool, x: real): real {
    if negative then -x else x
  }

  /** With decimals, the text is the untrimmed one, and denotes the number. */
  lemma FractionText(negative: bool, q: nat, n: nat)
    requires n > 0 && q % 10 != 0
    ensures var s := Sign(negative) + Trimmed(Layout(DecimalText(q), n));
            && Trimmed(Layout(DecimalText(q), n)) == Layout(DecimalText(q), n)
            && PartsOf(s).Some? && NumberValue(s) == Signed1(negative, Shift(q as real, -(n as int)))
  {
    hide Shift, Layout, Trimmed, DecimalText, PartsOf, Denotation, NatOf, LayoutInt, LayoutFrac;
    var d := DecimalText(q);
    LayoutParts(d, n, negative);
    LayoutExact(d, n);
    LastOfLayout(d, n);
    TrimNothing(Layout(d, n));
  }

  lemma LastOfLayout(d: Digits, n: nat)
    requires d != "" && n > 0
    ensures Layout(d, n) != "" && Layout(d, n)[|Layout(d, n)| - 1] == d[|d| - 1]
  {
  }

  /** Without decimals, the text denotes the number exactly when trimming finds no zero. */
  lemma WholeText(negative: bool, q: nat)
    requires q > 0
    ensures var s := Sign(negative) + Trimmed(Layout(DecimalText(q), 0));
            && PartsOf(s).Some?
            && (NumberValue(s) == Signed1(negative, q as real) <==> q % 10 != 0)
  {
    hide Shift, DecimalText, PartsOf, NatOf, Trimmed;
    var d := DecimalText(q);
    TrimDigits(d);
    var t: Digits := TrimZeros(d);
    PlainParts(negative, t, false, "");
    assert Sign(negative) + t + "" + "" == Sign(negative) + t;
    var v, z := NatOf(t) as real, |d| - |t|;
    ShiftByZero(v);
    assert Fraction("") == 0.0;
    if z == 0 {
      assert q % 10 != 0;
    } else {
      ShiftGrows(v, 1, z);
      ShiftStep(v, 0);
    }
  }

  /** A tenth of a number with decimals, or of a whole number not ending in zero, is not whole. */
  lemma TenthsWhole(x: real, q: nat)
    ensures !IsInteger(x) ==> !IsInteger(x / 10.0)
    ensures IsInteger(q as real / 10.0) <==> q % 10 == 0
  {
    if IsInteger(x / 10.0) {
      assert x == (10 * (x / 10.0).Floor) as real;
    }
    var w := (q as real / 10.0).Floor;
    if q % 10 == 0 {
      assert q as real / 10.0 == (q / 10) as real;
    }
    if IsInteger(q as real / 10.0) {
      assert q == 10 * w;
    }
  }

  /** A nonzero number renders exactly unless it is a whole multiple of ten. */
  lemma RenderedExactlyUnlessTens(r: Rat, bound: nat)
    requires r.num != 0 && bound <= MAX_SCALE && IsInteger(Shift(RatValue(r), bound))
    ensures PartsOf(RatText(r)).Some?
    ensures NumberValue(RatText(r)) == RatValue(r) <==> !IsInteger(RatValue(r) / 10.0)
  {
    hide Shift, Layout, Trimmed, DecimalText, RatText, PartsOf, Denotation, NatOf, IsInteger;
    var q, n := RenderedByValue(r, bound);
    ShiftByZero(RatValue(r));
    ShiftByZero(q as real);
    TenthsWhole(RatValue(r), q);
    if n > 0 {
      FractionText(r.num < 0, q, n);
    } else {
      WholeText(r.num < 0, q);
      IntegerNegated(q as real / 10.0);
    }
  }

  /** The text before trimming always denotes the number, and trimming leaves it alone whenever there are
      decimals. */
  lemma UntrimmedExact(r: Rat, bound: nat) returns (q: nat, n: nat)
    requires r.num != 0 && bound <= MAX_SCALE && IsInteger(Shift(RatValue(r), bound))
    ensures n <= bound && RatText(r) == Sign(r.num < 0) + Trimmed(Layout(DecimalText(q), n))
    ensures PartsOf(Sign(r.num < 0) + Layout(DecimalText(q), n)).Some?
    ensures NumberValue(Sign(r.num < 0) + Layout(DecimalText(q), n)) == RatValue(r)
    ensures n > 0 ==> Trimmed(Layout(DecimalText(q), n)) == Layout(DecimalText(q), n)
  {
    hide Shift, Layout, Trimmed, DecimalText, RatText, PartsOf, Denotation, NatOf, IsInteger, LayoutInt, LayoutFrac;
    q, n := RenderedByValue(r, bound);
    LayoutParts(DecimalText(q), n, r.num < 0);
    LayoutExact(DecimalText(q), n);
    if n > 0 {
      FractionText(r.num < 0, q, n);
    }
  }

  /** Every valid number is a whole number of units of 10^-168. */
  lemma ValidScale(s: string)
    requires ValidNumber(s)
    ensures PartsOf(s).Some? && IsInteger(Shift(NumberValue(s), 168))
  {
    hide Shift, Fraction, NatOf, PartsOf, Normalize, IsInteger, Pow10;
    WholeIsInteger(0);
    var d := DecOf(s).value;
    NormalizeExact(PartsOf(s).value);
    assert NumberValue(s) == Value(d);
    var f := Fraction(d.digits);
    ZeroValue(d);
    ShiftZero(168);
    ShiftLinear(Shift(f, d.exp), 0.0, 168);
    ShiftAdd(f, d.exp, 168);
    if d.sign != 0 {
      FractionIsNat(d.digits);
      var n, k := NatOf(d.digits), d.exp + 168 - |d.digits|;
      ShiftAdd(f, |d.digits|, k);
      TimesPow10(n, k);
      WholeIsInteger(n * Pow10(k));
      IntegerNegated(Shift(f, d.exp + 168));
    }
  }

  lemma ExactOperands(a: string, b: string, sub: bool)
    requires RatOf(a).Some? && RatOf(b).Some?
    ensures var rb := if sub then Rat(-RatOf(b).value.num, RatOf(b).value.scale) else RatOf(b).value;
            RatValue(AddRat(RatOf(a).value, rb)) == NumberValue(a) + Signed1(sub, NumberValue(b))
  {
    hide Shift, PartsOf, RatOfParts, AddRat;
    RatOfPartsExact(PartsOf(a).value);
    RatOfPartsExact(PartsOf(b).value);
    AddRatExact(RatOf(a).value, RatOf(b).value);
    AddRatExact(RatOf(a).value, Rat(-RatOf(b).value.num, RatOf(b).value.scale));
  }

  lemma IntegersAdd(x: real, y: real)
    requires IsInteger(x) && IsInteger(y)
    ensures IsInteger(x + y) && IsInteger(x - y)
  {
    WholesAdd(x.Floor, y.Floor);
  }

  lemma WholesAdd(i: int, j: int)
    ensures IsInteger(i as real + j as real) && IsInteger(i as real - j as real)
  {
    WholeIsInteger(i + j);
    WholeIsInteger(i - j);
  }

  /** addNumbers on valid numbers: the scale stays within 168, so the cap of 400 is never hit, and the
      result denotes the exact sum or difference if and only if that is zero or not a whole multiple of
      ten; then trailing zeros of the integer are trimmed away. */
  lemma AddNumbersExactly(a: string, b: string, sub: bool)
    requires ValidNumber(a) && WholeExponent(a) && ValidNumber(b) && WholeExponent(b)
    ensures AddNumbers(a, b, sub).Ok?
    ensures var s, x := AddNumbers(a, b, sub).value, NumberValue(a) + Signed1(sub, NumberValue(b));
            && PartsOf(s).Some?
            && (NumberValue(s) == x <==> x == 0.0 || !IsInteger(x / 10.0))
  {
    hide Shift, PartsOf, RatOfParts, AddRat, IsInteger, WholeExponent, RatText, ValidNumber;
    ValidScale(a);
    ValidScale(b);
    ExactOperands(a, b, sub);
    var ra, rb := RatOf(a).value, if sub then Rat(-RatOf(b).value.num, RatOf(b).value.scale) else RatOf(b).value;
    var r := AddRat(ra, rb);
    var x, y := NumberValue(a), Signed1(sub, NumberValue(b));
    ShiftLinear(NumberValue(b), 0.0, 168);
    IntegerNegated(Shift(NumberValue(b), 168));
    IntegersAdd(Shift(x, 168), Shift(y, 168));
    ShiftLinear(x, y, 168);
    if r.num == 0 {
      ZeroText(r);
    } else {
      RenderedExactlyUnlessTens(r, 168);
      NonzeroValue(r);
    }
  }

  lemma ZeroText(r: Rat)
    requires r.num == 0
    ensures RatValue(r) == 0.0
    ensures PartsOf(RatText(r)).Some? && NumberValue(RatText(r)) == 0.0
  {
    ShiftZero(-(r.scale as int));
    PlainParts(false, "0", false, "");
    NatOfDigit('0');
    assert "" + "0" + "" + "" == "0";
  }

  lemma NonzeroValue(r: Rat)
    requires r.num != 0
    ensures RatValue(r) != 0.0
  {
    ShiftZero(-(r.scale as int));
    ShiftMonotone(0.0, r.num as real, -(r.scale as int));
  }

  lemma FiveIsRat()
    ensures RatOf("5") == Some(Rat(5, 0))
  {
    hide PartsOf;
    PlainParts(false, "5", false, "");
    assert "" + "5" + "" + "" == "5";
    PlainBody("5", false, "");
    NatOfDigit('5');
    assert Raw(Parts(false, "5", "", 0)) == "5" + "";
  }

  lemma TenText()
    ensures RatText(Rat(10, 0)) == "1"
  {
    hide Trimmed, DecimalText;
    assert ScaleUp(10, 0, 0) == Some((10, 0));
    assert DecimalText(10) == "10" by {
      TenDigits();
    }
    assert Trimmed("10") == "1" by {
      TrimTen();
    }
  }

  lemma TenDigits()
    ensures DecimalText(10) == "10"
  {
    assert DecimalText(1) == "1" && DecimalText(10) == "1" + "0";
  }

  lemma TrimTen()
    ensures Trimmed("10") == "1"
  {
    assert TrimZeros("10") == TrimZeros("10"[..1]) && "10"[..1] == "1";
  }

  /** The property is false in general: five and five add up to the text "1". */
  lemma FivePlusFive()
    ensures AddNumbers("5", "5", false) == Ok("1")
  {
    hide RatOf, RatText;
    FiveIsRat();
    TenText();
  }
}
