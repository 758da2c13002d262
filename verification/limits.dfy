/** Which values are accepted, and what they count (avjson.go, keyenc.go): said of the numbers that texts denote and of
    what lies at the paths of a value. */
module Limits {
  import opened Wrappers
  import opened Powers
  import opened Bytes
  import opened Decimal
  import opened Numbers
  import opened Values
  import opened Arithmetic
  import opened Paths
  import opened KeyEncoding
  import opened Tables

  ghost function Absolute(x: real): real {
    if x < 0.0 then -x else x
  }

  /** x is a whole number of at most n digits, moved by a power of ten. */
  ghost predicate FitsDigits(x: real, n: nat) {
    exists e :: IsInteger(Shift(Absolute(x), e)) && Shift(Absolute(x), e) < Shift(1.0, n)
  }

  lemma MagnitudeOf(d: Dec)
    requires d.Canonical()
    ensures Absolute(Value(d)) == Magnitude(d.digits, d.exp)
    ensures d.sign != 0 ==> Shift(0.1, d.exp) <= Absolute(Value(d)) < Shift(1.0, d.exp)
    ensures d.sign == 0 ==> Value(d) == 0.0 && d.digits == ""
  {
    hide Shift, Fraction;
    FractionBounds(d.digits);
    ZeroValue(d);
    ShiftZero(d.exp);
    var f := Fraction(d.digits);
    ShiftMonotone(f, 1.0, d.exp);
    ShiftMonotone(f, 0.1, d.exp);
    ShiftMonotone(0.0, f, d.exp);
  }

  lemma Tenth(b: int)
    ensures Shift(0.1, b) == Shift(1.0, b - 1)
  {
    hide Shift;
    ShiftLinear(0.1, 0.0, b - 1);
    ShiftStep(0.1, b - 1);
  }

  /** The exponent of a number that is not zero tells its size, and the reverse. */
  lemma ExponentIsSize(d: Dec, b: int)
    requires d.Canonical() && d.sign != 0
    ensures d.exp <= b <==> Absolute(Value(d)) < Shift(1.0, b)
  {
    hide Shift;
    MagnitudeOf(d);
    Tenth(d.exp);
    if d.exp <= b {
      ShiftGrows(1.0, d.exp, b);
    } else {
      ShiftGrows(1.0, b, d.exp - 1);
    }
  }

  lemma {:induction false} WholeShifted(x: real, a: nat)
    requires IsInteger(x)
    ensures IsInteger(Shift(x, a))
  {
    TimesPow10(x.Floor, a);
    assert Shift(x, a) == (x.Floor * Pow10(a)) as real;
  }

  lemma LastDigitOf(s: Digits)
    requires s != ""
    ensures NatOf(s) % 10 == DigitValue(s[|s| - 1])
  {
    TenTimesPlus(NatOf(s[..|s| - 1]), DigitValue(s[|s| - 1]));
  }

  lemma TenTimesPlus(n: nat, d: nat)
    requires d < 10
    ensures (10 * n + d) % 10 == d
  {
  }

  /** A significand without trailing zeros needs all its digits. */
  lemma NeedsAll(d: Digits, j: int)
    requires d != "" && d[|d| - 1] != '0' && IsInteger(Shift(Fraction(d), j))
    ensures j >= |d|
  {
    hide Shift, Fraction, NatOf, IsInteger;
    if j < |d| {
      var f, k := Fraction(d), |d|;
      FractionIsNat(d);
      LastDigitOf(d);
      WholeShifted(Shift(f, j), k - 1 - j);
      ShiftAdd(f, j, k - 1 - j);
      ShiftStep(f, k - 1);
      assert Shift(f, k - 1) == NatOf(d) as real / 10.0;
      TenthsWhole(0.0, NatOf(d));
    }
  }

  /** A number fits n digits exactly if its significand has at most n. */
  lemma DigitsNeeded(d: Dec, n: nat)
    requires d.Canonical()
    ensures FitsDigits(Value(d), n) <==> |d.digits| <= n
  {
    hide Shift, Fraction, NatOf, IsInteger;
    MagnitudeOf(d);
    var f, x := Fraction(d.digits), Absolute(Value(d));
    if |d.digits| <= n {
      var k := |d.digits|;
      FractionIsNat(d.digits);
      ShiftAdd(f, d.exp, k - d.exp);
      FractionBounds(d.digits);
      ShiftMonotone(f, 1.0, k);
      ShiftGrows(1.0, k, n);
      WholeIsInteger(NatOf(d.digits));
      assert Shift(x, k - d.exp) == NatOf(d.digits) as real;
    }
    if FitsDigits(Value(d), n) && d.sign != 0 {
      var e :| IsInteger(Shift(x, e)) && Shift(x, e) < Shift(1.0, n);
      ShiftAdd(f, d.exp, e);
      NeedsAll(d.digits, d.exp + e);
      ShiftAdd(0.1, d.exp, e);
      ShiftMonotone(x, Shift(0.1, d.exp), e);
      Tenth(d.exp + e);
      if d.exp + e - 1 >= n {
        ShiftGrows(1.0, n, d.exp + e - 1);
      }
    }
  }

  /** A number is valid exactly if it is zero, or fits 38 digits and lies between 10^-131 and 10^126. */
  lemma ValidNumberIff(s: string)
    ensures ValidNumber(s) <==>
            PartsOf(s).Some? &&
            var x := NumberValue(s);
            x == 0.0 || (FitsDigits(x, 38) && Shift(1.0, -131) <= Absolute(x) < Shift(1.0, 126))
  {
    hide Shift, PartsOf, FitsDigits, Normalize, Denotation;
    if PartsOf(s).Some? {
      var d := DecOf(s).value;
      NormalizeExact(PartsOf(s).value);
      assert Value(d) == NumberValue(s);
      MagnitudeOf(d);
      if d.sign != 0 {
        DigitsNeeded(d, 38);
        ExponentIsSize(d, 126);
        ExponentIsSize(d, -131);
        NotZero(d);
      }
    }
  }

  lemma NotZero(d: Dec)
    requires d.Canonical() && d.sign != 0
    ensures Value(d) != 0.0
  {
    hide Shift;
    MagnitudeOf(d);
    ShiftZero(d.exp);
    ShiftMonotone(0.0, 0.1, d.exp);
  }

  // ---- number texts ----

  /** A decimal text: sign, digits around a point, and an exponent, each as written. */
  function Written(sign: string, i: Digits, point: bool, f: Digits, mark: char, expSign: string, e: Digits): string {
    sign + ((i + (if point then "." else "") + f) + ([mark] + expSign + e))
  }

  lemma {:induction false} AllLeading(e: Digits)
    ensures LeadingDigits(e) == e
  {
    if e != "" {
      AllLeading(e[1..]);
      assert e == [e[0]] + e[1..];
    }
  }

  lemma NoBlanks(t: string)
    requires t != "" && (IsDigit(t[0]) || t[0] in {'+', '-'})
    ensures SkipBlanks(t) == t
  {
  }

  lemma ExponentScanned(expSign: string, e: Digits)
    requires expSign in {"", "+", "-"} && e != "" && NatOf(e) <= 100000
    ensures ExponentOf(expSign + e) == Some(if expSign == "-" then -(NatOf(e) as int) else NatOf(e))
  {
    hide LeadingDigits, SkipBlanks, NatOf;
    var t := expSign + e;
    AllLeading(e);
    if expSign == "" {
      assert t == e;
    } else {
      assert t[1..] == e && t[0] == expSign[0];
    }
    NoBlanks(t);
  }

  lemma BodySplit(i: Digits, point: bool, f: Digits, tail: string)
    requires (i != "" || f != "") && (point || f == "") && tail != "" && tail[0] in {'e', 'E'}
    ensures var body := i + (if point then "." else "") + f;
            && IndexAny(body + tail, {'e', 'E'}) == |body|
            && (body + tail)[..|body|] == body && (body + tail)[|body| + 1..] == tail[1..]
            && IndexAny(body, {'.'}) == |i| && body[..|i|] == i
            && (if |i| < |body| then body[|i| + 1..] else "") == f
            && body[0] !in {'+', '-'}
  {
    var dot := if point then "." else "";
    var body := i + dot + f;
    IndexOfNone(body, {'e', 'E'}, tail);
    assert body == i + (dot + f);
    IndexOfNone(i, {'.'}, dot + f);
  }

  lemma UnsignedText(sign: string, rest: string)
    requires sign in {"", "+", "-"} && rest != "" && rest[0] !in {'+', '-'}
    ensures sign + rest != "" && Unsigned(sign + rest) == rest && ((sign + rest)[0] == '-' <==> sign == "-")
  {
    if sign == "" {
      assert sign + rest == rest;
    } else {
      assert (sign + rest)[0] == sign[0] && (sign + rest)[1..] == rest;
    }
  }

  lemma MantissaIs(s: string, body: string, tail: string)
    requires Unsigned(s) == body + tail && tail != "" && IndexAny(body + tail, {'e', 'E'}) == |body|
    ensures Mantissa(s) == body && ExponentText(s) == tail[1..]
  {
    hide Unsigned, IndexAny;
    assert (body + tail)[..|body|] == body && (body + tail)[|body| + 1..] == tail[1..];
  }

  lemma TakenApart(s: string, sign: string, i: Digits, point: bool, f: Digits, tail: string)
    requires sign in {"", "+", "-"} && tail != "" && tail[0] in {'e', 'E'}
    requires (i != "" || f != "") && (point || f == "")
    requires s == sign + ((i + (if point then "." else "") + f) + tail)
    ensures s != "" && (s[0] == '-' <==> sign == "-")
    ensures IntPart(s) == i && FracPart(s) == f && ExponentText(s) == tail[1..]
  {
    hide IndexAny, Unsigned, Mantissa, ExponentText;
    var body := i + (if point then "." else "") + f;
    BodySplit(i, point, f, tail);
    assert (body + tail)[0] == body[0];
    UnsignedText(sign, body + tail);
    MantissaIs(s, body, tail);
  }

  /** A decimal text denotes sign times mantissa times a power of ten. */
  lemma TextDenotes(sign: string, i: Digits, point: bool, f: Digits, mark: char, expSign: string, e: Digits)
    requires sign in {"", "+", "-"} && expSign in {"", "+", "-"} && mark in {'e', 'E'}
    requires (i != "" || f != "") && (point || f == "") && e != "" && NatOf(e) <= 100000
    ensures var s := Written(sign, i, point, f, mark, expSign, e);
            && PartsOf(s).Some? && WholeExponent(s)
            && var m := Shift(NatOf(i) as real + Fraction(f), if expSign == "-" then -(NatOf(e) as int) else NatOf(e));
               NumberValue(s) == if sign == "-" then -m else m
  {
    hide Shift, NatOf, Fraction, IntPart, FracPart, ExponentText, ExponentOf;
    var tail := [mark] + expSign + e;
    assert tail[1..] == expSign + e;
    TakenApart(Written(sign, i, point, f, mark, expSign, e), sign, i, point, f, tail);
    ExponentScanned(expSign, e);
  }

  lemma ExponentThere(s: string, sign: string, i: Digits, point: bool, f: Digits, tail: string)
    requires sign in {"", "+", "-"} && tail != "" && tail[0] in {'e', 'E'} && (i != "" || f != "") && (point || f == "")
    requires s == sign + ((i + (if point then "." else "") + f) + tail)
    ensures IndexAny(Unsigned(s), {'e', 'E'}) < |Unsigned(s)|
  {
    hide IndexAny, Unsigned;
    var body := i + (if point then "." else "") + f;
    BodySplit(i, point, f, tail);
    assert (body + tail)[0] == body[0];
    UnsignedText(sign, body + tail);
  }

  /** A number whose exponent is not a whole number of digits, if only because nothing follows the e, is refused by
      addition, although it may be a number elsewhere. */
  lemma LooseExponentRefused(sign: string, i: Digits, point: bool, f: Digits, tail: string, other: string, sub: bool)
    requires sign in {"", "+", "-"} && tail != "" && tail[0] in {'e', 'E'} && (i != "" || f != "") && (point || f == "")
    requires tail[1..] == "" || !AllDigits(if tail[1] in {'+', '-'} then tail[2..] else tail[1..])
    ensures var s := sign + ((i + (if point then "." else "") + f) + tail);
            AddNumbers(s, other, sub) == Err && AddNumbers(other, s, sub) == Err
  {
    hide PartsOf, Unsigned, IndexAny, ExponentText, RatText;
    var s := sign + ((i + (if point then "." else "") + f) + tail);
    ExponentThere(s, sign, i, point, f, tail);
    TakenApart(s, sign, i, point, f, tail);
    if tail[1..] != "" {
      assert tail[1..][0] == tail[1] && tail[1..][1..] == tail[2..];
    }
  }

  lemma PlainApart(s: string, sign: string, i: Digits, point: bool, f: Digits)
    requires sign in {"", "+", "-"} && (i != "" || f != "") && (point || f == "")
    requires s == sign + (i + (if point then "." else "") + f)
    ensures s != "" && (s[0] == '-' <==> sign == "-")
    ensures IntPart(s) == i && FracPart(s) == f && ExponentText(s) == "" && WholeExponent(s)
  {
    hide IndexAny;
    var body := i + (if point then "." else "") + f;
    PlainBody(i, point, f);
    UnsignedText(sign, body);
    hide Unsigned;
    assert Mantissa(s) == body;
  }

  /** The same without an exponent. */
  lemma PlainDenotes(sign: string, i: Digits, point: bool, f: Digits)
    requires sign in {"", "+", "-"} && (i != "" || f != "") && (point || f == "")
    ensures var s := sign + (i + (if point then "." else "") + f);
            && PartsOf(s).Some? && WholeExponent(s)
            && var m := NatOf(i) as real + Fraction(f); NumberValue(s) == if sign == "-" then -m else m
  {
    hide NatOf, Fraction, IntPart, FracPart, ExponentText, ExponentOf, WholeExponent;
    PlainApart(sign + (i + (if point then "." else "") + f), sign, i, point, f);
    NoExponent();
    ShiftByZero(NatOf(i) as real + Fraction(f));
  }

  // ---- keys ----

  /** A value has a key exactly if it is a string or blob that is not empty, or a number that is zero or between
      10^-32769 and 10^32767. */
  lemma HasKeyIff(v: AV)
    ensures KeyBytes(v).Some? <==>
            match v
            case S(t) => t != []
            case B(b) => b != []
            case N(n) =>
              PartsOf(n).Some? &&
              var x := NumberValue(n); x == 0.0 || Shift(1.0, -32769) <= Absolute(x) < Shift(1.0, 32767)
            case _ => false
  {
    hide Shift, PartsOf, TextKey, SignedKey, Normalize, Denotation;
    match v {
      case N(n) =>
        if PartsOf(n).Some? {
          var d := DecOf(n).value;
          NormalizeExact(PartsOf(n).value);
          assert Value(d) == NumberValue(n);
          MagnitudeOf(d);
          if d.sign != 0 {
            ExponentIsSize(d, 32767);
            ExponentIsSize(d, -32769);
            NotZero(d);
          }
        }
      case _ =>
    }
  }

  /** The value has the declared type of a key attribute. */
  predicate OfType(v: AV, typ: KeyType) {
    match v
    case S(_) => typ == KeyS
    case N(_) => typ == KeyN
    case B(_) => typ == KeyB
    case _ => false
  }

  // ---- the key of an item ----

  /** The attribute is there, of the declared key type, and b is its key. */
  predicate KeyAttribute(item: Item, name: string, typ: KeyType, b: bytes) {
    name in item && OfType(item[name], typ) && KeyBytes(item[name]) == Some(b)
  }

  predicate HasKey(t: Table, item: Item, k: Key) {
    KeyAttribute(item, t.hashKey, t.hashType, k.pk) &&
    if t.rangeKey == "" then k.sk == [] else KeyAttribute(item, t.rangeKey, t.rangeType, k.sk)
  }

  /** A request key consists of the key attributes and nothing else. */
  predicate IsKey(t: Table, key: Item, k: Key) {
    HasKey(t, key, k) && forall n :: n in key ==> n == t.hashKey || n == t.rangeKey
  }

  lemma TypedKeyIff(item: Item, name: string, typ: KeyType, b: bytes)
    ensures TypedKey(item, name, typ) == Ok(b) <==> KeyAttribute(item, name, typ, b)
  {
    hide NumberKey, TextKey;
  }

  lemma ItemKeyIff(t: Table, item: Item, k: Key)
    ensures ItemKey(t, item) == Ok(k) <==> HasKey(t, item, k)
  {
    hide TypedKey, KeyAttribute;
    TypedKeyIff(item, t.hashKey, t.hashType, k.pk);
    TypedKeyIff(item, t.rangeKey, t.rangeType, k.sk);
  }

  lemma TableKeyIff(t: Table, key: Item, k: Key)
    ensures TableKey(t, key) == Ok(k) <==> IsKey(t, key, k)
  {
    hide ItemKey, KeyBytes;
    ItemKeyIff(t, key, k);
  }

  // ---- validity ----

  /** The value is acceptable, not looking at what it contains. */
  predicate ValidHere(v: AV) {
    match v
    case N(n) => ValidNumber(n)
    case NULL(b) => b
    case SS(ss) => |ss| > 0
    case NS(ns) => |ns| > 0 && forall i :: 0 <= i < |ns| ==> ValidNumber(ns[i])
    case BS(bs) => |bs| > 0
    case _ => true
  }

  ghost predicate ValidEverywhere(v: AV) {
    forall p :: Get(v, p).Some? ==> ValidHere(Get(v, p).value)
  }

  /** A value is valid exactly if whatever lies at one of its paths is acceptable. */
  lemma {:induction false} ValidIff(v: AV)
    ensures ValidAV(v) <==> ValidEverywhere(v)
    decreases v
  {
    hide ValidNumber;
    if ValidAV(v) {
      forall p | Get(v, p).Some? ensures ValidHere(Get(v, p).value) {
        ValidBelow(v, p);
      }
    }
    if ValidEverywhere(v) {
      assert Get(v, []) == Some(v) && ValidHere(v);
      match v {
        case L(es) =>
          forall i | 0 <= i < |es| ensures ValidAV(es[i]) {
            EverywhereBelow(v, Index(i));
            ValidIff(es[i]);
          }
        case M(m) =>
          forall k | k in m ensures ValidAV(m[k]) {
            EverywhereBelow(v, Name(k));
            ValidIff(m[k]);
          }
        case _ =>
      }
    }
  }

  lemma {:induction false} ValidBelow(v: AV, p: seq<Elem>)
    requires ValidAV(v) && Get(v, p).Some?
    ensures ValidHere(Get(v, p).value)
    decreases |p|
  {
    hide ValidNumber;
    if p != [] {
      ValidBelow(Child(v, p[0]).value, p[1..]);
    }
  }

  lemma EverywhereBelow(v: AV, e: Elem)
    requires ValidEverywhere(v) && Child(v, e).Some?
    ensures ValidEverywhere(Child(v, e).value)
  {
    hide ValidHere, Child;
    var c := Child(v, e).value;
    forall p | Get(c, p).Some? ensures ValidHere(Get(c, p).value) {
      assert ([e] + p)[1..] == p;
      assert Get(v, [e] + p) == Get(c, p);
    }
  }

  // ---- sizes ----

  /** A number counts one byte, and one more for every two significant digits it needs. */
  lemma NumberCounts(s: string, n: nat)
    requires PartsOf(s).Some? && FitsDigits(NumberValue(s), n) && (n > 0 ==> !FitsDigits(NumberValue(s), n - 1))
    ensures Size(N(s)) == 1 + (n + 1) / 2
  {
    hide Shift, PartsOf, FitsDigits, Normalize, Denotation;
    var d := DecOf(s).value;
    NormalizeExact(PartsOf(s).value);
    DigitsNeeded(d, n);
    if n > 0 {
      DigitsNeeded(d, n - 1);
    }
  }

  /** A list counts 3, and one more for every element. */
  lemma ListCounts(es: seq<AV>, e: AV)
    ensures Size(L([])) == 3 && Size(L(es + [e])) == Size(L(es)) + 1 + Size(e)
  {
    assert (es + [e])[..|es|] == es;
  }

  /** A map counts 3, and for every entry one more and its name; an item counts names and values. */
  lemma MapCounts(m: map<string, AV>, k: string, e: AV)
    requires k !in m
    ensures Size(M(map[])) == 3 && Size(M(m[k := e])) == Size(M(m)) + 1 + |k| + Size(e)
    ensures ItemSize(map[]) == 0 && ItemSize(m[k := e]) == ItemSize(m) + |k| + Size(e)
  {
    hide NamedSizes, Size;
    var n := m[k := e];
    assert n.Keys == m.Keys + {k} && n.Keys - {k} == m.Keys && |n| == |m| + 1;
    NamedSizesSplit(M(n), n.Keys, k);
    SameNamed(M(n), M(m), m.Keys);
    NoNames(M(map[]));
    SizeOfMap(n);
    SizeOfMap(m);
    SizeOfMap(map[]);
  }

  lemma SizeOfMap(m: map<string, AV>)
    ensures Size(M(m)) == 3 + |m| + NamedSizes(M(m), m.Keys)
  {
  }

  lemma NoNames(v: AV)
    requires v.M?
    ensures NamedSizes(v, {}) == 0
  {
  }

  lemma {:induction false} SameNamed(v: AV, w: AV, names: set<string>)
    requires v.M? && w.M? && names <= v.attrs.Keys && names <= w.attrs.Keys
    requires forall k :: k in names ==> v.attrs[k] == w.attrs[k]
    ensures NamedSizes(v, names) == NamedSizes(w, names)
    decreases names
  {
    hide Size;
    if k :| k in names {
      NamedSizesSplit(v, names, k);
      NamedSizesSplit(w, names, k);
      SameNamed(v, w, names - {k});
    }
  }

  /** Sets count their elements. */
  lemma SetsCount(a: seq<bytes>, t: bytes, ns: seq<string>, s: string)
    ensures Size(SS([])) == Size(BS([])) == Size(NS([])) == 0
    ensures Size(SS(a + [t])) == Size(SS(a)) + |t| && Size(BS(a + [t])) == Size(BS(a)) + |t|
    ensures Size(NS(ns + [s])) == Size(NS(ns)) + Size(N(s))
    ensures Size(S(t)) == Size(B(t)) == |t| && Size(BOOL(true)) == Size(BOOL(false)) == Size(NULL(true)) == 1
  {
    hide NumberSize;
    assert (a + [t])[..|a|] == a;
    assert (ns + [s])[..|ns|] == ns;
  }
}
