/** Order-preserving encoding of key attribute values (keyenc.go). */
module KeyEncoding {
  import opened Wrappers
  import opened Bytes
  import opened Decimal
  import opened Numbers
  import opened Values

  const TAG_S: byte := 0x01
  const TAG_N: byte := 0x02
  const TAG_B: byte := 0x03

  const MIN_KEY_EXPONENT := -32768
  const MAX_KEY_EXPONENT := 32767

  // ---- S and B ----

  /** src with every 0x00 replaced by 0x00 0xFF. */
  function Escaped(src: bytes): bytes {
    if src == [] then []
    else (if src[0] == 0 then [0, 0xFF] else [src[0]]) + Escaped(src[1..])
  }

  const TERMINATOR: bytes := [0, 0]

  method AppendEscaped(dst: bytes, src: bytes) returns (out: bytes)
    ensures out == dst + Escaped(src)
  {
    out := dst;
    for i := 0 to |src|
      invariant out + Escaped(src[i..]) == dst + Escaped(src)
    {
      assert src[i..][1..] == src[i + 1..];
      var b := src[i];
      ghost var before := out;
      if b == 0x00 {
        out := out + [0x00, 0xFF];
        assert out + Escaped(src[i + 1..]) == before + ([0, 0xFF] + Escaped(src[i + 1..]));
      } else {
        out := out + [b];
        assert out + Escaped(src[i + 1..]) == before + ([b] + Escaped(src[i + 1..]));
      }
    }
  }

  // ---- N ----

  /** The two bytes of uint16(exp + 32768), high byte first. */
  function ExponentBytes(exp: int): (b: bytes)
    requires MIN_KEY_EXPONENT <= exp <= MAX_KEY_EXPONENT
    ensures |b| == 2
  {
    [(exp + 32768) / 256, (exp + 32768) % 256]
  }

  function PositivePayload(d: Dec): bytes
    requires Encodable(d)
  {
    ExponentBytes(d.exp) + DigitBytes(d.digits) + [0]
  }

  predicate Encodable(d: Dec) {
    d.Canonical() && MIN_KEY_EXPONENT <= d.exp <= MAX_KEY_EXPONENT
  }

  function SignedKey(d: Dec): (k: bytes)
    requires Encodable(d)
    ensures |k| >= 2 && k[0] == TAG_N && k[1] == d.sign + 1
  {
    if d.sign == 0 then [TAG_N, 0x01]
    else if d.sign > 0 then [TAG_N, 0x02] + PositivePayload(d)
    else [TAG_N, 0x00] + Complement(PositivePayload(d))
  }

  function NumberKey(s: string): Option<bytes> {
    var d :- DecOf(s);
    if Encodable(d) then Some(SignedKey(d)) else None
  }

  /** A signed key byte by byte, as it is appended. */
  lemma SignedKeyLayout(d: Dec)
    requires Encodable(d) && d.sign != 0
    ensures var e, digits := ExponentBytes(d.exp), DigitBytes(d.digits);
            SignedKey(d) == if d.sign > 0 then [TAG_N, 0x02, e[0], e[1]] + digits + [0x00]
                            else [TAG_N, 0x00, 255 - e[0], 255 - e[1]] + Complement(digits) + [0xFF]
  {
    var e, digits := ExponentBytes(d.exp), DigitBytes(d.digits);
    if d.sign > 0 {
      assert [TAG_N, 0x02] + (e + digits + [0x00]) == [TAG_N, 0x02, e[0], e[1]] + digits + [0x00];
    } else {
      assert Complement(e + digits + [0x00]) == [255 - e[0], 255 - e[1]] + Complement(digits) + [0xFF];
    }
  }

  /** The switch of encodeNumberKey, for a parsed number. */
  method EncodeParsed(sign: int, digits: Digits, exp: int) returns (out: bytes, ok: bool)
    requires Dec(sign, digits, exp).Canonical()
    ensures ok <==> Encodable(Dec(sign, digits, exp))
    ensures ok ==> out == SignedKey(Dec(sign, digits, exp))
  {
    if sign == 0 {
      return [TAG_N] + [0x01], true;
    }
    if exp < MIN_KEY_EXPONENT || exp > MAX_KEY_EXPONENT {
      return [], false;
    }
    SignedKeyLayout(Dec(sign, digits, exp));
    var e := ExponentBytes(exp);
    if sign > 0 {
      out := AppendDigits([TAG_N, 0x02, e[0], e[1]], digits, false);
      out := out + [0x00];
    } else {
      out := AppendDigits([TAG_N, 0x00, 255 - e[0], 255 - e[1]], digits, true);
      out := out + [0xFF];
    }
    ok := true;
  }

  /** encodeNumberKey; ok is false where the source returns an error. */
  method EncodeNumberKey(s: string) returns (out: bytes, ok: bool)
    ensures NumberKey(s) == if ok then Some(out) else None
  {
    var sign, digits, exp, parsed := ParseDecimal(s);
    if !parsed {
      return [], false;
    }
    out, ok := EncodeParsed(sign, digits, exp);
  }

  /** The digit loop of encodeNumberKey, complementing for a negative number. */
  method AppendDigits(dst: bytes, digits: Digits, negative: bool) returns (out: bytes)
    ensures out == dst + (if negative then Complement(DigitBytes(digits)) else DigitBytes(digits))
  {
    out := dst;
    for i := 0 to |digits|
      invariant out == dst + (if negative then Complement(DigitBytes(digits)[..i]) else DigitBytes(digits)[..i])
    {
      out := out + [if negative then 255 - digits[i] as int else digits[i] as int];
    }
    assert DigitBytes(digits)[..|digits|] == DigitBytes(digits);
  }

  // ---- any key value ----

  function TextKey(tag: byte, t: bytes): (k: bytes)
    ensures |k| >= 3 && k[0] == tag
  {
    [tag] + (Escaped(t) + TERMINATOR)
  }

  /** encodeKeyValue: None for empty S or B, for a bad number and for a type that is not a key type. */
  function KeyBytes(v: AV): Option<bytes> {
    match v
    case S(t) => if t == [] then None else Some(TextKey(TAG_S, t))
    case B(b) => if b == [] then None else Some(TextKey(TAG_B, b))
    case N(n) => NumberKey(n)
    case _ => None
  }

  /** keyPrefix: the encoding of an S or B without its terminator. */
  function KeyPrefix(v: AV): Option<bytes> {
    if v.S? || v.B? then
      var full :- KeyBytes(v);
      Some(full[..|full| - 2])
    else None
  }

  /** compareOrder of the expression engine; Err for mixed or unordered types (expr.go). */
  function CompareOrder(a: AV, b: AV): Result<int> {
    match (a, b)
    case (S(x), S(y)) => Ok(Compare(x, y))
    case (N(x), N(y)) => CompareNumbers(x, y)
    case (B(x), B(y)) => Ok(Compare(x, y))
    case _ => Err
  }

  // ---- the order theorem ----

  /** The first two bytes of a terminated escaped text. */
  lemma EscapedHead(a: bytes)
    ensures var x := Escaped(a) + TERMINATOR;
            && |x| >= 2
            && (a == [] ==> x[0] == 0 && x[1] == 0)
            && (a != [] ==> x[0] == a[0] && (a[0] == 0 ==> x[1] == 0xFF))
  {
    if a != [] {
      var head := if a[0] == 0 then [0, 0xFF] else [a[0]];
      assert Escaped(a) == head + Escaped(a[1..]);
      assert (Escaped(a) + TERMINATOR)[0] == head[0];
      assert a[0] == 0 ==> (Escaped(a) + TERMINATOR)[1] == head[1];
    }
  }

  lemma SplitByHead(x: bytes, y: bytes)
    requires |x| >= 2 && |y| >= 2
    requires x[0] != y[0] || x[1] != y[1]
    ensures Split(x, y)
    ensures Compare(x, y) == if x[0] < y[0] || (x[0] == y[0] && x[1] < y[1]) then -1 else 1
  {
    assert x[1..][0] == x[1] && y[1..][0] == y[1];
  }

  /** Terminated escaped texts compare like the texts, and neither extends the other. */
  lemma {:induction false} EscapedOrder(a: bytes, b: bytes)
    ensures Compare(Escaped(a) + TERMINATOR, Escaped(b) + TERMINATOR) == Compare(a, b)
    ensures a != b ==> Split(Escaped(a) + TERMINATOR, Escaped(b) + TERMINATOR)
  {
    if a != [] && b != [] && a[0] == b[0] {
      EscapedOrder(a[1..], b[1..]);
      var p := if a[0] == 0 then [0, 0xFF] else [a[0]];
      var x, y := Escaped(a[1..]) + TERMINATOR, Escaped(b[1..]) + TERMINATOR;
      ComparePrefix(p, x, y);
      assert Escaped(a) + TERMINATOR == p + x && Escaped(b) + TERMINATOR == p + y;
      assert a == [a[0]] + a[1..] && b == [b[0]] + b[1..];
    } else if a != [] || b != [] {
      EscapedHead(a);
      EscapedHead(b);
      SplitByHead(Escaped(a) + TERMINATOR, Escaped(b) + TERMINATOR);
    } else {
      CompareZero(Escaped(a) + TERMINATOR, Escaped(b) + TERMINATOR);
    }
  }

  lemma ExponentOrderBytes(x: int, y: int)
    requires MIN_KEY_EXPONENT <= x <= MAX_KEY_EXPONENT && MIN_KEY_EXPONENT <= y <= MAX_KEY_EXPONENT
    ensures Compare(ExponentBytes(x), ExponentBytes(y)) == if x < y then -1 else if x > y then 1 else 0
    ensures x != y ==> Split(ExponentBytes(x), ExponentBytes(y))
  {
    var a, b := ExponentBytes(x), ExponentBytes(y);
    if x != y {
      SplitByHead(a, b);
    } else {
      CompareZero(a, b);
    }
  }

  /** Terminated significands order like padded ones: a shorter one is not followed by zeros only. */
  lemma {:induction false} TerminatedDigitOrder(a: Digits, b: Digits)
    requires a != "" ==> a[|a| - 1] != '0'
    requires b != "" ==> b[|b| - 1] != '0'
    ensures Compare(DigitBytes(a) + [0], DigitBytes(b) + [0]) == SignOf(Fraction(a) - Fraction(b))
    ensures a != b ==> Split(DigitBytes(a) + [0], DigitBytes(b) + [0])
  {
    hide NatOf, SignOf, Fraction, Compare, Split;
    var x, y := DigitBytes(a) + [0], DigitBytes(b) + [0];
    FractionHeads(a, b);
    ByHeads(x, y);
    assert x[0] == (if a == "" then 0 else a[0] as int) && y[0] == (if b == "" then 0 else b[0] as int);
    if a != "" && b != "" {
      TerminatedDigitOrder(a[1..], b[1..]);
      assert x[1..] == DigitBytes(a[1..]) + [0] && y[1..] == DigitBytes(b[1..]) + [0];
      assert a == [a[0]] + a[1..] && b == [b[0]] + b[1..];
    } else if a == "" && b == "" {
      assert x[1..] == [] && y[1..] == [];
    }
  }

  lemma ByHeads(x: bytes, y: bytes)
    requires x != [] && y != []
    ensures Compare(x, y) == if x[0] < y[0] then -1 else if x[0] > y[0] then 1 else Compare(x[1..], y[1..])
    ensures x[0] != y[0] || Split(x[1..], y[1..]) ==> Split(x, y)
    ensures Compare([], []) == 0
  {
  }

  /** Significands compare by their first digits, and one without outer zeros exceeds the empty one. */
  lemma FractionHeads(a: Digits, b: Digits)
    requires a != "" ==> a[|a| - 1] != '0'
    requires b != "" ==> b[|b| - 1] != '0'
    ensures SignOf(Fraction(a) - Fraction(b)) ==
            if a == "" && b == "" then 0
            else if a == "" then -1
            else if b == "" then 1
            else if a[0] < b[0] then -1
            else if a[0] > b[0] then 1
            else SignOf(Fraction(a[1..]) - Fraction(b[1..]))
  {
    if a != "" {
      FractionBounds(a[1..]);
      NonzeroFraction(a);
    }
    if b != "" {
      FractionBounds(b[1..]);
      NonzeroFraction(b);
    }
  }

  lemma PayloadOrder(a: Dec, b: Dec)
    requires Encodable(a) && Encodable(b)
    requires a.sign == b.sign != 0
    ensures Compare(PositivePayload(a), PositivePayload(b)) * a.sign == CompareDec(a, b)
    ensures a != b ==> Split(PositivePayload(a), PositivePayload(b))
  {
    var ea, eb := ExponentBytes(a.exp), ExponentBytes(b.exp);
    var da, db := DigitBytes(a.digits) + [0], DigitBytes(b.digits) + [0];
    assert PositivePayload(a) == ea + da && PositivePayload(b) == eb + db;
    ExponentOrderBytes(a.exp, b.exp);
    if a.exp != b.exp {
      SplitDecides(ea, eb, da, db);
    } else {
      ComparePrefix(ea, da, db);
      TerminatedDigitOrder(a.digits, b.digits);
      PaddedSignificandOrder(a.digits, b.digits);
    }
  }

  lemma SignedKeyOrder(x: Dec, y: Dec)
    requires Encodable(x) && Encodable(y)
    ensures Compare(SignedKey(x), SignedKey(y)) == CompareDec(x, y)
    ensures x != y ==> Split(SignedKey(x), SignedKey(y))
  {
    if x.sign != y.sign {
      SplitByHead(SignedKey(x), SignedKey(y));
    } else if x != y {
      PayloadOrder(x, y);
      var px, py := PositivePayload(x), PositivePayload(y);
      if x.sign > 0 {
        ComparePrefix([TAG_N, 0x02], px, py);
      } else {
        ComplementReverses(px, py);
        ComparePrefix([TAG_N, 0x00], Complement(px), Complement(py));
      }
    } else {
      CompareZero(SignedKey(x), SignedKey(y));
      DecCanonical(x, y);
    }
  }

  /** Byte order of number keys is numeric order, for all numbers that have a key; equal keys are
      equal numbers, and the keys of distinct numbers split. */
  lemma NumberKeyOrder(a: string, b: string)
    requires NumberKey(a).Some? && NumberKey(b).Some?
    ensures CompareNumbers(a, b) == Ok(Compare(NumberKey(a).value, NumberKey(b).value))
    ensures NumberKey(a) != NumberKey(b) ==> Split(NumberKey(a).value, NumberKey(b).value)
    ensures NumberKey(a) == NumberKey(b) <==> NumberValue(a) == NumberValue(b)
  {
    SignedKeyOrder(DecOf(a).value, DecOf(b).value);
    CompareZero(NumberKey(a).value, NumberKey(b).value);
    DecCanonical(DecOf(a).value, DecOf(b).value);
    TripleIffSameNumber(a, b);
  }

  lemma TextKeyOrder(tag: byte, s: bytes, t: bytes)
    ensures Compare(TextKey(tag, s), TextKey(tag, t)) == Compare(s, t)
    ensures s != t ==> Split(TextKey(tag, s), TextKey(tag, t))
  {
    EscapedOrder(s, t);
    ComparePrefix([tag], Escaped(s) + TERMINATOR, Escaped(t) + TERMINATOR);
  }

  lemma KeyTag(v: AV)
    requires KeyBytes(v).Some?
    ensures KeyBytes(v).value != []
    ensures KeyBytes(v).value[0] == match v case S(_) => TAG_S case B(_) => TAG_B case _ => TAG_N
  {
  }

  lemma SplitByTag(x: bytes, y: bytes)
    requires x != [] && y != []
    ensures x[0] != y[0] ==> Split(x, y)
  {
  }

  /** Byte order of two keys of one type is the order of the values, equal keys are equal values,
      and distinct keys of any types split. */
  lemma KeyOrder(v: AV, w: AV)
    requires KeyBytes(v).Some? && KeyBytes(w).Some?
    ensures KeyTypeOf(v) == KeyTypeOf(w) ==>
              CompareOrder(v, w) == Ok(Compare(KeyBytes(v).value, KeyBytes(w).value))
    ensures KeyBytes(v) != KeyBytes(w) ==> Split(KeyBytes(v).value, KeyBytes(w).value)
    ensures KeyBytes(v) == KeyBytes(w) <==> CompareOrder(v, w) == Ok(0)
  {
    hide NumberKey, TextKey, Compare, Split, CompareNumbers;
    CompareZero(KeyBytes(v).value, KeyBytes(w).value);
    KeyTag(v);
    KeyTag(w);
    SplitByTag(KeyBytes(v).value, KeyBytes(w).value);
    match (v, w) {
      case (S(s), S(t)) => TextKeyOrder(TAG_S, s, t);
      case (B(s), B(t)) => TextKeyOrder(TAG_B, s, t);
      case (N(s), N(t)) => NumberKeyOrder(s, t);
      case _ =>
    }
  }

  /** No key is a proper prefix of another. */
  lemma KeysPrefixFree(v: AV, w: AV)
    requires KeyBytes(v).Some? && KeyBytes(w).Some?
    requires KeyBytes(v).value <= KeyBytes(w).value
    ensures KeyBytes(v) == KeyBytes(w)
  {
    KeyOrder(v, w);
    if KeyBytes(v) != KeyBytes(w) {
      SplitNotPrefix(KeyBytes(v).value, KeyBytes(w).value);
    }
  }
}
