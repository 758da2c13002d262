/** Decimal shifts: multiplication of an exact rational by a power of ten. */
module Powers {

  /** x * 10^e, for any integer e. */
  ghost function Shift(x: real, e: int): real
    decreases if e < 0 then -e else e
  {
    if e == 0 then x
    else if e > 0 then 10.0 * Shift(x, e - 1)
    else Shift(x, e + 1) / 10.0
  }

  lemma ShiftStep(x: real, e: int)
    ensures Shift(x, e + 1) == 10.0 * Shift(x, e)
  {
  }

  lemma {:induction false} ShiftAdd(x: real, a: int, b: int)
    ensures Shift(Shift(x, a), b) == Shift(x, a + b)
    decreases if b < 0 then -b else b
  {
    if b > 0 {
      ShiftAdd(x, a, b - 1);
      ShiftStep(x, a + b - 1);
    } else if b < 0 {
      ShiftAdd(x, a, b + 1);
      ShiftStep(x, a + b);
    }
  }

  lemma ShiftBack(x: real, e: int)
    ensures Shift(Shift(x, e), -e) == x
  {
    ShiftAdd(x, e, -e);
  }

  lemma {:induction false} ShiftLinear(x: real, y: real, e: int)
    ensures Shift(x + y, e) == Shift(x, e) + Shift(y, e)
    ensures Shift(-x, e) == -Shift(x, e)
    ensures Shift(10.0 * x, e) == 10.0 * Shift(x, e)
    decreases if e < 0 then -e else e
  {
    if e > 0 {
      ShiftLinear(x, y, e - 1);
    } else if e < 0 {
      ShiftLinear(x, y, e + 1);
    }
  }

  lemma {:induction false} ShiftMonotone(x: real, y: real, e: int)
    ensures x < y <==> Shift(x, e) < Shift(y, e)
    ensures x == y <==> Shift(x, e) == Shift(y, e)
    decreases if e < 0 then -e else e
  {
    if e > 0 {
      ShiftMonotone(x, y, e - 1);
    } else if e < 0 {
      ShiftMonotone(x, y, e + 1);
    }
  }

  lemma {:induction false} ShiftZero(e: int)
    ensures Shift(0.0, e) == 0.0
    decreases if e < 0 then -e else e
  {
    if e > 0 {
      ShiftZero(e - 1);
    } else if e < 0 {
      ShiftZero(e + 1);
    }
  }

  lemma {:induction false} ShiftGrows(x: real, a: int, b: int)
    requires x >= 0.0 && a <= b
    ensures Shift(x, a) <= Shift(x, b)
    decreases b - a
  {
    if a < b {
      ShiftGrows(x, a, b - 1);
      ShiftMonotone(0.0, x, b - 1);
      ShiftZero(b - 1);
      ShiftStep(x, b - 1);
    }
  }
}
