/** Condition expressions: syntax trees and their evaluation (expr.go). */
module Expressions {
  import opened Wrappers
  import opened Bytes
  import opened Decimal
  import opened Numbers
  import opened Values
  import opened Equality
  import opened Paths
  import opened KeyEncoding
  import opened KeyRanges

  datatype Operand =
    | PathOf(path: Path)
    | ValueRef(vref: string)
    | SizeOf(path: Path)

  /** The operator tokens of the lexer: = <> < <= > >= */
  datatype CmpOp = Eq | Ne | Lt | Le | Gt | Ge

  datatype Function = AttributeExists | AttributeNotExists | AttributeType | BeginsWith | Contains

  datatype Cond =
    | Or(terms: seq<Cond>)
    | And(terms: seq<Cond>)
    | Not(e: Cond)
    | Cmp(op: CmpOp, left: Operand, right: Operand)
    | Between(v: Operand, lo: Operand, hi: Operand)
    | In(v: Operand, list: seq<Operand>)
    | Func(fn: Function, args: seq<Operand>)

  /** ExpressionAttributeValues; names are resolved by the parser. */
  type Env = map<string, AV>

  function SizeValue(v: AV): Result<nat> {
    match v
    case S(t) => Ok(|t|)
    case B(b) => Ok(|b|)
    case SS(ss) => Ok(|ss|)
    case NS(ns) => Ok(|ns|)
    case BS(bs) => Ok(|bs|)
    case L(es) => Ok(|es|)
    case M(m) => Ok(|m|)
    case _ => Err
  }

  /** resolveOperand: an error, or the value, or None for a path that does not resolve. */
  function ResolveOperand(o: Operand, item: Item, env: Env): Result<Option<AV>> {
    match o
    case ValueRef(r) => if r in env then Ok(Some(env[r])) else Err
    case PathOf(p) => Ok(ResolvePath(item, p))
    case SizeOf(p) =>
      match ResolvePath(item, p)
      case None => Ok(None)
      case Some(v) =>
        var n :- SizeValue(v);
        Ok(Some(N(DecimalText(n))))
  }

  /** beginsWith: an error unless the first operand is S or B. */
  function EvalBeginsWith(v: AV, p: AV): Result<bool> {
    if v.S? || v.B? then Ok(StartsWith(v, p)) else Err
  }

  /** strings.Contains and bytes.Contains. */
  predicate IsInfix(x: bytes, y: bytes) {
    x <= y || (y != [] && IsInfix(x, y[1..]))
  }

  /** One byte string occurs in another. */
  lemma {:induction false} InfixExact(x: bytes, y: bytes)
    ensures IsInfix(x, y) <==> exists i :: 0 <= i <= |y| && x <= y[i..]
  {
    assert y[0..] == y;
    if y != [] {
      InfixExact(x, y[1..]);
      if i :| 0 <= i < |y| && x <= y[1..][i..] {
        assert y[1..][i..] == y[i + 1..];
      }
      if i :| 0 < i <= |y| && x <= y[i..] {
        assert y[i..] == y[1..][i - 1..];
      }
    } else {
      assert y[0..] == [];
    }
  }

  function EvalContains(v: AV, arg: AV): Result<bool> {
    match v
    case S(t) => Ok(arg.S? && IsInfix(arg.text, t))
    case B(b) => Ok(arg.B? && IsInfix(arg.blob, b))
    case SS(ss) => Ok(arg.S? && arg.text in ss)
    case NS(ns) => Ok(arg.N? && exists i :: 0 <= i < |ns| && NumbersEqual(ns[i], arg.number))
    case BS(bs) => Ok(arg.B? && arg.blob in bs)
    case L(es) => Ok(exists i :: 0 <= i < |es| && AvEqual(es[i], arg))
    case _ => Err
  }

  function TypeName(v: AV): string {
    match v
    case S(_) => "S"
    case N(_) => "N"
    case B(_) => "B"
    case BOOL(_) => "BOOL"
    case NULL(_) => "NULL"
    case SS(_) => "SS"
    case NS(_) => "NS"
    case BS(_) => "BS"
    case L(_) => "L"
    case M(_) => "M"
  }

  function UpperChar(c: char): char {
    if 'a' <= c <= 'z' then (c as int - 32) as char else c
  }

  function Upper(s: string): string {
    seq(|s|, i requires 0 <= i < |s| => UpperChar(s[i]))
  }

  function TextOf(b: bytes): string {
    seq(|b|, i requires 0 <= i < |b| => b[i] as char)
  }

  /** typeNameOperand: a value reference to an S, or a bare word. */
  function TypeNameOperand(o: Operand, env: Env): Result<string> {
    match o
    case ValueRef(r) => if r in env && env[r].S? then Ok(Upper(TextOf(env[r].text))) else Err
    case PathOf(p) => if |p| == 1 then Ok(Upper(p[0].name)) else Err
    case SizeOf(_) => Err
  }

  function EvalCmp(op: CmpOp, left: Operand, right: Operand, item: Item, env: Env): Result<bool> {
    var l :- ResolveOperand(left, item, env);
    var r :- ResolveOperand(right, item, env);
    if l.None? || r.None? then Ok(op == Ne)
    else if op == Eq then Ok(AvEqual(l.value, r.value))
    else if op == Ne then Ok(!AvEqual(l.value, r.value))
    else
      match CompareOrder(l.value, r.value)
      case Err => Ok(false)
      case Ok(c) => Ok(OrderHolds(op, c))
  }

  /** Whether a comparison result satisfies an operator. */
  predicate OrderHolds(op: CmpOp, c: int) {
    match op
    case Eq => c == 0
    case Ne => c != 0
    case Lt => c < 0
    case Le => c <= 0
    case Gt => c > 0
    case Ge => c >= 0
  }

  function EvalBetween(v: Operand, lo: Operand, hi: Operand, item: Item, env: Env): Result<bool> {
    var x :- ResolveOperand(v, item, env);
    var l :- ResolveOperand(lo, item, env);
    var h :- ResolveOperand(hi, item, env);
    if x.None? || l.None? || h.None? then Ok(false)
    else
      match (CompareOrder(x.value, l.value), CompareOrder(x.value, h.value))
      case (Ok(cl), Ok(ch)) => Ok(cl >= 0 && ch <= 0)
      case _ => Ok(false)
  }

  /** The loop over an IN list: stops at the first match, fails at the first bad operand. */
  function EvalIn(v: AV, list: seq<Operand>, item: Item, env: Env): Result<bool> {
    if list == [] then Ok(false)
    else
      var o :- ResolveOperand(list[0], item, env);
      if o.Some? && AvEqual(v, o.value) then Ok(true) else EvalIn(v, list[1..], item, env)
  }

  /** Both arguments of a function, or None when one of them does not resolve. */
  function TwoValues(args: seq<Operand>, item: Item, env: Env): Result<Option<(AV, AV)>> {
    if |args| < 2 then Err
    else
      var v :- ResolveOperand(args[0], item, env);
      var arg :- ResolveOperand(args[1], item, env);
      if v.None? || arg.None? then Ok(None) else Ok(Some((v.value, arg.value)))
  }

  /** evalFunc; the parser fixes the number of arguments of each function. */
  function EvalFunc(fn: Function, args: seq<Operand>, item: Item, env: Env): Result<bool> {
    match fn
    case AttributeExists =>
      if |args| >= 1 && args[0].PathOf? then Ok(ResolvePath(item, args[0].path).Some?) else Err
    case AttributeNotExists =>
      if |args| >= 1 && args[0].PathOf? then Ok(ResolvePath(item, args[0].path).None?) else Err
    case AttributeType =>
      if |args| < 2 then Err
      else
        var v :- ResolveOperand(args[0], item, env);
        if v.None? then Ok(false)
        else
          var typ :- TypeNameOperand(args[1], env);
          Ok(TypeName(v.value) == typ)
    case BeginsWith =>
      var p :- TwoValues(args, item, env);
      if p.None? then Ok(false) else EvalBeginsWith(p.value.0, p.value.1)
    case Contains =>
      var p :- TwoValues(args, item, env);
      if p.None? then Ok(false) else EvalContains(p.value.0, p.value.1)
  }

  /** evalCond. Terms are evaluated left to right and evaluation stops when the result is known. */
  function EvalCond(c: Cond, item: Item, env: Env): Result<bool>
    decreases c, 1
  {
    match c
    case Or(ts) => EvalTerms(ts, true, item, env)
    case And(ts) => EvalTerms(ts, false, item, env)
    case Not(e) =>
      var b :- EvalCond(e, item, env);
      Ok(!b)
    case Cmp(op, l, r) => EvalCmp(op, l, r, item, env)
    case Between(v, lo, hi) => EvalBetween(v, lo, hi, item, env)
    case In(v, list) =>
      var x :- ResolveOperand(v, item, env);
      if x.None? then Ok(false) else EvalIn(x.value, list, item, env)
    case Func(fn, args) => EvalFunc(fn, args, item, env)
  }

  /** The loop over the terms of an Or or And: the first term that evaluates to stop decides. */
  function EvalTerms(ts: seq<Cond>, stop: bool, item: Item, env: Env): Result<bool>
    decreases ts, 0
  {
    if ts == [] then Ok(!stop)
    else
      var b :- EvalCond(ts[0], item, env);
      if b == stop then Ok(stop) else EvalTerms(ts[1..], stop, item, env)
  }

  /** The first i terms leave the result open. */
  predicate OpenBefore(ts: seq<Cond>, stop: bool, item: Item, env: Env, i: nat)
    requires i <= |ts|
  {
    forall j :: 0 <= j < i ==> EvalCond(ts[j], item, env) == Ok(!stop)
  }

  /** An Or is true exactly when a term is true behind terms that are all false, and false exactly when
      all terms are; dually for an And. A term that fails to evaluate matters only if no term before it
      decides. */
  lemma {:induction false} TermsDecide(ts: seq<Cond>, stop: bool, item: Item, env: Env)
    ensures EvalTerms(ts, stop, item, env) == Ok(!stop) <==> OpenBefore(ts, stop, item, env, |ts|)
    ensures EvalTerms(ts, stop, item, env) == Ok(stop) <==>
            exists i :: 0 <= i < |ts| && EvalCond(ts[i], item, env) == Ok(stop) && OpenBefore(ts, stop, item, env, i)
    ensures EvalTerms(ts, stop, item, env).Err? <==>
            exists i :: 0 <= i < |ts| && EvalCond(ts[i], item, env).Err? && OpenBefore(ts, stop, item, env, i)
    decreases |ts|
  {
    hide EvalCond;
    if ts != [] {
      var first, rest := EvalCond(ts[0], item, env), ts[1..];
      TermsDecide(rest, stop, item, env);
      if first == Ok(!stop) {
        forall i | 0 <= i <= |rest|
          ensures OpenBefore(ts, stop, item, env, i + 1) <==> OpenBefore(rest, stop, item, env, i)
        {
          OpenBehind(ts, stop, item, env, i);
        }
        forall i | 0 <= i < |rest|
          ensures ts[i + 1] == rest[i]
        {
        }
      } else {
        assert OpenBefore(ts, stop, item, env, 0);
        forall i | 0 < i <= |ts|
          ensures !OpenBefore(ts, stop, item, env, i)
        {
          assert EvalCond(ts[0], item, env) != Ok(!stop);
        }
      }
    }
  }

  lemma OpenBehind(ts: seq<Cond>, stop: bool, item: Item, env: Env, i: nat)
    requires ts != [] && i < |ts| && EvalCond(ts[0], item, env) == Ok(!stop)
    ensures OpenBefore(ts, stop, item, env, i + 1) <==> OpenBefore(ts[1..], stop, item, env, i)
  {
    hide EvalCond;
    var rest := ts[1..];
    assert forall j :: 0 <= j < |rest| ==> rest[j] == ts[j + 1];
    if OpenBefore(rest, stop, item, env, i) {
      forall j | 0 <= j < i + 1
        ensures EvalCond(ts[j], item, env) == Ok(!stop)
      {
        if j > 0 {
          assert rest[j - 1] == ts[j];
        }
      }
    }
  }
}
