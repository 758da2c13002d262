/** What a condition expression means (expr.go): of which items it is true, and where it cannot be evaluated.
    Everything is said about the values themselves, without an order of evaluation. */
module Conditions {
  import opened Wrappers
  import opened Bytes
  import opened Decimal
  import opened Numbers
  import opened Values
  import opened Equality
  import opened NormalForms
  import opened Paths
  import opened KeyEncoding
  import opened Expressions

  // ---- operands ----

  /** What size() counts: bytes, elements or attributes. */
  function Count(v: AV): Option<nat> {
    match v
    case S(t) => Some(|t|)
    case B(b) => Some(|b|)
    case SS(ss) => Some(|ss|)
    case NS(ns) => Some(|ns|)
    case BS(bs) => Some(|bs|)
    case L(es) => Some(|es|)
    case M(m) => Some(|m|)
    case N(_) | BOOL(_) | NULL(_) => None
  }

  /** An undefined value reference, or the size of something that has none. */
  ghost predicate Bad(o: Operand, item: Item, env: Env) {
    match o
    case ValueRef(r) => r !in env
    case PathOf(_) => false
    case SizeOf(p) => Get(M(item), p).Some? && Count(Get(M(item), p).value).None?
  }

  /** What the operand stands for; None where nothing is. */
  ghost function Denoted(o: Operand, item: Item, env: Env): Option<AV>
    requires !Bad(o, item, env)
  {
    match o
    case ValueRef(r) => Some(env[r])
    case PathOf(p) => Get(M(item), p)
    case SizeOf(p) =>
      match Get(M(item), p)
      case None => None
      case Some(v) => Some(N(DecimalText(Count(v).value)))
  }

  lemma Resolved(o: Operand, item: Item, env: Env)
    ensures ResolveOperand(o, item, env) == if Bad(o, item, env) then Err else Ok(Denoted(o, item, env))
  {
    hide Get, DecimalText;
  }

  // ---- equality and order ----

  ghost predicate Same(x: AV, y: AV) {
    Numeric(x) && NormalOf(x) == NormalOf(y)
  }

  /** a is before b in the order of a dictionary. */
  ghost predicate BytesLess(a: bytes, b: bytes) {
    exists n :: 0 <= n <= |a| && n < |b| && a[..n] == b[..n] && (n == |a| || a[n] < b[n])
  }

  lemma {:induction false} CompareIsOrder(a: bytes, b: bytes)
    ensures Compare(a, b) < 0 <==> BytesLess(a, b)
    ensures Compare(a, b) > 0 <==> BytesLess(b, a)
  {
    CompareIsLess(a, b);
    CompareIsLess(b, a);
    CompareAntisymmetric(a, b);
  }

  lemma {:induction false} CompareIsLess(a: bytes, b: bytes)
    ensures Compare(a, b) < 0 <==> BytesLess(a, b)
  {
    if a == [] || b == [] || a[0] != b[0] {
      assert a[..0] == b[..0];
      if b != [] && (a == [] || a[0] < b[0]) {
        assert BytesLess(a, b);
      }
    } else {
      CompareIsLess(a[1..], b[1..]);
      if BytesLess(a[1..], b[1..]) {
        var n :| 0 <= n <= |a[1..]| && n < |b[1..]| && a[1..][..n] == b[1..][..n] &&
                 (n == |a[1..]| || a[1..][n] < b[1..][n]);
        assert a[..n + 1] == [a[0]] + a[1..][..n] && b[..n + 1] == [b[0]] + b[1..][..n];
      }
      if BytesLess(a, b) {
        var n :| 0 <= n <= |a| && n < |b| && a[..n] == b[..n] && (n == |a| || a[n] < b[n]);
        assert a[1..][..n - 1] == a[..n][1..] && b[1..][..n - 1] == b[..n][1..];
      }
    }
  }

  /** Two strings, two blobs, or two numbers. */
  ghost predicate Ordered(x: AV, y: AV) {
    (x.S? && y.S?) || (x.B? && y.B?) ||
    (x.N? && y.N? && PartsOf(x.number).Some? && PartsOf(y.number).Some?)
  }

  ghost predicate Less(x: AV, y: AV)
    requires Ordered(x, y)
  {
    match x
    case S(t) => BytesLess(t, y.text)
    case B(b) => BytesLess(b, y.blob)
    case N(n) => NumberValue(n) < NumberValue(y.number)
  }

  ghost predicate Holds(op: CmpOp, x: AV, y: AV) {
    match op
    case Eq => Same(x, y)
    case Ne => !Same(x, y)
    case Lt => Ordered(x, y) && Less(x, y)
    case Le => Ordered(x, y) && !Less(y, x)
    case Gt => Ordered(x, y) && Less(y, x)
    case Ge => Ordered(x, y) && !Less(x, y)
  }

  lemma OrderDecides(x: AV, y: AV)
    ensures CompareOrder(x, y).Ok? <==> Ordered(x, y)
    ensures Ordered(x, y) ==> (CompareOrder(x, y).value < 0 <==> Less(x, y))
    ensures Ordered(x, y) ==> (CompareOrder(x, y).value > 0 <==> Less(y, x))
  {
    hide Compare, CompareNumbers, PartsOf, BytesLess;
    match (x, y) {
      case (S(s), S(t)) => CompareIsOrder(s, t);
      case (B(s), B(t)) => CompareIsOrder(s, t);
      case (N(s), N(t)) => CompareNumbersIsSign(s, t);
      case _ =>
    }
  }

  // ---- functions ----

  /** The word is the name t of a type, in any letter case. */
  predicate Spells(word: string, t: string) {
    |word| == |t| && forall i :: 0 <= i < |t| ==> word[i] == t[i] || word[i] as int == t[i] as int + 32
  }

  predicate NamesTypeOf(word: string, v: AV) {
    match v
    case S(_) => Spells(word, "S")
    case N(_) => Spells(word, "N")
    case B(_) => Spells(word, "B")
    case BOOL(_) => Spells(word, "BOOL")
    case NULL(_) => Spells(word, "NULL")
    case SS(_) => Spells(word, "SS")
    case NS(_) => Spells(word, "NS")
    case BS(_) => Spells(word, "BS")
    case L(_) => Spells(word, "L")
    case M(_) => Spells(word, "M")
  }

  /** The word of a type argument: a string, or a bare word. */
  ghost function Word(o: Operand, env: Env): Option<string> {
    match o
    case ValueRef(r) => if r in env && env[r].S? then Some(TextOf(env[r].text)) else None
    case PathOf(p) => if |p| == 1 then Some(p[0].name) else None
    case SizeOf(_) => None
  }

  /** Strings and blobs contain what occurs in them, sets and lists their members. */
  ghost predicate Holding(v: AV, x: AV) {
    match v
    case S(t) => x.S? && exists i :: 0 <= i <= |t| && x.text <= t[i..]
    case B(b) => x.B? && exists i :: 0 <= i <= |b| && x.blob <= b[i..]
    case SS(ss) => x.S? && x.text in ss
    case NS(ns) => x.N? && exists i :: 0 <= i < |ns| && Same(N(ns[i]), x)
    case BS(bs) => x.B? && x.blob in bs
    case L(es) => exists i :: 0 <= i < |es| && Same(es[i], x)
    case _ => false
  }

  predicate MayHold(v: AV) {
    v.S? || v.B? || v.SS? || v.NS? || v.BS? || v.L?
  }

  ghost predicate Begins(v: AV, p: AV) {
    (v.S? && p.S? && p.text <= v.text) || (v.B? && p.B? && p.blob <= v.blob)
  }

  // ---- conditions ----

  /** The arguments are wrong, or not of a type that the function takes. */
  ghost predicate FuncFails(fn: Function, args: seq<Operand>, item: Item, env: Env) {
    match fn
    case AttributeExists | AttributeNotExists => |args| < 1 || !args[0].PathOf?
    case AttributeType =>
      |args| < 2 || Bad(args[0], item, env) || (Denoted(args[0], item, env).Some? && Word(args[1], env).None?)
    case BeginsWith | Contains =>
      |args| < 2 || Bad(args[0], item, env) || Bad(args[1], item, env) ||
      (Denoted(args[0], item, env).Some? && Denoted(args[1], item, env).Some? &&
       var v := Denoted(args[0], item, env).value; if fn == BeginsWith then !v.S? && !v.B? else !MayHold(v))
  }

  ghost predicate FuncTruth(fn: Function, args: seq<Operand>, item: Item, env: Env)
    requires !FuncFails(fn, args, item, env)
  {
    match fn
    case AttributeExists => Get(M(item), args[0].path).Some?
    case AttributeNotExists => Get(M(item), args[0].path).None?
    case AttributeType =>
      Denoted(args[0], item, env).Some? && NamesTypeOf(Word(args[1], env).value, Denoted(args[0], item, env).value)
    case BeginsWith | Contains =>
      Denoted(args[0], item, env).Some? && Denoted(args[1], item, env).Some? &&
      var v, x := Denoted(args[0], item, env).value, Denoted(args[1], item, env).value;
      if fn == BeginsWith then Begins(v, x) else Holding(v, x)
  }

  ghost predicate CmpTruth(op: CmpOp, l: Operand, r: Operand, item: Item, env: Env)
    requires !Bad(l, item, env) && !Bad(r, item, env)
  {
    if Denoted(l, item, env).Some? && Denoted(r, item, env).Some?
    then Holds(op, Denoted(l, item, env).value, Denoted(r, item, env).value)
    else op == Ne
  }

  /** The operand stands for a value equal to v. */
  ghost predicate Matches(v: AV, o: Operand, item: Item, env: Env) {
    !Bad(o, item, env) && Denoted(o, item, env).Some? && Same(v, Denoted(o, item, env).value)
  }

  /** Operand i of the list is bad, and none before it matches. */
  ghost predicate BadAt(v: AV, list: seq<Operand>, item: Item, env: Env, i: nat)
    requires i < |list|
  {
    Bad(list[i], item, env) && forall j :: 0 <= j < i ==> !Matches(v, list[j], item, env)
  }

  ghost predicate ListFails(v: AV, list: seq<Operand>, item: Item, env: Env) {
    exists i :: 0 <= i < |list| && BadAt(v, list, item, env, i)
  }

  /** The expression cannot be evaluated on the item. */
  ghost predicate Fails(c: Cond, item: Item, env: Env)
    decreases c, 1
  {
    match c
    case Or(_) | And(_) => exists i :: 0 <= i < |c.terms| && FailsAt(c, item, env, i)
    case Not(e) => Fails(e, item, env)
    case Cmp(_, l, r) => Bad(l, item, env) || Bad(r, item, env)
    case Between(v, lo, hi) => Bad(v, item, env) || Bad(lo, item, env) || Bad(hi, item, env)
    case In(v, list) =>
      Bad(v, item, env) || (Denoted(v, item, env).Some? && ListFails(Denoted(v, item, env).value, list, item, env))
    case Func(fn, args) => FuncFails(fn, args, item, env)
  }

  /** Term i of an Or or And cannot be evaluated, and no term before it decides. */
  ghost predicate FailsAt(c: Cond, item: Item, env: Env, i: nat)
    requires (c.Or? || c.And?) && i < |c.terms|
    decreases c, 0
  {
    Fails(c.terms[i], item, env) &&
    forall j :: 0 <= j < i ==> !Fails(c.terms[j], item, env) && (Truth(c.terms[j], item, env) <==> c.And?)
  }

  /** The expression is true of the item. */
  ghost predicate Truth(c: Cond, item: Item, env: Env) {
    match c
    case Or(ts) => exists i :: 0 <= i < |ts| && Truth(ts[i], item, env)
    case And(ts) => forall i :: 0 <= i < |ts| ==> Truth(ts[i], item, env)
    case Not(e) => !Truth(e, item, env)
    case Cmp(op, l, r) => !Bad(l, item, env) && !Bad(r, item, env) && CmpTruth(op, l, r, item, env)
    case Between(v, lo, hi) =>
      !Bad(v, item, env) && !Bad(lo, item, env) && !Bad(hi, item, env) &&
      CmpTruth(Ge, v, lo, item, env) && CmpTruth(Le, v, hi, item, env)
    case In(v, list) =>
      !Bad(v, item, env) && Denoted(v, item, env).Some? &&
      exists i :: 0 <= i < |list| && Matches(Denoted(v, item, env).value, list[i], item, env)
    case Func(fn, args) => !FuncFails(fn, args, item, env) && FuncTruth(fn, args, item, env)
  }

  // ---- evaluation finds out ----

  /** A result of evaluation: an error, or whether the expression is true. */
  function Decided(fails: bool, truth: bool): Result<bool> {
    if fails then Err else Ok(truth)
  }

  lemma EqualIsSame(x: AV, y: AV)
    ensures AvEqual(x, y) <==> Same(x, y)
  {
    hide AvEqual, NormalOf, Numeric;
    EqualIffSameNormal(x, y);
  }

  lemma HoldsMeans(op: CmpOp, x: AV, y: AV)
    ensures op == Eq ==> (AvEqual(x, y) <==> Holds(op, x, y))
    ensures op == Ne ==> (!AvEqual(x, y) <==> Holds(op, x, y))
    ensures op != Eq && op != Ne && CompareOrder(x, y).Err? ==> !Holds(op, x, y)
    ensures op != Eq && op != Ne && CompareOrder(x, y).Ok? ==>
              (OrderHolds(op, CompareOrder(x, y).value) <==> Holds(op, x, y))
  {
    hide AvEqual, Same, CompareOrder, Ordered, Less;
    EqualIsSame(x, y);
    OrderDecides(x, y);
    OrderedBoth(x, y);
  }

  lemma CmpOfValues(op: CmpOp, l: Operand, r: Operand, item: Item, env: Env, x: AV, y: AV)
    requires ResolveOperand(l, item, env) == Ok(Some(x)) && ResolveOperand(r, item, env) == Ok(Some(y))
    ensures EvalCmp(op, l, r, item, env) == Ok(Holds(op, x, y))
  {
    hide ResolveOperand, AvEqual, CompareOrder, Holds, OrderHolds;
    HoldsMeans(op, x, y);
  }

  lemma CmpOfOthers(op: CmpOp, l: Operand, r: Operand, item: Item, env: Env)
    ensures ResolveOperand(l, item, env).Err? || ResolveOperand(r, item, env).Err? ==>
              EvalCmp(op, l, r, item, env) == Err
    ensures ResolveOperand(l, item, env).Ok? && ResolveOperand(r, item, env).Ok? &&
            (ResolveOperand(l, item, env).value.None? || ResolveOperand(r, item, env).value.None?) ==>
              EvalCmp(op, l, r, item, env) == Ok(op == Ne)
  {
    hide ResolveOperand, AvEqual, CompareOrder, OrderHolds;
  }

  lemma CmpMeans(op: CmpOp, l: Operand, r: Operand, item: Item, env: Env)
    ensures EvalCmp(op, l, r, item, env) ==
            Decided(Bad(l, item, env) || Bad(r, item, env),
                    !Bad(l, item, env) && !Bad(r, item, env) && CmpTruth(op, l, r, item, env))
  {
    hide EvalCmp, ResolveOperand, Bad, Denoted, Holds;
    Resolved(l, item, env);
    Resolved(r, item, env);
    CmpOfOthers(op, l, r, item, env);
    if !Bad(l, item, env) && !Bad(r, item, env) && Denoted(l, item, env).Some? && Denoted(r, item, env).Some? {
      CmpOfValues(op, l, r, item, env, Denoted(l, item, env).value, Denoted(r, item, env).value);
    }
  }

  lemma OrderedBoth(x: AV, y: AV)
    ensures Ordered(x, y) <==> Ordered(y, x)
  {
    hide PartsOf;
  }

  lemma BetweenMeans(v: Operand, lo: Operand, hi: Operand, item: Item, env: Env)
    ensures EvalBetween(v, lo, hi, item, env) ==
            Decided(Fails(Between(v, lo, hi), item, env), Truth(Between(v, lo, hi), item, env))
  {
    hide ResolveOperand, Bad, Denoted, Same, CompareOrder, Ordered, Less;
    Resolved(v, item, env);
    Resolved(lo, item, env);
    Resolved(hi, item, env);
    if !Bad(v, item, env) && !Bad(lo, item, env) && !Bad(hi, item, env) {
      var x, l, h := Denoted(v, item, env), Denoted(lo, item, env), Denoted(hi, item, env);
      if x.Some? && l.Some? && h.Some? {
        OrderDecides(x.value, l.value);
        OrderDecides(x.value, h.value);
        OrderedBoth(x.value, h.value);
      }
    }
  }

  lemma {:induction false} InMeans(v: AV, list: seq<Operand>, item: Item, env: Env)
    ensures EvalIn(v, list, item, env) ==
            Decided(ListFails(v, list, item, env), exists i :: 0 <= i < |list| && Matches(v, list[i], item, env))
    decreases |list|
  {
    hide ResolveOperand, Bad, Denoted, AvEqual, Same, Matches;
    if list != [] {
      var first, rest := list[0], list[1..];
      Resolved(first, item, env);
      InMeans(v, rest, item, env);
      FirstMatches(v, first, item, env);
      assert forall i :: 0 <= i < |rest| ==> rest[i] == list[i + 1];
      if Bad(first, item, env) {
        assert BadAt(v, list, item, env, 0);
      } else if Matches(v, first, item, env) {
        assert forall i :: 0 <= i < |list| ==> !BadAt(v, list, item, env, i);
      } else {
        ListFailsBehind(v, list, item, env);
      }
    }
  }

  lemma FirstMatches(v: AV, o: Operand, item: Item, env: Env)
    ensures Matches(v, o, item, env) <==>
            !Bad(o, item, env) && Denoted(o, item, env).Some? && AvEqual(v, Denoted(o, item, env).value)
  {
    hide AvEqual, Same, Bad, Denoted;
    if !Bad(o, item, env) && Denoted(o, item, env).Some? {
      EqualIsSame(v, Denoted(o, item, env).value);
    }
  }

  lemma BadBehind(v: AV, list: seq<Operand>, item: Item, env: Env, i: nat)
    requires i + 1 < |list| && !Matches(v, list[0], item, env)
    ensures BadAt(v, list, item, env, i + 1) <==> BadAt(v, list[1..], item, env, i)
  {
    hide Bad, Matches;
    if BadAt(v, list[1..], item, env, i) {
      forall j | 0 <= j < i + 1 ensures !Matches(v, list[j], item, env) {
        assert j > 0 ==> list[j] == list[1..][j - 1];
      }
    }
  }

  lemma ListFailsBehind(v: AV, list: seq<Operand>, item: Item, env: Env)
    requires list != [] && !Bad(list[0], item, env) && !Matches(v, list[0], item, env)
    ensures ListFails(v, list, item, env) <==> ListFails(v, list[1..], item, env)
  {
    assert !BadAt(v, list, item, env, 0);
    hide Bad, Matches, BadAt;
    if ListFails(v, list[1..], item, env) {
      var i :| 0 <= i < |list[1..]| && BadAt(v, list[1..], item, env, i);
      BadBehind(v, list, item, env, i);
    } else if ListFails(v, list, item, env) {
      var i :| 0 <= i < |list| && BadAt(v, list, item, env, i);
      BadBehind(v, list, item, env, i - 1);
    }
  }

  lemma SpelledIff(word: string, t: string)
    requires forall i :: 0 <= i < |t| ==> 'A' <= t[i] <= 'Z'
    ensures Upper(word) == t <==> Spells(word, t)
  {
    assert |Upper(word)| == |word| && forall i :: 0 <= i < |word| ==> Upper(word)[i] == UpperChar(word[i]);
    if Upper(word) == t {
      forall i | 0 <= i < |t| ensures word[i] == t[i] || word[i] as int == t[i] as int + 32 {
        assert UpperChar(word[i]) == t[i];
      }
    }
    if Spells(word, t) {
      assert forall i :: 0 <= i < |t| ==> UpperChar(word[i]) == t[i];
    }
  }

  lemma NamesIff(word: string, v: AV)
    ensures TypeName(v) == Upper(word) <==> NamesTypeOf(word, v)
  {
    hide Upper, Spells;
    SpelledIff(word, TypeName(v));
  }

  lemma ContainsMeans(v: AV, x: AV)
    ensures EvalContains(v, x) == Decided(!MayHold(v), Holding(v, x))
  {
    hide AvEqual, Same, NumbersEqual, IsInfix;
    match v {
      case S(t) =>
        if x.S? {
          InfixExact(x.text, t);
        }
      case B(b) =>
        if x.B? {
          InfixExact(x.blob, b);
        }
      case NS(ns) =>
        if x.N? {
          forall i | 0 <= i < |ns|
            ensures NumbersEqual(ns[i], x.number) <==> Same(N(ns[i]), x)
          {
            EqualIsSame(N(ns[i]), x);
            EqualNumbers(ns[i], x.number);
          }
        }
      case L(es) =>
        forall i | 0 <= i < |es|
          ensures AvEqual(es[i], x) <==> Same(es[i], x)
        {
          EqualIsSame(es[i], x);
        }
      case _ =>
    }
  }

  lemma EqualNumbers(a: string, b: string)
    ensures AvEqual(N(a), N(b)) <==> NumbersEqual(a, b)
  {
    hide NumbersEqual;
  }

  lemma FuncMeans(fn: Function, args: seq<Operand>, item: Item, env: Env)
    ensures EvalFunc(fn, args, item, env) ==
            Decided(FuncFails(fn, args, item, env), !FuncFails(fn, args, item, env) && FuncTruth(fn, args, item, env))
  {
    hide ResolveOperand, Bad, Denoted, EvalContains, Holding, Upper, TextOf, Get;
    if |args| >= 1 {
      Resolved(args[0], item, env);
    }
    if |args| >= 2 {
      Resolved(args[1], item, env);
      if fn == AttributeType && !Bad(args[0], item, env) {
        if Denoted(args[0], item, env).Some? && Word(args[1], env).Some? {
          NamesIff(Word(args[1], env).value, Denoted(args[0], item, env).value);
        }
      } else if !Bad(args[0], item, env) && !Bad(args[1], item, env) {
        if Denoted(args[0], item, env).Some? && Denoted(args[1], item, env).Some? {
          ContainsMeans(Denoted(args[0], item, env).value, Denoted(args[1], item, env).value);
        }
      }
    }
  }

  /** Evaluation is what the expression means: an error exactly where it cannot be evaluated, and otherwise
      whether it is true. */
  lemma {:induction false} EvaluationMeans(c: Cond, item: Item, env: Env)
    ensures EvalCond(c, item, env) == if Fails(c, item, env) then Err else Ok(Truth(c, item, env))
    decreases c, 1
  {
    hide EvalCmp, EvalBetween, EvalIn, EvalFunc, EvalTerms, ResolveOperand, Bad, Denoted, CmpTruth, Matches;
    hide FuncFails, FuncTruth, ListFails;
    match c {
      case Or(ts) => TermsMean(c, item, env);
      case And(ts) => TermsMean(c, item, env);
      case Not(e) => EvaluationMeans(e, item, env);
      case Cmp(op, l, r) => CmpMeans(op, l, r, item, env);
      case Between(v, lo, hi) => BetweenMeans(v, lo, hi, item, env);
      case In(v, list) =>
        Resolved(v, item, env);
        if !Bad(v, item, env) && Denoted(v, item, env).Some? {
          InMeans(Denoted(v, item, env).value, list, item, env);
        }
      case Func(fn, args) => FuncMeans(fn, args, item, env);
    }
  }

  lemma TermFails(c: Cond, item: Item, env: Env)
    requires c.Or? || c.And?
    ensures Fails(c, item, env) <==>
            exists i {:trigger c.terms[i]} :: 0 <= i < |c.terms| && FailsAt(c, item, env, i)
    ensures c.Or? ==> (Truth(c, item, env) <==> exists i :: 0 <= i < |c.terms| && Truth(c.terms[i], item, env))
    ensures c.And? ==> (Truth(c, item, env) <==> forall i :: 0 <= i < |c.terms| ==> Truth(c.terms[i], item, env))
  {
  }

  lemma {:induction false} TermsMean(c: Cond, item: Item, env: Env)
    requires c.Or? || c.And?
    ensures EvalTerms(c.terms, c.Or?, item, env) == Decided(Fails(c, item, env), Truth(c, item, env))
    decreases c, 0
  {
    hide EvalCond, EvalTerms, Fails, Truth, OpenBefore, FailsAt;
    var ts, stop := c.terms, c.Or?;
    forall i | 0 <= i < |ts|
      ensures EvalCond(ts[i], item, env) == Decided(Fails(ts[i], item, env), Truth(ts[i], item, env))
    {
      EvaluationMeans(ts[i], item, env);
    }
    TermsDecide(ts, stop, item, env);
    TermFails(c, item, env);
    match EvalTerms(ts, stop, item, env) {
      case Err =>
        var i :| 0 <= i < |ts| && EvalCond(ts[i], item, env).Err? && OpenBefore(ts, stop, item, env, i);
        OpenTerms(c, item, env, i);
      case Ok(b) =>
        var i := |ts|;
        if b == stop {
          i :| 0 <= i < |ts| && EvalCond(ts[i], item, env) == Ok(stop) && OpenBefore(ts, stop, item, env, i);
        }
        OpenTerms(c, item, env, i);
    }
  }

  /** The first i terms leave the result open: then a failure of term i counts, and if it decides, or there is no
      term i, none does. */
  lemma OpenTerms(c: Cond, item: Item, env: Env, i: nat)
    requires (c.Or? || c.And?) && i <= |c.terms| && OpenBefore(c.terms, c.Or?, item, env, i)
    requires forall j :: 0 <= j < |c.terms| ==>
               EvalCond(c.terms[j], item, env) == Decided(Fails(c.terms[j], item, env), Truth(c.terms[j], item, env))
    ensures forall j :: 0 <= j < i ==> Truth(c.terms[j], item, env) == !c.Or?
    ensures i < |c.terms| && Fails(c.terms[i], item, env) ==> FailsAt(c, item, env, i)
    ensures i == |c.terms| || EvalCond(c.terms[i], item, env) == Ok(c.Or?) ==>
              forall k :: 0 <= k < |c.terms| ==> !FailsAt(c, item, env, k)
  {
    hide EvalCond, Fails, Truth;
    forall j | 0 <= j < i
      ensures !Fails(c.terms[j], item, env) && Truth(c.terms[j], item, env) == !c.Or?
    {
      assert EvalCond(c.terms[j], item, env) == Ok(!c.Or?);
    }
  }
}
