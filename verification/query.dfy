/** Compilation of a key condition into predicates over the key columns (ops_item.go opQuery). */
module QueryCompiler {
  import opened Wrappers
  import opened Bytes
  import opened Values
  import opened Equality
  import opened Paths
  import opened KeyEncoding
  import opened KeyRanges
  import opened Expressions
  import opened Tables

  // ---- parseKeyCondition ----

  datatype SkOp = NoCondition | Compared(op: CmpOp) | InBetween | WithPrefix

  /** The partition key value and the sort key condition seen so far. */
  datatype KeyCondition = KeyCondition(pk: Option<AV>, skOp: SkOp, lo: Option<AV>, hi: Option<AV>)

  const NOTHING_SEEN := KeyCondition(None, NoCondition, None, None)

  predicate IsPk(o: Operand, t: Table) {
    o.PathOf? && |o.path| == 1 && o.path[0].name == t.hashKey
  }

  predicate IsSk(o: Operand, t: Table) {
    t.rangeKey != "" && o.PathOf? && |o.path| == 1 && o.path[0].name == t.rangeKey
  }

  /** Operands of a key condition are resolved without an item, so only values resolve. */
  function KeyOperand(o: Operand, env: Env): Result<AV> {
    var v :- ResolveOperand(o, map[], env);
    if v.Some? then Ok(v.value) else Err
  }

  function KeyTerm(term: Cond, t: Table, env: Env, kc: KeyCondition): Result<KeyCondition> {
    match term
    case Cmp(op, left, right) =>
      if op == Eq && IsPk(left, t) then
        if kc.pk.Some? then Err
        else
          var v :- KeyOperand(right, env);
          if KeyTypeOf(v) != t.hashType then Err else Ok(kc.(pk := Some(v)))
      else if IsSk(left, t) then
        if kc.skOp != NoCondition then Err
        else
          var v :- KeyOperand(right, env);
          Ok(kc.(skOp := Compared(op), lo := Some(v)))
      else Err
    case Between(v, lo, hi) =>
      if !IsSk(v, t) || kc.skOp != NoCondition then Err
      else
        var l :- KeyOperand(lo, env);
        var h :- KeyOperand(hi, env);
        Ok(kc.(skOp := InBetween, lo := Some(l), hi := Some(h)))
    case Func(fn, args) =>
      if fn != BeginsWith || |args| != 2 || !IsSk(args[0], t) || kc.skOp != NoCondition then Err
      else
        var v :- KeyOperand(args[1], env);
        Ok(kc.(skOp := WithPrefix, lo := Some(v)))
    case _ => Err
  }

  function KeyTerms(terms: seq<Cond>, t: Table, env: Env, kc: KeyCondition): Result<KeyCondition> {
    if terms == [] then Ok(kc)
    else
      var next :- KeyTerm(terms[0], t, env, kc);
      KeyTerms(terms[1..], t, env, next)
  }

  function TermsOf(n: Cond): seq<Cond> {
    if n.And? then n.terms else [n]
  }

  /** The key condition of a parsed expression; its pk is always present. */
  function KeyConditionOf(n: Cond, t: Table, env: Env): (r: Result<KeyCondition>)
    ensures r.Ok? ==> r.value.pk.Some?
  {
    if |TermsOf(n)| > 2 then Err
    else
      var kc :- KeyTerms(TermsOf(n), t, env, NOTHING_SEEN);
      if kc.pk.Some? then Ok(kc) else Err
  }

  /** parseKeyCondition: one pass over the terms. */
  method ParseKeyCondition(n: Cond, t: Table, env: Env) returns (r: Result<KeyCondition>)
    ensures r == KeyConditionOf(n, t, env)
  {
    var terms := TermsOf(n);
    if |terms| > 2 {
      return Err;
    }
    var kc := NOTHING_SEEN;
    assert terms[0..] == terms;
    for i := 0 to |terms|
      invariant KeyTerms(terms, t, env, NOTHING_SEEN) == KeyTerms(terms[i..], t, env, kc)
    {
      assert terms[i..][1..] == terms[i + 1..];
      var next := KeyTerm(terms[i], t, env, kc);
      if next.Err? {
        return Err;
      }
      kc := next.value;
    }
    if kc.pk.None? {
      return Err;
    }
    return Ok(kc);
  }

  // ---- predicates over the key columns ----

  /** One conjunct of the WHERE clause with its argument. */
  datatype Pred =
    | PkIs(arg: bytes)
    | Sk(op: CmpOp, arg: bytes)
    | After(pk: bytes, sk: bytes)

  predicate Sat(p: Pred, k: Key) {
    match p
    case PkIs(b) => k.pk == b
    case Sk(op, b) => OrderHolds(op, Compare(k.sk, b))
    case After(pk, sk) => Compare(k.pk, pk) > 0 || (k.pk == pk && Compare(k.sk, sk) > 0)
  }

  predicate SatAll(ps: seq<Pred>, k: Key) {
    forall i :: 0 <= i < |ps| ==> Sat(ps[i], k)
  }

  /** addSk. */
  function SkPred(op: CmpOp, v: AV, t: Table): Result<Pred> {
    if t.rangeKey == "" || KeyTypeOf(v) != t.rangeType then Err
    else
      match KeyBytes(v)
      case None => Err
      case Some(b) => Ok(Sk(op, b))
  }

  function PrefixPreds(v: AV): Result<seq<Pred>> {
    match KeyPrefix(v)
    case None => Err
    case Some(pre) =>
      Ok([Sk(Ge, pre)] + match PrefixBound(pre) case None => [] case Some(s) => [Sk(Lt, s)])
  }

  /** The sort key part of the WHERE clause. <> parses as a sort key condition but is refused here. */
  function SkPreds(kc: KeyCondition, t: Table): Result<seq<Pred>> {
    match (kc.skOp, kc.lo, kc.hi)
    case (NoCondition, _, _) => Ok([])
    case (Compared(op), Some(lo), _) =>
      if op == Ne then Err
      else
        var p :- SkPred(op, lo, t);
        Ok([p])
    case (InBetween, Some(lo), Some(hi)) =>
      var p :- SkPred(Ge, lo, t);
      var q :- SkPred(Le, hi, t);
      Ok([p, q])
    case (WithPrefix, Some(lo), _) => PrefixPreds(lo)
    case _ => Err
  }

  function CompileKeyCondition(n: Cond, t: Table, env: Env): Result<seq<Pred>> {
    var kc :- KeyConditionOf(n, t, env);
    match KeyBytes(kc.pk.value)
    case None => Err
    case Some(pk) =>
      var ps :- SkPreds(kc, t);
      Ok([PkIs(pk)] + ps)
  }

  /** The switch of opQuery that appends the sort key conjuncts. */
  method AppendSkPredicates(preds: seq<Pred>, kc: KeyCondition, t: Table) returns (r: Result<seq<Pred>>)
    ensures r == match SkPreds(kc, t) case Ok(ps) => Ok(preds + ps) case Err => Err
  {
    hide SkPred, KeyPrefix, PrefixBound;
    match (kc.skOp, kc.lo, kc.hi) {
      case (NoCondition, _, _) =>
        assert preds + [] == preds;
        return Ok(preds);
      case (Compared(op), Some(lo), _) =>
        if op == Ne {
          return Err;
        }
        var p := SkPred(op, lo, t);
        return if p.Ok? then Ok(preds + [p.value]) else Err;
      case (InBetween, Some(lo), Some(hi)) =>
        var p := SkPred(Ge, lo, t);
        if p.Err? {
          return Err;
        }
        var q := SkPred(Le, hi, t);
        assert q.Ok? ==> preds + [p.value] + [q.value] == preds + [p.value, q.value];
        return if q.Ok? then Ok(preds + [p.value] + [q.value]) else Err;
      case (WithPrefix, Some(lo), _) =>
        var pre := KeyPrefix(lo);
        if pre.None? {
          return Err;
        }
        var out := preds + [Sk(Ge, pre.value)];
        var s := Successor(pre.value);
        assert s.Some? ==> out + [Sk(Lt, s.value)] == preds + ([Sk(Ge, pre.value)] + [Sk(Lt, s.value)]);
        assert s.None? ==> [Sk(Ge, pre.value)] + [] == [Sk(Ge, pre.value)];
        return Ok(if s.Some? then out + [Sk(Lt, s.value)] else out);
      case _ =>
        return Err;
    }
  }

  /** The part of opQuery that builds the WHERE clause of the key condition. */
  method BuildPredicates(n: Cond, t: Table, env: Env) returns (r: Result<seq<Pred>>)
    ensures r == CompileKeyCondition(n, t, env)
  {
    hide KeyBytes, SkPreds, KeyConditionOf;
    var kc := ParseKeyCondition(n, t, env);
    if kc.Err? {
      return Err;
    }
    var pk := KeyBytes(kc.value.pk.value);
    if pk.None? {
      return Err;
    }
    r := AppendSkPredicates([PkIs(pk.value)], kc.value, t);
  }

  // ---- compilation preserves meaning ----

  /** The row holds item under key k, as the store invariant says. */
  predicate IsRow(t: Table, item: Item, k: Key) {
    ItemKey(t, item) == Ok(k)
  }

  lemma PathOfKey(o: Operand, item: Item, env: Env, name: string)
    requires o.PathOf? && |o.path| == 1 && o.path[0].name == name && name in item
    ensures ResolveOperand(o, item, env) == Ok(Some(item[name]))
  {
    assert o.path[1..] == [] && Get(item[name], []) == Some(item[name]);
  }

  /** A value usable in a key condition is the same with and without an item. */
  lemma KeyOperandIsValue(o: Operand, item: Item, env: Env)
    requires KeyOperand(o, env).Ok?
    ensures ResolveOperand(o, item, env) == Ok(Some(KeyOperand(o, env).value))
  {
    match o {
      case ValueRef(_) =>
      case PathOf(p) => NothingInEmptyItem(p);
      case SizeOf(p) => NothingInEmptyItem(p);
    }
  }

  lemma NothingInEmptyItem(p: Path)
    ensures ResolvePath(map[], p) == None
  {
    assert Child(M(map[]), p[0]) == None;
  }

  /** Equal key values are values with equal keys. */
  lemma KeyEquality(v: AV, w: AV)
    requires KeyBytes(v).Some? && KeyBytes(w).Some?
    ensures AvEqual(v, w) <==> KeyBytes(v) == KeyBytes(w)
  {
    hide KeyBytes, Compare;
    KeyOrder(v, w);
    match (v, w) {
      case (S(x), S(y)) => CompareZero(x, y);
      case (B(x), B(y)) => CompareZero(x, y);
      case _ =>
    }
  }

  /** A compiled comparison holds of the encoded sort key exactly when the order of the values says so. */
  lemma SkPredExact(op: CmpOp, lo: AV, t: Table, item: Item, k: Key)
    requires IsRow(t, item, k) && op != Ne
    requires SkPred(op, lo, t).Ok?
    ensures t.rangeKey in item && CompareOrder(item[t.rangeKey], lo).Ok?
    ensures Sat(SkPred(op, lo, t).value, k) <==> OrderHolds(op, CompareOrder(item[t.rangeKey], lo).value)
    ensures op == Eq ==> (Sat(SkPred(op, lo, t).value, k) <==> AvEqual(item[t.rangeKey], lo))
  {
    hide KeyBytes, Compare, CompareOrder, AvEqual;
    KeyOrder(item[t.rangeKey], lo);
    KeyEquality(item[t.rangeKey], lo);
  }

  lemma ComparedExact(op: CmpOp, left: Operand, lo: AV, right: Operand, t: Table, env: Env, item: Item, k: Key)
    requires IsRow(t, item, k) && op != Ne && IsSk(left, t)
    requires KeyOperand(right, env) == Ok(lo) && SkPred(op, lo, t).Ok?
    ensures EvalCmp(op, left, right, item, env) == Ok(SatAll([SkPred(op, lo, t).value], k))
  {
    hide KeyBytes, Compare, CompareOrder, AvEqual, SkPred, KeyOperand, ResolveOperand, Sat, OrderHolds, ResolvePath;
    SkPredExact(op, lo, t, item, k);
    PathOfKey(left, item, env, t.rangeKey);
    KeyOperandIsValue(right, item, env);
    var ps := [SkPred(op, lo, t).value];
    assert SatAll(ps, k) <==> Sat(ps[0], k);
  }

  lemma InBetweenExact(v: Operand, lo: AV, l: Operand, hi: AV, h: Operand, t: Table, env: Env, item: Item, k: Key)
    requires IsRow(t, item, k) && IsSk(v, t)
    requires KeyOperand(l, env) == Ok(lo) && SkPred(Ge, lo, t).Ok?
    requires KeyOperand(h, env) == Ok(hi) && SkPred(Le, hi, t).Ok?
    ensures EvalBetween(v, l, h, item, env) == Ok(SatAll([SkPred(Ge, lo, t).value, SkPred(Le, hi, t).value], k))
  {
    hide KeyBytes, Compare, CompareOrder, AvEqual, SkPred, KeyOperand, ResolveOperand, Sat, ResolvePath;
    SkPredExact(Ge, lo, t, item, k);
    SkPredExact(Le, hi, t, item, k);
    PathOfKey(v, item, env, t.rangeKey);
    KeyOperandIsValue(l, item, env);
    KeyOperandIsValue(h, item, env);
    var ps := [SkPred(Ge, lo, t).value, SkPred(Le, hi, t).value];
    assert SatAll(ps, k) <==> Sat(ps[0], k) && Sat(ps[1], k);
  }

  /** begins_with is an error of the evaluator exactly when the sort key is a number. */
  lemma PrefixExact(v: Operand, p: AV, arg: Operand, t: Table, env: Env, item: Item, k: Key)
    requires IsRow(t, item, k) && IsSk(v, t)
    requires KeyOperand(arg, env) == Ok(p) && PrefixPreds(p).Ok?
    ensures EvalFunc(BeginsWith, [v, arg], item, env)
         == if t.rangeType == KeyN then Err else Ok(SatAll(PrefixPreds(p).value, k))
    ensures t.rangeType == KeyN ==> !SatAll(PrefixPreds(p).value, k)
  {
    hide KeyBytes, Compare, CompareOrder, KeyPrefix, KeyOperand, ResolveOperand, ResolvePath, StartsWith;
    var w := item[t.rangeKey];
    PathOfKey(v, item, env, t.rangeKey);
    KeyOperandIsValue(arg, item, env);
    BeginsWithRange(p, w);
    NotStartsWith(w, p);
    CompareAntisymmetric(k.sk, KeyPrefix(p).value);
    var ps := PrefixPreds(p).value;
    assert ps[0] == Sk(Ge, KeyPrefix(p).value);
    match PrefixBound(KeyPrefix(p).value) {
      case None => assert |ps| == 1;
      case Some(s) => assert ps[1] == Sk(Lt, s) && |ps| == 2;
    }
    assert SatAll(ps, k) <==> InPrefixRange(KeyPrefix(p).value, k.sk);
    KeyIsTyped(w);
  }

  lemma NotStartsWith(w: AV, p: AV)
    ensures w.N? ==> !StartsWith(w, p)
  {
  }

  lemma KeyIsTyped(w: AV)
    requires KeyBytes(w).Some?
    ensures w.S? || w.B? || w.N?
  {
  }

  /** The sort key conjuncts of one term say what the term says. */
  lemma SkTermExact(term: Cond, t: Table, env: Env, item: Item, k: Key, kc: KeyCondition, next: KeyCondition)
    requires IsRow(t, item, k) && kc.skOp == NoCondition
    requires KeyTerm(term, t, env, kc) == Ok(next) && next.skOp != NoCondition
    requires SkPreds(next, t).Ok?
    requires next.skOp == WithPrefix ==> t.rangeType != KeyN
    ensures next.pk == kc.pk
    ensures EvalCond(term, item, env) == Ok(SatAll(SkPreds(next, t).value, k))
  {
    hide SkPred, PrefixPreds, SatAll, KeyOperand, EvalCmp, EvalBetween, EvalFunc, ItemKey;
    match term {
      case Cmp(op, left, right) =>
        ComparedExact(op, left, next.lo.value, right, t, env, item, k);
      case Between(v, lo, hi) =>
        InBetweenExact(v, next.lo.value, lo, next.hi.value, hi, t, env, item, k);
      case Func(_, args) =>
        assert args == [args[0], args[1]];
        PrefixExact(args[0], next.lo.value, args[1], t, env, item, k);
      case _ =>
    }
  }

  lemma PkTermExact(term: Cond, t: Table, env: Env, item: Item, k: Key, kc: KeyCondition, next: KeyCondition)
    requires IsRow(t, item, k) && kc.pk.None?
    requires KeyTerm(term, t, env, kc) == Ok(next) && next.pk.Some?
    requires KeyBytes(next.pk.value).Some?
    ensures next.skOp == kc.skOp && next.lo == kc.lo && next.hi == kc.hi
    ensures EvalCond(term, item, env) == Ok(Sat(PkIs(KeyBytes(next.pk.value).value), k))
  {
    hide KeyBytes, AvEqual, KeyOperand, ResolveOperand, ResolvePath;
    PathOfKey(term.left, item, env, t.hashKey);
    KeyOperandIsValue(term.right, item, env);
    KeyEquality(item[t.hashKey], next.pk.value);
  }

  /** A term sets the partition key or the sort key condition, never both, and never resets one. */
  lemma TermSetsOne(term: Cond, t: Table, env: Env, kc: KeyCondition, next: KeyCondition)
    requires KeyTerm(term, t, env, kc) == Ok(next)
    ensures (kc.pk.None? && next.pk.Some? && next == kc.(pk := next.pk))
         || (kc.skOp == NoCondition != next.skOp && next.pk == kc.pk)
  {
    hide KeyOperand;
  }

  lemma EvalOneTerm(t: Cond, item: Item, env: Env)
    requires EvalCond(t, item, env).Ok?
    ensures EvalTerms([t], false, item, env) == EvalCond(t, item, env)
  {
    hide EvalCond;
    assert [t][1..] == [];
  }

  lemma EvalTwoTerms(t: Cond, u: Cond, item: Item, env: Env)
    requires EvalCond(t, item, env).Ok? && EvalCond(u, item, env).Ok?
    ensures EvalTerms([t, u], false, item, env) == Ok(EvalCond(t, item, env).value && EvalCond(u, item, env).value)
  {
    hide EvalCond;
    EvalOneTerm(u, item, env);
    assert [t, u][1..] == [u];
  }

  lemma SatAllCons(p: Pred, ps: seq<Pred>, k: Key)
    ensures SatAll([p] + ps, k) <==> Sat(p, k) && SatAll(ps, k)
  {
    hide Sat;
    assert forall i :: 0 <= i < |ps| ==> ps[i] == ([p] + ps)[i + 1];
    assert ([p] + ps)[0] == p;
  }

  /** One or two terms give the key condition, each by one step. */
  lemma KeyConditionSteps(n: Cond, t: Table, env: Env)
    requires KeyConditionOf(n, t, env).Ok?
    ensures var ts, kc := TermsOf(n), KeyConditionOf(n, t, env).value;
            || (|ts| == 1 && KeyTerm(ts[0], t, env, NOTHING_SEEN) == Ok(kc))
            || (|ts| == 2 && KeyTerm(ts[0], t, env, NOTHING_SEEN).Ok?
                && KeyTerm(ts[1], t, env, KeyTerm(ts[0], t, env, NOTHING_SEEN).value) == Ok(kc))
  {
    hide KeyTerm;
    var ts := TermsOf(n);
    if |ts| >= 1 {
      var next := KeyTerm(ts[0], t, env, NOTHING_SEEN);
      if next.Ok? {
        OneKeyTerm(ts[1..], t, env, next.value);
      }
      assert |ts| == 2 ==> ts[1..][0] == ts[1];
    }
  }

  lemma OneKeyTerm(ts: seq<Cond>, t: Table, env: Env, kc: KeyCondition)
    requires |ts| <= 1
    ensures KeyTerms(ts, t, env, kc) == if ts == [] then Ok(kc) else KeyTerm(ts[0], t, env, kc)
  {
    hide KeyTerm;
    if |ts| == 1 {
      var next := KeyTerm(ts[0], t, env, kc);
      assert ts[1..] == [];
      assert next.Ok? ==> KeyTerms(ts[1..], t, env, next.value) == next;
    }
  }

  lemma TwoTermsExact(t0: Cond, t1: Cond, t: Table, env: Env, item: Item, k: Key, mid: KeyCondition, kc: KeyCondition)
    requires IsRow(t, item, k)
    requires KeyTerm(t0, t, env, NOTHING_SEEN) == Ok(mid) && KeyTerm(t1, t, env, mid) == Ok(kc)
    requires kc.pk.Some? && KeyBytes(kc.pk.value).Some? && SkPreds(kc, t).Ok?
    requires kc.skOp == WithPrefix ==> t.rangeType != KeyN
    ensures EvalTerms([t0, t1], false, item, env)
         == Ok(Sat(PkIs(KeyBytes(kc.pk.value).value), k) && SatAll(SkPreds(kc, t).value, k))
  {
    hide KeyTerm, EvalCond, Sat, SatAll, KeyBytes;
    TermSetsOne(t0, t, env, NOTHING_SEEN, mid);
    TermSetsOne(t1, t, env, mid, kc);
    if mid.pk.Some? {
      PkTermExact(t0, t, env, item, k, NOTHING_SEEN, mid);
      SkTermExact(t1, t, env, item, k, mid, kc);
    } else {
      SkTermExact(t0, t, env, item, k, NOTHING_SEEN, mid);
      PkTermExact(t1, t, env, item, k, mid, kc);
    }
    EvalTwoTerms(t0, t1, item, env);
  }

  lemma OneTermExact(t0: Cond, t: Table, env: Env, item: Item, k: Key, kc: KeyCondition)
    requires IsRow(t, item, k)
    requires KeyTerm(t0, t, env, NOTHING_SEEN) == Ok(kc)
    requires kc.pk.Some? && KeyBytes(kc.pk.value).Some?
    ensures EvalCond(t0, item, env) == Ok(Sat(PkIs(KeyBytes(kc.pk.value).value), k))
    ensures SkPreds(kc, t) == Ok([])
  {
    hide KeyTerm, EvalCond, Sat, KeyBytes;
    TermSetsOne(t0, t, env, NOTHING_SEEN, kc);
    PkTermExact(t0, t, env, item, k, NOTHING_SEEN, kc);
  }

  /** Compilation preserves meaning: for every stored row and every key condition that compiles, the
      row satisfies the generated byte predicates exactly when the expression is true of its item. The
      one exception is begins_with over a number sort key, see CompilationSelects. */
  lemma CompilationExact(n: Cond, t: Table, env: Env, item: Item, k: Key)
    requires IsRow(t, item, k)
    requires CompileKeyCondition(n, t, env).Ok?
    requires KeyConditionOf(n, t, env).value.skOp == WithPrefix ==> t.rangeType != KeyN
    ensures EvalCond(n, item, env) == Ok(SatAll(CompileKeyCondition(n, t, env).value, k))
  {
    hide KeyTerm, KeyConditionOf, Sat, SatAll, KeyBytes, SkPreds;
    hide EvalCmp, EvalFunc, EvalBetween, EvalIn, ResolveOperand;
    var ts, kc := TermsOf(n), KeyConditionOf(n, t, env).value;
    var pk := PkIs(KeyBytes(kc.pk.value).value);
    KeyConditionSteps(n, t, env);
    if |ts| == 1 {
      OneTermExact(ts[0], t, env, item, k, kc);
      EvalOneTerm(ts[0], item, env);
      assert ts == [ts[0]];
      assert SatAll([], k) by {
        SatAllEmpty(k);
      }
    } else {
      var mid := KeyTerm(ts[0], t, env, NOTHING_SEEN).value;
      TwoTermsExact(ts[0], ts[1], t, env, item, k, mid, kc);
      assert ts == [ts[0], ts[1]];
    }
    SatAllCons(pk, SkPreds(kc, t).value, k);
  }

  lemma SatAllEmpty(k: Key)
    ensures SatAll([], k)
  {
  }

  /** A begins_with term over a number sort key fails to evaluate, and its predicates hold of no row. */
  lemma PrefixOverNumbers(term: Cond, t: Table, env: Env, item: Item, k: Key, kc: KeyCondition, next: KeyCondition)
    requires IsRow(t, item, k) && kc.skOp == NoCondition
    requires KeyTerm(term, t, env, kc) == Ok(next) && next.skOp == WithPrefix && t.rangeType == KeyN
    requires SkPreds(next, t).Ok?
    ensures EvalCond(term, item, env) == Err && !SatAll(SkPreds(next, t).value, k)
  {
    hide SkPred, PrefixPreds, SatAll, KeyOperand, EvalFunc, ItemKey;
    assert term.args == [term.args[0], term.args[1]];
    PrefixExact(term.args[0], next.lo.value, term.args[1], t, env, item, k);
  }

  /** For every stored row and every key condition that compiles, with no restriction: the row is
      selected exactly when the expression evaluates to true on its item. */
  lemma CompilationSelects(n: Cond, t: Table, env: Env, item: Item, k: Key)
    requires IsRow(t, item, k)
    requires CompileKeyCondition(n, t, env).Ok?
    ensures SatAll(CompileKeyCondition(n, t, env).value, k) <==> EvalCond(n, item, env) == Ok(true)
  {
    hide KeyTerm, KeyConditionOf, Sat, SatAll, KeyBytes, SkPreds;
    hide EvalCmp, EvalFunc, EvalBetween, EvalIn, ResolveOperand;
    var ts, kc := TermsOf(n), KeyConditionOf(n, t, env).value;
    if kc.skOp != WithPrefix || t.rangeType != KeyN {
      CompilationExact(n, t, env, item, k);
    } else {
      KeyConditionSteps(n, t, env);
      SatAllCons(PkIs(KeyBytes(kc.pk.value).value), SkPreds(kc, t).value, k);
      if |ts| == 1 {
        TermSetsOne(ts[0], t, env, NOTHING_SEEN, kc);
      } else {
        var mid := KeyTerm(ts[0], t, env, NOTHING_SEEN).value;
        NumberPrefixTerms(ts[0], ts[1], t, env, item, k, mid, kc);
        assert ts == [ts[0], ts[1]];
        if EvalTerms(ts, false, item, env) == Ok(true) {
          TrueNeedsAll(ts[0], ts[1], item, env);
        }
      }
    }
  }

  lemma NumberPrefixTerms(t0: Cond, t1: Cond, t: Table, env: Env, item: Item, k: Key,
                          mid: KeyCondition, kc: KeyCondition)
    requires IsRow(t, item, k) && t.rangeType == KeyN && kc.skOp == WithPrefix
    requires KeyTerm(t0, t, env, NOTHING_SEEN) == Ok(mid) && KeyTerm(t1, t, env, mid) == Ok(kc)
    requires kc.pk.Some? && SkPreds(kc, t).Ok?
    ensures EvalCond(t0, item, env) == Err || EvalCond(t1, item, env) == Err
    ensures !SatAll(SkPreds(kc, t).value, k)
  {
    hide KeyTerm, EvalCond, SatAll, KeyBytes;
    TermSetsOne(t0, t, env, NOTHING_SEEN, mid);
    TermSetsOne(t1, t, env, mid, kc);
    if mid.pk.Some? {
      PrefixOverNumbers(t1, t, env, item, k, mid, kc);
    } else {
      PrefixOverNumbers(t0, t, env, item, k, NOTHING_SEEN, mid);
    }
  }

  lemma TrueNeedsAll(t: Cond, u: Cond, item: Item, env: Env)
    requires EvalTerms([t, u], false, item, env) == Ok(true)
    ensures EvalCond(t, item, env) == Ok(true) && EvalCond(u, item, env) == Ok(true)
  {
    hide EvalCond;
    assert [t, u][1..] == [u];
  }
}
