/** Which key conditions Query accepts (ops_item.go parseKeyCondition, opQuery). */
module KeyConditions {
  import opened Wrappers
  import opened Values
  import opened Paths
  import opened KeyEncoding
  import opened KeyRanges
  import opened Limits
  import opened Expressions
  import opened Tables
  import opened QueryCompiler

  /** The operand is the attribute n itself. */
  predicate IsAttribute(o: Operand, n: string) {
    o == PathOf([Name(n)])
  }

  /** A defined value of the request, of the given key type. */
  predicate IsValue(o: Operand, env: Env, typ: KeyType) {
    o.ValueRef? && o.vref in env && OfType(env[o.vref], typ)
  }

  /** Such a value that has a key. */
  predicate IsKeyValue(o: Operand, env: Env, typ: KeyType) {
    IsValue(o, env, typ) && KeyBytes(env[o.vref]).Some?
  }

  /** The partition key equals a value. */
  predicate PkTerm(term: Cond, t: Table, env: Env) {
    term.Cmp? && term.op == Eq && IsAttribute(term.left, t.hashKey) && IsKeyValue(term.right, env, t.hashType)
  }

  /** The sort key is compared with a value, other than by <>, lies between two, or begins with a string or blob,
      whatever type the sort key has. */
  predicate SkTerm(term: Cond, t: Table, env: Env) {
    t.rangeKey != "" &&
    match term
    case Cmp(op, l, r) =>
      && IsAttribute(l, t.rangeKey) && op != Ne && IsKeyValue(r, env, t.rangeType)
      && (op == Eq ==> t.hashKey != t.rangeKey)
    case Between(v, lo, hi) =>
      IsAttribute(v, t.rangeKey) && IsKeyValue(lo, env, t.rangeType) && IsKeyValue(hi, env, t.rangeType)
    case Func(fn, args) =>
      && fn == BeginsWith && |args| == 2 && IsAttribute(args[0], t.rangeKey)
      && (IsKeyValue(args[1], env, KeyS) || IsKeyValue(args[1], env, KeyB))
    case _ => false
  }

  /** One condition on the partition key, or one on each key in either order. */
  predicate Compiles(n: Cond, t: Table, env: Env) {
    if n.And? then
      || (|n.terms| == 1 && PkTerm(n.terms[0], t, env))
      || (|n.terms| == 2 && PkTerm(n.terms[0], t, env) && SkTerm(n.terms[1], t, env))
      || (|n.terms| == 2 && SkTerm(n.terms[0], t, env) && PkTerm(n.terms[1], t, env))
    else PkTerm(n, t, env)
  }

  // ---- one term ----

  lemma OnlyValues(o: Operand, env: Env)
    ensures KeyOperand(o, env) == if o.ValueRef? && o.vref in env then Ok(env[o.vref]) else Err
  {
    match o {
      case ValueRef(_) =>
      case PathOf(p) => NothingInEmptyItem(p);
      case SizeOf(p) => NothingInEmptyItem(p);
    }
  }

  lemma AttributeIs(o: Operand, t: Table)
    ensures IsPk(o, t) <==> IsAttribute(o, t.hashKey)
    ensures IsSk(o, t) <==> t.rangeKey != "" && IsAttribute(o, t.rangeKey)
  {
    if o.PathOf? && |o.path| == 1 {
      assert o.path == [Name(o.path[0].name)];
    }
  }

  lemma TypeIs(v: AV, typ: KeyType)
    ensures KeyTypeOf(v) == typ && KeyBytes(v).Some? <==> OfType(v, typ) && KeyBytes(v).Some?
    ensures OfType(v, typ) ==> KeyTypeOf(v) == typ
    ensures typ != NotAKey ==> (KeyTypeOf(v) == typ <==> OfType(v, typ))
  {
    hide NumberKey, TextKey;
  }

  /** What the term does to the key condition so far, in the end: the partition key, or a usable sort key condition. */
  lemma TermSets(term: Cond, t: Table, env: Env, kc: KeyCondition)
    ensures var r := KeyTerm(term, t, env, kc);
            && (PkTerm(term, t, env) && kc.pk.None? ==>
                  r.Ok? && r.value == kc.(pk := r.value.pk) && r.value.pk.Some? && KeyBytes(r.value.pk.value).Some?)
            && (SkTerm(term, t, env) && kc.skOp == NoCondition ==>
                  r.Ok? && r.value.pk == kc.pk && r.value.skOp != NoCondition && SkPreds(r.value, t).Ok?)
            && (r.Ok? && kc.pk.None? && r.value.pk.Some? && KeyBytes(r.value.pk.value).Some? ==> PkTerm(term, t, env))
            && (r.Ok? && kc.skOp == NoCondition && r.value.skOp != NoCondition && SkPreds(r.value, t).Ok? ==>
                  SkTerm(term, t, env))
  {
    hide KeyOperand, IsPk, IsSk, IsAttribute, KeyBytes, OfType, KeyTypeOf, PrefixBound;
    match term {
      case Cmp(op, l, r) =>
        AttributeIs(l, t);
        OnlyValues(r, env);
        if r.ValueRef? && r.vref in env {
          TypeIs(env[r.vref], t.hashType);
          TypeIs(env[r.vref], t.rangeType);
        }
        SameAttributes(l, t);
      case Between(v, lo, hi) =>
        AttributeIs(v, t);
        OnlyValues(lo, env);
        OnlyValues(hi, env);
        if lo.ValueRef? && lo.vref in env && hi.ValueRef? && hi.vref in env {
          TypeIs(env[lo.vref], t.rangeType);
          TypeIs(env[hi.vref], t.rangeType);
        }
      case Func(fn, args) =>
        if |args| == 2 {
          AttributeIs(args[0], t);
          OnlyValues(args[1], env);
          if args[1].ValueRef? && args[1].vref in env {
            PrefixIs(env[args[1].vref]);
          }
        }
      case _ =>
    }
  }

  lemma SameAttributes(o: Operand, t: Table)
    ensures IsAttribute(o, t.hashKey) && IsAttribute(o, t.rangeKey) ==> t.hashKey == t.rangeKey
    ensures t.hashKey == t.rangeKey ==> (IsAttribute(o, t.hashKey) <==> IsAttribute(o, t.rangeKey))
  {
  }

  lemma PrefixIs(v: AV)
    ensures KeyPrefix(v).Some? <==> (OfType(v, KeyS) || OfType(v, KeyB)) && KeyBytes(v).Some?
  {
    hide TextKey, NumberKey;
  }

  // ---- one or two terms ----

  /** The key condition that one or two terms give, if they do. */
  lemma TermsGive(n: Cond, t: Table, env: Env)
    ensures var ts, kc := TermsOf(n), KeyConditionOf(n, t, env);
            && (|ts| == 1 && KeyTerm(ts[0], t, env, NOTHING_SEEN).Ok?
                && KeyTerm(ts[0], t, env, NOTHING_SEEN).value.pk.Some? ==>
                  kc == KeyTerm(ts[0], t, env, NOTHING_SEEN))
            && (|ts| == 2 && KeyTerm(ts[0], t, env, NOTHING_SEEN).Ok? ==>
                  var last := KeyTerm(ts[1], t, env, KeyTerm(ts[0], t, env, NOTHING_SEEN).value);
                  last.Ok? && last.value.pk.Some? ==> kc == last)
  {
    hide KeyTerm;
    var ts := TermsOf(n);
    if 1 <= |ts| <= 2 && KeyTerm(ts[0], t, env, NOTHING_SEEN).Ok? {
      OneKeyTerm(ts[1..], t, env, KeyTerm(ts[0], t, env, NOTHING_SEEN).value);
    }
  }

  lemma SamePreds(kc: KeyCondition, other: KeyCondition, t: Table)
    requires other == kc.(pk := other.pk)
    ensures SkPreds(other, t) == SkPreds(kc, t)
    ensures kc.skOp == NoCondition ==> SkPreds(kc, t).Ok?
  {
    hide SkPred, PrefixPreds;
  }

  /** Whether one term, or two, give the partition key and a usable sort key condition. */
  lemma TwoTermsCompile(t0: Cond, t1: Cond, t: Table, env: Env)
    ensures (KeyTerm(t0, t, env, NOTHING_SEEN).Ok? &&
             var kc := KeyTerm(t1, t, env, KeyTerm(t0, t, env, NOTHING_SEEN).value);
             kc.Ok? && kc.value.pk.Some? && KeyBytes(kc.value.pk.value).Some? && SkPreds(kc.value, t).Ok?) <==>
            (PkTerm(t0, t, env) && SkTerm(t1, t, env)) || (SkTerm(t0, t, env) && PkTerm(t1, t, env))
  {
    hide KeyTerm, PkTerm, SkTerm, KeyBytes, SkPreds;
    TermSets(t0, t, env, NOTHING_SEEN);
    if KeyTerm(t0, t, env, NOTHING_SEEN).Ok? {
      var mid := KeyTerm(t0, t, env, NOTHING_SEEN).value;
      TermSetsOne(t0, t, env, NOTHING_SEEN, mid);
      TermSets(t1, t, env, mid);
      if KeyTerm(t1, t, env, mid).Ok? {
        var kc := KeyTerm(t1, t, env, mid).value;
        TermSetsOne(t1, t, env, mid, kc);
        if kc == mid.(pk := kc.pk) {
          SamePreds(mid, kc, t);
        }
      }
    }
  }

  lemma OneTermCompiles(t0: Cond, t: Table, env: Env)
    ensures (var kc := KeyTerm(t0, t, env, NOTHING_SEEN);
             kc.Ok? && kc.value.pk.Some? && KeyBytes(kc.value.pk.value).Some? && SkPreds(kc.value, t).Ok?) <==>
            PkTerm(t0, t, env)
  {
    hide KeyTerm, PkTerm, SkTerm, KeyBytes, SkPreds;
    TermSets(t0, t, env, NOTHING_SEEN);
    if KeyTerm(t0, t, env, NOTHING_SEEN).Ok? {
      var kc := KeyTerm(t0, t, env, NOTHING_SEEN).value;
      TermSetsOne(t0, t, env, NOTHING_SEEN, kc);
      if kc == NOTHING_SEEN.(pk := kc.pk) {
        SamePreds(NOTHING_SEEN, kc, t);
      }
    }
  }

  /** A key condition is accepted exactly if it is one condition on the partition key, or one on each key. */
  lemma CompilesIff(n: Cond, t: Table, env: Env)
    ensures CompileKeyCondition(n, t, env).Ok? <==> Compiles(n, t, env)
  {
    hide KeyTerm, PkTerm, SkTerm, KeyBytes, SkPreds, KeyConditionOf, KeyTerms;
    var ts := TermsOf(n);
    TermsGive(n, t, env);
    if KeyConditionOf(n, t, env).Ok? {
      KeyConditionSteps(n, t, env);
    }
    if |ts| == 1 {
      OneTermCompiles(ts[0], t, env);
    } else if |ts| == 2 {
      TwoTermsCompile(ts[0], ts[1], t, env);
    }
  }
}
