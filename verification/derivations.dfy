/** The grammar of condition expressions as rules (expr.go): which tokens make up which tree. Whatever the parser
    accepts is derived by the rules, with no token left over. */
module Derivations {
  import opened Wrappers
  import opened Paths
  import opened Lexer
  import opened Expressions
  import opened Grammar

  // ---- the rules ----

  /** A word in any letter case. */
  predicate IsWord(t: Token, w: string) {
    t.kind == Ident && Upper(t.text) == w
  }

  /** A name as it is, unless it is reserved, or a defined #name. */
  predicate IsName(t: Token, n: string, cx: Context) {
    (t.kind == Ident && Upper(t.text) !in cx.reserved && t.text == n) ||
    (t.kind == NameRef && t.text in cx.names && cx.names[t.text] == n)
  }

  /** .name or [index], any number of times. */
  predicate IsSteps(ts: Tokens, es: seq<Elem>, cx: Context)
    decreases |es|
  {
    if es == [] then ts == []
    else
      match es[0]
      case Name(n) => |ts| >= 2 && ts[0].kind == Dot && IsName(ts[1], n, cx) && IsSteps(ts[2..], es[1..], cx)
      case Index(i) =>
        |ts| >= 3 && ts[0].kind == LBracket && ts[1].kind == Num && IndexOfText(ts[1].text) == i &&
        ts[2].kind == RBracket && IsSteps(ts[3..], es[1..], cx)
  }

  predicate IsPath(ts: Tokens, p: Path, cx: Context) {
    ts != [] && IsName(ts[0], p[0].name, cx) && IsSteps(ts[1..], p[1..], cx)
  }

  /** The tokens stand between parentheses. */
  predicate Enclosed(ts: Tokens) {
    |ts| >= 2 && ts[0].kind == LParen && ts[|ts| - 1].kind == RParen
  }

  predicate IsOperand(ts: Tokens, o: Operand, cx: Context) {
    match o
    case ValueRef(r) => |ts| == 1 && ts[0].kind == ValRef && ts[0].text == r
    case PathOf(p) => IsPath(ts, p, cx)
    case SizeOf(p) => |ts| >= 3 && IsWord(ts[0], "SIZE") && Enclosed(ts[1..]) && IsPath(ts[2..|ts| - 1], p, cx)
  }

  /** Operands with commas between them. */
  predicate IsOperands(ts: Tokens, list: seq<Operand>, cx: Context)
    decreases |list|
  {
    if |list| <= 1 then list != [] && IsOperand(ts, list[0], cx)
    else
      exists n :: 0 <= n < |ts| && ts[n].kind == Comma &&
                  IsOperand(ts[..n], list[0], cx) && IsOperands(ts[n + 1..], list[1..], cx)
  }

  predicate IsOperator(t: Token, op: CmpOp) {
    t.kind == Op &&
    match op
    case Eq => t.text == "="
    case Ne => t.text == "<>"
    case Lt => t.text == "<"
    case Le => t.text == "<="
    case Gt => t.text == ">"
    case Ge => t.text == ">="
  }

  /** The name of a function in any letter case, and its number of arguments. */
  predicate IsFunction(t: Token, f: Function, arity: nat) {
    match f
    case AttributeExists => IsWord(t, "ATTRIBUTE_EXISTS") && arity == 1
    case AttributeNotExists => IsWord(t, "ATTRIBUTE_NOT_EXISTS") && arity == 1
    case AttributeType => IsWord(t, "ATTRIBUTE_TYPE") && arity == 2
    case BeginsWith => IsWord(t, "BEGINS_WITH") && arity == 2
    case Contains => IsWord(t, "CONTAINS") && arity == 2
  }

  /** A comparison, BETWEEN, IN or a function call. */
  predicate IsSimple(ts: Tokens, c: Cond, cx: Context) {
    match c
    case Cmp(op, l, r) =>
      exists n :: 0 <= n < |ts| && IsOperand(ts[..n], l, cx) && IsOperator(ts[n], op) && IsOperand(ts[n + 1..], r, cx)
    case Between(v, lo, hi) =>
      exists n, m :: 0 <= n < m < |ts| && IsOperand(ts[..n], v, cx) && IsWord(ts[n], "BETWEEN") &&
                     IsOperand(ts[n + 1..m], lo, cx) && IsWord(ts[m], "AND") && IsOperand(ts[m + 1..], hi, cx)
    case In(v, list) =>
      exists n :: 0 <= n < |ts| - 2 && IsOperand(ts[..n], v, cx) && IsWord(ts[n], "IN") && Enclosed(ts[n + 1..]) &&
                  IsOperands(ts[n + 2..|ts| - 1], list, cx)
    case Func(f, args) =>
      |ts| >= 3 && IsFunction(ts[0], f, |args|) && Enclosed(ts[1..]) && IsOperands(ts[2..|ts| - 1], args, cx)
    case _ => false
  }

  /** An expression: terms with OR between them. */
  predicate IsOr(ts: Tokens, c: Cond, cx: Context)
    decreases |ts|, 5
  {
    IsAnd(ts, c, cx) || (c.Or? && |c.terms| >= 2 && IsOrTerms(ts, c.terms, cx))
  }

  predicate IsOrTerms(ts: Tokens, terms: seq<Cond>, cx: Context)
    decreases |ts|, 4
  {
    if |terms| <= 1 then terms != [] && IsAnd(ts, terms[0], cx)
    else
      exists n :: 0 <= n < |ts| && IsWord(ts[n], "OR") &&
                  IsAnd(ts[..n], terms[0], cx) && IsOrTerms(ts[n + 1..], terms[1..], cx)
  }

  /** Terms with AND between them. */
  predicate IsAnd(ts: Tokens, c: Cond, cx: Context)
    decreases |ts|, 3
  {
    IsUnary(ts, c, cx) || (c.And? && |c.terms| >= 2 && IsAndTerms(ts, c.terms, cx))
  }

  predicate IsAndTerms(ts: Tokens, terms: seq<Cond>, cx: Context)
    decreases |ts|, 2
  {
    if |terms| <= 1 then terms != [] && IsUnary(ts, terms[0], cx)
    else
      exists n :: 0 <= n < |ts| && IsWord(ts[n], "AND") &&
                  IsUnary(ts[..n], terms[0], cx) && IsAndTerms(ts[n + 1..], terms[1..], cx)
  }

  predicate IsUnary(ts: Tokens, c: Cond, cx: Context)
    decreases |ts|, 1
  {
    (c.Not? && ts != [] && IsWord(ts[0], "NOT") && IsUnary(ts[1..], c.e, cx)) || IsPrimary(ts, c, cx)
  }

  predicate IsPrimary(ts: Tokens, c: Cond, cx: Context)
    decreases |ts|, 0
  {
    (Enclosed(ts) && IsOr(ts[1..|ts| - 1], c, cx)) || IsSimple(ts, c, cx)
  }

  // ---- what a parse has used ----

  /** ts is what was used, and then rest. */
  predicate Splits(ts: Tokens, used: Tokens, rest: Tokens) {
    ts == used + rest
  }

  lemma Ahead(ts: Tokens, n: nat, used: Tokens, rest: Tokens)
    requires n <= |ts| && Splits(ts[n..], used, rest)
    ensures Splits(ts, ts[..n] + used, rest)
  {
    assert ts == ts[..n] + ts[n..];
  }

  lemma Around(ts: Tokens, a: Tokens, mid: Tokens, b: Tokens, rest: Tokens)
    requires Splits(ts, a, mid) && mid != [] && Splits(mid[1..], b, rest)
    ensures Splits(ts, a + [mid[0]] + b, rest)
  {
    assert mid == [mid[0]] + mid[1..];
  }

  lemma OneAhead(a: Tokens, ts: Tokens, b: Tokens)
    requires ts != []
    ensures a + (ts[..1] + b) == a + [ts[0]] + b
  {
  }

  lemma NamedBy(t: Token, n: string, cx: Context)
    requires NameOf(t, cx) == Ok(n)
    ensures IsName(t, n, cx)
  {
  }

  lemma NameStep(dot: Token, t: Token, n: string, ts: Tokens, es: seq<Elem>, cx: Context)
    requires dot.kind == Dot && IsName(t, n, cx) && IsSteps(ts, es, cx)
    ensures IsSteps([dot, t] + ts, [Name(n)] + es, cx)
  {
    assert ([dot, t] + ts)[2..] == ts && ([Name(n)] + es)[1..] == es;
  }

  lemma IndexStep(open: Token, t: Token, close: Token, ts: Tokens, es: seq<Elem>, cx: Context)
    requires open.kind == LBracket && t.kind == Num && close.kind == RBracket && IsSteps(ts, es, cx)
    ensures IsSteps([open, t, close] + ts, [Index(IndexOfText(t.text))] + es, cx)
  {
    hide IndexOfText;
    assert ([open, t, close] + ts)[3..] == ts && ([Index(IndexOfText(t.text))] + es)[1..] == es;
  }

  lemma DotRead(ts: Tokens, cx: Context, acc: Path)
    requires Next(ts, Dot) && |ts| > 1 && ParsePathRest(ts, cx, acc).Ok?
    ensures NameOf(ts[1], cx).Ok?
    ensures ParsePathRest(ts, cx, acc) == ParsePathRest(ts[2..], cx, acc + [Name(NameOf(ts[1], cx).value)])
  {
    hide NameOf;
  }

  lemma BracketRead(ts: Tokens, cx: Context, acc: Path)
    requires Next(ts, LBracket) && |ts| > 1 && ParsePathRest(ts, cx, acc).Ok?
    ensures |ts| > 2 && ts[1].kind == Num && ts[2].kind == RBracket
    ensures ParsePathRest(ts, cx, acc) == ParsePathRest(ts[3..], cx, acc + [Index(IndexOfText(ts[1].text))])
  {
    hide NameOf, IndexOfText;
    assert Next(ts[2..], RBracket) && ts[2..][0] == ts[2];
  }

  lemma PathEnded(ts: Tokens, cx: Context, acc: Path)
    requires !(Next(ts, Dot) && |ts| > 1) && !(Next(ts, LBracket) && |ts| > 1)
    ensures ParsePathRest(ts, cx, acc) == Ok((acc, ts))
  {
  }

  lemma {:induction false} StepsDerived(ts: Tokens, cx: Context, acc: Path) returns (used: Tokens, es: seq<Elem>)
    requires ParsePathRest(ts, cx, acc).Ok?
    ensures ParsePathRest(ts, cx, acc).value.0 == acc + es
    ensures Splits(ts, used, ParsePathRest(ts, cx, acc).value.1) && IsSteps(used, es, cx)
    decreases |ts|
  {
    hide IndexOfText, NameOf, Splits, ParsePathRest, IsSteps, IsName;
    if Next(ts, Dot) && |ts| > 1 {
      DotRead(ts, cx, acc);
      var n := NameOf(ts[1], cx).value;
      var more, fs := StepsDerived(ts[2..], cx, acc + [Name(n)]);
      NamedBy(ts[1], n, cx);
      NameStep(ts[0], ts[1], n, more, fs, cx);
      Ahead(ts, 2, more, ParsePathRest(ts, cx, acc).value.1);
      used, es := ts[..2] + more, [Name(n)] + fs;
      assert used == [ts[0], ts[1]] + more && acc + [Name(n)] + fs == acc + es;
    } else if Next(ts, LBracket) && |ts| > 1 {
      BracketRead(ts, cx, acc);
      var i := IndexOfText(ts[1].text);
      var more, fs := StepsDerived(ts[3..], cx, acc + [Index(i)]);
      IndexStep(ts[0], ts[1], ts[2], more, fs, cx);
      Ahead(ts, 3, more, ParsePathRest(ts, cx, acc).value.1);
      used, es := ts[..3] + more, [Index(i)] + fs;
      assert used == [ts[0], ts[1], ts[2]] + more && acc + [Index(i)] + fs == acc + es;
    } else {
      PathEnded(ts, cx, acc);
      NothingUsed(ts);
      NoSteps(cx);
      used, es := [], [];
      assert acc + es == acc;
    }
  }

  lemma NoSteps(cx: Context)
    ensures IsSteps([], [], cx)
  {
  }

  lemma NothingUsed(ts: Tokens)
    ensures Splits(ts, [], ts)
  {
  }

  lemma PathDerived(ts: Tokens, cx: Context) returns (used: Tokens)
    requires ParsePath(ts, cx).Ok?
    ensures Splits(ts, used, ParsePath(ts, cx).value.1) && IsPath(used, ParsePath(ts, cx).value.0, cx)
  {
    hide NameOf, ParsePathRest, IsSteps;
    var n := NameOf(ts[0], cx).value;
    NamedBy(ts[0], n, cx);
    var more, es := StepsDerived(ts[1..], cx, [Name(n)]);
    used := [ts[0]] + more;
    assert used[1..] == more && ([Name(n)] + es)[1..] == es;
  }

  lemma SizeMade(word: Token, open: Token, inner: Tokens, close: Token, p: Path, cx: Context)
    requires IsWord(word, "SIZE") && open.kind == LParen && close.kind == RParen && IsPath(inner, p, cx)
    ensures IsOperand([word, open] + inner + [close], SizeOf(p), cx)
  {
    hide IsPath, IsWord;
    var ts := [word, open] + inner + [close];
    assert ts[2..|ts| - 1] == inner && ts[1..][0] == open && ts[1..][|ts| - 2] == close;
  }

  lemma OperandDerived(ts: Tokens, cx: Context) returns (used: Tokens)
    requires ParseOperand(ts, cx).Ok?
    ensures Splits(ts, used, ParseOperand(ts, cx).value.1) && IsOperand(used, ParseOperand(ts, cx).value.0, cx)
  {
    hide ParsePath, IsPath;
    if Next(ts, ValRef) {
      used := ts[..1];
    } else if IsKeyword(ts, SIZE) && Next(ts[1..], LParen) {
      var inner := PathDerived(ts[2..], cx);
      var p, rest := ParsePath(ts[2..], cx).value.0, ParsePath(ts[2..], cx).value.1;
      SizeMade(ts[0], ts[1], inner, rest[0], p, cx);
      hide IsOperand;
      used := [ts[0], ts[1]] + inner + [rest[0]];
    } else {
      used := PathDerived(ts, cx);
    }
  }

  lemma ListMade(a: Tokens, comma: Token, b: Tokens, o: Operand, list: seq<Operand>, cx: Context)
    requires IsOperand(a, o, cx) && comma.kind == Comma && IsOperands(b, list, cx)
    ensures IsOperands(a + [comma] + b, [o] + list, cx)
  {
    hide IsOperand;
    var ts := a + [comma] + b;
    assert ts[..|a|] == a && ts[|a|] == comma && ts[|a| + 1..] == b && ([o] + list)[1..] == list;
  }

  lemma {:induction false} OperandsDerived(ts: Tokens, cx: Context) returns (used: Tokens)
    requires ParseOperands(ts, cx).Ok?
    ensures Splits(ts, used, ParseOperands(ts, cx).value.1) && IsOperands(used, ParseOperands(ts, cx).value.0, cx)
    decreases |ts|
  {
    hide ParseOperand, IsOperand, Splits;
    var o := ParseOperand(ts, cx).value;
    var first := OperandDerived(ts, cx);
    if Next(o.1, Comma) {
      var more := OperandsDerived(o.1[1..], cx);
      Around(ts, first, o.1, more, ParseOperands(ts, cx).value.1);
      ListMade(first, o.1[0], more, o.0, ParseOperands(o.1[1..], cx).value.0, cx);
      hide IsOperands;
      used := first + [o.1[0]] + more;
    } else {
      used := first;
    }
  }

  // ---- conditions ----

  lemma WordOf(ts: Tokens, k: Keyword)
    requires IsKeyword(ts, k)
    ensures IsWord(ts[0], match k case AND => "AND" case OR => "OR" case NOT => "NOT"
                                   case BETWEEN => "BETWEEN" case IN => "IN" case SIZE => "SIZE")
  {
  }

  lemma FunctionOf(t: Token, f: Function)
    requires t.kind == Ident && FunctionNamed(t.text) == Some(f)
    ensures IsFunction(t, f, Arity(f))
  {
    hide Upper;
  }

  lemma OperatorOf(t: Token, op: CmpOp)
    requires t.kind == Op && OpNamed(t.text) == Some(op)
    ensures IsOperator(t, op)
  {
  }

  lemma CallMade(name: Token, open: Token, inner: Tokens, close: Token, f: Function, args: seq<Operand>, cx: Context)
    requires IsFunction(name, f, |args|) && open.kind == LParen && close.kind == RParen && IsOperands(inner, args, cx)
    ensures IsSimple([name, open] + inner + [close], Func(f, args), cx)
  {
    hide IsOperands, IsFunction;
    var ts := [name, open] + inner + [close];
    assert ts[2..|ts| - 1] == inner && ts[1..][0] == open && ts[1..][|ts| - 2] == close;
  }

  /** The arguments of a call, behind its name and parenthesis, up to mid. */
  lemma ArgumentsDerived(ts: Tokens, cx: Context, f: Function)
    returns (inner: Tokens, mid: Tokens, args: seq<Operand>)
    requires |ts| > 1 && ParsePredicate(ts, cx, f).Ok?
    ensures |args| == Arity(f) && IsOperands(inner, args, cx) && Splits(ts[2..], inner, mid)
    ensures Next(mid, RParen) && ParsePredicate(ts, cx, f).value == (Func(f, args), mid[1..])
  {
    hide ParseOperand, IsOperand, Splits, Arity;
    ArityIs(f);
    var a := ParseOperand(ts[2..], cx).value;
    var first := OperandDerived(ts[2..], cx);
    if Arity(f) == 1 {
      inner, mid, args := first, a.1, [a.0];
    } else {
      var b := ParseOperand(a.1[1..], cx).value;
      var second := OperandDerived(a.1[1..], cx);
      Around(ts[2..], first, a.1, second, b.1);
      ListMade(first, a.1[0], second, a.0, [b.0], cx);
      inner, mid, args := first + [a.1[0]] + second, b.1, [a.0, b.0];
      assert [a.0] + [b.0] == args;
    }
  }

  lemma PredicateDerived(ts: Tokens, cx: Context) returns (used: Tokens)
    requires StartsCall(ts) && ParsePredicate(ts, cx, FunctionNamed(ts[0].text).value).Ok?
    ensures var r := ParsePredicate(ts, cx, FunctionNamed(ts[0].text).value).value;
            Splits(ts, used, r.1) && IsSimple(used, r.0, cx)
  {
    hide ParsePredicate, IsOperands, Splits, FunctionNamed, IsFunction, Arity, IsSimple;
    var f := FunctionNamed(ts[0].text).value;
    FunctionOf(ts[0], f);
    assert ts[1..][0] == ts[1];
    var inner, mid, args := ArgumentsDerived(ts, cx, f);
    CallMade(ts[0], ts[1], inner, mid[0], f, args, cx);
    NothingUsed(mid[1..]);
    Around(ts[2..], inner, mid, [], mid[1..]);
    Ahead(ts, 2, inner + [mid[0]] + [], mid[1..]);
    used := [ts[0], ts[1]] + inner + [mid[0]];
    assert used == ts[..2] + (inner + [mid[0]] + []);
  }

  lemma ArityIs(f: Function)
    ensures Arity(f) == 1 || Arity(f) == 2
  {
  }

  lemma CmpMade(a: Tokens, t: Token, b: Tokens, op: CmpOp, l: Operand, r: Operand, cx: Context)
    requires IsOperand(a, l, cx) && IsOperator(t, op) && IsOperand(b, r, cx)
    ensures IsSimple(a + [t] + b, Cmp(op, l, r), cx)
  {
    hide IsOperand, IsOperator;
    var ts := a + [t] + b;
    assert ts[..|a|] == a && ts[|a|] == t && ts[|a| + 1..] == b;
  }

  lemma BetweenMade(a: Tokens, s: Token, b: Tokens, t: Token, c: Tokens, v: Operand, lo: Operand, hi: Operand,
                    cx: Context)
    requires IsOperand(a, v, cx) && IsWord(s, "BETWEEN") && IsOperand(b, lo, cx) && IsWord(t, "AND")
    requires IsOperand(c, hi, cx)
    ensures IsSimple(a + [s] + (b + [t] + c), Between(v, lo, hi), cx)
  {
    hide IsOperand, IsWord;
    var ts, n, m := a + [s] + (b + [t] + c), |a|, |a| + 1 + |b|;
    assert ts[..n] == a && ts[n] == s && ts[n + 1..m] == b && ts[m] == t && ts[m + 1..] == c;
  }

  lemma InMade(a: Tokens, t: Token, open: Token, inner: Tokens, close: Token, v: Operand, list: seq<Operand>,
               cx: Context)
    requires IsOperand(a, v, cx) && IsWord(t, "IN") && open.kind == LParen && close.kind == RParen
    requires IsOperands(inner, list, cx)
    ensures IsSimple(a + [t] + ([open] + inner + [close]), In(v, list), cx)
  {
    hide IsOperand, IsWord, IsOperands;
    var ts, n := a + [t] + ([open] + inner + [close]), |a|;
    assert ts[..n] == a && ts[n] == t && ts[n + 1..] == [open] + inner + [close] && ts[n + 2..|ts| - 1] == inner;
  }

  lemma CmpTailDerived(a: Tokens, left: Operand, ts: Tokens, cx: Context) returns (used: Tokens)
    requires IsOperand(a, left, cx) && Next(ts, Op) && ParseTail(left, ts, cx).Ok?
    ensures Splits(ts, used, ParseTail(left, ts, cx).value.1)
    ensures IsSimple(a + used, ParseTail(left, ts, cx).value.0, cx)
  {
    hide ParseOperand, IsOperand, Splits, OpNamed, IsSimple;
    OperatorOf(ts[0], OpNamed(ts[0].text).value);
    var b := OperandDerived(ts[1..], cx);
    CmpMade(a, ts[0], b, OpNamed(ts[0].text).value, left, ParseOperand(ts[1..], cx).value.0, cx);
    Ahead(ts, 1, b, ParseTail(left, ts, cx).value.1);
    OneAhead(a, ts, b);
    used := ts[..1] + b;
  }

  lemma BetweenTailDerived(a: Tokens, left: Operand, ts: Tokens, cx: Context) returns (used: Tokens)
    requires IsOperand(a, left, cx) && !Next(ts, Op) && IsKeyword(ts, BETWEEN) && ParseTail(left, ts, cx).Ok?
    ensures Splits(ts, used, ParseTail(left, ts, cx).value.1)
    ensures IsSimple(a + used, ParseTail(left, ts, cx).value.0, cx)
  {
    hide ParseOperand, IsOperand, Splits, IsKeyword, IsSimple;
    KeywordThere(ts, BETWEEN);
    WordOf(ts, BETWEEN);
    var lo := ParseOperand(ts[1..], cx).value;
    KeywordThere(lo.1, AND);
    WordOf(lo.1, AND);
    var b := OperandDerived(ts[1..], cx);
    var c := OperandDerived(lo.1[1..], cx);
    BetweenMade(a, ts[0], b, lo.1[0], c, left, lo.0, ParseOperand(lo.1[1..], cx).value.0, cx);
    Around(ts[1..], b, lo.1, c, ParseTail(left, ts, cx).value.1);
    Ahead(ts, 1, b + [lo.1[0]] + c, ParseTail(left, ts, cx).value.1);
    OneAhead(a, ts, b + [lo.1[0]] + c);
    used := ts[..1] + (b + [lo.1[0]] + c);
  }

  lemma InTailDerived(a: Tokens, left: Operand, ts: Tokens, cx: Context) returns (used: Tokens)
    requires IsOperand(a, left, cx) && !Next(ts, Op) && !IsKeyword(ts, BETWEEN) && ParseTail(left, ts, cx).Ok?
    ensures Splits(ts, used, ParseTail(left, ts, cx).value.1)
    ensures IsSimple(a + used, ParseTail(left, ts, cx).value.0, cx)
  {
    hide ParseOperands, IsOperand, IsOperands, Splits, IsKeyword, IsSimple;
    KeywordThere(ts, IN);
    WordOf(ts, IN);
    var open := ts[1..];
    var list := ParseOperands(open[1..], cx).value;
    var inner := OperandsDerived(open[1..], cx);
    InMade(a, ts[0], open[0], inner, list.1[0], left, list.0, cx);
    NothingUsed(list.1[1..]);
    Around(open[1..], inner, list.1, [], list.1[1..]);
    Ahead(open, 1, inner + [list.1[0]] + [], list.1[1..]);
    Ahead(ts, 1, open[..1] + (inner + [list.1[0]] + []), list.1[1..]);
    used := ts[..1] + (open[..1] + (inner + [list.1[0]] + []));
    assert a + used == a + [ts[0]] + ([open[0]] + inner + [list.1[0]]);
  }

  /** What follows a left operand that was read from a. */
  lemma TailDerived(a: Tokens, left: Operand, ts: Tokens, cx: Context) returns (used: Tokens)
    requires IsOperand(a, left, cx) && ParseTail(left, ts, cx).Ok?
    ensures Splits(ts, used, ParseTail(left, ts, cx).value.1)
    ensures IsSimple(a + used, ParseTail(left, ts, cx).value.0, cx)
  {
    hide ParseTail, IsOperand, Splits, IsKeyword, IsSimple;
    if Next(ts, Op) {
      used := CmpTailDerived(a, left, ts, cx);
    } else if IsKeyword(ts, BETWEEN) {
      used := BetweenTailDerived(a, left, ts, cx);
    } else {
      used := InTailDerived(a, left, ts, cx);
    }
  }

  lemma KeywordThere(ts: Tokens, k: Keyword)
    requires IsKeyword(ts, k)
    ensures ts != []
  {
  }

  lemma OrMade(a: Tokens, t: Token, b: Tokens, c: Cond, more: seq<Cond>, cx: Context)
    requires IsAnd(a, c, cx) && IsWord(t, "OR") && IsOrTerms(b, more, cx)
    ensures IsOrTerms(a + [t] + b, [c] + more, cx)
  {
    hide IsAnd, IsWord;
    var ts := a + [t] + b;
    assert ts[..|a|] == a && ts[|a|] == t && ts[|a| + 1..] == b && ([c] + more)[1..] == more;
  }

  lemma AndMade(a: Tokens, t: Token, b: Tokens, c: Cond, more: seq<Cond>, cx: Context)
    requires IsUnary(a, c, cx) && IsWord(t, "AND") && IsAndTerms(b, more, cx)
    ensures IsAndTerms(a + [t] + b, [c] + more, cx)
  {
    hide IsUnary, IsWord;
    var ts := a + [t] + b;
    assert ts[..|a|] == a && ts[|a|] == t && ts[|a| + 1..] == b && ([c] + more)[1..] == more;
  }

  lemma OneOrTerm(a: Tokens, c: Cond, cx: Context)
    requires IsAnd(a, c, cx)
    ensures IsOrTerms(a, [c], cx)
  {
  }

  lemma OneAndTerm(a: Tokens, c: Cond, cx: Context)
    requires IsUnary(a, c, cx)
    ensures IsAndTerms(a, [c], cx)
  {
  }

  lemma {:induction false} OrDerived(ts: Tokens, cx: Context) returns (used: Tokens)
    requires ParseOr(ts, cx).Ok?
    ensures Splits(ts, used, ParseOr(ts, cx).value.1) && IsOr(used, ParseOr(ts, cx).value.0, cx)
    decreases |ts|, 3
  {
    hide ParseAnd, ParseOrTerms, IsAnd, IsOrTerms, IsOr, Splits, IsKeyword;
    var first := ParseAnd(ts, cx).value;
    used := AndDerived(ts, cx);
    AndIsOr(used, first.0, cx);
    if IsKeyword(first.1, OR) {
      var more, terms := OrTermsDerived(used, first.0, first.1, cx);
      JoinSplits(ts, used, first.1, more, ParseOrTerms(first.1, cx).value.1);
      used := used + more;
      SeveralOr(used, [first.0] + terms, cx);
    }
  }

  lemma JoinSplits(ts: Tokens, a: Tokens, mid: Tokens, b: Tokens, rest: Tokens)
    requires Splits(ts, a, mid) && Splits(mid, b, rest)
    ensures Splits(ts, a + b, rest)
  {
    assert a + (b + rest) == a + b + rest;
  }

  lemma SeveralOr(ts: Tokens, terms: seq<Cond>, cx: Context)
    requires |terms| >= 2 && IsOrTerms(ts, terms, cx)
    ensures IsOr(ts, Or(terms), cx)
  {
    hide IsAnd, IsOrTerms;
  }

  lemma AndIsOr(ts: Tokens, c: Cond, cx: Context)
    requires IsAnd(ts, c, cx)
    ensures IsOr(ts, c, cx)
  {
  }

  lemma UnaryIsAnd(ts: Tokens, c: Cond, cx: Context)
    requires IsUnary(ts, c, cx)
    ensures IsAnd(ts, c, cx)
  {
  }

  lemma SeveralAnd(ts: Tokens, terms: seq<Cond>, cx: Context)
    requires |terms| >= 2 && IsAndTerms(ts, terms, cx)
    ensures IsAnd(ts, And(terms), cx)
  {
    hide IsUnary, IsAndTerms;
  }

  lemma OrTermsRead(ts: Tokens, cx: Context)
    requires IsKeyword(ts, OR) && ParseOrTerms(ts, cx).Ok?
    ensures ts != [] && ParseAnd(ts[1..], cx).Ok?
    ensures var r, t := ParseOrTerms(ts, cx).value, ParseAnd(ts[1..], cx).value;
            if IsKeyword(t.1, OR)
            then ParseOrTerms(t.1, cx).Ok? &&
                 r == ([t.0] + ParseOrTerms(t.1, cx).value.0, ParseOrTerms(t.1, cx).value.1)
            else r == ([t.0], t.1)
  {
    hide ParseAnd;
    KeywordThere(ts, OR);
    var t := ParseAnd(ts[1..], cx).value;
    if !IsKeyword(t.1, OR) {
      assert ParseOrTerms(t.1, cx) == Ok(([], t.1)) && [t.0] + [] == [t.0];
    }
  }

  /** OR and a term, at least once, behind a first term that was read from a. */
  lemma {:induction false} OrTermsDerived(a: Tokens, c: Cond, ts: Tokens, cx: Context)
    returns (used: Tokens, more: seq<Cond>)
    requires IsAnd(a, c, cx) && IsKeyword(ts, OR) && ParseOrTerms(ts, cx).Ok?
    ensures more == ParseOrTerms(ts, cx).value.0 && more != []
    ensures Splits(ts, used, ParseOrTerms(ts, cx).value.1) && IsOrTerms(a + used, [c] + more, cx)
    decreases |ts|, 4
  {
    hide ParseAnd, ParseOrTerms, IsAnd, IsOrTerms, Splits, IsKeyword;
    OrTermsRead(ts, cx);
    WordOf(ts, OR);
    var t := ParseAnd(ts[1..], cx).value;
    var b := AndDerived(ts[1..], cx);
    more := ParseOrTerms(ts, cx).value.0;
    if IsKeyword(t.1, OR) {
      var rest, terms := OrTermsDerived(b, t.0, t.1, cx);
      OrMade(a, ts[0], b + rest, c, [t.0] + terms, cx);
      JoinSplits(ts[1..], b, t.1, rest, ParseOrTerms(t.1, cx).value.1);
      Ahead(ts, 1, b + rest, ParseOrTerms(t.1, cx).value.1);
      OneAhead(a, ts, b + rest);
      used := ts[..1] + (b + rest);
    } else {
      OneOrTerm(b, t.0, cx);
      OrMade(a, ts[0], b, c, [t.0], cx);
      Ahead(ts, 1, b, t.1);
      OneAhead(a, ts, b);
      used := ts[..1] + b;
    }
  }

  lemma {:induction false} AndDerived(ts: Tokens, cx: Context) returns (used: Tokens)
    requires ParseAnd(ts, cx).Ok?
    ensures Splits(ts, used, ParseAnd(ts, cx).value.1) && IsAnd(used, ParseAnd(ts, cx).value.0, cx)
    decreases |ts|, 2
  {
    hide ParseUnary, ParseAndTerms, IsUnary, IsAndTerms, IsAnd, Splits, IsKeyword;
    var first := ParseUnary(ts, cx).value;
    used := UnaryDerived(ts, cx);
    UnaryIsAnd(used, first.0, cx);
    if IsKeyword(first.1, AND) {
      var more, terms := AndTermsDerived(used, first.0, first.1, cx);
      JoinSplits(ts, used, first.1, more, ParseAndTerms(first.1, cx).value.1);
      used := used + more;
      SeveralAnd(used, [first.0] + terms, cx);
    }
  }

  lemma AndTermsRead(ts: Tokens, cx: Context)
    requires IsKeyword(ts, AND) && ParseAndTerms(ts, cx).Ok?
    ensures ts != [] && ParseUnary(ts[1..], cx).Ok?
    ensures var r, t := ParseAndTerms(ts, cx).value, ParseUnary(ts[1..], cx).value;
            if IsKeyword(t.1, AND)
            then ParseAndTerms(t.1, cx).Ok? &&
                 r == ([t.0] + ParseAndTerms(t.1, cx).value.0, ParseAndTerms(t.1, cx).value.1)
            else r == ([t.0], t.1)
  {
    hide ParseUnary;
    KeywordThere(ts, AND);
    var t := ParseUnary(ts[1..], cx).value;
    if !IsKeyword(t.1, AND) {
      assert ParseAndTerms(t.1, cx) == Ok(([], t.1)) && [t.0] + [] == [t.0];
    }
  }

  /** AND and a term, at least once, behind a first term that was read from a. */
  lemma {:induction false} AndTermsDerived(a: Tokens, c: Cond, ts: Tokens, cx: Context)
    returns (used: Tokens, more: seq<Cond>)
    requires IsUnary(a, c, cx) && IsKeyword(ts, AND) && ParseAndTerms(ts, cx).Ok?
    ensures more == ParseAndTerms(ts, cx).value.0 && more != []
    ensures Splits(ts, used, ParseAndTerms(ts, cx).value.1) && IsAndTerms(a + used, [c] + more, cx)
    decreases |ts|, 4
  {
    hide ParseUnary, ParseAndTerms, IsUnary, IsAndTerms, Splits, IsKeyword;
    AndTermsRead(ts, cx);
    WordOf(ts, AND);
    var t := ParseUnary(ts[1..], cx).value;
    var b := UnaryDerived(ts[1..], cx);
    more := ParseAndTerms(ts, cx).value.0;
    if IsKeyword(t.1, AND) {
      var rest, terms := AndTermsDerived(b, t.0, t.1, cx);
      AndMade(a, ts[0], b + rest, c, [t.0] + terms, cx);
      JoinSplits(ts[1..], b, t.1, rest, ParseAndTerms(t.1, cx).value.1);
      Ahead(ts, 1, b + rest, ParseAndTerms(t.1, cx).value.1);
      OneAhead(a, ts, b + rest);
      used := ts[..1] + (b + rest);
    } else {
      OneAndTerm(b, t.0, cx);
      AndMade(a, ts[0], b, c, [t.0], cx);
      Ahead(ts, 1, b, t.1);
      OneAhead(a, ts, b);
      used := ts[..1] + b;
    }
  }

  lemma NotMade(t: Token, b: Tokens, e: Cond, cx: Context)
    requires IsWord(t, "NOT") && IsUnary(b, e, cx)
    ensures IsUnary([t] + b, Not(e), cx)
  {
    hide IsWord, IsPrimary;
    assert ([t] + b)[1..] == b;
  }

  lemma {:induction false} UnaryDerived(ts: Tokens, cx: Context) returns (used: Tokens)
    requires ParseUnary(ts, cx).Ok?
    ensures Splits(ts, used, ParseUnary(ts, cx).value.1) && IsUnary(used, ParseUnary(ts, cx).value.0, cx)
    decreases |ts|, 1
  {
    hide ParsePrimary, IsPrimary, Splits, IsKeyword;
    if IsKeyword(ts, NOT) {
      KeywordThere(ts, NOT);
      WordOf(ts, NOT);
      var b := UnaryDerived(ts[1..], cx);
      var e := ParseUnary(ts[1..], cx).value;
      NotMade(ts[0], b, e.0, cx);
      hide IsUnary;
      Ahead(ts, 1, b, e.1);
      used := ts[..1] + b;
      assert used == [ts[0]] + b;
    } else {
      used := PrimaryDerived(ts, cx);
    }
  }

  lemma ParensMade(open: Token, inner: Tokens, close: Token, c: Cond, cx: Context)
    requires open.kind == LParen && close.kind == RParen && IsOr(inner, c, cx)
    ensures IsPrimary([open] + inner + [close], c, cx)
  {
    hide IsOr, IsSimple;
    var ts := [open] + inner + [close];
    assert ts[1..|ts| - 1] == inner && ts[|ts| - 1] == close;
  }

  lemma SimpleMade(ts: Tokens, c: Cond, cx: Context)
    requires IsSimple(ts, c, cx)
    ensures IsPrimary(ts, c, cx)
  {
    hide IsSimple, IsOr;
  }

  lemma {:induction false} PrimaryDerived(ts: Tokens, cx: Context) returns (used: Tokens)
    requires ParsePrimary(ts, cx).Ok?
    ensures Splits(ts, used, ParsePrimary(ts, cx).value.1) && IsPrimary(used, ParsePrimary(ts, cx).value.0, cx)
    decreases |ts|, 0
  {
    hide ParseOr, ParsePredicate, ParseOperand, ParseTail, IsPrimary, IsOr, IsSimple, IsOperand, Splits, StartsCall;
    hide FunctionNamed;
    if Next(ts, LParen) {
      var inner := OrDerived(ts[1..], cx);
      var n := ParseOr(ts[1..], cx).value;
      ParensMade(ts[0], inner, n.1[0], n.0, cx);
      NothingUsed(n.1[1..]);
      Around(ts[1..], inner, n.1, [], n.1[1..]);
      Ahead(ts, 1, inner + [n.1[0]] + [], n.1[1..]);
      used := ts[..1] + (inner + [n.1[0]] + []);
      assert used == [ts[0]] + inner + [n.1[0]];
    } else if StartsCall(ts) {
      used := PredicateDerived(ts, cx);
      SimpleMade(used, ParsePrimary(ts, cx).value.0, cx);
    } else {
      var left := ParseOperand(ts, cx).value;
      var a := OperandDerived(ts, cx);
      var tail := TailDerived(a, left.0, left.1, cx);
      JoinSplits(ts, a, left.1, tail, ParsePrimary(ts, cx).value.1);
      used := a + tail;
      SimpleMade(used, ParsePrimary(ts, cx).value.0, cx);
    }
  }

  lemma EndsWith(ts: Tokens, used: Tokens, rest: Tokens)
    requires ts + [Token(EOF, "")] == used + rest && Next(rest, EOF) && forall i :: 0 <= i < |ts| ==> Lexable(ts[i])
    ensures used == ts
  {
    var all := used + rest;
    forall i | 0 <= i < |ts| ensures all[i].kind != EOF {
      assert all[i] == ts[i];
      NotTheEnd(ts[i]);
    }
    assert all[|used|] == rest[0];
    assert all[..|used|] == used && all[..|ts|] == ts;
  }

  lemma NotTheEnd(t: Token)
    requires Lexable(t)
    ensures t.kind != EOF
  {
  }

  /** A text that is accepted consists of tokens, apart from blanks, from all of which the rules derive the tree. */
  lemma AcceptedIsDerived(s: string, cx: Context) returns (lead: string, ts: Tokens, gaps: seq<string>)
    requires ParseConditionExpr(s, cx).Ok?
    ensures |gaps| == |ts| && Separated(ts, gaps) && forall i :: 0 <= i < |ts| ==> Lexable(ts[i])
    ensures s == lead + Laid(ts, gaps) && forall j :: 0 <= j < |lead| ==> lead[j] in " \t\n\r"
    ensures IsOr(ts, ParseConditionExpr(s, cx).value, cx)
  {
    hide Lex, ParseOr, IsOr, Lexable, Separated, Laid;
    lead, ts, gaps := LexIsLaid(s);
    var all := Lex(s).value;
    var used := OrDerived(all, cx);
    EndsWith(ts, used, ParseOr(all, cx).value.1);
  }
}
