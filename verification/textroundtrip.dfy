/** From tree to text and back: lexing and parsing together (expr.go parseConditionExpr). */
module TextRoundTrip {
  import opened Wrappers
  import opened Decimal
  import opened Paths
  import opened Lexer
  import opened Expressions
  import opened Grammar
  import opened Printing

  predicate AllLexable(ts: Tokens) {
    forall i :: 0 <= i < |ts| ==> Lexable(ts[i])
  }

  lemma LexableConcat(a: Tokens, b: Tokens)
    requires AllLexable(a) && AllLexable(b)
    ensures AllLexable(a + b)
  {
    hide Lexable;
  }

  /** The spelling uses tokens that have a text the lexer reads. */
  ghost predicate LexableSpelling(sp: Spelling) {
    && (forall n :: n in sp.names ==> Lexable(sp.names[n]))
    && (forall k :: Lexable(Token(Ident, sp.keyword(k))))
    && (forall f :: Lexable(Token(Ident, sp.function_(f))))
  }

  predicate LexableOperand(o: Operand) {
    o.ValueRef? ==> Lexable(Token(ValRef, o.vref))
  }

  /** Every value reference of the tree is one the lexer reads. */
  predicate LexableRefs(c: Cond) {
    match c
    case Or(ts) => forall i :: 0 <= i < |ts| ==> LexableRefs(ts[i])
    case And(ts) => forall i :: 0 <= i < |ts| ==> LexableRefs(ts[i])
    case Not(e) => LexableRefs(e)
    case Cmp(_, l, r) => LexableOperand(l) && LexableOperand(r)
    case Between(v, lo, hi) => LexableOperand(v) && LexableOperand(lo) && LexableOperand(hi)
    case In(v, list) => LexableOperand(v) && forall i :: 0 <= i < |list| ==> LexableOperand(list[i])
    case Func(_, args) => forall i :: 0 <= i < |args| ==> LexableOperand(args[i])
  }

  lemma SymbolsLexable()
    ensures AllLexable([Symbol(LParen, "(")]) && AllLexable([Symbol(RParen, ")")]) && AllLexable([Symbol(Comma, ",")])
    ensures Lexable(Symbol(Dot, ".")) && Lexable(Symbol(LBracket, "[")) && Lexable(Symbol(RBracket, "]"))
    ensures forall op :: Lexable(Token(Op, OpText(op)))
  {
  }

  lemma NumberLexable(i: nat)
    ensures Lexable(Token(Num, DecimalText(i)))
  {
    hide DecimalText;
    var d := DecimalText(i);
    assert forall k :: 0 <= k < |d| ==> IsDigit(d[k]);
  }

  lemma {:induction false} RestLexable(p: seq<Elem>, sp: Spelling)
    requires LexableSpelling(sp) && PrintablePath(p, sp)
    ensures AllLexable(PrintRest(p, sp))
  {
    hide Lexable, DecimalText;
    if p != [] {
      SymbolsLexable();
      if p[0].Index? {
        NumberLexable(p[0].index);
      }
      RestLexable(p[1..], sp);
      LexableConcat(PrintElem(p[0], sp), PrintRest(p[1..], sp));
    }
  }

  lemma PathLexable(p: Path, sp: Spelling)
    requires LexableSpelling(sp) && PrintablePath(p, sp)
    ensures AllLexable(PrintPath(p, sp))
  {
    hide Lexable, PrintRest;
    assert PrintableElem(p[0], sp);
    RestLexable(p[1..], sp);
  }

  lemma OperandLexable(o: Operand, sp: Spelling)
    requires LexableSpelling(sp) && PrintableOperand(o, sp) && LexableOperand(o)
    ensures AllLexable(PrintOperand(o, sp))
  {
    hide Lexable, PrintPath, LexableSpelling, AllLexable, Kw;
    match o {
      case ValueRef(r) => OneLexable(Token(ValRef, r));
      case PathOf(p) => PathLexable(p, sp);
      case SizeOf(p) =>
        SymbolsLexable();
        PathLexable(p, sp);
        KeywordLexable(sp, SIZE);
        PairLexable(Kw(sp, SIZE), Symbol(LParen, "("));
        Concat3([Kw(sp, SIZE), Symbol(LParen, "(")], PrintPath(p, sp), [Symbol(RParen, ")")]);
    }
  }

  lemma {:induction false} OperandsLexable(list: seq<Operand>, sp: Spelling)
    requires LexableSpelling(sp) && list != []
    requires forall i :: 0 <= i < |list| ==> PrintableOperand(list[i], sp) && LexableOperand(list[i])
    ensures AllLexable(PrintOperands(list, sp))
  {
    hide Lexable, PrintOperand, LexableOperand, PrintableOperand;
    SymbolsLexable();
    OperandLexable(list[0], sp);
    if |list| > 1 {
      OperandsLexable(list[1..], sp);
      LexableConcat(PrintOperand(list[0], sp), [Symbol(Comma, ",")]);
      LexableConcat(PrintOperand(list[0], sp) + [Symbol(Comma, ",")], PrintOperands(list[1..], sp));
    }
  }

  lemma KeywordLexable(sp: Spelling, k: Keyword)
    requires LexableSpelling(sp)
    ensures AllLexable([Kw(sp, k)])
  {
  }

  lemma Concat3(a: Tokens, b: Tokens, c: Tokens)
    requires AllLexable(a) && AllLexable(b) && AllLexable(c)
    ensures AllLexable(a + b + c) && AllLexable(a + (b + c))
  {
    hide Lexable;
    assert a + b + c == a + (b + c);
  }

  lemma ComparisonLexable(c: Cond, sp: Spelling)
    requires LexableSpelling(sp) && Printable(c, sp) && LexableRefs(c)
    requires c.Cmp? || c.Between? || c.In? || c.Func?
    ensures AllLexable(PrintUnary(c, sp))
  {
    hide Lexable, PrintOperand, PrintOperands, LexableSpelling, PrintableOperand, LexableOperand, AllLexable, OpText;
    SymbolsLexable();
    match c {
      case Cmp(op, l, r) =>
        OperandLexable(l, sp);
        OperandLexable(r, sp);
        OneLexable(Token(Op, OpText(op)));
        Concat3(PrintOperand(l, sp), [Token(Op, OpText(op))], PrintOperand(r, sp));
      case Between(v, lo, hi) =>
        OperandLexable(v, sp);
        OperandLexable(lo, sp);
        OperandLexable(hi, sp);
        KeywordLexable(sp, BETWEEN);
        KeywordLexable(sp, AND);
        LexableConcat([Kw(sp, BETWEEN)], PrintOperand(lo, sp));
        Concat3([Kw(sp, BETWEEN)] + PrintOperand(lo, sp), [Kw(sp, AND)], PrintOperand(hi, sp));
        LexableConcat(PrintOperand(v, sp),
                      [Kw(sp, BETWEEN)] + PrintOperand(lo, sp) + [Kw(sp, AND)] + PrintOperand(hi, sp));
      case In(v, list) =>
        OperandLexable(v, sp);
        OperandsLexable(list, sp);
        KeywordLexable(sp, IN);
        PairLexable(Kw(sp, IN), Symbol(LParen, "("));
        Concat3([Kw(sp, IN), Symbol(LParen, "(")], PrintOperands(list, sp), [Symbol(RParen, ")")]);
        LexableConcat(PrintOperand(v, sp),
                      [Kw(sp, IN), Symbol(LParen, "(")] + PrintOperands(list, sp) + [Symbol(RParen, ")")]);
      case Func(f, args) =>
        OperandsLexable(args, sp);
        FunctionLexable(sp, f);
        PairLexable(Token(Ident, sp.function_(f)), Symbol(LParen, "("));
        Concat3([Token(Ident, sp.function_(f)), Symbol(LParen, "(")], PrintOperands(args, sp), [Symbol(RParen, ")")]);
    }
  }

  lemma FunctionLexable(sp: Spelling, f: Function)
    requires LexableSpelling(sp)
    ensures AllLexable([Token(Ident, sp.function_(f))])
  {
  }

  lemma OneLexable(t: Token)
    requires Lexable(t)
    ensures AllLexable([t])
  {
  }

  lemma PairLexable(t: Token, u: Token)
    requires AllLexable([t]) && AllLexable([u])
    ensures AllLexable([t, u])
  {
    hide Lexable;
    assert [t, u] == [t] + [u];
  }

  lemma {:induction false} UnaryLexable(c: Cond, sp: Spelling)
    requires LexableSpelling(sp) && Printable(c, sp) && LexableRefs(c)
    ensures AllLexable(PrintUnary(c, sp))
    decreases c, 0
  {
    hide Lexable, LexableSpelling, AllLexable, JoinOr, JoinAnd, Kw;
    SymbolsLexable();
    match c {
      case Or(ts) =>
        JoinOrLexable(ts, sp);
        Concat3([Symbol(LParen, "(")], JoinOr(ts, sp), [Symbol(RParen, ")")]);
      case And(ts) =>
        JoinAndLexable(ts, sp);
        Concat3([Symbol(LParen, "(")], JoinAnd(ts, sp), [Symbol(RParen, ")")]);
      case Not(e) =>
        UnaryLexable(e, sp);
        KeywordLexable(sp, NOT);
        LexableConcat([Kw(sp, NOT)], PrintUnary(e, sp));
      case _ => ComparisonLexable(c, sp);
    }
  }

  lemma {:induction false} JoinAndLexable(ts: seq<Cond>, sp: Spelling)
    requires LexableSpelling(sp) && ts != []
    requires forall i :: 0 <= i < |ts| ==> Printable(ts[i], sp) && LexableRefs(ts[i])
    ensures AllLexable(JoinAnd(ts, sp))
    decreases ts, 1
  {
    hide Lexable, LexableSpelling, AllLexable, PrintUnary, Kw, Printable, LexableRefs;
    UnaryLexable(ts[0], sp);
    if |ts| > 1 {
      JoinAndLexable(ts[1..], sp);
      KeywordLexable(sp, AND);
      Concat3(PrintUnary(ts[0], sp), [Kw(sp, AND)], JoinAnd(ts[1..], sp));
    }
  }

  lemma {:induction false} AndLevelLexable(c: Cond, sp: Spelling)
    requires LexableSpelling(sp) && Printable(c, sp) && LexableRefs(c)
    ensures AllLexable(PrintAnd(c, sp))
    decreases c, 1
  {
    hide Lexable, LexableSpelling, AllLexable, PrintUnary, JoinAnd;
    if c.And? {
      JoinAndLexable(c.terms, sp);
    } else {
      UnaryLexable(c, sp);
    }
  }

  lemma {:induction false} JoinOrLexable(ts: seq<Cond>, sp: Spelling)
    requires LexableSpelling(sp) && ts != []
    requires forall i :: 0 <= i < |ts| ==> Printable(ts[i], sp) && LexableRefs(ts[i])
    ensures AllLexable(JoinOr(ts, sp))
    decreases ts, 1
  {
    hide Lexable, LexableSpelling, AllLexable, PrintAnd, Kw, Printable, LexableRefs;
    AndLevelLexable(ts[0], sp);
    if |ts| > 1 {
      JoinOrLexable(ts[1..], sp);
      KeywordLexable(sp, OR);
      Concat3(PrintAnd(ts[0], sp), [Kw(sp, OR)], JoinOr(ts[1..], sp));
    }
  }

  /** The text of any condition tree, however its names and keywords are spelled and whatever blanks separate its
      tokens, lexes and parses back to that tree. */
  lemma TextRoundTrips(c: Cond, sp: Spelling, cx: Context, gaps: seq<string>)
    requires Readable(sp, cx) && LexableSpelling(sp)
    requires Printable(c, sp) && LexableRefs(c) && |gaps| == |PrintOr(c, sp)| && Separated(PrintOr(c, sp), gaps)
    ensures ParseConditionExpr(Laid(PrintOr(c, sp), gaps), cx) == Ok(c)
  {
    hide Readable, LexableSpelling, ParseAll, JoinOr, PrintAnd, Laid, Lex, Lexable, Separated;
    if c.Or? {
      JoinOrLexable(c.terms, sp);
    } else {
      AndLevelLexable(c, sp);
    }
    LexOfLaid(PrintOr(c, sp), gaps);
    ParsePrinted(c, sp, cx);
  }
}
