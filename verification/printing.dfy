/** Printing condition trees, and parsing the printed form (expr.go): NOT binds tighter than AND, AND
    tighter than OR, and BETWEEN keeps its own AND. */
module Printing {
  import opened Wrappers
  import opened Decimal
  import opened Paths
  import opened Lexer
  import opened Expressions
  import opened Grammar

  /** How names, keywords and functions are written; any spelling that reads back will do. */
  datatype Spelling = Spelling(names: map<string, Token>, keyword: Keyword -> string, function_: Function -> string)

  /** Keywords and functions in any letter case, names as identifiers or as #references. */
  ghost predicate Readable(sp: Spelling, cx: Context) {
    && KeywordText(NOT) in cx.reserved
    && (forall k :: Upper(sp.keyword(k)) == KeywordText(k))
    && (forall f :: FunctionNamed(sp.function_(f)) == Some(f))
    && (forall n :: n in sp.names ==> NameOf(sp.names[n], cx) == Ok(n))
  }

  // ---- printing ----

  function Symbol(k: Kind, text: string): Token {
    Token(k, text)
  }

  function Kw(sp: Spelling, k: Keyword): Token {
    Token(Ident, sp.keyword(k))
  }

  predicate PrintableElem(e: Elem, sp: Spelling) {
    match e
    case Name(n) => n in sp.names
    case Index(i) => i < MAX_INT
  }

  predicate PrintablePath(p: seq<Elem>, sp: Spelling) {
    forall i :: 0 <= i < |p| ==> PrintableElem(p[i], sp)
  }

  function PrintElem(e: Elem, sp: Spelling): Tokens
    requires PrintableElem(e, sp)
  {
    match e
    case Name(n) => [Symbol(Dot, "."), sp.names[n]]
    case Index(i) => [Symbol(LBracket, "["), Token(Num, DecimalText(i)), Symbol(RBracket, "]")]
  }

  function PrintRest(p: seq<Elem>, sp: Spelling): Tokens
    requires PrintablePath(p, sp)
  {
    if p == [] then [] else PrintElem(p[0], sp) + PrintRest(p[1..], sp)
  }

  function PrintPath(p: Path, sp: Spelling): Tokens
    requires PrintablePath(p, sp)
  {
    [sp.names[p[0].name]] + PrintRest(p[1..], sp)
  }

  predicate PrintableOperand(o: Operand, sp: Spelling) {
    o.ValueRef? || PrintablePath(o.path, sp)
  }

  function PrintOperand(o: Operand, sp: Spelling): Tokens
    requires PrintableOperand(o, sp)
  {
    match o
    case ValueRef(r) => [Token(ValRef, r)]
    case PathOf(p) => PrintPath(p, sp)
    case SizeOf(p) => [Kw(sp, SIZE), Symbol(LParen, "(")] + PrintPath(p, sp) + [Symbol(RParen, ")")]
  }

  function PrintOperands(list: seq<Operand>, sp: Spelling): Tokens
    requires list != [] && forall i :: 0 <= i < |list| ==> PrintableOperand(list[i], sp)
  {
    if |list| == 1 then PrintOperand(list[0], sp)
    else PrintOperand(list[0], sp) + [Symbol(Comma, ",")] + PrintOperands(list[1..], sp)
  }

  /** Trees the parser can produce: And and Or have at least two terms, functions their arguments. */
  predicate Printable(c: Cond, sp: Spelling) {
    match c
    case Or(ts) => |ts| >= 2 && forall i :: 0 <= i < |ts| ==> Printable(ts[i], sp)
    case And(ts) => |ts| >= 2 && forall i :: 0 <= i < |ts| ==> Printable(ts[i], sp)
    case Not(e) => Printable(e, sp)
    case Cmp(_, l, r) => PrintableOperand(l, sp) && PrintableOperand(r, sp)
    case Between(v, lo, hi) => PrintableOperand(v, sp) && PrintableOperand(lo, sp) && PrintableOperand(hi, sp)
    case In(v, list) =>
      PrintableOperand(v, sp) && list != [] && forall i :: 0 <= i < |list| ==> PrintableOperand(list[i], sp)
    case Func(f, args) =>
      |args| == Arity(f) && forall i :: 0 <= i < |args| ==> PrintableOperand(args[i], sp)
  }

  function PrintOr(c: Cond, sp: Spelling): Tokens
    requires Printable(c, sp)
    decreases c, 2
  {
    if c.Or? then JoinOr(c.terms, sp) else PrintAnd(c, sp)
  }

  function PrintAnd(c: Cond, sp: Spelling): Tokens
    requires Printable(c, sp)
    decreases c, 1
  {
    if c.And? then JoinAnd(c.terms, sp) else PrintUnary(c, sp)
  }

  /** Or and And need parentheses here, nothing else does. */
  function PrintUnary(c: Cond, sp: Spelling): Tokens
    requires Printable(c, sp)
    decreases c, 0
  {
    match c
    case Or(ts) => [Symbol(LParen, "(")] + JoinOr(ts, sp) + [Symbol(RParen, ")")]
    case And(ts) => [Symbol(LParen, "(")] + JoinAnd(ts, sp) + [Symbol(RParen, ")")]
    case Not(e) => [Kw(sp, NOT)] + PrintUnary(e, sp)
    case Cmp(op, l, r) => PrintOperand(l, sp) + ([Token(Op, OpText(op))] + PrintOperand(r, sp))
    case Between(v, lo, hi) =>
      PrintOperand(v, sp) + ([Kw(sp, BETWEEN)] + PrintOperand(lo, sp) + [Kw(sp, AND)] + PrintOperand(hi, sp))
    case In(v, list) =>
      PrintOperand(v, sp) + ([Kw(sp, IN), Symbol(LParen, "(")] + PrintOperands(list, sp) + [Symbol(RParen, ")")])
    case Func(f, args) =>
      [Token(Ident, sp.function_(f)), Symbol(LParen, "(")] + PrintOperands(args, sp) + [Symbol(RParen, ")")]
  }

  function JoinOr(ts: seq<Cond>, sp: Spelling): Tokens
    requires ts != [] && forall i :: 0 <= i < |ts| ==> Printable(ts[i], sp)
    decreases ts, 0
  {
    if |ts| == 1 then PrintAnd(ts[0], sp)
    else PrintAnd(ts[0], sp) + ([Kw(sp, OR)] + JoinOr(ts[1..], sp))
  }

  function JoinAnd(ts: seq<Cond>, sp: Spelling): Tokens
    requires ts != [] && forall i :: 0 <= i < |ts| ==> Printable(ts[i], sp)
    decreases ts, 0
  {
    if |ts| == 1 then PrintUnary(ts[0], sp)
    else PrintUnary(ts[0], sp) + ([Kw(sp, AND)] + JoinAnd(ts[1..], sp))
  }

  // ---- operands parse back ----

  /** Nothing that would continue a path. */
  predicate PathEnds(rest: Tokens) {
    !Next(rest, Dot) && !Next(rest, LBracket)
  }

  lemma {:induction false} LeadingDigitsAll(d: Digits)
    ensures LeadingDigits(d) == d
  {
    if d != "" {
      LeadingDigitsAll(d[1..]);
      assert d == [d[0]] + d[1..];
    }
  }

  lemma {:induction false} PathRestParses(p: seq<Elem>, sp: Spelling, cx: Context, acc: Path, rest: Tokens)
    requires Readable(sp, cx) && PrintablePath(p, sp) && PathEnds(rest)
    ensures ParsePathRest(PrintRest(p, sp) + rest, cx, acc) == Ok((acc + p, rest))
    decreases |p|
  {
    hide NameOf, DecimalText, IndexOfText, PrintElem, PrintableElem, Readable;
    if p == [] {
      assert [] + rest == rest && acc + [] == acc;
    } else {
      var more := PrintRest(p[1..], sp) + rest;
      assert PrintRest(p, sp) + rest == PrintElem(p[0], sp) + more;
      assert acc + [p[0]] + p[1..] == acc + p;
      assert PrintableElem(p[0], sp);
      hide ParsePathRest;
      ElemParses(p[0], sp, cx, acc, more);
      PathRestParses(p[1..], sp, cx, acc + [p[0]], rest);
    }
  }

  lemma ElemParses(e: Elem, sp: Spelling, cx: Context, acc: Path, more: Tokens)
    requires Readable(sp, cx) && PrintableElem(e, sp)
    ensures ParsePathRest(PrintElem(e, sp) + more, cx, acc) == ParsePathRest(more, cx, acc + [e])
  {
    hide NameOf, DecimalText, IndexOfText;
    var ts := PrintElem(e, sp) + more;
    match e {
      case Name(n) =>
        assert ts[0].kind == Dot && ts[1] == sp.names[n] && ts[2..] == more;
      case Index(i) =>
        IndexReads(i);
        assert ts[0].kind == LBracket && ts[1] == Token(Num, DecimalText(i)) && ts[3..] == more;
        assert ts[2..][0].kind == RBracket;
    }
  }

  lemma IndexReads(i: nat)
    requires i < MAX_INT
    ensures IndexOfText(DecimalText(i)) == i
  {
    LeadingDigitsAll(DecimalText(i));
  }

  lemma PathParses(p: Path, sp: Spelling, cx: Context, rest: Tokens)
    requires Readable(sp, cx) && PrintablePath(p, sp) && PathEnds(rest)
    ensures ParsePath(PrintPath(p, sp) + rest, cx) == Ok((p, rest))
  {
    hide NameOf, ParsePathRest, PrintRest;
    var ts := PrintPath(p, sp) + rest;
    assert ts[0] == sp.names[p[0].name] && ts[1..] == PrintRest(p[1..], sp) + rest;
    assert PrintableElem(p[0], sp);
    PathRestParses(p[1..], sp, cx, [p[0]], rest);
    assert [p[0]] + p[1..] == p;
  }

  /** A printed path starts with a name, and is followed by no parenthesis. */
  lemma PathStart(p: Path, sp: Spelling, cx: Context, rest: Tokens)
    requires Readable(sp, cx) && PrintablePath(p, sp)
    ensures var ts := PrintPath(p, sp) + rest;
            && (Next(ts, Ident) || Next(ts, NameRef)) && !IsKeyword(ts, NOT)
            && (Next(ts[1..], LParen) ==> Next(rest, LParen))
  {
    hide DecimalText;
    var ts := PrintPath(p, sp) + rest;
    assert PrintableElem(p[0], sp);
    assert NameOf(ts[0], cx) == Ok(p[0].name);
    hide NameOf;
    assert ts[1..] == PrintRest(p[1..], sp) + rest;
    if p[1..] != [] {
      assert (PrintRest(p[1..], sp) + rest)[0] == PrintElem(p[1], sp)[0];
    } else {
      assert [] + rest == rest;
    }
  }

  lemma OperandParses(o: Operand, sp: Spelling, cx: Context, rest: Tokens)
    requires Readable(sp, cx) && PrintableOperand(o, sp) && PathEnds(rest) && !Next(rest, LParen)
    ensures ParseOperand(PrintOperand(o, sp) + rest, cx) == Ok((o, rest))
  {
    hide ParsePath, PrintPath, NameOf;
    var ts := PrintOperand(o, sp) + rest;
    match o {
      case ValueRef(r) => assert ts[0] == Token(ValRef, r) && ts[1..] == rest;
      case PathOf(p) =>
        PathParses(p, sp, cx, rest);
        PathStart(p, sp, cx, rest);
      case SizeOf(p) => SizeParses(p, sp, cx, rest);
    }
  }

  lemma SizeParses(p: Path, sp: Spelling, cx: Context, rest: Tokens)
    requires Readable(sp, cx) && PrintablePath(p, sp)
    ensures ParseOperand(PrintOperand(SizeOf(p), sp) + rest, cx) == Ok((SizeOf(p), rest))
  {
    hide ParsePath, PrintPath, NameOf, PrintablePath;
    var ts, close := PrintOperand(SizeOf(p), sp) + rest, [Symbol(RParen, ")")] + rest;
    assert ts[0] == Kw(sp, SIZE) && ts[1].kind == LParen && ts[1..][0].kind == LParen;
    assert ts[2..] == PrintPath(p, sp) + close;
    PathParses(p, sp, cx, close);
    assert close[1..] == rest;
  }

  lemma {:induction false} OperandsParse(list: seq<Operand>, sp: Spelling, cx: Context, rest: Tokens)
    requires list != [] && forall i :: 0 <= i < |list| ==> PrintableOperand(list[i], sp)
    requires Readable(sp, cx) && Next(rest, RParen)
    ensures ParseOperands(PrintOperands(list, sp) + rest, cx) == Ok((list, rest))
    decreases |list|
  {
    hide ParseOperand, PrintOperand, PrintableOperand, Readable;
    if |list| == 1 {
      OperandParses(list[0], sp, cx, rest);
      assert list == [list[0]];
    } else {
      var more := [Symbol(Comma, ",")] + (PrintOperands(list[1..], sp) + rest);
      assert PrintOperands(list, sp) + rest == PrintOperand(list[0], sp) + more;
      OperandParses(list[0], sp, cx, more);
      assert more[1..] == PrintOperands(list[1..], sp) + rest;
      OperandsParse(list[1..], sp, cx, rest);
      assert list == [list[0]] + list[1..];
    }
  }

  // ---- conditions parse back ----

  /** Nothing that would continue an operand. */
  predicate OperandEnds(rest: Tokens) {
    PathEnds(rest) && !Next(rest, LParen)
  }

  lemma KeywordsDistinct(j: Keyword, k: Keyword)
    ensures KeywordText(j) == KeywordText(k) <==> j == k
  {
    assert "AND"[0] == 'A' && "NOT"[0] == 'N' && "OR"[0] == 'O' && "IN"[0] == 'I';
  }

  /** A printed keyword reads as that keyword and no other. */
  lemma KeywordReads(sp: Spelling, cx: Context, k: Keyword, rest: Tokens)
    requires Readable(sp, cx)
    ensures var ts := [Kw(sp, k)] + rest;
            && ts[1..] == rest && OperandEnds(ts) && !Next(ts, Op) && !Next(ts, EOF)
            && forall j :: IsKeyword(ts, j) <==> j == k
  {
    hide NameOf, KeywordText, FunctionNamed;
    forall j ensures KeywordText(k) == KeywordText(j) <==> j == k {
      KeywordsDistinct(k, j);
    }
  }

  lemma SymbolIsNoKeyword(t: Token, rest: Tokens)
    requires t.kind != Ident
    ensures forall k :: !IsKeyword([t] + rest, k)
  {
  }

  lemma FunctionReads(text: string, f: Function)
    requires FunctionNamed(text) == Some(f)
    ensures Upper(text) == FunctionText(f)
    ensures Upper(text) != KeywordText(NOT)
  {
  }

  lemma SizeIsNoFunction(text: string)
    requires Upper(text) == KeywordText(SIZE)
    ensures FunctionNamed(text) == None
  {
  }

  /** A printed operand starts neither a NOT, nor a parenthesis, nor a function call. */
  lemma OperandStart(o: Operand, sp: Spelling, cx: Context, rest: Tokens)
    requires Readable(sp, cx) && PrintableOperand(o, sp) && OperandEnds(rest)
    ensures var ts := PrintOperand(o, sp) + rest;
            !IsKeyword(ts, NOT) && !Next(ts, LParen) && !StartsCall(ts)
  {
    hide PrintPath, NameOf, FunctionNamed;
    match o {
      case ValueRef(_) =>
      case PathOf(p) => PathStart(p, sp, cx, rest);
      case SizeOf(p) =>
        var more := [Symbol(LParen, "(")] + PrintPath(p, sp) + [Symbol(RParen, ")")] + rest;
        assert PrintOperand(o, sp) + rest == [Kw(sp, SIZE)] + more;
        KeywordReads(sp, cx, SIZE, more);
        SizeIsNoFunction(sp.keyword(SIZE));
    }
  }

  /** A comparison parses back once its tail does. */
  lemma ComparisonParses(v: Operand, tail: Tokens, c: Cond, sp: Spelling, cx: Context, rest: Tokens)
    requires Readable(sp, cx) && PrintableOperand(v, sp) && OperandEnds(tail)
    requires ParseTail(v, tail, cx) == Ok((c, rest))
    ensures ParseUnary(PrintOperand(v, sp) + tail, cx) == Ok((c, rest))
  {
    hide PrintOperand, ParseOperand, ParseTail, Readable, StartsCall, ParsePredicate;
    OperandStart(v, sp, cx, tail);
    OperandParses(v, sp, cx, tail);
  }

  lemma OpReads(op: CmpOp)
    ensures OpNamed(OpText(op)) == Some(op)
  {
  }

  lemma CmpTail(op: CmpOp, l: Operand, r: Operand, sp: Spelling, cx: Context, rest: Tokens)
    requires Readable(sp, cx) && PrintableOperand(r, sp) && OperandEnds(rest)
    ensures var tail := [Token(Op, OpText(op))] + (PrintOperand(r, sp) + rest);
            OperandEnds(tail) && ParseTail(l, tail, cx) == Ok((Cmp(op, l, r), rest))
  {
    hide PrintOperand, ParseOperand, Readable, OpNamed, OpText;
    var tail := [Token(Op, OpText(op))] + (PrintOperand(r, sp) + rest);
    assert tail[1..] == PrintOperand(r, sp) + rest;
    OpReads(op);
    OperandParses(r, sp, cx, rest);
  }

  lemma BetweenTail(v: Operand, lo: Operand, hi: Operand, sp: Spelling, cx: Context, rest: Tokens)
    requires Readable(sp, cx) && PrintableOperand(lo, sp) && PrintableOperand(hi, sp) && OperandEnds(rest)
    ensures var tail := [Kw(sp, BETWEEN)] + (PrintOperand(lo, sp) + ([Kw(sp, AND)] + (PrintOperand(hi, sp) + rest)));
            OperandEnds(tail) && ParseTail(v, tail, cx) == Ok((Between(v, lo, hi), rest))
  {
    hide PrintOperand, ParseOperand, Readable, IsKeyword;
    var mid := PrintOperand(hi, sp) + rest;
    KeywordReads(sp, cx, AND, mid);
    KeywordReads(sp, cx, BETWEEN, PrintOperand(lo, sp) + ([Kw(sp, AND)] + mid));
    OperandParses(hi, sp, cx, rest);
    OperandParses(lo, sp, cx, [Kw(sp, AND)] + mid);
  }

  lemma InTail(v: Operand, list: seq<Operand>, sp: Spelling, cx: Context, rest: Tokens)
    requires Readable(sp, cx) && list != [] && forall i :: 0 <= i < |list| ==> PrintableOperand(list[i], sp)
    ensures var tail := [Kw(sp, IN)] +
                        ([Symbol(LParen, "(")] + (PrintOperands(list, sp) + ([Symbol(RParen, ")")] + rest)));
            OperandEnds(tail) && ParseTail(v, tail, cx) == Ok((In(v, list), rest))
  {
    hide PrintOperands, ParseOperands, Readable, IsKeyword;
    var close := [Symbol(RParen, ")")] + rest;
    var open := [Symbol(LParen, "(")] + (PrintOperands(list, sp) + close);
    KeywordReads(sp, cx, IN, open);
    assert open[1..] == PrintOperands(list, sp) + close && close[1..] == rest;
    OperandsParse(list, sp, cx, close);
  }

  /** The arguments of a call, behind its name and parenthesis. */
  lemma ArgumentsParse(f: Function, args: seq<Operand>, sp: Spelling, cx: Context, ts: Tokens, rest: Tokens)
    requires Readable(sp, cx) && |args| == Arity(f) && forall i :: 0 <= i < |args| ==> PrintableOperand(args[i], sp)
    requires |ts| > 1 && ts[2..] == PrintOperands(args, sp) + ([Symbol(RParen, ")")] + rest)
    ensures ParsePredicate(ts, cx, f) == Ok((Func(f, args), rest))
  {
    hide PrintOperand, ParseOperand, PrintableOperand, Readable;
    var close := [Symbol(RParen, ")")] + rest;
    assert close[1..] == rest;
    if Arity(f) == 1 {
      assert args == [args[0]];
      OperandParses(args[0], sp, cx, close);
    } else {
      assert args == [args[0], args[1]] && args[1..] == [args[1]];
      var second := PrintOperand(args[1], sp) + close;
      var mid := [Symbol(Comma, ",")] + second;
      assert ts[2..] == PrintOperand(args[0], sp) + mid && mid[1..] == second;
      OperandParses(args[0], sp, cx, mid);
      OperandParses(args[1], sp, cx, close);
    }
  }

  lemma CallParses(f: Function, args: seq<Operand>, sp: Spelling, cx: Context, rest: Tokens)
    requires Readable(sp, cx) && |args| == Arity(f) && forall i :: 0 <= i < |args| ==> PrintableOperand(args[i], sp)
    ensures var ts := [Token(Ident, sp.function_(f))] +
                      ([Symbol(LParen, "(")] + (PrintOperands(args, sp) + ([Symbol(RParen, ")")] + rest)));
            ParseUnary(ts, cx) == Ok((Func(f, args), rest))
  {
    hide PrintOperands, ParseOperand, FunctionNamed, NameOf, KeywordText, PrintableOperand, ParsePredicate;
    var body := PrintOperands(args, sp) + ([Symbol(RParen, ")")] + rest);
    var ts := [Token(Ident, sp.function_(f))] + ([Symbol(LParen, "(")] + body);
    FunctionReads(sp.function_(f), f);
    assert ts[1..][0].kind == LParen && ts[2..] == body;
    ArgumentsParse(f, args, sp, cx, ts, rest);
  }

  lemma ParenthesesParse(c: Cond, inner: Tokens, cx: Context, rest: Tokens)
    requires ParseOr(inner + ([Symbol(RParen, ")")] + rest), cx) == Ok((c, [Symbol(RParen, ")")] + rest))
    ensures ParseUnary([Symbol(LParen, "(")] + (inner + ([Symbol(RParen, ")")] + rest)), cx) == Ok((c, rest))
  {
    hide ParseOr;
    var close := [Symbol(RParen, ")")] + rest;
    var ts := [Symbol(LParen, "(")] + (inner + close);
    assert ts[1..] == inner + close && close[1..] == rest;
  }

  /** Comparisons and function calls parse back. */
  lemma AtomParses(c: Cond, sp: Spelling, cx: Context, rest: Tokens)
    requires Readable(sp, cx) && Printable(c, sp) && OperandEnds(rest)
    requires !c.Or? && !c.And? && !c.Not?
    ensures ParseUnary(PrintUnary(c, sp) + rest, cx) == Ok((c, rest))
  {
    hide PrintOperand, PrintOperands, Readable, ParseTail, ParseUnary, Kw, PrintableOperand, OpText, OperandEnds;
    var close := [Symbol(RParen, ")")] + rest;
    match c {
      case Cmp(op, l, r) =>
        CmpTail(op, l, r, sp, cx, rest);
        var tail := [Token(Op, OpText(op))] + (PrintOperand(r, sp) + rest);
        ComparisonParses(l, tail, c, sp, cx, rest);
        assert PrintUnary(c, sp) + rest == PrintOperand(l, sp) + tail;
      case Between(v, lo, hi) =>
        BetweenTail(v, lo, hi, sp, cx, rest);
        var tail := [Kw(sp, BETWEEN)] + (PrintOperand(lo, sp) + ([Kw(sp, AND)] + (PrintOperand(hi, sp) + rest)));
        ComparisonParses(v, tail, c, sp, cx, rest);
        assert PrintUnary(c, sp) + rest == PrintOperand(v, sp) + tail;
      case In(v, list) =>
        InTail(v, list, sp, cx, rest);
        var tail := [Kw(sp, IN)] + ([Symbol(LParen, "(")] + (PrintOperands(list, sp) + close));
        ComparisonParses(v, tail, c, sp, cx, rest);
        assert PrintUnary(c, sp) + rest == PrintOperand(v, sp) + tail;
      case Func(f, args) =>
        CallParses(f, args, sp, cx, rest);
        assert PrintUnary(c, sp) + rest
            == [Token(Ident, sp.function_(f))] + ([Symbol(LParen, "(")] + (PrintOperands(args, sp) + close));
      case _ =>
    }
  }

  lemma NotParses(e: Cond, ts: Tokens, sp: Spelling, cx: Context, rest: Tokens)
    requires Readable(sp, cx) && ParseUnary(ts, cx) == Ok((e, rest))
    ensures ParseUnary([Kw(sp, NOT)] + ts, cx) == Ok((Not(e), rest))
  {
    hide Readable, ParsePrimary, IsKeyword, Kw;
    KeywordReads(sp, cx, NOT, ts);
  }

  lemma {:induction false} UnaryParses(c: Cond, sp: Spelling, cx: Context, rest: Tokens)
    requires Readable(sp, cx) && Printable(c, sp) && OperandEnds(rest)
    ensures ParseUnary(PrintUnary(c, sp) + rest, cx) == Ok((c, rest))
    decreases c, 0
  {
    hide Readable, ParseUnary, ParseOr, ParseAnd, JoinOr, JoinAnd, IsKeyword, Kw, PrintableOperand;
    var close := [Symbol(RParen, ")")] + rest;
    match c {
      case Or(ts) =>
        SymbolIsNoKeyword(Symbol(RParen, ")"), rest);
        OrParses(ts, sp, cx, close);
        ParenthesesParse(c, JoinOr(ts, sp), cx, rest);
        assert PrintUnary(c, sp) + rest == [Symbol(LParen, "(")] + (JoinOr(ts, sp) + close);
      case And(ts) =>
        SymbolIsNoKeyword(Symbol(RParen, ")"), rest);
        AndParses(ts, sp, cx, close);
        NoOrFollows(ts, sp, cx, close);
        ParenthesesParse(c, JoinAnd(ts, sp), cx, rest);
        assert PrintUnary(c, sp) + rest == [Symbol(LParen, "(")] + (JoinAnd(ts, sp) + close);
      case Not(e) =>
        UnaryParses(e, sp, cx, rest);
        NotParses(e, PrintUnary(e, sp) + rest, sp, cx, rest);
        assert PrintUnary(c, sp) + rest == [Kw(sp, NOT)] + (PrintUnary(e, sp) + rest);
      case _ => AtomParses(c, sp, cx, rest);
    }
  }

  /** The terms of an And, joined, parse back to that And. */
  lemma {:induction false} AndParses(ts: seq<Cond>, sp: Spelling, cx: Context, rest: Tokens)
    requires Readable(sp, cx) && OperandEnds(rest) && !IsKeyword(rest, AND)
    requires |ts| >= 2 && forall i :: 0 <= i < |ts| ==> Printable(ts[i], sp)
    ensures ParseAnd(JoinAnd(ts, sp) + rest, cx) == Ok((And(ts), rest))
    decreases ts, 3
  {
    hide Readable, ParseUnary, PrintUnary, IsKeyword, OperandEnds, Printable, Kw, ParseAndTerms;
    var more := [Kw(sp, AND)] + (JoinAnd(ts[1..], sp) + rest);
    assert JoinAnd(ts, sp) + rest == PrintUnary(ts[0], sp) + more;
    KeywordReads(sp, cx, AND, JoinAnd(ts[1..], sp) + rest);
    UnaryParses(ts[0], sp, cx, more);
    AndTermsParse(ts[1..], sp, cx, rest);
    assert ts == [ts[0]] + ts[1..];
  }

  lemma {:induction false} AndTermsParse(ts: seq<Cond>, sp: Spelling, cx: Context, rest: Tokens)
    requires Readable(sp, cx) && OperandEnds(rest) && !IsKeyword(rest, AND)
    requires ts != [] && forall i :: 0 <= i < |ts| ==> Printable(ts[i], sp)
    ensures ParseAndTerms([Kw(sp, AND)] + (JoinAnd(ts, sp) + rest), cx) == Ok((ts, rest))
    decreases ts, 1
  {
    hide Readable, ParseUnary, PrintUnary, IsKeyword, OperandEnds, Printable, Kw;
    KeywordReads(sp, cx, AND, JoinAnd(ts, sp) + rest);
    if |ts| == 1 {
      UnaryParses(ts[0], sp, cx, rest);
      assert ParseAndTerms(rest, cx) == Ok(([], rest));
      assert [ts[0]] + [] == ts;
    } else {
      var more := [Kw(sp, AND)] + (JoinAnd(ts[1..], sp) + rest);
      assert JoinAnd(ts, sp) + rest == PrintUnary(ts[0], sp) + more;
      KeywordReads(sp, cx, AND, JoinAnd(ts[1..], sp) + rest);
      UnaryParses(ts[0], sp, cx, more);
      AndTermsParse(ts[1..], sp, cx, rest);
      assert ts == [ts[0]] + ts[1..];
    }
  }

  /** At the level of AND: a term of an Or parses back. */
  lemma {:induction false} AndLevelParses(c: Cond, sp: Spelling, cx: Context, rest: Tokens)
    requires Readable(sp, cx) && Printable(c, sp) && OperandEnds(rest) && !IsKeyword(rest, AND)
    ensures ParseAnd(PrintAnd(c, sp) + rest, cx) == Ok((c, rest))
    decreases c, 1
  {
    hide Readable, ParseUnary, PrintUnary, IsKeyword, OperandEnds, ParseAndTerms, JoinAnd;
    if c.And? {
      AndParses(c.terms, sp, cx, rest);
    } else {
      UnaryParses(c, sp, cx, rest);
    }
  }

  lemma NoOrFollows(ts: seq<Cond>, sp: Spelling, cx: Context, rest: Tokens)
    requires |ts| >= 2 && forall i :: 0 <= i < |ts| ==> Printable(ts[i], sp)
    requires ParseAnd(JoinAnd(ts, sp) + rest, cx) == Ok((And(ts), rest)) && !IsKeyword(rest, OR)
    ensures ParseOr(JoinAnd(ts, sp) + rest, cx) == Ok((And(ts), rest))
  {
    hide ParseAnd;
  }

  /** The terms of an Or, joined, parse back to that Or. */
  lemma {:induction false} OrParses(ts: seq<Cond>, sp: Spelling, cx: Context, rest: Tokens)
    requires Readable(sp, cx) && OperandEnds(rest) && !IsKeyword(rest, AND) && !IsKeyword(rest, OR)
    requires |ts| >= 2 && forall i :: 0 <= i < |ts| ==> Printable(ts[i], sp)
    ensures ParseOr(JoinOr(ts, sp) + rest, cx) == Ok((Or(ts), rest))
    decreases ts, 3
  {
    hide Readable, ParseAnd, PrintAnd, IsKeyword, OperandEnds, Printable, Kw, ParseOrTerms;
    var more := [Kw(sp, OR)] + (JoinOr(ts[1..], sp) + rest);
    assert JoinOr(ts, sp) + rest == PrintAnd(ts[0], sp) + more;
    KeywordReads(sp, cx, OR, JoinOr(ts[1..], sp) + rest);
    AndLevelParses(ts[0], sp, cx, more);
    OrTermsParse(ts[1..], sp, cx, rest);
    assert ts == [ts[0]] + ts[1..];
  }

  lemma {:induction false} OrTermsParse(ts: seq<Cond>, sp: Spelling, cx: Context, rest: Tokens)
    requires Readable(sp, cx) && OperandEnds(rest) && !IsKeyword(rest, AND) && !IsKeyword(rest, OR)
    requires ts != [] && forall i :: 0 <= i < |ts| ==> Printable(ts[i], sp)
    ensures ParseOrTerms([Kw(sp, OR)] + (JoinOr(ts, sp) + rest), cx) == Ok((ts, rest))
    decreases ts, 1
  {
    hide Readable, ParseAnd, PrintAnd, IsKeyword, OperandEnds, Printable, Kw;
    KeywordReads(sp, cx, OR, JoinOr(ts, sp) + rest);
    if |ts| == 1 {
      AndLevelParses(ts[0], sp, cx, rest);
      assert ParseOrTerms(rest, cx) == Ok(([], rest));
      assert [ts[0]] + [] == ts;
    } else {
      var more := [Kw(sp, OR)] + (JoinOr(ts[1..], sp) + rest);
      assert JoinOr(ts, sp) + rest == PrintAnd(ts[0], sp) + more;
      KeywordReads(sp, cx, OR, JoinOr(ts[1..], sp) + rest);
      AndLevelParses(ts[0], sp, cx, more);
      OrTermsParse(ts[1..], sp, cx, rest);
      assert ts == [ts[0]] + ts[1..];
    }
  }

  /** Parsing the printed form of any condition tree gives that tree back. */
  lemma ParsePrinted(c: Cond, sp: Spelling, cx: Context)
    requires Readable(sp, cx) && Printable(c, sp)
    ensures ParseAll(PrintOr(c, sp) + [Token(EOF, "")], cx) == Ok(c)
  {
    hide Readable, ParseAnd, PrintAnd, ParseOrTerms, JoinOr, Printable;
    var end := [Token(EOF, "")];
    if c.Or? {
      OrPrintable(c, sp);
      OrParses(c.terms, sp, cx, end);
    } else {
      AndLevelParses(c, sp, cx, end);
    }
  }

  lemma OrPrintable(c: Cond, sp: Spelling)
    requires c.Or? && Printable(c, sp)
    ensures |c.terms| >= 2 && forall i :: 0 <= i < |c.terms| ==> Printable(c.terms[i], sp)
  {
  }
}
