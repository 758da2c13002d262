/** The recursive-descent parser as the object it is: a token list and a cursor that every method moves
    (expr.go). Each method is proved against the grammar, and every read of a token is in range. */
module ParserMachine {
  import opened Wrappers
  import opened Paths
  import opened Lexer
  import opened Expressions
  import G = Grammar

  class Parser {
    const toks: seq<Token>
    const cx: G.Context
    var pos: nat

    /** A token list ends with the end marker, and the cursor is on a token. */
    ghost predicate Valid()
      reads this
    {
      toks != [] && toks[|toks| - 1].kind == EOF && pos < |toks|
    }

    /** The method returned what the grammar says, with the cursor on the rest; after an error the
        cursor may be anywhere. */
    ghost predicate Matches<T>(r: Result<T>, p: G.Parse<T>)
      reads this
    {
      match p
      case Err => r.Err?
      case Ok((v, rest)) => r == Ok(v) && Valid() && toks[pos..] == rest
    }

    constructor (toks: seq<Token>, cx: G.Context)
      requires toks != [] && toks[|toks| - 1].kind == EOF
      ensures Valid() && pos == 0 && this.toks == toks && this.cx == cx
    {
      this.toks, this.cx, pos := toks, cx, 0;
    }

    /** Move past the token at the cursor, which is not the end marker. */
    method Advance()
      requires Valid() && toks[pos].kind != EOF
      modifies `pos
      ensures pos == old(pos) + 1 && Valid()
      ensures toks[pos..] == toks[old(pos)..][1..]
    {
      pos := pos + 1;
    }

    method Expect(k: Kind) returns (ok: bool)
      requires Valid() && k != EOF
      modifies `pos
      ensures ok <==> G.Expect(toks[old(pos)..], k).Ok?
      ensures Valid() && pos == if ok then old(pos) + 1 else old(pos)
      ensures ok ==> toks[pos..] == G.Expect(toks[old(pos)..], k).value
    {
      ok := toks[pos].kind == k;
      if ok {
        Advance();
      }
    }

    method TakeKeyword(k: G.Keyword) returns (ok: bool)
      requires Valid()
      modifies `pos
      ensures ok <==> G.IsKeyword(toks[old(pos)..], k)
      ensures Valid() && toks[pos..] == if ok then toks[old(pos)..][1..] else toks[old(pos)..]
      ensures pos == if ok then old(pos) + 1 else old(pos)
    {
      ok := G.IsKeyword(toks[pos..], k);
      if ok {
        Advance();
      }
    }

    /** A name token at the cursor; the cursor moves past it even when it is the end marker. */
    method TakeName() returns (r: Result<string>)
      requires Valid()
      modifies `pos
      ensures r == G.NameOf(toks[old(pos)], cx)
      ensures r.Ok? ==> pos == old(pos) + 1 && Valid() && toks[pos..] == toks[old(pos)..][1..]
    {
      r := G.NameOf(toks[pos], cx);
      pos := pos + 1;
    }

    /** A dot and a name, or a bracketed index. */
    method ParseElem() returns (r: Result<Elem>)
      requires Valid() && (toks[pos].kind == Dot || toks[pos].kind == LBracket)
      modifies `pos
      ensures r.Ok? <==> ElemAt(toks, old(pos), cx).Ok?
      ensures r.Ok? ==> ElemAt(toks, old(pos), cx) == Ok((r.value, pos)) && Valid()
    {
      hide G.NameOf, G.IndexOfText;
      var dot := toks[pos].kind == Dot;
      Advance();
      if dot {
        var name := TakeName();
        return if name.Ok? then Ok(Name(name.value)) else Err;
      }
      var n := toks[pos];
      if n.kind != Num {
        return Err;
      }
      Advance();
      var ok := Expect(RBracket);
      return if ok then Ok(Index(G.IndexOfText(n.text))) else Err;
    }

    method ParsePath() returns (r: Result<Path>)
      requires Valid()
      modifies `pos
      ensures Matches(r, G.ParsePath(toks[old(pos)..], cx))
    {
      hide G.NameOf, G.ParsePathRest, ElemAt;
      ghost var start := toks[pos..];
      var name := TakeName();
      if name.Err? {
        return Err;
      }
      var path: Path := [Name(name.value)];
      while toks[pos].kind == Dot || toks[pos].kind == LBracket
        invariant Valid()
        invariant G.ParsePath(start, cx) == G.ParsePathRest(toks[pos..], cx, path)
        decreases |toks| - pos
      {
        PathStep(toks, pos, cx, path);
        var e := ParseElem();
        if e.Err? {
          return Err;
        }
        path := path + [e.value];
      }
      PathStep(toks, pos, cx, path);
      return Ok(path);
    }

    method ParseOperand() returns (r: Result<Operand>)
      requires Valid()
      modifies `pos
      ensures Matches(r, G.ParseOperand(toks[old(pos)..], cx))
    {
      hide G.ParsePath;
      ghost var ts := toks[pos..];
      var t := toks[pos];
      if t.kind == ValRef {
        Advance();
        return Ok(ValueRef(t.text));
      }
      if G.IsKeyword(toks[pos..], G.SIZE) {
        var save := pos;
        Advance();
        if toks[pos].kind == LParen {
          Advance();
          assert toks[pos..] == ts[2..];
          var p := ParsePath();
          if p.Err? {
            return Err;
          }
          var ok := Expect(RParen);
          return if ok then Ok(SizeOf(p.value)) else Err;
        }
        pos := save;
      }
      if t.kind == Ident || t.kind == NameRef {
        var p := ParsePath();
        return if p.Ok? then Ok(PathOf(p.value)) else Err;
      }
      return Err;
    }

    /** The loop over an IN list. */
    method ParseOperands() returns (r: Result<seq<Operand>>)
      requires Valid()
      modifies `pos
      ensures Matches(r, G.ParseOperands(toks[old(pos)..], cx))
    {
      hide G.ParseOperand, G.ParseOperands;
      ghost var start := toks[pos..];
      OperandsStep(start, cx);
      var o := ParseOperand();
      if o.Err? {
        return Err;
      }
      var list := [o.value];
      while toks[pos].kind == Comma
        invariant Valid()
        invariant G.ParseOperands(start, cx) == Behind(list, MoreOperands(toks[pos..], cx))
        decreases |toks| - pos
      {
        Advance();
        OperandsStep(toks[pos..], cx);
        o := ParseOperand();
        if o.Err? {
          return Err;
        }
        BehindOne(list, o.value, MoreOperands(toks[pos..], cx));
        list := list + [o.value];
      }
      assert list + [] == list;
      return Ok(list);
    }

    /** The loop over the arguments of a function. */
    method ParsePredicate(f: Function) returns (r: Result<Cond>)
      requires Valid() && pos + 1 < |toks| && toks[pos].kind == Ident && toks[pos + 1].kind == LParen
      modifies `pos
      ensures Matches(r, G.ParsePredicate(toks[old(pos)..], cx, f))
    {
      hide G.ParseOperand;
      assert toks[pos..][2..] == toks[pos + 2..];
      Advance();
      Advance();
      var a := ParseOperand();
      if a.Err? {
        return Err;
      }
      if G.Arity(f) == 1 {
        var ok := Expect(RParen);
        return if ok then Ok(Func(f, [a.value])) else Err;
      }
      var ok := Expect(Comma);
      if !ok {
        return Err;
      }
      var b := ParseOperand();
      if b.Err? {
        return Err;
      }
      ok := Expect(RParen);
      return if ok then Ok(Func(f, [a.value, b.value])) else Err;
    }

    /** The part of parsePrimary behind the left operand. */
    method ParseTail(left: Operand) returns (r: Result<Cond>)
      requires Valid()
      modifies `pos
      ensures Matches(r, G.ParseTail(left, toks[old(pos)..], cx))
    {
      hide G.ParseTail, G.IsKeyword;
      var t := toks[pos];
      if t.kind == Op {
        r := ParseComparison(left);
      } else if G.IsKeyword(toks[pos..], G.BETWEEN) {
        r := ParseBetween(left);
      } else {
        r := ParseIn(left);
      }
    }

    method ParseComparison(left: Operand) returns (r: Result<Cond>)
      requires Valid() && toks[pos].kind == Op
      modifies `pos
      ensures Matches(r, G.ParseTail(left, toks[old(pos)..], cx))
    {
      hide G.ParseOperand, G.OpNamed;
      var op := G.OpNamed(toks[pos].text);
      Advance();
      var right := ParseOperand();
      return if right.Ok? && op.Some? then Ok(Cmp(op.value, left, right.value)) else Err;
    }

    method ParseBetween(left: Operand) returns (r: Result<Cond>)
      requires Valid() && toks[pos].kind != Op && G.IsKeyword(toks[pos..], G.BETWEEN)
      modifies `pos
      ensures Matches(r, G.ParseTail(left, toks[old(pos)..], cx))
    {
      hide G.ParseOperand, G.IsKeyword;
      var between := TakeKeyword(G.BETWEEN);
      var lo := ParseOperand();
      if lo.Err? {
        return Err;
      }
      var and := TakeKeyword(G.AND);
      if !and {
        return Err;
      }
      var hi := ParseOperand();
      return if hi.Ok? then Ok(Between(left, lo.value, hi.value)) else Err;
    }

    method ParseIn(left: Operand) returns (r: Result<Cond>)
      requires Valid() && toks[pos].kind != Op && !G.IsKeyword(toks[pos..], G.BETWEEN)
      modifies `pos
      ensures Matches(r, G.ParseTail(left, toks[old(pos)..], cx))
    {
      hide G.ParseOperands, G.IsKeyword;
      var isIn := TakeKeyword(G.IN);
      if !isIn {
        return Err;
      }
      var open := Expect(LParen);
      if !open {
        return Err;
      }
      var list := ParseOperands();
      if list.Err? {
        return Err;
      }
      var close := Expect(RParen);
      return if close then Ok(In(left, list.value)) else Err;
    }

    method ParseOr() returns (r: Result<Cond>)
      requires Valid()
      modifies `pos
      ensures Matches(r, G.ParseOr(toks[old(pos)..], cx))
      decreases |toks| - pos, 3
    {
      hide G.ParseAnd, G.IsKeyword;
      var first := ParseAnd();
      if first.Err? || !G.IsKeyword(toks[pos..], G.OR) {
        return first;
      }
      ghost var tail := G.ParseOrTerms(toks[pos..], cx);
      var terms := [first.value];
      assert tail.Ok? ==> terms[1..] + tail.value.0 == tail.value.0;
      while G.IsKeyword(toks[pos..], G.OR)
        invariant Valid() && pos > old(pos) && terms != [] && terms[0] == first.value
        invariant tail == Behind(terms[1..], G.ParseOrTerms(toks[pos..], cx))
        decreases |toks| - pos
      {
        var or := TakeKeyword(G.OR);
        var t := ParseAnd();
        if t.Err? {
          return Err;
        }
        BehindOne(terms[1..], t.value, G.ParseOrTerms(toks[pos..], cx));
        assert (terms + [t.value])[1..] == terms[1..] + [t.value];
        terms := terms + [t.value];
      }
      assert terms == [first.value] + (terms[1..] + []);
      return Ok(Or(terms));
    }

    method ParseAnd() returns (r: Result<Cond>)
      requires Valid()
      modifies `pos
      ensures Matches(r, G.ParseAnd(toks[old(pos)..], cx))
      ensures r.Ok? ==> pos > old(pos)
      decreases |toks| - pos, 2
    {
      hide G.ParseUnary, G.IsKeyword;
      var first := ParseUnary();
      if first.Err? || !G.IsKeyword(toks[pos..], G.AND) {
        return first;
      }
      ghost var tail := G.ParseAndTerms(toks[pos..], cx);
      var terms := [first.value];
      assert tail.Ok? ==> terms[1..] + tail.value.0 == tail.value.0;
      while G.IsKeyword(toks[pos..], G.AND)
        invariant Valid() && pos > old(pos) && terms != [] && terms[0] == first.value
        invariant tail == Behind(terms[1..], G.ParseAndTerms(toks[pos..], cx))
        decreases |toks| - pos
      {
        var and := TakeKeyword(G.AND);
        var t := ParseUnary();
        if t.Err? {
          return Err;
        }
        BehindOne(terms[1..], t.value, G.ParseAndTerms(toks[pos..], cx));
        assert (terms + [t.value])[1..] == terms[1..] + [t.value];
        terms := terms + [t.value];
      }
      assert terms == [first.value] + (terms[1..] + []);
      return Ok(And(terms));
    }

    method ParseUnary() returns (r: Result<Cond>)
      requires Valid()
      modifies `pos
      ensures Matches(r, G.ParseUnary(toks[old(pos)..], cx))
      ensures r.Ok? ==> pos > old(pos)
      decreases |toks| - pos, 1
    {
      hide G.ParsePrimary, G.IsKeyword;
      var not := TakeKeyword(G.NOT);
      if not {
        var e := ParseUnary();
        return if e.Ok? then Ok(Not(e.value)) else Err;
      }
      r := ParsePrimary();
    }

    method ParsePrimary() returns (r: Result<Cond>)
      requires Valid()
      modifies `pos
      ensures Matches(r, G.ParsePrimary(toks[old(pos)..], cx))
      ensures r.Ok? ==> pos > old(pos)
      decreases |toks| - pos, 0
    {
      hide G.ParsePredicate, G.ParseTail, G.ParseOperand, G.ParseOr, G.FunctionNamed;
      ghost var ts := toks[pos..];
      var t := toks[pos];
      var open := Expect(LParen);
      if open {
        var n := ParseOr();
        if n.Err? {
          return Err;
        }
        var close := Expect(RParen);
        return if close then n else Err;
      }
      if t.kind == Ident && G.FunctionNamed(t.text).Some? && toks[pos + 1].kind == LParen {
        r := ParsePredicate(G.FunctionNamed(t.text).value);
        return;
      }
      var left := ParseOperand();
      if left.Err? {
        return Err;
      }
      r := ParseTail(left.value);
    }
  }

  /** One element of a path, read at a cursor, and the position behind it. */
  function ElemAt(toks: seq<Token>, pos: nat, cx: G.Context): (r: Result<(Elem, nat)>)
    requires pos < |toks| && toks[|toks| - 1].kind == EOF
    requires toks[pos].kind == Dot || toks[pos].kind == LBracket
    ensures r.Ok? ==> pos < r.value.1 < |toks|
  {
    var t := toks[pos + 1];
    if toks[pos].kind == Dot then
      var n :- G.NameOf(t, cx);
      Ok((Name(n), pos + 2))
    else if t.kind == Num && toks[pos + 2].kind == RBracket then Ok((Index(G.IndexOfText(t.text)), pos + 3))
    else Err
  }

  lemma PathStep(toks: seq<Token>, pos: nat, cx: G.Context, acc: Path)
    requires pos < |toks| && toks[|toks| - 1].kind == EOF
    ensures G.ParsePathRest(toks[pos..], cx, acc) ==
            if toks[pos].kind != Dot && toks[pos].kind != LBracket then Ok((acc, toks[pos..]))
            else if ElemAt(toks, pos, cx).Err? then Err
            else G.ParsePathRest(toks[ElemAt(toks, pos, cx).value.1..], cx, acc + [ElemAt(toks, pos, cx).value.0])
  {
    hide G.NameOf, G.IndexOfText;
    var ts := toks[pos..];
    if pos + 1 < |toks| {
      assert ts[1] == toks[pos + 1] && ts[2..] == toks[pos + 2..];
      if pos + 3 <= |toks| {
        assert ts[3..] == toks[pos + 3..];
      }
    }
  }

  /** What the grammar returns when the parts seen so far stand in front. */
  function Behind<T>(seen: seq<T>, p: G.Parse<seq<T>>): G.Parse<seq<T>> {
    match p
    case Err => Err
    case Ok((more, end)) => Ok((seen + more, end))
  }

  lemma BehindOne<T>(seen: seq<T>, t: T, p: G.Parse<seq<T>>)
    ensures Behind(seen + [t], p) == Behind(seen, Behind([t], p))
  {
    if p.Ok? {
      assert seen + ([t] + p.value.0) == seen + [t] + p.value.0;
    }
  }

  /** The rest of an IN list, behind an operand. */
  function MoreOperands(ts: G.Tokens, cx: G.Context): G.Parse<seq<Operand>> {
    if G.Next(ts, Comma) then G.ParseOperands(ts[1..], cx) else Ok(([], ts))
  }

  lemma OperandsStep(ts: G.Tokens, cx: G.Context)
    ensures G.ParseOperands(ts, cx) == match G.ParseOperand(ts, cx)
                                       case Err => Err
                                       case Ok((o, rest)) => Behind([o], MoreOperands(rest, cx))
  {
    hide G.ParseOperand;
    var o := G.ParseOperand(ts, cx);
    if o.Ok? {
      assert [o.value.0] + [] == [o.value.0];
    }
  }

  /** parseConditionExpr: the whole text is one expression. */
  method ParseConditionText(s: string, cx: G.Context) returns (r: Result<Cond>)
    ensures r == G.ParseConditionExpr(s, cx)
  {
    hide Lex, G.ParseOr;
    var toks := LexExpr(s);
    if toks.Err? {
      return Err;
    }
    LexEnds(s);
    var p := new Parser(toks.value, cx);
    assert p.toks[0..] == toks.value;
    var n := p.ParseOr();
    return if n.Ok? && p.toks[p.pos].kind == EOF then n else Err;
  }

  /** Every token list ends with the end marker. */
  lemma {:induction false} LexEnds(s: string)
    requires Lex(s).Ok?
    ensures Lex(s).value != [] && Lex(s).value[|Lex(s).value| - 1].kind == EOF
    decreases |s|
  {
    if s != "" {
      LexEnds(if IsBlank(s[0]) then s[1..] else s[|FirstToken(s).value.text|..]);
    }
  }
}
