/** The grammar of condition expressions as a parser on token lists (expr.go). A result is the tree
    and the tokens that follow it. */
module Grammar {
  import opened Wrappers
  import opened Decimal
  import opened Paths
  import opened Lexer
  import opened Expressions

  /** ExpressionAttributeNames and the reserved words, in upper case. */
  datatype Context = Context(names: map<string, string>, reserved: set<string>)

  type Tokens = seq<Token>
  type Parse<T> = Result<(T, Tokens)>

  /** A token of the given kind comes next. */
  predicate Next(ts: Tokens, k: Kind) {
    ts != [] && ts[0].kind == k
  }

  // ---- names and keywords ----

  datatype Keyword = AND | OR | NOT | BETWEEN | IN | SIZE

  function KeywordText(k: Keyword): string {
    match k
    case AND => "AND"
    case OR => "OR"
    case NOT => "NOT"
    case BETWEEN => "BETWEEN"
    case IN => "IN"
    case SIZE => "SIZE"
  }

  /** peekKeyword: an identifier that equals the keyword in any letter case. */
  predicate IsKeyword(ts: Tokens, k: Keyword) {
    Next(ts, Ident) && Upper(ts[0].text) == KeywordText(k)
  }

  function FunctionText(f: Function): string {
    match f
    case AttributeExists => "ATTRIBUTE_EXISTS"
    case AttributeNotExists => "ATTRIBUTE_NOT_EXISTS"
    case AttributeType => "ATTRIBUTE_TYPE"
    case BeginsWith => "BEGINS_WITH"
    case Contains => "CONTAINS"
  }

  function FunctionNamed(text: string): Option<Function> {
    var u := Upper(text);
    if u == FunctionText(AttributeExists) then Some(AttributeExists)
    else if u == FunctionText(AttributeNotExists) then Some(AttributeNotExists)
    else if u == FunctionText(AttributeType) then Some(AttributeType)
    else if u == FunctionText(BeginsWith) then Some(BeginsWith)
    else if u == FunctionText(Contains) then Some(Contains)
    else None
  }

  function Arity(f: Function): nat {
    if f == AttributeExists || f == AttributeNotExists then 1 else 2
  }

  function OpText(op: CmpOp): string {
    match op
    case Eq => "="
    case Ne => "<>"
    case Lt => "<"
    case Le => "<="
    case Gt => ">"
    case Ge => ">="
  }

  function OpNamed(text: string): Option<CmpOp> {
    if text == "=" then Some(Eq)
    else if text == "<>" then Some(Ne)
    else if text == "<" then Some(Lt)
    else if text == "<=" then Some(Le)
    else if text == ">" then Some(Gt)
    else if text == ">=" then Some(Ge)
    else None
  }

  /** The attribute name a token stands for: an identifier that is not reserved, or a defined #name. */
  function NameOf(t: Token, cx: Context): Result<string> {
    if t.kind == Ident then (if Upper(t.text) in cx.reserved then Err else Ok(t.text))
    else if t.kind == NameRef && t.text in cx.names then Ok(cx.names[t.text])
    else Err
  }

  const MAX_INT := 0x8000_0000_0000_0000

  /** fmt.Sscanf into an int, whose error is ignored: a number that does not fit leaves 0. */
  function IndexOfText(text: string): nat {
    var n := NatOf(LeadingDigits(text));
    if n < MAX_INT then n else 0
  }

  // ---- paths and operands ----

  function ParsePathRest(ts: Tokens, cx: Context, acc: Path): (r: Parse<Path>)
    ensures r.Ok? ==> |r.value.1| <= |ts|
    decreases |ts|
  {
    if Next(ts, Dot) && |ts| > 1 then
      var n :- NameOf(ts[1], cx);
      ParsePathRest(ts[2..], cx, acc + [Name(n)])
    else if Next(ts, LBracket) && |ts| > 1 then
      if ts[1].kind != Num || !Next(ts[2..], RBracket) then Err
      else ParsePathRest(ts[3..], cx, acc + [Index(IndexOfText(ts[1].text))])
    else Ok((acc, ts))
  }

  function ParsePath(ts: Tokens, cx: Context): (r: Parse<Path>)
    ensures r.Ok? ==> |r.value.1| < |ts|
  {
    if ts == [] then Err
    else
      var n :- NameOf(ts[0], cx);
      ParsePathRest(ts[1..], cx, [Name(n)])
  }

  function Expect(ts: Tokens, k: Kind): (r: Result<Tokens>)
    ensures r.Ok? ==> |r.value| + 1 == |ts|
  {
    if Next(ts, k) then Ok(ts[1..]) else Err
  }

  function ParseOperand(ts: Tokens, cx: Context): (r: Parse<Operand>)
    ensures r.Ok? ==> |r.value.1| < |ts|
  {
    if Next(ts, ValRef) then Ok((ValueRef(ts[0].text), ts[1..]))
    else if IsKeyword(ts, SIZE) && Next(ts[1..], LParen) then
      var p :- ParsePath(ts[2..], cx);
      var rest :- Expect(p.1, RParen);
      Ok((SizeOf(p.0), rest))
    else if Next(ts, Ident) || Next(ts, NameRef) then
      var p :- ParsePath(ts, cx);
      Ok((PathOf(p.0), p.1))
    else Err
  }

  function ParseOperands(ts: Tokens, cx: Context): (r: Parse<seq<Operand>>)
    ensures r.Ok? ==> |r.value.1| < |ts|
    decreases |ts|
  {
    var o :- ParseOperand(ts, cx);
    if Next(o.1, Comma) then
      var more :- ParseOperands(o.1[1..], cx);
      Ok(([o.0] + more.0, more.1))
    else Ok(([o.0], o.1))
  }

  // ---- conditions ----

  /** The function call at the start of ts, whose name and parenthesis have been seen. */
  function ParsePredicate(ts: Tokens, cx: Context, f: Function): (r: Parse<Cond>)
    requires |ts| > 1
    ensures r.Ok? ==> |r.value.1| < |ts|
  {
    var a :- ParseOperand(ts[2..], cx);
    if Arity(f) == 1 then
      var rest :- Expect(a.1, RParen);
      Ok((Func(f, [a.0]), rest))
    else
      var mid :- Expect(a.1, Comma);
      var b :- ParseOperand(mid, cx);
      var rest :- Expect(b.1, RParen);
      Ok((Func(f, [a.0, b.0]), rest))
  }

  /** What follows the left operand of a comparison. */
  function ParseTail(left: Operand, ts: Tokens, cx: Context): (r: Parse<Cond>)
    ensures r.Ok? ==> |r.value.1| < |ts|
  {
    if Next(ts, Op) then
      if OpNamed(ts[0].text).None? then Err
      else
        var right :- ParseOperand(ts[1..], cx);
        Ok((Cmp(OpNamed(ts[0].text).value, left, right.0), right.1))
    else if IsKeyword(ts, BETWEEN) then
      var lo :- ParseOperand(ts[1..], cx);
      if !IsKeyword(lo.1, AND) then Err
      else
        var hi :- ParseOperand(lo.1[1..], cx);
        Ok((Between(left, lo.0, hi.0), hi.1))
    else if IsKeyword(ts, IN) then
      var open :- Expect(ts[1..], LParen);
      var list :- ParseOperands(open, cx);
      var rest :- Expect(list.1, RParen);
      Ok((In(left, list.0), rest))
    else Err
  }

  /** A function name followed by a parenthesis. */
  predicate StartsCall(ts: Tokens) {
    Next(ts, Ident) && FunctionNamed(ts[0].text).Some? && Next(ts[1..], LParen)
  }

  function ParseOr(ts: Tokens, cx: Context): (r: Parse<Cond>)
    ensures r.Ok? ==> |r.value.1| < |ts|
    decreases |ts|, 3
  {
    var first :- ParseAnd(ts, cx);
    if !IsKeyword(first.1, OR) then Ok(first)
    else
      var more :- ParseOrTerms(first.1, cx);
      Ok((Or([first.0] + more.0), more.1))
  }

  function ParseOrTerms(ts: Tokens, cx: Context): (r: Parse<seq<Cond>>)
    ensures r.Ok? ==> |r.value.1| <= |ts|
    decreases |ts|, 4
  {
    if !IsKeyword(ts, OR) then Ok(([], ts))
    else
      var t :- ParseAnd(ts[1..], cx);
      var more :- ParseOrTerms(t.1, cx);
      Ok(([t.0] + more.0, more.1))
  }

  function ParseAnd(ts: Tokens, cx: Context): (r: Parse<Cond>)
    ensures r.Ok? ==> |r.value.1| < |ts|
    decreases |ts|, 2
  {
    var first :- ParseUnary(ts, cx);
    if !IsKeyword(first.1, AND) then Ok(first)
    else
      var more :- ParseAndTerms(first.1, cx);
      Ok((And([first.0] + more.0), more.1))
  }

  function ParseAndTerms(ts: Tokens, cx: Context): (r: Parse<seq<Cond>>)
    ensures r.Ok? ==> |r.value.1| <= |ts|
    decreases |ts|, 4
  {
    if !IsKeyword(ts, AND) then Ok(([], ts))
    else
      var t :- ParseUnary(ts[1..], cx);
      var more :- ParseAndTerms(t.1, cx);
      Ok(([t.0] + more.0, more.1))
  }

  function ParseUnary(ts: Tokens, cx: Context): (r: Parse<Cond>)
    ensures r.Ok? ==> |r.value.1| < |ts|
    decreases |ts|, 1
  {
    if IsKeyword(ts, NOT) then
      var e :- ParseUnary(ts[1..], cx);
      Ok((Not(e.0), e.1))
    else ParsePrimary(ts, cx)
  }

  function ParsePrimary(ts: Tokens, cx: Context): (r: Parse<Cond>)
    ensures r.Ok? ==> |r.value.1| < |ts|
    decreases |ts|, 0
  {
    if Next(ts, LParen) then
      var n :- ParseOr(ts[1..], cx);
      var rest :- Expect(n.1, RParen);
      Ok((n.0, rest))
    else if StartsCall(ts) then ParsePredicate(ts, cx, FunctionNamed(ts[0].text).value)
    else
      var left :- ParseOperand(ts, cx);
      ParseTail(left.0, left.1, cx)
  }

  /** The whole token list is one expression. */
  function ParseAll(ts: Tokens, cx: Context): Result<Cond> {
    var n :- ParseOr(ts, cx);
    if Next(n.1, EOF) then Ok(n.0) else Err
  }

  /** parseConditionExpr. */
  function ParseConditionExpr(s: string, cx: Context): Result<Cond> {
    var ts :- Lex(s);
    ParseAll(ts, cx)
  }
}
