/** How the functions, operators and keywords of condition expressions are written (expr.go): the texts themselves, and
    the conditions they are read as. */
module Spellings {
  import opened Wrappers
  import opened Paths
  import opened Lexer
  import opened Expressions
  import opened Grammar
  import opened Printing
  import opened TextRoundTrip

  function FunctionWord(f: Function): string {
    match f
    case AttributeExists => "attribute_exists"
    case AttributeNotExists => "attribute_not_exists"
    case AttributeType => "attribute_type"
    case BeginsWith => "begins_with"
    case Contains => "contains"
  }

  function KeywordWord(k: Keyword): string {
    match k
    case AND => "AND"
    case OR => "OR"
    case NOT => "NOT"
    case BETWEEN => "BETWEEN"
    case IN => "IN"
    case SIZE => "size"
  }

  /** Attributes a and b by their names, everything else as above. */
  function Plainly(names: set<string>): Spelling {
    Spelling(map n | n in names :: Token(Ident, n), KeywordWord, FunctionWord)
  }

  lemma UpperExists()
    ensures Upper("attribute_exists") == "ATTRIBUTE_EXISTS"
    ensures Upper("attribute_not_exists") == "ATTRIBUTE_NOT_EXISTS"
  {
  }

  lemma UpperWord(f: Function)
    ensures Upper(FunctionWord(f)) == FunctionText(f)
  {
    UpperExists();
    match f {
      case AttributeType => assert Upper("attribute_type") == "ATTRIBUTE_TYPE";
      case BeginsWith => assert Upper("begins_with") == "BEGINS_WITH";
      case Contains => assert Upper("contains") == "CONTAINS";
      case _ =>
    }
  }

  lemma LexableWord(f: Function)
    ensures Lexable(Token(Ident, FunctionWord(f)))
  {
  }

  /** Different functions have different texts. */
  lemma TextsDiffer(f: Function, g: Function)
    ensures FunctionText(f) == FunctionText(g) <==> f == g
  {
    assert |FunctionText(f)| == |FunctionText(g)| <==> f == g;
  }

  lemma FunctionsRead()
    ensures forall f :: FunctionNamed(FunctionWord(f)) == Some(f) && Lexable(Token(Ident, FunctionWord(f)))
  {
    hide Upper, FunctionText, FunctionWord, Lexable;
    forall f, g ensures FunctionText(f) == FunctionText(g) <==> f == g {
      TextsDiffer(f, g);
    }
    forall f ensures FunctionNamed(FunctionWord(f)) == Some(f) && Lexable(Token(Ident, FunctionWord(f))) {
      UpperWord(f);
      LexableWord(f);
    }
  }

  lemma KeywordsRead()
    ensures forall k :: Upper(KeywordWord(k)) == KeywordText(k) && Lexable(Token(Ident, KeywordWord(k)))
  {
    assert Upper("AND") == "AND" && Upper("OR") == "OR" && Upper("NOT") == "NOT";
    assert Upper("BETWEEN") == "BETWEEN" && Upper("IN") == "IN" && Upper("size") == "SIZE";
  }

  /** An attribute name that can be written as it is. */
  predicate PlainName(n: string, cx: Context) {
    Lexable(Token(Ident, n)) && Upper(n) !in cx.reserved
  }

  lemma ReadsPlainly(names: set<string>, cx: Context)
    requires "NOT" in cx.reserved && forall n :: n in names ==> PlainName(n, cx)
    ensures Readable(Plainly(names), cx) && LexableSpelling(Plainly(names))
  {
    hide Upper, Lexable;
    FunctionsRead();
    KeywordsRead();
  }

  // ---- whole texts ----

  function OperatorWord(op: CmpOp): string {
    match op
    case Eq => "="
    case Ne => "<>"
    case Lt => "<"
    case Le => "<="
    case Gt => ">"
    case Ge => ">="
  }

  const TIGHT: seq<string> := ["", "", "", ""]

  lemma FourLaid(a: Token, b: Token, c: Token, d: Token)
    ensures Laid([a, b, c, d], TIGHT) == a.text + b.text + c.text + d.text
  {
    assert Laid([d], [""]) == d.text;
    assert Laid([c, d], ["", ""]) == c.text + d.text by {
      assert [c, d][1..] == [d] && ["", ""][1..] == [""];
    }
    assert Laid([b, c, d], ["", "", ""]) == b.text + (c.text + d.text) by {
      assert [b, c, d][1..] == [c, d] && ["", "", ""][1..] == ["", ""];
    }
    assert [a, b, c, d][1..] == [b, c, d] && TIGHT[1..] == ["", "", ""];
  }

  /** attribute_exists(a) and attribute_not_exists(a). */
  lemma ExistenceReads(a: string, f: Function, cx: Context)
    requires "NOT" in cx.reserved && PlainName(a, cx) && f in {AttributeExists, AttributeNotExists}
    ensures ParseConditionExpr(FunctionWord(f) + "(" + a + ")", cx) == Ok(Func(f, [PathOf([Name(a)])]))
  {
    hide ParseConditionExpr, FunctionWord, Lexable, Upper, Readable, LexableSpelling, Laid;
    var sp, c := Plainly({a}), Func(f, [PathOf([Name(a)])]);
    ReadsPlainly({a}, cx);
    assert PrintPath([Name(a)], sp) == [Token(Ident, a)];
    var word, name := Token(Ident, FunctionWord(f)), Token(Ident, a);
    var open, close := Symbol(LParen, "("), Symbol(RParen, ")");
    assert PrintOperands(c.args, sp) == [name];
    assert PrintUnary(c, sp) == [word, open, name, close];
    assert PrintOr(c, sp) == PrintAnd(c, sp) == PrintUnary(c, sp);
    TextRoundTrips(c, sp, cx, TIGHT);
    FourLaid(word, open, name, close);
  }

  /** a op :v, also without blanks. */
  lemma ComparisonReads(a: string, op: CmpOp, v: string, gap: string, cx: Context)
    requires "NOT" in cx.reserved && PlainName(a, cx) && Lexable(Token(ValRef, v)) && gap in {"", " "}
    ensures ParseConditionExpr(a + gap + OperatorWord(op) + gap + v, cx) == Ok(Cmp(op, PathOf([Name(a)]), ValueRef(v)))
  {
    hide ParseConditionExpr, Upper, Readable, LexableSpelling, Laid;
    var sp, c := Plainly({a}), Cmp(op, PathOf([Name(a)]), ValueRef(v));
    ReadsPlainly({a}, cx);
    assert PrintPath([Name(a)], sp) == [Token(Ident, a)];
    var x, y, z := Token(Ident, a), Token(Op, OperatorWord(op)), Token(ValRef, v);
    assert PrintUnary(c, sp) == [x, y, z];
    assert PrintOr(c, sp) == PrintAnd(c, sp) == PrintUnary(c, sp);
    TextRoundTrips(c, sp, cx, [gap, gap, ""]);
    ThreeLaid(x, y, z, gap);
  }

  lemma ThreeLaid(a: Token, b: Token, c: Token, gap: string)
    ensures Laid([a, b, c], [gap, gap, ""]) == a.text + gap + b.text + gap + c.text
  {
    assert Laid([c], [""]) == c.text;
    assert Laid([b, c], [gap, ""]) == b.text + (gap + c.text) by {
      assert [b, c][1..] == [c] && [gap, ""][1..] == [""];
    }
    assert [a, b, c][1..] == [b, c] && [gap, gap, ""][1..] == [gap, ""];
    assert a.text + (gap + (b.text + (gap + c.text))) == a.text + gap + b.text + gap + c.text;
  }
}
