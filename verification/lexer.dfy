/** Tokens of expressions (expr.go lexExpr). */
module Lexer {
  import opened Wrappers
  import opened Decimal

  datatype Kind = EOF | Ident | NameRef | ValRef | Num | LParen | RParen | LBracket | RBracket
                | Comma | Dot | Plus | Minus | Op

  datatype Token = Token(kind: Kind, text: string)

  predicate IsBlank(c: char) {
    c == ' ' || c == '\t' || c == '\n' || c == '\r'
  }

  predicate IsNameChar(c: char) {
    c == '_' || 'a' <= c <= 'z' || 'A' <= c <= 'Z' || '0' <= c <= '9'
  }

  predicate IsValNameChar(c: char) {
    IsNameChar(c) || c == '.' || c == '-'
  }

  /** How far the characters that satisfy p reach. */
  function Run(s: string, p: char -> bool): (n: nat)
    ensures n <= |s|
  {
    if s != "" && p(s[0]) then 1 + Run(s[1..], p) else 0
  }

  function SymbolKind(c: char): Option<Kind> {
    if c == '(' then Some(LParen)
    else if c == ')' then Some(RParen)
    else if c == '[' then Some(LBracket)
    else if c == ']' then Some(RBracket)
    else if c == ',' then Some(Comma)
    else if c == '.' then Some(Dot)
    else if c == '=' then Some(Op)
    else if c == '+' then Some(Plus)
    else if c == '-' then Some(Minus)
    else None
  }

  /** The token at the start of a text that starts with no blank. */
  function FirstToken(s: string): (r: Result<Token>)
    requires s != ""
    ensures r.Ok? ==> 1 <= |r.value.text| <= |s|
  {
    var c := s[0];
    if SymbolKind(c).Some? then Ok(Token(SymbolKind(c).value, [c]))
    else if c == '#' then
      var n := Run(s[1..], IsNameChar);
      if n == 0 then Err else Ok(Token(NameRef, s[..n + 1]))
    else if c == ':' then
      var n := Run(s[1..], IsValNameChar);
      if n == 0 then Err else Ok(Token(ValRef, s[..n + 1]))
    else if c == '<' then
      Ok(Token(Op, if |s| > 1 && (s[1] == '=' || s[1] == '>') then s[..2] else s[..1]))
    else if c == '>' then
      Ok(Token(Op, if |s| > 1 && s[1] == '=' then s[..2] else s[..1]))
    else if IsDigit(c) then Ok(Token(Num, s[..1 + Run(s[1..], IsDigit)]))
    else if IsNameChar(c) then Ok(Token(Ident, s[..1 + Run(s[1..], IsNameChar)]))
    else Err
  }

  function Lex(s: string): Result<seq<Token>> {
    if s == "" then Ok([Token(EOF, "")])
    else if IsBlank(s[0]) then Lex(s[1..])
    else
      var t :- FirstToken(s);
      var rest :- Lex(s[|t.text|..]);
      Ok([t] + rest)
  }

  /** lexExpr. */
  method LexExpr(s: string) returns (r: Result<seq<Token>>)
    ensures r == Lex(s)
  {
    hide FirstToken;
    var toks: seq<Token> := [];
    var i := 0;
    assert s[0..] == s && (Lex(s).Ok? ==> [] + Lex(s).value == Lex(s).value);
    while i < |s|
      invariant 0 <= i <= |s|
      invariant Lex(s) == match Lex(s[i..]) case Ok(rest) => Ok(toks + rest) case Err => Err
    {
      if IsBlank(s[i]) {
        assert s[i..][1..] == s[i + 1..];
        i := i + 1;
      } else {
        var t := FirstToken(s[i..]);
        if t.Err? {
          return Err;
        }
        var n := |t.value.text|;
        assert s[i..][n..] == s[i + n..];
        var rest := Lex(s[i + n..]);
        assert rest.Ok? ==> toks + ([t.value] + rest.value) == toks + [t.value] + rest.value;
        toks := toks + [t.value];
        i := i + n;
      }
    }
    return Ok(toks + [Token(EOF, "")]);
  }

  // ---- printed tokens lex back ----

  predicate All(s: string, p: char -> bool) {
    forall i :: 0 <= i < |s| ==> p(s[i])
  }

  /** Tokens that the lexer can produce, other than the end marker. */
  predicate Lexable(t: Token) {
    match t.kind
    case Ident => t.text != "" && All(t.text, IsNameChar) && !IsDigit(t.text[0])
    case NameRef => |t.text| > 1 && t.text[0] == '#' && All(t.text[1..], IsNameChar)
    case ValRef => |t.text| > 1 && t.text[0] == ':' && All(t.text[1..], IsValNameChar)
    case Num => t.text != "" && All(t.text, IsDigit)
    case EOF => false
    case Op => t.text in {"=", "<>", "<", "<=", ">", ">="}
    case k => |t.text| == 1 && SymbolKind(t.text[0]) == Some(k)
  }

  /** A character right behind the token would belong to it. */
  predicate Extends(t: Token, c: char) {
    match t.kind
    case Ident | NameRef => c == '_' || 'a' <= c <= 'z' || 'A' <= c <= 'Z' || '0' <= c <= '9'
    case ValRef => c in "_.-" || 'a' <= c <= 'z' || 'A' <= c <= 'Z' || '0' <= c <= '9'
    case Num => '0' <= c <= '9'
    case Op => (t.text == "<" && c in "=>") || (t.text == ">" && c == '=')
    case _ => false
  }

  /** Token texts, each followed by a gap. */
  function Laid(ts: seq<Token>, gaps: seq<string>): string
    requires |gaps| == |ts|
  {
    if ts == [] then "" else ts[0].text + (gaps[0] + Laid(ts[1..], gaps[1..]))
  }

  /** Gaps are blanks, and there are some where the next token would otherwise extend the one before. */
  predicate Separated(ts: seq<Token>, gaps: seq<string>)
    requires |gaps| == |ts|
  {
    forall i :: 0 <= i < |ts| ==>
      (forall j :: 0 <= j < |gaps[i]| ==> gaps[i][j] in " \t\n\r") &&
      (gaps[i] == "" && i + 1 < |ts| && ts[i + 1].text != "" ==> !Extends(ts[i], ts[i + 1].text[0]))
  }

  lemma {:induction false} RunOf(s: string, p: char -> bool, rest: string)
    requires All(s, p) && (rest != "" ==> !p(rest[0]))
    ensures Run(s + rest, p) == |s|
  {
    if s == "" {
      assert s + rest == rest;
    } else {
      RunOf(s[1..], p, rest);
      assert (s + rest)[1..] == s[1..] + rest && (s + rest)[0] == s[0];
    }
  }

  lemma FirstOfText(t: Token, tail: string)
    requires Lexable(t) && (tail != "" ==> !Extends(t, tail[0]))
    ensures FirstToken(t.text + tail) == Ok(t) && !IsBlank(t.text[0])
  {
    hide Run;
    var x := t.text;
    var s := x + tail;
    assert s[0] == x[0] && s[1..] == x[1..] + tail && s[..|x|] == x;
    match t.kind {
      case Ident => RunOf(x[1..], IsNameChar, tail);
      case NameRef => RunOf(x[1..], IsNameChar, tail);
      case ValRef => RunOf(x[1..], IsValNameChar, tail);
      case Num => RunOf(x[1..], IsDigit, tail);
      case Op => assert |s| > 1 ==> s[1] == if |x| > 1 then x[1] else tail[0];
      case EOF =>
      case _ => assert x == [x[0]];
    }
  }

  lemma LexOne(t: Token, tail: string)
    requires Lexable(t) && (tail != "" ==> !Extends(t, tail[0]))
    ensures Lex(t.text + tail) == match Lex(tail) case Ok(ts) => Ok([t] + ts) case Err => Err
  {
    hide FirstToken, Lexable, Extends;
    FirstOfText(t, tail);
    var s := t.text + tail;
    assert s[0] == t.text[0];
    assert s[|t.text|..] == tail;
  }

  lemma {:induction false} LexGap(gap: string, rest: string)
    requires forall j :: 0 <= j < |gap| ==> gap[j] in " \t\n\r"
    ensures Lex(gap + rest) == Lex(rest)
  {
    if gap == "" {
      assert gap + rest == rest;
    } else {
      assert gap[0] in " \t\n\r" && (gap + rest)[1..] == gap[1..] + rest && (gap + rest)[0] == gap[0];
      assert IsBlank(gap[0]);
      LexGap(gap[1..], rest);
    }
  }

  /** Tokens lex back from their texts, whatever blanks there are between them, and also where there are none if the
      next token does not extend the one before. */
  lemma {:induction false} LexOfLaid(ts: seq<Token>, gaps: seq<string>)
    requires |gaps| == |ts| && Separated(ts, gaps) && forall i :: 0 <= i < |ts| ==> Lexable(ts[i])
    ensures Lex(Laid(ts, gaps)) == Ok(ts + [Token(EOF, "")])
  {
    hide Lexable, Extends, Separated;
    if ts == [] {
      assert Laid(ts, gaps) == "" && ts + [Token(EOF, "")] == [Token(EOF, "")];
    } else {
      var t, rest := ts[0], Laid(ts[1..], gaps[1..]);
      assert Laid(ts, gaps) == t.text + (gaps[0] + rest);
      hide Lex, Laid;
      SeparatedRest(ts, gaps);
      LexOfLaid(ts[1..], gaps[1..]);
      LexGap(gaps[0], rest);
      TailBehind(ts, gaps);
      LexOne(t, gaps[0] + rest);
      assert [t] + (ts[1..] + [Token(EOF, "")]) == ts + [Token(EOF, "")];
    }
  }

  lemma SeparatedRest(ts: seq<Token>, gaps: seq<string>)
    requires ts != [] && |gaps| == |ts| && Separated(ts, gaps)
    ensures Separated(ts[1..], gaps[1..])
    ensures forall j :: 0 <= j < |gaps[0]| ==> gaps[0][j] in " \t\n\r"
  {
    hide Extends;
    var us, hs := ts[1..], gaps[1..];
    forall i | 0 <= i < |us|
      ensures forall j :: 0 <= j < |hs[i]| ==> hs[i][j] in " \t\n\r"
      ensures hs[i] == "" && i + 1 < |us| && us[i + 1].text != "" ==> !Extends(us[i], us[i + 1].text[0])
    {
      assert hs[i] == gaps[i + 1] && us[i] == ts[i + 1];
      assert i + 1 < |us| ==> us[i + 1] == ts[i + 2];
    }
  }

  lemma TailBehind(ts: seq<Token>, gaps: seq<string>)
    requires ts != [] && |gaps| == |ts| && Separated(ts, gaps) && forall i :: 0 <= i < |ts| ==> Lexable(ts[i])
    ensures var tail := gaps[0] + Laid(ts[1..], gaps[1..]); tail != "" ==> !Extends(ts[0], tail[0])
  {
    var rest := Laid(ts[1..], gaps[1..]);
    if gaps[0] != "" {
      assert (gaps[0] + rest)[0] == gaps[0][0];
    } else if |ts| > 1 {
      assert gaps[0] + rest == rest && Lexable(ts[1]) && ts[1..][0] == ts[1];
      assert rest[0] == ts[1].text[0];
    }
  }

  // ---- and nothing else is read ----

  lemma {:induction false} RunStops(s: string, p: char -> bool)
    ensures All(s[..Run(s, p)], p) && (Run(s, p) < |s| ==> !p(s[Run(s, p)]))
  {
    if s != "" && p(s[0]) {
      var n := Run(s[1..], p);
      RunStops(s[1..], p);
      assert s[..n + 1] == [s[0]] + s[1..][..n];
    }
  }

  /** The first character and those behind it that satisfy p. */
  lemma RunLongest(s: string, p: char -> bool)
    requires s != ""
    ensures var n := 1 + Run(s[1..], p);
            && 1 <= n <= |s| && All(s[..n][1..], p) && (n < |s| ==> !p(s[n])) && (p(s[0]) ==> All(s[..n], p))
  {
    RunStops(s[1..], p);
    var m := Run(s[1..], p);
    assert s[..1 + m] == [s[0]] + s[1..][..m] && s[..1 + m][1..] == s[1..][..m];
  }

  lemma OperatorLongest(s: string)
    requires s != "" && s[0] in "<>="
    ensures FirstToken(s).Ok?
    ensures var t := FirstToken(s).value;
            Lexable(t) && t.text <= s && (|t.text| < |s| ==> !Extends(t, s[|t.text|]))
  {
    hide Run, All;
    assert s[..1] == [s[0]];
    assert |s| > 1 ==> s[..2] == [s[0], s[1]];
  }

  /** The first token is one the lexer can produce, and as long as it can be. */
  lemma FirstIsLongest(s: string)
    requires s != "" && FirstToken(s).Ok?
    ensures var t := FirstToken(s).value;
            Lexable(t) && t.text <= s && (|t.text| < |s| ==> !Extends(t, s[|t.text|]))
  {
    hide Run, All;
    if s[0] in "<>=" {
      OperatorLongest(s);
    } else {
      RunLongest(s, IsNameChar);
      RunLongest(s, IsValNameChar);
      RunLongest(s, IsDigit);
    }
  }

  /** A text that is lexed consists of token texts and blanks, each token as long as it can be. */
  lemma {:induction false} LexIsLaid(s: string) returns (lead: string, ts: seq<Token>, gaps: seq<string>)
    requires Lex(s).Ok?
    ensures |gaps| == |ts| && Separated(ts, gaps) && forall i :: 0 <= i < |ts| ==> Lexable(ts[i])
    ensures s == lead + Laid(ts, gaps) && Lex(s) == Ok(ts + [Token(EOF, "")])
    ensures forall j :: 0 <= j < |lead| ==> lead[j] in " \t\n\r"
  {
    hide FirstToken, Lexable, Extends, Separated, Laid, Lex;
    LexCases(s);
    if s == "" {
      lead, ts, gaps := "", [], [];
      NothingLaid();
    } else if IsBlank(s[0]) {
      var more;
      more, ts, gaps := LexIsLaid(s[1..]);
      lead := [s[0]] + more;
      assert s == [s[0]] + s[1..] && s == lead + Laid(ts, gaps);
    } else {
      var t := FirstToken(s).value;
      FirstIsLongest(s);
      var gap, us, hs := LexIsLaid(s[|t.text|..]);
      lead, ts, gaps := "", [t] + us, [gap] + hs;
      LaidFront(t, gap, us, hs);
      assert s == t.text + s[|t.text|..];
      assert ts + [Token(EOF, "")] == [t] + (us + [Token(EOF, "")]);
      assert lead + Laid(ts, gaps) == Laid(ts, gaps);
    }
  }

  lemma LexCases(s: string)
    ensures s == "" ==> Lex(s) == Ok([] + [Token(EOF, "")])
    ensures s != "" && IsBlank(s[0]) ==> Lex(s) == Lex(s[1..])
    ensures s != "" && !IsBlank(s[0]) && Lex(s).Ok? ==>
              FirstToken(s).Ok? && Lex(s[|FirstToken(s).value.text|..]).Ok? &&
              Lex(s) == Ok([FirstToken(s).value] + Lex(s[|FirstToken(s).value.text|..]).value)
  {
    hide FirstToken;
    assert [] + [Token(EOF, "")] == [Token(EOF, "")];
  }

  lemma NothingLaid()
    ensures Laid([], []) == "" && Separated([], [])
  {
  }

  lemma LaidFront(t: Token, gap: string, us: seq<Token>, hs: seq<string>)
    requires |hs| == |us| && Separated(us, hs) && forall j :: 0 <= j < |gap| ==> gap[j] in " \t\n\r"
    requires var tail := gap + Laid(us, hs); tail != "" ==> !Extends(t, tail[0])
    ensures Separated([t] + us, [gap] + hs)
    ensures Laid([t] + us, [gap] + hs) == t.text + (gap + Laid(us, hs))
  {
    hide Extends;
    var ts, gaps := [t] + us, [gap] + hs;
    assert ts[1..] == us && gaps[1..] == hs;
    if gap == "" && us != [] && us[0].text != "" {
      assert gap + Laid(us, hs) == us[0].text + (hs[0] + Laid(us[1..], hs[1..]));
      assert (gap + Laid(us, hs))[0] == us[0].text[0];
    }
    forall i | 0 <= i < |ts|
      ensures forall j :: 0 <= j < |gaps[i]| ==> gaps[i][j] in " \t\n\r"
      ensures gaps[i] == "" && i + 1 < |ts| && ts[i + 1].text != "" ==> !Extends(ts[i], ts[i + 1].text[0])
    {
      assert i + 1 < |ts| ==> ts[i + 1] == us[i];
      assert i > 0 ==> ts[i] == us[i - 1] && gaps[i] == hs[i - 1];
    }
  }
}
