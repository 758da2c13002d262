/** UpdateExpression: actions and their effect on a document (update.go). */
module Updates {
  import opened Wrappers
  import opened Bytes
  import opened Numbers
  import opened Arithmetic
  import opened Values
  import opened Paths
  import opened Expressions

  datatype Rvalue =
    | Plain(opnd: Operand)
    | IfNotExists(path: Path, otherwise: Rvalue)
    | ListAppend(a: Rvalue, b: Rvalue)

  datatype SetValue = Single(r: Rvalue) | Sum(a: Rvalue, b: Operand, sub: bool)

  datatype Action =
    | Set(path: Path, value: SetValue)
    | Remove(path: Path)
    | Add(path: Path, operand: Operand)
    | Delete(path: Path, operand: Operand)

  /** No two targets overlap. */
  predicate Disjoint(actions: seq<Action>) {
    forall i, j :: 0 <= i < j < |actions| ==> !Overlap(actions[i].path, actions[j].path)
  }

  /** What parseUpdateExpr accepts: at least one action, no two overlapping targets. */
  predicate ParsedUpdate(actions: seq<Action>) {
    actions != [] && Disjoint(actions)
  }

  /** The loops at the end of parseUpdateExpr over all pairs of actions. */
  method CheckOverlaps(actions: seq<Action>) returns (ok: bool)
    ensures ok <==> Disjoint(actions)
  {
    hide Overlap;
    for i := 0 to |actions|
      invariant forall k, j :: 0 <= k < i && k < j < |actions| ==> !Overlap(actions[k].path, actions[j].path)
    {
      for j := i + 1 to |actions|
        invariant forall l :: i < l < j ==> !Overlap(actions[i].path, actions[l].path)
      {
        var overlap := PathsOverlap(actions[i].path, actions[j].path);
        if overlap {
          return false;
        }
      }
    }
    return true;
  }

  // ---- right-hand sides ----

  /** operandValue: unlike in a condition, a path that does not resolve is an error. */
  function OperandValue(o: Operand, item: Item, env: Env): Result<AV> {
    var v :- ResolveOperand(o, item, env);
    if v.Some? then Ok(v.value) else Err
  }

  function EvalRvalue(r: Rvalue, item: Item, env: Env): Result<AV> {
    match r
    case Plain(o) => OperandValue(o, item, env)
    case IfNotExists(p, otherwise) =>
      (match ResolvePath(item, p)
       case Some(v) => Ok(v)
       case None => EvalRvalue(otherwise, item, env))
    case ListAppend(a, b) =>
      var x :- EvalRvalue(a, item, env);
      var y :- EvalRvalue(b, item, env);
      if x.L? && y.L? then Ok(L(x.elems + y.elems)) else Err
  }

  function EvalSetValue(sv: SetValue, item: Item, env: Env): Result<AV> {
    match sv
    case Single(r) => EvalRvalue(r, item, env)
    case Sum(a, b, sub) =>
      var x :- EvalRvalue(a, item, env);
      var y :- OperandValue(b, item, env);
      if x.N? && y.N? then
        var s :- AddNumbers(x.number, y.number, sub);
        Ok(N(s))
      else Err
  }

  // ---- set union and difference ----

  predicate Known<T>(eq: (T, T) -> bool, out: seq<T>, s: T) {
    exists i :: 0 <= i < |out| && eq(out[i], s)
  }

  /** a, then the elements of b that equal none before them. */
  function Union<T>(eq: (T, T) -> bool, a: seq<T>, b: seq<T>): seq<T> {
    if b == [] then a
    else
      var out := Union(eq, a, b[..|b| - 1]);
      var s := b[|b| - 1];
      if Known(eq, out, s) then out else out + [s]
  }

  /** The elements of a that equal none of b. */
  function Difference<T>(eq: (T, T) -> bool, a: seq<T>, b: seq<T>): seq<T> {
    if a == [] then []
    else
      var out := Difference(eq, a[..|a| - 1], b);
      var s := a[|a| - 1];
      if exists i :: 0 <= i < |b| && eq(s, b[i]) then out else out + [s]
  }

  const SAME_BYTES: (bytes, bytes) -> bool := (x, y) => x == y
  const SAME_NUMBER: (string, string) -> bool := (x, y) => NumbersEqual(x, y)

  method UnionStrings(a: seq<bytes>, b: seq<bytes>) returns (out: seq<bytes>)
    ensures out == Union(SAME_BYTES, a, b)
  {
    var seen: set<bytes> := {};
    out := a;
    for i := 0 to |a|
      invariant seen == set s | s in a[..i]
    {
      assert a[..i + 1] == a[..i] + [a[i]];
      seen := seen + {a[i]};
    }
    assert a[..|a|] == a;
    for i := 0 to |b|
      invariant out == Union(SAME_BYTES, a, b[..i])
      invariant seen == set s | s in out
    {
      assert b[..i + 1][..i] == b[..i];
      assert b[i] in out <==> Known(SAME_BYTES, out, b[i]);
      if b[i] !in seen {
        out := out + [b[i]];
        seen := seen + {b[i]};
      }
    }
    assert b[..|b|] == b;
  }

  method UnionNumbers(a: seq<string>, b: seq<string>) returns (out: seq<string>)
    ensures out == Union(SAME_NUMBER, a, b)
  {
    hide NumbersEqual;
    out := a;
    for i := 0 to |b|
      invariant out == Union(SAME_NUMBER, a, b[..i])
    {
      assert b[..i + 1][..i] == b[..i];
      var dup, j := false, 0;
      while j < |out| && !dup
        invariant j <= |out|
        invariant dup <==> exists m :: 0 <= m < j && SAME_NUMBER(out[m], b[i])
      {
        dup := NumbersEqual(out[j], b[i]);
        j := j + 1;
      }
      if !dup {
        out := out + [b[i]];
      }
    }
    assert b[..|b|] == b;
  }

  method DiffStrings(a: seq<bytes>, b: seq<bytes>) returns (out: seq<bytes>)
    ensures out == Difference(SAME_BYTES, a, b)
  {
    var rm: set<bytes> := {};
    for i := 0 to |b|
      invariant rm == set s | s in b[..i]
    {
      assert b[..i + 1] == b[..i] + [b[i]];
      rm := rm + {b[i]};
    }
    assert b[..|b|] == b;
    out := [];
    for i := 0 to |a|
      invariant out == Difference(SAME_BYTES, a[..i], b)
    {
      assert a[..i + 1][..i] == a[..i];
      assert a[i] in rm <==> exists m :: 0 <= m < |b| && SAME_BYTES(a[i], b[m]);
      if a[i] !in rm {
        out := out + [a[i]];
      }
    }
    assert a[..|a|] == a;
  }

  method DiffNumbers(a: seq<string>, b: seq<string>) returns (out: seq<string>)
    ensures out == Difference(SAME_NUMBER, a, b)
  {
    hide NumbersEqual;
    out := [];
    for i := 0 to |a|
      invariant out == Difference(SAME_NUMBER, a[..i], b)
    {
      assert a[..i + 1][..i] == a[..i];
      var keep, j := true, 0;
      while j < |b| && keep
        invariant j <= |b|
        invariant !keep <==> exists m :: 0 <= m < j && SAME_NUMBER(a[i], b[m])
      {
        keep := !NumbersEqual(a[i], b[j]);
        j := j + 1;
      }
      if keep {
        out := out + [a[i]];
      }
    }
    assert a[..|a|] == a;
  }

  /** A number is in the union exactly when it is in one of the sets, and keeps its first text. */
  lemma {:induction false} UnionMembers<T(!new)>(eq: (T, T) -> bool, a: seq<T>, b: seq<T>, x: T)
    requires forall s, t, u :: eq(s, t) && eq(t, u) ==> eq(s, u)
    requires forall s, t :: eq(s, t) ==> eq(t, s)
    ensures a <= Union(eq, a, b)
    ensures Known(eq, Union(eq, a, b), x) <==> Known(eq, a, x) || Known(eq, b, x)
  {
    if b != [] {
      var c, s := b[..|b| - 1], b[|b| - 1];
      UnionMembers(eq, a, c, x);
      var out := Union(eq, a, c);
      assert b == c + [s];
      KnownSnoc(eq, c, s, x);
      KnownSnoc(eq, out, s, x);
      if Known(eq, out, s) && eq(s, x) {
        var i :| 0 <= i < |out| && eq(out[i], s);
        assert eq(out[i], x);
      }
    }
  }

  lemma KnownSnoc<T>(eq: (T, T) -> bool, out: seq<T>, s: T, x: T)
    ensures Known(eq, out + [s], x) <==> Known(eq, out, x) || eq(s, x)
  {
    if i :| 0 <= i < |out| && eq(out[i], x) {
      assert (out + [s])[i] == out[i];
    }
    assert (out + [s])[|out|] == s;
  }

  /** The difference removes every element that equals one of b, and only those. */
  lemma {:induction false} DifferenceMembers<T>(eq: (T, T) -> bool, a: seq<T>, b: seq<T>, x: T)
    ensures x in Difference(eq, a, b) <==> x in a && !(exists i :: 0 <= i < |b| && eq(x, b[i]))
  {
    if a != [] {
      DifferenceMembers(eq, a[..|a| - 1], b, x);
      assert a == a[..|a| - 1] + [a[|a| - 1]];
    }
  }

  // ---- single actions ----

  /** What ADD writes at its target, given what is there. */
  function AddedValue(v: AV, cur: Option<AV>): Result<AV> {
    if !(v.N? || v.SS? || v.NS? || v.BS?) then Err
    else
      match cur
      case None => Ok(v)
      case Some(c) =>
        match (c, v)
        case (N(x), N(y)) =>
          var s :- AddNumbers(x, y, false);
          Ok(N(s))
        case (SS(x), SS(y)) => Ok(SS(Union(SAME_BYTES, x, y)))
        case (NS(x), NS(y)) => Ok(NS(Union(SAME_NUMBER, x, y)))
        case (BS(x), BS(y)) => Ok(BS(Union(SAME_BYTES, x, y)))
        case _ => Err
  }

  /** What DELETE leaves of a set. */
  function DeletedValue(v: AV, c: AV): Result<AV> {
    match (c, v)
    case (SS(x), SS(y)) => Ok(SS(Difference(SAME_BYTES, x, y)))
    case (NS(x), NS(y)) => Ok(NS(Difference(SAME_NUMBER, x, y)))
    case (BS(x), BS(y)) => Ok(BS(Difference(SAME_BYTES, x, y)))
    case _ => Err
  }

  predicate EmptySet(v: AV) {
    match v
    case SS(x) => x == []
    case NS(x) => x == []
    case BS(x) => x == []
    case _ => false
  }

  /** The type switch of applyAdd. */
  method AddTo(v: AV, cur: Option<AV>) returns (r: Result<AV>)
    ensures r == AddedValue(v, cur)
  {
    hide AddNumbers, Union;
    if !(v.N? || v.SS? || v.NS? || v.BS?) {
      return Err;
    }
    if cur.None? {
      return Ok(v);
    }
    match (cur.value, v) {
      case (N(x), N(y)) =>
        var s := AddNumbers(x, y, false);
        r := if s.Ok? then Ok(N(s.value)) else Err;
      case (SS(x), SS(y)) =>
        var u := UnionStrings(x, y);
        r := Ok(SS(u));
      case (NS(x), NS(y)) =>
        var u := UnionNumbers(x, y);
        r := Ok(NS(u));
      case (BS(x), BS(y)) =>
        var u := UnionStrings(x, y);
        r := Ok(BS(u));
      case _ =>
        r := Err;
    }
  }

  /** The type switch of applyDelete. */
  method DeleteFrom(v: AV, c: AV) returns (r: Result<AV>)
    ensures r == DeletedValue(v, c)
  {
    hide Difference;
    match (c, v) {
      case (SS(x), SS(y)) =>
        var d := DiffStrings(x, y);
        r := Ok(SS(d));
      case (NS(x), NS(y)) =>
        var d := DiffNumbers(x, y);
        r := Ok(NS(d));
      case (BS(x), BS(y)) =>
        var d := DiffStrings(x, y);
        r := Ok(BS(d));
      case _ =>
        r := Err;
    }
  }

  /** Removal at a path; a parent that does not resolve makes it a no-op. */
  function RemoveIn(v: AV, p: seq<Elem>): Result<AV>
    requires p != []
    decreases p
  {
    if |p| == 1 then
      match p[0]
      case Index(i) => if v.L? && i < |v.elems| then Ok(L(v.elems[..i] + v.elems[i + 1..])) else Err
      case Name(n) => if v.M? then Ok(M(v.attrs - {n})) else Err
    else
      match Child(v, p[0])
      case None => Ok(v)
      case Some(c) =>
        var d :- RemoveIn(c, p[1..]);
        WithChild(v, p[0], d)
  }

  /** applyRemove. */
  function RemovePath(item: Item, p: Path): (r: Result<Item>)
    ensures RemoveIn(M(item), p) == (match r case Ok(d) => Ok(M(d)) case Err => Err)
  {
    match RemoveIn(M(item), p)
    case Ok(d) => Ok(d.attrs)
    case Err => Err
  }

  /** The value a SET or ADD writes at its target. */
  function WrittenValue(a: Action, item: Item, env: Env): Result<AV>
    requires a.Set? || a.Add?
  {
    match a
    case Set(_, value) => EvalSetValue(value, item, env)
    case Add(p, operand) =>
      var v :- OperandValue(operand, item, env);
      AddedValue(v, ResolvePath(item, p))
  }

  /** applySet, applyAdd, applyDelete or applyRemove. */
  function ApplyAction(a: Action, item: Item, env: Env): Result<Item> {
    match a
    case Remove(p) => RemovePath(item, p)
    case Delete(p, operand) =>
      var v :- OperandValue(operand, item, env);
      (match ResolvePath(item, p)
       case None => Ok(item)
       case Some(c) =>
         var out :- DeletedValue(v, c);
         if EmptySet(out) then RemovePath(item, p) else SetPath(item, p, out))
    case _ =>
      var v :- WrittenValue(a, item, env);
      SetPath(item, a.path, v)
  }

  // ---- applyUpdate ----

  function ApplyAll(actions: seq<Action>, item: Item, env: Env): Result<Item> {
    if actions == [] then Ok(item)
    else
      var next :- ApplyAction(actions[0], item, env);
      ApplyAll(actions[1..], next, env)
  }

  function Removes(actions: seq<Action>): seq<Action> {
    if actions == [] then []
    else (if actions[0].Remove? then [actions[0]] else []) + Removes(actions[1..])
  }

  function Others(actions: seq<Action>): seq<Action> {
    if actions == [] then []
    else (if actions[0].Remove? then [] else [actions[0]]) + Others(actions[1..])
  }

  function Parent(p: seq<Elem>): seq<Elem>
    requires p != []
  {
    p[..|p| - 1]
  }

  function Last(p: seq<Elem>): Elem
    requires p != []
  {
    p[|p| - 1]
  }

  /** The comparator of the sort: a higher index of the same list comes first. */
  predicate RemoveFirst(a: Action, b: Action) {
    Last(a.path).Index? && Last(b.path).Index? && Parent(a.path) == Parent(b.path) &&
    Last(a.path).index > Last(b.path).index
  }

  lemma {:induction false} ApplyAllConcat(a: seq<Action>, b: seq<Action>, item: Item, env: Env)
    ensures ApplyAll(a + b, item, env) ==
              match ApplyAll(a, item, env) case Err => Err case Ok(d) => ApplyAll(b, d, env)
    decreases |a|
  {
    hide ApplyAction;
    if a == [] {
      assert a + b == b;
    } else {
      assert (a + b)[0] == a[0] && (a + b)[1..] == a[1..] + b;
      var next := ApplyAction(a[0], item, env);
      if next.Ok? {
        ApplyAllConcat(a[1..], b, next.value, env);
      }
    }
  }
}
