/** The order of SET and ADD actions is irrelevant when none reads what another writes (update.go). */
module UpdateOrder {
  import opened Wrappers
  import opened Permutations
  import opened Values
  import opened Paths
  import opened Expressions
  import opened Updates
  import opened RemoveSort

  // ---- what an action reads ----

  function OperandReads(o: Operand): seq<Path> {
    if o.ValueRef? then [] else [o.path]
  }

  function RvalueReads(r: Rvalue): seq<Path> {
    match r
    case Plain(o) => OperandReads(o)
    case IfNotExists(p, otherwise) => [p] + RvalueReads(otherwise)
    case ListAppend(a, b) => RvalueReads(a) + RvalueReads(b)
  }

  /** The paths on the right-hand side of an action. */
  function Reads(a: Action): seq<Path> {
    match a
    case Set(_, Single(r)) => RvalueReads(r)
    case Set(_, Sum(r, o, _)) => RvalueReads(r) + OperandReads(o)
    case Remove(_) => []
    case _ => OperandReads(a.operand)
  }

  /** None of the paths overlaps the target. */
  predicate Untouched(paths: seq<Path>, target: Path) {
    forall i :: 0 <= i < |paths| ==> !Overlap(target, paths[i])
  }

  /** The two documents agree on the given paths. */
  predicate Agree(paths: seq<Path>, d: Item, e: Item) {
    forall i :: 0 <= i < |paths| ==> ResolvePath(d, paths[i]) == ResolvePath(e, paths[i])
  }

  lemma AgreeConcat(a: seq<Path>, b: seq<Path>, d: Item, e: Item)
    requires Agree(a + b, d, e)
    ensures Agree(a, d, e) && Agree(b, d, e)
  {
    hide ResolvePath;
    assert forall i :: 0 <= i < |a| ==> (a + b)[i] == a[i];
    assert forall i :: 0 <= i < |b| ==> (a + b)[|a| + i] == b[i];
  }

  lemma OperandFrame(o: Operand, d: Item, e: Item, env: Env)
    requires Agree(OperandReads(o), d, e)
    ensures OperandValue(o, d, env) == OperandValue(o, e, env)
  {
    hide ResolvePath;
    if !o.ValueRef? {
      assert ResolvePath(d, OperandReads(o)[0]) == ResolvePath(e, OperandReads(o)[0]);
    }
  }

  lemma {:induction false} RvalueFrame(r: Rvalue, d: Item, e: Item, env: Env)
    requires Agree(RvalueReads(r), d, e)
    ensures EvalRvalue(r, d, env) == EvalRvalue(r, e, env)
  {
    hide ResolvePath, OperandValue;
    match r {
      case Plain(o) => OperandFrame(o, d, e, env);
      case IfNotExists(p, otherwise) =>
        AgreeConcat([p], RvalueReads(otherwise), d, e);
        assert ResolvePath(d, [p][0]) == ResolvePath(e, [p][0]);
        RvalueFrame(otherwise, d, e, env);
      case ListAppend(a, b) =>
        AgreeConcat(RvalueReads(a), RvalueReads(b), d, e);
        RvalueFrame(a, d, e, env);
        RvalueFrame(b, d, e, env);
    }
  }

  predicate IsWrite(a: Action) {
    a.Set? || a.Add?
  }

  lemma WrittenFrame(a: Action, d: Item, e: Item, env: Env)
    requires IsWrite(a) && Agree(Reads(a), d, e) && ResolvePath(d, a.path) == ResolvePath(e, a.path)
    ensures WrittenValue(a, d, env) == WrittenValue(a, e, env)
  {
    hide ResolvePath, EvalRvalue, OperandValue, AddedValue;
    match a {
      case Set(_, Single(r)) => RvalueFrame(r, d, e, env);
      case Set(_, Sum(r, o, _)) =>
        AgreeConcat(RvalueReads(r), OperandReads(o), d, e);
        RvalueFrame(r, d, e, env);
        OperandFrame(o, d, e, env);
      case Add(_, o) => OperandFrame(o, d, e, env);
    }
  }

  // ---- two actions ----

  /** Neither writes where the other writes or reads. */
  predicate Independent(a: Action, b: Action) {
    && IsWrite(a) && IsWrite(b)
    && !Overlap(a.path, b.path)
    && Untouched(Reads(a), b.path) && Untouched(Reads(b), a.path)
  }

  lemma IndependentSymmetric(a: Action, b: Action)
    requires Independent(a, b)
    ensures Independent(b, a)
  {
    OverlapSymmetric(a.path, b.path);
  }

  /** What b writes is the same before and after an independent a. */
  lemma WriteKeepsValue(a: Action, b: Action, item: Item, x: AV, env: Env)
    requires Independent(a, b) && SetPath(item, a.path, x).Ok?
    ensures WrittenValue(b, SetPath(item, a.path, x).value, env) == WrittenValue(b, item, env)
  {
    hide WrittenValue, Put, Get;
    var d := SetPath(item, a.path, x).value;
    forall i | 0 <= i < |Reads(b)| ensures ResolvePath(d, Reads(b)[i]) == ResolvePath(item, Reads(b)[i]) {
      GetFrame(M(item), a.path, x, Reads(b)[i]);
    }
    GetFrame(M(item), a.path, x, b.path);
    WrittenFrame(b, d, item, env);
  }

  function Both(a: Action, b: Action, item: Item, env: Env): Result<Item> {
    var d :- ApplyAction(a, item, env);
    ApplyAction(b, d, env)
  }

  lemma BothByValues(a: Action, b: Action, item: Item, env: Env)
    requires Independent(a, b)
    ensures Both(a, b, item, env) ==
              match (WrittenValue(a, item, env), WrittenValue(b, item, env))
              case (Ok(x), Ok(y)) =>
                (match Then(Put(M(item), a.path, x), b.path, y) case Ok(d) => Ok(d.attrs) case Err => Err)
              case _ => Err
  {
    hide WrittenValue, Put;
    match WrittenValue(a, item, env) {
      case Err =>
      case Ok(x) =>
        if SetPath(item, a.path, x).Ok? {
          WriteKeepsValue(a, b, item, x, env);
        }
    }
  }

  /** Two independent actions commute: both orders fail, or both give one document. */
  lemma ActionsCommute(a: Action, b: Action, item: Item, env: Env)
    requires Independent(a, b)
    ensures Both(a, b, item, env) == Both(b, a, item, env)
  {
    hide WrittenValue, Put, Both;
    IndependentSymmetric(a, b);
    BothByValues(a, b, item, env);
    BothByValues(b, a, item, env);
    match (WrittenValue(a, item, env), WrittenValue(b, item, env)) {
      case (Ok(x), Ok(y)) => PutsCommute(M(item), a.path, x, b.path, y);
      case _ =>
    }
  }

  // ---- any order ----

  predicate AllIndependent(s: seq<Action>) {
    forall i, j :: 0 <= i < j < |s| ==> Independent(s[i], s[j])
  }

  lemma SwapAdjacent(pre: seq<Action>, a: Action, b: Action, post: seq<Action>, item: Item, env: Env)
    requires Independent(a, b)
    ensures ApplyAll(pre + [a, b] + post, item, env) == ApplyAll(pre + [b, a] + post, item, env)
  {
    hide ApplyAction, Independent;
    ApplyAllConcat(pre + [a, b], post, item, env);
    ApplyAllConcat(pre + [b, a], post, item, env);
    ApplyAllConcat(pre, [a, b], item, env);
    ApplyAllConcat(pre, [b, a], item, env);
    match ApplyAll(pre, item, env) {
      case Err =>
      case Ok(d) =>
        ActionsCommute(a, b, d, env);
        TwoActions(a, b, d, env);
        TwoActions(b, a, d, env);
    }
  }

  lemma TwoActions(a: Action, b: Action, item: Item, env: Env)
    ensures ApplyAll([a, b], item, env) == Both(a, b, item, env)
  {
    hide ApplyAction;
    assert [a, b][1..] == [b] && [b][1..] == [];
    var d := ApplyAction(a, item, env);
    if d.Ok? {
      assert ApplyAll([b], d.value, env) == ApplyAction(b, d.value, env) by {
        var e := ApplyAction(b, d.value, env);
        assert e.Ok? ==> ApplyAll([b][1..], e.value, env) == e;
      }
    }
  }

  function MovedToFront(s: seq<Action>, i: nat): seq<Action>
    requires i < |s|
  {
    [s[i]] + s[..i] + s[i + 1..]
  }

  lemma PairIndependent(s: seq<Action>, i: nat)
    requires 0 < i < |s| && AllIndependent(s)
    ensures Independent(s[i - 1], s[i]) && Independent(s[i], s[i - 1])
  {
    assert Independent(s[i - 1], s[i]);
    IndependentSymmetric(s[i - 1], s[i]);
  }

  lemma SwappedIndependent(s: seq<Action>, i: nat, t: seq<Action>)
    requires 0 < i < |s| && AllIndependent(s)
    requires t == s[..i - 1] + [s[i], s[i - 1]] + s[i + 1..]
    ensures AllIndependent(t)
  {
    hide Independent;
    PairIndependent(s, i);
    assert forall k :: 0 <= k < |s| ==> t[k] == if k == i - 1 then s[i] else if k == i then s[i - 1] else s[k];
  }

  lemma {:induction false} MoveToFront(s: seq<Action>, i: nat, item: Item, env: Env)
    requires i < |s| && AllIndependent(s)
    ensures ApplyAll(s, item, env) == ApplyAll(MovedToFront(s, i), item, env)
    decreases i
  {
    hide ApplyAll, Independent, AllIndependent;
    if i == 0 {
      assert MovedToFront(s, 0) == s;
    } else {
      var pre, a, b, post := s[..i - 1], s[i - 1], s[i], s[i + 1..];
      assert s == pre + [a, b] + post;
      var t := pre + [b, a] + post;
      PairIndependent(s, i);
      SwapAdjacent(pre, a, b, post, item, env);
      SwappedIndependent(s, i, t);
      MoveToFront(t, i - 1, item, env);
      assert MovedToFront(t, i - 1) == MovedToFront(s, i);
    }
  }

  lemma IndependentWithout(s: seq<Action>, i: nat)
    requires i < |s| && AllIndependent(s)
    ensures AllIndependent(s[..i] + s[i + 1..])
  {
    hide Independent;
    var t := s[..i] + s[i + 1..];
    assert forall k :: 0 <= k < |t| ==> t[k] == if k < i then s[k] else s[k + 1];
  }

  /** Independent SET and ADD actions give the same document in every order, or fail in every order;
      intermediate maps that a path creates on the way included. */
  lemma {:induction false} AnyOrder(s: seq<Action>, t: seq<Action>, item: Item, env: Env)
    requires AllIndependent(s) && multiset(s) == multiset(t)
    ensures ApplyAll(s, item, env) == ApplyAll(t, item, env)
    decreases |t|
  {
    hide Independent, ApplyAction;
    if t == [] {
      assert |multiset(s)| == 0;
    } else {
      var i := FindFirst(s, t);
      var moved, next := MovedToFront(s, i), ApplyAction(t[0], item, env);
      MoveToFront(s, i, item, env);
      IndependentWithout(s, i);
      assert moved[0] == t[0] && moved[1..] == s[..i] + s[i + 1..];
      if next.Ok? {
        AnyOrder(moved[1..], t[1..], next.value, env);
      }
    }
  }

  /** An action whose right-hand side names no path. */
  predicate ValueOnly(a: Action) {
    IsWrite(a) && Reads(a) == []
  }

  /** In a parsed update whose SETs and ADDs take their operands from value references, the actions may
      be permuted freely. */
  lemma ValueUpdatesCommute(actions: seq<Action>, permuted: seq<Action>, item: Item, env: Env)
    requires ParsedUpdate(actions) && multiset(actions) == multiset(permuted)
    requires forall i :: 0 <= i < |actions| ==> ValueOnly(actions[i])
    ensures ApplyUpdate(item, actions, env) == ApplyUpdate(item, permuted, env)
  {
    hide Overlap, Reads, ApplyAll, SortRemoves;
    forall i | 0 <= i < |permuted| ensures IsWrite(permuted[i]) {
      assert permuted[i] in multiset(actions);
    }
    NoRemoves(actions);
    NoRemoves(permuted);
    AnyOrder(actions, permuted, item, env);
    SortsNothing();
    EmptyApplies(env);
  }

  lemma EmptyApplies(env: Env)
    ensures forall d :: ApplyAll([], d, env) == Ok(d)
  {
  }

  lemma {:induction false} NoRemoves(s: seq<Action>)
    requires forall i :: 0 <= i < |s| ==> IsWrite(s[i])
    ensures Removes(s) == [] && Others(s) == s
  {
    if s != [] {
      NoRemoves(s[1..]);
      assert s == [s[0]] + s[1..];
    }
  }

  // ---- when order matters ----

  /** SET p = r. */
  function CopySet(p: Path, r: Path): Action {
    Set(p, Single(Plain(PathOf(r))))
  }

  /** SET q = :v. */
  function ValueSet(q: Path, k: string): Action {
    Set(q, Single(Plain(ValueRef(k))))
  }

  /** The two targets cannot both be written, whatever is written to them. */
  predicate CannotWrite(item: Item, p: Path, q: Path, v: AV) {
    Then(Put(M(item), p, v), q, v).Err?
  }

  /** r reads the same, or nothing, before and after v is written at q. */
  predicate ReadsSame(item: Item, q: Path, v: AV, r: Path) {
    match SetPath(item, q, v)
    case Err => false
    case Ok(d) => ResolvePath(d, r) == ResolvePath(item, r)
  }

  lemma FirstValueIrrelevant(v: AV, p: seq<Elem>, x: AV, z: AV, q: seq<Elem>, y: AV)
    requires !Overlap(p, q)
    ensures Then(Put(v, p, x), q, y).Ok? <==> Then(Put(v, p, z), q, y).Ok?
  {
    hide Put;
    PutsCommute(v, p, x, q, y);
    PutsCommute(v, p, z, q, y);
    if Put(v, q, y).Ok? {
      PutFails(Put(v, q, y).value, p, x, z);
    }
  }

  lemma CopyThenValue(item: Item, env: Env, p: Path, r: Path, q: Path, k: string)
    requires k in env
    ensures Both(CopySet(p, r), ValueSet(q, k), item, env) ==
              match ResolvePath(item, r)
              case None => Err
              case Some(x) => match Then(Put(M(item), p, x), q, env[k]) case Ok(d) => Ok(d.attrs) case Err => Err
    ensures Both(ValueSet(q, k), CopySet(p, r), item, env) ==
              match SetPath(item, q, env[k])
              case Err => Err
              case Ok(d) =>
                match ResolvePath(d, r)
                case None => Err
                case Some(x) => match Put(M(d), p, x) case Ok(e) => Ok(e.attrs) case Err => Err
  {
    hide Put, Get;
  }

  /** SET p = r and SET q = :v may be exchanged if and only if the targets cannot both be written, or r
      reads the same after q is written. */
  lemma SetsCommuteIff(item: Item, env: Env, p: Path, r: Path, q: Path, k: string)
    requires !Overlap(p, q) && k in env
    ensures Both(CopySet(p, r), ValueSet(q, k), item, env) == Both(ValueSet(q, k), CopySet(p, r), item, env) <==>
            CannotWrite(item, p, q, env[k]) || ReadsSame(item, q, env[k], r)
  {
    hide Put, Get, Both, CopySet, ValueSet;
    var d, v := M(item), env[k];
    CopyThenValue(item, env, p, r, q, k);
    PutsCommute(d, p, v, q, v);
    if ResolvePath(item, r).Some? {
      var x := ResolvePath(item, r).value;
      FirstValueIrrelevant(d, p, x, v, q, v);
      PutsCommute(d, p, x, q, v);
    }
    if SetPath(item, q, v).Ok? && ResolvePath(SetPath(item, q, v).value, r).Some? {
      var e := SetPath(item, q, v).value;
      var z := ResolvePath(e, r).value;
      PutFails(M(e), p, z, v);
      if Put(M(e), p, z).Ok? {
        ItemStays(M(e), p, z);
        GetOfPut(M(e), p, z);
        if ResolvePath(item, r).Some? {
          var x := ResolvePath(item, r).value;
          PutFails(M(e), p, z, x);
          ItemStays(M(e), p, x);
          GetOfPut(M(e), p, x);
        }
      }
    }
  }

  lemma ItemStays(v: AV, p: Path, x: AV)
    requires v.M? && Put(v, p, x).Ok?
    ensures Put(v, p, x).value.M?
  {
  }

  /** Whether r reads the same can be told before q is written. */
  lemma ReadsSameIff(item: Item, q: Path, v: AV, r: Path)
    requires SetPath(item, q, v).Ok?
    ensures ReadsSame(item, q, v, r) <==>
            || !Overlap(q, r)
            || (r <= q && ResolvePath(item, q) == Some(v))
            || (q <= r && Get(v, r[|q|..]) == ResolvePath(item, r))
  {
    hide Put, Get, Overlap;
    var d, e := M(item), Put(M(item), q, v).value;
    GetOfPut(d, q, v);
    OverlapIff(q, r);
    if !Overlap(q, r) {
      GetFrame(d, q, v, r);
    } else if q <= r {
      assert r == q + r[|q|..];
      GetConcat(e, q, r[|q|..]);
      if r <= q {
        assert r == q && r[|q|..] == [];
        GetHere(v);
      }
    } else {
      assert q == r + q[|r|..];
      GetConcat(e, r, q[|r|..]);
      GetConcat(d, r, q[|r|..]);
      if Get(d, q) == Some(v) {
        PutOfGet(d, q);
      }
    }
  }

  lemma GetHere(v: AV)
    ensures Get(v, []) == Some(v)
  {
  }
}
