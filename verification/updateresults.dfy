/** What SET and ADD leave in a document, told from the document before (update.go): where a value can be written,
    what a right-hand side gives, and what every target holds afterwards. */
module UpdateResults {
  import opened Wrappers
  import opened Bytes
  import opened Numbers
  import opened Arithmetic
  import opened Values
  import opened Paths
  import opened Expressions
  import opened Conditions
  import opened Updates
  import opened UpdateOrder

  // ---- where a value can be written ----

  /** The container has, or can get, a child at e. */
  predicate Takes(v: AV, e: Elem) {
    match e
    case Name(_) => v.M?
    case Index(i) => v.L? && i < |v.elems|
  }

  /** The path leads to a container that takes its last element, or to a map that lacks its next name, where only
      names follow. */
  predicate WritableAt(v: AV, p: seq<Elem>, n: nat)
    requires n < |p|
  {
    Get(v, p[..n]).Some? &&
    var c := Get(v, p[..n]).value;
    if n == |p| - 1 then Takes(c, p[n])
    else c.M? && p[n].Name? && p[n].name !in c.attrs && forall k :: n < k < |p| ==> p[k].Name?
  }

  predicate Writable(v: AV, p: seq<Elem>) {
    exists n :: 0 <= n < |p| && WritableAt(v, p, n)
  }

  lemma {:induction false} NamesIntoEmpty(p: seq<Elem>, x: AV)
    ensures Put(M(map[]), p, x).Ok? <==> forall k :: 0 <= k < |p| ==> p[k].Name?
  {
    if p != [] {
      assert ChildOrNew(M(map[]), p[0]) == M(map[]);
      NamesIntoEmpty(p[1..], x);
      assert forall k :: 0 <= k < |p| - 1 ==> p[1..][k] == p[k + 1];
    }
  }

  /** The step to the first child of the path. */
  lemma WritableBelow(v: AV, p: seq<Elem>, n: nat)
    requires 0 < n < |p|
    ensures WritableAt(v, p, n) <==> Child(v, p[0]).Some? && WritableAt(Child(v, p[0]).value, p[1..], n - 1)
  {
    hide Child, Takes;
    assert p[..n][0] == p[0] && p[..n][1..] == p[1..][..n - 1];
    assert forall k :: 0 <= k < |p| - 1 ==> p[1..][k] == p[k + 1];
    if forall k :: n - 1 < k < |p| - 1 ==> p[1..][k].Name? {
      forall k | n < k < |p| ensures p[k].Name? {
        assert p[k] == p[1..][k - 1];
      }
    }
  }

  /** A write succeeds exactly where its path can be written. */
  lemma {:induction false} PutSucceedsIff(v: AV, p: seq<Elem>, x: AV)
    requires p != []
    ensures Put(v, p, x).Ok? <==> Writable(v, p)
    decreases |p|
  {
    hide WritableAt;
    var c := Child(v, p[0]);
    forall n | 0 < n < |p|
      ensures WritableAt(v, p, n) <==> c.Some? && WritableAt(c.value, p[1..], n - 1)
    {
      WritableBelow(v, p, n);
    }
    FirstWritable(v, p);
    if |p| == 1 {
      assert Put(v, p, x) == WithChild(v, p[0], x) by {
        assert p[1..] == [];
      }
    } else if c.Some? {
      PutSucceedsIff(c.value, p[1..], x);
      if Writable(c.value, p[1..]) {
        var n :| 0 <= n < |p[1..]| && WritableAt(c.value, p[1..], n);
        assert WritableAt(v, p, n + 1);
      }
    } else {
      NamesIntoEmpty(p[1..], x);
    }
  }

  lemma FirstWritable(v: AV, p: seq<Elem>)
    requires p != []
    ensures WritableAt(v, p, 0) <==>
            if |p| == 1 then Takes(v, p[0])
            else v.M? && p[0].Name? && Child(v, p[0]).None? && forall k :: 0 <= k < |p[1..]| ==> p[1..][k].Name?
  {
    assert p[..0] == [];
    assert forall k :: 0 <= k < |p| - 1 ==> p[1..][k] == p[k + 1];
    if forall k :: 0 <= k < |p[1..]| ==> p[1..][k].Name? {
      forall k | 0 < k < |p| ensures p[k].Name? {
        assert p[k] == p[1..][k - 1];
      }
    }
  }

  // ---- what a right-hand side gives ----

  ghost predicate Stands(o: Operand, item: Item, env: Env, v: AV) {
    !Bad(o, item, env) && Denoted(o, item, env) == Some(v)
  }

  /** The right-hand side gives v: what its operand stands for, what is at the first path if something is, or the
      elements of one list behind those of another. */
  ghost predicate Gives(r: Rvalue, item: Item, env: Env, v: AV) {
    match r
    case Plain(o) => Stands(o, item, env, v)
    case IfNotExists(p, otherwise) =>
      if Get(M(item), p).Some? then Get(M(item), p) == Some(v) else Gives(otherwise, item, env, v)
    case ListAppend(a, b) =>
      v.L? && exists n :: 0 <= n <= |v.elems| &&
                          Gives(a, item, env, L(v.elems[..n])) && Gives(b, item, env, L(v.elems[n..]))
  }

  lemma StandsIff(o: Operand, item: Item, env: Env, v: AV)
    ensures OperandValue(o, item, env) == Ok(v) <==> Stands(o, item, env, v)
  {
    hide ResolveOperand, Bad, Denoted;
    Resolved(o, item, env);
  }

  lemma {:induction false} GivesIff(r: Rvalue, item: Item, env: Env, v: AV)
    ensures EvalRvalue(r, item, env) == Ok(v) <==> Gives(r, item, env, v)
    decreases r
  {
    hide OperandValue, Stands, Get;
    match r {
      case Plain(o) => StandsIff(o, item, env, v);
      case IfNotExists(p, otherwise) => GivesIff(otherwise, item, env, v);
      case ListAppend(a, b) =>
        if EvalRvalue(r, item, env) == Ok(v) {
          var x, y := EvalRvalue(a, item, env).value, EvalRvalue(b, item, env).value;
          GivesIff(a, item, env, x);
          GivesIff(b, item, env, y);
          var n := |x.elems|;
          assert v.elems[..n] == x.elems && v.elems[n..] == y.elems;
          assert L(v.elems[..n]) == x && L(v.elems[n..]) == y;
        }
        if Gives(r, item, env, v) {
          var n :| 0 <= n <= |v.elems| && Gives(a, item, env, L(v.elems[..n])) &&
                   Gives(b, item, env, L(v.elems[n..]));
          GivesIff(a, item, env, L(v.elems[..n]));
          GivesIff(b, item, env, L(v.elems[n..]));
          assert v.elems[..n] + v.elems[n..] == v.elems;
        }
    }
  }

  // ---- what SET and ADD store ----

  /** out is a, then elements of b, in which nothing of a or of itself comes again and nothing of b is missing. */
  ghost predicate Joined<T(!new)>(same: (T, T) -> bool, a: seq<T>, b: seq<T>, out: seq<T>) {
    && a <= out
    && (forall x :: Known(same, out, x) <==> Known(same, a, x) || Known(same, b, x))
    && (forall j :: |a| <= j < |out| ==> out[j] in b && !Known(same, out[..j], out[j]))
  }

  /** ADD of x to what is there: x itself, the sum of two numbers, or the union of two sets of one type. */
  ghost predicate AddsUp(x: AV, cur: Option<AV>, v: AV) {
    match (cur, x)
    case (None, _) => v == x && (x.N? || x.SS? || x.NS? || x.BS?)
    case (Some(N(m)), N(n)) => v.N? && AddNumbers(m, n, false) == Ok(v.number)
    case (Some(SS(a)), SS(b)) => v.SS? && Joined((s, t) => s == t, a, b, v.texts)
    case (Some(NS(a)), NS(b)) => v.NS? && Joined((s, t) => NumbersEqual(s, t), a, b, v.numbers)
    case (Some(BS(a)), BS(b)) => v.BS? && Joined((s, t) => s == t, a, b, v.blobs)
    case _ => false
  }

  /** The action stores v when it runs on the item. */
  ghost predicate Yields(a: Action, item: Item, env: Env, v: AV)
    requires IsWrite(a)
  {
    match a
    case Set(_, Single(r)) => Gives(r, item, env, v)
    case Set(_, Sum(r, o, sub)) =>
      v.N? && exists m, n :: Gives(r, item, env, N(m)) && Stands(o, item, env, N(n)) &&
                             AddNumbers(m, n, sub) == Ok(v.number)
    case Add(p, o) => exists x :: Stands(o, item, env, x) && AddsUp(x, Get(M(item), p), v)
  }

  lemma {:induction false} UnionJoined<T(!new)>(eq: (T, T) -> bool, a: seq<T>, b: seq<T>)
    requires forall s, t, u :: eq(s, t) && eq(t, u) ==> eq(s, u)
    requires forall s, t :: eq(s, t) ==> eq(t, s)
    ensures Joined(eq, a, b, Union(eq, a, b))
  {
    hide Known;
    forall x ensures Known(eq, Union(eq, a, b), x) <==> Known(eq, a, x) || Known(eq, b, x) {
      UnionMembers(eq, a, b, x);
    }
    if b == [] {
    } else {
      var n := |b| - 1;
      var out := Union(eq, a, b[..n]);
      UnionMembers(eq, a, b, b[n]);
      UnionJoined(eq, a, b[..n]);
      var all := Union(eq, a, b);
      forall j | |a| <= j < |all|
        ensures all[j] in b && !Known(eq, all[..j], all[j])
      {
        if j < |out| {
          assert all[..j] == out[..j] && all[j] == out[j];
          assert out[j] in b[..n];
        } else {
          assert all == out + [b[n]] && all[..j] == out;
        }
      }
    }
  }

  lemma JoinedAlike<T(!new)>(f: (T, T) -> bool, g: (T, T) -> bool, a: seq<T>, b: seq<T>, out: seq<T>)
    requires Joined(f, a, b, out) && forall s, t :: f(s, t) == g(s, t)
    ensures Joined(g, a, b, out)
  {
    forall s, x ensures Known(f, s, x) == Known(g, s, x) {
    }
  }

  lemma BytesJoined(a: seq<bytes>, b: seq<bytes>)
    ensures Joined((s, t) => s == t, a, b, Union(SAME_BYTES, a, b))
  {
    UnionJoined(SAME_BYTES, a, b);
    JoinedAlike(SAME_BYTES, (s, t) => s == t, a, b, Union(SAME_BYTES, a, b));
  }

  lemma NumbersJoined(a: seq<string>, b: seq<string>)
    ensures Joined((s, t) => NumbersEqual(s, t), a, b, Union(SAME_NUMBER, a, b))
  {
    hide NumbersEqual;
    forall s, t, u | SAME_NUMBER(s, t) && SAME_NUMBER(t, u) ensures SAME_NUMBER(s, u) {
      NumbersEqualIffSameTriple(s, t);
      NumbersEqualIffSameTriple(t, u);
      NumbersEqualIffSameTriple(s, u);
    }
    forall s, t | SAME_NUMBER(s, t) ensures SAME_NUMBER(t, s) {
      NumbersEqualIffSameTriple(s, t);
      NumbersEqualIffSameTriple(t, s);
    }
    UnionJoined(SAME_NUMBER, a, b);
    JoinedAlike(SAME_NUMBER, (s, t) => NumbersEqual(s, t), a, b, Union(SAME_NUMBER, a, b));
  }

  lemma AddedAddsUp(x: AV, cur: Option<AV>)
    ensures AddedValue(x, cur).Ok? ==> AddsUp(x, cur, AddedValue(x, cur).value)
    ensures AddedValue(x, cur).Err? ==> forall v :: !AddsUp(x, cur, v)
  {
    hide AddNumbers, Union, Joined, NumbersEqual;
    match (cur, x) {
      case (Some(SS(a)), SS(b)) => BytesJoined(a, b);
      case (Some(NS(a)), NS(b)) => NumbersJoined(a, b);
      case (Some(BS(a)), BS(b)) => BytesJoined(a, b);
      case _ =>
    }
  }

  /** What an action stores is what it yields, and it fails exactly if it yields nothing. */
  lemma WrittenYields(a: Action, item: Item, env: Env)
    requires IsWrite(a)
    ensures WrittenValue(a, item, env).Ok? ==> Yields(a, item, env, WrittenValue(a, item, env).value)
    ensures WrittenValue(a, item, env).Err? ==> forall v :: !Yields(a, item, env, v)
  {
    hide AddNumbers, AddedValue, AddsUp, EvalRvalue, OperandValue, Gives, Stands, Get;
    forall r, v ensures EvalRvalue(r, item, env) == Ok(v) <==> Gives(r, item, env, v) {
      GivesIff(r, item, env, v);
    }
    forall o, v ensures OperandValue(o, item, env) == Ok(v) <==> Stands(o, item, env, v) {
      StandsIff(o, item, env, v);
    }
    if a.Add? {
      forall x ensures AddedValue(x, Get(M(item), a.path)).Ok? ==>
                         AddsUp(x, Get(M(item), a.path), AddedValue(x, Get(M(item), a.path)).value)
               ensures AddedValue(x, Get(M(item), a.path)).Err? ==> forall v :: !AddsUp(x, Get(M(item), a.path), v)
      {
        AddedAddsUp(x, Get(M(item), a.path));
      }
    }
  }

  // ---- several actions that do not touch each other ----

  /** Whether a path can be written does not depend on a write elsewhere. */
  lemma {:induction false} WritesElsewhere(v: AV, p: seq<Elem>, x: AV, q: seq<Elem>, y: AV)
    requires Put(v, p, x).Ok? && !Overlap(p, q)
    ensures Put(Put(v, p, x).value, q, y).Ok? <==> Put(v, q, y).Ok?
    decreases |p|
  {
    hide Child, WithChild;
    var c := ChildOrNew(v, p[0]);
    var d := Put(c, p[1..], x).value;
    ChildOfWithChild(v, p[0], q[0], d);
    PutUnfold(v, p, x);
    PutUnfold(v, q, y);
    PutUnfold(Put(v, p, x).value, q, y);
    if p[0] == q[0] {
      WritesElsewhere(c, p[1..], x, q[1..], y);
      if Put(d, q[1..], y).Ok? {
        WithChildTwice(v, p[0], q[0], d, Put(d, q[1..], y).value);
        WithChildFails(v, q[0], Put(d, q[1..], y).value);
        WithChildFails(v, q[0], Put(c, q[1..], y).value);
      }
    } else if Put(ChildOrNew(v, q[0]), q[1..], y).Ok? {
      WithChildTwice(v, p[0], q[0], d, Put(ChildOrNew(v, q[0]), q[1..], y).value);
    }
  }

  /** q overlaps the target of no action. */
  predicate ApartFrom(s: seq<Action>, q: Path) {
    forall i :: 0 <= i < |s| ==> !Overlap(s[i].path, q)
  }

  /** The value of each action is at its target, and nothing else has changed. */
  ghost predicate AllStored(s: seq<Action>, item: Item, env: Env, d: Item)
    requires forall i :: 0 <= i < |s| ==> IsWrite(s[i])
  {
    && (forall i :: 0 <= i < |s| ==> Stored(s[i], item, env, d))
    && (forall q :: ApartFrom(s, q) ==> ResolvePath(d, q) == ResolvePath(item, q))
  }

  predicate Stored(a: Action, item: Item, env: Env, d: Item)
    requires IsWrite(a)
  {
    WrittenValue(a, item, env).Ok? && ResolvePath(d, a.path) == Some(WrittenValue(a, item, env).value)
  }

  predicate CanRun(a: Action, item: Item, env: Env)
    requires IsWrite(a)
  {
    WrittenValue(a, item, env).Ok? && Writable(M(item), a.path)
  }

  lemma OneRuns(a: Action, item: Item, env: Env)
    requires IsWrite(a)
    ensures ApplyAction(a, item, env).Ok? <==> CanRun(a, item, env)
    ensures ApplyAction(a, item, env).Ok? ==> AllStored([a], item, env, ApplyAction(a, item, env).value)
  {
    hide WrittenValue, Put, Get, Writable, Overlap;
    var v := WrittenValue(a, item, env);
    if v.Ok? {
      PutSucceedsIff(M(item), a.path, v.value);
      if ApplyAction(a, item, env).Ok? {
        GetOfPut(M(item), a.path, v.value);
        forall q: Path | ApartFrom([a], q)
          ensures ResolvePath(ApplyAction(a, item, env).value, q) == ResolvePath(item, q)
        {
          assert !Overlap([a][0].path, q);
          GetFrame(M(item), a.path, v.value, q);
        }
      }
    }
  }

  lemma RestIndependent(s: seq<Action>, i: nat)
    requires AllIndependent(s) && 0 < i < |s|
    ensures AllIndependent(s[1..]) && Independent(s[0], s[i])
  {
    hide Independent;
  }

  /** An independent action stores the same, and can be run alike, after the first. */
  lemma RunsElsewhere(a: Action, b: Action, item: Item, env: Env)
    requires Independent(a, b) && ApplyAction(a, item, env).Ok?
    ensures var next := ApplyAction(a, item, env).value;
            && WrittenValue(b, next, env) == WrittenValue(b, item, env)
            && (CanRun(b, next, env) <==> CanRun(b, item, env))
  {
    hide WrittenValue, Put, Get, Writable, Overlap;
    var v, next := WrittenValue(a, item, env).value, ApplyAction(a, item, env).value;
    WriteKeepsValue(a, b, item, v, env);
    WritesElsewhere(M(item), a.path, v, b.path, v);
    PutSucceedsIff(M(item), b.path, v);
    PutSucceedsIff(M(next), b.path, v);
  }

  /** After a first action and the others. */
  lemma StoredFirst(s: seq<Action>, item: Item, env: Env, next: Item, d: Item)
    requires s != [] && AllIndependent(s) && forall i :: 0 <= i < |s| ==> IsWrite(s[i])
    requires AllStored([s[0]], item, env, next) && AllStored(s[1..], next, env, d)
    requires forall i :: 0 < i < |s| ==> WrittenValue(s[i], next, env) == WrittenValue(s[i], item, env)
    ensures AllStored(s, item, env, d)
  {
    hide WrittenValue, Get, Overlap, Reads, Untouched;
    assert Stored([s[0]][0], item, env, next);
    assert ApartFrom(s[1..], s[0].path) by {
      forall i | 0 <= i < |s| - 1 ensures !Overlap(s[1..][i].path, s[0].path) {
        assert Independent(s[0], s[i + 1]);
        OverlapSymmetric(s[0].path, s[i + 1].path);
      }
    }
    forall i | 0 <= i < |s| ensures Stored(s[i], item, env, d) {
      if i > 0 {
        assert Stored(s[1..][i - 1], next, env, d);
      }
    }
    forall q: Path | ApartFrom(s, q) ensures ResolvePath(d, q) == ResolvePath(item, q) {
      assert forall i :: 0 <= i < |s| - 1 ==> s[1..][i] == s[i + 1];
      assert ApartFrom([s[0]], q) && ApartFrom(s[1..], q);
    }
  }

  /** Actions none of which touches what another reads or writes: they succeed together exactly if each could run
      alone, and then every target holds what its action yields on the document before. */
  lemma {:induction false} IndependentResult(s: seq<Action>, item: Item, env: Env)
    requires AllIndependent(s) && forall i :: 0 <= i < |s| ==> IsWrite(s[i])
    ensures ApplyAll(s, item, env).Ok? <==> forall i :: 0 <= i < |s| ==> CanRun(s[i], item, env)
    ensures ApplyAll(s, item, env).Ok? ==> AllStored(s, item, env, ApplyAll(s, item, env).value)
    decreases |s|
  {
    hide WrittenValue, Get, Writable, AllIndependent, Independent, ApplyAction, CanRun, AllStored;
    if s == [] {
      assert AllStored([], item, env, item) by {
        NothingStored(item, env);
      }
    } else {
      var rest, next := s[1..], ApplyAction(s[0], item, env);
      OneRuns(s[0], item, env);
      if next.Ok? {
        forall i | 0 < i < |s|
          ensures CanRun(s[i], next.value, env) <==> CanRun(s[i], item, env)
          ensures WrittenValue(s[i], next.value, env) == WrittenValue(s[i], item, env)
          ensures AllIndependent(rest) && rest[i - 1] == s[i]
        {
          RestIndependent(s, i);
          RunsElsewhere(s[0], s[i], item, env);
        }
        assert AllIndependent(rest) by {
          if |s| == 1 {
            assert rest == [];
            NoneIndependent();
          } else {
            RestIndependent(s, 1);
          }
        }
        IndependentResult(rest, next.value, env);
        if ApplyAll(rest, next.value, env).Ok? {
          StoredFirst(s, item, env, next.value, ApplyAll(rest, next.value, env).value);
        }
      }
    }
  }

  lemma NothingStored(item: Item, env: Env)
    ensures AllStored([], item, env, item)
  {
  }

  lemma NoneIndependent()
    ensures AllIndependent([])
  {
  }
}
