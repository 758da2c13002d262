/** Updates that only move values around leave no invalid scalar, so one that leaves a container inside itself is never
    answered (update.go, ops_item.go, avjson.go). */
module ValidRuns {
  import opened Values
  import opened Paths
  import opened Expressions
  import opened Updates
  import opened RunOrders
  import opened References
  import opened UpdatesByReference
  import opened Store
  import opened Transactions
  import opened Runs
  import opened Outcomes
  import opened UpdatesOnRows

  /** The right-hand side computes nothing: no size() in it. */
  predicate OnlyMoves(r: Rvalue) {
    match r
    case Plain(o) => !o.SizeOf?
    case IfNotExists(_, otherwise) => OnlyMoves(otherwise)
    case ListAppend(a, b) => OnlyMoves(a) && OnlyMoves(b)
  }

  /** A REMOVE, or a SET without arithmetic. */
  predicate Moving(a: Action) {
    a.Remove? || (a.Set? && a.value.Single? && OnlyMoves(a.value.r))
  }

  predicate GoodVal(v: Val) {
    v.Atom? ==> ValidAV(v.av)
  }

  predicate GoodCell(c: Cell) {
    match c
    case ListCell(es) => forall i :: 0 <= i < |es| ==> GoodVal(es[i])
    case MapCell(m) => forall k :: k in m ==> GoodVal(m[k])
  }

  /** No object holds an invalid scalar. */
  ghost predicate GoodHeap(h: Heap) {
    ValidItem(h.values) && forall r :: Look(h, r).Some? ==> GoodCell(Look(h, r).value)
  }

  lemma {:induction false} ValidAt(v: AV, p: seq<Elem>)
    requires ValidAV(v) && Get(v, p).Some?
    ensures ValidAV(Get(v, p).value)
    decreases |p|
  {
    if p != [] {
      ValidAt(Child(v, p[0]).value, p[1..]);
    }
  }

  lemma CellOfValid(av: AV, r: Ref)
    requires ValidAV(av) && CellOf(av, r).Some?
    ensures GoodCell(CellOf(av, r).value)
  {
  }

  lemma ClonedGood(item: Item, values: Env)
    requires ValidItem(item) && ValidItem(values)
    ensures GoodHeap(Cloned(item, values))
  {
    hide ValidAV, CellOf, GoodCell;
    var h := Cloned(item, values);
    forall r | Look(h, r).Some? ensures GoodCell(Look(h, r).value) {
      match r {
        case InItem(p) =>
          assert ValidAV(M(item)) by {
            ItemIsValid(item);
          }
          ValidAt(M(item), p);
        case InValue(n, p) => ValidAt(values[n], p);
        case Made(_) =>
      }
      CellOfValid(Origin(h, r).value, r);
    }
  }

  lemma ItemIsValid(item: Item)
    requires ValidItem(item)
    ensures ValidAV(M(item))
  {
  }

  lemma UpdateGood(h: Heap, r: Ref, c: Cell)
    requires GoodHeap(h) && GoodCell(c)
    ensures GoodHeap(Update(h, r, c)) && GoodHeap(Make(h, c))
  {
    hide GoodCell, CellOf, ValidItem;
    forall q | Look(Update(h, r, c), q).Some? ensures GoodCell(Look(Update(h, r, c), q).value) {
      assert q != r ==> Look(Update(h, r, c), q) == Look(h, q);
    }
    forall q | Look(Make(h, c), q).Some? ensures GoodCell(Look(Make(h, c), q).value) {
      assert q != Made(h.made) ==> Look(Make(h, c), q) == Look(h, q);
    }
  }

  lemma PartsGood(c: Cell, e: Elem, x: Val)
    requires GoodCell(c) && GoodVal(x)
    ensures Part(c, e).Some? ==> GoodVal(Part(c, e).value)
    ensures WithPart(c, e, x).Ok? ==> GoodCell(WithPart(c, e, x).value)
    ensures WithoutPart(c, e).Ok? ==> GoodCell(WithoutPart(c, e).value)
  {
    hide GoodVal;
  }

  lemma {:induction false} WalkGood(h: Heap, v: Val, p: seq<Elem>)
    requires GoodHeap(h) && GoodVal(v) && Walk(h, v, p).Some?
    ensures GoodVal(Walk(h, v, p).value)
    decreases |p|
  {
    hide GoodVal, GoodCell, Look, Part;
    if p != [] {
      PartsGood(Look(h, v.ref).value, p[0], v);
      WalkGood(h, ChildVal(h, v, p[0]).value, p[1..]);
    }
  }

  lemma SetChildGood(h: Heap, v: Val, e: Elem, x: Val)
    requires GoodHeap(h) && GoodVal(x)
    ensures SetChild(h, v, e, x).Ok? ==> GoodHeap(SetChild(h, v, e, x).value)
    ensures DropChild(h, v, e).Ok? ==> GoodHeap(DropChild(h, v, e).value)
    ensures ChildVal(h, v, e).Some? ==> GoodVal(ChildVal(h, v, e).value)
  {
    assert v.Box? && Look(h, v.ref).Some? ==> GoodCell(Look(h, v.ref).value);
    hide GoodVal, GoodCell, GoodHeap, Look, WithPart, WithoutPart, Update;
    if v.Box? && Look(h, v.ref).Some? {
      var c := Look(h, v.ref).value;
      PartsGood(c, e, x);
      if WithPart(c, e, x).Ok? {
        UpdateGood(h, v.ref, WithPart(c, e, x).value);
      }
      if WithoutPart(c, e).Ok? {
        UpdateGood(h, v.ref, WithoutPart(c, e).value);
      }
    }
  }

  lemma {:induction false} PutGood(h: Heap, v: Val, p: seq<Elem>, x: Val)
    requires p != [] && GoodHeap(h) && GoodVal(x) && PutIn(h, v, p, x).Ok?
    ensures GoodHeap(PutIn(h, v, p, x).value)
    decreases |p|
  {
    hide GoodVal, GoodCell, GoodHeap, SetChild, ChildVal, Make;
    SetChildGood(h, v, p[0], x);
    if |p| > 1 {
      EmptyMapGood(h);
      var made := Make(h, MapCell(map[]));
      SetChildGood(made, v, p[0], Box(Made(h.made)));
      var next := Enter(h, v, p[0]).value;
      PutGood(next.1, next.0, p[1..], x);
    }
  }

  lemma EmptyMapGood(h: Heap)
    requires GoodHeap(h)
    ensures GoodHeap(Make(h, MapCell(map[]))) && GoodVal(Box(Made(h.made)))
  {
    hide GoodHeap, Make;
    UpdateGood(h, Made(h.made), MapCell(map[]));
  }

  lemma {:induction false} RvalueGood(h: Heap, r: Rvalue)
    requires GoodHeap(h) && OnlyMoves(r) && RvalueVal(h, r).Ok?
    ensures GoodVal(RvalueVal(h, r).value.0) && GoodHeap(RvalueVal(h, r).value.1)
    decreases r
  {
    hide Walk, Look, GoodHeap, Make, OperandVal;
    match r {
      case Plain(o) => OperandGood(h, o);
      case IfNotExists(p, otherwise) =>
        if Walk(h, Box(ROOT), p).Some? {
          WalkGood(h, Box(ROOT), p);
        } else {
          RvalueGood(h, otherwise);
        }
      case ListAppend(a, b) =>
        RvalueGood(h, a);
        var x := RvalueVal(h, a).value;
        RvalueGood(x.1, b);
        var y := RvalueVal(x.1, b).value;
        ElemsGood(y.1, x.0);
        ElemsGood(y.1, y.0);
        var xs, ys := ElemsOf(y.1, x.0).value, ElemsOf(y.1, y.0).value;
        UpdateGood(y.1, ROOT, ListCell(xs + ys));
    }
  }

  lemma ElemsGood(h: Heap, v: Val)
    requires GoodHeap(h)
    ensures ElemsOf(h, v).Some? ==> GoodCell(ListCell(ElemsOf(h, v).value))
  {
    hide GoodCell, Look;
  }

  lemma OperandGood(h: Heap, o: Operand)
    requires GoodHeap(h) && !o.SizeOf? && OperandVal(h, o).Ok?
    ensures GoodVal(OperandVal(h, o).value)
  {
    hide Walk, Look;
    if o.PathOf? {
      WalkGood(h, Box(ROOT), o.path);
    }
  }

  lemma ApplyGood(h: Heap, a: Action)
    requires GoodHeap(h) && Moving(a) && ApplyRef(h, a).Ok?
    ensures GoodHeap(ApplyRef(h, a).value)
  {
    hide GoodHeap, GoodVal, Walk, Look, PutIn, RvalueVal, OnlyMoves, DropChild;
    match a {
      case Remove(p) =>
        if Walk(h, Box(ROOT), Parent(p)).Some? {
          DropGood(h, Walk(h, Box(ROOT), Parent(p)).value, Last(p));
        }
      case Set(p, value) =>
        RvalueGood(h, value.r);
        var x := RvalueVal(h, value.r).value;
        PutGood(x.1, Box(ROOT), p, x.0);
      case _ =>
    }
  }

  lemma DropGood(h: Heap, v: Val, e: Elem)
    requires GoodHeap(h) && DropChild(h, v, e).Ok?
    ensures GoodHeap(DropChild(h, v, e).value)
  {
    hide GoodHeap, DropChild;
    SetChildGood(h, v, e, Box(ROOT));
  }

  lemma {:induction false} RunGood(h: Heap, run: seq<Action>)
    requires GoodHeap(h) && RunRefs(h, run).Ok? && forall i :: 0 <= i < |run| ==> Moving(run[i])
    ensures GoodHeap(RunRefs(h, run).value)
    decreases |run|
  {
    hide GoodHeap, ApplyRef, Moving;
    if run != [] {
      ApplyGood(h, run[0]);
      assert forall i :: 0 <= i < |run| - 1 ==> run[1..][i] == run[i + 1];
      RunGood(ApplyRef(h, run[0]).value, run[1..]);
    }
  }

  /** Validation finds nothing to refuse. */
  lemma NothingInvalid(item: Item, actions: seq<Action>, env: Env, p: seq<Elem>)
    requires ValidItem(item) && ValidItem(env) && forall a :: a in actions ==> Moving(a)
    requires RunRefs(Cloned(item, env), RunOrder(actions)).Ok?
    ensures !HoldsInvalid(RunRefs(Cloned(item, env), RunOrder(actions)).value, p)
  {
    hide RunRefs, RunOrder, GoodHeap, Walk, Moving, ValidItem;
    ClonedGood(item, env);
    RunsAll(actions);
    var run := RunOrder(actions);
    forall i | 0 <= i < |run| ensures Moving(run[i]) {
      assert run[i] in run;
    }
    RunGood(Cloned(item, env), run);
    var h := RunRefs(Cloned(item, env), run).value;
    if Walk(h, Box(ROOT), p).Some? {
      WalkGood(h, Box(ROOT), p);
    }
  }

  lemma EnvironmentValid(schema: Schema, w: Write, t: Target)
    requires Acceptable(schema, w, t)
    ensures ValidItem(w.env)
  {
    hide ValidItem;
  }

  /** An update that only moves valid values, and leaves a container inside itself, is never answered. */
  lemma EndlessNeverAnswered(schema: Schema, s: State, w: Write, t: Target, r: Outcome, s': State)
    requires w.body.UpdateOf? && Acceptable(schema, w, t) && SingleStep(schema, s, w, r, s')
    requires !ConditionFails(w, s.rows, t) && ConditionTrue(w, s.rows, t)
    requires ValidItem(RowOrKey(s.rows, t, w.body.key)) && forall a :: a in w.body.actions ==> Moving(a)
    requires ByReference(RowOrKey(s.rows, t, w.body.key), w.body.actions, w.env) == Endless
    ensures r == NeverReturns && s' == s
  {
    hide ParseWrite, Checked, RunRefs, RunOrder, HoldsInvalid, ValidItem, ItemSize, Acceptable;
    hide ConditionFails, ConditionTrue, ReadItem;
    AcceptedIffAcceptable(schema, w, t);
    EnvironmentValid(schema, w, t);
    CheckedMeans(w, s.rows, t);
    var base := RowOrKey(s.rows, t, w.body.key);
    if RunRefs(Cloned(base, w.env), RunOrder(w.body.actions)).Ok? {
      forall p ensures !HoldsInvalid(RunRefs(Cloned(base, w.env), RunOrder(w.body.actions)).value, p) {
        NothingInvalid(base, w.body.actions, w.env, p);
      }
    }
  }
}
