/** What an UpdateItem that commits, or an Update of a transaction that commits, leaves in its row, told from the row
    before (ops_item.go, ops_transact.go). */
module UpdatesOnRows {
  import opened Wrappers
  import opened Numbers
  import opened Values
  import opened Paths
  import opened Expressions
  import opened Updates
  import opened UpdateOrder
  import opened References
  import opened UpdatesByReference
  import opened RunOrders
  import opened RunInvariants
  import opened Places
  import opened IndependentUpdates
  import opened IndependentRuns
  import opened KeyEncoding
  import opened Limits
  import opened Tables
  import opened Store
  import opened Transactions
  import opened Runs
  import opened Outcomes
  import opened TransactionOutcomes
  import opened UpdateResults

  /** The row, or the key of the request where there is no row. */
  function RowOrKey(rows: Contents, t: Target, key: Item): Item {
    if t in rows then rows[t] else key
  }

  /** What the row holds after an update that commits is the result of the actions on what it held before. */
  lemma RowIsUpdated(schema: Schema, s: State, w: Write, t: Target, s': State)
    requires w.body.UpdateOf? && Acceptable(schema, w, t) && SingleStep(schema, s, w, Committed, s')
    ensures t in s'.rows
    ensures ByReference(RowOrKey(s.rows, t, w.body.key), w.body.actions, w.env) == Updated(s'.rows[t])
  {
    hide ParseWrite, Acceptable, Checked, ByReference, ItemSize, ValidItem, Hangs, MayFailFirst;
    AcceptedIffAcceptable(schema, w, t);
  }

  /** Attribute n is the same, or absent, in both items. */
  predicate SameAttribute(before: Item, after: Item, n: string) {
    if n in before then n in after && after[n] == before[n] else n !in after
  }

  lemma KeyAttributesScalar(table: Table, key: Item, k: Key)
    requires IsKey(table, key, k)
    ensures forall n :: n in key && n != "" ==> IsScalar(key[n])
  {
    hide KeyBytes;
  }

  /** An update starts from the stored row: every scalar or absent attribute of the row that heads none of the paths
      is afterwards as it was. Where there is no row, the named attributes that head no path are exactly those of
      the request key. */
  lemma UpdateStartsFromRow(schema: Schema, s: State, w: Write, t: Target, s': State, n: string)
    requires w.body.UpdateOf? && Acceptable(schema, w, t) && SingleStep(schema, s, w, Committed, s')
    requires forall a :: a in w.body.actions ==> a.path[0].name != n
    ensures t in s'.rows
    ensures t in s.rows && (n in s.rows[t] ==> IsScalar(s.rows[t][n])) ==> SameAttribute(s.rows[t], s'.rows[t], n)
    ensures t !in s.rows && n != "" ==> SameAttribute(w.body.key, s'.rows[t], n)
  {
    hide SingleStep, IsKey, HasKey, ByReference, ValidItem;
    RowIsUpdated(schema, s, w, t, s');
    KeyAttributesScalar(schema[w.table], w.body.key, t.key);
    var base := RowOrKey(s.rows, t, w.body.key);
    if n in base ==> IsScalar(base[n]) {
      UpdateKeeps(base, w.body.actions, w.env, n);
    }
  }

  /** The same for an Update of a transaction. */
  lemma UpdateInTransaction(schema: Schema, s: State, req: Request, ts: seq<Target>, now: int, done: int, s': State,
                            i: nat, n: string)
    requires AcceptableRequest(schema, req, ts) && Unrecorded(s, req, now)
    requires i < |req.writes| && req.writes[i].body.UpdateOf?
    requires TransactStep(schema, s, req, now, done, Committed, s')
    requires forall a :: a in req.writes[i].body.actions ==> a.path[0].name != n
    ensures ts[i] in s'.rows
    ensures ts[i] in s.rows && (n in s.rows[ts[i]] ==> IsScalar(s.rows[ts[i]][n])) ==>
              SameAttribute(s.rows[ts[i]], s'.rows[ts[i]], n)
    ensures ts[i] !in s.rows && n != "" ==> SameAttribute(req.writes[i].body.key, s'.rows[ts[i]], n)
  {
    hide Acceptable, TransactStep, SingleStep, Unrecorded, SameAttribute;
    WriteAsSingle(schema, s, req, ts, now, done, s', i);
    UpdateStartsFromRow(schema, s, req.writes[i], ts[i], State(OnlyRow(s.rows, s'.rows, ts[i]), s.tokens), n);
  }

  // ---- SETs and ADDs that do not touch each other ----

  /** The action has something to store, and a place for it. */
  ghost predicate Possible(a: Action, base: Item, env: Env)
    requires IsWrite(a)
  {
    Writable(M(base), a.path) && exists v :: Yields(a, base, env, v)
  }

  /** Every target holds what its action yields on the item before, and every path apart from them reads as before. */
  ghost predicate Results(actions: seq<Action>, base: Item, env: Env, d: Item)
    requires forall i :: 0 <= i < |actions| ==> IsWrite(actions[i])
  {
    && (forall i :: 0 <= i < |actions| ==>
          Get(M(d), actions[i].path).Some? && Yields(actions[i], base, env, Get(M(d), actions[i].path).value))
    && (forall q: Path :: ApartFrom(actions, q) ==> Get(M(d), q) == Get(M(base), q))
  }

  lemma PossibleIff(a: Action, base: Item, env: Env)
    requires IsWrite(a)
    ensures CanRun(a, base, env) <==> Possible(a, base, env)
  {
    hide WrittenValue, Yields, Writable;
    WrittenYields(a, base, env);
  }

  lemma StoredResults(actions: seq<Action>, base: Item, env: Env, d: Item)
    requires forall i :: 0 <= i < |actions| ==> IsWrite(actions[i])
    requires AllStored(actions, base, env, d)
    ensures Results(actions, base, env, d)
  {
    hide WrittenValue, Yields, Get;
    forall i | 0 <= i < |actions|
      ensures Get(M(d), actions[i].path).Some? && Yields(actions[i], base, env, Get(M(d), actions[i].path).value)
    {
      assert UpdateResults.Stored(actions[i], base, env, d);
      WrittenYields(actions[i], base, env);
    }
  }

  /** SETs and ADDs none of which touches what another reads or writes, under a condition that holds: rejected if one
      has nothing to store or no place for it; never committed if one stores a container into itself; and otherwise
      the row gets the item in which every target holds what its action yields on the row before, unless that is
      invalid or too large. */
  lemma WritesDecided(schema: Schema, s: State, w: Write, t: Target, r: Outcome, s': State) returns (d: Item)
    requires w.body.UpdateOf? && Acceptable(schema, w, t) && SingleStep(schema, s, w, r, s')
    requires !ConditionFails(w, s.rows, t) && ConditionTrue(w, s.rows, t)
    requires AllIndependent(w.body.actions) && forall i :: 0 <= i < |w.body.actions| ==> IsWrite(w.body.actions[i])
    ensures var base, actions := RowOrKey(s.rows, t, w.body.key), w.body.actions;
            if exists i :: 0 <= i < |actions| && !Possible(actions[i], base, w.env) then r == Rejected
            else if exists a :: a in actions && IntoItself(a, base) then r in {Rejected, NeverReturns}
            else
              && Results(actions, base, w.env, d)
              && r == (if ValidItem(d) && ItemSize(d) <= 409600 then Committed else Rejected)
              && (r == Committed ==> s'.rows == s.rows[t := d])
  {
    hide AllIndependent, IntoItself, ApplyAll, Results, Possible, ByReference, SingleStep, Acceptable, IsWrite;
    hide ConditionFails, ConditionTrue, ItemSize, ValidItem, AllStored, CanRun;
    var base, actions := RowOrKey(s.rows, t, w.body.key), w.body.actions;
    IndependentOutcome(base, actions, w.env);
    IndependentResult(actions, base, w.env);
    forall i | 0 <= i < |actions|
      ensures CanRun(actions[i], base, w.env) <==> Possible(actions[i], base, w.env)
    {
      PossibleIff(actions[i], base, w.env);
    }
    d := base;
    if ApplyAll(actions, base, w.env).Ok? {
      d := ApplyAll(actions, base, w.env).value;
      StoredResults(actions, base, w.env, d);
    }
    UpdateByResult(schema, s, w, t, r, s');
  }

  /** The outcome of an update whose condition holds, by the result of its actions. */
  lemma UpdateByResult(schema: Schema, s: State, w: Write, t: Target, r: Outcome, s': State)
    requires w.body.UpdateOf? && Acceptable(schema, w, t) && SingleStep(schema, s, w, r, s')
    requires !ConditionFails(w, s.rows, t) && ConditionTrue(w, s.rows, t)
    ensures match ByReference(RowOrKey(s.rows, t, w.body.key), w.body.actions, w.env)
            case Failed => r == Rejected
            case Endless => r in {Rejected, NeverReturns}
            case Updated(d) =>
              && r == (if ValidItem(d) && ItemSize(d) <= 409600 then Committed else Rejected)
              && (r == Committed ==> s'.rows == s.rows[t := d])
  {
    hide ParseWrite, Acceptable, Checked, ByReference, ItemSize, ValidItem, MayFailFirst, ConditionFails, ConditionTrue;
    AcceptedIffAcceptable(schema, w, t);
    CheckedMeans(w, s.rows, t);
  }

  /** SET of one attribute to a value of the request changes that attribute and no other. */
  lemma SetOneAttribute(schema: Schema, s: State, w: Write, t: Target, r: Outcome, s': State, b: string, k: string)
    requires w.body.UpdateOf? && Acceptable(schema, w, t) && SingleStep(schema, s, w, r, s')
    requires !ConditionFails(w, s.rows, t) && ConditionTrue(w, s.rows, t)
    requires w.body.actions == [Set([Name(b)], SetValue.Single(Plain(ValueRef(k))))]
    ensures k !in w.env ==> r == Rejected
    ensures k in w.env ==>
              var d := RowOrKey(s.rows, t, w.body.key)[b := w.env[k]];
              && r == (if ValidItem(d) && ItemSize(d) <= 409600 then Committed else Rejected)
              && (r == Committed ==> s'.rows == s.rows[t := d])
  {
    hide SingleStep, Acceptable, ConditionFails, ConditionTrue, ItemSize, ValidItem, ByReference;
    var base, a := RowOrKey(s.rows, t, w.body.key), w.body.actions[0];
    var d := WritesDecided(schema, s, w, t, r, s');
    assert WritableAt(M(base), a.path, 0) by {
      assert a.path[..0] == [];
    }
    if k in w.env {
      assert Yields(a, base, w.env, w.env[k]);
      forall n | n != b && Results(w.body.actions, base, w.env, d)
        ensures Get(M(d), [Name(n)]) == Get(M(base), [Name(n)])
      {
        assert ApartFrom(w.body.actions, [Name(n)]);
      }
      if Results(w.body.actions, base, w.env, d) {
        AttributesDecide(base, d, b, w.env[k]);
      }
    } else {
      assert forall v :: !Yields(a, base, w.env, v);
      assert !Possible(w.body.actions[0], base, w.env);
    }
  }

  lemma AttributesDecide(base: Item, d: Item, b: string, v: AV)
    requires Get(M(d), [Name(b)]) == Some(v)
    requires forall n :: n != b ==> Get(M(d), [Name(n)]) == Get(M(base), [Name(n)])
    ensures d == base[b := v]
  {
    hide Get;
    forall n
      ensures n in d <==> n in base[b := v]
      ensures n in d ==> d[n] == base[b := v][n]
    {
      OneStep(M(d), Name(n));
      OneStep(M(base), Name(n));
    }
  }

  // ---- one REMOVE or DELETE ----

  lemma OneAction(base: Item, a: Action, env: Env)
    requires a.Remove? || a.Delete?
    ensures ByReference(base, [a], env) == match ApplyAction(a, base, env) case Ok(d) => Updated(d) case Err => Failed
  {
    hide ByReference, ApplyAction, RunOrder, ApplyAll;
    RunsAll([a]);
    assert |RunOrder([a])| == |multiset(RunOrder([a]))| == |multiset([a])| == 1;
    assert RunOrder([a])[0] in RunOrder([a]);
    assert RunOrder([a]) == [a];
    ReferencesAsCopies(base, [a], env);
    UpdateIsRun(base, [a], env);
    AllOfOne(a, base, env);
  }

  lemma AllOfOne(a: Action, base: Item, env: Env)
    ensures ApplyAll([a], base, env) == ApplyAction(a, base, env)
  {
    hide ApplyAction;
    assert [a][1..] == [];
    var d := ApplyAction(a, base, env);
    assert d.Ok? ==> ApplyAll([], d.value, env) == d;
  }

  /** d is the item without what is at p: an attribute is absent then, and the elements of a list behind a removed
      one move up. */
  ghost predicate Without(base: Item, p: Path, d: Item) {
    var parent, e := Get(M(base), Parent(p)), Last(p);
    if parent.None? then d == base
    else
      && (forall q: Path :: !Overlap(p, q) && !Moves(p, q) ==> Get(M(d), q) == Get(M(base), q))
      && match e
         case Name(_) => Get(M(d), p).None?
         case Index(i) =>
           && parent.value.L? && i < |parent.value.elems|
           && Get(M(d), Parent(p)) == Some(L(parent.value.elems[..i] + parent.value.elems[i + 1..]))
  }

  /** Something at the parent of p that has no such child. */
  predicate CannotDrop(base: Item, p: Path) {
    Get(M(base), Parent(p)).Some? && !Takes(Get(M(base), Parent(p)).value, Last(p))
  }

  lemma RemovedIs(base: Item, p: Path)
    ensures RemovePath(base, p).Ok? <==> !CannotDrop(base, p)
    ensures RemovePath(base, p).Ok? ==> Without(base, p, RemovePath(base, p).value)
  {
    hide Get, Put, RemoveIn, Overlap, Moves, Parent, Last;
    RemoveInParent(M(base), p);
    var parent, e := Get(M(base), Parent(p)), Last(p);
    if parent.Some? {
      if WithoutChild(parent.value, e).Ok? {
        PutOfGet(M(base), Parent(p));
        PutFails(M(base), Parent(p), parent.value, WithoutChild(parent.value, e).value);
      }
      if RemovePath(base, p).Ok? {
        var d := RemovePath(base, p).value;
        forall q: Path | !Overlap(p, q) && !Moves(p, q) ensures Get(M(d), q) == Get(M(base), q) {
          RemovalFrame(M(base), p, q);
        }
        GetOfPut(M(base), Parent(p), WithoutChild(parent.value, e).value);
        if e.Name? {
          ParentThenLast(p);
          GetAfterRemoval(M(base), p, p);
        }
      }
    }
  }

  lemma ParentThenLast(p: seq<Elem>)
    requires p != []
    ensures Parent(p) < p && p <= p
  {
  }

  /** REMOVE of one path. */
  lemma RemoveDecided(schema: Schema, s: State, w: Write, t: Target, r: Outcome, s': State, p: Path) returns (d: Item)
    requires w.body.UpdateOf? && Acceptable(schema, w, t) && SingleStep(schema, s, w, r, s')
    requires !ConditionFails(w, s.rows, t) && ConditionTrue(w, s.rows, t) && w.body.actions == [Remove(p)]
    ensures var base := RowOrKey(s.rows, t, w.body.key);
            if CannotDrop(base, p) then r == Rejected
            else
              && Without(base, p, d)
              && r == (if ValidItem(d) && ItemSize(d) <= 409600 then Committed else Rejected)
              && (r == Committed ==> s'.rows == s.rows[t := d])
  {
    hide SingleStep, Acceptable, ConditionFails, ConditionTrue, ItemSize, ValidItem, ByReference;
    hide RemovePath, Without, CannotDrop;
    var base := RowOrKey(s.rows, t, w.body.key);
    RemovedIs(base, p);
    OneAction(base, Remove(p), w.env);
    UpdateByResult(schema, s, w, t, r, s');
    d := if RemovePath(base, p).Ok? then RemovePath(base, p).value else base;
  }

  // ---- DELETE ----

  /** v has exactly the elements of the set c that are not in the set x. */
  ghost predicate Minus(c: AV, x: AV, v: AV) {
    match (c, x)
    case (SS(a), SS(b)) => v.SS? && forall e :: e in v.texts <==> e in a && e !in b
    case (NS(a), NS(b)) => v.NS? && forall e :: e in v.numbers <==> e in a && !Known((m, n) => NumbersEqual(n, m), b, e)
    case (BS(a), BS(b)) => v.BS? && forall e :: e in v.blobs <==> e in a && e !in b
    case _ => false
  }

  lemma DeletedIsMinus(c: AV, x: AV)
    ensures DeletedValue(x, c).Ok? ==> Minus(c, x, DeletedValue(x, c).value)
    ensures DeletedValue(x, c).Err? ==> forall v :: !Minus(c, x, v)
  {
    hide NumbersEqual, Difference;
    match (c, x) {
      case (SS(a), SS(b)) =>
        forall e ensures e in Difference(SAME_BYTES, a, b) <==> e in a && e !in b {
          DifferenceMembers(SAME_BYTES, a, b, e);
          assert e in b <==> exists i :: 0 <= i < |b| && SAME_BYTES(e, b[i]);
        }
      case (NS(a), NS(b)) =>
        forall e ensures e in Difference(SAME_NUMBER, a, b) <==> e in a && !Known((m, n) => NumbersEqual(n, m), b, e) {
          DifferenceMembers(SAME_NUMBER, a, b, e);
          assert forall i :: 0 <= i < |b| ==> SAME_NUMBER(e, b[i]) == NumbersEqual(e, b[i]);
        }
      case (BS(a), BS(b)) =>
        forall e ensures e in Difference(SAME_BYTES, a, b) <==> e in a && e !in b {
          DifferenceMembers(SAME_BYTES, a, b, e);
          assert e in b <==> exists i :: 0 <= i < |b| && SAME_BYTES(e, b[i]);
        }
      case _ =>
    }
  }

  /** d is the item after DELETE of the elements of x at p: nothing happens where nothing is, a set that is emptied is
      removed, and any other set keeps exactly its other elements. */
  ghost predicate Deleted(base: Item, p: Path, x: AV, d: Item) {
    match Get(M(base), p)
    case None => d == base
    case Some(c) =>
      exists v :: Minus(c, x, v) &&
        if v in {SS([]), NS([]), BS([])} then Without(base, p, d)
        else Get(M(d), p) == Some(v) && forall q: Path :: !Overlap(p, q) ==> Get(M(d), q) == Get(M(base), q)
  }

  /** Something at p from which x cannot be deleted. */
  ghost predicate CannotDelete(base: Item, p: Path, x: AV) {
    Get(M(base), p).Some? && forall v :: !Minus(Get(M(base), p).value, x, v)
  }

  lemma ResolvedDrops(base: Item, p: Path)
    requires Get(M(base), p).Some?
    ensures !CannotDrop(base, p)
  {
    assert p == Parent(p) + [Last(p)];
    GetConcat(M(base), Parent(p), [Last(p)]);
    OneStep(Get(M(base), Parent(p)).value, Last(p));
  }

  lemma DeletedIs(base: Item, p: Path, o: Operand, env: Env, x: AV)
    requires Stands(o, base, env, x)
    ensures ApplyAction(Delete(p, o), base, env).Ok? <==> !CannotDelete(base, p, x)
    ensures ApplyAction(Delete(p, o), base, env).Ok? ==>
              Deleted(base, p, x, ApplyAction(Delete(p, o), base, env).value)
  {
    hide Get, Put, RemovePath, OperandValue, DeletedValue, Minus, Stands, Without, CannotDrop, Overlap;
    StandsIff(o, base, env, x);
    var cur := Get(M(base), p);
    if cur.Some? {
      DeletedIsMinus(cur.value, x);
      if DeletedValue(x, cur.value).Ok? {
        var v := DeletedValue(x, cur.value).value;
        RemovedIs(base, p);
        ResolvedDrops(base, p);
        PutOfGet(M(base), p);
        PutFails(M(base), p, cur.value, v);
        GetOfPut(M(base), p, v);
        forall q: Path | !Overlap(p, q) ensures Get(Put(M(base), p, v).value, q) == Get(M(base), q) {
          GetFrame(M(base), p, v, q);
        }
      }
    }
  }

  /** DELETE of one path. */
  lemma DeleteDecided(schema: Schema, s: State, w: Write, t: Target, r: Outcome, s': State, p: Path, o: Operand)
    returns (d: Item)
    requires w.body.UpdateOf? && Acceptable(schema, w, t) && SingleStep(schema, s, w, r, s')
    requires !ConditionFails(w, s.rows, t) && ConditionTrue(w, s.rows, t) && w.body.actions == [Delete(p, o)]
    ensures var base := RowOrKey(s.rows, t, w.body.key);
            && ((forall x :: !Stands(o, base, w.env, x)) ==> r == Rejected)
            && (forall x :: Stands(o, base, w.env, x) ==>
                  if CannotDelete(base, p, x) then r == Rejected
                  else
                    && Deleted(base, p, x, d)
                    && r == (if ValidItem(d) && ItemSize(d) <= 409600 then Committed else Rejected)
                    && (r == Committed ==> s'.rows == s.rows[t := d]))
  {
    hide SingleStep, Acceptable, ConditionFails, ConditionTrue, ItemSize, ValidItem, ByReference;
    hide Deleted, CannotDelete, Stands, OperandValue, RemovePath, DeletedValue;
    var base, a := RowOrKey(s.rows, t, w.body.key), Delete(p, o);
    OneAction(base, a, w.env);
    UpdateByResult(schema, s, w, t, r, s');
    d := if ApplyAction(a, base, w.env).Ok? then ApplyAction(a, base, w.env).value else base;
    if OperandValue(o, base, w.env).Ok? {
      var y := OperandValue(o, base, w.env).value;
      StandsIff(o, base, w.env, y);
      DeletedIs(base, p, o, w.env, y);
    }
    forall x | Stands(o, base, w.env, x) ensures OperandValue(o, base, w.env) == Ok(x) {
      StandsIff(o, base, w.env, x);
    }
  }
}
