/** What PutItem, DeleteItem and UpdateItem do to the rows, told from the request and the stored item
    (ops_item.go): which requests are accepted, when they commit, and what is stored then. */
module Outcomes {
  import opened Wrappers
  import opened Values
  import opened Paths
  import opened Expressions
  import opened Conditions
  import opened Limits
  import opened Tables
  import opened Updates
  import opened Store
  import opened Transactions
  import opened Runs

  // ---- which item a request names ----

  /** The request is valid and names the row at t. */
  ghost predicate Acceptable(schema: Schema, w: Write, t: Target) {
    w.table in schema && t.table == w.table && ValidItem(w.env) &&
    var table := schema[w.table];
    match w.body
    case PutOf(item) => ValidItem(item) && HasKey(table, item, t.key)
    case DeleteOf(key) => IsKey(table, key, t.key)
    case CheckOf(key) => IsKey(table, key, t.key) && w.cond.Some?
    case UpdateOf(key, actions) =>
      && IsKey(table, key, t.key)
      && actions != []
      && (forall a :: a in actions ==> a.path[0].name !in {table.hashKey, table.rangeKey})
      && (forall i, j :: 0 <= i < j < |actions| ==>
            !(actions[i].path <= actions[j].path) && !(actions[j].path <= actions[i].path))
  }

  lemma ParsedUpdateIff(actions: seq<Action>)
    ensures ParsedUpdate(actions) <==>
            actions != [] && forall i, j :: 0 <= i < j < |actions| ==>
              !(actions[i].path <= actions[j].path) && !(actions[j].path <= actions[i].path)
  {
    hide Overlap;
    forall i, j | 0 <= i < j < |actions|
      ensures Overlap(actions[i].path, actions[j].path) <==>
              actions[i].path <= actions[j].path || actions[j].path <= actions[i].path
    {
      OverlapIff(actions[i].path, actions[j].path);
    }
  }

  /** Exactly the acceptable requests get past validation, addressed to the row they name. */
  lemma AcceptedIffAcceptable(schema: Schema, w: Write, t: Target)
    ensures ParseWrite(schema, w) == Ok(Op(t, w.body, w.cond, w.env)) <==> Acceptable(schema, w, t)
    ensures ParseWrite(schema, w).Ok? ==> Acceptable(schema, w, ParseWrite(schema, w).value.target)
  {
    hide ItemKey, TableKey, HasKey, IsKey, ParsedUpdate, ValidItem;
    if w.body.UpdateOf? {
      ParsedUpdateIff(w.body.actions);
    }
    if w.table in schema {
      var table := schema[w.table];
      match w.body {
        case PutOf(item) =>
          ItemKeyIff(table, item, t.key);
          if ItemKey(table, item).Ok? {
            ItemKeyIff(table, item, ItemKey(table, item).value);
          }
        case _ =>
          TableKeyIff(table, w.body.key, t.key);
          if TableKey(table, w.body.key).Ok? {
            TableKeyIff(table, w.body.key, TableKey(table, w.body.key).value);
          }
      }
    }
  }

  // ---- its condition ----

  /** What a condition is evaluated on: the stored item, or nothing. */
  function Subject(rows: Contents, t: Target): Item {
    if t in rows then rows[t] else map[]
  }

  ghost predicate ConditionFails(w: Write, rows: Contents, t: Target) {
    w.cond.Some? && Fails(w.cond.value, Subject(rows, t), w.env)
  }

  ghost predicate ConditionTrue(w: Write, rows: Contents, t: Target) {
    w.cond.None? || Truth(w.cond.value, Subject(rows, t), w.env)
  }

  lemma CheckedMeans(w: Write, rows: Contents, t: Target)
    ensures Checked(Op(t, w.body, w.cond, w.env), rows) ==
            Decided(ConditionFails(w, rows, t), ConditionTrue(w, rows, t))
  {
    hide EvalCond, Fails, Truth;
    if w.cond.Some? {
      EvaluationMeans(w.cond.value, Subject(rows, t), w.env);
    }
  }

  // ---- single writes ----

  /** A request that names no row is rejected. */
  lemma UnacceptableRejected(schema: Schema, s: State, w: Write, r: Outcome, s': State)
    requires SingleStep(schema, s, w, r, s') && forall t :: !Acceptable(schema, w, t)
    ensures r == Rejected && s' == s
  {
    hide Acceptable, Checked, Becomes;
    if ParseWrite(schema, w).Ok? {
      AcceptedIffAcceptable(schema, w, ParseWrite(schema, w).value.target);
    }
  }

  /** PutItem: rejected if the item is larger than 400 KiB or the condition cannot be evaluated, refused if the
      condition is false, and otherwise exactly the item is stored in its row. */
  lemma PutOutcome(schema: Schema, s: State, w: Write, t: Target, r: Outcome, s': State)
    requires SingleStep(schema, s, w, r, s') && Acceptable(schema, w, t) && w.body.PutOf?
    ensures r == if ItemSize(w.body.item) > 409600 || ConditionFails(w, s.rows, t) then Rejected
                 else if ConditionTrue(w, s.rows, t) then Committed else CheckFailed
    ensures s' == if r.Committed? then State(s.rows[t := w.body.item], s.tokens) else s
  {
    hide ParseWrite, Acceptable, Checked, ConditionFails, ConditionTrue, ItemSize;
    AcceptedIffAcceptable(schema, w, t);
    CheckedMeans(w, s.rows, t);
  }

  /** DeleteItem: the row is gone afterwards, whether it was there or not. */
  lemma DeleteOutcome(schema: Schema, s: State, w: Write, t: Target, r: Outcome, s': State)
    requires SingleStep(schema, s, w, r, s') && Acceptable(schema, w, t) && w.body.DeleteOf?
    ensures r == if ConditionFails(w, s.rows, t) then Rejected
                 else if ConditionTrue(w, s.rows, t) then Committed else CheckFailed
    ensures s' == if r.Committed? then State(s.rows - {t}, s.tokens) else s
  {
    hide ParseWrite, Acceptable, Checked, ConditionFails, ConditionTrue;
    AcceptedIffAcceptable(schema, w, t);
    CheckedMeans(w, s.rows, t);
  }

  /** UpdateItem: the condition decides first; then the new item is stored in its row, valid and within 400 KiB,
      and no other row changes. */
  lemma UpdateOutcome(schema: Schema, s: State, w: Write, t: Target, r: Outcome, s': State)
    requires SingleStep(schema, s, w, r, s') && Acceptable(schema, w, t) && w.body.UpdateOf?
    ensures ConditionFails(w, s.rows, t) ==> r == Rejected
    ensures r == CheckFailed <==> !ConditionFails(w, s.rows, t) && !ConditionTrue(w, s.rows, t)
    ensures r in {Rejected, CheckFailed, Committed, NeverReturns}
    ensures !r.Committed? ==> s' == s
    ensures r.Committed? ==> t in s'.rows && ValidItem(s'.rows[t]) && ItemSize(s'.rows[t]) <= 409600
    ensures r.Committed? ==> s' == State(s.rows[t := s'.rows[t]], s.tokens)
  {
    hide ParseWrite, Acceptable, Checked, ConditionFails, ConditionTrue, ItemSize, Base, ValidItem, Hangs, MayFailFirst;
    AcceptedIffAcceptable(schema, w, t);
    CheckedMeans(w, s.rows, t);
    if r.Committed? {
      assert s'.rows == s.rows[t := s'.rows[t]];
    }
  }

  // ---- guards ----

  /** attribute_exists or attribute_not_exists of the partition key attribute. */
  function Guard(table: Table, exists_: bool): Cond {
    Func(if exists_ then AttributeExists else AttributeNotExists, [PathOf([Name(table.hashKey)])])
  }

  lemma GuardMeans(schema: Schema, w: Write, rows: Contents, t: Target, present: bool)
    requires StoreSound(schema, rows) && t.table in schema && w.cond == Some(Guard(schema[t.table], present))
    ensures !ConditionFails(w, rows, t)
    ensures ConditionTrue(w, rows, t) <==> (t in rows <==> present)
  {
    hide TypedKey, ItemSize, ValidItem;
    var name := schema[t.table].hashKey;
    var item := Subject(rows, t);
    assert Get(M(item), [Name(name)]) == Child(M(item), Name(name)) by {
      OneStep(M(item), Name(name));
    }
    if t in rows {
      assert RowSound(schema[t.table], t.key, rows[t]);
      HashKeyThere(schema[t.table], rows[t]);
    }
  }

  lemma OneStep(v: AV, e: Elem)
    ensures Get(v, [e]) == Child(v, e)
  {
    assert [e][1..] == [];
    assert Child(v, e).Some? ==> Get(Child(v, e).value, []) == Child(v, e);
  }

  lemma HashKeyThere(table: Table, item: Item)
    requires ItemKey(table, item).Ok?
    ensures table.hashKey in item
  {
  }

  /** A write guarded by attribute_not_exists of the partition key passes exactly if its row is not there, and one
      guarded by attribute_exists exactly if it is. */
  lemma GuardDecides(schema: Schema, s: State, w: Write, t: Target, present: bool, r: Outcome, s': State)
    requires StoreSound(schema, s.rows) && SingleStep(schema, s, w, r, s') && Acceptable(schema, w, t)
    requires w.cond == Some(Guard(schema[t.table], present)) && !w.body.CheckOf?
    requires w.body.PutOf? ==> ItemSize(w.body.item) <= 409600
    ensures r == CheckFailed <==> (t in s.rows <==> !present)
    ensures r == CheckFailed ==> s' == s
    ensures w.body.PutOf? || w.body.DeleteOf? ==> (r == Committed <==> (t in s.rows <==> present))
    ensures w.body.PutOf? && r == Committed ==> s'.rows == s.rows[t := w.body.item]
    ensures w.body.DeleteOf? && r == Committed ==> s'.rows == s.rows - {t}
  {
    hide SingleStep, StoreSound, ConditionFails, ConditionTrue, ItemSize, Guard, HasKey, IsKey, ValidItem;
    GuardMeans(schema, w, s.rows, t, present);
    match w.body {
      case PutOf(_) => PutOutcome(schema, s, w, t, r, s');
      case DeleteOf(_) => DeleteOutcome(schema, s, w, t, r, s');
      case UpdateOf(_, _) => UpdateOutcome(schema, s, w, t, r, s');
    }
  }
}
