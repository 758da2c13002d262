/** The writing operations on the store, carried out in the order of the code (store.go, ops_item.go,
    ops_transact.go). */
module DatabaseEngine {
  import opened Wrappers
  import opened Values
  import opened Expressions
  import opened Updates
  import opened UpdatesByReference
  import opened Store
  import opened Targets
  import opened Transactions
  import opened Runs
  import Documents

  // ---- the two phases of a transaction ----

  /** The items the operations find. */
  predicate OldsOf(ops: seq<Op>, rows: Contents, olds: seq<Option<Item>>) {
    |olds| == |ops| && forall i :: 0 <= i < |ops| ==> olds[i] == Found(rows, ops[i].target)
  }

  /** The outcome of the condition phase; Committed means that it goes on. */
  predicate ConditionPhase(ops: seq<Op>, rows: Contents, r: Outcome) {
    if exists op :: op in ops && Checked(op, rows).Err? then r == Rejected
    else if exists op :: op in ops && Checked(op, rows) == Ok(false) then
      r.Cancelled? && ConditionReasons(ops, rows, r.reasons)
    else r == Committed
  }

  ghost predicate ApplyPhase(ops: seq<Op>, rows: Contents, r: Outcome) {
    if exists i :: 0 <= i < |ops| && StopsAt(ops, rows, i) then Stopped(ops, rows, r) else r == Committed
  }

  lemma ConditionsDecide(ops: seq<Op>, rows: Contents, r: Outcome)
    requires ConditionPhase(ops, rows, r) && !r.Committed?
    ensures Verdict(ops, rows, r)
  {
    hide Checked, StopsAt, ConditionReasons;
  }

  lemma ApplyDecides(ops: seq<Op>, rows: Contents, r: Outcome)
    requires ConditionPhase(ops, rows, Committed) && ApplyPhase(ops, rows, r)
    ensures Verdict(ops, rows, r)
  {
    hide Checked, StopsAt, Stopped;
  }

  lemma NothingApplied(rows: Contents)
    ensures AllAtOnce([], rows, rows) && Total([], rows) == 0
  {
  }

  /** The pre-state and the rows written so far tell what operation i does. */
  lemma ApplyStep(ops: seq<Op>, pre: Contents, mid: Contents, i: nat)
    requires NoneTwice(ops) && i < |ops| && AllAtOnce(ops[..i], pre, mid)
    ensures Found(mid, ops[i].target) == Found(pre, ops[i].target)
    ensures Total(ops[..i + 1], pre) == Total(ops[..i], pre) + SizeFor(ops[i], Found(pre, ops[i].target))
    ensures StopsAt(ops, pre, i) <==>
            Effect(ops[i], Found(pre, ops[i].target)).Err? || Total(ops[..i + 1], pre) > MAX_TOTAL_SIZE
    ensures Effect(ops[i], Found(pre, ops[i].target)).Ok? ==>
            AllAtOnce(ops[..i + 1], pre, Stored(mid, ops[i].target, Effect(ops[i], Found(pre, ops[i].target)).value))
  {
    hide SizeFor, Effect, Found;
    assert ops[..i + 1][..i] == ops[..i] && ops[..i + 1] == ops[..i] + [ops[i]];
    forall j | 0 <= j < i
      ensures ops[..i][j].target != ops[i].target
    {
      assert ops[..i][j] == ops[j];
    }
    if Becomes(ops[i], pre).Ok? {
      AtOnceStep(ops[..i], ops[i], pre, mid);
    }
  }

  /** The item an operation writes: the one that was sent, or the document updated in place. */
  method BuildItem(op: Op, was: Option<Item>) returns (r: Result<Option<Item>>, hangs: bool)
    ensures r == NewItem(op, was) && hangs == Hangs(op, was)
  {
    hide ByReference, ValidItem;
    hangs := false;
    match op.body {
      case PutOf(item) => r := Ok(Some(item));
      case UpdateOf(key, actions) =>
        var next := Documents.UpdateItem(if was.Some? then was.value else key, actions, op.env);
        r := if next.Updated? && ValidItem(next.item) then Ok(Some(next.item)) else Err;
        hangs := next.Endless?;
      case _ => r := Ok(None);
    }
  }

  /** What an operation makes of the item it finds, and what it adds to the size of the transaction. */
  method Measure(op: Op, was: Option<Item>) returns (size: nat, effect: Result<Option<Item>>, hangs: bool)
    ensures size == SizeFor(op, was) && effect == Effect(op, was) && hangs == Hangs(op, was)
  {
    hide NewItem, ItemSize, Hangs;
    size := 0;
    effect, hangs := BuildItem(op, was);
    if effect.Err? {
      return;
    }
    if effect.value.Some? {
      size := SizeOfItem(effect.value.value);
      if size > MAX_ITEM_SIZE {
        effect := Err;
      }
      return;
    }
    if was.Some? {
      size := SizeOfItem(was.value);
    }
    if !op.body.DeleteOf? {
      effect := Ok(was);
    }
  }

  lemma HangsIsErr(op: Op, was: Option<Item>)
    requires Hangs(op, was)
    ensures NewItem(op, was).Err?
  {
    hide ByReference, ValidItem;
  }

  class Database {
    const schema: Schema
    var rows: Contents
    var tokens: Tokens

    ghost function Now(): State
      reads this
    {
      State(rows, tokens)
    }

    constructor (schema: Schema)
      requires ValidSchema(schema)
      ensures this.schema == schema && Now() == State(map[], map[])
    {
      this.schema, rows, tokens := schema, map[], map[];
    }

    // ---- single writes ----

    /** opPutItem. */
    method PutItem(table: string, item: Item, cond: Option<Cond>, env: Env) returns (r: Outcome)
      modifies `rows
      ensures SingleStep(schema, old(Now()), Write(table, PutOf(item), cond, env), r, Now())
    {
      hide ParseWrite, Condition, ItemSize;
      var op := ParseWrite(schema, Write(table, PutOf(item), cond, env));
      if op.Err? {
        return Rejected;
      }
      ParsedParts(schema, Write(table, PutOf(item), cond, env));
      var size := SizeOfItem(item);
      if size > MAX_ITEM_SIZE {
        return Rejected;
      }
      r := CheckOne(op.value);
      if r.Committed? {
        rows := rows[op.value.target := item];
      }
    }

    /** opUpdateItem. */
    method UpdateItem(table: string, key: Item, actions: seq<Action>, cond: Option<Cond>, env: Env) returns (r: Outcome)
      modifies `rows
      ensures SingleStep(schema, old(Now()), Write(table, UpdateOf(key, actions), cond, env), r, Now())
    {
      hide ParseWrite, Condition, ItemSize, ByReference, ValidItem, MayFailFirst, Hangs;
      var op := ParseWrite(schema, Write(table, UpdateOf(key, actions), cond, env));
      if op.Err? {
        return Rejected;
      }
      ParsedParts(schema, Write(table, UpdateOf(key, actions), cond, env));
      r := CheckOne(op.value);
      if !r.Committed? {
        return;
      }
      var next, hangs := BuildItem(op.value, Found(rows, op.value.target));
      if next.Err? {
        return if hangs then NeverReturns else Rejected;
      }
      if hangs {
        HangsIsErr(op.value, Found(rows, op.value.target));
      }
      var size := SizeOfItem(next.value.value);
      if size > MAX_ITEM_SIZE {
        return Rejected;
      }
      rows := rows[op.value.target := next.value.value];
    }

    /** opDeleteItem. */
    method DeleteItem(table: string, key: Item, cond: Option<Cond>, env: Env) returns (r: Outcome)
      modifies `rows
      ensures SingleStep(schema, old(Now()), Write(table, DeleteOf(key), cond, env), r, Now())
    {
      hide ParseWrite, Condition;
      var op := ParseWrite(schema, Write(table, DeleteOf(key), cond, env));
      if op.Err? {
        return Rejected;
      }
      ParsedParts(schema, Write(table, DeleteOf(key), cond, env));
      r := CheckOne(op.value);
      if r.Committed? {
        rows := rows - {op.value.target};
      }
    }

    /** Read the row and evaluate the condition on it. */
    method CheckOne(op: Op) returns (r: Outcome)
      ensures r == match Checked(op, rows)
                   case Err => Rejected
                   case Ok(ok) => if ok then Committed else CheckFailed
    {
      var ok := Condition(op, Found(rows, op.target));
      return if ok.Err? then Rejected else if ok.value then Committed else CheckFailed;
    }

    // ---- transactions ----

    /** opTransactWriteItems at time now, stamped with time done. A body that does not succeed is rolled
        back. */
    method TransactWriteItems(req: Request, now: int, done: int) returns (r: Outcome)
      requires ValidSchema(schema)
      modifies this
      ensures TransactStep(schema, old(Now()), req, now, done, r, Now())
    {
      hide ParseWrites, NoneTwice, Verdict, AllAtOnce;
      if !(1 <= |req.writes| <= MAX_WRITES) {
        return Rejected;
      }
      if req.token.Some? && !(1 <= |req.token.value| <= MAX_TOKEN_LENGTH) {
        return Rejected;
      }
      var ops := ParseTargets(schema, req.writes);
      if ops.Err? {
        return Rejected;
      }
      var savedRows, savedTokens := rows, tokens;
      r := Body(ops.value, req, now, done);
      if !r.Committed? {
        rows, tokens := savedRows, savedTokens;
      }
    }

    /** The function that runs inside the SQL transaction. */
    method Body(ops: seq<Op>, req: Request, now: int, done: int) returns (r: Outcome)
      requires NoneTwice(ops)
      modifies this
      ensures var live := Live(old(tokens), now);
              if Replayed(live, req) then
                (r == if live[req.token.value].request == req.fingerprint then Committed else Mismatch) &&
                rows == old(rows) && tokens == live
              else
                Verdict(ops, old(rows), r) &&
                (r.Committed? ==> AllAtOnce(ops, old(rows), rows) && tokens == Stamped(live, req, done))
    {
      hide NoneTwice, Verdict, AllAtOnce;
      tokens := map t | t in tokens && !(tokens[t].createdAt < now - TOKEN_TTL) :: tokens[t];
      if req.token.Some? && req.token.value in tokens {
        return if tokens[req.token.value].request == req.fingerprint then Committed else Mismatch;
      }
      var olds;
      r, olds := CheckConditions(ops);
      if !r.Committed? {
        ConditionsDecide(ops, rows, r);
        return;
      }
      r := ApplyWrites(ops, olds);
      ApplyDecides(ops, old(rows), r);
      if r.Committed? && req.token.Some? {
        tokens := tokens[req.token.value := Record(req.fingerprint, done)];
      }
    }

    /** The condition phase: read every target and evaluate every condition, stopping at the first that
        cannot be evaluated. */
    method CheckConditions(ops: seq<Op>) returns (r: Outcome, olds: seq<Option<Item>>)
      ensures ConditionPhase(ops, rows, r)
      ensures r.Committed? ==> OldsOf(ops, rows, olds)
    {
      hide Condition;
      olds := [];
      var reasons: seq<Reason> := [];
      var failed := false;
      for i := 0 to |ops|
        invariant OldsOf(ops[..i], rows, olds) && ConditionReasons(ops[..i], rows, reasons)
        invariant forall j :: 0 <= j < i ==> Checked(ops[j], rows).Ok?
        invariant failed <==> exists j :: 0 <= j < i && Checked(ops[j], rows) == Ok(false)
      {
        var was := Found(rows, ops[i].target);
        olds := olds + [was];
        var ok := Condition(ops[i], was);
        assert Checked(ops[i], rows) == ok;
        if ok.Err? {
          return Rejected, olds;
        }
        reasons := reasons + [if ok.value then NoReason else ConditionFailed];
        failed := failed || !ok.value;
      }
      assert ops[..|ops|] == ops;
      r := if failed then Cancelled(reasons) else Committed;
    }

    /** The apply phase: one write after another, until one is invalid or the total is too large. */
    method ApplyWrites(ops: seq<Op>, olds: seq<Option<Item>>) returns (r: Outcome)
      requires NoneTwice(ops) && OldsOf(ops, rows, olds)
      modifies `rows
      ensures ApplyPhase(ops, old(rows), r)
      ensures r.Committed? ==> AllAtOnce(ops, old(rows), rows)
    {
      hide SizeFor, Effect, Total, StopsAt, AllAtOnce, NoneTwice, Found;
      var total := 0;
      NothingApplied(rows);
      for i := 0 to |ops|
        invariant AllAtOnce(ops[..i], old(rows), rows) && total == Total(ops[..i], old(rows))
        invariant forall j :: 0 <= j < i ==> !StopsAt(ops, old(rows), j)
      {
        ApplyStep(ops, old(rows), rows, i);
        var stop, hangs;
        stop, total, hangs := ApplyOne(ops[i], olds[i], total);
        if stop {
          return if hangs then NeverReturns else Cancelled(OnlyAt(|ops|, i));
        }
      }
      assert ops[..|ops|] == ops;
      return Committed;
    }

    /** One write; stop when it is invalid or the total is too large. */
    method ApplyOne(op: Op, was: Option<Item>, total: nat) returns (stop: bool, sum: nat, hangs: bool)
      requires was == Found(rows, op.target)
      modifies `rows
      ensures sum == total + SizeFor(op, was) && hangs == Hangs(op, was)
      ensures stop <==> Effect(op, was).Err? || sum > MAX_TOTAL_SIZE
      ensures !stop ==> rows == Stored(old(rows), op.target, Effect(op, was).value)
    {
      hide ItemSize, ByReference, ValidItem, Hangs;
      var size, effect;
      size, effect, hangs := Measure(op, was);
      sum := total + size;
      stop := effect.Err? || sum > MAX_TOTAL_SIZE;
      if stop {
        return;
      }
      match op.body {
        case CheckOf(_) =>
        case DeleteOf(_) => rows := rows - {op.target};
        case _ => rows := rows[op.target := effect.value.value];
      }
    }
  }
}
