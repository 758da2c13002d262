/** Whole runs of PutItem, UpdateItem, DeleteItem and TransactWriteItems, one after another as the single
    connection serialises them (ops_item.go, ops_transact.go, store.go). */
module Runs {
  import opened Wrappers
  import opened Values
  import opened Store
  import opened Targets
  import opened Transactions

  /** One write outside a transaction. */
  ghost predicate SingleStep(schema: Schema, s: State, w: Write, r: Outcome, s': State) {
    match ParseWrite(schema, w)
    case Err => r == Rejected && s' == s
    case Ok(op) =>
      if w.body.PutOf? && Becomes(op, s.rows).Err? then r == Rejected && s' == s
      else
        match Checked(op, s.rows)
        case Err => r == Rejected && s' == s
        case Ok(false) => r == CheckFailed && s' == s
        case Ok(true) =>
          match Becomes(op, s.rows)
          case Err => Refused(op, Found(s.rows, op.target), r, Rejected) && s' == s
          case Ok(x) => r == Committed && s' == State(Stored(s.rows, op.target, x), s.tokens)
  }

  datatype Event =
    | Single(write: Write)
    | Transact(req: Request, now: int, done: int)

  ghost predicate Step(schema: Schema, s: State, e: Event, r: Outcome, s': State) {
    match e
    case Single(w) => SingleStep(schema, s, w, r, s')
    case Transact(req, now, done) => TransactStep(schema, s, req, now, done, r, s')
  }

  /** A run: event i takes states[i] to states[i + 1] with outcome outcomes[i]. */
  ghost predicate Run(schema: Schema, events: seq<Event>, outcomes: seq<Outcome>, states: seq<State>) {
    |outcomes| == |events| && |states| == |events| + 1 &&
    forall i :: 0 <= i < |events| ==> Step(schema, states[i], events[i], outcomes[i], states[i + 1])
  }

  /** The clock does not run backwards from one transaction to a later one. */
  predicate Clock(events: seq<Event>) {
    forall i, j :: 0 <= i < j < |events| && events[i].Transact? && events[j].Transact? ==>
      events[i].now <= events[j].now
  }

  // ---- the store invariant ----

  lemma {:induction false} ParsedFrom(schema: Schema, ws: seq<Write>, op: Op)
    requires ParseWrites(schema, ws).Ok? && op in ParseWrites(schema, ws).value
    ensures exists w :: ParseWrite(schema, w) == Ok(op)
  {
    hide ParseWrite;
    var last := ws[|ws| - 1];
    if ParseWrite(schema, last) != Ok(op) {
      ParsedFrom(schema, ws[..|ws| - 1], op);
    }
  }

  /** The row an operation writes is sound if the row it found is. */
  lemma WrittenRowSound(schema: Schema, w: Write, op: Op, rows: Contents)
    requires ParseWrite(schema, w) == Ok(op) && StoreSound(schema, rows)
    requires Becomes(op, rows).Ok? && Becomes(op, rows).value.Some?
    ensures op.target.table in schema
    ensures RowSound(schema[op.target.table], op.target.key, Becomes(op, rows).value.value)
  {
    hide Effect, RowSound;
    assert op.target.table == w.table;
    EffectSound(schema, w, op, Found(rows, op.target));
  }

  lemma SingleKeepsSound(schema: Schema, s: State, w: Write, r: Outcome, s': State)
    requires StoreSound(schema, s.rows) && SingleStep(schema, s, w, r, s')
    ensures StoreSound(schema, s'.rows)
  {
    hide ParseWrite, Checked, Becomes, RowSound;
    if s' != s {
      var op := ParseWrite(schema, w).value;
      var x := Becomes(op, s.rows).value;
      if x.Some? {
        WrittenRowSound(schema, w, op, s.rows);
      }
    }
  }

  lemma AtOnceKeepsSound(schema: Schema, ws: seq<Write>, pre: Contents, post: Contents)
    requires ParseWrites(schema, ws).Ok? && StoreSound(schema, pre)
    requires AllAtOnce(ParseWrites(schema, ws).value, pre, post)
    ensures StoreSound(schema, post)
  {
    hide ParseWrite, Becomes, RowSound;
    var ops := ParseWrites(schema, ws).value;
    forall t | t in post
      ensures t.table in schema && RowSound(schema[t.table], t.key, post[t])
    {
      if IsTarget(ops, t) {
        var i :| 0 <= i < |ops| && ops[i].target == t;
        assert ops[i] in ops;
        ParsedFrom(schema, ws, ops[i]);
        var w :| ParseWrite(schema, w) == Ok(ops[i]);
        assert Becomes(ops[i], pre) == Ok(Found(post, t));
        WrittenRowSound(schema, w, ops[i], pre);
      } else {
        assert Found(post, t) == Found(pre, t);
      }
    }
  }

  lemma StepKeepsSound(schema: Schema, s: State, e: Event, r: Outcome, s': State)
    requires StoreSound(schema, s.rows) && Step(schema, s, e, r, s')
    ensures StoreSound(schema, s'.rows)
  {
    hide StoreSound, SingleStep, Verdict, AllAtOnce, ParseWrites;
    match e {
      case Single(w) => SingleKeepsSound(schema, s, w, r, s');
      case Transact(req, now, done) =>
        if s'.rows != s.rows {
          AtOnceKeepsSound(schema, req.writes, s.rows, s'.rows);
        }
    }
  }

  /** Every reachable row sits under the key of its item, and its item is valid and small enough. */
  lemma {:induction false} RunSound(schema: Schema, events: seq<Event>, outcomes: seq<Outcome>,
                                    states: seq<State>, n: nat)
    requires Run(schema, events, outcomes, states) && n <= |events|
    requires StoreSound(schema, states[0].rows)
    ensures StoreSound(schema, states[n].rows)
  {
    hide StoreSound, Step;
    if n > 0 {
      RunSound(schema, events, outcomes, states, n - 1);
      StepKeepsSound(schema, states[n - 1], events[n - 1], outcomes[n - 1], states[n]);
    }
  }

  // ---- idempotency ----

  /** A record inside its window survives any step. */
  lemma StepKeepsRecord(schema: Schema, s: State, e: Event, r: Outcome, s': State, t: string)
    requires Step(schema, s, e, r, s') && t in s.tokens
    requires e.Transact? ==> e.now <= s.tokens[t].createdAt + TOKEN_TTL
    ensures t in s'.tokens && s'.tokens[t] == s.tokens[t]
  {
    hide ParseWrite, Checked, Becomes, Accepted, Verdict, AllAtOnce;
  }

  lemma {:induction false} RunKeepsRecord(schema: Schema, events: seq<Event>, outcomes: seq<Outcome>,
                                          states: seq<State>, i: nat, k: nat, t: string)
    requires Run(schema, events, outcomes, states) && i <= k <= |events| && t in states[i].tokens
    requires forall j :: i <= j < k && events[j].Transact? ==>
               events[j].now <= states[i].tokens[t].createdAt + TOKEN_TTL
    ensures t in states[k].tokens && states[k].tokens[t] == states[i].tokens[t]
    decreases k
  {
    hide Step;
    if i < k {
      RunKeepsRecord(schema, events, outcomes, states, i, k - 1, t);
      StepKeepsRecord(schema, states[k - 1], events[k - 1], outcomes[k - 1], states[k], t);
    }
  }

  /** A request that finds its token recorded and in its window executes nothing. */
  lemma RepeatExecutesNothing(schema: Schema, s: State, e: Event, r: Outcome, s': State)
    requires e.Transact? && Step(schema, s, e, r, s') && Accepted(schema, e.req).Ok?
    requires e.req.token.Some? && e.req.token.value in s.tokens
    requires e.now <= s.tokens[e.req.token.value].createdAt + TOKEN_TTL
    ensures s'.rows == s.rows
    ensures r == if s.tokens[e.req.token.value].request == e.req.fingerprint then Committed else Mismatch
  {
    hide ParseWrite, Accepted, Verdict, AllAtOnce;
  }

  lemma NotReplayed(tokens: Tokens, req: Request, now: int)
    requires req.token.Some? && req.token.value in tokens ==> tokens[req.token.value].createdAt + 600 < now
    ensures !Replayed(Live(tokens, now), req)
  {
  }

  /** After a transaction committed with a token, every acceptable request with that token that arrives
      at most ten minutes after its completion leaves the rows and the record alone, whatever happened
      in between; it succeeds if it is the same request and is refused otherwise. */
  lemma IdempotentInWindow(schema: Schema, events: seq<Event>, outcomes: seq<Outcome>, states: seq<State>,
                           i: nat, k: nat)
    requires Run(schema, events, outcomes, states) && Clock(events) && i < k < |events|
    requires events[i].Transact? && events[i].req.token.Some? && outcomes[i] == Committed
    requires var t := events[i].req.token.value;
             t in states[i].tokens ==> states[i].tokens[t].createdAt + 600 < events[i].now
    requires events[k].Transact? && events[k].req.token == events[i].req.token
    requires Accepted(schema, events[k].req).Ok? && events[k].now <= events[i].done + 600
    ensures outcomes[k] == if events[k].req.fingerprint == events[i].req.fingerprint then Committed else Mismatch
    ensures states[k + 1].rows == states[k].rows
    ensures events[i].req.token.value in states[k + 1].tokens
    ensures states[k + 1].tokens[events[i].req.token.value] == Record(events[i].req.fingerprint, events[i].done)
  {
    hide Accepted, Verdict, AllAtOnce, Live;
    var t := events[i].req.token.value;
    NotReplayed(states[i].tokens, events[i].req, events[i].now);
    assert Step(schema, states[i], events[i], outcomes[i], states[i + 1]);
    assert t in states[i + 1].tokens && states[i + 1].tokens[t] == Record(events[i].req.fingerprint, events[i].done);
    assert Step(schema, states[k], events[k], outcomes[k], states[k + 1]);
    hide Step;
    RunKeepsRecord(schema, events, outcomes, states, i + 1, k, t);
    StepKeepsRecord(schema, states[k], events[k], outcomes[k], states[k + 1], t);
    RepeatExecutesNothing(schema, states[k], events[k], outcomes[k], states[k + 1]);
  }

  // ---- single writes and transactions of one ----

  lemma ParseOne(schema: Schema, w: Write)
    ensures ParseWrites(schema, [w]) == match ParseWrite(schema, w) case Ok(op) => Ok([op]) case Err => Err
  {
    hide ParseWrite;
    assert [w][..0] == [] && [w][0] == w && ParseWrites(schema, []) == Ok([]);
    var op := ParseWrite(schema, w);
    assert op.Ok? ==> [] + [op.value] == [op.value];
  }

  lemma SingleOutcome(schema: Schema, s: State, w: Write, op: Op, r: Outcome, x: State)
    requires ParseWrite(schema, w) == Ok(op) && SingleStep(schema, s, w, r, x)
    ensures r.Committed? <==> Checked(op, s.rows) == Ok(true) && Becomes(op, s.rows).Ok?
    ensures x.rows == if r.Committed? then Stored(s.rows, op.target, Becomes(op, s.rows).value) else s.rows
  {
    hide ParseWrite, Checked, Becomes, Stored;
  }

  lemma CommitsOne(op: Op, rows: Contents)
    requires Becomes(op, rows).Ok? ==> Total([op], rows) <= MAX_TOTAL_SIZE
    ensures Commits([op], rows) <==> Checked(op, rows) == Ok(true) && Becomes(op, rows).Ok?
  {
    hide Checked, Becomes, Total;
    assert op in [op];
  }

  /** A transaction of one write without a token does what the single write does. */
  lemma OneWriteTransaction(schema: Schema, s: State, w: Write, req: Request, now: int, done: int,
                            r: Outcome, x: State, q: Outcome, y: State)
    requires StoreSound(schema, s.rows) && !w.body.CheckOf?
    requires req.writes == [w] && req.token == None
    requires SingleStep(schema, s, w, r, x) && TransactStep(schema, s, req, now, done, q, y)
    ensures r.Committed? <==> q.Committed?
    ensures x.rows == y.rows
  {
    hide ParseWrite, ParseWrites, Verdict, Becomes, Checked, AllAtOnce, StoreSound, Stored, Live;
    ParseOne(schema, w);
    if ParseWrite(schema, w).Ok? {
      var op := ParseWrite(schema, w).value;
      SingleOutcome(schema, s, w, op, r, x);
      hide SingleStep;
      SmallTotal(schema, w, op, s.rows);
      CommitsOne(op, s.rows);
      CommittedIff([op], s.rows, q);
      if q.Committed? {
        OneOp(op, s.rows);
        AtOnceUnique([op], s.rows, x.rows, y.rows);
      }
    }
  }

  lemma OneOp(op: Op, rows: Contents)
    requires Becomes(op, rows).Ok?
    ensures AllAtOnce([op], rows, Stored(rows, op.target, Becomes(op, rows).value))
  {
    hide Becomes;
    assert [op][0] == op;
  }

  /** One item stays below the limit for all. */
  lemma SmallTotal(schema: Schema, w: Write, op: Op, rows: Contents)
    requires StoreSound(schema, rows) && ParseWrite(schema, w) == Ok(op)
    ensures Becomes(op, rows).Ok? ==> Total([op], rows) <= MAX_TOTAL_SIZE
  {
    hide ParseWrite, NewItem, ItemSize;
    assert [op][..0] == [];
    assert Total([], rows) == 0;
    if op.target in rows {
      assert RowSound(schema[op.target.table], op.target.key, rows[op.target]);
    }
  }
}
