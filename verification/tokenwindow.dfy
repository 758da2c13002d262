/** Request tokens over time (ops_transact.go): which are remembered after a step, and that a token is free again ten
    minutes after the transaction it came with. */
module TokenWindow {
  import opened Wrappers
  import opened Store
  import opened Transactions
  import opened Runs
  import opened Outcomes
  import opened TransactionOutcomes

  /** What a request without a live record leaves: it is decided on the rows, and if it commits, all its writes took
      effect at once, the old records are forgotten, and its token, if any, is stamped. */
  lemma FreshRequest(schema: Schema, s: State, req: Request, ts: seq<Target>, now: int, done: int,
                     r: Outcome, s': State)
    requires AcceptableRequest(schema, req, ts)
    requires req.token.Some? && req.token.value in s.tokens ==> s.tokens[req.token.value].createdAt + 600 < now
    requires TransactStep(schema, s, req, now, done, r, s')
    ensures Verdict(OpsOf(req.writes, ts), s.rows, r)
    ensures if r.Committed? then AllAtOnce(OpsOf(req.writes, ts), s.rows, s'.rows) else s' == s
    ensures r.Committed? ==>
              forall u :: u in s'.tokens <==>
                          req.token == Some(u) || (u in s.tokens && s.tokens[u].createdAt + 600 >= now)
    ensures r.Committed? ==>
              forall u :: u in s'.tokens ==>
                s'.tokens[u] == if req.token == Some(u) then Record(req.fingerprint, done) else s.tokens[u]
  {
    hide Acceptable, Verdict, AllAtOnce, OpsOf;
    AcceptedOps(schema, req, ts);
  }

  /** A request whose token has a live record executes nothing. It succeeds if it is the recorded request, and only
      old records are forgotten; otherwise it is refused. */
  lemma RepeatedRequest(schema: Schema, s: State, req: Request, ts: seq<Target>, now: int, done: int, r: Outcome,
                        s': State)
    requires AcceptableRequest(schema, req, ts)
    requires req.token.Some? && req.token.value in s.tokens && s.tokens[req.token.value].createdAt + 600 >= now
    requires TransactStep(schema, s, req, now, done, r, s')
    ensures s'.rows == s.rows
    ensures if s.tokens[req.token.value].request == req.fingerprint
            then r == Committed && forall u :: u in s'.tokens <==> u in s.tokens && s.tokens[u].createdAt + 600 >= now
            else r == Mismatch && s'.tokens == s.tokens
    ensures forall u :: u in s'.tokens ==> u in s.tokens && s'.tokens[u] == s.tokens[u]
  {
    hide Acceptable, Verdict, AllAtOnce, OpsOf;
    AcceptedOps(schema, req, ts);
  }

  /** Event j committed with token t and was recorded so. */
  ghost predicate RecordedBy(e: Event, r: Outcome, t: string, record: Record) {
    e.Transact? && r.Committed? && e.req.token == Some(t) && record == Record(e.req.fingerprint, e.done)
  }

  /** Every record was there from the start, or comes from a committed transaction with that token. */
  lemma {:induction false} RecordsStem(schema: Schema, events: seq<Event>, outcomes: seq<Outcome>, states: seq<State>,
                                       k: nat, t: string)
    requires Run(schema, events, outcomes, states) && k <= |events| && t in states[k].tokens
    ensures (t in states[0].tokens && states[k].tokens[t] == states[0].tokens[t]) ||
            exists j :: 0 <= j < k && RecordedBy(events[j], outcomes[j], t, states[k].tokens[t])
  {
    hide Step, RecordedBy;
    if k > 0 {
      var s, e, r, s' := states[k - 1], events[k - 1], outcomes[k - 1], states[k];
      StepRecords(schema, s, e, r, s', t);
      if t in s.tokens && s'.tokens[t] == s.tokens[t] {
        RecordsStem(schema, events, outcomes, states, k - 1, t);
      }
    }
  }

  lemma StepRecords(schema: Schema, s: State, e: Event, r: Outcome, s': State, t: string)
    requires Step(schema, s, e, r, s') && t in s'.tokens
    ensures (t in s.tokens && s'.tokens[t] == s.tokens[t]) || RecordedBy(e, r, t, s'.tokens[t])
  {
    hide Verdict, AllAtOnce, Accepted, Checked, Becomes, ParseWrite;
  }

  /** Over runs: if the records that the run started with, and all transactions so far that committed with a token,
      are more than ten minutes old, an acceptable request with that token is executed like any other, whatever it
      asks for; if it commits, the token is recorded anew. */
  lemma TokenExpires(schema: Schema, events: seq<Event>, outcomes: seq<Outcome>, states: seq<State>, k: nat,
                     ts: seq<Target>)
    requires Run(schema, events, outcomes, states) && k < |events| && events[k].Transact?
    requires events[k].req.token.Some? && AcceptableRequest(schema, events[k].req, ts)
    requires var t, now := events[k].req.token.value, events[k].now;
             && (t in states[0].tokens ==> states[0].tokens[t].createdAt + 600 < now)
             && (forall j :: 0 <= j < k && events[j].Transact? && outcomes[j].Committed? ==>
                   events[j].req.token == Some(t) ==> events[j].done + 600 < now)
    ensures Verdict(OpsOf(events[k].req.writes, ts), states[k].rows, outcomes[k])
    ensures outcomes[k].Committed? ==>
              && AllAtOnce(OpsOf(events[k].req.writes, ts), states[k].rows, states[k + 1].rows)
              && events[k].req.token.value in states[k + 1].tokens
              && states[k + 1].tokens[events[k].req.token.value] == Record(events[k].req.fingerprint, events[k].done)
  {
    hide AcceptableRequest, Verdict, AllAtOnce, OpsOf, TransactStep, SingleStep;
    var t := events[k].req.token.value;
    if t in states[k].tokens {
      RecordsStem(schema, events, outcomes, states, k, t);
    }
    assert Step(schema, states[k], events[k], outcomes[k], states[k + 1]);
    FreshRequest(schema, states[k], events[k].req, ts, events[k].now, events[k].done, outcomes[k], states[k + 1]);
  }
}
