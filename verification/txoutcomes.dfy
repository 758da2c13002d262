/** What TransactWriteItems does, told from the request, the rows and the recorded tokens (ops_transact.go). */
module TransactionOutcomes {
  import opened Wrappers
  import opened Values
  import opened Conditions
  import opened Store
  import opened Targets
  import opened Transactions
  import opened Runs
  import opened Outcomes

  /** The writes are valid and name the items in ts, no item twice. */
  ghost predicate AllAcceptable(schema: Schema, ws: seq<Write>, ts: seq<Target>) {
    && |ts| == |ws|
    && (forall i :: 0 <= i < |ws| ==> Acceptable(schema, ws[i], ts[i]))
    && (forall i, j :: 0 <= i < j < |ts| ==> ts[i] != ts[j])
  }

  ghost predicate AcceptableRequest(schema: Schema, req: Request, ts: seq<Target>) {
    && 1 <= |req.writes| <= 100
    && (req.token.Some? ==> 1 <= |req.token.value| <= 36)
    && AllAcceptable(schema, req.writes, ts)
  }

  function OpsOf(ws: seq<Write>, ts: seq<Target>): (ops: seq<Op>)
    requires |ts| == |ws|
    ensures |ops| == |ws|
  {
    seq(|ws|, i requires 0 <= i < |ws| => Op(ts[i], ws[i].body, ws[i].cond, ws[i].env))
  }

  lemma {:induction false} ParsedAcceptable(schema: Schema, ws: seq<Write>, ts: seq<Target>)
    requires |ts| == |ws| && forall i :: 0 <= i < |ws| ==> Acceptable(schema, ws[i], ts[i])
    ensures ParseWrites(schema, ws) == Ok(OpsOf(ws, ts))
  {
    hide Acceptable, ParseWrite;
    if ws != [] {
      var n := |ws| - 1;
      ParsedAcceptable(schema, ws[..n], ts[..n]);
      AcceptedIffAcceptable(schema, ws[n], ts[n]);
      assert OpsOf(ws, ts) == OpsOf(ws[..n], ts[..n]) + [Op(ts[n], ws[n].body, ws[n].cond, ws[n].env)];
    }
  }

  lemma {:induction false} AcceptableParsed(schema: Schema, ws: seq<Write>) returns (ts: seq<Target>)
    requires ParseWrites(schema, ws).Ok?
    ensures |ts| == |ws| && forall i :: 0 <= i < |ws| ==> Acceptable(schema, ws[i], ts[i])
    ensures ParseWrites(schema, ws) == Ok(OpsOf(ws, ts))
  {
    hide Acceptable, ParseWrite;
    ts := [];
    if ws != [] {
      var n := |ws| - 1;
      var init := AcceptableParsed(schema, ws[..n]);
      var t := ParseWrite(schema, ws[n]).value.target;
      AcceptedIffAcceptable(schema, ws[n], t);
      ts := init + [t];
      assert forall i :: 0 <= i < n ==> ws[..n][i] == ws[i] && ts[i] == init[i];
    }
    ParsedAcceptable(schema, ws, ts);
  }

  /** A request gets past validation exactly if it has 1 to 100 writes, a token of 1 to 36 characters if any, and
      valid writes that name distinct items. */
  lemma RequestAcceptedIff(schema: Schema, req: Request)
    ensures Accepted(schema, req).Ok? <==> exists ts :: AcceptableRequest(schema, req, ts)
  {
    hide Acceptable;
    if Accepted(schema, req).Ok? {
      var ts := AcceptableParsed(schema, req.writes);
      DistinctTargets(req.writes, ts);
      assert AcceptableRequest(schema, req, ts);
    }
    if ts :| AcceptableRequest(schema, req, ts) {
      ParsedAcceptable(schema, req.writes, ts);
      DistinctTargets(req.writes, ts);
    }
  }

  lemma DistinctTargets(ws: seq<Write>, ts: seq<Target>)
    requires |ts| == |ws|
    ensures NoneTwice(OpsOf(ws, ts)) <==> forall i, j :: 0 <= i < j < |ts| ==> ts[i] != ts[j]
  {
    assert forall i :: 0 <= i < |ts| ==> OpsOf(ws, ts)[i].target == ts[i];
  }

  lemma AcceptedOps(schema: Schema, req: Request, ts: seq<Target>)
    requires AcceptableRequest(schema, req, ts)
    ensures Accepted(schema, req) == Ok(OpsOf(req.writes, ts))
  {
    hide Acceptable;
    ParsedAcceptable(schema, req.writes, ts);
    DistinctTargets(req.writes, ts);
  }

  /** Any other request is rejected and changes nothing. */
  lemma UnacceptableRequest(schema: Schema, s: State, req: Request, now: int, done: int, r: Outcome, s': State)
    requires TransactStep(schema, s, req, now, done, r, s') && forall ts :: !AcceptableRequest(schema, req, ts)
    ensures r == Rejected && s' == s
  {
    hide AcceptableRequest, Accepted, Verdict, AllAtOnce;
    RequestAcceptedIff(schema, req);
  }

  /** The token is not recorded, or its record is older than ten minutes when the request arrives. */
  predicate Unrecorded(s: State, req: Request, now: int) {
    req.token.Some? && req.token.value in s.tokens ==> s.tokens[req.token.value].createdAt + 600 < now
  }

  lemma FreshStep(schema: Schema, s: State, req: Request, ts: seq<Target>, now: int, done: int, r: Outcome, s': State)
    requires AcceptableRequest(schema, req, ts) && Unrecorded(s, req, now)
    requires TransactStep(schema, s, req, now, done, r, s')
    ensures Verdict(OpsOf(req.writes, ts), s.rows, r)
    ensures r.Committed? ==> AllAtOnce(OpsOf(req.writes, ts), s.rows, s'.rows)
    ensures !r.Committed? ==> s' == s
  {
    hide AcceptableRequest, Accepted, OpsOf, Verdict, AllAtOnce;
    AcceptedOps(schema, req, ts);
  }

  // ---- conditions ----

  ghost predicate SomeFails(ws: seq<Write>, rows: Contents, ts: seq<Target>)
    requires |ts| == |ws|
  {
    exists i :: 0 <= i < |ws| && ConditionFails(ws[i], rows, ts[i])
  }

  ghost predicate AllTrue(ws: seq<Write>, rows: Contents, ts: seq<Target>)
    requires |ts| == |ws|
  {
    forall i :: 0 <= i < |ws| ==> ConditionTrue(ws[i], rows, ts[i])
  }

  /** One reason per write, ConditionFailed exactly where the condition is false. */
  ghost predicate FalseOnes(ws: seq<Write>, rows: Contents, ts: seq<Target>, reasons: seq<Reason>)
    requires |ts| == |ws|
  {
    |reasons| == |ws| &&
    forall i :: 0 <= i < |ws| ==>
      reasons[i] == if ConditionTrue(ws[i], rows, ts[i]) then NoReason else ConditionFailed
  }

  /** One reason per write, Invalid at i only. */
  predicate InvalidAt(reasons: seq<Reason>, n: nat, i: nat) {
    |reasons| == n && i < n && forall j :: 0 <= j < n ==> reasons[j] == if j == i then Invalid else NoReason
  }

  lemma OnlyOneInvalid(n: nat, i: nat)
    requires i < n
    ensures InvalidAt(OnlyAt(n, i), n, i)
  {
  }

  lemma ChecksMean(ws: seq<Write>, rows: Contents, ts: seq<Target>)
    requires |ts| == |ws|
    ensures forall i :: 0 <= i < |ws| ==>
              Checked(OpsOf(ws, ts)[i], rows) ==
              Decided(ConditionFails(ws[i], rows, ts[i]), ConditionTrue(ws[i], rows, ts[i]))
  {
    hide Checked, ConditionFails, ConditionTrue;
    forall i | 0 <= i < |ws|
      ensures Checked(OpsOf(ws, ts)[i], rows) ==
              Decided(ConditionFails(ws[i], rows, ts[i]), ConditionTrue(ws[i], rows, ts[i]))
    {
      CheckedMeans(ws[i], rows, ts[i]);
    }
  }

  lemma SomeChecks(ws: seq<Write>, rows: Contents, ts: seq<Target>)
    requires |ts| == |ws|
    ensures (exists op :: op in OpsOf(ws, ts) && Checked(op, rows).Err?) <==> SomeFails(ws, rows, ts)
    ensures !SomeFails(ws, rows, ts) ==>
              ((exists op :: op in OpsOf(ws, ts) && Checked(op, rows) == Ok(false)) <==> !AllTrue(ws, rows, ts))
  {
    hide Checked, ConditionFails, ConditionTrue, OpsOf;
    ChecksMean(ws, rows, ts);
    var ops := OpsOf(ws, ts);
    if SomeFails(ws, rows, ts) {
      var i :| 0 <= i < |ws| && ConditionFails(ws[i], rows, ts[i]);
      assert ops[i] in ops;
    } else if !AllTrue(ws, rows, ts) {
      var i :| 0 <= i < |ws| && !ConditionTrue(ws[i], rows, ts[i]);
      assert ops[i] in ops && Checked(ops[i], rows) == Ok(false);
    }
  }

  /** Conditions come first: the request is rejected if one cannot be evaluated, and cancelled with the false ones
      as reasons if one is false; otherwise it commits, gets no answer, or is cancelled for one of its writes. A
      request that does not commit changes nothing. */
  lemma ConditionsFirst(schema: Schema, s: State, req: Request, ts: seq<Target>, now: int, done: int,
                        r: Outcome, s': State)
    requires AcceptableRequest(schema, req, ts) && Unrecorded(s, req, now)
    requires TransactStep(schema, s, req, now, done, r, s')
    ensures if SomeFails(req.writes, s.rows, ts) then r == Rejected
            else if !AllTrue(req.writes, s.rows, ts) then r.Cancelled? && FalseOnes(req.writes, s.rows, ts, r.reasons)
            else r == Committed || r == NeverReturns ||
                 (r.Cancelled? && exists i :: InvalidAt(r.reasons, |req.writes|, i))
    ensures !r.Committed? ==> s' == s
  {
    hide Acceptable, TransactStep, Checked, AllAtOnce, StopsAt, StopsFirst, Hangs, MayFailFirst;
    hide ConditionFails, ConditionTrue, OpsOf;
    FreshStep(schema, s, req, ts, now, done, r, s');
    var ws := req.writes;
    SomeChecks(ws, s.rows, ts);
    ChecksMean(ws, s.rows, ts);
    if !SomeFails(ws, s.rows, ts) && AllTrue(ws, s.rows, ts) && r.Cancelled? {
      var i :| 0 <= i < |ws| && r.reasons == OnlyAt(|ws|, i);
      OnlyOneInvalid(|ws|, i);
    }
  }

  /** The guard of the write, if any, is violated. */
  predicate GuardViolated(w: Write, t: Target, rows: Contents, present: bool) {
    w.cond.Some? && (t in rows <==> !present)
  }

  /** Writes guarded by attribute_exists or attribute_not_exists of their partition keys: the transaction is cancelled
      if one of them finds its row against the guard, and its reasons name exactly those. */
  lemma GuardsDecide(schema: Schema, s: State, req: Request, ts: seq<Target>, now: int, done: int,
                     r: Outcome, s': State, present: seq<bool>)
    requires StoreSound(schema, s.rows) && |present| == |req.writes|
    requires AcceptableRequest(schema, req, ts) && Unrecorded(s, req, now)
    requires forall i :: 0 <= i < |present| ==>
               req.writes[i].cond in {None, Some(Guard(schema[ts[i].table], present[i]))}
    requires TransactStep(schema, s, req, now, done, r, s')
    ensures r != Rejected
    ensures (exists i :: 0 <= i < |present| && GuardViolated(req.writes[i], ts[i], s.rows, present[i])) ==>
              s' == s && r.Cancelled? && |r.reasons| == |present| &&
              forall i :: 0 <= i < |present| ==>
                r.reasons[i] == if GuardViolated(req.writes[i], ts[i], s.rows, present[i]) then ConditionFailed
                                else NoReason
  {
    hide Acceptable, TransactStep, Unrecorded, StoreSound, ConditionFails, ConditionTrue, Guard;
    var ws := req.writes;
    forall i | 0 <= i < |ws|
      ensures !ConditionFails(ws[i], s.rows, ts[i])
      ensures ConditionTrue(ws[i], s.rows, ts[i]) <==> !GuardViolated(ws[i], ts[i], s.rows, present[i])
    {
      if ws[i].cond.Some? {
        TableKnown(schema, ws[i], ts[i]);
        GuardMeans(schema, ws[i], s.rows, ts[i], present[i]);
      } else {
        Unconditional(ws[i], s.rows, ts[i]);
      }
    }
    ConditionsFirst(schema, s, req, ts, now, done, r, s');
  }

  lemma TableKnown(schema: Schema, w: Write, t: Target)
    requires Acceptable(schema, w, t)
    ensures t.table in schema
  {
  }

  lemma Unconditional(w: Write, rows: Contents, t: Target)
    requires w.cond.None?
    ensures !ConditionFails(w, rows, t) && ConditionTrue(w, rows, t)
  {
  }

  // ---- writes ----

  function Sum(ns: seq<nat>): nat {
    if ns == [] then 0 else Sum(ns[..|ns| - 1]) + ns[|ns| - 1]
  }

  /** What a write counts: the item that Put or Update leaves, the item that Delete or Check finds. */
  ghost function Counted(w: Write, t: Target, before: Contents, after: Contents): nat {
    var rows := if w.body.PutOf? || w.body.UpdateOf? then after else before;
    if t in rows then ItemSize(rows[t]) else 0
  }

  ghost function CountedSizes(ws: seq<Write>, ts: seq<Target>, before: Contents, after: Contents): (ns: seq<nat>)
    requires |ts| == |ws|
    ensures |ns| == |ws|
  {
    seq(|ws|, i requires 0 <= i < |ws| => Counted(ws[i], ts[i], before, after))
  }

  /** What the write leaves in its row, given what was there. */
  ghost predicate Leaves(w: Write, was: Option<Item>, now: Option<Item>) {
    match w.body
    case PutOf(item) => now == Some(item) && ItemSize(item) <= 409600
    case DeleteOf(_) => now == None
    case CheckOf(_) => now == was
    case UpdateOf(_, _) => now.Some? && ValidItem(now.value) && ItemSize(now.value) <= 409600
  }

  lemma BecomesLeaves(w: Write, t: Target, rows: Contents, x: Option<Item>)
    requires Becomes(Op(t, w.body, w.cond, w.env), rows) == Ok(x)
    ensures Leaves(w, Found(rows, t), x)
    ensures CountedSize(Op(t, w.body, w.cond, w.env), rows) == Counted(w, t, rows, Stored(rows, t, x))
  {
    hide ItemSize, ValidItem, Base;
  }

  lemma {:induction false} TotalIsSum(ws: seq<Write>, ts: seq<Target>, before: Contents, after: Contents)
    requires |ts| == |ws|
    requires forall i :: 0 <= i < |ws| ==>
               Becomes(OpsOf(ws, ts)[i], before).Ok? &&
               Found(after, ts[i]) == Becomes(OpsOf(ws, ts)[i], before).value
    ensures Total(OpsOf(ws, ts), before) == Sum(CountedSizes(ws, ts, before, after))
  {
    hide Becomes, CountedSize, Counted;
    if ws != [] {
      var n := |ws| - 1;
      var ops, sizes := OpsOf(ws, ts), CountedSizes(ws, ts, before, after);
      assert ops[..n] == OpsOf(ws[..n], ts[..n]) && sizes[..n] == CountedSizes(ws[..n], ts[..n], before, after);
      forall i | 0 <= i < n
        ensures OpsOf(ws[..n], ts[..n])[i] == ops[i]
      {
        assert ops[..n][i] == ops[i];
      }
      TotalIsSum(ws[..n], ts[..n], before, after);
      BecomesLeaves(ws[n], ts[n], before, Becomes(ops[n], before).value);
      CountedAt(ws[n], ts[n], before, after, Stored(before, ts[n], Becomes(ops[n], before).value));
      TotalOf(ops, before);
    }
  }

  lemma CountedAt(w: Write, t: Target, before: Contents, a: Contents, b: Contents)
    requires Found(a, t) == Found(b, t)
    ensures Counted(w, t, before, a) == Counted(w, t, before, b)
  {
  }

  /** A transaction that commits: each write has its effect on its own row, no other row changes, and what the
      writes count stays within 4 MiB. */
  lemma CommittedRows(schema: Schema, s: State, req: Request, ts: seq<Target>, now: int, done: int, s': State)
    requires AcceptableRequest(schema, req, ts) && Unrecorded(s, req, now)
    requires TransactStep(schema, s, req, now, done, Committed, s')
    ensures !SomeFails(req.writes, s.rows, ts) && AllTrue(req.writes, s.rows, ts)
    ensures forall i :: 0 <= i < |ts| ==> Leaves(req.writes[i], Found(s.rows, ts[i]), Found(s'.rows, ts[i]))
    ensures forall t :: t !in ts ==> Found(s'.rows, t) == Found(s.rows, t)
    ensures Sum(CountedSizes(req.writes, ts, s.rows, s'.rows)) <= 4194304
  {
    hide Acceptable, TransactStep, Checked, Becomes, Leaves, SomeFails, AllTrue, OpsOf, CountedSizes, Unrecorded;
    FreshStep(schema, s, req, ts, now, done, Committed, s');
    ConditionsFirst(schema, s, req, ts, now, done, Committed, s');
    var ws, ops := req.writes, OpsOf(req.writes, ts);
    CommittedIff(ops, s.rows, Committed);
    OpTargets(ws, ts);
    forall i | 0 <= i < |ws|
      ensures Becomes(ops[i], s.rows) == Ok(Found(s'.rows, ts[i]))
      ensures Leaves(ws[i], Found(s.rows, ts[i]), Found(s'.rows, ts[i]))
    {
      assert ops[i] in ops;
      BecomesLeaves(ws[i], ts[i], s.rows, Found(s'.rows, ts[i]));
    }
    TotalIsSum(ws, ts, s.rows, s'.rows);
  }

  lemma OpTargets(ws: seq<Write>, ts: seq<Target>)
    requires |ts| == |ws|
    ensures forall i :: 0 <= i < |ws| ==> OpsOf(ws, ts)[i] == Op(ts[i], ws[i].body, ws[i].cond, ws[i].env)
    ensures forall t :: IsTarget(OpsOf(ws, ts), t) <==> t in ts
  {
    var ops := OpsOf(ws, ts);
    forall t ensures IsTarget(ops, t) <==> t in ts {
      if t in ts {
        var i :| 0 <= i < |ts| && ts[i] == t;
        assert ops[i].target == t;
      }
    }
  }

  // ---- a transaction and its writes one at a time ----

  /** The rows with only t as in after. */
  function OnlyRow(rows: Contents, after: Contents, t: Target): Contents {
    if t in after then rows[t := after[t]] else rows - {t}
  }

  /** Every write of a transaction that commits does to its row what the same write does on its own. */
  lemma WriteAsSingle(schema: Schema, s: State, req: Request, ts: seq<Target>, now: int, done: int, s': State, i: nat)
    requires AcceptableRequest(schema, req, ts) && Unrecorded(s, req, now)
    requires i < |req.writes| && !req.writes[i].body.CheckOf?
    requires TransactStep(schema, s, req, now, done, Committed, s')
    ensures SingleStep(schema, s, req.writes[i], Committed, State(OnlyRow(s.rows, s'.rows, ts[i]), s.tokens))
  {
    hide Acceptable, TransactStep, Checked, Becomes, OpsOf, Unrecorded, ParseWrite;
    FreshStep(schema, s, req, ts, now, done, Committed, s');
    var ws, ops := req.writes, OpsOf(req.writes, ts);
    CommittedIff(ops, s.rows, Committed);
    OpTargets(ws, ts);
    AcceptedIffAcceptable(schema, ws[i], ts[i]);
    assert ops[i] in ops;
    assert Becomes(ops[i], s.rows) == Ok(Found(s'.rows, ts[i]));
    assert Stored(s.rows, ts[i], Found(s'.rows, ts[i])) == OnlyRow(s.rows, s'.rows, ts[i]);
  }

  /** The write on its own is a Check whose condition is true, or commits and leaves after. */
  ghost predicate Alone(schema: Schema, s: State, w: Write, t: Target, after: Contents) {
    if w.body.CheckOf? then !ConditionFails(w, s.rows, t) && ConditionTrue(w, s.rows, t)
    else SingleStep(schema, s, w, Committed, State(after, s.tokens))
  }

  lemma AloneBecomes(schema: Schema, s: State, w: Write, t: Target, after: Contents)
    requires Acceptable(schema, w, t) && Alone(schema, s, w, t, after)
    ensures var op := Op(t, w.body, w.cond, w.env);
            && Checked(op, s.rows) == Ok(true) && Becomes(op, s.rows).Ok?
            && CountedSize(op, s.rows) == Counted(w, t, s.rows, after)
  {
    hide Acceptable, ParseWrite, Checked, ConditionFails, ConditionTrue, ItemSize, Base, ValidItem;
    AcceptedIffAcceptable(schema, w, t);
    CheckedMeans(w, s.rows, t);
  }

  lemma {:induction false} TotalOfCounted(ws: seq<Write>, ts: seq<Target>, before: Contents, sizes: seq<nat>)
    requires |ts| == |ws| == |sizes|
    requires forall i :: 0 <= i < |ws| ==> CountedSize(OpsOf(ws, ts)[i], before) == sizes[i]
    ensures Total(OpsOf(ws, ts), before) == Sum(sizes)
  {
    hide CountedSize;
    if ws != [] {
      var n := |ws| - 1;
      var ops := OpsOf(ws, ts);
      assert ops[..n] == OpsOf(ws[..n], ts[..n]);
      forall i | 0 <= i < n
        ensures CountedSize(OpsOf(ws[..n], ts[..n])[i], before) == sizes[..n][i]
      {
        assert ops[..n][i] == ops[i];
      }
      TotalOfCounted(ws[..n], ts[..n], before, sizes[..n]);
      TotalOf(ops, before);
    }
  }

  /** If every write commits on its own, and what they count stays within 4 MiB, the transaction commits. */
  lemma SinglesCommit(schema: Schema, s: State, req: Request, ts: seq<Target>, now: int, done: int,
                      r: Outcome, s': State, afters: seq<Contents>, sizes: seq<nat>)
    requires AcceptableRequest(schema, req, ts) && Unrecorded(s, req, now)
    requires |afters| == |sizes| == |req.writes|
    requires forall i :: 0 <= i < |afters| ==>
               Alone(schema, s, req.writes[i], ts[i], afters[i]) &&
               sizes[i] == Counted(req.writes[i], ts[i], s.rows, afters[i])
    requires Sum(sizes) <= 4194304
    requires TransactStep(schema, s, req, now, done, r, s')
    ensures r == Committed
  {
    hide Acceptable, TransactStep, Checked, Becomes, OpsOf, Unrecorded, CountedSize, Alone, Counted, AllAtOnce;
    FreshStep(schema, s, req, ts, now, done, r, s');
    var ws, ops := req.writes, OpsOf(req.writes, ts);
    CommittedIff(ops, s.rows, r);
    OpTargets(ws, ts);
    forall i | 0 <= i < |ws|
      ensures Checked(ops[i], s.rows) == Ok(true) && Becomes(ops[i], s.rows).Ok?
      ensures CountedSize(ops[i], s.rows) == sizes[i]
    {
      AloneBecomes(schema, s, ws[i], ts[i], afters[i]);
    }
    TotalOfCounted(ws, ts, s.rows, sizes);
  }

  // ---- without updates ----

  /** What a write other than an update counts. */
  ghost function SizeOfWrite(w: Write, t: Target, rows: Contents): nat {
    if w.body.PutOf? then ItemSize(w.body.item) else if t in rows then ItemSize(rows[t]) else 0
  }

  ghost function Sizes(ws: seq<Write>, ts: seq<Target>, rows: Contents): (ns: seq<nat>)
    requires |ts| == |ws|
    ensures |ns| == |ws|
  {
    seq(|ws|, i requires 0 <= i < |ws| => SizeOfWrite(ws[i], ts[i], rows))
  }

  /** Write i is too large, or the first writes up to it are together. */
  ghost predicate TooLarge(ws: seq<Write>, ts: seq<Target>, rows: Contents, i: nat)
    requires |ts| == |ws| && i < |ws|
  {
    (ws[i].body.PutOf? && ItemSize(ws[i].body.item) > 409600) || Sum(Sizes(ws, ts, rows)[..i + 1]) > 4194304
  }

  /** The reasons name write i, the first one that is too large. */
  ghost predicate FirstTooLarge(ws: seq<Write>, ts: seq<Target>, rows: Contents, reasons: seq<Reason>, i: nat)
    requires |ts| == |ws|
  {
    InvalidAt(reasons, |ws|, i) && TooLarge(ws, ts, rows, i) && forall j :: 0 <= j < i ==> !TooLarge(ws, ts, rows, j)
  }

  lemma StopsIfTooLarge(ws: seq<Write>, ts: seq<Target>, rows: Contents, i: nat)
    requires |ts| == |ws| && i < |ws|
    requires forall j :: 0 <= j < |ws| ==> !ws[j].body.UpdateOf?
    ensures StopsAt(OpsOf(ws, ts), rows, i) <==> TooLarge(ws, ts, rows, i)
    ensures !Hangs(OpsOf(ws, ts)[i], Found(rows, ts[i]))
  {
    hide ItemSize, Total, Sum;
    var ops := OpsOf(ws, ts);
    var us, vs, ns := ws[..i + 1], ts[..i + 1], Sizes(ws, ts, rows)[..i + 1];
    assert ops[..i + 1] == OpsOf(us, vs);
    forall j | 0 <= j < |us|
      ensures CountedSize(OpsOf(us, vs)[j], rows) == ns[j]
    {
      assert Sizes(ws, ts, rows)[j] == SizeOfWrite(ws[j], ts[j], rows);
    }
    TotalOfCounted(us, vs, rows, ns);
  }

  /** Puts, Deletes and Checks whose conditions hold commit unless a write is too large; the first one that is
      carries the reason. */
  lemma CommitsUnlessTooLarge(schema: Schema, s: State, req: Request, ts: seq<Target>, now: int, done: int,
                              r: Outcome, s': State)
    requires AcceptableRequest(schema, req, ts) && Unrecorded(s, req, now)
    requires forall i :: 0 <= i < |req.writes| ==> !req.writes[i].body.UpdateOf?
    requires !SomeFails(req.writes, s.rows, ts) && AllTrue(req.writes, s.rows, ts)
    requires TransactStep(schema, s, req, now, done, r, s')
    ensures r == Committed <==> forall i :: 0 <= i < |req.writes| ==> !TooLarge(req.writes, ts, s.rows, i)
    ensures r != Committed ==> r.Cancelled? && exists i :: FirstTooLarge(req.writes, ts, s.rows, r.reasons, i)
  {
    hide Acceptable, TransactStep, Checked, AllAtOnce, StopsAt, Hangs, MayFailFirst, OpsOf, Unrecorded;
    hide SomeFails, AllTrue, TooLarge;
    FreshStep(schema, s, req, ts, now, done, r, s');
    var ws, ops := req.writes, OpsOf(req.writes, ts);
    SomeChecks(ws, s.rows, ts);
    OpTargets(ws, ts);
    forall i | 0 <= i < |ws|
      ensures StopsAt(ops, s.rows, i) <==> TooLarge(ws, ts, s.rows, i)
      ensures !Hangs(ops[i], Found(s.rows, ops[i].target))
    {
      StopsIfTooLarge(ws, ts, s.rows, i);
    }
    if i :| 0 <= i < |ops| && StopsFirst(ops, s.rows, i) &&
            Refused(ops[i], Found(s.rows, ops[i].target), r, Cancelled(OnlyAt(|ops|, i))) {
      OnlyOneInvalid(|ws|, i);
      assert FirstTooLarge(ws, ts, s.rows, r.reasons, i);
    }
  }
}
