/** TransactWriteItems as a step from one store state to the next (ops_transact.go). The step is stated
    without an order of execution; the class in database.dfy carries it out in order. */
module Transactions {
  import opened Wrappers
  import opened Permutations
  import opened Bytes
  import opened Values
  import opened Store
  import opened Targets

  const MAX_WRITES := 100
  const MAX_TOTAL_SIZE: nat := 4 * 1024 * 1024
  const MAX_TOKEN_LENGTH := 36
  const TOKEN_TTL := 600

  /** A used token: the request it came with and when that request completed, in seconds. */
  datatype Record = Record(request: bytes, createdAt: int)

  type Tokens = map<string, Record>

  datatype State = State(rows: Contents, tokens: Tokens)

  /** The fingerprint is the text of the whole request. */
  datatype Request = Request(writes: seq<Write>, token: Option<string>, fingerprint: bytes)

  datatype Reason = NoReason | ConditionFailed | Invalid

  /** NeverReturns: the request gets no answer. */
  datatype Outcome = Committed | Rejected | CheckFailed | Mismatch | Cancelled(reasons: seq<Reason>) | NeverReturns

  /** Everything that is checked before the store is looked at. */
  function Accepted(schema: Schema, req: Request): Result<seq<Op>> {
    if !(1 <= |req.writes| <= MAX_WRITES) then Err
    else if req.token.Some? && !(1 <= |req.token.value| <= MAX_TOKEN_LENGTH) then Err
    else
      var ops :- ParseWrites(schema, req.writes);
      if NoneTwice(ops) then Ok(ops) else Err
  }

  // ---- what the pre-state decides ----

  function Checked(op: Op, rows: Contents): Result<bool> {
    Condition(op, Found(rows, op.target))
  }

  ghost function Becomes(op: Op, rows: Contents): Result<Option<Item>> {
    Effect(op, Found(rows, op.target))
  }

  /** What an operation adds to the size of the transaction: the item it writes, or the item a Check or
      a Delete finds. */
  ghost function SizeFor(op: Op, was: Option<Item>): nat {
    match NewItem(op, was)
    case Err => 0
    case Ok(Some(item)) => ItemSize(item)
    case Ok(None) => if was.Some? then ItemSize(was.value) else 0
  }

  ghost function CountedSize(op: Op, rows: Contents): nat {
    SizeFor(op, Found(rows, op.target))
  }

  ghost function Total(ops: seq<Op>, rows: Contents): nat {
    if ops == [] then 0 else Total(ops[..|ops| - 1], rows) + CountedSize(ops[|ops| - 1], rows)
  }

  /** The apply phase stops at operation i if no earlier one stops it. */
  ghost predicate StopsAt(ops: seq<Op>, rows: Contents, i: nat)
    requires i < |ops|
  {
    Becomes(ops[i], rows).Err? || Total(ops[..i + 1], rows) > MAX_TOTAL_SIZE
  }

  /** One reason per operation, ConditionFailed exactly where the condition is false. */
  predicate ConditionReasons(ops: seq<Op>, rows: Contents, reasons: seq<Reason>) {
    |reasons| == |ops| &&
    forall i :: 0 <= i < |ops| ==>
      reasons[i] == if Checked(ops[i], rows) == Ok(false) then ConditionFailed else NoReason
  }

  /** Operation i is the one that stops the apply phase. */
  ghost predicate StopsFirst(ops: seq<Op>, rows: Contents, i: nat)
    requires i < |ops|
  {
    StopsAt(ops, rows, i) && forall j :: 0 <= j < i ==> !StopsAt(ops, rows, j)
  }

  /** One reason per operation, given at i only. */
  function OnlyAt(n: nat, i: nat): (reasons: seq<Reason>)
    ensures |reasons| == n
  {
    seq(n, j => if j == i then Invalid else NoReason)
  }

  /** How an operation that cannot be applied ends the request: with the refusal, unless its document
      contains itself; then the request is still refused if an invalid scalar is found first. */
  ghost predicate Refused(op: Op, was: Option<Item>, r: Outcome, refusal: Outcome) {
    if Hangs(op, was) then r == NeverReturns || (MayFailFirst(op, was) && r == refusal)
    else r == refusal
  }

  ghost predicate Stopped(ops: seq<Op>, rows: Contents, r: Outcome) {
    exists i :: 0 <= i < |ops| && StopsFirst(ops, rows, i) &&
                Refused(ops[i], Found(rows, ops[i].target), r, Cancelled(OnlyAt(|ops|, i)))
  }

  ghost predicate Verdict(ops: seq<Op>, rows: Contents, r: Outcome) {
    if exists op :: op in ops && Checked(op, rows).Err? then r == Rejected
    else if exists op :: op in ops && Checked(op, rows) == Ok(false) then
      r.Cancelled? && ConditionReasons(ops, rows, r.reasons)
    else if exists i :: 0 <= i < |ops| && StopsAt(ops, rows, i) then Stopped(ops, rows, r)
    else r == Committed
  }

  predicate IsTarget(ops: seq<Op>, t: Target) {
    exists i :: 0 <= i < |ops| && ops[i].target == t
  }

  /** Every operation applied to the pre-state at once, and nothing else changed. */
  ghost predicate AllAtOnce(ops: seq<Op>, pre: Contents, post: Contents) {
    (forall op :: op in ops ==> Becomes(op, pre) == Ok(Found(post, op.target))) &&
    (forall t :: !IsTarget(ops, t) ==> Found(post, t) == Found(pre, t))
  }

  // ---- the step ----

  /** The tokens that survive the pruning at time now. */
  function Live(tokens: Tokens, now: int): Tokens {
    map t | t in tokens && !(tokens[t].createdAt < now - TOKEN_TTL) :: tokens[t]
  }

  function Stamped(tokens: Tokens, req: Request, done: int): Tokens {
    match req.token
    case None => tokens
    case Some(t) => tokens[t := Record(req.fingerprint, done)]
  }

  predicate Replayed(tokens: Tokens, req: Request) {
    req.token.Some? && req.token.value in tokens
  }

  /** A request that arrives at time now and, if it commits, completes at time done. */
  ghost predicate TransactStep(schema: Schema, s: State, req: Request, now: int, done: int, r: Outcome, s': State) {
    var live := Live(s.tokens, now);
    match Accepted(schema, req)
    case Err => r == Rejected && s' == s
    case Ok(ops) =>
      if Replayed(live, req) then
        if live[req.token.value].request == req.fingerprint then r == Committed && s' == State(s.rows, live)
        else r == Mismatch && s' == s
      else
        Verdict(ops, s.rows, r) &&
        if r.Committed? then AllAtOnce(ops, s.rows, s'.rows) && s'.tokens == Stamped(live, req, done)
        else s' == s
  }

  // ---- simultaneity ----

  /** The post-state is determined. */
  lemma AtOnceUnique(ops: seq<Op>, pre: Contents, p: Contents, q: Contents)
    requires AllAtOnce(ops, pre, p) && AllAtOnce(ops, pre, q)
    ensures p == q
  {
    hide Effect, NewItem;
    forall t: Target
      ensures Found(p, t) == Found(q, t)
    {
      if IsTarget(ops, t) {
        var i :| 0 <= i < |ops| && ops[i].target == t;
        assert ops[i] in ops;
      }
    }
    LooksSame(p, q);
  }

  lemma LooksSame(p: Contents, q: Contents)
    requires forall t :: Found(p, t) == Found(q, t)
    ensures p == q
  {
    forall t: Target
      ensures t in p <==> t in q
      ensures t in p ==> p[t] == q[t]
    {
      assert Found(p, t) == Found(q, t);
    }
  }

  /** One more operation, on an item of its own. */
  lemma AtOnceStep(ops: seq<Op>, op: Op, pre: Contents, mid: Contents)
    requires AllAtOnce(ops, pre, mid) && !IsTarget(ops, op.target) && Becomes(op, pre).Ok?
    ensures AllAtOnce(ops + [op], pre, Stored(mid, op.target, Becomes(op, pre).value))
    ensures Found(mid, op.target) == Found(pre, op.target)
  {
    hide Effect, NewItem;
    var all, post := ops + [op], Stored(mid, op.target, Becomes(op, pre).value);
    forall o | o in all
      ensures Becomes(o, pre) == Ok(Found(post, o.target))
    {
      if o in ops {
        var i :| 0 <= i < |ops| && ops[i] == o;
        assert IsTarget(ops, o.target);
      }
    }
    forall t | !IsTarget(all, t)
      ensures Found(post, t) == Found(pre, t)
    {
      IsTargetSnoc(ops, op, t);
    }
  }

  lemma IsTargetSnoc(ops: seq<Op>, op: Op, t: Target)
    ensures IsTarget(ops + [op], t) <==> IsTarget(ops, t) || op.target == t
  {
    var all := ops + [op];
    assert all[|ops|] == op;
    if i :| 0 <= i < |ops| && ops[i].target == t {
      assert all[i].target == t;
    }
  }

  /** The operations one after another, each on the rows its predecessors left. */
  ghost function OneByOne(ops: seq<Op>, rows: Contents): Result<Contents> {
    if ops == [] then Ok(rows)
    else
      var mid :- OneByOne(ops[..|ops| - 1], rows);
      var op := ops[|ops| - 1];
      var x :- Becomes(op, mid);
      Ok(Stored(mid, op.target, x))
  }

  /** Operations on distinct items: one after another is the same as all at once, in every order. */
  lemma {:induction false} SerialIsSimultaneous(ops: seq<Op>, rows: Contents)
    requires NoneTwice(ops)
    ensures OneByOne(ops, rows).Ok? <==> forall op :: op in ops ==> Becomes(op, rows).Ok?
    ensures OneByOne(ops, rows).Ok? ==> AllAtOnce(ops, rows, OneByOne(ops, rows).value)
  {
    hide Effect, NewItem;
    if ops != [] {
      var init, op := ops[..|ops| - 1], ops[|ops| - 1];
      SerialIsSimultaneous(init, rows);
      assert ops == init + [op];
      DistinctLast(ops);
      if OneByOne(init, rows).Ok? {
        var mid := OneByOne(init, rows).value;
        assert Found(mid, op.target) == Found(rows, op.target);
        if Becomes(op, rows).Ok? {
          AtOnceStep(init, op, rows, mid);
        }
      } else {
        var o :| o in init && Becomes(o, rows).Err?;
        assert o in ops;
      }
    }
  }

  lemma DistinctLast(ops: seq<Op>)
    requires NoneTwice(ops) && ops != []
    ensures NoneTwice(ops[..|ops| - 1]) && !IsTarget(ops[..|ops| - 1], ops[|ops| - 1].target)
  {
    var init := ops[..|ops| - 1];
    forall i | 0 <= i < |init|
      ensures init[i].target != ops[|ops| - 1].target
    {
      assert init[i] == ops[i];
    }
    assert NoneTwice(init) by {
      forall i, j | 0 <= i < j < |init|
        ensures init[i].target != init[j].target
      {
        assert init[i] == ops[i] && init[j] == ops[j];
      }
    }
  }

  // ---- the order of the request does not matter ----

  /** Whether the operations commit, without an order. */
  ghost predicate Commits(ops: seq<Op>, rows: Contents) {
    (forall op :: op in ops ==> Checked(op, rows) == Ok(true) && Becomes(op, rows).Ok?) &&
    Total(ops, rows) <= MAX_TOTAL_SIZE
  }

  /** The apply phase never stops. */
  ghost predicate NeverStops(ops: seq<Op>, rows: Contents) {
    forall i :: 0 <= i < |ops| ==> !StopsAt(ops, rows, i)
  }

  lemma NeverStopsIff(ops: seq<Op>, rows: Contents)
    ensures NeverStops(ops, rows) <==>
            (forall op :: op in ops ==> Becomes(op, rows).Ok?) && Total(ops, rows) <= MAX_TOTAL_SIZE
  {
    hide CountedSize, Total, Becomes;
    assert ops[..|ops|] == ops;
    TotalOf([], rows);
    forall n | 0 <= n <= |ops|
      ensures Total(ops[..n], rows) <= Total(ops, rows)
    {
      TotalGrows(ops, rows, n);
    }
    if NeverStops(ops, rows) {
      forall op | op in ops
        ensures Becomes(op, rows).Ok?
      {
        var i :| 0 <= i < |ops| && ops[i] == op;
        assert !StopsAt(ops, rows, i);
      }
      assert ops != [] ==> !StopsAt(ops, rows, |ops| - 1);
    }
  }

  lemma CommittedIff(ops: seq<Op>, rows: Contents, r: Outcome)
    requires Verdict(ops, rows, r)
    ensures r.Committed? <==> Commits(ops, rows)
  {
    hide Checked, Total, Becomes, StopsAt, ConditionReasons, Hangs, MayFailFirst;
    NeverStopsIff(ops, rows);
    if r.Committed? {
      forall op | op in ops
        ensures Checked(op, rows) == Ok(true)
      {
        OnlyTrue(Checked(op, rows));
      }
    }
  }

  lemma OnlyTrue(c: Result<bool>)
    requires c != Err && c != Ok(false)
    ensures c == Ok(true)
  {
    var b := c.value;
    assert b == false || b == true;
  }

  lemma TotalOf(ops: seq<Op>, rows: Contents)
    ensures Total(ops, rows) ==
            if ops == [] then 0 else Total(ops[..|ops| - 1], rows) + CountedSize(ops[|ops| - 1], rows)
  {
    hide CountedSize;
  }

  lemma {:induction false} TotalGrows(ops: seq<Op>, rows: Contents, n: nat)
    requires n <= |ops|
    ensures Total(ops[..n], rows) <= Total(ops, rows)
  {
    hide CountedSize;
    if n == |ops| {
      assert ops[..n] == ops;
    } else {
      TotalGrows(ops[..|ops| - 1], rows, n);
      assert ops[..|ops| - 1][..n] == ops[..n];
    }
  }

  lemma {:induction false} TotalWithout(ops: seq<Op>, rows: Contents, i: nat)
    requires i < |ops|
    ensures Total(ops, rows) == Total(ops[..i] + ops[i + 1..], rows) + CountedSize(ops[i], rows)
  {
    hide CountedSize, Total;
    var rest := ops[..i] + ops[i + 1..];
    var init, op := ops[..|ops| - 1], ops[|ops| - 1];
    TotalOf(ops, rows);
    if i == |ops| - 1 {
      assert rest == init;
    } else {
      TotalWithout(init, rows, i);
      assert rest == (init[..i] + init[i + 1..]) + [op];
      TotalOf(rest, rows);
      assert rest[..|rest| - 1] == init[..i] + init[i + 1..];
    }
  }

  lemma {:induction false} TotalPermuted(ops: seq<Op>, other: seq<Op>, rows: Contents)
    requires multiset(ops) == multiset(other)
    ensures Total(ops, rows) == Total(other, rows)
  {
    hide CountedSize;
    assert |ops| == |multiset(ops)| == |multiset(other)| == |other|;
    if ops != [] {
      var i := FindLast(ops, other);
      TotalPermuted(ops[..|ops| - 1], other[..i] + other[i + 1..], rows);
      TotalWithout(other, rows, i);
    }
  }

  /** Whether a transaction commits, and what it commits, do not depend on the order of its operations. */
  lemma OrderFree(ops: seq<Op>, other: seq<Op>, pre: Contents, post: Contents)
    requires multiset(ops) == multiset(other)
    ensures Commits(ops, pre) <==> Commits(other, pre)
    ensures AllAtOnce(ops, pre, post) <==> AllAtOnce(other, pre, post)
  {
    hide Condition, Effect, CountedSize, Total, Becomes, Found;
    TotalPermuted(ops, other, pre);
    forall op
      ensures op in ops <==> op in other
    {
      SameMembers(ops, other, op);
    }
    forall t
      ensures IsTarget(ops, t) <==> IsTarget(other, t)
    {
      TargetByMember(ops, t);
      TargetByMember(other, t);
    }
  }

  lemma TargetByMember(ops: seq<Op>, t: Target)
    ensures IsTarget(ops, t) <==> exists op :: op in ops && op.target == t
  {
    if i :| 0 <= i < |ops| && ops[i].target == t {
      assert ops[i] in ops;
    }
  }

  // ---- permuted requests ----

  lemma {:induction false} ParseWithout(schema: Schema, ws: seq<Write>, i: nat)
    requires i < |ws|
    ensures ParseWrites(schema, ws).Ok? <==>
            ParseWrites(schema, ws[..i] + ws[i + 1..]).Ok? && ParseWrite(schema, ws[i]).Ok?
    ensures ParseWrites(schema, ws).Ok? ==>
            multiset(ParseWrites(schema, ws).value) ==
            multiset(ParseWrites(schema, ws[..i] + ws[i + 1..]).value) + multiset{ParseWrite(schema, ws[i]).value}
  {
    hide ParseWrite, ParseWrites;
    var rest := ws[..i] + ws[i + 1..];
    var init, w := ws[..|ws| - 1], ws[|ws| - 1];
    assert ws == init + [w];
    ParseSnoc(schema, init, w);
    if i == |ws| - 1 {
      assert rest == init;
    } else {
      ParseWithout(schema, init, i);
      assert rest == (init[..i] + init[i + 1..]) + [w];
      ParseSnoc(schema, init[..i] + init[i + 1..], w);
    }
  }

  lemma ParseSnoc(schema: Schema, ws: seq<Write>, w: Write)
    ensures ParseWrites(schema, ws + [w]).Ok? <==> ParseWrites(schema, ws).Ok? && ParseWrite(schema, w).Ok?
    ensures ParseWrites(schema, ws + [w]).Ok? ==>
            ParseWrites(schema, ws + [w]).value == ParseWrites(schema, ws).value + [ParseWrite(schema, w).value]
  {
    hide ParseWrite;
    assert (ws + [w])[..|ws|] == ws;
  }

  lemma {:induction false} ParsePermuted(schema: Schema, ws: seq<Write>, other: seq<Write>)
    requires multiset(ws) == multiset(other)
    ensures ParseWrites(schema, ws).Ok? <==> ParseWrites(schema, other).Ok?
    ensures ParseWrites(schema, ws).Ok? ==>
            multiset(ParseWrites(schema, ws).value) == multiset(ParseWrites(schema, other).value)
  {
    hide ParseWrite;
    assert |ws| == |multiset(ws)| == |multiset(other)| == |other|;
    if ws != [] {
      var i := FindLast(ws, other);
      ParsePermuted(schema, ws[..|ws| - 1], other[..i] + other[i + 1..]);
      ParseWithout(schema, other, i);
    }
  }

  lemma {:induction false} DistinctPermuted(ops: seq<Op>, other: seq<Op>)
    requires multiset(ops) == multiset(other) && NoneTwice(ops)
    ensures NoneTwice(other)
  {
    assert |ops| == |multiset(ops)| == |multiset(other)| == |other|;
    if ops != [] {
      var i := FindLast(ops, other);
      var init, rest := ops[..|ops| - 1], other[..i] + other[i + 1..];
      DistinctLast(ops);
      DistinctPermuted(init, rest);
      forall j | 0 <= j < |rest|
        ensures rest[j].target != other[i].target
      {
        SameMembers(init, rest, rest[j]);
        var k :| 0 <= k < |init| && init[k] == rest[j];
      }
      forall j, k | 0 <= j < k < |other|
        ensures other[j].target != other[k].target
      {
        var a, b := if j < i then j else j - 1, if k < i then k else k - 1;
        assert j != i ==> rest[a] == other[j];
        assert k != i ==> rest[b] == other[k];
      }
    }
  }

  /** Requests whose writes are permuted do the same to the rows. */
  lemma RequestOrderFree(schema: Schema, s: State, a: Request, b: Request, now: int, done: int,
                         r: Outcome, x: State, q: Outcome, y: State)
    requires multiset(a.writes) == multiset(b.writes) && a.token == b.token && !Replayed(Live(s.tokens, now), a)
    requires TransactStep(schema, s, a, now, done, r, x) && TransactStep(schema, s, b, now, done, q, y)
    ensures r.Committed? <==> q.Committed?
    ensures x.rows == y.rows && x.tokens.Keys == y.tokens.Keys
  {
    hide Verdict, AllAtOnce;
    assert |a.writes| == |multiset(a.writes)| == |multiset(b.writes)| == |b.writes|;
    ParsePermuted(schema, a.writes, b.writes);
    if ParseWrites(schema, a.writes).Ok? {
      var ops, other := ParseWrites(schema, a.writes).value, ParseWrites(schema, b.writes).value;
      assert NoneTwice(ops) == NoneTwice(other) by {
        if NoneTwice(ops) {
          DistinctPermuted(ops, other);
        } else if NoneTwice(other) {
          DistinctPermuted(other, ops);
        }
      }
      if Accepted(schema, a).Ok? {
        CommittedIff(ops, s.rows, r);
        CommittedIff(other, s.rows, q);
        OrderFree(ops, other, s.rows, x.rows);
        if r.Committed? {
          AtOnceUnique(other, s.rows, x.rows, y.rows);
        }
      }
    }
  }
}
