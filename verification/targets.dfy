/** The identity of the item an operation targets (ops_transact.go, ops_table.go). */
module Targets {
  import opened Wrappers
  import opened Bytes
  import opened Values
  import opened KeyEncoding
  import opened Tables
  import opened Store

  /** The pattern that CreateTable demands of a name. */
  predicate ValidTableName(s: string) {
    3 <= |s| <= 255 &&
    forall i :: 0 <= i < |s| ==> 'a' <= s[i] <= 'z' || 'A' <= s[i] <= 'Z' || '0' <= s[i] <= '9' || s[i] in "_.-"
  }

  predicate ValidSchema(schema: Schema) {
    forall n :: n in schema ==> schema[n].name == n && ValidTableName(n)
  }

  function NameBytes(s: string): (b: bytes)
    requires ValidTableName(s)
    ensures |b| == |s| && forall i :: 0 <= i < |b| ==> b[i] == s[i] as int && b[i] != 0
  {
    seq(|s|, i requires 0 <= i < |s| => s[i] as int)
  }

  /** Table name, pk and sk, with a zero byte after the name and after pk. */
  function TargetId(t: Target): bytes
    requires ValidTableName(t.table)
  {
    NameBytes(t.table) + [0] + t.key.pk + [0] + t.key.sk
  }

  /** The partition key column holds an encoded S, N or B. */
  ghost predicate Addressed(t: Target) {
    ValidTableName(t.table) && exists v :: KeyBytes(v) == Some(t.key.pk)
  }

  lemma ParsedIsAddressed(schema: Schema, w: Write)
    requires ValidSchema(schema) && ParseWrite(schema, w).Ok?
    ensures Addressed(ParseWrite(schema, w).value.target)
  {
    hide KeyBytes, ValidItem;
    var t := schema[w.table];
    var item := match w.body case PutOf(item) => item case _ => w.body.key;
    assert ItemKey(t, item).Ok?;
    assert KeyBytes(item[t.hashKey]) == Some(ItemKey(t, item).value.pk);
  }

  /** A text without zero bytes is delimited by the first zero byte. */
  lemma {:induction false} ZeroTerminated(a: bytes, b: bytes, x: bytes, y: bytes)
    requires forall i :: 0 <= i < |a| ==> a[i] != 0
    requires forall i :: 0 <= i < |b| ==> b[i] != 0
    requires a + [0] + x == b + [0] + y
    ensures a == b && x == y
  {
    var s := a + [0] + x;
    assert s[|a|] == 0 && s[|b|] == 0;
    assert forall i :: 0 <= i < |a| ==> s[i] == a[i];
    assert forall i :: 0 <= i < |b| ==> s[i] == b[i];
    assert |a| == |b|;
    assert a == s[..|a|] && x == s[|a| + 1..];
  }

  /** Parts taken from a prefix-free code are delimited by the code itself. */
  lemma PrefixFreeSplits(a: bytes, b: bytes, x: bytes, y: bytes)
    requires a <= b ==> a == b
    requires b <= a ==> a == b
    requires a + x == b + y
    ensures a == b && x == y
  {
    var s := a + x;
    assert s[..|a|] == a && s[..|b|] == b;
    assert |a| <= |b| ==> s[..|b|][..|a|] == a;
    assert |b| <= |a| ==> s[..|a|][..|b|] == b;
    assert x == s[|a|..];
  }

  /** The concatenated id names one item: key encodings are prefix-free and table names have no zero
      byte, although encoded keys do. */
  lemma TargetIdInjective(t: Target, u: Target)
    requires Addressed(t) && Addressed(u)
    ensures TargetId(t) == TargetId(u) <==> t == u
  {
    hide KeyBytes;
    if TargetId(t) == TargetId(u) {
      var a, b := t.key.pk, u.key.pk;
      var x, y := [0] + t.key.sk, [0] + u.key.sk;
      assert TargetId(t) == NameBytes(t.table) + [0] + (a + x);
      assert TargetId(u) == NameBytes(u.table) + [0] + (b + y);
      ZeroTerminated(NameBytes(t.table), NameBytes(u.table), a + x, b + y);
      assert |t.table| == |u.table|;
      assert forall i :: 0 <= i < |t.table| ==> NameBytes(t.table)[i] == NameBytes(u.table)[i];
      assert t.table == u.table;
      PrefixFree(a, b);
      PrefixFree(b, a);
      PrefixFreeSplits(a, b, x, y);
      assert t.key.sk == x[1..] && u.key.sk == y[1..];
    }
  }

  lemma PrefixFree(a: bytes, b: bytes)
    requires exists v :: KeyBytes(v) == Some(a)
    requires exists w :: KeyBytes(w) == Some(b)
    ensures a <= b ==> a == b
  {
    hide KeyBytes;
    if a <= b {
      var v :| KeyBytes(v) == Some(a);
      var w :| KeyBytes(w) == Some(b);
      KeysPrefixFree(v, w);
    }
  }

  // ---- parsing a list of writes ----

  function ParseWrites(schema: Schema, ws: seq<Write>): Result<seq<Op>> {
    if ws == [] then Ok([])
    else
      var init :- ParseWrites(schema, ws[..|ws| - 1]);
      var op :- ParseWrite(schema, ws[|ws| - 1]);
      Ok(init + [op])
  }

  /** No two operations are on one item. */
  predicate NoneTwice(ops: seq<Op>) {
    forall i, j :: 0 <= i < j < |ops| ==> ops[i].target != ops[j].target
  }

  ghost predicate AllAddressed(ops: seq<Op>) {
    forall i :: 0 <= i < |ops| ==> Addressed(ops[i].target)
  }

  /** The loop that fills ops and targets rejects exactly the lists in which a write does not parse or
      two writes name one item. */
  method ParseTargets(schema: Schema, ws: seq<Write>) returns (r: Result<seq<Op>>)
    requires ValidSchema(schema)
    ensures r == match ParseWrites(schema, ws)
                 case Ok(ops) => if NoneTwice(ops) then Ok(ops) else Err
                 case Err => Err
  {
    hide ParseWrite, TargetId;
    var ops: seq<Op> := [];
    var targets: set<bytes> := {};
    for i := 0 to |ws|
      invariant ParseWrites(schema, ws[..i]) == Ok(ops) && NoneTwice(ops) && AllAddressed(ops)
      invariant targets == Ids(ops)
    {
      var op := ParseWrite(schema, ws[i]);
      assert ws[..i + 1][..i] == ws[..i];
      if op.Err? {
        ParseFails(schema, ws, i + 1);
        return Err;
      }
      ParsedIsAddressed(schema, ws[i]);
      var id := TargetId(op.value.target);
      SeenBefore(ops, op.value);
      if id in targets {
        ParseExtends(schema, ws, i + 1);
        return Err;
      }
      targets := targets + {id};
      ops := ops + [op.value];
    }
    assert ws[..|ws|] == ws;
    return Ok(ops);
  }

  /** The ids seen so far. */
  ghost function Ids(ops: seq<Op>): set<bytes>
    requires AllAddressed(ops)
  {
    if ops == [] then {} else Ids(ops[..|ops| - 1]) + {TargetId(ops[|ops| - 1].target)}
  }

  lemma {:induction false} IdKnown(ops: seq<Op>, t: Target)
    requires AllAddressed(ops) && Addressed(t)
    ensures TargetId(t) in Ids(ops) <==> exists op :: op in ops && op.target == t
  {
    hide TargetId, Addressed;
    if ops != [] {
      var init, last := ops[..|ops| - 1], ops[|ops| - 1];
      assert ops == init + [last];
      IdKnown(init, t);
      TargetIdInjective(last.target, t);
      assert forall op :: op in ops <==> op in init || op == last;
    }
  }

  lemma SeenBefore(ops: seq<Op>, op: Op)
    requires NoneTwice(ops) && AllAddressed(ops) && Addressed(op.target)
    ensures AllAddressed(ops + [op]) && Ids(ops + [op]) == Ids(ops) + {TargetId(op.target)}
    ensures NoneTwice(ops + [op]) <==> TargetId(op.target) !in Ids(ops)
  {
    hide TargetId;
    var all := ops + [op];
    assert all[..|ops|] == ops && all[|ops|] == op;
    IdKnown(ops, op.target);
    if o :| o in ops && o.target == op.target {
      var j :| 0 <= j < |ops| && ops[j] == o;
      assert all[j].target == all[|ops|].target;
    }
    assert forall j :: 0 <= j < |ops| ==> all[j] == ops[j];
  }

  lemma {:induction false} ParseFails(schema: Schema, ws: seq<Write>, n: nat)
    requires n <= |ws| && ParseWrites(schema, ws[..n]).Err?
    ensures ParseWrites(schema, ws).Err?
    decreases |ws| - n
  {
    hide ParseWrite;
    if n == |ws| {
      assert ws[..n] == ws;
    } else {
      assert ws[..n + 1][..n] == ws[..n];
      ParseFails(schema, ws, n + 1);
    }
  }

  /** A duplicate found early is still there at the end, if the rest parses. */
  lemma {:induction false} ParseExtends(schema: Schema, ws: seq<Write>, n: nat)
    requires n <= |ws| && ParseWrites(schema, ws[..n]).Ok? && !NoneTwice(ParseWrites(schema, ws[..n]).value)
    ensures ParseWrites(schema, ws).Ok? ==> !NoneTwice(ParseWrites(schema, ws).value)
    decreases |ws| - n
  {
    hide ParseWrite;
    if n == |ws| {
      assert ws[..n] == ws;
    } else {
      assert ws[..n + 1][..n] == ws[..n];
      var ops := ParseWrites(schema, ws[..n]).value;
      var op := ParseWrite(schema, ws[n]);
      if op.Err? {
        ParseFails(schema, ws, n + 1);
      } else {
        var i, j :| 0 <= i < j < |ops| && ops[i].target == ops[j].target;
        assert (ops + [op.value])[i].target == (ops + [op.value])[j].target;
        ParseExtends(schema, ws, n + 1);
      }
    }
  }
}
