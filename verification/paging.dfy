/** Query and Scan pages, and following LastEvaluatedKey (ops_item.go). */
module Paging {
  import opened Wrappers
  import opened Bytes
  import opened Values
  import opened Paths
  import opened Expressions
  import opened Projection
  import opened KeyEncoding
  import opened Tables
  import opened QueryCompiler
  import opened RowOrder

  type Rows = map<Key, Item>

  /** The rows of one table, each under the key of its item. */
  predicate RowsKeyed(t: Table, rows: Rows) {
    forall k :: k in rows ==> ItemKey(t, rows[k]) == Ok(k)
  }

  /** Filter and projection, the same on every page. */
  datatype View = View(filter: Option<Cond>, projection: Option<seq<Path>>, env: Env)

  datatype Page = Page(items: seq<Item>, scanned: nat, last: Option<Item>)

  // ---- the SQL engine: WHERE, ORDER BY, LIMIT ----

  function Matching(rows: Rows, ps: seq<Pred>): set<Key> {
    set k | k in rows && SatAll(ps, k)
  }

  /** A limit of zero or less selects everything. */
  function SelectKeys(rows: Rows, ps: seq<Pred>, forward: bool, fetch: int): seq<Key> {
    var ks := OrderBy(Matching(rows, ps), forward);
    if 0 < fetch <= |ks| then ks[..fetch] else ks
  }

  // ---- one page ----

  function Shown(v: View, item: Item): Item {
    match v.projection
    case None => item
    case Some(paths) => Projected(item, paths)
  }

  /** The items a sequence of rows contributes; Err when the filter fails to evaluate on one. */
  function Emit(rows: Rows, ks: seq<Key>, v: View): Result<seq<Item>>
    requires forall k :: k in ks ==> k in rows
  {
    if ks == [] then Ok([])
    else
      var init :- Emit(rows, ks[..|ks| - 1], v);
      var item := rows[ks[|ks| - 1]];
      var keep :- if v.filter.None? then Ok(true) else EvalCond(v.filter.value, item, v.env);
      Ok(if keep then init + [Shown(v, item)] else init)
  }

  /** The page that starts after the key condition and start key in ps. */
  function PageOf(t: Table, rows: Rows, ps: seq<Pred>, forward: bool, limit: int, v: View): Result<Page> {
    var ks := SelectKeys(rows, ps, forward, 0);
    var more := 0 < limit < |ks|;
    var scanned := if more then ks[..limit] else ks;
    var items :- Emit(rows, scanned, v);
    Ok(Page(items, |scanned|, if more then Some(ExtractKey(t, rows[scanned[limit - 1]])) else None))
  }

  lemma TakenAreRows(rows: Rows, ps: seq<Pred>, forward: bool, fetch: int, limit: int)
    ensures forall k :: k in SelectKeys(rows, ps, forward, fetch) ==> k in rows
    ensures 0 <= limit <= |SelectKeys(rows, ps, forward, fetch)| ==>
              forall k :: k in SelectKeys(rows, ps, forward, fetch)[..limit] ==> k in rows
  {
    hide SatAll, OrderBy;
    var all := OrderBy(Matching(rows, ps), forward);
    assert forall k :: k in all ==> k in Matching(rows, ps);
    var ks := SelectKeys(rows, ps, forward, fetch);
    assert forall k :: k in ks ==> k in all;
    if 0 <= limit <= |ks| {
      assert forall k :: k in ks[..limit] ==> k in ks;
    }
  }

  /** The loop over the scanned rows: remember the key of each, filter, project, append. */
  method EmitRows(t: Table, rows: Rows, scanned: seq<Key>, v: View)
    returns (r: Result<seq<Item>>, lastKey: Option<Item>)
    requires forall k :: k in scanned ==> k in rows
    ensures r == Emit(rows, scanned, v)
    ensures r.Ok? && scanned != [] ==> lastKey == Some(ExtractKey(t, rows[scanned[|scanned| - 1]]))
  {
    hide EvalCond, Projected, ExtractKey;
    var items := [];
    lastKey := None;
    for i := 0 to |scanned|
      invariant forall k :: k in scanned[..i] ==> k in rows
      invariant Emit(rows, scanned[..i], v) == Ok(items)
      invariant i > 0 ==> scanned[i - 1] in rows && lastKey == Some(ExtractKey(t, rows[scanned[i - 1]]))
    {
      assert scanned[..i + 1][..i] == scanned[..i] && scanned[i] in scanned;
      var item := rows[scanned[i]];
      lastKey := Some(ExtractKey(t, item));
      if v.filter.Some? {
        var ok := EvalCond(v.filter.value, item, v.env);
        if ok.Err? {
          EmitFails(rows, scanned, i + 1, v);
          return Err, lastKey;
        }
        if !ok.value {
          continue;
        }
      }
      match v.projection {
        case None =>
        case Some(paths) =>
          item := ProjectItem(item, paths);
      }
      items := items + [item];
    }
    assert scanned[..|scanned|] == scanned;
    r := Ok(items);
  }

  /** The body of opQuery and opScan after the WHERE clause is built: fetch one row more than the
      limit, cut it off, and return the key of the last row if there was more. */
  method RunPage(t: Table, rows: Rows, ps: seq<Pred>, forward: bool, limit: int, v: View) returns (r: Result<Page>)
    ensures r == PageOf(t, rows, ps, forward, limit, v)
  {
    hide SatAll, OrderBy, Emit, ExtractKey;
    ghost var all := SelectKeys(rows, ps, forward, 0);
    var fetch := if limit <= 0 then 0 else limit + 1;
    TakenAreRows(rows, ps, forward, fetch, limit);
    var scanned := SelectKeys(rows, ps, forward, fetch);
    var hasMore := false;
    if limit > 0 && |scanned| > limit {
      scanned := scanned[..limit];
      hasMore := true;
    }
    assert hasMore <==> 0 < limit < |all|;
    assert scanned == if hasMore then all[..limit] else all;
    var items, lastKey := EmitRows(t, rows, scanned, v);
    if items.Err? {
      return Err;
    }
    return Ok(Page(items.value, |scanned|, if hasMore then lastKey else None));
  }

  lemma {:induction false} EmitFails(rows: Rows, ks: seq<Key>, i: nat, v: View)
    requires forall k :: k in ks ==> k in rows
    requires i <= |ks| && Emit(rows, ks[..i], v) == Err
    ensures Emit(rows, ks, v) == Err
    decreases |ks|
  {
    hide EvalCond;
    if i < |ks| {
      assert ks[..|ks| - 1][..i] == ks[..i];
      EmitFails(rows, ks[..|ks| - 1], i, v);
    } else {
      assert ks[..i] == ks;
    }
  }

  /** Emitting in two parts. */
  lemma {:induction false} EmitConcat(rows: Rows, a: seq<Key>, b: seq<Key>, v: View)
    requires forall k :: k in a || k in b ==> k in rows
    ensures Emit(rows, a + b, v) ==
              if Emit(rows, a, v).Ok? && Emit(rows, b, v).Ok?
              then Ok(Emit(rows, a, v).value + Emit(rows, b, v).value) else Err
    decreases |b|
  {
    if b == [] {
      assert a + b == a;
      assert Emit(rows, a, v).Ok? ==> Emit(rows, a, v).value + [] == Emit(rows, a, v).value;
    } else {
      hide Emit, Emitted;
      var c, k := b[..|b| - 1], b[|b| - 1];
      assert a + b == a + c + [k] && b == c + [k];
      EmitConcat(rows, a, c, v);
      EmitSnoc(rows, a + c, k, v);
      EmitSnoc(rows, c, k, v);
      if Emit(rows, a, v).Ok? && Emit(rows, c, v).Ok? && Emitted(rows[k], v).Ok? {
        var x, y, z := Emit(rows, a, v).value, Emit(rows, c, v).value, Emitted(rows[k], v).value;
        assert x + y + z == x + (y + z);
      }
    }
  }

  /** What one scanned row contributes. */
  function Emitted(item: Item, v: View): Result<seq<Item>> {
    var keep :- if v.filter.None? then Ok(true) else EvalCond(v.filter.value, item, v.env);
    Ok(if keep then [Shown(v, item)] else [])
  }

  lemma EmitSnoc(rows: Rows, ks: seq<Key>, k: Key, v: View)
    requires k in rows && forall j :: j in ks ==> j in rows
    ensures Emit(rows, ks + [k], v) ==
              if Emit(rows, ks, v).Ok? && Emitted(rows[k], v).Ok?
              then Ok(Emit(rows, ks, v).value + Emitted(rows[k], v).value) else Err
  {
    hide EvalCond, Shown;
    assert (ks + [k])[..|ks|] == ks && (ks + [k])[|ks|] == k;
    assert Emit(rows, ks, v).Ok? ==> Emit(rows, ks, v).value + [] == Emit(rows, ks, v).value;
  }

  // ---- Scan and Query as requests with a start key ----

  /** Which rows a request reads, before the start key: all of them, or those of a key condition. */
  datatype Source = ScanAll | QueryBy(preds: seq<Pred>, pk: bytes, forward: bool)

  predicate Forward(s: Source) {
    s.ScanAll? || s.forward
  }

  /** ExclusiveStartKey as one more conjunct; Err for a key of another shape or partition. */
  function StartPreds(t: Table, s: Source, start: Option<Item>): Result<seq<Pred>> {
    var base := if s.ScanAll? then [] else s.preds;
    match start
    case None => Ok(base)
    case Some(key) =>
      var k :- TableKey(t, key);
      if s.ScanAll? then Ok(base + [After(k.pk, k.sk)])
      else if k.pk != s.pk then Err
      else if t.rangeKey == "" then Ok(base)
      else Ok(base + [Sk(if s.forward then Gt else Lt, k.sk)])
  }

  function Request(t: Table, rows: Rows, s: Source, start: Option<Item>, limit: int, v: View): Result<Page> {
    var ps :- StartPreds(t, s, start);
    PageOf(t, rows, ps, Forward(s), limit, v)
  }

  /** A query source is what CompileKeyCondition builds: its first conjunct fixes the partition. */
  predicate WellFormed(s: Source) {
    s.QueryBy? ==> s.preds != [] && s.preds[0] == PkIs(s.pk)
  }

  lemma CompiledSource(n: Cond, t: Table, env: Env, forward: bool)
    requires CompileKeyCondition(n, t, env).Ok?
    ensures var ps := CompileKeyCondition(n, t, env).value;
            ps != [] && ps[0].PkIs? && WellFormed(QueryBy(ps, ps[0].arg, forward))
  {
    hide KeyConditionOf, SkPreds;
  }

  // ---- following LastEvaluatedKey ----

  /** The pages a client collects: the items and ScannedCounts of all of them, in order. fuel is the
      number of requests it is willing to send. */
  function Follow(t: Table, rows: Rows, s: Source, start: Option<Item>, limit: int, v: View, fuel: nat)
    : Result<(seq<Item>, nat)>
    decreases fuel
  {
    if fuel == 0 then Err
    else
      var page :- Request(t, rows, s, start, limit, v);
      if page.last.None? then Ok((page.items, page.scanned))
      else
        var rest :- Follow(t, rows, s, page.last, limit, v, fuel - 1);
        Ok((page.items + rest.0, page.scanned + rest.1))
  }

  /** The rows a source selects, in order. */
  function AllKeys(rows: Rows, s: Source): seq<Key> {
    OrderBy(Matching(rows, if s.ScanAll? then [] else s.preds), Forward(s))
  }

  /** Starting after the i-th selected row selects exactly the rows behind it. */
  lemma StartAfter(t: Table, rows: Rows, s: Source, i: nat)
    requires RowsKeyed(t, rows) && WellFormed(s) && i < |AllKeys(rows, s)|
    requires s.QueryBy? ==> t.rangeKey != ""
    ensures AllKeys(rows, s)[i] in rows
    ensures var start := Some(ExtractKey(t, rows[AllKeys(rows, s)[i]]));
            && StartPreds(t, s, start).Ok?
            && SelectKeys(rows, StartPreds(t, s, start).value, Forward(s), 0) == AllKeys(rows, s)[i + 1..]
  {
    hide KeyBytes, OrderBy, SatAll, Compare, ItemKey, TableKey, ExtractKey;
    var base := if s.ScanAll? then [] else s.preds;
    var k := AllKeys(rows, s)[i];
    assert k in AllKeys(rows, s);
    ExtractedKey(t, rows[k]);
    if s.QueryBy? {
      assert SatAll(base, k) ==> Sat(base[0], k) by {
        SatAllFirst(base, k);
      }
    }
    var p := if s.ScanAll? then After(k.pk, k.sk) else Sk(if s.forward then Gt else Lt, k.sk);
    var rest := Matching(rows, base + [p]);
    forall q ensures q in rest <==> q in Matching(rows, base) && Before(k, q, Forward(s)) {
      SatAllSnoc(base, p, q);
      if SatAll(base, q) {
        if s.QueryBy? {
          SatAllFirst(base, q);
        }
        AfterIsBefore(s, k, q, p);
      }
    }
    assert rest == set q | q in Matching(rows, base) && Before(k, q, Forward(s));
    OrderByAfter(Matching(rows, base), Forward(s), i, rest);
  }

  lemma SatAllFirst(ps: seq<Pred>, k: Key)
    requires ps != [] && SatAll(ps, k)
    ensures Sat(ps[0], k)
  {
  }

  lemma SatAllSnoc(ps: seq<Pred>, p: Pred, k: Key)
    ensures SatAll(ps + [p], k) <==> SatAll(ps, k) && Sat(p, k)
  {
    hide Sat;
    assert (ps + [p])[|ps|] == p;
    assert forall i :: 0 <= i < |ps| ==> (ps + [p])[i] == ps[i];
  }

  /** The start key conjunct means behind the start key in the order of the request. */
  lemma AfterIsBefore(s: Source, k: Key, q: Key, p: Pred)
    requires p == if s.ScanAll? then After(k.pk, k.sk) else Sk(if s.forward then Gt else Lt, k.sk)
    requires s.QueryBy? ==> k.pk == s.pk == q.pk
    ensures Sat(p, q) <==> Before(k, q, Forward(s))
  {
    hide Compare;
    CompareAntisymmetric(k.pk, q.pk);
    CompareAntisymmetric(k.sk, q.sk);
    CompareZero(k.pk, q.pk);
  }

  /** A query over a table without sort key selects at most one row. */
  lemma AtMostOne(t: Table, rows: Rows, s: Source)
    requires RowsKeyed(t, rows) && WellFormed(s) && s.QueryBy? && t.rangeKey == ""
    ensures |AllKeys(rows, s)| <= 1
  {
    hide KeyBytes, OrderBy, SatAll, Compare;
    var ks := AllKeys(rows, s);
    if |ks| > 1 {
      assert ks[0] in ks && ks[1] in ks;
      SatAllFirst(s.preds, ks[0]);
      SatAllFirst(s.preds, ks[1]);
      assert Before(ks[0], ks[1], Forward(s));
      KeyLessTotal(ks[0], ks[1]);
    }
  }

  lemma SelectedAreRows(rows: Rows, s: Source)
    ensures forall k :: k in AllKeys(rows, s) ==> k in rows
  {
    hide SatAll, OrderBy;
  }

  /** start is the LastEvaluatedKey of a page that ended with the i-th selected row. */
  ghost predicate StartsAt(t: Table, rows: Rows, s: Source, i: nat, start: Option<Item>) {
    && i <= |AllKeys(rows, s)|
    && (i == 0 ==> start == None)
    && (i > 0 ==> AllKeys(rows, s)[i - 1] in rows)
    && (i > 0 ==> start == Some(ExtractKey(t, rows[AllKeys(rows, s)[i - 1]])))
    && (i > 0 && s.QueryBy? ==> t.rangeKey != "")
  }

  lemma SelectedFrom(t: Table, rows: Rows, s: Source, i: nat, start: Option<Item>)
    requires RowsKeyed(t, rows) && WellFormed(s) && StartsAt(t, rows, s, i, start)
    ensures StartPreds(t, s, start).Ok?
    ensures SelectKeys(rows, StartPreds(t, s, start).value, Forward(s), 0) == AllKeys(rows, s)[i..]
  {
    hide SatAll, OrderBy, ExtractKey, TableKey;
    if i > 0 {
      StartAfter(t, rows, s, i - 1);
    }
  }

  /** The page that holds the first rows of ks, as many as the limit allows. */
  function PageFrom(t: Table, rows: Rows, ks: seq<Key>, limit: int, v: View): Result<Page>
    requires forall k :: k in ks ==> k in rows
  {
    var n := if 0 < limit < |ks| then limit else |ks|;
    var items :- Emit(rows, ks[..n], v);
    Ok(Page(items, n, if n < |ks| then Some(ExtractKey(t, rows[ks[n - 1]])) else None))
  }

  lemma PageOfKeys(t: Table, rows: Rows, ps: seq<Pred>, forward: bool, limit: int, v: View)
    ensures var ks := SelectKeys(rows, ps, forward, 0);
            && (forall k :: k in ks ==> k in rows)
            && PageOf(t, rows, ps, forward, limit, v) == PageFrom(t, rows, ks, limit, v)
  {
    hide SelectKeys, ExtractKey, Emit;
    var ks := SelectKeys(rows, ps, forward, 0);
    TakenAreRows(rows, ps, forward, 0, |ks|);
    assert ks[..|ks|] == ks;
  }

  /** One request behind the first i selected rows reads the next rows. */
  lemma PageAt(t: Table, rows: Rows, s: Source, i: nat, start: Option<Item>, limit: int, v: View)
    requires RowsKeyed(t, rows) && WellFormed(s) && StartsAt(t, rows, s, i, start)
    ensures forall k :: k in AllKeys(rows, s)[i..] ==> k in rows
    ensures Request(t, rows, s, start, limit, v) == PageFrom(t, rows, AllKeys(rows, s)[i..], limit, v)
  {
    hide SelectKeys, PageFrom, PageOf, StartPreds, RowsKeyed, WellFormed, StartsAt, AllKeys;
    SelectedFrom(t, rows, s, i, start);
    PageOfKeys(t, rows, StartPreds(t, s, start).value, Forward(s), limit, v);
  }

  lemma {:induction false} FollowFrom(t: Table, rows: Rows, s: Source, i: nat, start: Option<Item>, limit: int,
                                      v: View, fuel: nat)
    requires RowsKeyed(t, rows) && WellFormed(s) && StartsAt(t, rows, s, i, start)
    requires forall k :: k in AllKeys(rows, s) ==> k in rows
    requires limit > 0 && fuel > |AllKeys(rows, s)| - i
    ensures Follow(t, rows, s, start, limit, v, fuel) ==
              match Emit(rows, AllKeys(rows, s)[i..], v)
              case Err => Err
              case Ok(items) => Ok((items, |AllKeys(rows, s)| - i))
    decreases fuel
  {
    hide SatAll, OrderBy, ExtractKey, Emit, Request, AllKeys, RowsKeyed, WellFormed;
    var all := AllKeys(rows, s);
    var ks := all[i..];
    PageAt(t, rows, s, i, start, limit, v);
    if limit < |ks| {
      var next := Some(ExtractKey(t, rows[ks[limit - 1]]));
      assert ks[limit - 1] == all[i + limit - 1];
      if s.QueryBy? && t.rangeKey == "" {
        AtMostOne(t, rows, s);
        assert false;
      }
      FollowFrom(t, rows, s, i + limit, next, limit, v, fuel - 1);
      EmitConcat(rows, ks[..limit], all[i + limit..], v);
      assert ks == ks[..limit] + all[i + limit..];
    } else {
      assert ks[..|ks|] == ks;
    }
  }

  /** Paging is lossless: on an unchanged table and for any limit of at least 1, following
      LastEvaluatedKey ends, and the pages joined are what one request without limit returns: the same
      items in the same order and the same ScannedCount; it fails exactly when that request fails. */
  lemma PagingLossless(t: Table, rows: Rows, s: Source, limit: int, v: View, fuel: nat)
    requires RowsKeyed(t, rows) && WellFormed(s)
    requires limit > 0 && fuel > |AllKeys(rows, s)|
    ensures Follow(t, rows, s, None, limit, v, fuel) ==
              match Request(t, rows, s, None, 0, v)
              case Err => Err
              case Ok(page) => Ok((page.items, page.scanned))
    ensures Request(t, rows, s, None, 0, v).Ok? ==> Request(t, rows, s, None, 0, v).value.last == None
  {
    hide SatAll, OrderBy, ExtractKey, Emit, Request, AllKeys, Follow;
    SelectedAreRows(rows, s);
    var all := AllKeys(rows, s);
    assert all[0..] == all && all[..|all|] == all;
    FollowFrom(t, rows, s, 0, None, limit, v, fuel);
    PageAt(t, rows, s, 0, None, 0, v);
  }

  /** Without limit every selected row is read once, in key order. */
  lemma UnlimitedReadsAll(t: Table, rows: Rows, s: Source, v: View)
    requires RowsKeyed(t, rows) && WellFormed(s)
    ensures var ks := AllKeys(rows, s);
            && SortedKeys(ks, Forward(s))
            && (forall k :: k in ks <==> k in rows && (s.QueryBy? ==> SatAll(s.preds, k)))
            && Request(t, rows, s, None, 0, v) ==
                 match Emit(rows, ks, v) case Err => Err case Ok(items) => Ok(Page(items, |ks|, None))
  {
    hide Emit;
    SelectedAreRows(rows, s);
  }

  /** The source that a compiled key condition gives. */
  function Compiled(n: Cond, t: Table, env: Env, forward: bool): Source
    requires CompileKeyCondition(n, t, env).Ok?
  {
    CompiledSource(n, t, env, forward);
    var ps := CompileKeyCondition(n, t, env).value;
    QueryBy(ps, ps[0].arg, forward)
  }

  /** The rows on whose items an expression is true. */
  function TrueRows(rows: Rows, n: Cond, env: Env): set<Key> {
    set k | k in rows && EvalCond(n, rows[k], env) == Ok(true)
  }

  /** From the expression to the collected pages: following LastEvaluatedKey with any limit returns what
      evaluating the key condition expression on every stored item, keeping those where it is true and
      sorting them by key returns. */
  lemma QueryIsFilterAndSort(t: Table, rows: Rows, n: Cond, env: Env, forward: bool, limit: int, v: View, fuel: nat)
    requires RowsKeyed(t, rows) && CompileKeyCondition(n, t, env).Ok?
    requires limit > 0 && fuel > |AllKeys(rows, Compiled(n, t, env, forward))|
    ensures var s := Compiled(n, t, env, forward);
            var ks := OrderBy(TrueRows(rows, n, env), forward);
            && (forall k :: k in ks ==> k in rows)
            && Follow(t, rows, s, None, limit, v, fuel) ==
                 match Emit(rows, ks, v) case Err => Err case Ok(items) => Ok((items, |ks|))
  {
    hide SatAll, EvalCond, CompileKeyCondition, OrderBy, Emit, Follow, Request, ItemKey;
    var s := Compiled(n, t, env, forward);
    CompiledSource(n, t, env, forward);
    forall k | k in rows
      ensures SatAll(s.preds, k) <==> EvalCond(n, rows[k], env) == Ok(true)
    {
      CompilationSelects(n, t, env, rows[k], k);
    }
    assert Matching(rows, s.preds) == TrueRows(rows, n, env);
    UnlimitedReadsAll(t, rows, s, v);
    PagingLossless(t, rows, s, limit, v, fuel);
  }
}
