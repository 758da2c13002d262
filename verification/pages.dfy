/** What Query and Scan return, told from the stored rows (ops_item.go): which rows, in which order, and what is shown
    of each. */
module Pages {
  import opened Wrappers
  import opened Bytes
  import opened Values
  import opened Paths
  import opened Expressions
  import opened Conditions
  import opened Projection
  import opened KeyEncoding
  import opened Limits
  import opened Tables
  import opened QueryCompiler
  import opened RowOrder
  import opened Paging

  // ---- what is shown of a row ----

  /** Paths of names that do not overlap: each resolves as in the row, and whatever resolves is a prefix or an extension
      of one that does. */
  ghost predicate ShowsOnly(paths: seq<Path>, row: Item, shown: Item) {
    && (forall i :: 0 <= i < |paths| ==> Get(M(shown), paths[i]) == Get(M(row), paths[i]))
    && (forall q: Path :: Get(M(shown), q).Some? ==>
          exists i :: 0 <= i < |paths| && (paths[i] <= q || q <= paths[i]) && Get(M(row), paths[i]).Some?)
  }

  predicate PlainPaths(paths: seq<Path>) {
    (forall i, k :: 0 <= i < |paths| && 0 <= k < |paths[i]| ==> paths[i][k].Name?) &&
    (forall i, j :: 0 <= i < j < |paths| ==> !(paths[i] <= paths[j]) && !(paths[j] <= paths[i]))
  }

  /** The row itself without a projection, and otherwise its projection. */
  ghost predicate Shows(v: View, row: Item, shown: Item) {
    match v.projection
    case None => shown == row
    case Some(paths) => shown == Projected(row, paths) && (PlainPaths(paths) ==> ShowsOnly(paths, row, shown))
  }

  lemma ProjectedShows(paths: seq<Path>, row: Item)
    requires PlainPaths(paths)
    ensures ShowsOnly(paths, row, Projected(row, paths))
  {
    hide Projected, Overlap, Get;
    var shown := Projected(row, paths);
    forall i, j | 0 <= i < j < |paths| ensures !Overlap(paths[i], paths[j]) {
      OverlapIff(paths[i], paths[j]);
    }
    assert forall i :: 0 <= i < |paths| ==> NamesOnly(paths[i]);
    forall i | 0 <= i < |paths| ensures Get(M(shown), paths[i]) == Get(M(row), paths[i]) {
      ProjectedExactly(row, paths, i);
    }
    forall q: Path | Get(M(shown), q).Some?
      ensures exists i :: 0 <= i < |paths| && (paths[i] <= q || q <= paths[i]) && Get(M(row), paths[i]).Some?
    {
      NothingElseProjected(row, paths, q);
      var i :| 0 <= i < |paths| && Overlap(paths[i], q) && ResolvePath(row, paths[i]).Some?;
      OverlapIff(paths[i], q);
    }
  }

  lemma ShownShows(v: View, row: Item)
    ensures Shows(v, row, Shown(v, row))
  {
    hide Projected, ShowsOnly, PlainPaths;
    if v.projection.Some? && PlainPaths(v.projection.value) {
      ProjectedShows(v.projection.value, row);
    }
  }

  // ---- which rows are shown ----

  ghost predicate FilterFails(v: View, row: Item) {
    v.filter.Some? && Fails(v.filter.value, row, v.env)
  }

  ghost predicate PassesFilter(v: View, row: Item) {
    v.filter.None? || Truth(v.filter.value, row, v.env)
  }

  /** The items show the rows under the given keys, one each, in order. */
  ghost predicate ShowsRows(rows: Rows, v: View, kept: seq<Key>, items: seq<Item>) {
    |items| == |kept| && forall i :: 0 <= i < |kept| ==> kept[i] in rows && Shows(v, rows[kept[i]], items[i])
  }

  lemma EmittedMeans(row: Item, v: View)
    ensures Emitted(row, v) == if FilterFails(v, row) then Err
                               else Ok(if PassesFilter(v, row) then [Shown(v, row)] else [])
  {
    hide EvalCond, Shown, Fails, Truth;
    if v.filter.Some? {
      EvaluationMeans(v.filter.value, row, v.env);
    }
  }

  /** The rows that are read, in their order, without those that the filter drops; or a failure of the filter. */
  lemma {:induction false} EmitMeans(rows: Rows, ks: seq<Key>, v: View, forward: bool) returns (kept: seq<Key>)
    requires SortedKeys(ks, forward) && forall k :: k in ks ==> k in rows
    ensures Emit(rows, ks, v).Err? <==> exists k :: k in ks && FilterFails(v, rows[k])
    ensures Emit(rows, ks, v).Ok? ==> ShowsRows(rows, v, kept, Emit(rows, ks, v).value)
    ensures SortedKeys(kept, forward)
    ensures forall k :: k in kept <==> k in ks && PassesFilter(v, rows[k])
    decreases |ks|
  {
    hide Emitted, Shown, FilterFails, PassesFilter, Shows, Before;
    kept := [];
    if ks != [] {
      var n := |ks| - 1;
      var init, k := ks[..n], ks[n];
      assert ks == init + [k];
      kept := EmitMeans(rows, init, v, forward);
      EmittedMeans(rows[k], v);
      ShownShows(v, rows[k]);
      EmitSnoc(rows, init, k, v);
      hide Emit;
      if PassesFilter(v, rows[k]) {
        SortedSnoc(ks, kept, forward);
        kept := kept + [k];
      }
    }
  }

  /** The last of a sorted sequence stays behind any of the others. */
  lemma SortedSnoc(ks: seq<Key>, kept: seq<Key>, forward: bool)
    requires SortedKeys(ks, forward) && ks != [] && SortedKeys(kept, forward)
    requires forall k :: k in kept ==> k in ks[..|ks| - 1]
    ensures SortedKeys(kept + [ks[|ks| - 1]], forward)
  {
    hide Before;
    forall i | 0 <= i < |kept| ensures Before(kept[i], ks[|ks| - 1], forward) {
      assert kept[i] in kept;
      assert kept[i] in ks[..|ks| - 1];
      var j :| 0 <= j < |ks| - 1 && ks[j] == kept[i];
    }
  }

  // ---- the order ----

  /** The values of attribute n follow one another in their own order, or in the reverse order. */
  ghost predicate Follows(n: string, a: Item, b: Item, forward: bool) {
    && n in a && n in b && Ordered(a[n], b[n]) && Ordered(b[n], a[n])
    && if forward then Less(a[n], b[n]) else Less(b[n], a[n])
  }

  /** Within a partition, rows are read in the order of their sort key values. */
  lemma KeysInOrder(t: Table, a: Item, b: Item, j: Key, k: Key, forward: bool)
    requires ItemKey(t, a) == Ok(j) && ItemKey(t, b) == Ok(k) && j.pk == k.pk && Before(j, k, forward)
    ensures t.rangeKey != "" && Follows(t.rangeKey, a, b, forward)
  {
    hide KeyBytes, Compare, CompareOrder, Ordered, Less;
    CompareZero(j.pk, k.pk);
    CompareZero(j.sk, k.sk);
    CompareAntisymmetric(j.pk, k.pk);
    CompareAntisymmetric(j.sk, k.sk);
    if t.rangeKey != "" {
      KeyOrder(a[t.rangeKey], b[t.rangeKey]);
      OrderDecides(a[t.rangeKey], b[t.rangeKey]);
      OrderedBoth(a[t.rangeKey], b[t.rangeKey]);
    }
  }

  /** The keys follow one another as byte strings, first the partition key and then the sort key. */
  ghost predicate BytesFollow(j: Key, k: Key) {
    BytesLess(j.pk, k.pk) || (j.pk == k.pk && BytesLess(j.sk, k.sk))
  }

  lemma BeforeIsBytes(j: Key, k: Key)
    ensures Before(j, k, true) <==> BytesFollow(j, k)
  {
    hide Compare, BytesLess;
    CompareIsOrder(j.pk, k.pk);
    CompareIsOrder(j.sk, k.sk);
  }

  // ---- all pages ----

  /** The rows of which an expression is true. */
  ghost function Selected(rows: Rows, n: Cond, env: Env): set<Key> {
    set k | k in rows && !Fails(n, rows[k], env) && Truth(n, rows[k], env)
  }

  /** Reading the selected rows fails exactly if the filter cannot be evaluated on one of them. Otherwise it gives one
      item for each of them that passes the filter, and counts them all. */
  ghost predicate Returned(rows: Rows, selected: set<Key>, v: View, r: Result<(seq<Item>, nat)>, kept: seq<Key>) {
    && (r.Err? <==> exists k :: k in selected && k in rows && FilterFails(v, rows[k]))
    && (r.Ok? ==> ShowsRows(rows, v, kept, r.value.0) && r.value.1 == |selected|)
    && (forall k :: k in kept <==> k in selected && k in rows && PassesFilter(v, rows[k]))
  }

  /** Two rows in the order of their sort key values, or in the reverse order. */
  ghost predicate InSortOrder(t: Table, rows: Rows, j: Key, k: Key, forward: bool) {
    j in rows && k in rows && t.rangeKey != "" && Follows(t.rangeKey, rows[j], rows[k], forward)
  }

  ghost predicate BySortKey(t: Table, rows: Rows, kept: seq<Key>, forward: bool) {
    forall i, j :: 0 <= i < j < |kept| ==> InSortOrder(t, rows, kept[i], kept[j], forward)
  }

  lemma {:induction false} OrderedCount(s: set<Key>, forward: bool)
    ensures |OrderBy(s, forward)| == |s|
    decreases s
  {
    if s != {} {
      OrderedCount(s - {First(s, forward)}, forward);
    }
  }

  lemma {:induction false} SubsetIsSmaller<T>(a: set<T>, b: set<T>)
    requires a <= b
    ensures |a| <= |b|
  {
    if x :| x in a {
      SubsetIsSmaller(a - {x}, b - {x});
    }
  }

  lemma AsManyKeys(rows: Rows, s: Source)
    ensures |AllKeys(rows, s)| <= |rows|
  {
    hide SatAll, OrderBy;
    var selected := Matching(rows, if s.ScanAll? then [] else s.preds);
    OrderedCount(selected, Forward(s));
    SubsetIsSmaller(selected, rows.Keys);
    assert |rows| == |rows.Keys|;
  }

  lemma TrueIsSelected(rows: Rows, n: Cond, env: Env)
    ensures TrueRows(rows, n, env) == Selected(rows, n, env)
  {
    hide EvalCond, Fails, Truth;
    forall k | k in rows
      ensures EvalCond(n, rows[k], env) == Ok(true) <==> !Fails(n, rows[k], env) && Truth(n, rows[k], env)
    {
      EvaluationMeans(n, rows[k], env);
    }
    assert forall k :: k in TrueRows(rows, n, env) <==> k in Selected(rows, n, env);
  }

  /** Reading keys in their order, as a client that collects all pages sees it. */
  lemma EmitReturned(rows: Rows, ks: seq<Key>, selected: set<Key>, v: View, forward: bool) returns (kept: seq<Key>)
    requires SortedKeys(ks, forward) && |ks| == |selected|
    requires forall k :: k in ks <==> k in selected
    requires forall k :: k in ks ==> k in rows
    ensures Returned(rows, selected, v,
                     match Emit(rows, ks, v) case Err => Err case Ok(items) => Ok((items, |ks|)), kept)
    ensures SortedKeys(kept, forward)
  {
    hide Emit, FilterFails, PassesFilter, ShowsRows, Before;
    kept := EmitMeans(rows, ks, v, forward);
  }

  /** A key condition fixes the partition. */
  lemma SamePartition(t: Table, rows: Rows, n: Cond, env: Env, j: Key, k: Key)
    requires RowsKeyed(t, rows) && CompileKeyCondition(n, t, env).Ok?
    requires j in TrueRows(rows, n, env) && k in TrueRows(rows, n, env)
    ensures j.pk == k.pk
  {
    hide EvalCond, CompileKeyCondition, SatAll, ItemKey;
    var ps := CompileKeyCondition(n, t, env).value;
    CompiledSource(n, t, env, true);
    CompilationSelects(n, t, env, rows[j], j);
    CompilationSelects(n, t, env, rows[k], k);
    SatAllFirst(ps, j);
    SatAllFirst(ps, k);
  }

  /** Query: following LastEvaluatedKey with any limit returns the rows of which key condition and filter are true, in
      the order of the sort key, and counts those of which the key condition is. */
  lemma QueryReturns(t: Table, rows: Rows, n: Cond, env: Env, forward: bool, limit: int, v: View, fuel: nat)
    returns (kept: seq<Key>)
    requires RowsKeyed(t, rows) && CompileKeyCondition(n, t, env).Ok? && limit > 0 && fuel > |rows|
    ensures Returned(rows, Selected(rows, n, env), v,
                     Follow(t, rows, Compiled(n, t, env, forward), None, limit, v, fuel), kept)
    ensures BySortKey(t, rows, kept, forward)
  {
    hide EvalCond, CompileKeyCondition, OrderBy, Emit, Follow, ItemKey, AllKeys, Returned, Selected, Compiled;
    hide Before, Follows;
    var ks := OrderBy(TrueRows(rows, n, env), forward);
    AsManyKeys(rows, Compiled(n, t, env, forward));
    QueryIsFilterAndSort(t, rows, n, env, forward, limit, v, fuel);
    TrueIsSelected(rows, n, env);
    OrderedCount(TrueRows(rows, n, env), forward);
    kept := EmitReturned(rows, ks, Selected(rows, n, env), v, forward);
    KeptAreSelected(rows, TrueRows(rows, n, env), v,
                    Follow(t, rows, Compiled(n, t, env, forward), None, limit, v, fuel), kept);
    forall i, j | 0 <= i < j < |kept|
      ensures InSortOrder(t, rows, kept[i], kept[j], forward)
    {
      assert kept[i] in kept && kept[j] in kept;
      SamePartition(t, rows, n, env, kept[i], kept[j]);
      KeysInOrder(t, rows[kept[i]], rows[kept[j]], kept[i], kept[j], forward);
    }
  }

  lemma KeptAreSelected(rows: Rows, selected: set<Key>, v: View, r: Result<(seq<Item>, nat)>, kept: seq<Key>)
    requires Returned(rows, selected, v, r, kept)
    ensures forall k :: k in kept ==> k in selected && k in rows
  {
    hide FilterFails, PassesFilter, ShowsRows;
  }

  /** Scan: all rows that pass the filter, in the order of their key bytes. */
  lemma ScanReturns(t: Table, rows: Rows, limit: int, v: View, fuel: nat) returns (kept: seq<Key>)
    requires RowsKeyed(t, rows) && limit > 0 && fuel > |rows|
    ensures Returned(rows, rows.Keys, v, Follow(t, rows, ScanAll, None, limit, v, fuel), kept)
    ensures forall i, j :: 0 <= i < j < |kept| ==> BytesFollow(kept[i], kept[j])
  {
    hide OrderBy, Emit, Follow, Request, RowsKeyed, Returned, Before, BytesFollow;
    var ks := AllKeys(rows, ScanAll);
    AsManyKeys(rows, ScanAll);
    UnlimitedReadsAll(t, rows, ScanAll, v);
    PagingLossless(t, rows, ScanAll, limit, v, fuel);
    OrderedCount(rows.Keys, true);
    assert Matching(rows, []) == rows.Keys;
    kept := EmitReturned(rows, ks, rows.Keys, v, true);
    forall i, j | 0 <= i < j < |kept| ensures BytesFollow(kept[i], kept[j]) {
      BeforeIsBytes(kept[i], kept[j]);
    }
  }

  // ---- one page ----

  /** A start key is a request key of the table, and in a query one of the partition. */
  predicate IsStart(t: Table, s: Source, key: Item, k: Key) {
    IsKey(t, key, k) && (s.QueryBy? ==> k.pk == s.pk)
  }

  /** Behind the start key in the order of the request; a query of a table without sort key ignores its start key. */
  ghost predicate BehindStart(t: Table, s: Source, start: Option<Key>, q: Key) {
    start.None? || (s.QueryBy? && t.rangeKey == "") ||
    if Forward(s) then BytesFollow(start.value, q) else BytesFollow(q, start.value)
  }

  lemma StartSelects(t: Table, s: Source, key: Item, k: Key)
    requires WellFormed(s) && IsStart(t, s, key, k)
    ensures StartPreds(t, s, Some(key)).Ok?
    ensures forall q :: SatAll(StartPreds(t, s, Some(key)).value, q) <==>
                        (s.QueryBy? ==> SatAll(s.preds, q)) && BehindStart(t, s, Some(k), q)
  {
    hide TableKey, IsKey, SatAll, Before, BytesFollow;
    TableKeyIff(t, key, k);
    NothingToSatisfy();
    var ps := StartPreds(t, s, Some(key)).value;
    var base := if s.ScanAll? then [] else s.preds;
    forall q ensures SatAll(ps, q) <==> SatAll(base, q) && BehindStart(t, s, Some(k), q) {
      BeforeIsBytes(k, q);
      BeforeIsBytes(q, k);
      Backward(k, q);
      if s.QueryBy? && SatAll(base, q) {
        SatAllFirst(base, q);
      }
      if s.ScanAll? {
        SatAllSnoc(base, After(k.pk, k.sk), q);
        AfterIsBefore(s, k, q, After(k.pk, k.sk));
      } else if t.rangeKey != "" {
        SatAllSnoc(base, Sk(if s.forward then Gt else Lt, k.sk), q);
        if SatAll(base, q) {
          AfterIsBefore(s, k, q, Sk(if s.forward then Gt else Lt, k.sk));
        }
      }
    }
  }

  lemma Backward(j: Key, k: Key)
    ensures Before(j, k, false) <==> Before(k, j, true)
  {
  }

  lemma NothingToSatisfy()
    ensures forall q :: SatAll([], q)
  {
  }

  /** The rows that a request reads from, in order. */
  ghost predicate ReadFrom(t: Table, rows: Rows, s: Source, start: Option<Key>, all: seq<Key>) {
    && SortedKeys(all, Forward(s))
    && forall q :: q in all <==> q in rows && (s.QueryBy? ==> SatAll(s.preds, q)) && BehindStart(t, s, start, q)
  }

  lemma RequestReads(t: Table, rows: Rows, s: Source, start: Option<Item>, k: Option<Key>, limit: int, v: View)
    returns (all: seq<Key>)
    requires WellFormed(s) && (start.Some? <==> k.Some?) && (start.Some? ==> IsStart(t, s, start.value, k.value))
    ensures ReadFrom(t, rows, s, k, all) && forall q :: q in all ==> q in rows
    ensures Request(t, rows, s, start, limit, v) == PageFrom(t, rows, all, limit, v)
  {
    hide SatAll, OrderBy, PageFrom, PageOf, IsStart, BehindStart, WellFormed;
    NothingToSatisfy();
    if start.Some? {
      StartSelects(t, s, start.value, k.value);
    } else {
      NoStart(t, s);
    }
    var ps := StartPreds(t, s, start).value;
    all := SelectKeys(rows, ps, Forward(s), 0);
    PageOfKeys(t, rows, ps, Forward(s), limit, v);
  }

  lemma NoStart(t: Table, s: Source)
    ensures forall q :: BehindStart(t, s, None, q)
  {
  }

  /** The key attributes of the item. */
  ghost predicate IsKeyOf(t: Table, item: Item, key: Item) {
    && (forall n :: n in key <==> n in item && (n == t.hashKey || (t.rangeKey != "" && n == t.rangeKey)))
    && (forall n :: n in key ==> n in item && key[n] == item[n])
  }

  /** A page counts the rows behind the start key up to the limit, shows those of them that pass the filter, and
      carries the key of the last one if more follow. */
  lemma PageReturns(t: Table, rows: Rows, s: Source, start: Option<Item>, k: Option<Key>, limit: int, v: View)
    returns (all: seq<Key>, kept: seq<Key>)
    requires WellFormed(s) && (start.Some? <==> k.Some?) && (start.Some? ==> IsStart(t, s, start.value, k.value))
    ensures ReadFrom(t, rows, s, k, all)
    ensures var r, end := Request(t, rows, s, start, limit, v), if 0 < limit < |all| then limit else |all|;
            && (r.Err? <==> exists q :: q in all[..end] && q in rows && FilterFails(v, rows[q]))
            && (forall q :: q in kept <==> q in all[..end] && q in rows && PassesFilter(v, rows[q]))
            && SortedKeys(kept, Forward(s))
            && (r.Ok? ==> ShowsRows(rows, v, kept, r.value.items) && r.value.scanned == end)
            && (r.Ok? ==> if end < |all|
                          then all[end - 1] in rows && r.value.last.Some? &&
                               IsKeyOf(t, rows[all[end - 1]], r.value.last.value)
                          else r.value.last == None)
  {
    hide WellFormed, IsStart, Emit, FilterFails, PassesFilter, ShowsRows, Before, Request, SatAll, BehindStart;
    hide ExtractKey, IsKeyOf;
    all := RequestReads(t, rows, s, start, k, limit, v);
    var end := if 0 < limit < |all| then limit else |all|;
    assert forall i :: 0 <= i < end ==> all[..end][i] == all[i];
    forall q | q in all[..end] ensures q in rows {
      assert q in all;
    }
    kept := EmitMeans(rows, all[..end], v, Forward(s));
    if end < |all| {
      assert all[end - 1] in all;
      ExtractIsKey(t, rows[all[end - 1]]);
    }
  }

  lemma ExtractIsKey(t: Table, item: Item)
    ensures IsKeyOf(t, item, ExtractKey(t, item))
  {
  }

  /** A start key that is none fails. */
  lemma BadStart(t: Table, rows: Rows, s: Source, key: Item, limit: int, v: View)
    requires forall k :: !IsStart(t, s, key, k)
    ensures Request(t, rows, s, Some(key), limit, v) == Err
  {
    hide TableKey, IsKey, PageOf;
    if TableKey(t, key).Ok? {
      TableKeyIff(t, key, TableKey(t, key).value);
      assert !IsStart(t, s, key, TableKey(t, key).value);
    }
  }
}
