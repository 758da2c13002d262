/** SET p = r together with a REMOVE, for any three paths (update.go applyUpdate): what is removed below r is
    gone at p as well. */
module CopyAndRemove {
  import opened Wrappers
  import opened Values
  import opened Paths
  import opened Expressions
  import opened Updates
  import opened RemoveSort
  import opened UpdateOrder
  import opened RunOrders
  import opened Places
  import opened References
  import opened Reading
  import opened InPlace
  import opened Dropping
  import opened RightHandSides
  import opened UpdatesByReference
  import opened SharedWrites
  import opened SharedRemovals
  import opened Cuts
  import opened SetPairs

  // ---- on values ----

  /** Removing below something is writing it back changed. */
  lemma {:induction false} RemoveBelowPlace(v: AV, r: seq<Elem>, s: seq<Elem>)
    requires Get(v, r).Some? && s != []
    ensures RemoveIn(v, r + s) == match RemoveIn(Get(v, r).value, s) case Err => Err case Ok(y) => Put(v, r, y)
    decreases |r|
  {
    hide WithChild, Child;
    if r == [] {
      assert r + s == s;
    } else {
      assert (r + s)[0] == r[0] && (r + s)[1..] == r[1..] + s;
      RemoveBelowPlace(Child(v, r[0]).value, r[1..], s);
    }
  }

  /** Whether a removal succeeds does not depend on what was written elsewhere. */
  lemma {:induction false} WrittenIrrelevant(v: AV, p: seq<Elem>, x: AV, z: AV, q: seq<Elem>)
    requires !Overlap(p, q) && Put(v, p, x).Ok? && Put(v, p, z).Ok?
    ensures RemoveIn(Put(v, p, x).value, q).Ok? <==> RemoveIn(Put(v, p, z).value, q).Ok?
    decreases |q|
  {
    var c := ChildOrNew(v, p[0]);
    var a, b := Put(c, p[1..], x).value, Put(c, p[1..], z).value;
    ChildOfWithChild(v, p[0], q[0], a);
    ChildOfWithChild(v, p[0], q[0], b);
    if |q| > 1 {
      if q[0] == p[0] {
        WrittenIrrelevant(c, p[1..], x, z, q[1..]);
      }
      hide RemoveIn, Put, WithChild;
      DownIrrelevant(Put(v, p, x).value, q);
      DownIrrelevant(Put(v, p, z).value, q);
    }
  }

  lemma DownIrrelevant(v: AV, q: seq<Elem>)
    requires |q| > 1
    ensures RemoveIn(v, q).Ok? <==> Child(v, q[0]).None? || RemoveIn(Child(v, q[0]).value, q[1..]).Ok?
  {
  }

  /** A removal that succeeds changes something if and only if its path is there. */
  lemma RemovesNothingIff(v: AV, q: seq<Elem>)
    requires q != [] && RemoveIn(v, q).Ok?
    ensures RemoveIn(v, q).value == v <==> Get(v, q).None?
  {
    hide Get, Put, RemoveIn, WithoutChild, Child;
    assert q == Parent(q) + [Last(q)];
    GetSnoc(v, Parent(q), Last(q));
    RemoveInParent(v, q);
    if Get(v, Parent(q)).Some? {
      var c := Get(v, Parent(q)).value;
      var d := WithoutChild(c, Last(q)).value;
      PutOfGet(v, Parent(q));
      GetOfPut(v, Parent(q), d);
      TakesNothingIff(c, Last(q));
    }
  }

  lemma TakesNothingIff(c: AV, e: Elem)
    requires WithoutChild(c, e).Ok?
    ensures WithoutChild(c, e).value == c <==> Child(c, e).None?
  {
    match e {
      case Index(i) => assert |c.elems[..i] + c.elems[i + 1..]| == |c.elems| - 1;
      case Name(n) => assert n !in c.attrs ==> c.attrs - {n} == c.attrs;
    }
  }

  lemma RemoveThenCopy(item: Item, env: Env, p: Path, r: Path, q: Path)
    ensures Both(CopySet(p, r), Remove(q), item, env) ==
              match ResolvePath(item, r)
              case None => Err
              case Some(x) => match SetPath(item, p, x) case Err => Err case Ok(d) => RemovePath(d, q)
    ensures Both(Remove(q), CopySet(p, r), item, env) ==
              match RemovePath(item, q)
              case Err => Err
              case Ok(d) => match ResolvePath(d, r) case None => Err case Some(y) => SetPath(d, p, y)
  {
    hide Put, Get, RemoveIn;
  }

  /** With q below r: the two orders in terms of what is at r, before and after the removal. */
  lemma BothBelow(item: Item, env: Env, p: Path, r: Path, q: Path, x: AV)
    requires !Overlap(p, r) && r < q && ResolvePath(item, r) == Some(x)
    ensures var v, y := M(item), RemoveIn(x, q[|r|..]);
            if y.Ok? && Put(v, p, x).Ok? then
              && Put(v, r, y.value).Ok? && Then(Put(v, p, x), r, y.value).Ok?
              && Then(Put(v, r, y.value), p, y.value).Ok?
              && Both(CopySet(p, r), Remove(q), item, env).Ok? && Both(Remove(q), CopySet(p, r), item, env).Ok?
              && M(Both(CopySet(p, r), Remove(q), item, env).value) == Then(Put(v, p, x), r, y.value).value
              && M(Both(Remove(q), CopySet(p, r), item, env).value) == Then(Put(v, r, y.value), p, y.value).value
            else
              && Both(CopySet(p, r), Remove(q), item, env).Err? && Both(Remove(q), CopySet(p, r), item, env).Err?
  {
    hide Put, Get, RemoveIn, Both, Overlap;
    var v, s := M(item), q[|r|..];
    assert q == r + s;
    RemoveThenCopy(item, env, p, r, q);
    RemoveBelowPlace(v, r, s);
    if Put(v, p, x).Ok? {
      GetFrame(v, p, x, r);
      RemoveBelowPlace(Put(v, p, x).value, r, s);
    }
    if RemoveIn(x, s).Ok? {
      var y := RemoveIn(x, s).value;
      PutOfGet(v, r);
      PutFails(v, r, x, y);
      GetOfPut(v, r, y);
      PutsCommute(v, p, x, r, y);
      PutFails(Put(v, r, y).value, p, x, y);
      if Put(v, p, x).Ok? {
        PutOfGet(Put(v, p, x).value, r);
        PutFails(Put(v, p, x).value, r, x, y);
      }
    }
  }

  // ---- with references ----

  lemma RemoveAlong(h: Heap, v: Val, r: seq<Elem>, s: seq<Elem>)
    requires Walk(h, v, r).Some? && s != []
    ensures RemoveFrom(h, v, r + s) == RemoveFrom(h, Walk(h, v, r).value, s)
  {
    hide Walk, DropChild;
    assert Parent(r + s) == r + Parent(s) && Last(r + s) == Last(s);
    WalkConcat(h, v, r, Parent(s));
  }

  /** A removal below r is gone at p as well. */
  lemma RemovalShowsTwice(h: Heap, item: Item, values: Env, p: Path, r: Path, n: Val, q: Path, d: Item)
    requires StoredTwice(h, item, values, p, r, n) && !Overlap(p, r) && r < q
    requires InProgress(h, d, {""}) && ResolvePath(item, r).Some?
    ensures var y := RemoveIn(ResolvePath(item, r).value, q[|r|..]);
            && (RemoveFrom(h, Box(ROOT), q).Ok? <==> y.Ok?)
            && (y.Ok? ==>
                  && Then(Put(M(d), r, y.value), p, y.value).Ok?
                  && Denotes(RemoveFrom(h, Box(ROOT), q).value, Box(ROOT),
                             Then(Put(M(d), r, y.value), p, y.value).value))
  {
    hide Walk, RemoveFrom, Sane, Denotes, Put, Then, SameBelow, OnWay, Alone, Overlap, InProgress, Linked, RemoveIn;
    var s, x := q[|r|..], ResolvePath(item, r).value;
    assert q == r + s;
    TwicePlaces(h, item, values, p, r, n);
    RemoveAlong(h, Box(ROOT), r, s);
    SaneProgress(h, d, {""});
    SourceDenotes(h, item, values, p, r, n);
    SourceIsAlone(h, item, values, p, r, n, s);
    RemoveDenotes(h, n, s, x);
    if RemoveIn(x, s).Ok? {
      var h2 := RemoveFrom(h, n, s).value;
      RemoveTouches(h, n, s);
      OnlyBelowSource(h, h2, item, values, p, r, n, s);
      hide StoredTwice;
      ReplacedAtBoth(h, h2, Box(ROOT), M(d), p, r, RemoveIn(x, s).value);
    }
  }

  lemma CopyRemoveRuns(item: Item, p: Path, r: Path, q: Path, values: Env)
    ensures RunOrder([CopySet(p, r), Remove(q)]) == [CopySet(p, r), Remove(q)]
    ensures ApplyUpdate(item, [CopySet(p, r), Remove(q)], values) == Both(CopySet(p, r), Remove(q), item, values)
  {
    hide ApplyAction, Both, ApplyAll, SortRemoves;
    var a, b := CopySet(p, r), Remove(q);
    SortsShort([b]);
    assert [b][..0] == [] && InsertionSort([]) == [] && Insert([], b) == [b] && InsertionSort([b]) == [b];
    assert [a, b][1..] == [b] && [b][1..] == [];
    assert Others([]) == [] && Removes([]) == [] && Others([b]) == [] && Removes([b]) == [b];
    assert Others([a, b]) == [a] && Removes([a, b]) == [b] && [a] + [b] == [a, b];
    UpdateIsRun(item, [a, b], values);
    TwoActions(a, b, item, values);
  }

  /** p does not lie below r, and q does. */
  lemma SharedRemoval(item: Item, values: Env, p: Path, r: Path, q: Path)
    requires !Overlap(p, q) && !(r < p) && r < q && ResolvePath(item, r).Some?
    ensures var h, both := RunRefs(Cloned(item, values), [CopySet(p, r), Remove(q)]),
                           Both(Remove(q), CopySet(p, r), item, values);
            && (h.Ok? <==> both.Ok?)
            && (h.Ok? ==> Denotes(h.value, Box(ROOT), M(both.value)))
  {
    hide Walk, PutIn, Sane, Denotes, Put, Get, Overlap, ApplyRef, InProgress, Linked, Both, StoredTwice, CopySet;
    hide RemoveIn, RunRefs, SetPath;
    var a, h0, x := CopySet(p, r), Cloned(item, values), ResolvePath(item, r).value;
    SourceApart(p, q, r);
    TwoRefs(h0, a, Remove(q));
    CopyRuns(h0, p, r);
    ClonedProgress(item, values, {});
    SaneProgress(h0, item, {});
    PathDenotes(h0, item, {}, r);
    var n := Walk(h0, Box(ROOT), r).value;
    PutSucceeds(h0, Box(ROOT), p, n, M(item), x);
    BothBelow(item, values, p, r, q, x);
    if PutIn(h0, Box(ROOT), p, n).Ok? {
      var h1 := PutIn(h0, Box(ROOT), p, n).value;
      CopyStoresTwice(item, values, p, r, n, h1, "");
      var d := SetPath(item, p, x).value;
      RemovalShowsTwice(h1, item, values, p, r, n, q, d);
      IsRemoval(h1, q);
      WrittenTwice(M(item), p, r, x, RemoveIn(x, q[|r|..]));
    }
  }

  lemma IsRemoval(h: Heap, q: Path)
    ensures ApplyRef(h, Remove(q)) == RemoveFrom(h, Box(ROOT), q)
  {
  }

  lemma WrittenTwice(v: AV, p: seq<Elem>, r: seq<Elem>, x: AV, y: Result<AV>)
    requires !Overlap(p, r) && Put(v, p, x).Ok?
    ensures y.Ok? && Put(v, r, y.value).Ok? ==>
              Then(Put(Put(v, p, x).value, r, y.value), p, y.value) == Then(Put(v, r, y.value), p, y.value)
  {
    hide Put, Overlap;
    if y.Ok? && Put(v, r, y.value).Ok? {
      PutsCommute(v, p, x, r, y.value);
      if Put(Put(v, r, y.value).value, p, x).Ok? {
        PutTwice(Put(v, r, y.value).value, p, x, y.value);
      } else {
        PutFails(Put(v, r, y.value).value, p, x, y.value);
      }
    }
  }

  // ---- a container inside itself ----

  /** The removal takes nothing out of the way to p. */
  lemma WayAfterRemoval(h: Heap, h1: Heap, p: Path, y: Val, q: Path, j: nat, c: Ref)
    requires Sane(h) && Linked(h, Box(ROOT)) && Linked(h, y) && Alone(h, Box(ROOT), p)
    requires PutIn(h, Box(ROOT), p, y) == Ok(h1) && !Overlap(p, q) && RemoveFrom(h1, Box(ROOT), q).Ok?
    requires j < |p| && Walk(h1, Box(ROOT), p[..j]) == Some(Box(c))
    ensures exists f :: ChildVal(RemoveFrom(h1, Box(ROOT), q).value, Box(c), f) == ChildVal(h1, Box(c), p[j])
  {
    hide Walk, PutIn, Sane, Linked, Alone, Overlap, ChildVal, DropChild, WithoutPart;
    var h2 := RemoveFrom(h1, Box(ROOT), q).value;
    if Walk(h1, Box(ROOT), Parent(q)).None? {
      assert ChildVal(h2, Box(c), p[j]) == ChildVal(h1, Box(c), p[j]);
    } else {
      var w := Walk(h1, Box(ROOT), Parent(q)).value;
      DropEffect(h1, w, Last(q));
      if w == Box(c) {
        NotPrefix(p, q, |q| - 1);
        assert Parent(q) == q[..|q| - 1];
        SamePlace(h, h1, p, y, p[..j], Parent(q), c);
        if p[j] == Last(q) {
          LastStep(p, q, j);
        }
        DroppedKids(h1, h2, w, Last(q));
        assert Back(Last(q), Ahead(Last(q), p[j])) == p[j];
        assert ChildVal(h2, Box(c), Ahead(Last(q), p[j])) == ChildVal(h1, Box(c), p[j]);
      } else {
        OtherChild(h1, h2, Box(c), p[j], w.ref);
      }
    }
  }

  /** Where the child at f is after its container lost e. */
  function Ahead(e: Elem, f: Elem): Elem {
    if e.Index? && f.Index? && f.index > e.index then Index(f.index - 1) else f
  }

  lemma ClearUpTo(g: Heap, v: Val, q: seq<Elem>, cut: set<Entry>)
    requires q != [] && Clear(g, v, q, cut)
    ensures Clear(g, v, Parent(q), cut)
  {
    hide Walk;
    assert forall i :: 0 <= i < |q| - 1 ==> Parent(q)[..i] == q[..i];
  }

  lemma RemoveAfterSelfCopy(item: Item, values: Env, p: Path, r: Path, q: Path)
    requires !Overlap(p, q) && r < p
    ensures RunRefs(Cloned(item, values), [CopySet(p, r), Remove(q)]).Ok? <==>
            Both(CopySet(p, r), Remove(q), item, values).Ok?
    ensures RunRefs(Cloned(item, values), [CopySet(p, r), Remove(q)]).Ok? ==>
              Unfold(RunRefs(Cloned(item, values), [CopySet(p, r), Remove(q)]).value, Box(ROOT), {}).None?
  {
    hide Walk, PutIn, Overlap, InProgress, ApplyRef, RunRefs, Unfold, CopySet, Put, Get, Sane, Linked, RemoveFrom;
    hide Similar, Clear, Entries, Denotes, ApplyAction, RemoveIn, Spots, ChildVal, Alone;
    var h := Cloned(item, values);
    TwoRefs(h, CopySet(p, r), Remove(q));
    ClonedProgress(item, values, {});
    CopySucceeds(h, item, p, r);
    RemoveThenCopy(item, values, p, r, q);
    if ApplyRef(h, CopySet(p, r)).Ok? {
      var n, h1, g1, cut := CopyIntoCut(item, values, p, r, q, "");
      var d := SetPath(item, p, NULL(true)).value;
      SaneProgress(g1, d, {""});
      ClearUpTo(g1, Box(ROOT), q, cut);
      SimilarRemove(h1, g1, cut, Box(ROOT), q);
      RemovalDecided(g1, d, q);
      IsRemoval(h1, q);
      CopyNeedsSource(item, values, p, r);
      CopyWrites(item, values, p, r);
      WrittenIrrelevant(M(item), p, ResolvePath(item, r).value, NULL(true), q);
      if RemoveFrom(h1, Box(ROOT), q).Ok? {
        ClonedWay(item, values, p, r, n);
        CopiedTwice(h, p, r, n, h1);
        var h2 := RemoveFrom(h1, Box(ROOT), q).value;
        forall j, c | 0 <= j < |p| && Walk(h1, Box(ROOT), p[..j]) == Some(Box(c))
          ensures exists f :: ChildVal(h2, Box(c), f) == ChildVal(h1, Box(c), p[j])
        {
          WayAfterRemoval(h, h1, p, n, q, j, c);
        }
        CycleChained(h1, h2, p, r);
      }
    }
  }

  lemma CopyWrites(item: Item, values: Env, p: Path, r: Path)
    requires ApplyAction(CopySet(p, r), item, values).Ok? && ResolvePath(item, r).Some?
    ensures SetPath(item, p, ResolvePath(item, r).value).Ok?
  {
    hide Get, Put;
  }

  /** Whether a removal in place succeeds is decided by the document. */
  lemma RemovalDecided(h: Heap, d: Item, q: Path)
    requires Denotes(h, Box(ROOT), M(d))
    ensures RemoveFrom(h, Box(ROOT), q).Ok? <==> RemovePath(d, q).Ok?
  {
    hide RemoveFrom, Denotes, RemoveIn, Spots;
    OneRemoval(h, d, q);
    assert Spots(h, d, q) != [] && Spots(h, d, q)[0] == q by {
      FirstSpot(h, d, q);
    }
  }

  lemma FirstSpot(h: Heap, d: Item, q: Path)
    ensures Spots(h, d, q) != [] && Spots(h, d, q)[0] == q
  {
  }

  // ---- for all paths ----

  lemma CopyRemoveGuarded(p: Path, r: Path, q: Path)
    requires !Overlap(p, q) && !(r < p) && !(r < q)
    ensures ParsedUpdate([CopySet(p, r), Remove(q)])
    ensures NoWriteIntoStored([CopySet(p, r), Remove(q)]) && NoShift([CopySet(p, r), Remove(q)])
  {
    hide Overlap;
    CopyStoresAbove(p, r, p);
    CopyStoresAbove(p, r, q);
  }

  /** SET p = r REMOVE q. If p lies below r, nothing is left, or nothing that can be read. If q does, what is
      removed is gone at p as well, as if the copy were made last. Otherwise the result is that of copying. */
  lemma RemoveByReference(item: Item, values: Env, p: Path, r: Path, q: Path)
    requires !Overlap(p, q)
    ensures ByReference(item, [CopySet(p, r), Remove(q)], values) ==
              if r < p then
                if Both(CopySet(p, r), Remove(q), item, values).Ok? then Endless else Failed
              else if r < q && ResolvePath(item, r).Some? then
                match Both(Remove(q), CopySet(p, r), item, values) case Err => Failed case Ok(d) => Updated(d)
              else ByCopy(item, [CopySet(p, r), Remove(q)], values)
  {
    hide Walk, Denotes, Overlap, RunRefs, Both, CopySet, ApplyUpdate, RunOrder, NoWriteIntoStored, NoShift;
    hide ParsedUpdate, Unfold, ResolvePath;
    CopyRemoveRuns(item, p, r, q, values);
    if r < p {
      RemoveAfterSelfCopy(item, values, p, r, q);
    } else if !(r < q) {
      CopyRemoveGuarded(p, r, q);
      ReferencesAsCopies(item, [CopySet(p, r), Remove(q)], values);
    } else if ResolvePath(item, r).Some? {
      SharedRemoval(item, values, p, r, q);
      var h := RunRefs(Cloned(item, values), [CopySet(p, r), Remove(q)]);
      if h.Ok? {
        DenotedReads(h.value, Both(Remove(q), CopySet(p, r), item, values).value);
      }
    } else {
      UnresolvedFails(item, values, p, r, Remove(q));
    }
  }

  /** With q below r, removing before or after the copy is the same if and only if q is not there. */
  lemma OrderShowsIff(item: Item, env: Env, p: Path, r: Path, q: Path)
    requires !Overlap(p, r) && r < q && ResolvePath(item, r).Some?
    ensures Both(CopySet(p, r), Remove(q), item, env) == Both(Remove(q), CopySet(p, r), item, env) <==>
            Both(CopySet(p, r), Remove(q), item, env).Err? || ResolvePath(item, q).None?
  {
    hide Put, Get, RemoveIn, Both, Overlap, CopySet;
    var v, s, x := M(item), q[|r|..], ResolvePath(item, r).value;
    assert q == r + s;
    BothBelow(item, env, p, r, q, x);
    GetConcat(v, r, s);
    if RemoveIn(x, s).Ok? && Put(v, p, x).Ok? {
      var y := RemoveIn(x, s).value;
      RemovesNothingIff(x, s);
      PutsCommute(v, p, x, r, y);
      GetOfPut(Put(v, r, y).value, p, y);
      OverlapSymmetric(p, r);
      GetFrame(Put(v, p, x).value, r, y, p);
      GetOfPut(v, p, x);
    }
  }

  /** References and copies give the same result for SET p = r REMOVE q if and only if it fails, or p does not
      lie below r and q does not either, or is not there. */
  lemma RemoveAsCopiesIff(item: Item, values: Env, p: Path, r: Path, q: Path)
    requires !Overlap(p, q)
    ensures ByReference(item, [CopySet(p, r), Remove(q)], values) ==
            ByCopy(item, [CopySet(p, r), Remove(q)], values) <==>
            || ByCopy(item, [CopySet(p, r), Remove(q)], values).Failed?
            || (!(r < p) && (!(r < q) || ResolvePath(item, q).None?))
  {
    hide Overlap, Both, CopySet, ApplyUpdate, ResolvePath, ByReference;
    RemoveByReference(item, values, p, r, q);
    CopyRemoveRuns(item, p, r, q, values);
    if !(r < p) && r < q {
      if ResolvePath(item, r).Some? {
        SourceApart(p, q, r);
        OrderShowsIff(item, values, p, r, q);
      } else {
        RemoveThenCopy(item, values, p, r, q);
      }
    }
  }

  /** SET x = m REMOVE m.a[0] shortens the list at x.a as well, which copying leaves as it was. */
  lemma CopyThenShorten(item: Item, values: Env, m: map<string, AV>, u: AV, v: AV)
    requires "m" in item && item["m"] == M(m) && "a" in m && m["a"] == L([u, v])
    ensures var actions := [CopySet([Name("x")], [Name("m")]), Remove([Name("m"), Name("a"), Index(0)])];
            var less := M(m["a" := L([v])]);
            && ParsedUpdate(actions)
            && ByReference(item, actions, values) == Updated(item["m" := less]["x" := less])
            && ByCopy(item, actions, values) == Updated(item["x" := M(m)]["m" := less])
  {
    hide ByReference, Both, ApplyUpdate, ParsedUpdate, ApplyAction;
    var p: Path, r: Path, q: Path := [Name("x")], [Name("m")], [Name("m"), Name("a"), Index(0)];
    var less := M(m["a" := L([v])]);
    assert "x"[0] != "m"[0];
    assert q[..1] == r && !(r < p) && !Overlap(p, q);
    RemoveByReference(item, values, p, r, q);
    CopyRemoveRuns(item, p, r, q, values);
    RemoveThenCopy(item, values, p, r, q);
    ReadTop(item, "m");
    ReadTop(item["m" := less], "m");
    WriteTop(item, "x", M(m));
    WriteTop(item["m" := less], "x", less);
    ShortenM(item, m, u, v);
    ShortenM(item["x" := M(m)], m, u, v);
    TwoTargets(p, q, r);
  }

  lemma TwoTargets(p: Path, q: Path, r: Path)
    requires !Overlap(p, q)
    ensures ParsedUpdate([CopySet(p, r), Remove(q)])
  {
  }

  lemma ReadTop(item: Item, n: string)
    requires n in item
    ensures ResolvePath(item, [Name(n)]) == Some(item[n])
  {
    assert [Name(n)][1..] == [] && Get(item[n], []) == Some(item[n]);
  }

  lemma WriteTop(item: Item, n: string, x: AV)
    ensures SetPath(item, [Name(n)], x) == Ok(item[n := x])
  {
    assert [Name(n)][1..] == [];
    assert Put(ChildOrNew(M(item), Name(n)), [], x) == Ok(x);
  }

  lemma ShortenM(item: Item, m: map<string, AV>, u: AV, v: AV)
    requires "m" in item && item["m"] == M(m) && "a" in m && m["a"] == L([u, v])
    ensures RemovePath(item, [Name("m"), Name("a"), Index(0)]) == Ok(item["m" := M(m["a" := L([v])])])
  {
    var q: Path := [Name("m"), Name("a"), Index(0)];
    assert q[1..] == [Name("a"), Index(0)] && q[1..][1..] == [Index(0)];
    assert [u, v][..0] + [u, v][1..] == [v];
    assert RemoveIn(L([u, v]), [Index(0)]) == Ok(L([v]));
    assert RemoveIn(M(m), q[1..]) == Ok(M(m["a" := L([v])]));
  }
}
