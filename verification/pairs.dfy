/** SET p = r together with a write elsewhere, for any three paths (update.go applyUpdate): when it does what
    copying does, when the order is irrelevant, and when the document is never read to the end. */
module SetPairs {
  import opened Wrappers
  import opened Values
  import opened Paths
  import opened Expressions
  import opened Updates
  import opened RemoveSort
  import opened UpdateOrder
  import opened RunOrders
  import opened References
  import opened Reading
  import opened InPlace
  import opened Dropping
  import opened RightHandSides
  import opened InPlaceSteps
  import opened UpdatesByReference
  import opened SharedWrites
  import opened Cuts

  /** If every container on the way to p still has the next one as some child, there is still a way. */
  lemma {:induction false} ChainStays(h: Heap, h2: Heap, v: Val, p: seq<Elem>) returns (way: seq<Elem>)
    requires Walk(h, v, p).Some?
    requires forall j, c :: 0 <= j < |p| && Walk(h, v, p[..j]) == Some(Box(c)) ==>
               exists f :: ChildVal(h2, Box(c), f) == ChildVal(h, Box(c), p[j])
    ensures |way| == |p| && forall j :: 0 <= j <= |p| ==> Walk(h2, v, way[..j]) == Walk(h, v, p[..j])
    decreases |p|
  {
    hide ChildVal, Walk;
    WalkHere(h, v);
    WalkHere(h2, v);
    if p == [] {
      way := [];
    } else {
      StepOfWalk(h, v, p);
      HasChild(h, v, p[0]);
      var nothing := p[..0];
      assert nothing == [] && v == Box(v.ref);
      assert Walk(h, v, nothing) == Some(Box(v.ref));
      var f :| ChildVal(h2, Box(v.ref), f) == ChildVal(h, Box(v.ref), p[0]);
      var w := ChildVal(h, v, p[0]).value;
      forall j, c | 0 <= j < |p| - 1 && Walk(h, w, p[1..][..j]) == Some(Box(c))
        ensures exists g :: ChildVal(h2, Box(c), g) == ChildVal(h, Box(c), p[1..][j])
      {
        WalkCons(h, v, p[0], p[1..][..j]);
        assert [p[0]] + p[1..][..j] == p[..j + 1] && p[1..][j] == p[j + 1];
      }
      var rest := ChainStays(h, h2, w, p[1..]);
      way := [f] + rest;
      forall j | 0 < j <= |p|
        ensures Walk(h2, v, way[..j]) == Walk(h, v, p[..j])
      {
        assert way[..j] == [f] + rest[..j - 1] && p[..j] == [p[0]] + p[1..][..j - 1];
        WalkCons(h2, v, f, rest[..j - 1]);
        WalkCons(h, v, p[0], p[1..][..j - 1]);
        assert v == Box(v.ref);
      }
      assert way[..0] == [];
    }
  }

  /** So a container that is inside itself stays so. */
  lemma CycleChained(h: Heap, h2: Heap, p: Path, r: Path)
    requires r < p && Walk(h, Box(ROOT), r).Some? && Walk(h, Box(ROOT), p) == Walk(h, Box(ROOT), r)
    requires forall j, c :: 0 <= j < |p| && Walk(h, Box(ROOT), p[..j]) == Some(Box(c)) ==>
               exists f :: ChildVal(h2, Box(c), f) == ChildVal(h, Box(c), p[j])
    ensures Unfold(h2, Box(ROOT), {}).None?
  {
    hide ChildVal, Walk, Unfold;
    var way := ChainStays(h, h2, Box(ROOT), p);
    assert p[..|r|] == r && p[..|p|] == p && way[..|p|] == way && way == way[..|r|] + way[|r|..];
    WalkConcat(h2, Box(ROOT), way[..|r|], way[|r|..]);
    CycleNeverUnfolds(h2, Box(ROOT), way[..|r|], way[|r|..]);
  }

  /** A write at q after a write at p replaces no step on the way to p. */
  lemma OtherStepsKept(h: Heap, h1: Heap, p: Path, y: Val, q: Path, z: Val, j: nat, c: Ref)
    requires Sane(h) && Linked(h, Box(ROOT)) && Linked(h, y) && Alone(h, Box(ROOT), p)
    requires PutIn(h, Box(ROOT), p, y) == Ok(h1) && !Overlap(p, q) && Linked(h1, z)
    requires PutIn(h1, Box(ROOT), q, z).Ok? && j < |p| && Walk(h1, Box(ROOT), p[..j]) == Some(Box(c))
    ensures ChildVal(PutIn(h1, Box(ROOT), q, z).value, Box(c), p[j]) == ChildVal(h1, Box(c), p[j])
  {
    hide Walk, PutIn, Sane, Linked, Alone, Overlap, ChildVal, Rewrites, FoundAfterPut, Touched;
    PutTouches(h, Box(ROOT), p, y);
    WalkedIsOld(h1, Box(ROOT), p[..j]);
    NotRewritten(h, h1, p, y, q, j, c);
    PutKeepsSteps(h1, Box(ROOT), q, z, c, p[j]);
  }

  lemma NotRewritten(h: Heap, h1: Heap, p: Path, y: Val, q: Path, j: nat, c: Ref)
    requires Sane(h) && Linked(h, Box(ROOT)) && Linked(h, y) && Alone(h, Box(ROOT), p)
    requires PutIn(h, Box(ROOT), p, y) == Ok(h1) && !Overlap(p, q)
    requires j < |p| && Walk(h1, Box(ROOT), p[..j]) == Some(Box(c))
    ensures !Rewrites(h1, Box(ROOT), q, c, p[j])
  {
    hide Walk, PutIn, Sane, Linked, Alone, Overlap, ChildVal;
    FoundThere(h, h1, p, y);
    StepIsThere(h1, Box(ROOT), p, j);
    if Rewrites(h1, Box(ROOT), q, c, p[j]) {
      var i :| 0 <= i < |q| && Walk(h1, Box(ROOT), q[..i]) == Some(Box(c)) && q[i] == p[j] &&
               (i == |q| - 1 || ChildVal(h1, Box(c), p[j]).None?);
      NotPrefix(p, q, i);
      SamePlace(h, h1, p, y, p[..j], q[..i], c);
      LastStep(p, q, j);
    }
  }

  lemma FoundThere(h: Heap, h1: Heap, p: Path, y: Val)
    requires Sane(h) && Linked(h, Box(ROOT)) && Linked(h, y) && Alone(h, Box(ROOT), p)
    requires PutIn(h, Box(ROOT), p, y) == Ok(h1)
    ensures Walk(h1, Box(ROOT), p) == Some(y)
  {
    hide Walk, PutIn, Sane, Linked, Alone, Overlap, Missing;
    PutWalk(h, Box(ROOT), p, y, p);
    assert p[|p|..] == [];
    WalkHere(h1, y);
  }

  lemma NotPrefix(p: seq<Elem>, q: seq<Elem>, i: nat)
    requires !Overlap(p, q) && i <= |q|
    ensures !(p <= q[..i])
  {
    OverlapIff(p, q);
    assert p <= q[..i] ==> p <= q;
  }

  lemma LastStep(p: seq<Elem>, q: seq<Elem>, j: nat)
    requires j < |p| && q != [] && p[..j] == q[..|q| - 1] && p[j] == q[|q| - 1]
    ensures Overlap(p, q)
  {
    assert q == q[..|q| - 1] + [q[|q| - 1]] && p[..j + 1] == p[..j] + [p[j]];
    OverlapIff(p, q);
  }

  lemma StepIsThere(h: Heap, v: Val, p: seq<Elem>, j: nat)
    requires j < |p| && Walk(h, v, p).Some?
    ensures Walk(h, v, p[..j]).Some? && ChildVal(h, Walk(h, v, p[..j]).value, p[j]).Some?
  {
    hide Walk, ChildVal;
    assert p == p[..j] + p[j..] && p[j..] == [p[j]] + p[j + 1..];
    WalkConcat(h, v, p[..j], p[j..]);
    WalkCons(h, Walk(h, v, p[..j]).value, p[j], p[j + 1..]);
  }

  /** Outside of what was stored, every container is at one place. */
  lemma SamePlace(h: Heap, h1: Heap, p: Path, y: Val, u: seq<Elem>, t: seq<Elem>, c: Ref)
    requires Sane(h) && Linked(h, Box(ROOT)) && Linked(h, y) && Alone(h, Box(ROOT), p)
    requires PutIn(h, Box(ROOT), p, y) == Ok(h1) && u < p && !(p <= t)
    requires Walk(h1, Box(ROOT), u) == Walk(h1, Box(ROOT), t) == Some(Box(c))
    ensures u == t
  {
    hide Walk, PutIn, Sane, Linked, Overlap, Missing;
    PutWalk(h, Box(ROOT), p, y, u);
    PutWalk(h, Box(ROOT), p, y, t);
    OverlapIff(p, t);
    WalkedIsOld(h, Box(ROOT), u);
    WalkedIsOld(h, Box(ROOT), t);
    assert u == p[..|u|] && Once(h, Box(ROOT), p[..|u|]);
    assert t < p && |u| == |t| ==> u == t;
  }

  // ---- a container inside itself ----

  /** What SET p = r leaves if p lies below r, next to what SET p = NULL would leave. */
  lemma CopyIntoCut(item: Item, values: Env, p: Path, r: Path, q: Path, k: string)
    returns (n: Val, h1: Heap, g1: Heap, cut: set<Entry>)
    requires r < p && !Overlap(p, q) && ApplyRef(Cloned(item, values), CopySet(p, r)).Ok?
    ensures Walk(Cloned(item, values), Box(ROOT), r) == Some(n) && Linked(Cloned(item, values), n)
    ensures PutIn(Cloned(item, values), Box(ROOT), p, n) == Ok(h1)
    ensures ApplyRef(Cloned(item, values), CopySet(p, r)) == Ok(h1)
    ensures SetPath(item, p, NULL(true)).Ok? && InProgress(g1, SetPath(item, p, NULL(true)).value, {k})
    ensures Similar(h1, g1, cut) && Entries(g1, cut) && Clear(g1, Box(ROOT), q, cut) && g1.values == values
  {
    hide Walk, PutIn, Sane, Linked, Alone, Overlap, InProgress, Ready, Denotes, Holdless, Similar, Clear, Entries;
    hide Bottom, CutAt;
    var h := Cloned(item, values);
    CopyRuns(h, p, r);
    n := Walk(h, Box(ROOT), r).value;
    h1 := PutIn(h, Box(ROOT), p, n).value;
    ClonedProgress(item, values, {k});
    SaneProgress(h, item, {k});
    LinkedWalk(h, Box(ROOT), r);
    ClonedReady(item, values, p, {k});
    ReadyAlone(h, p, {k});
    NothingCut(h, p);
    SimilarSelf(h);
    SimilarPut(h, h, {}, Box(ROOT), p, n, Atom(NULL(true)));
    g1 := PutIn(h, Box(ROOT), p, Atom(NULL(true))).value;
    AtomDenotes(h, NULL(true));
    AtomHoldless(h, p, NULL(true));
    PutProgress(h, item, {k}, p, Atom(NULL(true)), NULL(true));
    cut := Recut({}, Bottom(h, Box(ROOT), p), Last(p), n, Atom(NULL(true)));
    CutAfterPut(h, item, {k}, p, n);
    SaneProgress(g1, SetPath(item, p, NULL(true)).value, {k});
    CutsAreEntries(g1, {p}, cut);
    OverlapIff(p, q);
    ClearOfPaths(g1, {p}, cut, q);
  }

  lemma NothingCut(h: Heap, p: Path)
    ensures Clear(h, Box(ROOT), p, {}) && Entries(h, {})
  {
  }

  lemma CutAfterPut(h: Heap, d: Item, names: set<string>, p: Path, n: Val)
    requires InProgress(h, d, names) && Ready(h, p, names) && PutIn(h, Box(ROOT), p, Atom(NULL(true))).Ok?
    ensures var g1 := PutIn(h, Box(ROOT), p, Atom(NULL(true))).value;
            && CutAt(g1, {p}, Recut({}, Bottom(h, Box(ROOT), p), Last(p), n, Atom(NULL(true))))
            && Once(g1, Box(ROOT), Parent(p))
  {
    hide Walk, PutIn, Sane, Linked, Overlap, InProgress, Denotes, Bottom, Once, OnWay, Reaches;
    var z := Atom(NULL(true));
    SaneProgress(h, d, names);
    ReadyAlone(h, p, names);
    AtomDenotes(h, NULL(true));
    AtomHoldless(h, p, NULL(true));
    BottomIsThere(h, Box(ROOT), p, z);
    assert Parent(p) == p[..|p| - 1];
    AtomApart(h, Parent(p), NULL(true));
    assert Once(h, Box(ROOT), p[..|p| - 1]);
    PutKeepsOnce(h, Box(ROOT), p, z, Parent(p));
  }

  lemma AtomApart(h: Heap, u: seq<Elem>, av: Scalar)
    ensures Apart(h, Box(ROOT), u, Atom(av))
  {
    hide Walk, Reaches;
    forall c
      ensures !Reaches(h, Atom(av), c)
    {
      AtomReachesNot(h, Atom(av), c);
    }
  }

  /** A write elsewhere does not take a container out of itself. */
  lemma CycleStays(item: Item, values: Env, p: Path, r: Path, n: Val, h1: Heap, q: Path, z: Val)
    requires !Overlap(p, q) && r < p && Walk(Cloned(item, values), Box(ROOT), r) == Some(n)
    requires PutIn(Cloned(item, values), Box(ROOT), p, n) == Ok(h1) && Linked(h1, z)
    requires PutIn(h1, Box(ROOT), q, z).Ok?
    ensures Unfold(PutIn(h1, Box(ROOT), q, z).value, Box(ROOT), {}).None?
  {
    hide Walk, PutIn, Sane, Linked, Alone, Overlap, ChildVal, InProgress, Ready, Denotes, Unfold;
    var h, h2 := Cloned(item, values), PutIn(h1, Box(ROOT), q, z).value;
    ClonedWay(item, values, p, r, n);
    CopiedTwice(h, p, r, n, h1);
    forall j, c | 0 <= j < |p| && Walk(h1, Box(ROOT), p[..j]) == Some(Box(c))
      ensures exists f :: ChildVal(h2, Box(c), f) == ChildVal(h1, Box(c), p[j])
    {
      OtherStepsKept(h, h1, p, n, q, z, j, c);
    }
    CycleChained(h1, h2, p, r);
  }

  lemma ClonedWay(item: Item, values: Env, p: Path, r: Path, n: Val)
    requires Walk(Cloned(item, values), Box(ROOT), r) == Some(n)
    ensures var h := Cloned(item, values);
            Sane(h) && Linked(h, Box(ROOT)) && Linked(h, n) && Alone(h, Box(ROOT), p)
  {
    hide Walk, Sane, Linked, Alone, InProgress, Ready, Denotes;
    ClonedProgress(item, values, {});
    SaneProgress(Cloned(item, values), item, {});
    LinkedWalk(Cloned(item, values), Box(ROOT), r);
    ClonedReady(item, values, p, {});
    ReadyAlone(Cloned(item, values), p, {});
  }

  lemma CopiedTwice(h: Heap, p: Path, r: Path, n: Val, h1: Heap)
    requires Sane(h) && Linked(h, Box(ROOT)) && Linked(h, n) && Alone(h, Box(ROOT), p) && r < p
    requires Walk(h, Box(ROOT), r) == Some(n) && PutIn(h, Box(ROOT), p, n) == Ok(h1)
    ensures Walk(h1, Box(ROOT), p) == Some(n) && Walk(h1, Box(ROOT), r) == Some(n)
  {
    hide Walk, PutIn, Sane, Linked, Alone, Overlap, Missing;
    FoundThere(h, h1, p, n);
    PutWalk(h, Box(ROOT), p, n, r);
  }

  /** The copy into itself and the write after it succeed exactly if they do on values. */
  lemma IntoItselfSucceeds(item: Item, values: Env, p: Path, r: Path, q: Path, k: string)
    requires !Overlap(p, q) && r < p && k in values
    ensures RunRefs(Cloned(item, values), [CopySet(p, r), ValueSet(q, k)]).Ok? <==>
            Both(CopySet(p, r), ValueSet(q, k), item, values).Ok?
    ensures RunRefs(Cloned(item, values), [CopySet(p, r), ValueSet(q, k)]).Ok? ==>
              Unfold(RunRefs(Cloned(item, values), [CopySet(p, r), ValueSet(q, k)]).value, Box(ROOT), {}).None?
  {
    hide Walk, PutIn, Overlap, InProgress, ApplyRef, RunRefs, Unfold, CopySet, ValueSet, Put, Get, Sane, Linked;
    hide Similar, Clear, Entries, Denotes, ApplyAction;
    var h := Cloned(item, values);
    TwoRefs(h, CopySet(p, r), ValueSet(q, k));
    ClonedProgress(item, values, {});
    CopySucceeds(h, item, p, r);
    if ApplyRef(h, CopySet(p, r)).Ok? {
      var n, h1, g1, cut := CopyIntoCut(item, values, p, r, q, k);
      var d := SetPath(item, p, NULL(true)).value;
      SaneProgress(g1, d, {k});
      ValueParts(g1, d, k);
      ValueAlike(h1, g1, cut, k);
      ValueRuns(h1, q, k);
      SimilarPut(h1, g1, cut, Box(ROOT), q, ValueVal(g1, k), ValueVal(g1, k));
      PutSucceeds(g1, Box(ROOT), q, ValueVal(g1, k), M(d), values[k]);
      CopyThenValue(item, values, p, r, q, k);
      CopyNeedsSource(item, values, p, r);
      FirstValueIrrelevant(M(item), p, ResolvePath(item, r).value, NULL(true), q, values[k]);
      if PutIn(h1, Box(ROOT), q, ValueVal(h1, k)).Ok? {
        CycleStays(item, values, p, r, n, h1, q, ValueVal(h1, k));
      }
    }
  }

  lemma CopyNeedsSource(item: Item, values: Env, p: Path, r: Path)
    requires ApplyAction(CopySet(p, r), item, values).Ok?
    ensures ResolvePath(item, r).Some?
  {
    hide Get, Put;
  }

  lemma ValueAlike(h: Heap, g: Heap, cut: set<Entry>, k: string)
    requires Similar(h, g, cut) && k in g.values && Linked(g, ValueVal(g, k))
    ensures h.values == g.values && ValueVal(h, k) == ValueVal(g, k) && Linked(h, ValueVal(h, k))
  {
    if ValueVal(g, k).Box? {
      assert SameShape(h, g, ValueVal(g, k).ref);
    }
  }

  /** In the other order as well. */
  lemma IntoItselfLast(item: Item, values: Env, p: Path, r: Path, q: Path, k: string)
    requires !Overlap(p, q) && r < p && k in values
    ensures RunRefs(Cloned(item, values), [ValueSet(q, k), CopySet(p, r)]).Ok? <==>
            Both(ValueSet(q, k), CopySet(p, r), item, values).Ok?
    ensures RunRefs(Cloned(item, values), [ValueSet(q, k), CopySet(p, r)]).Ok? ==>
              Unfold(RunRefs(Cloned(item, values), [ValueSet(q, k), CopySet(p, r)]).value, Box(ROOT), {}).None?
  {
    hide Walk, Overlap, InProgress, Ready, ApplyRef, RunRefs, Unfold, CopySet, ValueSet, ApplyAction, Cyclic;
    var h := Cloned(item, values);
    TwoRefs(h, ValueSet(q, k), CopySet(p, r));
    ReadyAfterValue(item, values, p, q, k);
    if ApplyRef(h, ValueSet(q, k)).Ok? {
      var h2, d := ApplyRef(h, ValueSet(q, k)).value, ApplyAction(ValueSet(q, k), item, values).value;
      CopySucceeds(h2, d, p, r);
      CopyIntoItself(h2, d, p, r);
      if ApplyRef(h2, CopySet(p, r)).Ok? {
        CycleNeverUnfolds(ApplyRef(h2, CopySet(p, r)).value, Box(ROOT), r, p[|r|..]);
      }
    }
  }

  /** If p lies below r, either order fails exactly if copying in that order fails, and otherwise leaves a
      document that is never read to the end. */
  lemma PairIntoItself(item: Item, values: Env, p: Path, r: Path, q: Path, k: string)
    requires !Overlap(p, q) && r < p && k in values
    ensures ByReference(item, [CopySet(p, r), ValueSet(q, k)], values) ==
              if Both(CopySet(p, r), ValueSet(q, k), item, values).Ok? then Endless else Failed
    ensures ByReference(item, [ValueSet(q, k), CopySet(p, r)], values) ==
              if Both(ValueSet(q, k), CopySet(p, r), item, values).Ok? then Endless else Failed
  {
    hide Overlap, RunRefs, Unfold, CopySet, ValueSet, RunOrder, Both, ApplyUpdate;
    PairWrites(p, r, q, k);
    PairRuns(item, CopySet(p, r), ValueSet(q, k), values);
    PairRuns(item, ValueSet(q, k), CopySet(p, r), values);
    IntoItselfSucceeds(item, values, p, r, q, k);
    IntoItselfLast(item, values, p, r, q, k);
  }

  lemma ReadyAfterValue(item: Item, values: Env, p: Path, q: Path, k: string)
    requires !Overlap(p, q) && k in values
    ensures ApplyRef(Cloned(item, values), ValueSet(q, k)).Ok? <==> ApplyAction(ValueSet(q, k), item, values).Ok?
    ensures ApplyRef(Cloned(item, values), ValueSet(q, k)).Ok? ==>
              var h2 := ApplyRef(Cloned(item, values), ValueSet(q, k)).value;
              && Ready(h2, p, {}) && h2.values == values
              && InProgress(h2, ApplyAction(ValueSet(q, k), item, values).value, {})
  {
    hide Walk, Overlap, InProgress, Ready, ApplyRef, ApplyAction;
    var h, b := Cloned(item, values), ValueSet(q, k);
    ClonedProgress(item, values, {k});
    ClonedReady(item, values, q, {k});
    ClonedReady(item, values, p, {k});
    OverlapSymmetric(p, q);
    StoresIntoMay(b, item);
    StepProgress(h, item, {k}, b);
    if ApplyRef(h, b).Ok? {
      StepReady(h, item, {k}, b, p);
      Forgotten(ApplyRef(h, b).value, ApplyAction(b, item, values).value, p, k);
    }
  }

  lemma Forgotten(h: Heap, d: Item, p: Path, k: string)
    requires InProgress(h, d, {k}) && Ready(h, p, {k})
    ensures InProgress(h, d, {}) && Ready(h, p, {})
  {
  }

  // ---- for all paths ----

  /** SET p = r, SET q = :v in either order. If p lies below r, nothing is left, or nothing that can be read.
      If q does, the write shows at p as well, as if the copy were made last. Otherwise the result is that
      of copying. */
  lemma PairByReference(item: Item, values: Env, p: Path, r: Path, q: Path, k: string)
    requires !Overlap(p, q) && k in values
    ensures ByReference(item, [CopySet(p, r), ValueSet(q, k)], values) ==
              if r < p then
                if Both(CopySet(p, r), ValueSet(q, k), item, values).Ok? then Endless else Failed
              else if r < q && ResolvePath(item, r).Some? then
                ByCopy(item, [ValueSet(q, k), CopySet(p, r)], values)
              else ByCopy(item, [CopySet(p, r), ValueSet(q, k)], values)
    ensures ByReference(item, [ValueSet(q, k), CopySet(p, r)], values) ==
              if r < p then
                if Both(ValueSet(q, k), CopySet(p, r), item, values).Ok? then Endless else Failed
              else ByCopy(item, [ValueSet(q, k), CopySet(p, r)], values)
  {
    hide ByReference, ByCopy, Both, Overlap, CopySet, ValueSet, ResolvePath;
    if r < p {
      PairIntoItself(item, values, p, r, q, k);
    } else {
      PairBesides(item, values, p, r, q, k);
    }
  }

  /** References and copies give the same result for this pair if and only if neither target lies below r,
      or r is not there, or the targets cannot both be written, or only q lies below r and holds the value
      already. */
  lemma PairAsCopiesIff(item: Item, values: Env, p: Path, r: Path, q: Path, k: string)
    requires !Overlap(p, q) && k in values
    ensures ByReference(item, [CopySet(p, r), ValueSet(q, k)], values) ==
            ByCopy(item, [CopySet(p, r), ValueSet(q, k)], values) <==>
            || (!(r < p) && !(r < q)) || ResolvePath(item, r).None? || CannotWrite(item, p, q, values[k])
            || (!(r < p) && ResolvePath(item, q) == Some(values[k]))
  {
    hide Overlap, Both, CopySet, ValueSet, ApplyUpdate, ResolvePath, CannotWrite, ByReference, ReadsSame, SetPath;
    PairByReference(item, values, p, r, q, k);
    PairWrites(p, r, q, k);
    PairRuns(item, CopySet(p, r), ValueSet(q, k), values);
    PairRuns(item, ValueSet(q, k), CopySet(p, r), values);
    BothSucceedIff(item, values, p, r, q, k);
    SetsCommuteIff(item, values, p, r, q, k);
    if !(r < p) && !CannotWrite(item, p, q, values[k]) && r < q {
      CanWriteLast(item, p, q, values[k]);
      ReadsSameIff(item, q, values[k], r);
      assert r <= q && !(q <= r);
      OverlapIff(q, r);
    }
  }

  lemma CanWriteLast(item: Item, p: Path, q: Path, v: AV)
    requires !Overlap(p, q) && !CannotWrite(item, p, q, v)
    ensures SetPath(item, q, v).Ok?
  {
    hide Put, Overlap;
    PutsCommute(M(item), p, v, q, v);
  }

  lemma BothSucceedIff(item: Item, values: Env, p: Path, r: Path, q: Path, k: string)
    requires !Overlap(p, q) && k in values
    ensures Both(CopySet(p, r), ValueSet(q, k), item, values).Ok? <==>
            ResolvePath(item, r).Some? && !CannotWrite(item, p, q, values[k])
    ensures Both(ValueSet(q, k), CopySet(p, r), item, values).Ok? <==>
            (SetPath(item, q, values[k]).Ok? && ResolvePath(SetPath(item, q, values[k]).value, r).Some? &&
             !CannotWrite(item, p, q, values[k]))
  {
    hide Put, Get, Both, CopySet, ValueSet, Overlap;
    var d, v := M(item), values[k];
    CopyThenValue(item, values, p, r, q, k);
    PutsCommute(d, p, v, q, v);
    if ResolvePath(item, r).Some? {
      FirstValueIrrelevant(d, p, ResolvePath(item, r).value, v, q, v);
    }
    if SetPath(item, q, v).Ok? && ResolvePath(SetPath(item, q, v).value, r).Some? {
      PutFails(M(SetPath(item, q, v).value), p, ResolvePath(SetPath(item, q, v).value, r).value, v);
    }
  }

  /** If p lies below r, then writing q leaves r there. */
  lemma SourceStays(item: Item, p: Path, r: Path, q: Path, v: AV)
    requires !Overlap(p, q) && r < p && ResolvePath(item, r).Some? && SetPath(item, q, v).Ok?
    ensures ResolvePath(SetPath(item, q, v).value, r).Some?
  {
    hide Put, Get, Overlap;
    var e := Put(M(item), q, v).value;
    OverlapIff(p, q);
    OverlapIff(q, r);
    assert q <= r ==> q <= p;
    if r <= q {
      assert q == r + q[|r|..];
      GetConcat(e, r, q[|r|..]);
      GetOfPut(M(item), q, v);
    } else {
      GetFrame(M(item), q, v, r);
    }
  }

  /** The order of SET p = r and SET q = :v is irrelevant if and only if one of the targets lies below what r
      names, where the reference shows the write in either order; or the targets cannot both be written; or
      r reads the same after q is written. */
  lemma PairOrderIff(item: Item, values: Env, p: Path, r: Path, q: Path, k: string)
    requires !Overlap(p, q) && k in values
    ensures ByReference(item, [CopySet(p, r), ValueSet(q, k)], values) ==
            ByReference(item, [ValueSet(q, k), CopySet(p, r)], values) <==>
            || ((r < p || r < q) && ResolvePath(item, r).Some?) || CannotWrite(item, p, q, values[k])
            || ReadsSame(item, q, values[k], r)
  {
    hide Overlap, Both, CopySet, ValueSet, ApplyUpdate, ResolvePath, CannotWrite, ByReference, SetPath;
    PairByReference(item, values, p, r, q, k);
    PairWrites(p, r, q, k);
    PairRuns(item, CopySet(p, r), ValueSet(q, k), values);
    PairRuns(item, ValueSet(q, k), CopySet(p, r), values);
    SetsCommuteIff(item, values, p, r, q, k);
    if r < p {
      BothSucceedIff(item, values, p, r, q, k);
      if !CannotWrite(item, p, q, values[k]) {
        CanWriteLast(item, p, q, values[k]);
        if ResolvePath(item, r).Some? {
          SourceStays(item, p, r, q, values[k]);
        }
      }
    }
  }
}
