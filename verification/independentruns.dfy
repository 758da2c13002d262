/** Whole runs of independent SETs and ADDs with references (update.go applyUpdate). */
module IndependentRuns {
  import opened Wrappers
  import opened Permutations
  import opened Values
  import opened Paths
  import opened Expressions
  import opened Updates
  import opened RemoveSort
  import opened UpdateOrder
  import opened RunOrders
  import opened References
  import opened Reading
  import opened InPlace
  import opened RightHandSides
  import opened InPlaceSteps
  import opened UpdatesByReference
  import opened SharedWrites
  import opened RunInvariants
  import opened Cuts
  import opened CutReads
  import opened Loops
  import opened IndependentUpdates

  // ---- evaluating ----

  /** The right-hand side gives the same object in both, and changes neither document. */
  lemma Evaluated(h: Heap, g: Heap, d: Item, names: set<string>, done: set<Path>, cut: set<Entry>, a: Action)
    requires Compared(h, g, d, names, done, cut) && Elsewhere(a, done) && IsWrite(a) && Uses(a) <= names
    ensures StoredVal(h, a).Ok? <==> WrittenValue(a, d, g.values).Ok?
    ensures StoredVal(g, a).Ok? <==> StoredVal(h, a).Ok?
    ensures StoredVal(g, a).Ok? ==>
              var y, h1, g1 := StoredVal(g, a).value.0, StoredVal(h, a).value.1, StoredVal(g, a).value.1;
              && StoredVal(h, a).value.0 == y && Storable(h1, y) && Linked(g1, y)
              && Denotes(g1, y, WrittenValue(a, d, g.values).value)
              && Compared(h1, g1, d, names, done, cut) && g1.values == g.values && Extends(h, h1) && Extends(g, g1)
              && forall w :: Ready(g, w, names) ==> Ready(g1, w, names)
  {
    hide StoredVal, WrittenValue, RootApart, InProgress, Similar, CutAt, Ready, Sane, Linked, Entries, Uncut, AllClear;
    hide Clear, Denotes, Extends, Storable, Walk, Reads, Uses, Overlap, Compared, Elsewhere;
    ComparedParts(h, g, d, names, done, cut);
    ActionIsClear(g, names, done, cut, a);
    SimilarStored(h, g, cut, d, names, a);
    StoredDenotes(g, d, names, a);
    if StoredVal(g, a).Ok? {
      var y, h1, g1 := StoredVal(g, a).value.0, StoredVal(h, a).value.1, StoredVal(g, a).value.1;
      StoredAdds(h, a);
      StoredKeepsApart(h, a, "");
      ExtendsProgress(g, g1, d, names);
      ExtendsValues(g, g1);
      ProgressParts(g, d, names);
      forall w | Ready(g, w, names)
        ensures Ready(g1, w, names)
      {
        ReadyFrame(g, g1, w, names);
      }
      CutAtLater(g, g1, d, names, done, cut);
      assert Compared(h1, g1, d, names, done, cut) by {
        IsCompared(h1, g1, d, names, done, cut);
      }
    }
  }

  lemma IsCompared(h: Heap, g: Heap, d: Item, names: set<string>, done: set<Path>, cut: set<Entry>)
    requires RootApart(h) && InProgress(g, d, names) && Similar(h, g, cut) && CutAt(g, done, cut)
    requires forall p :: p in done ==> Ready(g, p, names)
    ensures Compared(h, g, d, names, done, cut)
  {
    hide RootApart, InProgress, Similar, CutAt, Ready;
  }

  lemma CutAtLater(g: Heap, g1: Heap, d: Item, names: set<string>, done: set<Path>, cut: set<Entry>)
    requires InProgress(g, d, names) && Extends(g, g1) && CutAt(g, done, cut)
    ensures CutAt(g1, done, cut)
  {
    hide Walk, Sane, Linked, Denotes, SameBelow, Extends;
    ExtendsSame(g, g1, Box(ROOT));
    forall q
      ensures Walk(g1, Box(ROOT), q) == Walk(g, Box(ROOT), q)
    {
      WalkFrame(g, g1, Box(ROOT), q);
    }
  }

  // ---- storing ----

  /** After a write elsewhere, what was on the way to p is where it was. */
  lemma WayStays(g: Heap, q: Path, z: Val, p: Path, u: seq<Elem>)
    requires Sane(g) && Linked(g, Box(ROOT)) && Linked(g, z) && Alone(g, Box(ROOT), q) && PutIn(g, Box(ROOT), q, z).Ok?
    requires !Overlap(p, q) && u <= p && Walk(g, Box(ROOT), u).Some?
    ensures Walk(PutIn(g, Box(ROOT), q, z).value, Box(ROOT), u) == Walk(g, Box(ROOT), u)
  {
    hide Sane, Linked, Alone, PutIn, Walk, Overlap, Missing;
    PutWalk(g, Box(ROOT), q, z, u);
    OverlapIff(p, q);
    OverlapIff(q, u);
    assert q <= u ==> q <= p;
  }

  lemma CutAtAfterPut(g: Heap, done: set<Path>, cut: set<Entry>, q: Path, y: Val, z: Val)
    requires Sane(g) && Linked(g, Box(ROOT)) && Linked(g, z) && Alone(g, Box(ROOT), q) && PutIn(g, Box(ROOT), q, z).Ok?
    requires CutAt(g, done, cut) && forall p :: p in done ==> !Overlap(p, q)
    ensures var g2, cut2 := PutIn(g, Box(ROOT), q, z).value, Recut(cut, Bottom(g, Box(ROOT), q), Last(q), y, z);
            && CutAt(g2, done + {q}, cut2) && (y == z ==> CutAt(g2, done, cut2))
  {
    hide Sane, Linked, Alone, PutIn, Walk, Overlap, Bottom;
    var g2 := PutIn(g, Box(ROOT), q, z).value;
    BottomIsThere(g, Box(ROOT), q, z);
    forall n | n in cut
      ensures exists p :: p in done && Walk(g2, Box(ROOT), Parent(p)) == Some(Box(n.c)) && Last(p) == n.e
    {
      var p :| p in done && Walk(g, Box(ROOT), Parent(p)) == Some(Box(n.c)) && Last(p) == n.e;
      WayStays(g, q, z, p, Parent(p));
    }
  }

  /** The write in both, with y in one and z in the other. */
  lemma Stored(h: Heap, g: Heap, d: Item, names: set<string>, done: set<Path>, cut: set<Entry>, q: Path, y: Val,
               z: Val, zv: AV)
    requires Compared(h, g, d, names, done, cut) && Ready(g, q, names) && Storable(h, y)
    requires Linked(g, z) && Denotes(g, z, zv) && Holdless(g, q, z)
    requires forall p :: p in done ==> !Overlap(p, q) && Holdless(g, p, z)
    ensures PutIn(h, Box(ROOT), q, y).Ok? <==> SetPath(d, q, zv).Ok?
    ensures PutIn(g, Box(ROOT), q, z).Ok? <==> SetPath(d, q, zv).Ok?
    ensures SetPath(d, q, zv).Ok? ==>
              var h2, g2 := PutIn(h, Box(ROOT), q, y).value, PutIn(g, Box(ROOT), q, z).value;
              var cut2 := Recut(cut, Bottom(g, Box(ROOT), q), Last(q), y, z);
              && Compared(h2, g2, SetPath(d, q, zv).value, names, done + {q}, cut2) && g2.values == g.values
              && (y == z ==> Compared(h2, g2, SetPath(d, q, zv).value, names, done, cut2))
              && forall w :: Ready(g, w, names) && !(q < w) && Holdless(g, w, z) ==> Ready(g2, w, names)
  {
    hide RootApart, InProgress, Similar, CutAt, Ready, Sane, Linked, Entries, Clear, Denotes, Storable, Walk, Overlap;
    hide PutIn, Put, Alone, Holdless, Bottom, Recut, Compared, ReadsClear;
    ComparedParts(h, g, d, names, done, cut);
    ClearTarget(g, names, done, cut, q);
    PutProgress(g, d, names, q, z, zv);
    SimilarPut(h, g, cut, Box(ROOT), q, y, z);
    if SetPath(d, q, zv).Ok? {
      var h2, g2 := PutIn(h, Box(ROOT), q, y).value, PutIn(g, Box(ROOT), q, z).value;
      var cut2 := Recut(cut, Bottom(g, Box(ROOT), q), Last(q), y, z);
      WriteKeepsApart(h, q, y, "");
      ReadyAlone(g, q, names);
      CutAtAfterPut(g, done, cut, q, y, z);
      forall w | Ready(g, w, names) && !(q < w) && Holdless(g, w, z)
        ensures Ready(g2, w, names)
      {
        PutReady(g, d, names, q, z, w);
      }
      forall p | p in done
        ensures Ready(g2, p, names)
      {
        OverlapIff(p, q);
      }
      IsCompared(h2, g2, SetPath(d, q, zv).value, names, done + {q}, cut2);
      if y == z {
        IsCompared(h2, g2, SetPath(d, q, zv).value, names, done, cut2);
      }
    }
  }

  lemma ClearTarget(g: Heap, names: set<string>, done: set<Path>, cut: set<Entry>, q: Path)
    requires CutAt(g, done, cut) && forall p :: p in done ==> Ready(g, p, names) && !Overlap(p, q)
    ensures Clear(g, Box(ROOT), q, cut)
  {
    hide CutAt, Ready, Overlap, Clear, Walk, Uncut;
    PathIsClear(g, names, done, cut, q);
  }

  // ---- the container inside itself stays there ----

  /** A step of the write is not the one that made the loop. */
  lemma EntryNotRewritten(h: Heap, g: Heap, cut: set<Entry>, q: Path, p: Path, c: Ref)
    requires Similar(h, g, cut) && Clear(g, Box(ROOT), q, cut) && !Overlap(p, q)
    requires Once(g, Box(ROOT), Parent(p)) && Walk(g, Box(ROOT), Parent(p)) == Some(Box(c))
    ensures !Rewrites(h, Box(ROOT), q, c, Last(p))
  {
    hide Walk, Overlap, ChildVal, Similar, Once;
    if Rewrites(h, Box(ROOT), q, c, Last(p)) {
      var i :| 0 <= i < |q| && Walk(h, Box(ROOT), q[..i]) == Some(Box(c)) && q[i] == Last(p) &&
               (i == |q| - 1 || ChildVal(h, Box(c), Last(p)).None?);
      ClearTo(g, q, cut, i);
      SimilarWalk(h, g, cut, Box(ROOT), q[..i]);
      OnceIs(g, Parent(p), q[..i], c);
      StepOnto(p, q, i);
      OverlapIff(p, q);
    }
  }

  lemma ClearTo(g: Heap, q: seq<Elem>, cut: set<Entry>, i: nat)
    requires Clear(g, Box(ROOT), q, cut) && i <= |q|
    ensures Clear(g, Box(ROOT), q[..i], cut)
  {
    hide Walk;
    assert forall j :: 0 <= j < i ==> q[..i][..j] == q[..j];
  }

  lemma LooseNotRewritten(h: Heap, g: Heap, cut: set<Entry>, q: Path, r: Ref, e: Elem)
    requires Similar(h, g, cut) && Clear(g, Box(ROOT), q, cut) && Loose(g, r)
    ensures !Rewrites(h, Box(ROOT), q, r, e)
  {
    hide Walk, ChildVal, Similar, Loose;
    if Rewrites(h, Box(ROOT), q, r, e) {
      var i :| 0 <= i < |q| && Walk(h, Box(ROOT), q[..i]) == Some(Box(r)) && q[i] == e &&
               (i == |q| - 1 || ChildVal(h, Box(r), e).None?);
      ClearTo(g, q, cut, i);
      SimilarWalk(h, g, cut, Box(ROOT), q[..i]);
      WalkIsNotLoose(g, r, q[..i]);
    }
  }

  lemma ChildIsOld(h: Heap, c: Ref, e: Elem)
    requires Sane(h) && ChildVal(h, Box(c), e).Some?
    ensures !IsNew(h, c)
  {
    MadeIsOld(h, c);
  }

  lemma ChildLater(h: Heap, h1: Heap, c: Ref, e: Elem)
    requires Sane(h) && Extends(h, h1) && ChildVal(h, Box(c), e).Some?
    ensures ChildVal(h1, Box(c), e) == ChildVal(h, Box(c), e)
  {
    MadeIsOld(h, c);
  }

  lemma LoopEvaluated(h: Heap, g: Heap, d: Item, names: set<string>, a: Action, l: Loop)
    requires InLoop(h, g, l) && RootApart(h) && InProgress(g, d, names) && IsWrite(a) && Uses(a) <= names
    requires StoredVal(g, a).Ok? && StoredVal(h, a).Ok?
    ensures InLoop(StoredVal(h, a).value.1, StoredVal(g, a).value.1, l)
    ensures l.e.Some? ==> l.y.Box? && StoredVal(g, a).value.0 != l.y
  {
    hide StoredVal, Walk, ChildVal, Sane, Linked, Denotes, Loose, SameBelow, Extends, WrittenValue;
    var h1, g1 := StoredVal(h, a).value.1, StoredVal(g, a).value.1;
    StoredAdds(h, a);
    StoredAdds(g, a);
    ExtendsSame(g, g1, Box(ROOT));
    WalkFrame(g, g1, Box(ROOT), l.t);
    WalkFrame(g, g1, Box(ROOT), Parent(l.p));
    ChildLater(h, h1, l.c, Last(l.p));
    if l.e.Some? {
      assert l.y == Box(l.y.ref);
      ChildLater(h, h1, l.y.ref, l.e.value);
      StoredIsNotLoose(g, l.y.ref, d, names, a);
    }
  }

  lemma LoopStored(h: Heap, g: Heap, d: Item, names: set<string>, done: set<Path>, cut: set<Entry>, q: Path, y: Val,
                   z: Val, l: Loop)
    requires Compared(h, g, d, names, done, cut) && InLoop(h, g, l) && l.p in done && Ready(g, q, names)
    requires forall p :: p in done ==> !Overlap(p, q)
    requires Storable(h, y) && Linked(g, z) && (l.e.Some? ==> z != l.y)
    requires PutIn(h, Box(ROOT), q, y).Ok? && PutIn(g, Box(ROOT), q, z).Ok?
    ensures InLoop(PutIn(h, Box(ROOT), q, y).value, PutIn(g, Box(ROOT), q, z).value, l)
  {
    hide RootApart, InProgress, Similar, CutAt, Ready, Sane, Linked, Entries, Clear, Walk, Overlap, ChildVal;
    hide PutIn, Compared, Loose, Once, Rewrites, Storable;
    ComparedParts(h, g, d, names, done, cut);
    ClearTarget(g, names, done, cut, q);
    ReadyAlone(g, q, names);
    ApartIsSane(h, y);
    WayStays(g, q, z, l.p, l.t);
    WayStays(g, q, z, l.p, Parent(l.p));
    EntryNotRewritten(h, g, cut, q, l.p, l.c);
    ChildIsOld(h, l.c, Last(l.p));
    PutKeepsSteps(h, Box(ROOT), q, y, l.c, Last(l.p));
    if l.e.Some? {
      assert l.y == Box(l.y.ref);
      LooseNotRewritten(h, g, cut, q, l.y.ref, l.e.value);
      ChildIsOld(h, l.y.ref, l.e.value);
      PutKeepsSteps(h, Box(ROOT), q, y, l.y.ref, l.e.value);
      PutStaysLoose(g, l.y.ref, q, z);
    }
  }

  lemma ApartIsSane(h: Heap, y: Val)
    requires RootApart(h) && Storable(h, y)
    ensures Sane(h) && Linked(h, Box(ROOT)) && Linked(h, y)
  {
    hide Sane;
  }

  /** What a new loop consists of. */
  lemma LoopMade(h: Heap, g: Heap, d: Item, names: set<string>, done: set<Path>, cut: set<Entry>, q: Path, y: Val,
                 t: seq<Elem>, e: Option<Elem>) returns (l: Loop)
    requires Compared(h, g, d, names, done, cut) && Ready(g, q, names) && Storable(h, y)
    requires forall p :: p in done ==> !Overlap(p, q)
    requires t < q && Walk(g, Box(ROOT), t).Some? && Holds(g, y, e, Walk(g, Box(ROOT), t).value)
    requires PutIn(h, Box(ROOT), q, y).Ok? && PutIn(g, Box(ROOT), q, Atom(NULL(true))).Ok?
    ensures InLoop(PutIn(h, Box(ROOT), q, y).value, PutIn(g, Box(ROOT), q, Atom(NULL(true))).value, l) && l.p == q
  {
    hide RootApart, InProgress, Similar, CutAt, Ready, Sane, Linked, Entries, Clear, Walk, Overlap, ChildVal;
    hide PutIn, Compared, Loose, Once, Rewrites, Storable, Bottom, Missing;
    var z := Atom(NULL(true));
    ComparedParts(h, g, d, names, done, cut);
    ClearTarget(g, names, done, cut, q);
    ReadyAlone(g, q, names);
    ApartIsSane(h, y);
    AtomDenotes(g, NULL(true));
    SimilarPut(h, g, cut, Box(ROOT), q, y, z);
    BottomHolds(h, Box(ROOT), q, y);
    BottomIsThere(g, Box(ROOT), q, z);
    PutWalk(g, Box(ROOT), q, z, t);
    l := Loop(q, t, y, e, Walk(g, Box(ROOT), t).value, Bottom(g, Box(ROOT), q).ref);
    if e.Some? {
      assert y == Box(y.ref);
      LooseUncut(g, done, cut, y.ref);
      SimilarChild(h, g, cut, y, e.value);
      LooseNotRewritten(h, g, cut, q, y.ref, e.value);
      ChildIsOld(h, y.ref, e.value);
      PutKeepsSteps(h, Box(ROOT), q, y, y.ref, e.value);
      PutStaysLoose(g, y.ref, q, z);
    }
  }

  lemma LooseUncut(g: Heap, done: set<Path>, cut: set<Entry>, r: Ref)
    requires CutAt(g, done, cut) && Loose(g, r)
    ensures forall e :: Entry(r, e) !in cut
  {
    hide Walk, Loose;
    forall e
      ensures Entry(r, e) !in cut
    {
      if Entry(r, e) in cut {
        var p :| p in done && Walk(g, Box(ROOT), Parent(p)) == Some(Box(r)) && Last(p) == e;
        WalkIsNotLoose(g, r, Parent(p));
      }
    }
  }

  /** The document with the loop is never read to the end. */
  lemma LoopIsEndless(h: Heap, g: Heap, d: Item, names: set<string>, done: set<Path>, cut: set<Entry>, l: Loop)
    requires Compared(h, g, d, names, done, cut) && InLoop(h, g, l) && l.p in done
    requires forall p :: p in done && p != l.p ==> !Overlap(p, l.p)
    ensures Unfold(h, Box(ROOT), {}).None?
  {
    hide RootApart, InProgress, Similar, CutAt, Ready, Sane, Linked, Entries, Clear, Walk, Overlap, ChildVal;
    hide Compared, Loose, Once, Unfold;
    ComparedParts(h, g, d, names, done, cut);
    forall p | p in done
      ensures !(p <= l.t) && !(p <= Parent(l.p))
    {
      OverlapIff(p, l.p);
      assert p <= l.t ==> p <= l.p;
      assert p <= Parent(l.p) ==> p <= l.p;
    }
    ClearOfPaths(g, done, cut, l.t);
    ClearOfPaths(g, done, cut, Parent(l.p));
    SimilarWalk(h, g, cut, Box(ROOT), l.t);
    SimilarWalk(h, g, cut, Box(ROOT), Parent(l.p));
    var s := l.p[|l.t|..];
    assert l.p == l.t + s && l.p == Parent(l.p) + [Last(l.p)];
    WalkConcat(h, Box(ROOT), Parent(l.p), [Last(l.p)]);
    WalkOne(h, Box(l.c), Last(l.p));
    WalkConcat(h, Box(ROOT), l.t, s);
    if l.e.None? {
      CycleNeverUnfolds(h, Box(ROOT), l.t, s);
    } else {
      WalkConcat(h, l.w, s, [l.e.value]);
      WalkOne(h, l.y, l.e.value);
      CycleNeverUnfolds(h, Box(ROOT), l.t, s + [l.e.value]);
    }
  }

  // ---- one action ----

  ghost predicate Apart(done: set<Path>) {
    forall p, q :: p in done && q in done && p != q ==> !Overlap(p, q)
  }

  /** Something was stored into itself at the paths done, and a loop shows it. */
  ghost predicate Looped(h: Heap, g: Heap, done: set<Path>, loop: Option<Loop>) {
    && Apart(done) && (loop.None? <==> done == {})
    && (loop.Some? ==> InLoop(h, g, loop.value) && loop.value.p in done)
  }

  /** What is compared after the action. */
  ghost function StoredCut(g: Heap, a: Action, item: Item): Val
    requires IsWrite(a) && StoredVal(g, a).Ok?
  {
    if IntoItself(a, item) then Atom(NULL(true)) else StoredVal(g, a).value.0
  }

  lemma CutHoldless(g: Heap, d: Item, names: set<string>, a: Action, item: Item, w: Path)
    requires InProgress(g, d, names) && Uses(a) <= names && IsWrite(a) && StoredVal(g, a).Ok? && Ready(g, w, names)
    requires IntoItself(a, item) || !StoresInto(a, d, w)
    ensures Holdless(StoredVal(g, a).value.1, w, StoredCut(g, a, item))
  {
    hide InProgress, StoredVal, Ready, StoresInto, Holdless, IntoItself;
    if IntoItself(a, item) {
      AtomHoldless(StoredVal(g, a).value.1, w, NULL(true));
    } else {
      StoredHoldless(g, d, names, a, w);
    }
  }

  lemma CutDenotes(g: Heap, a: Action, item: Item, v: AV)
    requires IsWrite(a) && StoredVal(g, a).Ok?
    requires Linked(StoredVal(g, a).value.1, StoredVal(g, a).value.0)
    requires Denotes(StoredVal(g, a).value.1, StoredVal(g, a).value.0, v)
    ensures Linked(StoredVal(g, a).value.1, StoredCut(g, a, item))
    ensures Denotes(StoredVal(g, a).value.1, StoredCut(g, a, item), CutValue(a, item, v))
  {
    hide StoredVal, Linked, Denotes, IntoItself;
    AtomDenotes(StoredVal(g, a).value.1, NULL(true));
  }

  /** One action of a run, in the document in progress and in the one that is compared with it. */
  lemma StepCompared(h: Heap, g: Heap, d: Item, names: set<string>, done: set<Path>, cut: set<Entry>,
                     loop: Option<Loop>, a: Action, item: Item)
    returns (g2: Heap, done2: set<Path>, cut2: set<Entry>, loop2: Option<Loop>)
    requires Compared(h, g, d, names, done, cut) && Looped(h, g, done, loop)
    requires IsWrite(a) && Uses(a) <= names && Elsewhere(a, done) && Ready(g, a.path, names) && SeesSame(a, d, item)
    ensures ApplyRef(h, a).Ok? <==>
            var v := WrittenValue(a, item, g.values);
            v.Ok? && SetPath(d, a.path, CutValue(a, item, v.value)).Ok?
    ensures ApplyRef(h, a).Ok? ==>
              var d2 := SetPath(d, a.path, CutValue(a, item, WrittenValue(a, item, g.values).value)).value;
              && Compared(ApplyRef(h, a).value, g2, d2, names, done2, cut2) && g2.values == g.values
              && Looped(ApplyRef(h, a).value, g2, done2, loop2)
              && done2 == (if IntoItself(a, item) then done + {a.path} else done)
              && forall w: Path :: Ready(g, w, names) && !Overlap(a.path, w) && Untouched(Reads(a), w) ==>
                   Ready(g2, w, names)
  {
    hide Compared, InProgress, StoredVal, WrittenValue, Ready, StoresInto, Holdless, IntoItself, Overlap, Reads, Uses;
    hide PutIn, Put, RootApart, Denotes, Linked, Storable, InLoop, SeesSame, Extends, Recut, Bottom, StoredCut;
    hide CutValue;
    g2, done2, cut2, loop2 := g, done, cut, loop;
    ComparedParts(h, g, d, names, done, cut);
    Evaluated(h, g, d, names, done, cut, a);
    WrittenSame(a, d, item, g.values);
    ActionStores(h, a);
    if StoredVal(g, a).Ok? {
      var y, h1, g1 := StoredVal(g, a).value.0, StoredVal(h, a).value.1, StoredVal(g, a).value.1;
      var q, z, zv := a.path, StoredCut(g, a, item), CutValue(a, item, WrittenValue(a, d, g.values).value);
      CutDenotes(g, a, item, WrittenValue(a, d, g.values).value);
      IntoFrame(a, d, item);
      IntoIsStores(a, d);
      CutHoldless(g, d, names, a, item, q);
      forall p | p in done
        ensures !Overlap(p, q) && Holdless(g1, p, z)
      {
        UntouchedNotInto(a, d, p);
        CutHoldless(g, d, names, a, item, p);
      }
      Stored(h1, g1, d, names, done, cut, q, y, z, zv);
      if SetPath(d, q, zv).Ok? {
        g2 := PutIn(g1, Box(ROOT), q, z).value;
        cut2 := Recut(cut, Bottom(g1, Box(ROOT), q), Last(q), y, z);
        forall w: Path | Ready(g, w, names) && !Overlap(q, w) && Untouched(Reads(a), w)
          ensures Ready(g2, w, names)
        {
          UntouchedNotInto(a, d, w);
          CutHoldless(g, d, names, a, item, w);
          OverlapIff(q, w);
        }
        StoredIsCut(g, a, item);
        if loop.Some? {
          LoopEvaluated(h, g, d, names, a, loop.value);
          if IntoItself(a, item) {
            LoopNotCut(h1, g1, loop.value, z);
          }
          LoopStored(h1, g1, d, names, done, cut, q, y, z, loop.value);
        }
        if IntoItself(a, item) {
          done2 := done + {q};
          NowApart(done, q);
          if loop.None? {
            var l := NewLoop(h, g, d, names, done, cut, a, y);
            loop2 := Some(l);
          }
        }
      }
    }
  }

  lemma ActionStores(h: Heap, a: Action)
    requires IsWrite(a)
    ensures ApplyRef(h, a) == match StoredVal(h, a) case Err => Err case Ok(x) => PutIn(x.1, Box(ROOT), a.path, x.0)
  {
    hide StoredVal, PutIn;
  }

  lemma IntoIsStores(a: Action, d: Item)
    ensures IntoItself(a, d) == StoresInto(a, d, a.path)
  {
  }

  lemma StoredIsCut(g: Heap, a: Action, item: Item)
    requires IsWrite(a) && StoredVal(g, a).Ok?
    ensures StoredCut(g, a, item) == if IntoItself(a, item) then Atom(NULL(true)) else StoredVal(g, a).value.0
  {
    hide StoredVal, IntoItself;
  }

  lemma LoopNotCut(h: Heap, g: Heap, l: Loop, z: Val)
    requires InLoop(h, g, l) && z.Atom?
    ensures l.e.Some? ==> z != l.y
  {
    hide Walk, ChildVal, Loose;
  }

  lemma NowApart(done: set<Path>, q: Path)
    requires Apart(done) && forall p :: p in done ==> !Overlap(p, q)
    ensures Apart(done + {q})
  {
    hide Overlap;
    forall p, r | p in done + {q} && r in done + {q} && p != r
      ensures !Overlap(p, r)
    {
      OverlapSymmetric(p, r);
    }
  }

  lemma NewLoop(h: Heap, g: Heap, d: Item, names: set<string>, done: set<Path>, cut: set<Entry>, a: Action, y: Val)
    returns (l: Loop)
    requires Compared(h, g, d, names, done, cut) && IsWrite(a) && Uses(a) <= names && IntoItself(a, d)
    requires StoredVal(g, a).Ok? && StoredVal(h, a).Ok? && StoredVal(g, a).value.0 == y
    requires Compared(StoredVal(h, a).value.1, StoredVal(g, a).value.1, d, names, done, cut)
    requires Storable(StoredVal(h, a).value.1, y) && Ready(StoredVal(g, a).value.1, a.path, names)
    requires forall p :: p in done ==> !Overlap(p, a.path)
    requires PutIn(StoredVal(h, a).value.1, Box(ROOT), a.path, y).Ok?
    requires PutIn(StoredVal(g, a).value.1, Box(ROOT), a.path, Atom(NULL(true))).Ok?
    ensures InLoop(PutIn(StoredVal(h, a).value.1, Box(ROOT), a.path, y).value,
                   PutIn(StoredVal(g, a).value.1, Box(ROOT), a.path, Atom(NULL(true))).value, l) && l.p == a.path
  {
    hide Compared, InProgress, RvalueVal, Ready, Overlap, PutIn, Storable, InLoop, Extends, Stores, Walk, WayOpen;
    hide Holds, Sane, Linked;
    var h1, g1, q := StoredVal(h, a).value.1, StoredVal(g, a).value.1, a.path;
    ComparedParts(h, g, d, names, done, cut);
    ComparedParts(h1, g1, d, names, done, cut);
    StoredAdds(g, a);
    PutOpensWay(g1, q, Atom(NULL(true)));
    WayWasOpen(g, g1, d, names, Parent(q));
    var t, e := SelfStored(g, d, names, a.value.r, Parent(q));
    assert t < q;
    l := LoopMade(h1, g1, d, names, done, cut, q, y, t, e);
  }

  // ---- the run ----

  lemma ElsewhereLater(a: Action, b: Action, done: set<Path>)
    requires Elsewhere(b, done) && Independent(a, b)
    ensures Elsewhere(b, done + {a.path})
  {
    hide Overlap, Reads;
  }

  ghost predicate AllElsewhere(run: seq<Action>, done: set<Path>) {
    forall i :: 0 <= i < |run| ==> Elsewhere(run[i], done)
  }

  ghost predicate TargetsReady(g: Heap, names: set<string>, run: seq<Action>) {
    forall i :: 0 <= i < |run| ==> Ready(g, run[i].path, names) && Uses(run[i]) <= names
  }

  lemma SimilarAlike(h: Heap, g: Heap, v: Val, x: AV)
    requires Similar(h, g, {}) && Alike(g, v, x)
    ensures Alike(h, v, x)
  {
    if v.Box? {
      assert SameShape(h, g, v.ref);
    }
  }

  lemma {:induction false} SimilarDenotes(h: Heap, g: Heap, v: Val, x: AV)
    requires Similar(h, g, {}) && Denotes(g, v, x)
    ensures Denotes(h, v, x)
    decreases x
  {
    hide Similar, Denotes, ChildVal, Child, Alike;
    AlikeDenoted(g, v, x);
    SimilarAlike(h, g, v, x);
    forall e | ChildVal(h, v, e).Some? && Child(x, e).Some?
      ensures Denotes(h, ChildVal(h, v, e).value, Child(x, e).value)
    {
      SimilarChild(h, g, {}, v, e);
      Kids(g, v, x, e);
      SmallerChild(x, e);
      SimilarDenotes(h, g, ChildVal(g, v, e).value, Child(x, e).value);
    }
    ByKids(h, v, x);
  }

  lemma SmallerChild(x: AV, e: Elem)
    requires Child(x, e).Some?
    ensures Child(x, e).value < x
  {
  }

  /** Where the run ends: without a loop the document is the one compared, with one it is never read. */
  lemma RunEnds(h: Heap, g: Heap, d: Item, names: set<string>, done: set<Path>, cut: set<Entry>, loop: Option<Loop>)
    requires Compared(h, g, d, names, done, cut) && Looped(h, g, done, loop)
    ensures ReadItem(h) == if done == {} then Updated(d) else Endless
  {
    hide Unfold, Similar, InProgress, CutAt, RootApart, Denotes, InLoop;
    if done == {} {
      NothingIsCut(g, cut);
      SaneProgress(g, d, names);
      SimilarDenotes(h, g, Box(ROOT), M(d));
      DenotedReads(h, d);
    } else {
      LoopIsEndless(h, g, d, names, done, cut, loop.value);
    }
  }

  lemma NothingIsCut(g: Heap, cut: set<Entry>)
    requires CutAt(g, {}, cut)
    ensures cut == {}
  {
    hide Walk;
  }

  lemma CutFirst(run: seq<Action>, d: Item, item: Item, env: Env)
    requires run != [] && forall i :: 0 <= i < |run| ==> IsWrite(run[i])
    ensures IsWrite(run[0])
    ensures CutAll(run, d, item, env) ==
              match WrittenValue(run[0], item, env)
              case Err => Err
              case Ok(v) =>
                match SetPath(d, run[0].path, CutValue(run[0], item, v))
                case Err => Err
                case Ok(e) => CutAll(run[1..], e, item, env)
  {
    hide WrittenValue, SetPath, IntoItself;
  }

  lemma RestStays(g: Heap, g2: Heap, names: set<string>, done: set<Path>, done2: set<Path>, run: seq<Action>)
    requires run != [] && AllIndependent(run) && AllElsewhere(run, done) && TargetsReady(g, names, run)
    requires done2 == done || done2 == done + {run[0].path}
    requires forall w: Path :: Ready(g, w, names) && !Overlap(run[0].path, w) && Untouched(Reads(run[0]), w) ==>
               Ready(g2, w, names)
    ensures AllElsewhere(run[1..], done2) && TargetsReady(g2, names, run[1..])
  {
    hide Elsewhere, Independent, Ready, Overlap, Reads, Untouched, Uses, AllIndependent;
    var rest := run[1..];
    IndependentOfRest(run);
    forall i | 0 <= i < |rest|
      ensures Elsewhere(rest[i], done2) && Ready(g2, rest[i].path, names) && Uses(rest[i]) <= names
    {
      assert rest[i] == run[i + 1];
      assert Elsewhere(run[i + 1], done) && Ready(g, run[i + 1].path, names);
      ElsewhereLater(run[0], rest[i], done);
      IndependentParts(run[0], rest[i]);
    }
  }

  /** A run of independent actions succeeds if it does on values. If one of them was stored into itself, the
      document is never read to the end. */
  lemma {:induction false} RunCompared(h: Heap, g: Heap, d: Item, names: set<string>, done: set<Path>,
                                       cut: set<Entry>, loop: Option<Loop>, run: seq<Action>, item: Item)
    requires Compared(h, g, d, names, done, cut) && Looped(h, g, done, loop)
    requires AllIndependent(run) && AllSee(run, d, item) && AllElsewhere(run, done) && TargetsReady(g, names, run)
    ensures RunRefs(h, run).Ok? <==> CutAll(run, d, item, g.values).Ok?
    ensures RunRefs(h, run).Ok? ==>
              ReadItem(RunRefs(h, run).value) ==
                if done == {} && forall a :: a in run ==> !IntoItself(a, item)
                then Updated(CutAll(run, d, item, g.values).value) else Endless
    decreases |run|
  {
    hide Compared, Looped, ApplyRef, WrittenValue, SetPath, IntoItself, SeesSame, Elsewhere, Independent, Ready;
    hide ReadItem, CutValue, AllIndependent;
    if run == [] {
      RunEnds(h, g, d, names, done, cut, loop);
    } else {
      var a, rest := run[0], run[1..];
      assert run == [a] + rest;
      assert forall i :: 0 <= i < |rest| ==> rest[i] == run[i + 1];
      CutFirst(run, d, item, g.values);
      RunFirst(h, run);
      var g2, done2, cut2, loop2 := StepCompared(h, g, d, names, done, cut, loop, a, item);
      if ApplyRef(h, a).Ok? {
        var x := CutValue(a, item, WrittenValue(a, item, g.values).value);
        RestSees(run, d, item, x);
        RestStays(g, g2, names, done, done2, run);
        hide CutAll, RunRefs, AllSee, AllElsewhere, TargetsReady;
        RunCompared(ApplyRef(h, a).value, g2, SetPath(d, a.path, x).value, names, done2, cut2, loop2, rest, item);
      }
    }
  }

  // ---- from the clone ----

  lemma ClonedCompared(item: Item, values: Env, names: set<string>)
    ensures var h := Cloned(item, values); Compared(h, h, item, names, {}, {}) && Looped(h, h, {}, None)
  {
    hide RootApart, InProgress, Similar;
    ClonedApartRoot(item, values);
    ClonedProgress(item, values, names);
    SimilarSelf(Cloned(item, values));
  }

  /** SETs and ADDs none of which touches what another reads or writes: they fail if copying fails; otherwise
      they leave a document that is never read to the end if some action is stored into itself, and the
      document that copying leaves if none is. */
  lemma IndependentOutcome(item: Item, s: seq<Action>, values: Env)
    requires AllIndependent(s) && forall i :: 0 <= i < |s| ==> IsWrite(s[i])
    ensures ByReference(item, s, values) ==
              match ApplyAll(s, item, values)
              case Err => Failed
              case Ok(d) => if exists a :: a in s && IntoItself(a, item) then Endless else Updated(d)
  {
    hide Compared, Looped, RunRefs, ApplyAll, IntoItself, ReadItem, CutAll, RunOrder, Ready, Uses, AllIndependent;
    hide SeesSame, Elsewhere, AllWritten, PutNulls, Disjoint;
    var h := Cloned(item, values);
    var names := set k, j | 0 <= j < |s| && k in Uses(s[j]) :: k;
    NoRemovesRun(s);
    IndependentDisjoint(s);
    ClonedCompared(item, values, names);
    forall i | 0 <= i < |s|
      ensures Elsewhere(s[i], {}) && Ready(h, s[i].path, names) && SeesSame(s[i], item, item)
    {
      SeesItself(s[i], item);
      ClonedReady(item, values, s[i].path, names);
    }
    RunCompared(h, h, item, names, {}, {}, None, s, item);
    CutSucceeds(s, item, item, values);
    CopySucceedsAlike(s, item, item, values);
    if forall a :: a in s ==> !IntoItself(a, item) {
      NothingToCut(s, item, item, values);
    }
  }

  lemma SeesItself(a: Action, item: Item)
    ensures SeesSame(a, item, item) && Elsewhere(a, {})
  {
  }

  /** One SET or ADD, whatever its right-hand side: the document is never read to the end if and only if the
      action succeeds and stores a container that is on the way to its target. */
  lemma WriteEndlessIff(item: Item, a: Action, values: Env)
    requires IsWrite(a)
    ensures ByReference(item, [a], values) ==
              if IntoItself(a, item) && ApplyUpdate(item, [a], values).Ok? then Endless else ByCopy(item, [a], values)
  {
    hide ByReference, ApplyAll, IntoItself, RunOrder, ApplyUpdate;
    NoRemovesRun([a]);
    UpdateIsRun(item, [a], values);
    IndependentOutcome(item, [a], values);
    assert a in [a];
  }

  lemma IndependentPermuted(s: seq<Action>, t: seq<Action>)
    requires AllIndependent(s) && multiset(s) == multiset(t)
    ensures AllIndependent(t)
  {
    hide Overlap, Independent, AllIndependent;
    IndependentDisjoint(s);
    DisjointPermuted(t, s);
    forall i, j | 0 <= i < j < |t|
      ensures Independent(t[i], t[j])
    {
      SameMembers(s, t, t[i]);
      SameMembers(s, t, t[j]);
      OverlapIff(t[i].path, t[i].path);
      IndependentMembers(s, t[i], t[j]);
    }
    EachIndependent(t);
  }

  lemma EachIndependent(t: seq<Action>)
    requires forall i, j :: 0 <= i < j < |t| ==> Independent(t[i], t[j])
    ensures AllIndependent(t)
  {
    hide Independent;
  }

  /** Independent SET and ADD actions have one outcome in every order, with references too: one item, one
      failure, or a document that is never read to the end. */
  lemma AnyOrderByReference(s: seq<Action>, t: seq<Action>, item: Item, values: Env)
    requires AllIndependent(s) && multiset(s) == multiset(t)
    ensures ByReference(item, s, values) == ByReference(item, t, values)
  {
    hide AllIndependent, ByReference, IntoItself, ApplyAll;
    if |s| <= 1 {
      SingletonPermuted(s, t);
    } else {
      forall a
        ensures a in s <==> a in t
      {
        SameMembers(s, t, a);
      }
      forall i | 0 <= i < |s|
        ensures IsWrite(s[i])
      {
        OnlyWrites(s, s[i]);
      }
      forall i | 0 <= i < |t|
        ensures IsWrite(t[i])
      {
        OnlyWrites(s, t[i]);
      }
      IndependentPermuted(s, t);
      IndependentOutcome(item, s, values);
      IndependentOutcome(item, t, values);
      AnyOrder(s, t, item, values);
    }
  }
}
