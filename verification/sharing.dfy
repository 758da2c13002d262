/** Where references show (update.go evalRvalue, setPath; avjson.go validateItem): a container stored inside
    itself, and a write into a container that is stored twice. */
module SharedWrites {
  import opened Wrappers
  import opened Values
  import opened Paths
  import opened Expressions
  import opened Updates
  import opened RemoveSort
  import opened UpdateOrder
  import opened RunOrders
  import opened References
  import opened Reading
  import opened InPlace
  import opened Dropping
  import opened RightHandSides
  import opened InPlaceSteps
  import opened UpdatesByReference

  // ---- a container inside itself ----

  lemma CopyRuns(h: Heap, p: Path, r: Path)
    ensures ApplyRef(h, CopySet(p, r)) ==
              match Walk(h, Box(ROOT), r) case None => Err case Some(v) => PutIn(h, Box(ROOT), p, v)
  {
    hide Walk, PutIn;
  }

  /** Once the write succeeded, the container that was read lies below itself. */
  lemma CopyIntoItself(h: Heap, d: Item, p: Path, r: Path)
    requires InProgress(h, d, {}) && Ready(h, p, {}) && r < p
    ensures ApplyRef(h, CopySet(p, r)).Ok? ==>
              Cyclic(ApplyRef(h, CopySet(p, r)).value, Box(ROOT), r, p[|r|..])
  {
    hide Walk, PutIn, InProgress, Ready, Overlap, Missing, ApplyRef, Sane, Linked, Denotes;
    CopyRuns(h, p, r);
    if ApplyRef(h, CopySet(p, r)).Ok? {
      SaneProgress(h, d, {});
      ReadyAlone(h, p, {});
      var v := Walk(h, Box(ROOT), r).value;
      LinkedWalk(h, Box(ROOT), r);
      PutWalk(h, Box(ROOT), p, v, r);
      PutWalk(h, Box(ROOT), p, v, p);
      var h2 := ApplyRef(h, CopySet(p, r)).value;
      assert p == r + p[|r|..] && p[|p|..] == [];
      WalkConcat(h2, Box(ROOT), r, p[|r|..]);
      WalkHere(h2, v);
    }
  }

  lemma ReadyAlone(h: Heap, w: seq<Elem>, names: set<string>)
    requires Ready(h, w, names)
    ensures Alone(h, Box(ROOT), w)
  {
  }

  lemma CopyStoresAbove(p: Path, r: Path, w: Path)
    ensures StoresAbove(CopySet(p, r), w) <==> r < w
  {
    assert w == Parent(w) + [Last(w)];
    if r < w {
      assert r <= w[..|w| - 1];
    }
  }

  /** SET p = r alone: the document is never read to the end if and only if p lies below r; then the
      container at r is stored inside itself. Otherwise the result is that of copying. */
  lemma CopyEndlessIff(item: Item, p: Path, r: Path, values: Env)
    ensures ByReference(item, [CopySet(p, r)], values) ==
              if r < p && ApplyUpdate(item, [CopySet(p, r)], values).Ok? then Endless
              else ByCopy(item, [CopySet(p, r)], values)
  {
    hide Walk, InProgress, ApplyRef, ApplyUpdate, ApplyAction, Unfold, Cyclic, StoresAbove, CopySet, Denotes;
    var a, h := CopySet(p, r), Cloned(item, values);
    IsCopySet(p, r);
    NoRemovesRun([a]);
    hide RunOrder;
    UpdateIsRun(item, [a], values);
    if r < p {
      RunOne(h, a);
      ApplyOneAction(a, item, values);
      ClonedProgress(item, values, {});
      ClonedReady(item, values, p, {});
      CopyIntoItself(h, item, p, r);
      CopySucceeds(h, item, p, r);
      if ApplyRef(h, a).Ok? {
        CycleNeverUnfolds(ApplyRef(h, a).value, Box(ROOT), r, p[|r|..]);
      }
    } else {
      CopyStoresAbove(p, r, p);
      OneIsGuarded(a, p);
      ReferencesAsCopies(item, [a], values);
    }
  }

  lemma IsCopySet(p: Path, r: Path)
    ensures IsWrite(CopySet(p, r)) && CopySet(p, r).path == p && !CopySet(p, r).Remove?
  {
  }

  lemma OneIsGuarded(a: Action, p: Path)
    requires a.path == p && IsWrite(a) && !StoresAbove(a, p)
    ensures ParsedUpdate([a]) && NoWriteIntoStored([a]) && NoShift([a])
  {
  }

  lemma ApplyOneAction(a: Action, item: Item, env: Env)
    ensures ApplyAll([a], item, env) == ApplyAction(a, item, env)
  {
    hide ApplyAction;
    assert [a][1..] == [];
    var d := ApplyAction(a, item, env);
    assert d.Ok? ==> ApplyAll([], d.value, env) == Ok(d.value);
  }

  /** Whether a copying SET succeeds does not depend on how it copies. */
  lemma CopySucceeds(h: Heap, d: Item, p: Path, r: Path)
    requires InProgress(h, d, {})
    ensures ApplyRef(h, CopySet(p, r)).Ok? <==> ApplyAction(CopySet(p, r), d, h.values).Ok?
  {
    hide Walk, PutIn, Put, Get, Sane, Linked, Denotes, InProgress;
    CopyRuns(h, p, r);
    SaneProgress(h, d, {});
    PathDenotes(h, d, {}, r);
    if Walk(h, Box(ROOT), r).Some? {
      PutSucceeds(h, Box(ROOT), p, Walk(h, Box(ROOT), r).value, M(d), ResolvePath(d, r).value);
    }
  }

  /** SET a.b = a: the map at a becomes a part of itself, and the request never returns. */
  lemma SelfCopyNeverReturns(item: Item, values: Env)
    requires "a" in item && item["a"].M?
    ensures ByReference(item, [CopySet([Name("a"), Name("b")], [Name("a")])], values) == Endless
  {
    hide ByReference, ApplyUpdate;
    var p: Path, r: Path := [Name("a"), Name("b")], [Name("a")];
    CopyEndlessIff(item, p, r, values);
    assert p[..1] == r;
    UpdateIsRun(item, [CopySet(p, r)], values);
    NoRemovesRun([CopySet(p, r)]);
    ApplyOneAction(CopySet(p, r), item, values);
    CopiesAtoAB(item, values, p, r);
  }

  lemma CopiesAtoAB(item: Item, values: Env, p: Path, r: Path)
    requires "a" in item && item["a"].M? && p == [Name("a"), Name("b")] && r == [Name("a")]
    ensures ApplyAction(CopySet(p, r), item, values).Ok?
  {
    var x := item["a"];
    assert r[1..] == [] && Get(x, []) == Some(x) && p[1..] == [Name("b")] && [Name("b")][1..] == [];
    assert Get(M(item), r) == Some(x);
    assert Put(ChildOrNew(x, Name("b")), [], x) == Ok(x);
    assert Put(x, [Name("b")], x).Ok?;
    assert Put(M(item), p, x).Ok?;
  }

  // ---- a write into a container that is stored twice ----

  /** Whatever differs in h2 is reached from v only below p. */
  ghost predicate OnlyBelow(h: Heap, h2: Heap, v: Val, p: seq<Elem>) {
    forall t, c :: Walk(h, v, t) == Some(Box(c)) && Look(h2, c) != Look(h, c) ==> p <= t
  }

  ghost predicate OnlyBelowEither(h: Heap, h2: Heap, v: Val, p: seq<Elem>, r: seq<Elem>) {
    forall t, c :: Walk(h, v, t) == Some(Box(c)) && Look(h2, c) != Look(h, c) ==> p <= t || r <= t
  }

  lemma PrefixOfCons(e: Elem, p: seq<Elem>, t: seq<Elem>)
    requires p != []
    ensures p <= [e] + t <==> p[0] == e && p[1..] <= t
  {
    var u := [e] + t;
    assert u[1..] == t && p == [p[0]] + p[1..];
    if p <= u {
      assert u[..|p|][1..] == t[..|p| - 1];
    }
    if p[0] == e && p[1..] <= t {
      assert u[..|p|] == [e] + t[..|p| - 1];
    }
  }

  /** Replacing the object at one place. */
  lemma {:induction false} ReplacedAt(h: Heap, h2: Heap, v: Val, x: AV, p: seq<Elem>, y: AV)
    requires Denotes(h, v, x) && Walk(h, v, p).Some? && Denotes(h2, Walk(h, v, p).value, y)
    requires OnlyBelow(h, h2, v, p)
    ensures Put(x, p, y).Ok? && Denotes(h2, v, Put(x, p, y).value)
    decreases |p|
  {
    hide Denotes, ChildVal, Child, Walk, Put, OnlyBelow, SameBelow, Relinked;
    if p == [] {
      WalkHere(h, v);
      PutHere(x, y);
    } else {
      StepOfWalk(h, v, p);
      Kids(h, v, x, p[0]);
      var c := ChildVal(h, v, p[0]).value;
      OnlyBelowChild(h, h2, v, p);
      ReplacedAt(h, h2, c, Child(x, p[0]).value, p[1..], y);
      PutUnfold(x, p, y);
      WithChildExists(x, p[0]);
      ReplacedDenotes(h, h2, v, p[0], c, x, Put(Child(x, p[0]).value, p[1..], y).value);
    }
  }

  lemma OnlyBelowChild(h: Heap, h2: Heap, v: Val, p: seq<Elem>)
    requires p != [] && ChildVal(h, v, p[0]).Some? && OnlyBelow(h, h2, v, p)
    ensures OnlyBelow(h, h2, ChildVal(h, v, p[0]).value, p[1..])
    ensures Relinked(h, h2, v, p[0], ChildVal(h, v, p[0]).value) && OthersSame(h, h2, v, p[0])
  {
    hide ChildVal, Walk, Relinked;
    var c := ChildVal(h, v, p[0]).value;
    RelinkedSame(h, v, p[0]);
    HasChild(h, v, p[0]);
    WalkHere(h, v);
    RelinkedFrame(h, h2, v, p[0], c);
    forall t, b | Walk(h, c, t) == Some(Box(b)) && Look(h2, b) != Look(h, b)
      ensures p[1..] <= t
    {
      WalkCons(h, v, p[0], t);
      PrefixOfCons(p[0], p, t);
    }
    forall f, b | f != p[0] && ChildVal(h, v, f).Some? && Reaches(h, ChildVal(h, v, f).value, b)
      ensures Look(h2, b) == Look(h, b)
    {
      var t :| Walk(h, ChildVal(h, v, f).value, t) == Some(Box(b));
      WalkCons(h, v, f, t);
      PrefixOfCons(f, p, t);
    }
  }

  lemma EitherChild(h: Heap, h2: Heap, v: Val, p: seq<Elem>, r: seq<Elem>)
    requires p != [] && r != [] && ChildVal(h, v, p[0]).Some? && OnlyBelowEither(h, h2, v, p, r)
    ensures Relinked(h, h2, v, p[0], ChildVal(h, v, p[0]).value)
    ensures p[0] == r[0] ==> OnlyBelowEither(h, h2, ChildVal(h, v, p[0]).value, p[1..], r[1..])
    ensures p[0] != r[0] ==> OnlyBelow(h, h2, ChildVal(h, v, p[0]).value, p[1..])
    ensures forall f :: f != p[0] && f != r[0] && ChildVal(h, v, f).Some? ==>
              SameBelow(h, h2, ChildVal(h, v, f).value)
  {
    hide ChildVal, Walk, Relinked;
    var c := ChildVal(h, v, p[0]).value;
    RelinkedSame(h, v, p[0]);
    HasChild(h, v, p[0]);
    WalkHere(h, v);
    RelinkedFrame(h, h2, v, p[0], c);
    forall t, b | Walk(h, c, t) == Some(Box(b)) && Look(h2, b) != Look(h, b)
      ensures p[1..] <= t || (p[0] == r[0] && r[1..] <= t)
    {
      WalkCons(h, v, p[0], t);
      PrefixOfCons(p[0], p, t);
      PrefixOfCons(p[0], r, t);
    }
    forall f, b | f != p[0] && f != r[0] && ChildVal(h, v, f).Some? && Reaches(h, ChildVal(h, v, f).value, b)
      ensures Look(h2, b) == Look(h, b)
    {
      var t :| Walk(h, ChildVal(h, v, f).value, t) == Some(Box(b));
      WalkCons(h, v, f, t);
      PrefixOfCons(f, p, t);
      PrefixOfCons(f, r, t);
    }
  }

  /** Replacing the object that is at two places. */
  lemma {:induction false} ReplacedAtBoth(h: Heap, h2: Heap, v: Val, x: AV, p: seq<Elem>, r: seq<Elem>, y: AV)
    requires Denotes(h, v, x) && Walk(h, v, p).Some? && Walk(h, v, r) == Walk(h, v, p) && !Overlap(p, r)
    requires Denotes(h2, Walk(h, v, p).value, y) && OnlyBelowEither(h, h2, v, p, r)
    ensures Then(Put(x, r, y), p, y).Ok? && Denotes(h2, v, Then(Put(x, r, y), p, y).value)
    decreases |p|
  {
    hide Denotes, ChildVal, Child, Walk, Put, OnlyBelowEither, OnlyBelow, SameBelow, Relinked, Then;
    StepOfWalk(h, v, p);
    StepOfWalk(h, v, r);
    Kids(h, v, x, p[0]);
    Kids(h, v, x, r[0]);
    EitherChild(h, h2, v, p, r);
    var c, a := ChildVal(h, v, p[0]).value, Child(x, p[0]).value;
    WithChildExists(x, p[0]);
    if p[0] == r[0] {
      ReplacedAtBoth(h, h2, c, a, p[1..], r[1..], y);
      ThenSameChild(x, r, y, p, y);
      ReplacedDenotes(h, h2, v, p[0], c, x, Then(Put(a, r[1..], y), p[1..], y).value);
    } else {
      EitherSymmetric(h, h2, v, p, r);
      EitherChild(h, h2, v, r, p);
      ReplacedAt(h, h2, c, a, p[1..], y);
      ReplacedAt(h, h2, ChildVal(h, v, r[0]).value, Child(x, r[0]).value, r[1..], y);
      ThenOtherChild(x, r, y, p, y);
      WithChildExists(x, r[0]);
      var b := Put(Child(x, r[0]).value, r[1..], y).value;
      var w := WithChild(x, r[0], b).value;
      StillThere(x, r[0], b, p[0]);
      ReplacedTwo(h, h2, v, x, p[0], r[0], Put(a, p[1..], y).value, b);
    }
  }

  lemma EitherSymmetric(h: Heap, h2: Heap, v: Val, p: seq<Elem>, r: seq<Elem>)
    requires OnlyBelowEither(h, h2, v, p, r)
    ensures OnlyBelowEither(h, h2, v, r, p)
  {
  }

  lemma StillThere(x: AV, e: Elem, b: AV, f: Elem)
    requires WithChild(x, e, b).Ok? && Child(x, f).Some?
    ensures forall d :: WithChild(WithChild(x, e, b).value, f, d).Ok?
  {
  }

  /** The same container with two children changed. */
  lemma ReplacedTwo(h: Heap, h2: Heap, v: Val, x: AV, e: Elem, f: Elem, a: AV, b: AV)
    requires Denotes(h, v, x) && e != f && ChildVal(h, v, e).Some? && ChildVal(h, v, f).Some?
    requires Denotes(h2, ChildVal(h, v, e).value, a) && Denotes(h2, ChildVal(h, v, f).value, b)
    requires Relinked(h, h2, v, e, ChildVal(h, v, e).value)
    requires forall g :: g != e && g != f && ChildVal(h, v, g).Some? ==> SameBelow(h, h2, ChildVal(h, v, g).value)
    requires WithChild(x, f, b).Ok? && WithChild(WithChild(x, f, b).value, e, a).Ok?
    ensures Denotes(h2, v, WithChild(WithChild(x, f, b).value, e, a).value)
  {
    hide Denotes, SameBelow, ChildVal, Child, WithChild, Relinked;
    var w := WithChild(x, f, b).value;
    var z := WithChild(w, e, a).value;
    RelinkedKids(h, h2, v, e, ChildVal(h, v, e).value);
    forall g | ChildVal(h2, v, g).Some? && Child(z, g).Some?
      ensures Denotes(h2, ChildVal(h2, v, g).value, Child(z, g).value)
    {
      ChildOfWithChild(x, f, g, b);
      ChildOfWithChild(w, e, g, a);
      if g != e && g != f {
        Kids(h, v, x, g);
        DenotesFrame(h, h2, ChildVal(h, v, g).value, Child(x, g).value);
      }
    }
    AlikeDenoted(h, v, x);
    TwoAlike(h, h2, v, x, e, f, a, b);
    ByKids(h2, v, z);
  }

  lemma TwoAlike(h: Heap, h2: Heap, v: Val, x: AV, e: Elem, f: Elem, a: AV, b: AV)
    requires Alike(h, v, x) && ChildVal(h, v, e).Some? && ChildVal(h, v, f).Some?
    requires Relinked(h, h2, v, e, ChildVal(h, v, e).value)
    requires WithChild(x, f, b).Ok? && WithChild(WithChild(x, f, b).value, e, a).Ok?
    ensures Alike(h2, v, WithChild(WithChild(x, f, b).value, e, a).value)
  {
  }

  // ---- SET p = r, SET q = :v ----

  lemma ValueRuns(h: Heap, q: Path, k: string)
    requires k in h.values
    ensures ApplyRef(h, ValueSet(q, k)) == PutIn(h, Box(ROOT), q, ValueVal(h, k))
  {
    hide Walk, PutIn;
  }

  /** Where r lies, when q lies below r, does not overlap p, and p does not lie below r. */
  lemma SourceApart(p: seq<Elem>, q: seq<Elem>, r: seq<Elem>)
    requires !Overlap(p, q) && r < q && !(r < p)
    ensures !Overlap(p, r)
  {
    OverlapIff(p, q);
    OverlapIff(p, r);
    assert p <= r ==> p <= q;
  }

  /** After SET p = r the container n of r is at both places, and is otherwise as in the clone. */
  ghost predicate StoredTwice(h: Heap, item: Item, values: Env, p: Path, r: Path, n: Val) {
    var h0 := Cloned(item, values);
    && h.values == values && Walk(h0, Box(ROOT), r) == Some(n)
    && Walk(h, Box(ROOT), r) == Some(n) && Walk(h, Box(ROOT), p) == Some(n) && Linked(h0, n)
    && SameBelow(h0, h, n) && (forall k :: k in values ==> SameBelow(h0, h, ValueVal(h0, k)))
    && forall t, c :: Walk(h, Box(ROOT), t) == Some(Box(c)) && Look(h0, c).Some? ==>
         p <= t || Walk(h0, Box(ROOT), t) == Some(Box(c))
  }

  lemma CopyStoresTwice(item: Item, values: Env, p: Path, r: Path, n: Val, h: Heap, k: string)
    requires !Overlap(p, r) && Walk(Cloned(item, values), Box(ROOT), r) == Some(n)
    requires PutIn(Cloned(item, values), Box(ROOT), p, n) == Ok(h)
    ensures StoredTwice(h, item, values, p, r, n)
    ensures ResolvePath(item, r).Some? && SetPath(item, p, ResolvePath(item, r).value).Ok?
    ensures InProgress(h, SetPath(item, p, ResolvePath(item, r).value).value, {k})
  {
    hide Walk, PutIn, InProgress, Ready, Overlap, Missing, Sane, Linked, Denotes, SetPath, SameBelow, Holdless;
    var h0 := Cloned(item, values);
    ClonedProgress(item, values, {k});
    SaneProgress(h0, item, {k});
    ClonedReady(item, values, p, {k});
    ReadyAlone(h0, p, {k});
    PathDenotes(h0, item, {k}, r);
    CopyHoldless(item, values, p, r, n);
    PutProgress(h0, item, {k}, p, n, ResolvePath(item, r).value);
    PutTouches(h0, Box(ROOT), p, n);
    OverlapIff(p, r);
    PutWalk(h0, Box(ROOT), p, n, r);
    PutWalk(h0, Box(ROOT), p, n, p);
    assert p[|p|..] == [];
    WalkHere(h, n);
    HoldlessSame(h0, h, p, n);
    forall j | j in values
      ensures SameBelow(h0, h, ValueVal(h0, j))
    {
      ValuesSameBelow(item, values, h, p, j);
    }
    forall t, c | Walk(h, Box(ROOT), t) == Some(Box(c)) && Look(h0, c).Some?
      ensures p <= t || Walk(h0, Box(ROOT), t) == Some(Box(c))
    {
      PutWalk(h0, Box(ROOT), p, n, t);
      OverlapIff(p, t);
      MadeIsOld(h0, c);
    }
  }

  lemma CopyHoldless(item: Item, values: Env, p: Path, r: Path, n: Val)
    requires !Overlap(p, r) && Walk(Cloned(item, values), Box(ROOT), r) == Some(n)
    ensures Holdless(Cloned(item, values), p, n)
  {
    hide Walk, Reaches, Overlap;
    var h := Cloned(item, values);
    OverlapIff(p, r);
    forall c | OnWay(h, Box(ROOT), p, c)
      ensures !Reaches(h, n, c)
    {
      var i :| 0 <= i < |p| && Walk(h, Box(ROOT), p[..i]) == Some(Box(c));
      ClonedOnce(item, values, p[..i]);
      assert r <= p[..i] ==> r <= p;
      PathReachesNot(h, p[..i], c, r);
    }
  }

  lemma HoldlessSame(h: Heap, h2: Heap, p: Path, y: Val)
    requires Sane(h) && Linked(h, y) && Holdless(h, p, y) && Touched(h, h2, Box(ROOT), p)
    ensures SameBelow(h, h2, y)
  {
    hide Sane, Linked, SameBelow;
    StoredIsSame(h, h2, Box(ROOT), p, y);
  }

  lemma ValuesSameBelow(item: Item, values: Env, h2: Heap, p: Path, k: string)
    requires k in values && Touched(Cloned(item, values), h2, Box(ROOT), p)
    ensures SameBelow(Cloned(item, values), h2, ValueVal(Cloned(item, values), k))
  {
    hide Sane, Linked, SameBelow, Touched, InProgress, Ready, Denotes;
    var h := Cloned(item, values);
    ClonedProgress(item, values, {k});
    ClonedReady(item, values, p, {k});
    ValueOff(h, item, p, k);
    SaneProgress(h, item, {k});
    OffIsSame(h, h2, p, ValueVal(h, k));
  }

  lemma ValueOff(h: Heap, d: Item, p: Path, k: string)
    requires k in h.values && InProgress(h, d, {k}) && Ready(h, p, {k})
    ensures Off(h, Box(ROOT), p, ValueVal(h, k)) && Linked(h, ValueVal(h, k))
    ensures Denotes(h, ValueVal(h, k), h.values[k])
  {
    hide Sane, Off, Denotes, Alone;
    assert k in {k};
  }

  /** What is below n in the clone: containers of the item, each at its place. */
  lemma BelowSource(item: Item, values: Env, r: Path, n: Val, u: seq<Elem>, c: Ref)
    requires Walk(Cloned(item, values), Box(ROOT), r) == Some(n)
    requires Walk(Cloned(item, values), n, u) == Some(Box(c))
    ensures c == InItem(r + u) && Look(Cloned(item, values), c).Some?
  {
    hide Walk, Get, Sane;
    var h := Cloned(item, values);
    WalkConcat(h, Box(ROOT), r, u);
    ClonedPlace(item, values, r + u);
    ClonedProgress(item, values, {});
    LinkedWalk(h, Box(ROOT), r + u);
  }

  /** Below n, nothing occurs twice. */
  lemma SourceIsAlone(h: Heap, item: Item, values: Env, p: Path, r: Path, n: Val, s: seq<Elem>)
    requires StoredTwice(h, item, values, p, r, n)
    ensures Alone(h, n, s)
  {
    hide Walk, SameBelow, Linked, Look;
    var h0 := Cloned(item, values);
    forall q
      ensures Walk(h, n, q) == Walk(h0, n, q)
    {
      WalkFrame(h0, h, n, q);
    }
    forall i | 0 <= i < |s|
      ensures Once(h, n, s[..i])
    {
      forall q | Walk(h, n, s[..i]).Some? && Walk(h, n, s[..i]).value.Box? && Walk(h, n, q) == Walk(h, n, s[..i])
        ensures q == s[..i]
      {
        var c := Walk(h, n, q).value.ref;
        BelowSource(item, values, r, n, q, c);
        BelowSource(item, values, r, n, s[..i], c);
        assert (r + q)[|r|..] == q && (r + s[..i])[|r|..] == s[..i];
      }
    }
  }

  /** Below n, nothing of an attribute value occurs. */
  lemma SourceIsClear(h: Heap, item: Item, values: Env, p: Path, r: Path, n: Val, s: seq<Elem>, k: string)
    requires StoredTwice(h, item, values, p, r, n) && k in values
    ensures forall c :: OnWay(h, n, s, c) ==> !Reaches(h, ValueVal(h, k), c)
  {
    hide Walk, SameBelow, Linked, Look;
    forall c | OnWay(h, n, s, c)
      ensures !Reaches(h, ValueVal(h, k), c)
    {
      var i :| 0 <= i < |s| && Walk(h, n, s[..i]) == Some(Box(c));
      WalkFrame(Cloned(item, values), h, n, s[..i]);
      BelowSource(item, values, r, n, s[..i], c);
      ValueHasNot(h, item, values, p, r, n, k, c);
    }
  }

  lemma ValueHasNot(h: Heap, item: Item, values: Env, p: Path, r: Path, n: Val, k: string, c: Ref)
    requires StoredTwice(h, item, values, p, r, n) && k in values && c.InItem?
    ensures !Reaches(h, ValueVal(h, k), c)
  {
    hide Walk, SameBelow, Linked, Get, Look;
    var h0 := Cloned(item, values);
    ReachesFrame(h0, h, ValueVal(h0, k), c);
    forall t
      ensures Walk(h0, ValueVal(h0, k), t) != Some(Box(c))
    {
      ClonedValuePlace(item, values, k, t);
    }
  }

  /** A write below n changes nothing that is not below n. */
  lemma OnlyBelowSource(h: Heap, h2: Heap, item: Item, values: Env, p: Path, r: Path, n: Val, s: seq<Elem>)
    requires StoredTwice(h, item, values, p, r, n) && Sane(h) && Linked(h, Box(ROOT)) && Touched(h, h2, n, s)
    ensures OnlyBelowEither(h, h2, Box(ROOT), p, r)
  {
    hide Walk, SameBelow, Linked, Sane, Get;
    var h0 := Cloned(item, values);
    forall t, c | Walk(h, Box(ROOT), t) == Some(Box(c)) && Look(h2, c) != Look(h, c)
      ensures p <= t || r <= t
    {
      WalkedIsOld(h, Box(ROOT), t);
      assert OnWay(h, n, s, c);
      var i :| 0 <= i < |s| && Walk(h, n, s[..i]) == Some(Box(c));
      WalkFrame(h0, h, n, s[..i]);
      BelowSource(item, values, r, n, s[..i], c);
      if !(p <= t) {
        ClonedPlace(item, values, t);
        assert t == r + s[..i];
      }
    }
  }

  /** The write below r shows at p as well. */
  lemma WriteShowsTwice(h: Heap, item: Item, values: Env, p: Path, r: Path, n: Val, q: Path, k: string, d: Item)
    requires StoredTwice(h, item, values, p, r, n) && k in values && !Overlap(p, r) && r < q
    requires InProgress(h, d, {k}) && ResolvePath(item, r).Some? && ApplyRef(h, ValueSet(q, k)).Ok?
    ensures var y := Put(ResolvePath(item, r).value, q[|r|..], values[k]);
            && y.Ok? && Then(Put(M(d), r, y.value), p, y.value).Ok?
            && Denotes(ApplyRef(h, ValueSet(q, k)).value, Box(ROOT), Then(Put(M(d), r, y.value), p, y.value).value)
  {
    hide Walk, PutIn, Sane, Denotes, Put, Then, SameBelow, OnWay, Alone, Overlap, ApplyRef, InProgress, Linked;
    var s, tv := q[|r|..], ValueVal(h, k);
    assert q == r + s;
    ValueRuns(h, q, k);
    PutAlong(h, Box(ROOT), r, s, tv);
    TwicePlaces(h, item, values, p, r, n);
    SaneProgress(h, d, {k});
    ValueParts(h, d, k);
    SourceDenotes(h, item, values, p, r, n);
    SourceIsAlone(h, item, values, p, r, n, s);
    SourceIsClear(h, item, values, p, r, n, s, k);
    hide StoredTwice;
    PutDenotes(h, n, s, tv, ResolvePath(item, r).value, values[k]);
    PutTouches(h, n, s, tv);
    var h2 := PutIn(h, n, s, tv).value;
    OnlyBelowSource(h, h2, item, values, p, r, n, s);
    ReplacedAtBoth(h, h2, Box(ROOT), M(d), p, r, Put(ResolvePath(item, r).value, s, values[k]).value);
  }

  lemma ValueParts(h: Heap, d: Item, k: string)
    requires InProgress(h, d, {k}) && k in h.values
    ensures Linked(h, ValueVal(h, k)) && Denotes(h, ValueVal(h, k), h.values[k])
  {
    hide Sane, Denotes;
    assert k in {k};
  }

  lemma TwicePlaces(h: Heap, item: Item, values: Env, p: Path, r: Path, n: Val)
    requires StoredTwice(h, item, values, p, r, n)
    ensures Walk(h, Box(ROOT), r) == Some(n) && Walk(h, Box(ROOT), p) == Some(n) && h.values == values
  {
  }

  lemma SourceDenotes(h: Heap, item: Item, values: Env, p: Path, r: Path, n: Val)
    requires StoredTwice(h, item, values, p, r, n) && ResolvePath(item, r).Some? && Sane(h)
    ensures Denotes(h, n, ResolvePath(item, r).value)
    ensures Linked(h, Box(ROOT)) ==> Linked(h, n)
  {
    hide Walk, SameBelow, Denotes, Sane, Linked;
    var h0 := Cloned(item, values);
    ClonedProgress(item, values, {});
    PathDenotes(h0, item, {}, r);
    DenotesFrame(h0, h, n, ResolvePath(item, r).value);
    if Linked(h, Box(ROOT)) {
      LinkedWalk(h, Box(ROOT), r);
    }
  }

  /** Writing below r and at p, in terms of the document before SET p = r. */
  lemma TwiceIsCopiedLast(v: AV, p: seq<Elem>, r: seq<Elem>, s: seq<Elem>, x: AV, z: AV)
    requires !Overlap(p, r) && Get(v, r) == Some(x) && Put(v, p, x).Ok? && s != []
    requires Put(x, s, z).Ok? && Then(Put(Put(v, p, x).value, r, Put(x, s, z).value), p, Put(x, s, z).value).Ok?
    ensures var y := Put(x, s, z).value;
            && Put(v, r + s, z).Ok? && Get(Put(v, r + s, z).value, r) == Some(y)
            && Then(Put(Put(v, p, x).value, r, y), p, y) == Put(Put(v, r + s, z).value, p, y)
  {
    hide Put, Get, Overlap;
    var y := Put(x, s, z).value;
    PutBelow(v, r, s, z);
    PutsCommute(v, p, x, r, y);
    GetOfPut(v, r, y);
    PutTwice(Put(v, r, y).value, p, x, y);
  }

  lemma TwoRefs(h: Heap, a: Action, b: Action)
    ensures RunRefs(h, [a, b]) == match ApplyRef(h, a) case Err => Err case Ok(d) => ApplyRef(d, b)
  {
    hide ApplyRef;
    assert [a, b][1..] == [b];
    if ApplyRef(h, a).Ok? {
      RunOne(ApplyRef(h, a).value, b);
    }
  }

  lemma PairRuns(item: Item, a: Action, b: Action, values: Env)
    requires IsWrite(a) && IsWrite(b)
    ensures RunOrder([a, b]) == [a, b] && ApplyUpdate(item, [a, b], values) == Both(a, b, item, values)
  {
    hide ApplyAction, ApplyUpdate, RunOrder, Both, ApplyAll;
    NoRemovesRun([a, b]);
    UpdateIsRun(item, [a, b], values);
    TwoActions(a, b, item, values);
  }

  /** The way there fails for both if it fails for one. */
  lemma SharedFails(item: Item, values: Env, p: Path, r: Path, q: Path, k: string)
    requires !Overlap(p, q) && k in values && ResolvePath(item, r).Some?
    requires Then(Put(M(item), p, ResolvePath(item, r).value), q, values[k]).Err?
    ensures Both(ValueSet(q, k), CopySet(p, r), item, values).Err?
  {
    hide Put, Get, Both, Overlap;
    var x, v := ResolvePath(item, r).value, values[k];
    CopyThenValue(item, values, p, r, q, k);
    PutsCommute(M(item), p, x, q, v);
    if SetPath(item, q, v).Ok? && ResolvePath(SetPath(item, q, v).value, r).Some? {
      PutFails(M(SetPath(item, q, v).value), p, x, ResolvePath(SetPath(item, q, v).value, r).value);
    }
  }

  /** The pair in place: fails exactly if copying fails, and otherwise leaves what copying leaves when
      the copy is made last. */
  lemma SharedPair(item: Item, values: Env, p: Path, r: Path, q: Path, k: string)
    requires !Overlap(p, q) && !(r < p) && r < q && k in values && ResolvePath(item, r).Some?
    ensures var h, both := RunRefs(Cloned(item, values), [CopySet(p, r), ValueSet(q, k)]),
                           Both(ValueSet(q, k), CopySet(p, r), item, values);
            && (h.Ok? <==> both.Ok?)
            && (h.Ok? ==> Denotes(h.value, Box(ROOT), M(both.value)))
  {
    hide Walk, PutIn, Sane, Denotes, Put, Get, Overlap, ApplyRef, InProgress, Linked, Both, StoredTwice, CopySet;
    hide ValueSet, RunRefs;
    var a, b, h0 := CopySet(p, r), ValueSet(q, k), Cloned(item, values);
    var x, v, s := ResolvePath(item, r).value, values[k], q[|r|..];
    assert q == r + s;
    SourceApart(p, q, r);
    TwoRefs(h0, a, b);
    CopyRuns(h0, p, r);
    PairSucceeds(item, values, p, r, q, k);
    if ApplyRef(h0, a).Err? || ApplyRef(ApplyRef(h0, a).value, b).Err? {
      SharedFails(item, values, p, r, q, k);
    } else {
      var h1 := ApplyRef(h0, a).value;
      var n := Walk(h0, Box(ROOT), r).value;
      CopyStoresTwice(item, values, p, r, n, h1, k);
      var d := SetPath(item, p, x).value;
      WriteShowsTwice(h1, item, values, p, r, n, q, k, d);
      TwiceIsCopiedLast(M(item), p, r, s, x, v);
      CopyThenValue(item, values, p, r, q, k);
      ItemStays(M(SetPath(item, q, v).value), p, Put(x, s, v).value);
    }
  }

  /** Both actions succeed in place exactly if both succeed on values. */
  lemma PairSucceeds(item: Item, values: Env, p: Path, r: Path, q: Path, k: string)
    requires !Overlap(p, r) && k in values && ResolvePath(item, r).Some?
    ensures var h1, w := ApplyRef(Cloned(item, values), CopySet(p, r)), Put(M(item), p, ResolvePath(item, r).value);
            && (h1.Ok? <==> w.Ok?)
            && (h1.Ok? ==> (ApplyRef(h1.value, ValueSet(q, k)).Ok? <==> Put(w.value, q, values[k]).Ok?))
  {
    hide Walk, PutIn, Sane, Denotes, Put, Get, Overlap, InProgress, Linked, StoredTwice;
    var h0, x := Cloned(item, values), ResolvePath(item, r).value;
    CopyRuns(h0, p, r);
    ClonedProgress(item, values, {});
    SaneProgress(h0, item, {});
    PathDenotes(h0, item, {}, r);
    var n := Walk(h0, Box(ROOT), r).value;
    PutSucceeds(h0, Box(ROOT), p, n, M(item), x);
    if PutIn(h0, Box(ROOT), p, n).Ok? {
      var h1 := PutIn(h0, Box(ROOT), p, n).value;
      CopyStoresTwice(item, values, p, r, n, h1, k);
      TwicePlaces(h1, item, values, p, r, n);
      SaneProgress(h1, SetPath(item, p, x).value, {k});
      ValueRuns(h1, q, k);
      PutSucceeds(h1, Box(ROOT), q, ValueVal(h1, k), M(SetPath(item, p, x).value), values[k]);
    }
  }

  lemma PairIsGuarded(p: Path, r: Path, q: Path, k: string)
    requires !Overlap(p, q) && !(r < p)
    ensures ParsedUpdate([CopySet(p, r), ValueSet(q, k)]) && ParsedUpdate([ValueSet(q, k), CopySet(p, r)])
    ensures NoShift([CopySet(p, r), ValueSet(q, k)]) && NoShift([ValueSet(q, k), CopySet(p, r)])
    ensures NoWriteIntoStored([ValueSet(q, k), CopySet(p, r)])
    ensures !(r < q) ==> NoWriteIntoStored([CopySet(p, r), ValueSet(q, k)])
  {
    hide Overlap;
    OverlapSymmetric(p, q);
    CopyStoresAbove(p, r, p);
    CopyStoresAbove(p, r, q);
    assert forall w :: !StoresAbove(ValueSet(q, k), w);
  }

  /** SET p = r, SET q = :v in this order, p not below r: if q lies below r, the write shows at p as well, as
      if the copy were made last; otherwise the result is that of copying. In the other order it always is. */
  lemma PairBesides(item: Item, values: Env, p: Path, r: Path, q: Path, k: string)
    requires !Overlap(p, q) && !(r < p) && k in values
    ensures ByReference(item, [CopySet(p, r), ValueSet(q, k)], values) ==
              if r < q && ResolvePath(item, r).Some? then ByCopy(item, [ValueSet(q, k), CopySet(p, r)], values)
              else ByCopy(item, [CopySet(p, r), ValueSet(q, k)], values)
    ensures ByReference(item, [ValueSet(q, k), CopySet(p, r)], values) ==
              ByCopy(item, [ValueSet(q, k), CopySet(p, r)], values)
  {
    hide Walk, Denotes, Overlap, RunRefs, Both, CopySet, ValueSet, ApplyUpdate, RunOrder, NoWriteIntoStored, NoShift;
    hide ParsedUpdate, Unfold, ResolvePath;
    var a, b := CopySet(p, r), ValueSet(q, k);
    PairIsGuarded(p, r, q, k);
    PairWrites(p, r, q, k);
    PairRuns(item, a, b, values);
    PairRuns(item, b, a, values);
    ReferencesAsCopies(item, [b, a], values);
    if !(r < q) {
      ReferencesAsCopies(item, [a, b], values);
    } else if ResolvePath(item, r).Some? {
      SharedPair(item, values, p, r, q, k);
      var h := RunRefs(Cloned(item, values), [a, b]);
      if h.Ok? {
        DenotedReads(h.value, Both(b, a, item, values).value);
      }
    } else {
      UnresolvedFails(item, values, p, r, b);
    }
  }

  lemma PairWrites(p: Path, r: Path, q: Path, k: string)
    ensures IsWrite(CopySet(p, r)) && IsWrite(ValueSet(q, k))
  {
  }

  lemma DenotedReads(h: Heap, d: Item)
    requires Denotes(h, Box(ROOT), M(d))
    ensures ReadItem(h) == Updated(d)
  {
    hide Unfold, Denotes;
    DenotedUnfolds(h, Box(ROOT), M(d), {});
  }

  lemma UnresolvedFails(item: Item, values: Env, p: Path, r: Path, b: Action)
    requires ResolvePath(item, r).None?
    ensures RunRefs(Cloned(item, values), [CopySet(p, r), b]).Err? && Both(CopySet(p, r), b, item, values).Err?
  {
    hide Walk, InProgress, Get;
    TwoRefs(Cloned(item, values), CopySet(p, r), b);
    CopyRuns(Cloned(item, values), p, r);
    ClonedProgress(item, values, {});
    PathDenotes(Cloned(item, values), item, {}, r);
  }
}
