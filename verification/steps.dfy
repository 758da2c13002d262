/** One action in place (update.go applySet, applyAdd, applyDelete, applyRemove): it does what it does on
    values, and leaves the targets of later actions unshared. */
module InPlaceSteps {
  import opened Wrappers
  import opened Values
  import opened Paths
  import opened Updates
  import opened UpdateOrder
  import opened References
  import opened Reading
  import opened InPlace
  import opened Places
  import opened Dropping
  import opened RightHandSides

  /** The containers on the way to w occur nowhere else, and in none of these attribute values. */
  ghost predicate Ready(h: Heap, w: seq<Elem>, names: set<string>) {
    Alone(h, Box(ROOT), w) && forall k :: k in names && k in h.values ==> Off(h, Box(ROOT), w, ValueVal(h, k))
  }

  /** What is stored holds no container on the way to w. */
  ghost predicate Holdless(h: Heap, w: seq<Elem>, y: Val) {
    forall r :: OnWay(h, Box(ROOT), w, r) ==> !Reaches(h, y, r)
  }

  lemma ReadySecluded(h: Heap, w: seq<Elem>, names: set<string>, i: nat, c: Ref)
    requires Ready(h, w, names) && i < |w| && Walk(h, Box(ROOT), w[..i]) == Some(Box(c))
    ensures Secluded(h, w[..i], c, names)
  {
    hide Walk, Reaches, Once;
    forall k | k in names && k in h.values
      ensures !Reaches(h, ValueVal(h, k), c)
    {
      assert Apart(h, Box(ROOT), w[..i], ValueVal(h, k));
    }
  }

  lemma StoredHoldless(h: Heap, d: Item, names: set<string>, a: Action, w: Path)
    requires InProgress(h, d, names) && Uses(a) <= names && IsWrite(a) && StoredVal(h, a).Ok?
    requires Ready(h, w, names) && !StoresInto(a, d, w)
    ensures Holdless(StoredVal(h, a).value.1, w, StoredVal(h, a).value.0)
  {
    hide Walk, InProgress, Reaches, StoredVal, Ready, SameBelow, Sane, Linked, Secluded, Stores;
    StoredDenotes(h, d, names, a);
    SaneProgress(h, d, names);
    var h2 := StoredVal(h, a).value.1;
    forall c | OnWay(h2, Box(ROOT), w, c)
      ensures !Reaches(h2, StoredVal(h, a).value.0, c)
    {
      var i: nat :| i < |w| && Walk(h2, Box(ROOT), w[..i]) == Some(Box(c));
      ExtendsSame(h, h2, Box(ROOT));
      WalkFrame(h, h2, Box(ROOT), w[..i]);
      ReadySecluded(h, w, names, i, c);
      if a.Set? && a.value.Single? && Stores(a.value.r, 0, d, w[..i]) {
        StoresLonger(a.value.r, 0, d, w[..i], Parent(w));
      }
      StoredReachesNot(h, d, w[..i], c, names, a);
    }
  }

  lemma ReadyFrame(h: Heap, h2: Heap, w: seq<Elem>, names: set<string>)
    requires Ready(h, w, names) && Sane(h) && Linked(h, Box(ROOT)) && ValuesIntact(h, names) && Extends(h, h2)
    ensures Ready(h2, w, names)
  {
    hide Walk, SameBelow, Sane, Linked, Reaches, Extends, Denotes;
    ExtendsValues(h, h2);
    ExtendsSame(h, h2, Box(ROOT));
    forall q
      ensures Walk(h2, Box(ROOT), q) == Walk(h, Box(ROOT), q)
    {
      WalkFrame(h, h2, Box(ROOT), q);
    }
    forall i | 0 <= i < |w|
      ensures Once(h2, Box(ROOT), w[..i])
    {
      assert Once(h, Box(ROOT), w[..i]);
    }
    forall k, i | k in names && k in h.values && 0 <= i < |w|
      ensures Apart(h2, Box(ROOT), w[..i], ValueVal(h2, k))
    {
      ExtendsSame(h, h2, ValueVal(h, k));
      assert Off(h, Box(ROOT), w, ValueVal(h, k));
      assert Apart(h, Box(ROOT), w[..i], ValueVal(h, k));
      if Walk(h, Box(ROOT), w[..i]).Some? && Walk(h, Box(ROOT), w[..i]).value.Box? {
        ReachesFrame(h, h2, ValueVal(h, k), Walk(h, Box(ROOT), w[..i]).value.ref);
      }
    }
  }

  /** What the containers on the way do not occur in is left alone by the change. */
  lemma OffIsSame(h: Heap, h2: Heap, w: seq<Elem>, z: Val)
    requires Sane(h) && Linked(h, z) && Off(h, Box(ROOT), w, z) && Touched(h, h2, Box(ROOT), w)
    ensures SameBelow(h, h2, z)
  {
    hide Sane, Linked, Reaches, Walk;
    forall r | OnWay(h, Box(ROOT), w, r)
      ensures !Reaches(h, z, r)
    {
      var i :| 0 <= i < |w| && Walk(h, Box(ROOT), w[..i]) == Some(Box(r));
      assert Apart(h, Box(ROOT), w[..i], z);
    }
    StoredIsSame(h, h2, Box(ROOT), w, z);
  }

  /** A change on the way to a path that is ready leaves the attribute values alone. */
  lemma ValuesKept(h: Heap, h2: Heap, w: seq<Elem>, names: set<string>)
    requires Ready(h, w, names) && Sane(h) && ValuesIntact(h, names) && Touched(h, h2, Box(ROOT), w)
    requires forall v :: Linked(h, v) ==> Linked(h2, v)
    ensures ValuesIntact(h2, names)
    ensures forall k :: k in names && k in h.values ==> SameBelow(h, h2, ValueVal(h, k)) && Linked(h, ValueVal(h, k))
  {
    hide Sane, Linked, Denotes, SameBelow, Off, Alone, OnWay;
    forall k | k in names && k in h.values
      ensures Linked(h2, ValueVal(h2, k)) && Denotes(h2, ValueVal(h2, k), h2.values[k])
      ensures SameBelow(h, h2, ValueVal(h, k))
    {
      OffIsSame(h, h2, w, ValueVal(h, k));
      DenotesFrame(h, h2, ValueVal(h, k), h.values[k]);
    }
  }

  /** setPath on the document in progress. */
  lemma PutProgress(h: Heap, d: Item, names: set<string>, p: Path, y: Val, z: AV)
    requires InProgress(h, d, names) && Ready(h, p, names) && Linked(h, y) && Denotes(h, y, z) && Holdless(h, p, y)
    ensures PutIn(h, Box(ROOT), p, y).Ok? <==> SetPath(d, p, z).Ok?
    ensures PutIn(h, Box(ROOT), p, y).Ok? ==>
              InProgress(PutIn(h, Box(ROOT), p, y).value, SetPath(d, p, z).value, names) &&
              PutIn(h, Box(ROOT), p, y).value.values == h.values
  {
    hide Sane, Linked, Denotes, PutIn, Put, Reaches, OnWay, Alone, SameBelow;
    PutSucceeds(h, Box(ROOT), p, y, M(d), z);
    if PutIn(h, Box(ROOT), p, y).Ok? {
      PutTouches(h, Box(ROOT), p, y);
      PutDenotes(h, Box(ROOT), p, y, M(d), z);
      ValuesKept(h, PutIn(h, Box(ROOT), p, y).value, p, names);
    }
  }

  /** A write leaves a path ready that does not go on below what it stores. */
  lemma PutReady(h: Heap, d: Item, names: set<string>, p: Path, y: Val, w: seq<Elem>)
    requires InProgress(h, d, names) && Ready(h, p, names) && Linked(h, y) && Holdless(h, p, y)
    requires Ready(h, w, names) && !(p < w) && Holdless(h, w, y) && PutIn(h, Box(ROOT), p, y).Ok?
    ensures Ready(PutIn(h, Box(ROOT), p, y).value, w, names)
  {
    hide Sane, Linked, Denotes, PutIn, Reaches, Walk, SameBelow, Missing, Once;
    var h2 := PutIn(h, Box(ROOT), p, y).value;
    PutTouches(h, Box(ROOT), p, y);
    ValuesKept(h, h2, p, names);
    forall i | 0 <= i < |w|
      ensures Once(h2, Box(ROOT), w[..i])
      ensures forall k :: k in names && k in h.values ==> Apart(h2, Box(ROOT), w[..i], ValueVal(h2, k))
    {
      assert p <= w[..i] ==> p < w;
      HoldlessAt(h, w, y, i);
      assert Once(h, Box(ROOT), w[..i]);
      PutKeepsOnce(h, Box(ROOT), p, y, w[..i]);
      forall k | k in names && k in h.values
        ensures Apart(h2, Box(ROOT), w[..i], ValueVal(h2, k))
      {
        assert Off(h, Box(ROOT), w, ValueVal(h, k));
        assert Apart(h, Box(ROOT), w[..i], ValueVal(h, k));
        PutKeepsApart(h, Box(ROOT), p, y, w[..i], ValueVal(h, k));
      }
    }
  }

  lemma HoldlessAt(h: Heap, w: seq<Elem>, y: Val, i: nat)
    requires Holdless(h, w, y) && i < |w|
    ensures Apart(h, Box(ROOT), w[..i], y)
  {
    hide Walk, Reaches;
  }

  /** A container that does not occur in z still does not after a write that leaves z alone. */
  lemma PutKeepsApart(h: Heap, v: Val, p: seq<Elem>, y: Val, u: seq<Elem>, z: Val)
    requires p != [] && Sane(h) && Linked(h, v) && Linked(h, y) && Alone(h, v, p) && PutIn(h, v, p, y).Ok?
    requires !(p <= u) && Apart(h, v, u, z) && Linked(h, z) && SameBelow(h, PutIn(h, v, p, y).value, z)
    ensures Apart(PutIn(h, v, p, y).value, v, u, z)
  {
    hide Sane, Linked, PutIn, Walk, Reaches, Missing, Alone, SameBelow, Overlap;
    var h2 := PutIn(h, v, p, y).value;
    PutWalk(h, v, p, y, u);
    OverlapIff(p, u);
    if Walk(h2, v, u).Some? && Walk(h2, v, u).value.Box? {
      var c := Walk(h2, v, u).value.ref;
      ReachesFrame(h, h2, z, c);
      if Reaches(h, z, c) {
        ReachedIsLinked(h, z, c);
      }
    }
  }

  /** applyRemove on the document in progress. */
  lemma RemoveProgress(h: Heap, d: Item, names: set<string>, p: Path)
    requires InProgress(h, d, names) && Ready(h, p, names)
    ensures RemoveFrom(h, Box(ROOT), p).Ok? <==> RemovePath(d, p).Ok?
    ensures RemoveFrom(h, Box(ROOT), p).Ok? ==>
              InProgress(RemoveFrom(h, Box(ROOT), p).value, RemovePath(d, p).value, names) &&
              RemoveFrom(h, Box(ROOT), p).value.values == h.values
  {
    hide Sane, Linked, Denotes, RemoveFrom, RemoveIn, Reaches, OnWay, Alone, SameBelow;
    RemoveDenotes(h, Box(ROOT), p, M(d));
    if RemoveFrom(h, Box(ROOT), p).Ok? {
      RemoveTouches(h, Box(ROOT), p);
      ValuesKept(h, RemoveFrom(h, Box(ROOT), p).value, p, names);
    }
  }

  /** A removal leaves a path ready that does not overlap and does not go into an element that moves. */
  lemma RemoveReady(h: Heap, d: Item, names: set<string>, p: Path, w: seq<Elem>)
    requires InProgress(h, d, names) && Ready(h, p, names) && RemoveFrom(h, Box(ROOT), p).Ok?
    requires Ready(h, w, names) && !Overlap(p, w) && !(|w| > |p| && Moves(p, w))
    ensures Ready(RemoveFrom(h, Box(ROOT), p).value, w, names)
  {
    hide Sane, Linked, Denotes, RemoveFrom, Reaches, Walk, SameBelow, Overlap, Once, Moves;
    var h2 := RemoveFrom(h, Box(ROOT), p).value;
    if Walk(h, Box(ROOT), Parent(p)).None? {
      RemoveNothing(h, p);
      return;
    }
    RemoveTouches(h, Box(ROOT), p);
    ValuesKept(h, h2, p, names);
    assert p[..|p| - 1] == Parent(p) && Once(h, Box(ROOT), p[..|p| - 1]);
    forall i | 0 <= i < |w|
      ensures Once(h2, Box(ROOT), w[..i])
      ensures forall k :: k in names && k in h.values ==> Apart(h2, Box(ROOT), w[..i], ValueVal(h2, k))
    {
      NotMoved(p, w, i);
      assert Once(h, Box(ROOT), w[..i]);
      RemoveKeepsOnce(h, Box(ROOT), p, w[..i]);
      forall k | k in names && k in h.values
        ensures Apart(h2, Box(ROOT), w[..i], ValueVal(h2, k))
      {
        assert Off(h, Box(ROOT), w, ValueVal(h, k));
        assert Apart(h, Box(ROOT), w[..i], ValueVal(h, k));
        RemoveWalk(h, Box(ROOT), p, w[..i]);
        if Walk(h, Box(ROOT), w[..i]).Some? && Walk(h, Box(ROOT), w[..i]).value.Box? {
          ReachesFrame(h, h2, ValueVal(h, k), Walk(h, Box(ROOT), w[..i]).value.ref);
        }
      }
    }
  }

  lemma RemoveNothing(h: Heap, p: Path)
    requires Walk(h, Box(ROOT), Parent(p)).None?
    ensures RemoveFrom(h, Box(ROOT), p) == Ok(h)
  {
  }

  lemma NotMoved(p: Path, w: seq<Elem>, i: nat)
    requires !(|w| > |p| && Moves(p, w)) && i < |w|
    ensures Before(p, w[..i]) == w[..i]
  {
    MovesIff(p, w[..i]);
    assert Parent(p) < w[..i] ==> Parent(p) < w;
  }

  /** One action on the document in progress does what it does on values, if it stores no container that
      is on the way to its target. */
  lemma StepProgress(h: Heap, d: Item, names: set<string>, a: Action)
    requires InProgress(h, d, names) && Uses(a) <= names && Ready(h, a.path, names) && !StoresInto(a, d, a.path)
    ensures ApplyRef(h, a).Ok? <==> ApplyAction(a, d, h.values).Ok?
    ensures ApplyRef(h, a).Ok? ==>
              InProgress(ApplyRef(h, a).value, ApplyAction(a, d, h.values).value, names) &&
              ApplyRef(h, a).value.values == h.values
  {
    hide Walk, Denotes, Linked, Sane, OperandVal, OperandValue, StoredVal, WrittenValue, ResolvePath, InProgress;
    hide DeletedVal, DeletedValue, PutIn, SetPath, RemoveFrom, RemovePath, Ready, Extends, Holdless;
    match a {
      case Remove(p) => RemoveProgress(h, d, names, p);
      case Delete(p, o) =>
        OperandDenotes(h, d, names, o);
        PathDenotes(h, d, names, p);
        if OperandVal(h, o).Ok? && Walk(h, Box(ROOT), p).Some? {
          var v, c := OperandVal(h, o).value, Walk(h, Box(ROOT), p).value;
          var x, y := OperandValue(o, d, h.values).value, ResolvePath(d, p).value;
          DeletedDenotes(h, v, c, x, y);
          if DeletedVal(v, c).Ok? {
            var z := DeletedValue(x, y).value;
            AtomDenotes(h, z);
            AtomHoldless(h, p, z);
            RemoveProgress(h, d, names, p);
            PutProgress(h, d, names, p, Atom(z), z);
          }
        }
      case _ =>
        StoredDenotes(h, d, names, a);
        if StoredVal(h, a).Ok? {
          var y, h1 := StoredVal(h, a).value.0, StoredVal(h, a).value.1;
          ExtendsProgress(h, h1, d, names);
          ExtendsValues(h, h1);
          ProgressParts(h, d, names);
          ReadyFrame(h, h1, a.path, names);
          StoredHoldless(h, d, names, a, a.path);
          PutProgress(h1, d, names, a.path, y, WrittenValue(a, d, h.values).value);
        }
    }
  }

  lemma ProgressParts(h: Heap, d: Item, names: set<string>)
    requires InProgress(h, d, names)
    ensures Sane(h) && Linked(h, Box(ROOT)) && ValuesIntact(h, names)
  {
  }

  lemma AtomHoldless(h: Heap, w: seq<Elem>, av: Scalar)
    ensures Holdless(h, w, Atom(av))
  {
    hide OnWay, Reaches;
    forall r
      ensures !Reaches(h, Atom(av), r)
    {
      AtomReachesNot(h, Atom(av), r);
    }
  }

  /** The action removes an element and moves one that w goes into. */
  predicate Shifts(a: Action, w: Path) {
    (a.Remove? || a.Delete?) && |w| > |a.path| && Moves(a.path, w)
  }

  /** One action leaves the way to another target as it must be. */
  lemma StepReady(h: Heap, d: Item, names: set<string>, a: Action, w: Path)
    requires InProgress(h, d, names) && Uses(a) <= names && Ready(h, a.path, names) && !StoresInto(a, d, a.path)
    requires Ready(h, w, names) && !Overlap(a.path, w) && !StoresInto(a, d, w) && !Shifts(a, w)
    requires ApplyRef(h, a).Ok?
    ensures Ready(ApplyRef(h, a).value, w, names)
  {
    hide Walk, Denotes, Linked, Sane, OperandVal, StoredVal, InProgress, Moves, Overlap;
    hide DeletedValue, PutIn, RemoveFrom, Ready, Extends, Holdless, Stores;
    match a {
      case Remove(p) => RemoveReady(h, d, names, p, w);
      case Delete(p, o) =>
        if Walk(h, Box(ROOT), p).Some? {
          var z := DeletedVal(OperandVal(h, o).value, Walk(h, Box(ROOT), p).value).value;
          if EmptySet(z.av) {
            RemoveReady(h, d, names, p, w);
          } else {
            AtomDenotes(h, z.av);
            AtomHoldless(h, p, z.av);
            AtomHoldless(h, w, z.av);
            OverlapIff(p, w);
            PutReady(h, d, names, p, z, w);
          }
        }
      case _ =>
        StoredDenotes(h, d, names, a);
        var y, h1 := StoredVal(h, a).value.0, StoredVal(h, a).value.1;
        ExtendsProgress(h, h1, d, names);
        ProgressParts(h, d, names);
        ReadyFrame(h, h1, a.path, names);
        ReadyFrame(h, h1, w, names);
        StoredHoldless(h, d, names, a, a.path);
        StoredHoldless(h, d, names, a, w);
        OverlapIff(a.path, w);
        PutReady(h1, d, names, a.path, y, w);
    }
  }
}
