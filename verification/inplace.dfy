/** What setPath and applyRemove change when they change objects in place (update.go). A container may be
    stored in several places; where a container on the way occurs once, the change shows nowhere else. */
module InPlace {
  import opened Wrappers
  import opened Values
  import opened Paths
  import opened References
  import opened Reading

  // ---- single steps ----

  /** A container that the heap does not have yet. */
  predicate IsNew(h: Heap, r: Ref) {
    r.Made? && r.n >= h.made
  }

  /** Only r, and perhaps new containers, differ. */
  ghost predicate Changed(h: Heap, h2: Heap, r: Ref) {
    (h2.item == h.item && h2.values == h.values && h2.made >= h.made) &&
    forall q :: q != r && !IsNew(h, q) ==> Look(h2, q) == Look(h, q)
  }

  /** The container v has got y at e, and is otherwise as it was. */
  predicate Relinked(h: Heap, h2: Heap, v: Val, e: Elem, y: Val) {
    v.Box? && Look(h, v.ref).Some? && Look(h2, v.ref).Some? &&
    WithPart(Look(h, v.ref).value, e, y) == Ok(Look(h2, v.ref).value)
  }

  lemma RelinkedKids(h: Heap, h2: Heap, v: Val, e: Elem, y: Val)
    requires Relinked(h, h2, v, e, y)
    ensures forall f :: ChildVal(h2, v, f) == if f == e then Some(y) else ChildVal(h, v, f)
  {
  }

  lemma RelinkedSame(h: Heap, v: Val, e: Elem)
    requires ChildVal(h, v, e).Some?
    ensures Relinked(h, h, v, e, ChildVal(h, v, e).value)
  {
    var c := Look(h, v.ref).value;
    match e {
      case Index(i) => assert c.elems[i := c.elems[i]] == c.elems;
      case Name(k) => assert c.attrs[k := c.attrs[k]] == c.attrs;
    }
  }

  lemma SetChildEffect(h: Heap, v: Val, e: Elem, y: Val)
    requires SetChild(h, v, e, y).Ok?
    ensures var h2 := SetChild(h, v, e, y).value;
            && Changed(h, h2, v.ref) && h2.made == h.made && Relinked(h, h2, v, e, y)
            && forall f :: ChildVal(h2, v, f) == if f == e then Some(y) else ChildVal(h, v, f)
  {
    RelinkedKids(h, SetChild(h, v, e, y).value, v, e, y);
  }

  lemma SetChildSane(h: Heap, v: Val, e: Elem, y: Val)
    requires Sane(h) && Linked(h, y) && SetChild(h, v, e, y).Ok?
    ensures Sane(SetChild(h, v, e, y).value)
    ensures forall w :: Linked(h, w) ==> Linked(SetChild(h, v, e, y).value, w)
  {
    var h2 := SetChild(h, v, e, y).value;
    SetChildEffect(h, v, e, y);
    forall r, f | ChildVal(h2, Box(r), f).Some?
      ensures Linked(h2, ChildVal(h2, Box(r), f).value)
    {
      if Box(r) != v || f != e {
        assert ChildVal(h2, Box(r), f) == ChildVal(h, Box(r), f);
      }
    }
    assert Look(h, v.ref).Some?;
  }

  lemma NewIsUnlinked(h: Heap, v: Val)
    requires Sane(h) && Linked(h, v)
    ensures v != Box(Made(h.made)) && Look(h, Made(h.made)).None?
  {
  }

  lemma MakeEffect(h: Heap, c: Cell)
    requires Sane(h)
    ensures var made := Make(h, c);
            && made.made == h.made + 1 && made.item == h.item && made.values == h.values
            && (forall r :: r != Made(h.made) ==> Look(made, r) == Look(h, r)) && Look(h, Made(h.made)).None?
            && forall f :: ChildVal(made, Box(Made(h.made)), f) == Part(c, f)
  {
    NewIsUnlinked(h, Atom(NULL(true)));
  }

  /** A new container of parts that are there. */
  lemma MakeSane(h: Heap, c: Cell)
    requires Sane(h) && forall f :: Part(c, f).Some? ==> Linked(h, Part(c, f).value)
    ensures Sane(Make(h, c)) && Linked(Make(h, c), Box(Made(h.made)))
  {
    hide Part;
    var made := Make(h, c);
    MakeEffect(h, c);
    forall r, f | ChildVal(made, Box(r), f).Some?
      ensures Linked(made, ChildVal(made, Box(r), f).value)
    {
      if r != Made(h.made) {
        assert ChildVal(made, Box(r), f) == ChildVal(h, Box(r), f);
      }
    }
  }

  lemma LinkedFrame(h: Heap, h2: Heap)
    requires forall r :: Look(h, r).Some? ==> Look(h2, r).Some?
    ensures forall w :: Linked(h, w) ==> Linked(h2, w)
  {
  }

  /** Entering an absent attribute links in a new, empty map. */
  lemma EnterNew(h: Heap, v: Val, e: Elem)
    requires Sane(h) && Linked(h, v) && ChildVal(h, v, e).None? && Enter(h, v, e).Ok?
    ensures var c, h1 := Enter(h, v, e).value.0, Enter(h, v, e).value.1;
            && c == Box(Made(h.made)) && h1.made == h.made + 1 && Relinked(h, h1, v, e, c) && Changed(h, h1, v.ref)
            && (forall f :: ChildVal(h1, v, f) == if f == e then Some(c) else ChildVal(h, v, f))
            && (forall f :: ChildVal(h1, c, f) == None)
            && Denotes(h1, c, M(map[])) && Sane(h1) && Linked(h1, c) && forall w :: Linked(h, w) ==> Linked(h1, w)
  {
    var made, c := Make(h, MapCell(map[])), Box(Made(h.made));
    NewIsUnlinked(h, v);
    MakeSane(h, MapCell(map[]));
    MakeEffect(h, MapCell(map[]));
    SetChildEffect(made, v, e, c);
    SetChildSane(made, v, e, c);
    hide Sane;
    LinkedFrame(h, made);
  }

  // ---- the containers that a write walks over ----

  /** The container r is one of those on the way to p. */
  ghost predicate OnWay(h: Heap, v: Val, p: seq<Elem>, r: Ref) {
    exists i :: 0 <= i < |p| && Walk(h, v, p[..i]) == Some(Box(r))
  }

  lemma OnWayHere(h: Heap, v: Val, p: seq<Elem>)
    requires p != [] && v.Box?
    ensures OnWay(h, v, p, v.ref)
  {
    assert Walk(h, v, p[..0]) == Some(Box(v.ref));
  }

  lemma OnWayBelow(h: Heap, v: Val, p: seq<Elem>, r: Ref)
    requires p != [] && ChildVal(h, v, p[0]).Some? && OnWay(h, ChildVal(h, v, p[0]).value, p[1..], r)
    ensures OnWay(h, v, p, r)
  {
    hide ChildVal;
    var i :| 0 <= i < |p| - 1 && Walk(h, ChildVal(h, v, p[0]).value, p[1..][..i]) == Some(Box(r));
    assert p[..i + 1][0] == p[0] && p[..i + 1][1..] == p[1..][..i];
    assert Walk(h, v, p[..i + 1]) == Some(Box(r));
  }

  /** All that a write changes. */
  ghost predicate Touched(h: Heap, h2: Heap, v: Val, p: seq<Elem>) {
    (h2.item == h.item && h2.values == h.values && h2.made >= h.made) &&
    forall r :: Look(h2, r) == Look(h, r) || OnWay(h, v, p, r) || IsNew(h, r)
  }

  lemma {:induction false} PutTouches(h: Heap, v: Val, p: seq<Elem>, y: Val)
    requires p != [] && Sane(h) && Linked(h, v) && Linked(h, y) && PutIn(h, v, p, y).Ok?
    ensures Touched(h, PutIn(h, v, p, y).value, v, p)
    ensures Sane(PutIn(h, v, p, y).value)
    ensures forall w :: Linked(h, w) ==> Linked(PutIn(h, v, p, y).value, w)
    decreases |p|
  {
    hide ChildVal, SetChild, Enter, Walk, OnWay, Sane, Linked;
    if v.Box? {
      OnWayHere(h, v, p);
    }
    if |p| == 1 {
      SetChildEffect(h, v, p[0], y);
      SetChildSane(h, v, p[0], y);
    } else {
      var c, h1 := Enter(h, v, p[0]).value.0, Enter(h, v, p[0]).value.1;
      if ChildVal(h, v, p[0]).Some? {
        EnterOld(h, v, p[0]);
        SaneKid(h, v, p[0]);
        PutTouches(h, c, p[1..], y);
        forall r | OnWay(h, c, p[1..], r)
          ensures OnWay(h, v, p, r)
        {
          OnWayBelow(h, v, p, r);
        }
      } else {
        EnterNew(h, v, p[0]);
        PutTouches(h1, c, p[1..], y);
        forall r | OnWay(h1, c, p[1..], r)
          ensures r == Made(h.made)
        {
          OnlyHere(h1, c, p[1..], r);
        }
      }
    }
  }

  lemma EnterOld(h: Heap, v: Val, e: Elem)
    requires ChildVal(h, v, e).Some?
    ensures Enter(h, v, e) == Ok((ChildVal(h, v, e).value, h))
  {
  }

  /** Nothing is below an empty container. */
  lemma EmptyWalk(h: Heap, v: Val, p: seq<Elem>)
    requires forall f :: ChildVal(h, v, f) == None
    ensures Walk(h, v, p) == if p == [] then Some(v) else None
  {
    hide ChildVal;
  }

  lemma OnlyHere(h: Heap, v: Val, p: seq<Elem>, r: Ref)
    requires v.Box? && (forall f :: ChildVal(h, v, f) == None) && OnWay(h, v, p, r)
    ensures r == v.ref
  {
    hide ChildVal, Walk;
    var i :| 0 <= i < |p| && Walk(h, v, p[..i]) == Some(Box(r));
    EmptyWalk(h, v, p[..i]);
  }

  // ---- places ----

  /** The container at u, if there is one, occurs nowhere else below v. */
  ghost predicate Once(h: Heap, v: Val, u: seq<Elem>) {
    forall q :: Walk(h, v, u).Some? && Walk(h, v, u).value.Box? && Walk(h, v, q) == Walk(h, v, u) ==> q == u
  }

  /** The container at u does not occur in y. */
  ghost predicate Apart(h: Heap, v: Val, u: seq<Elem>, y: Val) {
    Walk(h, v, u).Some? && Walk(h, v, u).value.Box? ==> !Reaches(h, y, Walk(h, v, u).value.ref)
  }

  /** The containers on the way to w occur nowhere else. */
  ghost predicate Alone(h: Heap, v: Val, w: seq<Elem>) {
    forall i :: 0 <= i < |w| ==> Once(h, v, w[..i])
  }

  /** The containers on the way to w do not occur in y. */
  ghost predicate Off(h: Heap, v: Val, w: seq<Elem>, y: Val) {
    forall i :: 0 <= i < |w| ==> Apart(h, v, w[..i], y)
  }

  lemma OnceBelow(h: Heap, v: Val, e: Elem, u: seq<Elem>)
    requires ChildVal(h, v, e).Some? && Once(h, v, [e] + u)
    ensures Once(h, ChildVal(h, v, e).value, u)
  {
    hide ChildVal;
    var c := ChildVal(h, v, e).value;
    forall q | Walk(h, c, u).Some? && Walk(h, c, u).value.Box? && Walk(h, c, q) == Walk(h, c, u)
      ensures q == u
    {
      assert ([e] + q)[1..] == q && ([e] + u)[1..] == u;
      assert Walk(h, v, [e] + q) == Walk(h, v, [e] + u);
    }
  }

  lemma AloneBelow(h: Heap, v: Val, w: seq<Elem>)
    requires w != [] && ChildVal(h, v, w[0]).Some? && Alone(h, v, w)
    ensures Alone(h, ChildVal(h, v, w[0]).value, w[1..])
  {
    hide ChildVal, Once;
    forall i | 0 <= i < |w| - 1
      ensures Once(h, ChildVal(h, v, w[0]).value, w[1..][..i])
    {
      assert w[..i + 1] == [w[0]] + w[1..][..i];
      OnceBelow(h, v, w[0], w[1..][..i]);
    }
  }

  lemma NotOnce(h: Heap, v: Val, u: seq<Elem>, q: seq<Elem>, r: Ref)
    requires Walk(h, v, u) == Walk(h, v, q) == Some(Box(r)) && u != q
    ensures !Once(h, v, u)
  {
  }

  /** From another child no container on the way is reached. */
  lemma OtherBranch(h: Heap, v: Val, p: seq<Elem>, f: Elem, r: Ref)
    requires p != [] && Alone(h, v, p) && OnWay(h, v, p, r)
    requires ChildVal(h, v, f).Some? && (f != p[0] || (v.Box? && r == v.ref))
    ensures !Reaches(h, ChildVal(h, v, f).value, r)
  {
    hide ChildVal;
    if Reaches(h, ChildVal(h, v, f).value, r) {
      var q :| Walk(h, ChildVal(h, v, f).value, q) == Some(Box(r));
      var i := if f != p[0] then WayIndex(h, v, p, r) else 0;
      assert ([f] + q)[0] == f && ([f] + q)[1..] == q;
      assert i == 0 ==> Walk(h, v, p[..i]) == Some(v);
      assert i > 0 ==> p[..i][0] == p[0];
      NotOnce(h, v, p[..i], [f] + q, r);
    }
  }

  ghost function WayIndex(h: Heap, v: Val, p: seq<Elem>, r: Ref): (i: nat)
    requires OnWay(h, v, p, r)
    ensures i < |p| && Walk(h, v, p[..i]) == Some(Box(r))
  {
    var i :| 0 <= i < |p| && Walk(h, v, p[..i]) == Some(Box(r));
    i
  }

  /** What a write touches is not below the other children. */
  lemma BranchKept(h: Heap, h2: Heap, v: Val, p: seq<Elem>, f: Elem)
    requires p != [] && Sane(h) && Linked(h, v) && Alone(h, v, p) && Touched(h, h2, v, p)
    requires f != p[0] && ChildVal(h, v, f).Some?
    ensures SameBelow(h, h2, ChildVal(h, v, f).value)
  {
    hide ChildVal, Walk, OnWay, Reaches, Alone, Sane, Linked;
    var d := ChildVal(h, v, f).value;
    SaneKid(h, v, f);
    forall r | Reaches(h, d, r)
      ensures Look(h2, r) == Look(h, r)
    {
      ReachedIsLinked(h, d, r);
      if OnWay(h, v, p, r) {
        OtherBranch(h, v, p, f, r);
        assert false;
      }
    }
  }

  // ---- writing ----

  lemma WayReached(h: Heap, v: Val, p: seq<Elem>, r: Ref)
    requires OnWay(h, v, p, r)
    ensures Reaches(h, v, r)
  {
  }

  /** What the other children hold is as it was. */
  ghost predicate OthersSame(h: Heap, h2: Heap, v: Val, e: Elem) {
    forall f :: f != e && ChildVal(h, v, f).Some? ==> SameBelow(h, h2, ChildVal(h, v, f).value)
  }

  /** One step of setPath: the write goes on below one child and leaves the container and its other
      children alone. */
  lemma PutStep(h: Heap, v: Val, p: seq<Elem>, y: Val)
    requires |p| > 1 && Sane(h) && Linked(h, v) && Linked(h, y) && Alone(h, v, p) && PutIn(h, v, p, y).Ok?
    ensures Enter(h, v, p[0]).Ok?
    ensures var c, h1, h2 := Enter(h, v, p[0]).value.0, Enter(h, v, p[0]).value.1, PutIn(h, v, p, y).value;
            && Sane(h1) && Linked(h1, c) && Linked(h1, y) && Alone(h1, c, p[1..]) && PutIn(h1, c, p[1..], y) == Ok(h2)
            && Relinked(h, h2, v, p[0], c) && OthersSame(h, h2, v, p[0])
  {
    hide Walk, OnWay, Sane, Linked, Alone, SetChild, Enter, ChildVal, Touched;
    var c, h1, h2 := Enter(h, v, p[0]).value.0, Enter(h, v, p[0]).value.1, PutIn(h, v, p, y).value;
    StepChildren(h, v, p, y);
    PutTouches(h, v, p, y);
    OthersKept(h, h2, v, p);
  }

  lemma OthersKept(h: Heap, h2: Heap, v: Val, p: seq<Elem>)
    requires p != [] && Sane(h) && Linked(h, v) && Alone(h, v, p) && Touched(h, h2, v, p)
    ensures OthersSame(h, h2, v, p[0])
  {
    hide ChildVal, Alone, Touched, SameBelow, Linked, Sane;
    forall f | f != p[0] && ChildVal(h, v, f).Some?
      ensures SameBelow(h, h2, ChildVal(h, v, f).value)
    {
      BranchKept(h, h2, v, p, f);
    }
  }

  lemma StepChildren(h: Heap, v: Val, p: seq<Elem>, y: Val)
    requires |p| > 1 && Sane(h) && Linked(h, v) && Linked(h, y) && Alone(h, v, p) && PutIn(h, v, p, y).Ok?
    ensures Enter(h, v, p[0]).Ok?
    ensures var c, h1, h2 := Enter(h, v, p[0]).value.0, Enter(h, v, p[0]).value.1, PutIn(h, v, p, y).value;
            && Sane(h1) && Linked(h1, c) && Linked(h1, y) && Alone(h1, c, p[1..]) && PutIn(h1, c, p[1..], y) == Ok(h2)
            && Relinked(h, h2, v, p[0], c)
  {
    hide Walk, OnWay, Sane, SetChild, Enter, ChildVal, Alone;
    var c, h1, h2 := Enter(h, v, p[0]).value.0, Enter(h, v, p[0]).value.1, PutIn(h, v, p, y).value;
    if ChildVal(h, v, p[0]).Some? {
      EnterOld(h, v, p[0]);
      SaneKid(h, v, p[0]);
      RelinkedSame(h, v, p[0]);
      OnWayHere(h, v, p);
      OtherBranch(h, v, p, p[0], v.ref);
      AloneBelow(h, v, p);
      if OnWay(h1, c, p[1..], v.ref) {
        WayReached(h1, c, p[1..], v.ref);
        assert false;
      }
    } else {
      EnterNew(h, v, p[0]);
      AloneInEmpty(h1, c, p[1..]);
      if OnWay(h1, c, p[1..], v.ref) {
        OnlyHere(h1, c, p[1..], v.ref);
        NewIsUnlinked(h, v);
        assert false;
      }
    }
    PutTouches(h1, c, p[1..], y);
    LinkedIsOld(h1, v);
  }

  lemma LinkedIsOld(h: Heap, v: Val)
    requires Sane(h) && Linked(h, v) && v.Box?
    ensures !IsNew(h, v.ref)
  {
    MadeIsOld(h, v.ref);
  }

  lemma AloneInEmpty(h: Heap, v: Val, p: seq<Elem>)
    requires forall f :: ChildVal(h, v, f) == None
    ensures Alone(h, v, p)
  {
    hide ChildVal, Walk;
    forall i | 0 <= i < |p|
      ensures Once(h, v, p[..i])
    {
      EmptyWalk(h, v, p[..i]);
      forall q
        ensures Walk(h, v, q) == if q == [] then Some(v) else None
      {
        EmptyWalk(h, v, q);
      }
    }
  }

  /** Whether setPath succeeds is decided by the document. */
  lemma {:induction false} PutSucceeds(h: Heap, v: Val, p: seq<Elem>, y: Val, x: AV, z: AV)
    requires p != [] && Sane(h) && Linked(h, v) && Denotes(h, v, x)
    ensures PutIn(h, v, p, y).Ok? <==> Put(x, p, z).Ok?
    decreases |p|
  {
    hide ChildVal, Enter, Sane, Denotes, Child, SetChild, Put, WithChild;
    PutUnfold(x, p, z);
    Kids(h, v, x, p[0]);
    if |p| == 1 {
      assert p[1..] == [];
      PutHere(ChildOrNew(x, p[0]), z);
      SetChildSucceeds(h, v, p[0], y, x, z);
    } else if ChildVal(h, v, p[0]).Some? {
      EnterOld(h, v, p[0]);
      SaneKid(h, v, p[0]);
      PutSucceeds(h, ChildVal(h, v, p[0]).value, p[1..], y, Child(x, p[0]).value, z);
      WithChildExists(x, p[0]);
    } else {
      EnterSucceeds(h, v, p[0], x);
      WithChildExists(x, p[0]);
      if Enter(h, v, p[0]).Ok? {
        EnterNew(h, v, p[0]);
        PutSucceeds(Enter(h, v, p[0]).value.1, Enter(h, v, p[0]).value.0, p[1..], y, M(map[]), z);
      }
    }
  }

  lemma SetChildSucceeds(h: Heap, v: Val, e: Elem, y: Val, x: AV, z: AV)
    requires Denotes(h, v, x)
    ensures SetChild(h, v, e, y).Ok? <==> WithChild(x, e, z).Ok?
  {
  }

  lemma EnterSucceeds(h: Heap, v: Val, e: Elem, x: AV)
    requires Denotes(h, v, x) && ChildVal(h, v, e).None? && Sane(h) && Linked(h, v)
    ensures Enter(h, v, e).Ok? <==> e.Name? && x.M?
  {
    hide Denotes;
    MakeEffect(h, MapCell(map[]));
    NewIsUnlinked(h, v);
    assert Alike(h, v, x) by {
      AlikeDenoted(h, v, x);
    }
    if v.Box? {
      assert Look(Make(h, MapCell(map[])), v.ref) == Look(h, v.ref);
    }
  }

  lemma AlikeDenoted(h: Heap, v: Val, x: AV)
    requires Denotes(h, v, x)
    ensures Alike(h, v, x)
  {
  }

  /** When a container takes a child at e. */
  lemma WithChildExists(x: AV, e: Elem)
    ensures forall d :: WithChild(x, e, d).Ok? <==> Child(x, e).Some? || (e.Name? && x.M?)
  {
  }

  /** In place, setPath yields the document that it yields on values: if the containers on the way occur
      once and not in what is stored. */
  lemma {:induction false} PutDenotes(h: Heap, v: Val, p: seq<Elem>, y: Val, x: AV, z: AV)
    requires p != [] && Sane(h) && Linked(h, v) && Linked(h, y) && Denotes(h, v, x) && Denotes(h, y, z)
    requires Alone(h, v, p) && (forall r :: OnWay(h, v, p, r) ==> !Reaches(h, y, r)) && PutIn(h, v, p, y).Ok?
    ensures Put(x, p, z).Ok? && Denotes(PutIn(h, v, p, y).value, v, Put(x, p, z).value)
    decreases |p|
  {
    hide ChildVal, Enter, Sane, Linked, Denotes, Child, SetChild, Walk, OnWay, Alone, Put, Reaches;
    PutSucceeds(h, v, p, y, x, z);
    var h2 := PutIn(h, v, p, y).value;
    PutTouches(h, v, p, y);
    PutUnfold(x, p, z);
    if |p| == 1 {
      assert p[1..] == [] && Put(ChildOrNew(x, p[0]), [], z) == Ok(z) by {
        PutHere(ChildOrNew(x, p[0]), z);
      }
      SetChildEffect(h, v, p[0], y);
      StoredIsSame(h, h2, v, p, y);
      DenotesFrame(h, h2, y, z);
      OthersKept(h, h2, v, p);
      ReplacedDenotes(h, h2, v, p[0], y, x, z);
    } else {
      PutStep(h, v, p, y);
      var c, h1 := Enter(h, v, p[0]).value.0, Enter(h, v, p[0]).value.1;
      EnterDenotes(h, v, p, y, x, z);
      PutDenotes(h1, c, p[1..], y, ChildOrNew(x, p[0]), z);
      ReplacedDenotes(h, h2, v, p[0], c, x, Put(ChildOrNew(x, p[0]), p[1..], z).value);
    }
  }

  lemma PutHere(c: AV, z: AV)
    ensures Put(c, [], z) == Ok(z)
  {
  }

  /** What is stored is not touched by the write that stores it. */
  lemma StoredIsSame(h: Heap, h2: Heap, v: Val, p: seq<Elem>, y: Val)
    requires Sane(h) && Linked(h, y) && Touched(h, h2, v, p)
    requires forall r :: OnWay(h, v, p, r) ==> !Reaches(h, y, r)
    ensures SameBelow(h, h2, y)
  {
    hide Sane, Linked, OnWay, Reaches;
    forall r | Reaches(h, y, r)
      ensures Look(h2, r) == Look(h, r)
    {
      ReachedIsLinked(h, y, r);
    }
  }

  /** What setPath steps into denotes what it steps into on values. */
  lemma EnterDenotes(h: Heap, v: Val, p: seq<Elem>, y: Val, x: AV, z: AV)
    requires |p| > 1 && Sane(h) && Linked(h, v) && Linked(h, y) && Denotes(h, v, x) && Denotes(h, y, z)
    requires (forall r :: OnWay(h, v, p, r) ==> !Reaches(h, y, r)) && Enter(h, v, p[0]).Ok?
    ensures var c, h1 := Enter(h, v, p[0]).value.0, Enter(h, v, p[0]).value.1;
            && Denotes(h1, c, ChildOrNew(x, p[0])) && Denotes(h1, y, z)
            && forall r :: OnWay(h1, c, p[1..], r) ==> !Reaches(h1, y, r)
  {
    hide ChildVal, Enter, Sane, Denotes, Child, Walk, OnWay, Reaches, Linked;
    Kids(h, v, x, p[0]);
    var c, h1 := Enter(h, v, p[0]).value.0, Enter(h, v, p[0]).value.1;
    if ChildVal(h, v, p[0]).Some? {
      EnterOld(h, v, p[0]);
      forall r | OnWay(h1, c, p[1..], r)
        ensures !Reaches(h1, y, r)
      {
        OnWayBelow(h, v, p, r);
      }
    } else {
      EnterNew(h, v, p[0]);
      OnWayHere(h, v, p);
      forall r | Reaches(h, y, r)
        ensures Look(h1, r) == Look(h, r)
      {
        ReachedIsLinked(h, y, r);
      }
      assert SameBelow(h, h1, y);
      DenotesFrame(h, h1, y, z);
      forall r | OnWay(h1, c, p[1..], r)
        ensures !Reaches(h1, y, r)
      {
        OnlyHere(h1, c, p[1..], r);
        NeverReached(h, h1, y);
      }
    }
  }

  lemma NeverReached(h: Heap, h1: Heap, y: Val)
    requires Sane(h) && Linked(h, y) && SameBelow(h, h1, y)
    ensures !Reaches(h1, y, Made(h.made))
  {
    hide Sane, Linked, SameBelow, Walk;
    if Reaches(h1, y, Made(h.made)) {
      var q :| Walk(h1, y, q) == Some(Box(Made(h.made)));
      WalkFrame(h, h1, y, q);
      LinkedWalk(h, y, q);
      NewIsUnlinked(h, Box(Made(h.made)));
      assert false;
    }
  }

  /** The same container with another child and all else as before. */
  lemma ReplacedDenotes(h: Heap, h2: Heap, v: Val, e: Elem, y: Val, x: AV, z: AV)
    requires Denotes(h, v, x) && Denotes(h2, y, z) && WithChild(x, e, z).Ok?
    requires Relinked(h, h2, v, e, y) && OthersSame(h, h2, v, e)
    ensures Denotes(h2, v, WithChild(x, e, z).value)
  {
    hide Denotes, SameBelow, ChildVal, Child, WithChild, Relinked;
    var w := WithChild(x, e, z).value;
    RelinkedKids(h, h2, v, e, y);
    forall f | ChildVal(h2, v, f).Some? && Child(w, f).Some?
      ensures Denotes(h2, ChildVal(h2, v, f).value, Child(w, f).value)
    {
      ChildOfWithChild(x, e, f, z);
      if f != e {
        Kids(h, v, x, f);
        DenotesFrame(h, h2, ChildVal(h, v, f).value, Child(x, f).value);
      }
    }
    AlikeDenoted(h, v, x);
    ReplacedAlike(h, h2, v, e, y, x, z);
    ByKids(h2, v, w);
  }

  lemma ReplacedAlike(h: Heap, h2: Heap, v: Val, e: Elem, y: Val, x: AV, z: AV)
    requires Alike(h, v, x) && Relinked(h, h2, v, e, y) && WithChild(x, e, z).Ok?
    ensures Alike(h2, v, WithChild(x, e, z).value)
  {
  }

  /** setPath goes on from wherever the first steps lead. */
  lemma {:induction false} PutAlong(h: Heap, v: Val, r: seq<Elem>, s: seq<Elem>, y: Val)
    requires Walk(h, v, r).Some? && s != []
    ensures PutIn(h, v, r + s, y) == PutIn(h, Walk(h, v, r).value, s, y)
    decreases |r|
  {
    hide ChildVal, Enter, SetChild;
    if r == [] {
      assert r + s == s;
    } else {
      assert (r + s)[0] == r[0] && (r + s)[1..] == r[1..] + s;
      EnterOld(h, v, r[0]);
      PutAlong(h, ChildVal(h, v, r[0]).value, r[1..], s, y);
    }
  }

  // ---- where everything is after a write ----

  /** How many steps of p lead to something, and the one that does not. */
  function Missing(h: Heap, v: Val, p: seq<Elem>): nat
    decreases |p|
  {
    if p == [] || ChildVal(h, v, p[0]).None? then 1
    else 1 + Missing(h, ChildVal(h, v, p[0]).value, p[1..])
  }

  /** What is at q after y was put at p: what y holds; what was there; or one of the new maps. */
  ghost predicate FoundAfterPut(h: Heap, h2: Heap, v: Val, p: seq<Elem>, y: Val, q: seq<Elem>) {
    && (p <= q ==> Walk(h2, v, q) == Walk(h2, y, q[|p|..]))
    && (!Overlap(p, q) ==> Walk(h2, v, q) == Walk(h, v, q))
    && (q < p && Walk(h, v, q).Some? ==> Walk(h2, v, q) == Walk(h, v, q))
    && (q < p && Walk(h, v, q).None? ==>
          |q| >= Missing(h, v, p) && Walk(h2, v, q) == Some(Box(Made(h.made + |q| - Missing(h, v, p)))))
  }

  lemma {:induction false} PutWalk(h: Heap, v: Val, p: seq<Elem>, y: Val, q: seq<Elem>)
    requires p != [] && Sane(h) && Linked(h, v) && Linked(h, y) && Alone(h, v, p) && PutIn(h, v, p, y).Ok?
    ensures FoundAfterPut(h, PutIn(h, v, p, y).value, v, p, y, q)
    decreases |p|
  {
    hide ChildVal, Sane, Linked, Alone, Enter, SetChild, PutIn, SameBelow, Relinked;
    var h2 := PutIn(h, v, p, y).value;
    if q == [] {
      assert p <= q ==> p == [];
    } else if q[0] != p[0] {
      PutFirst(h, v, p, y);
      OtherFirst(h, h2, v, p, q);
      assert !(p <= q) && !(q < p);
    } else if |p| == 1 {
      PutFirst(h, v, p, y);
      var c :| Relinked(h, h2, v, p[0], c) && (|p| == 1 ==> c == y);
      RelinkedKids(h, h2, v, p[0], c);
      assert q[1..] == q[|p|..] && p[1..] == [] && Overlap(p[1..], q[1..]);
      assert !(q < p) && Walk(h2, v, q) == Walk(h2, c, q[1..]);
    } else {
      PutStep(h, v, p, y);
      var c, h1 := Enter(h, v, p[0]).value.0, Enter(h, v, p[0]).value.1;
      RelinkedKids(h, h2, v, p[0], c);
      PutWalk(h1, c, p[1..], y, q[1..]);
      SameTail(p, q);
      assert Walk(h2, v, q) == Walk(h2, c, q[1..]);
      FoundAbove(h, h1, h2, v, c, p, y, q);
    }
  }

  /** The first step of a write, whether it is the last one or not. */
  lemma PutFirst(h: Heap, v: Val, p: seq<Elem>, y: Val)
    requires p != [] && Sane(h) && Linked(h, v) && Linked(h, y) && Alone(h, v, p) && PutIn(h, v, p, y).Ok?
    ensures OthersSame(h, PutIn(h, v, p, y).value, v, p[0])
    ensures exists c :: Relinked(h, PutIn(h, v, p, y).value, v, p[0], c) && (|p| == 1 ==> c == y)
  {
    hide ChildVal, Sane, Linked, Alone, Enter, SetChild, SameBelow, Touched;
    if |p| == 1 {
      SetChildEffect(h, v, p[0], y);
      PutTouches(h, v, p, y);
      OthersKept(h, PutIn(h, v, p, y).value, v, p);
    } else {
      PutStep(h, v, p, y);
    }
  }

  lemma OtherFirst(h: Heap, h2: Heap, v: Val, p: seq<Elem>, q: seq<Elem>)
    requires p != [] && q != [] && p[0] != q[0] && OthersSame(h, h2, v, p[0])
    requires exists c :: Relinked(h, h2, v, p[0], c)
    ensures Walk(h2, v, q) == Walk(h, v, q)
  {
    hide ChildVal, SameBelow, Relinked;
    var c :| Relinked(h, h2, v, p[0], c);
    RelinkedKids(h, h2, v, p[0], c);
    if ChildVal(h, v, q[0]).Some? {
      WalkFrame(h, h2, ChildVal(h, v, q[0]).value, q[1..]);
    }
  }

  lemma SameTail(p: seq<Elem>, q: seq<Elem>)
    requires p != [] && q != [] && p[0] == q[0]
    ensures (p <= q <==> p[1..] <= q[1..]) && (q < p <==> q[1..] < p[1..])
    ensures p <= q ==> q[|p|..] == q[1..][|p| - 1..]
  {
    assert p == [p[0]] + p[1..] && q == [q[0]] + q[1..];
    if p[1..] <= q[1..] {
      assert q[1..][..|p| - 1] == p[1..];
      assert q[..|p|] == [q[0]] + q[1..][..|p| - 1];
    }
    if q[1..] < p[1..] {
      assert p[1..][..|q| - 1] == q[1..];
      assert p[..|q|] == [p[0]] + p[1..][..|q| - 1];
    }
    if p <= q {
      assert q[..|p|][1..] == q[1..][..|p| - 1];
    }
    if q < p {
      assert p[..|q|][1..] == p[1..][..|q| - 1];
    }
  }

  lemma FoundAbove(h: Heap, h1: Heap, h2: Heap, v: Val, c: Val, p: seq<Elem>, y: Val, q: seq<Elem>)
    requires |p| > 1 && q != [] && q[0] == p[0] && Sane(h) && Linked(h, v) && Enter(h, v, p[0]) == Ok((c, h1))
    requires FoundAfterPut(h1, h2, c, p[1..], y, q[1..])
    requires (p <= q <==> p[1..] <= q[1..]) && (q < p <==> q[1..] < p[1..])
    requires p <= q ==> q[|p|..] == q[1..][|p| - 1..]
    requires Walk(h2, v, q) == Walk(h2, c, q[1..])
    ensures FoundAfterPut(h, h2, v, p, y, q)
  {
    hide ChildVal, Sane, Enter;
    if ChildVal(h, v, p[0]).Some? {
      EnterOld(h, v, p[0]);
    } else {
      EnterNew(h, v, p[0]);
      EmptyWalk(h1, c, q[1..]);
      assert Missing(h, v, p) == 1 == Missing(h1, c, p[1..]) && Walk(h, v, q) == None;
      assert q[1..] == [] ==> Overlap(p[1..], q[1..]);
      assert Overlap(p, q) == Overlap(p[1..], q[1..]);
    }
  }

  /** A place that is not below the written one keeps its container to itself. */
  lemma PutKeepsOnce(h: Heap, v: Val, p: seq<Elem>, y: Val, u: seq<Elem>)
    requires p != [] && Sane(h) && Linked(h, v) && Linked(h, y) && Alone(h, v, p) && PutIn(h, v, p, y).Ok?
    requires (forall r :: OnWay(h, v, p, r) ==> !Reaches(h, y, r)) && !(p <= u)
    requires Once(h, v, u) && Apart(h, v, u, y)
    ensures Once(PutIn(h, v, p, y).value, v, u)
  {
    hide PutIn, Sane, Linked, Alone, Overlap, Walk, Missing, OnWay, Reaches, Apart;
    var h2 := PutIn(h, v, p, y).value;
    forall q | Walk(h2, v, u).Some? && Walk(h2, v, u).value.Box? && Walk(h2, v, q) == Walk(h2, v, u)
      ensures q == u
    {
      PutKeepsPlace(h, v, p, y, u, q, Walk(h2, v, u).value.ref);
    }
  }

  lemma PutKeepsPlace(h: Heap, v: Val, p: seq<Elem>, y: Val, u: seq<Elem>, q: seq<Elem>, r: Ref)
    requires p != [] && Sane(h) && Linked(h, v) && Linked(h, y) && Alone(h, v, p) && PutIn(h, v, p, y).Ok?
    requires (forall s :: OnWay(h, v, p, s) ==> !Reaches(h, y, s)) && !(p <= u)
    requires Once(h, v, u) && Apart(h, v, u, y)
    requires var h2 := PutIn(h, v, p, y).value; Walk(h2, v, u) == Walk(h2, v, q) == Some(Box(r))
    ensures q == u
  {
    hide PutIn, Sane, Linked, Alone, Walk, Missing, OnWay, Reaches, Overlap;
    var h2 := PutIn(h, v, p, y).value;
    PutTouches(h, v, p, y);
    PutWalk(h, v, p, y, u);
    PutWalk(h, v, p, y, q);
    OverlapIff(p, u);
    OverlapIff(p, q);
    if p <= q {
      StoredIsSame(h, h2, v, p, y);
      WalkFrame(h, h2, y, q[|p|..]);
      ReachedBy(h, y, q[|p|..], r);
      ReachedIsLinked(h, y, r);
    }
    WalkedIsOld(h, v, u);
    WalkedIsOld(h, v, q);
    assert u < p && q < p && |u| == |q| ==> u == q;
  }

  lemma ReachedBy(h: Heap, v: Val, q: seq<Elem>, r: Ref)
    requires Walk(h, v, q) == Some(Box(r))
    ensures Reaches(h, v, r)
  {
  }

  lemma WalkedIsOld(h: Heap, v: Val, u: seq<Elem>)
    requires Sane(h) && Linked(h, v)
    ensures Walk(h, v, u).Some? && Walk(h, v, u).value.Box? ==> !IsNew(h, Walk(h, v, u).value.ref)
  {
    hide Sane, Linked, Walk;
    if Walk(h, v, u).Some? {
      LinkedWalk(h, v, u);
      if Walk(h, v, u).value.Box? {
        LinkedIsOld(h, Walk(h, v, u).value);
      }
    }
  }

  // ---- single steps, however objects are shared ----

  /** e is a step of the write at q that replaces a child or adds one. */
  ghost predicate Rewrites(h: Heap, v: Val, q: seq<Elem>, c: Ref, e: Elem) {
    exists i :: 0 <= i < |q| && Walk(h, v, q[..i]) == Some(Box(c)) && q[i] == e &&
                (i == |q| - 1 || ChildVal(h, Box(c), e).None?)
  }

  lemma RewritesHere(h: Heap, v: Val, q: seq<Elem>)
    requires q != [] && v.Box? && (|q| == 1 || ChildVal(h, v, q[0]).None?)
    ensures Rewrites(h, v, q, v.ref, q[0])
  {
    hide ChildVal;
    assert Walk(h, v, q[..0]) == Some(Box(v.ref));
  }

  lemma RewritesBelow(h: Heap, v: Val, q: seq<Elem>, c: Ref, e: Elem)
    requires q != [] && ChildVal(h, v, q[0]).Some? && Rewrites(h, ChildVal(h, v, q[0]).value, q[1..], c, e)
    ensures Rewrites(h, v, q, c, e)
  {
    hide ChildVal;
    var w := ChildVal(h, v, q[0]).value;
    var i :| 0 <= i < |q| - 1 && Walk(h, w, q[1..][..i]) == Some(Box(c)) && q[1..][i] == e &&
             (i == |q| - 2 || ChildVal(h, Box(c), e).None?);
    assert q[..i + 1][0] == q[0] && q[..i + 1][1..] == q[1..][..i] && q[i + 1] == e;
    assert Walk(h, v, q[..i + 1]) == Some(Box(c));
  }

  /** However objects are shared, a write changes no other step. */
  lemma {:induction false} PutKeepsSteps(h: Heap, v: Val, q: seq<Elem>, y: Val, c: Ref, e: Elem)
    requires q != [] && Sane(h) && Linked(h, v) && Linked(h, y) && PutIn(h, v, q, y).Ok?
    requires !Rewrites(h, v, q, c, e) && !IsNew(h, c)
    ensures ChildVal(PutIn(h, v, q, y).value, Box(c), e) == ChildVal(h, Box(c), e)
    decreases |q|
  {
    hide ChildVal, SetChild, Enter, Walk, Sane, Linked, Rewrites;
    if |q| == 1 {
      SetChildEffect(h, v, q[0], y);
      RewritesHere(h, v, q);
      OtherCellSame(h, PutIn(h, v, q, y).value, v.ref, c, e);
    } else if ChildVal(h, v, q[0]).Some? {
      EnterOld(h, v, q[0]);
      SaneKid(h, v, q[0]);
      if Rewrites(h, ChildVal(h, v, q[0]).value, q[1..], c, e) {
        RewritesBelow(h, v, q, c, e);
      }
      PutKeepsSteps(h, ChildVal(h, v, q[0]).value, q[1..], y, c, e);
    } else {
      EnterNew(h, v, q[0]);
      var w, h1 := Enter(h, v, q[0]).value.0, Enter(h, v, q[0]).value.1;
      RewritesHere(h, v, q);
      OtherCellSame(h, h1, v.ref, c, e);
      if Rewrites(h1, w, q[1..], c, e) {
        RewritesOnWay(h1, w, q[1..], c, e);
        OnlyHere(h1, w, q[1..], c);
      }
      PutKeepsSteps(h1, w, q[1..], y, c, e);
    }
  }

  lemma RewritesOnWay(h: Heap, v: Val, q: seq<Elem>, c: Ref, e: Elem)
    requires Rewrites(h, v, q, c, e)
    ensures OnWay(h, v, q, c)
  {
    hide Walk, ChildVal;
  }

  lemma OtherCellSame(h: Heap, h2: Heap, r: Ref, c: Ref, e: Elem)
    requires Changed(h, h2, r) && !IsNew(h, c)
    ensures c != r ==> ChildVal(h2, Box(c), e) == ChildVal(h, Box(c), e)
  {
  }
}
