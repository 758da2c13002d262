/** What a heap of shared objects denotes: validateItem unfolds the whole document (avjson.go) and never
    comes to an end on one that contains itself. */
module Reading {
  import opened Wrappers
  import opened Values
  import opened Paths
  import opened References

  // ---- denotation ----

  /** v looks like x, apart from what is inside. */
  predicate Alike(h: Heap, v: Val, x: AV) {
    if IsScalar(x) then v == Atom(x)
    else
      v.Box? &&
      match Look(h, v.ref)
      case None => false
      case Some(c) =>
        if x.L? then c.ListCell? && |c.elems| == |x.elems| else c.MapCell? && c.attrs.Keys == x.attrs.Keys
  }

  /** v, spelled out, is x. */
  ghost predicate Denotes(h: Heap, v: Val, x: AV)
    decreases x
  {
    Alike(h, v, x) &&
    match x
    case L(es) => forall i :: 0 <= i < |es| ==> Denotes(h, Look(h, v.ref).value.elems[i], es[i])
    case M(m) => forall k :: k in m ==> Denotes(h, Look(h, v.ref).value.attrs[k], m[k])
    case _ => true
  }

  lemma Kids(h: Heap, v: Val, x: AV, e: Elem)
    requires Denotes(h, v, x)
    ensures ChildVal(h, v, e).Some? <==> Child(x, e).Some?
    ensures Child(x, e).Some? ==> Denotes(h, ChildVal(h, v, e).value, Child(x, e).value)
  {
  }

  lemma ByKids(h: Heap, v: Val, x: AV)
    requires Alike(h, v, x)
    requires forall e :: ChildVal(h, v, e).Some? && Child(x, e).Some? ==>
               Denotes(h, ChildVal(h, v, e).value, Child(x, e).value)
    ensures Denotes(h, v, x)
  {
    match x {
      case L(es) =>
        forall i | 0 <= i < |es|
          ensures Denotes(h, Look(h, v.ref).value.elems[i], es[i])
        {
          assert ChildVal(h, v, Index(i)) == Some(Look(h, v.ref).value.elems[i]) && Child(x, Index(i)) == Some(es[i]);
        }
      case M(m) =>
        forall k | k in m
          ensures Denotes(h, Look(h, v.ref).value.attrs[k], m[k])
        {
          assert ChildVal(h, v, Name(k)) == Some(Look(h, v.ref).value.attrs[k]) && Child(x, Name(k)) == Some(m[k]);
        }
      case _ =>
    }
  }

  lemma {:induction false} DenotesOne(h: Heap, v: Val, x: AV, y: AV)
    requires Denotes(h, v, x) && Denotes(h, v, y)
    ensures x == y
    decreases x
  {
    match x {
      case L(es) =>
        forall i | 0 <= i < |es|
          ensures es[i] == y.elems[i]
        {
          DenotesOne(h, Look(h, v.ref).value.elems[i], es[i], y.elems[i]);
        }
        assert es == y.elems;
      case M(m) =>
        forall k | k in m
          ensures m[k] == y.attrs[k]
        {
          DenotesOne(h, Look(h, v.ref).value.attrs[k], m[k], y.attrs[k]);
        }
        assert m == y.attrs;
      case _ =>
    }
  }

  /** resolvePath on objects finds what it finds in the document. */
  lemma {:induction false} WalkDenotes(h: Heap, v: Val, x: AV, p: seq<Elem>)
    requires Denotes(h, v, x)
    ensures Walk(h, v, p).Some? <==> Get(x, p).Some?
    ensures Walk(h, v, p).Some? ==> Denotes(h, Walk(h, v, p).value, Get(x, p).value)
    decreases |p|
  {
    hide Denotes, Child, ChildVal;
    if p != [] {
      Kids(h, v, x, p[0]);
      if Child(x, p[0]).Some? {
        WalkDenotes(h, ChildVal(h, v, p[0]).value, Child(x, p[0]).value, p[1..]);
      }
    }
  }

  lemma {:induction false} WalkConcat(h: Heap, v: Val, p: seq<Elem>, q: seq<Elem>)
    ensures Walk(h, v, p + q) == match Walk(h, v, p) case None => None case Some(c) => Walk(h, c, q)
    decreases |p|
  {
    hide ChildVal;
    if p == [] {
      assert p + q == q;
    } else {
      assert (p + q)[0] == p[0] && (p + q)[1..] == p[1..] + q;
      if ChildVal(h, v, p[0]).Some? {
        WalkConcat(h, ChildVal(h, v, p[0]).value, p[1..], q);
      }
    }
  }

  lemma WalkOne(h: Heap, v: Val, e: Elem)
    ensures Walk(h, v, [e]) == ChildVal(h, v, e)
  {
    hide ChildVal;
    assert [e][1..] == [];
  }

  lemma {:induction false} GetBelow(x: AV, p: seq<Elem>)
    requires p != [] && Get(x, p).Some?
    ensures Get(x, p).value < x
    decreases |p|
  {
    var c := Child(x, p[0]).value;
    assert c < x;
    if |p| > 1 {
      GetBelow(c, p[1..]);
    } else {
      assert p[1..] == [];
    }
  }

  /** A value that is spelled out does not contain itself. */
  lemma NotInside(h: Heap, v: Val, x: AV, p: seq<Elem>)
    requires Denotes(h, v, x) && p != []
    ensures Walk(h, v, p) != Some(v)
  {
    if Walk(h, v, p) == Some(v) {
      WalkDenotes(h, v, x, p);
      DenotesOne(h, v, x, Get(x, p).value);
      GetBelow(x, p);
      assert false;
    }
  }

  // ---- frames ----

  /** An object that can be reached from v. */
  ghost predicate Reaches(h: Heap, v: Val, r: Ref) {
    exists q :: Walk(h, v, q) == Some(Box(r))
  }

  /** Both heaps have the same containers below v. */
  ghost predicate SameBelow(h: Heap, h2: Heap, v: Val) {
    forall r :: Reaches(h, v, r) ==> Look(h2, r) == Look(h, r)
  }

  lemma ReachesHere(h: Heap, v: Val)
    requires v.Box?
    ensures Reaches(h, v, v.ref)
  {
    assert Walk(h, v, []) == Some(Box(v.ref));
  }

  lemma ReachesBelow(h: Heap, v: Val, e: Elem, r: Ref)
    requires ChildVal(h, v, e).Some? && Reaches(h, ChildVal(h, v, e).value, r)
    ensures Reaches(h, v, r)
  {
    hide ChildVal;
    var q :| Walk(h, ChildVal(h, v, e).value, q) == Some(Box(r));
    WalkOne(h, v, e);
    WalkConcat(h, v, [e], q);
  }

  lemma SameKid(h: Heap, h2: Heap, v: Val, e: Elem)
    requires SameBelow(h, h2, v)
    ensures ChildVal(h2, v, e) == ChildVal(h, v, e)
    ensures ChildVal(h, v, e).Some? ==> SameBelow(h, h2, ChildVal(h, v, e).value)
  {
    if v.Box? {
      ReachesHere(h, v);
    }
    if ChildVal(h, v, e).Some? {
      forall r | Reaches(h, ChildVal(h, v, e).value, r)
        ensures Look(h2, r) == Look(h, r)
      {
        ReachesBelow(h, v, e, r);
      }
    }
  }

  lemma {:induction false} WalkFrame(h: Heap, h2: Heap, v: Val, p: seq<Elem>)
    requires SameBelow(h, h2, v)
    ensures Walk(h2, v, p) == Walk(h, v, p)
    decreases |p|
  {
    hide ChildVal, SameBelow;
    if p != [] {
      SameKid(h, h2, v, p[0]);
      if ChildVal(h, v, p[0]).Some? {
        WalkFrame(h, h2, ChildVal(h, v, p[0]).value, p[1..]);
      }
    }
  }

  lemma {:induction false} DenotesFrame(h: Heap, h2: Heap, v: Val, x: AV)
    requires SameBelow(h, h2, v) && Denotes(h, v, x)
    ensures Denotes(h2, v, x)
    decreases x
  {
    hide SameBelow, ChildVal;
    forall e | ChildVal(h2, v, e).Some? && Child(x, e).Some?
      ensures Denotes(h2, ChildVal(h2, v, e).value, Child(x, e).value)
    {
      SameKid(h, h2, v, e);
      Kids(h, v, x, e);
      assert Child(x, e).value < x;
      DenotesFrame(h, h2, ChildVal(h, v, e).value, Child(x, e).value);
    }
    AlikeFrame(h, h2, v, x);
    ByKids(h2, v, x);
  }

  lemma AlikeFrame(h: Heap, h2: Heap, v: Val, x: AV)
    requires SameBelow(h, h2, v) && Alike(h, v, x)
    ensures Alike(h2, v, x)
  {
    if v.Box? {
      ReachesHere(h, v);
    }
  }

  // ---- heaps without dangling references ----

  predicate Linked(h: Heap, v: Val) {
    v.Box? ==> Look(h, v.ref).Some?
  }

  /** Every reference leads to an object, and new objects will be new. */
  ghost predicate Sane(h: Heap) {
    (forall n: nat :: Look(h, Made(n)).Some? ==> n < h.made) &&
    forall r, e :: ChildVal(h, Box(r), e).Some? ==> Linked(h, ChildVal(h, Box(r), e).value)
  }

  lemma SaneKid(h: Heap, v: Val, e: Elem)
    requires Sane(h) && ChildVal(h, v, e).Some?
    ensures Linked(h, ChildVal(h, v, e).value)
  {
    assert v == Box(v.ref);
  }

  lemma {:induction false} LinkedWalk(h: Heap, v: Val, p: seq<Elem>)
    requires Sane(h) && Linked(h, v) && Walk(h, v, p).Some?
    ensures Linked(h, Walk(h, v, p).value)
    decreases |p|
  {
    hide Sane, Linked, ChildVal;
    if p != [] {
      SaneKid(h, v, p[0]);
      LinkedWalk(h, ChildVal(h, v, p[0]).value, p[1..]);
    }
  }

  lemma ReachedIsLinked(h: Heap, v: Val, r: Ref)
    requires Sane(h) && Linked(h, v) && Reaches(h, v, r)
    ensures Look(h, r).Some?
    ensures r.Made? ==> r.n < h.made
  {
    hide Sane;
    var q :| Walk(h, v, q) == Some(Box(r));
    LinkedWalk(h, v, q);
    MadeIsOld(h, r);
  }

  lemma MadeIsOld(h: Heap, r: Ref)
    requires Sane(h) && Look(h, r).Some?
    ensures r.Made? ==> r.n < h.made
  {
    assert r.Made? ==> r == Made(r.n);
  }

  // ---- the document as a clone ----

  /** How a clone starts out: every container is where it was. */
  lemma {:induction false} ClonedWalk(h: Heap, av: AV, r: Ref, p: seq<Elem>)
    requires h.changed == map[] && !r.Made?
    requires !IsScalar(av) ==> Origin(h, r) == Some(av)
    ensures Walk(h, ValOf(av, r), p) ==
              match Get(av, p) case None => None case Some(x) => Some(ValOf(x, Within(r, p)))
    decreases |p|
  {
    if p == [] {
      WithinHere(r);
    } else {
      match Child(av, p[0]) {
        case None => assert ChildVal(h, ValOf(av, r), p[0]) == None;
        case Some(c) =>
          var e := p[0];
          OriginInside(h, r, av, e);
          assert ChildVal(h, ValOf(av, r), e) == Some(ValOf(c, Inside(r, e)));
          ClonedWalk(h, c, Inside(r, e), p[1..]);
          WithinInside(r, p);
      }
    }
  }

  /** The place p below the place r. */
  function Within(r: Ref, p: seq<Elem>): Ref {
    match r
    case InItem(q) => InItem(q + p)
    case InValue(n, q) => InValue(n, q + p)
    case Made(_) => r
  }

  lemma WithinHere(r: Ref)
    ensures Within(r, []) == r
  {
    match r {
      case InItem(q) => assert q + [] == q;
      case InValue(_, q) => assert q + [] == q;
      case Made(_) =>
    }
  }

  lemma WithinInside(r: Ref, p: seq<Elem>)
    requires p != []
    ensures Within(Inside(r, p[0]), p[1..]) == Within(r, p)
  {
    match r {
      case InItem(q) => assert q + [p[0]] + p[1..] == q + p;
      case InValue(_, q) => assert q + [p[0]] + p[1..] == q + p;
      case Made(_) =>
    }
  }

  lemma {:induction false} GetSnoc(v: AV, q: seq<Elem>, e: Elem)
    ensures Get(v, q + [e]) == match Get(v, q) case None => None case Some(x) => Child(x, e)
    decreases |q|
  {
    hide Child;
    if q == [] {
      assert q + [e] == [e] && [e][1..] == [];
    } else {
      assert (q + [e])[0] == q[0] && (q + [e])[1..] == q[1..] + [e];
      if Child(v, q[0]).Some? {
        GetSnoc(Child(v, q[0]).value, q[1..], e);
      }
    }
  }

  lemma OriginInside(h: Heap, r: Ref, av: AV, e: Elem)
    requires !r.Made? && Origin(h, r) == Some(av) && Child(av, e).Some?
    ensures Origin(h, Inside(r, e)) == Child(av, e)
  {
    hide Get, Child;
    match r {
      case InItem(q) => GetSnoc(M(h.item), q, e);
      case InValue(n, q) => GetSnoc(h.values[n], q, e);
    }
  }

  lemma {:induction false} ClonedDenotes(h: Heap, av: AV, r: Ref)
    requires h.changed == map[] && !r.Made?
    requires !IsScalar(av) ==> Origin(h, r) == Some(av)
    ensures Denotes(h, ValOf(av, r), av)
    decreases av
  {
    forall e | ChildVal(h, ValOf(av, r), e).Some? && Child(av, e).Some?
      ensures Denotes(h, ChildVal(h, ValOf(av, r), e).value, Child(av, e).value)
    {
      var c := Child(av, e).value;
      assert c < av;
      OriginInside(h, r, av, e);
      assert ChildVal(h, ValOf(av, r), e) == Some(ValOf(c, Inside(r, e)));
      ClonedDenotes(h, c, Inside(r, e));
    }
    assert Alike(h, ValOf(av, r), av) by {
      match av {
        case M(m) => assert CellOf(av, r).value.attrs.Keys == m.Keys;
        case _ =>
      }
    }
    ByKids(h, ValOf(av, r), av);
  }

  lemma ClonedSane(h: Heap)
    requires h.changed == map[]
    ensures Sane(h)
  {
    forall r, e | ChildVal(h, Box(r), e).Some?
      ensures Linked(h, ChildVal(h, Box(r), e).value)
    {
      var av := Origin(h, r).value;
      assert Child(av, e).Some?;
      OriginInside(h, r, av, e);
      assert ChildVal(h, Box(r), e) == Some(ValOf(Child(av, e).value, Inside(r, e)));
    }
  }

  // ---- unfolding ----

  /** The containers of a value, as a clone names them. */
  ghost function Boxes(av: AV, r: Ref): set<Ref>
    decreases av
  {
    match av
    case L(es) => {r} + set i, b | 0 <= i < |es| && b in Boxes(es[i], Inside(r, Index(i))) :: b
    case M(m) => {r} + set k, b | k in m && b in Boxes(m[k], Inside(r, Name(k))) :: b
    case _ => {}
  }

  /** All objects of a heap. */
  ghost function Universe(h: Heap): set<Ref> {
    h.changed.Keys + Boxes(M(h.item), ROOT) +
    set n, b | n in h.values && b in Boxes(h.values[n], InValue(n, [])) :: b
  }

  lemma BoxesHere(av: AV, r: Ref)
    requires !IsScalar(av)
    ensures r in Boxes(av, r)
  {
  }

  lemma BoxesOfKid(av: AV, r: Ref, e: Elem, b: Ref)
    requires Child(av, e).Some? && b in Boxes(Child(av, e).value, Inside(r, e))
    ensures b in Boxes(av, r)
  {
    match e {
      case Index(i) => assert b in Boxes(av.elems[i], Inside(r, Index(i)));
      case Name(k) => assert b in Boxes(av.attrs[k], Inside(r, Name(k)));
    }
  }

  lemma {:induction false} BoxesHave(av: AV, r: Ref, p: seq<Elem>)
    requires !r.Made? && Get(av, p).Some? && !IsScalar(Get(av, p).value)
    ensures Within(r, p) in Boxes(av, r)
    decreases |p|
  {
    if p == [] {
      WithinHere(r);
      BoxesHere(av, r);
    } else {
      hide Boxes, Child;
      BoxesHave(Child(av, p[0]).value, Inside(r, p[0]), p[1..]);
      WithinInside(r, p);
      BoxesOfKid(av, r, p[0], Within(r, p));
    }
  }

  lemma InUniverse(h: Heap, r: Ref)
    requires Look(h, r).Some?
    ensures r in Universe(h)
  {
    if r !in h.changed {
      match r {
        case InItem(p) =>
          BoxesHave(M(h.item), ROOT, p);
          assert [] + p == p;
        case InValue(n, p) =>
          BoxesHave(h.values[n], InValue(n, []), p);
          assert [] + p == p;
        case Made(_) =>
      }
    }
  }

  /** validateItem and the encoding of the item walk the whole document. None stands for recursion
      without end: an object inside itself. */
  function Unfold(h: Heap, v: Val, seen: set<Ref>): Option<AV>
    decreases Universe(h) - seen
  {
    match v
    case Atom(av) => Some(av)
    case Box(r) =>
      if r in seen then None
      else
        match Look(h, r)
        case None => None
        case Some(c) =>
          InUniverse(h, r);
          match c
          case ListCell(vs) =>
            if forall i :: 0 <= i < |vs| ==> Unfold(h, vs[i], seen + {r}).Some? then
              Some(L(seq(|vs|, i requires 0 <= i < |vs| => Unfold(h, vs[i], seen + {r}).value)))
            else None
          case MapCell(m) =>
            if forall k :: k in m ==> Unfold(h, m[k], seen + {r}).Some? then
              Some(M(map k | k in m :: Unfold(h, m[k], seen + {r}).value))
            else None
  }

  lemma UnfoldKids(h: Heap, v: Val, seen: set<Ref>)
    requires v.Box? && v.ref !in seen && Look(h, v.ref).Some?
    ensures Unfold(h, v, seen).Some? <==>
            forall e :: ChildVal(h, v, e).Some? ==> Unfold(h, ChildVal(h, v, e).value, seen + {v.ref}).Some?
    ensures Unfold(h, v, seen).Some? ==> Alike(h, v, Unfold(h, v, seen).value)
    ensures Unfold(h, v, seen).Some? ==> forall e :: Child(Unfold(h, v, seen).value, e).Some? ==>
              ChildVal(h, v, e).Some? &&
              Unfold(h, ChildVal(h, v, e).value, seen + {v.ref}) == Child(Unfold(h, v, seen).value, e)
  {
    match Look(h, v.ref).value {
      case ListCell(vs) =>
        assert forall i: nat :: i < |vs| ==> ChildVal(h, v, Index(i)) == Some(vs[i]);
      case MapCell(m) =>
        assert forall k :: k in m ==> ChildVal(h, v, Name(k)) == Some(m[k]);
    }
  }

  lemma {:induction false} UnfoldDenotes(h: Heap, v: Val, seen: set<Ref>)
    requires Unfold(h, v, seen).Some?
    ensures Denotes(h, v, Unfold(h, v, seen).value)
    decreases Universe(h) - seen
  {
    hide ChildVal, Universe, Boxes;
    if v.Box? {
      InUniverse(h, v.ref);
      UnfoldKids(h, v, seen);
      var x := Unfold(h, v, seen).value;
      hide Unfold;
      forall e | ChildVal(h, v, e).Some? && Child(x, e).Some?
        ensures Denotes(h, ChildVal(h, v, e).value, Child(x, e).value)
      {
        UnfoldDenotes(h, ChildVal(h, v, e).value, seen + {v.ref});
      }
      ByKids(h, v, x);
    }
  }

  lemma {:induction false} DenotedUnfolds(h: Heap, v: Val, x: AV, seen: set<Ref>)
    requires Denotes(h, v, x) && forall r :: r in seen ==> !Reaches(h, v, r)
    ensures Unfold(h, v, seen) == Some(x)
    decreases x
  {
    hide ChildVal, Reaches;
    if v.Box? {
      ReachesHere(h, v);
      forall e | ChildVal(h, v, e).Some?
        ensures Unfold(h, ChildVal(h, v, e).value, seen + {v.ref}).Some?
      {
        Kids(h, v, x, e);
        var c := ChildVal(h, v, e).value;
        forall r | r in seen + {v.ref}
          ensures !Reaches(h, c, r)
        {
          KidReachesNot(h, v, x, e, r);
        }
        assert Child(x, e).value < x;
        DenotedUnfolds(h, c, Child(x, e).value, seen + {v.ref});
      }
      UnfoldKids(h, v, seen);
      hide Unfold;
      UnfoldDenotes(h, v, seen);
      DenotesOne(h, v, x, Unfold(h, v, seen).value);
    }
  }

  lemma KidReachesNot(h: Heap, v: Val, x: AV, e: Elem, r: Ref)
    requires Denotes(h, v, x) && v.Box? && ChildVal(h, v, e).Some? && (r == v.ref || !Reaches(h, v, r))
    ensures !Reaches(h, ChildVal(h, v, e).value, r)
  {
    hide ChildVal, Denotes;
    var c := ChildVal(h, v, e).value;
    if Reaches(h, c, r) {
      ReachesBelow(h, v, e, r);
      var q :| Walk(h, c, q) == Some(Box(r));
      WalkOne(h, v, e);
      WalkConcat(h, v, [e], q);
      NotInside(h, v, x, [e] + q);
      assert false;
    }
  }

  /** An object inside itself: the container at p is also the one at p followed by q. */
  ghost predicate Cyclic(h: Heap, v: Val, p: seq<Elem>, q: seq<Elem>) {
    q != [] && Walk(h, v, p).Some? && Walk(h, Walk(h, v, p).value, q) == Walk(h, v, p)
  }

  lemma CycleNeverUnfolds(h: Heap, v: Val, p: seq<Elem>, q: seq<Elem>)
    requires Cyclic(h, v, p, q)
    ensures Unfold(h, v, {}).None?
  {
    hide Unfold, Walk;
    if Unfold(h, v, {}).Some? {
      UnfoldDenotes(h, v, {});
      var x := Unfold(h, v, {}).value;
      WalkDenotes(h, v, x, p);
      NotInside(h, Walk(h, v, p).value, Get(x, p).value, q);
      assert false;
    }
  }

  /** If the recursion does not end below the place p, then because of a container on the way there or
      further down. */
  lemma {:induction false} EndlessHasCycle(h: Heap, root: Val, p: seq<Elem>, seen: set<Ref>)
    returns (a: seq<Elem>, b: seq<Elem>)
    requires Sane(h) && Linked(h, root) && Walk(h, root, p).Some?
    requires forall r :: r in seen ==> exists i :: 0 <= i < |p| && Walk(h, root, p[..i]) == Some(Box(r))
    requires Unfold(h, Walk(h, root, p).value, seen).None?
    ensures Cyclic(h, root, a, b)
    decreases Universe(h) - seen
  {
    hide ChildVal, Universe, Boxes, Sane, Walk;
    var v := Walk(h, root, p).value;
    LinkedWalk(h, root, p);
    if v.ref in seen {
      var i :| 0 <= i < |p| && Walk(h, root, p[..i]) == Some(v);
      a, b := p[..i], p[i..];
      WalkConcat(h, root, a, b);
      assert p == a + b;
    } else {
      InUniverse(h, v.ref);
      UnfoldKids(h, v, seen);
      hide Unfold;
      var e :| ChildVal(h, v, e).Some? && Unfold(h, ChildVal(h, v, e).value, seen + {v.ref}).None?;
      WalkOne(h, v, e);
      WalkConcat(h, root, p, [e]);
      var q := p + [e];
      forall r | r in seen + {v.ref}
        ensures exists i :: 0 <= i < |q| && Walk(h, root, q[..i]) == Some(Box(r))
      {
        if r == v.ref {
          assert q[..|p|] == p;
        } else {
          var i :| 0 <= i < |p| && Walk(h, root, p[..i]) == Some(Box(r));
          assert q[..i] == p[..i];
        }
      }
      a, b := EndlessHasCycle(h, root, q, seen + {v.ref});
    }
  }

  /** Reading a document does not come to an end if and only if some container is inside itself. */
  lemma EndlessIffCycle(h: Heap)
    requires Sane(h) && Linked(h, Box(ROOT))
    ensures Unfold(h, Box(ROOT), {}).None? <==> exists p, q :: Cyclic(h, Box(ROOT), p, q)
  {
    hide Unfold, Walk, Sane, Cyclic;
    if Unfold(h, Box(ROOT), {}).None? {
      assert Walk(h, Box(ROOT), []) == Some(Box(ROOT)) by {
        WalkHere(h, Box(ROOT));
      }
      var p, q := EndlessHasCycle(h, Box(ROOT), [], {});
    }
    if p, q :| Cyclic(h, Box(ROOT), p, q) {
      CycleNeverUnfolds(h, Box(ROOT), p, q);
    }
  }

  lemma WalkHere(h: Heap, v: Val)
    ensures Walk(h, v, []) == Some(v)
  {
  }
}
