/** Removing in place (update.go applyRemove): elements behind a removed one move. */
module Dropping {
  import opened Wrappers
  import opened Values
  import opened Paths
  import opened Updates
  import opened Places
  import opened References
  import opened Reading
  import opened InPlace

  lemma DropEffect(h: Heap, v: Val, e: Elem)
    requires DropChild(h, v, e).Ok?
    ensures var h2 := DropChild(h, v, e).value;
            && v.Box? && Changed(h, h2, v.ref) && h2.made == h.made
            && (forall r :: r != v.ref ==> Look(h2, r) == Look(h, r))
            && Look(h, v.ref).Some? && Look(h2, v.ref).Some?
            && WithoutPart(Look(h, v.ref).value, e) == Ok(Look(h2, v.ref).value)
  {
  }

  lemma DroppedKids(h: Heap, h2: Heap, v: Val, e: Elem)
    requires v.Box? && Look(h, v.ref).Some? && Look(h2, v.ref).Some?
    requires WithoutPart(Look(h, v.ref).value, e) == Ok(Look(h2, v.ref).value)
    ensures forall f :: ChildVal(h2, v, f) == if e.Name? && f == e then None else ChildVal(h, v, Back(e, f))
  {
  }

  lemma DropSane(h: Heap, v: Val, e: Elem)
    requires Sane(h) && DropChild(h, v, e).Ok?
    ensures Sane(DropChild(h, v, e).value)
    ensures forall w :: Linked(h, w) ==> Linked(DropChild(h, v, e).value, w)
  {
    var h2 := DropChild(h, v, e).value;
    DropEffect(h, v, e);
    DroppedKids(h, h2, v, e);
    forall r, f | ChildVal(h2, Box(r), f).Some?
      ensures Linked(h2, ChildVal(h2, Box(r), f).value)
    {
      if r == v.ref {
        assert ChildVal(h2, Box(r), f) == ChildVal(h, Box(r), Back(e, f));
      } else {
        assert ChildVal(h2, Box(r), f) == ChildVal(h, Box(r), f);
      }
    }
  }

  /** Removal goes down like any other walk. */
  lemma RemoveStep(h: Heap, v: Val, p: seq<Elem>)
    requires p != []
    ensures RemoveFrom(h, v, p) ==
              if |p| == 1 then DropChild(h, v, p[0])
              else match ChildVal(h, v, p[0]) case None => Ok(h) case Some(c) => RemoveFrom(h, c, p[1..])
  {
    hide ChildVal, DropChild;
    if |p| == 1 {
      assert Parent(p) == [] && Last(p) == p[0];
    } else {
      assert Parent(p)[0] == p[0] && Parent(p)[1..] == Parent(p[1..]) && Last(p[1..]) == Last(p);
    }
  }

  lemma RemoveTouches(h: Heap, v: Val, p: seq<Elem>)
    requires p != [] && Sane(h) && RemoveFrom(h, v, p).Ok?
    ensures Touched(h, RemoveFrom(h, v, p).value, v, p) && Sane(RemoveFrom(h, v, p).value)
    ensures forall w :: Linked(h, w) ==> Linked(RemoveFrom(h, v, p).value, w)
  {
    hide DropChild, Walk, Sane, Linked;
    if Walk(h, v, Parent(p)).Some? {
      var w := Walk(h, v, Parent(p)).value;
      DropEffect(h, w, Last(p));
      DropSane(h, w, Last(p));
      assert p[..|p| - 1] == Parent(p);
      assert OnWay(h, v, p, w.ref);
    }
  }

  /** The container is the same one and so are its other children. */
  lemma DropDenotes(h: Heap, v: Val, e: Elem, x: AV)
    requires Denotes(h, v, x) && Once(h, v, [])
    ensures DropChild(h, v, e).Ok? <==> RemoveIn(x, [e]).Ok?
    ensures DropChild(h, v, e).Ok? ==> Denotes(DropChild(h, v, e).value, v, RemoveIn(x, [e]).value)
  {
    hide Denotes, DropChild;
    AlikeDenoted(h, v, x);
    DropSucceeds(h, v, e, x);
    if DropChild(h, v, e).Ok? {
      var h2, y := DropChild(h, v, e).value, RemoveIn(x, [e]).value;
      DropEffect(h, v, e);
      DroppedKids(h, h2, v, e);
      DroppedAlike(h, h2, v, e, x);
      hide ChildVal, Once, Alike, RemoveIn;
      forall f | ChildVal(h2, v, f).Some? && Child(y, f).Some?
        ensures Denotes(h2, ChildVal(h2, v, f).value, Child(y, f).value)
      {
        Kids(h, v, x, Back(e, f));
        BelowOnce(h, v, Back(e, f));
        ChildSame(h, h2, v, Back(e, f));
        DenotesFrame(h, h2, ChildVal(h2, v, f).value, Child(x, Back(e, f)).value);
        ChildAfterRemoval(x, e, f);
      }
      ByKids(h2, v, y);
    }
  }

  lemma DropSucceeds(h: Heap, v: Val, e: Elem, x: AV)
    requires Alike(h, v, x)
    ensures DropChild(h, v, e).Ok? <==> RemoveIn(x, [e]).Ok?
  {
  }

  lemma DroppedAlike(h: Heap, h2: Heap, v: Val, e: Elem, x: AV)
    requires Alike(h, v, x) && v.Box? && Look(h, v.ref).Some? && Look(h2, v.ref).Some?
    requires WithoutPart(Look(h, v.ref).value, e) == Ok(Look(h2, v.ref).value) && RemoveIn(x, [e]).Ok?
    ensures Alike(h2, v, RemoveIn(x, [e]).value)
  {
  }

  lemma ChildAfterRemoval(x: AV, e: Elem, f: Elem)
    requires RemoveIn(x, [e]).Ok?
    ensures Child(RemoveIn(x, [e]).value, f) == if e.Name? && f == e then None else Child(x, Back(e, f))
  {
  }

  /** A container that occurs once is not below its children. */
  lemma BelowOnce(h: Heap, v: Val, f: Elem)
    requires Once(h, v, []) && v.Box? && ChildVal(h, v, f).Some?
    ensures !Reaches(h, ChildVal(h, v, f).value, v.ref)
  {
    hide ChildVal;
    if Reaches(h, ChildVal(h, v, f).value, v.ref) {
      var q :| Walk(h, ChildVal(h, v, f).value, q) == Some(Box(v.ref));
      assert ([f] + q)[1..] == q;
      NotOnce(h, v, [], [f] + q, v.ref);
    }
  }

  lemma ChildSame(h: Heap, h2: Heap, v: Val, f: Elem)
    requires v.Box? && ChildVal(h, v, f).Some? && (forall r :: r != v.ref ==> Look(h2, r) == Look(h, r))
    requires !Reaches(h, ChildVal(h, v, f).value, v.ref)
    ensures SameBelow(h, h2, ChildVal(h, v, f).value)
  {
  }

  lemma AloneHere(h: Heap, v: Val, p: seq<Elem>)
    requires p != [] && Alone(h, v, p)
    ensures Once(h, v, [])
  {
    assert p[..0] == [];
  }

  /** In place, applyRemove yields the document that it yields on values: if the containers on the way
      occur once. */
  lemma {:induction false} RemoveDenotes(h: Heap, v: Val, p: seq<Elem>, x: AV)
    requires p != [] && Sane(h) && Linked(h, v) && Denotes(h, v, x) && Alone(h, v, p)
    ensures RemoveFrom(h, v, p).Ok? <==> RemoveIn(x, p).Ok?
    ensures RemoveFrom(h, v, p).Ok? ==> Denotes(RemoveFrom(h, v, p).value, v, RemoveIn(x, p).value)
    decreases |p|
  {
    hide ChildVal, Sane, Linked, Denotes, Child, DropChild, RemoveFrom, Alone, Once, Touched, WithChild;
    RemoveStep(h, v, p);
    if |p| == 1 {
      assert p == [p[0]];
      AloneHere(h, v, p);
      DropDenotes(h, v, p[0], x);
    } else {
      Kids(h, v, x, p[0]);
      if ChildVal(h, v, p[0]).Some? {
        var c := ChildVal(h, v, p[0]).value;
        SaneKid(h, v, p[0]);
        AloneBelow(h, v, p);
        RemoveDenotes(h, c, p[1..], Child(x, p[0]).value);
        WithChildExists(x, p[0]);
        if RemoveFrom(h, v, p).Ok? {
          var h2 := RemoveFrom(h, v, p).value;
          RemoveTouches(h, v, p);
          OthersKept(h, h2, v, p);
          RemoveBelow(h, v, p);
          ReplacedDenotes(h, h2, v, p[0], c, x, RemoveIn(Child(x, p[0]).value, p[1..]).value);
        }
      }
    }
  }

  /** A removal further down leaves the container alone. */
  lemma RemoveBelow(h: Heap, v: Val, p: seq<Elem>)
    requires |p| > 1 && Sane(h) && Linked(h, v) && Alone(h, v, p) && RemoveFrom(h, v, p).Ok?
    requires ChildVal(h, v, p[0]).Some?
    ensures Relinked(h, RemoveFrom(h, v, p).value, v, p[0], ChildVal(h, v, p[0]).value)
  {
    hide ChildVal, Sane, Linked, DropChild, RemoveFrom, Relinked;
    var c, h2 := ChildVal(h, v, p[0]).value, RemoveFrom(h, v, p).value;
    RemoveStep(h, v, p);
    RemoveTouches(h, c, p[1..]);
    RelinkedSame(h, v, p[0]);
    assert v.Box? by {
      HasChild(h, v, p[0]);
    }
    AloneHere(h, v, p);
    BelowOnce(h, v, p[0]);
    LinkedIsOld(h, v);
    if OnWay(h, c, p[1..], v.ref) {
      WayReached(h, c, p[1..], v.ref);
    }
    assert Look(h2, v.ref) == Look(h, v.ref);
    RelinkedFrame(h, h2, v, p[0], c);
  }

  lemma HasChild(h: Heap, v: Val, e: Elem)
    requires ChildVal(h, v, e).Some?
    ensures v.Box?
  {
  }

  lemma RelinkedFrame(h: Heap, h2: Heap, v: Val, e: Elem, y: Val)
    requires Relinked(h, h, v, e, y) && Look(h2, v.ref) == Look(h, v.ref)
    ensures Relinked(h, h2, v, e, y)
  {
  }

  // ---- where everything is after a removal ----

  /** A walk that does not step out of the changed container. */
  lemma {:induction false} WalkAvoids(h: Heap, h2: Heap, v: Val, q: seq<Elem>, r: Ref)
    requires forall s :: s != r ==> Look(h2, s) == Look(h, s)
    requires !OnWay(h, v, q, r)
    ensures Walk(h2, v, q) == Walk(h, v, q)
    decreases |q|
  {
    if q != [] {
      if v.Box? {
        OnWayHere(h, v, q);
      }
      assert ChildVal(h2, v, q[0]) == ChildVal(h, v, q[0]);
      hide ChildVal;
      if ChildVal(h, v, q[0]).Some? {
        var c := ChildVal(h, v, q[0]).value;
        if OnWay(h, c, q[1..], r) {
          OnWayBelow(h, v, q, r);
        }
        WalkAvoids(h, h2, c, q[1..], r);
      }
    }
  }

  /** Everything is found where it was, except for the removed child and what moved. */
  lemma RemoveWalk(h: Heap, v: Val, p: seq<Elem>, q: seq<Elem>)
    requires p != [] && Sane(h) && Once(h, v, Parent(p)) && RemoveFrom(h, v, p).Ok? && Walk(h, v, Parent(p)).Some?
    ensures var h2 := RemoveFrom(h, v, p).value;
            Walk(h2, v, q) == if Last(p).Name? && p <= q then None else Walk(h, v, Before(p, q))
  {
    hide DropChild, Walk, Sane, Back, OnWay;
    var l, w, h2 := Parent(p), Walk(h, v, Parent(p)).value, RemoveFrom(h, v, p).value;
    DropEffect(h, w, Last(p));
    OnlyParent(h, v, p, l, w.ref);
    WalkAvoids(h, h2, v, l, w.ref);
    if l < q {
      var f, g, s := q[|l|], Back(Last(p), q[|l|]), q[|l| + 1..];
      BelowParent(l, q);
      assert l + [f] + s == l + ([f] + s) && l + [g] + s == l + ([g] + s);
      WalkConcat(h2, v, l, [f] + s);
      WalkConcat(h, v, l, [g] + s);
      DroppedKids(h, h2, w, Last(p));
      ParentPrefix(p, q);
      RemoveBelowParent(h, h2, v, l, w, g);
      WalkCons(h2, w, f, s);
      WalkCons(h, w, g, s);
      if ChildVal(h, w, g).Some? {
        WalkFrame(h, h2, ChildVal(h, w, g).value, s);
      }
    } else {
      OnlyParent(h, v, p, q, w.ref);
      WalkAvoids(h, h2, v, q, w.ref);
      ParentPrefix(p, q);
    }
  }

  lemma WalkCons(h: Heap, v: Val, e: Elem, s: seq<Elem>)
    ensures Walk(h, v, [e] + s) == match ChildVal(h, v, e) case None => None case Some(c) => Walk(h, c, s)
  {
    hide ChildVal;
    assert ([e] + s)[1..] == s;
  }

  /** Only the place l leads to its container. */
  lemma OnlyParent(h: Heap, v: Val, p: seq<Elem>, q: seq<Elem>, r: Ref)
    requires p != [] && Once(h, v, Parent(p)) && Walk(h, v, Parent(p)) == Some(Box(r))
    ensures OnWay(h, v, q, r) ==> Parent(p) < q
  {
    hide Walk;
    if OnWay(h, v, q, r) {
      var i :| 0 <= i < |q| && Walk(h, v, q[..i]) == Some(Box(r));
      assert q[..i] == Parent(p);
    }
  }

  lemma RemoveBelowParent(h: Heap, h2: Heap, v: Val, l: seq<Elem>, w: Val, g: Elem)
    requires Once(h, v, l) && Walk(h, v, l) == Some(w) && w.Box?
    requires forall r :: r != w.ref ==> Look(h2, r) == Look(h, r)
    ensures ChildVal(h, w, g).Some? ==> SameBelow(h, h2, ChildVal(h, w, g).value)
  {
    hide ChildVal, Walk;
    if ChildVal(h, w, g).Some? {
      if Reaches(h, ChildVal(h, w, g).value, w.ref) {
        var s :| Walk(h, ChildVal(h, w, g).value, s) == Some(Box(w.ref));
        WalkCons(h, w, g, s);
        WalkConcat(h, v, l, [g] + s);
        NotOnce(h, v, l, l + ([g] + s), w.ref);
      }
      ChildSame(h, h2, w, g);
    }
  }

  /** A container that occurred once occurs once after a removal, wherever it has moved. */
  lemma RemoveKeepsOnce(h: Heap, v: Val, p: seq<Elem>, u: seq<Elem>)
    requires p != [] && Sane(h) && Once(h, v, Parent(p)) && RemoveFrom(h, v, p).Ok? && Walk(h, v, Parent(p)).Some?
    requires Once(h, v, Before(p, u))
    ensures Once(RemoveFrom(h, v, p).value, v, u)
  {
    hide RemoveFrom, Walk, Sane, Before;
    var h2 := RemoveFrom(h, v, p).value;
    forall q | Walk(h2, v, u).Some? && Walk(h2, v, u).value.Box? && Walk(h2, v, q) == Walk(h2, v, u)
      ensures q == u
    {
      RemoveWalk(h, v, p, u);
      RemoveWalk(h, v, p, q);
      assert Before(p, q) == Before(p, u);
      BeforeInjective(p, q, u);
    }
  }
}
