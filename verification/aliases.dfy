/** REMOVE when containers are stored in several places (update.go applyRemove): what is taken out of a
    container is gone wherever the container is. */
module SharedRemovals {
  import opened Wrappers
  import opened Values
  import opened Paths
  import opened Updates
  import opened Places
  import opened Pruning
  import opened RemoveOrder
  import opened References
  import opened Reading
  import opened InPlace
  import opened Dropping
  import opened RightHandSides
  import opened UpdatesByReference
  import opened SharedWrites

  // ---- one removal ----

  /** Removing at u takes e out of the container w. */
  ghost predicate Drops(h: Heap, v: Val, w: Ref, e: Elem, u: seq<Elem>) {
    u != [] && Last(u) == e && Walk(h, v, Parent(u)) == Some(Box(w))
  }

  ghost predicate AllDrops(h: Heap, v: Val, w: Ref, e: Elem, drop: set<seq<Elem>>) {
    forall u :: u in drop <==> Drops(h, v, w, e, u)
  }

  lemma OneStep(f: Elem, u: seq<Elem>)
    ensures Last([f]) == f && Parent([f]) == []
    ensures u != [] ==> Last([f] + u) == Last(u) && Parent([f] + u) == [f] + Parent(u)
  {
  }

  lemma DropsOfChild(h: Heap, v: Val, w: Ref, e: Elem, drop: set<seq<Elem>>, f: Elem)
    requires AllDrops(h, v, w, e, drop) && v != Box(w) && ChildVal(h, v, f).Some?
    ensures [f] !in drop && AllDrops(h, ChildVal(h, v, f).value, w, e, Below(drop, f))
  {
    hide ChildVal, Walk, Below, Last, Parent;
    OneStep(f, []);
    WalkHere(h, v);
    forall u
      ensures u in Below(drop, f) <==> Drops(h, ChildVal(h, v, f).value, w, e, u)
    {
      InBelow(drop, f, u);
      OneStep(f, u);
      if u == [] {
        assert [f] + u == [f];
      } else {
        WalkCons(h, v, f, Parent(u));
      }
    }
  }

  /** The container itself: it is not below itself, so only e goes. */
  lemma DroppedHere(h: Heap, x: AV, w: Ref, e: Elem, drop: set<seq<Elem>>)
    requires Denotes(h, Box(w), x) && DropChild(h, Box(w), e).Ok? && AllDrops(h, Box(w), w, e, drop)
    ensures Denotes(DropChild(h, Box(w), e).value, Box(w), Prune(x, drop))
  {
    hide Denotes, DropChild, Prune, Walk, RemoveIn, WithRemoval;
    forall q | Walk(h, Box(w), q) == Some(Box(w))
      ensures q == []
    {
      if q != [] {
        NotInside(h, Box(w), x, q);
      }
    }
    WalkHere(h, Box(w));
    DropDenotes(h, Box(w), e, x);
    OnePruned(x, e, {});
    PruneNothing(RemoveIn(x, [e]).value);
    forall u
      ensures u in drop <==> u == [e]
    {
      assert u != [] ==> u == Parent(u) + [Last(u)];
      OneStep(e, []);
    }
    OnlyRemoval([e]);
    assert drop == WithRemoval([e], {});
  }

  lemma OnlyRemoval(p: seq<Elem>)
    requires p != []
    ensures WithRemoval(p, {}) == {p}
  {
  }

  lemma {:induction false} ListKept(v: AV, drop: set<seq<Elem>>, n: nat)
    requires v.L? && n <= |v.elems| && forall i :: 0 <= i < n ==> [Index(i)] !in drop
    ensures |PruneList(v, drop, n)| == n
    ensures forall i :: 0 <= i < n ==> PruneList(v, drop, n)[i] == Prune(v.elems[i], Below(drop, Index(i)))
  {
    hide Prune, Below;
    if n > 0 {
      ListKept(v, drop, n - 1);
    }
  }

  lemma PrunedElems(x: AV, drop: set<seq<Elem>>)
    requires x.L? && forall f :: Child(x, f).Some? ==> [f] !in drop
    ensures Prune(x, drop).L? && |Prune(x, drop).elems| == |x.elems|
    ensures forall f :: Child(x, f).Some? ==>
              Child(Prune(x, drop), f) == Some(Prune(Child(x, f).value, Below(drop, f)))
  {
    PruneOfList(x, drop);
    hide Below, Prune;
    forall i | 0 <= i < |x.elems|
      ensures [Index(i)] !in drop
    {
      assert Child(x, Index(i)).Some?;
    }
    ListKept(x, drop, |x.elems|);
  }

  lemma PrunedAttrs(x: AV, drop: set<seq<Elem>>)
    requires x.M? && forall f :: Child(x, f).Some? ==> [f] !in drop
    ensures Prune(x, drop).M? && Prune(x, drop).attrs.Keys == x.attrs.Keys
    ensures forall f :: Child(x, f).Some? ==>
              Child(Prune(x, drop), f) == Some(Prune(Child(x, f).value, Below(drop, f)))
  {
    hide Below;
    forall k | k in x.attrs
      ensures [Name(k)] !in drop
    {
      assert Child(x, Name(k)).Some?;
    }
  }

  /** Pruning further down only. */
  lemma PrunedKids(x: AV, drop: set<seq<Elem>>)
    requires forall f :: Child(x, f).Some? ==> [f] !in drop
    ensures if x.L? then Prune(x, drop).L? && |Prune(x, drop).elems| == |x.elems|
            else if x.M? then Prune(x, drop).M? && Prune(x, drop).attrs.Keys == x.attrs.Keys
            else Prune(x, drop) == x
    ensures forall f :: Child(x, f).Some? ==>
              Child(Prune(x, drop), f) == Some(Prune(Child(x, f).value, Below(drop, f)))
  {
    hide Below, Prune;
    match x {
      case L(_) => PrunedElems(x, drop);
      case M(_) => PrunedAttrs(x, drop);
      case _ => PrunedScalar(x, drop);
    }
  }

  lemma PrunedScalar(x: AV, drop: set<seq<Elem>>)
    requires IsScalar(x)
    ensures Prune(x, drop) == x
  {
  }

  lemma KeptAlike(h: Heap, h2: Heap, v: Val, x: AV, y: AV)
    requires Denotes(h, v, x) && v.Box? ==> Look(h2, v.ref) == Look(h, v.ref)
    requires Denotes(h, v, x)
    requires if x.L? then y.L? && |y.elems| == |x.elems|
             else if x.M? then y.M? && y.attrs.Keys == x.attrs.Keys else y == x
    ensures Alike(h2, v, y)
  {
    AlikeDenoted(h, v, x);
  }

  /** A child dropped from one container is gone from the document at every place of the container. */
  lemma {:induction false} DroppedEverywhere(h: Heap, v: Val, x: AV, w: Ref, e: Elem, drop: set<seq<Elem>>)
    requires Denotes(h, v, x) && DropChild(h, Box(w), e).Ok? && AllDrops(h, v, w, e, drop)
    ensures Denotes(DropChild(h, Box(w), e).value, v, Prune(x, drop))
    decreases x
  {
    hide Denotes, DropChild, Prune, AllDrops, ChildVal, Child, Below, Alike, WithoutPart;
    var h2 := DropChild(h, Box(w), e).value;
    if v == Box(w) {
      DroppedHere(h, x, w, e, drop);
    } else {
      DropEffect(h, Box(w), e);
      forall f | Child(x, f).Some?
        ensures [f] !in drop && ChildVal(h2, v, f) == ChildVal(h, v, f)
      {
        Kids(h, v, x, f);
        DropsOfChild(h, v, w, e, drop, f);
        OtherChild(h, h2, v, f, w);
      }
      PrunedKids(x, drop);
      var y := Prune(x, drop);
      KeptAlike(h, h2, v, x, y);
      forall f | ChildVal(h2, v, f).Some? && Child(y, f).Some?
        ensures Denotes(h2, ChildVal(h2, v, f).value, Child(y, f).value)
      {
        OtherChild(h, h2, v, f, w);
        Kids(h, v, x, f);
        DropsOfChild(h, v, w, e, drop, f);
        ChildIsSmaller(x, f);
        DroppedEverywhere(h, ChildVal(h, v, f).value, Child(x, f).value, w, e, Below(drop, f));
      }
      ByKids(h2, v, y);
    }
  }

  lemma OtherChild(h: Heap, h2: Heap, v: Val, f: Elem, w: Ref)
    requires v != Box(w) && forall r :: r != w ==> Look(h2, r) == Look(h, r)
    ensures ChildVal(h2, v, f) == ChildVal(h, v, f)
  {
  }

  lemma ChildIsSmaller(x: AV, f: Elem)
    requires Child(x, f).Some?
    ensures Child(x, f).value < x
  {
  }

  // ---- one place after another ----

  /** Removals of one step at places none of which lies below another. */
  predicate Scattered(o: seq<Path>) {
    forall i, j :: 0 <= i < |o| && 0 <= j < |o| && i != j ==> !(Parent(o[i]) <= Parent(o[j]))
  }

  predicate CanRemove(x: AV, p: seq<Elem>)
    requires p != []
  {
    Get(x, Parent(p)).Some? && WithoutChild(Get(x, Parent(p)).value, Last(p)).Ok?
  }

  lemma RemovableSucceeds(x: AV, p: seq<Elem>)
    requires p != [] && Get(x, Parent(p)).Some?
    ensures RemoveIn(x, p).Ok? <==> CanRemove(x, p)
  {
    hide Get, Put, RemoveIn, WithoutChild;
    RemoveInParent(x, p);
    var c := Get(x, Parent(p)).value;
    PutOfGet(x, Parent(p));
    if WithoutChild(c, Last(p)).Ok? {
      PutFails(x, Parent(p), c, WithoutChild(c, Last(p)).value);
    }
  }

  lemma PrefixOfParent(a: seq<Elem>, t: seq<Elem>)
    requires a != []
    ensures a <= t ==> Parent(a) <= t
    ensures t <= a ==> t == a || t <= Parent(a)
    ensures t == a ==> Parent(a) <= t
  {
  }

  lemma StaysRemovable(x: AV, a: seq<Elem>, b: seq<Elem>)
    requires a != [] && b != [] && CanRemove(x, b) && RemoveIn(x, a).Ok?
    requires !(Parent(a) <= Parent(b)) && !(Parent(b) <= Parent(a))
    ensures CanRemove(RemoveIn(x, a).value, b)
  {
    hide Get, RemoveIn, WithoutChild, Overlap;
    PrefixOfParent(a, Parent(b));
    OverlapIff(a, Parent(b));
    RemovalFrame(x, a, Parent(b));
  }

  lemma {:induction false} ScatteredSucceed(x: AV, o: seq<Path>)
    requires Scattered(o) && forall i :: 0 <= i < |o| ==> CanRemove(x, o[i])
    ensures RemoveAll(x, o).Ok?
    decreases |o|
  {
    hide CanRemove, RemoveIn;
    if o != [] {
      var rest := o[1..];
      assert forall i :: 0 <= i < |rest| ==> rest[i] == o[i + 1];
      assert CanRemove(x, o[0]);
      RemovableIsThere(x, o[0]);
      RemovableSucceeds(x, o[0]);
      forall i | 0 <= i < |rest|
        ensures CanRemove(RemoveIn(x, o[0]).value, rest[i])
      {
        StaysRemovable(x, o[0], rest[i]);
      }
      ScatteredSucceed(RemoveIn(x, o[0]).value, rest);
    }
  }

  lemma RemovableIsThere(x: AV, p: seq<Elem>)
    requires p != [] && CanRemove(x, p)
    ensures Get(x, Parent(p)).Some?
  {
  }

  /** They take out what they name. */
  lemma ScatteredPrune(x: AV, o: seq<Path>)
    requires Scattered(o) && forall i :: 0 <= i < |o| ==> CanRemove(x, o[i])
    ensures RemoveAll(x, o) == Ok(Prune(x, PlacesOf(PathsAsPlaces(o))))
  {
    hide CanRemove, Prune, RemoveAll, Executed;
    ScatteredSucceed(x, o);
    forall i, j | 0 <= i < j < |o|
      ensures !Moves(o[i], o[j])
    {
      PrefixOfParent(o[j], Parent(o[i]));
    }
    UnmovedExecuted(o);
    RemovalsPrune(x, o);
  }

  lemma {:induction false} RemoveAllConcat(x: AV, a: seq<Path>, b: seq<Path>)
    ensures RemoveAll(x, a + b) == match RemoveAll(x, a) case Err => Err case Ok(y) => RemoveAll(y, b)
    decreases |a|
  {
    hide RemoveIn;
    if a == [] {
      assert a + b == b;
    } else {
      assert (a + b)[0] == a[0] && (a + b)[1..] == a[1..] + b;
      if RemoveIn(x, a[0]).Ok? {
        RemoveAllConcat(RemoveIn(x, a[0]).value, a[1..], b);
      }
    }
  }

  // ---- where a container is ----

  /** The places of a document. */
  ghost function PlacesIn(v: AV): set<seq<Elem>>
    decreases v
  {
    {[]} +
    match v
    case L(es) => set i, q | 0 <= i < |es| && q in PlacesIn(es[i]) :: [Index(i)] + q
    case M(m) => set k, q | k in m && q in PlacesIn(m[k]) :: [Name(k)] + q
    case _ => {}
  }

  lemma {:induction false} InPlacesIn(v: AV, p: seq<Elem>)
    requires Get(v, p).Some?
    ensures p in PlacesIn(v)
    decreases |p|
  {
    if p != [] {
      InPlacesIn(Child(v, p[0]).value, p[1..]);
      assert p == [p[0]] + p[1..];
    }
  }

  ghost function Listed(s: set<Path>): (r: seq<Path>)
    ensures |r| == |s| && forall p :: p in r <==> p in s
    ensures forall i, j :: 0 <= i < j < |r| ==> r[i] != r[j]
  {
    if s == {} then []
    else
      var p :| p in s;
      [p] + Listed(s - {p})
  }

  function Step(t: seq<Elem>, e: Elem): Path
    requires t != [] && t[0].Name?
  {
    t + [e]
  }

  /** The same container is at both places. */
  predicate Shared(h: Heap, t: seq<Elem>, u: seq<Elem>) {
    Walk(h, Box(ROOT), t).Some? && Walk(h, Box(ROOT), t).value.Box? && Walk(h, Box(ROOT), u) == Walk(h, Box(ROOT), t)
  }

  /** Where else the container is from which a removal at p takes something. */
  ghost function OtherPlaces(h: Heap, d: Item, p: Path): set<Path> {
    set t: seq<Elem> | t in PlacesIn(M(d)) && t != [] && t[0].Name? && t != Parent(p) && Shared(h, Parent(p), t) ::
      Step(t, Last(p))
  }

  /** The places at which a removal at p shows: p, and the same step wherever else its container is. */
  ghost function Spots(h: Heap, d: Item, p: Path): seq<Path> {
    [p] + Listed(OtherPlaces(h, d, p))
  }

  /** The places at which the removals show, one removal after the other. */
  ghost function Expanded(h: Heap, o: seq<Path>): seq<Path>
    decreases |o|
  {
    if o == [] then []
    else
      match (ReadItem(h), RemoveFrom(h, Box(ROOT), o[0]))
      case (Updated(d), Ok(h2)) => Spots(h, d, o[0]) + Expanded(h2, o[1..])
      case _ => o
  }

  // ---- what a run of removals takes out ----

  lemma PlaceOfItem(d: Item, t: seq<Elem>)
    requires Get(M(d), t).Some?
    ensures t != [] ==> t[0].Name?
  {
  }

  /** The listed places are those at which the removal shows. */
  lemma SpotsAre(h: Heap, d: Item, p: Path, w: Ref, u: seq<Elem>)
    requires Denotes(h, Box(ROOT), M(d)) && Walk(h, Box(ROOT), Parent(p)) == Some(Box(w))
    ensures u in PathsAsPlaces(Spots(h, d, p)) <==> Drops(h, Box(ROOT), w, Last(p), u)
  {
    hide Walk, Denotes, PlacesIn, Get, PathsAsPlaces;
    SpotsMembers(h, d, p, u);
    if Drops(h, Box(ROOT), w, Last(p), u) {
      var t := Parent(u);
      assert u == t + [Last(u)];
      WalkDenotes(h, Box(ROOT), M(d), t);
      InPlacesIn(M(d), t);
      PlaceOfItem(d, t);
      if t == [] {
        WalkHere(h, Box(ROOT));
        OnlyRoot(h, d, Parent(p));
        assert p == Parent(p) + [Last(p)];
      } else if t == Parent(p) {
        assert p == Parent(p) + [Last(p)];
      } else {
        assert Step(t, Last(p)) in OtherPlaces(h, d, p);
      }
    }
  }

  lemma OnlyRoot(h: Heap, d: Item, t: seq<Elem>)
    requires Denotes(h, Box(ROOT), M(d)) && Walk(h, Box(ROOT), t) == Some(Box(ROOT))
    ensures t == []
  {
    if t != [] {
      NotInside(h, Box(ROOT), M(d), t);
    }
  }

  lemma SpotsMembers(h: Heap, d: Item, p: Path, u: seq<Elem>)
    ensures u in PathsAsPlaces(Spots(h, d, p)) <==>
            u == p || exists t: seq<Elem> :: t in PlacesIn(M(d)) && t != [] && t[0].Name? && t != Parent(p) &&
                                             Shared(h, Parent(p), t) && u == Step(t, Last(p))
  {
    hide Walk, PlacesIn, Shared;
    var s := Spots(h, d, p);
    var r := PathsAsPlaces(s);
    if u in r {
      var i :| 0 <= i < |r| && r[i] == u;
      assert s[i] in s && (i == 0 || s[i] in OtherPlaces(h, d, p));
    }
    if u == p {
      assert r[0] == p;
    }
    if t: seq<Elem> :| t in PlacesIn(M(d)) && t != [] && t[0].Name? && t != Parent(p) &&
                       Shared(h, Parent(p), t) && u == Step(t, Last(p)) {
      assert Step(t, Last(p)) in Listed(OtherPlaces(h, d, p));
      assert Step(t, Last(p)) in s;
      var i :| 0 <= i < |s| && s[i] == Step(t, Last(p));
      assert r[i] == u;
    }
  }

  lemma SpotsDiffer(h: Heap, d: Item, p: Path)
    ensures forall i, j :: 0 <= i < j < |Spots(h, d, p)| ==> Spots(h, d, p)[i] != Spots(h, d, p)[j]
  {
    hide Walk, PlacesIn, Shared;
    var r := Listed(OtherPlaces(h, d, p));
    assert p !in r;
  }

  /** No place of a container lies below another one. */
  lemma SpotsScattered(h: Heap, d: Item, p: Path, w: Ref)
    requires Denotes(h, Box(ROOT), M(d)) && Walk(h, Box(ROOT), Parent(p)) == Some(Box(w))
    ensures Scattered(Spots(h, d, p))
    ensures forall u :: u in Spots(h, d, p) ==> Drops(h, Box(ROOT), w, Last(p), u)
  {
    hide Walk, Denotes, Spots;
    var s := Spots(h, d, p);
    SpotsDiffer(h, d, p);
    forall u | u in s
      ensures Drops(h, Box(ROOT), w, Last(p), u)
    {
      SpotsAre(h, d, p, w, u);
      var i :| 0 <= i < |s| && s[i] == u;
      assert PathsAsPlaces(s)[i] == u;
    }
    forall i, j | 0 <= i < |s| && 0 <= j < |s| && i != j
      ensures !(Parent(s[i]) <= Parent(s[j]))
    {
      if Parent(s[i]) <= Parent(s[j]) {
        assert s[i] in s && s[j] in s;
        assert s[i] == Parent(s[i]) + [Last(s[i])] && s[j] == Parent(s[j]) + [Last(s[j])];
        BelowItself(h, d, Parent(s[i]), Parent(s[j]), w);
        assert false;
      }
    }
  }

  lemma BelowItself(h: Heap, d: Item, t: seq<Elem>, u: seq<Elem>, w: Ref)
    requires Denotes(h, Box(ROOT), M(d)) && t <= u
    requires Walk(h, Box(ROOT), t) == Walk(h, Box(ROOT), u) == Some(Box(w))
    ensures t == u
  {
    hide Walk, Denotes;
    if t != u {
      assert u == t + u[|t|..];
      WalkConcat(h, Box(ROOT), t, u[|t|..]);
      WalkDenotes(h, Box(ROOT), M(d), t);
      NotInside(h, Box(w), Get(M(d), t).value, u[|t|..]);
    }
  }

  /** Every listed place has what the removal takes out. */
  lemma SpotsRemovable(h: Heap, d: Item, p: Path, w: Ref)
    requires Denotes(h, Box(ROOT), M(d)) && Walk(h, Box(ROOT), Parent(p)) == Some(Box(w))
    requires DropChild(h, Box(w), Last(p)).Ok?
    ensures forall u :: u in Spots(h, d, p) ==> CanRemove(M(d), u)
  {
    hide Walk, Denotes, Spots, Scattered, DropChild, WithoutChild;
    SpotsScattered(h, d, p, w);
    forall u | u in Spots(h, d, p)
      ensures CanRemove(M(d), u)
    {
      PlaceRemovable(h, d, u, w);
    }
  }

  lemma PlaceRemovable(h: Heap, d: Item, u: seq<Elem>, w: Ref)
    requires Denotes(h, Box(ROOT), M(d)) && u != [] && Walk(h, Box(ROOT), Parent(u)) == Some(Box(w))
    ensures Get(M(d), Parent(u)).Some? && (DropChild(h, Box(w), Last(u)).Ok? <==> CanRemove(M(d), u))
  {
    hide Walk, Denotes, DropChild, WithoutChild;
    WalkDenotes(h, Box(ROOT), M(d), Parent(u));
    var c := Get(M(d), Parent(u)).value;
    AlikeDenoted(h, Box(w), c);
    DropSucceeds(h, Box(w), Last(u), c);
    RemoveInOne(c, [Last(u)]);
  }

  /** One removal in place is the removals at all places where its container is. */
  lemma OneRemoval(h: Heap, d: Item, p: Path)
    requires Denotes(h, Box(ROOT), M(d))
    ensures match RemoveFrom(h, Box(ROOT), p)
            case Err => RemoveIn(M(d), p).Err?
            case Ok(h2) =>
              RemoveAll(M(d), Spots(h, d, p)).Ok? && RemoveAll(M(d), Spots(h, d, p)).value.M? &&
              Denotes(h2, Box(ROOT), RemoveAll(M(d), Spots(h, d, p)).value)
  {
    hide Walk, Denotes, Spots, Scattered, DropChild, Prune, RemoveAll, CanRemove, RemoveIn, Drops, Get;
    WalkDenotes(h, Box(ROOT), M(d), Parent(p));
    match Walk(h, Box(ROOT), Parent(p)) {
      case None =>
        RemoveAbsent(M(d), p);
        NoOtherPlaces(h, d, p);
        OneOfOne(M(d), p);
      case Some(Atom(av)) =>
        ScalarDenotes(h, Atom(av), Get(M(d), Parent(p)).value);
        NothingToRemove(M(d), p);
        ScalarDrops(h, av, Last(p));
      case Some(Box(w)) =>
        PlaceRemovable(h, d, p, w);
        RemovableSucceeds(M(d), p);
        if DropChild(h, Box(w), Last(p)).Ok? {
          var s := Spots(h, d, p);
          var drop := PlacesOf(PathsAsPlaces(s));
          SpotsScattered(h, d, p, w);
          SpotsRemovable(h, d, p, w);
          ScatteredPrune(M(d), s);
          forall u
            ensures u in drop <==> Drops(h, Box(ROOT), w, Last(p), u)
          {
            InPlaces(PathsAsPlaces(s), u);
            SpotsAre(h, d, p, w, u);
          }
          DroppedEverywhere(h, Box(ROOT), M(d), w, Last(p), drop);
          PrunedMap(d, drop);
        }
    }
  }

  lemma PrunedMap(d: Item, drop: set<seq<Elem>>)
    ensures Prune(M(d), drop).M?
  {
  }

  lemma NoOtherPlaces(h: Heap, d: Item, p: Path)
    requires Walk(h, Box(ROOT), Parent(p)).None?
    ensures Spots(h, d, p) == [p]
  {
    hide Walk, PlacesIn;
    assert OtherPlaces(h, d, p) == {};
  }

  lemma OneOfOne(x: AV, p: Path)
    ensures RemoveAll(x, [p]) == RemoveIn(x, p)
  {
    hide RemoveIn;
    assert [p][1..] == [];
    var y := RemoveIn(x, p);
    assert y.Ok? ==> RemoveAll(y.value, []) == y;
  }

  lemma ScalarDrops(h: Heap, av: Scalar, e: Elem)
    ensures DropChild(h, Atom(av), e).Err?
  {
  }

  lemma NothingToRemove(x: AV, p: seq<Elem>)
    requires p != [] && Get(x, Parent(p)).Some? && IsScalar(Get(x, Parent(p)).value)
    ensures RemoveIn(x, p).Err?
  {
    hide Get, RemoveIn;
    RemovableSucceeds(x, p);
  }

  /** Removals in place are removals at all places at which they show. */
  lemma {:induction false} RunOfSpots(h: Heap, d: Item, s: seq<Action>)
    requires Denotes(h, Box(ROOT), M(d)) && forall i :: 0 <= i < |s| ==> s[i].Remove?
    ensures match RemoveAll(M(d), Expanded(h, PathsOf(s)))
            case Err => RunRefs(h, s).Err?
            case Ok(x) => RunRefs(h, s).Ok? && x.M? && Denotes(RunRefs(h, s).value, Box(ROOT), x)
    decreases |s|
  {
    hide Denotes, Spots, RemoveFrom, RemoveIn, ReadItem, PathsOf;
    if s != [] {
      var o := PathsOf(s);
      PathsOfRest(s);
      DenotedReads(h, d);
      OneRemoval(h, d, s[0].path);
      match RemoveFrom(h, Box(ROOT), s[0].path) {
        case Err => FailsFirst(M(d), o);
        case Ok(h2) =>
          var spots := Spots(h, d, s[0].path);
          var y := RemoveAll(M(d), spots).value;
          assert Expanded(h, o) == spots + Expanded(h2, o[1..]);
          RemoveAllConcat(M(d), spots, Expanded(h2, o[1..]));
          hide RemoveAll, Expanded;
          RunOfSpots(h2, y.attrs, s[1..]);
      }
    }
  }

  lemma FailsFirst(x: AV, o: seq<Path>)
    requires o != [] && RemoveIn(x, o[0]).Err?
    ensures RemoveAll(x, o).Err?
  {
  }

  lemma PathsOfRest(s: seq<Action>)
    requires s != []
    ensures PathsOf(s) != [] && PathsOf(s)[0] == s[0].path && PathsOf(s)[1..] == PathsOf(s[1..])
  {
    assert PathsOf(s)[1..] == PathsOf(s[1..]);
  }

  lemma {:induction false} RunConcat(h: Heap, a: seq<Action>, b: seq<Action>)
    ensures RunRefs(h, a + b) == match RunRefs(h, a) case Err => Err case Ok(h2) => RunRefs(h2, b)
    decreases |a|
  {
    hide ApplyRef;
    if a == [] {
      assert a + b == b;
    } else {
      assert (a + b)[0] == a[0] && (a + b)[1..] == a[1..] + b;
      if ApplyRef(h, a[0]).Ok? {
        RunConcat(ApplyRef(h, a[0]).value, a[1..], b);
      }
    }
  }
}
