/** Two documents that differ only in what a few entries of their containers hold (update.go): whatever does
    not step through those entries goes alike in both. A container that was stored inside itself can so be
    compared with one that was not. */
module Cuts {
  import opened Wrappers
  import opened Paths
  import opened Updates
  import opened References
  import opened Reading
  import opened InPlace

  /** The entry of a container at e. */
  datatype Entry = Entry(c: Ref, e: Elem)

  /** Both are lists of one length, or maps of the same names. */
  predicate SameCells(a: Option<Cell>, b: Option<Cell>) {
    match (a, b)
    case (None, None) => true
    case (Some(ListCell(x)), Some(ListCell(y))) => |x| == |y|
    case (Some(MapCell(x)), Some(MapCell(y))) => x.Keys == y.Keys
    case _ => false
  }

  /** The container is a list of as many elements, or a map of the same names. */
  predicate SameShape(h: Heap, g: Heap, c: Ref) {
    SameCells(Look(h, c), Look(g, c))
  }

  /** The same containers, with the same entries except for the cut ones. */
  ghost predicate Similar(h: Heap, g: Heap, cut: set<Entry>) {
    && h.item == g.item && h.values == g.values && h.made == g.made
    && (forall c :: SameShape(h, g, c))
    && (forall c, e :: Entry(c, e) !in cut ==> ChildVal(h, Box(c), e) == ChildVal(g, Box(c), e))
  }

  /** The walk from v along q does not step through a cut entry. */
  ghost predicate Clear(g: Heap, v: Val, q: seq<Elem>, cut: set<Entry>) {
    forall i, c :: 0 <= i < |q| && Walk(g, v, q[..i]) == Some(Box(c)) ==> Entry(c, q[i]) !in cut
  }

  /** The cut entries are those of containers that are there. */
  ghost predicate Entries(g: Heap, cut: set<Entry>) {
    forall n :: n in cut ==> Look(g, n.c).Some?
  }

  lemma ClearHere(g: Heap, v: Val, q: seq<Elem>, cut: set<Entry>)
    requires q != [] && Clear(g, v, q, cut)
    ensures v.Box? ==> Entry(v.ref, q[0]) !in cut
    ensures ChildVal(g, v, q[0]).Some? ==> Clear(g, ChildVal(g, v, q[0]).value, q[1..], cut)
  {
    hide ChildVal, Walk;
    WalkHere(g, v);
    assert q[..0] == [];
    if ChildVal(g, v, q[0]).Some? {
      var w := ChildVal(g, v, q[0]).value;
      forall i, c | 0 <= i < |q| - 1 && Walk(g, w, q[1..][..i]) == Some(Box(c))
        ensures Entry(c, q[1..][i]) !in cut
      {
        assert [q[0]] + q[1..][..i] == q[..i + 1] && q[1..][i] == q[i + 1];
        WalkBehind(g, v, q[0], q[1..][..i]);
      }
    }
  }

  lemma WalkBehind(h: Heap, v: Val, e: Elem, s: seq<Elem>)
    ensures Walk(h, v, [e] + s) == match ChildVal(h, v, e) case None => None case Some(c) => Walk(h, c, s)
  {
    hide ChildVal;
    assert ([e] + s)[1..] == s;
  }

  lemma SimilarChild(h: Heap, g: Heap, cut: set<Entry>, v: Val, e: Elem)
    requires Similar(h, g, cut) && (v.Box? ==> Entry(v.ref, e) !in cut)
    ensures ChildVal(h, v, e) == ChildVal(g, v, e)
  {
    assert v.Box? ==> v == Box(v.ref);
  }

  lemma {:induction false} SimilarWalk(h: Heap, g: Heap, cut: set<Entry>, v: Val, q: seq<Elem>)
    requires Similar(h, g, cut) && Clear(g, v, q, cut)
    ensures Walk(h, v, q) == Walk(g, v, q)
    decreases |q|
  {
    hide ChildVal, Similar, Clear;
    if q != [] {
      ClearHere(g, v, q, cut);
      SimilarChild(h, g, cut, v, q[0]);
      if ChildVal(g, v, q[0]).Some? {
        SimilarWalk(h, g, cut, ChildVal(g, v, q[0]).value, q[1..]);
      }
    }
  }

  // ---- writing ----

  /** The cut after y was put at e of v in one, and z in the other. */
  function Recut(cut: set<Entry>, v: Val, e: Elem, y: Val, z: Val): set<Entry> {
    if v.Atom? || y == z then cut else cut + {Entry(v.ref, e)}
  }

  lemma CellsAfterSet(a: Cell, b: Cell, e: Elem, y: Val, z: Val)
    requires SameCells(Some(a), Some(b)) && WithPart(a, e, y).Ok? && WithPart(b, e, z).Ok?
    ensures SameCells(Some(WithPart(a, e, y).value), Some(WithPart(b, e, z).value))
  {
  }

  lemma LookAfterSet(h: Heap, v: Val, e: Elem, y: Val, c: Ref)
    requires SetChild(h, v, e, y).Ok?
    ensures v.Box? && Look(h, v.ref).Some? && WithPart(Look(h, v.ref).value, e, y).Ok?
    ensures Look(SetChild(h, v, e, y).value, c) ==
            if c == v.ref then Some(WithPart(Look(h, v.ref).value, e, y).value) else Look(h, c)
  {
    hide WithPart;
  }

  lemma ShapeAfterSet(h: Heap, g: Heap, v: Val, e: Elem, y: Val, z: Val, c: Ref)
    requires SetChild(h, v, e, y).Ok? && SetChild(g, v, e, z).Ok? && SameShape(h, g, c)
    ensures SameShape(SetChild(h, v, e, y).value, SetChild(g, v, e, z).value, c)
  {
    hide SetChild, Look, WithPart;
    LookAfterSet(h, v, e, y, c);
    LookAfterSet(g, v, e, z, c);
    if c == v.ref {
      CellsAfterSet(Look(h, c).value, Look(g, c).value, e, y, z);
    }
  }

  lemma ShapeDecides(h: Heap, g: Heap, v: Val, e: Elem, y: Val, z: Val)
    requires v.Box? ==> SameShape(h, g, v.ref)
    ensures SetChild(h, v, e, y).Ok? <==> SetChild(g, v, e, z).Ok?
  {
  }

  lemma ChildAfterSet(h: Heap, v: Val, e: Elem, y: Val, c: Ref, f: Elem)
    requires SetChild(h, v, e, y).Ok?
    ensures v.Box? && SetChild(h, v, e, y).value.made == h.made
    ensures SetChild(h, v, e, y).value.item == h.item && SetChild(h, v, e, y).value.values == h.values
    ensures ChildVal(SetChild(h, v, e, y).value, Box(c), f) ==
              if c == v.ref && f == e then Some(y) else ChildVal(h, Box(c), f)
  {
    SetChildEffect(h, v, e, y);
    assert v == Box(v.ref);
  }

  lemma SimilarSet(h: Heap, g: Heap, cut: set<Entry>, v: Val, e: Elem, y: Val, z: Val)
    requires Similar(h, g, cut)
    ensures SetChild(h, v, e, y).Ok? <==> SetChild(g, v, e, z).Ok?
    ensures SetChild(g, v, e, z).Ok? ==>
              Similar(SetChild(h, v, e, y).value, SetChild(g, v, e, z).value, Recut(cut, v, e, y, z))
  {
    hide SetChild, ChildVal, SameShape;
    ShapeDecides(h, g, v, e, y, z);
    if SetChild(g, v, e, z).Ok? {
      var h2, g2 := SetChild(h, v, e, y).value, SetChild(g, v, e, z).value;
      forall c
        ensures SameShape(h2, g2, c)
      {
        assert SameShape(h, g, c);
        ShapeAfterSet(h, g, v, e, y, z, c);
      }
      ChildAfterSet(h, v, e, y, ROOT, e);
      ChildAfterSet(g, v, e, z, ROOT, e);
      forall c, f
        ensures ChildVal(h2, Box(c), f) == if c == v.ref && f == e then Some(y) else ChildVal(h, Box(c), f)
        ensures ChildVal(g2, Box(c), f) == if c == v.ref && f == e then Some(z) else ChildVal(g, Box(c), f)
      {
        ChildAfterSet(h, v, e, y, c, f);
        ChildAfterSet(g, v, e, z, c, f);
      }
    }
  }

  lemma MakeLook(h: Heap, x: Cell, c: Ref)
    ensures Look(Make(h, x), c) == if c == Made(h.made) then Some(x) else Look(h, c)
  {
  }

  lemma SimilarMake(h: Heap, g: Heap, cut: set<Entry>, x: Cell)
    requires Similar(h, g, cut)
    ensures Similar(Make(h, x), Make(g, x), cut)
  {
    hide Look;
    var h2, g2 := Make(h, x), Make(g, x);
    forall c
      ensures SameShape(h2, g2, c)
      ensures forall f :: Entry(c, f) !in cut ==> ChildVal(h2, Box(c), f) == ChildVal(g2, Box(c), f)
    {
      assert SameShape(h, g, c);
      MakeLook(h, x, c);
      MakeLook(g, x, c);
      assert forall f :: Entry(c, f) !in cut ==> ChildVal(h, Box(c), f) == ChildVal(g, Box(c), f);
    }
  }

  lemma SimilarCount(h: Heap, g: Heap, cut: set<Entry>)
    requires Similar(h, g, cut)
    ensures h.made == g.made && h.values == g.values && h.item == g.item
  {
  }

  lemma SimilarEnter(h: Heap, g: Heap, cut: set<Entry>, v: Val, e: Elem)
    requires Similar(h, g, cut) && (v.Box? ==> Entry(v.ref, e) !in cut)
    ensures Enter(h, v, e).Ok? <==> Enter(g, v, e).Ok?
    ensures Enter(g, v, e).Ok? ==>
              Enter(h, v, e).value.0 == Enter(g, v, e).value.0 &&
              Similar(Enter(h, v, e).value.1, Enter(g, v, e).value.1, cut)
  {
    hide Similar, ChildVal, SetChild;
    SimilarChild(h, g, cut, v, e);
    SimilarCount(h, g, cut);
    SimilarMake(h, g, cut, MapCell(map[]));
    SimilarSet(Make(h, MapCell(map[])), Make(g, MapCell(map[])), cut, v, e, Box(Made(h.made)), Box(Made(h.made)));
  }

  /** The container in which setPath puts what it stores. */
  function Bottom(g: Heap, v: Val, q: seq<Elem>): Val
    requires q != []
    decreases |q|
  {
    if |q| == 1 then v
    else
      match Enter(g, v, q[0])
      case Err => v
      case Ok(next) => Bottom(next.1, next.0, q[1..])
  }

  /** After entering, the rest of the way is clear too. */
  lemma ClearInside(g: Heap, v: Val, q: seq<Elem>, cut: set<Entry>)
    requires |q| > 1 && Clear(g, v, q, cut) && Entries(g, cut) && Sane(g) && Linked(g, v) && Enter(g, v, q[0]).Ok?
    ensures var c, g1 := Enter(g, v, q[0]).value.0, Enter(g, v, q[0]).value.1;
            Clear(g1, c, q[1..], cut) && Entries(g1, cut) && Sane(g1) && Linked(g1, c)
  {
    hide ChildVal, Walk, Enter, Sane;
    ClearHere(g, v, q, cut);
    if ChildVal(g, v, q[0]).Some? {
      EnterOld(g, v, q[0]);
      SaneKid(g, v, q[0]);
    } else {
      EnterNew(g, v, q[0]);
      NewIsUnlinked(g, v);
      var c, g1 := Enter(g, v, q[0]).value.0, Enter(g, v, q[0]).value.1;
      forall i, r | 0 <= i < |q| - 1 && Walk(g1, c, q[1..][..i]) == Some(Box(r))
        ensures Entry(r, q[1..][i]) !in cut
      {
        EmptyWalk(g1, c, q[1..][..i]);
      }
      forall n | n in cut
        ensures Look(g1, n.c).Some?
      {
        assert Linked(g, Box(n.c));
      }
    }
  }

  lemma BottomStep(g: Heap, v: Val, q: seq<Elem>)
    requires |q| > 1 && Enter(g, v, q[0]).Ok?
    ensures Bottom(g, v, q) == Bottom(Enter(g, v, q[0]).value.1, Enter(g, v, q[0]).value.0, q[1..])
    ensures Last(q) == Last(q[1..]) && Parent(q) == [q[0]] + Parent(q[1..])
  {
    hide Enter;
  }

  /** A write to a clear path goes alike, and leaves the two alike but for what it stores. */
  lemma {:induction false} SimilarPut(h: Heap, g: Heap, cut: set<Entry>, v: Val, q: seq<Elem>, y: Val, z: Val)
    requires q != [] && Similar(h, g, cut) && Clear(g, v, q, cut) && Entries(g, cut) && Sane(g) && Linked(g, v)
    ensures PutIn(h, v, q, y).Ok? <==> PutIn(g, v, q, z).Ok?
    ensures Bottom(h, v, q) == Bottom(g, v, q)
    ensures PutIn(g, v, q, z).Ok? ==>
              Similar(PutIn(h, v, q, y).value, PutIn(g, v, q, z).value, Recut(cut, Bottom(g, v, q), Last(q), y, z))
    decreases |q|
  {
    hide ChildVal, Walk, Enter, Sane, SetChild, Similar, Clear, Entries, Linked, Recut;
    if |q| == 1 {
      SimilarSet(h, g, cut, v, q[0], y, z);
    } else {
      ClearHere(g, v, q, cut);
      SimilarEnter(h, g, cut, v, q[0]);
      if Enter(g, v, q[0]).Ok? {
        ClearInside(g, v, q, cut);
        BottomStep(g, v, q);
        BottomStep(h, v, q);
        SimilarPut(Enter(h, v, q[0]).value.1, Enter(g, v, q[0]).value.1, cut, Enter(g, v, q[0]).value.0, q[1..], y, z);
      }
    }
  }

  /** The bottom is where the way leads afterwards. */
  lemma {:induction false} BottomIsThere(g: Heap, v: Val, q: seq<Elem>, y: Val)
    requires q != [] && Sane(g) && Linked(g, v) && Linked(g, y) && Alone(g, v, q) && PutIn(g, v, q, y).Ok?
    ensures Bottom(g, v, q).Box? && Walk(PutIn(g, v, q, y).value, v, Parent(q)) == Some(Bottom(g, v, q))
    ensures ChildVal(PutIn(g, v, q, y).value, Bottom(g, v, q), Last(q)) == Some(y)
    decreases |q|
  {
    hide ChildVal, Walk, Enter, Sane, SetChild, Linked, Alone, SameBelow, Relinked;
    var g2 := PutIn(g, v, q, y).value;
    if |q| == 1 {
      SetChildEffect(g, v, q[0], y);
      SetsBox(g, v, q[0], y);
      WalkHere(g2, v);
    } else {
      PutStep(g, v, q, y);
      var c, g1 := Enter(g, v, q[0]).value.0, Enter(g, v, q[0]).value.1;
      BottomStep(g, v, q);
      BottomIsThere(g1, c, q[1..], y);
      RelinkedKids(g, g2, v, q[0], c);
      WalkBehind(g2, v, q[0], Parent(q[1..]));
    }
  }

  lemma SetsBox(g: Heap, v: Val, e: Elem, y: Val)
    requires SetChild(g, v, e, y).Ok?
    ensures v.Box?
  {
  }

  // ---- removing ----

  lemma SimilarDrop(h: Heap, g: Heap, v: Val, e: Elem)
    requires v.Box? ==> SameShape(h, g, v.ref)
    ensures DropChild(h, v, e).Ok? <==> DropChild(g, v, e).Ok?
  {
  }

  /** A removal at a clear path succeeds in both or in neither. */
  lemma SimilarRemove(h: Heap, g: Heap, cut: set<Entry>, v: Val, q: seq<Elem>)
    requires q != [] && Similar(h, g, cut) && Clear(g, v, Parent(q), cut)
    ensures Walk(h, v, Parent(q)) == Walk(g, v, Parent(q))
    ensures RemoveFrom(h, v, q).Ok? <==> RemoveFrom(g, v, q).Ok?
  {
    hide ChildVal, Walk, DropChild, SameShape;
    SimilarWalk(h, g, cut, v, Parent(q));
    if Walk(g, v, Parent(q)).Some? {
      SimilarDrop(h, g, Walk(g, v, Parent(q)).value, Last(q));
    }
  }

  // ---- entries at paths ----

  lemma SimilarSelf(h: Heap)
    ensures Similar(h, h, {})
  {
  }

  /** Every cut entry is the last step of one of these paths. */
  ghost predicate CutAt(g: Heap, paths: set<Path>, cut: set<Entry>) {
    forall n :: n in cut ==>
      exists p :: p in paths && Walk(g, Box(ROOT), Parent(p)) == Some(Box(n.c)) && Last(p) == n.e
  }

  lemma StepOnto(p: seq<Elem>, q: seq<Elem>, i: nat)
    requires p != [] && i < |q|
    ensures q[..i] == Parent(p) && q[i] == Last(p) ==> p <= q
  {
    assert p == Parent(p) + [Last(p)] && q[..i + 1] == q[..i] + [q[i]];
  }

  /** A path that goes through none of them is clear, if their containers occur once. */
  lemma ClearOfPaths(g: Heap, paths: set<Path>, cut: set<Entry>, q: seq<Elem>)
    requires CutAt(g, paths, cut) && forall p :: p in paths ==> Once(g, Box(ROOT), Parent(p)) && !(p <= q)
    ensures Clear(g, Box(ROOT), q, cut)
  {
    hide Walk;
    forall i, c | 0 <= i < |q| && Walk(g, Box(ROOT), q[..i]) == Some(Box(c))
      ensures Entry(c, q[i]) !in cut
    {
      if Entry(c, q[i]) in cut {
        var p :| p in paths && Walk(g, Box(ROOT), Parent(p)) == Some(Box(c)) && Last(p) == q[i];
        StepOnto(p, q, i);
      }
    }
  }

  lemma CutsAreEntries(g: Heap, paths: set<Path>, cut: set<Entry>)
    requires CutAt(g, paths, cut) && Sane(g) && Linked(g, Box(ROOT))
    ensures Entries(g, cut)
  {
    hide Walk, Sane;
    forall n | n in cut
      ensures Look(g, n.c).Some?
    {
      var p :| p in paths && Walk(g, Box(ROOT), Parent(p)) == Some(Box(n.c)) && Last(p) == n.e;
      LinkedWalk(g, Box(ROOT), Parent(p));
    }
  }
}
