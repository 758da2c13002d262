/** A container that a SET stores inside itself (update.go evalRvalue, setPath): how it is found there again, and
    that later writes elsewhere leave it there. */
module Loops {
  import opened Wrappers
  import opened Values
  import opened Paths
  import opened Expressions
  import opened Updates
  import opened UpdateOrder
  import opened References
  import opened Reading
  import opened InPlace
  import opened Dropping
  import opened RightHandSides
  import opened RunInvariants
  import opened Cuts

  // ---- objects that nothing refers to ----

  /** The container is stored nowhere. */
  ghost predicate Loose(g: Heap, r: Ref) {
    r.Made? && Look(g, r).Some? && forall c, e :: ChildVal(g, Box(c), e) != Some(Box(r))
  }

  lemma WalkIsNotLoose(g: Heap, r: Ref, p: seq<Elem>)
    requires Loose(g, r)
    ensures Walk(g, Box(ROOT), p) != Some(Box(r))
  {
    hide ChildVal, Walk;
    WalkHere(g, Box(ROOT));
    if p != [] && Walk(g, Box(ROOT), p).Some? {
      assert p == Parent(p) + [Last(p)];
      WalkConcat(g, Box(ROOT), Parent(p), [Last(p)]);
      var w := Walk(g, Box(ROOT), Parent(p)).value;
      WalkOne(g, w, Last(p));
      HasChild(g, w, Last(p));
      assert w == Box(w.ref);
    }
  }

  lemma OperandIsNotLoose(g: Heap, r: Ref, o: Operand)
    requires Loose(g, r) && OperandVal(g, o).Ok?
    ensures OperandVal(g, o).value != Box(r)
  {
    hide Walk, SizeOfVal, Loose;
    match o {
      case ValueRef(k) => assert r.Made? by { LooseIsMade(g, r); }
      case PathOf(p) => WalkIsNotLoose(g, r, p);
      case SizeOf(_) =>
    }
  }

  lemma LooseIsMade(g: Heap, r: Ref)
    requires Loose(g, r)
    ensures r.Made? && r != ROOT
  {
  }

  lemma ElemsNotLoose(g: Heap, r: Ref, v: Val, i: nat)
    requires Loose(g, r) && ElemsOf(g, v).Some? && i < |ElemsOf(g, v).value|
    ensures ElemsOf(g, v).value[i] != Box(r)
  {
    assert ChildVal(g, v, Index(i)) == Some(ElemsOf(g, v).value[i]) && v == Box(v.ref);
  }

  lemma JoinedStaysLoose(g: Heap, r: Ref, x: Val, y: Val)
    requires Loose(g, r) && Sane(g) && ElemsOf(g, x).Some? && ElemsOf(g, y).Some?
    ensures Loose(Make(g, ListCell(ElemsOf(g, x).value + ElemsOf(g, y).value)), r) && r != Made(g.made)
  {
    hide ElemsOf, Sane;
    var cell := ListCell(ElemsOf(g, x).value + ElemsOf(g, y).value);
    var g2 := Make(g, cell);
    MakeEffect(g, cell);
    forall c, e
      ensures ChildVal(g2, Box(c), e) != Some(Box(r))
    {
      if c != Made(g.made) {
        assert ChildVal(g2, Box(c), e) == ChildVal(g, Box(c), e);
      } else if Part(cell, e).Some? {
        if e.index < |ElemsOf(g, x).value| {
          ElemsNotLoose(g, r, x, e.index);
        } else {
          ElemsNotLoose(g, r, y, e.index - |ElemsOf(g, x).value|);
        }
      }
    }
  }

  lemma {:induction false} RvalueIsNotLoose(g: Heap, r: Ref, d: Item, names: set<string>, rv: Rvalue)
    requires Loose(g, r) && InProgress(g, d, names) && RvalueUses(rv) <= names && RvalueVal(g, rv).Ok?
    ensures RvalueVal(g, rv).value.0 != Box(r) && Loose(RvalueVal(g, rv).value.1, r)
    decreases rv
  {
    hide Loose, Walk, OperandVal, InProgress, ElemsOf, Make, Extends, Denotes, Linked, Sane, EvalRvalue;
    match rv {
      case Plain(o) => OperandIsNotLoose(g, r, o);
      case IfNotExists(p, otherwise) =>
        if Walk(g, Box(ROOT), p).None? {
          RvalueIsNotLoose(g, r, d, names, otherwise);
        } else {
          WalkIsNotLoose(g, r, p);
        }
      case ListAppend(a, b) =>
        RvalueIsNotLoose(g, r, d, names, a);
        RvalueDenotes(g, d, names, a);
        var x, g1 := RvalueVal(g, a).value.0, RvalueVal(g, a).value.1;
        ExtendsProgress(g, g1, d, names);
        RvalueIsNotLoose(g1, r, d, names, b);
        RvalueDenotes(g1, d, names, b);
        var y, g2 := RvalueVal(g1, b).value.0, RvalueVal(g1, b).value.1;
        JoinedStaysLoose(g2, r, x, y);
    }
  }

  lemma StoredIsNotLoose(g: Heap, r: Ref, d: Item, names: set<string>, a: Action)
    requires Loose(g, r) && InProgress(g, d, names) && Uses(a) <= names && IsWrite(a) && StoredVal(g, a).Ok?
    ensures StoredVal(g, a).value.0 != Box(r) && Loose(StoredVal(g, a).value.1, r)
  {
    hide Loose, Walk, OperandVal, InProgress, RvalueVal, SumVal, AddedVal;
    match a {
      case Set(_, Single(rv)) => RvalueIsNotLoose(g, r, d, names, rv);
      case Set(_, Sum(rv, o, sub)) =>
        RvalueIsNotLoose(g, r, d, names, rv);
        SumIsAtom(RvalueVal(g, rv).value.0, OperandVal(RvalueVal(g, rv).value.1, o).value, sub);
      case Add(p, o) =>
        AddedIsAtom(OperandVal(g, o).value, Walk(g, Box(ROOT), p));
    }
  }

  lemma SumIsAtom(v: Val, w: Val, sub: bool)
    ensures SumVal(v, w, sub).Ok? ==> SumVal(v, w, sub).value.Atom?
  {
  }

  lemma AddedIsAtom(v: Val, cur: Option<Val>)
    ensures AddedVal(v, cur).Ok? ==> AddedVal(v, cur).value.Atom?
  {
    hide AddedValue;
  }

  lemma PutStaysLoose(g: Heap, r: Ref, p: Path, y: Val)
    requires Loose(g, r) && Sane(g) && Linked(g, Box(ROOT)) && Linked(g, y) && y != Box(r)
    requires PutIn(g, Box(ROOT), p, y).Ok?
    ensures Loose(PutIn(g, Box(ROOT), p, y).value, r)
  {
    hide ChildVal, PutIn, Sane, Walk, Touched;
    var g2 := PutIn(g, Box(ROOT), p, y).value;
    PutTouches(g, Box(ROOT), p, y);
    MadeIsOld(g, r);
    forall c, e
      ensures ChildVal(g2, Box(c), e) != Some(Box(r))
    {
      ChildrenAfterPut(g, Box(ROOT), p, y, c, e);
    }
    assert Linked(g, Box(r)) && Linked(g2, Box(r));
  }

  // ---- what an evaluation adds, however objects are shared ----

  lemma {:induction false} RvalueAdds(h: Heap, r: Rvalue)
    requires RvalueVal(h, r).Ok?
    ensures Extends(h, RvalueVal(h, r).value.1)
    decreases r
  {
    hide Walk, OperandVal, ElemsOf;
    match r {
      case Plain(_) =>
      case IfNotExists(p, otherwise) =>
        if Walk(h, Box(ROOT), p).None? {
          RvalueAdds(h, otherwise);
        }
      case ListAppend(a, b) =>
        RvalueAdds(h, a);
        RvalueAdds(RvalueVal(h, a).value.1, b);
    }
  }

  lemma StoredAdds(h: Heap, a: Action)
    requires IsWrite(a) && StoredVal(h, a).Ok?
    ensures Extends(h, StoredVal(h, a).value.1)
  {
    hide Walk, OperandVal, RvalueVal, Extends;
    ExtendsSelf(h);
    match a {
      case Set(_, Single(r)) => RvalueAdds(h, r);
      case Set(_, Sum(r, _, _)) => RvalueAdds(h, r);
      case Add(_, _) =>
    }
  }

  // ---- how the container is found in what is stored ----

  /** Wherever a list is on the way to u, the way goes on. */
  ghost predicate WayOpen(g: Heap, u: seq<Elem>) {
    forall t :: t < u && Walk(g, Box(ROOT), t).Some? && ElemsOf(g, Walk(g, Box(ROOT), t).value).Some? ==>
      Walk(g, Box(ROOT), u[..|t| + 1]).Some?
  }

  /** y is w, or for e.Some? a new list that has w at e and is stored nowhere. */
  ghost predicate Holds(g: Heap, y: Val, e: Option<Elem>, w: Val) {
    if e.None? then y == w else y.Box? && Loose(g, y.ref) && ChildVal(g, y, e.value) == Some(w)
  }

  lemma ElemOnWay(g: Heap, u: seq<Elem>, q: seq<Elem>)
    requires q < u && Walk(g, Box(ROOT), q).Some? && ElemsOf(g, Walk(g, Box(ROOT), q).value).Some? && WayOpen(g, u)
    ensures Walk(g, Box(ROOT), u[..|q| + 1]).Some?
    ensures ChildVal(g, Walk(g, Box(ROOT), q).value, u[|q|]) == Walk(g, Box(ROOT), u[..|q| + 1])
  {
    hide Walk, ChildVal, ElemsOf;
    assert u[..|q| + 1] == q + [u[|q|]];
    WalkConcat(g, Box(ROOT), q, [u[|q|]]);
    WalkOne(g, Walk(g, Box(ROOT), q).value, u[|q|]);
  }

  /** An element of what r evaluates to is found on the way to u. */
  lemma {:induction false} ElementOnWay(g: Heap, d: Item, names: set<string>, r: Rvalue, u: seq<Elem>)
    returns (t: seq<Elem>, e: Elem)
    requires InProgress(g, d, names) && RvalueUses(r) <= names && RvalueVal(g, r).Ok? && Stores(r, 1, d, u)
    requires WayOpen(g, u) && ElemsOf(RvalueVal(g, r).value.1, RvalueVal(g, r).value.0).Some?
    ensures t <= u && Walk(g, Box(ROOT), t).Some?
    ensures ChildVal(RvalueVal(g, r).value.1, RvalueVal(g, r).value.0, e) == Walk(g, Box(ROOT), t)
    decreases r, 1
  {
    hide Walk, OperandVal, InProgress, ElemsOf, Make, Extends, Denotes, Linked, Sane, EvalRvalue, ChildVal, WayOpen;
    match r {
      case Plain(o) =>
        PlainPath(g, o);
        t, e := u[..|o.path| + 1], u[|o.path|];
        ElemOnWay(g, u, o.path);
      case IfNotExists(p, otherwise) =>
        PathDenotes(g, d, names, p);
        if Walk(g, Box(ROOT), p).None? {
          t, e := ElementOnWay(g, d, names, otherwise, u);
        } else {
          t, e := u[..|p| + 1], u[|p|];
          ElemOnWay(g, u, p);
        }
      case ListAppend(a, b) =>
        t, e := JoinedOnWay(g, d, names, a, b, u);
    }
  }

  lemma PlainPath(g: Heap, o: Operand)
    requires OperandVal(g, o).Ok? && o.PathOf?
    ensures Walk(g, Box(ROOT), o.path) == Some(OperandVal(g, o).value)
  {
    hide Walk;
  }

  lemma WayStaysOpen(g: Heap, g2: Heap, d: Item, names: set<string>, u: seq<Elem>)
    requires InProgress(g, d, names) && Extends(g, g2) && WayOpen(g, u)
    ensures WayOpen(g2, u) && forall q :: Walk(g2, Box(ROOT), q) == Walk(g, Box(ROOT), q)
  {
    hide Walk, Denotes, Sane, Linked, SameBelow, Extends;
    SaneProgress(g, d, names);
    ExtendsSame(g, g2, Box(ROOT));
    forall q
      ensures Walk(g2, Box(ROOT), q) == Walk(g, Box(ROOT), q)
    {
      WalkFrame(g, g2, Box(ROOT), q);
    }
    forall t | t < u && Walk(g2, Box(ROOT), t).Some? && ElemsOf(g2, Walk(g2, Box(ROOT), t).value).Some?
      ensures Walk(g2, Box(ROOT), u[..|t| + 1]).Some?
    {
      LinkedWalk(g, Box(ROOT), t);
      SameElems(g, g2, Walk(g, Box(ROOT), t).value);
    }
  }

  lemma SameElems(g: Heap, g2: Heap, v: Val)
    requires Sane(g) && Linked(g, v) && Extends(g, g2)
    ensures ElemsOf(g2, v) == ElemsOf(g, v) && forall e :: ChildVal(g2, v, e) == ChildVal(g, v, e)
  {
    if v.Box? {
      LinkedIsOld(g, v);
    }
  }

  lemma JoinedElem(g: Heap, x: Val, y: Val, e: Elem, first: bool) returns (f: Elem)
    requires ElemsOf(g, x).Some? && ElemsOf(g, y).Some? && ChildVal(g, if first then x else y, e).Some?
    ensures ChildVal(Make(g, ListCell(ElemsOf(g, x).value + ElemsOf(g, y).value)), Box(Made(g.made)), f) ==
            ChildVal(g, if first then x else y, e)
  {
    f := if first then e else Index(|ElemsOf(g, x).value| + e.index);
  }

  lemma JoinedIsLoose(g: Heap, x: Val, y: Val)
    requires Sane(g) && ElemsOf(g, x).Some? && ElemsOf(g, y).Some?
    ensures Loose(Make(g, ListCell(ElemsOf(g, x).value + ElemsOf(g, y).value)), Made(g.made))
  {
    hide ElemsOf;
    var cell, r := ListCell(ElemsOf(g, x).value + ElemsOf(g, y).value), Made(g.made);
    var g2 := Make(g, cell);
    MakeEffect(g, cell);
    NewIsUnlinked(g, Atom(NULL(true)));
    forall c, e
      ensures ChildVal(g2, Box(c), e) != Some(Box(r))
    {
      if c != r {
        assert ChildVal(g2, Box(c), e) == ChildVal(g, Box(c), e);
        NotLinkedNew(g, c, e);
      } else if Part(cell, e).Some? {
        if e.index < |ElemsOf(g, x).value| {
          ElemNotNew(g, x, e.index);
        } else {
          ElemNotNew(g, y, e.index - |ElemsOf(g, x).value|);
        }
      }
    }
  }

  lemma NotLinkedNew(g: Heap, c: Ref, e: Elem)
    requires Sane(g)
    ensures ChildVal(g, Box(c), e) != Some(Box(Made(g.made)))
  {
    if ChildVal(g, Box(c), e) == Some(Box(Made(g.made))) {
      SaneKid(g, Box(c), e);
      NewIsUnlinked(g, Box(Made(g.made)));
    }
  }

  lemma ElemNotNew(g: Heap, v: Val, i: nat)
    requires Sane(g) && ElemsOf(g, v).Some? && i < |ElemsOf(g, v).value|
    ensures ElemsOf(g, v).value[i] != Box(Made(g.made))
  {
    assert ChildVal(g, v, Index(i)) == Some(ElemsOf(g, v).value[i]) && v == Box(v.ref);
    NotLinkedNew(g, v.ref, Index(i));
  }

  /** list_append: the element is one of the new list, which is stored nowhere yet. */
  lemma {:induction false} JoinedOnWay(g: Heap, d: Item, names: set<string>, a: Rvalue, b: Rvalue, u: seq<Elem>)
    returns (t: seq<Elem>, e: Elem)
    requires var r := ListAppend(a, b);
             && InProgress(g, d, names) && RvalueUses(r) <= names && RvalueVal(g, r).Ok? && WayOpen(g, u)
             && (Stores(a, 1, d, u) || Stores(b, 1, d, u))
    ensures t <= u && Walk(g, Box(ROOT), t).Some?
    ensures var y, g2 := RvalueVal(g, ListAppend(a, b)).value.0, RvalueVal(g, ListAppend(a, b)).value.1;
            && ChildVal(g2, y, e) == Walk(g, Box(ROOT), t) && y.Box? && Loose(g2, y.ref)
    decreases ListAppend(a, b), 0
  {
    hide Walk, OperandVal, InProgress, ElemsOf, Make, Extends, Denotes, Linked, EvalRvalue, ChildVal, WayOpen, Sane;
    hide Stores, Loose;
    RvalueDenotes(g, d, names, a);
    var x, g1 := RvalueVal(g, a).value.0, RvalueVal(g, a).value.1;
    ExtendsProgress(g, g1, d, names);
    ExtendsValues(g, g1);
    WayStaysOpen(g, g1, d, names, u);
    RvalueDenotes(g1, d, names, b);
    var y, g2 := RvalueVal(g1, b).value.0, RvalueVal(g1, b).value.1;
    SaneProgress(g, d, names);
    SaneProgress(g1, d, names);
    SameElems(g1, g2, x);
    JoinedIsLoose(g2, x, y);
    var first := Stores(a, 1, d, u);
    if first {
      t, e := ElementOnWay(g, d, names, a, u);
    } else {
      t, e := ElementOnWay(g1, d, names, b, u);
    }
    e := JoinedElem(g2, x, y, e, first);
  }

  /** What a SET stores into itself: the container at t, above its target, or a new list that has it. */
  lemma {:induction false} SelfStored(g: Heap, d: Item, names: set<string>, r: Rvalue, u: seq<Elem>)
    returns (t: seq<Elem>, e: Option<Elem>)
    requires InProgress(g, d, names) && RvalueUses(r) <= names && RvalueVal(g, r).Ok? && Stores(r, 0, d, u)
    requires WayOpen(g, u)
    ensures t <= u && Walk(g, Box(ROOT), t).Some?
    ensures Holds(RvalueVal(g, r).value.1, RvalueVal(g, r).value.0, e, Walk(g, Box(ROOT), t).value)
    decreases r
  {
    hide Walk, OperandVal, InProgress, WayOpen, ChildVal, Loose, ElemsOf, Make;
    match r {
      case Plain(o) =>
        PlainPath(g, o);
        t, e := o.path, None;
      case IfNotExists(p, otherwise) =>
        PathDenotes(g, d, names, p);
        if Walk(g, Box(ROOT), p).None? {
          t, e := SelfStored(g, d, names, otherwise, u);
        } else {
          t, e := p, None;
        }
      case ListAppend(a, b) =>
        var f;
        t, f := JoinedOnWay(g, d, names, a, b, u);
        e := Some(f);
    }
  }

  /** Where setPath succeeds, the way to its last step is open. */
  lemma PutOpensWay(g: Heap, q: Path, z: Val)
    requires Sane(g) && PutIn(g, Box(ROOT), q, z).Ok?
    ensures WayOpen(g, Parent(q))
  {
    hide Walk, PutIn, ElemsOf, Sane;
    var u := Parent(q);
    forall t | t < u && Walk(g, Box(ROOT), t).Some? && ElemsOf(g, Walk(g, Box(ROOT), t).value).Some?
      ensures Walk(g, Box(ROOT), u[..|t| + 1]).Some?
    {
      var w, s := Walk(g, Box(ROOT), t).value, q[|t|..];
      assert q == t + s && u[..|t| + 1] == t + [s[0]];
      PutAlong(g, Box(ROOT), t, s, z);
      ListStep(g, w, s, z);
      WalkConcat(g, Box(ROOT), t, [s[0]]);
      WalkOne(g, w, s[0]);
    }
  }

  lemma ListStep(g: Heap, w: Val, s: seq<Elem>, z: Val)
    requires Sane(g) && |s| > 1 && ElemsOf(g, w).Some? && PutIn(g, w, s, z).Ok?
    ensures ChildVal(g, w, s[0]).Some?
  {
    MadeIsOld(g, w.ref);
    assert Enter(g, w, s[0]).Ok?;
  }

  lemma WayWasOpen(g: Heap, g1: Heap, d: Item, names: set<string>, u: seq<Elem>)
    requires InProgress(g, d, names) && Extends(g, g1) && WayOpen(g1, u)
    ensures WayOpen(g, u) && forall q :: Walk(g1, Box(ROOT), q) == Walk(g, Box(ROOT), q)
  {
    hide Walk, Denotes, Sane, Linked, SameBelow, Extends;
    SaneProgress(g, d, names);
    ExtendsSame(g, g1, Box(ROOT));
    forall q
      ensures Walk(g1, Box(ROOT), q) == Walk(g, Box(ROOT), q)
    {
      WalkFrame(g, g1, Box(ROOT), q);
    }
    forall t | t < u && Walk(g, Box(ROOT), t).Some? && ElemsOf(g, Walk(g, Box(ROOT), t).value).Some?
      ensures Walk(g, Box(ROOT), u[..|t| + 1]).Some?
    {
      LinkedWalk(g, Box(ROOT), t);
      SameElems(g, g1, Walk(g, Box(ROOT), t).value);
    }
  }

  /** The container that a write ends at has what was stored. */
  lemma {:induction false} BottomHolds(h: Heap, v: Val, q: seq<Elem>, y: Val)
    requires q != [] && PutIn(h, v, q, y).Ok?
    ensures ChildVal(PutIn(h, v, q, y).value, Bottom(h, v, q), Last(q)) == Some(y)
    decreases |q|
  {
    hide ChildVal, SetChild, Enter;
    if |q| == 1 {
      SetChildEffect(h, v, q[0], y);
    } else {
      BottomStep(h, v, q);
      BottomHolds(Enter(h, v, q[0]).value.1, Enter(h, v, q[0]).value.0, q[1..], y);
    }
  }
}
