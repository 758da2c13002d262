/** What every update keeps, however it shares objects (update.go): no reference dangles, the item itself
    is stored nowhere, and attributes that head no path stay. */
module RunInvariants {
  import opened Wrappers
  import opened Values
  import opened Paths
  import opened Expressions
  import opened Updates
  import opened UpdateOrder
  import opened RunOrders
  import opened References
  import opened Reading
  import opened InPlace
  import opened Dropping
  import opened RightHandSides
  import opened UpdatesByReference

  /** The item is a map that is in no container. */
  ghost predicate RootApart(h: Heap) {
    && Sane(h) && Look(h, ROOT).Some? && Look(h, ROOT).value.MapCell?
    && forall c, e :: ChildVal(h, Box(c), e) != Some(Box(ROOT))
  }

  /** Something that may be stored. */
  predicate Storable(h: Heap, y: Val) {
    Linked(h, y) && y != Box(ROOT)
  }

  lemma WalkIsStorable(h: Heap, p: seq<Elem>)
    requires RootApart(h) && p != [] && Walk(h, Box(ROOT), p).Some?
    ensures Storable(h, Walk(h, Box(ROOT), p).value)
  {
    hide ChildVal, Walk, Sane;
    LinkedWalk(h, Box(ROOT), p);
    assert p == Parent(p) + [Last(p)];
    WalkConcat(h, Box(ROOT), Parent(p), [Last(p)]);
    var w := Walk(h, Box(ROOT), Parent(p)).value;
    WalkOne(h, w, Last(p));
    HasChild(h, w, Last(p));
    assert w == Box(w.ref);
  }

  // ---- right-hand sides ----

  lemma ValueIsStorable(h: Heap, k: string)
    requires k in h.values
    ensures Storable(h, ValueVal(h, k))
  {
    assert Get(h.values[k], []) == Some(h.values[k]);
  }

  lemma OperandIsStorable(h: Heap, o: Operand)
    requires RootApart(h) && OperandVal(h, o).Ok?
    ensures Storable(h, OperandVal(h, o).value)
  {
    hide Walk, RootApart, SizeOfVal;
    match o {
      case ValueRef(k) => ValueIsStorable(h, k);
      case PathOf(p) => WalkIsStorable(h, p);
      case SizeOf(_) =>
    }
  }

  lemma MakeKeepsApart(h: Heap, c: Cell)
    requires RootApart(h) && forall f :: Part(c, f).Some? ==> Storable(h, Part(c, f).value)
    ensures var h2 := Make(h, c);
            RootApart(h2) && Storable(h2, Box(Made(h.made))) && forall w :: Storable(h, w) ==> Storable(h2, w)
  {
    var h2 := Make(h, c);
    MakeSane(h, c);
    MakeEffect(h, c);
    hide Sane, Make, Part;
    forall d, e
      ensures ChildVal(h2, Box(d), e) != Some(Box(ROOT))
    {
      if d != Made(h.made) {
        assert ChildVal(h2, Box(d), e) == ChildVal(h, Box(d), e);
      } else {
        assert ChildVal(h2, Box(d), e) == Part(c, e);
      }
    }
  }

  lemma ElemIsStorable(h: Heap, v: Val, i: nat)
    requires RootApart(h) && ElemsOf(h, v).Some? && i < |ElemsOf(h, v).value|
    ensures Storable(h, ElemsOf(h, v).value[i])
  {
    assert ChildVal(h, v, Index(i)) == Some(ElemsOf(h, v).value[i]) && v == Box(v.ref);
    SaneKid(h, v, Index(i));
  }

  lemma JoinedIsStorable(h: Heap, x: Val, y: Val)
    requires RootApart(h) && ElemsOf(h, x).Some? && ElemsOf(h, y).Some?
    ensures var c := ListCell(ElemsOf(h, x).value + ElemsOf(h, y).value);
            forall f :: Part(c, f).Some? ==> Storable(h, Part(c, f).value)
  {
    hide RootApart, ElemsOf;
    var c := ListCell(ElemsOf(h, x).value + ElemsOf(h, y).value);
    forall f | Part(c, f).Some?
      ensures Storable(h, Part(c, f).value)
    {
      if f.index < |ElemsOf(h, x).value| {
        ElemIsStorable(h, x, f.index);
      } else {
        ElemIsStorable(h, y, f.index - |ElemsOf(h, x).value|);
      }
    }
  }

  lemma {:induction false} RvalueKeepsApart(h: Heap, r: Rvalue, name: string)
    requires RootApart(h) && RvalueVal(h, r).Ok?
    ensures var y, h2 := RvalueVal(h, r).value.0, RvalueVal(h, r).value.1;
            && RootApart(h2) && Storable(h2, y) && (forall w :: Storable(h, w) ==> Storable(h2, w))
            && ChildVal(h2, Box(ROOT), Name(name)) == ChildVal(h, Box(ROOT), Name(name))
    decreases r
  {
    hide RootApart, Walk, OperandVal, Storable, ElemsOf, ChildVal, Part;
    match r {
      case Plain(o) => OperandIsStorable(h, o);
      case IfNotExists(p, otherwise) =>
        if Walk(h, Box(ROOT), p).None? {
          RvalueKeepsApart(h, otherwise, name);
        } else {
          WalkIsStorable(h, p);
        }
      case ListAppend(a, b) =>
        RvalueKeepsApart(h, a, name);
        var x, h1 := RvalueVal(h, a).value.0, RvalueVal(h, a).value.1;
        RvalueKeepsApart(h1, b, name);
        var y, h2 := RvalueVal(h1, b).value.0, RvalueVal(h1, b).value.1;
        JoinedIsStorable(h2, x, y);
        MakeKeepsApart(h2, ListCell(ElemsOf(h2, x).value + ElemsOf(h2, y).value));
        MakeKeepsRoot(h2, ListCell(ElemsOf(h2, x).value + ElemsOf(h2, y).value), name);
    }
  }

  lemma MakeKeepsRoot(h: Heap, c: Cell, name: string)
    ensures ChildVal(Make(h, c), Box(ROOT), Name(name)) == ChildVal(h, Box(ROOT), Name(name))
  {
  }

  lemma StoredKeepsApart(h: Heap, a: Action, name: string)
    requires RootApart(h) && IsWrite(a) && StoredVal(h, a).Ok?
    ensures var y, h2 := StoredVal(h, a).value.0, StoredVal(h, a).value.1;
            && RootApart(h2) && Storable(h2, y)
            && ChildVal(h2, Box(ROOT), Name(name)) == ChildVal(h, Box(ROOT), Name(name))
  {
    hide RootApart, Walk, OperandVal, RvalueVal, ChildVal;
    match a {
      case Set(_, Single(r)) => RvalueKeepsApart(h, r, name);
      case Set(_, Sum(r, _, _)) => RvalueKeepsApart(h, r, name);
      case Add(_, _) =>
    }
  }

  // ---- writes and removals ----

  /** The children after a write: what was there, what is stored, new maps. */
  lemma {:induction false} ChildrenAfterPut(h: Heap, v: Val, p: seq<Elem>, y: Val, c: Ref, e: Elem)
    requires p != [] && Sane(h) && Linked(h, v) && Linked(h, y) && PutIn(h, v, p, y).Ok?
    ensures var w := ChildVal(PutIn(h, v, p, y).value, Box(c), e);
            w == ChildVal(h, Box(c), e) || w == Some(y) || (w.Some? && w.value.Box? && IsNew(h, w.value.ref))
    decreases |p|
  {
    hide ChildVal, SetChild, Enter, Sane, Linked;
    if |p| == 1 {
      SetChildEffect(h, v, p[0], y);
      SetChildSane(h, v, p[0], y);
      CellAfterSet(h, PutIn(h, v, p, y).value, v.ref, c, e);
    } else if ChildVal(h, v, p[0]).Some? {
      EnterOld(h, v, p[0]);
      SaneKid(h, v, p[0]);
      ChildrenAfterPut(h, ChildVal(h, v, p[0]).value, p[1..], y, c, e);
    } else {
      EnterNew(h, v, p[0]);
      var w, h1 := Enter(h, v, p[0]).value.0, Enter(h, v, p[0]).value.1;
      if c == Made(h.made) {
        assert ChildVal(h1, w, e) == None;
        NoNewChild(h, e);
      } else if c != v.ref {
        CellAfterEnter(h, v, p[0], c, e);
      }
      ChildrenAfterPut(h1, w, p[1..], y, c, e);
    }
  }

  lemma NoNewChild(h: Heap, e: Elem)
    requires Sane(h)
    ensures ChildVal(h, Box(Made(h.made)), e) == None
  {
    NewIsUnlinked(h, Atom(NULL(true)));
  }

  lemma CellAfterSet(h: Heap, h2: Heap, r: Ref, c: Ref, e: Elem)
    requires Changed(h, h2, r) && h2.made == h.made && Sane(h) && Sane(h2)
    ensures c != r ==> ChildVal(h2, Box(c), e) == ChildVal(h, Box(c), e)
  {
    if c != r && IsNew(h, c) {
      MadeIsOldCell(h, c);
      MadeIsOldCell(h2, c);
    }
  }

  lemma MadeIsOldCell(h: Heap, c: Ref)
    requires Sane(h) && IsNew(h, c)
    ensures Look(h, c).None?
  {
    if Look(h, c).Some? {
      MadeIsOld(h, c);
    }
  }

  lemma CellAfterEnter(h: Heap, v: Val, e: Elem, c: Ref, f: Elem)
    requires Sane(h) && Linked(h, v) && ChildVal(h, v, e).None? && Enter(h, v, e).Ok?
    requires c != v.ref && c != Made(h.made)
    ensures ChildVal(Enter(h, v, e).value.1, Box(c), f) == ChildVal(h, Box(c), f)
  {
  }

  /** A container stays a list or a map. */
  ghost predicate SameKinds(h: Heap, h2: Heap) {
    forall c :: Look(h, c).Some? ==> Look(h2, c).Some? && Look(h2, c).value.MapCell? == Look(h, c).value.MapCell?
  }

  lemma {:induction false} PutKeepsKinds(h: Heap, v: Val, p: seq<Elem>, y: Val)
    requires p != [] && Sane(h) && Linked(h, v) && Linked(h, y) && PutIn(h, v, p, y).Ok?
    ensures SameKinds(h, PutIn(h, v, p, y).value)
    decreases |p|
  {
    hide ChildVal, Enter, SetChild, Sane, Linked, SameKinds;
    if |p| == 1 {
      SetKeepsKinds(h, v, p[0], y);
    } else if ChildVal(h, v, p[0]).Some? {
      EnterOld(h, v, p[0]);
      SaneKid(h, v, p[0]);
      PutKeepsKinds(h, ChildVal(h, v, p[0]).value, p[1..], y);
    } else {
      EnterNew(h, v, p[0]);
      var w, h1 := Enter(h, v, p[0]).value.0, Enter(h, v, p[0]).value.1;
      EnterKeepsKinds(h, v, p[0]);
      PutKeepsKinds(h1, w, p[1..], y);
      KindsCompose(h, h1, PutIn(h, v, p, y).value);
    }
  }

  lemma SetKeepsKinds(h: Heap, v: Val, e: Elem, y: Val)
    requires SetChild(h, v, e, y).Ok?
    ensures SameKinds(h, SetChild(h, v, e, y).value)
  {
  }

  lemma EnterKeepsKinds(h: Heap, v: Val, e: Elem)
    requires Sane(h) && Linked(h, v) && ChildVal(h, v, e).None? && Enter(h, v, e).Ok?
    ensures SameKinds(h, Enter(h, v, e).value.1)
  {
    var made := Make(h, MapCell(map[]));
    MakeEffect(h, MapCell(map[]));
    assert SameKinds(h, made);
    SetKeepsKinds(made, v, e, Box(Made(h.made)));
  }

  lemma KindsCompose(h: Heap, h1: Heap, h2: Heap)
    requires SameKinds(h, h1) && SameKinds(h1, h2)
    ensures SameKinds(h, h2)
  {
    hide Look;
  }

  lemma DropKeepsKinds(h: Heap, v: Val, e: Elem)
    requires DropChild(h, v, e).Ok?
    ensures SameKinds(h, DropChild(h, v, e).value)
  {
  }

  /** A write below another attribute. */
  lemma WriteKeepsApart(h: Heap, p: Path, y: Val, name: string)
    requires RootApart(h) && Storable(h, y) && PutIn(h, Box(ROOT), p, y).Ok?
    ensures var h2 := PutIn(h, Box(ROOT), p, y).value;
            && RootApart(h2)
            && (p[0] != Name(name) ==> ChildVal(h2, Box(ROOT), Name(name)) == ChildVal(h, Box(ROOT), Name(name)))
  {
    hide ChildVal, PutIn, Sane, Walk, SameKinds, Rewrites, Touched;
    var h2 := PutIn(h, Box(ROOT), p, y).value;
    PutTouches(h, Box(ROOT), p, y);
    PutKeepsKinds(h, Box(ROOT), p, y);
    RootKind(h, h2);
    forall c, e
      ensures ChildVal(h2, Box(c), e) != Some(Box(ROOT))
    {
      ChildrenAfterPut(h, Box(ROOT), p, y, c, e);
    }
    if p[0] != Name(name) {
      RootNotRewritten(h, p, name);
      PutKeepsSteps(h, Box(ROOT), p, y, ROOT, Name(name));
    }
  }

  lemma RootKind(h: Heap, h2: Heap)
    requires SameKinds(h, h2) && Look(h, ROOT).Some? && Look(h, ROOT).value.MapCell?
    ensures Look(h2, ROOT).Some? && Look(h2, ROOT).value.MapCell?
  {
  }

  lemma RootNotRewritten(h: Heap, p: Path, name: string)
    requires RootApart(h) && p[0] != Name(name)
    ensures !Rewrites(h, Box(ROOT), p, ROOT, Name(name))
  {
    hide ChildVal, Walk, RootApart;
    if Rewrites(h, Box(ROOT), p, ROOT, Name(name)) {
      var i :| 0 <= i < |p| && Walk(h, Box(ROOT), p[..i]) == Some(Box(ROOT)) && p[i] == Name(name) &&
               (i == |p| - 1 || ChildVal(h, Box(ROOT), Name(name)).None?);
      assert i != 0;
      WalkIsStorable(h, p[..i]);
    }
  }

  /** A removal below another attribute. */
  lemma RemovalKeepsApart(h: Heap, p: Path, name: string)
    requires RootApart(h) && RemoveFrom(h, Box(ROOT), p).Ok?
    ensures var h2 := RemoveFrom(h, Box(ROOT), p).value;
            && RootApart(h2)
            && (p[0] != Name(name) ==> ChildVal(h2, Box(ROOT), Name(name)) == ChildVal(h, Box(ROOT), Name(name)))
  {
    hide ChildVal, DropChild, Sane, Walk, SameKinds, WithoutPart;
    if Walk(h, Box(ROOT), Parent(p)).Some? {
      var w, h2 := Walk(h, Box(ROOT), Parent(p)).value, RemoveFrom(h, Box(ROOT), p).value;
      DropEffect(h, w, Last(p));
      DropSane(h, w, Last(p));
      DropKeepsKinds(h, w, Last(p));
      RootKind(h, h2);
      DroppedKids(h, h2, w, Last(p));
      forall c, e
        ensures ChildVal(h2, Box(c), e) != Some(Box(ROOT))
      {
        if c != w.ref {
          OtherCell(h, h2, c, e);
        } else {
          assert Box(c) == w;
        }
      }
      if Parent(p) == [] {
        WalkHere(h, Box(ROOT));
        assert Last(p) == p[0];
      } else {
        WalkIsStorable(h, Parent(p));
        OtherCell(h, h2, ROOT, Name(name));
      }
    }
  }

  lemma OtherCell(h: Heap, h2: Heap, c: Ref, e: Elem)
    requires Look(h2, c) == Look(h, c)
    ensures ChildVal(h2, Box(c), e) == ChildVal(h, Box(c), e)
  {
  }

  // ---- actions and runs ----

  lemma ActionKeepsApart(h: Heap, a: Action, name: string)
    requires RootApart(h) && ApplyRef(h, a).Ok?
    ensures RootApart(ApplyRef(h, a).value)
    ensures a.path[0] != Name(name) ==>
              ChildVal(ApplyRef(h, a).value, Box(ROOT), Name(name)) == ChildVal(h, Box(ROOT), Name(name))
  {
    hide RootApart, Walk, OperandVal, StoredVal, PutIn, RemoveFrom, ChildVal, DeletedValue;
    match a {
      case Remove(p) => RemovalKeepsApart(h, p, name);
      case Delete(p, o) =>
        if Walk(h, Box(ROOT), p).Some? {
          var z := DeletedVal(OperandVal(h, o).value, Walk(h, Box(ROOT), p).value).value;
          if EmptySet(z.av) {
            RemovalKeepsApart(h, p, name);
          } else {
            WriteKeepsApart(h, p, z, name);
          }
        }
      case _ =>
        StoredKeepsApart(h, a, name);
        WriteKeepsApart(StoredVal(h, a).value.1, a.path, StoredVal(h, a).value.0, name);
    }
  }

  lemma {:induction false} RunKeepsApart(h: Heap, run: seq<Action>, name: string)
    requires RootApart(h) && RunRefs(h, run).Ok?
    ensures RootApart(RunRefs(h, run).value)
    ensures (forall a :: a in run ==> a.path[0] != Name(name)) ==>
              ChildVal(RunRefs(h, run).value, Box(ROOT), Name(name)) == ChildVal(h, Box(ROOT), Name(name))
    decreases |run|
  {
    hide RootApart, ApplyRef, ChildVal;
    if run != [] {
      ActionKeepsApart(h, run[0], name);
      RunKeepsApart(ApplyRef(h, run[0]).value, run[1..], name);
    }
  }

  lemma ClonedApartRoot(item: Item, values: Env)
    ensures RootApart(Cloned(item, values))
  {
    hide Sane;
    var h := Cloned(item, values);
    ClonedSane(h);
    assert Get(M(item), []) == Some(M(item));
    forall c, e
      ensures ChildVal(h, Box(c), e) != Some(Box(ROOT))
    {
      match c {
        case InItem(q) => assert q + [e] != [];
        case InValue(_, _) =>
        case Made(_) =>
      }
    }
  }

  /** However an update shares objects: it is never read to the end if and only if it succeeds and leaves
      some container inside itself. */
  lemma UpdateEndlessIff(item: Item, actions: seq<Action>, values: Env)
    ensures ByReference(item, actions, values) == Endless <==>
            var h := RunRefs(Cloned(item, values), RunOrder(actions));
            h.Ok? && exists p, q :: Cyclic(h.value, Box(ROOT), p, q)
  {
    hide RunOrder, RunRefs, Unfold, Cyclic, Sane;
    ClonedApartRoot(item, values);
    if RunRefs(Cloned(item, values), RunOrder(actions)).Ok? {
      var h := RunRefs(Cloned(item, values), RunOrder(actions)).value;
      RunKeepsApart(Cloned(item, values), RunOrder(actions), "");
      EndlessIffCycle(h);
      ReadIsMap(h);
    }
  }

  lemma ReadIsMap(h: Heap)
    requires RootApart(h)
    ensures ReadItem(h) == Endless <==> Unfold(h, Box(ROOT), {}).None?
    ensures ReadItem(h).Updated? ==> Denotes(h, Box(ROOT), M(ReadItem(h).item))
  {
    hide Unfold;
    if Unfold(h, Box(ROOT), {}).Some? {
      UnfoldDenotes(h, Box(ROOT), {});
      AlikeDenoted(h, Box(ROOT), Unfold(h, Box(ROOT), {}).value);
      assert Unfold(h, Box(ROOT), {}).value.M?;
    }
  }

  predicate KeepsName(item: Item, after: Item, name: string) {
    (name in after <==> name in item) && (name in item ==> after[name] == item[name])
  }

  /** An update leaves a scalar attribute, or an absent one, alone if it heads none of its paths. */
  lemma UpdateKeeps(item: Item, actions: seq<Action>, values: Env, name: string)
    requires forall a :: a in actions ==> a.path[0].name != name
    requires ByReference(item, actions, values).Updated? && (name in item ==> IsScalar(item[name]))
    ensures KeepsName(item, ByReference(item, actions, values).item, name)
  {
    hide RunOrder, RunRefs, Unfold, Denotes;
    var h0 := Cloned(item, values);
    RunsAll(actions);
    ClonedApartRoot(item, values);
    RunKeepsApart(h0, RunOrder(actions), name);
    var h := RunRefs(h0, RunOrder(actions)).value;
    ReadIsMap(h);
    hide RootApart;
    var d := ReadItem(h).item;
    ClonedProgress(item, values, {});
    SaneProgress(h0, item, {});
    SameAttribute(h0, h, item, d, name);
  }

  lemma SameAttribute(h0: Heap, h: Heap, item: Item, d: Item, name: string)
    requires Denotes(h0, Box(ROOT), M(item)) && Denotes(h, Box(ROOT), M(d))
    requires ChildVal(h, Box(ROOT), Name(name)) == ChildVal(h0, Box(ROOT), Name(name))
    requires name in item ==> IsScalar(item[name])
    ensures KeepsName(item, d, name)
  {
    hide Denotes, ChildVal;
    Kids(h0, Box(ROOT), M(item), Name(name));
    Kids(h, Box(ROOT), M(d), Name(name));
    if name in item {
      ScalarDenotes(h0, ChildVal(h0, Box(ROOT), Name(name)).value, item[name]);
      ScalarDenotes(h, ChildVal(h, Box(ROOT), Name(name)).value, d[name]);
    }
  }
}
