/** A map of the request that is stored twice (update.go applyUpdate): a removal inside it shows in both
    places, although no right-hand side names a path. */
module ValueTwice {
  import opened Wrappers
  import opened Bytes
  import opened Values
  import opened Paths
  import opened Expressions
  import opened Updates
  import opened RemoveSort
  import opened UpdateOrder
  import opened RunOrders
  import opened References
  import opened Reading
  import opened InPlace
  import opened Places
  import opened Dropping
  import opened UpdatesByReference

  /** SET l[2] = :v, x = :v REMOVE l[0], l[1].y */
  function SetTwiceThenRemove(): seq<Action> {
    [Set([Name("l"), Index(2)], Single(Plain(ValueRef(":v")))), Set([Name("x")], Single(Plain(ValueRef(":v")))),
     Remove([Name("l"), Index(0)]), Remove([Name("l"), Index(1), Name("y")])]
  }

  lemma PutDown(h: Heap, e: Elem, f: Elem, y: Val)
    ensures PutIn(h, Box(ROOT), [e], y) == SetChild(h, Box(ROOT), e, y)
    ensures ChildVal(h, Box(ROOT), e).Some? ==>
              PutIn(h, Box(ROOT), [e, f], y) == SetChild(h, ChildVal(h, Box(ROOT), e).value, f, y)
  {
    hide ChildVal, SetChild;
    assert [e, f][1..] == [f];
    if ChildVal(h, Box(ROOT), e).Some? {
      EnterOld(h, Box(ROOT), e);
    }
  }

  lemma RemoveDown(h: Heap, e: Elem, f: Elem, g: Elem, c: Val)
    requires ChildVal(h, Box(ROOT), e) == Some(c)
    ensures RemoveFrom(h, Box(ROOT), [e, f]) == DropChild(h, c, f)
    ensures ChildVal(h, c, f).Some? ==>
              RemoveFrom(h, Box(ROOT), [e, f, g]) == DropChild(h, ChildVal(h, c, f).value, g)
  {
    hide ChildVal, DropChild, RemoveFrom;
    assert [e, f][1..] == [f] && [e, f, g][1..] == [f, g] && [f, g][1..] == [g];
    RemoveStep(h, Box(ROOT), [e, f]);
    RemoveStep(h, c, [f]);
    RemoveStep(h, Box(ROOT), [e, f, g]);
    RemoveStep(h, c, [f, g]);
    if ChildVal(h, c, f).Some? {
      RemoveStep(h, ChildVal(h, c, f).value, [g]);
    }
  }

  /** In place: the map of the request loses y under both names. */
  lemma TwiceInPlace(item: Item, values: Env, a: AV, b: AV, c: AV, m: map<string, AV>)
    requires "l" in item && item["l"] == L([a, b, c]) && ":v" in values && values[":v"] == M(m)
    ensures var r := RunRefs(Cloned(item, values), SetTwiceThenRemove());
            r.Ok? ==> Walk(r.value, Box(ROOT), [Name("x"), Name("y")]) == None
  {
    hide RunRefs, PutIn, RemoveFrom, Walk;
    var s := SetTwiceThenRemove();
    assert s[1..][1..][1..][1..] == [] && s[1..][0] == s[1] && s[1..][1..][0] == s[2] && s[1..][1..][1..][0] == s[3];
    FourRefs(Cloned(item, values), s);
    if RunRefs(Cloned(item, values), s).Ok? {
      var h0 := Cloned(item, values);
      var h1 := ApplyRef(h0, s[0]).value;
      var h2 := ApplyRef(h1, s[1]).value;
      var h3 := ApplyRef(h2, s[2]).value;
      FirstTwo(item, values, a, b, c, m, h1, h2);
      ThirdAndFourth(h2, h3, ApplyRef(h3, s[3]).value, Look(h2, InItem([Name("l")])).value.elems[1]);
    }
  }

  lemma FourRefs(h: Heap, s: seq<Action>)
    requires |s| == 4
    ensures RunRefs(h, s).Ok? ==>
              && ApplyRef(h, s[0]).Ok? && ApplyRef(ApplyRef(h, s[0]).value, s[1]).Ok?
              && ApplyRef(ApplyRef(ApplyRef(h, s[0]).value, s[1]).value, s[2]).Ok?
              && RunRefs(h, s) == ApplyRef(ApplyRef(ApplyRef(ApplyRef(h, s[0]).value, s[1]).value, s[2]).value, s[3])
  {
    hide ApplyRef, RunRefs;
    RunFirst(h, s);
    if ApplyRef(h, s[0]).Ok? {
      var h1 := ApplyRef(h, s[0]).value;
      RunFirst(h1, s[1..]);
      if ApplyRef(h1, s[1]).Ok? {
        var h2 := ApplyRef(h1, s[1]).value;
        assert s[1..][1..] == s[2..] && s[2..][1..] == [s[3]];
        RunFirst(h2, s[2..]);
        if ApplyRef(h2, s[2]).Ok? {
          RunOne(ApplyRef(h2, s[2]).value, s[3]);
        }
      }
    }
  }

  lemma FirstTwo(item: Item, values: Env, a: AV, b: AV, c: AV, m: map<string, AV>, h1: Heap, h2: Heap)
    requires "l" in item && item["l"] == L([a, b, c]) && ":v" in values && values[":v"] == M(m)
    requires ApplyRef(Cloned(item, values), SetTwiceThenRemove()[0]) == Ok(h1)
    requires ApplyRef(h1, SetTwiceThenRemove()[1]) == Ok(h2)
    ensures ChildVal(h2, Box(ROOT), Name("l")) == Some(Box(InItem([Name("l")])))
    ensures ChildVal(h2, Box(ROOT), Name("x")) == Some(Box(InValue(":v", [])))
    ensures var cell := Look(h2, InItem([Name("l")]));
            cell.Some? && cell.value.ListCell? && |cell.value.elems| == 3 &&
            cell.value.elems[2] == Box(InValue(":v", []))
    ensures Look(h2, InValue(":v", [])).Some? && Look(h2, InValue(":v", [])).value.MapCell?
  {
    hide PutIn, Walk;
    var h0, v := Cloned(item, values), Box(InValue(":v", []));
    ClonedList(item, values, a, b, c);
    ClonedValue(item, values, m);
    PutDown(h0, Name("l"), Index(2), v);
    SetChildEffect(h0, Box(InItem([Name("l")])), Index(2), v);
    assert "l"[0] != "x"[0];
    PutDown(h1, Name("x"), Index(2), v);
    SetChildEffect(h1, Box(ROOT), Name("x"), v);
  }

  lemma ClonedList(item: Item, values: Env, a: AV, b: AV, c: AV)
    requires "l" in item && item["l"] == L([a, b, c])
    ensures var h := Cloned(item, values);
            && ChildVal(h, Box(ROOT), Name("l")) == Some(Box(InItem([Name("l")])))
            && Look(h, InItem([Name("l")])).Some? && Look(h, InItem([Name("l")])).value.ListCell?
            && |Look(h, InItem([Name("l")])).value.elems| == 3
  {
    assert Get(M(item), []) == Some(M(item)) && [] + [Name("l")] == [Name("l")];
    assert [Name("l")][1..] == [] && Get(L([a, b, c]), []) == Some(L([a, b, c]));
    assert Get(M(item), [Name("l")]) == Some(L([a, b, c]));
  }

  lemma ClonedValue(item: Item, values: Env, m: map<string, AV>)
    requires ":v" in values && values[":v"] == M(m)
    ensures var h := Cloned(item, values);
            && OperandVal(h, ValueRef(":v")) == Ok(Box(InValue(":v", [])))
            && Look(h, InValue(":v", [])).Some? && Look(h, InValue(":v", [])).value.MapCell?
  {
    assert Get(M(m), []) == Some(M(m));
  }

  lemma ThirdAndFourth(h2: Heap, h3: Heap, h4: Heap, w: Val)
    requires ChildVal(h2, Box(ROOT), Name("l")) == Some(Box(InItem([Name("l")])))
    requires ChildVal(h2, Box(ROOT), Name("x")) == Some(Box(InValue(":v", [])))
    requires var cell := Look(h2, InItem([Name("l")]));
             cell.Some? && cell.value.ListCell? && |cell.value.elems| == 3 &&
             cell.value.elems[2] == Box(InValue(":v", []))
    requires RemoveFrom(h2, Box(ROOT), [Name("l"), Index(0)]) == Ok(h3)
    requires RemoveFrom(h3, Box(ROOT), [Name("l"), Index(1), Name("y")]) == Ok(h4)
    ensures Walk(h4, Box(ROOT), [Name("x"), Name("y")]) == None
  {
    hide RemoveFrom, Walk;
    var l, v := Box(InItem([Name("l")])), Box(InValue(":v", []));
    RemoveDown(h2, Name("l"), Index(0), Name("y"), l);
    DropEffect(h2, l, Index(0));
    DroppedKids(h2, h3, l, Index(0));
    assert ChildVal(h3, Box(ROOT), Name("l")) == Some(l) && ChildVal(h3, Box(ROOT), Name("x")) == Some(v);
    assert Back(Index(0), Index(1)) == Index(2) && ChildVal(h3, l, Index(1)) == Some(v);
    RemoveDown(h3, Name("l"), Index(1), Name("y"), l);
    DropEffect(h3, v, Name("y"));
    DroppedKids(h3, h4, v, Name("y"));
    assert ChildVal(h4, Box(ROOT), Name("x")) == Some(v) && ChildVal(h4, v, Name("y")) == None;
    assert [Name("x"), Name("y")] == [Name("x")] + [Name("y")] && [Name("y")] == [Name("y")] + [];
    WalkCons(h4, Box(ROOT), Name("x"), [Name("y")]);
    WalkCons(h4, v, Name("y"), []);
  }

  /** On values, x keeps the map as it was sent. */
  lemma TwiceOnValues(item: Item, values: Env, a: AV, b: AV, c: AV, m: map<string, AV>)
    requires "l" in item && item["l"] == L([a, b, c]) && ":v" in values && values[":v"] == M(m)
    ensures var v, less := M(m), M(m - {"y"});
            ApplyAll(SetTwiceThenRemove(), item, values) == Ok(item["x" := v]["l" := L([b, less])])
  {
    hide ApplyAction;
    var s, v := SetTwiceThenRemove(), M(m);
    var d1 := item["l" := L([a, b, v])];
    var d2 := d1["x" := v];
    var d3 := d2["l" := L([b, v])];
    var d4 := d3["l" := L([b, M(m - {"y"})])];
    assert "l"[0] != "x"[0];
    SetInList(item, a, b, c, values);
    SetX(d1, values);
    DropFromList(d2, a, b, v, values);
    DropFromMap(d3, b, m, values);
    ApplyFour(s, item, d1, d2, d3, d4, values);
    assert d4 == item["x" := v]["l" := L([b, M(m - {"y"})])];
  }

  lemma SetInList(item: Item, a: AV, b: AV, c: AV, values: Env)
    requires "l" in item && item["l"] == L([a, b, c]) && ":v" in values
    ensures ApplyAction(SetTwiceThenRemove()[0], item, values) == Ok(item["l" := L([a, b, values[":v"]])])
  {
    var p: Path, v := [Name("l"), Index(2)], values[":v"];
    assert p[1..] == [Index(2)] && [Index(2)][1..] == [];
    assert Put(ChildOrNew(L([a, b, c]), Index(2)), [], v) == Ok(v) && [a, b, c][2 := v] == [a, b, v];
    assert Put(L([a, b, c]), [Index(2)], v) == Ok(L([a, b, v]));
    assert Put(M(item), p, v) == Ok(M(item["l" := L([a, b, v])]));
  }

  lemma SetX(item: Item, values: Env)
    requires ":v" in values
    ensures ApplyAction(SetTwiceThenRemove()[1], item, values) == Ok(item["x" := values[":v"]])
  {
    assert [Name("x")][1..] == [];
    assert Put(ChildOrNew(M(item), Name("x")), [], values[":v"]) == Ok(values[":v"]);
  }

  lemma DropFromList(item: Item, a: AV, b: AV, v: AV, values: Env)
    requires "l" in item && item["l"] == L([a, b, v])
    ensures ApplyAction(SetTwiceThenRemove()[2], item, values) == Ok(item["l" := L([b, v])])
  {
    var p: Path := [Name("l"), Index(0)];
    assert p[1..] == [Index(0)];
    assert [a, b, v][..0] + [a, b, v][1..] == [b, v];
    assert RemoveIn(L([a, b, v]), [Index(0)]) == Ok(L([b, v]));
  }

  lemma DropFromMap(item: Item, b: AV, m: map<string, AV>, values: Env)
    requires "l" in item && item["l"] == L([b, M(m)])
    ensures ApplyAction(SetTwiceThenRemove()[3], item, values) == Ok(item["l" := L([b, M(m - {"y"})])])
  {
    var p: Path := [Name("l"), Index(1), Name("y")];
    assert p[1..] == [Index(1), Name("y")] && p[1..][1..] == [Name("y")];
    assert RemoveIn(M(m), [Name("y")]) == Ok(M(m - {"y"}));
    assert [b, M(m)][1 := M(m - {"y"})] == [b, M(m - {"y"})];
    assert RemoveIn(L([b, M(m)]), p[1..]) == Ok(L([b, M(m - {"y"})]));
  }

  lemma ApplyFour(s: seq<Action>, d0: Item, d1: Item, d2: Item, d3: Item, d4: Item, values: Env)
    requires |s| == 4 && ApplyAction(s[0], d0, values) == Ok(d1) && ApplyAction(s[1], d1, values) == Ok(d2)
    requires ApplyAction(s[2], d2, values) == Ok(d3) && ApplyAction(s[3], d3, values) == Ok(d4)
    ensures ApplyAll(s, d0, values) == Ok(d4)
  {
    hide ApplyAction;
    assert s[1..][1..] == s[2..] && s[2..][1..] == s[3..] && s[3..][1..] == [];
    assert ApplyAll(s[3..], d3, values) == Ok(d4);
    assert ApplyAll(s[2..], d2, values) == Ok(d4);
    assert ApplyAll(s[1..], d1, values) == Ok(d4);
  }

  /** The REMOVEs are the last two. */
  lemma SetTwiceParts(s: seq<Action>, r: seq<Action>)
    requires |s| == 4 && r == [s[2], s[3]] && s[2].Remove? && s[3].Remove? && !s[0].Remove? && !s[1].Remove?
    ensures Removes(s) == r && Others(s) == [s[0], s[1]]
  {
    assert s[1..] == [s[1]] + r && ([s[1]] + r)[1..] == r && r[1..] == [s[3]] && [s[3]][1..] == [];
    assert Removes([]) == [] && Others([]) == [] && [s[3]] + [] == [s[3]] && [s[2]] + [s[3]] == r;
    assert Removes([s[3]]) == [s[3]] && Others([s[3]]) == [];
    assert Removes(r) == r && Others(r) == [];
    assert Removes([s[1]] + r) == r && Others([s[1]] + r) == [s[1]];
  }

  lemma SetTwiceParsed()
    ensures RunOrder(SetTwiceThenRemove()) == SetTwiceThenRemove() && ParsedUpdate(SetTwiceThenRemove())
  {
    hide SortRemoves, Removes, Others, ParsedUpdate;
    var s := SetTwiceThenRemove();
    var r := [s[2], s[3]];
    SetTwiceParts(s, r);
    SortsAsWritten(s[2], s[3]);
    assert [s[0], s[1]] + r == s;
    TargetsApart();
  }

  lemma SortsAsWritten(a: Action, b: Action)
    requires Last(b.path).Name?
    ensures SortRemoves([a, b]) == [a, b]
  {
    hide SortRemoves;
    SortsShort([a, b]);
    assert [a, b][..1] == [a] && [a][..0] == [] && [] + [a] == [a] && [a] + [b] == [a, b];
    assert InsertionSort([]) == [] && InsertionSort([a]) == [a];
    assert Insert([a], b) == [a, b];
  }

  lemma TargetsApart()
    ensures ParsedUpdate(SetTwiceThenRemove())
  {
    var s := SetTwiceThenRemove();
    assert "l"[0] != "x"[0];
    assert s[0].path[1..] == [Index(2)] && s[2].path[1..] == [Index(0)] && s[3].path[1..] == [Index(1), Name("y")];
    assert !Overlap(s[0].path[1..], s[2].path[1..]) && !Overlap(s[0].path[1..], s[3].path[1..]);
    assert !Overlap(s[2].path[1..], s[3].path[1..]);
  }

  /** The condition is needed: SET l[2] = :v, x = :v REMOVE l[0], l[1].y names no path on its right-hand
      sides, but stores one map under two names, and the removal goes into it after it has moved. */
  lemma ValueUsedTwice(item: Item, values: Env, a: AV, b: AV, c: AV, m: map<string, AV>)
    requires "l" in item && item["l"] == L([a, b, c]) && ":v" in values && values[":v"] == M(m) && "y" in m
    ensures ParsedUpdate(SetTwiceThenRemove())
    ensures forall i :: 0 <= i < 4 ==> Reads(SetTwiceThenRemove()[i]) == []
    ensures ByCopy(item, SetTwiceThenRemove(), values).Updated?
    ensures ByReference(item, SetTwiceThenRemove(), values) != ByCopy(item, SetTwiceThenRemove(), values)
  {
    hide RunRefs, ApplyUpdate, ApplyAll, Walk, RunOrder, Get, ParsedUpdate;
    var s := SetTwiceThenRemove();
    SetTwiceParsed();
    UpdateIsRun(item, s, values);
    TwiceOnValues(item, values, a, b, c, m);
    TwiceInPlace(item, values, a, b, c, m);
    var d := item["x" := M(m)]["l" := L([b, M(m - {"y"})])];
    assert "l"[0] != "x"[0];
    KeepsY(d, m);
    if RunRefs(Cloned(item, values), s).Ok? {
      var h := RunRefs(Cloned(item, values), s).value;
      if ReadItem(h) == Updated(d) {
        ReadIsDenoted(h, d);
        WalkDenotes(h, Box(ROOT), M(d), [Name("x"), Name("y")]);
      }
    }
  }

  lemma KeepsY(d: Item, m: map<string, AV>)
    requires "x" in d && d["x"] == M(m) && "y" in m
    ensures Get(M(d), [Name("x"), Name("y")]).Some?
  {
    assert [Name("x"), Name("y")][1..] == [Name("y")] && [Name("y")][1..] == [];
    assert Get(M(m), [Name("y")]) == Get(m["y"], []);
  }

  // ---- a map of the request inside itself ----

  /** SET l[2] = :v DELETE l[0] :s SET l[1].y = :v */
  function SetDeleteSet(): seq<Action> {
    [Set([Name("l"), Index(2)], Single(Plain(ValueRef(":v")))), Delete([Name("l"), Index(0)], ValueRef(":s")),
     Set([Name("l"), Index(1), Name("y")], Single(Plain(ValueRef(":v"))))]
  }

  lemma SetDeleteSetParsed()
    ensures ParsedUpdate(SetDeleteSet()) && RunOrder(SetDeleteSet()) == SetDeleteSet()
  {
    hide SortRemoves;
    var s := SetDeleteSet();
    assert s[1..] == [s[1], s[2]] && [s[1], s[2]][1..] == [s[2]] && [s[2]][1..] == [];
    assert Others([s[2]]) == [s[2]] && Removes([s[2]]) == [];
    assert Others([s[1], s[2]]) == [s[1], s[2]] && Removes([s[1], s[2]]) == [];
    assert Others(s) == [s[0]] + [s[1], s[2]] && Removes(s) == [];
    SortsNothing();
    assert s[0].path[1..] == [Index(2)] && s[1].path[1..] == [Index(0)] && s[2].path[1..] == [Index(1), Name("y")];
    assert !Overlap(s[0].path[1..], s[1].path[1..]) && !Overlap(s[0].path[1..], s[2].path[1..]);
    assert !Overlap(s[1].path[1..], s[2].path[1..]);
  }

  lemma {:induction false} NothingLeft(x: seq<bytes>, y: seq<bytes>)
    requires forall i :: 0 <= i < |x| ==> x[i] in y
    ensures Difference(SAME_BYTES, x, y) == []
  {
    if x != [] {
      NothingLeft(x[..|x| - 1], y);
      var j :| 0 <= j < |y| && y[j] == x[|x| - 1];
      assert SAME_BYTES(x[|x| - 1], y[j]);
    }
  }

  /** The emptied set is removed from the list, and the map moves to its place. */
  lemma DeletesFirst(h: Heap, x: seq<bytes>, v: Val, l: Val)
    requires ChildVal(h, Box(ROOT), Name("l")) == Some(l) && l == Box(InItem([Name("l")]))
    requires ChildVal(h, l, Index(0)) == Some(Atom(SS(x))) && ChildVal(h, l, Index(2)) == Some(v)
    requires ":s" in h.values && h.values[":s"] == SS(x) && v == Box(InValue(":v", []))
    ensures var h2 := ApplyRef(h, SetDeleteSet()[1]);
            && h2.Ok? && ChildVal(h2.value, Box(ROOT), Name("l")) == Some(l)
            && ChildVal(h2.value, l, Index(1)) == Some(v)
            && Look(h2.value, v.ref) == Look(h, v.ref) && h2.value.values == h.values
  {
    hide RemoveFrom, Walk, Difference;
    var a := SetDeleteSet()[1];
    NothingLeft(x, x);
    WalkCons(h, Box(ROOT), Name("l"), [Index(0)]);
    WalkOne(h, l, Index(0));
    assert [Name("l")] + [Index(0)] == a.path;
    RemoveDown(h, Name("l"), Index(0), Name("y"), l);
    assert DeletedVal(Atom(SS(x)), Atom(SS(x))) == Ok(Atom(SS([])));
    assert ApplyRef(h, a) == RemoveFrom(h, Box(ROOT), a.path);
    FirstDrops(h, l, v);
  }

  lemma FirstDrops(h: Heap, l: Val, v: Val)
    requires ChildVal(h, Box(ROOT), Name("l")) == Some(l) && l == Box(InItem([Name("l")]))
    requires ChildVal(h, l, Index(2)) == Some(v) && v == Box(InValue(":v", []))
    ensures var h2 := DropChild(h, l, Index(0));
            && h2.Ok? && ChildVal(h2.value, Box(ROOT), Name("l")) == Some(l)
            && ChildVal(h2.value, l, Index(1)) == Some(v)
            && Look(h2.value, v.ref) == Look(h, v.ref) && h2.value.values == h.values
  {
    DropEffect(h, l, Index(0));
    DroppedKids(h, DropChild(h, l, Index(0)).value, l, Index(0));
    assert Back(Index(0), Index(1)) == Index(2);
  }

  /** Then the map is put into itself. */
  lemma PutsIntoItself(h: Heap, v: Val, l: Val, m: map<string, AV>)
    requires ChildVal(h, Box(ROOT), Name("l")) == Some(l) && ChildVal(h, l, Index(1)) == Some(v)
    requires v == Box(InValue(":v", [])) && l == Box(InItem([Name("l")])) && Look(h, v.ref).Some?
    requires Look(h, v.ref).value.MapCell? && ":v" in h.values && h.values[":v"] == M(m)
    ensures var h2 := ApplyRef(h, SetDeleteSet()[2]);
            h2.Ok? && Unfold(h2.value, Box(ROOT), {}).None?
  {
    hide PutIn, Walk, Unfold, SetChild;
    var q := [Name("l"), Index(1)];
    WalkCons(h, Box(ROOT), Name("l"), [Index(1)]);
    WalkOne(h, l, Index(1));
    assert [Name("l")] + [Index(1)] == q && q + [Name("y")] == [Name("l"), Index(1), Name("y")];
    PutAlong(h, Box(ROOT), q, [Name("y")], v);
    PutLast(h, v, Name("y"), v);
    var h2 := SetChild(h, v, Name("y"), v).value;
    assert ApplyRef(h, SetDeleteSet()[2]) == PutIn(h, Box(ROOT), q + [Name("y")], v);
    ChildAfter(h, v, v, Box(ROOT), Name("l"));
    ChildAfter(h, v, v, l, Index(1));
    ChildAfter(h, v, v, v, Name("y"));
    WalkCons(h2, Box(ROOT), Name("l"), [Index(1)]);
    WalkOne(h2, l, Index(1));
    WalkOne(h2, v, Name("y"));
    CycleNeverUnfolds(h2, Box(ROOT), q, [Name("y")]);
  }

  lemma PutLast(h: Heap, v: Val, e: Elem, y: Val)
    requires v.Box? && Look(h, v.ref).Some? && Look(h, v.ref).value.MapCell? && e.Name?
    ensures PutIn(h, v, [e], y) == SetChild(h, v, e, y) && SetChild(h, v, e, y).Ok?
  {
  }

  lemma ChildAfter(h: Heap, v: Val, y: Val, w: Val, f: Elem)
    requires SetChild(h, v, Name("y"), y).Ok? && w.Box?
    ensures ChildVal(SetChild(h, v, Name("y"), y).value, w, f) ==
            if w == v && f == Name("y") then Some(y) else ChildVal(h, w, f)
  {
    SetChildEffect(h, v, Name("y"), y);
  }

  lemma ThreeRefs(h: Heap, s: seq<Action>, h1: Heap, h2: Heap, h3: Heap)
    requires |s| == 3 && ApplyRef(h, s[0]) == Ok(h1) && ApplyRef(h1, s[1]) == Ok(h2) && ApplyRef(h2, s[2]) == Ok(h3)
    ensures RunRefs(h, s) == Ok(h3)
  {
    hide ApplyRef, RunRefs;
    RunFirst(h, s);
    RunFirst(h1, s[1..]);
    assert s[1..][1..] == [s[2]];
    RunOne(h2, s[2]);
  }

  lemma SetsThird(item: Item, values: Env, x: seq<bytes>, b: AV, c: AV, m: map<string, AV>)
    requires "l" in item && item["l"] == L([SS(x), b, c]) && ":v" in values && values[":v"] == M(m)
    ensures var h1, l := ApplyRef(Cloned(item, values), SetDeleteSet()[0]), Box(InItem([Name("l")]));
            && h1.Ok? && ChildVal(h1.value, Box(ROOT), Name("l")) == Some(l) && h1.value.values == values
            && ChildVal(h1.value, l, Index(0)) == Some(Atom(SS(x)))
            && ChildVal(h1.value, l, Index(2)) == Some(Box(InValue(":v", [])))
            && Look(h1.value, InValue(":v", [])).Some? && Look(h1.value, InValue(":v", [])).value.MapCell?
  {
    hide PutIn, Walk;
    var h0, v, l := Cloned(item, values), Box(InValue(":v", [])), Box(InItem([Name("l")]));
    ClonedList(item, values, SS(x), b, c);
    ClonedFirst(item, values, x, b, c);
    ClonedValue(item, values, m);
    PutDown(h0, Name("l"), Index(2), v);
    assert SetChild(h0, l, Index(2), v).Ok?;
    SetChildEffect(h0, l, Index(2), v);
  }

  lemma ClonedFirst(item: Item, values: Env, x: seq<bytes>, b: AV, c: AV)
    requires "l" in item && item["l"] == L([SS(x), b, c])
    ensures ChildVal(Cloned(item, values), Box(InItem([Name("l")])), Index(0)) == Some(Atom(SS(x)))
  {
    assert [Name("l")][1..] == [] && Get(L([SS(x), b, c]), []) == Some(L([SS(x), b, c]));
    assert Get(M(item), [Name("l")]) == Some(L([SS(x), b, c]));
  }

  /** Even without paths on the right an update may never be read to the end: in SET l[2] = :v DELETE l[0] :s
      SET l[1].y = :v the emptied set leaves the list, so that the second SET puts the map of the request into
      itself. */
  lemma ValueIntoItself(item: Item, values: Env, x: seq<bytes>, b: AV, c: AV, m: map<string, AV>)
    requires "l" in item && item["l"] == L([SS(x), b, c])
    requires ":v" in values && values[":v"] == M(m) && ":s" in values && values[":s"] == SS(x)
    ensures ParsedUpdate(SetDeleteSet()) && forall i :: 0 <= i < 3 ==> Reads(SetDeleteSet()[i]) == []
    ensures ByReference(item, SetDeleteSet(), values) == Endless
  {
    hide RunRefs, ApplyRef, RunOrder, ParsedUpdate, Unfold, ChildVal, Look;
    var s, h0 := SetDeleteSet(), Cloned(item, values);
    var v, l := Box(InValue(":v", [])), Box(InItem([Name("l")]));
    SetDeleteSetParsed();
    SetsThird(item, values, x, b, c, m);
    var h1 := ApplyRef(h0, s[0]).value;
    DeletesFirst(h1, x, v, l);
    var h2 := ApplyRef(h1, s[1]).value;
    PutsIntoItself(h2, v, l, m);
    ThreeRefs(h0, s, h1, h2, ApplyRef(h2, s[2]).value);
  }
}
