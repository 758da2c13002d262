/** What the REMOVEs of an update take out of an item when containers are stored in several places
    (update.go applyUpdate). */
module RemovesByReference {
  import opened Wrappers
  import opened Values
  import opened Paths
  import opened Expressions
  import opened Updates
  import opened RemoveSort
  import opened UpdateOrder
  import opened RunOrders
  import opened ListRemoval
  import opened Pruning
  import opened RemoveOrder
  import opened References
  import opened Reading
  import opened InPlace
  import opened RightHandSides
  import opened InPlaceSteps
  import opened UpdatesByReference
  import opened UnsharedUpdates
  import opened SharedWrites
  import opened SharedRemovals

  /** The SETs, ADDs and DELETEs of the update succeed and leave h, which reads as mid. */
  ghost predicate BeforeRemoves(item: Item, actions: seq<Action>, values: Env, h: Heap, mid: Item) {
    RunRefs(Cloned(item, values), Others(actions)) == Ok(h) && ReadItem(h) == Updated(mid)
  }

  /** The places at which the REMOVEs show, one REMOVE after the other as they run. */
  ghost function Shown(h: Heap, actions: seq<Action>): seq<Path> {
    Expanded(h, RunOfRemoves(actions))
  }

  lemma OnlyRemoves(actions: seq<Action>)
    ensures forall i :: 0 <= i < |SortRemoves(Removes(actions))| ==> SortRemoves(Removes(actions))[i].Remove?
  {
    hide SortRemoves, Removes;
    var s := SortRemoves(Removes(actions));
    forall i | 0 <= i < |s|
      ensures s[i].Remove?
    {
      SortMembers(Removes(actions), s[i]);
      RemovesOnly(actions);
    }
  }

  /** Whatever the other actions have stored in several places: a REMOVE is a removal at every place
      where its container is. */
  lemma RemovesShowEverywhere(item: Item, actions: seq<Action>, values: Env, h: Heap, mid: Item)
    requires BeforeRemoves(item, actions, values, h, mid)
    ensures ByReference(item, actions, values) ==
              match RemoveAll(M(mid), Shown(h, actions)) case Ok(M(d)) => Updated(d) case _ => Failed
  {
    hide SortRemoves, Removes, Others, RunRefs, Unfold, Denotes, RemoveAll, Expanded, PathsOf;
    var s := SortRemoves(Removes(actions));
    OnlyRemoves(actions);
    RunConcat(Cloned(item, values), Others(actions), s);
    ReadIsDenoted(h, mid);
    RunOfSpots(h, mid, s);
    var r := RemoveAll(M(mid), Expanded(h, PathsOf(s)));
    if r.Ok? {
      DenotedReads(RunRefs(h, s).value, r.value.attrs);
    }
  }

  /** Every update that succeeds, if what its other actions leave can be read: the REMOVEs take out, all
      at once, what was at the places they executed at. These are the places they name if and only if, in
      the order in which they run, none moves the target of a later one, and none removes from a container
      that is in two places. */
  lemma RemovesArePruned(item: Item, actions: seq<Action>, values: Env, h: Heap, mid: Item)
    requires BeforeRemoves(item, actions, values, h, mid) && ByReference(item, actions, values).Updated?
    ensures M(ByReference(item, actions, values).item) == Prune(M(mid), PlacesOf(Executed(Shown(h, actions))))
    ensures multiset(Executed(Shown(h, actions))) == Named(Removes(actions)) <==>
            NoneMoves(RunOfRemoves(actions)) && Shown(h, actions) == RunOfRemoves(actions)
  {
    hide SortRemoves, Removes, Others, RunRefs, ReadItem, Executed, NoneMoves, Prune, RemoveAll, PathsAsPlaces;
    hide PathsOf, Expanded;
    var s := SortRemoves(Removes(actions));
    RemovesShowEverywhere(item, actions, values, h, mid);
    RemovalsPrune(M(mid), Shown(h, actions));
    PrunedMap(mid, PlacesOf(Executed(Shown(h, actions))));
    SortKeeps(Removes(actions));
    PathsPermuted(s, Removes(actions));
    ExecutedAsNamedIff(PathsOf(s));
    if multiset(Executed(Shown(h, actions))) == Named(Removes(actions)) {
      SameSize(Executed(Shown(h, actions)), PathsAsPlaces(PathsOf(s)));
      AtLeast(h, PathsOf(s));
    }
  }

  lemma SameSize<T>(a: seq<T>, b: seq<T>)
    requires multiset(a) == multiset(b)
    ensures |a| == |b|
  {
    assert |multiset(a)| == |a| && |multiset(b)| == |b|;
  }

  /** Every removal shows at its path, and if that is all, then nothing else is removed. */
  lemma {:induction false} AtLeast(h: Heap, o: seq<Path>)
    ensures |Expanded(h, o)| >= |o| && (|Expanded(h, o)| == |o| ==> Expanded(h, o) == o)
    decreases |o|
  {
    hide ReadItem, RemoveFrom, OtherPlaces;
    if o != [] {
      match (ReadItem(h), RemoveFrom(h, Box(ROOT), o[0])) {
        case (Updated(d), Ok(h2)) =>
          AtLeast(h2, o[1..]);
          assert |Spots(h, d, o[0])| >= 1 && Spots(h, d, o[0])[0] == o[0];
          if |Expanded(h, o)| == |o| {
            assert Spots(h, d, o[0]) == [o[0]] && o == [o[0]] + o[1..];
          }
        case _ =>
      }
    }
  }

  // ---- one list ----

  function AsRemoves(o: seq<Path>): (r: seq<Action>)
    ensures |r| == |o| && forall i :: 0 <= i < |o| ==> r[i] == Remove(o[i])
  {
    seq(|o|, i requires 0 <= i < |o| => Remove(o[i]))
  }

  lemma AsRemovesPaths(o: seq<Path>)
    ensures PathsOf(AsRemoves(o)) == o
  {
  }

  lemma PathsAsRemoves(s: seq<Action>)
    requires forall i :: 0 <= i < |s| ==> s[i].Remove?
    ensures AsRemoves(PathsOf(s)) == s
  {
    assert forall i :: 0 <= i < |s| ==> AsRemoves(PathsOf(s))[i] == s[i];
  }

  /** The REMOVEs at every place at which they show. */
  ghost function ShownRemoves(h: Heap, actions: seq<Action>): seq<Action> {
    AsRemoves(Shown(h, actions))
  }

  /** The REMOVEs are simultaneous on the list at p, for the indices it has after the other actions: the
      elements not named are left, in their order, if the indices at which removals show there descend. For
      a list of distinct elements that is exact. Any other REMOVE may be there that does not overlap p and
      does not move it. When nothing shows elsewhere, the indices are those of the sorted REMOVEs, and up to
      twenty REMOVEs they descend if and only if no two stand in ascending order around another REMOVE. */
  lemma RemoveSimultaneousIff(item: Item, actions: seq<Action>, values: Env, h: Heap, mid: Item, p: Path, l: seq<AV>)
    requires BeforeRemoves(item, actions, values, h, mid) && ByReference(item, actions, values).Updated?
    requires ResolvePath(mid, p) == Some(L(l)) && RemovesAround(ShownRemoves(h, actions), p)
    ensures var o := Indices(ShownRemoves(h, actions), p);
            var rest := L(Keep(l, SetOf(o)));
            var left := ResolvePath(ByReference(item, actions, values).item, p);
            && (Descending(o) ==> left == Some(rest))
            && (Distinct(l) ==> (left == Some(rest) <==> Descending(o)))
    ensures Shown(h, actions) == RunOfRemoves(actions) && Disjoint(actions) ==>
              var o := Indices(ShownRemoves(h, actions), p);
              && SetOf(o) == SetOf(Indices(Removes(actions), p))
              && (|Removes(actions)| <= BLOCK ==> (Descending(o) <==> Uninterrupted(Removes(actions), p)))
  {
    hide BeforeRemoves, ByReference, Shown, RemoveAll, RemovesAround, Indices, ResolvePath, Keep, RemoveInOrder;
    hide Descending, Distinct, SortRemoves, Removes, Uninterrupted, Disjoint, ApplyAll;
    var s := ShownRemoves(h, actions);
    var o := Indices(s, p);
    RemovesShowEverywhere(item, actions, values, h, mid);
    RunIsRemoveAll(s, mid, values);
    AsRemovesPaths(Shown(h, actions));
    ListAfterRemoves(s, mid, p, l, values);
    InOrderCounts(l, o);
    if Descending(o) {
      DescendingIsSimultaneous(l, o);
    }
    if Distinct(l) {
      SimultaneousIffDescending(l, o);
    }
    if Shown(h, actions) == RunOfRemoves(actions) && Disjoint(actions) {
      OnlyRemoves(actions);
      PathsAsRemoves(SortRemoves(Removes(actions)));
      SortedIndicesDistinct(actions, p);
      SameSet(o, Indices(Removes(actions), p));
      if |Removes(actions)| <= BLOCK {
        SortedIffUninterrupted(Removes(actions), p);
      }
    }
  }

  lemma SameSet(o: seq<nat>, a: seq<nat>)
    requires forall v :: v in o <==> v in a
    ensures SetOf(o) == SetOf(a)
  {
  }

  // ---- when the REMOVEs show nowhere else ----

  lemma OnlySpot(h: Heap, d: Item, p: Path)
    requires Once(h, Box(ROOT), Parent(p))
    ensures Spots(h, d, p) == [p]
  {
    hide Walk, PlacesIn;
    assert OtherPlaces(h, d, p) == {};
  }

  lemma {:induction false} ShownInTree(h: Heap, d: Item, s: seq<Action>)
    requires InProgress(h, d, {}) && AllTrees(h, {}) && RunRefs(h, s).Ok?
    requires forall i :: 0 <= i < |s| ==> s[i].Remove?
    ensures Expanded(h, PathsOf(s)) == PathsOf(s)
    decreases |s|
  {
    hide InProgress, AllTrees, RemoveFrom, RemovePath, ReadItem, Ready, PathsOf, Spots;
    if s != [] {
      var p := s[0].path;
      PathsOfRest(s);
      ProgressReads(h, d, {});
      TreesAreReady(h, {}, p);
      RemoveProgress(h, d, {}, p);
      RemoveTrees(h, d, {}, p);
      ParentOnce(h, p, {});
      OnlySpot(h, d, p);
      ShownInTree(RemoveFrom(h, Box(ROOT), p).value, RemovePath(d, p).value, s[1..]);
      assert PathsOf(s) == [p] + PathsOf(s[1..]);
    }
  }

  lemma ParentOnce(h: Heap, p: Path, names: set<string>)
    requires Ready(h, p, names)
    ensures Once(h, Box(ROOT), Parent(p))
  {
    assert p[..|p| - 1] == Parent(p);
  }

  lemma {:induction false} ShownIfReady(h: Heap, d: Item, names: set<string>, s: seq<Action>)
    requires InProgress(h, d, names) && AllReady(h, s, names) && NoShift(s) && RunRefs(h, s).Ok?
    requires forall i :: 0 <= i < |s| ==> s[i].Remove?
    ensures Expanded(h, PathsOf(s)) == PathsOf(s)
    decreases |s|
  {
    hide InProgress, RemoveFrom, RemovePath, ReadItem, Ready, PathsOf, Spots, Overlap, Uses, StoresAbove, Shifts;
    if s != [] {
      var p, rest := s[0].path, s[1..];
      PathsOfRest(s);
      RemovesStoreNothing(s);
      GuardsOfRest(s);
      assert forall j :: 0 <= j < |rest| ==> rest[j] == s[j + 1];
      ProgressReads(h, d, names);
      StoresIntoMay(s[0], d);
      hide StoresInto;
      RemoveProgress(h, d, names, p);
      ParentOnce(h, p, names);
      OnlySpot(h, d, p);
      var h2 := RemoveFrom(h, Box(ROOT), p).value;
      forall j | 0 <= j < |rest|
        ensures Ready(h2, rest[j].path, names)
      {
        StepReady(h, d, names, s[0], rest[j].path);
      }
      ShownIfReady(h2, RemovePath(d, p).value, names, rest);
      assert PathsOf(s) == [p] + PathsOf(rest);
    }
  }

  lemma RemovesStoreNothing(s: seq<Action>)
    requires forall i :: 0 <= i < |s| ==> s[i].Remove?
    ensures NoWriteIntoStored(s)
  {
  }

  /** The way to later targets stays unshared while the guards hold. */
  lemma {:induction false} ReadyAfter(h: Heap, d: Item, names: set<string>, a: seq<Action>, b: seq<Action>)
    requires InProgress(h, d, names) && AllReady(h, a + b, names) && NoWriteIntoStored(a + b) && NoShift(a + b)
    requires RunRefs(h, a).Ok?
    ensures ApplyAll(a, d, h.values).Ok?
    ensures InProgress(RunRefs(h, a).value, ApplyAll(a, d, h.values).value, names)
    ensures AllReady(RunRefs(h, a).value, b, names) && NoShift(b)
    decreases |a|
  {
    hide InProgress, Ready, StoresAbove, Shifts, Overlap, ApplyRef, ApplyAction, Uses, Disjoint;
    if a == [] {
      assert a + b == b;
    } else {
      var run, rest := a + b, a[1..] + b;
      assert run[0] == a[0] && run[1..] == rest;
      GuardsOfRest(run);
      hide NoWriteIntoStored, NoShift;
      assert forall j :: 0 <= j < |rest| ==> rest[j] == run[j + 1];
      StoresIntoMay(a[0], d);
      hide StoresInto;
      StepProgress(h, d, names, a[0]);
      var h2 := ApplyRef(h, a[0]).value;
      forall j | 0 <= j < |rest|
        ensures Ready(h2, rest[j].path, names)
      {
        StepReady(h, d, names, a[0], rest[j].path);
      }
      ReadyAfter(h2, ApplyAction(a[0], d, h.values).value, names, a[1..], b);
    }
  }

  lemma ClonedAllReady(item: Item, values: Env, run: seq<Action>)
    requires Disjoint(run)
    ensures AllReady(Cloned(item, values), run, set k, j | 0 <= j < |run| && k in Uses(run[j]) :: k)
  {
    hide Ready, Uses, Disjoint;
    forall j | 0 <= j < |run|
      ensures Ready(Cloned(item, values), run[j].path, set k, j | 0 <= j < |run| && k in Uses(run[j]) :: k)
    {
      ClonedReady(item, values, run[j].path, set k, j | 0 <= j < |run| && k in Uses(run[j]) :: k);
    }
  }

  lemma OnceOfFirst(a: seq<Action>, b: seq<Action>, values: Env)
    requires EachValueOnce(a + b, values)
    ensures EachValueOnce(a, values)
  {
    hide Uses, Reads, UsesOnce, IsScalar;
    assert forall i :: 0 <= i < |a| ==> (a + b)[i] == a[i];
    forall i, j, k | 0 <= i < j < |a| && k in Uses(a[i]) && k in Uses(a[j]) && k in values
      ensures IsScalar(values[k])
    {
      assert k in Uses((a + b)[i]) && k in Uses((a + b)[j]);
    }
  }

  /** Either guard under which references do what copies do. */
  predicate Guarded(actions: seq<Action>, values: Env) {
    || EachValueOnce(RunOrder(actions), values)
    || (ParsedUpdate(actions) && NoWriteIntoStored(RunOrder(actions)) && NoShift(RunOrder(actions)))
  }

  /** Under the guards the REMOVEs show at their own places only, and act on what copying leaves. */
  lemma GuardedShowsAsNamed(item: Item, actions: seq<Action>, values: Env) returns (h: Heap, mid: Item)
    requires Guarded(actions, values) && ByReference(item, actions, values).Updated?
    ensures BeforeRemoves(item, actions, values, h, mid) && ApplyAll(Others(actions), item, values) == Ok(mid)
    ensures Shown(h, actions) == RunOfRemoves(actions)
    ensures ByReference(item, actions, values) == ByCopy(item, actions, values)
  {
    hide SortRemoves, Removes, Others, RunRefs, Unfold, InProgress, AllTrees, AllReady, EachValueOnce, ParsedUpdate;
    hide NoWriteIntoStored, NoShift, ApplyAll, ApplyUpdate, AllUses, PathsOf, Expanded, ReadItem, Disjoint, Uses;
    var h0, a, b := Cloned(item, values), Others(actions), SortRemoves(Removes(actions));
    OnlyRemoves(actions);
    RunConcat(h0, a, b);
    h := RunRefs(h0, a).value;
    if EachValueOnce(a + b, values) {
      ValuesAsCopies(item, actions, values);
      OnceOfFirst(a, b, values);
      ClonedProgress(item, values, AllUses(a));
      ClonedTrees(item, values, AllUses(a));
      RunOfTrees(h0, item, a);
      mid := ApplyAll(a, item, values).value;
      ProgressReads(h, mid, {});
      ShownInTree(h, mid, b);
    } else {
      ReferencesAsCopies(item, actions, values);
      RunOrderParsed(actions);
      ParsedDisjoint(a + b);
      var names := set k, j | 0 <= j < |a + b| && k in Uses((a + b)[j]) :: k;
      ClonedProgress(item, values, names);
      ClonedAllReady(item, values, a + b);
      ReadyAfter(h0, item, names, a, b);
      mid := ApplyAll(a, item, values).value;
      ProgressReads(h, mid, names);
      ShownIfReady(h, mid, names, b);
    }
  }

  // ---- updates that come to an end ----

  /** REMOVEs store nothing: if what the other actions leave can be read, so can the result. */
  lemma ReadableStaysSo(item: Item, actions: seq<Action>, values: Env, h: Heap, mid: Item)
    requires BeforeRemoves(item, actions, values, h, mid)
    ensures ByReference(item, actions, values) != Endless
  {
    hide BeforeRemoves, ByReference, Shown, RemoveAll;
    RemovesShowEverywhere(item, actions, values, h, mid);
  }

  lemma OthersStoreAsCopied(item: Item, actions: seq<Action>, values: Env) returns (h: Heap, mid: Item)
    requires Disjoint(Others(actions)) && NoWriteIntoStored(Others(actions)) && NoShift(Others(actions))
    requires RunRefs(Cloned(item, values), Others(actions)).Ok?
    ensures BeforeRemoves(item, actions, values, h, mid) && ApplyAll(Others(actions), item, values) == Ok(mid)
  {
    hide RunRefs, ReadItem, InProgress, AllReady, NoWriteIntoStored, NoShift, Disjoint, ApplyAll, Uses, Others;
    var run, h0 := Others(actions), Cloned(item, values);
    var names := set k, j | 0 <= j < |run| && k in Uses(run[j]) :: k;
    ClonedProgress(item, values, names);
    ClonedAllReady(item, values, run);
    RunOfReferences(h0, item, names, run);
    h, mid := RunRefs(h0, run).value, ApplyAll(run, item, values).value;
    ProgressReads(h, mid, names);
  }

  lemma {:induction false} OthersOnly(actions: seq<Action>)
    requires Disjoint(actions)
    ensures Disjoint(Others(actions)) && forall a :: a in Others(actions) <==> a in actions && !a.Remove?
  {
    hide Overlap, Disjoint;
    if actions == [] {
      NoneOverlap(Others(actions));
    } else {
      assert actions == [actions[0]] + actions[1..];
      ApartFromAll(actions[1..], actions[0]);
      OthersOnly(actions[1..]);
      if !actions[0].Remove? {
        var s := Others(actions);
        assert s[..0] + s[1..] == Others(actions[1..]);
        DisjointWith(s, 0);
      } else {
        assert [] + Others(actions[1..]) == Others(actions[1..]);
      }
    }
  }

  /** An update is read to the end, whatever it removes, if none of its other actions stores a container that
      it or a later one changes, or goes into an element that an earlier one has moved. */
  lemma GuardedComesToAnEnd(item: Item, actions: seq<Action>, values: Env)
    requires Disjoint(actions) && NoWriteIntoStored(Others(actions)) && NoShift(Others(actions))
    ensures ByReference(item, actions, values) != Endless
  {
    hide RunRefs, ReadItem, NoWriteIntoStored, NoShift, Disjoint, BeforeRemoves, ApplyAll, Others, SortRemoves, Removes;
    OthersOnly(actions);
    RunConcat(Cloned(item, values), Others(actions), SortRemoves(Removes(actions)));
    if RunRefs(Cloned(item, values), Others(actions)).Ok? {
      var h, mid := OthersStoreAsCopied(item, actions, values);
      ReadableStaysSo(item, actions, values, h, mid);
    }
  }

  /** An update whose right-hand sides name no path is read to the end, unless a DELETE that empties a set in
      a list moves an element that a later action goes into. */
  lemma ValuesComeToAnEnd(item: Item, actions: seq<Action>, values: Env)
    requires Disjoint(actions) && (forall a :: a in actions ==> Reads(a) == []) && NoShift(Others(actions))
    ensures ByReference(item, actions, values) != Endless
  {
    hide Overlap, Reads, ByReference, NoShift, Disjoint, StoresAbove;
    OthersOnly(actions);
    var run := Others(actions);
    forall i, j | 0 <= i <= j < |run|
      ensures !StoresAbove(run[i], run[j].path)
    {
      assert run[i] in actions;
      StoresNoPath(run[i], run[j].path);
    }
    GuardedComesToAnEnd(item, actions, values);
  }
}
