/** Updates that store references (update.go applyUpdate, evalSetValue): when the document is the one that
    copying gives. */
module UpdatesByReference {
  import opened Wrappers
  import opened Values
  import opened Paths
  import opened Expressions
  import opened Updates
  import opened RemoveSort
  import opened RunOrders
  import opened References
  import opened Reading
  import opened InPlace
  import opened RightHandSides
  import opened InPlaceSteps

  /** Endless: validating the document that the update leaves never comes to an end. */
  datatype UpdateResult = Failed | Endless | Updated(item: Item)

  function ReadItem(h: Heap): UpdateResult {
    match Unfold(h, Box(ROOT), {})
    case Some(M(item)) => Updated(item)
    case _ => Endless
  }

  /** applyUpdate on a clone of the item, and the validation of what it leaves. */
  function ByReference(item: Item, actions: seq<Action>, values: Env): UpdateResult {
    match RunRefs(Cloned(item, values), RunOrder(actions))
    case Err => Failed
    case Ok(h) => ReadItem(h)
  }

  /** The same on values, where right-hand paths are copied. */
  function ByCopy(item: Item, actions: seq<Action>, values: Env): UpdateResult {
    match ApplyUpdate(item, actions, values)
    case Err => Failed
    case Ok(d) => Updated(d)
  }

  // ---- whole updates ----

  /** No action stores a container that it, or a later action, changes. */
  predicate NoWriteIntoStored(run: seq<Action>) {
    forall i, j :: 0 <= i <= j < |run| ==> !StoresAbove(run[i], run[j].path)
  }

  /** No action goes into an element that an earlier one has moved. */
  predicate NoShift(run: seq<Action>) {
    forall i, j :: 0 <= i < j < |run| ==> !Shifts(run[i], run[j].path)
  }

  /** The paths do not overlap, and every one is ready. */
  ghost predicate AllReady(h: Heap, run: seq<Action>, names: set<string>) {
    Disjoint(run) && forall j :: 0 <= j < |run| ==> Ready(h, run[j].path, names) && Uses(run[j]) <= names
  }

  lemma GuardsOfRest(run: seq<Action>)
    requires run != [] && NoWriteIntoStored(run) && NoShift(run) && Disjoint(run)
    ensures NoWriteIntoStored(run[1..]) && NoShift(run[1..]) && Disjoint(run[1..])
    ensures !StoresAbove(run[0], run[0].path)
    ensures forall j :: 0 <= j < |run| - 1 ==>
              !StoresAbove(run[0], run[1..][j].path) && !Shifts(run[0], run[1..][j].path) &&
              !Overlap(run[0].path, run[1..][j].path)
  {
    hide StoresAbove, Shifts, Overlap;
    assert forall j :: 0 <= j < |run| - 1 ==> run[1..][j] == run[j + 1];
    forall i, j | 0 <= i <= j < |run| - 1
      ensures !StoresAbove(run[1..][i], run[1..][j].path)
      ensures i < j ==> !Shifts(run[1..][i], run[1..][j].path) && !Overlap(run[1..][i].path, run[1..][j].path)
    {
      assert !StoresAbove(run[i + 1], run[j + 1].path);
      assert i < j ==> !Shifts(run[i + 1], run[j + 1].path) && !Overlap(run[i + 1].path, run[j + 1].path);
    }
  }

  /** The actions in place, with references, do what they do on values. */
  lemma {:induction false} RunOfReferences(h: Heap, d: Item, names: set<string>, run: seq<Action>)
    requires InProgress(h, d, names) && AllReady(h, run, names) && NoWriteIntoStored(run) && NoShift(run)
    ensures RunRefs(h, run).Ok? <==> ApplyAll(run, d, h.values).Ok?
    ensures RunRefs(h, run).Ok? ==> InProgress(RunRefs(h, run).value, ApplyAll(run, d, h.values).value, names)
    decreases |run|
  {
    hide InProgress, Ready, StoresAbove, Shifts, Overlap, ApplyRef, ApplyAction, Uses, Disjoint;
    if run != [] {
      var a, rest := run[0], run[1..];
      GuardsOfRest(run);
      hide NoWriteIntoStored, NoShift;
      assert forall j :: 0 <= j < |rest| ==> rest[j] == run[j + 1];
      StoresIntoMay(a, d);
      hide StoresInto;
      StepProgress(h, d, names, a);
      if ApplyRef(h, a).Ok? {
        var h2 := ApplyRef(h, a).value;
        forall j | 0 <= j < |rest|
          ensures Ready(h2, rest[j].path, names)
        {
          StepReady(h, d, names, a, rest[j].path);
        }
        RunOfReferences(h2, ApplyAction(a, d, h.values).value, names, rest);
      }
    }
  }

  // ---- short runs ----

  lemma RunFirst(h: Heap, s: seq<Action>)
    requires s != []
    ensures RunRefs(h, s) == match ApplyRef(h, s[0]) case Err => Err case Ok(d) => RunRefs(d, s[1..])
  {
    hide ApplyRef;
  }

  lemma RunOne(h: Heap, a: Action)
    ensures RunRefs(h, [a]) == ApplyRef(h, a)
  {
    hide ApplyRef;
    assert [a][1..] == [];
    var d := ApplyRef(h, a);
    assert d.Ok? ==> RunRefs(d.value, []) == Ok(d.value);
  }

  // ---- from the clone ----

  lemma ClonedProgress(item: Item, values: Env, names: set<string>)
    ensures InProgress(Cloned(item, values), item, names)
  {
    hide Sane, Denotes;
    var h := Cloned(item, values);
    ClonedSane(h);
    assert Get(M(item), []) == Some(M(item));
    ClonedDenotes(h, M(item), ROOT);
    forall k | k in names && k in values
      ensures Linked(h, ValueVal(h, k)) && Denotes(h, ValueVal(h, k), values[k])
    {
      assert Get(values[k], []) == Some(values[k]);
      ClonedDenotes(h, values[k], InValue(k, []));
    }
  }

  lemma ClonedPlace(item: Item, values: Env, q: seq<Elem>)
    ensures Walk(Cloned(item, values), Box(ROOT), q) ==
              match Get(M(item), q) case None => None case Some(x) => Some(ValOf(x, InItem(q)))
  {
    assert Get(M(item), []) == Some(M(item)) && [] + q == q;
    ClonedWalk(Cloned(item, values), M(item), ROOT, q);
  }

  lemma ClonedValuePlace(item: Item, values: Env, k: string, q: seq<Elem>)
    requires k in values
    ensures Walk(Cloned(item, values), ValueVal(Cloned(item, values), k), q) ==
              match Get(values[k], q) case None => None case Some(x) => Some(ValOf(x, InValue(k, q)))
  {
    assert Get(values[k], []) == Some(values[k]) && [] + q == q;
    ClonedWalk(Cloned(item, values), values[k], InValue(k, []), q);
  }

  /** In a clone nothing is shared. */
  lemma ClonedReady(item: Item, values: Env, w: seq<Elem>, names: set<string>)
    ensures Ready(Cloned(item, values), w, names)
  {
    hide Walk, Get;
    var h := Cloned(item, values);
    forall i | 0 <= i < |w|
      ensures Once(h, Box(ROOT), w[..i])
    {
      ClonedOnce(item, values, w[..i]);
    }
    forall k, i | k in names && k in values && 0 <= i < |w|
      ensures Apart(h, Box(ROOT), w[..i], ValueVal(h, k))
    {
      ClonedApart(item, values, w[..i], k);
    }
  }

  lemma ClonedOnce(item: Item, values: Env, u: seq<Elem>)
    ensures Once(Cloned(item, values), Box(ROOT), u)
  {
    hide Walk, Get;
    forall q
      ensures Walk(Cloned(item, values), Box(ROOT), q) ==
                match Get(M(item), q) case None => None case Some(x) => Some(ValOf(x, InItem(q)))
    {
      ClonedPlace(item, values, q);
    }
  }

  lemma ClonedApart(item: Item, values: Env, u: seq<Elem>, k: string)
    requires k in values
    ensures Apart(Cloned(item, values), Box(ROOT), u, ValueVal(Cloned(item, values), k))
  {
    hide Walk, Get;
    ClonedPlace(item, values, u);
    forall q
      ensures Walk(Cloned(item, values), ValueVal(Cloned(item, values), k), q) ==
                match Get(values[k], q) case None => None case Some(x) => Some(ValOf(x, InValue(k, q)))
    {
      ClonedValuePlace(item, values, k, q);
    }
  }

  lemma ProgressReads(h: Heap, d: Item, names: set<string>)
    requires InProgress(h, d, names)
    ensures ReadItem(h) == Updated(d)
  {
    hide Unfold, Sane, Linked;
    DenotedUnfolds(h, Box(ROOT), M(d), {});
  }

  lemma ReadIsDenoted(h: Heap, d: Item)
    requires ReadItem(h) == Updated(d)
    ensures Denotes(h, Box(ROOT), M(d))
  {
    hide Unfold, Denotes;
    UnfoldDenotes(h, Box(ROOT), {});
  }

  /** applyUpdate with references gives what copying gives, as long as no action stores a container that
      it or a later action changes, and none goes into an element that an earlier one has moved. */
  lemma ReferencesAsCopies(item: Item, actions: seq<Action>, values: Env)
    requires ParsedUpdate(actions) && NoWriteIntoStored(RunOrder(actions)) && NoShift(RunOrder(actions))
    ensures ByReference(item, actions, values) == ByCopy(item, actions, values)
  {
    hide ParsedUpdate, NoWriteIntoStored, NoShift, RunOrder, InProgress, Ready, ApplyUpdate, ApplyAll, ReadItem, Uses;
    var run, h := RunOrder(actions), Cloned(item, values);
    var names := set k, j | 0 <= j < |run| && k in Uses(run[j]) :: k;
    UpdateIsRun(item, actions, values);
    RunOrderParsed(actions);
    ParsedDisjoint(run);
    hide Disjoint;
    ClonedProgress(item, values, names);
    forall j | 0 <= j < |run|
      ensures Ready(h, run[j].path, names)
    {
      ClonedReady(item, values, run[j].path, names);
    }
    RunOfReferences(h, item, names, run);
    if RunRefs(h, run).Ok? {
      ProgressReads(RunRefs(h, run).value, ApplyAll(run, item, values).value, names);
    }
  }

  lemma ParsedDisjoint(run: seq<Action>)
    requires ParsedUpdate(run)
    ensures Disjoint(run)
  {
  }
}
