/** Updates whose right-hand sides name no path (update.go): if no map or list of the request is used
    twice, no two places ever share an object. */
module UnsharedUpdates {
  import opened Wrappers
  import opened Values
  import opened Paths
  import opened Expressions
  import opened Updates
  import opened RemoveSort
  import opened UpdateOrder
  import opened RunOrders
  import opened References
  import opened Reading
  import opened InPlace
  import opened Places
  import opened Dropping
  import opened RightHandSides
  import opened InPlaceSteps
  import opened UpdatesByReference

  // ---- trees ----

  /** No container occurs twice below v. */
  ghost predicate IsTree(h: Heap, v: Val) {
    forall u :: Once(h, v, u)
  }

  /** No container occurs below both. */
  ghost predicate NoneShared(h: Heap, v: Val, w: Val) {
    forall c :: !(Reaches(h, v, c) && Reaches(h, w, c))
  }

  /** The document and the attribute values that are still to be used: trees that share nothing. */
  ghost predicate AllTrees(h: Heap, names: set<string>) {
    && IsTree(h, Box(ROOT))
    && (forall k :: k in names && k in h.values ==>
          IsTree(h, ValueVal(h, k)) && NoneShared(h, Box(ROOT), ValueVal(h, k)))
    && forall k, l :: k in names && l in names && k in h.values && l in h.values && k != l ==>
         NoneShared(h, ValueVal(h, k), ValueVal(h, l))
  }

  lemma TreesAreReady(h: Heap, names: set<string>, w: seq<Elem>)
    requires AllTrees(h, names)
    ensures Ready(h, w, names)
  {
    hide Walk, Reaches;
    forall k, i | k in names && k in h.values && 0 <= i < |w|
      ensures Apart(h, Box(ROOT), w[..i], ValueVal(h, k))
    {
      TreesApart(h, Box(ROOT), ValueVal(h, k), w[..i]);
    }
  }

  lemma TreesApart(h: Heap, v: Val, w: Val, u: seq<Elem>)
    requires NoneShared(h, v, w)
    ensures Apart(h, v, u, w)
  {
    hide Walk;
    if Walk(h, v, u).Some? && Walk(h, v, u).value.Box? {
      ReachedBy(h, v, u, Walk(h, v, u).value.ref);
    }
  }

  lemma ApartTrees(h: Heap, v: Val, w: Val)
    requires forall u :: Apart(h, v, u, w)
    ensures NoneShared(h, v, w)
  {
    hide Walk;
    forall c | Reaches(h, v, c)
      ensures !Reaches(h, w, c)
    {
      var u :| Walk(h, v, u) == Some(Box(c));
      assert Apart(h, v, u, w);
    }
  }

  lemma TreeFrame(h: Heap, h2: Heap, v: Val)
    requires SameBelow(h, h2, v) && IsTree(h, v)
    ensures IsTree(h2, v)
  {
    hide Walk, SameBelow;
    forall q
      ensures Walk(h2, v, q) == Walk(h, v, q)
    {
      WalkFrame(h, h2, v, q);
    }
    forall u
      ensures Once(h2, v, u)
    {
      assert Once(h, v, u);
    }
  }

  lemma NoneSharedFrame(h: Heap, h2: Heap, v: Val, w: Val)
    requires SameBelow(h, h2, v) && SameBelow(h, h2, w) && NoneShared(h, v, w)
    ensures NoneShared(h2, v, w)
  {
    hide Reaches, SameBelow;
    forall c
      ensures !(Reaches(h2, v, c) && Reaches(h2, w, c))
    {
      ReachesFrame(h, h2, v, c);
      ReachesFrame(h, h2, w, c);
    }
  }

  // ---- right-hand sides without paths ----

  /** No map or list of the request is used twice within r. */
  predicate RvalueOnce(r: Rvalue, values: Env) {
    match r
    case Plain(_) => true
    case IfNotExists(_, otherwise) => RvalueOnce(otherwise, values)
    case ListAppend(a, b) =>
      RvalueOnce(a, values) && RvalueOnce(b, values) &&
      forall k :: k in RvalueUses(a) && k in RvalueUses(b) && k in values ==> IsScalar(values[k])
  }

  /** c is new or belongs to one of these attribute values. */
  ghost predicate Owned(h: Heap, uses: set<string>, c: Ref) {
    IsNew(h, c) || exists k :: k in uses && k in h.values && Reaches(h, ValueVal(h, k), c)
  }

  /** y is a tree made of these attribute values and of new containers. */
  ghost predicate MadeOf(h: Heap, uses: set<string>, h2: Heap, y: Val) {
    && IsTree(h2, y)
    && forall c :: Reaches(h2, y, c) ==> Owned(h, uses, c)
  }

  lemma AtomMade(h: Heap, uses: set<string>, h2: Heap, y: Val)
    requires y.Atom?
    ensures MadeOf(h, uses, h2, y)
  {
    hide Walk, Reaches;
    forall u
      ensures Once(h2, y, u)
    {
      AtomOnce(h2, y, u);
    }
    forall c
      ensures !Reaches(h2, y, c)
    {
      AtomReachesNot(h2, y, c);
    }
  }

  lemma AtomOnce(h: Heap, y: Val, u: seq<Elem>)
    requires y.Atom?
    ensures Once(h, y, u)
  {
  }

  lemma ValueMade(h: Heap, names: set<string>, k: string)
    requires AllTrees(h, names) && k in names && k in h.values
    ensures MadeOf(h, {k}, h, ValueVal(h, k))
  {
    hide Reaches, IsTree;
  }

  lemma {:induction false} RvalueMade(h: Heap, d: Item, names: set<string>, r: Rvalue)
    requires InProgress(h, d, names) && AllTrees(h, names) && RvalueUses(r) <= names && RvalueVal(h, r).Ok?
    requires RvalueReads(r) == [] && RvalueOnce(r, h.values)
    ensures MadeOf(h, RvalueUses(r), RvalueVal(h, r).value.1, RvalueVal(h, r).value.0)
    decreases r
  {
    hide InProgress, AllTrees, MadeOf, OperandVal, Walk, Sane, Linked, Denotes, ElemsOf, Make, IsScalar, SameBelow;
    hide EvalRvalue;
    SaneProgress(h, d, names);
    match r {
      case Plain(o) =>
        OperandMade(h, names, o);
      case IfNotExists(p, otherwise) =>
        assert false;
      case ListAppend(a, b) =>
        assert RvalueReads(a) == [] && RvalueReads(b) == [];
        RvalueDenotes(h, d, names, a);
        RvalueMade(h, d, names, a);
        var x, h1 := RvalueVal(h, a).value.0, RvalueVal(h, a).value.1;
        ExtendsProgress(h, h1, d, names);
        ExtendsValues(h, h1);
        TreesExtended(h, h1, d, names);
        RvalueDenotes(h1, d, names, b);
        RvalueMade(h1, d, names, b);
        var y, h2 := RvalueVal(h1, b).value.0, RvalueVal(h1, b).value.1;
        ExtendsSame(h1, h2, x);
        LaterMade(h, h1, h2, d, names, RvalueUses(a), RvalueUses(b), x, y);
        JoinedMade(h, RvalueUses(a) + RvalueUses(b), h2, x, y);
    }
  }

  lemma OperandMade(h: Heap, names: set<string>, o: Operand)
    requires AllTrees(h, names) && OperandUses(o) <= names && OperandVal(h, o).Ok? && OperandReads(o) == []
    ensures MadeOf(h, OperandUses(o), h, OperandVal(h, o).value)
  {
    hide AllTrees, MadeOf, Walk;
    match o {
      case ValueRef(k) =>
        assert k in names;
        ValueMade(h, names, k);
      case _ => assert false;
    }
  }

  lemma TreesExtended(h: Heap, h2: Heap, d: Item, names: set<string>)
    requires InProgress(h, d, names) && AllTrees(h, names) && Extends(h, h2)
    ensures AllTrees(h2, names)
  {
    hide Sane, Linked, Denotes, Extends, SameBelow, IsTree, NoneShared;
    ExtendsValues(h, h2);
    ExtendsSame(h, h2, Box(ROOT));
    TreeFrame(h, h2, Box(ROOT));
    forall k | k in names && k in h.values
      ensures SameBelow(h, h2, ValueVal(h, k))
      ensures IsTree(h2, ValueVal(h2, k)) && NoneShared(h2, Box(ROOT), ValueVal(h2, k))
    {
      ExtendsSame(h, h2, ValueVal(h, k));
      TreeFrame(h, h2, ValueVal(h, k));
      NoneSharedFrame(h, h2, Box(ROOT), ValueVal(h, k));
    }
    forall k, l | k in names && l in names && k in h.values && l in h.values && k != l
      ensures NoneShared(h2, ValueVal(h2, k), ValueVal(h2, l))
    {
      NoneSharedFrame(h, h2, ValueVal(h, k), ValueVal(h, l));
    }
  }

  /** x was made first and y after it, of other values: seen from the end, both are trees that share
      nothing. */
  lemma LaterMade(h: Heap, h1: Heap, h2: Heap, d: Item, names: set<string>, a: set<string>, b: set<string>,
                  x: Val, y: Val)
    requires InProgress(h, d, names) && AllTrees(h, names) && Extends(h, h1) && Sane(h1) && Linked(h1, x)
    requires a + b <= names && forall k :: k in a && k in b && k in h.values ==> IsScalar(h.values[k])
    requires MadeOf(h, a, h1, x) && MadeOf(h1, b, h2, y) && Extends(h1, h2) && SameBelow(h1, h2, x)
    ensures IsTree(h2, x) && IsTree(h2, y) && NoneShared(h2, x, y)
    ensures forall c :: Reaches(h2, x, c) || Reaches(h2, y, c) ==> Owned(h, a + b, c)
  {
    hide Sane, Linked, Denotes, SameBelow, IsTree, Reaches, AllTrees, IsScalar, InProgress;
    TreeFrame(h1, h2, x);
    forall c
      ensures Reaches(h2, x, c) <==> Reaches(h1, x, c)
      ensures !(Reaches(h2, x, c) && Reaches(h2, y, c))
      ensures Reaches(h2, x, c) || Reaches(h2, y, c) ==> Owned(h, a + b, c)
    {
      ReachesFrame(h1, h2, x, c);
      if Reaches(h1, x, c) {
        ReachedIsLinked(h1, x, c);
      }
      if Reaches(h2, y, c) && !IsNew(h1, c) {
        var l :| l in b && l in h1.values && Reaches(h1, ValueVal(h1, l), c);
        ValueReachFrame(h, h1, d, names, l, c);
        assert l in a + b;
        if Reaches(h1, x, c) {
          ValueIsOld(h, d, names, l, c);
          var k :| k in a && k in h.values && Reaches(h, ValueVal(h, k), c);
          OneOwner(h, names, k, l, c);
          ScalarReachesNot(h, k, c);
        }
      }
    }
  }

  /** Where a place of the joined list was in one of the two lists. */
  function Source(h: Heap, x: Val, y: Val, e: Elem): Val
    requires ElemsOf(h, x).Some?
  {
    if e.Index? && e.index >= |ElemsOf(h, x).value| then y else x
  }

  lemma JoinedPlace(h: Heap, x: Val, y: Val, u: seq<Elem>)
    requires Sane(h) && Linked(h, x) && Linked(h, y) && ElemsOf(h, x).Some? && ElemsOf(h, y).Some? && u != []
    ensures var h2 := Make(h, ListCell(ElemsOf(h, x).value + ElemsOf(h, y).value));
            var w := Walk(h2, Box(Made(h.made)), u);
            w.Some? ==> w == Walk(h, Source(h, x, y, u[0]), [ElemIn(h, x, u[0])] + u[1..])
  {
    hide Walk, Sane, Linked, SameBelow, ChildVal, Part;
    var cell := ListCell(ElemsOf(h, x).value + ElemsOf(h, y).value);
    var h2, v := Make(h, cell), Box(Made(h.made));
    MakeEffect(h, cell);
    if Walk(h2, v, u).Some? {
      StepOfWalk(h2, v, u);
      var w, s, f := ChildVal(h2, v, u[0]).value, Source(h, x, y, u[0]), ElemIn(h, x, u[0]);
      ElemOfSource(h, x, y, u[0], w);
      SaneKid(h, s, f);
      assert Extends(h, h2);
      ExtendsSame(h, h2, w);
      WalkFrame(h, h2, w, u[1..]);
      WalkCons(h, s, f, u[1..]);
    }
  }

  lemma ElemOfSource(h: Heap, x: Val, y: Val, e: Elem, w: Val)
    requires ElemsOf(h, x).Some? && ElemsOf(h, y).Some?
    requires Part(ListCell(ElemsOf(h, x).value + ElemsOf(h, y).value), e) == Some(w)
    ensures ChildVal(h, Source(h, x, y, e), ElemIn(h, x, e)) == Some(w)
  {
  }

  lemma SourceInjective(h: Heap, x: Val, y: Val, e: Elem, f: Elem)
    requires ElemsOf(h, x).Some? && Source(h, x, y, e) == Source(h, x, y, f) && x != y
    requires ElemIn(h, x, e) == ElemIn(h, x, f)
    ensures e == f
  {
    hide ElemsOf;
  }

  /** A list joined of two trees that share nothing is a tree. */
  lemma JoinedTree(h: Heap, x: Val, y: Val, u: seq<Elem>, q: seq<Elem>, c: Ref)
    requires Sane(h) && Linked(h, x) && Linked(h, y) && ElemsOf(h, x).Some? && ElemsOf(h, y).Some?
    requires IsTree(h, x) && IsTree(h, y) && NoneShared(h, x, y)
    requires var h2 := Make(h, ListCell(ElemsOf(h, x).value + ElemsOf(h, y).value));
             Walk(h2, Box(Made(h.made)), u) == Walk(h2, Box(Made(h.made)), q) == Some(Box(c))
    ensures u == q
    ensures c == Made(h.made) || Reaches(h, x, c) || Reaches(h, y, c)
  {
    hide Walk, Sane, Linked, ElemsOf, Make, ElemIn, Source;
    var h2, v := Make(h, ListCell(ElemsOf(h, x).value + ElemsOf(h, y).value)), Box(Made(h.made));
    WalkHere(h2, v);
    ListsDiffer(h, x, y);
    if u != [] {
      JoinedReach(h, x, y, u, c);
    }
    if q != [] {
      JoinedReach(h, x, y, q, c);
    }
    if u != [] && q != [] {
      var s, t := Source(h, x, y, u[0]), Source(h, x, y, q[0]);
      var a, b := [ElemIn(h, x, u[0])] + u[1..], [ElemIn(h, x, q[0])] + q[1..];
      SourceIsEither(h, x, y, u[0]);
      SourceIsEither(h, x, y, q[0]);
      assert s == t;
      assert Once(h, s, a);
      assert a == b && a[0] == ElemIn(h, x, u[0]) && a[1..] == u[1..] && b[1..] == q[1..];
      SourceInjective(h, x, y, u[0], q[0]);
      assert u == [u[0]] + u[1..] && q == [q[0]] + q[1..];
    }
  }

  lemma SourceIsEither(h: Heap, x: Val, y: Val, e: Elem)
    requires ElemsOf(h, x).Some?
    ensures Source(h, x, y, e) == x || Source(h, x, y, e) == y
  {
  }

  /** Lists are containers, so a list shares something with itself. */
  lemma ListsDiffer(h: Heap, x: Val, y: Val)
    requires ElemsOf(h, x).Some? && NoneShared(h, x, y)
    ensures x != y
  {
    ReachesHere(h, x);
  }

  lemma JoinedReach(h: Heap, x: Val, y: Val, u: seq<Elem>, c: Ref)
    requires Sane(h) && Linked(h, x) && Linked(h, y) && ElemsOf(h, x).Some? && ElemsOf(h, y).Some? && u != []
    requires var h2 := Make(h, ListCell(ElemsOf(h, x).value + ElemsOf(h, y).value));
             Walk(h2, Box(Made(h.made)), u) == Some(Box(c))
    ensures Walk(h, Source(h, x, y, u[0]), [ElemIn(h, x, u[0])] + u[1..]) == Some(Box(c))
    ensures Reaches(h, Source(h, x, y, u[0]), c) && c != Made(h.made)
  {
    hide Walk, Sane, Linked, ElemsOf, Make, ElemIn, Reaches;
    JoinedPlace(h, x, y, u);
    SourceIsEither(h, x, y, u[0]);
    ReachedBy(h, Source(h, x, y, u[0]), [ElemIn(h, x, u[0])] + u[1..], c);
    ReachedIsLinked(h, Source(h, x, y, u[0]), c);
  }

  lemma JoinedMade(h: Heap, uses: set<string>, h2: Heap, x: Val, y: Val)
    requires Sane(h2) && Linked(h2, x) && Linked(h2, y) && ElemsOf(h2, x).Some? && ElemsOf(h2, y).Some?
    requires IsTree(h2, x) && IsTree(h2, y) && NoneShared(h2, x, y) && h2.made >= h.made
    requires forall c :: Reaches(h2, x, c) || Reaches(h2, y, c) ==> Owned(h, uses, c)
    ensures MadeOf(h, uses, Make(h2, ListCell(ElemsOf(h2, x).value + ElemsOf(h2, y).value)), Box(Made(h2.made)))
  {
    hide Walk, Sane, Linked, ElemsOf, Make, IsTree, NoneShared;
    var h3, v := Make(h2, ListCell(ElemsOf(h2, x).value + ElemsOf(h2, y).value)), Box(Made(h2.made));
    forall u
      ensures Once(h3, v, u)
    {
      forall q | Walk(h3, v, u).Some? && Walk(h3, v, u).value.Box? && Walk(h3, v, q) == Walk(h3, v, u)
        ensures q == u
      {
        JoinedTree(h2, x, y, u, q, Walk(h3, v, u).value.ref);
      }
    }
    EveryOnce(h3, v);
    forall c | Reaches(h3, v, c)
      ensures Owned(h, uses, c)
    {
      var u :| Walk(h3, v, u) == Some(Box(c));
      JoinedTree(h2, x, y, u, u, c);
    }
  }

  lemma EveryOnce(h: Heap, v: Val)
    requires forall u :: Once(h, v, u)
    ensures IsTree(h, v)
  {
  }

  lemma ValueReachFrame(h: Heap, h1: Heap, d: Item, names: set<string>, l: string, c: Ref)
    requires InProgress(h, d, names) && Extends(h, h1) && l in names && l in h.values
    ensures l in h1.values && (Reaches(h1, ValueVal(h1, l), c) <==> Reaches(h, ValueVal(h, l), c))
  {
    hide Sane, Linked, Denotes, SameBelow, Reaches, Extends;
    ExtendsValues(h, h1);
    ExtendsSame(h, h1, ValueVal(h, l));
    ReachesFrame(h, h1, ValueVal(h, l), c);
  }

  lemma ValueIsOld(h: Heap, d: Item, names: set<string>, l: string, c: Ref)
    requires InProgress(h, d, names) && l in names && l in h.values && Reaches(h, ValueVal(h, l), c)
    ensures !IsNew(h, c)
  {
    hide Sane, Linked, Denotes, Reaches;
    ReachedIsLinked(h, ValueVal(h, l), c);
  }

  lemma OneOwner(h: Heap, names: set<string>, k: string, l: string, c: Ref)
    requires AllTrees(h, names) && k in names && l in names && k in h.values && l in h.values
    requires Reaches(h, ValueVal(h, k), c) && Reaches(h, ValueVal(h, l), c)
    ensures k == l
  {
    hide Reaches, IsTree;
    assert k != l ==> NoneShared(h, ValueVal(h, k), ValueVal(h, l));
  }

  lemma ScalarReachesNot(h: Heap, k: string, c: Ref)
    requires k in h.values && Reaches(h, ValueVal(h, k), c)
    ensures !IsScalar(h.values[k])
  {
    hide Reaches;
    if IsScalar(h.values[k]) {
      AtomReachesNot(h, ValueVal(h, k), c);
    }
  }

  // ---- one action ----

  /** No map or list of the request is used twice within the action. */
  predicate UsesOnce(a: Action, values: Env) {
    a.Set? && a.value.Single? ==> RvalueOnce(a.value.r, values)
  }

  lemma StoredMade(h: Heap, d: Item, names: set<string>, a: Action)
    requires InProgress(h, d, names) && AllTrees(h, names) && Uses(a) <= names && StoredValid(h, a)
    requires Reads(a) == [] && UsesOnce(a, h.values)
    ensures MadeOf(h, Uses(a), StoredVal(h, a).value.1, StoredVal(h, a).value.0)
  {
    hide InProgress, AllTrees, MadeOf, OperandVal, Walk, RvalueVal;
    match a {
      case Set(_, Single(r)) => RvalueMade(h, d, names, r);
      case Set(_, Sum(_, _, _)) => AtomMade(h, Uses(a), StoredVal(h, a).value.1, StoredVal(h, a).value.0);
      case Add(_, _) => AtomMade(h, Uses(a), StoredVal(h, a).value.1, StoredVal(h, a).value.0);
    }
  }

  predicate StoredValid(h: Heap, a: Action) {
    IsWrite(a) && StoredVal(h, a).Ok?
  }

  /** What was made shares nothing with the document or with values that are still to be used. */
  lemma MadeApart(h: Heap, d: Item, names: set<string>, uses: set<string>, h1: Heap, y: Val, later: set<string>)
    requires InProgress(h, d, names) && AllTrees(h, names) && Extends(h, h1) && MadeOf(h, uses, h1, y)
    requires uses <= names && later <= names
    requires forall k :: k in later && k in uses && k in h.values ==> IsScalar(h.values[k])
    ensures NoneShared(h1, Box(ROOT), y)
    ensures forall l :: l in later && l in h.values ==> NoneShared(h1, y, ValueVal(h1, l))
  {
    hide Sane, Linked, Denotes, SameBelow, IsTree, Reaches, AllTrees, IsScalar, Extends;
    ExtendsValues(h, h1);
    ExtendsSame(h, h1, Box(ROOT));
    forall c | Reaches(h1, y, c)
      ensures !Reaches(h1, Box(ROOT), c)
      ensures forall l :: l in later && l in h.values ==> !Reaches(h1, ValueVal(h1, l), c)
    {
      assert Owned(h, uses, c);
      ReachesFrame(h, h1, Box(ROOT), c);
      OwnedApart(h, d, names, uses, c);
      forall l | l in later && l in h.values
        ensures !Reaches(h1, ValueVal(h1, l), c)
      {
        ValueReachFrame(h, h1, d, names, l, c);
        if Reaches(h, ValueVal(h, l), c) {
          ValueIsOld(h, d, names, l, c);
          var k :| k in uses && k in h.values && Reaches(h, ValueVal(h, k), c);
          OneOwner(h, names, k, l, c);
          ScalarReachesNot(h, k, c);
        }
      }
    }
  }

  lemma OwnedApart(h: Heap, d: Item, names: set<string>, uses: set<string>, c: Ref)
    requires InProgress(h, d, names) && AllTrees(h, names) && uses <= names && Owned(h, uses, c)
    ensures !Reaches(h, Box(ROOT), c)
  {
    hide Sane, Linked, Denotes, Reaches, IsTree;
    assert forall k :: k in uses && k in h.values ==> NoneShared(h, Box(ROOT), ValueVal(h, k));
    if Reaches(h, Box(ROOT), c) {
      ReachedIsLinked(h, Box(ROOT), c);
    }
  }

  /** setPath with a tree of its own. */
  lemma PutTrees(h: Heap, d: Item, names: set<string>, p: Path, y: Val)
    requires InProgress(h, d, names) && AllTrees(h, names) && Linked(h, y) && PutIn(h, Box(ROOT), p, y).Ok?
    requires IsTree(h, y) && NoneShared(h, Box(ROOT), y)
    requires forall l :: l in names && l in h.values ==> NoneShared(h, y, ValueVal(h, l))
    ensures AllTrees(PutIn(h, Box(ROOT), p, y).value, names)
  {
    hide Walk, Sane, Linked, Denotes, PutIn, SameBelow, Reaches, OnWay, Alone, Off;
    var h2 := PutIn(h, Box(ROOT), p, y).value;
    PutTouches(h, Box(ROOT), p, y);
    TreesAreReady(h, names, p);
    ValuesKept(h, h2, p, names);
    WayNotIn(h, p, y);
    PutIsTree(h, p, y);
    forall k | k in names && k in h.values
      ensures IsTree(h2, ValueVal(h2, k)) && NoneShared(h2, Box(ROOT), ValueVal(h2, k))
    {
      TreeFrame(h, h2, ValueVal(h, k));
      PutNoneShared(h, p, y, ValueVal(h, k));
    }
    forall k, l | k in names && l in names && k in h.values && l in h.values && k != l
      ensures NoneShared(h2, ValueVal(h2, k), ValueVal(h2, l))
    {
      NoneSharedFrame(h, h2, ValueVal(h, k), ValueVal(h, l));
    }
  }

  lemma WayNotIn(h: Heap, p: Path, y: Val)
    requires IsTree(h, Box(ROOT)) && NoneShared(h, Box(ROOT), y)
    ensures Alone(h, Box(ROOT), p) && forall r :: OnWay(h, Box(ROOT), p, r) ==> !Reaches(h, y, r)
  {
    hide Walk, Reaches;
    forall r | OnWay(h, Box(ROOT), p, r)
      ensures !Reaches(h, y, r)
    {
      WayReached(h, Box(ROOT), p, r);
    }
  }

  lemma PutIsTree(h: Heap, p: Path, y: Val)
    requires Sane(h) && Linked(h, Box(ROOT)) && Linked(h, y) && PutIn(h, Box(ROOT), p, y).Ok?
    requires IsTree(h, Box(ROOT)) && IsTree(h, y) && NoneShared(h, Box(ROOT), y)
    ensures IsTree(PutIn(h, Box(ROOT), p, y).value, Box(ROOT))
  {
    hide Walk, Sane, Linked, PutIn, SameBelow, Reaches, OnWay, Alone, Once, Overlap, Missing;
    var h2 := PutIn(h, Box(ROOT), p, y).value;
    PutTouches(h, Box(ROOT), p, y);
    WayNotIn(h, p, y);
    StoredIsSame(h, h2, Box(ROOT), p, y);
    forall u | !(p <= u)
      ensures Once(h2, Box(ROOT), u)
    {
      TreesApart(h, Box(ROOT), y, u);
      PutKeepsOnce(h, Box(ROOT), p, y, u);
    }
    forall u | p <= u
      ensures Once(h2, Box(ROOT), u)
    {
      StoredOnce(h, h2, p, y, u);
    }
  }

  /** Within what was stored, and against the rest of the document. */
  lemma StoredOnce(h: Heap, h2: Heap, p: Path, y: Val, u: seq<Elem>)
    requires Sane(h) && Linked(h, Box(ROOT)) && Linked(h, y) && Alone(h, Box(ROOT), p)
    requires PutIn(h, Box(ROOT), p, y) == Ok(h2) && IsTree(h, y) && SameBelow(h, h2, y) && p <= u
    requires forall q :: !(p <= q) ==> Once(h2, Box(ROOT), q)
    ensures Once(h2, Box(ROOT), u)
  {
    hide Sane, Linked, PutIn, SameBelow, Alone, Overlap, Missing, Walk;
    forall q | Walk(h2, Box(ROOT), u).Some? && Walk(h2, Box(ROOT), u).value.Box? &&
               Walk(h2, Box(ROOT), q) == Walk(h2, Box(ROOT), u)
      ensures q == u
    {
      PutWalk(h, Box(ROOT), p, y, u);
      PutWalk(h, Box(ROOT), p, y, q);
      WalkFrame(h, h2, y, u[|p|..]);
      if p <= q {
        WalkFrame(h, h2, y, q[|p|..]);
        assert Once(h, y, u[|p|..]);
        assert u == p + u[|p|..] && q == p + q[|p|..];
      } else {
        OnceAt(h2, q, u);
      }
    }
  }

  lemma OnceAt(h: Heap, q: seq<Elem>, u: seq<Elem>)
    requires Walk(h, Box(ROOT), u).Some? && Walk(h, Box(ROOT), u).value.Box?
    requires Walk(h, Box(ROOT), u) == Walk(h, Box(ROOT), q) && Once(h, Box(ROOT), q)
    ensures u == q
  {
  }

  lemma PutNoneShared(h: Heap, p: Path, y: Val, z: Val)
    requires Sane(h) && Linked(h, Box(ROOT)) && Linked(h, y) && Linked(h, z) && PutIn(h, Box(ROOT), p, y).Ok?
    requires Alone(h, Box(ROOT), p) && (forall r :: OnWay(h, Box(ROOT), p, r) ==> !Reaches(h, y, r))
    requires NoneShared(h, Box(ROOT), z) && NoneShared(h, y, z) && SameBelow(h, PutIn(h, Box(ROOT), p, y).value, z)
    ensures NoneShared(PutIn(h, Box(ROOT), p, y).value, Box(ROOT), z)
  {
    hide Sane, Linked, PutIn, SameBelow, Alone, Walk, Reaches, OnWay, Overlap, Missing;
    var h2 := PutIn(h, Box(ROOT), p, y).value;
    PutTouches(h, Box(ROOT), p, y);
    StoredIsSame(h, h2, Box(ROOT), p, y);
    forall u
      ensures Apart(h2, Box(ROOT), u, z)
    {
      if p <= u {
        PutWalk(h, Box(ROOT), p, y, u);
        NoneSharedFrame(h, h2, y, z);
        TreesApart(h2, y, z, u[|p|..]);
      } else {
        TreesApart(h, Box(ROOT), z, u);
        PutKeepsApart(h, Box(ROOT), p, y, u, z);
      }
    }
    ApartTrees(h2, Box(ROOT), z);
  }

  /** applyRemove among trees. */
  lemma RemoveTrees(h: Heap, d: Item, names: set<string>, p: Path)
    requires InProgress(h, d, names) && AllTrees(h, names) && RemoveFrom(h, Box(ROOT), p).Ok?
    ensures AllTrees(RemoveFrom(h, Box(ROOT), p).value, names)
  {
    hide Walk, Sane, Linked, Denotes, RemoveFrom, SameBelow, Reaches, Once, Before;
    var h2 := RemoveFrom(h, Box(ROOT), p).value;
    if Walk(h, Box(ROOT), Parent(p)).None? {
      RemoveNothing(h, p);
      return;
    }
    RemoveTouches(h, Box(ROOT), p);
    TreesAreReady(h, names, p);
    ValuesKept(h, h2, p, names);
    forall u
      ensures Once(h2, Box(ROOT), u)
    {
      RemoveKeepsOnce(h, Box(ROOT), p, u);
    }
    forall k | k in names && k in h.values
      ensures IsTree(h2, ValueVal(h2, k)) && NoneShared(h2, Box(ROOT), ValueVal(h2, k))
    {
      TreeFrame(h, h2, ValueVal(h, k));
      RemoveNoneShared(h, p, ValueVal(h, k));
    }
    forall k, l | k in names && l in names && k in h.values && l in h.values && k != l
      ensures NoneShared(h2, ValueVal(h2, k), ValueVal(h2, l))
    {
      NoneSharedFrame(h, h2, ValueVal(h, k), ValueVal(h, l));
    }
  }

  lemma RemoveNoneShared(h: Heap, p: Path, z: Val)
    requires Sane(h) && Once(h, Box(ROOT), Parent(p)) && RemoveFrom(h, Box(ROOT), p).Ok?
    requires Walk(h, Box(ROOT), Parent(p)).Some?
    requires NoneShared(h, Box(ROOT), z) && SameBelow(h, RemoveFrom(h, Box(ROOT), p).value, z)
    ensures NoneShared(RemoveFrom(h, Box(ROOT), p).value, Box(ROOT), z)
  {
    hide Sane, RemoveFrom, SameBelow, Walk, Once, Before;
    var h2 := RemoveFrom(h, Box(ROOT), p).value;
    forall c | Reaches(h2, Box(ROOT), c)
      ensures !Reaches(h2, z, c)
    {
      var u :| Walk(h2, Box(ROOT), u) == Some(Box(c));
      RemoveWalk(h, Box(ROOT), p, u);
      ReachedBy(h, Box(ROOT), Before(p, u), c);
      ReachesFrame(h, h2, z, c);
    }
  }

  lemma {:induction false} StoresNothing(r: Rvalue, n: nat, u: seq<Elem>)
    requires RvalueReads(r) == []
    ensures !MayStore(r, n, u)
  {
    match r {
      case Plain(o) => assert o.ValueRef?;
      case IfNotExists(p, otherwise) => assert false;
      case ListAppend(a, b) =>
        assert RvalueReads(a) == [] && RvalueReads(b) == [];
        StoresNothing(a, 1, u);
        StoresNothing(b, 1, u);
    }
  }

  /** One action on trees that share nothing leaves trees that share nothing. */
  lemma StepTrees(h: Heap, d: Item, names: set<string>, a: Action, later: set<string>)
    requires InProgress(h, d, names) && AllTrees(h, names) && Uses(a) <= names && later <= names
    requires Reads(a) == [] && UsesOnce(a, h.values) && ApplyRef(h, a).Ok?
    requires forall k :: k in later && k in Uses(a) && k in h.values ==> IsScalar(h.values[k])
    ensures AllTrees(ApplyRef(h, a).value, later)
  {
    hide Walk, Denotes, Linked, Sane, OperandVal, StoredVal, InProgress, AllTrees, Uses, UsesOnce;
    hide DeletedValue, PutIn, RemoveFrom, Extends, MadeOf, Reads;
    FewerTrees(h, names, later);
    FewerInProgress(h, d, names, later);
    match a {
      case Remove(p) => RemoveTrees(h, d, later, p);
      case Delete(p, o) =>
        if Walk(h, Box(ROOT), p).Some? {
          var z := DeletedVal(OperandVal(h, o).value, Walk(h, Box(ROOT), p).value).value;
          if EmptySet(z.av) {
            RemoveTrees(h, d, later, p);
          } else {
            AtomDenotes(h, z.av);
            AtomTree(h, z);
            PutTrees(h, d, later, p, z);
          }
        }
      case _ =>
        StoredDenotes(h, d, names, a);
        StoredMade(h, d, names, a);
        var y, h1 := StoredVal(h, a).value.0, StoredVal(h, a).value.1;
        MadeApart(h, d, names, Uses(a), h1, y, later);
        MadeIsTree(h, Uses(a), h1, y);
        ExtendsProgress(h, h1, d, later);
        ExtendsValues(h, h1);
        TreesExtended(h, h1, d, later);
        PutTrees(h1, d, later, a.path, y);
    }
  }

  lemma MadeIsTree(h: Heap, uses: set<string>, h1: Heap, y: Val)
    requires MadeOf(h, uses, h1, y)
    ensures IsTree(h1, y)
  {
  }

  lemma FewerTrees(h: Heap, names: set<string>, later: set<string>)
    requires AllTrees(h, names) && later <= names
    ensures AllTrees(h, later)
  {
    hide IsTree, NoneShared;
  }

  lemma FewerInProgress(h: Heap, d: Item, names: set<string>, later: set<string>)
    requires InProgress(h, d, names) && later <= names
    ensures InProgress(h, d, later)
  {
    hide Sane, Linked, Denotes;
  }

  lemma AtomTree(h: Heap, y: Val)
    requires y.Atom?
    ensures IsTree(h, y) && forall w :: NoneShared(h, w, y) && NoneShared(h, y, w)
  {
    hide Walk, Reaches;
    forall u
      ensures Once(h, y, u)
    {
      AtomOnce(h, y, u);
    }
    forall c
      ensures !Reaches(h, y, c)
    {
      AtomReachesNot(h, y, c);
    }
  }

  // ---- whole updates ----

  /** No right-hand side names a path, and no map or list of the request is used twice. */
  predicate EachValueOnce(run: seq<Action>, values: Env) {
    && (forall i :: 0 <= i < |run| ==> Reads(run[i]) == [] && UsesOnce(run[i], values))
    && forall i, j, k :: 0 <= i < j < |run| && k in Uses(run[i]) && k in Uses(run[j]) && k in values ==>
         IsScalar(values[k])
  }

  function AllUses(run: seq<Action>): set<string> {
    if run == [] then {} else Uses(run[0]) + AllUses(run[1..])
  }

  lemma {:induction false} UsesIn(run: seq<Action>, k: string)
    ensures k in AllUses(run) <==> exists j :: 0 <= j < |run| && k in Uses(run[j])
  {
    hide Uses;
    if run != [] {
      UsesIn(run[1..], k);
      if j :| 0 <= j < |run| && k in Uses(run[j]) {
        assert j > 0 ==> run[1..][j - 1] == run[j];
      }
      if j :| 0 <= j < |run| - 1 && k in Uses(run[1..][j]) {
        assert run[1..][j] == run[j + 1];
      }
    }
  }

  lemma OnceOfRest(run: seq<Action>, values: Env)
    requires run != [] && EachValueOnce(run, values)
    ensures EachValueOnce(run[1..], values)
    ensures forall k :: k in AllUses(run[1..]) && k in Uses(run[0]) && k in values ==> IsScalar(values[k])
  {
    hide Uses, Reads, UsesOnce, IsScalar, AllUses;
    assert forall j :: 0 <= j < |run| - 1 ==> run[1..][j] == run[j + 1];
    forall k | k in AllUses(run[1..]) && k in Uses(run[0]) && k in values
      ensures IsScalar(values[k])
    {
      UsesIn(run[1..], k);
      var j :| 0 <= j < |run| - 1 && k in Uses(run[1..][j]);
      assert k in Uses(run[j + 1]);
    }
    forall i, j, k | 0 <= i < j < |run| - 1 && k in Uses(run[1..][i]) && k in Uses(run[1..][j]) && k in values
      ensures IsScalar(values[k])
    {
      assert k in Uses(run[i + 1]) && k in Uses(run[j + 1]);
    }
  }

  lemma {:induction false} RunOfTrees(h: Heap, d: Item, run: seq<Action>)
    requires InProgress(h, d, AllUses(run)) && AllTrees(h, AllUses(run)) && EachValueOnce(run, h.values)
    ensures RunRefs(h, run).Ok? <==> ApplyAll(run, d, h.values).Ok?
    ensures RunRefs(h, run).Ok? ==> InProgress(RunRefs(h, run).value, ApplyAll(run, d, h.values).value, {})
    ensures RunRefs(h, run).Ok? ==> AllTrees(RunRefs(h, run).value, {})
    decreases |run|
  {
    hide InProgress, ApplyRef, ApplyAction, Uses, AllTrees, StoresAbove, StoresInto, Reads, UsesOnce;
    if run == [] {
      FewerInProgress(h, d, AllUses(run), {});
      FewerTrees(h, AllUses(run), {});
    } else {
      var a, names, later := run[0], AllUses(run), AllUses(run[1..]);
      TreesAreReady(h, names, a.path);
      StoresNoPath(a, a.path);
      StoresIntoMay(a, d);
      StepProgress(h, d, names, a);
      OnceOfRest(run, h.values);
      assert Reads(run[0]) == [] && UsesOnce(run[0], h.values);
      if ApplyRef(h, a).Ok? {
        StepTrees(h, d, names, a, later);
        FewerInProgress(ApplyRef(h, a).value, ApplyAction(a, d, h.values).value, names, later);
        RunOfTrees(ApplyRef(h, a).value, ApplyAction(a, d, h.values).value, run[1..]);
      }
    }
  }

  lemma StoresNoPath(a: Action, w: Path)
    requires Reads(a) == []
    ensures !StoresAbove(a, w)
  {
    hide MayStore;
    if a.Set? && a.value.Single? {
      StoresNothing(a.value.r, 0, Parent(w));
    }
  }

  lemma ClonedTrees(item: Item, values: Env, names: set<string>)
    ensures AllTrees(Cloned(item, values), names)
  {
    hide Walk, Get;
    var h := Cloned(item, values);
    forall u
      ensures Once(h, Box(ROOT), u)
    {
      ClonedOnce(item, values, u);
    }
    forall k | k in names && k in values
      ensures IsTree(h, ValueVal(h, k)) && NoneShared(h, Box(ROOT), ValueVal(h, k))
    {
      forall u
        ensures Apart(h, Box(ROOT), u, ValueVal(h, k))
        ensures Once(h, ValueVal(h, k), u)
      {
        ClonedApart(item, values, u, k);
        ClonedValueOnce(item, values, k, u);
      }
      ApartTrees(h, Box(ROOT), ValueVal(h, k));
    }
    forall k, l | k in names && l in names && k in values && l in values && k != l
      ensures NoneShared(h, ValueVal(h, k), ValueVal(h, l))
    {
      ClonedValuesApart(item, values, k, l);
    }
  }

  lemma ClonedValueOnce(item: Item, values: Env, k: string, u: seq<Elem>)
    requires k in values
    ensures Once(Cloned(item, values), ValueVal(Cloned(item, values), k), u)
  {
    hide Walk, Get;
    forall q
      ensures Walk(Cloned(item, values), ValueVal(Cloned(item, values), k), q) ==
                match Get(values[k], q) case None => None case Some(x) => Some(ValOf(x, InValue(k, q)))
    {
      ClonedValuePlace(item, values, k, q);
    }
  }

  lemma ClonedValuesApart(item: Item, values: Env, k: string, l: string)
    requires k in values && l in values && k != l
    ensures NoneShared(Cloned(item, values), ValueVal(Cloned(item, values), k), ValueVal(Cloned(item, values), l))
  {
    hide Walk, Get;
    forall q
      ensures Walk(Cloned(item, values), ValueVal(Cloned(item, values), k), q) ==
                match Get(values[k], q) case None => None case Some(x) => Some(ValOf(x, InValue(k, q)))
      ensures Walk(Cloned(item, values), ValueVal(Cloned(item, values), l), q) ==
                match Get(values[l], q) case None => None case Some(x) => Some(ValOf(x, InValue(l, q)))
    {
      ClonedValuePlace(item, values, k, q);
      ClonedValuePlace(item, values, l, q);
    }
  }

  /** Without paths on right-hand sides, and with every map or list of the request used at most once,
      references make no difference, whatever the update removes. */
  lemma ValuesAsCopies(item: Item, actions: seq<Action>, values: Env)
    requires EachValueOnce(RunOrder(actions), values)
    ensures ByReference(item, actions, values) == ByCopy(item, actions, values)
  {
    hide EachValueOnce, RunOrder, InProgress, AllTrees, ApplyUpdate, ApplyAll, ReadItem, AllUses;
    var run, h := RunOrder(actions), Cloned(item, values);
    UpdateIsRun(item, actions, values);
    ClonedProgress(item, values, AllUses(run));
    ClonedTrees(item, values, AllUses(run));
    RunOfTrees(h, item, run);
    if RunRefs(h, run).Ok? {
      ProgressReads(RunRefs(h, run).value, ApplyAll(run, item, values).value, {});
    }
  }

  /** An update of REMOVEs alone is one of them. */
  lemma RemovesAsCopies(item: Item, actions: seq<Action>, values: Env)
    requires forall a :: a in actions ==> a.Remove?
    ensures ByReference(item, actions, values) == ByCopy(item, actions, values)
  {
    hide ByReference, RunOrder, ApplyUpdate;
    RunsAll(actions);
    var run := RunOrder(actions);
    forall i | 0 <= i < |run|
      ensures Reads(run[i]) == [] && UsesOnce(run[i], values) && Uses(run[i]) == {}
    {
      assert run[i] in actions;
    }
    ValuesAsCopies(item, actions, values);
  }
}
