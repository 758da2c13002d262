/** Right-hand sides on objects (update.go operandValue, evalRvalue, evalSetValue): what SET and ADD store,
    what it denotes, and which containers it can reach. */
module RightHandSides {
  import opened Wrappers
  import opened Decimal
  import opened Values
  import opened Paths
  import opened Expressions
  import opened Arithmetic
  import opened Updates
  import opened UpdateOrder
  import opened References
  import opened Reading
  import opened InPlace

  // ---- the attribute values ----

  /** An attribute value of the request as an object. */
  function ValueVal(h: Heap, k: string): Val
    requires k in h.values
  {
    ValOf(h.values[k], InValue(k, []))
  }

  function OperandUses(o: Operand): set<string> {
    if o.ValueRef? then {o.vref} else {}
  }

  function RvalueUses(r: Rvalue): set<string> {
    match r
    case Plain(o) => OperandUses(o)
    case IfNotExists(_, otherwise) => RvalueUses(otherwise)
    case ListAppend(a, b) => RvalueUses(a) + RvalueUses(b)
  }

  /** The attribute values that an action names. */
  function Uses(a: Action): set<string> {
    match a
    case Set(_, Single(r)) => RvalueUses(r)
    case Set(_, Sum(r, o, _)) => RvalueUses(r) + OperandUses(o)
    case Remove(_) => {}
    case _ => OperandUses(a.operand)
  }

  /** These attribute values are still what was sent. */
  ghost predicate ValuesIntact(h: Heap, names: set<string>) {
    forall k :: k in names && k in h.values ==> Linked(h, ValueVal(h, k)) && Denotes(h, ValueVal(h, k), h.values[k])
  }

  /** The document in progress and the attribute values that may still be used. */
  ghost predicate InProgress(h: Heap, d: Item, names: set<string>) {
    Sane(h) && Linked(h, Box(ROOT)) && Denotes(h, Box(ROOT), M(d)) && ValuesIntact(h, names)
  }

  // ---- new objects change nothing else ----

  ghost predicate Extends(h: Heap, h2: Heap) {
    (h2.item == h.item && h2.values == h.values && h2.made >= h.made) &&
    forall r :: !IsNew(h, r) ==> Look(h2, r) == Look(h, r)
  }

  lemma ExtendsSame(h: Heap, h2: Heap, v: Val)
    requires Sane(h) && Linked(h, v) && Extends(h, h2)
    ensures SameBelow(h, h2, v) && Linked(h2, v)
  {
    hide Sane, Reaches;
    forall r | Reaches(h, v, r)
      ensures Look(h2, r) == Look(h, r)
    {
      ReachedIsLinked(h, v, r);
    }
    if v.Box? {
      LinkedIsOld(h, v);
    }
  }

  lemma ExtendsProgress(h: Heap, h2: Heap, d: Item, names: set<string>)
    requires InProgress(h, d, names) && Extends(h, h2) && Sane(h2)
    ensures InProgress(h2, d, names)
  {
    hide Sane, Linked, Denotes, Extends, SameBelow;
    assert h2.values == h.values by {
      ExtendsValues(h, h2);
    }
    ExtendsSame(h, h2, Box(ROOT));
    DenotesFrame(h, h2, Box(ROOT), M(d));
    forall k | k in names && k in h.values
      ensures Linked(h2, ValueVal(h2, k)) && Denotes(h2, ValueVal(h2, k), h2.values[k])
    {
      ExtendsSame(h, h2, ValueVal(h, k));
      DenotesFrame(h, h2, ValueVal(h, k), h.values[k]);
    }
  }

  lemma ExtendsValues(h: Heap, h2: Heap)
    requires Extends(h, h2)
    ensures h2.values == h.values && h2.item == h.item
  {
  }

  // ---- right-hand sides ----

  lemma AtomDenotes(h: Heap, av: AV)
    requires IsScalar(av)
    ensures Denotes(h, Atom(av), av) && Linked(h, Atom(av))
  {
  }

  /** resolvePath on the document in progress. */
  lemma PathDenotes(h: Heap, d: Item, names: set<string>, p: Path)
    requires InProgress(h, d, names)
    ensures Walk(h, Box(ROOT), p).Some? <==> ResolvePath(d, p).Some?
    ensures Walk(h, Box(ROOT), p).Some? ==>
              Linked(h, Walk(h, Box(ROOT), p).value) && Denotes(h, Walk(h, Box(ROOT), p).value, ResolvePath(d, p).value)
  {
    hide Walk, Denotes, Linked, Sane, Get, ValuesIntact;
    WalkDenotes(h, Box(ROOT), M(d), p);
    if Walk(h, Box(ROOT), p).Some? {
      LinkedWalk(h, Box(ROOT), p);
    }
  }

  lemma SizeDenotes(h: Heap, v: Val, x: AV)
    requires Denotes(h, v, x)
    ensures SizeOfVal(h, v) == SizeValue(x)
  {
    AlikeDenoted(h, v, x);
    hide Denotes;
    if x.M? {
      var m := Look(h, v.ref).value.attrs;
      assert |m| == |m.Keys| && |x.attrs| == |x.attrs.Keys|;
    }
  }

  lemma OperandDenotes(h: Heap, d: Item, names: set<string>, o: Operand)
    requires InProgress(h, d, names) && OperandUses(o) <= names
    ensures OperandVal(h, o).Ok? <==> OperandValue(o, d, h.values).Ok?
    ensures OperandVal(h, o).Ok? ==>
              Linked(h, OperandVal(h, o).value) &&
              Denotes(h, OperandVal(h, o).value, OperandValue(o, d, h.values).value)
  {
    hide Walk, Denotes, Linked, Sane, SizeOfVal, SizeValue, ResolvePath, DecimalText;
    match o {
      case ValueRef(k) => assert k in names;
      case PathOf(p) => PathDenotes(h, d, names, p);
      case SizeOf(p) =>
        PathDenotes(h, d, names, p);
        if Walk(h, Box(ROOT), p).Some? {
          SizeDenotes(h, Walk(h, Box(ROOT), p).value, ResolvePath(d, p).value);
          if SizeOfVal(h, Walk(h, Box(ROOT), p).value).Ok? {
            AtomDenotes(h, N(DecimalText(SizeOfVal(h, Walk(h, Box(ROOT), p).value).value)));
          }
        }
    }
  }

  lemma ElemsDenote(h: Heap, v: Val, x: AV)
    requires Denotes(h, v, x) && Sane(h)
    ensures ElemsOf(h, v).Some? <==> x.L?
    ensures x.L? ==> |ElemsOf(h, v).value| == |x.elems|
    ensures x.L? ==> forall i :: 0 <= i < |x.elems| ==>
              ChildVal(h, v, Index(i)) == Some(ElemsOf(h, v).value[i]) &&
              Linked(h, ElemsOf(h, v).value[i]) && Denotes(h, ElemsOf(h, v).value[i], x.elems[i])
  {
    hide Linked;
    if x.L? {
      forall i | 0 <= i < |x.elems|
        ensures Linked(h, ElemsOf(h, v).value[i])
      {
        assert ChildVal(h, v, Index(i)) == Some(ElemsOf(h, v).value[i]);
        SaneKid(h, v, Index(i));
      }
    }
  }

  /** The elements of two lists, one after the other. */
  lemma JoinedParts(h: Heap, a: Val, b: Val, x: AV, y: AV, e: Elem)
    requires Sane(h) && Denotes(h, a, x) && Denotes(h, b, y) && x.L? && y.L?
    requires ElemsOf(h, a).Some? && ElemsOf(h, b).Some?
    ensures var part := Part(ListCell(ElemsOf(h, a).value + ElemsOf(h, b).value), e);
            var child := Child(L(x.elems + y.elems), e);
            && (part.Some? <==> child.Some?)
            && (part.Some? ==> Linked(h, part.value) && Denotes(h, part.value, child.value))
  {
    hide Sane, Denotes, Linked, ChildVal, ElemsOf;
    ElemsDenote(h, a, x);
    ElemsDenote(h, b, y);
  }

  /** A new list of the same elements. */
  lemma JoinedDenotes(h: Heap, a: Val, b: Val, x: AV, y: AV)
    requires Sane(h) && Denotes(h, a, x) && Denotes(h, b, y) && x.L? && y.L?
    ensures ElemsOf(h, a).Some? && ElemsOf(h, b).Some?
    ensures var h2, v := Make(h, ListCell(ElemsOf(h, a).value + ElemsOf(h, b).value)), Box(Made(h.made));
            Extends(h, h2) && Sane(h2) && Linked(h2, v) && Denotes(h2, v, L(x.elems + y.elems))
  {
    ElemsDenote(h, a, x);
    ElemsDenote(h, b, y);
    hide Sane, Denotes, Linked, ChildVal, SameBelow, ElemsOf, Part, Child, Look, Make;
    var c := ListCell(ElemsOf(h, a).value + ElemsOf(h, b).value);
    var h2, v, z := Make(h, c), Box(Made(h.made)), L(x.elems + y.elems);
    MakeEffect(h, c);
    forall e
      ensures Part(c, e).Some? <==> Child(z, e).Some?
      ensures Part(c, e).Some? ==> Linked(h, Part(c, e).value) && Denotes(h, Part(c, e).value, Child(z, e).value)
    {
      JoinedParts(h, a, b, x, y, e);
    }
    MakeSane(h, c);
    forall e | ChildVal(h2, v, e).Some? && Child(z, e).Some?
      ensures Denotes(h2, ChildVal(h2, v, e).value, Child(z, e).value)
    {
      ExtendsSame(h, h2, Part(c, e).value);
      DenotesFrame(h, h2, Part(c, e).value, Child(z, e).value);
    }
    MadeList(h, c, z);
    ByKids(h2, v, z);
  }

  lemma MadeList(h: Heap, c: Cell, z: AV)
    requires c.ListCell? && z.L? && |c.elems| == |z.elems|
    ensures Alike(Make(h, c), Box(Made(h.made)), z)
  {
  }

  /** evalRvalue on objects evaluates to what it evaluates to on values. */
  lemma {:induction false} RvalueDenotes(h: Heap, d: Item, names: set<string>, r: Rvalue)
    requires InProgress(h, d, names) && RvalueUses(r) <= names
    ensures RvalueVal(h, r).Ok? <==> EvalRvalue(r, d, h.values).Ok?
    ensures RvalueVal(h, r).Ok? ==>
              var y, h2 := RvalueVal(h, r).value.0, RvalueVal(h, r).value.1;
              Extends(h, h2) && Sane(h2) && Linked(h2, y) && Denotes(h2, y, EvalRvalue(r, d, h.values).value)
    decreases r
  {
    hide Walk, Denotes, Linked, Sane, OperandVal, OperandValue, ResolvePath, ValuesIntact, InProgress, Make, ElemsOf;
    SaneProgress(h, d, names);
    match r {
      case Plain(o) => OperandDenotes(h, d, names, o);
      case IfNotExists(p, otherwise) =>
        PathDenotes(h, d, names, p);
        if Walk(h, Box(ROOT), p).None? {
          RvalueDenotes(h, d, names, otherwise);
        }
      case ListAppend(a, b) =>
        RvalueDenotes(h, d, names, a);
        if RvalueVal(h, a).Ok? {
          var x, h1 := RvalueVal(h, a).value.0, RvalueVal(h, a).value.1;
          ExtendsProgress(h, h1, d, names);
          RvalueDenotes(h1, d, names, b);
          if RvalueVal(h1, b).Ok? {
            var y, h2 := RvalueVal(h1, b).value.0, RvalueVal(h1, b).value.1;
            var xv, yv := EvalRvalue(a, d, h.values).value, EvalRvalue(b, d, h.values).value;
            ExtendsSame(h1, h2, x);
            DenotesFrame(h1, h2, x, xv);
            ElemsDenote(h2, x, xv);
            ElemsDenote(h2, y, yv);
            if xv.L? && yv.L? {
              JoinedDenotes(h2, x, y, xv, yv);
            }
          }
        }
    }
  }

  lemma SaneProgress(h: Heap, d: Item, names: set<string>)
    requires InProgress(h, d, names)
    ensures Sane(h) && Linked(h, Box(ROOT)) && Denotes(h, Box(ROOT), M(d))
  {
  }

  lemma ScalarDenotes(h: Heap, v: Val, x: AV)
    requires Denotes(h, v, x)
    ensures v.Atom? <==> IsScalar(x)
    ensures v.Atom? ==> v.av == x
  {
    AlikeDenoted(h, v, x);
  }

  lemma SumDenotes(h: Heap, v: Val, w: Val, x: AV, y: AV, sub: bool)
    requires Denotes(h, v, x) && Denotes(h, w, y)
    ensures var s := if x.N? && y.N? then AddNumbers(x.number, y.number, sub) else Err;
            SumVal(v, w, sub) == match s case Err => Err case Ok(n) => Ok(Atom(N(n)))
  {
    hide AddNumbers, Denotes;
    ScalarDenotes(h, v, x);
    ScalarDenotes(h, w, y);
  }

  lemma AddedDenotes(h: Heap, v: Val, cur: Option<Val>, x: AV, c: Option<AV>)
    requires Denotes(h, v, x) && (cur.Some? <==> c.Some?) && (cur.Some? ==> Denotes(h, cur.value, c.value))
    ensures AddedVal(v, cur) == match AddedValue(x, c) case Err => Err case Ok(y) => Ok(ValOf(y, ROOT))
    ensures AddedValue(x, c).Ok? ==> IsScalar(AddedValue(x, c).value)
  {
    hide Denotes;
    ScalarDenotes(h, v, x);
    if cur.Some? {
      ScalarDenotes(h, cur.value, c.value);
    }
    AddedIsScalar(x, c);
    hide AddedValue;
  }

  lemma AddedIsScalar(v: AV, cur: Option<AV>)
    ensures AddedValue(v, cur).Ok? ==> IsScalar(AddedValue(v, cur).value)
    ensures !IsScalar(v) || (cur.Some? && !IsScalar(cur.value)) ==> AddedValue(v, cur).Err?
  {
  }

  lemma DeletedDenotes(h: Heap, v: Val, c: Val, x: AV, y: AV)
    requires Denotes(h, v, x) && Denotes(h, c, y)
    ensures DeletedVal(v, c) == match DeletedValue(x, y) case Err => Err case Ok(z) => Ok(ValOf(z, ROOT))
    ensures DeletedValue(x, y).Ok? ==> IsScalar(DeletedValue(x, y).value)
  {
    hide Denotes;
    ScalarDenotes(h, v, x);
    ScalarDenotes(h, c, y);
    DeletedIsScalar(x, y);
    hide DeletedValue;
  }

  lemma DeletedIsScalar(v: AV, c: AV)
    ensures DeletedValue(v, c).Ok? ==> IsScalar(DeletedValue(v, c).value)
    ensures !IsScalar(v) || !IsScalar(c) ==> DeletedValue(v, c).Err?
  {
  }

  /** What SET and ADD store denotes what they write on values. */
  lemma StoredDenotes(h: Heap, d: Item, names: set<string>, a: Action)
    requires InProgress(h, d, names) && Uses(a) <= names && IsWrite(a)
    ensures StoredVal(h, a).Ok? <==> WrittenValue(a, d, h.values).Ok?
    ensures StoredVal(h, a).Ok? ==>
              var y, h2 := StoredVal(h, a).value.0, StoredVal(h, a).value.1;
              Extends(h, h2) && Sane(h2) && Linked(h2, y) && Denotes(h2, y, WrittenValue(a, d, h.values).value)
  {
    hide Walk, Denotes, Linked, Sane, OperandVal, OperandValue, RvalueVal, EvalRvalue, ResolvePath, InProgress;
    hide AddedVal, AddedValue, SumVal, AddNumbers, ValOf, Extends;
    SaneProgress(h, d, names);
    ExtendsSelf(h);
    match a {
      case Set(_, Single(r)) => RvalueDenotes(h, d, names, r);
      case Set(_, Sum(r, o, sub)) =>
        RvalueDenotes(h, d, names, r);
        if RvalueVal(h, r).Ok? {
          var x, h1 := RvalueVal(h, r).value.0, RvalueVal(h, r).value.1;
          ExtendsProgress(h, h1, d, names);
          ExtendsValues(h, h1);
          OperandDenotes(h1, d, names, o);
          if OperandVal(h1, o).Ok? {
            SumStored(h1, x, OperandVal(h1, o).value, EvalRvalue(r, d, h.values).value,
                      OperandValue(o, d, h.values).value, sub);
          }
        }
      case Add(p, o) =>
        OperandDenotes(h, d, names, o);
        PathDenotes(h, d, names, p);
        if OperandVal(h, o).Ok? {
          AddedStored(h, OperandVal(h, o).value, Walk(h, Box(ROOT), p), OperandValue(o, d, h.values).value,
                      ResolvePath(d, p));
        }
    }
  }

  lemma ExtendsSelf(h: Heap)
    ensures Extends(h, h)
  {
  }

  lemma SumStored(h: Heap, v: Val, w: Val, x: AV, y: AV, sub: bool)
    requires Denotes(h, v, x) && Denotes(h, w, y)
    ensures var s := if x.N? && y.N? then AddNumbers(x.number, y.number, sub) else Err;
            && (SumVal(v, w, sub).Ok? <==> s.Ok?)
            && (s.Ok? ==> Linked(h, SumVal(v, w, sub).value) && Denotes(h, SumVal(v, w, sub).value, N(s.value)))
  {
    hide Denotes, SumVal, AddNumbers;
    SumDenotes(h, v, w, x, y, sub);
    if SumVal(v, w, sub).Ok? {
      AtomDenotes(h, SumVal(v, w, sub).value.av);
    }
  }

  lemma AddedStored(h: Heap, v: Val, cur: Option<Val>, x: AV, c: Option<AV>)
    requires Denotes(h, v, x) && (cur.Some? <==> c.Some?) && (cur.Some? ==> Denotes(h, cur.value, c.value))
    ensures AddedVal(v, cur).Ok? <==> AddedValue(x, c).Ok?
    ensures AddedVal(v, cur).Ok? ==>
              Linked(h, AddedVal(v, cur).value) && Denotes(h, AddedVal(v, cur).value, AddedValue(x, c).value)
  {
    hide Denotes, AddedVal, AddedValue;
    AddedDenotes(h, v, cur, x, c);
    if AddedVal(v, cur).Ok? {
      AtomDenotes(h, AddedValue(x, c).value);
    }
  }

  // ---- what is stored holds no container on the way to a target ----

  /** r may store an object that is at u or above it: for n == 0 its value, for n == 1 only elements of
      its value, as list_append does. */
  predicate MayStore(r: Rvalue, n: nat, u: seq<Elem>) {
    match r
    case Plain(o) => o.PathOf? && o.path <= u && |u| >= |o.path| + n
    case IfNotExists(p, otherwise) => (p <= u && |u| >= |p| + n) || MayStore(otherwise, n, u)
    case ListAppend(a, b) => MayStore(a, 1, u) || MayStore(b, 1, u)
  }

  /** The action may store a container that is on the way to w. */
  predicate StoresAbove(a: Action, w: Path) {
    a.Set? && a.value.Single? && MayStore(a.value.r, 0, Parent(w))
  }

  /** r does so on the document d, which decides whether if_not_exists takes its path. */
  predicate Stores(r: Rvalue, n: nat, d: Item, u: seq<Elem>) {
    match r
    case Plain(o) => o.PathOf? && o.path <= u && |u| >= |o.path| + n
    case IfNotExists(p, otherwise) =>
      if ResolvePath(d, p).Some? then p <= u && |u| >= |p| + n else Stores(otherwise, n, d, u)
    case ListAppend(a, b) => Stores(a, 1, d, u) || Stores(b, 1, d, u)
  }

  /** On the document d, the action stores a container that is on the way to w. */
  predicate StoresInto(a: Action, d: Item, w: Path) {
    a.Set? && a.value.Single? && Stores(a.value.r, 0, d, Parent(w))
  }

  lemma {:induction false} StoresMay(r: Rvalue, n: nat, d: Item, u: seq<Elem>)
    requires Stores(r, n, d, u)
    ensures MayStore(r, n, u)
  {
    hide ResolvePath;
    match r {
      case Plain(_) =>
      case IfNotExists(p, otherwise) =>
        if ResolvePath(d, p).None? {
          StoresMay(otherwise, n, d, u);
        }
      case ListAppend(a, b) =>
        if Stores(a, 1, d, u) {
          StoresMay(a, 1, d, u);
        } else {
          StoresMay(b, 1, d, u);
        }
    }
  }

  lemma StoresIntoMay(a: Action, d: Item)
    ensures forall w: Path :: StoresInto(a, d, w) ==> StoresAbove(a, w)
  {
    hide Stores, MayStore;
    forall w: Path | StoresInto(a, d, w)
      ensures StoresAbove(a, w)
    {
      StoresMay(a.value.r, 0, d, Parent(w));
    }
  }

  lemma {:induction false} StoresLonger(r: Rvalue, n: nat, d: Item, u: seq<Elem>, w: seq<Elem>)
    requires Stores(r, n, d, u) && u <= w
    ensures Stores(r, n, d, w)
  {
    hide ResolvePath;
    match r {
      case Plain(_) =>
      case IfNotExists(p, otherwise) =>
        if ResolvePath(d, p).None? {
          StoresLonger(otherwise, n, d, u, w);
        }
      case ListAppend(a, b) =>
        if Stores(a, 1, d, u) {
          StoresLonger(a, 1, d, u, w);
        } else {
          StoresLonger(b, 1, d, u, w);
        }
    }
  }

  /** The container c at the place u occurs there only, and in none of these attribute values. */
  ghost predicate Secluded(h: Heap, u: seq<Elem>, c: Ref, names: set<string>) {
    && Walk(h, Box(ROOT), u) == Some(Box(c)) && Once(h, Box(ROOT), u)
    && forall k :: k in names && k in h.values ==> !Reaches(h, ValueVal(h, k), c)
  }

  lemma PathReachesNot(h: Heap, u: seq<Elem>, c: Ref, p: seq<Elem>)
    requires Walk(h, Box(ROOT), u) == Some(Box(c)) && Once(h, Box(ROOT), u)
    requires Walk(h, Box(ROOT), p).Some? && !(p <= u)
    ensures !Reaches(h, Walk(h, Box(ROOT), p).value, c)
  {
    hide Walk;
    var v := Walk(h, Box(ROOT), p).value;
    if Reaches(h, v, c) {
      var q :| Walk(h, v, q) == Some(Box(c));
      WalkConcat(h, Box(ROOT), p, q);
      assert p <= p + q;
      NotOnce(h, Box(ROOT), u, p + q, c);
    }
  }

  lemma AtomReachesNot(h: Heap, v: Val, c: Ref)
    requires v.Atom?
    ensures !Reaches(h, v, c)
  {
  }

  /** c is reached from v, or for n == 1 from a child of v. */
  ghost predicate ReachesIn(h: Heap, v: Val, n: nat, c: Ref) {
    if n == 0 then Reaches(h, v, c)
    else exists e :: ChildVal(h, v, e).Some? && Reaches(h, ChildVal(h, v, e).value, c)
  }

  lemma ReachesInside(h: Heap, v: Val, n: nat, c: Ref)
    requires !Reaches(h, v, c)
    ensures !ReachesIn(h, v, n, c)
  {
    hide Reaches, ChildVal;
    if e :| ChildVal(h, v, e).Some? && Reaches(h, ChildVal(h, v, e).value, c) {
      ReachesBelow(h, v, e, c);
    }
  }

  lemma PlaceReachesNot(h: Heap, u: seq<Elem>, c: Ref, p: seq<Elem>, n: nat)
    requires Walk(h, Box(ROOT), u) == Some(Box(c)) && Once(h, Box(ROOT), u)
    requires Walk(h, Box(ROOT), p).Some? && !(p <= u && |u| >= |p| + n) && n <= 1
    ensures !ReachesIn(h, Walk(h, Box(ROOT), p).value, n, c)
  {
    hide Walk, Once, Reaches, ChildVal;
    var v := Walk(h, Box(ROOT), p).value;
    if n == 0 {
      PathReachesNot(h, u, c, p);
    } else {
      forall e | ChildVal(h, v, e).Some?
        ensures !Reaches(h, ChildVal(h, v, e).value, c)
      {
        WalkOne(h, v, e);
        WalkConcat(h, Box(ROOT), p, [e]);
        assert p + [e] <= u ==> p <= u;
        PathReachesNot(h, u, c, p + [e]);
      }
    }
  }

  lemma OperandReachesNot(h: Heap, u: seq<Elem>, c: Ref, names: set<string>, o: Operand, n: nat)
    requires Secluded(h, u, c, names) && OperandUses(o) <= names && !MayStore(Plain(o), n, u) && n <= 1
    requires OperandVal(h, o).Ok?
    ensures !ReachesIn(h, OperandVal(h, o).value, n, c)
  {
    hide Walk, Reaches, Once, SizeOfVal, ReachesIn;
    match o {
      case ValueRef(k) =>
        assert k in names;
        ReachesInside(h, ValueVal(h, k), n, c);
      case PathOf(p) =>
        PlaceReachesNot(h, u, c, p, n);
      case SizeOf(p) =>
        AtomReachesNot(h, OperandVal(h, o).value, c);
        ReachesInside(h, OperandVal(h, o).value, n, c);
    }
  }

  lemma ReachesFrame(h: Heap, h2: Heap, v: Val, c: Ref)
    requires SameBelow(h, h2, v)
    ensures Reaches(h2, v, c) <==> Reaches(h, v, c)
  {
    hide Walk, SameBelow;
    forall q
      ensures Walk(h2, v, q) == Walk(h, v, q)
    {
      WalkFrame(h, h2, v, q);
    }
  }

  lemma SecludedFrame(h: Heap, h2: Heap, u: seq<Elem>, c: Ref, names: set<string>)
    requires Secluded(h, u, c, names) && Sane(h) && Linked(h, Box(ROOT)) && ValuesIntact(h, names) && Extends(h, h2)
    ensures Secluded(h2, u, c, names)
  {
    hide Walk, SameBelow, Sane, Linked, Reaches, Extends, Denotes;
    ExtendsValues(h, h2);
    ExtendsSame(h, h2, Box(ROOT));
    forall q
      ensures Walk(h2, Box(ROOT), q) == Walk(h, Box(ROOT), q)
    {
      WalkFrame(h, h2, Box(ROOT), q);
    }
    forall k | k in names && k in h.values
      ensures !Reaches(h2, ValueVal(h2, k), c)
    {
      ExtendsSame(h, h2, ValueVal(h, k));
      ReachesFrame(h, h2, ValueVal(h, k), c);
    }
  }

  lemma ReachesInFrame(h: Heap, h2: Heap, v: Val, n: nat, c: Ref)
    requires SameBelow(h, h2, v)
    ensures ReachesIn(h2, v, n, c) <==> ReachesIn(h, v, n, c)
  {
    hide Walk, SameBelow, Reaches, ChildVal;
    ReachesFrame(h, h2, v, c);
    forall e
      ensures ChildVal(h2, v, e) == ChildVal(h, v, e)
      ensures ChildVal(h, v, e).Some? ==>
                (Reaches(h2, ChildVal(h, v, e).value, c) <==> Reaches(h, ChildVal(h, v, e).value, c))
    {
      SameKid(h, h2, v, e);
      if ChildVal(h, v, e).Some? {
        ReachesFrame(h, h2, ChildVal(h, v, e).value, c);
      }
    }
  }

  /** What an element of a joined list reaches, an element of one of the lists reached. */
  lemma JoinedElemReachesNot(h: Heap, a: Val, b: Val, c: Ref, e: Elem)
    requires Sane(h) && Linked(h, a) && Linked(h, b) && ElemsOf(h, a).Some? && ElemsOf(h, b).Some?
    requires !ReachesIn(h, a, 1, c) && !ReachesIn(h, b, 1, c)
    ensures var h2, v := Make(h, ListCell(ElemsOf(h, a).value + ElemsOf(h, b).value)), Box(Made(h.made));
            ChildVal(h2, v, e).Some? ==> !Reaches(h2, ChildVal(h2, v, e).value, c)
  {
    hide Walk, Sane, Linked, ChildVal, Part, SameBelow, Reaches;
    var cell := ListCell(ElemsOf(h, a).value + ElemsOf(h, b).value);
    var h2, v := Make(h, cell), Box(Made(h.made));
    MakeEffect(h, cell);
    if ChildVal(h2, v, e).Some? {
      var w, f := ChildVal(h2, v, e).value, ElemIn(h, a, e);
      assert Extends(h, h2);
      ElemOfEither(h, a, b, e, w);
      var s := if ChildVal(h, a, f) == Some(w) then a else b;
      SaneKid(h, s, f);
      ExtendsSame(h, h2, w);
      ReachesFrame(h, h2, w, c);
    }
  }

  lemma JoinedReachesNot(h: Heap, a: Val, b: Val, c: Ref, n: nat)
    requires Sane(h) && Linked(h, a) && Linked(h, b) && ElemsOf(h, a).Some? && ElemsOf(h, b).Some?
    requires !ReachesIn(h, a, 1, c) && !ReachesIn(h, b, 1, c) && !IsNew(h, c)
    ensures !ReachesIn(Make(h, ListCell(ElemsOf(h, a).value + ElemsOf(h, b).value)), Box(Made(h.made)), n, c)
  {
    hide Walk, Sane, Linked, ChildVal, SameBelow;
    var cell := ListCell(ElemsOf(h, a).value + ElemsOf(h, b).value);
    var h2, v := Make(h, cell), Box(Made(h.made));
    forall e | ChildVal(h2, v, e).Some?
      ensures !Reaches(h2, ChildVal(h2, v, e).value, c)
    {
      JoinedElemReachesNot(h, a, b, c, e);
    }
    if Reaches(h2, v, c) {
      var q :| Walk(h2, v, q) == Some(Box(c));
      WalkHere(h2, v);
      if q != [] {
        StepOfWalk(h2, v, q);
        ReachedBy(h2, ChildVal(h2, v, q[0]).value, q[1..], c);
      }
    }
  }

  /** Which element of its own list an element of the joined list was. */
  function ElemIn(h: Heap, a: Val, e: Elem): Elem
    requires ElemsOf(h, a).Some?
  {
    if e.Index? && e.index >= |ElemsOf(h, a).value| then Index(e.index - |ElemsOf(h, a).value|) else e
  }

  lemma ElemOfEither(h: Heap, a: Val, b: Val, e: Elem, w: Val)
    requires ElemsOf(h, a).Some? && ElemsOf(h, b).Some?
    requires Part(ListCell(ElemsOf(h, a).value + ElemsOf(h, b).value), e) == Some(w)
    ensures ChildVal(h, a, ElemIn(h, a, e)) == Some(w) || ChildVal(h, b, ElemIn(h, a, e)) == Some(w)
  {
  }

  lemma StepOfWalk(h: Heap, v: Val, q: seq<Elem>)
    requires q != [] && Walk(h, v, q).Some?
    ensures ChildVal(h, v, q[0]).Some? && Walk(h, ChildVal(h, v, q[0]).value, q[1..]) == Walk(h, v, q)
  {
    hide ChildVal;
  }

  /** What a right-hand side stores does not reach a container that it cannot store. */
  lemma {:induction false} RvalueReachesNot(h: Heap, d: Item, u: seq<Elem>, c: Ref, names: set<string>, r: Rvalue,
                                            n: nat)
    requires InProgress(h, d, names) && RvalueUses(r) <= names && RvalueVal(h, r).Ok?
    requires Secluded(h, u, c, names) && !Stores(r, n, d, u) && n <= 1
    ensures !ReachesIn(RvalueVal(h, r).value.1, RvalueVal(h, r).value.0, n, c)
    decreases r
  {
    hide Walk, Denotes, Linked, Sane, OperandVal, OperandValue, ResolvePath, ValuesIntact, InProgress, Make, ElemsOf;
    hide Reaches, ReachesIn, Once, Secluded, EvalRvalue;
    SaneProgress(h, d, names);
    match r {
      case Plain(o) => OperandReachesNot(h, u, c, names, o, n);
      case IfNotExists(p, otherwise) =>
        PathDenotes(h, d, names, p);
        if Walk(h, Box(ROOT), p).None? {
          RvalueReachesNot(h, d, u, c, names, otherwise, n);
        } else {
          SecludedPlace(h, u, c, names);
          PlaceReachesNot(h, u, c, p, n);
        }
      case ListAppend(a, b) =>
        RvalueDenotes(h, d, names, a);
        RvalueReachesNot(h, d, u, c, names, a, 1);
        var x, h1 := RvalueVal(h, a).value.0, RvalueVal(h, a).value.1;
        IntactProgress(h, d, names);
        ExtendsProgress(h, h1, d, names);
        SecludedFrame(h, h1, u, c, names);
        RvalueDenotes(h1, d, names, b);
        RvalueReachesNot(h1, d, u, c, names, b, 1);
        var y, h2 := RvalueVal(h1, b).value.0, RvalueVal(h1, b).value.1;
        ExtendsSame(h1, h2, x);
        ReachesInFrame(h1, h2, x, 1, c);
        SecludedIsOld(h, u, c, names);
        JoinedReachesNot(h2, x, y, c, n);
    }
  }

  lemma IntactProgress(h: Heap, d: Item, names: set<string>)
    requires InProgress(h, d, names)
    ensures ValuesIntact(h, names)
  {
  }

  lemma SecludedPlace(h: Heap, u: seq<Elem>, c: Ref, names: set<string>)
    requires Secluded(h, u, c, names)
    ensures Walk(h, Box(ROOT), u) == Some(Box(c)) && Once(h, Box(ROOT), u)
  {
  }

  lemma SecludedIsOld(h: Heap, u: seq<Elem>, c: Ref, names: set<string>)
    requires Secluded(h, u, c, names) && Sane(h) && Linked(h, Box(ROOT))
    ensures !IsNew(h, c)
  {
    hide Sane, Linked;
    WalkedIsOld(h, Box(ROOT), u);
  }

  /** The same for what SET and ADD store. */
  lemma StoredReachesNot(h: Heap, d: Item, u: seq<Elem>, c: Ref, names: set<string>, a: Action)
    requires InProgress(h, d, names) && Uses(a) <= names && IsWrite(a) && StoredVal(h, a).Ok?
    requires Secluded(h, u, c, names) && !(a.Set? && a.value.Single? && Stores(a.value.r, 0, d, u))
    ensures !Reaches(StoredVal(h, a).value.1, StoredVal(h, a).value.0, c)
  {
    hide Walk, OperandVal, RvalueVal, InProgress, Reaches, Stores, Secluded;
    match a {
      case Set(_, Single(r)) => RvalueReachesNot(h, d, u, c, names, r, 0);
      case Set(_, Sum(_, _, _)) => AtomReachesNot(StoredVal(h, a).value.1, StoredVal(h, a).value.0, c);
      case Add(_, _) => AtomReachesNot(StoredVal(h, a).value.1, StoredVal(h, a).value.0, c);
    }
  }
}
