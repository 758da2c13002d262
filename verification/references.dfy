/** Documents while an update runs (update.go): maps and lists are objects that attributes refer to, and
    the actions change them in place. A SET stores a reference to what its right-hand path names. */
module References {
  import opened Wrappers
  import opened Decimal
  import opened Arithmetic
  import opened Values
  import opened Paths
  import opened Expressions
  import opened Updates

  /** A map or list: of the clone of the item or of an attribute value, known by where it came from, or
      made by an action. */
  datatype Ref = InItem(path: seq<Elem>) | InValue(name: string, path: seq<Elem>) | Made(n: nat)

  predicate IsScalar(av: AV) {
    !av.L? && !av.M?
  }

  type Scalar = av: AV | IsScalar(av) witness NULL(true)

  /** A scalar is never changed in place, so it is a value; a map or list is a reference. */
  datatype Val = Atom(av: Scalar) | Box(ref: Ref)

  datatype Cell = ListCell(elems: seq<Val>) | MapCell(attrs: map<string, Val>)

  /** The entry of a container at e. */
  function Part(c: Cell, e: Elem): Option<Val> {
    match e
    case Index(i) => if c.ListCell? && i < |c.elems| then Some(c.elems[i]) else None
    case Name(k) => if c.MapCell? && k in c.attrs then Some(c.attrs[k]) else None
  }

  /** The container with its entry at e replaced or added. */
  function WithPart(c: Cell, e: Elem, x: Val): Result<Cell> {
    match e
    case Index(i) => if c.ListCell? && i < |c.elems| then Ok(ListCell(c.elems[i := x])) else Err
    case Name(k) => if c.MapCell? then Ok(MapCell(c.attrs[k := x])) else Err
  }

  /** The container without its entry at e. */
  function WithoutPart(c: Cell, e: Elem): Result<Cell> {
    match e
    case Index(i) => if c.ListCell? && i < |c.elems| then Ok(ListCell(c.elems[..i] + c.elems[i + 1..])) else Err
    case Name(k) => if c.MapCell? then Ok(MapCell(c.attrs - {k})) else Err
  }

  /** The objects: as cloned from the item and decoded from the request, unless changed or made. */
  datatype Heap = Heap(item: Item, values: Env, changed: map<Ref, Cell>, made: nat)

  const ROOT := InItem([])

  function Inside(r: Ref, e: Elem): Ref {
    match r
    case InItem(p) => InItem(p + [e])
    case InValue(n, p) => InValue(n, p + [e])
    case Made(_) => r
  }

  /** The value that an object had in the item or in the request. */
  function Origin(h: Heap, r: Ref): Option<AV> {
    match r
    case InItem(p) => Get(M(h.item), p)
    case InValue(n, p) => if n in h.values then Get(h.values[n], p) else None
    case Made(_) => None
  }

  function ValOf(av: AV, r: Ref): Val {
    if IsScalar(av) then Atom(av) else Box(r)
  }

  /** cloneAV: every map and list becomes an object of its own. */
  function CellOf(av: AV, r: Ref): Option<Cell> {
    match av
    case L(es) => Some(ListCell(seq(|es|, i requires 0 <= i < |es| => ValOf(es[i], Inside(r, Index(i))))))
    case M(m) => Some(MapCell(map k | k in m :: ValOf(m[k], Inside(r, Name(k)))))
    case _ => None
  }

  function Look(h: Heap, r: Ref): Option<Cell> {
    if r in h.changed then Some(h.changed[r])
    else
      match Origin(h, r)
      case None => None
      case Some(av) => CellOf(av, r)
  }

  function Update(h: Heap, r: Ref, c: Cell): Heap {
    h.(changed := h.changed[r := c])
  }

  /** A new object. */
  function Make(h: Heap, c: Cell): Heap {
    h.(changed := h.changed[Made(h.made) := c], made := h.made + 1)
  }

  // ---- reading ----

  function ChildVal(h: Heap, v: Val, e: Elem): Option<Val> {
    if v.Atom? then None
    else
      var c :- Look(h, v.ref);
      Part(c, e)
  }

  /** resolvePath. */
  function Walk(h: Heap, v: Val, p: seq<Elem>): Option<Val>
    decreases |p|
  {
    if p == [] then Some(v)
    else
      var c :- ChildVal(h, v, p[0]);
      Walk(h, c, p[1..])
  }

  // ---- writing ----

  /** The object v with its child at e replaced or added. */
  function SetChild(h: Heap, v: Val, e: Elem, x: Val): Result<Heap> {
    if v.Atom? then Err
    else
      match Look(h, v.ref)
      case None => Err
      case Some(c) =>
        var d :- WithPart(c, e, x);
        Ok(Update(h, v.ref, d))
  }

  /** What setPath steps into: an absent attribute becomes a new, empty map first. */
  function Enter(h: Heap, v: Val, e: Elem): Result<(Val, Heap)> {
    match ChildVal(h, v, e)
    case Some(c) => Ok((c, h))
    case None =>
      if e.Index? then Err
      else
        var made := Make(h, MapCell(map[]));
        var linked :- SetChild(made, v, e, Box(Made(h.made)));
        Ok((Box(Made(h.made)), linked))
  }

  /** setPath from the object v. */
  function PutIn(h: Heap, v: Val, p: seq<Elem>, x: Val): Result<Heap>
    requires p != []
    decreases |p|
  {
    if |p| == 1 then SetChild(h, v, p[0], x)
    else
      var next :- Enter(h, v, p[0]);
      PutIn(next.1, next.0, p[1..], x)
  }

  /** The object v without its child at e. */
  function DropChild(h: Heap, v: Val, e: Elem): Result<Heap> {
    if v.Atom? then Err
    else
      match Look(h, v.ref)
      case None => Err
      case Some(c) =>
        var d :- WithoutPart(c, e);
        Ok(Update(h, v.ref, d))
  }

  /** applyRemove from the object v: a parent that does not resolve makes it a no-op. */
  function RemoveFrom(h: Heap, v: Val, p: seq<Elem>): Result<Heap>
    requires p != []
  {
    match Walk(h, v, Parent(p))
    case None => Ok(h)
    case Some(parent) => DropChild(h, parent, Last(p))
  }

  // ---- right-hand sides ----

  function SizeOfVal(h: Heap, v: Val): Result<nat> {
    match v
    case Atom(av) => SizeValue(av)
    case Box(r) =>
      match Look(h, r)
      case Some(ListCell(es)) => Ok(|es|)
      case Some(MapCell(m)) => Ok(|m|)
      case None => Err
  }

  /** operandValue: a path gives the object itself. */
  function OperandVal(h: Heap, o: Operand): Result<Val> {
    match o
    case ValueRef(r) => if r in h.values then Ok(ValOf(h.values[r], InValue(r, []))) else Err
    case PathOf(p) =>
      (match Walk(h, Box(ROOT), p)
       case None => Err
       case Some(v) => Ok(v))
    case SizeOf(p) =>
      (match Walk(h, Box(ROOT), p)
       case None => Err
       case Some(v) =>
         var n :- SizeOfVal(h, v);
         Ok(Atom(N(DecimalText(n)))))
  }

  function ElemsOf(h: Heap, v: Val): Option<seq<Val>> {
    if v.Atom? then None
    else
      match Look(h, v.ref)
      case Some(ListCell(es)) => Some(es)
      case _ => None
  }

  /** evalRvalue: list_append makes a new list of the same elements. */
  function RvalueVal(h: Heap, r: Rvalue): Result<(Val, Heap)>
    decreases r
  {
    match r
    case Plain(o) =>
      var v :- OperandVal(h, o);
      Ok((v, h))
    case IfNotExists(p, otherwise) =>
      (match Walk(h, Box(ROOT), p)
       case Some(v) => Ok((v, h))
       case None => RvalueVal(h, otherwise))
    case ListAppend(a, b) =>
      var x :- RvalueVal(h, a);
      var y :- RvalueVal(x.1, b);
      match (ElemsOf(y.1, x.0), ElemsOf(y.1, y.0))
      case (Some(xs), Some(ys)) => Ok((Box(Made(y.1.made)), Make(y.1, ListCell(xs + ys))))
      case _ => Err
  }

  /** A scalar result of ADD, or the operand itself where nothing is there. */
  function AddedVal(v: Val, cur: Option<Val>): Result<Val> {
    if v.Box? || (cur.Some? && cur.value.Box?) then Err
    else
      var x :- AddedValue(v.av, if cur.Some? then Some(cur.value.av) else None);
      Ok(Atom(x))
  }

  function SumVal(v: Val, w: Val, sub: bool): Result<Val> {
    if v.Atom? && v.av.N? && w.Atom? && w.av.N? then
      var s :- AddNumbers(v.av.number, w.av.number, sub);
      Ok(Atom(N(s)))
    else Err
  }

  /** What a SET or ADD stores. */
  function StoredVal(h: Heap, a: Action): Result<(Val, Heap)>
    requires a.Set? || a.Add?
  {
    match a
    case Set(_, Single(r)) => RvalueVal(h, r)
    case Set(_, Sum(r, o, sub)) =>
      var x :- RvalueVal(h, r);
      var y :- OperandVal(x.1, o);
      var s :- SumVal(x.0, y, sub);
      Ok((s, x.1))
    case Add(p, o) =>
      var v :- OperandVal(h, o);
      var s :- AddedVal(v, Walk(h, Box(ROOT), p));
      Ok((s, h))
  }

  /** What DELETE leaves of a set. */
  function DeletedVal(v: Val, c: Val): Result<Val> {
    if v.Box? || c.Box? then Err
    else
      var x :- DeletedValue(v.av, c.av);
      Ok(Atom(x))
  }

  // ---- actions ----

  /** applySet, applyAdd, applyDelete or applyRemove. */
  function ApplyRef(h: Heap, a: Action): Result<Heap> {
    match a
    case Remove(p) => RemoveFrom(h, Box(ROOT), p)
    case Delete(p, o) =>
      var v :- OperandVal(h, o);
      (match Walk(h, Box(ROOT), p)
       case None => Ok(h)
       case Some(c) =>
         var x :- DeletedVal(v, c);
         if EmptySet(x.av) then RemoveFrom(h, Box(ROOT), p) else PutIn(h, Box(ROOT), p, x))
    case _ =>
      var x :- StoredVal(h, a);
      PutIn(x.1, Box(ROOT), a.path, x.0)
  }

  function RunRefs(h: Heap, actions: seq<Action>): Result<Heap>
    decreases |actions|
  {
    if actions == [] then Ok(h)
    else
      var next :- ApplyRef(h, actions[0]);
      RunRefs(next, actions[1..])
  }

  /** cloneItem, and the attribute values as decoded. */
  function Cloned(item: Item, values: Env): Heap {
    Heap(item, values, map[], 0)
  }
}
