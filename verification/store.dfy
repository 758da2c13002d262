/** The rows of all tables, and single writes against them (ops_item.go, ops_transact.go parseTxItem).
    SQLite is a map from row addresses to items. */
module Store {
  import opened Wrappers
  import opened Values
  import opened Paths
  import opened Expressions
  import opened KeyEncoding
  import opened Tables
  import opened Updates
  import opened RunOrders
  import opened References
  import opened UpdatesByReference
  import opened RunInvariants

  const MAX_ITEM_SIZE: nat := 400 * 1024

  type Schema = map<string, Table>

  /** The address of one item. */
  datatype Target = Target(table: string, key: Key)

  type Contents = map<Target, Item>

  /** getItem. */
  function Found(rows: Contents, t: Target): Option<Item> {
    if t in rows then Some(rows[t]) else None
  }

  /** INSERT OR REPLACE, or DELETE. */
  function Stored(rows: Contents, t: Target, x: Option<Item>): Contents {
    match x
    case Some(item) => rows[t := item]
    case None => rows - {t}
  }

  // ---- requests ----

  datatype Body =
    | CheckOf(key: Item)
    | PutOf(item: Item)
    | UpdateOf(key: Item, actions: seq<Action>)
    | DeleteOf(key: Item)

  /** One write request, with its expressions parsed. */
  datatype Write = Write(table: string, body: Body, cond: Option<Cond>, env: Env)

  /** txOp: a validated write, addressed to a row. */
  datatype Op = Op(target: Target, body: Body, cond: Option<Cond>, env: Env)

  function BodyKey(t: Table, b: Body): Result<Key> {
    match b
    case PutOf(item) => if ValidItem(item) then ItemKey(t, item) else Err
    case _ => TableKey(t, b.key)
  }

  /** The action writes at or below a key attribute. */
  predicate TouchesKey(a: Action, t: Table) {
    a.path[0].name == t.hashKey || a.path[0].name == t.rangeKey
  }

  /** parseTxItem, and the same checks in front of Put, Update and Delete. */
  function ParseWrite(schema: Schema, w: Write): Result<Op> {
    if w.table !in schema then Err
    else
      var t := schema[w.table];
      var key :- BodyKey(t, w.body);
      if !ValidItem(w.env) then Err
      else if w.body.CheckOf? && w.cond.None? then Err
      else if w.body.UpdateOf? && (!ParsedUpdate(w.body.actions) || exists a :: a in w.body.actions && TouchesKey(a, t))
      then Err
      else Ok(Op(Target(w.table, key), w.body, w.cond, w.env))
  }

  lemma ParsedParts(schema: Schema, w: Write)
    requires ParseWrite(schema, w).Ok?
    ensures var op := ParseWrite(schema, w).value;
            op.target.table == w.table && op.body == w.body && op.cond == w.cond && op.env == w.env
  {
    hide BodyKey;
  }

  // ---- one operation on the item it finds ----

  /** A missing item is evaluated as one without attributes. */
  function Condition(op: Op, was: Option<Item>): Result<bool> {
    match op.cond
    case None => Ok(true)
    case Some(c) => EvalCond(c, if was.Some? then was.value else map[], op.env)
  }

  /** The item that an Update starts from. */
  function Base(op: Op, was: Option<Item>): Item
    requires op.body.UpdateOf?
  {
    if was.Some? then was.value else op.body.key
  }

  /** The item a Put or an Update writes, before its size is checked; None for a Check or a Delete. */
  function NewItem(op: Op, was: Option<Item>): Result<Option<Item>> {
    match op.body
    case PutOf(item) => Ok(Some(item))
    case UpdateOf(_, actions) =>
      (match ByReference(Base(op, was), actions, op.env)
       case Updated(item) => if ValidItem(item) then Ok(Some(item)) else Err
       case _ => Err)
    case _ => Ok(None)
  }

  /** The operation is an update that leaves a container inside itself: validating it recurses for ever. */
  predicate Hangs(op: Op, was: Option<Item>) {
    op.body.UpdateOf? && ByReference(Base(op, was), op.body.actions, op.env).Endless?
  }

  /** Such a document holds an invalid scalar, and validation may come across it in time. */
  ghost predicate MayFailFirst(op: Op, was: Option<Item>) {
    op.body.UpdateOf? &&
    match RunRefs(Cloned(Base(op, was), op.env), RunOrder(op.body.actions))
    case Err => false
    case Ok(h) => exists p :: HoldsInvalid(h, p)
  }

  predicate HoldsInvalid(h: Heap, p: seq<Elem>) {
    var v := Walk(h, Box(ROOT), p);
    v.Some? && v.value.Atom? && !ValidAV(v.value.av)
  }

  /** What the row holds after the operation, given what it held before. */
  ghost function Effect(op: Op, was: Option<Item>): Result<Option<Item>> {
    var x :- NewItem(op, was);
    match x
    case Some(item) => if ItemSize(item) > MAX_ITEM_SIZE then Err else Ok(x)
    case None => if op.body.DeleteOf? then Ok(None) else Ok(was)
  }

  // ---- the invariant ----

  /** The row's key columns are those of its item, which is valid and within the size limit. */
  ghost predicate RowSound(t: Table, key: Key, item: Item) {
    ItemKey(t, item) == Ok(key) && ValidItem(item) && ItemSize(item) <= MAX_ITEM_SIZE
  }

  ghost predicate StoreSound(schema: Schema, rows: Contents) {
    forall r :: r in rows ==> r.table in schema && RowSound(schema[r.table], r.key, rows[r])
  }

  /** An operation that came through ParseWrite leaves a sound row sound. */
  lemma EffectSound(schema: Schema, w: Write, op: Op, was: Option<Item>)
    requires ParseWrite(schema, w) == Ok(op)
    requires was.Some? ==> RowSound(schema[op.target.table], op.target.key, was.value)
    requires Effect(op, was).Ok? && Effect(op, was).value.Some?
    ensures RowSound(schema[op.target.table], op.target.key, Effect(op, was).value.value)
  {
    hide TypedKey, ByReference, ParsedUpdate, ValidItem, ItemSize;
    var t := schema[w.table];
    match op.body {
      case UpdateOf(key, actions) =>
        var base := Base(op, was);
        assert ItemKey(t, base) == Ok(op.target.key);
        KeyIsScalar(t, base);
        UpdateKeeps(base, actions, op.env, t.hashKey);
        UpdateKeepsRange(base, actions, op.env, t);
        SameKey(t, base, ByReference(base, actions, op.env).item);
      case _ =>
    }
  }

  /** Key attributes are strings, numbers or blobs. */
  lemma KeyIsScalar(t: Table, item: Item)
    requires ItemKey(t, item).Ok?
    ensures t.hashKey in item && IsScalar(item[t.hashKey])
    ensures t.rangeKey != "" ==> t.rangeKey in item && IsScalar(item[t.rangeKey])
  {
  }

  lemma UpdateKeepsRange(item: Item, actions: seq<Action>, env: Env, t: Table)
    requires forall a :: a in actions ==> a.path[0].name != t.rangeKey
    requires ByReference(item, actions, env).Updated? && ItemKey(t, item).Ok?
    ensures t.rangeKey != "" ==> KeepsName(item, ByReference(item, actions, env).item, t.rangeKey)
  {
    hide ByReference, ItemKey;
    KeyIsScalar(t, item);
    if t.rangeKey != "" {
      UpdateKeeps(item, actions, env, t.rangeKey);
    }
  }

  lemma SameKey(t: Table, item: Item, after: Item)
    requires ItemKey(t, item).Ok? && KeepsName(item, after, t.hashKey)
    requires t.rangeKey != "" ==> KeepsName(item, after, t.rangeKey)
    ensures ItemKey(t, after) == ItemKey(t, item)
  {
    hide KeyBytes;
    KeyOfSameAttributes(t, item, after);
  }
}
