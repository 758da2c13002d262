/** An update in progress: a document of objects that the actions change in place, one after the other
    (update.go). */
module Documents {
  import opened Wrappers
  import opened Values
  import opened Paths
  import opened Expressions
  import opened Updates
  import opened RemoveSort
  import opened References
  import opened RightHandSides
  import opened UpdatesByReference

  class Document {
    var heap: Heap

    /** cloneItem. */
    constructor (item: Item, values: Env)
      ensures heap == Cloned(item, values)
    {
      heap := Cloned(item, values);
    }

    /** resolvePath: follow the path object by object. */
    method Resolve(p: seq<Elem>) returns (r: Option<Val>)
      ensures r == Walk(heap, Box(ROOT), p)
    {
      hide ChildVal;
      var cur := Box(ROOT);
      assert p[0..] == p;
      for i := 0 to |p|
        invariant Walk(heap, Box(ROOT), p) == Walk(heap, cur, p[i..])
      {
        assert p[i..][1..] == p[i + 1..];
        var next := ChildVal(heap, cur, p[i]);
        if next.None? {
          return None;
        }
        cur := next.value;
      }
      return Some(cur);
    }

    /** setPath: walk down, linking in a new map where an attribute is absent, and replace the child at
        the end of the path in its container. */
    method SetAt(p: Path, x: Val) returns (ok: bool)
      modifies this
      ensures ok <==> PutIn(old(heap), Box(ROOT), p, x).Ok?
      ensures ok ==> heap == PutIn(old(heap), Box(ROOT), p, x).value
    {
      hide ChildVal, SetChild;
      var cur := Box(ROOT);
      assert p[0..] == p;
      for i := 0 to |p| - 1
        invariant PutIn(old(heap), Box(ROOT), p, x) == PutIn(heap, cur, p[i..], x)
      {
        assert p[i..][1..] == p[i + 1..];
        var next := ChildVal(heap, cur, p[i]);
        if next.Some? {
          cur := next.value;
        } else if p[i].Index? {
          return false;
        } else {
          var made := Box(Made(heap.made));
          heap := Make(heap, MapCell(map[]));
          var linked := SetChild(heap, cur, p[i], made);
          if linked.Err? {
            return false;
          }
          heap, cur := linked.value, made;
        }
      }
      var done := SetChild(heap, cur, Last(p), x);
      if done.Ok? {
        heap := done.value;
      }
      ok := done.Ok?;
    }

    /** applyRemove: find the parent, then drop the attribute or the element from it. */
    method RemoveAt(p: Path) returns (ok: bool)
      modifies this
      ensures ok <==> RemoveFrom(old(heap), Box(ROOT), p).Ok?
      ensures ok ==> heap == RemoveFrom(old(heap), Box(ROOT), p).value
    {
      hide Walk, DropChild;
      var parent := Resolve(Parent(p));
      if parent.None? {
        return true;
      }
      var done := DropChild(heap, parent.value, Last(p));
      if done.Ok? {
        heap := done.value;
      }
      ok := done.Ok?;
    }

    /** applyAdd, with the unions of the three kinds of sets. */
    method AddAt(p: Path, operand: Operand) returns (ok: bool)
      modifies this
      ensures ok <==> ApplyRef(old(heap), Add(p, operand)).Ok?
      ensures ok ==> heap == ApplyRef(old(heap), Add(p, operand)).value
    {
      hide OperandVal, PutIn, AddedValue, Walk;
      var v := OperandVal(heap, operand);
      if v.Err? {
        return false;
      }
      var cur := Resolve(p);
      if v.value.Box? || (cur.Some? && cur.value.Box?) {
        return false;
      }
      var x := AddTo(v.value.av, if cur.Some? then Some(cur.value.av) else None);
      if x.Err? {
        return false;
      }
      AddedIsScalar(v.value.av, if cur.Some? then Some(cur.value.av) else None);
      ok := SetAt(p, Atom(x.value));
    }

    /** applyDelete: a set that becomes empty is removed. */
    method DeleteAt(p: Path, operand: Operand) returns (ok: bool)
      modifies this
      ensures ok <==> ApplyRef(old(heap), Delete(p, operand)).Ok?
      ensures ok ==> heap == ApplyRef(old(heap), Delete(p, operand)).value
    {
      hide OperandVal, PutIn, RemoveFrom, DeletedValue, Walk;
      var v := OperandVal(heap, operand);
      if v.Err? {
        return false;
      }
      var cur := Resolve(p);
      if cur.None? {
        return true;
      }
      if v.value.Box? || cur.value.Box? {
        return false;
      }
      var out := DeleteFrom(v.value.av, cur.value.av);
      if out.Err? {
        return false;
      }
      DeletedIsScalar(v.value.av, cur.value.av);
      if EmptySet(out.value) {
        ok := RemoveAt(p);
      } else {
        ok := SetAt(p, Atom(out.value));
      }
    }

    /** One SET, ADD, DELETE or REMOVE. */
    method Apply(a: Action) returns (ok: bool)
      modifies this
      ensures ok <==> ApplyRef(old(heap), a).Ok?
      ensures ok ==> heap == ApplyRef(old(heap), a).value
    {
      hide OperandVal, RvalueVal, SumVal, PutIn, RemoveFrom, Walk, AddedVal, DeletedVal;
      match a {
        case Set(p, _) =>
          var v := StoredVal(heap, a);
          if v.Err? {
            return false;
          }
          heap := v.value.1;
          ok := SetAt(p, v.value.0);
        case Remove(p) =>
          ok := RemoveAt(p);
        case Add(p, operand) =>
          ok := AddAt(p, operand);
        case Delete(p, operand) =>
          ok := DeleteAt(p, operand);
      }
    }

    /** The second loop of applyUpdate: run actions until one fails. */
    method ApplyInOrder(s: seq<Action>) returns (ok: bool)
      modifies this
      ensures ok <==> RunRefs(old(heap), s).Ok?
      ensures ok ==> heap == RunRefs(old(heap), s).value
    {
      hide ApplyRef;
      assert s[0..] == s;
      for i := 0 to |s|
        invariant RunRefs(old(heap), s) == RunRefs(heap, s[i..])
      {
        assert s[i..][1..] == s[i + 1..];
        ok := Apply(s[i]);
        if !ok {
          return;
        }
      }
      ok := true;
    }
  }

  /** One turn of the first loop: a REMOVE is put aside, any other action is applied. */
  lemma UpdateStep(actions: seq<Action>, i: nat, h: Heap)
    requires i < |actions|
    ensures var a := actions[i];
            && Removes(actions[i..]) ==
               (if a.Remove? then [a] + Removes(actions[i + 1..]) else Removes(actions[i + 1..]))
            && RunRefs(h, Others(actions[i..])) ==
               if a.Remove? then RunRefs(h, Others(actions[i + 1..]))
               else match ApplyRef(h, a)
                    case Err => Err
                    case Ok(next) => RunRefs(next, Others(actions[i + 1..]))
  {
    hide ApplyRef;
    var s, rest := actions[i..], Others(actions[i + 1..]);
    assert s[1..] == actions[i + 1..];
    assert [] + Removes(s[1..]) == Removes(s[1..]) && [] + rest == rest;
    assert ([s[0]] + rest)[1..] == rest;
  }

  lemma NothingLeft(actions: seq<Action>, h: Heap)
    ensures Removes(actions[|actions|..]) == [] && RunRefs(h, Others(actions[|actions|..])) == Ok(h)
  {
  }

  lemma {:induction false} RunConcat(h: Heap, a: seq<Action>, b: seq<Action>)
    ensures RunRefs(h, a + b) == match RunRefs(h, a) case Err => Err case Ok(d) => RunRefs(d, b)
    decreases |a|
  {
    hide ApplyRef;
    if a == [] {
      assert a + b == b;
    } else {
      assert (a + b)[0] == a[0] && (a + b)[1..] == a[1..] + b;
      if ApplyRef(h, a[0]).Ok? {
        RunConcat(ApplyRef(h, a[0]).value, a[1..], b);
      }
    }
  }

  /** applyUpdate: SET, ADD and DELETE in order, the REMOVEs collected, sorted, and run last; then the
      document that is left is read. */
  method UpdateItem(item: Item, actions: seq<Action>, env: Env) returns (r: UpdateResult)
    ensures r == ByReference(item, actions, env)
  {
    hide ApplyRef, SortRemoves, RunRefs, Others, Removes, ReadItem;
    var out := new Document(item, env);
    var removes: seq<Action> := [];
    assert actions[0..] == actions;
    for i := 0 to |actions|
      invariant removes + Removes(actions[i..]) == Removes(actions)
      invariant RunRefs(Cloned(item, env), Others(actions)) == RunRefs(out.heap, Others(actions[i..]))
    {
      UpdateStep(actions, i, out.heap);
      var a := actions[i];
      if a.Remove? {
        assert removes + ([a] + Removes(actions[i + 1..])) == removes + [a] + Removes(actions[i + 1..]);
        removes := removes + [a];
        continue;
      }
      var ok := out.Apply(a);
      if !ok {
        RunConcat(Cloned(item, env), Others(actions), SortRemoves(Removes(actions)));
        return Failed;
      }
    }
    NothingLeft(actions, out.heap);
    assert removes + [] == removes;
    var sorted := SortRemoves(removes);
    RunConcat(Cloned(item, env), Others(actions), sorted);
    var ok := out.ApplyInOrder(sorted);
    return if ok then ReadItem(out.heap) else Failed;
  }
}
