/** Where things are after a removal (update.go applyRemove): elements behind a removed one move. */
module Places {
  import opened Wrappers
  import opened Values
  import opened Paths
  import opened Updates

  /** The place that the child at f of a container had before its child at e was dropped. */
  function Back(e: Elem, f: Elem): Elem {
    if e.Index? && f.Index? && f.index >= e.index then Index(f.index + 1) else f
  }

  /** The place that q was before the removal at p: elements behind a removed one have moved. */
  function Before(p: seq<Elem>, q: seq<Elem>): seq<Elem>
    requires p != []
  {
    if Parent(p) < q then Parent(p) + [Back(Last(p), q[|p| - 1])] + q[|p|..] else q
  }

  lemma BelowParent(l: seq<Elem>, q: seq<Elem>)
    requires l < q
    ensures q == l + [q[|l|]] + q[|l| + 1..]
  {
  }

  lemma ParentPrefix(p: seq<Elem>, q: seq<Elem>)
    requires p != []
    ensures p <= q <==> Parent(p) < q && q[|p| - 1] == Last(p)
  {
    assert p == Parent(p) + [Last(p)];
    if Parent(p) < q && q[|p| - 1] == Last(p) {
      assert q[..|p|] == q[..|p| - 1] + [q[|p| - 1]];
    }
    if p <= q {
      assert q[..|p| - 1] == p[..|p| - 1];
    }
  }

  /** Places do not run into each other. */
  lemma BeforeInjective(p: seq<Elem>, q: seq<Elem>, u: seq<Elem>)
    requires p != [] && Before(p, q) == Before(p, u)
    ensures q == u
  {
    var l, a, b := Parent(p), Before(p, q), Before(p, u);
    if l < q {
      BelowParent(l, q);
      assert a[|l|] == Back(Last(p), q[|l|]) && a[|l| + 1..] == q[|l| + 1..] && l < a;
    }
    if l < u {
      BelowParent(l, u);
      assert b[|l|] == Back(Last(p), u[|l|]) && b[|l| + 1..] == u[|l| + 1..] && l < b;
    }
  }

  /** A removal at p moves what is at q. */
  predicate Moves(p: seq<Elem>, q: seq<Elem>)
    requires p != []
  {
    Last(p).Index? && Parent(p) < q && q[|p| - 1].Index? && q[|p| - 1].index >= Last(p).index
  }

  lemma MovesIff(p: seq<Elem>, q: seq<Elem>)
    requires p != []
    ensures Moves(p, q) <==> Before(p, q) != q
  {
    if Parent(p) < q {
      BelowParent(Parent(p), q);
      assert Before(p, q)[|p| - 1] == Back(Last(p), q[|p| - 1]);
    }
  }

  /** Reading after a removal: nothing at and below a removed attribute, all else where it was before. */
  lemma {:induction false} GetAfterRemoval(v: AV, p: seq<Elem>, q: seq<Elem>)
    requires p != [] && RemoveIn(v, p).Ok? && Get(v, Parent(p)).Some? && Parent(p) < q
    ensures Get(RemoveIn(v, p).value, q) == if Last(p).Name? && p <= q then None else Get(v, Before(p, q))
    decreases |p|
  {
    hide Before, Back, WithChild, Child;
    ParentPrefix(p, q);
    if |p| == 1 {
      FirstStep(v, p, q);
    } else {
      ParentBelow(p, q);
      BeforeBelow(p, q);
      var c := Child(v, p[0]).value;
      GetAfterRemoval(c, p[1..], q[1..]);
      ChildOfWithChild(v, p[0], q[0], RemoveIn(c, p[1..]).value);
      ParentPrefix(p[1..], q[1..]);
    }
  }

  lemma FirstStep(v: AV, p: seq<Elem>, q: seq<Elem>)
    requires |p| == 1 && RemoveIn(v, p).Ok? && q != []
    ensures Get(RemoveIn(v, p).value, q) == if Last(p).Name? && p <= q then None else Get(v, Before(p, q))
  {
    hide Get, RemoveIn, Child;
    assert p == [p[0]] && q == [q[0]] + q[1..] && Before(p, q) == [Back(p[0], q[0])] + q[1..];
    ChildAfterOne(v, p[0], q[0]);
    GetFirst(RemoveIn(v, p).value, q);
    GetFirst(v, Before(p, q));
  }

  lemma GetFirst(v: AV, q: seq<Elem>)
    requires q != []
    ensures Get(v, q) == match Child(v, q[0]) case None => None case Some(c) => Get(c, q[1..])
  {
  }

  lemma ParentBelow(p: seq<Elem>, q: seq<Elem>)
    requires |p| > 1 && Parent(p) < q
    ensures q[0] == p[0] && Parent(p[1..]) < q[1..] && Last(p[1..]) == Last(p) && q[1..][|p| - 2] == q[|p| - 1]
    ensures Parent(p) == [p[0]] + Parent(p[1..])
  {
    assert Parent(p) == [p[0]] + Parent(p[1..]);
    assert Parent(p) == q[..|p| - 1] && q[1..][..|p| - 2] == Parent(p[1..]);
  }

  lemma BeforeBelow(p: seq<Elem>, q: seq<Elem>)
    requires |p| > 1 && Parent(p) < q
    ensures q[0] == p[0] && Parent(p[1..]) < q[1..] && Before(p, q) == [p[0]] + Before(p[1..], q[1..])
  {
    hide Back, Last;
    ParentBelow(p, q);
    var g := Back(Last(p), q[|p| - 1]);
    assert q[1..][|p| - 1..] == q[|p|..];
    assert [p[0]] + Parent(p[1..]) + [g] + q[|p|..] == [p[0]] + (Parent(p[1..]) + [g] + q[|p|..]);
  }

  lemma ChildAfterOne(v: AV, e: Elem, f: Elem)
    requires RemoveIn(v, [e]).Ok?
    ensures Child(RemoveIn(v, [e]).value, f) == if e.Name? && f == e then None else Child(v, Back(e, f))
  {
  }

  /** A container without one child. */
  function WithoutChild(v: AV, e: Elem): Result<AV> {
    match e
    case Index(i) => if v.L? && i < |v.elems| then Ok(L(v.elems[..i] + v.elems[i + 1..])) else Err
    case Name(n) => if v.M? then Ok(M(v.attrs - {n})) else Err
  }

  /** Removing at a path is dropping a child from the parent and writing the parent back. */
  lemma {:induction false} RemoveInParent(v: AV, p: seq<Elem>)
    requires p != []
    ensures RemoveIn(v, p) == match Get(v, Parent(p))
                              case None => Ok(v)
                              case Some(c) =>
                                match WithoutChild(c, Last(p))
                                case Err => Err
                                case Ok(d) => Put(v, Parent(p), d)
    decreases |p|
  {
    hide WithoutChild;
    if |p| == 1 {
      RemoveInOne(v, p);
    } else if Child(v, p[0]).Some? {
      var c := Child(v, p[0]).value;
      RemoveInParent(c, p[1..]);
      assert Parent(p)[1..] == Parent(p[1..]) && Last(p) == Last(p[1..]) && Parent(p)[0] == p[0];
      SameChild(v, p[0]);
    }
  }

  lemma RemoveInOne(v: AV, p: seq<Elem>)
    requires |p| == 1
    ensures RemoveIn(v, p) == WithoutChild(v, Last(p)) && Parent(p) == []
  {
  }

  lemma SameChild(v: AV, e: Elem)
    requires Child(v, e).Some?
    ensures WithChild(v, e, Child(v, e).value) == Ok(v)
  {
    PutOfGet(v, [e]);
    assert [e][1..] == [];
    assert Put(Child(v, e).value, [], Child(v, e).value) == Ok(Child(v, e).value);
  }

  lemma {:induction false} RemoveAbsent(v: AV, p: seq<Elem>)
    requires p != [] && Get(v, Parent(p)).None?
    ensures RemoveIn(v, p) == Ok(v)
  {
    hide WithoutChild;
    RemoveInParent(v, p);
  }

  /** A removal leaves every path alone that does not overlap and does not move. */
  lemma RemovalFrame(v: AV, p: seq<Elem>, q: seq<Elem>)
    requires p != [] && RemoveIn(v, p).Ok? && !Overlap(p, q) && !Moves(p, q)
    ensures Get(RemoveIn(v, p).value, q) == Get(v, q)
  {
    hide Get, Put, RemoveIn, WithoutChild, Before;
    OverlapIff(p, q);
    if Get(v, Parent(p)).None? {
      RemoveAbsent(v, p);
    } else if Parent(p) < q {
      MovesIff(p, q);
      GetAfterRemoval(v, p, q);
    } else {
      RemoveInParent(v, p);
      OverlapIff(Parent(p), q);
      assert q <= Parent(p) ==> q <= p;
      GetFrame(v, Parent(p), WithoutChild(Get(v, Parent(p)).value, Last(p)).value, q);
    }
  }
}
