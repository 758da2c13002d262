/** REMOVE: when the removals act on the document as it was, and on what they act otherwise (update.go
    applyUpdate, applyRemove). */
module RemoveOrder {
  import opened Wrappers
  import opened Permutations
  import opened Values
  import opened Paths
  import opened Expressions
  import opened Updates
  import opened RemoveSort
  import opened RunOrders
  import opened Places
  import opened ListRemoval
  import opened Pruning

  // ---- removals of one list among others ----

  /** The indices removed from the list at l, in the order of the actions. */
  function Indices(s: seq<Action>, l: seq<Elem>): seq<nat> {
    if s == [] then []
    else Indices(s[..|s| - 1], l) + (if InList(s[|s| - 1], l) then [IndexOf(s[|s| - 1])] else [])
  }

  /** The actions up to the last one that does not remove from l. */
  function Head(s: seq<Action>, l: seq<Elem>): seq<Action> {
    if s == [] then []
    else if InList(s[|s| - 1], l) then Head(s[..|s| - 1], l)
    else s
  }

  /** No two removals from l stand in ascending order with another action between them. */
  predicate Uninterrupted(s: seq<Action>, l: seq<Elem>) {
    forall i, j, k :: 0 <= i < k < j < |s| && InList(s[i], l) && InList(s[j], l) && !InList(s[k], l)
                      ==> IndexOf(s[i]) > IndexOf(s[j])
  }

  predicate AllAbove(o: seq<nat>, v: nat) {
    forall w :: w in o ==> w > v
  }

  lemma {:induction false} IndicesAreOf(s: seq<Action>, l: seq<Elem>, v: nat)
    ensures v in Indices(s, l) <==> exists i :: 0 <= i < |s| && InList(s[i], l) && IndexOf(s[i]) == v
  {
    hide InList, IndexOf;
    if s != [] {
      var init := s[..|s| - 1];
      IndicesAreOf(init, l, v);
      if v in Indices(init, l) {
        var i :| 0 <= i < |init| && InList(init[i], l) && IndexOf(init[i]) == v;
        assert s[i] == init[i];
      }
      if i :| 0 <= i < |s| && InList(s[i], l) && IndexOf(s[i]) == v {
        assert i < |s| - 1 ==> init[i] == s[i];
      }
    }
  }

  lemma {:induction false} HeadIsPrefix(s: seq<Action>, l: seq<Elem>)
    ensures Head(s, l) <= s && Indices(Head(s, l), l) <= Indices(s, l)
    ensures Head(s, l) != [] ==> !InList(Head(s, l)[|Head(s, l)| - 1], l)
    ensures forall k :: |Head(s, l)| <= k < |s| ==> InList(s[k], l)
  {
    hide InList, IndexOf;
    if s != [] && InList(s[|s| - 1], l) {
      var init, x := s[..|s| - 1], s[|s| - 1];
      assert s == init + [x] && Head(s, l) == Head(init, l);
      hide Head, Indices;
      HeadIsPrefix(init, l);
      IndicesSnoc(init, x, l);
    }
  }

  /** What appending x means for the condition: smaller indices must not lie behind an interruption. */
  lemma UninterruptedSnoc(s: seq<Action>, x: Action, l: seq<Elem>)
    ensures Uninterrupted(s + [x], l) <==>
              Uninterrupted(s, l) && (InList(x, l) ==> AllAbove(Indices(Head(s, l), l), IndexOf(x)))
  {
    hide InList, IndexOf, Indices, Head, Uninterrupted, AllAbove;
    if Uninterrupted(s + [x], l) {
      UninterruptedInit(s, x, l);
    }
    if Uninterrupted(s, l) && (InList(x, l) ==> AllAbove(Indices(Head(s, l), l), IndexOf(x))) {
      UninterruptedAppend(s, x, l);
    }
  }

  lemma UninterruptedInit(s: seq<Action>, x: Action, l: seq<Elem>)
    requires Uninterrupted(s + [x], l)
    ensures Uninterrupted(s, l)
    ensures InList(x, l) ==> AllAbove(Indices(Head(s, l), l), IndexOf(x))
  {
    hide InList, IndexOf, Indices, Head;
    var t, h := s + [x], Head(s, l);
    HeadIsPrefix(s, l);
    assert forall k :: 0 <= k < |s| ==> t[k] == s[k];
    if InList(x, l) {
      forall v | v in Indices(h, l) ensures v > IndexOf(x) {
        IndicesAreOf(h, l, v);
        var i :| 0 <= i < |h| && InList(h[i], l) && IndexOf(h[i]) == v;
        var k := |h| - 1;
        assert t[i] == h[i] && t[k] == h[k] && t[|s|] == x;
        assert i != k;
      }
    }
  }

  lemma UninterruptedAppend(s: seq<Action>, x: Action, l: seq<Elem>)
    requires Uninterrupted(s, l)
    requires InList(x, l) ==> AllAbove(Indices(Head(s, l), l), IndexOf(x))
    ensures Uninterrupted(s + [x], l)
  {
    hide InList, IndexOf, Indices, Head;
    var t, h := s + [x], Head(s, l);
    HeadIsPrefix(s, l);
    forall i, j, k | 0 <= i < k < j < |t| && InList(t[i], l) && InList(t[j], l) && !InList(t[k], l)
      ensures IndexOf(t[i]) > IndexOf(t[j])
    {
      assert t[i] == s[i] && t[k] == s[k];
      if j == |s| {
        assert k < |h| && h[i] == s[i];
        IndicesAreOf(h, l, IndexOf(s[i]));
      } else {
        assert t[j] == s[j];
      }
    }
  }

  // ---- what one insertion does ----

  /** Inserting another action neither reorders the indices nor moves the last interruption. */
  lemma {:induction false} InsertOther(s: seq<Action>, x: Action, l: seq<Elem>)
    requires !InList(x, l)
    ensures Indices(Insert(s, x), l) == Indices(s, l)
    ensures Head(Insert(s, x), l) == Insert(s, x)
  {
    var r := Insert(s, x);
    if s != [] && RemoveFirst(x, s[|s| - 1]) {
      var init := s[..|s| - 1];
      InsertOther(init, x, l);
      assert r[..|r| - 1] == Insert(init, x);
      assert !InList(s[|s| - 1], l);
    } else {
      assert r[..|r| - 1] == s;
    }
  }

  /** Where the index of x lands: smaller indices behind it; before it the indices of the head and,
      if there are more, none smaller directly before it. */
  lemma {:induction false} InsertIndex(s: seq<Action>, x: Action, l: seq<Elem>) returns (a: seq<nat>, b: seq<nat>)
    requires InList(x, l)
    ensures Indices(s, l) == a + b && Indices(Insert(s, x), l) == a + [IndexOf(x)] + b
    ensures Head(Insert(s, x), l) == Head(s, l)
    ensures forall i :: 0 <= i < |b| ==> b[i] < IndexOf(x)
    ensures Indices(Head(s, l), l) <= a
    ensures a == Indices(Head(s, l), l) || (a != [] && a[|a| - 1] >= IndexOf(x))
  {
    hide InList, IndexOf, RemoveFirst;
    var r, v := Insert(s, x), IndexOf(x);
    HeadIsPrefix(s, l);
    if s != [] {
      Comparator(x, s[|s| - 1], l);
    }
    if s != [] && RemoveFirst(x, s[|s| - 1]) {
      var w := IndexOf(s[|s| - 1]);
      a, b := InsertIndex(s[..|s| - 1], x, l);
      assert r[..|r| - 1] == Insert(s[..|s| - 1], x);
      Regrouped(a, v, b, w);
      b := b + [w];
    } else {
      a, b := Indices(s, l), [];
      assert r[..|r| - 1] == s;
      Regrouped(a, v, [], v);
    }
  }

  lemma Regrouped(a: seq<nat>, v: nat, b: seq<nat>, w: nat)
    ensures a + b + [w] == a + (b + [w]) && a + [v] + b + [w] == a + [v] + (b + [w])
    ensures a + [] == a && a + [v] + [] == a + [v]
  {
  }

  lemma DescendingParts(a: seq<nat>, b: seq<nat>)
    ensures Descending(a + b) <==>
              Descending(a) && Descending(b) && forall i, j :: 0 <= i < |a| && 0 <= j < |b| ==> a[i] > b[j]
  {
    var r := a + b;
    assert forall i :: 0 <= i < |a| ==> a[i] == r[i];
    assert forall j :: 0 <= j < |b| ==> b[j] == r[|a| + j];
  }

  /** A value put before smaller ones keeps descending order exactly when all before it are larger. */
  lemma DescendingInsert(a: seq<nat>, v: nat, b: seq<nat>)
    requires forall i :: 0 <= i < |b| ==> b[i] < v
    ensures Descending(a + [v] + b) <==> Descending(a + b) && forall i :: 0 <= i < |a| ==> a[i] > v
  {
    hide Descending;
    DescendingParts(a + [v], b);
    DescendingParts(a, [v]);
    DescendingParts(a, b);
    assert Descending([v]) by {
      Single(v);
    }
    var c := a + [v];
    assert forall i :: 0 <= i < |a| ==> c[i] == a[i];
    assert c[|a|] == v;
  }

  lemma Single(v: nat)
    ensures Descending([v])
  {
  }

  /** In a descending sequence it is enough to compare the last value, or the values of a prefix that
      is all of it. */
  lemma AllLarger(a: seq<nat>, v: nat, h: seq<nat>)
    requires Descending(a) && v !in a && h <= a
    requires a == h || (a != [] && a[|a| - 1] >= v)
    ensures (forall i :: 0 <= i < |a| ==> a[i] > v) <==> AllAbove(h, v)
  {
    if a != h {
      assert a[|a| - 1] in a;
      assert forall i :: 0 <= i < |a| ==> a[i] >= a[|a| - 1] > v;
    } else if AllAbove(h, v) {
      forall i | 0 <= i < |a| ensures a[i] > v {
        assert a[i] in h;
      }
    }
  }

  /** Inserting x keeps descending order exactly when no smaller index lies before the interruption. */
  lemma InsertDescends(s: seq<Action>, x: Action, l: seq<Elem>)
    requires InList(x, l) && IndexOf(x) !in Indices(s, l)
    ensures Descending(Indices(Insert(s, x), l)) <==>
              Descending(Indices(s, l)) && AllAbove(Indices(Head(s, l), l), IndexOf(x))
  {
    hide InList, IndexOf, Indices, Head, Insert, Descending, AllAbove;
    var a, b := InsertIndex(s, x, l);
    DescendingInsert(a, IndexOf(x), b);
    DescendingParts(a, b);
    if Descending(a) {
      AllLarger(a, IndexOf(x), Indices(Head(s, l), l));
    }
  }

  // ---- what the sort achieves ----

  /** The sort keeps which indices are removed, and which of them lie before the last interruption. */
  lemma {:induction false} InsertionKeepsIndices(s: seq<Action>, l: seq<Elem>, v: nat)
    ensures v in Indices(InsertionSort(s), l) <==> v in Indices(s, l)
    ensures v in Indices(Head(InsertionSort(s), l), l) <==> v in Indices(Head(s, l), l)
  {
    hide InList, IndexOf, Insert;
    if s != [] {
      var init, x := s[..|s| - 1], s[|s| - 1];
      InsertionKeepsIndices(init, l, v);
      if InList(x, l) {
        var a, b := InsertIndex(InsertionSort(init), x, l);
      } else {
        InsertOther(InsertionSort(init), x, l);
      }
    }
  }

  lemma {:induction false} InsertedIffUninterrupted(s: seq<Action>, l: seq<Elem>)
    requires Distinct(Indices(s, l))
    ensures Descending(Indices(InsertionSort(s), l)) <==> Uninterrupted(s, l)
  {
    hide InList, IndexOf, Insert, Uninterrupted, Descending;
    if s == [] {
      NothingRemoved(l);
    } else {
      var init, x := s[..|s| - 1], s[|s| - 1];
      assert s == init + [x];
      DistinctInit(s, l);
      InsertedIffUninterrupted(init, l);
      UninterruptedSnoc(init, x, l);
      if InList(x, l) {
        InsertionKeepsIndices(init, l, IndexOf(x));
        InsertDescends(InsertionSort(init), x, l);
        forall v ensures v in Indices(Head(InsertionSort(init), l), l) <==> v in Indices(Head(init, l), l) {
          InsertionKeepsIndices(init, l, v);
        }
      } else {
        InsertOther(InsertionSort(init), x, l);
      }
    }
  }

  lemma NothingRemoved(l: seq<Elem>)
    ensures Descending(Indices(InsertionSort([]), l)) && Uninterrupted([], l)
  {
  }

  lemma DistinctInit(s: seq<Action>, l: seq<Elem>)
    requires s != [] && Distinct(Indices(s, l))
    ensures Distinct(Indices(s[..|s| - 1], l))
    ensures InList(s[|s| - 1], l) ==> IndexOf(s[|s| - 1]) !in Indices(s[..|s| - 1], l)
  {
    hide InList, IndexOf;
    var a, b := Indices(s[..|s| - 1], l), Indices(s, l);
    assert forall i :: 0 <= i < |a| ==> a[i] == b[i];
    if InList(s[|s| - 1], l) {
      assert b[|a|] == IndexOf(s[|s| - 1]);
    }
  }

  /** After the sort of up to twenty REMOVEs the indices of one list are in descending order if and only
      if, in the expression, no two of them stand in ascending order with another REMOVE between them. */
  lemma SortedIffUninterrupted(s: seq<Action>, l: seq<Elem>)
    requires Distinct(Indices(s, l)) && |s| <= BLOCK
    ensures Descending(Indices(SortRemoves(s), l)) <==> Uninterrupted(s, l)
  {
    hide SortRemoves, InsertionSort, Indices, Uninterrupted, Descending, Distinct;
    SortsShort(s);
    InsertedIffUninterrupted(s, l);
  }

  lemma IndicesPermuted(s: seq<Action>, t: seq<Action>, l: seq<Elem>, v: nat)
    requires multiset(s) == multiset(t)
    ensures v in Indices(s, l) <==> v in Indices(t, l)
  {
    hide InList, IndexOf, Indices;
    IndicesAreOf(s, l, v);
    IndicesAreOf(t, l, v);
    if i :| 0 <= i < |s| && InList(s[i], l) && IndexOf(s[i]) == v {
      assert s[i] in multiset(t);
      var j :| 0 <= j < |t| && t[j] == s[i];
    }
    if j :| 0 <= j < |t| && InList(t[j], l) && IndexOf(t[j]) == v {
      assert t[j] in multiset(s);
      var i :| 0 <= i < |s| && s[i] == t[j];
    }
  }

  // ---- on documents ----

  /** Removing an element is writing the shorter list. */
  lemma {:induction false} RemoveElement(v: AV, p: seq<Elem>, i: nat, l: seq<AV>)
    requires Get(v, p) == Some(L(l))
    ensures RemoveIn(v, p + [Index(i)]) == if i < |l| then Put(v, p, L(RemoveAt(l, i))) else Err
    decreases p
  {
    var q := p + [Index(i)];
    if p == [] {
      assert q == [Index(i)];
    } else {
      assert q[0] == p[0] && q[1..] == p[1..] + [Index(i)];
      RemoveElement(Child(v, p[0]).value, p[1..], i, l);
    }
  }

  /** The action neither overlaps p nor moves what is at p. */
  predicate Leaves(a: Action, p: Path) {
    !Overlap(a.path, p) && !Moves(a.path, p)
  }

  /** Each action removes from the list at p, or leaves that list alone. */
  predicate RemovesAround(s: seq<Action>, p: Path) {
    forall i :: 0 <= i < |s| ==> s[i].Remove? && (InList(s[i], p) || Leaves(s[i], p))
  }

  lemma {:induction false} IndicesCons(x: Action, s: seq<Action>, l: seq<Elem>)
    ensures Indices([x] + s, l) == (if InList(x, l) then [IndexOf(x)] else []) + Indices(s, l)
  {
    hide InList, IndexOf;
    var t := [x] + s;
    var h := if InList(x, l) then [IndexOf(x)] else [];
    if s == [] {
      assert t[..0] == [] && h + [] == h && [] + h == h;
    } else {
      var init, y := s[..|s| - 1], s[|s| - 1];
      IndicesCons(x, init, l);
      assert t == [x] + init + [y] && s == init + [y];
      IndicesSnoc([x] + init, y, l);
      IndicesSnoc(init, y, l);
      var k := if InList(y, l) then [IndexOf(y)] else [];
      assert h + Indices(init, l) + k == h + (Indices(init, l) + k);
    }
  }

  lemma IndicesSnoc(s: seq<Action>, y: Action, l: seq<Elem>)
    ensures Indices(s + [y], l) == Indices(s, l) + (if InList(y, l) then [IndexOf(y)] else [])
  {
    hide InList, IndexOf;
    assert (s + [y])[..|s|] == s;
  }

  /** Running removals against a document runs their indices against the list. */
  lemma {:induction false} ListAfterRemoves(s: seq<Action>, item: Item, p: Path, l: seq<AV>, env: Env)
    requires RemovesAround(s, p) && ResolvePath(item, p) == Some(L(l))
    ensures ApplyAll(s, item, env).Ok? ==>
              && RemoveInOrder(l, Indices(s, p)).Some?
              && ResolvePath(ApplyAll(s, item, env).value, p) == Some(L(RemoveInOrder(l, Indices(s, p)).value))
    ensures (forall i :: 0 <= i < |s| ==> InList(s[i], p)) && RemoveInOrder(l, Indices(s, p)).Some? ==>
              ApplyAll(s, item, env).Ok?
    decreases s
  {
    hide Put, Get, RemoveAt, RemovePath, ResolvePath, InList, IndexOf, ApplyAction, Leaves;
    if s != [] {
      hide Indices, RemoveInOrder;
      var x, rest := s[0], s[1..];
      assert s == [x] + rest;
      assert forall i :: 0 <= i < |rest| ==> rest[i] == s[i + 1];
      IndicesCons(x, rest, p);
      var next := ApplyAction(x, item, env);
      if InList(x, p) {
        var i := IndexOf(x);
        RemoveListed(x, item, p, l, env);
        InOrderCons(l, i, Indices(rest, p));
        if i < |l| {
          ListAfterRemoves(rest, next.value, p, RemoveAt(l, i), env);
        }
      } else {
        RemoveUnlisted(x, item, p, env);
        assert [] + Indices(rest, p) == Indices(rest, p);
        if next.Ok? {
          ListAfterRemoves(rest, next.value, p, l, env);
        }
      }
    }
  }

  lemma InOrderCons<T>(l: seq<T>, i: nat, o: seq<nat>)
    ensures RemoveInOrder(l, [i] + o) == if i < |l| then RemoveInOrder(RemoveAt(l, i), o) else None
  {
    assert ([i] + o)[1..] == o;
  }

  lemma RemoveListed(x: Action, item: Item, p: Path, l: seq<AV>, env: Env)
    requires x.Remove? && InList(x, p) && ResolvePath(item, p) == Some(L(l))
    ensures ApplyAction(x, item, env).Ok? <==> IndexOf(x) < |l|
    ensures IndexOf(x) < |l| ==>
              ResolvePath(ApplyAction(x, item, env).value, p) == Some(L(RemoveAt(l, IndexOf(x))))
  {
    hide Put, Get, RemoveIn;
    assert x.path == p + [Index(IndexOf(x))];
    RemoveElement(M(item), p, IndexOf(x), l);
    if IndexOf(x) < |l| {
      var y := L(RemoveAt(l, IndexOf(x)));
      PutOfGet(M(item), p);
      PutFails(M(item), p, L(l), y);
      GetOfPut(M(item), p, y);
    }
  }

  lemma RemoveUnlisted(x: Action, item: Item, p: Path, env: Env)
    requires x.Remove? && Leaves(x, p)
    ensures ApplyAction(x, item, env).Ok? ==>
              ResolvePath(ApplyAction(x, item, env).value, p) == ResolvePath(item, p)
  {
    hide Get, RemoveIn, Overlap, Moves;
    if RemovePath(item, x.path).Ok? {
      RemovalFrame(M(item), x.path, p);
    }
  }

  lemma {:induction false} AllRemoves(s: seq<Action>)
    requires forall i :: 0 <= i < |s| ==> s[i].Remove?
    ensures Removes(s) == s && Others(s) == []
  {
    if s != [] {
      AllRemoves(s[1..]);
      assert s == [s[0]] + s[1..];
    }
  }

  lemma NewIndex(init: seq<Action>, x: Action, p: seq<Elem>)
    requires forall i :: 0 <= i < |init| ==> !Overlap(init[i].path, x.path)
    ensures InList(x, p) ==> IndexOf(x) !in Indices(init, p)
  {
    hide Overlap, Indices;
    if InList(x, p) {
      OverlapIff(x.path, x.path);
      forall i | 0 <= i < |init| && InList(init[i], p)
        ensures IndexOf(init[i]) != IndexOf(x)
      {
        assert init[i].path == p + [Index(IndexOf(init[i]))];
        assert x.path == p + [Index(IndexOf(x))];
      }
      IndicesAreOf(init, p, IndexOf(x));
    }
  }

  /** The indices of a parsed update are distinct, because its paths do not overlap. */
  lemma {:induction false} ParsedDistinct(s: seq<Action>, p: seq<Elem>)
    requires forall i, j :: 0 <= i < j < |s| ==> !Overlap(s[i].path, s[j].path)
    ensures Distinct(Indices(s, p))
  {
    hide Overlap;
    if s != [] {
      var init, x := s[..|s| - 1], s[|s| - 1];
      assert forall i :: 0 <= i < |init| ==> init[i] == s[i];
      ParsedDistinct(init, p);
      NewIndex(init, x, p);
      var o := Indices(s, p);
      assert forall i :: 0 <= i < |Indices(init, p)| ==> o[i] == Indices(init, p)[i] && o[i] in Indices(init, p);
    }
  }

  lemma {:induction false} RemovesOnly(actions: seq<Action>)
    ensures forall a :: a in Removes(actions) <==> a in actions && a.Remove?
  {
    if actions != [] {
      RemovesOnly(actions[1..]);
      assert actions == [actions[0]] + actions[1..];
    }
  }

  lemma {:induction false} RemovesDisjoint(actions: seq<Action>)
    requires Disjoint(actions)
    ensures Disjoint(Removes(actions))
  {
    hide Overlap, Disjoint;
    if actions == [] {
      NoneOverlap(Removes(actions));
    } else {
      assert actions == [actions[0]] + actions[1..];
      ApartFromAll(actions[1..], actions[0]);
      RemovesDisjoint(actions[1..]);
      if actions[0].Remove? {
        RemovesOnly(actions[1..]);
        var s := Removes(actions);
        assert s[..0] + s[1..] == Removes(actions[1..]);
        DisjointWith(s, 0);
      } else {
        assert [] + Removes(actions[1..]) == Removes(actions[1..]);
      }
    }
  }

  /** The indices that are removed from the list at p, in the order in which they are. */
  function SortedIndices(actions: seq<Action>, p: Path): seq<nat> {
    Indices(SortRemoves(Removes(actions)), p)
  }

  lemma SortedIndicesDistinct(actions: seq<Action>, p: Path)
    requires Disjoint(actions)
    ensures Distinct(SortedIndices(actions, p)) && Distinct(Indices(Removes(actions), p))
    ensures forall v :: v in SortedIndices(actions, p) <==> v in Indices(Removes(actions), p)
  {
    hide SortRemoves, Indices, Distinct, Disjoint, Removes;
    var s := Removes(actions);
    RemovesDisjoint(actions);
    SortKeeps(s);
    DisjointPermuted(SortRemoves(s), s);
    DisjointIsDistinct(s, p);
    DisjointIsDistinct(SortRemoves(s), p);
    forall v: nat
      ensures v in SortedIndices(actions, p) <==> v in Indices(s, p)
    {
      IndicesPermuted(SortRemoves(s), s, p, v);
    }
  }

  lemma DisjointIsDistinct(s: seq<Action>, p: Path)
    requires Disjoint(s)
    ensures Distinct(Indices(s, p))
  {
    hide Overlap, Indices, Distinct;
    ParsedDistinct(s, p);
  }

  lemma SameDrops<T>(o: seq<nat>, a: seq<nat>, l: seq<T>)
    requires (forall v :: v in o <==> v in a) && InRange(a, l)
    ensures SetOf(o) == SetOf(a) && InRange(o, l)
  {
    forall i | 0 <= i < |o| ensures o[i] < |l| {
      assert o[i] in a;
    }
  }

  lemma EmptyUpdate(item: Item, env: Env)
    ensures ApplyAll([], item, env) == Ok(item)
  {
  }

  lemma {:induction false} IndicesOfAll(s: seq<Action>, p: seq<Elem>)
    requires AllIn(s, p)
    ensures |Indices(s, p)| == |s| && forall i :: 0 <= i < |s| ==> Indices(s, p)[i] == IndexOf(s[i])
  {
    hide InList, IndexOf;
    if s != [] {
      IndicesOfAll(s[..|s| - 1], p);
    }
  }

  /** Falling and without repetition is descending. */
  lemma FallingDescends(s: seq<Action>, p: seq<Elem>)
    requires AllIn(s, p) && Falling(s) && Distinct(Indices(s, p))
    ensures Descending(Indices(s, p))
  {
    hide InList, IndexOf, Indices;
    IndicesOfAll(s, p);
  }

  /** When every REMOVE names an element of one list by an index in range, the update succeeds and is
      simultaneous, whatever the order in the expression, and however many there are. */
  lemma RemovesOfOneList(item: Item, actions: seq<Action>, env: Env, p: Path, l: seq<AV>)
    requires ParsedUpdate(actions)
    requires forall i :: 0 <= i < |actions| ==> actions[i].Remove? && InList(actions[i], p)
    requires ResolvePath(item, p) == Some(L(l)) && InRange(Indices(actions, p), l)
    ensures ApplyUpdate(item, actions, env).Ok?
    ensures ResolvePath(ApplyUpdate(item, actions, env).value, p) == Some(L(Keep(l, SetOf(Indices(actions, p)))))
  {
    hide Overlap, InList, IndexOf, Indices, SortRemoves, Descending, Distinct, ResolvePath, Keep, RemoveInOrder;
    hide Falling, ApplyAll;
    AllRemoves(actions);
    var s := SortRemoves(actions);
    EmptyUpdate(item, env);
    SortedIndicesDistinct(actions, p);
    SortFalls(actions, p);
    FallingDescends(s, p);
    SameDrops(Indices(s, p), Indices(actions, p), l);
    DescendingIsSimultaneous(l, Indices(s, p));
    forall i | 0 <= i < |s| ensures s[i].Remove? && InList(s[i], p) {
      SortMembers(actions, s[i]);
    }
    ListAfterRemoves(s, item, p, l, env);
  }

  // ---- the whole update ----

  /** The paths of REMOVEs. */
  function PathsOf(s: seq<Action>): (r: seq<Path>)
    ensures |r| == |s| && forall i :: 0 <= i < |s| ==> r[i] == s[i].path
  {
    seq(|s|, i requires 0 <= i < |s| => s[i].path)
  }

  lemma {:induction false} RunIsRemoveAll(s: seq<Action>, item: Item, env: Env)
    requires forall i :: 0 <= i < |s| ==> s[i].Remove?
    ensures RemoveAll(M(item), PathsOf(s)) == match ApplyAll(s, item, env) case Err => Err case Ok(d) => Ok(M(d))
    decreases |s|
  {
    hide RemoveIn;
    if s != [] {
      assert PathsOf(s)[1..] == PathsOf(s[1..]) && PathsOf(s)[0] == s[0].path;
      var next := RemovePath(item, s[0].path);
      if next.Ok? {
        RunIsRemoveAll(s[1..], next.value, env);
      }
    }
  }

  lemma PlaceOf(s: seq<Action>, i: nat)
    requires i < |s|
    ensures |PathsAsPlaces(PathsOf(s))| == |s| && PathsAsPlaces(PathsOf(s))[i] == s[i].path
  {
  }

  /** The places that REMOVEs name. */
  ghost function Named(s: seq<Action>): multiset<seq<Elem>> {
    multiset(PathsAsPlaces(PathsOf(s)))
  }

  lemma PathsWithout(s: seq<Action>, i: nat)
    requires i < |s|
    ensures Named(s) == Named(s[..i] + s[i + 1..]) + multiset{s[i].path}
  {
    hide PathsAsPlaces, PathsOf;
    var rest := s[..i] + s[i + 1..];
    var a, b := PathsAsPlaces(PathsOf(s)), PathsAsPlaces(PathsOf(rest));
    PlaceOf(s, i);
    MultisetWithout(a, i);
    forall j | 0 <= j < |rest|
      ensures (a[..i] + a[i + 1..])[j] == b[j]
    {
      PlaceOf(rest, j);
      PlaceOf(s, if j < i then j else j + 1);
    }
    assert |b| == |rest|;
    assert a[..i] + a[i + 1..] == b;
  }

  lemma {:induction false} PathsPermuted(s: seq<Action>, t: seq<Action>)
    requires multiset(s) == multiset(t)
    ensures Named(s) == Named(t)
    decreases |t|
  {
    hide Named;
    if t == [] {
      assert |multiset(s)| == 0;
    } else {
      var i := FindFirst(s, t);
      PathsPermuted(s[..i] + s[i + 1..], t[1..]);
      PathsWithout(s, i);
      PathsWithout(t, 0);
      assert t[..0] + t[1..] == t[1..];
    }
  }

  /** The REMOVEs in the order in which they run. */
  function RunOfRemoves(actions: seq<Action>): seq<Path> {
    PathsOf(SortRemoves(Removes(actions)))
  }

  // ---- the two ways to fail ----

  /** REMOVE a[0], b, a[1] is not reordered: the second removal hits an index that the first has
      shifted, and the element at the original index 2 is lost instead of the one at index 1. */
  lemma InterruptedRemove(item: Item, env: Env, x: AV, y: AV, z: AV)
    requires "a" in item && item["a"] == L([x, y, z])
    ensures var actions := [Remove([Name("a"), Index(0)]), Remove([Name("b")]), Remove([Name("a"), Index(1)])];
            && ParsedUpdate(actions)
            && ApplyUpdate(item, actions, env) == Ok(item["a" := L([y])] - {"b"})
            && Keep([x, y, z], {0, 1}) == [z]
  {
    hide ApplyAction, SortRemoves, ApplyAll, ParsedUpdate, Keep, RemoveAt;
    var r0, rb, r1 := Remove([Name("a"), Index(0)]), Remove([Name("b")]), Remove([Name("a"), Index(1)]);
    AllRemoves([r0, rb, r1]);
    hide Removes, Others;
    InterruptedOrder(r0, rb, r1);
    EmptyUpdate(item, env);
    RemoveFromA(item, 0, [x, y, z], env);
    TwoRemovals(x, y, z);
    var d1 := item["a" := L([y, z])];
    RemoveB(d1, env);
    SameDocument(item, L([y, z]), L([y]));
    RemoveFromA(d1 - {"b"}, 1, [y, z], env);
    ThreeActions(r0, rb, r1, item, d1, d1 - {"b"}, item["a" := L([y])] - {"b"}, env);
    KeepLast(x, y, z);
  }

  lemma SameDocument(item: Item, v: AV, w: AV)
    ensures "a" in item["a" := v] - {"b"} && (item["a" := v] - {"b"})["a"] == v
    ensures (item["a" := v] - {"b"})["a" := w] == item["a" := w] - {"b"}
  {
    assert "a"[0] != "b"[0];
  }

  lemma InterruptedOrder(r0: Action, rb: Action, r1: Action)
    requires r0 == Remove([Name("a"), Index(0)]) && rb == Remove([Name("b")]) && r1 == Remove([Name("a"), Index(1)])
    ensures SortRemoves([r0, rb, r1]) == [r0, rb, r1] && ParsedUpdate([r0, rb, r1])
  {
    var s := [r0, rb, r1];
    assert "a"[0] != "b"[0];
    assert s[..2] == [r0, rb] && s[..2][..1] == [r0] && s[..2][..1][..0] == [];
    assert [] + [r0] == [r0] && [r0] + [rb] == [r0, rb] && [r0, rb] + [r1] == s;
    assert Last(rb.path) == Name("b");
    assert Insert([], r0) == [r0] && Insert([r0], rb) == [r0, rb] && Insert([r0, rb], r1) == s;
    assert SortRemoves([]) == [] && SortRemoves([r0]) == [r0] && SortRemoves([r0, rb]) == [r0, rb];
    assert !Overlap(r0.path, rb.path) && !Overlap(rb.path, r1.path);
    assert r0.path[1..] == [Index(0)] && r1.path[1..] == [Index(1)] && !Overlap(r0.path[1..], r1.path[1..]);
  }

  lemma RemoveFromA(item: Item, i: nat, l: seq<AV>, env: Env)
    requires "a" in item && item["a"] == L(l) && i < |l|
    ensures ApplyAction(Remove([Name("a"), Index(i)]), item, env) == Ok(item["a" := L(RemoveAt(l, i))])
  {
    var p: Path := [Name("a"), Index(i)];
    assert p[1..] == [Index(i)];
    assert RemoveIn(L(l), [Index(i)]) == Ok(L(RemoveAt(l, i)));
  }

  lemma RemoveB(item: Item, env: Env)
    ensures ApplyAction(Remove([Name("b")]), item, env) == Ok(item - {"b"})
  {
  }

  lemma TwoRemovals(x: AV, y: AV, z: AV)
    ensures RemoveAt([x, y, z], 0) == [y, z] && RemoveAt([y, z], 1) == [y]
  {
  }

  lemma ThreeActions(x: Action, y: Action, z: Action, d0: Item, d1: Item, d2: Item, d3: Item, env: Env)
    requires ApplyAction(x, d0, env) == Ok(d1) && ApplyAction(y, d1, env) == Ok(d2) && ApplyAction(z, d2, env) == Ok(d3)
    ensures ApplyAll([x, y, z], d0, env) == Ok(d3)
  {
    hide ApplyAction;
    assert [x, y, z][1..] == [y, z] && [y, z][1..] == [z] && [z][1..] == [];
    assert ApplyAll([z], d2, env) == Ok(d3);
    assert ApplyAll([y, z], d1, env) == Ok(d3);
  }

  lemma KeepLast(x: AV, y: AV, z: AV)
    ensures Keep([x, y, z], {0, 1}) == [z]
  {
    KeepSnoc([], x, {0, 1});
    KeepSnoc([x], y, {0, 1});
    KeepSnoc([x, y], z, {0, 1});
    assert [] + [x] == [x] && [x] + [y] == [x, y] && [x, y] + [z] == [x, y, z];
  }

  /** REMOVE a[0], a[1][0] stands in the order of the expression, uninterrupted for either list; but the
      first removal moves the list that the second one goes into, so the element of a[2] is lost. */
  lemma MovedRemove(item: Item, env: Env, x: AV, y: AV, z: AV)
    requires "a" in item && item["a"] == L([L([x]), L([y]), L([z])])
    ensures var actions := [Remove([Name("a"), Index(0)]), Remove([Name("a"), Index(1), Index(0)])];
            && ParsedUpdate(actions) && Removes(actions) == actions
            && Uninterrupted(actions, [Name("a")]) && Uninterrupted(actions, [Name("a"), Index(1)])
            && !NoneMoves(RunOfRemoves(actions))
            && ApplyUpdate(item, actions, env) == Ok(item["a" := L([L([y]), L([])])])
  {
    hide SortRemoves, ApplyAction, ApplyAll;
    var r0, r1 := Remove([Name("a"), Index(0)]), Remove([Name("a"), Index(1), Index(0)]);
    var s := [r0, r1];
    AllRemoves(s);
    MovedOrder(r0, r1);
    EmptyUpdate(item, env);
    RemoveFromA(item, 0, [L([x]), L([y]), L([z])], env);
    assert RemoveAt([L([x]), L([y]), L([z])], 0) == [L([y]), L([z])];
    var d := item["a" := L([L([y]), L([z])])];
    RemoveInner(d, y, z, env);
    assert d["a" := L([L([y]), L([])])] == item["a" := L([L([y]), L([])])];
    BothRun(r0, r1, item, d, item["a" := L([L([y]), L([])])], env);
    assert RunOfRemoves(s)[0] == r0.path && RunOfRemoves(s)[1] == r1.path;
    assert Moves(r0.path, r1.path);
  }

  lemma MovedOrder(r0: Action, r1: Action)
    requires r0 == Remove([Name("a"), Index(0)]) && r1 == Remove([Name("a"), Index(1), Index(0)])
    ensures SortRemoves([r0, r1]) == [r0, r1] && ParsedUpdate([r0, r1])
    ensures Uninterrupted([r0, r1], [Name("a")]) && Uninterrupted([r0, r1], [Name("a"), Index(1)])
  {
    hide SortRemoves;
    var s := [r0, r1];
    SortsShort(s);
    assert s[..1] == [r0] && [r0][..0] == [] && [] + [r0] == [r0] && [r0] + [r1] == s;
    assert Parent(r0.path) == [Name("a")] && |Parent(r1.path)| == 2;
    assert InsertionSort([]) == [] && InsertionSort([r0]) == [r0] && Insert([r0], r1) == s;
    assert r0.path[1..] == [Index(0)] && r1.path[1..] == [Index(1), Index(0)];
    assert !Overlap(r0.path[1..], r1.path[1..]);
  }

  lemma RemoveInner(item: Item, y: AV, z: AV, env: Env)
    requires "a" in item && item["a"] == L([L([y]), L([z])])
    ensures ApplyAction(Remove([Name("a"), Index(1), Index(0)]), item, env) == Ok(item["a" := L([L([y]), L([])])])
  {
    var p: Path := [Name("a"), Index(1), Index(0)];
    assert p[1..] == [Index(1), Index(0)] && p[1..][1..] == [Index(0)];
    assert [z][..0] + [z][1..] == [];
    assert RemoveIn(L([z]), [Index(0)]) == Ok(L([]));
    assert [L([y]), L([z])][1 := L([])] == [L([y]), L([])];
    assert RemoveIn(L([L([y]), L([z])]), p[1..]) == Ok(L([L([y]), L([])]));
  }

  lemma BothRun(x: Action, y: Action, d0: Item, d1: Item, d2: Item, env: Env)
    requires ApplyAction(x, d0, env) == Ok(d1) && ApplyAction(y, d1, env) == Ok(d2)
    ensures ApplyAll([x, y], d0, env) == Ok(d2)
  {
    hide ApplyAction;
    assert [x, y][1..] == [y] && [y][1..] == [];
    assert ApplyAll([y], d1, env) == Ok(d2);
  }
}
