/** What a sequence of REMOVEs takes out of a document, told in the places of the original document
    (update.go applyUpdate). */
module Pruning {
  import opened Wrappers
  import opened Permutations
  import opened Values
  import opened Paths
  import opened Updates
  import opened Places

  // ---- removing all at once ----

  /** The dropped places below e. */
  function Below(drop: set<seq<Elem>>, e: Elem): set<seq<Elem>> {
    set p | p in drop && p != [] && p[0] == e :: p[1..]
  }

  /** v without everything at the dropped places, all at once. */
  function Prune(v: AV, drop: set<seq<Elem>>): AV
    decreases v, 1, 0
  {
    match v
    case L(es) => L(PruneList(v, drop, |es|))
    case M(m) => M(map k | k in m && [Name(k)] !in drop :: Prune(m[k], Below(drop, Name(k))))
    case _ => v
  }

  /** The first n elements of a list, pruned. */
  function PruneList(v: AV, drop: set<seq<Elem>>, n: nat): seq<AV>
    requires v.L? && n <= |v.elems|
    decreases v, 0, n
  {
    if n == 0 then []
    else
      PruneList(v, drop, n - 1) +
      if [Index(n - 1)] in drop then [] else [Prune(v.elems[n - 1], Below(drop, Index(n - 1)))]
  }

  lemma InBelow(drop: set<seq<Elem>>, e: Elem, q: seq<Elem>)
    ensures q in Below(drop, e) <==> [e] + q in drop
  {
    if q in Below(drop, e) {
      var p :| p in drop && p != [] && p[0] == e && p[1..] == q;
      assert p == [e] + q;
    }
    assert ([e] + q)[1..] == q;
  }

  lemma SameBelowSet(a: set<seq<Elem>>, e: Elem, b: set<seq<Elem>>, f: Elem)
    requires forall q :: [e] + q in a <==> [f] + q in b
    ensures Below(a, e) == Below(b, f)
  {
    forall q
      ensures q in Below(a, e) <==> q in Below(b, f)
    {
      InBelow(a, e, q);
      InBelow(b, f, q);
    }
  }

  /** Pruning is decided child by child. */
  ghost predicate PrunedAlike(v: AV, a: set<seq<Elem>>, e: Elem, w: AV, b: set<seq<Elem>>, f: Elem) {
    ([e] in a <==> [f] in b) &&
    ([e] !in a && Child(v, e).Some? && Child(w, f).Some? ==>
       Prune(Child(v, e).value, Below(a, e)) == Prune(Child(w, f).value, Below(b, f)))
  }

  lemma {:induction false} ListAlike(v: AV, a: set<seq<Elem>>, w: AV, b: set<seq<Elem>>, n: nat)
    requires v.L? && w.L? && n <= |v.elems| && n <= |w.elems|
    requires forall j :: 0 <= j < n ==> PrunedAlike(v, a, Index(j), w, b, Index(j))
    ensures PruneList(v, a, n) == PruneList(w, b, n)
  {
    hide Prune, Below;
    if n > 0 {
      ListAlike(v, a, w, b, n - 1);
      assert PrunedAlike(v, a, Index(n - 1), w, b, Index(n - 1));
    }
  }

  /** The same container, or one with the same children, pruned alike. */
  lemma AlikePruned(v: AV, a: set<seq<Elem>>, w: AV, b: set<seq<Elem>>)
    requires if v.L? then w.L? && |v.elems| == |w.elems| else v.M? && w.M? && v.attrs.Keys == w.attrs.Keys
    requires forall e :: Child(v, e).Some? ==> PrunedAlike(v, a, e, w, b, e)
    ensures Prune(v, a) == Prune(w, b)
  {
    if v.L? {
      hide Prune, Below;
      forall j | 0 <= j < |v.elems|
        ensures PrunedAlike(v, a, Index(j), w, b, Index(j))
      {
        assert Child(v, Index(j)).Some?;
      }
      ListAlike(v, a, w, b, |v.elems|);
      PruneOfList(v, a);
      PruneOfList(w, b);
    } else {
      forall k | k in v.attrs
        ensures [Name(k)] in a <==> [Name(k)] in b
        ensures [Name(k)] !in a ==> Prune(v.attrs[k], Below(a, Name(k))) == Prune(w.attrs[k], Below(b, Name(k)))
      {
        assert Child(v, Name(k)) == Some(v.attrs[k]);
        assert PrunedAlike(v, a, Name(k), w, b, Name(k));
      }
      assert Prune(v, a).attrs == Prune(w, b).attrs;
    }
  }

  lemma PruneOfList(v: AV, a: set<seq<Elem>>)
    requires v.L?
    ensures Prune(v, a) == L(PruneList(v, a, |v.elems|))
  {
  }

  lemma {:induction false} PruneNothing(v: AV)
    ensures Prune(v, {}) == v
    decreases v
  {
    match v {
      case L(es) =>
        forall j | 0 <= j < |es|
          ensures Prune(es[j], {}) == es[j]
        {
          PruneNothing(es[j]);
        }
        NothingOfList(v, |es|);
        assert es[..|es|] == es;
      case M(m) =>
        forall k | k in m
          ensures Prune(m[k], {}) == m[k] && Below({}, Name(k)) == {}
        {
          PruneNothing(m[k]);
        }
        assert Prune(v, {}).attrs == m;
      case _ =>
    }
  }

  lemma {:induction false} NothingOfList(v: AV, n: nat)
    requires v.L? && n <= |v.elems| && forall j :: 0 <= j < |v.elems| ==> Prune(v.elems[j], {}) == v.elems[j]
    ensures PruneList(v, {}, n) == v.elems[..n]
  {
    hide Prune;
    if n > 0 {
      NothingOfList(v, n - 1);
      assert Below({}, Index(n - 1)) == {};
      assert v.elems[..n] == v.elems[..n - 1] + [v.elems[n - 1]];
    }
  }

  // ---- one removal first ----

  /** The places that the dropped ones had before the removal at p, and p itself. */
  function WithRemoval(p: seq<Elem>, drop: set<seq<Elem>>): set<seq<Elem>>
    requires p != []
  {
    {p} + set q | q in drop :: Before(p, q)
  }

  lemma InWithRemoval(p: seq<Elem>, drop: set<seq<Elem>>, q: seq<Elem>)
    requires p != []
    ensures Before(p, q) in WithRemoval(p, drop) <==> Before(p, q) == p || q in drop
  {
    if Before(p, q) in WithRemoval(p, drop) && Before(p, q) != p {
      var u :| u in drop && Before(p, u) == Before(p, q);
      BeforeInjective(p, u, q);
    }
  }

  /** In a list: the children after the removal, against those before it. */
  lemma ListAfterOne(v: AV, i: nat, drop: set<seq<Elem>>, j: nat)
    requires v.L? && i < |v.elems| && j < |v.elems| - 1
    ensures var w := L(v.elems[..i] + v.elems[i + 1..]);
            PrunedAlike(w, drop, Index(j), v, WithRemoval([Index(i)], drop), Back(Index(i), Index(j)))
  {
    var x := [Index(i)];
    var f, g, all := Index(j), Back(Index(i), Index(j)), WithRemoval([Index(i)], drop);
    BackPlaces(Index(i), f, []);
    InWithRemoval(x, drop, [f]);
    forall q
      ensures [f] + q in drop <==> [g] + q in all
    {
      BackPlaces(Index(i), f, q);
      InWithRemoval(x, drop, [f] + q);
    }
    SameBelowSet(drop, f, all, g);
    hide Prune, Below, WithRemoval;
    assert [f] + [] == [f] && [g] + [] == [g];
  }

  lemma BackPlaces(e: Elem, f: Elem, q: seq<Elem>)
    requires e.Index? && f.Index?
    ensures Before([e], [f] + q) == [Back(e, f)] + q && [Back(e, f)] + q != [e]
  {
    assert Parent([e]) == [] && Last([e]) == e && ([f] + q)[1..] == q;
  }

  /** Pruning a list of which element i was removed, up to element n of the original. */
  lemma {:induction false} ListPruned(v: AV, i: nat, drop: set<seq<Elem>>, n: nat)
    requires v.L? && i < |v.elems| && n <= |v.elems|
    ensures var w, all := L(v.elems[..i] + v.elems[i + 1..]), WithRemoval([Index(i)], drop);
            PruneList(v, all, n) == PruneList(w, drop, if n <= i then n else n - 1)
  {
    hide Prune, Below, WithRemoval;
    var w, all := L(v.elems[..i] + v.elems[i + 1..]), WithRemoval([Index(i)], drop);
    if n > 0 {
      ListPruned(v, i, drop, n - 1);
      if n - 1 == i {
        RemovedIsDropped([Index(i)], drop);
      } else {
        var j := if n - 1 < i then n - 1 else n - 2;
        ListAfterOne(v, i, drop, j);
        assert Back(Index(i), Index(j)) == Index(n - 1);
        assert Child(w, Index(j)) == Some(v.elems[n - 1]) && Child(v, Index(n - 1)) == Some(v.elems[n - 1]);
      }
    }
  }

  lemma RemovedIsDropped(p: seq<Elem>, drop: set<seq<Elem>>)
    requires p != []
    ensures p in WithRemoval(p, drop)
  {
  }

  /** Removing one child and then pruning is pruning with that child. */
  lemma OnePruned(v: AV, e: Elem, drop: set<seq<Elem>>)
    requires RemoveIn(v, [e]).Ok?
    ensures Prune(RemoveIn(v, [e]).value, drop) == Prune(v, WithRemoval([e], drop))
  {
    hide Prune, WithRemoval;
    var w, all := RemoveIn(v, [e]).value, WithRemoval([e], drop);
    match e {
      case Index(i) =>
        ListPruned(v, i, drop, |v.elems|);
        PruneOfList(v, all);
        PruneOfList(w, drop);
      case Name(n) =>
        forall k
          ensures [Name(k)] in all <==> k == n || [Name(k)] in drop
          ensures k != n ==> Below(all, Name(k)) == Below(drop, Name(k))
        {
          SamePlaces(n, k, drop);
        }
        MapPruned(v, n, drop, all);
    }
  }

  lemma MapPruned(v: AV, n: string, drop: set<seq<Elem>>, all: set<seq<Elem>>)
    requires v.M? && forall k :: [Name(k)] in all <==> k == n || [Name(k)] in drop
    requires forall k :: k != n ==> Below(all, Name(k)) == Below(drop, Name(k))
    ensures Prune(M(v.attrs - {n}), drop) == Prune(v, all)
  {
    hide Below;
    assert Prune(M(v.attrs - {n}), drop).attrs == Prune(v, all).attrs;
  }

  lemma SamePlaces(n: string, k: string, drop: set<seq<Elem>>)
    ensures var all := WithRemoval([Name(n)], drop);
            && ([Name(k)] in all <==> k == n || [Name(k)] in drop)
            && (k != n ==> Below(all, Name(k)) == Below(drop, Name(k)))
  {
    var all := WithRemoval([Name(n)], drop);
    forall q
      ensures Before([Name(n)], q) == q
    {
      NameStays(n, q);
    }
    InWithRemoval([Name(n)], drop, [Name(k)]);
    if k != n {
      forall q
        ensures [Name(k)] + q in drop <==> [Name(k)] + q in all
      {
        InWithRemoval([Name(n)], drop, [Name(k)] + q);
        assert ([Name(k)] + q)[0] != [Name(n)][0];
      }
      SameBelowSet(drop, Name(k), all, Name(k));
    }
  }

  lemma NameStays(n: string, q: seq<Elem>)
    ensures Before([Name(n)], q) == q
  {
    if q != [] {
      assert Parent([Name(n)]) == [] && q == [q[0]] + q[1..];
    }
  }

  // ---- further down ----

  /** Below another child nothing has moved; below the same one, what has moved there. */
  lemma BeforeInside(p: seq<Elem>, f: Elem, q: seq<Elem>)
    requires |p| > 1
    ensures Before(p, [f] + q) == if f == p[0] then [f] + Before(p[1..], q) else [f] + q
  {
    var u := [f] + q;
    assert u[1..] == q && Parent(p) == [p[0]] + Parent(p[1..]) && Last(p[1..]) == Last(p);
    if Parent(p) < u {
      BeforeBelow(p, u);
    }
    assert f == p[0] && Parent(p[1..]) < q ==> Parent(p) < u;
  }

  lemma DropsBelow(p: seq<Elem>, drop: set<seq<Elem>>, f: Elem)
    requires |p| > 1
    ensures [f] in WithRemoval(p, drop) <==> [f] in drop
    ensures Below(WithRemoval(p, drop), f) ==
              if f == p[0] then WithRemoval(p[1..], Below(drop, f)) else Below(drop, f)
  {
    var all := WithRemoval(p, drop);
    BeforeInside(p, f, []);
    assert [f] + [] == [f];
    PlaceOfShort(p, f);
    InWithRemoval(p, drop, [f]);
    forall q
      ensures q in Below(all, f) <==>
              q in (if f == p[0] then WithRemoval(p[1..], Below(drop, f)) else Below(drop, f))
    {
      InBelow(all, f, q);
      if f == p[0] {
        DropsSame(p, drop, q);
      } else {
        BeforeInside(p, f, q);
        InWithRemoval(p, drop, [f] + q);
        InBelow(drop, f, q);
        assert ([f] + q)[0] != p[0];
      }
    }
  }

  lemma PlaceOfShort(p: seq<Elem>, f: Elem)
    requires |p| > 1
    ensures Before(p, [f]) == [f] && [f] != p
  {
  }

  lemma DropsSame(p: seq<Elem>, drop: set<seq<Elem>>, q: seq<Elem>)
    requires |p| > 1
    ensures [p[0]] + q in WithRemoval(p, drop) <==> q in WithRemoval(p[1..], Below(drop, p[0]))
  {
    var e := p[0];
    assert p == [e] + p[1..];
    if q != p[1..] {
      assert [e] + q != p by {
        assert ([e] + q)[1..] == q;
      }
      if [e] + q in WithRemoval(p, drop) {
        var u :| u in drop && Before(p, u) == [e] + q;
        FromInside(p, u, q);
        InBelow(drop, e, u[1..]);
        assert Before(p[1..], u[1..]) == q;
      }
      if q in WithRemoval(p[1..], Below(drop, e)) {
        var t :| t in Below(drop, e) && Before(p[1..], t) == q;
        InBelow(drop, e, t);
        BeforeInside(p, e, t);
        assert Before(p, [e] + t) == [e] + q;
      }
    }
  }

  lemma FromInside(p: seq<Elem>, u: seq<Elem>, q: seq<Elem>)
    requires |p| > 1 && Before(p, u) == [p[0]] + q
    ensures u != [] && u == [p[0]] + u[1..] && Before(p[1..], u[1..]) == q
  {
    assert u != [] by {
      assert !(Parent(p) < []);
    }
    assert u == [u[0]] + u[1..];
    BeforeInside(p, u[0], u[1..]);
    assert ([p[0]] + q)[1..] == q;
    assert Before(p, u)[0] == u[0];
    if u[0] == p[0] {
      assert ([u[0]] + Before(p[1..], u[1..]))[1..] == Before(p[1..], u[1..]);
    }
  }

  /** Removing at p and then pruning is pruning with p and the places as they were before. */
  lemma {:induction false} RemovedThenPruned(v: AV, p: seq<Elem>, drop: set<seq<Elem>>)
    requires p != [] && RemoveIn(v, p).Ok?
    ensures Prune(RemoveIn(v, p).value, drop) == Prune(v, WithRemoval(p, drop))
    decreases |p|
  {
    hide Prune, Below, WithRemoval, WithChild;
    if |p| == 1 {
      assert p == [p[0]];
      OnePruned(v, p[0], drop);
    } else {
      var w, all := RemoveIn(v, p).value, WithRemoval(p, drop);
      if Child(v, p[0]).Some? {
        RemovedThenPruned(Child(v, p[0]).value, p[1..], Below(drop, p[0]));
        SameContainer(v, p[0], RemoveIn(Child(v, p[0]).value, p[1..]).value);
      }
      forall f | Child(w, f).Some?
        ensures PrunedAlike(w, drop, f, v, all, f)
      {
        DropsBelow(p, drop, f);
        if Child(v, p[0]).Some? {
          ChildOfWithChild(v, p[0], f, RemoveIn(Child(v, p[0]).value, p[1..]).value);
        }
      }
      if v.L? || v.M? {
        AlikePruned(w, drop, v, all);
      } else {
        ScalarPruned(v, drop, all);
      }
    }
  }

  lemma SameContainer(v: AV, e: Elem, c: AV)
    requires Child(v, e).Some?
    ensures WithChild(v, e, c).Ok?
    ensures var w := WithChild(v, e, c).value;
            if v.L? then w.L? && |w.elems| == |v.elems| else v.M? && w.M? && w.attrs.Keys == v.attrs.Keys
  {
  }

  lemma ScalarPruned(v: AV, a: set<seq<Elem>>, b: set<seq<Elem>>)
    requires !v.L? && !v.M?
    ensures Prune(v, a) == Prune(v, b)
  {
  }

  // ---- a sequence of removals ----

  /** Removals one after another, each in the document that the others before it left. */
  function RemoveAll(v: AV, o: seq<Path>): Result<AV>
    decreases |o|
  {
    if o == [] then Ok(v)
    else
      var w :- RemoveIn(v, o[0]);
      RemoveAll(w, o[1..])
  }

  /** The places of the original document at which the removals take something out. */
  function Executed(o: seq<Path>): (r: seq<seq<Elem>>)
    ensures |r| == |o|
    decreases |o|
  {
    if o == [] then []
    else
      [o[0]] + BroughtBack(o[0], Executed(o[1..]))
  }

  /** The places before a removal at x. */
  function BroughtBack(x: Path, s: seq<seq<Elem>>): (r: seq<seq<Elem>>)
    ensures |r| == |s| && forall i :: 0 <= i < |s| ==> r[i] == Before(x, s[i])
  {
    seq(|s|, i requires 0 <= i < |s| => Before(x, s[i]))
  }

  ghost function PlacesOf(s: seq<seq<Elem>>): set<seq<Elem>> {
    set p | p in s
  }

  lemma ExecutedPlaces(o: seq<Path>)
    requires o != []
    ensures PlacesOf(Executed(o)) == WithRemoval(o[0], PlacesOf(Executed(o[1..])))
  {
    hide Before, Executed, PlacesOf;
    var rest := Executed(o[1..]);
    var back := BroughtBack(o[0], rest);
    ExecutedFirst(o);
    forall p
      ensures p in PlacesOf(Executed(o)) <==> p in WithRemoval(o[0], PlacesOf(rest))
    {
      InPlaces(Executed(o), p);
      InBack(o[0], rest, back, p);
      forall q
        ensures q in PlacesOf(rest) <==> q in rest
      {
        InPlaces(rest, q);
      }
    }
  }

  lemma InPlaces(s: seq<seq<Elem>>, p: seq<Elem>)
    ensures p in PlacesOf(s) <==> p in s
  {
  }

  lemma ExecutedFirst(o: seq<Path>)
    requires o != []
    ensures Executed(o) == [o[0]] + BroughtBack(o[0], Executed(o[1..]))
  {
  }

  lemma InBack(x: Path, s: seq<seq<Elem>>, t: seq<seq<Elem>>, p: seq<Elem>)
    requires |t| == |s| && forall i :: 0 <= i < |s| ==> t[i] == Before(x, s[i])
    ensures p in t <==> exists q :: q in s && Before(x, q) == p
  {
    hide Before;
    if p in t {
      var i :| 0 <= i < |t| && t[i] == p;
      assert s[i] in s;
    }
    if q :| q in s && Before(x, q) == p {
      var i :| 0 <= i < |s| && s[i] == q;
      assert t[i] == p;
    }
  }

  /** Whatever the document: removals that succeed leave it pruned at the places they executed at. */
  lemma {:induction false} RemovalsPrune(v: AV, o: seq<Path>)
    requires RemoveAll(v, o).Ok?
    ensures RemoveAll(v, o).value == Prune(v, PlacesOf(Executed(o)))
    decreases |o|
  {
    hide Prune, WithRemoval, RemoveIn, Executed, PlacesOf;
    if o == [] {
      NothingExecuted();
      PruneNothing(v);
    } else {
      var w := RemoveIn(v, o[0]).value;
      RemovalsPrune(w, o[1..]);
      RemovedThenPruned(v, o[0], PlacesOf(Executed(o[1..])));
      ExecutedPlaces(o);
    }
  }

  lemma NothingExecuted()
    ensures PlacesOf(Executed([])) == {}
  {
  }

  // ---- when those are the places named ----

  /** The sum of the indices in a path. */
  function Weight(p: seq<Elem>): nat {
    if p == [] then 0 else (if p[0].Index? then p[0].index else 0) + Weight(p[1..])
  }

  function TotalWeight(s: seq<seq<Elem>>): nat {
    if s == [] then 0 else Weight(s[0]) + TotalWeight(s[1..])
  }

  lemma {:induction false} WeightConcat(p: seq<Elem>, q: seq<Elem>)
    ensures Weight(p + q) == Weight(p) + Weight(q)
    decreases |p|
  {
    if p == [] {
      assert p + q == q;
    } else {
      assert (p + q)[1..] == p[1..] + q;
      WeightConcat(p[1..], q);
    }
  }

  lemma WeightBefore(p: seq<Elem>, q: seq<Elem>)
    requires p != []
    ensures Weight(Before(p, q)) == Weight(q) + if Moves(p, q) then 1 else 0
  {
    hide Weight;
    if Parent(p) < q {
      BelowParent(Parent(p), q);
      var l, f, g, s := Parent(p), q[|p| - 1], Back(Last(p), q[|p| - 1]), q[|p|..];
      WeightConcat(l + [f], s);
      WeightConcat(l, [f]);
      WeightConcat(l + [g], s);
      WeightConcat(l, [g]);
      WeightOne(f);
      WeightOne(g);
    }
  }

  lemma WeightOne(e: Elem)
    ensures Weight([e]) == if e.Index? then e.index else 0
  {
    assert [e][1..] == [];
  }

  lemma {:induction false} TotalConcat(s: seq<seq<Elem>>, t: seq<seq<Elem>>)
    ensures TotalWeight(s + t) == TotalWeight(s) + TotalWeight(t)
    decreases |s|
  {
    hide Weight;
    if s == [] {
      assert s + t == t;
    } else {
      assert (s + t)[1..] == s[1..] + t;
      TotalConcat(s[1..], t);
    }
  }

  lemma {:induction false} TotalPermuted(s: seq<seq<Elem>>, t: seq<seq<Elem>>)
    requires multiset(s) == multiset(t)
    ensures TotalWeight(s) == TotalWeight(t)
    decreases |t|
  {
    hide Weight;
    assert |s| == |multiset(s)| == |multiset(t)| == |t|;
    if t != [] {
      var i := FindFirst(s, t);
      TotalPermuted(s[..i] + s[i + 1..], t[1..]);
      assert s == s[..i] + ([s[i]] + s[i + 1..]) && ([s[i]] + s[i + 1..])[1..] == s[i + 1..];
      TotalConcat(s[..i], [s[i]] + s[i + 1..]);
      TotalConcat(s[..i], s[i + 1..]);
    }
  }

  /** Places brought back before a removal weigh no less, and as much only if none has moved. */
  lemma {:induction false} TotalBefore(p: Path, s: seq<seq<Elem>>)
    ensures TotalWeight(BroughtBack(p, s)) >= TotalWeight(s)
    ensures TotalWeight(BroughtBack(p, s)) == TotalWeight(s) ==> forall i :: 0 <= i < |s| ==> !Moves(p, s[i])
    decreases |s|
  {
    hide Weight, Before, Moves;
    if s != [] {
      assert BroughtBack(p, s)[1..] == BroughtBack(p, s[1..]);
      TotalBefore(p, s[1..]);
      WeightBefore(p, s[0]);
      assert forall i :: 0 < i < |s| ==> s[i] == s[1..][i - 1];
    }
  }

  /** No removal moves the target of a later one. */
  predicate NoneMoves(o: seq<Path>) {
    forall i, j :: 0 <= i < j < |o| ==> !Moves(o[i], o[j])
  }

  lemma NamedPlaces(o: seq<Path>)
    requires o != []
    ensures TotalWeight(PathsAsPlaces(o)) == Weight(o[0]) + TotalWeight(PathsAsPlaces(o[1..]))
    ensures PathsAsPlaces(o)[1..] == PathsAsPlaces(o[1..])
  {
    assert PathsAsPlaces(o)[1..] == PathsAsPlaces(o[1..]);
  }

  function PathsAsPlaces(o: seq<Path>): (r: seq<seq<Elem>>)
    ensures |r| == |o| && forall i :: 0 <= i < |o| ==> r[i] == o[i]
  {
    seq(|o|, i requires 0 <= i < |o| => o[i])
  }

  lemma {:induction false} ExecutedWeighs(o: seq<Path>)
    ensures TotalWeight(Executed(o)) >= TotalWeight(PathsAsPlaces(o))
    ensures TotalWeight(Executed(o)) == TotalWeight(PathsAsPlaces(o)) ==>
              Executed(o) == PathsAsPlaces(o) && NoneMoves(o)
    decreases |o|
  {
    hide Weight, Before, Moves;
    if o != [] {
      var rest := Executed(o[1..]);
      var back := BroughtBack(o[0], rest);
      ExecutedWeighs(o[1..]);
      NamedPlaces(o);
      TotalBefore(o[0], rest);
      assert Executed(o)[1..] == back && Executed(o)[0] == o[0];
      if TotalWeight(Executed(o)) == TotalWeight(PathsAsPlaces(o)) {
        forall i | 0 <= i < |rest|
          ensures back[i] == rest[i] == o[i + 1] && !Moves(o[0], o[i + 1])
        {
          MovesIff(o[0], rest[i]);
          assert rest[i] == PathsAsPlaces(o[1..])[i];
        }
        assert Executed(o) == [o[0]] + back;
        forall i | 0 < i < |o|
          ensures !Moves(o[0], o[i])
        {
          assert back[i - 1] == rest[i - 1] == o[i];
        }
        NoneMovesFirst(o);
      }
    }
  }

  lemma NoneMovesFirst(o: seq<Path>)
    requires o != [] && NoneMoves(o[1..]) && forall i :: 0 < i < |o| ==> !Moves(o[0], o[i])
    ensures NoneMoves(o)
  {
    hide Moves;
    var tail := o[1..];
    assert forall i :: 0 < i < |o| ==> o[i] == tail[i - 1];
    forall i, j | 0 <= i < j < |o|
      ensures !Moves(o[i], o[j])
    {
      assert i > 0 ==> !Moves(tail[i - 1], tail[j - 1]);
    }
  }

  lemma {:induction false} UnmovedExecuted(o: seq<Path>)
    requires NoneMoves(o)
    ensures Executed(o) == PathsAsPlaces(o)
    decreases |o|
  {
    hide Before, Moves;
    if o != [] {
      var rest, tail := Executed(o[1..]), o[1..];
      assert forall i :: 0 <= i < |tail| ==> tail[i] == o[i + 1];
      UnmovedExecuted(tail);
      forall i | 0 <= i < |rest|
        ensures Before(o[0], rest[i]) == o[i + 1]
      {
        assert rest[i] == tail[i] == o[i + 1] && !Moves(o[0], o[i + 1]);
        MovesIff(o[0], rest[i]);
      }
      assert Executed(o) == PathsAsPlaces(o);
    }
  }

  /** Removals take out exactly what they name, in the original places, if and only if none moves the
      target of a later one. */
  lemma ExecutedAsNamedIff(o: seq<Path>)
    ensures multiset(Executed(o)) == multiset(PathsAsPlaces(o)) <==> NoneMoves(o)
  {
    hide Executed, NoneMoves;
    if NoneMoves(o) {
      UnmovedExecuted(o);
    }
    if multiset(Executed(o)) == multiset(PathsAsPlaces(o)) {
      TotalPermuted(Executed(o), PathsAsPlaces(o));
      ExecutedWeighs(o);
    }
  }
}
