/** Removing several elements of one list by index, one after the other (update.go applyUpdate). */
module ListRemoval {
  import opened Wrappers

  function RemoveAt<T>(l: seq<T>, i: nat): seq<T>
    requires i < |l|
  {
    l[..i] + l[i + 1..]
  }

  /** Each index refers to the list as the removals before it left it. */
  function RemoveInOrder<T>(l: seq<T>, o: seq<nat>): Option<seq<T>> {
    if o == [] then Some(l)
    else if o[0] >= |l| then None
    else RemoveInOrder(RemoveAt(l, o[0]), o[1..])
  }

  /** All removals at once: the elements whose index is not dropped, in order. */
  function Keep<T>(l: seq<T>, drop: set<nat>): seq<T> {
    if l == [] then []
    else Keep(l[..|l| - 1], drop) + (if |l| - 1 in drop then [] else [l[|l| - 1]])
  }

  function SetOf(o: seq<nat>): set<nat> {
    set i | i in o
  }

  predicate Descending(o: seq<nat>) {
    forall i, j :: 0 <= i < j < |o| ==> o[i] > o[j]
  }

  predicate Distinct<T(==)>(o: seq<T>) {
    forall i, j :: 0 <= i < j < |o| ==> o[i] != o[j]
  }

  predicate InRange<T>(o: seq<nat>, l: seq<T>) {
    forall i :: 0 <= i < |o| ==> o[i] < |l|
  }

  // ---- descending order is simultaneous ----

  lemma {:induction false} KeepIgnores<T>(l: seq<T>, drop: set<nat>, i: nat)
    requires i >= |l|
    ensures Keep(l, drop + {i}) == Keep(l, drop)
  {
    if l != [] {
      KeepIgnores(l[..|l| - 1], drop, i);
    }
  }

  lemma {:induction false} KeepAfterRemoval<T>(l: seq<T>, drop: set<nat>, i: nat)
    requires i < |l| && forall d :: d in drop ==> d < i
    ensures Keep(l, drop + {i}) == Keep(RemoveAt(l, i), drop)
  {
    hide Keep;
    var init, x := l[..|l| - 1], l[|l| - 1];
    assert l == init + [x];
    KeepSnoc(init, x, drop + {i});
    if i == |l| - 1 {
      KeepIgnores(init, drop, i);
      assert RemoveAt(l, i) == init;
    } else {
      KeepAfterRemoval(init, drop, i);
      assert RemoveAt(l, i) == RemoveAt(init, i) + [x];
      KeepSnoc(RemoveAt(init, i), x, drop);
    }
  }

  lemma KeepSnoc<T>(l: seq<T>, x: T, drop: set<nat>)
    ensures Keep(l + [x], drop) == Keep(l, drop) + (if |l| in drop then [] else [x])
  {
    assert (l + [x])[..|l|] == l;
  }

  lemma {:induction false} DescendingIsSimultaneous<T>(l: seq<T>, o: seq<nat>)
    requires Descending(o) && InRange(o, l)
    ensures RemoveInOrder(l, o) == Some(Keep(l, SetOf(o)))
  {
    if o == [] {
      KeepAll(l, {});
      assert SetOf(o) == {};
    } else {
      DescendingIsSimultaneous(RemoveAt(l, o[0]), o[1..]);
      KeepAfterRemoval(l, SetOf(o[1..]), o[0]);
      assert o == [o[0]] + o[1..];
      assert SetOf(o) == SetOf(o[1..]) + {o[0]};
    }
  }

  lemma {:induction false} KeepAll<T>(l: seq<T>, drop: set<nat>)
    requires forall d :: d in drop ==> d >= |l|
    ensures Keep(l, drop) == l
  {
    if l != [] {
      KeepAll(l[..|l| - 1], drop);
    }
  }

  // ---- any other order is not ----

  function Total(l: seq<nat>): nat {
    if l == [] then 0 else l[0] + Total(l[1..])
  }

  lemma {:induction false} TotalConcat(a: seq<nat>, b: seq<nat>)
    ensures Total(a + b) == Total(a) + Total(b)
  {
    if a == [] {
      assert a + b == b;
    } else {
      TotalConcat(a[1..], b);
      assert (a + b)[1..] == a[1..] + b;
    }
  }

  lemma TotalRemoveAt(l: seq<nat>, i: nat)
    requires i < |l|
    ensures Total(l) == Total(RemoveAt<nat>(l, i)) + l[i]
  {
    TotalConcat(l[..i], l[i + 1..]);
    TotalConcat(l[..i], [l[i]] + l[i + 1..]);
    assert l == l[..i] + ([l[i]] + l[i + 1..]);
    assert ([l[i]] + l[i + 1..])[1..] == l[i + 1..];
  }

  predicate Ascending(l: seq<nat>) {
    forall i, j :: 0 <= i < j < |l| ==> l[i] < l[j]
  }

  lemma {:induction false} AscendingAbove(l: seq<nat>, i: nat)
    requires Ascending(l) && i < |l|
    ensures l[i] >= i
  {
    if i > 0 {
      AscendingAbove(l, i - 1);
    }
  }

  lemma AscendingAfterRemoval(l: seq<nat>, i: nat)
    requires Ascending(l) && i < |l|
    ensures Ascending(RemoveAt<nat>(l, i))
    ensures forall j :: i <= j < |RemoveAt<nat>(l, i)| ==> RemoveAt<nat>(l, i)[j] > j
  {
    var r := RemoveAt<nat>(l, i);
    assert forall j :: 0 <= j < |r| ==> r[j] == if j < i then l[j] else l[j + 1];
    forall j | i <= j < |r| ensures r[j] > j {
      AscendingAbove(l, j + 1);
    }
  }

  /** The removed elements add up to at least the indices used, and to exactly that only if the order
      is descending; from position top on, no element equals its index any more. */
  lemma {:induction false} TightIsDescending(l: seq<nat>, o: seq<nat>, top: nat)
    requires Ascending(l) && RemoveInOrder(l, o).Some?
    requires forall j :: top <= j < |l| ==> l[j] > j
    ensures Total(l) >= Total(RemoveInOrder(l, o).value) + Total(o)
    ensures Total(l) == Total(RemoveInOrder(l, o).value) + Total(o) ==>
              Descending(o) && forall i :: 0 <= i < |o| ==> o[i] < top
    decreases o
  {
    hide RemoveAt;
    if o != [] {
      AscendingAbove(l, o[0]);
      AscendingAfterRemoval(l, o[0]);
      TightIsDescending(RemoveAt<nat>(l, o[0]), o[1..], o[0]);
      TotalRemoveAt(l, o[0]);
      assert forall i :: 0 < i < |o| ==> o[i] == o[1..][i - 1];
    }
  }

  function Ids(n: nat): (l: seq<nat>)
    ensures |l| == n && forall i :: 0 <= i < n ==> l[i] == i
  {
    seq(n, i => i)
  }

  lemma EmptyTotal()
    ensures Total([]) == 0 && forall x :: Total([x]) == x
  {
    forall x ensures Total([x]) == x {
      assert [x][1..] == [];
    }
  }

  lemma KeepStep(n: nat, drop: set<nat>)
    requires n > 0
    ensures Keep<nat>(Ids(n), drop) ==
              if n - 1 in drop then Keep<nat>(Ids(n - 1), drop) else Keep<nat>(Ids(n - 1), drop) + [n - 1]
  {
    assert Ids(n)[..n - 1] == Ids(n - 1);
  }

  lemma {:induction false} TotalOfKept(n: nat, drop: set<nat>, x: nat)
    requires x < n && x !in drop
    ensures Total(Keep<nat>(Ids(n), drop)) == Total(Keep<nat>(Ids(n), drop + {x})) + x
  {
    hide Ids, Total, Keep;
    KeepStep(n, drop);
    KeepStep(n, drop + {x});
    EmptyTotal();
    if x == n - 1 {
      KeepIgnores<nat>(Ids(n - 1), drop, x);
      TotalConcat(Keep<nat>(Ids(n - 1), drop), [x]);
    } else {
      TotalOfKept(n - 1, drop, x);
      TotalConcat(Keep<nat>(Ids(n - 1), drop), [n - 1]);
      TotalConcat(Keep<nat>(Ids(n - 1), drop + {x}), [n - 1]);
    }
  }

  lemma {:induction false} TotalOfDropped(n: nat, o: seq<nat>)
    requires Distinct(o) && InRange(o, Ids(n))
    ensures Total(Ids(n)) == Total(Keep<nat>(Ids(n), SetOf(o))) + Total(o)
  {
    hide Keep, Ids;
    if o == [] {
      KeepAll<nat>(Ids(n), {});
      assert SetOf(o) == {};
    } else {
      TotalOfDropped(n, o[1..]);
      assert o == [o[0]] + o[1..];
      assert SetOf(o) == SetOf(o[1..]) + {o[0]};
      TotalOfKept(n, SetOf(o[1..]), o[0]);
    }
  }

  /** The elements of l at the given positions. */
  function Select<T>(l: seq<T>, ids: seq<nat>): seq<T>
    requires InRange(ids, l)
  {
    seq(|ids|, k requires 0 <= k < |ids| => l[ids[k]])
  }

  lemma {:induction false} RemoveSelected<T>(l: seq<T>, ids: seq<nat>, o: seq<nat>)
    requires InRange(ids, l)
    ensures RemoveInOrder(Select(l, ids), o).Some? <==> RemoveInOrder(ids, o).Some?
    ensures RemoveInOrder(ids, o).Some? ==>
              && InRange(RemoveInOrder(ids, o).value, l)
              && RemoveInOrder(Select(l, ids), o).value == Select(l, RemoveInOrder(ids, o).value)
  {
    if o != [] && o[0] < |ids| {
      var rest := RemoveAt(ids, o[0]);
      assert forall j :: 0 <= j < |rest| ==> rest[j] == if j < o[0] then ids[j] else ids[j + 1];
      RemoveSelected(l, rest, o[1..]);
      assert RemoveAt(Select(l, ids), o[0]) == Select(l, rest);
    }
  }

  lemma {:induction false} KeepSelected<T>(l: seq<T>, ids: seq<nat>, drop: set<nat>)
    requires InRange(ids, l)
    ensures InRange(Keep(ids, drop), l)
    ensures Keep(Select(l, ids), drop) == Select(l, Keep(ids, drop))
  {
    if ids != [] {
      KeepSelected(l, ids[..|ids| - 1], drop);
      assert Select(l, ids)[..|ids| - 1] == Select(l, ids[..|ids| - 1]);
    }
  }

  lemma SelectInjective<T>(l: seq<T>, a: seq<nat>, b: seq<nat>)
    requires Distinct(l) && InRange(a, l) && InRange(b, l) && Select(l, a) == Select(l, b)
    ensures a == b
  {
    assert |Select(l, a)| == |a| && |Select(l, b)| == |b|;
    forall i | 0 <= i < |a| ensures a[i] == b[i] {
      assert l[a[i]] == Select(l, a)[i] == Select(l, b)[i] == l[b[i]];
    }
  }

  lemma {:induction false} InOrderCounts<T>(l: seq<T>, o: seq<nat>)
    requires RemoveInOrder(l, o).Some?
    ensures InRange(o, l) && |RemoveInOrder(l, o).value| == |l| - |o|
  {
    if o != [] {
      InOrderCounts(RemoveAt(l, o[0]), o[1..]);
      assert forall i :: 0 < i < |o| ==> o[i] == o[1..][i - 1];
    }
  }

  lemma {:induction false} KeepCounts<T>(l: seq<T>, drop: set<nat>)
    ensures |Keep(l, drop)| + |drop| >= |l|
  {
    if l != [] {
      var n := |l| - 1;
      if n in drop {
        KeepCounts(l[..n], drop - {n});
        KeepIgnores(l[..n], drop - {n}, n);
        assert drop - {n} + {n} == drop;
      } else {
        KeepCounts(l[..n], drop);
      }
    }
  }

  lemma {:induction false} RepeatedIsSmaller(o: seq<nat>)
    ensures |SetOf(o)| <= |o| && (|SetOf(o)| == |o| ==> Distinct(o))
  {
    if o != [] {
      RepeatedIsSmaller(o[1..]);
      assert o == [o[0]] + o[1..];
      assert SetOf(o) == SetOf(o[1..]) + {o[0]};
      if |SetOf(o)| == |o| {
        assert o[0] !in SetOf(o[1..]);
        assert forall i :: 0 < i < |o| ==> o[i] == o[1..][i - 1] && o[i] in SetOf(o[1..]);
      }
    }
  }

  /** For a list of distinct elements, removing indices one by one is removing them all at once if and
      only if they come in descending order. */
  lemma SimultaneousIffDescending<T>(l: seq<T>, o: seq<nat>)
    requires Distinct(l) && InRange(o, l)
    ensures RemoveInOrder(l, o) == Some(Keep(l, SetOf(o))) <==> Descending(o)
  {
    if Descending(o) {
      DescendingIsSimultaneous(l, o);
    }
    if RemoveInOrder(l, o) == Some(Keep(l, SetOf(o))) {
      InOrderCounts(l, o);
      KeepCounts(l, SetOf(o));
      RepeatedIsSmaller(o);
      var ids := Ids(|l|);
      assert Select(l, ids) == l;
      RemoveSelected(l, ids, o);
      KeepSelected(l, ids, SetOf(o));
      SelectInjective(l, RemoveInOrder(ids, o).value, Keep(ids, SetOf(o)));
      TotalOfDropped(|l|, o);
      TightIsDescending(ids, o, |l|);
    }
  }
}
