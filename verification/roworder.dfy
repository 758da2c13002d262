/** ORDER BY over the key columns: strictly sorted sequences of keys (ops_item.go). */
module RowOrder {
  import opened Bytes
  import opened Tables

  predicate KeyLess(a: Key, b: Key) {
    Compare(a.pk, b.pk) < 0 || (a.pk == b.pk && Compare(a.sk, b.sk) < 0)
  }

  /** a comes before b, ascending or descending. */
  predicate Before(a: Key, b: Key, forward: bool) {
    if forward then KeyLess(a, b) else KeyLess(b, a)
  }

  predicate SortedKeys(ks: seq<Key>, forward: bool) {
    forall i, j :: 0 <= i < j < |ks| ==> Before(ks[i], ks[j], forward)
  }

  lemma KeyLessTotal(a: Key, b: Key)
    ensures !KeyLess(a, a)
    ensures a == b || KeyLess(a, b) || KeyLess(b, a)
    ensures !(KeyLess(a, b) && KeyLess(b, a))
  {
    hide Compare;
    CompareZero(a.pk, b.pk);
    CompareZero(a.sk, b.sk);
    CompareZero(a.pk, a.pk);
    CompareZero(a.sk, a.sk);
    CompareAntisymmetric(a.pk, b.pk);
    CompareAntisymmetric(a.sk, b.sk);
  }

  lemma KeyLessTransitive(a: Key, b: Key, c: Key)
    requires KeyLess(a, b) && KeyLess(b, c)
    ensures KeyLess(a, c)
  {
    hide Compare;
    CompareZero(a.pk, b.pk);
    CompareZero(b.pk, c.pk);
    if Compare(a.sk, b.sk) <= 0 && Compare(b.sk, c.sk) <= 0 {
      CompareTransitive(a.sk, b.sk, c.sk);
    }
    if Compare(a.pk, b.pk) <= 0 && Compare(b.pk, c.pk) <= 0 {
      CompareTransitive(a.pk, b.pk, c.pk);
    }
  }

  predicate IsFirst(m: Key, s: set<Key>, forward: bool) {
    m in s && forall k :: k in s ==> k == m || Before(m, k, forward)
  }

  lemma {:induction false} FirstExists(s: set<Key>, forward: bool)
    requires s != {}
    ensures exists m :: IsFirst(m, s, forward)
  {
    hide KeyLess;
    var x :| x in s;
    var rest := s - {x};
    assert forall k :: k in s ==> k == x || k in rest;
    if rest == {} {
      assert IsFirst(x, s, forward);
    } else {
      FirstExists(rest, forward);
      var m :| IsFirst(m, rest, forward);
      KeyLessTotal(m, x);
      if Before(m, x, forward) {
        assert IsFirst(m, s, forward);
      } else {
        forall k | k in s ensures k == x || Before(x, k, forward) {
          if k in rest && k != m {
            if forward {
              KeyLessTransitive(x, m, k);
            } else {
              KeyLessTransitive(k, m, x);
            }
          }
        }
        assert IsFirst(x, s, forward);
      }
    }
  }

  lemma FirstUnique(s: set<Key>, forward: bool, m: Key, n: Key)
    requires IsFirst(m, s, forward) && IsFirst(n, s, forward)
    ensures m == n
  {
    hide KeyLess;
    KeyLessTotal(m, n);
  }

  function First(s: set<Key>, forward: bool): (m: Key)
    requires s != {}
    ensures IsFirst(m, s, forward)
  {
    FirstExists(s, forward);
    assert forall m, n :: IsFirst(m, s, forward) && IsFirst(n, s, forward) ==> m == n by {
      forall m, n | IsFirst(m, s, forward) && IsFirst(n, s, forward) ensures m == n {
        FirstUnique(s, forward, m, n);
      }
    }
    var m :| m in s && IsFirst(m, s, forward);
    m
  }

  /** SELECT ... ORDER BY: the keys of s in order. */
  function OrderBy(s: set<Key>, forward: bool): (ks: seq<Key>)
    ensures SortedKeys(ks, forward)
    ensures forall k :: k in ks <==> k in s
    decreases s
  {
    if s == {} then []
    else
      var m := First(s, forward);
      [m] + OrderBy(s - {m}, forward)
  }

  /** A set has one sorted sequence. */
  lemma {:induction false} SortedUnique(a: seq<Key>, b: seq<Key>, forward: bool)
    requires SortedKeys(a, forward) && SortedKeys(b, forward)
    requires forall k :: k in a <==> k in b
    ensures a == b
  {
    hide Before;
    if a == [] {
      if b != [] {
        HeadIsIn(b);
      }
    } else {
      assert a[0] in b && b[0] in a;
      SameHead(a, b, forward);
      forall k ensures k in a[1..] <==> k in b[1..] {
        NotTwice(a, k, forward);
        NotTwice(b, k, forward);
      }
      SortedUnique(a[1..], b[1..], forward);
      assert a == [a[0]] + a[1..] && b == [b[0]] + b[1..];
    }
  }

  lemma HeadIsIn<T>(s: seq<T>)
    requires s != []
    ensures s[0] in s
  {
  }

  lemma SameHead(a: seq<Key>, b: seq<Key>, forward: bool)
    requires SortedKeys(a, forward) && SortedKeys(b, forward)
    requires a != [] && b != [] && a[0] in b && b[0] in a
    ensures a[0] == b[0]
  {
    hide KeyLess;
    KeyLessTotal(a[0], b[0]);
    HeadFirst(a, b[0], forward);
    HeadFirst(b, a[0], forward);
  }

  lemma HeadFirst(ks: seq<Key>, k: Key, forward: bool)
    requires SortedKeys(ks, forward) && k in ks
    ensures k == ks[0] || Before(ks[0], k, forward)
  {
    hide Before;
    var i :| 0 <= i < |ks| && ks[i] == k;
    assert i > 0 ==> Before(ks[0], ks[i], forward);
  }

  /** In a sorted sequence the order of keys is the order of positions. */
  lemma SortedPositions(ks: seq<Key>, i: nat, j: nat, forward: bool)
    requires SortedKeys(ks, forward) && i < |ks| && j < |ks|
    ensures Before(ks[i], ks[j], forward) <==> i < j
  {
    hide KeyLess;
    KeyLessTotal(ks[i], ks[j]);
    if j < i {
      assert Before(ks[j], ks[i], forward);
    }
  }

  lemma NotTwice(a: seq<Key>, k: Key, forward: bool)
    requires SortedKeys(a, forward) && a != []
    ensures k in a[1..] <==> k in a && k != a[0]
  {
    hide KeyLess;
    KeyLessTotal(a[0], a[0]);
    if i :| 0 <= i < |a| && a[i] == k && i > 0 {
      assert a[1..][i - 1] == k;
      assert Before(a[0], a[i], forward);
    }
    if k in a[1..] {
      var i :| 0 <= i < |a[1..]| && a[1..][i] == k;
      assert a[i + 1] == k;
    }
  }

  /** Restricting a selection to the keys after its i-th key drops the first i + 1 keys. */
  lemma OrderByAfter(s: set<Key>, forward: bool, i: nat, rest: set<Key>)
    requires i < |OrderBy(s, forward)|
    requires rest == set k | k in s && Before(OrderBy(s, forward)[i], k, forward)
    ensures OrderBy(rest, forward) == OrderBy(s, forward)[i + 1..]
  {
    hide Before, OrderBy;
    var ks := OrderBy(s, forward);
    var tail := ks[i + 1..];
    forall k ensures k in tail <==> k in OrderBy(rest, forward) {
      if k in s {
        assert k in ks;
        var j :| 0 <= j < |ks| && ks[j] == k;
        SortedPositions(ks, i, j, forward);
        assert i < j ==> tail[j - i - 1] == k;
      }
      if k in tail {
        var j :| 0 <= j < |tail| && tail[j] == k;
        SortedPositions(ks, i, i + 1 + j, forward);
        assert k == ks[i + 1 + j] && k in ks;
      }
    }
    SortedUnique(OrderBy(rest, forward), ks[i + 1..], forward);
  }
}
