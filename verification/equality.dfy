/** DynamoDB equality of attribute values (expr.go): numbers by value, sets as sets. */
module Equality {
  import opened Wrappers
  import opened Permutations
  import opened Bytes
  import opened Decimal
  import opened Numbers
  import opened Values

  function Triples(ns: seq<string>): (ts: seq<Option<Dec>>)
    ensures |ts| == |ns|
  {
    seq(|ns|, i requires 0 <= i < |ns| => DecOf(ns[i]))
  }

  predicate AllParse(ns: seq<string>) {
    forall i :: 0 <= i < |ns| ==> DecOf(ns[i]).Some?
  }

  /** Two number sets hold the same numbers, each as often, in any order. */
  predicate SameNumbers(a: seq<string>, b: seq<string>) {
    AllParse(a) && AllParse(b) && multiset(Triples(a)) == multiset(Triples(b))
  }

  predicate AvEqual(a: AV, b: AV) {
    match (a, b)
    case (S(x), S(y)) => x == y
    case (N(x), N(y)) => NumbersEqual(x, y)
    case (B(x), B(y)) => x == y
    case (BOOL(x), BOOL(y)) => x == y
    case (NULL(x), NULL(y)) => x == y
    case (SS(x), SS(y)) => multiset(x) == multiset(y)
    case (NS(x), NS(y)) => SameNumbers(x, y)
    case (BS(x), BS(y)) => multiset(x) == multiset(y)
    case (L(x), L(y)) => |x| == |y| && forall i :: 0 <= i < |x| ==> AvEqual(x[i], y[i])
    case (M(x), M(y)) => |x| == |y| && forall k :: k in x ==> k in y && AvEqual(x[k], y[k])
    case _ => false
  }

  // ---- avEqual is an equivalence ----

  lemma {:induction false} AvEqualReflexive(a: AV)
    requires ValidAV(a)
    ensures AvEqual(a, a)
  {
    match a {
      case N(x) => NumbersEqualIffSameTriple(x, x);
      case L(x) =>
        forall i | 0 <= i < |x| ensures AvEqual(x[i], x[i]) {
          AvEqualReflexive(x[i]);
        }
      case M(x) =>
        forall k | k in x ensures AvEqual(x[k], x[k]) {
          AvEqualReflexive(x[k]);
        }
      case _ =>
    }
  }

  lemma {:induction false} SubsetOfSameSize<T>(a: set<T>, b: set<T>)
    requires a <= b && |a| == |b|
    ensures a == b
  {
    if x :| x in a {
      SubsetOfSameSize(a - {x}, b - {x});
    }
  }

  lemma {:induction false} AvEqualSymmetric(a: AV, b: AV)
    requires AvEqual(a, b)
    ensures AvEqual(b, a)
  {
    match (a, b) {
      case (N(x), N(y)) =>
        NumbersEqualIffSameTriple(x, y);
        NumbersEqualIffSameTriple(y, x);
      case (L(x), L(y)) =>
        forall i | 0 <= i < |x| ensures AvEqual(y[i], x[i]) {
          AvEqualSymmetric(x[i], y[i]);
        }
      case (M(x), M(y)) =>
        assert |x.Keys| == |y.Keys|;
        SubsetOfSameSize(x.Keys, y.Keys);
        forall k | k in y ensures k in x && AvEqual(y[k], x[k]) {
          assert k in x.Keys;
          AvEqualSymmetric(x[k], y[k]);
        }
      case _ =>
    }
  }

  lemma {:induction false} AvEqualTransitive(a: AV, b: AV, c: AV)
    requires AvEqual(a, b) && AvEqual(b, c)
    ensures AvEqual(a, c)
  {
    hide NumbersEqual, DecOf;
    match (a, b, c) {
      case (N(x), N(y), N(z)) =>
        NumbersEqualIffSameTriple(x, y);
        NumbersEqualIffSameTriple(y, z);
        NumbersEqualIffSameTriple(x, z);
      case (L(x), L(y), L(z)) =>
        forall i | 0 <= i < |x| ensures AvEqual(x[i], z[i]) {
          AvEqualTransitive(x[i], y[i], z[i]);
        }
      case (M(x), M(y), M(z)) =>
        forall k | k in x ensures k in z && AvEqual(x[k], z[k]) {
          AvEqualTransitive(x[k], y[k], z[k]);
        }
      case _ =>
    }
  }

  lemma TriplesWithout(s: seq<string>, j: nat)
    requires j < |s|
    ensures multiset(Triples(s)) == multiset(Triples(s[..j] + s[j + 1..])) + multiset{DecOf(s[j])}
  {
    hide DecOf;
    var ts, rest := Triples(s), s[..j] + s[j + 1..];
    MultisetWithout(ts, j);
    assert forall k :: 0 <= k < |rest| ==> Triples(rest)[k] == (ts[..j] + ts[j + 1..])[k];
    assert Triples(rest) == ts[..j] + ts[j + 1..];
  }

  lemma {:induction false} ReorderedTriples(a: seq<string>, b: seq<string>)
    requires multiset(a) == multiset(b)
    ensures multiset(Triples(a)) == multiset(Triples(b))
  {
    hide DecOf, Triples;
    if a == [] {
      assert |multiset(b)| == 0;
    } else {
      var j := FindLast(a, b);
      var n := |a| - 1;
      ReorderedTriples(a[..n], b[..j] + b[j + 1..]);
      TriplesWithout(a, n);
      assert a[..n] + a[n + 1..] == a[..n];
      TriplesWithout(b, j);
    }
  }

  /** Element order is irrelevant in all three kinds of sets. */
  lemma SetsUnordered(ss: seq<bytes>, ss': seq<bytes>, ns: seq<string>, ns': seq<string>)
    requires multiset(ss) == multiset(ss') && multiset(ns) == multiset(ns') && AllParse(ns)
    ensures AvEqual(SS(ss), SS(ss')) && AvEqual(BS(ss), BS(ss')) && AvEqual(NS(ns), NS(ns'))
  {
    ReorderedTriples(ns, ns');
    forall i | 0 <= i < |ns'| ensures DecOf(ns'[i]).Some? {
      assert ns'[i] in multiset(ns);
    }
  }

  // ---- the loops of the source ----

  /** The keys of the elements not yet marked as used. */
  ghost function Unused<T>(keys: seq<T>, used: seq<bool>): multiset<T>
    requires |keys| == |used|
  {
    if keys == [] then multiset{}
    else (if used[0] then multiset{} else multiset{keys[0]}) + Unused(keys[1..], used[1..])
  }

  lemma {:induction false} UnusedInitially<T>(keys: seq<T>, used: seq<bool>)
    requires |keys| == |used| && forall i :: 0 <= i < |used| ==> !used[i]
    ensures Unused(keys, used) == multiset(keys)
  {
    if keys != [] {
      UnusedInitially(keys[1..], used[1..]);
      assert keys == [keys[0]] + keys[1..];
    }
  }

  lemma {:induction false} MarkUsed<T>(keys: seq<T>, used: seq<bool>, i: nat)
    requires |keys| == |used| && i < |keys| && !used[i]
    ensures Unused(keys, used) == Unused(keys, used[i := true]) + multiset{keys[i]}
  {
    if i > 0 {
      MarkUsed(keys[1..], used[1..], i - 1);
      assert used[i := true][1..] == used[1..][i - 1 := true];
    } else {
      assert used[i := true][1..] == used[1..];
    }
  }

  lemma {:induction false} UnusedMember<T>(keys: seq<T>, used: seq<bool>, k: T)
    requires |keys| == |used|
    ensures k in Unused(keys, used) <==> exists i :: 0 <= i < |keys| && !used[i] && keys[i] == k
  {
    if keys != [] {
      UnusedMember(keys[1..], used[1..], k);
      if i :| 0 <= i < |keys| && !used[i] && keys[i] == k {
        assert i > 0 ==> !used[1..][i - 1] && keys[1..][i - 1] == k;
      }
      if k in Unused(keys[1..], used[1..]) {
        var i :| 0 <= i < |keys[1..]| && !used[1..][i] && keys[1..][i] == k;
        assert !used[i + 1] && keys[i + 1] == k;
      }
    }
  }

  /** The first i elements of a have been matched with the used elements of b. */
  ghost predicate Matched<T>(a: seq<T>, i: nat, b: seq<T>, used: seq<bool>) {
    i <= |a| && |used| == |b| && multiset(a[..i]) + Unused(b, used) == multiset(b)
  }

  lemma NothingMatched<T>(a: seq<T>, b: seq<T>, used: seq<bool>)
    requires |b| == |used| && forall i :: 0 <= i < |used| ==> !used[i]
    ensures Matched(a, 0, b, used)
  {
    UnusedInitially(b, used);
  }

  lemma MatchStep<T>(a: seq<T>, i: nat, b: seq<T>, used: seq<bool>, j: nat)
    requires Matched(a, i, b, used) && i < |a| && j < |b| && !used[j] && a[i] == b[j]
    ensures Matched(a, i + 1, b, used[j := true])
  {
    MarkUsed(b, used, j);
    assert a[..i + 1] == a[..i] + [a[i]];
  }

  lemma MatchFails<T>(a: seq<T>, i: nat, b: seq<T>, used: seq<bool>)
    requires Matched(a, i, b, used) && i < |a|
    requires forall m :: 0 <= m < |b| ==> used[m] || a[i] != b[m]
    ensures multiset(a) != multiset(b)
  {
    UnusedMember(b, used, a[i]);
    assert a == a[..i] + ([a[i]] + a[i + 1..]);
    assert multiset(a)[a[i]] >= multiset(a[..i])[a[i]] + 1;
  }

  lemma MatchDone<T>(a: seq<T>, b: seq<T>, used: seq<bool>)
    requires Matched(a, |a|, b, used) && |a| == |b|
    ensures multiset(a) == multiset(b)
  {
    assert a[..|a|] == a;
    assert |multiset(a)| + |Unused(b, used)| == |multiset(b)|;
  }

  lemma SameLength<T>(a: seq<T>, b: seq<T>)
    requires multiset(a) == multiset(b)
    ensures |a| == |b|
  {
    assert |multiset(a)| == |multiset(b)|;
  }

  /** The inner loop of the NS case: an unused element of b that is numerically equal to e, or |b|. */
  method FindUnusedNumber(e: string, b: seq<string>, used: array<bool>) returns (j: nat)
    requires used.Length == |b|
    ensures j <= |b|
    ensures j < |b| ==> !used[j] && DecOf(e).Some? && DecOf(e) == DecOf(b[j])
    ensures j == |b| ==> forall m :: 0 <= m < |b| ==> used[m] || DecOf(e).None? || DecOf(e) != DecOf(b[m])
  {
    hide DecOf, NumbersEqual;
    j := 0;
    while j < |b|
      invariant j <= |b|
      invariant forall m :: 0 <= m < j ==> used[m] || DecOf(e).None? || DecOf(e) != DecOf(b[m])
    {
      NumbersEqualIffSameTriple(e, b[j]);
      if !used[j] && NumbersEqual(e, b[j]) {
        return;
      }
      j := j + 1;
    }
  }

  /** The NS case of avEqual: each number of a takes the first unused equal number of b. */
  method NumberSetEqual(a: seq<string>, b: seq<string>) returns (r: bool)
    ensures r == SameNumbers(a, b)
  {
    hide DecOf, Unused, NumbersEqual, CompareNumbers, Matched;
    if |a| != |b| {
      if SameNumbers(a, b) {
        SameLength(Triples(a), Triples(b));
      }
      return false;
    }
    ghost var ka, kb := Triples(a), Triples(b);
    var used := new bool[|b|](_ => false);
    NothingMatched(ka, kb, used[..]);
    for i := 0 to |a|
      invariant AllParse(a[..i])
      invariant Matched(ka, i, kb, used[..])
    {
      var j := FindUnusedNumber(a[i], b, used);
      if j == |b| {
        if DecOf(a[i]).Some? {
          MatchFails(ka, i, kb, used[..]);
        }
        return false;
      }
      MatchStep(ka, i, kb, used[..], j);
      ghost var before := used[..];
      used[j] := true;
      assert used[..] == before[j := true];
    }
    assert a[..|a|] == a;
    MatchDone(ka, kb, used[..]);
    SameTriplesParse(a, b);
    return true;
  }

  lemma SameTriplesParse(a: seq<string>, b: seq<string>)
    requires AllParse(a) && multiset(Triples(a)) == multiset(Triples(b))
    ensures SameNumbers(a, b)
  {
    hide DecOf;
    forall i | 0 <= i < |b| ensures DecOf(b[i]).Some? {
      assert Triples(b)[i] in multiset(Triples(a));
    }
  }

  method FindUnusedBlob(e: bytes, b: seq<bytes>, used: array<bool>) returns (j: nat)
    requires used.Length == |b|
    ensures j <= |b|
    ensures j < |b| ==> !used[j] && e == b[j]
    ensures j == |b| ==> forall m :: 0 <= m < |b| ==> used[m] || e != b[m]
  {
    j := 0;
    while j < |b|
      invariant j <= |b|
      invariant forall m :: 0 <= m < j ==> used[m] || e != b[m]
    {
      if !used[j] && e == b[j] {
        return;
      }
      j := j + 1;
    }
  }

  /** The BS case of avEqual. */
  method BinarySetEqual(a: seq<bytes>, b: seq<bytes>) returns (r: bool)
    ensures r <==> multiset(a) == multiset(b)
  {
    if |a| != |b| {
      if multiset(a) == multiset(b) {
        SameLength(a, b);
      }
      return false;
    }
    var used := new bool[|b|](_ => false);
    NothingMatched(a, b, used[..]);
    for i := 0 to |a|
      invariant Matched(a, i, b, used[..])
    {
      var j := FindUnusedBlob(a[i], b, used);
      if j == |b| {
        MatchFails(a, i, b, used[..]);
        return false;
      }
      MatchStep(a, i, b, used[..], j);
      ghost var before := used[..];
      used[j] := true;
      assert used[..] == before[j := true];
    }
    MatchDone(a, b, used[..]);
    return true;
  }

  function CountIn(m: map<bytes, int>, s: bytes): int {
    if s in m then m[s] else 0
  }

  /** m counts the elements of a up and those of b down. */
  ghost predicate Balance(m: map<bytes, int>, a: seq<bytes>, b: seq<bytes>) {
    forall s :: CountIn(m, s) == multiset(a)[s] as int - multiset(b)[s] as int
  }

  lemma CountStep(a: seq<bytes>, i: nat)
    requires i < |a|
    ensures multiset(a[..i + 1]) == multiset(a[..i]) + multiset{a[i]}
    ensures multiset(a[..i + 1]) <= multiset(a)
  {
    assert a[..i + 1] == a[..i] + [a[i]];
    assert a == a[..i + 1] + a[i + 1..];
  }

  lemma CountsDecide(a: seq<bytes>, b: seq<bytes>)
    requires |a| == |b| && multiset(b) <= multiset(a)
    ensures multiset(a) == multiset(b)
  {
    assert multiset(a) == multiset(b) + (multiset(a) - multiset(b));
    assert |multiset(a) - multiset(b)| == 0;
  }

  lemma BalanceUp(m: map<bytes, int>, a: seq<bytes>, i: nat)
    requires i < |a| && Balance(m, a[..i], [])
    ensures Balance(m[a[i] := CountIn(m, a[i]) + 1], a[..i + 1], [])
  {
    CountStep(a, i);
  }

  lemma BalanceDown(m: map<bytes, int>, a: seq<bytes>, b: seq<bytes>, j: nat)
    requires j < |b| && Balance(m, a, b[..j]) && multiset(b[..j]) <= multiset(a)
    ensures Balance(m[b[j] := CountIn(m, b[j]) - 1], a, b[..j + 1])
    ensures CountIn(m, b[j]) <= 0 ==> multiset(a) != multiset(b)
    ensures CountIn(m, b[j]) > 0 ==> multiset(b[..j + 1]) <= multiset(a)
  {
    CountStep(b, j);
    assert multiset(b[..j + 1])[b[j]] == multiset(b[..j])[b[j]] + 1;
  }

  /** stringSetEqual: count the elements of a up, those of b down. */
  method StringSetEqual(a: seq<bytes>, b: seq<bytes>) returns (r: bool)
    ensures r <==> multiset(a) == multiset(b)
  {
    if |a| != |b| {
      if multiset(a) == multiset(b) {
        SameLength(a, b);
      }
      return false;
    }
    var m: map<bytes, int> := map[];
    assert a[..0] == b[..0] == [] && Balance(m, a[..0], []);
    hide Balance, CountIn;
    for i := 0 to |a|
      invariant Balance(m, a[..i], [])
    {
      BalanceUp(m, a, i);
      m := m[a[i] := CountIn(m, a[i]) + 1];
    }
    assert a[..|a|] == a;
    for j := 0 to |b|
      invariant Balance(m, a, b[..j])
      invariant multiset(b[..j]) <= multiset(a)
    {
      BalanceDown(m, a, b, j);
      var n := CountIn(m, b[j]) - 1;
      m := m[b[j] := n];
      if n < 0 {
        return false;
      }
    }
    assert b[..|b|] == b;
    CountsDecide(a, b);
    return true;
  }

  /** avEqual. */
  method EqualValues(a: AV, b: AV) returns (r: bool)
    ensures r == AvEqual(a, b)
    decreases a, 1
  {
    hide NumbersEqual, SameNumbers;
    match (a, b) {
      case (S(x), S(y)) =>
        r := x == y;
      case (N(x), N(y)) =>
        r := NumbersEqual(x, y);
      case (B(x), B(y)) =>
        r := x == y;
      case (BOOL(x), BOOL(y)) =>
        r := x == y;
      case (NULL(x), NULL(y)) =>
        r := x == y;
      case (SS(x), SS(y)) =>
        r := StringSetEqual(x, y);
      case (NS(x), NS(y)) =>
        r := NumberSetEqual(x, y);
      case (BS(x), BS(y)) =>
        r := BinarySetEqual(x, y);
      case (L(x), L(y)) =>
        r := EqualLists(a, b);
      case (M(x), M(y)) =>
        r := EqualMaps(a, b);
      case _ =>
        r := false;
    }
  }

  /** The loop over two lists. */
  method EqualLists(a: AV, b: AV) returns (r: bool)
    requires a.L? && b.L?
    ensures r == AvEqual(a, b)
    decreases a, 0
  {
    var x, y := a.elems, b.elems;
    if |x| != |y| {
      return false;
    }
    for i := 0 to |x|
      invariant forall j :: 0 <= j < i ==> AvEqual(x[j], y[j])
    {
      var eq := EqualValues(x[i], y[i]);
      if !eq {
        return false;
      }
    }
    return true;
  }

  /** The loop over two maps. */
  method EqualMaps(a: AV, b: AV) returns (r: bool)
    requires a.M? && b.M?
    ensures r == AvEqual(a, b)
    decreases a, 0
  {
    var x, y := a.attrs, b.attrs;
    if |x| != |y| {
      return false;
    }
    var left := x.Keys;
    while left != {}
      invariant left <= x.Keys
      invariant forall k :: k in x && k !in left ==> k in y && AvEqual(x[k], y[k])
    {
      var k :| k in left;
      if k !in y {
        return false;
      }
      var eq := EqualValues(x[k], y[k]);
      if !eq {
        return false;
      }
      left := left - {k};
    }
    return true;
  }
}
