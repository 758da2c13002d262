/** The stable sort that applyUpdate puts the REMOVEs through (update.go, sort.SliceStable): insertion sort
    on blocks of twenty, then merging by rotations. Its comparator orders elements of one list only. */
module RemoveSort {
  import opened Wrappers
  import opened Permutations
  import opened Values
  import opened Paths
  import opened Expressions
  import opened Updates

  const BLOCK: nat := 20

  /** One element of an insertion sort: x moves left past every element it must precede. */
  function Insert(s: seq<Action>, x: Action): (r: seq<Action>)
    ensures |r| == |s| + 1
  {
    if s != [] && RemoveFirst(x, s[|s| - 1]) then Insert(s[..|s| - 1], x) + [s[|s| - 1]]
    else s + [x]
  }

  function InsertionSort(s: seq<Action>): (r: seq<Action>)
    ensures |r| == |s|
  {
    if s == [] then [] else Insert(InsertionSort(s[..|s| - 1]), s[|s| - 1])
  }

  /** Blocks of twenty, and the rest, each by insertion sort. */
  function SortBlocks(s: seq<Action>): (r: seq<Action>)
    ensures |r| == |s|
  {
    if |s| < BLOCK then InsertionSort(s) else InsertionSort(s[..BLOCK]) + SortBlocks(s[BLOCK..])
  }

  /** Binary search for a place with p in front of it and not p behind it. */
  function Search(p: int -> bool, i: int, j: int): (k: int)
    requires 0 <= i <= j
    ensures i <= k <= j
    decreases j - i
  {
    if i == j then i
    else
      var h := (i + j) / 2;
      if p(h) then Search(p, h + 1, j) else Search(p, i, h)
  }

  /** The place of x in v, behind elements that precede it. */
  function PlaceBefore(x: Action, v: seq<Action>): (k: nat)
    ensures k <= |v|
  {
    Search(h => 0 <= h < |v| && RemoveFirst(v[h], x), 0, |v|)
  }

  /** The place of y in u, before elements that it precedes. */
  function PlaceBehind(y: Action, u: seq<Action>): (k: nat)
    ensures k <= |u|
  {
    Search(h => 0 <= h < |u| && !RemoveFirst(y, u[h]), 0, |u|)
  }

  /** How much of u stays in the first half, of length mid, when u and v are merged around their middle. */
  function Cut(u: seq<Action>, v: seq<Action>, mid: nat): (k: nat)
    requires |u| + |v| - 1 <= 2 * mid <= |u| + |v|
    ensures k <= |u| && 0 <= mid - k <= |v|
  {
    Search(c => 0 <= c < |u| && 0 <= mid - 1 - c < |v| && !RemoveFirst(v[mid - 1 - c], u[c]),
           if |u| > mid then mid - |v| else 0, if |u| > mid then mid else |u|)
  }

  /** symMerge of two neighbouring runs. */
  function SymMerge(u: seq<Action>, v: seq<Action>): (r: seq<Action>)
    ensures |r| == |u| + |v|
    decreases |u| + |v|
  {
    if u == [] || v == [] then u + v
    else if |u| == 1 then v[..PlaceBefore(u[0], v)] + u + v[PlaceBefore(u[0], v)..]
    else if |v| == 1 then u[..PlaceBehind(v[0], u)] + v + u[PlaceBehind(v[0], u)..]
    else
      var mid := (|u| + |v|) / 2;
      var k := Cut(u, v, mid);
      SymMerge(u[..k], v[..mid - k]) + SymMerge(u[k..], v[mid - k..])
  }

  /** Neighbouring blocks of size b merged. */
  function MergePass(s: seq<Action>, b: nat): (r: seq<Action>)
    requires b > 0
    ensures |r| == |s|
    decreases |s|
  {
    if |s| <= b then s
    else if |s| < 2 * b then SymMerge(s[..b], s[b..])
    else SymMerge(s[..b], s[b..2 * b]) + MergePass(s[2 * b..], b)
  }

  function MergePasses(s: seq<Action>, b: nat): (r: seq<Action>)
    requires b > 0
    ensures |r| == |s|
    decreases |s| - b
  {
    if b < |s| then MergePasses(MergePass(s, b), 2 * b) else s
  }

  function SortRemoves(s: seq<Action>): (r: seq<Action>)
    ensures |r| == |s|
  {
    MergePasses(SortBlocks(s), BLOCK)
  }

  /** applyUpdate: SET, ADD and DELETE as written, then the REMOVEs as sorted. */
  function ApplyUpdate(item: Item, actions: seq<Action>, env: Env): Result<Item> {
    var out :- ApplyAll(Others(actions), item, env);
    ApplyAll(SortRemoves(Removes(actions)), out, env)
  }

  /** Up to twenty elements it is an insertion sort. */
  lemma SortsShort(s: seq<Action>)
    requires |s| <= BLOCK
    ensures SortRemoves(s) == InsertionSort(s)
  {
    hide InsertionSort;
    if |s| == BLOCK {
      assert s[..BLOCK] == s && s[BLOCK..] == [];
      SortsNothing();
    }
  }

  lemma SortsNothing()
    ensures SortBlocks([]) == [] && SortRemoves([]) == []
  {
    assert |SortBlocks([])| == 0;
  }

  // ---- the sort loses nothing ----

  lemma {:induction false} InsertKeeps(s: seq<Action>, x: Action)
    ensures multiset(Insert(s, x)) == multiset(s) + multiset{x}
  {
    if s != [] && RemoveFirst(x, s[|s| - 1]) {
      InsertKeeps(s[..|s| - 1], x);
      assert s == s[..|s| - 1] + [s[|s| - 1]];
    }
  }

  lemma {:induction false} InsertionKeeps(s: seq<Action>)
    ensures multiset(InsertionSort(s)) == multiset(s)
  {
    hide Insert;
    if s != [] {
      InsertionKeeps(s[..|s| - 1]);
      InsertKeeps(InsertionSort(s[..|s| - 1]), s[|s| - 1]);
      assert s == s[..|s| - 1] + [s[|s| - 1]];
    }
  }

  lemma {:induction false} BlocksKeep(s: seq<Action>)
    ensures multiset(SortBlocks(s)) == multiset(s)
    decreases |s|
  {
    hide InsertionSort;
    if |s| < BLOCK {
      InsertionKeeps(s);
    } else {
      InsertionKeeps(s[..BLOCK]);
      BlocksKeep(s[BLOCK..]);
      assert s == s[..BLOCK] + s[BLOCK..];
    }
  }

  lemma SplitKeeps(s: seq<Action>, i: nat)
    requires i <= |s|
    ensures multiset(s[..i]) + multiset(s[i..]) == multiset(s)
  {
    assert s == s[..i] + s[i..];
  }

  lemma {:induction false} MergeKeeps(u: seq<Action>, v: seq<Action>)
    ensures multiset(SymMerge(u, v)) == multiset(u) + multiset(v)
    decreases |u| + |v|
  {
    hide PlaceBefore, PlaceBehind, Cut, SymMerge;
    MergeCases(u, v);
    if u == [] || v == [] {
    } else if |u| == 1 {
      SplitKeeps(v, PlaceBefore(u[0], v));
    } else if |v| == 1 {
      SplitKeeps(u, PlaceBehind(v[0], u));
    } else {
      var mid := (|u| + |v|) / 2;
      var k := Cut(u, v, mid);
      MergeKeeps(u[..k], v[..mid - k]);
      MergeKeeps(u[k..], v[mid - k..]);
      SplitKeeps(u, k);
      SplitKeeps(v, mid - k);
    }
  }

  lemma {:induction false} PassKeeps(s: seq<Action>, b: nat)
    requires b > 0
    ensures multiset(MergePass(s, b)) == multiset(s)
    decreases |s|
  {
    hide SymMerge;
    if b < |s| < 2 * b {
      MergeKeeps(s[..b], s[b..]);
      SplitKeeps(s, b);
    } else if 2 * b <= |s| {
      MergeKeeps(s[..b], s[b..2 * b]);
      PassKeeps(s[2 * b..], b);
      assert s == s[..b] + s[b..2 * b] + s[2 * b..];
    }
  }

  lemma {:induction false} PassesKeep(s: seq<Action>, b: nat)
    requires b > 0
    ensures multiset(MergePasses(s, b)) == multiset(s)
    decreases |s| - b
  {
    hide MergePass;
    if b < |s| {
      PassKeeps(s, b);
      PassesKeep(MergePass(s, b), 2 * b);
    }
  }

  lemma SortKeeps(s: seq<Action>)
    ensures multiset(SortRemoves(s)) == multiset(s)
  {
    hide SortBlocks, MergePasses;
    BlocksKeep(s);
    PassesKeep(SortBlocks(s), BLOCK);
  }

  lemma SortMembers(s: seq<Action>, a: Action)
    ensures a in SortRemoves(s) <==> a in s
  {
    hide SortRemoves;
    SortKeeps(s);
    SameMembers(SortRemoves(s), s, a);
  }

  // ---- elements of one list ----

  /** a removes an element of the list at path l by its index. */
  predicate InList(a: Action, l: seq<Elem>) {
    Last(a.path).Index? && Parent(a.path) == l
  }

  function IndexOf(a: Action): nat {
    if Last(a.path).Index? then Last(a.path).index else 0
  }

  /** What the comparator says of a removal x from l and another action. */
  lemma Comparator(x: Action, y: Action, l: seq<Elem>)
    requires InList(x, l)
    ensures RemoveFirst(x, y) <==> InList(y, l) && IndexOf(y) < IndexOf(x)
  {
  }

  predicate AllIn(s: seq<Action>, l: seq<Elem>) {
    forall i :: 0 <= i < |s| ==> InList(s[i], l)
  }

  /** Higher indices first. */
  predicate Falling(s: seq<Action>) {
    forall i, j :: 0 <= i < j < |s| ==> IndexOf(s[i]) >= IndexOf(s[j])
  }

  /** All of u before all of v. */
  predicate FallsTo(u: seq<Action>, v: seq<Action>) {
    forall i, j :: 0 <= i < |u| && 0 <= j < |v| ==> IndexOf(u[i]) >= IndexOf(v[j])
  }

  lemma FallingConcat(u: seq<Action>, v: seq<Action>)
    requires Falling(u) && Falling(v) && FallsTo(u, v)
    ensures Falling(u + v)
  {
    hide IndexOf;
  }

  lemma AllInConcat(u: seq<Action>, v: seq<Action>, l: seq<Elem>)
    requires AllIn(u, l) && AllIn(v, l)
    ensures AllIn(u + v, l)
  {
    hide InList;
  }

  /** FallsTo by membership. */
  lemma FallsToMembers(u: seq<Action>, v: seq<Action>, a: seq<Action>, b: seq<Action>)
    requires FallsTo(u, v) && (forall x :: x in a ==> x in u) && (forall y :: y in b ==> y in v)
    ensures FallsTo(a, b)
  {
    hide IndexOf;
    forall i, j | 0 <= i < |a| && 0 <= j < |b|
      ensures IndexOf(a[i]) >= IndexOf(b[j])
    {
      assert a[i] in u && b[j] in v;
      var k :| 0 <= k < |u| && u[k] == a[i];
      var m :| 0 <= m < |v| && v[m] == b[j];
    }
  }

  lemma {:induction false} InsertFalls(s: seq<Action>, x: Action, l: seq<Elem>)
    requires AllIn(s, l) && InList(x, l) && Falling(s)
    ensures AllIn(Insert(s, x), l) && Falling(Insert(s, x))
  {
    hide InList, IndexOf, RemoveFirst;
    if s != [] {
      Comparator(x, s[|s| - 1], l);
    }
    if s != [] && RemoveFirst(x, s[|s| - 1]) {
      var init, last := s[..|s| - 1], s[|s| - 1];
      InsertFalls(init, x, l);
      InsertKeeps(init, x);
      forall i | 0 <= i < |Insert(init, x)|
        ensures IndexOf(Insert(init, x)[i]) >= IndexOf(last)
      {
        assert Insert(init, x)[i] in multiset(init) + multiset{x};
      }
      FallingConcat(Insert(init, x), [last]);
    }
  }

  lemma {:induction false} InsertionFalls(s: seq<Action>, l: seq<Elem>)
    requires AllIn(s, l)
    ensures AllIn(InsertionSort(s), l) && Falling(InsertionSort(s))
  {
    hide InList, IndexOf, Insert;
    if s != [] {
      InsertionFalls(s[..|s| - 1], l);
      InsertFalls(InsertionSort(s[..|s| - 1]), s[|s| - 1], l);
    }
  }

  lemma {:induction false} SearchFits(p: int -> bool, lo: int, hi: int, i: int, j: int)
    requires 0 <= lo <= i <= j <= hi && (i == lo || p(i - 1)) && (j == hi || !p(j))
    ensures var k := Search(p, i, j);
            (k == lo || p(k - 1)) && (k == hi || !p(k))
    decreases j - i
  {
    if i < j {
      var h := (i + j) / 2;
      if p(h) {
        SearchFits(p, lo, hi, h + 1, j);
      } else {
        SearchFits(p, lo, hi, i, h);
      }
    }
  }

  lemma PlacesFit(x: Action, v: seq<Action>)
    ensures var k := PlaceBefore(x, v);
            (k == 0 || RemoveFirst(v[k - 1], x)) && (k == |v| || !RemoveFirst(v[k], x))
    ensures var k := PlaceBehind(x, v);
            (k == 0 || !RemoveFirst(x, v[k - 1])) && (k == |v| || RemoveFirst(x, v[k]))
  {
    hide RemoveFirst, Search;
    SearchFits(h => 0 <= h < |v| && RemoveFirst(v[h], x), 0, |v|, 0, |v|);
    SearchFits(h => 0 <= h < |v| && !RemoveFirst(x, v[h]), 0, |v|, 0, |v|);
  }

  /** Where the rotation cuts: the neighbours across the cut are in order. */
  lemma CutFits(u: seq<Action>, v: seq<Action>, mid: nat)
    requires |u| + |v| - 1 <= 2 * mid <= |u| + |v|
    ensures var k := Cut(u, v, mid);
            (k == 0 || mid - k == |v| || !RemoveFirst(v[mid - k], u[k - 1])) &&
            (mid == k || k == |u| || RemoveFirst(v[mid - k - 1], u[k]))
  {
    hide RemoveFirst, Search;
    var lo, hi := if |u| > mid then mid - |v| else 0, if |u| > mid then mid else |u|;
    SearchFits(c => 0 <= c < |u| && 0 <= mid - 1 - c < |v| && !RemoveFirst(v[mid - 1 - c], u[c]), lo, hi, lo, hi);
  }

  /** Cutting both runs so that nothing left of the cut belongs behind anything right of it. */
  lemma CutFalls(u: seq<Action>, v: seq<Action>, l: seq<Elem>, k: nat, m: nat)
    requires AllIn(u, l) && AllIn(v, l) && Falling(u) && Falling(v) && k <= |u| && m <= |v|
    requires k == 0 || m == |v| || !RemoveFirst(v[m], u[k - 1])
    requires m == 0 || k == |u| || RemoveFirst(v[m - 1], u[k])
    ensures FallsTo(u[..k], v[m..]) && FallsTo(v[..m], u[k..]) && FallsTo(u[..k], u[k..]) && FallsTo(v[..m], v[m..])
  {
    hide InList, IndexOf, RemoveFirst;
    if k > 0 && m < |v| {
      Comparator(v[m], u[k - 1], l);
    }
    if m > 0 && k < |u| {
      Comparator(v[m - 1], u[k], l);
    }
  }

  lemma FallingParts(s: seq<Action>, k: nat, l: seq<Elem>)
    requires Falling(s) && AllIn(s, l) && k <= |s|
    ensures Falling(s[..k]) && Falling(s[k..]) && AllIn(s[..k], l) && AllIn(s[k..], l)
  {
    hide InList, IndexOf;
  }

  lemma {:induction false} MergeFalls(u: seq<Action>, v: seq<Action>, l: seq<Elem>)
    requires AllIn(u, l) && AllIn(v, l) && Falling(u) && Falling(v)
    ensures AllIn(SymMerge(u, v), l) && Falling(SymMerge(u, v))
    decreases |u| + |v|
  {
    hide InList, IndexOf, RemoveFirst, Cut, PlaceBefore, PlaceBehind, AllIn, Falling, FallsTo, SymMerge;
    MergeCases(u, v);
    if u == [] || v == [] {
      assert u + v == if u == [] then v else u;
    } else if |u| == 1 {
      PlacesFit(u[0], v);
      OneBefore(u, v, l, PlaceBefore(u[0], v));
    } else if |v| == 1 {
      PlacesFit(v[0], u);
      OneBehind(u, v, l, PlaceBehind(v[0], u));
    } else {
      var mid := (|u| + |v|) / 2;
      var k := Cut(u, v, mid);
      CutParts(u, v, l, mid);
      MergeFalls(u[..k], v[..mid - k], l);
      MergeFalls(u[k..], v[mid - k..], l);
      HalvesFall(u[..k], v[..mid - k], u[k..], v[mid - k..]);
      MergedFalls(SymMerge(u[..k], v[..mid - k]), SymMerge(u[k..], v[mid - k..]), l);
    }
  }

  lemma MergeCases(u: seq<Action>, v: seq<Action>)
    ensures u == [] || v == [] ==> SymMerge(u, v) == u + v
    ensures |u| == 1 && |v| >= 1 ==>
              SymMerge(u, v) == v[..PlaceBefore(u[0], v)] + u + v[PlaceBefore(u[0], v)..]
    ensures |u| > 1 && |v| == 1 ==>
              SymMerge(u, v) == u[..PlaceBehind(v[0], u)] + v + u[PlaceBehind(v[0], u)..]
    ensures |u| > 1 && |v| > 1 ==>
              var mid := (|u| + |v|) / 2;
              var k := Cut(u, v, mid);
              SymMerge(u, v) == SymMerge(u[..k], v[..mid - k]) + SymMerge(u[k..], v[mid - k..])
  {
    hide Cut, PlaceBefore, PlaceBehind;
  }

  lemma CutParts(u: seq<Action>, v: seq<Action>, l: seq<Elem>, mid: nat)
    requires AllIn(u, l) && AllIn(v, l) && Falling(u) && Falling(v) && |u| + |v| - 1 <= 2 * mid <= |u| + |v|
    ensures var k := Cut(u, v, mid);
            && Falling(u[..k]) && Falling(u[k..]) && Falling(v[..mid - k]) && Falling(v[mid - k..])
            && AllIn(u[..k], l) && AllIn(u[k..], l) && AllIn(v[..mid - k], l) && AllIn(v[mid - k..], l)
            && FallsTo(u[..k], v[mid - k..]) && FallsTo(v[..mid - k], u[k..])
            && FallsTo(u[..k], u[k..]) && FallsTo(v[..mid - k], v[mid - k..])
  {
    hide RemoveFirst, Cut, AllIn, Falling, FallsTo;
    var k := Cut(u, v, mid);
    CutFits(u, v, mid);
    CutFalls(u, v, l, k, mid - k);
    FallingParts(u, k, l);
    FallingParts(v, mid - k, l);
  }

  lemma MergedFalls(a: seq<Action>, b: seq<Action>, l: seq<Elem>)
    requires Falling(a) && Falling(b) && FallsTo(a, b) && AllIn(a, l) && AllIn(b, l)
    ensures Falling(a + b) && AllIn(a + b, l)
  {
    hide Falling, FallsTo, AllIn;
    FallingConcat(a, b);
    AllInConcat(a, b, l);
  }

  lemma OneBefore(u: seq<Action>, v: seq<Action>, l: seq<Elem>, m: nat)
    requires AllIn(u, l) && AllIn(v, l) && Falling(v) && |u| == 1 && m <= |v|
    requires (m == 0 || RemoveFirst(v[m - 1], u[0])) && (m == |v| || !RemoveFirst(v[m], u[0]))
    ensures AllIn(v[..m] + u + v[m..], l) && Falling(v[..m] + u + v[m..])
  {
    hide InList, IndexOf, RemoveFirst;
    if m > 0 {
      Comparator(v[m - 1], u[0], l);
    }
    if m < |v| {
      Comparator(v[m], u[0], l);
    }
  }

  lemma OneBehind(u: seq<Action>, v: seq<Action>, l: seq<Elem>, k: nat)
    requires AllIn(u, l) && AllIn(v, l) && Falling(u) && |v| == 1 && k <= |u|
    requires (k == 0 || !RemoveFirst(v[0], u[k - 1])) && (k == |u| || RemoveFirst(v[0], u[k]))
    ensures AllIn(u[..k] + v + u[k..], l) && Falling(u[..k] + v + u[k..])
  {
    hide InList, IndexOf, RemoveFirst;
    if k > 0 {
      Comparator(v[0], u[k - 1], l);
    }
    if k < |u| {
      Comparator(v[0], u[k], l);
    }
  }

  /** The merged first parts fall to the merged second parts. */
  lemma HalvesFall(a: seq<Action>, b: seq<Action>, c: seq<Action>, d: seq<Action>)
    requires FallsTo(a, c) && FallsTo(a, d) && FallsTo(b, c) && FallsTo(b, d)
    ensures FallsTo(SymMerge(a, b), SymMerge(c, d))
  {
    hide SymMerge, IndexOf;
    MergeKeeps(a, b);
    MergeKeeps(c, d);
    assert FallsTo(a + b, c + d);
    forall x | x in SymMerge(a, b)
      ensures x in a + b
    {
      assert x in multiset(a) + multiset(b);
    }
    forall y | y in SymMerge(c, d)
      ensures y in c + d
    {
      assert y in multiset(c) + multiset(d);
    }
    FallsToMembers(a + b, c + d, SymMerge(a, b), SymMerge(c, d));
  }

  /** Blocks of size b, each falling. */
  predicate BlocksFall(s: seq<Action>, b: nat)
    requires b > 0
    decreases |s|
  {
    if |s| <= b then Falling(s) else Falling(s[..b]) && BlocksFall(s[b..], b)
  }

  lemma {:induction false} SortBlocksFalls(s: seq<Action>, l: seq<Elem>)
    requires AllIn(s, l)
    ensures AllIn(SortBlocks(s), l) && BlocksFall(SortBlocks(s), BLOCK)
    decreases |s|
  {
    hide InList, IndexOf, InsertionSort, Falling;
    if |s| < BLOCK {
      InsertionFalls(s, l);
    } else {
      var a, b := InsertionSort(s[..BLOCK]), SortBlocks(s[BLOCK..]);
      InsertionFalls(s[..BLOCK], l);
      SortBlocksFalls(s[BLOCK..], l);
      AllInConcat(a, b, l);
      assert (a + b)[..BLOCK] == a && (a + b)[BLOCK..] == b;
      assert b == [] ==> a + b == a;
    }
  }

  lemma {:induction false} PassFalls(s: seq<Action>, b: nat, l: seq<Elem>)
    requires b > 0 && AllIn(s, l) && BlocksFall(s, b)
    ensures AllIn(MergePass(s, b), l) && BlocksFall(MergePass(s, b), 2 * b)
    decreases |s|
  {
    hide InList, IndexOf, Falling, SymMerge;
    if |s| <= b {
    } else if |s| < 2 * b {
      MergeFalls(s[..b], s[b..], l);
    } else {
      var rest := s[2 * b..];
      assert s[b..][..b] == s[b..2 * b] && s[b..][b..] == rest;
      TwoBlocks(s, b);
      MergeFalls(s[..b], s[b..2 * b], l);
      PassFalls(rest, b, l);
      var m, t := SymMerge(s[..b], s[b..2 * b]), MergePass(rest, b);
      AllInConcat(m, t, l);
      assert (m + t)[..2 * b] == m && (m + t)[2 * b..] == t;
      assert t == [] ==> m + t == m;
    }
  }

  lemma TwoBlocks(s: seq<Action>, b: nat)
    requires b > 0 && 2 * b <= |s| && BlocksFall(s, b)
    ensures Falling(s[..b]) && Falling(s[b..2 * b]) && BlocksFall(s[2 * b..], b)
  {
    hide Falling;
    assert s[b..][..b] == s[b..2 * b] && s[b..][b..] == s[2 * b..];
    if |s| == 2 * b {
      assert s[b..] == s[b..2 * b] && s[2 * b..] == [];
      NothingFalls();
    }
  }

  lemma NothingFalls()
    ensures Falling([])
  {
  }

  lemma {:induction false} PassesFall(s: seq<Action>, b: nat, l: seq<Elem>)
    requires b > 0 && AllIn(s, l) && BlocksFall(s, b)
    ensures AllIn(MergePasses(s, b), l) && Falling(MergePasses(s, b))
    decreases |s| - b
  {
    hide InList, IndexOf, MergePass, Falling;
    if b < |s| {
      PassFalls(s, b, l);
      PassesFall(MergePass(s, b), 2 * b, l);
    }
  }

  /** REMOVEs of one list are sorted from high to low, however many there are. */
  lemma SortFalls(s: seq<Action>, l: seq<Elem>)
    requires AllIn(s, l)
    ensures AllIn(SortRemoves(s), l) && Falling(SortRemoves(s))
  {
    hide InList, IndexOf, SortBlocks, MergePasses, Falling;
    SortBlocksFalls(s, l);
    PassesFall(SortBlocks(s), BLOCK, l);
  }
}
