/** SETs and ADDs none of which touches what another reads or writes (update.go applyUpdate): the outcome does
    not depend on their order, even if some are stored into themselves. */
module IndependentUpdates {
  import opened Wrappers
  import opened Values
  import opened Paths
  import opened Expressions
  import opened Updates
  import opened UpdateOrder
  import opened RunOrders
  import opened References
  import opened Reading
  import opened InPlace
  import opened RightHandSides
  import opened InPlaceSteps
  import opened RunInvariants
  import opened Cuts
  import opened CutReads
  import opened Loops

  /** On this item, the action stores a container that is on the way to its own target. */
  predicate IntoItself(a: Action, item: Item) {
    StoresInto(a, item, a.path)
  }

  // ---- independent actions ----

  lemma IndependentMembers(s: seq<Action>, a: Action, b: Action)
    requires AllIndependent(s) && a in s && b in s && a != b
    ensures Independent(a, b)
  {
    hide Independent;
    var i :| 0 <= i < |s| && s[i] == a;
    var j :| 0 <= j < |s| && s[j] == b;
    if i < j {
      assert Independent(s[i], s[j]);
    } else {
      assert Independent(s[j], s[i]);
      IndependentSymmetric(b, a);
    }
  }

  lemma IndependentDisjoint(s: seq<Action>)
    requires AllIndependent(s)
    ensures Disjoint(s)
  {
    hide Overlap, Reads;
    forall i, j | 0 <= i < j < |s|
      ensures !Overlap(s[i].path, s[j].path)
    {
      assert Independent(s[i], s[j]);
    }
  }

  lemma {:induction false} StoredIsRead(r: Rvalue, n: nat, u: seq<Elem>)
    requires MayStore(r, n, u)
    ensures exists i :: 0 <= i < |RvalueReads(r)| && RvalueReads(r)[i] <= u
  {
    match r {
      case Plain(o) => assert RvalueReads(r)[0] <= u;
      case IfNotExists(p, otherwise) =>
        if p <= u {
          assert RvalueReads(r)[0] <= u;
        } else {
          StoredIsRead(otherwise, n, u);
          var i :| 0 <= i < |RvalueReads(otherwise)| && RvalueReads(otherwise)[i] <= u;
          assert RvalueReads(r)[i + 1] == RvalueReads(otherwise)[i];
        }
      case ListAppend(a, b) =>
        if MayStore(a, 1, u) {
          StoredIsRead(a, 1, u);
          var i :| 0 <= i < |RvalueReads(a)| && RvalueReads(a)[i] <= u;
          assert RvalueReads(r)[i] == RvalueReads(a)[i];
        } else {
          StoredIsRead(b, 1, u);
          var i :| 0 <= i < |RvalueReads(b)| && RvalueReads(b)[i] <= u;
          assert RvalueReads(r)[|RvalueReads(a)| + i] == RvalueReads(b)[i];
        }
    }
  }

  lemma OnlyWrites(s: seq<Action>, a: Action)
    requires AllIndependent(s) && a in s
    ensures |s| == 1 || IsWrite(a)
  {
    hide Overlap, Reads;
    var i :| 0 <= i < |s| && s[i] == a;
    if |s| > 1 {
      assert if i == 0 then Independent(s[0], s[1]) else Independent(s[i - 1], s[i]);
    }
  }

  lemma SingletonPermuted(s: seq<Action>, t: seq<Action>)
    requires |s| <= 1 && multiset(s) == multiset(t)
    ensures s == t
  {
    assert |t| == |multiset(t)| == |multiset(s)| == |s|;
    if |s| == 1 {
      assert t[0] in multiset(s);
    }
  }

  // ---- on values ----

  /** The document has for the action what the item has. */
  predicate SeesSame(a: Action, d: Item, item: Item) {
    Agree(Reads(a), d, item) && ResolvePath(d, a.path) == ResolvePath(item, a.path)
  }

  ghost predicate AllSee(run: seq<Action>, d: Item, item: Item) {
    forall i :: 0 <= i < |run| ==> IsWrite(run[i]) && SeesSame(run[i], d, item)
  }

  lemma {:induction false} StoresFrame(r: Rvalue, n: nat, d: Item, e: Item, u: seq<Elem>)
    requires Agree(RvalueReads(r), d, e)
    ensures Stores(r, n, d, u) == Stores(r, n, e, u)
  {
    hide ResolvePath;
    match r {
      case Plain(_) =>
      case IfNotExists(p, otherwise) =>
        AgreeConcat([p], RvalueReads(otherwise), d, e);
        assert ResolvePath(d, [p][0]) == ResolvePath(e, [p][0]);
        StoresFrame(otherwise, n, d, e, u);
      case ListAppend(a, b) =>
        AgreeConcat(RvalueReads(a), RvalueReads(b), d, e);
        StoresFrame(a, 1, d, e, u);
        StoresFrame(b, 1, d, e, u);
    }
  }

  lemma IntoFrame(a: Action, d: Item, item: Item)
    requires SeesSame(a, d, item)
    ensures IntoItself(a, d) == IntoItself(a, item)
  {
    hide Stores, ResolvePath;
    if a.Set? && a.value.Single? {
      StoresFrame(a.value.r, 0, d, item, Parent(a.path));
    }
  }

  /** What is written in place of something that would be stored into itself. */
  function CutValue(a: Action, item: Item, v: AV): AV {
    if IntoItself(a, item) then NULL(true) else v
  }

  /** The actions on values, with NULL for what would be stored into itself. */
  function CutAll(run: seq<Action>, d: Item, item: Item, env: Env): Result<Item>
    requires forall i :: 0 <= i < |run| ==> IsWrite(run[i])
    decreases |run|
  {
    if run == [] then Ok(d)
    else
      assert IsWrite(run[0]);
      var v :- WrittenValue(run[0], item, env);
      var e :- SetPath(d, run[0].path, CutValue(run[0], item, v));
      CutAll(run[1..], e, item, env)
  }

  predicate AllWritten(run: seq<Action>, item: Item, env: Env)
    requires forall i :: 0 <= i < |run| ==> IsWrite(run[i])
  {
    forall i :: 0 <= i < |run| ==> IsWrite(run[i]) && WrittenValue(run[i], item, env).Ok?
  }

  /** Writing NULL at all targets. */
  function PutNulls(v: AV, run: seq<Action>): Result<AV>
    decreases |run|
  {
    if run == [] then Ok(v)
    else
      var w :- Put(v, run[0].path, NULL(true));
      PutNulls(w, run[1..])
  }

  lemma {:induction false} NullsIgnore(v: AV, p: Path, x: AV, z: AV, run: seq<Action>)
    requires Disjoint(run) && (forall b :: b in run ==> !Overlap(p, b.path)) && Put(v, p, x).Ok? && Put(v, p, z).Ok?
    ensures PutNulls(Put(v, p, x).value, run).Ok? <==> PutNulls(Put(v, p, z).value, run).Ok?
    decreases |run|
  {
    hide Put, Overlap, Disjoint;
    if run != [] {
      var q, n := run[0].path, NULL(true);
      assert run == [run[0]] + run[1..];
      ApartFromAll(run[1..], run[0]);
      PutsCommute(v, p, x, q, n);
      PutsCommute(v, p, z, q, n);
      if Put(v, q, n).Ok? {
        PutFails(Put(v, q, n).value, p, x, z);
        if Put(Put(v, q, n).value, p, x).Ok? {
          NullsIgnore(Put(v, q, n).value, p, x, z, run[1..]);
        }
      }
    }
  }

  /** Whether they succeed does not depend on what is written. */
  lemma {:induction false} CutSucceeds(run: seq<Action>, d: Item, item: Item, env: Env)
    requires Disjoint(run) && forall i :: 0 <= i < |run| ==> IsWrite(run[i])
    ensures CutAll(run, d, item, env).Ok? <==> AllWritten(run, item, env) && PutNulls(M(d), run).Ok?
    decreases |run|
  {
    hide Put, Overlap, Disjoint, WrittenValue, IntoItself;
    if run != [] {
      var a, rest := run[0], run[1..];
      assert run == [a] + rest;
      assert forall i :: 0 <= i < |rest| ==> rest[i] == run[i + 1];
      ApartFromAll(rest, a);
      if WrittenValue(a, item, env).Ok? {
        var x := CutValue(a, item, WrittenValue(a, item, env).value);
        PutFails(M(d), a.path, x, NULL(true));
        if SetPath(d, a.path, x).Ok? {
          CutSucceeds(rest, SetPath(d, a.path, x).value, item, env);
          NullsIgnore(M(d), a.path, x, NULL(true), rest);
        }
      }
    }
  }

  /** A write elsewhere leaves what the action sees. */
  lemma StillSees(a: Action, d: Item, item: Item, p: Path, x: AV)
    requires SeesSame(a, d, item) && SetPath(d, p, x).Ok? && !Overlap(p, a.path) && Untouched(Reads(a), p)
    ensures SeesSame(a, SetPath(d, p, x).value, item)
  {
    hide Put, Get, Overlap, Reads;
    GetFrame(M(d), p, x, a.path);
    forall i | 0 <= i < |Reads(a)|
      ensures ResolvePath(SetPath(d, p, x).value, Reads(a)[i]) == ResolvePath(item, Reads(a)[i])
    {
      GetFrame(M(d), p, x, Reads(a)[i]);
    }
  }

  lemma IndependentOfRest(run: seq<Action>)
    requires run != [] && AllIndependent(run)
    ensures AllIndependent(run[1..]) && forall j :: 0 <= j < |run| - 1 ==> Independent(run[0], run[1..][j])
  {
    hide Independent;
    var rest := run[1..];
    assert forall j :: 0 <= j < |rest| ==> rest[j] == run[j + 1];
    forall i, j | 0 <= i < j < |rest|
      ensures Independent(rest[i], rest[j])
    {
      assert Independent(run[i + 1], run[j + 1]);
    }
  }

  lemma RestSees(run: seq<Action>, d: Item, item: Item, x: AV)
    requires run != [] && AllIndependent(run) && AllSee(run, d, item) && SetPath(d, run[0].path, x).Ok?
    ensures AllSee(run[1..], SetPath(d, run[0].path, x).value, item) && AllIndependent(run[1..])
  {
    hide Independent, SeesSame, SetPath, AllIndependent;
    IndependentOfRest(run);
    var e := SetPath(d, run[0].path, x).value;
    forall j | 0 <= j < |run| - 1
      ensures IsWrite(run[1..][j]) && SeesSame(run[1..][j], e, item)
    {
      assert run[1..][j] == run[j + 1];
      IndependentParts(run[0], run[1..][j]);
      StillSees(run[1..][j], d, item, run[0].path, x);
    }
  }

  lemma IndependentParts(a: Action, b: Action)
    requires Independent(a, b)
    ensures IsWrite(a) && IsWrite(b) && !Overlap(a.path, b.path)
    ensures Untouched(Reads(a), b.path) && Untouched(Reads(b), a.path)
  {
  }

  /** Copying succeeds in the same cases. */
  lemma {:induction false} CopySucceedsAlike(run: seq<Action>, d: Item, item: Item, env: Env)
    requires AllIndependent(run) && AllSee(run, d, item)
    ensures ApplyAll(run, d, env).Ok? <==> AllWritten(run, item, env) && PutNulls(M(d), run).Ok?
    decreases |run|
  {
    hide Put, Overlap, Disjoint, WrittenValue, IntoItself, AllIndependent, SeesSame;
    if run != [] {
      var a, rest := run[0], run[1..];
      assert run == [a] + rest;
      assert forall i :: 0 <= i < |rest| ==> rest[i] == run[i + 1];
      IndependentDisjoint(run);
      ApartFromAll(rest, a);
      WrittenSame(a, d, item, env);
      if WrittenValue(a, item, env).Ok? {
        var x := WrittenValue(a, item, env).value;
        PutFails(M(d), a.path, x, NULL(true));
        if SetPath(d, a.path, x).Ok? {
          RestSees(run, d, item, x);
          CopySucceedsAlike(rest, SetPath(d, a.path, x).value, item, env);
          NullsIgnore(M(d), a.path, x, NULL(true), rest);
        }
      }
    }
  }

  lemma WrittenSame(a: Action, d: Item, item: Item, env: Env)
    requires IsWrite(a) && SeesSame(a, d, item)
    ensures WrittenValue(a, d, env) == WrittenValue(a, item, env)
    ensures ApplyAction(a, d, env) ==
              match WrittenValue(a, item, env) case Err => Err case Ok(v) => SetPath(d, a.path, v)
  {
    hide WrittenValue, ResolvePath, SetPath;
    WrittenFrame(a, d, item, env);
  }

  /** Where nothing is stored into itself, nothing is cut. */
  lemma {:induction false} NothingToCut(run: seq<Action>, d: Item, item: Item, env: Env)
    requires AllIndependent(run) && AllSee(run, d, item)
    requires forall a :: a in run ==> !IntoItself(a, item)
    ensures CutAll(run, d, item, env) == ApplyAll(run, d, env)
    decreases |run|
  {
    hide WrittenValue, IntoItself, AllIndependent, SeesSame, SetPath;
    if run != [] {
      var a, rest := run[0], run[1..];
      assert forall i :: 0 <= i < |rest| ==> rest[i] == run[i + 1];
      WrittenSame(a, d, item, env);
      if WrittenValue(a, item, env).Ok? {
        var x := WrittenValue(a, item, env).value;
        if SetPath(d, a.path, x).Ok? {
          RestSees(run, d, item, x);
          NothingToCut(rest, SetPath(d, a.path, x).value, item, env);
        }
      }
    }
  }

  // ---- next to a document in which nothing is inside itself ----

  /** A container inside itself: c is the container at the parent of p and has y at the last step of p; y is
      what is at t, above p, or for e.Some? a list that has it at e. */
  datatype Loop = Loop(p: Path, t: seq<Elem>, y: Val, e: Option<Elem>, w: Val, c: Ref)

  ghost predicate InLoop(h: Heap, g: Heap, l: Loop) {
    && l.t < l.p && Walk(g, Box(ROOT), l.t) == Some(l.w) && Walk(g, Box(ROOT), Parent(l.p)) == Some(Box(l.c))
    && ChildVal(h, Box(l.c), Last(l.p)) == Some(l.y)
    && if l.e.None? then l.y == l.w
       else l.y.Box? && Loose(g, l.y.ref) && ChildVal(h, l.y, l.e.value) == Some(l.w)
  }

  /** h is the document in progress, and g the same without what was stored into itself, at the paths done. */
  ghost predicate Compared(h: Heap, g: Heap, d: Item, names: set<string>, done: set<Path>, cut: set<Entry>) {
    && RootApart(h) && InProgress(g, d, names) && Similar(h, g, cut) && CutAt(g, done, cut)
    && forall p :: p in done ==> Ready(g, p, names)
  }

  /** The action neither writes nor reads at these paths. */
  ghost predicate Elsewhere(a: Action, done: set<Path>) {
    forall p :: p in done ==> !Overlap(p, a.path) && Untouched(Reads(a), p)
  }

  lemma ComparedParts(h: Heap, g: Heap, d: Item, names: set<string>, done: set<Path>, cut: set<Entry>)
    requires Compared(h, g, d, names, done, cut)
    ensures RootApart(h) && InProgress(g, d, names) && Similar(h, g, cut) && CutAt(g, done, cut)
    ensures Sane(g) && Linked(g, Box(ROOT)) && Entries(g, cut) && h.values == g.values
    ensures forall p :: p in done ==> Ready(g, p, names) && Once(g, Box(ROOT), Parent(p))
  {
    hide RootApart, InProgress, CutAt, Ready, Sane, Linked, Once;
    SaneProgress(g, d, names);
    CutsAreEntries(g, done, cut);
    forall p | p in done
      ensures Once(g, Box(ROOT), Parent(p))
    {
      ReadyParent(g, p, names);
    }
  }

  lemma ReadyParent(g: Heap, p: Path, names: set<string>)
    requires Ready(g, p, names)
    ensures Once(g, Box(ROOT), Parent(p))
    ensures forall k :: k in names && k in g.values ==> Apart(g, Box(ROOT), Parent(p), ValueVal(g, k))
  {
    hide Once, Apart;
    assert Parent(p) == p[..|p| - 1];
    assert Once(g, Box(ROOT), p[..|p| - 1]);
    forall k | k in names && k in g.values
      ensures Apart(g, Box(ROOT), Parent(p), ValueVal(g, k))
    {
      assert Off(g, Box(ROOT), p, ValueVal(g, k));
      assert Apart(g, Box(ROOT), p[..|p| - 1], ValueVal(g, k));
    }
  }

  /** A path that does not overlap those done is clear, up to the container it ends at. */
  lemma PathIsClear(g: Heap, names: set<string>, done: set<Path>, cut: set<Entry>, q: Path)
    requires CutAt(g, done, cut) && forall p :: p in done ==> Ready(g, p, names) && !Overlap(p, q)
    ensures ReadsClear(g, q, cut)
  {
    hide Walk, Overlap, Ready, Once;
    forall p | p in done
      ensures Once(g, Box(ROOT), Parent(p)) && !(p <= q) && !(q <= Parent(p))
    {
      ReadyParent(g, p, names);
      OverlapIff(p, q);
      assert q <= Parent(p) ==> q <= p;
    }
    ClearOfPaths(g, done, cut, q);
    if Walk(g, Box(ROOT), q).Some? && Walk(g, Box(ROOT), q).value.Box? {
      var v := Walk(g, Box(ROOT), q).value;
      forall e
        ensures Entry(v.ref, e) !in cut
      {
        if Entry(v.ref, e) in cut {
          var p :| p in done && Walk(g, Box(ROOT), Parent(p)) == Some(Box(v.ref)) && Last(p) == e;
          OnceIs(g, Parent(p), q, v.ref);
        }
      }
    }
  }

  lemma OnceIs(g: Heap, t: seq<Elem>, q: seq<Elem>, c: Ref)
    requires Once(g, Box(ROOT), t) && Walk(g, Box(ROOT), t) == Walk(g, Box(ROOT), q) == Some(Box(c))
    ensures t == q
  {
    hide Walk;
  }

  lemma ValueIsUncut(g: Heap, names: set<string>, done: set<Path>, cut: set<Entry>, k: string)
    requires CutAt(g, done, cut) && (forall p :: p in done ==> Ready(g, p, names)) && k in names && k in g.values
    ensures Uncut(ValueVal(g, k), cut)
  {
    hide Walk, Ready, Reaches;
    var v := ValueVal(g, k);
    forall e | v.Box?
      ensures Entry(v.ref, e) !in cut
    {
      if Entry(v.ref, e) in cut {
        var p :| p in done && Walk(g, Box(ROOT), Parent(p)) == Some(Box(v.ref)) && Last(p) == e;
        ReadyParent(g, p, names);
        assert Apart(g, Box(ROOT), Parent(p), v);
        ReachesHere(g, v);
      }
    }
  }

  lemma ActionIsClear(g: Heap, names: set<string>, done: set<Path>, cut: set<Entry>, a: Action)
    requires CutAt(g, done, cut) && (forall p :: p in done ==> Ready(g, p, names)) && Elsewhere(a, done)
    requires Uses(a) <= names
    ensures AllClear(g, Reads(a), Uses(a), cut) && Clear(g, Box(ROOT), a.path, cut)
  {
    hide CutAt, Ready, Clear, Uncut, Walk, Overlap, Reads, Uses;
    PathIsClear(g, names, done, cut, a.path);
    forall i | 0 <= i < |Reads(a)|
      ensures ReadsClear(g, Reads(a)[i], cut)
    {
      PathIsClear(g, names, done, cut, Reads(a)[i]);
    }
    forall k | k in Uses(a) && k in g.values
      ensures Uncut(ValueVal(g, k), cut)
    {
      ValueIsUncut(g, names, done, cut, k);
    }
  }

  lemma UntouchedNotInto(a: Action, d: Item, p: Path)
    requires Untouched(Reads(a), p)
    ensures !StoresInto(a, d, p)
  {
    hide Overlap, MayStore, Stores;
    StoresIntoMay(a, d);
    if StoresAbove(a, p) {
      StoredIsRead(a.value.r, 0, Parent(p));
      var i :| 0 <= i < |RvalueReads(a.value.r)| && RvalueReads(a.value.r)[i] <= Parent(p);
      assert RvalueReads(a.value.r)[i] <= p;
      OverlapIff(p, Reads(a)[i]);
    }
  }
}
