/** ProjectionExpression (ops_item.go): projecting is writing the requested values into an empty
    document. */
module Projection {
  import opened Wrappers
  import opened Values
  import opened Paths

  function WrapPath(v: AV, rest: seq<Elem>): AV {
    if rest == [] then v
    else
      var inner := WrapPath(v, rest[1..]);
      match rest[0]
      case Name(n) => M(map[n := inner])
      case Index(_) => L([inner])
  }

  /** Maps are merged attribute by attribute, lists are appended, anything else is replaced. */
  function MergeAV(a: AV, b: AV): AV
    decreases a
  {
    match (a, b)
    case (M(am), M(bm)) =>
      M(map k | k in am.Keys + bm.Keys ::
          if k in am then (if k in bm then MergeAV(am[k], bm[k]) else am[k]) else bm[k])
    case (L(al), L(bl)) => L(al + bl)
    case _ => b
  }

  function MergeAttr(dst: Item, name: string, v: AV): Item {
    dst[name := if name in dst then MergeAV(dst[name], v) else v]
  }

  function ProjectStep(item: Item, p: Path, out: Item): Item {
    match ResolvePath(item, p)
    case None => out
    case Some(v) => MergeAttr(out, p[0].name, WrapPath(v, p[1..]))
  }

  function Projected(item: Item, paths: seq<Path>): Item {
    if paths == [] then map[]
    else ProjectStep(item, paths[|paths| - 1], Projected(item, paths[..|paths| - 1]))
  }

  method ProjectItem(item: Item, paths: seq<Path>) returns (out: Item)
    ensures out == Projected(item, paths)
  {
    out := map[];
    for i := 0 to |paths|
      invariant out == Projected(item, paths[..i])
    {
      assert paths[..i + 1][..i] == paths[..i];
      var p := paths[i];
      var v := WalkPath(item, p);
      if v.Some? {
        out := MergeAttr(out, p[0].name, WrapPath(v.value, p[1..]));
      }
    }
    assert paths[..|paths|] == paths;
  }

  // ---- merging a wrapped value is a write ----

  predicate NamesOnly(p: seq<Elem>) {
    forall i :: 0 <= i < |p| ==> p[i].Name?
  }

  /** Walking p from v meets maps only, and leaves them before p ends. */
  predicate Open(v: AV, p: seq<Elem>) {
    p != [] && p[0].Name? && v.M? &&
    (p[0].name in v.attrs ==> Open(v.attrs[p[0].name], p[1..]))
  }

  lemma {:induction false} PutIntoEmpty(p: seq<Elem>, x: AV)
    requires NamesOnly(p) && p != []
    ensures Put(M(map[]), p, x) == Ok(WrapPath(x, p))
    ensures Open(M(map[]), p)
  {
    if |p| > 1 {
      PutIntoEmpty(p[1..], x);
    } else {
      assert p[1..] == [] && Put(M(map[]), p[1..], x) == Ok(x);
    }
  }

  lemma {:induction false} MergeIsPut(v: AV, p: seq<Elem>, x: AV)
    requires NamesOnly(p) && Open(v, p)
    ensures Put(v, p, x) == Ok(MergeAV(v, WrapPath(x, p)))
    decreases p
  {
    hide MergeAV;
    var n, w := p[0].name, WrapPath(x, p[1..]);
    MergeOne(v, n, w);
    if n in v.attrs {
      MergeIsPut(v.attrs[n], p[1..], x);
    } else if p[1..] != [] {
      PutIntoEmpty(p[1..], x);
    }
  }

  lemma MergeOne(v: AV, n: string, w: AV)
    requires v.M?
    ensures MergeAV(v, M(map[n := w])) == M(v.attrs[n := if n in v.attrs then MergeAV(v.attrs[n], w) else w])
  {
    var one := map[n := w];
    var m := MergeAV(v, M(one)).attrs;
    assert one.Keys == {n} && m.Keys == v.attrs.Keys + {n};
    var x := if n in v.attrs then MergeAV(v.attrs[n], w) else w;
    hide MergeAV;
    assert m == v.attrs[n := x];
  }

  /** A write elsewhere leaves room for q. */
  lemma {:induction false} StaysOpen(v: AV, p: seq<Elem>, x: AV, q: seq<Elem>)
    requires NamesOnly(p) && NamesOnly(q)
    requires Open(v, q) && !Overlap(p, q) && Put(v, p, x).Ok?
    ensures Open(Put(v, p, x).value, q)
    decreases p
  {
    var c := ChildOrNew(v, p[0]);
    if p[0] == q[0] {
      if p[0].name !in v.attrs {
        PutIntoEmpty(q[1..], x);
      }
      StaysOpen(c, p[1..], x, q[1..]);
    }
  }

  // ---- exactness ----

  predicate Disjoint(paths: seq<Path>) {
    forall i, j :: 0 <= i < j < |paths| ==> !Overlap(paths[i], paths[j])
  }

  lemma StepIsPut(item: Item, p: Path, out: Item)
    requires NamesOnly(p) && Open(M(out), p) && ResolvePath(item, p).Some?
    ensures Put(M(out), p, ResolvePath(item, p).value) == Ok(M(ProjectStep(item, p, out)))
  {
    var x := ResolvePath(item, p).value;
    MergeIsPut(M(out), p, x);
    var n, w := p[0].name, WrapPath(x, p[1..]);
    assert MergeAV(M(out), M(map[n := w])) == M(MergeAttr(out, n, w));
  }

  /** A path that overlaps no requested path is open in the projection and does not resolve in it. */
  lemma {:induction false} UnrequestedOpen(item: Item, paths: seq<Path>, q: Path)
    requires Disjoint(paths) && forall i :: 0 <= i < |paths| ==> NamesOnly(paths[i])
    requires NamesOnly(q) && forall i :: 0 <= i < |paths| ==> !Overlap(paths[i], q)
    ensures Open(M(Projected(item, paths)), q)
    decreases |paths|
  {
    if paths == [] {
      PutIntoEmpty(q, BOOL(true));
    } else {
      var rest, p := paths[..|paths| - 1], paths[|paths| - 1];
      var out := Projected(item, rest);
      UnrequestedOpen(item, rest, q);
      UnrequestedOpen(item, rest, p);
      if ResolvePath(item, p).Some? {
        StepIsPut(item, p, out);
        StaysOpen(M(out), p, ResolvePath(item, p).value, q);
      }
    }
  }

  lemma {:induction false} OpenUnresolved(v: AV, p: seq<Elem>)
    requires Open(v, p)
    ensures Get(v, p) == None
  {
    if p[0].name in v.attrs {
      OpenUnresolved(v.attrs[p[0].name], p[1..]);
    }
  }

  /** Each requested path resolves in the projection exactly as in the item. */
  lemma {:induction false} ProjectedExactly(item: Item, paths: seq<Path>, i: nat)
    requires Disjoint(paths) && forall j :: 0 <= j < |paths| ==> NamesOnly(paths[j])
    requires i < |paths|
    ensures ResolvePath(Projected(item, paths), paths[i]) == ResolvePath(item, paths[i])
    decreases |paths|
  {
    var rest, p := paths[..|paths| - 1], paths[|paths| - 1];
    var out := Projected(item, rest);
    UnrequestedOpen(item, rest, p);
    OpenUnresolved(M(out), p);
    if i < |rest| {
      ProjectedExactly(item, rest, i);
    }
    match ResolvePath(item, p) {
      case None =>
      case Some(x) =>
        StepIsPut(item, p, out);
        GetOfPut(M(out), p, x);
        if i < |rest| {
          OverlapSymmetric(paths[i], p);
          GetFrame(M(out), p, x, paths[i]);
        }
    }
  }

  /** What resolves in the projection is a prefix or an extension of a requested path that resolves
      in the item. */
  lemma {:induction false} NothingElseProjected(item: Item, paths: seq<Path>, q: Path)
    requires Disjoint(paths) && forall j :: 0 <= j < |paths| ==> NamesOnly(paths[j])
    requires ResolvePath(Projected(item, paths), q).Some?
    ensures exists i :: 0 <= i < |paths| && Overlap(paths[i], q) && ResolvePath(item, paths[i]).Some?
    decreases |paths|
  {
    if paths != [] {
      var rest, p := paths[..|paths| - 1], paths[|paths| - 1];
      var out := Projected(item, rest);
      UnrequestedOpen(item, rest, p);
      if ResolvePath(item, p).Some? {
        StepIsPut(item, p, out);
        if !Overlap(p, q) {
          GetFrame(M(out), p, ResolvePath(item, p).value, q);
          NothingElseProjected(item, rest, q);
          var i :| 0 <= i < |rest| && Overlap(rest[i], q) && ResolvePath(item, rest[i]).Some?;
          assert paths[i] == rest[i];
        }
      } else {
        NothingElseProjected(item, rest, q);
        var i :| 0 <= i < |rest| && Overlap(rest[i], q) && ResolvePath(item, rest[i]).Some?;
        assert paths[i] == rest[i];
      }
    }
  }

  // ---- where projection is not exact ----

  /** Every list index in the path is zero. */
  predicate AtZero(p: seq<Elem>) {
    forall i :: 0 <= i < |p| && p[i].Index? ==> p[i].index == 0
  }

  lemma {:induction false} WrappedReads(v: AV, rest: seq<Elem>)
    ensures Get(WrapPath(v, rest), rest) == if AtZero(rest) then Some(v) else None
  {
    if rest != [] {
      WrappedReads(v, rest[1..]);
      assert forall i :: 0 <= i < |rest| - 1 ==> rest[1..][i] == rest[i + 1];
      assert AtZero(rest) <==> (rest[0].Index? ==> rest[0].index == 0) && AtZero(rest[1..]);
    }
  }

  /** A single requested path resolves in the projection as in the item if and only if it does not
      resolve or all its list indices are zero: an element becomes the first of a new list. */
  lemma OnePathExactIff(item: Item, p: Path)
    ensures ResolvePath(Projected(item, [p]), p) == ResolvePath(item, p) <==>
            ResolvePath(item, p).None? || AtZero(p)
  {
    assert [p][..0] == [] && Projected(item, []) == map[];
    match ResolvePath(item, p) {
      case None => assert p[0].name !in Projected(item, [p]);
      case Some(v) =>
        WrappedReads(v, p[1..]);
        assert Projected(item, [p]) == map[p[0].name := WrapPath(v, p[1..])];
        assert forall i :: 0 <= i < |p| - 1 ==> p[1..][i] == p[i + 1];
        assert AtZero(p) <==> AtZero(p[1..]);
    }
  }

  // ---- a path and one of its extensions ----

  /** No list with elements is met when walking through maps. */
  predicate NoLists(x: AV) {
    match x
    case L(es) => es == []
    case M(m) => forall k :: k in m ==> NoLists(m[k])
    case _ => true
  }

  /** Merging a value into itself doubles its lists. */
  lemma {:induction false} MergeSelf(x: AV)
    ensures MergeAV(x, x) == x <==> NoLists(x)
    decreases x
  {
    match x {
      case L(es) =>
        assert |es + es| == 2 * |es|;
        assert es == [] ==> es + es == es;
      case M(m) =>
        forall k | k in m
          ensures MergeAV(m[k], m[k]) == m[k] <==> NoLists(m[k])
        {
          MergeSelf(m[k]);
        }
        MergedMap(m, m);
      case _ =>
    }
  }

  /** Merging a map of the same attributes changes nothing exactly if no attribute changes. */
  lemma MergedMap(m: map<string, AV>, w: map<string, AV>)
    requires w.Keys == m.Keys
    ensures MergeAV(M(m), M(w)) == M(m) <==> forall k :: k in m ==> MergeAV(m[k], w[k]) == m[k]
  {
    var r := MergeAV(M(m), M(w)).attrs;
    assert r.Keys == m.Keys;
    assert forall k :: k in m ==> r[k] == MergeAV(m[k], w[k]);
    hide MergeAV;
    if forall k :: k in m ==> MergeAV(m[k], w[k]) == m[k] {
      assert r == m;
    }
  }

  /** Merging what p reads back into v changes nothing if and only if p consists of names and reads no
      list with elements. */
  lemma {:induction false} MergeBackIff(v: AV, p: seq<Elem>, x: AV)
    requires Get(v, p) == Some(x)
    ensures MergeAV(v, WrapPath(x, p)) == v <==> NamesOnly(p) && NoLists(x)
    decreases |p|
  {
    hide MergeAV, NoLists;
    if p == [] {
      MergeSelf(x);
    } else {
      NamesOfRest(p);
      match p[0] {
        case Name(n) =>
          MergeBackIff(v.attrs[n], p[1..], x);
          MergeOne(v, n, WrapPath(x, p[1..]));
          SameAt(v.attrs, n, MergeAV(v.attrs[n], WrapPath(x, p[1..])));
        case Index(i) =>
          MergeLists(v.elems, [WrapPath(x, p[1..])]);
      }
    }
  }

  lemma NamesOfRest(p: seq<Elem>)
    requires p != []
    ensures NamesOnly(p) <==> p[0].Name? && NamesOnly(p[1..])
  {
    assert forall i :: 0 <= i < |p| - 1 ==> p[1..][i] == p[i + 1];
  }

  lemma SameAt(m: map<string, AV>, n: string, w: AV)
    requires n in m
    ensures m[n := w] == m <==> w == m[n]
  {
    assert m[n := w][n] == w;
  }

  lemma MergeLists(a: seq<AV>, b: seq<AV>)
    ensures MergeAV(L(a), L(b)) == L(a + b)
    ensures b != [] ==> MergeAV(L(a), L(b)) != L(a) && MergeAV(L(b), L(a)) != L(a)
  {
    assert |a + b| == |a| + |b|;
  }

  /** The same when v is merged over what p reads. */
  lemma {:induction false} MergeOverIff(v: AV, p: seq<Elem>, x: AV)
    requires Get(v, p) == Some(x)
    ensures MergeAV(WrapPath(x, p), v) == v <==> NamesOnly(p) && NoLists(x)
    decreases |p|
  {
    hide MergeAV, NoLists;
    if p == [] {
      MergeSelf(x);
    } else {
      NamesOfRest(p);
      match p[0] {
        case Name(n) =>
          MergeOverIff(v.attrs[n], p[1..], x);
          MergeUnder(v, n, WrapPath(x, p[1..]));
          SameAt(v.attrs, n, MergeAV(WrapPath(x, p[1..]), v.attrs[n]));
        case Index(i) =>
          MergeLists(v.elems, [WrapPath(x, p[1..])]);
      }
    }
  }

  lemma MergeUnder(v: AV, n: string, w: AV)
    requires v.M? && n in v.attrs
    ensures MergeAV(M(map[n := w]), v) == M(v.attrs[n := MergeAV(w, v.attrs[n])])
  {
    var one := map[n := w];
    var m := MergeAV(M(one), v).attrs;
    assert one.Keys == {n} && m.Keys == v.attrs.Keys;
    var x := MergeAV(w, v.attrs[n]);
    hide MergeAV;
    assert m == v.attrs[n := x];
  }

  /** Both requested paths resolve in the projection as in the item. */
  predicate BothExact(item: Item, p: Path, q: Path, out: Item) {
    ResolvePath(out, p) == ResolvePath(item, p) && ResolvePath(out, q) == ResolvePath(item, q)
  }

  /** What two paths with the same first name project to. */
  lemma TwoProjected(item: Item, p: Path, q: Path)
    requires p[0] == q[0] && ResolvePath(item, p).Some? && ResolvePath(item, q).Some?
    ensures Projected(item, [p, q]) ==
              map[p[0].name := MergeAV(WrapPath(ResolvePath(item, p).value, p[1..]),
                                       WrapPath(ResolvePath(item, q).value, q[1..]))]
  {
    hide MergeAV, WrapPath, ResolvePath;
    var paths := [p, q];
    assert paths[..1] == [p] && [p][..0] == [] && Projected(item, []) == map[];
    assert Projected(item, [p]) == map[p[0].name := WrapPath(ResolvePath(item, p).value, p[1..])];
  }

  lemma {:induction false} WrapMerged(v: AV, x: AV, p: seq<Elem>, a: seq<Elem>, b: seq<Elem>)
    requires NamesOnly(p)
    ensures MergeAV(WrapPath(v, p + a), WrapPath(x, p + b)) == WrapPath(MergeAV(WrapPath(v, a), WrapPath(x, b)), p)
    decreases |p|
  {
    hide MergeAV;
    if p == [] {
      assert p + a == a && p + b == b;
    } else {
      assert (p + a)[1..] == p[1..] + a && (p + b)[1..] == p[1..] + b;
      NamesOfRest(p);
      WrapMerged(v, x, p[1..], a, b);
      MergeOne(WrapPath(v, p + a), p[0].name, WrapPath(x, (p + b)[1..]));
    }
  }

  lemma WrappedGet(w: AV, n: string, p: Path)
    requires p[0] == Name(n)
    ensures ResolvePath(map[n := w], p) == Get(w, p[1..])
  {
  }

  lemma {:induction false} GetOfWrapped(w: AV, p: seq<Elem>, q: seq<Elem>)
    requires NamesOnly(p)
    ensures Get(WrapPath(w, p), p + q) == Get(w, q)
    decreases |p|
  {
    if p == [] {
      assert p + q == q;
    } else {
      assert (p + q)[1..] == p[1..] + q && (p + q)[0] == p[0];
      NamesOfRest(p);
      GetOfWrapped(w, p[1..], q);
    }
  }

  /** Requesting a path of names and an extension of it, in either order, is exact if and only if the
      extension consists of names too and reads no list with elements: lists are merged twice. */
  lemma ExtensionExactIff(item: Item, p: Path, s: seq<Elem>)
    requires NamesOnly(p) && s != [] && ResolvePath(item, p + s).Some?
    ensures BothExact(item, p, p + s, Projected(item, [p, p + s])) <==>
            NamesOnly(s) && NoLists(ResolvePath(item, p + s).value)
    ensures BothExact(item, p, p + s, Projected(item, [p + s, p])) <==>
            NamesOnly(s) && NoLists(ResolvePath(item, p + s).value)
  {
    hide MergeAV, NoLists, WrapPath, Get, NamesOnly;
    var q: Path := p + s;
    GetConcat(M(item), p, s);
    var v, x := ResolvePath(item, p).value, ResolvePath(item, q).value;
    TwoProjected(item, p, q);
    TwoProjected(item, q, p);
    assert q[1..] == p[1..] + s && p[1..] + [] == p[1..];
    NamesOfRest(p);
    WrapMerged(v, x, p[1..], [], s);
    WrapMerged(x, v, p[1..], s, []);
    WrapHere(v);
    MergeBackIff(v, s, x);
    MergeOverIff(v, s, x);
    ExactAt(item, p, s, v, x, MergeAV(v, WrapPath(x, s)));
    ExactAt(item, p, s, v, x, MergeAV(WrapPath(x, s), v));
  }

  lemma WrapHere(v: AV)
    ensures WrapPath(v, []) == v
  {
  }

  lemma ExactAt(item: Item, p: Path, s: seq<Elem>, v: AV, x: AV, w: AV)
    requires NamesOnly(p) && ResolvePath(item, p) == Some(v) && ResolvePath(item, p + s) == Some(x)
    requires Get(v, s) == Some(x)
    ensures BothExact(item, p, p + s, map[p[0].name := WrapPath(w, p[1..])]) <==> w == v
  {
    hide Get, WrapPath, NamesOnly;
    var q: Path := p + s;
    NamesOfRest(p);
    GetOfWrapped(w, p[1..], []);
    GetOfWrapped(w, p[1..], s);
    assert p[1..] + [] == p[1..] && q[1..] == p[1..] + s;
    WrappedGet(WrapPath(w, p[1..]), p[0].name, p);
    WrappedGet(WrapPath(w, p[1..]), p[0].name, q);
    GetNothing(w);
  }

  lemma GetNothing(w: AV)
    ensures Get(w, []) == Some(w)
  {
  }

  // ---- extensions of a path with an index ----

  /** Where r reads in a list of two wrapped values. */
  lemma PairGet(a: AV, b: AV, i: nat, r: seq<Elem>)
    ensures Get(L([a, b]), [Index(i)] + r) == if i == 0 then Get(a, r) else if i == 1 then Get(b, r) else None
  {
    assert ([Index(i)] + r)[1..] == r;
  }

  lemma {:induction false} WrappedFurther(x: AV, r: seq<Elem>, s: seq<Elem>)
    ensures Get(WrapPath(x, r + s), r) == if AtZero(r) then Some(WrapPath(x, s)) else None
    decreases |r|
  {
    if r == [] {
      assert r + s == s;
    } else {
      assert (r + s)[1..] == r[1..] + s && (r + s)[0] == r[0];
      AtZeroRest(r);
      WrappedFurther(x, r[1..], s);
    }
  }

  lemma AtZeroRest(r: seq<Elem>)
    requires r != []
    ensures AtZero(r) <==> (r[0].Index? ==> r[0].index == 0) && AtZero(r[1..])
  {
    assert forall i :: 0 <= i < |r| - 1 ==> r[1..][i] == r[i + 1];
  }

  lemma AtZeroConcat(r: seq<Elem>, s: seq<Elem>)
    ensures AtZero(r + s) <==> AtZero(r) && AtZero(s)
  {
    var t := r + s;
    assert forall i :: 0 <= i < |r| ==> t[i] == r[i];
    assert forall i :: 0 <= i < |s| ==> t[|r| + i] == s[i];
  }

  /** Below the first index of a path, what it reads and what its extension reads become two elements of
      one list: the first is found again at index 0 and the second at index 1. */
  lemma ExtensionOfIndexIff(item: Item, n: Path, i: nat, r: seq<Elem>, s: seq<Elem>)
    requires NamesOnly(n) && s != [] && ResolvePath(item, n + [Index(i)] + r + s).Some?
    requires ResolvePath(item, n + [Index(i)] + r).Some?
    ensures var p: Path, q: Path := n + [Index(i)] + r, n + [Index(i)] + r + s;
            var single := ResolvePath(item, p) == Some(WrapPath(ResolvePath(item, q).value, s));
            && (BothExact(item, p, q, Projected(item, [p, q])) <==> AtZero(r) && (i == 0 || (i == 1 && single)))
            && (BothExact(item, p, q, Projected(item, [q, p])) <==> AtZero(r) && (i == 1 || (i == 0 && single)))
  {
    hide MergeAV, WrapPath, Get, NamesOnly, AtZero;
    var p: Path, q: Path := n + [Index(i)] + r, n + [Index(i)] + r + s;
    var v, x := ResolvePath(item, p).value, ResolvePath(item, q).value;
    var e, f := [Index(i)] + r, [Index(i)] + (r + s);
    TwoProjected(item, p, q);
    TwoProjected(item, q, p);
    NamesOfRest(n);
    assert p[1..] == n[1..] + e && q[1..] == n[1..] + f && q == p + s;
    WrapMerged(v, x, n[1..], e, f);
    WrapMerged(x, v, n[1..], f, e);
    GetConcat(M(item), p, s);
    var a, b := WrapPath(v, r), WrapPath(x, r + s);
    WrapIndex(v, i, r);
    WrapIndex(x, i, r + s);
    MergeLists([a], [b]);
    MergeLists([b], [a]);
    assert [a] + [b] == [a, b] && [b] + [a] == [b, a];
    PairExact(item, n, i, r, s, v, x, a, b);
    PairExact(item, n, i, r, s, v, x, b, a);
    ElementReads(v, x, r, s);
  }

  lemma WrapIndex(x: AV, i: nat, r: seq<Elem>)
    ensures WrapPath(x, [Index(i)] + r) == L([WrapPath(x, r)])
  {
    assert ([Index(i)] + r)[1..] == r;
  }

  /** What the two elements read for the path and for its extension. */
  lemma ElementReads(v: AV, x: AV, r: seq<Elem>, s: seq<Elem>)
    requires Get(v, s) == Some(x)
    ensures Get(WrapPath(v, r), r) == Some(v) && Get(WrapPath(v, r), r + s) == Some(x) <==> AtZero(r)
    ensures Get(WrapPath(x, r + s), r) == Some(v) && Get(WrapPath(x, r + s), r + s) == Some(x) <==>
            AtZero(r) && v == WrapPath(x, s)
  {
    hide WrapPath, Get, AtZero;
    WrappedReads(v, r);
    WrappedReads(x, r + s);
    WrappedReads(x, s);
    WrappedFurther(x, r, s);
    AtZeroConcat(r, s);
    GetConcat(WrapPath(v, r), r, s);
  }

  /** Exactness when two wrapped values are the elements of a list at a path of names. */
  lemma PairExact(item: Item, n: Path, i: nat, r: seq<Elem>, s: seq<Elem>, v: AV, x: AV, a: AV, b: AV)
    requires NamesOnly(n)
    requires ResolvePath(item, n + [Index(i)] + r) == Some(v) && ResolvePath(item, n + [Index(i)] + r + s) == Some(x)
    ensures var p: Path, q: Path := n + [Index(i)] + r, n + [Index(i)] + r + s;
            BothExact(item, p, q, map[n[0].name := WrapPath(L([a, b]), n[1..])]) <==>
            (i == 0 && Get(a, r) == Some(v) && Get(a, r + s) == Some(x)) ||
            (i == 1 && Get(b, r) == Some(v) && Get(b, r + s) == Some(x))
  {
    hide WrapPath, Get, NamesOnly;
    var p: Path, q: Path := n + [Index(i)] + r, n + [Index(i)] + r + s;
    var w := WrapPath(L([a, b]), n[1..]);
    NamesOfRest(n);
    assert p[1..] == n[1..] + ([Index(i)] + r) && q[1..] == n[1..] + ([Index(i)] + (r + s));
    GetOfWrapped(L([a, b]), n[1..], [Index(i)] + r);
    GetOfWrapped(L([a, b]), n[1..], [Index(i)] + (r + s));
    WrappedGet(w, n[0].name, p);
    WrappedGet(w, n[0].name, q);
    PairGet(a, b, i, r);
    PairGet(a, b, i, r + s);
  }

  /** Several paths together may be exact where one alone is not: a[0] and a[1] become elements 0 and 1
      again. */
  lemma TwoElementsExact(item: Item, a: string, es: seq<AV>)
    requires a in item && item[a] == L(es) && |es| >= 2
    ensures var p: Path, q: Path := [Name(a), Index(0)], [Name(a), Index(1)];
            BothExact(item, p, q, Projected(item, [p, q])) && !AtZero(q)
  {
    hide MergeAV;
    var p: Path, q: Path := [Name(a), Index(0)], [Name(a), Index(1)];
    assert p[1..] == [Index(0)] && q[1..] == [Index(1)] && [Index(0)][1..] == [] && [Index(1)][1..] == [];
    assert Get(L(es), [Index(0)]) == Some(es[0]) && Get(L(es), [Index(1)]) == Some(es[1]);
    TwoProjected(item, p, q);
    assert WrapPath(es[0], [Index(0)]) == L([es[0]]) && WrapPath(es[1], [Index(1)]) == L([es[1]]);
    MergeLists([es[0]], [es[1]]);
    var w := L([es[0], es[1]]);
    assert [es[0]] + [es[1]] == w.elems;
    WrappedGet(w, a, p);
    WrappedGet(w, a, q);
    assert Get(w, [Index(0)]) == Some(es[0]) && Get(w, [Index(1)]) == Some(es[1]);
    assert q[1].Index? && q[1].index == 1;
  }
}
