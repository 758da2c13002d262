/** Document paths: reading (expr.go resolvePath) and writing (update.go setPath). An item is
    treated as the map M(item). Documents are values here: no two places share storage. */
module Paths {
  import opened Wrappers
  import opened Values

  datatype Elem = Name(name: string) | Index(index: nat)

  /** A parsed path starts with an attribute name. */
  type Path = p: seq<Elem> | p != [] && p[0].Name? witness [Name("a")]

  /** pathsOverlap: one path is a prefix of, or equal to, the other. */
  predicate Overlap(p: seq<Elem>, q: seq<Elem>) {
    p == [] || q == [] || (p[0] == q[0] && Overlap(p[1..], q[1..]))
  }

  method PathsOverlap(a: seq<Elem>, b: seq<Elem>) returns (r: bool)
    ensures r == Overlap(a, b)
  {
    var n := if |b| < |a| then |b| else |a|;
    for i := 0 to n
      invariant Overlap(a, b) == Overlap(a[i..], b[i..])
    {
      if a[i] != b[i] {
        return false;
      }
      assert a[i..][1..] == a[i + 1..] && b[i..][1..] == b[i + 1..];
    }
    return true;
  }

  /** One step down a document. */
  function Child(v: AV, e: Elem): Option<AV> {
    match e
    case Name(n) => if v.M? && n in v.attrs then Some(v.attrs[n]) else None
    case Index(i) => if v.L? && i < |v.elems| then Some(v.elems[i]) else None
  }

  function Get(v: AV, p: seq<Elem>): Option<AV> {
    if p == [] then Some(v)
    else
      var c :- Child(v, p[0]);
      Get(c, p[1..])
  }

  /** resolvePath. */
  function ResolvePath(item: Item, p: Path): Option<AV> {
    Get(M(item), p)
  }

  /** resolvePath as the loop that walks down from the item. */
  method WalkPath(item: Item, p: Path) returns (r: Option<AV>)
    ensures r == ResolvePath(item, p)
  {
    if p[0].name !in item {
      return None;
    }
    var cur := item[p[0].name];
    for i := 1 to |p|
      invariant ResolvePath(item, p) == Get(cur, p[i..])
    {
      assert p[i..][1..] == p[i + 1..];
      var next := Child(cur, p[i]);
      if next.None? {
        return None;
      }
      cur := next.value;
    }
    return Some(cur);
  }

  /** The container v with its child at e replaced; fails like setPath on a wrong container or an
      index out of range. */
  function WithChild(v: AV, e: Elem, c: AV): Result<AV> {
    match e
    case Name(n) => if v.M? then Ok(M(v.attrs[n := c])) else Err
    case Index(i) => if v.L? && i < |v.elems| then Ok(L(v.elems[i := c])) else Err
  }

  /** What setPath steps into: an absent attribute becomes an empty map on the way. */
  function ChildOrNew(v: AV, e: Elem): AV {
    match Child(v, e)
    case Some(c) => c
    case None => M(map[])
  }

  function Put(v: AV, p: seq<Elem>, x: AV): Result<AV>
    decreases p
  {
    if p == [] then Ok(x)
    else
      var c :- Put(ChildOrNew(v, p[0]), p[1..], x);
      WithChild(v, p[0], c)
  }

  /** setPath. */
  function SetPath(item: Item, p: Path, x: AV): (r: Result<Item>)
    ensures Put(M(item), p, x) == (match r case Ok(d) => Ok(M(d)) case Err => Err)
  {
    match Put(M(item), p, x)
    case Ok(d) => Ok(d.attrs)
    case Err => Err
  }

  // ---- single steps ----

  lemma ChildOfWithChild(v: AV, e: Elem, f: Elem, c: AV)
    requires WithChild(v, e, c).Ok?
    ensures Child(WithChild(v, e, c).value, f) == if f == e then Some(c) else Child(v, f)
  {
  }

  /** Whether a child can be replaced does not depend on other children. */
  lemma WithChildTwice(v: AV, e: Elem, f: Elem, c: AV, d: AV)
    requires WithChild(v, e, c).Ok?
    ensures e == f ==> WithChild(WithChild(v, e, c).value, f, d) == WithChild(v, f, d)
    ensures WithChild(v, f, d).Ok? <==> WithChild(WithChild(v, e, c).value, f, d).Ok?
    ensures e != f && WithChild(v, f, d).Ok? ==>
              WithChild(WithChild(v, e, c).value, f, d) == WithChild(WithChild(v, f, d).value, e, c)
  {
    match (v, e, f) {
      case (M(m), Name(j), Name(k)) =>
        assert j == k ==> m[j := c][k := d] == m[k := d];
        assert j != k ==> m[j := c][k := d] == m[k := d][j := c];
      case (L(l), Index(i), Index(k)) =>
        assert k < |l| && i == k ==> l[i := c][k := d] == l[k := d];
        assert k < |l| && i != k ==> l[i := c][k := d] == l[k := d][i := c];
      case _ =>
    }
  }

  // ---- the laws ----

  lemma {:induction false} OverlapSymmetric(p: seq<Elem>, q: seq<Elem>)
    ensures Overlap(p, q) == Overlap(q, p)
  {
    if p != [] && q != [] {
      OverlapSymmetric(p[1..], q[1..]);
    }
  }

  /** Paths overlap exactly when one is a prefix of the other. */
  lemma {:induction false} OverlapIff(p: seq<Elem>, q: seq<Elem>)
    ensures Overlap(p, q) <==> p <= q || q <= p
    decreases |p|
  {
    if p != [] && q != [] {
      assert p == [p[0]] + p[1..] && q == [q[0]] + q[1..];
      OverlapIff(p[1..], q[1..]);
    }
  }

  /** After a write, reading the path gives what was written. */
  lemma {:induction false} GetOfPut(v: AV, p: seq<Elem>, x: AV)
    requires Put(v, p, x).Ok?
    ensures Get(Put(v, p, x).value, p) == Some(x)
    decreases p
  {
    if p != [] {
      var c := ChildOrNew(v, p[0]);
      GetOfPut(c, p[1..], x);
      ChildOfWithChild(v, p[0], p[0], Put(c, p[1..], x).value);
    }
  }

  /** A write changes no path that does not overlap: found as before, or not found as before. */
  lemma {:induction false} GetFrame(v: AV, p: seq<Elem>, x: AV, q: seq<Elem>)
    requires Put(v, p, x).Ok? && !Overlap(p, q)
    ensures Get(Put(v, p, x).value, q) == Get(v, q)
    decreases p
  {
    var c := ChildOrNew(v, p[0]);
    ChildOfWithChild(v, p[0], q[0], Put(c, p[1..], x).value);
    if p[0] == q[0] {
      GetFrame(c, p[1..], x, q[1..]);
      if Child(v, p[0]).None? {
        assert Get(c, q[1..]) == None;
      }
    }
  }

  /** Writing back what is there changes nothing. */
  lemma {:induction false} PutOfGet(v: AV, p: seq<Elem>)
    requires Get(v, p).Some?
    ensures Put(v, p, Get(v, p).value) == Ok(v)
  {
    if p != [] {
      PutOfGet(Child(v, p[0]).value, p[1..]);
      match p[0] {
        case Name(n) => assert v.attrs[n := v.attrs[n]] == v.attrs;
        case Index(i) => assert v.elems[i := v.elems[i]] == v.elems;
      }
    }
  }

  /** The last of two writes to one path wins. */
  lemma {:induction false} PutTwice(v: AV, p: seq<Elem>, x: AV, y: AV)
    requires Put(v, p, x).Ok?
    ensures Put(Put(v, p, x).value, p, y) == Put(v, p, y)
    decreases p
  {
    if p != [] {
      var c := ChildOrNew(v, p[0]);
      PutTwice(c, p[1..], x, y);
      PutFails(c, p[1..], x, y);
      var w := WithChild(v, p[0], Put(c, p[1..], x).value).value;
      ChildOfWithChild(v, p[0], p[0], Put(c, p[1..], x).value);
      WithChildTwice(v, p[0], p[0], Put(c, p[1..], x).value, Put(c, p[1..], y).value);
    }
  }

  /** Whether a write succeeds does not depend on the value written. */
  lemma {:induction false} PutFails(v: AV, p: seq<Elem>, x: AV, y: AV)
    ensures Put(v, p, x).Ok? <==> Put(v, p, y).Ok?
    decreases p
  {
    if p != [] {
      PutFails(ChildOrNew(v, p[0]), p[1..], x, y);
    }
  }

  lemma {:induction false} GetConcat(v: AV, p: seq<Elem>, q: seq<Elem>)
    ensures Get(v, p + q) == match Get(v, p) case None => None case Some(c) => Get(c, q)
    decreases |p|
  {
    hide Child;
    if p == [] {
      assert p + q == q;
    } else {
      assert (p + q)[0] == p[0] && (p + q)[1..] == p[1..] + q;
      if Child(v, p[0]).Some? {
        GetConcat(Child(v, p[0]).value, p[1..], q);
      }
    }
  }

  /** Writing below something is writing it back changed. */
  lemma {:induction false} PutBelow(v: AV, p: seq<Elem>, q: seq<Elem>, x: AV)
    requires Get(v, p).Some?
    ensures Put(v, p + q, x) == match Put(Get(v, p).value, q, x) case Err => Err case Ok(c) => Put(v, p, c)
    decreases |p|
  {
    hide WithChild, Child;
    if p == [] {
      assert p + q == q;
    } else {
      assert (p + q)[0] == p[0] && (p + q)[1..] == p[1..] + q;
      PutBelow(Child(v, p[0]).value, p[1..], q, x);
    }
  }

  function Then(r: Result<AV>, p: seq<Elem>, x: AV): Result<AV> {
    var v :- r;
    Put(v, p, x)
  }

  /** Writes to paths that do not overlap commute: both orders fail, or both give one document. */
  lemma {:induction false} PutsCommute(v: AV, p: seq<Elem>, x: AV, q: seq<Elem>, y: AV)
    requires !Overlap(p, q)
    ensures Then(Put(v, p, x), q, y) == Then(Put(v, q, y), p, x)
    decreases p
  {
    hide Put, Child, WithChild, Then;
    var cp, cq := Put(ChildOrNew(v, p[0]), p[1..], x), Put(ChildOrNew(v, q[0]), q[1..], y);
    if p[0] == q[0] {
      var c := ChildOrNew(v, p[0]);
      PutsCommute(c, p[1..], x, q[1..], y);
      ThenSameChild(v, p, x, q, y);
      ThenSameChild(v, q, y, p, x);
    } else if cp.Ok? && cq.Ok? {
      ThenOtherChild(v, p, x, q, y);
      ThenOtherChild(v, q, y, p, x);
      if WithChild(v, p[0], cp.value).Ok? {
        WithChildTwice(v, p[0], q[0], cp.value, cq.value);
      }
      if WithChild(v, q[0], cq.value).Ok? {
        WithChildTwice(v, q[0], p[0], cq.value, cp.value);
      }
    } else {
      ThenOtherChild(v, p, x, q, y);
      ThenOtherChild(v, q, y, p, x);
    }
  }

  /** Two writes below one child are two writes to that child. */
  lemma ThenSameChild(v: AV, p: seq<Elem>, x: AV, q: seq<Elem>, y: AV)
    requires p != [] && q != [] && p[0] == q[0]
    ensures var r := Then(Put(ChildOrNew(v, p[0]), p[1..], x), q[1..], y);
            Then(Put(v, p, x), q, y) == if r.Ok? then WithChild(v, p[0], r.value) else Err
  {
    hide Put, Child, WithChild;
    PutUnfold(v, p, x);
    var c := Put(ChildOrNew(v, p[0]), p[1..], x);
    if c.Ok? && Put(v, p, x).Ok? {
      var w := Put(v, p, x).value;
      ChildOfWithChild(v, p[0], p[0], c.value);
      PutUnfold(w, q, y);
      var d := Put(c.value, q[1..], y);
      if d.Ok? {
        WithChildTwice(v, p[0], p[0], c.value, d.value);
      }
    } else if c.Ok? {
      WithChildFails(v, p[0], c.value);
    }
  }

  lemma PutUnfold(v: AV, p: seq<Elem>, x: AV)
    requires p != []
    ensures Put(v, p, x) == match Put(ChildOrNew(v, p[0]), p[1..], x)
                            case Err => Err
                            case Ok(c) => WithChild(v, p[0], c)
  {
  }

  /** Whether a child can be replaced does not depend on the new child. */
  lemma WithChildFails(v: AV, e: Elem, c: AV)
    ensures WithChild(v, e, c).Err? ==> forall d :: WithChild(v, e, d).Err?
  {
  }

  /** A write below another child leaves what the second write steps into. */
  lemma ThenOtherChild(v: AV, p: seq<Elem>, x: AV, q: seq<Elem>, y: AV)
    requires p != [] && q != [] && p[0] != q[0]
    ensures var cp, cq := Put(ChildOrNew(v, p[0]), p[1..], x), Put(ChildOrNew(v, q[0]), q[1..], y);
            Then(Put(v, p, x), q, y) ==
              if cp.Ok? && cq.Ok? && WithChild(v, p[0], cp.value).Ok?
              then WithChild(WithChild(v, p[0], cp.value).value, q[0], cq.value) else Err
  {
    hide Put, Child, WithChild;
    var cp := Put(ChildOrNew(v, p[0]), p[1..], x);
    PutUnfold(v, p, x);
    if cp.Ok? && WithChild(v, p[0], cp.value).Ok? {
      ChildOfWithChild(v, p[0], q[0], cp.value);
      PutUnfold(WithChild(v, p[0], cp.value).value, q, y);
    }
  }
}
