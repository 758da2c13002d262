/** Right-hand sides on two documents that differ in a few entries (update.go evalSetValue): what reads none of
    those entries stores the same object. */
module CutReads {
  import opened Decimal
  import opened Values
  import opened Paths
  import opened Expressions
  import opened Updates
  import opened UpdateOrder
  import opened References
  import opened Reading
  import opened InPlace
  import opened RightHandSides
  import opened Cuts

  /** The container has no cut entry. */
  ghost predicate Uncut(v: Val, cut: set<Entry>) {
    forall e :: v.Box? ==> Entry(v.ref, e) !in cut
  }

  /** Reading the path neither steps through a cut entry nor ends at a container that has one. */
  ghost predicate ReadsClear(g: Heap, p: Path, cut: set<Entry>) {
    Clear(g, Box(ROOT), p, cut) && (Walk(g, Box(ROOT), p).Some? ==> Uncut(Walk(g, Box(ROOT), p).value, cut))
  }

  ghost predicate AllClear(g: Heap, paths: seq<Path>, names: set<string>, cut: set<Entry>) {
    && (forall i :: 0 <= i < |paths| ==> ReadsClear(g, paths[i], cut))
    && forall k :: k in names && k in g.values ==> Uncut(ValueVal(g, k), cut)
  }

  lemma SimilarSize(h: Heap, g: Heap, v: Val)
    requires v.Box? ==> SameShape(h, g, v.ref)
    ensures SizeOfVal(h, v) == SizeOfVal(g, v)
  {
    if v.Box? {
      match (Look(h, v.ref), Look(g, v.ref)) {
        case (Some(MapCell(x)), Some(MapCell(y))) => assert |x| == |x.Keys| && |y| == |y.Keys|;
        case _ =>
      }
    }
  }

  lemma SimilarElems(h: Heap, g: Heap, cut: set<Entry>, v: Val)
    requires Similar(h, g, cut) && Uncut(v, cut)
    ensures ElemsOf(h, v) == ElemsOf(g, v)
  {
    if v.Box? {
      assert SameShape(h, g, v.ref) && v == Box(v.ref);
      if ElemsOf(g, v).Some? {
        var x, y := ElemsOf(h, v).value, ElemsOf(g, v).value;
        forall i | 0 <= i < |y|
          ensures x[i] == y[i]
        {
          assert Entry(v.ref, Index(i)) !in cut;
          assert ChildVal(h, v, Index(i)) == ChildVal(g, v, Index(i));
        }
        assert x == y;
      }
    }
  }

  lemma SimilarRead(h: Heap, g: Heap, cut: set<Entry>, p: Path)
    requires Similar(h, g, cut) && ReadsClear(g, p, cut)
    ensures Walk(h, Box(ROOT), p) == Walk(g, Box(ROOT), p)
    ensures Walk(g, Box(ROOT), p).Some? ==> Uncut(Walk(g, Box(ROOT), p).value, cut)
  {
    hide Walk, Similar, Clear, Uncut;
    SimilarWalk(h, g, cut, Box(ROOT), p);
  }

  lemma SimilarOperand(h: Heap, g: Heap, cut: set<Entry>, o: Operand)
    requires Similar(h, g, cut) && AllClear(g, OperandReads(o), OperandUses(o), cut)
    ensures OperandVal(h, o) == OperandVal(g, o)
    ensures OperandVal(g, o).Ok? ==> Uncut(OperandVal(g, o).value, cut)
  {
    hide Walk, SizeOfVal, DecimalText, ReadsClear;
    match o {
      case ValueRef(k) => assert k in OperandUses(o);
      case PathOf(p) =>
        assert OperandReads(o)[0] == p;
        SimilarRead(h, g, cut, p);
      case SizeOf(p) =>
        assert OperandReads(o)[0] == p;
        SimilarRead(h, g, cut, p);
        if Walk(g, Box(ROOT), p).Some? {
          var v := Walk(g, Box(ROOT), p).value;
          assert v.Box? ==> SameShape(h, g, v.ref);
          SimilarSize(h, g, v);
        }
    }
  }

  lemma ClearParts(g: Heap, a: seq<Path>, b: seq<Path>, s: set<string>, t: set<string>, cut: set<Entry>)
    requires AllClear(g, a + b, s + t, cut)
    ensures AllClear(g, a, s, cut) && AllClear(g, b, t, cut)
  {
    hide ReadsClear, Uncut;
    assert forall i :: 0 <= i < |a| ==> (a + b)[i] == a[i];
    assert forall i :: 0 <= i < |b| ==> (a + b)[|a| + i] == b[i];
  }

  /** New objects do not change what is read. */
  lemma ClearLater(g: Heap, g2: Heap, d: Item, names: set<string>, paths: seq<Path>, uses: set<string>, cut: set<Entry>)
    requires InProgress(g, d, names) && Extends(g, g2) && AllClear(g, paths, uses, cut) && Entries(g, cut)
    ensures AllClear(g2, paths, uses, cut) && Entries(g2, cut)
  {
    hide Walk, Sane, Linked, Denotes, Extends, SameBelow, Uncut;
    SaneProgress(g, d, names);
    ExtendsValues(g, g2);
    ExtendsSame(g, g2, Box(ROOT));
    forall q
      ensures Walk(g2, Box(ROOT), q) == Walk(g, Box(ROOT), q)
    {
      WalkFrame(g, g2, Box(ROOT), q);
    }
    forall i | 0 <= i < |paths|
      ensures ReadsClear(g2, paths[i], cut)
    {
      assert ReadsClear(g, paths[i], cut);
    }
    forall n | n in cut
      ensures Look(g2, n.c).Some?
    {
      EntryStays(g, g2, n.c);
    }
  }

  lemma EntryStays(g: Heap, g2: Heap, c: Ref)
    requires Sane(g) && Extends(g, g2) && Look(g, c).Some?
    ensures Look(g2, c).Some?
  {
    MadeIsOld(g, c);
  }

  lemma NewIsUncut(g: Heap, cut: set<Entry>)
    requires Sane(g) && Entries(g, cut)
    ensures Uncut(Box(Made(g.made)), cut)
  {
    NewIsUnlinked(g, Atom(NULL(true)));
  }

  /** What reads no cut entry evaluates to the same object. */
  lemma {:induction false} SimilarRvalue(h: Heap, g: Heap, cut: set<Entry>, d: Item, names: set<string>, r: Rvalue)
    requires InProgress(g, d, names) && RvalueUses(r) <= names && Similar(h, g, cut) && Entries(g, cut)
    requires AllClear(g, RvalueReads(r), RvalueUses(r), cut)
    ensures RvalueVal(h, r).Ok? <==> RvalueVal(g, r).Ok?
    ensures RvalueVal(g, r).Ok? ==>
              && RvalueVal(h, r).value.0 == RvalueVal(g, r).value.0 && Uncut(RvalueVal(g, r).value.0, cut)
              && Similar(RvalueVal(h, r).value.1, RvalueVal(g, r).value.1, cut)
    decreases r
  {
    hide Walk, OperandVal, InProgress, Similar, Entries, AllClear, Uncut, ElemsOf, Make, Extends, Sane, Linked, Denotes;
    hide EvalRvalue, ReadsClear;
    match r {
      case Plain(o) => SimilarOperand(h, g, cut, o);
      case IfNotExists(p, otherwise) =>
        assert {} + RvalueUses(otherwise) == RvalueUses(otherwise);
        ClearParts(g, [p], RvalueReads(otherwise), {}, RvalueUses(otherwise), cut);
        FirstClear(g, p, {}, cut);
        SimilarRead(h, g, cut, p);
        if Walk(g, Box(ROOT), p).None? {
          SimilarRvalue(h, g, cut, d, names, otherwise);
        }
      case ListAppend(a, b) =>
        ClearParts(g, RvalueReads(a), RvalueReads(b), RvalueUses(a), RvalueUses(b), cut);
        SimilarRvalue(h, g, cut, d, names, a);
        RvalueDenotes(g, d, names, a);
        if RvalueVal(g, a).Ok? {
          var x, h1, g1 := RvalueVal(g, a).value.0, RvalueVal(h, a).value.1, RvalueVal(g, a).value.1;
          ExtendsProgress(g, g1, d, names);
          ExtendsValues(g, g1);
          ClearLater(g, g1, d, names, RvalueReads(b), RvalueUses(b), cut);
          SimilarRvalue(h1, g1, cut, d, names, b);
          RvalueDenotes(g1, d, names, b);
          if RvalueVal(g1, b).Ok? {
            var y, h2, g2 := RvalueVal(g1, b).value.0, RvalueVal(h1, b).value.1, RvalueVal(g1, b).value.1;
            SimilarElems(h2, g2, cut, x);
            SimilarElems(h2, g2, cut, y);
            SimilarCount(h2, g2, cut);
            ClearLater(g1, g2, d, names, [], {}, cut) by {
              NothingClear(g1, cut);
            }
            NewIsUncut(g2, cut);
            if ElemsOf(g2, x).Some? && ElemsOf(g2, y).Some? {
              SimilarMake(h2, g2, cut, ListCell(ElemsOf(g2, x).value + ElemsOf(g2, y).value));
            }
          }
        }
    }
  }

  lemma FirstClear(g: Heap, p: Path, uses: set<string>, cut: set<Entry>)
    requires AllClear(g, [p], uses, cut)
    ensures ReadsClear(g, p, cut)
  {
    hide ReadsClear;
    assert [p][0] == p;
  }

  lemma NothingClear(g: Heap, cut: set<Entry>)
    ensures AllClear(g, [], {}, cut)
  {
  }

  /** What SET and ADD store is the same object. */
  lemma SimilarStored(h: Heap, g: Heap, cut: set<Entry>, d: Item, names: set<string>, a: Action)
    requires InProgress(g, d, names) && Uses(a) <= names && Similar(h, g, cut) && Entries(g, cut) && IsWrite(a)
    requires AllClear(g, Reads(a), Uses(a), cut) && Clear(g, Box(ROOT), a.path, cut)
    ensures StoredVal(h, a).Ok? <==> StoredVal(g, a).Ok?
    ensures StoredVal(g, a).Ok? ==>
              && StoredVal(h, a).value.0 == StoredVal(g, a).value.0
              && Similar(StoredVal(h, a).value.1, StoredVal(g, a).value.1, cut)
  {
    hide Walk, OperandVal, InProgress, Similar, Entries, AllClear, Uncut, RvalueVal, Clear, Extends, EvalRvalue;
    hide AddedVal, SumVal, Denotes, Linked, Sane;
    match a {
      case Set(_, Single(r)) => SimilarRvalue(h, g, cut, d, names, r);
      case Set(_, Sum(r, o, sub)) =>
        ClearParts(g, RvalueReads(r), OperandReads(o), RvalueUses(r), OperandUses(o), cut);
        SimilarRvalue(h, g, cut, d, names, r);
        RvalueDenotes(g, d, names, r);
        if RvalueVal(g, r).Ok? {
          ClearLater(g, RvalueVal(g, r).value.1, d, names, OperandReads(o), OperandUses(o), cut);
          SimilarOperand(RvalueVal(h, r).value.1, RvalueVal(g, r).value.1, cut, o);
        }
      case Add(p, o) =>
        SimilarOperand(h, g, cut, o);
        SimilarWalk(h, g, cut, Box(ROOT), p);
    }
  }
}
