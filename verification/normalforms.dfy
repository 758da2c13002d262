/** Which equivalence avEqual is: values are equal when they have the same normal form (expr.go). */
module NormalForms {
  import opened Wrappers
  import opened Bytes
  import opened Decimal
  import opened Numbers
  import opened Values
  import opened Equality

  /** What is left of a value when the spelling of numbers and the order of sets are forgotten. */
  datatype Normal =
    | Text(text: bytes)
    | Number(number: Option<Dec>)
    | Blob(blob: bytes)
    | Flag(flag: bool)
    | Null(isNull: bool)
    | TextSet(texts: multiset<bytes>)
    | NumberSet(numbers: multiset<Option<Dec>>)
    | BlobSet(blobs: multiset<bytes>)
    | List(elems: seq<Normal>)
    | Map(attrs: map<string, Normal>)

  ghost function NormalOf(v: AV): Normal {
    match v
    case S(t) => Text(t)
    case N(n) => Number(DecOf(n))
    case B(b) => Blob(b)
    case BOOL(f) => Flag(f)
    case NULL(b) => Null(b)
    case SS(ss) => TextSet(multiset(ss))
    case NS(ns) => NumberSet(multiset(seq(|ns|, i requires 0 <= i < |ns| => DecOf(ns[i]))))
    case BS(bs) => BlobSet(multiset(bs))
    case L(es) => List(seq(|es|, i requires 0 <= i < |es| => NormalOf(es[i])))
    case M(m) => Map(map k | k in m :: NormalOf(m[k]))
  }

  /** Every number in the value, at any depth, can be read. */
  ghost predicate Numeric(v: AV) {
    match v
    case N(n) => PartsOf(n).Some?
    case NS(ns) => forall i :: 0 <= i < |ns| ==> PartsOf(ns[i]).Some?
    case L(es) => forall i :: 0 <= i < |es| ==> Numeric(es[i])
    case M(m) => forall k :: k in m ==> Numeric(m[k])
    case _ => true
  }

  lemma {:induction false} ValidNumeric(v: AV)
    requires ValidAV(v)
    ensures Numeric(v)
  {
    match v {
      case L(es) =>
        forall i | 0 <= i < |es| ensures Numeric(es[i]) {
          ValidNumeric(es[i]);
        }
      case M(m) =>
        forall k | k in m ensures Numeric(m[k]) {
          ValidNumeric(m[k]);
        }
      case _ =>
    }
  }

  lemma Parses(s: string)
    ensures DecOf(s).Some? <==> PartsOf(s).Some?
  {
  }

  lemma SameNumberSets(x: seq<string>, y: seq<string>)
    ensures SameNumbers(x, y) <==> Numeric(NS(x)) && NormalOf(NS(x)) == NormalOf(NS(y))
  {
    hide DecOf, PartsOf;
    forall i | 0 <= i < |x| ensures DecOf(x[i]).Some? <==> PartsOf(x[i]).Some? {
      Parses(x[i]);
    }
    assert Triples(x) == seq(|x|, i requires 0 <= i < |x| => DecOf(x[i]));
    assert Triples(y) == seq(|y|, i requires 0 <= i < |y| => DecOf(y[i]));
    if Numeric(NS(x)) && NormalOf(NS(x)) == NormalOf(NS(y)) {
      SameTriplesParse(x, y);
    }
  }

  /** The two values are equal exactly as their normal forms say. */
  ghost predicate Alike(a: AV, b: AV) {
    AvEqual(a, b) <==> Numeric(a) && NormalOf(a) == NormalOf(b)
  }

  lemma SameLists(x: seq<AV>, y: seq<AV>)
    requires forall i :: 0 <= i < |x| && i < |y| ==> Alike(x[i], y[i])
    ensures Alike(L(x), L(y))
  {
    var a, b := NormalOf(L(x)).elems, NormalOf(L(y)).elems;
    assert |a| == |x| && forall i :: 0 <= i < |x| ==> a[i] == NormalOf(x[i]);
    assert |b| == |y| && forall i :: 0 <= i < |y| ==> b[i] == NormalOf(y[i]);
    assert a == b <==> |x| == |y| && forall i :: 0 <= i < |x| ==> NormalOf(x[i]) == NormalOf(y[i]);
  }

  lemma SameEntries<T>(a: map<string, T>, b: map<string, T>)
    requires a.Keys == b.Keys && forall k :: k in a ==> a[k] == b[k]
    ensures a == b
  {
  }

  lemma NormalMap(m: map<string, AV>) returns (a: map<string, Normal>)
    ensures NormalOf(M(m)) == Map(a) && a.Keys == m.Keys && forall k :: k in m ==> a[k] == NormalOf(m[k])
  {
    a := map k | k in m :: NormalOf(m[k]);
  }

  lemma NormalMaps(x: map<string, AV>, y: map<string, AV>)
    ensures NormalOf(M(x)) == NormalOf(M(y)) <==>
            x.Keys == y.Keys && forall k :: k in x ==> NormalOf(x[k]) == NormalOf(y[k])
  {
    hide NormalOf;
    var a := NormalMap(x);
    var b := NormalMap(y);
    if x.Keys == y.Keys && forall k :: k in x ==> NormalOf(x[k]) == NormalOf(y[k]) {
      SameEntries(a, b);
    }
  }

  lemma SameMaps(x: map<string, AV>, y: map<string, AV>)
    requires forall k :: k in x && k in y ==> Alike(x[k], y[k])
    ensures Alike(M(x), M(y))
  {
    hide NormalOf;
    NormalMaps(x, y);
    assert |x| == |x.Keys| && |y| == |y.Keys|;
    if |x| == |y| && forall k :: k in x ==> k in y {
      SubsetOfSameSize(x.Keys, y.Keys);
    }
  }

  /** Two values are equal exactly when their numbers can be read and they have the same normal form. */
  lemma {:induction false} EqualIffSameNormal(a: AV, b: AV)
    ensures AvEqual(a, b) <==> Numeric(a) && NormalOf(a) == NormalOf(b)
    decreases a
  {
    hide DecOf, NumbersEqual, SameNumbers, PartsOf;
    match (a, b) {
      case (N(x), N(y)) =>
        NumbersEqualIffSameTriple(x, y);
        Parses(x);
      case (NS(x), NS(y)) => SameNumberSets(x, y);
      case (L(x), L(y)) =>
        hide NormalOf, AvEqual, Numeric;
        forall i | 0 <= i < |x| && i < |y| ensures Alike(x[i], y[i]) {
          EqualIffSameNormal(x[i], y[i]);
        }
        SameLists(x, y);
      case (M(x), M(y)) =>
        hide NormalOf, AvEqual, Numeric;
        forall k | k in x && k in y ensures Alike(x[k], y[k]) {
          EqualIffSameNormal(x[k], y[k]);
        }
        SameMaps(x, y);
      case _ =>
    }
  }

  /** On valid values equality is sameness of normal forms. */
  lemma ValidEqualIff(a: AV, b: AV)
    requires ValidAV(a)
    ensures AvEqual(a, b) <==> NormalOf(a) == NormalOf(b)
  {
    EqualIffSameNormal(a, b);
    ValidNumeric(a);
  }
}
