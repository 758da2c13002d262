/** DynamoDB attribute values, their validation and their size (avjson.go). */
module Values {
  import opened Bytes
  import opened Decimal

  datatype AV =
    | S(text: bytes)
    | N(number: string)
    | B(blob: bytes)
    | BOOL(flag: bool)
    | NULL(isNull: bool)
    | SS(texts: seq<bytes>)
    | NS(numbers: seq<string>)
    | BS(blobs: seq<bytes>)
    | L(elems: seq<AV>)
    | M(attrs: map<string, AV>)

  type Item = map<string, AV>

  predicate ValidNumber(s: string) {
    match DecOf(s)
    case None => false
    case Some(d) => d.sign == 0 || (|d.digits| <= 38 && -130 <= d.exp <= 126)
  }

  predicate ValidAV(v: AV) {
    match v
    case N(n) => ValidNumber(n)
    case NULL(b) => b
    case SS(ss) => ss != []
    case NS(ns) => ns != [] && forall i :: 0 <= i < |ns| ==> ValidNumber(ns[i])
    case BS(bs) => bs != []
    case L(es) => forall i :: 0 <= i < |es| ==> ValidAV(es[i])
    case M(m) => forall k :: k in m ==> ValidAV(m[k])
    case _ => true
  }

  predicate ValidItem(item: Item) {
    forall k :: k in item ==> ValidAV(item[k])
  }

  datatype KeyType = KeyS | KeyN | KeyB | NotAKey

  function KeyTypeOf(v: AV): KeyType {
    match v
    case S(_) => KeyS
    case N(_) => KeyN
    case B(_) => KeyB
    case _ => NotAKey
  }

  // ---- sizes ----

  function NumberSize(s: string): nat {
    match DecOf(s)
    case None => 1
    case Some(d) => if d.digits == "" then 1 else (|d.digits| + 1) / 2 + 1
  }

  function SumLengths(ss: seq<bytes>): nat {
    if ss == [] then 0 else SumLengths(ss[..|ss| - 1]) + |ss[|ss| - 1]|
  }

  function SumNumberSizes(ns: seq<string>): nat {
    if ns == [] then 0 else SumNumberSizes(ns[..|ns| - 1]) + NumberSize(ns[|ns| - 1])
  }

  ghost function SumSizes(es: seq<AV>): nat {
    if es == [] then 0 else SumSizes(es[..|es| - 1]) + 1 + Size(es[|es| - 1])
  }

  /** Names and values of the given attributes of a map, added up in an arbitrary order. */
  ghost function NamedSizes(v: AV, names: set<string>): nat
    requires v.M? && names <= v.attrs.Keys
    decreases v, names
  {
    if names == {} then 0
    else
      var k :| k in names;
      |k| + Size(v.attrs[k]) + NamedSizes(v, names - {k})
  }

  ghost function Size(v: AV): nat {
    match v
    case S(t) => |t|
    case N(n) => NumberSize(n)
    case B(b) => |b|
    case BOOL(_) => 1
    case NULL(_) => 1
    case SS(ss) => SumLengths(ss)
    case NS(ns) => SumNumberSizes(ns)
    case BS(bs) => SumLengths(bs)
    case L(es) => 3 + SumSizes(es)
    case M(m) => 3 + |m| + NamedSizes(v, m.Keys)
  }

  ghost function ItemSize(item: Item): nat {
    NamedSizes(M(item), item.Keys)
  }

  /** The order in which a map is iterated does not matter. */
  lemma {:induction false} NamedSizesSplit(v: AV, names: set<string>, k: string)
    requires v.M? && names <= v.attrs.Keys && k in names
    ensures NamedSizes(v, names) == |k| + Size(v.attrs[k]) + NamedSizes(v, names - {k})
    decreases names
  {
    var j :| j in names && NamedSizes(v, names) == |j| + Size(v.attrs[j]) + NamedSizes(v, names - {j});
    if j != k {
      NamedSizesSplit(v, names - {j}, k);
      NamedSizesSplit(v, names - {k}, j);
      assert names - {j} - {k} == names - {k} - {j};
    }
  }

  /** avSize. */
  method SizeOfValue(v: AV) returns (n: nat)
    ensures n == Size(v)
    decreases v, 1
  {
    match v {
      case S(t) => return |t|;
      case N(s) => return NumberSize(s);
      case B(b) => return |b|;
      case BOOL(_) => return 1;
      case NULL(_) => return 1;
      case SS(ss) =>
        n := SizeOfTexts(ss);
      case NS(ns) =>
        n := 0;
        for i := 0 to |ns|
          invariant n == SumNumberSizes(ns[..i])
        {
          assert ns[..i + 1][..i] == ns[..i];
          n := n + NumberSize(ns[i]);
        }
        assert ns[..|ns|] == ns;
      case BS(bs) =>
        n := SizeOfTexts(bs);
      case L(es) =>
        n := 3;
        for i := 0 to |es|
          invariant n == 3 + SumSizes(es[..i])
        {
          assert es[..i + 1][..i] == es[..i];
          var size := SizeOfValue(es[i]);
          n := n + 1 + size;
        }
        assert es[..|es|] == es;
      case M(m) =>
        var named := SizeOfNamed(v);
        n := 3 + |m| + named;
    }
  }

  method SizeOfTexts(ss: seq<bytes>) returns (n: nat)
    ensures n == SumLengths(ss)
  {
    n := 0;
    for i := 0 to |ss|
      invariant n == SumLengths(ss[..i])
    {
      assert ss[..i + 1][..i] == ss[..i];
      n := n + |ss[i]|;
    }
    assert ss[..|ss|] == ss;
  }

  /** The loop over a map that avSize and itemSize share. */
  method SizeOfNamed(v: AV) returns (n: nat)
    requires v.M?
    ensures n == NamedSizes(v, v.attrs.Keys)
    decreases v, 0
  {
    n := 0;
    var left := v.attrs.Keys;
    while left != {}
      invariant left <= v.attrs.Keys
      invariant n + NamedSizes(v, left) == NamedSizes(v, v.attrs.Keys)
      decreases left
    {
      var k :| k in left;
      NamedSizesSplit(v, left, k);
      var size := SizeOfValue(v.attrs[k]);
      n := n + |k| + size;
      left := left - {k};
    }
  }

  /** itemSize. */
  method SizeOfItem(item: Item) returns (n: nat)
    ensures n == ItemSize(item)
  {
    n := SizeOfNamed(M(item));
  }
}
