/** Byte strings and their lexicographic order: the order of bytes.Compare and of
    SQLite BLOB columns. */
module Bytes {

  type byte = x: int | 0 <= x < 256
  type bytes = seq<byte>

  /** bytes.Compare: -1, 0 or 1. */
  function Compare(a: bytes, b: bytes): (c: int)
    ensures -1 <= c <= 1
  {
    if a == [] && b == [] then 0
    else if a == [] then -1
    else if b == [] then 1
    else if a[0] < b[0] then -1
    else if a[0] > b[0] then 1
    else Compare(a[1..], b[1..])
  }

  /** The two strings differ at a position that both have. */
  predicate Split(a: bytes, b: bytes) {
    a != [] && b != [] && (a[0] != b[0] || Split(a[1..], b[1..]))
  }

  /** Bitwise complement of every byte. */
  function Complement(a: bytes): (r: bytes)
    ensures |r| == |a|
  {
    seq(|a|, i requires 0 <= i < |a| => 255 - a[i])
  }

  lemma {:induction false} CompareZero(a: bytes, b: bytes)
    ensures Compare(a, b) == 0 <==> a == b
  {
    if a != [] && b != [] && a[0] == b[0] {
      CompareZero(a[1..], b[1..]);
      assert a == [a[0]] + a[1..] && b == [b[0]] + b[1..];
    }
  }

  lemma {:induction false} CompareAntisymmetric(a: bytes, b: bytes)
    ensures Compare(a, b) == -Compare(b, a)
  {
    if a != [] && b != [] && a[0] == b[0] {
      CompareAntisymmetric(a[1..], b[1..]);
    }
  }

  lemma {:induction false} CompareTransitive(a: bytes, b: bytes, c: bytes)
    requires Compare(a, b) <= 0 && Compare(b, c) <= 0
    ensures Compare(a, c) <= 0
    ensures Compare(a, b) < 0 || Compare(b, c) < 0 ==> Compare(a, c) < 0
  {
    if a != [] && b != [] && c != [] && a[0] == b[0] == c[0] {
      CompareTransitive(a[1..], b[1..], c[1..]);
    }
  }

  lemma {:induction false} ComparePrefix(p: bytes, a: bytes, b: bytes)
    ensures Compare(p + a, p + b) == Compare(a, b)
    ensures Split(p + a, p + b) == Split(a, b)
  {
    if p == [] {
      assert p + a == a && p + b == b;
    } else {
      ComparePrefix(p[1..], a, b);
      assert (p + a)[1..] == p[1..] + a && (p + b)[1..] == p[1..] + b;
    }
  }

  lemma {:induction false} NoSplitFromExtension(a: bytes, x: bytes)
    ensures !Split(a, a + x) && !Split(a + x, a)
  {
    if a != [] {
      NoSplitFromExtension(a[1..], x);
      assert (a + x)[1..] == a[1..] + x;
    }
  }

  lemma SplitNotPrefix(a: bytes, b: bytes)
    requires Split(a, b)
    ensures !(a <= b) && !(b <= a)
  {
    if a <= b {
      assert b == a + b[|a|..];
      NoSplitFromExtension(a, b[|a|..]);
    } else if b <= a {
      assert a == b + a[|b|..];
      NoSplitFromExtension(b, a[|b|..]);
    }
  }

  /** Once split, what follows is irrelevant. */
  lemma {:induction false} SplitDecides(a: bytes, b: bytes, x: bytes, y: bytes)
    requires Split(a, b)
    ensures Split(a + x, b + y) && Compare(a + x, b + y) == Compare(a, b) != 0
  {
    assert (a + x)[0] == a[0] && (b + y)[0] == b[0];
    if a[0] == b[0] {
      SplitDecides(a[1..], b[1..], x, y);
      assert (a + x)[1..] == a[1..] + x && (b + y)[1..] == b[1..] + y;
    }
  }

  lemma {:induction false} ComplementReverses(a: bytes, b: bytes)
    requires Split(a, b)
    ensures Split(Complement(a), Complement(b))
    ensures Compare(Complement(a), Complement(b)) == -Compare(a, b)
  {
    if a[0] == b[0] {
      ComplementReverses(a[1..], b[1..]);
      assert Complement(a)[1..] == Complement(a[1..]);
      assert Complement(b)[1..] == Complement(b[1..]);
    }
  }
}
