/** Sequences with the same elements in another order. */
module Permutations {
  lemma MultisetWithout<T>(s: seq<T>, i: nat)
    requires i < |s|
    ensures multiset(s) == multiset(s[..i] + s[i + 1..]) + multiset{s[i]}
    ensures multiset(s[..i] + s[i + 1..]) == multiset(s) - multiset{s[i]} && s[i] in multiset(s)
  {
    assert s == s[..i] + ([s[i]] + s[i + 1..]);
  }

  /** The first element of t somewhere in its permutation s, and what both leave over. */
  lemma FindFirst<T>(s: seq<T>, t: seq<T>) returns (i: nat)
    requires multiset(s) == multiset(t) && t != []
    ensures i < |s| && s[i] == t[0] && multiset(s[..i] + s[i + 1..]) == multiset(t[1..])
  {
    assert t[0] in multiset(s);
    i :| 0 <= i < |s| && s[i] == t[0];
    MultisetWithout(s, i);
    assert t == [t[0]] + t[1..];
    assert multiset(t[1..]) == multiset(t) - multiset{t[0]};
  }

  /** The last element of s somewhere in its permutation t. */
  lemma FindLast<T>(s: seq<T>, t: seq<T>) returns (i: nat)
    requires s != [] && multiset(s) == multiset(t)
    ensures i < |t| && t[i] == s[|s| - 1]
    ensures multiset(s[..|s| - 1]) == multiset(t[..i] + t[i + 1..])
  {
    var n := |s| - 1;
    assert s[n] in multiset(t);
    i :| 0 <= i < |t| && t[i] == s[n];
    MultisetWithout(t, i);
    MultisetWithout(s, n);
    assert s[..n] + s[n + 1..] == s[..n];
  }

  lemma SameMembers<T>(s: seq<T>, t: seq<T>, x: T)
    requires multiset(s) == multiset(t)
    ensures x in s <==> x in t
  {
    assert x in multiset(s) <==> x in multiset(t);
  }
}
