/** Prefix ranges over keys: successor and begins_with (keyenc.go). */
module KeyRanges {
  import opened Wrappers
  import opened Bytes
  import opened Values
  import opened KeyEncoding

  /** The value of successor(b): the last byte below 0xFF incremented, what follows it dropped. */
  function PrefixBound(b: bytes): (r: Option<bytes>)
    ensures r.Some? ==> r.value != []
  {
    if b == [] then None
    else
      var init, last := b[..|b| - 1], b[|b| - 1];
      if last != 0xFF then Some(init + [last + 1]) else PrefixBound(init)
  }

  method Successor(b: bytes) returns (r: Option<bytes>)
    ensures r == PrefixBound(b)
  {
    var out := new byte[|b|](i requires 0 <= i < |b| => b[i]);
    var i := |b| - 1;
    assert b[..|b|] == b;
    while i >= 0
      invariant -1 <= i < |b|
      invariant out[..] == b
      invariant PrefixBound(b) == PrefixBound(b[..i + 1])
    {
      if out[i] != 0xFF {
        out[i] := out[i] + 1;
        assert b[..i + 1][..i] == b[..i];
        assert out[..i + 1] == b[..i] + [b[i] + 1];
        return Some(out[..i + 1]);
      }
      assert b[..i + 1][..i] == b[..i];
      i := i - 1;
    }
    return None;
  }

  /** b <= s < successor(b), where an absent successor is no upper bound. */
  predicate InPrefixRange(b: bytes, s: bytes) {
    Compare(b, s) <= 0 && (PrefixBound(b).Some? ==> Compare(s, PrefixBound(b).value) < 0)
  }

  lemma {:induction false} PrefixBoundHead(x: byte, b: bytes)
    ensures PrefixBound([x] + b) ==
              match PrefixBound(b)
              case Some(c) => Some([x] + c)
              case None => if x == 0xFF then None else Some([x + 1])
  {
    if b == [] {
      assert [x] + b == [x] && [x][..0] == [];
      assert x == 0xFF || [x][..0] + [x + 1] == [x + 1];
    } else {
      var init, last := b[..|b| - 1], b[|b| - 1];
      assert ([x] + b)[..|b|] == [x] + init;
      PrefixBoundHead(x, init);
      assert last == 0xFF || [x] + init + [last + 1] == [x] + (init + [last + 1]);
    }
  }

  /** The range is exactly the strings that start with b. */
  lemma {:induction false} PrefixRangeExact(b: bytes, s: bytes)
    ensures InPrefixRange(b, s) <==> b <= s
  {
    if b != [] && s != [] {
      var rest := PrefixBound(b[1..]);
      PrefixBoundHead(b[0], b[1..]);
      assert b == [b[0]] + b[1..] && s == [s[0]] + s[1..];
      if b[0] == s[0] {
        PrefixRangeExact(b[1..], s[1..]);
        PrefixOfConcat([b[0]], b[1..], s[1..]);
        if rest.Some? {
          ComparePrefix([s[0]], s[1..], rest.value);
        }
      } else {
        assert !(b <= s);
        if b[0] < s[0] {
          var bound := PrefixBound(b).value;
          assert bound[0] <= s[0] && (bound[0] == s[0] ==> bound[1..] == []);
        }
      }
    }
  }

  lemma {:induction false} EscapedPrefix(p: bytes, t: bytes)
    ensures Escaped(p) <= Escaped(t) + TERMINATOR <==> p <= t
  {
    if p != [] && t != [] && p[0] == t[0] {
      EscapedPrefix(p[1..], t[1..]);
      var h := if p[0] == 0 then [0, 0xFF] else [p[0]];
      PrefixOfConcat(h, Escaped(p[1..]), Escaped(t[1..]) + TERMINATOR);
      assert Escaped(t) + TERMINATOR == h + (Escaped(t[1..]) + TERMINATOR);
      PrefixOfConcat([p[0]], p[1..], t[1..]);
      assert p == [p[0]] + p[1..] && t == [t[0]] + t[1..];
    } else if p != [] {
      EscapedHead(t);
      var x, y := Escaped(p), Escaped(t) + TERMINATOR;
      var h := if p[0] == 0 then [0, 0xFF] else [p[0]];
      assert x == h + Escaped(p[1..]);
      assert x[0] == p[0] && (p[0] == 0 ==> x[1] == 0xFF);
      assert x[0] != y[0] || (|x| >= 2 && x[1] != y[1]);
      assert t == [] || p[0] != t[0];
    }
  }

  lemma PrefixOfConcat(h: bytes, x: bytes, y: bytes)
    ensures h + x <= h + y <==> x <= y
  {
    if x <= y {
      assert y == x + y[|x|..];
      assert h + y == h + x + y[|x|..];
    }
    if h + x <= h + y {
      assert (h + y)[..|h + x|] == h + y[..|x|];
      assert (h + x)[|h|..] == (h + y[..|x|])[|h|..];
    }
  }

  predicate StartsWith(v: AV, p: AV) {
    match (v, p)
    case (S(x), S(y)) => y <= x
    case (B(x), B(y)) => y <= x
    case _ => false
  }

  /** The byte range of a begins_with prefix selects exactly the keys whose value starts with it. */
  lemma BeginsWithRange(p: AV, v: AV)
    requires KeyPrefix(p).Some? && KeyBytes(v).Some?
    ensures InPrefixRange(KeyPrefix(p).value, KeyBytes(v).value) <==> StartsWith(v, p)
  {
    var pre, key := KeyPrefix(p).value, KeyBytes(v).value;
    PrefixRangeExact(pre, key);
    var tag, t := if p.S? then TAG_S else TAG_B, if p.S? then p.text else p.blob;
    assert pre == [tag] + Escaped(t) by {
      assert TextKey(tag, t) == [tag] + Escaped(t) + TERMINATOR;
    }
    if v.S? == p.S? && v.B? == p.B? {
      var u := if v.S? then v.text else v.blob;
      EscapedPrefix(t, u);
      PrefixOfConcat([tag], Escaped(t), Escaped(u) + TERMINATOR);
    } else {
      assert pre[0] != key[0];
    }
  }
}
