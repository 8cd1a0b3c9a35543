/** Sequences of distinct keys: the order an OrderedDict keeps its keys in. */
module Seqs {
  import opened Base

  /** No key occurs twice. */
  predicate Distinct(s: seq<Key>)
  {
    forall i, j :: 0 <= i < j < |s| ==> s[i] != s[j]
  }

  function Elems(s: seq<Key>): set<Key>
  {
    set x | x in s
  }

  /** `s` with `x` taken out; every other key keeps its relative order. */
  function Without(s: seq<Key>, x: Key): (r: seq<Key>)
    ensures forall y :: y in r <==> y in s && y != x
    ensures Distinct(s) ==> Distinct(r)
    ensures x !in s ==> r == s
  {
    if s == [] then []
    else
      var rest := Without(s[1..], x);
      if s[0] == x then rest
      else
        assert Distinct(s) ==> s[0] !in s[1..];
        [s[0]] + rest
  }

  /** The position of the first occurrence of `x`. */
  function IndexOf(s: seq<Key>, x: Key): (i: nat)
    requires x in s
    ensures i < |s| && s[i] == x
    ensures forall j :: 0 <= j < i ==> s[j] != x
  {
    if s[0] == x then 0 else 1 + IndexOf(s[1..], x)
  }

  /** Putting a fresh key anywhere into a sequence of distinct keys keeps them distinct. */
  lemma InsertDistinct(s: seq<Key>, i: nat, x: Key)
    requires Distinct(s) && x !in s && i <= |s|
    ensures Distinct(s[..i] + [x] + s[i..])
    ensures forall y :: y in s[..i] + [x] + s[i..] <==> y in s || y == x
  {
    var r := s[..i] + [x] + s[i..];
    assert |r| == |s| + 1;
    // The position in `s` that each position of `r` other than `i` came from.
    forall a, b | 0 <= a < b < |r| ensures r[a] != r[b] {
      var a' := if a < i then a else a - 1;
      var b' := if b < i then b else b - 1;
      if a == i {
        assert r[b] == s[b'];
      } else if b == i {
        assert r[a] == s[a'];
      } else {
        assert r[a] == s[a'] && r[b] == s[b'] && a' < b';
      }
    }
    forall y ensures y in r <==> y in s || y == x {
      if y in s {
        var j :| 0 <= j < |s| && s[j] == y;
        if j < i { assert r[j] == y; } else { assert r[j + 1] == y; }
      }
      if y in r {
        var j :| 0 <= j < |r| && r[j] == y;
        if j < i { assert s[j] == y; } else if j > i { assert s[j - 1] == y; }
      }
    }
  }

  /** A sequence with no repeats has as many distinct keys as positions. */
  lemma {:induction false} DistinctCard(s: seq<Key>)
    requires Distinct(s)
    ensures |Elems(s)| == |s|
  {
    if s != [] {
      assert Distinct(s[1..]);
      DistinctCard(s[1..]);
      assert Elems(s) == {s[0]} + Elems(s[1..]);
      assert s[0] !in Elems(s[1..]);
    }
  }

  lemma {:induction false} WithoutConcat(a: seq<Key>, b: seq<Key>, x: Key)
    ensures Without(a + b, x) == Without(a, x) + Without(b, x)
  {
    if a == [] {
      assert a + b == b;
    } else {
      assert (a + b)[0] == a[0];
      assert (a + b)[1..] == a[1..] + b;
      WithoutConcat(a[1..], b, x);
    }
  }

  /** Taking a key out of a sequence of distinct keys is deleting its position. */
  lemma WithoutAt(s: seq<Key>, i: nat)
    requires Distinct(s) && i < |s|
    ensures Without(s, s[i]) == s[..i] + s[i + 1..]
    ensures |Without(s, s[i])| == |s| - 1
  {
    assert s == s[..i] + ([s[i]] + s[i + 1..]);
    WithoutConcat(s[..i], [s[i]] + s[i + 1..], s[i]);
    WithoutConcat([s[i]], s[i + 1..], s[i]);
    assert s[i] !in s[..i];
    assert s[i] !in s[i + 1..];
  }

  lemma AppendDistinct(w: seq<Key>, x: Key)
    requires Distinct(w) && x !in w
    ensures Distinct(w + [x])
  {
    forall i, j | 0 <= i < j < |w| + 1 ensures (w + [x])[i] != (w + [x])[j] {
      if j == |w| { assert (w + [x])[i] == w[i]; }
    }
  }

  lemma PrependDistinct(x: Key, w: seq<Key>)
    requires Distinct(w) && x !in w
    ensures Distinct([x] + w)
  {
    forall i, j | 0 <= i < j < |w| + 1 ensures ([x] + w)[i] != ([x] + w)[j] {
      assert ([x] + w)[j] == w[j - 1];
      if i > 0 { assert ([x] + w)[i] == w[i - 1]; }
    }
  }

  /** OrderedDict `move_to_end(x, last=True)`. */
  function MoveToEnd(s: seq<Key>, x: Key): (r: seq<Key>)
    ensures Distinct(s) ==> Distinct(r)
    ensures forall y :: y in r <==> y in s || y == x
    ensures |r| > 0 && r[|r| - 1] == x
    ensures Without(r, x) == Without(s, x)
  {
    var w := Without(s, x);
    WithoutConcat(w, [x], x);
    assert Without([x], x) == [];
    if Distinct(s) then
      AppendDistinct(w, x);
      w + [x]
    else
      w + [x]
  }

  /** OrderedDict `move_to_end(x, last=False)`. */
  function MoveToFront(s: seq<Key>, x: Key): (r: seq<Key>)
    ensures Distinct(s) ==> Distinct(r)
    ensures forall y :: y in r <==> y in s || y == x
    ensures |r| > 0 && r[0] == x
    ensures Without(r, x) == Without(s, x)
  {
    var w := Without(s, x);
    WithoutConcat([x], w, x);
    assert Without([x], x) == [];
    if Distinct(s) then
      PrependDistinct(x, w);
      [x] + w
    else
      [x] + w
  }
}
