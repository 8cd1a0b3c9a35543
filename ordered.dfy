/** The OrderedDict every order-keeping cache (FIFO, LIFO, LRU, MRU, and LFU's
    store) keeps as `cache_data`: its keys in order and its key-to-item map,
    with the three operations the caches call on it. */
module Ordered {
  import opened Base
  import opened Seqs

  datatype State = State(order: seq<Key>, data: map<Key, Item>)

  /** What a `put` hands back: the new store and the `DISCARD` notice, if any. */
  datatype PutResult = PutResult(after: State, discarded: Option<Key>)

  /** What a `get` hands back: the new store and the looked-up item. */
  datatype GetResult = GetResult(after: State, value: Option<Item>)

  /** The order lists every key of the map exactly once and nothing else. */
  ghost predicate Consistent(s: State)
  {
    Distinct(s.order) && (forall k :: k in s.order <==> k in s.data)
  }

  /** The cache invariant: a consistent OrderedDict of at most `MAX_ITEMS` entries. */
  ghost predicate Valid(s: State)
  {
    Consistent(s) && |s.order| <= MAX_ITEMS
  }

  /** The store and the order have the same size. */
  lemma ConsistentSize(s: State)
    requires Consistent(s)
    ensures |s.data| == |s.order|
  {
    DistinctCard(s.order);
    assert Elems(s.order) == s.data.Keys;
  }

  /** `d[k] = v`: a new key is appended at the end, an existing key keeps its place. */
  function SetItem(s: State, k: Key, v: Item): (r: State)
    requires Consistent(s)
    ensures Consistent(r)
    ensures r.data == s.data[k := v]
    ensures r.order == if k in s.data then s.order else s.order + [k]
    ensures Without(r.order, k) == Without(s.order, k)
    ensures |r.data| == if k in s.data then |s.data| else |s.data| + 1
  {
    ConsistentSize(s);
    if k in s.data then State(s.order, s.data[k := v])
    else
      assert Distinct(s.order + [k]) by {
        assert forall i :: 0 <= i < |s.order| ==> (s.order + [k])[i] == s.order[i];
      }
      WithoutConcat(s.order, [k], k);
      assert Without([k], k) == [];
      State(s.order + [k], s.data[k := v])
  }

  /** `d.popitem(last)`: takes out the last key (or the first when `last` is
      false) together with its item, and returns that key. */
  function PopItem(s: State, last: bool): (r: (State, Key))
    requires Consistent(s) && s.order != []
    ensures Consistent(r.0)
    ensures r.1 == if last then s.order[|s.order| - 1] else s.order[0]
    ensures r.0.order == if last then s.order[..|s.order| - 1] else s.order[1..]
    ensures r.0.order == Without(s.order, r.1)
    ensures r.0.data == s.data - {r.1}
  {
    var i := if last then |s.order| - 1 else 0;
    var k := s.order[i];
    WithoutAt(s.order, i);
    assert s.order[..i] + s.order[i + 1..] == if last then s.order[..|s.order| - 1] else s.order[1..];
    (State(Without(s.order, k), s.data - {k}), k)
  }

  /** `d.move_to_end(k, last)`: moves a present key to the end (or to the front
      when `last` is false); the other keys keep their relative order. */
  function MoveKey(s: State, k: Key, last: bool): (r: State)
    requires Consistent(s) && k in s.data
    ensures Consistent(r)
    ensures r.data == s.data
    ensures r.order == if last then MoveToEnd(s.order, k) else MoveToFront(s.order, k)
    ensures |r.order| > 0 && r.order[if last then |r.order| - 1 else 0] == k
    ensures Without(r.order, k) == Without(s.order, k)
    ensures |r.order| == |s.order|
  {
    var i :| 0 <= i < |s.order| && s.order[i] == k;
    WithoutAt(s.order, i);
    State(if last then MoveToEnd(s.order, k) else MoveToFront(s.order, k), s.data)
  }
}
