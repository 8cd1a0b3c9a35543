/** MRUCache: the most recently used key sits at the front of the order; a
    new key arriving at a full cache pushes out the key at the front. */
module Mru {
  import opened Base
  import opened Seqs
  import opened Ordered

  /** `put`: a new key first pops the first key if the cache is full, then is
      assigned and moved to the front; an existing key only gets its new
      item and keeps its place. */
  function PutStep(s: State, key: Option<Key>, item: Option<Item>): (r: PutResult)
    requires Valid(s)
    ensures Valid(r.after)
    ensures key.None? || item.None? ==> r == PutResult(s, None)
    ensures key.Some? && item.Some? ==> StoresPut(s.data, key.value, item.value, r.after.data, r.discarded)
    ensures EvictsOnlyWhenFull(s.data, key, item, r.discarded)
    ensures r.discarded.Some? ==> r.discarded.value == s.order[0]
    ensures key.Some? && item.Some? && key.value in s.data ==> r.after.order == s.order
    ensures key.Some? && item.Some? && key.value !in s.data ==>
              r.after.order == [key.value] + if r.discarded.Some? then s.order[1..] else s.order
  {
    if key.None? || item.None? then PutResult(s, None)
    else
      var k, v := key.value, item.value;
      ConsistentSize(s);
      if k in s.data then
        var r := PutResult(SetItem(s, k, v), None);
        assert s.data - Evicted(None) == s.data;
        StoresPutFromUpdate(s.data, k, v, r.after.data, r.discarded);
        r
      else if |s.data| + 1 <= MAX_ITEMS then
        var r := PutResult(MoveKey(SetItem(s, k, v), k, false), None);
        assert s.data - Evicted(None) == s.data;
        StoresPutFromUpdate(s.data, k, v, r.after.data, r.discarded);
        r
      else
        var popped := PopItem(s, false);
        var r := PutResult(MoveKey(SetItem(popped.0, k, v), k, false), Some(popped.1));
        StoresPutFromUpdate(s.data, k, v, r.after.data, r.discarded);
        r
  }

  /** `get`: a present key moves to the front and its item is returned; an
      absent or `None` key returns `None` and changes nothing. */
  function GetStep(s: State, key: Option<Key>): (r: GetResult)
    requires Valid(s)
    ensures Valid(r.after)
    ensures r.value == Lookup(s.data, key)
    ensures r.after.data == s.data
    ensures key.Some? && key.value in s.data ==>
              r.after.order[0] == key.value && Without(r.after.order, key.value) == Without(s.order, key.value)
    ensures key.None? || key.value !in s.data ==> r.after == s
  {
    if key.Some? && key.value in s.data then
      GetResult(MoveKey(s, key.value, false), Some(s.data[key.value]))
    else
      GetResult(s, None)
  }

  /** A key just read is the next victim: on a full cache, a `get` of a live
      key followed by a put of a new key discards exactly that key. */
  lemma GetMarksVictim(s: State, k: Key, j: Key, v: Item)
    requires Valid(s) && |s.data| == MAX_ITEMS && k in s.data && j !in s.data
    ensures PutStep(GetStep(s, Some(k)).after, Some(j), Some(v)).discarded == Some(k)
  {
    var read := GetStep(s, Some(k)).after;
    ConsistentSize(read);
  }

  class MRUCache {
    var cache_data: State

    ghost predicate Valid()
      reads this
    {
      Ordered.Valid(cache_data)
    }

    constructor ()
      ensures Valid() && cache_data == State([], map[])
    {
      cache_data := State([], map[]);
    }

    method Put(key: Option<Key>, item: Option<Item>) returns (discarded: Option<Key>)
      requires Valid()
      modifies this
      ensures Valid()
      ensures PutResult(cache_data, discarded) == PutStep(old(cache_data), key, item)
    {
      if key.None? || item.None? {
        return None;
      }
      discarded := None;
      ConsistentSize(cache_data);
      if key.value !in cache_data.data {
        if |cache_data.data| + 1 > MAX_ITEMS {
          var popped := PopItem(cache_data, false);
          cache_data, discarded := popped.0, Some(popped.1);
        }
        cache_data := SetItem(cache_data, key.value, item.value);
        cache_data := MoveKey(cache_data, key.value, false);
      } else {
        cache_data := SetItem(cache_data, key.value, item.value);
      }
      assert PutResult(cache_data, discarded) == PutStep(old(cache_data), key, item);
    }

    method Get(key: Option<Key>) returns (r: Option<Item>)
      requires Valid()
      modifies this
      ensures Valid()
      ensures GetResult(cache_data, r) == GetStep(old(cache_data), key)
    {
      if key.Some? && key.value in cache_data.data {
        cache_data := MoveKey(cache_data, key.value, false);
      }
      r := if key.Some? && key.value in cache_data.data then Some(cache_data.data[key.value]) else None;
      assert GetResult(cache_data, r) == GetStep(old(cache_data), key);
    }
  }
}
