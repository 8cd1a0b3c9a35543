/** BasicCache: an unbounded dictionary with no eviction. */
module Basic {
  import opened Base

  /** The store after `put(key, item)`. */
  function PutStep(data: map<Key, Item>, key: Option<Key>, item: Option<Item>): (r: map<Key, Item>)
    ensures key.None? || item.None? ==> r == data
    ensures key.Some? && item.Some? ==> StoresPut(data, key.value, item.value, r, None)
    ensures key.Some? && item.Some? ==>
              |r| == if key.value in data then |data| else |data| + 1
  {
    if key.None? || item.None? then data else data[key.value := item.value]
  }

  /** A lookup after a put of a non-`None` pair finds that item, whatever the
      store held before, and a later put of another key does not disturb it. */
  lemma PutThenGet(data: map<Key, Item>, k: Key, v: Item, other: Option<Key>, w: Option<Item>)
    requires other != Some(k)
    ensures Lookup(PutStep(data, Some(k), Some(v)), Some(k)) == Some(v)
    ensures Lookup(PutStep(PutStep(data, Some(k), Some(v)), other, w), Some(k)) == Some(v)
  {
  }

  class BasicCache {
    var cache_data: map<Key, Item>

    constructor ()
      ensures cache_data == map[]
    {
      cache_data := map[];
    }

    method Put(key: Option<Key>, item: Option<Item>)
      modifies this
      ensures cache_data == PutStep(old(cache_data), key, item)
    {
      if key.None? || item.None? {
        return;
      }
      cache_data := cache_data[key.value := item.value];
    }

    method Get(key: Option<Key>) returns (r: Option<Item>)
      ensures r == Lookup(cache_data, key)
    {
      r := if key.Some? && key.value in cache_data then Some(cache_data[key.value]) else None;
    }
  }
}
