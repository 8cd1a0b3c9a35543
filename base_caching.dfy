/** The shared base of every cache: the capacity, the key and item types,
    the `get` lookup, the `print_cache` dump and the abstract `put`/`get`. */
module Base {

  /** The capacity every bounded cache enforces. */
  const MAX_ITEMS: nat := 4

  /** Keys are ordered (the dump sorts them); items are opaque text. */
  type Key = int
  type Item = string

  /** Python's `None` for a key, an item or a lookup result. */
  datatype Option<T> = None | Some(value: T)

  /** The failure the base class raises for an operation a subclass must supply. */
  datatype NotImplemented = NotImplementedError(message: string)

  datatype Result<T> = Success(value: T) | Failure(error: NotImplemented)

  /** `cache_data.get(key, None)`: the stored item, or `None` for an absent
      key; `None` is never a key, so looking it up gives `None` too. */
  function Lookup(data: map<Key, Item>, key: Option<Key>): (r: Option<Item>)
    ensures r.Some? <==> key.Some? && key.value in data
    ensures r.Some? ==> r.value == data[key.value]
  {
    if key.Some? && key.value in data then Some(data[key.value]) else None
  }

  /** The key named by an eviction notice, as a set (empty when nothing was discarded). */
  function Evicted(discarded: Option<Key>): set<Key>
  {
    if discarded.Some? then {discarded.value} else {}
  }

  /** The store after a successful `put(k, v)` that discarded `discarded`:
      `k` maps to `v`, the key set is the old one plus `k` minus the
      discarded key, and every other surviving key keeps its item. */
  ghost predicate StoresPut(before: map<Key, Item>, k: Key, v: Item, after: map<Key, Item>, discarded: Option<Key>)
  {
    after.Keys == before.Keys + {k} - Evicted(discarded)
    && k in after && after[k] == v
    && (forall j :: j in after && j != k ==> j in before && after[j] == before[j])
  }

  /** Removing the discarded key and then setting `k := v` stores `k := v`. */
  lemma StoresPutFromUpdate(before: map<Key, Item>, k: Key, v: Item, after: map<Key, Item>, discarded: Option<Key>)
    requires discarded.Some? ==> discarded.value != k
    requires after == (before - Evicted(discarded))[k := v]
    ensures StoresPut(before, k, v, after, discarded)
  {
    assert after.Keys == (before.Keys - Evicted(discarded)) + {k};
  }

  /** A put discards a key exactly when a new key arrives at a full cache,
      and the discarded key is a live key other than the one being put. */
  ghost predicate EvictsOnlyWhenFull(before: map<Key, Item>, key: Option<Key>, item: Option<Item>, discarded: Option<Key>)
  {
    (discarded.Some? <==> key.Some? && item.Some? && key.value !in before && |before| == MAX_ITEMS)
    && (discarded.Some? ==> discarded.value in before && discarded.value != key.value)
  }

  lemma {:induction false} MinExists(keys: set<Key>)
    requires keys != {}
    ensures exists m :: m in keys && forall k :: k in keys ==> m <= k
    decreases |keys|
  {
    if forall y :: y !in keys {
      assert false;
    }
    var x :| x in keys;
    var rest := keys - {x};
    if rest == {} {
      forall k | k in keys ensures x <= k {
        assert k !in rest;
      }
    } else {
      MinExists(rest);
      var m :| m in rest && forall k :: k in rest ==> m <= k;
      var least := if x < m then x else m;
      forall k | k in keys ensures least <= k {
        if k != x { assert k in rest; }
      }
      assert least in keys;
    }
  }

  /** The smallest key of a non-empty key set. */
  function MinKey(keys: set<Key>): (m: Key)
    requires keys != {}
    ensures m in keys
    ensures forall k :: k in keys ==> m <= k
  {
    MinExists(keys);
    var m :| m in keys && forall k :: k in keys ==> m <= k;
    m
  }

  /** A key below every key of a strictly ascending sequence can go in front of it. */
  lemma ConsAscending(m: Key, rest: seq<Key>)
    requires forall k :: k in rest ==> m < k
    requires forall i, j :: 0 <= i < j < |rest| ==> rest[i] < rest[j]
    ensures forall i, j :: 0 <= i < j < |[m] + rest| ==> ([m] + rest)[i] < ([m] + rest)[j]
    ensures forall k :: k in [m] + rest <==> k == m || k in rest
  {
    var r := [m] + rest;
    forall i, j | 0 <= i < j < |r| ensures r[i] < r[j] {
      assert r[j] == rest[j - 1] && rest[j - 1] in rest;
      if i > 0 { assert r[i] == rest[i - 1]; } else { assert r[i] == m; }
    }
  }

  /** `sorted(keys)`: every key exactly once, in strictly ascending order. */
  function SortedKeys(keys: set<Key>): (r: seq<Key>)
    ensures |r| == |keys|
    ensures forall k :: k in r <==> k in keys
    ensures forall i, j :: 0 <= i < j < |r| ==> r[i] < r[j]
    decreases |keys|
  {
    if keys == {} then []
    else
      var m := MinKey(keys);
      var rest := SortedKeys(keys - {m});
      assert forall k :: k in rest ==> m < k;
      ConsAscending(m, rest);
      [m] + rest
  }

  function DigitChar(d: nat): char
    requires d < 10
  {
    "0123456789"[d]
  }

  function Digits(n: nat): string
    decreases n
  {
    if n < 10 then [DigitChar(n)] else Digits(n / 10) + [DigitChar(n % 10)]
  }

  /** `str(n)` for a Python int: decimal digits, with a leading minus when negative. */
  function DecimalString(n: int): string
  {
    if n < 0 then "-" + Digits(-n) else Digits(n)
  }

  /** One dump line, `"{}: {}".format(key, item)`. */
  function DumpLine(key: Key, item: Item): string
  {
    DecimalString(key) + ": " + item
  }

  lemma KeyCount(data: map<Key, Item>)
    ensures |data.Keys| == |data|
  {
  }

  /** One dump line per key of `keys`, in that order. */
  function DumpLines(keys: seq<Key>, data: map<Key, Item>): (lines: seq<string>)
    requires forall k :: k in keys ==> k in data
    ensures |lines| == |keys|
    ensures forall i :: 0 <= i < |keys| ==> lines[i] == DumpLine(keys[i], data[keys[i]])
  {
    seq(|keys|, i requires 0 <= i < |keys| => DumpLine(keys[i], data[keys[i]]))
  }

  /** The lines `print_cache` writes for a store: the header, then one line
      per live key. */
  function PrintCache(data: map<Key, Item>): (lines: seq<string>)
    ensures |lines| == |data| + 1
    ensures lines[0] == "Current cache:"
  {
    var keys := SortedKeys(data.Keys);
    KeyCount(data);
    ["Current cache:"] + DumpLines(keys, data)
  }

  /** After the header the dump lists the live keys in strictly ascending
      order, each exactly once and with its stored item. */
  lemma PrintCacheListsSortedKeys(data: map<Key, Item>)
    ensures var keys := SortedKeys(data.Keys);
      |keys| == |data| &&
      forall i :: 0 <= i < |keys| ==>
        keys[i] in data && PrintCache(data)[i + 1] == DumpLine(keys[i], data[keys[i]])
  {
    var keys := SortedKeys(data.Keys);
    KeyCount(data);
    HeaderThenLines("Current cache:", DumpLines(keys, data));
  }

  /** Past a one-line header, line `i + 1` is line `i` of the body. */
  lemma HeaderThenLines(header: string, body: seq<string>)
    ensures forall i :: 0 <= i < |body| ==> ([header] + body)[i + 1] == body[i]
  {
  }

  /** The base class: an empty dictionary, and `put`/`get` that always fail. */
  class BaseCaching {
    var cache_data: map<Key, Item>

    constructor ()
      ensures cache_data == map[]
    {
      cache_data := map[];
    }

    method Put(key: Option<Key>, item: Option<Item>) returns (r: Result<()>)
      ensures r == Failure(NotImplementedError("put must be implemented in your cache class"))
    {
      r := Failure(NotImplementedError("put must be implemented in your cache class"));
    }

    method Get(key: Option<Key>) returns (r: Result<Option<Item>>)
      ensures r == Failure(NotImplementedError("get must be implemented in your cache class"))
    {
      r := Failure(NotImplementedError("get must be implemented in your cache class"));
    }
  }
}
