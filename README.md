# Caching policies (0x01-caching), modelled in Dafny

This project models the six in-memory caches of `0x01-caching`. They share one
interface:

- `put(key, item)` ignores a `None` key or item.
- `get(key)` returns the stored item or `None`.

All bounded caches have a capacity of `MAX_ITEMS = 4`. What differs is how each
cache orders its live keys, and so which key it discards (`DISCARD:`) when a new
key arrives at a full cache:

- **BasicCache** (`Basic`): an unbounded dictionary.
- **FIFOCache** (`Fifo`): insertion order. The new key is assigned first; if that makes five entries, the oldest key is popped.
- **LIFOCache** (`Lifo`): a new key at a full cache first pops the key at the end. Every put then moves its key to the end.
- **LRUCache** / **MRUCache** (`Lru`, `Mru`): a new key and a read key move to the front. A put on an existing key only replaces its item and keeps its place. LRU discards the back, MRU the front.
- **LFUCache** (`Lfu`): beside the store it keeps a list `keys_freq` of `[key, count]` pairs.
  - A read, or a put on an existing key, pops the key's pair, raises its count by one, and reinserts the pair. The position comes from the two-loop positional scan of `__reorder_items`.
  - A new key enters with count 0, in front of the first count-0 pair.
  - A new key at a full cache discards the key of the last pair.

Each source file is one module. The OrderedDict the order-keeping caches use is
modelled by `Ordered`: the keys in order (`seq`) beside a key-to-item `map`, with
`d[k] = v` (`SetItem`), `popitem(last)` (`PopItem`) and `move_to_end(k, last)`
(`MoveKey`).

Each cache is modelled twice:

- **As a function** on state values (`PutStep`, `GetStep`). Its contract states the policy:
  - the new store (`StoresPut`);
  - when a key is discarded (`EvictsOnlyWhenFull`);
  - which key is discarded;
  - where the put or read key goes, and that every other key keeps its relative order;
  - the bookkeeping invariant (`Valid`, `ValidState`).
- **As a class** whose fields the methods update step by step, as the Python does. Each method ensures its new state and result equal that function applied to the old state. In LFU, the scan loops are methods with loop invariants, proved equal to the specification functions `InsertPosition` and `FirstAtMost`.

Keys are `int` and items are `string`. Python's `None` is `Option.None`. The
`DISCARD:` line is the `Option<Key>` that `Put` returns, and the `print_cache`
dump is the sequence of lines `PrintCache` returns.

The LFU model follows the code as written, not the textbook LFU policy. The
textbook policy evicts the least-recent key among those with the lowest count.
The scan reinserts a pair at position 0 whenever every earlier pair has a higher
count than the new one. So `[[a,5],[b,0]]` followed by `get(b)` gives
`[[b,1],[a,5]]`, and a frequently used key can end up last and be discarded
next. `Lfu.ScenarioEvictsFrequentKey` proves such a case: a key with count 5 is
discarded while a key with count 1 stays. The model proves no
"victim has the minimum count" property, since it does not hold for this code.

For the usual four-puts, three-reads example, the code does pick the textbook
victim: the older of the two unread keys. `PutNewInFront`, `ScenarioReadFirst`,
`ScenarioReadFirstAgain`, `ScenarioReadSecond` and `ScenarioEvictsOldestUnread`
prove this step by step.

## Model

| member | source | states |
|---|---|---|
| Base.Lookup | 0x01-caching/0-basic_cache.py:21 | `cache_data.get(key, None)`: an item exactly when the key is non-`None` and present, and then the stored one |
| Base.SortedKeys | 0x01-caching/base_caching.py:21 | `sorted(keys)`: every key exactly once, nothing else, in strictly ascending order |
| Base.PrintCache | 0x01-caching/base_caching.py:17-22 | the dump is the header `Current cache:` followed by exactly one line per live key; as a function it leaves the store unchanged |
| Base.PrintCacheListsSortedKeys | 0x01-caching/base_caching.py:21-22 | after the header, line `i` is `key: item` for the `i`-th key in ascending order, with the item stored for that key |
| Base.BaseCaching.constructor | 0x01-caching/base_caching.py:12-15 | a new cache holds no entries |
| Base.BaseCaching.Put | 0x01-caching/base_caching.py:24-28 | always fails with `NotImplementedError("put must be implemented in your cache class")` |
| Base.BaseCaching.Get | 0x01-caching/base_caching.py:30-34 | always fails with `NotImplementedError("get must be implemented in your cache class")` |
| Basic.PutStep | 0x01-caching/0-basic_cache.py:11-16 | a `None` key or item changes nothing; otherwise the key set grows by the key (no limit), the key maps to the item, other keys keep their items, and the size grows by one exactly for a new key |
| Basic.PutThenGet | 0x01-caching/0-basic_cache.py:16-21 | after `put(k, v)`, `get(k)` returns `v`, also after a later put of another key |
| Basic.BasicCache.constructor | 0x01-caching/base_caching.py:12-15 | a new cache holds no entries |
| Basic.BasicCache.Put | 0x01-caching/0-basic_cache.py:11-16 | the store becomes `PutStep` of the old store |
| Basic.BasicCache.Get | 0x01-caching/0-basic_cache.py:18-21 | returns `Lookup` of the key and changes nothing |
| Ordered.SetItem | 0x01-caching/1-fifo_cache.py:24 | `d[k] = v` on an OrderedDict: a new key is appended, an existing key keeps its place, the order stays consistent with the map |
| Ordered.PopItem | 0x01-caching/1-fifo_cache.py:26 | `popitem(last)` removes and returns the last (or first) key, from both the order and the map |
| Ordered.MoveKey | 0x01-caching/2-lifo_cache.py:30 | `move_to_end(k, last)` puts `k` at the end (or front); the map and the other keys' relative order are unchanged |
| Fifo.PutWithRoom | 0x01-caching/1-fifo_cache.py:24-25 | without overflow nothing is discarded; a new key is appended, an existing one keeps its place |
| Fifo.PutOverflow | 0x01-caching/1-fifo_cache.py:24-27 | a new key at a full cache is appended and then the first key is popped and reported; it is live and not the key put |
| Fifo.PutStep | 0x01-caching/1-fifo_cache.py:19-27 | `None` is a no-op; the new store; a key is discarded exactly when a new key meets a full cache, and it is the first key; an overwrite keeps the order; a new key ends up last; at most `MAX_ITEMS` entries |
| Fifo.FIFOCache.constructor | 0x01-caching/1-fifo_cache.py:13-17 | a new cache holds no entries |
| Fifo.FIFOCache.Put | 0x01-caching/1-fifo_cache.py:19-27 | new state and discarded key equal `Fifo.PutStep` of the old state |
| Fifo.FIFOCache.Get | 0x01-caching/1-fifo_cache.py:29-32 | returns `Lookup` and changes neither order nor contents |
| Lifo.PutWithRoom | 0x01-caching/2-lifo_cache.py:29-30 | without overflow nothing is discarded; the key ends up last and the other keys keep their relative order |
| Lifo.PutOverflow | 0x01-caching/2-lifo_cache.py:25-30 | a new key at a full cache first pops the last key, then is assigned and placed last |
| Lifo.PutStep | 0x01-caching/2-lifo_cache.py:19-30 | `None` is a no-op; the new store; a discard happens exactly for a new key at a full cache and removes the old last key; the put key is always last afterwards; the others keep their relative order; at most `MAX_ITEMS` entries |
| Lifo.LIFOCache.constructor | 0x01-caching/2-lifo_cache.py:13-17 | a new cache holds no entries |
| Lifo.LIFOCache.Put | 0x01-caching/2-lifo_cache.py:19-30 | new state and discarded key equal `Lifo.PutStep` of the old state |
| Lifo.LIFOCache.Get | 0x01-caching/2-lifo_cache.py:32-36 | returns `Lookup` and changes nothing |
| Lru.PutStep | 0x01-caching/3-lru_cache.py:18-31 | `None` is a no-op; the new store; a discard happens exactly for a new key at a full cache and removes the last key; a new key goes to the front; an existing key keeps the order unchanged; at most `MAX_ITEMS` entries |
| Lru.GetStep | 0x01-caching/3-lru_cache.py:33-39 | a present key moves to the front, the others keep their relative order, its item is returned; an absent or `None` key returns `None` and changes nothing |
| Lru.GetProtectsFromEviction | 0x01-caching/3-lru_cache.py:25-38 | on a full cache, a key just read is not the one the next new key discards |
| Lru.LRUCache.constructor | 0x01-caching/3-lru_cache.py:12-16 | a new cache holds no entries |
| Lru.LRUCache.Put | 0x01-caching/3-lru_cache.py:18-31 | new state and discarded key equal `Lru.PutStep` of the old state |
| Lru.LRUCache.Get | 0x01-caching/3-lru_cache.py:33-39 | new state and result equal `Lru.GetStep` of the old state |
| Mru.PutStep | 0x01-caching/4-mru_cache.py:18-31 | as for LRU, but the discarded key is the first key of the order |
| Mru.GetStep | 0x01-caching/4-mru_cache.py:33-39 | a present key moves to the front, the others keep their relative order, its item is returned; an absent or `None` key returns `None` and changes nothing |
| Mru.GetMarksVictim | 0x01-caching/4-mru_cache.py:25-38 | on a full cache, a key just read is exactly the one the next new key discards |
| Mru.MRUCache.constructor | 0x01-caching/4-mru_cache.py:12-16 | a new cache holds no entries |
| Mru.MRUCache.Put | 0x01-caching/4-mru_cache.py:18-31 | new state and discarded key equal `Mru.PutStep` of the old state |
| Mru.MRUCache.Get | 0x01-caching/4-mru_cache.py:33-39 | new state and result equal `Mru.GetStep` of the old state |
| Lfu.EmptyState | 0x01-caching/100-lfu_cache.py:12-17 | a new cache: empty store, empty `keys_freq`, invariant holds |
| Lfu.IndexOfKey | 0x01-caching/100-lfu_cache.py:28-32 | the position of the key's pair in `keys_freq`; no earlier pair has that key |
| Lfu.FirstAtMost | 0x01-caching/100-lfu_cache.py:61-65 | the first position whose count is at most the bound, or the length when there is none |
| Lfu.InsertPosition | 0x01-caching/100-lfu_cache.py:37-42 | where the scan reinserts a key found at position `p` with new count `f`: if some earlier count is at most `f`, the first such position (every count before it is above `f`); if every earlier count is above `f`, position 0; never after `p` |
| Lfu.Reorder | 0x01-caching/100-lfu_cache.py:19-45 | same length and same key set, still distinct; the key's pair lands exactly at `InsertPosition` for its old position and new count, which is never after its old position; its count is one higher; every other pair, with its count, keeps its relative order |
| Lfu.InsertNew | 0x01-caching/100-lfu_cache.py:61-66 | the new key's pair, with count 0, sits at `FirstAtMost(kf, 0)`: every earlier pair has a positive count, and the next pair, if any, has count 0; the other pairs are unchanged |
| Lfu.EvictLast | 0x01-caching/100-lfu_cache.py:54-57 | the last pair's key is a live key and leaves both `keys_freq` and the store |
| Lfu.AdmitNew | 0x01-caching/100-lfu_cache.py:59-66 | a new key is stored, and its pair enters `keys_freq` with count 0 at the first count-0 position (or the end); the other pairs are unchanged |
| Lfu.PutNew | 0x01-caching/100-lfu_cache.py:53-66 | a new key discards the last pair's key exactly when the cache is full; then its pair enters with count 0, at the first count-0 position of the pairs that remain; the others are unchanged |
| Lfu.PutStep | 0x01-caching/100-lfu_cache.py:47-69 | `None` is a no-op; the invariant (`keys_freq` lists each live key once) is kept; the new store; a discard happens exactly for a new key at a full cache and removes the last pair's key; a new key enters with count 0 at the first count-0 position of the remaining pairs; an existing key is counted by `Reorder` |
| Lfu.GetStep | 0x01-caching/100-lfu_cache.py:71-77 | returns `Lookup`; the store is unchanged; a present key is counted by `Reorder`; an absent or `None` key changes nothing |
| Lfu.PutNewInFront | 0x01-caching/100-lfu_cache.py:61-66 | a new key put into a cache with room whose first pair has count 0 (or none) enters at the front |
| Lfu.ScenarioReadFirst | 0x01-caching/100-lfu_cache.py:19-45 | reading the oldest of four count-0 keys moves it, with count 1, to the front |
| Lfu.ScenarioReadFirstAgain | 0x01-caching/100-lfu_cache.py:19-45 | reading it again raises its count to 2 and keeps it in front |
| Lfu.ScenarioReadSecond | 0x01-caching/100-lfu_cache.py:19-45 | reading the second key puts it, with count 1, right behind the count-2 pair and ahead of the unread keys |
| Lfu.ScenarioEvictsOldestUnread | 0x01-caching/100-lfu_cache.py:54-57 | in that scenario the next new key discards the older unread key |
| Lfu.ScenarioReadBehindHigherCounts | 0x01-caching/100-lfu_cache.py:39-42 | reading a count-0 key behind counts 7, 6 and 5 reinserts it, with count 1, at position 0, because every earlier count is above 1 |
| Lfu.ScenarioEvictsFrequentKey | 0x01-caching/100-lfu_cache.py:54-57 | after that read the count-5 key is last, so the next new key discards it |
| Lfu.ScanForKey | 0x01-caching/100-lfu_cache.py:28-36 | the first loop finds the key's position and new count, and collects exactly the earlier positions whose count is below every earlier count, in increasing order |
| Lfu.WalkFindsInsertPosition | 0x01-caching/100-lfu_cache.py:37-42 | walking those positions from the last back stops at `InsertPosition` |
| Lfu.ChooseInsertPos | 0x01-caching/100-lfu_cache.py:37-42 | the second loop returns `InsertPosition` |
| Lfu.FirstZeroIndex | 0x01-caching/100-lfu_cache.py:61-65 | the loop returns the first count-0 position, or the length |
| Lfu.LFUCache.constructor | 0x01-caching/100-lfu_cache.py:12-17 | a new cache is in `EmptyState`: empty store and empty `keys_freq` |
| Lfu.LFUCache.ReorderItems | 0x01-caching/100-lfu_cache.py:19-45 | `keys_freq` becomes `Reorder` of the old list; the store is unchanged |
| Lfu.LFUCache.Put | 0x01-caching/100-lfu_cache.py:47-69 | new state and discarded key equal `Lfu.PutStep` of the old state |
| Lfu.LFUCache.Get | 0x01-caching/100-lfu_cache.py:71-77 | new state and result equal `Lfu.GetStep` of the old state |

## Left out

- Printing. The `DISCARD:` line is the `Option<Key>` that `Put` returns. The `print_cache` dump is the sequence of lines `PrintCache` returns.
- The moment of the `DISCARD:` line is not modelled. FIFO prints it after inserting and the others before. Only the state before and after a put is modelled.
- Python's dynamic typing. Keys are `int` (so the dump can sort them) and items are `string`. A key or item that is not `None` is `Some`.
- `str(key)` in a dump line is modelled for `int` keys only (`DecimalString`).
- The OrderedDict's own implementation. It is a sequence of distinct keys beside a map.
- LFU's `cache_data` is an OrderedDict, but LFU never uses its order. It is modelled as a plain map.
- `MAX_ITEMS` is a class attribute that code could reassign. It is modelled as the constant 4.
- `NotImplementedError` from the base class is a `Failure` value that `BaseCaching.Put` and `BaseCaching.Get` return, not a raised exception.
- The frequency-bucket LFU design (lowest count first, least recent among ties) is not modelled. The code does not implement it, as `Lfu.ScenarioEvictsFrequentKey` shows.
- Concurrency: the caches are single-threaded objects.
