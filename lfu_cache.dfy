/** LFUCache: beside the store, a list `keys_freq` of `[key, count]` pairs
    that a positional scan reorders on every access; a new key arriving at a
    full cache pushes out whatever pair is last in that list. */
module Lfu {
  import opened Base
  import opened Seqs

  /** One `[key, count]` pair of `keys_freq`. */
  datatype Entry = Entry(key: Key, count: nat)

  /** The store and the count list. */
  datatype State = State(keysFreq: seq<Entry>, data: map<Key, Item>)

  datatype PutResult = PutResult(after: State, discarded: Option<Key>)

  datatype GetResult = GetResult(after: State, value: Option<Item>)

  /** The keys of a count list, in list order. */
  function Keys(kf: seq<Entry>): (r: seq<Key>)
    ensures |r| == |kf|
    ensures forall i :: 0 <= i < |kf| ==> r[i] == kf[i].key
  {
    seq(|kf|, i requires 0 <= i < |kf| => kf[i].key)
  }

  /** The bookkeeping invariant: `keys_freq` holds each key of the store
      exactly once and no other key, and the store has at most `MAX_ITEMS` entries. */
  ghost predicate ValidState(s: State)
  {
    Distinct(Keys(s.keysFreq))
    && (forall k :: k in Keys(s.keysFreq) <==> k in s.data)
    && |s.keysFreq| <= MAX_ITEMS
  }

  /** The state a new cache starts in: no pairs and an empty store. */
  function EmptyState(): (s: State)
    ensures ValidState(s) && s.keysFreq == [] && s.data == map[]
  {
    State([], map[])
  }

  lemma ValidSize(s: State)
    requires ValidState(s)
    ensures |s.data| == |s.keysFreq|
  {
    var ks := Keys(s.keysFreq);
    DistinctCard(ks);
    forall k ensures k in Elems(ks) <==> k in s.data.Keys {
    }
    assert Elems(ks) == s.data.Keys;
  }

  /** `keys_freq.pop(i)`. */
  function Delete(kf: seq<Entry>, i: nat): seq<Entry>
    requires i < |kf|
  {
    kf[..i] + kf[i + 1..]
  }

  /** `keys_freq.insert(i, e)`. */
  function Insert(kf: seq<Entry>, i: nat, e: Entry): seq<Entry>
    requires i <= |kf|
  {
    kf[..i] + [e] + kf[i..]
  }

  /** The count list with the pair of key `k` taken out; every other pair,
      count included, keeps its relative order. */
  function WithoutKey(kf: seq<Entry>, k: Key): seq<Entry>
  {
    if kf == [] then []
    else (if kf[0].key == k then [] else [kf[0]]) + WithoutKey(kf[1..], k)
  }

  /** Taking out a key the list does not hold changes nothing. */
  lemma {:induction false} WithoutKeyAbsent(kf: seq<Entry>, k: Key)
    requires k !in Keys(kf)
    ensures WithoutKey(kf, k) == kf
  {
    if kf != [] {
      assert Keys(kf)[0] == kf[0].key;
      KeysSlice(kf, 1, |kf|);
      assert kf[1..] == kf[1..|kf|];
      WithoutKeyAbsent(kf[1..], k);
      assert [kf[0]] + kf[1..] == kf;
    }
  }

  lemma {:induction false} WithoutKeyConcat(a: seq<Entry>, b: seq<Entry>, k: Key)
    ensures WithoutKey(a + b, k) == WithoutKey(a, k) + WithoutKey(b, k)
  {
    if a == [] {
      assert a + b == b;
    } else {
      assert (a + b)[0] == a[0];
      assert (a + b)[1..] == a[1..] + b;
      WithoutKeyConcat(a[1..], b, k);
    }
  }

  /** The position of the pair of `key`. */
  function IndexOfKey(kf: seq<Entry>, key: Key): (p: nat)
    requires key in Keys(kf)
    ensures p < |kf| && kf[p].key == key
    ensures forall i :: 0 <= i < p ==> kf[i].key != key
  {
    IndexOf(Keys(kf), key)
  }

  /** The first position whose count is at most `bound`, or `|kf|` if there is none. */
  function FirstAtMost(kf: seq<Entry>, bound: nat): (j: nat)
    ensures j <= |kf|
    ensures forall i :: 0 <= i < j ==> kf[i].count > bound
    ensures j < |kf| ==> kf[j].count <= bound
  {
    if kf == [] then 0
    else if kf[0].count <= bound then 0
    else 1 + FirstAtMost(kf[1..], bound)
  }

  /** Where the scan of `__reorder_items` reinserts the key found at `p` with
      new count `f`: the first earlier position whose count is at most `f`,
      and position 0 when every earlier count exceeds `f`. */
  function InsertPosition(kf: seq<Entry>, p: nat, f: nat): (ins: nat)
    requires p <= |kf|
    ensures ins <= p
    ensures (exists j :: 0 <= j < p && kf[j].count <= f) ==>
              ins < p && kf[ins].count <= f && forall i :: 0 <= i < ins ==> kf[i].count > f
    ensures (forall j :: 0 <= j < p ==> kf[j].count > f) ==> ins == 0
  {
    var j := FirstAtMost(kf[..p], f);
    assert forall i :: 0 <= i < p ==> kf[..p][i] == kf[i];
    if j < p then j else 0
  }

  lemma KeysSlice(kf: seq<Entry>, i: nat, j: nat)
    requires i <= j <= |kf|
    ensures Keys(kf[i..j]) == Keys(kf)[i..j]
  {
  }

  lemma KeysAppend(a: seq<Entry>, b: seq<Entry>)
    ensures Keys(a + b) == Keys(a) + Keys(b)
  {
    assert |Keys(a + b)| == |Keys(a) + Keys(b)|;
    forall i | 0 <= i < |a + b| ensures Keys(a + b)[i] == (Keys(a) + Keys(b))[i] {
      if i < |a| { assert (a + b)[i] == a[i]; } else { assert (a + b)[i] == b[i - |a|]; }
    }
  }

  /** In a list of distinct keys, the key at `p` occurs neither before nor after `p`. */
  lemma KeyNotAround(kf: seq<Entry>, p: nat)
    requires Distinct(Keys(kf)) && p < |kf|
    ensures kf[p].key !in Keys(kf[..p]) && kf[p].key !in Keys(kf[p + 1..])
  {
    var ks := Keys(kf);
    KeysSlice(kf, 0, p);
    KeysSlice(kf, p + 1, |kf|);
    assert kf[p + 1..] == kf[p + 1..|kf|];
    assert ks[p] !in ks[..p];
    assert ks[p] !in ks[p + 1..];
  }

  lemma WithoutKeyOwn(e: Entry)
    ensures WithoutKey([e], e.key) == []
  {
    assert [e][1..] == [];
  }

  /** Taking out the pair at `p` leaves the other pairs, and the list without key `kf[p].key`. */
  lemma DeleteFacts(kf: seq<Entry>, p: nat)
    requires Distinct(Keys(kf)) && p < |kf|
    ensures Keys(Delete(kf, p)) == Without(Keys(kf), kf[p].key)
    ensures WithoutKey(kf, kf[p].key) == Delete(kf, p)
  {
    DeleteKeys(kf, p);
    KeyNotAround(kf, p);
    DeleteWithoutKey(kf, p, kf[p].key);
  }

  lemma DeleteKeys(kf: seq<Entry>, p: nat)
    requires Distinct(Keys(kf)) && p < |kf|
    ensures Keys(Delete(kf, p)) == Without(Keys(kf), kf[p].key)
  {
    var ks := Keys(kf);
    WithoutAt(ks, p);
    KeysAppend(kf[..p], kf[p + 1..]);
    KeysSlice(kf, 0, p);
    KeysSlice(kf, p + 1, |kf|);
    assert kf[p + 1..] == kf[p + 1..|kf|];
  }

  /** Taking a key out of a list in which it occurs once, at a known place. */
  lemma WithoutKeySplit(a: seq<Entry>, e: Entry, b: seq<Entry>)
    requires e.key !in Keys(a) && e.key !in Keys(b)
    ensures WithoutKey(a + [e] + b, e.key) == a + b
  {
    var k := e.key;
    calc {
      WithoutKey(a + [e] + b, k);
      { WithoutKeyConcat(a + [e], b, k); }
      WithoutKey(a + [e], k) + WithoutKey(b, k);
      { WithoutKeyConcat(a, [e], k); }
      WithoutKey(a, k) + WithoutKey([e], k) + WithoutKey(b, k);
      { WithoutKeyAbsent(a, k); WithoutKeyAbsent(b, k); WithoutKeyOwn(e); }
      a + [] + b;
      a + b;
    }
  }

  lemma DeleteWithoutKey(kf: seq<Entry>, p: nat, k: Key)
    requires p < |kf| && k == kf[p].key
    requires k !in Keys(kf[..p]) && k !in Keys(kf[p + 1..])
    ensures WithoutKey(kf, k) == Delete(kf, p)
  {
    assert kf == kf[..p] + [kf[p]] + kf[p + 1..];
    WithoutKeySplit(kf[..p], kf[p], kf[p + 1..]);
  }

  /** Inserting the pair of a fresh key at `i` puts it exactly there and changes nothing else. */
  lemma InsertFacts(kf: seq<Entry>, i: nat, e: Entry)
    requires Distinct(Keys(kf)) && e.key !in Keys(kf) && i <= |kf|
    ensures Distinct(Keys(Insert(kf, i, e)))
    ensures forall k :: k in Keys(Insert(kf, i, e)) <==> k in Keys(kf) || k == e.key
    ensures IndexOfKey(Insert(kf, i, e), e.key) == i
    ensures Insert(kf, i, e)[i] == e
    ensures WithoutKey(Insert(kf, i, e), e.key) == kf
  {
    var ks := Keys(kf);
    var r := Insert(kf, i, e);
    InsertKeys(kf, i, e);
    InsertDistinct(ks, i, e.key);
    InsertWithoutKey(kf, i, e);
    assert r[i] == e;
    assert forall j :: 0 <= j < i ==> r[j].key == ks[j];
  }

  lemma InsertKeys(kf: seq<Entry>, i: nat, e: Entry)
    requires i <= |kf|
    ensures Keys(Insert(kf, i, e)) == Keys(kf)[..i] + [e.key] + Keys(kf)[i..]
  {
    KeysAppend(kf[..i] + [e], kf[i..]);
    KeysAppend(kf[..i], [e]);
    KeysSlice(kf, 0, i);
    KeysSlice(kf, i, |kf|);
    assert kf[i..] == kf[i..|kf|];
    assert Keys([e]) == [e.key];
  }

  lemma InsertWithoutKey(kf: seq<Entry>, i: nat, e: Entry)
    requires e.key !in Keys(kf) && i <= |kf|
    ensures WithoutKey(Insert(kf, i, e), e.key) == kf
  {
    KeysSlice(kf, 0, i);
    KeysSlice(kf, i, |kf|);
    assert kf[i..] == kf[i..|kf|];
    WithoutKeySplit(kf[..i], e, kf[i..]);
    assert kf[..i] + kf[i..] == kf;
  }

  /** `__reorder_items(key)`: the pair of `key` is popped, its count raised by
      one, and it is reinserted at `InsertPosition`. */
  function Reorder(kf: seq<Entry>, key: Key): (r: seq<Entry>)
    requires Distinct(Keys(kf)) && key in Keys(kf)
    ensures |r| == |kf|
    ensures Distinct(Keys(r))
    ensures forall k :: k in Keys(r) <==> k in Keys(kf)
    ensures IndexOfKey(r, key) <= IndexOfKey(kf, key)
    ensures IndexOfKey(r, key) == InsertPosition(kf, IndexOfKey(kf, key), kf[IndexOfKey(kf, key)].count + 1)
    ensures r[IndexOfKey(r, key)].count == kf[IndexOfKey(kf, key)].count + 1
    ensures WithoutKey(r, key) == WithoutKey(kf, key)
  {
    var p := IndexOfKey(kf, key);
    var e := Entry(key, kf[p].count + 1);
    var ins := InsertPosition(kf, p, e.count);
    DeleteFacts(kf, p);
    InsertFacts(Delete(kf, p), ins, e);
    Insert(Delete(kf, p), ins, e)
  }

  /** The pair of a new key: count 0, inserted in front of the first pair of
      count 0, or at the end when there is none. */
  function InsertNew(kf: seq<Entry>, key: Key): (r: seq<Entry>)
    requires Distinct(Keys(kf)) && key !in Keys(kf)
    ensures |r| == |kf| + 1
    ensures Distinct(Keys(r))
    ensures forall k :: k in Keys(r) <==> k in Keys(kf) || k == key
    ensures IndexOfKey(r, key) == FirstAtMost(kf, 0)
    ensures r[IndexOfKey(r, key)].count == 0
    ensures forall i :: 0 <= i < IndexOfKey(r, key) ==> r[i].count > 0
    ensures IndexOfKey(r, key) + 1 < |r| ==> r[IndexOfKey(r, key) + 1].count == 0
    ensures WithoutKey(r, key) == kf
  {
    var j := FirstAtMost(kf, 0);
    InsertFacts(kf, j, Entry(key, 0));
    Insert(kf, j, Entry(key, 0))
  }

  /** The eviction branch of `put`: the key of the last pair leaves both the
      store and the count list. */
  function EvictLast(s: State): (r: (State, Key))
    requires ValidState(s) && s.keysFreq != []
    ensures ValidState(r.0)
    ensures r.1 == s.keysFreq[|s.keysFreq| - 1].key && r.1 in s.data
    ensures r.0.keysFreq == s.keysFreq[..|s.keysFreq| - 1]
    ensures r.0.data == s.data - {r.1}
  {
    var n := |s.keysFreq| - 1;
    var last := s.keysFreq[n].key;
    DeleteFacts(s.keysFreq, n);
    assert Delete(s.keysFreq, n) == s.keysFreq[..n];
    (State(s.keysFreq[..n], s.data - {last}), last)
  }

  /** A new key entering a cache with room: its item is stored and its pair
      enters by `InsertNew`. */
  function AdmitNew(s: State, k: Key, v: Item): (r: State)
    requires ValidState(s) && k !in s.data && |s.keysFreq| < MAX_ITEMS
    ensures ValidState(r)
    ensures r.data == s.data[k := v]
    ensures k in Keys(r.keysFreq)
    ensures IndexOfKey(r.keysFreq, k) == FirstAtMost(s.keysFreq, 0)
    ensures r.keysFreq[IndexOfKey(r.keysFreq, k)].count == 0
    ensures WithoutKey(r.keysFreq, k) == s.keysFreq
  {
    State(InsertNew(s.keysFreq, k), s.data[k := v])
  }

  /** The pairs a new key joins: all of them, or all but the last one when
      that one's key was discarded. */
  function Survivors(kf: seq<Entry>, discarded: Option<Key>): seq<Entry>
  {
    if discarded.Some? && kf != [] then kf[..|kf| - 1] else kf
  }

  /** The new-key branch of `put`: evict when full, then admit. */
  function PutNew(s: State, k: Key, v: Item): (r: PutResult)
    requires ValidState(s) && k !in s.data
    ensures ValidState(r.after)
    ensures StoresPut(s.data, k, v, r.after.data, r.discarded)
    ensures EvictsOnlyWhenFull(s.data, Some(k), Some(v), r.discarded)
    ensures r.discarded.Some? ==> r.discarded.value == s.keysFreq[|s.keysFreq| - 1].key
    ensures k in Keys(r.after.keysFreq)
    ensures IndexOfKey(r.after.keysFreq, k) ==
              FirstAtMost(Survivors(s.keysFreq, r.discarded), 0)
    ensures r.after.keysFreq[IndexOfKey(r.after.keysFreq, k)].count == 0
    ensures WithoutKey(r.after.keysFreq, k) ==
              Survivors(s.keysFreq, r.discarded)
  {
    ValidSize(s);
    if |s.data| + 1 > MAX_ITEMS then
      var (kept, last) := EvictLast(s);
      var r := PutResult(AdmitNew(kept, k, v), Some(last));
      StoresPutFromUpdate(s.data, k, v, r.after.data, r.discarded);
      r
    else
      var r := PutResult(AdmitNew(s, k, v), None);
      assert s.data - Evicted(None) == s.data;
      StoresPutFromUpdate(s.data, k, v, r.after.data, r.discarded);
      r
  }

  /** `put`: a new key at a full cache first discards the last pair's key;
      a new key then enters with count 0; an existing key gets its new item
      and the access is counted by `Reorder`. */
  function PutStep(s: State, key: Option<Key>, item: Option<Item>): (r: PutResult)
    requires ValidState(s)
    ensures ValidState(r.after)
    ensures key.None? || item.None? ==> r == PutResult(s, None)
    ensures key.Some? && item.Some? ==> StoresPut(s.data, key.value, item.value, r.after.data, r.discarded)
    ensures EvictsOnlyWhenFull(s.data, key, item, r.discarded)
    ensures r.discarded.Some? ==> r.discarded.value == s.keysFreq[|s.keysFreq| - 1].key
    ensures key.Some? && item.Some? && key.value !in s.data ==> key.value in Keys(r.after.keysFreq)
    ensures key.Some? && item.Some? && key.value !in s.data ==>
              IndexOfKey(r.after.keysFreq, key.value) == FirstAtMost(Survivors(s.keysFreq, r.discarded), 0)
    ensures key.Some? && item.Some? && key.value !in s.data ==>
              r.after.keysFreq[IndexOfKey(r.after.keysFreq, key.value)].count == 0
    ensures key.Some? && item.Some? && key.value !in s.data ==>
              WithoutKey(r.after.keysFreq, key.value) == Survivors(s.keysFreq, r.discarded)
    ensures key.Some? && item.Some? && key.value in s.data ==>
              r.after.keysFreq == Reorder(s.keysFreq, key.value)
  {
    if key.None? || item.None? then PutResult(s, None)
    else if key.value !in s.data then PutNew(s, key.value, item.value)
    else
      var k, v := key.value, item.value;
      var r := PutResult(State(Reorder(s.keysFreq, k), s.data[k := v]), None);
      assert s.data - Evicted(None) == s.data;
      StoresPutFromUpdate(s.data, k, v, r.after.data, r.discarded);
      r
  }

  /** `get`: a present key has its access counted by `Reorder` and its item
      returned; an absent or `None` key returns `None` and changes nothing. */
  function GetStep(s: State, key: Option<Key>): (r: GetResult)
    requires ValidState(s)
    ensures ValidState(r.after)
    ensures r.value == Lookup(s.data, key)
    ensures r.after.data == s.data
    ensures key.Some? && key.value in s.data ==> r.after.keysFreq == Reorder(s.keysFreq, key.value)
    ensures key.None? || key.value !in s.data ==> r.after == s
  {
    if key.Some? && key.value in s.data then
      GetResult(State(Reorder(s.keysFreq, key.value), s.data), Some(s.data[key.value]))
    else
      GetResult(s, None)
  }

  /** A new key put into a cache with room whose first pair has count 0
      (or that is empty) enters at the front of the count list; so keys put
      one after another into an empty cache line up newest first. */
  lemma PutNewInFront(s: State, k: Key, v: Item)
    requires ValidState(s) && k !in s.data && |s.keysFreq| < MAX_ITEMS
    requires s.keysFreq == [] || s.keysFreq[0].count == 0
    ensures PutStep(s, Some(k), Some(v)) == PutResult(State([Entry(k, 0)] + s.keysFreq, s.data[k := v]), None)
  {
    ValidSize(s);
    assert FirstAtMost(s.keysFreq, 0) == 0;
    assert Insert(s.keysFreq, 0, Entry(k, 0)) == [Entry(k, 0)] + s.keysFreq;
  }

  /** `Reorder` of the key at position `p`, spelled out: its pair leaves `p`
      and comes back, one count higher, at `InsertPosition`. */
  lemma ReorderAt(kf: seq<Entry>, k: Key, p: nat)
    requires Distinct(Keys(kf)) && p < |kf| && kf[p].key == k
    ensures k in Keys(kf)
    ensures Reorder(kf, k) ==
              Insert(Delete(kf, p), InsertPosition(kf, p, kf[p].count + 1), Entry(k, kf[p].count + 1))
  {
    assert Keys(kf)[p] == k;
    var q := IndexOfKey(kf, k);
    assert Keys(kf)[q] == k;
  }

  /** Moving the pair at `p` of a four-pair list to position `ins`, as `Reorder` does. */
  lemma MoveInFour(x0: Entry, x1: Entry, x2: Entry, x3: Entry, e: Entry)
    ensures Insert(Delete([x0, x1, x2, x3], 3), 0, e) == [e, x0, x1, x2]
    ensures Insert(Delete([x0, x1, x2, x3], 3), 1, e) == [x0, e, x1, x2]
    ensures Insert(Delete([x0, x1, x2, x3], 0), 0, e) == [e, x1, x2, x3]
  {
    assert Delete([x0, x1, x2, x3], 3) == [x0, x1, x2];
    assert Delete([x0, x1, x2, x3], 0) == [x1, x2, x3];
  }

  /** Then reading the first key moves its pair, now with count 1, to the front. */
  lemma ScenarioReadFirst(s: State, k1: Key, k2: Key, k3: Key, k4: Key)
    requires ValidState(s)
    requires s.keysFreq == [Entry(k4, 0), Entry(k3, 0), Entry(k2, 0), Entry(k1, 0)]
    ensures GetStep(s, Some(k1)).after.keysFreq == [Entry(k1, 1), Entry(k4, 0), Entry(k3, 0), Entry(k2, 0)]
  {
    assert Keys(s.keysFreq) == [k4, k3, k2, k1];
    assert FirstAtMost(s.keysFreq[..3], 1) == 0;
    ReorderAt(s.keysFreq, k1, 3);
    MoveInFour(Entry(k4, 0), Entry(k3, 0), Entry(k2, 0), Entry(k1, 0), Entry(k1, 1));
  }

  /** Reading it again raises its count to 2 and keeps it in front. */
  lemma ScenarioReadFirstAgain(s: State, k1: Key, k2: Key, k3: Key, k4: Key)
    requires ValidState(s)
    requires s.keysFreq == [Entry(k1, 1), Entry(k4, 0), Entry(k3, 0), Entry(k2, 0)]
    ensures GetStep(s, Some(k1)).after.keysFreq == [Entry(k1, 2), Entry(k4, 0), Entry(k3, 0), Entry(k2, 0)]
  {
    ReorderAt(s.keysFreq, k1, 0);
    MoveInFour(Entry(k1, 1), Entry(k4, 0), Entry(k3, 0), Entry(k2, 0), Entry(k1, 2));
  }

  /** Reading the second key puts its pair, with count 1, right behind the
      pair of count 2 and ahead of the unread keys, which keep their order. */
  lemma ScenarioReadSecond(s: State, k1: Key, k2: Key, k3: Key, k4: Key)
    requires ValidState(s)
    requires s.keysFreq == [Entry(k1, 2), Entry(k4, 0), Entry(k3, 0), Entry(k2, 0)]
    ensures GetStep(s, Some(k2)).after.keysFreq == [Entry(k1, 2), Entry(k2, 1), Entry(k4, 0), Entry(k3, 0)]
  {
    assert Keys(s.keysFreq) == [k1, k4, k3, k2];
    assert FirstAtMost(s.keysFreq[..3], 1) == 1;
    ReorderAt(s.keysFreq, k2, 3);
    MoveInFour(Entry(k1, 2), Entry(k4, 0), Entry(k3, 0), Entry(k2, 0), Entry(k2, 1));
  }

  /** A new key put into a full cache discards the key of the last pair,
      whatever the counts. */
  lemma FullPutDiscardsLast(s: State, k: Key, v: Item)
    requires ValidState(s) && |s.keysFreq| == MAX_ITEMS && k !in Keys(s.keysFreq)
    ensures PutStep(s, Some(k), Some(v)).discarded == Some(s.keysFreq[MAX_ITEMS - 1].key)
  {
    ValidSize(s);
  }

  /** A new key then discards the pair now last: the older of the two unread keys. */
  lemma ScenarioEvictsOldestUnread(s: State, k1: Key, k2: Key, k3: Key, k4: Key, k: Key, v: Item)
    requires ValidState(s) && k !in s.data
    requires s.keysFreq == [Entry(k1, 2), Entry(k2, 1), Entry(k4, 0), Entry(k3, 0)]
    ensures PutStep(s, Some(k), Some(v)).discarded == Some(k3)
  {
    FullPutDiscardsLast(s, k, v);
  }

  /** Reading key `b`, whose count 0 sits behind counts 7, 6 and 5: every
      earlier count is above its new count 1, so the scan reinserts it at
      position 0. */
  lemma ScenarioReadBehindHigherCounts(s: State, a: Key, b: Key, c: Key, d: Key)
    requires ValidState(s)
    requires s.keysFreq == [Entry(c, 7), Entry(d, 6), Entry(a, 5), Entry(b, 0)]
    ensures GetStep(s, Some(b)).after.keysFreq == [Entry(b, 1), Entry(c, 7), Entry(d, 6), Entry(a, 5)]
  {
    assert Keys(s.keysFreq) == [c, d, a, b];
    assert InsertPosition(s.keysFreq, 3, 1) == 0;
    ReorderAt(s.keysFreq, b, 3);
    MoveInFour(Entry(c, 7), Entry(d, 6), Entry(a, 5), Entry(b, 0), Entry(b, 1));
  }

  /** The scan reinserts an accessed key at position 0 when every earlier
      count is above its new count: after the read above, the key with count 5
      is last, so the next new key discards it rather than `b`, whose count is 1. */
  lemma ScenarioEvictsFrequentKey(s: State, a: Key, b: Key, c: Key, d: Key, k: Key, v: Item)
    requires ValidState(s) && k !in s.data
    requires s.keysFreq == [Entry(c, 7), Entry(d, 6), Entry(a, 5), Entry(b, 0)]
    ensures GetStep(s, Some(b)).after.keysFreq == [Entry(b, 1), Entry(c, 7), Entry(d, 6), Entry(a, 5)]
    ensures PutStep(GetStep(s, Some(b)).after, Some(k), Some(v)).discarded == Some(a)
  {
    ScenarioReadBehindHigherCounts(s, a, b, c, d);
    var t := GetStep(s, Some(b)).after;
    assert Keys(t.keysFreq) == [b, c, d, a];
    FullPutDiscardsLast(t, k, v);
  }

  /** Position `j` holds a count strictly below every earlier count. */
  ghost predicate IsRecord(kf: seq<Entry>, j: nat)
    requires j < |kf|
  {
    forall l :: 0 <= l < j ==> kf[l].count > kf[j].count
  }

  /** `positions` lists, in increasing order, exactly the record positions before `n`. */
  ghost predicate Records(kf: seq<Entry>, n: nat, positions: seq<nat>)
    requires n <= |kf|
  {
    (forall t :: 0 <= t < |positions| ==> positions[t] < n && IsRecord(kf, positions[t]))
    && (forall t, u :: 0 <= t < u < |positions| ==> positions[t] < positions[u])
    && (forall j :: 0 <= j < n && IsRecord(kf, j) ==> j in positions)
  }

  /** The first loop of `__reorder_items`: finds the key's position and new
      count, and collects `max_positions`, the positions before the key whose
      count is below every earlier one. */
  method ScanForKey(kf: seq<Entry>, key: Key) returns (keyFreq: nat, keyPos: nat, maxPositions: seq<nat>)
    requires key in Keys(kf)
    ensures keyPos == IndexOfKey(kf, key)
    ensures keyFreq == kf[keyPos].count + 1
    ensures Records(kf, keyPos, maxPositions)
  {
    ghost var p := IndexOfKey(kf, key);
    maxPositions := [];
    var i := 0;
    while kf[i].key != key
      invariant 0 <= i <= p
      invariant Records(kf, i, maxPositions)
      invariant i > 0 ==> maxPositions != [] && maxPositions[|maxPositions| - 1] < i
      invariant i > 0 ==> forall j :: 0 <= j < i ==> kf[maxPositions[|maxPositions| - 1]].count <= kf[j].count
      decreases p - i
    {
      if maxPositions == [] {
        maxPositions := maxPositions + [i];
      } else if kf[i].count < kf[maxPositions[|maxPositions| - 1]].count {
        maxPositions := maxPositions + [i];
      }
      i := i + 1;
    }
    keyFreq, keyPos := kf[i].count + 1, i;
  }

  /** Walking the record positions from the last back to the first, the
      reinsertion point the walk stops at is `InsertPosition`. */
  lemma WalkFindsInsertPosition(kf: seq<Entry>, p: nat, f: nat, positions: seq<nat>, t: nat)
    requires p <= |kf| && Records(kf, p, positions) && t <= |positions|
    requires forall u :: t <= u < |positions| ==> kf[positions[u]].count <= f
    requires t > 0 ==> kf[positions[t - 1]].count > f
    ensures (if t < |positions| then positions[t] else 0) == InsertPosition(kf, p, f)
  {
    var j := FirstAtMost(kf[..p], f);
    assert forall i :: 0 <= i < j ==> kf[i].count > f;
    assert t < |positions| ==> positions[t] < p && kf[positions[t]].count <= f;
    if j < p {
      assert kf[j].count <= f;
      assert IsRecord(kf, j);
      var u :| 0 <= u < |positions| && positions[u] == j;
      if u < t {
        assert false;
      }
      assert positions[t] <= j;
      assert kf[positions[t]].count <= f;
    } else if t < |positions| {
      assert false;
    }
  }

  /** The second loop of `__reorder_items`: walks `max_positions` reversed
      (largest position first) and keeps the last position whose count does
      not exceed the new count. */
  method ChooseInsertPos(kf: seq<Entry>, keyPos: nat, keyFreq: nat, maxPositions: seq<nat>)
      returns (insertPos: nat)
    requires keyPos <= |kf| && Records(kf, keyPos, maxPositions)
    ensures insertPos == InsertPosition(kf, keyPos, keyFreq)
  {
    insertPos := 0;
    var t := |maxPositions|;
    while t > 0
      invariant 0 <= t <= |maxPositions|
      invariant forall u :: t <= u < |maxPositions| ==> kf[maxPositions[u]].count <= keyFreq
      invariant insertPos == if t < |maxPositions| then maxPositions[t] else 0
    {
      var pos := maxPositions[t - 1];
      if kf[pos].count > keyFreq {
        break;
      }
      insertPos := pos;
      t := t - 1;
    }
    WalkFindsInsertPosition(kf, keyPos, keyFreq, maxPositions, t);
  }

  /** The loop of `put` that finds where a new key's pair goes: the first
      pair of count 0, or the end of the list. */
  method FirstZeroIndex(kf: seq<Entry>) returns (insertIndex: nat)
    ensures insertIndex == FirstAtMost(kf, 0)
  {
    insertIndex := |kf|;
    var i := 0;
    while i < |kf|
      invariant 0 <= i <= |kf|
      invariant forall l :: 0 <= l < i ==> kf[l].count != 0
    {
      if kf[i].count == 0 {
        insertIndex := i;
        break;
      }
      i := i + 1;
    }
  }

  class LFUCache {
    var cache_data: map<Key, Item>
    var keys_freq: seq<Entry>

    ghost predicate Valid()
      reads this
    {
      ValidState(State(keys_freq, cache_data))
    }

    constructor ()
      ensures Valid() && State(keys_freq, cache_data) == EmptyState()
    {
      var s := EmptyState();
      cache_data, keys_freq := s.data, s.keysFreq;
    }

    /** `__reorder_items`. */
    method ReorderItems(key: Key)
      requires Valid() && key in cache_data
      modifies this
      ensures keys_freq == Reorder(old(keys_freq), key)
      ensures cache_data == old(cache_data)
    {
      var keyFreq, keyPos, maxPositions := ScanForKey(keys_freq, key);
      var insertPos := ChooseInsertPos(keys_freq, keyPos, keyFreq, maxPositions);
      keys_freq := Delete(keys_freq, keyPos);
      keys_freq := Insert(keys_freq, insertPos, Entry(key, keyFreq));
    }

    method Put(key: Option<Key>, item: Option<Item>) returns (discarded: Option<Key>)
      requires Valid()
      modifies this
      ensures Valid()
      ensures PutResult(State(keys_freq, cache_data), discarded) == PutStep(old(State(keys_freq, cache_data)), key, item)
    {
      if key.None? || item.None? {
        return None;
      }
      var k, v := key.value, item.value;
      ghost var before := State(keys_freq, cache_data);
      ValidSize(before);
      discarded := None;
      if k !in cache_data {
        ghost var room := before;
        if |cache_data| + 1 > MAX_ITEMS {
          var lfuKey := keys_freq[|keys_freq| - 1].key;
          cache_data := cache_data - {lfuKey};
          keys_freq := keys_freq[..|keys_freq| - 1];
          discarded := Some(lfuKey);
          room := EvictLast(before).0;
          assert State(keys_freq, cache_data) == room;
        }
        cache_data := cache_data[k := v];
        var insertIndex := FirstZeroIndex(keys_freq);
        keys_freq := Insert(keys_freq, insertIndex, Entry(k, 0));
        assert State(keys_freq, cache_data) == AdmitNew(room, k, v);
        assert PutResult(State(keys_freq, cache_data), discarded) == PutNew(before, k, v);
      } else {
        cache_data := cache_data[k := v];
        ReorderItems(k);
      }
      assert PutResult(State(keys_freq, cache_data), discarded) == PutStep(before, key, item);
    }

    method Get(key: Option<Key>) returns (r: Option<Item>)
      requires Valid()
      modifies this
      ensures Valid()
      ensures GetResult(State(keys_freq, cache_data), r) == GetStep(old(State(keys_freq, cache_data)), key)
    {
      if key.Some? && key.value in cache_data {
        ReorderItems(key.value);
      }
      r := if key.Some? && key.value in cache_data then Some(cache_data[key.value]) else None;
    }
  }
}
