/**
 * The JavaScript `Map` objects the address-history page builds: a map from string keys together
 * with the insertion order its `keys()` and `entries()` iterate in.
 */
module OrderedMaps {
  import opened Wrappers
  import opened Sequences

  datatype OrderedMap<V> = OrderedMap(order: seq<string>, entries: map<string, V>)

  /** Every key is in the order exactly once, and the order holds nothing else. */
  ghost predicate Valid<V>(m: OrderedMap<V>) {
    Distinct(m.order) && (forall k :: k in m.order <==> k in m.entries)
  }

  /** `new Map()`. */
  function Empty<V>(): (m: OrderedMap<V>)
    ensures Valid(m) && m.order == [] && m.entries == map[]
  {
    OrderedMap([], map[])
  }

  /** `Map.prototype.set`: a new key goes to the end of the order, an existing key keeps its place. */
  function Set<V>(m: OrderedMap<V>, k: string, v: V): (r: OrderedMap<V>)
    requires Valid(m)
    ensures Valid(r)
    ensures r.entries == m.entries[k := v]
    ensures r.order == if k in m.entries then m.order else m.order + [k]
  {
    OrderedMap(if k in m.entries then m.order else m.order + [k], m.entries[k := v])
  }

  /** `Map.prototype.size` is the length of the insertion order. */
  lemma SizeIsOrderLength<V>(m: OrderedMap<V>)
    requires Valid(m)
    ensures |m.entries| == |m.order|
  {
    DistinctCardinality(m.order);
    assert m.entries.Keys == set k | k in m.order;
  }

  /** The entries `e` are `e0` after setting the pairs `ps` in turn. */
  ghost predicate SetAllEntries<V>(e0: map<string, V>, ps: seq<(string, V)>, e: map<string, V>) {
    && (forall k :: k in e <==> k in e0 || k in Keys(ps))
    && (forall k | LastKeyIndex(ps, k).Some? :: k in e && e[k] == ps[LastKeyIndex(ps, k).value].1)
    && (forall k | k in e0 && LastKeyIndex(ps, k).None? :: e[k] == e0[k])
  }

  lemma SetAllEntriesStep<V>(e0: map<string, V>, ps: seq<(string, V)>, e: map<string, V>, p: (string, V))
    requires SetAllEntries(e0, ps, e)
    ensures SetAllEntries(e0, ps + [p], e[p.0 := p.1])
  {
    KeysSnoc(ps, p);
    forall j ensures LastKeyIndex(ps + [p], j) == if p.0 == j then Some(|ps|) else LastKeyIndex(ps, j) {
      LastKeyIndexSnoc(ps, p, j);
    }
  }

  lemma SetAllOrderStep<V>(order0: seq<string>, ps: seq<(string, V)>, m: OrderedMap<V>, p: (string, V))
    requires Valid(m) && m.order == Dedup(order0 + Keys(ps))
    ensures Set(m, p.0, p.1).order == Dedup(order0 + Keys(ps + [p]))
  {
    KeysSnoc(ps, p);
    assert order0 + Keys(ps + [p]) == (order0 + Keys(ps)) + [p.0];
    DedupSnoc(order0 + Keys(ps), p.0);
  }

  /** What `SetAll`'s loop keeps: `m` is `m0` after setting the pairs `done`. */
  ghost predicate SetAllInv<V>(m0: OrderedMap<V>, done: seq<(string, V)>, m: OrderedMap<V>) {
    Valid(m) && m.order == Dedup(m0.order + Keys(done)) && SetAllEntries(m0.entries, done, m.entries)
  }

  /** One turn of `SetAll`'s loop. */
  lemma SetAllStep<V>(m0: OrderedMap<V>, done: seq<(string, V)>, m: OrderedMap<V>, p: (string, V))
    requires SetAllInv(m0, done, m)
    ensures Valid(m) && SetAllInv(m0, done + [p], Set(m, p.0, p.1))
  {
    SetAllOrderStep(m0.order, done, m, p);
    SetAllEntriesStep(m0.entries, done, m.entries, p);
  }

  /**
   * Sets every pair of `groups` in turn, starting from `m0`: the loops that fill a map with
   * `map.set(group.workOrderId, group.value)`. A key keeps the value of its last pair.
   */
  method SetAll<V>(m0: OrderedMap<V>, groups: seq<(string, V)>) returns (m: OrderedMap<V>)
    requires Valid(m0)
    ensures Valid(m)
    ensures m.order == Dedup(m0.order + Keys(groups))
    ensures forall k :: k in m.entries <==> k in m0.entries || k in Keys(groups)
    ensures forall k | LastKeyIndex(groups, k).Some? ::
              k in m.entries && m.entries[k] == groups[LastKeyIndex(groups, k).value].1
    ensures forall k | k in m0.entries && LastKeyIndex(groups, k).None? :: m.entries[k] == m0.entries[k]
  {
    m := m0;
    assert m0.order + Keys(groups[..0]) == m0.order;
    DedupOfDistinct(m0.order);
    var i := 0;
    while i < |groups|
      invariant 0 <= i <= |groups|
      invariant SetAllInv(m0, groups[..i], m)
    {
      var p := groups[i];
      PrefixSnoc(groups, i);
      SetAllStep(m0, groups[..i], m, p);
      m := Set(m, p.0, p.1);
      i := i + 1;
    }
    assert groups[..i] == groups;
  }

  /** The entries `e` are the buckets of `items`. */
  ghost predicate GroupByEntries<T>(items: seq<T>, key: T -> Option<string>, e: map<string, seq<T>>) {
    && (forall k :: k in e <==> k in PresentKeys(items, key))
    && (forall k | k in e :: e[k] == Bucket(items, key, k))
  }

  /** One push: the bucket a keyed item goes to, created when it is the first of its key. */
  function Push<T>(m: OrderedMap<seq<T>>, k: string, x: T): (r: OrderedMap<seq<T>>)
    requires Valid(m)
    ensures Valid(r)
    ensures r.order == if k in m.entries then m.order else m.order + [k]
    ensures r.entries == m.entries[k := (if k in m.entries then m.entries[k] else []) + [x]]
  {
    var m1 := if k in m.entries then m else Set(m, k, []);
    Set(m1, k, m1.entries[k] + [x])
  }

  /** After an item with key `k`, the buckets of the other keys are unchanged. */
  lemma OtherBucketsUnchanged<T>(items: seq<T>, key: T -> Option<string>, e: map<string, seq<T>>, x: T, k: string)
    requires GroupByEntries(items, key, e) && key(x) == Some(k)
    ensures forall j | j in e && j != k :: e[j] == Bucket(items + [x], key, j)
  {
    forall j | j in e && j != k ensures e[j] == Bucket(items + [x], key, j) {
      BucketSnoc(items, x, key, j);
    }
  }

  /** After an item with key `k`, the keys are the old ones and `k`. */
  lemma PushedKeys<T>(items: seq<T>, key: T -> Option<string>, e: map<string, seq<T>>, x: T, k: string, v: seq<T>)
    requires GroupByEntries(items, key, e) && key(x) == Some(k)
    ensures forall j :: j in e[k := v] <==> j in PresentKeys(items + [x], key)
  {
    PresentKeysSnoc(items, x, key);
    assert PresentKeys(items + [x], key) == PresentKeys(items, key) + [k];
  }

  /** After an item with key `k`, its bucket has the item appended. */
  lemma PushedBucket<T>(items: seq<T>, key: T -> Option<string>, e: map<string, seq<T>>, x: T, k: string)
    requires GroupByEntries(items, key, e) && key(x) == Some(k)
    ensures (if k in e then e[k] else []) + [x] == Bucket(items + [x], key, k)
  {
    BucketKeyPresent(items, key, k);
    BucketSnoc(items, x, key, k);
  }

  /** Pushing an item that has key `k` keeps the buckets right. */
  lemma GroupByEntriesKeyed<T>(items: seq<T>, key: T -> Option<string>, e: map<string, seq<T>>, x: T, k: string,
                               bucket: seq<T>)
    requires GroupByEntries(items, key, e) && key(x) == Some(k)
    requires bucket == if k in e then e[k] else []
    ensures GroupByEntries(items + [x], key, e[k := bucket + [x]])
  {
    PushedKeys(items, key, e, x, k, bucket + [x]);
    PushedBucket(items, key, e, x, k);
    OtherBucketsUnchanged(items, key, e, x, k);
  }

  /** The order after pushing an item with key `k`. */
  lemma GroupByOrderKeyed<T>(items: seq<T>, key: T -> Option<string>, m: OrderedMap<seq<T>>, x: T, k: string)
    requires Valid(m) && m.order == Dedup(PresentKeys(items, key)) && key(x) == Some(k)
    requires forall j :: j in m.entries <==> j in PresentKeys(items, key)
    ensures Push(m, k, x).order == Dedup(PresentKeys(items + [x], key))
  {
    PresentKeysSnoc(items, x, key);
    assert PresentKeys(items + [x], key) == PresentKeys(items, key) + [k];
    DedupSnoc(PresentKeys(items, key), k);
  }

  /** Skipping an item without a key keeps the buckets right. */
  lemma GroupByStepUnkeyed<T>(items: seq<T>, key: T -> Option<string>, e: map<string, seq<T>>, x: T)
    requires GroupByEntries(items, key, e) && key(x).None?
    ensures GroupByEntries(items + [x], key, e)
    ensures PresentKeys(items + [x], key) == PresentKeys(items, key)
  {
    PresentKeysSnoc(items, x, key);
    forall j | j in e ensures e[j] == Bucket(items + [x], key, j) {
      BucketSnoc(items, x, key, j);
    }
  }

  /** What `GroupBy`'s loop keeps: `m` holds the buckets of `done`. */
  ghost predicate GroupByInv<T>(done: seq<T>, key: T -> Option<string>, m: OrderedMap<seq<T>>) {
    Valid(m) && m.order == Dedup(PresentKeys(done, key)) && GroupByEntries(done, key, m.entries)
  }

  /** One turn of `GroupBy`'s loop for an item with a key. */
  lemma GroupByStepKeyed<T>(done: seq<T>, key: T -> Option<string>, m: OrderedMap<seq<T>>, x: T, k: string)
    requires GroupByInv(done, key, m) && key(x) == Some(k)
    ensures Valid(m) && GroupByInv(done + [x], key, Push(m, k, x))
  {
    GroupByOrderKeyed(done, key, m, x, k);
    GroupByEntriesKeyed(done, key, m.entries, x, k, if k in m.entries then m.entries[k] else []);
  }

  /** One turn of `GroupBy`'s loop for an item without a key. */
  lemma GroupByStepSkip<T>(done: seq<T>, key: T -> Option<string>, m: OrderedMap<seq<T>>, x: T)
    requires GroupByInv(done, key, m) && key(x).None?
    ensures GroupByInv(done + [x], key, m)
  {
    GroupByStepUnkeyed(done, key, m.entries, x);
  }

  /**
   * Appends every item that has a key to the bucket of that key, creating the bucket on first use:
   * the loops that fill a map with `map.get(key)!.push(item)` or `acc[key].push(item)`.
   */
  method GroupBy<T>(items: seq<T>, key: T -> Option<string>) returns (m: OrderedMap<seq<T>>)
    ensures Valid(m)
    ensures m.order == Dedup(PresentKeys(items, key))
    ensures forall k :: k in m.entries <==> k in PresentKeys(items, key)
    ensures forall k | k in m.entries :: m.entries[k] == Bucket(items, key, k)
  {
    m := Empty();
    var i := 0;
    while i < |items|
      invariant 0 <= i <= |items|
      invariant GroupByInv(items[..i], key, m)
    {
      var x := items[i];
      var k := key(x);
      PrefixSnoc(items, i);
      if k.Some? {
        GroupByStepKeyed(items[..i], key, m, x, k.value);
        m := Push(m, k.value, x);
      } else {
        GroupByStepSkip(items[..i], key, m, x);
      }
      i := i + 1;
    }
    assert items[..i] == items;
  }
}
