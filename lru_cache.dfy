/**
 * The in-memory tier of the embedding cache: `LRUCache` of
 * service/embedding/cache.py, a capacity-bounded `OrderedDict` ordered from
 * least to most recently used.
 *
 * The dictionary is modelled by two fields: `order`, the key order of the
 * `OrderedDict` (front = least recently used), and `store`, the key-to-value
 * mapping. Values are `Option<V>` because the source may store Python `None`,
 * which `get` cannot tell apart from a missing key.
 */
module LruCache {
  import opened Wrappers
  import opened OrderedDicts

  /** `OrderedDict.move_to_end(k)`: `k` becomes the most recently used key. */
  function MoveToEnd<K(==)>(s: seq<K>, k: K): (r: seq<K>)
    ensures Elems(r) == Elems(s) + {k}
    ensures |r| > 0 && r[|r| - 1] == k
  {
    var t := Remove(s, k);
    assert Elems(t + [k]) == Elems(t) + {k};
    t + [k]
  }

  lemma MoveToEndDistinct<K>(s: seq<K>, k: K)
    requires Distinct(s)
    ensures Distinct(MoveToEnd(s, k))
    ensures |MoveToEnd(s, k)| == if k in s then |s| else |s| + 1
  {
    RemoveDistinct(s, k);
    var t := Remove(s, k);
    assert k !in Elems(t);
  }

  /** The `n` most recently used keys: what is left once the eviction loop
      has popped from the least recently used end. */
  function KeepNewest<K(==)>(s: seq<K>, n: nat): (r: seq<K>)
    ensures |r| == if |s| <= n then |s| else n
    ensures r == s[|s| - |r|..]
  {
    if |s| <= n then s else s[|s| - n..]
  }

  /** The key order after `set(key, _)` on a cache bounded by `maxSize`. */
  function SetOrder<K(==)>(order: seq<K>, key: K, maxSize: nat): (r: seq<K>)
    ensures |r| <= maxSize && Elems(r) <= Elems(order) + {key}
    ensures maxSize >= 1 ==> |r| >= 1 && r[|r| - 1] == key
  {
    KeepNewest(MoveToEnd(order, key), maxSize)
  }

  /** The mapping after `set(key, value)`, given the key order it leaves. */
  function SetStore<K(==), V>(store: map<K, V>, key: K, value: V, newOrder: seq<K>): (r: map<K, V>)
    ensures r.Keys == (store.Keys + {key}) * Elems(newOrder)
    ensures key in r ==> r[key] == value
    ensures forall k :: k in r && k != key ==> r[k] == store[k]
  {
    Restrict(store[key := value], newOrder)
  }

  /**
   * A `get` hit moves only the key it touched: apart from `k`, which is now
   * last, the keys keep their relative order.
   */
  lemma MoveToEndKeepsOthers<K>(s: seq<K>, k: K)
    ensures Remove(MoveToEnd(s, k), k) == Remove(s, k)
    ensures MoveToEnd(s, k)[|MoveToEnd(s, k)| - 1] == k
  {
    RemoveAppend(Remove(s, k), [k], k);
    RemoveIdempotent(s, k);
    assert Remove([k], k) == [];
  }

  /**
   * After `set(key, value)` with `maxSize >= 1`, `key` is present with
   * `value` and is the most recently used key, so a following `get(key)`
   * answers `value`.
   */
  lemma SetThenGet<K, V>(order: seq<K>, store: map<K, Option<V>>, key: K, value: Option<V>, maxSize: nat)
    requires maxSize >= 1
    ensures var o := SetOrder(order, key, maxSize);
            |o| > 0 && o[|o| - 1] == key &&
            Lookup(SetStore(store, key, value, o), key) == value
  {
    var m := MoveToEnd(order, key);
    var o := SetOrder(order, key, maxSize);
    assert o == m[|m| - |o|..];
    assert o[|o| - 1] == m[|m| - 1];
  }

  /** Keeping the newest keys never brings in a key nor a duplicate. */
  lemma KeepNewestSub<K>(s: seq<K>, n: nat)
    ensures Elems(KeepNewest(s, n)) <= Elems(s)
    ensures Distinct(s) ==> Distinct(KeepNewest(s, n))
  {
    var o := KeepNewest(s, n);
    var d := |s| - |o|;
    forall x | x in o ensures x in s {
      var i :| 0 <= i < |o| && o[i] == x;
      assert s[d + i] == x;
    }
    if Distinct(s) {
      forall i, j | 0 <= i < j < |o| ensures o[i] != o[j] {
        assert o[i] == s[d + i] && o[j] == s[d + j];
      }
    }
  }

  /**
   * After any `set` the cache holds at most `maxSize` entries, and the key
   * order and the mapping still describe the same dictionary.
   */
  lemma SetBound<K, V>(order: seq<K>, store: map<K, V>, key: K, value: V, maxSize: nat)
    requires Distinct(order) && store.Keys == Elems(order)
    ensures var o := SetOrder(order, key, maxSize);
            var s := SetStore(store, key, value, o);
            Distinct(o) && s.Keys == Elems(o) && |s| == |o| <= maxSize
  {
    var m := MoveToEnd(order, key);
    MoveToEndDistinct(order, key);
    KeepNewestSub(m, maxSize);
    var o := SetOrder(order, key, maxSize);
    var s := SetStore(store, key, value, o);
    assert s.Keys == Elems(o);
    SizeMatchesOrder(s, o);
  }

  /**
   * `set(key, _)` with `maxSize >= 1` puts `key` at the most recently used
   * end; the other keys that survive eviction are the newest `maxSize - 1`
   * of the old order without `key`, in their old relative order, and keep
   * their values. Eviction therefore drops only the least recently used keys.
   */
  lemma SetKeepsOthers<K, V>(order: seq<K>, store: map<K, V>, key: K, value: V, maxSize: nat)
    requires maxSize >= 1
    ensures SetOrder(order, key, maxSize) == KeepNewest(Remove(order, key), maxSize - 1) + [key]
    ensures var o := SetOrder(order, key, maxSize);
            forall k :: k in SetStore(store, key, value, o) && k != key ==> SetStore(store, key, value, o)[k] == store[k]
  {
    var a := Remove(order, key);
    var m := MoveToEnd(order, key);
    assert m == a + [key];
    if |m| > maxSize {
      assert KeepNewest(m, maxSize) == m[|m| - maxSize..];
      assert m[|m| - maxSize..] == a[|a| - (maxSize - 1)..] + [key];
    }
  }

  /** One round of the eviction loop: `popitem(last=False)` drops the front
      key, which is the only change to the restricted mapping. */
  lemma PopOldest<K, V>(order: seq<K>, store: map<K, V>, store0: map<K, V>)
    requires Distinct(order) && order != []
    requires store == Restrict(store0, order)
    ensures store - {order[0]} == Restrict(store0, order[1..])
  {
    DistinctTail(order);
    assert Elems(order) == {order[0]} + Elems(order[1..]);
  }

  /** What holds after the eviction loop has popped `popped` entries from
      the dictionary `order0`/`store0`. */
  ghost predicate EvictionInvariant<K, V>(order0: seq<K>, store0: map<K, V>, popped: nat,
                                         order: seq<K>, store: map<K, V>, maxSize: nat)
  {
    && IsDict(order, store) && |store| == |order|
    && popped + |order| == |order0| && order == order0[popped..]
    && (popped == 0 || |order| >= maxSize)
    && store == Restrict(store0, order)
  }

  /** One round of the eviction loop keeps its invariant. */
  lemma EvictionStep<K, V>(order0: seq<K>, store0: map<K, V>, popped: nat,
                           order: seq<K>, store: map<K, V>, maxSize: nat)
    requires EvictionInvariant(order0, store0, popped, order, store, maxSize)
    requires |store| > maxSize
    ensures order != [] && order[0] in store
    ensures EvictionInvariant(order0, store0, popped + 1, order[1..], store - {order[0]}, maxSize)
  {
    PopOldest(order, store, store0);
    DistinctTail(order);
    SizeMatchesOrder(store - {order[0]}, order[1..]);
  }

  lemma EvictionStart<K, V>(order: seq<K>, store: map<K, V>, maxSize: nat)
    requires IsDict(order, store)
    ensures EvictionInvariant(order, store, 0, order, store, maxSize)
  {
    SizeMatchesOrder(store, order);
    RestrictAll(store, order);
  }

  /** Where the eviction loop stops: within the bound, having kept the
      newest `maxSize` keys of the dictionary it started from. */
  lemma EvictionDone<K, V>(order0: seq<K>, store0: map<K, V>, popped: nat,
                           order: seq<K>, store: map<K, V>, maxSize: nat)
    requires EvictionInvariant(order0, store0, popped, order, store, maxSize)
    requires |store| <= maxSize
    ensures IsDict(order, store) && |store| <= maxSize
    ensures order == KeepNewest(order0, maxSize)
    ensures store == Restrict(store0, order)
  {
  }

  /**
   * `LRUCache`: an `OrderedDict` bounded by `maxSize` entries. The lock of
   * the source only serialises calls; the model is sequential.
   */
  class LRUCache<K(==), V(==)> {
    const maxSize: nat
    var order: seq<K>
    var store: map<K, Option<V>>

    /** `order` and `store` describe one dictionary. */
    ghost predicate WellFormed()
      reads this
    {
      IsDict(order, store)
    }

    /** The object invariant: a dictionary within its bound. */
    ghost predicate Valid()
      reads this
    {
      WellFormed() && |store| <= maxSize
    }

    constructor (maxSize: nat)
      ensures Valid() && this.maxSize == maxSize
      ensures order == [] && store == map[]
    {
      this.maxSize := maxSize;
      order := [];
      store := map[];
    }

    /** `_evict_if_needed`: pop the least recently used entry while the
        dictionary is over its bound. */
    method EvictIfNeeded()
      requires IsDict(order, store)
      modifies this
      ensures Valid()
      ensures order == KeepNewest(old(order), maxSize)
      ensures store == Restrict(old(store), order)
    {
      ghost var order0, store0 := order, store;
      ghost var popped := 0;
      var keys, entries := order, store;
      EvictionStart(keys, entries, maxSize);
      while |entries| > maxSize
        invariant EvictionInvariant(order0, store0, popped, keys, entries, maxSize)
        decreases |keys|
      {
        EvictionStep(order0, store0, popped, keys, entries, maxSize);
        entries := entries - {keys[0]};
        keys := keys[1..];
        popped := popped + 1;
      }
      EvictionDone(order0, store0, popped, keys, entries, maxSize);
      order, store := keys, entries;
    }

    /** `get`: a stored non-`None` value is a hit and becomes the most
        recently used; a missing key or a stored `None` is a miss that
        changes nothing. */
    method Get(key: K) returns (r: Option<V>)
      requires Valid()
      modifies this
      ensures Valid()
      ensures r == Lookup(old(store), key)
      ensures store == old(store)
      ensures order == if r.Some? then MoveToEnd(old(order), key) else old(order)
    {
      r := Lookup(store, key);
      if r.None? {
        return;
      }
      MoveToEndDistinct(order, key);
      order := MoveToEnd(order, key);
    }

    /** `set`: store `value` under `key`, make `key` the most recently used,
        then evict down to the bound. */
    method Set(key: K, value: Option<V>)
      requires Valid()
      modifies this
      ensures Valid()
      ensures order == SetOrder(old(order), key, maxSize)
      ensures store == SetStore(old(store), key, value, order)
    {
      MoveToEndDistinct(order, key);
      ghost var order0, store0 := order, store;
      store := store[key := value];
      order := MoveToEnd(order, key);
      EvictIfNeeded();
      assert order == SetOrder(order0, key, maxSize);
      assert store == SetStore(store0, key, value, order);
    }
  }
}
