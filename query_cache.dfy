/**
 * The query-result cache of service/cache/query_cache.py: `TTLCache`, a
 * `dict` from key to `(value, expires_at)` with lazy expiry on `get` and
 * soonest-to-expire eviction on `set`.
 *
 * The clock is the `now` parameter of `Get` and `Set` (the source reads
 * `time.time()`), in whole time units. The dictionary's insertion order is
 * the field `keys`: the eviction sorts the entries with Python's stable
 * `sorted`, so entries that expire at the same time leave in insertion order.
 */
module QueryCache {
  import opened Wrappers
  import opened OrderedDicts

  datatype Entry<V> = Entry(value: V, expiresAt: int)

  /** What `get(key)` answers at time `now`: the value while `now` has not
      passed the expiry, `None` for a missing or an expired entry. */
  function Answer<K(==), V>(store: map<K, Entry<V>>, key: K, now: int): (r: Option<V>)
    ensures r.Some? <==> key in store && now <= store[key].expiresAt
    ensures r.Some? ==> r.value == store[key].value
  {
    if key !in store then None
    else if now > store[key].expiresAt then None
    else Some(store[key].value)
  }

  /** The keys of `s` are in ascending order of expiry. */
  ghost predicate SortedByExpiry<K, V>(s: seq<K>, store: map<K, Entry<V>>)
    requires Elems(s) <= store.Keys
  {
    forall i, j :: 0 <= i < j < |s| ==> store[s[i]].expiresAt <= store[s[j]].expiresAt
  }

  /** One step of a stable insertion sort on expiry: `k` goes in front of
      the first key that expires no sooner. */
  function InsertByExpiry<K(==), V>(k: K, s: seq<K>, store: map<K, Entry<V>>): (r: seq<K>)
    requires k in store && Elems(s) <= store.Keys
    ensures multiset(r) == multiset(s) + multiset{k}
    ensures Elems(r) == Elems(s) + {k}
    ensures |r| == |s| + 1
  {
    if s == [] || store[k].expiresAt <= store[s[0]].expiresAt then
      assert Elems([k] + s) == {k} + Elems(s);
      [k] + s
    else
      assert Elems(s) == {s[0]} + Elems(s[1..]);
      var t := InsertByExpiry(k, s[1..], store);
      assert s == [s[0]] + s[1..];
      assert Elems([s[0]] + t) == {s[0]} + Elems(t);
      [s[0]] + t
  }

  /** `sorted(store.items(), key=lambda kv: kv[1][1])`, given as the keys of
      the sorted items: the same keys, stably sorted on expiry. */
  function SortByExpiry<K(==), V>(ks: seq<K>, store: map<K, Entry<V>>): (r: seq<K>)
    requires Elems(ks) <= store.Keys
    ensures multiset(r) == multiset(ks)
    ensures Elems(r) == Elems(ks)
    ensures |r| == |ks|
  {
    if ks == [] then []
    else
      assert Elems(ks) == {ks[0]} + Elems(ks[1..]);
      assert ks == [ks[0]] + ks[1..];
      InsertByExpiry(ks[0], SortByExpiry(ks[1..], store), store)
  }

  /** No key of `s` expires before `b`. */
  ghost predicate NoSoonerThan<K, V>(b: int, s: seq<K>, store: map<K, Entry<V>>) {
    forall i :: 0 <= i < |s| ==> s[i] in store && b <= store[s[i]].expiresAt
  }

  /** A bound below `k` and below every key of `s` stays below every key of
      the insertion result. */
  lemma {:induction false} InsertLowerBound<K, V>(k: K, s: seq<K>, store: map<K, Entry<V>>, b: int)
    requires k in store && Elems(s) <= store.Keys
    requires b <= store[k].expiresAt && NoSoonerThan(b, s, store)
    ensures NoSoonerThan(b, InsertByExpiry(k, s, store), store)
  {
    var r := InsertByExpiry(k, s, store);
    assert forall i :: 0 <= i < |r| ==> r[i] in Elems(r);
    if s != [] && store[k].expiresAt > store[s[0]].expiresAt {
      assert Elems(s) == {s[0]} + Elems(s[1..]);
      InsertLowerBound(k, s[1..], store, b);
      var t := InsertByExpiry(k, s[1..], store);
      assert r == [s[0]] + t;
      forall i | 0 < i < |r| ensures b <= store[r[i]].expiresAt {
        assert r[i] == t[i - 1];
      }
    }
  }

  /** A key that expires no later than every key of a sorted sequence can
      go in front of it. */
  lemma ConsSorted<K, V>(x: K, t: seq<K>, store: map<K, Entry<V>>)
    requires x in store && Elems(t) <= store.Keys
    requires SortedByExpiry(t, store) && NoSoonerThan(store[x].expiresAt, t, store)
    ensures Elems([x] + t) <= store.Keys && SortedByExpiry([x] + t, store)
  {
    var r := [x] + t;
    assert Elems(r) == {x} + Elems(t);
    forall i, j | 0 <= i < j < |r| ensures store[r[i]].expiresAt <= store[r[j]].expiresAt {
      assert r[j] == t[j - 1];
      if i > 0 {
        assert r[i] == t[i - 1];
      }
    }
  }

  lemma {:induction false} InsertSorted<K, V>(k: K, s: seq<K>, store: map<K, Entry<V>>)
    requires k in store && Elems(s) <= store.Keys
    requires SortedByExpiry(s, store)
    ensures SortedByExpiry(InsertByExpiry(k, s, store), store)
  {
    if s != [] && store[k].expiresAt > store[s[0]].expiresAt {
      assert Elems(s) == {s[0]} + Elems(s[1..]);
      InsertSorted(k, s[1..], store);
      InsertLowerBound(k, s[1..], store, store[s[0]].expiresAt);
      ConsSorted(s[0], InsertByExpiry(k, s[1..], store), store);
    } else {
      ConsSorted(k, s, store);
    }
  }

  /** The sort orders by expiry and, on distinct keys, keeps them distinct. */
  lemma {:induction false} SortSorted<K, V>(ks: seq<K>, store: map<K, Entry<V>>)
    requires Elems(ks) <= store.Keys
    ensures SortedByExpiry(SortByExpiry(ks, store), store)
    ensures Distinct(ks) ==> Distinct(SortByExpiry(ks, store))
  {
    if ks != [] {
      assert Elems(ks) == {ks[0]} + Elems(ks[1..]);
      SortSorted(ks[1..], store);
      var t := SortByExpiry(ks[1..], store);
      InsertSorted(ks[0], t, store);
      if Distinct(ks) {
        DistinctTail(ks);
        InsertDistinct(ks[0], t, store);
      }
    }
  }

  lemma {:induction false} InsertDistinct<K, V>(k: K, s: seq<K>, store: map<K, Entry<V>>)
    requires k in store && Elems(s) <= store.Keys
    requires Distinct(s) && k !in Elems(s)
    ensures Distinct(InsertByExpiry(k, s, store))
  {
    var r := InsertByExpiry(k, s, store);
    if s == [] || store[k].expiresAt <= store[s[0]].expiresAt {
      forall i, j | 0 <= i < j < |r| ensures r[i] != r[j] {
        if i == 0 {
          assert r[j] == s[j - 1] && s[j - 1] in Elems(s);
        } else {
          assert r[i] == s[i - 1] && r[j] == s[j - 1];
        }
      }
    } else {
      DistinctTail(s);
      assert Elems(s) == {s[0]} + Elems(s[1..]);
      InsertDistinct(k, s[1..], store);
      var t := InsertByExpiry(k, s[1..], store);
      forall i, j | 0 <= i < j < |r| ensures r[i] != r[j] {
        if i == 0 {
          assert r[j] == t[j - 1] && t[j - 1] in Elems(t);
        } else {
          assert r[i] == t[i - 1] && r[j] == t[j - 1];
        }
      }
    }
  }

  /** The keys of `s` that expire at time `e`, in their order in `s`. */
  function WithExpiry<K(==), V>(s: seq<K>, store: map<K, Entry<V>>, e: int): seq<K> {
    if s == [] then []
    else (if s[0] in store && store[s[0]].expiresAt == e then [s[0]] else []) + WithExpiry(s[1..], store, e)
  }

  lemma WithExpiryCons<K, V>(x: K, t: seq<K>, store: map<K, Entry<V>>, e: int)
    ensures WithExpiry([x] + t, store, e) ==
            (if x in store && store[x].expiresAt == e then [x] else []) + WithExpiry(t, store, e)
  {
    assert ([x] + t)[1..] == t;
  }

  /** Two blocks of which one is empty can trade places. */
  lemma SwapEmpty<K>(a: seq<K>, b: seq<K>, w: seq<K>)
    requires a == [] || b == []
    ensures a + (b + w) == b + (a + w)
  {
  }

  /** Insertion passes only keys that expire strictly sooner, so among
      keys of one expiry the inserted key comes first. */
  lemma {:induction false} InsertStable<K, V>(k: K, s: seq<K>, store: map<K, Entry<V>>, e: int)
    requires k in store && Elems(s) <= store.Keys
    ensures WithExpiry(InsertByExpiry(k, s, store), store, e) ==
            (if store[k].expiresAt == e then [k] else []) + WithExpiry(s, store, e)
  {
    if s == [] || store[k].expiresAt <= store[s[0]].expiresAt {
      WithExpiryCons(k, s, store, e);
    } else {
      var x, rest := s[0], s[1..];
      assert Elems(s) == {x} + Elems(rest);
      InsertStable(k, rest, store, e);
      WithExpiryCons(x, InsertByExpiry(k, rest, store), store, e);
      assert s == [x] + rest;
      WithExpiryCons(x, rest, store, e);
      SwapEmpty(if x in store && store[x].expiresAt == e then [x] else [],
                if store[k].expiresAt == e then [k] else [], WithExpiry(rest, store, e));
    }
  }

  /**
   * The sort is stable, as Python's `sorted` is: the keys that expire at
   * any one time keep their relative order from `ks`, the dictionary's
   * insertion order.
   */
  lemma {:induction false} SortStable<K, V>(ks: seq<K>, store: map<K, Entry<V>>, e: int)
    requires Elems(ks) <= store.Keys
    ensures WithExpiry(SortByExpiry(ks, store), store, e) == WithExpiry(ks, store, e)
  {
    if ks != [] {
      assert Elems(ks) == {ks[0]} + Elems(ks[1..]);
      SortStable(ks[1..], store, e);
      InsertStable(ks[0], SortByExpiry(ks[1..], store), store, e);
    }
  }

  /** The keys `_evict_if_needed` pops, in popping order: none while the
      store is within `maxItems`, otherwise the front of the sorted items
      until `maxItems` are left. */
  function Victims<K(==), V>(keys: seq<K>, store: map<K, Entry<V>>, maxItems: nat): (r: seq<K>)
    requires Elems(keys) <= store.Keys
    ensures Elems(r) <= Elems(keys)
  {
    if |store| <= maxItems then []
    else
      var sorted := SortByExpiry(keys, store);
      var r := if |sorted| <= maxItems then [] else sorted[..|sorted| - maxItems];
      assert forall x :: x in r ==> x in sorted;
      r
  }

  /** The insertion order after `store.pop(k)` for each popped key in turn. */
  function RemoveEach<K(==)>(keys: seq<K>, popped: seq<K>): (r: seq<K>)
    ensures Elems(r) == Elems(keys) - Elems(popped)
  {
    if popped == [] then keys
    else
      var init := popped[..|popped| - 1];
      assert Elems(popped) == Elems(init) + {popped[|popped| - 1]};
      Remove(RemoveEach(keys, init), popped[|popped| - 1])
  }

  lemma {:induction false} RemoveEachDistinct<K>(keys: seq<K>, popped: seq<K>)
    requires Distinct(keys)
    ensures Distinct(RemoveEach(keys, popped))
  {
    if popped != [] {
      RemoveEachDistinct(keys, popped[..|popped| - 1]);
      RemoveDistinct(RemoveEach(keys, popped[..|popped| - 1]), popped[|popped| - 1]);
    }
  }

  /** A prefix of a duplicate-free sequence is duplicate-free. */
  lemma PrefixDistinct<K>(s: seq<K>, n: nat)
    requires Distinct(s) && n <= |s|
    ensures Distinct(s[..n])
  {
    forall i, j | 0 <= i < j < n ensures s[..n][i] != s[..n][j] {
      assert s[..n][i] == s[i] && s[..n][j] == s[j];
    }
  }

  /** Dropping a subset of the keys of a map shrinks it by that many. */
  lemma CardWithout<K, V>(m: map<K, V>, e: set<K>)
    requires e <= m.Keys
    ensures |m - e| == |m| - |e|
  {
    assert (m - e).Keys == m.Keys - e;
    assert m.Keys == (m.Keys - e) + e;
  }

  /** The victims are distinct keys, `|store| - maxItems` of them when the
      store is over its bound. */
  lemma VictimsCount<K, V>(keys: seq<K>, store: map<K, Entry<V>>, maxItems: nat)
    requires IsDict(keys, store) && |store| > maxItems
    ensures Distinct(Victims(keys, store, maxItems))
    ensures |Elems(Victims(keys, store, maxItems))| == |store| - maxItems
  {
    SizeMatchesOrder(store, keys);
    SortSorted(keys, store);
    var sorted := SortByExpiry(keys, store);
    var v := Victims(keys, store, maxItems);
    assert v == sorted[..|sorted| - maxItems];
    PrefixDistinct(sorted, |sorted| - maxItems);
    DistinctCard(v);
  }

  /**
   * Eviction bounds the store: afterwards it holds at most `maxItems`
   * entries, exactly `maxItems` when it had to evict, and a store already
   * within the bound is left as it is.
   */
  lemma EvictBound<K, V>(keys: seq<K>, store: map<K, Entry<V>>, maxItems: nat)
    requires IsDict(keys, store)
    ensures |store| <= maxItems ==> Victims(keys, store, maxItems) == []
    ensures |store - Elems(Victims(keys, store, maxItems))| == if |store| <= maxItems then |store| else maxItems
  {
    var v := Victims(keys, store, maxItems);
    if |store| > maxItems {
      VictimsCount(keys, store, maxItems);
      CardWithout(store, Elems(v));
    } else {
      assert Elems(v) == {};
      assert store - Elems(v) == store;
    }
  }

  /**
   * Soonest to expire leave first: every evicted entry expires no later
   * than every entry that stays.
   */
  lemma EvictSoonestFirst<K, V>(keys: seq<K>, store: map<K, Entry<V>>, maxItems: nat, gone: K, kept: K)
    requires IsDict(keys, store)
    requires gone in Victims(keys, store, maxItems)
    requires kept in store && kept !in Victims(keys, store, maxItems)
    ensures store[gone].expiresAt <= store[kept].expiresAt
  {
    var sorted := SortByExpiry(keys, store);
    SortSorted(keys, store);
    var v := Victims(keys, store, maxItems);
    var n := |v|;
    assert v == sorted[..n];
    var i :| 0 <= i < n && sorted[i] == gone;
    assert kept in Elems(sorted);
    var j :| 0 <= j < |sorted| && sorted[j] == kept;
  }

  /** The sort puts first a key that expires soonest, the earliest inserted
      among equals: never `key` when `key` expires no sooner than any other
      key and is not the first inserted. */
  lemma SortHeadNotLatest<K, V>(ks: seq<K>, store: map<K, Entry<V>>, key: K)
    requires Elems(ks) <= store.Keys && |ks| >= 2 && ks[0] != key && key in store
    requires forall k :: k in store ==> store[k].expiresAt <= store[key].expiresAt
    ensures SortByExpiry(ks, store)[0] != key
  {
    assert ks == [ks[0]] + ks[1..];
    assert Elems(ks) == {ks[0]} + Elems(ks[1..]);
    var t := SortByExpiry(ks[1..], store);
    assert t[0] in Elems(t);
    if store[ks[0]].expiresAt > store[t[0]].expiresAt {
      assert SortByExpiry(ks, store)[0] == t[0];
    } else {
      assert SortByExpiry(ks, store)[0] == ks[0];
    }
  }

  /**
   * With a clock that has not gone back, a `set` never evicts the entry it
   * has just written when `maxItems >= 1`: that entry expires no sooner than
   * any other, and among equal expiries the sort keeps insertion order.
   */
  lemma SetKeepsNewEntry<K, V>(keys: seq<K>, store: map<K, Entry<V>>, maxItems: nat, key: K, e: Entry<V>)
    requires IsDict(keys, store) && |store| <= maxItems && maxItems >= 1
    requires forall k :: k in store ==> store[k].expiresAt <= e.expiresAt
    ensures key !in Victims(Inserted(keys, key), store[key := e], maxItems)
  {
    var ks := Inserted(keys, key);
    var s := store[key := e];
    if key !in keys && |s| > maxItems {
      SizeMatchesOrder(store, keys);
      assert |s| == |store| + 1 == maxItems + 1;
      assert ks[0] == keys[0];
      SortHeadNotLatest(ks, s, key);
      var sorted := SortByExpiry(ks, s);
      assert Victims(ks, s, maxItems) == sorted[..1];
    }
  }

  /** With a time-to-live of zero, an entry written at `now` is never
      answered at any later time. */
  lemma ZeroTtlExpires<K, V>(keys: seq<K>, store: map<K, Entry<V>>, maxItems: nat, key: K, value: V, now: int, later: int)
    requires IsDict(keys, store) && later > now
    ensures var s := store[key := Entry(value, now + 0)];
            var after := s - Elems(Victims(Inserted(keys, key), s, maxItems));
            Answer(after, key, later) == None
  {
  }

  /** After the eviction, the key order and the mapping still describe one
      dictionary, within the bound. */
  lemma EvictKeepsDict<K, V>(keys: seq<K>, store: map<K, Entry<V>>, maxItems: nat)
    requires IsDict(keys, store)
    ensures var v := Victims(keys, store, maxItems);
            IsDict(RemoveEach(keys, v), store - Elems(v)) && |store - Elems(v)| <= maxItems
  {
    var v := Victims(keys, store, maxItems);
    EvictBound(keys, store, maxItems);
    RemoveEachDistinct(keys, v);
    assert (store - Elems(v)).Keys == store.Keys - Elems(v);
  }

  /** The state of the eviction loop once it has popped `popped` of the
      `sorted` items of the dictionary `keys0`/`store0`. */
  ghost predicate EvictionInvariant<K, V>(keys0: seq<K>, store0: map<K, Entry<V>>, maxItems: nat,
                                         sorted: seq<K>, popped: nat,
                                         items: seq<K>, keys: seq<K>, store: map<K, Entry<V>>)
  {
    && popped <= |sorted| && items == sorted[popped..] && |items| >= maxItems
    && keys == RemoveEach(keys0, sorted[..popped])
    && store == store0 - Elems(sorted[..popped])
  }

  /** The popped prefix grows by the next item. */
  lemma PrefixNext<K>(sorted: seq<K>, popped: nat)
    requires popped < |sorted|
    ensures sorted[..popped + 1][..popped] == sorted[..popped]
    ensures sorted[..popped + 1][popped] == sorted[popped]
    ensures Elems(sorted[..popped + 1]) == Elems(sorted[..popped]) + {sorted[popped]}
  {
    assert sorted[..popped + 1] == sorted[..popped] + [sorted[popped]];
  }

  lemma EvictionStart<K, V>(keys: seq<K>, store: map<K, Entry<V>>, maxItems: nat)
    requires IsDict(keys, store) && |store| > maxItems
    ensures EvictionInvariant(keys, store, maxItems, SortByExpiry(keys, store), 0,
                              SortByExpiry(keys, store), keys, store)
  {
    var sorted := SortByExpiry(keys, store);
    SizeMatchesOrder(store, keys);
    assert sorted[..0] == [];
    assert Elems(sorted[..0]) == {};
    assert store - {} == store;
  }

  /** One round of the eviction loop: `items.pop(0)` and `store.pop(k)`. */
  lemma EvictionStep<K, V>(keys0: seq<K>, store0: map<K, Entry<V>>, maxItems: nat,
                           sorted: seq<K>, popped: nat,
                           items: seq<K>, keys: seq<K>, store: map<K, Entry<V>>)
    requires EvictionInvariant(keys0, store0, maxItems, sorted, popped, items, keys, store)
    requires |items| > maxItems
    ensures items != [] && items[0] == sorted[popped]
    ensures EvictionInvariant(keys0, store0, maxItems, sorted, popped + 1,
                              items[1..], Remove(keys, items[0]), store - {items[0]})
  {
    PrefixNext(sorted, popped);
  }

  /** Where the eviction loop stops: it has popped exactly the victims. */
  lemma EvictionDone<K, V>(keys0: seq<K>, store0: map<K, Entry<V>>, maxItems: nat,
                           sorted: seq<K>, popped: nat,
                           items: seq<K>, keys: seq<K>, store: map<K, Entry<V>>)
    requires IsDict(keys0, store0) && |store0| > maxItems && sorted == SortByExpiry(keys0, store0)
    requires EvictionInvariant(keys0, store0, maxItems, sorted, popped, items, keys, store)
    requires |items| <= maxItems
    ensures sorted[..popped] == Victims(keys0, store0, maxItems)
  {
    SizeMatchesOrder(store0, keys0);
  }

  /** Nothing to evict: the victims are none and the dictionary stays. */
  lemma EvictionNone<K, V>(keys: seq<K>, store: map<K, Entry<V>>, maxItems: nat)
    requires IsDict(keys, store) && |store| <= maxItems
    ensures store == store - Elems(Victims(keys, store, maxItems))
    ensures keys == RemoveEach(keys, Victims(keys, store, maxItems))
  {
    assert Elems<K>([]) == {};
    assert store - {} == store;
  }

  /**
   * The loop of `_evict_if_needed`: over the bound, sort the items by
   * expiry and pop from the front until `maxItems` are left, dropping each
   * popped key from the dictionary.
   */
  method Evict<K(==), V>(keys: seq<K>, store: map<K, Entry<V>>, maxItems: nat)
    returns (keys': seq<K>, store': map<K, Entry<V>>)
    requires IsDict(keys, store)
    ensures store' == store - Elems(Victims(keys, store, maxItems))
    ensures keys' == RemoveEach(keys, Victims(keys, store, maxItems))
  {
    if |store| <= maxItems {
      EvictionNone(keys, store, maxItems);
      return keys, store;
    }
    ghost var popped := 0;
    var items := SortByExpiry(keys, store);
    ghost var sorted := items;
    keys', store' := keys, store;
    EvictionStart(keys, store, maxItems);
    while |items| > maxItems
      invariant EvictionInvariant(keys, store, maxItems, sorted, popped, items, keys', store')
      decreases |items|
    {
      EvictionStep(keys, store, maxItems, sorted, popped, items, keys', store');
      var k := items[0];
      items := items[1..];
      store' := store' - {k};
      keys' := Remove(keys', k);
      popped := popped + 1;
    }
    EvictionDone(keys, store, maxItems, sorted, popped, items, keys', store');
  }

  /**
   * `TTLCache`: entries that expire `ttl` time units after they are written,
   * at most `maxItems` of them. The lock of the source only serialises
   * calls; the model is sequential.
   */
  class TTLCache<K(==), V> {
    const ttl: int
    const maxItems: nat
    var keys: seq<K>
    var store: map<K, Entry<V>>

    /** The object invariant: one dictionary, within its bound. */
    ghost predicate Valid()
      reads this
    {
      IsDict(keys, store) && |store| <= maxItems
    }

    constructor (ttlSeconds: int, maxItems: nat)
      ensures Valid() && ttl == ttlSeconds && this.maxItems == maxItems
      ensures keys == [] && store == map[]
    {
      ttl := ttlSeconds;
      this.maxItems := maxItems;
      keys := [];
      store := map[];
    }

    /** `_evict_if_needed` on the cache's own dictionary. */
    method EvictIfNeeded()
      requires IsDict(keys, store)
      modifies this
      ensures IsDict(keys, store) && |store| <= maxItems
      ensures store == old(store) - Elems(Victims(old(keys), old(store), maxItems))
      ensures keys == RemoveEach(old(keys), Victims(old(keys), old(store), maxItems))
    {
      EvictKeepsDict(keys, store, maxItems);
      keys, store := Evict(keys, store, maxItems);
    }

    /** `get`: the value of a live entry; `None` for a missing key; an
        expired entry is deleted and answers `None`. */
    method Get(key: K, now: int) returns (r: Option<V>)
      requires Valid()
      modifies this
      ensures Valid()
      ensures r == Answer(old(store), key, now)
      ensures if key in old(store) && now > old(store)[key].expiresAt
              then store == old(store) - {key} && keys == Remove(old(keys), key)
              else store == old(store) && keys == old(keys)
    {
      if key !in store {
        return None;
      }
      var entry := store[key];
      if now > entry.expiresAt {
        RemoveDistinct(keys, key);
        SizeMatchesOrder(store, keys);
        keys := Remove(keys, key);
        store := store - {key};
        SizeMatchesOrder(store, keys);
        return None;
      }
      return Some(entry.value);
    }

    /** `set`: write `(value, now + ttl)` under `key`, then evict. */
    method Set(key: K, value: V, now: int)
      requires Valid()
      modifies this
      ensures Valid()
      ensures var ks := Inserted(old(keys), key);
              var s := old(store)[key := Entry(value, now + ttl)];
              store == s - Elems(Victims(ks, s, maxItems)) &&
              keys == RemoveEach(ks, Victims(ks, s, maxItems))
    {
      InsertedDistinct(keys, key);
      store := store[key := Entry(value, now + ttl)];
      keys := Inserted(keys, key);
      EvictIfNeeded();
    }
  }
}
