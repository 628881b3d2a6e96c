/**
 * Python dictionaries as the caches use them: a key order (the insertion
 * order of a `dict`, or the recency order of an `OrderedDict`) beside the
 * key-to-value mapping, and the facts about key orders both caches rely on.
 */
module OrderedDicts {
  import opened Wrappers

  /** No key occurs twice. */
  ghost predicate Distinct<K>(s: seq<K>) {
    forall i, j :: 0 <= i < j < |s| ==> s[i] != s[j]
  }

  /** The set of keys occurring in `s`. */
  function Elems<K(==)>(s: seq<K>): set<K> {
    set x | x in s
  }

  /** `s` with every occurrence of `k` taken out, the rest in the same order. */
  function Remove<K(==)>(s: seq<K>, k: K): (r: seq<K>)
    ensures Elems(r) == Elems(s) - {k}
    ensures k !in s ==> r == s
  {
    if s == [] then []
    else
      var t := Remove(s[1..], k);
      assert Elems(s) == {s[0]} + Elems(s[1..]);
      if s[0] == k then t
      else
        assert Elems([s[0]] + t) == {s[0]} + Elems(t);
        [s[0]] + t
  }

  /** Taking a key out of a duplicate-free order leaves it duplicate-free and
      one shorter when the key was there. */
  lemma {:induction false} RemoveDistinct<K>(s: seq<K>, k: K)
    requires Distinct(s)
    ensures Distinct(Remove(s, k))
    ensures |Remove(s, k)| == if k in s then |s| - 1 else |s|
  {
    if s != [] {
      DistinctTail(s);
      RemoveDistinct(s[1..], k);
      if s[0] != k {
        var t := Remove(s[1..], k);
        assert s[0] !in Elems(t);
        forall i, j | 0 <= i < j < |t| + 1 ensures ([s[0]] + t)[i] != ([s[0]] + t)[j] {
          if i == 0 {
            assert ([s[0]] + t)[j] == t[j - 1] && t[j - 1] in Elems(t);
          }
        }
      }
    }
  }

  /** The entries of `m` whose key is still in `keys`. */
  function Restrict<K(==), V>(m: map<K, V>, keys: seq<K>): (r: map<K, V>)
    ensures r.Keys == m.Keys * Elems(keys)
    ensures forall k :: k in r ==> r[k] == m[k]
  {
    map k | k in m && k in keys :: m[k]
  }

  /** What `OrderedDict.get` answers: the stored value, or `None` when absent. */
  function Lookup<K(==), V>(m: map<K, Option<V>>, k: K): (r: Option<V>)
    ensures r.Some? ==> k in m && m[k] == r
    ensures k !in m ==> r.None?
  {
    if k in m then m[k] else None
  }

  lemma {:induction false} DistinctTail<K>(s: seq<K>)
    requires Distinct(s) && s != []
    ensures Distinct(s[1..]) && s[0] !in s[1..]
  {
    forall i, j | 0 <= i < j < |s| - 1 ensures s[1..][i] != s[1..][j] {
      assert s[1..][i] == s[i + 1] && s[1..][j] == s[j + 1];
    }
  }

  /** A duplicate-free key order has as many keys as positions. */
  lemma {:induction false} DistinctCard<K>(s: seq<K>)
    requires Distinct(s)
    ensures |Elems(s)| == |s|
  {
    if s != [] {
      DistinctTail(s);
      DistinctCard(s[1..]);
      assert Elems(s) == {s[0]} + Elems(s[1..]);
    }
  }

  /** The entry count of a dictionary equals the length of its key order. */
  lemma SizeMatchesOrder<K, V>(store: map<K, V>, order: seq<K>)
    requires Distinct(order) && store.Keys == Elems(order)
    ensures |store| == |order|
  {
    DistinctCard(order);
  }

  lemma {:induction false} RemoveIdempotent<K>(s: seq<K>, k: K)
    ensures Remove(Remove(s, k), k) == Remove(s, k)
  {
    if s != [] {
      RemoveIdempotent(s[1..], k);
      if s[0] != k {
        assert Remove(s, k) == [s[0]] + Remove(s[1..], k);
        assert Remove(s, k)[1..] == Remove(s[1..], k);
      }
    }
  }

  lemma {:induction false} RemoveAppend<K>(a: seq<K>, b: seq<K>, k: K)
    ensures Remove(a + b, k) == Remove(a, k) + Remove(b, k)
  {
    if a == [] {
      assert a + b == b;
    } else {
      var ab := a + b;
      assert ab[0] == a[0] && ab[1..] == a[1..] + b;
      RemoveAppend(a[1..], b, k);
      if a[0] != k {
        calc {
          Remove(ab, k);
          [a[0]] + Remove(a[1..] + b, k);
          [a[0]] + (Remove(a[1..], k) + Remove(b, k));
          ([a[0]] + Remove(a[1..], k)) + Remove(b, k);
        }
      }
    }
  }

  lemma RestrictAll<K, V>(m: map<K, V>, keys: seq<K>)
    requires m.Keys == Elems(keys)
    ensures Restrict(m, keys) == m
  {
  }

  /** A key order and a mapping that together describe one `OrderedDict`. */
  ghost predicate IsDict<K, V>(order: seq<K>, store: map<K, V>) {
    Distinct(order) && store.Keys == Elems(order)
  }

  /** `d[key] = ...` on a `dict`: a new key goes to the end of the insertion order,
      an existing key keeps its place. */
  function Inserted<K(==)>(keys: seq<K>, key: K): (r: seq<K>)
    ensures Elems(r) == Elems(keys) + {key}
  {
    if key in keys then keys else
      assert Elems(keys + [key]) == Elems(keys) + {key};
      keys + [key]
  }

  lemma InsertedDistinct<K>(keys: seq<K>, key: K)
    requires Distinct(keys)
    ensures Distinct(Inserted(keys, key))
  {
    if key !in keys {
      var r := keys + [key];
      forall i, j | 0 <= i < j < |r| ensures r[i] != r[j] {
        assert r[i] == keys[i];
      }
    }
  }
}
