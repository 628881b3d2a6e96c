/**
 * The two-tier embedding cache of service/embedding/cache.py: an in-memory
 * `LRUCache` in front of an optional `DiskCache`, both keyed by a digest of
 * the text.
 *
 * The digest (SHA-256 in the source) is the constructor parameter `keyOf`,
 * an arbitrary function; the properties that need distinct texts to get
 * distinct keys assume it is injective. The disk tier is a map from key to
 * the unpickled value. The directory outlives the process, so a new tier
 * starts from whatever the directory already holds (the `initial`
 * parameter). File I/O is not modelled, but how a write ends is, as the
 * `outcome` parameter of `DiskCache.Set`.
 */
module EmbeddingCaches {
  import opened Wrappers
  import opened OrderedDicts
  import opened LruCache

  /** Distinct texts get distinct keys. */
  ghost predicate Injective(keyOf: string -> string) {
    forall t1, t2 :: t1 != t2 ==> keyOf(t1) != keyOf(t2)
  }

  /** What `EmbeddingCache.get` answers, given the memory tier's mapping
      and, when there is one, the disk tier's: the memory value if it is
      not `None`, otherwise the disk value, otherwise `None`. */
  function TieredAnswer<V>(mem: map<string, Option<V>>, disk: Option<map<string, Option<V>>>, key: string): (r: Option<V>)
    ensures Lookup(mem, key).Some? ==> r == Lookup(mem, key)
    ensures Lookup(mem, key).None? && disk.None? ==> r.None?
    ensures Lookup(mem, key).None? && disk.Some? ==> r == Lookup(disk.value, key)
  {
    match Lookup(mem, key)
    case Some(v) => Some(v)
    case None =>
      match disk
      case None => None
      case Some(d) => Lookup(d, key)
  }

  /**
   * After `set(text, e)` with a non-`None` embedding and a memory tier of
   * at least one entry, `get(text)` answers `e` from the memory tier.
   */
  lemma SetThenGetHits<V>(order: seq<string>, mem: map<string, Option<V>>, disk: Option<map<string, Option<V>>>,
                          keyOf: string -> string, text: string, e: V, maxSize: nat)
    requires maxSize >= 1
    ensures var key := keyOf(text);
            var o := SetOrder(order, key, maxSize);
            TieredAnswer(SetStore(mem, key, Some(e), o), disk, key) == Some(e)
  {
    SetThenGet(order, mem, keyOf(text), Some(e), maxSize);
  }

  /**
   * A text whose entry was evicted from the memory tier is still answered
   * from the disk tier: with the memory tier full, `set` of a new key
   * evicts exactly the least recently used key, and the disk tier, written
   * through, still holds the evicted key's value.
   */
  lemma OverflowFallsBackToDisk<V>(order: seq<string>, mem: map<string, Option<V>>, disk: map<string, Option<V>>,
                                   key: string, value: Option<V>, maxSize: nat)
    requires Distinct(order) && mem.Keys == Elems(order)
    requires |order| == maxSize >= 1 && key !in order
    requires forall k :: k in mem ==> k in disk && disk[k] == mem[k]
    ensures SetOrder(order, key, maxSize) == order[1..] + [key]
    ensures var o := SetOrder(order, key, maxSize);
            var evicted := order[0];
            evicted !in SetStore(mem, key, value, o) &&
            TieredAnswer(SetStore(mem, key, value, o), Some(disk[key := value]), evicted) == mem[evicted]
  {
    SetKeepsOthers(order, mem, key, value, maxSize);
    assert Remove(order, key) == order;
    var o := SetOrder(order, key, maxSize);
    DistinctTail(order);
    assert order[0] !in o;
  }

  /**
   * With an injective key function, writing one text never disturbs the
   * memory entry of another text that survives the write.
   */
  lemma OtherTextUntouched<V>(order: seq<string>, mem: map<string, Option<V>>, keyOf: string -> string,
                              text: string, other: string, value: Option<V>, maxSize: nat)
    requires Injective(keyOf) && text != other && maxSize >= 1
    ensures var o := SetOrder(order, keyOf(text), maxSize);
            var m := SetStore(mem, keyOf(text), value, o);
            keyOf(other) in m ==> m[keyOf(other)] == mem[keyOf(other)]
  {
    SetKeepsOthers(order, mem, keyOf(text), value, maxSize);
  }

  /** How `DiskCache.set` ends: the value is written, `open` fails and
      the old file stays, or `pickle.dump` fails after `open(p, 'wb')` has
      truncated the file, which later reads back as `None`. */
  datatype WriteOutcome = Written | OpenFailed | DumpFailed

  /** `DiskCache`: one pickle file per key under a directory. */
  class DiskCache<V> {
    const path: string
    var entries: map<string, Option<V>>

    /** The new tier answers the pickles `initial` already in the `path`
        directory (none when it does not exist): `makedirs` only creates
        the parent of `path` and removes nothing. */
    constructor (path: string, initial: map<string, Option<V>>)
      ensures this.path == path && entries == initial
    {
      this.path := path;
      entries := initial;
    }

    /** `get`: the unpickled value, or `None` when there is no file. */
    method Get(key: string) returns (r: Option<V>)
      ensures r == Lookup(entries, key)
    {
      r := Lookup(entries, key);
    }

    /** `set`: write the file. A failure is swallowed: one at `open`
        changes nothing, one during the dump leaves a truncated file that
        reads back as `None`. */
    method Set(key: string, value: Option<V>, outcome: WriteOutcome)
      modifies this
      ensures outcome == Written ==> entries == old(entries)[key := value]
      ensures outcome == OpenFailed ==> entries == old(entries)
      ensures outcome == DumpFailed ==> entries == old(entries)[key := None]
    {
      match outcome
      case Written => entries := entries[key := value];
      case OpenFailed =>
      case DumpFailed => entries := entries[key := None];
    }
  }

  /** `EmbeddingCache`: the memory tier `mem` in front of the optional
      disk tier `disk` (`None` in the source when no disk path is given). */
  class EmbeddingCache<V(==)> {
    const keyOf: string -> string
    const mem: LRUCache<string, V>
    const disk: DiskCache?<V>

    ghost predicate Valid()
      reads this, mem
    {
      mem.Valid()
    }

    /** The disk tier's mapping, if there is a disk tier. */
    ghost function DiskView(): Option<map<string, Option<V>>>
      reads this, disk
    {
      if disk == null then None else Some(disk.entries)
    }

    constructor (maxMemoryItems: nat, diskPath: string, diskEntries: map<string, Option<V>>, keyOf: string -> string)
      ensures Valid() && fresh(mem) && this.keyOf == keyOf
      ensures mem.maxSize == maxMemoryItems && mem.order == [] && mem.store == map[]
      ensures diskPath == "" ==> disk == null
      ensures diskPath != "" ==> disk != null && fresh(disk) && disk.path == diskPath && disk.entries == diskEntries
    {
      this.keyOf := keyOf;
      mem := new LRUCache(maxMemoryItems);
      if diskPath != "" {
        disk := new DiskCache(diskPath, diskEntries);
      } else {
        disk := null;
      }
    }

    /**
     * `get(text)`: a memory hit is answered without touching the disk
     * tier; on a memory miss a disk hit is copied into the memory tier and
     * answered; a miss on both tiers, or on memory with no disk tier,
     * answers `None`.
     */
    method Get(text: string) returns (r: Option<V>)
      requires Valid()
      modifies mem
      ensures Valid()
      ensures r == TieredAnswer(old(mem.store), DiskView(), keyOf(text))
      ensures Lookup(old(mem.store), keyOf(text)).Some? ==>
                mem.store == old(mem.store) && mem.order == MoveToEnd(old(mem.order), keyOf(text))
      ensures Lookup(old(mem.store), keyOf(text)).None? && r.Some? ==>
                mem.order == SetOrder(old(mem.order), keyOf(text), mem.maxSize) &&
                mem.store == SetStore(old(mem.store), keyOf(text), r, mem.order)
      ensures r.None? ==> mem.store == old(mem.store) && mem.order == old(mem.order)
    {
      var key := keyOf(text);
      r := mem.Get(key);
      if r.Some? {
        return;
      }
      if disk != null {
        r := disk.Get(key);
        if r.Some? {
          mem.Set(key, r);
        }
        return;
      }
      r := None;
    }

    /**
     * `set(text, embedding)`: write the same key to the memory tier and,
     * when there is one, to the disk tier, so identical texts share one
     * entry; a failed disk write is swallowed.
     */
    method Set(text: string, embedding: Option<V>, diskWrite: WriteOutcome)
      requires Valid()
      modifies mem, disk
      ensures Valid()
      ensures mem.order == SetOrder(old(mem.order), keyOf(text), mem.maxSize)
      ensures mem.store == SetStore(old(mem.store), keyOf(text), embedding, mem.order)
      ensures disk != null && diskWrite == Written ==> disk.entries == old(disk.entries)[keyOf(text) := embedding]
      ensures disk != null && diskWrite == OpenFailed ==> disk.entries == old(disk.entries)
      ensures disk != null && diskWrite == DumpFailed ==> disk.entries == old(disk.entries)[keyOf(text) := None]
    {
      var key := keyOf(text);
      mem.Set(key, embedding);
      if disk != null {
        disk.Set(key, embedding, diskWrite);
      }
    }
  }
}
