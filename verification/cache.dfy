/** `CacheManager`: a time-to-live cache kept in `localStorage` under
    prefixed keys. The clock (`Date.now()`) is the `now` parameter, in
    milliseconds. */
module Cache {
  import opened Wrappers
  import opened Strings
  import opened BrowserStorage

  const CachePrefix: string := "envirosync_"

  /** Five minutes, in milliseconds. */
  const DefaultTtl: int := 5 * 60 * 1000

  /** What `get` returns: `null`, the cached data, or `undefined` (a stored
      array has no `data` field and no `timestamp` to expire by). */
  datatype CacheRead = Miss | Hit(data: string) | Undefined

  /** What `get` returns for the stored value `v` at time `now`. Empty text
      is falsy, any other plain text fails to parse, and an entry older than
      its ttl has expired; at exactly ttl elapsed it is still served. */
  function ReadEntry(v: Option<Stored>, now: int): (r: CacheRead)
    ensures r.Hit? <==> v.Some? && v.value.Entry? && now - v.value.timestamp <= v.value.ttl
    ensures r.Hit? ==> r.data == v.value.data
    ensures r.Undefined? <==> v.Some? && v.value.Ids?
  {
    match v
    case None => Miss
    case Some(Text(_)) => Miss
    case Some(Ids(_)) => Undefined
    case Some(Entry(data, timestamp, ttl)) => if now - timestamp > ttl then Miss else Hit(data)
  }

  /** `get` deletes what it cannot use: unparseable text and expired
      entries. A missing key, empty text and arrays stay. */
  predicate DropsOnRead(v: Option<Stored>, now: int)
  {
    v.Some? &&
    match v.value
    case Text(raw) => raw != ""
    case Ids(_) => false
    case Entry(_, timestamp, ttl) => now - timestamp > ttl
  }

  /** The store after `get`: what it could not use is gone, and nothing that
      `get` serves is ever removed. */
  function AfterRead(items: map<string, Stored>, k: string, now: int): (r: map<string, Stored>)
    ensures r.Keys <= items.Keys && items.Keys - r.Keys <= {k}
    ensures forall j :: j in r ==> r[j] == items[j]
    ensures k !in r <==> k !in items || DropsOnRead(Some(items[k]), now)
    ensures k in items && ReadEntry(Some(items[k]), now) != Miss ==> r == items
  {
    if k in items && DropsOnRead(Some(items[k]), now) then items - {k} else items
  }

  /** The keys `clearAll` removes. */
  function PrefixedKeys(items: map<string, Stored>, prefix: string): (r: set<string>)
    ensures forall k :: k in r <==> k in items && StartsWith(k, prefix)
  {
    set k | k in items && StartsWith(k, prefix)
  }

  /** The store after `clearAll`: the keys without the prefix, untouched. */
  function WithoutPrefixed(items: map<string, Stored>, prefix: string): (r: map<string, Stored>)
    ensures forall k :: k in r <==> k in items && !StartsWith(k, prefix)
    ensures forall k :: k in r ==> r[k] == items[k]
  {
    map k | k in items && !StartsWith(k, prefix) :: items[k]
  }

  /** After `clearAll` every `get` misses. */
  lemma ClearedCacheMisses(items: map<string, Stored>, key: string, now: int)
    ensures CachePrefix + key !in WithoutPrefixed(items, CachePrefix)
    ensures var r := WithoutPrefixed(items, CachePrefix);
            ReadEntry(if CachePrefix + key in r then Some(r[CachePrefix + key]) else None, now) == Miss
  {
    PrefixedStartsWith(CachePrefix, key);
  }

  /** One element of `getStats().items`. `timestamp` is None where the
      parsed value has none (`null` or `undefined`). */
  datatype ItemStat = ItemStat(key: string, size: nat, timestamp: Option<int>, isExpired: bool)

  datatype Stats = Stats(totalItems: nat, totalSize: nat, items: seq<ItemStat>)

  /** The stat for the stored value `v` whose key, with the prefix removed,
      is `name`. Text that does not parse counts as expired; an array has no
      timestamp and (comparisons with `undefined` being false) is not. */
  function StatOf(name: string, v: Stored, now: int): (s: ItemStat)
    ensures s.key == name && s.size == |Serialize(v)|
    ensures s.timestamp.Some? <==> v.Entry?
    ensures s.isExpired <==> ReadEntry(Some(v), now).Miss?
  {
    var size := |Serialize(v)|;
    match v
    case Entry(_, timestamp, ttl) => ItemStat(name, size, Some(timestamp), now - timestamp > ttl)
    case Ids(_) => ItemStat(name, size, None, false)
    case Text(_) => ItemStat(name, size, None, true)
  }

  /** The full keys the stats in `items` stand for. */
  function StatKeys(items: seq<ItemStat>, prefix: string): set<string>
  {
    if items == [] then {}
    else StatKeys(items[..|items| - 1], prefix) + {prefix + items[|items| - 1].key}
  }

  lemma StatKeysAppend(items: seq<ItemStat>, stat: ItemStat, prefix: string)
    ensures StatKeys(items + [stat], prefix) == StatKeys(items, prefix) + {prefix + stat.key}
  {
    assert (items + [stat])[..|items|] == items;
  }

  /** `s` is the stat of the value stored under its prefixed key. */
  predicate Describes(s: ItemStat, items: map<string, Stored>, prefix: string, now: int)
  {
    prefix + s.key in items && s == StatOf(s.key, items[prefix + s.key], now)
  }

  ghost function Pick(keys: set<string>): (k: string)
    requires keys != {}
    ensures k in keys
  {
    var k :| k in keys; k
  }

  /** The summed length of the texts stored under `keys`. */
  ghost function TotalSize(keys: set<string>, items: map<string, Stored>): nat
    requires keys <= items.Keys
    decreases |keys|
  {
    if keys == {} then 0
    else
      var k := Pick(keys);
      |Serialize(items[k])| + TotalSize(keys - {k}, items)
  }

  /** Any key can be taken out of the sum first. */
  lemma {:induction false} TotalSizeRemove(keys: set<string>, items: map<string, Stored>, k: string)
    requires keys <= items.Keys && k in keys
    ensures TotalSize(keys, items) == |Serialize(items[k])| + TotalSize(keys - {k}, items)
    decreases |keys|
  {
    var j := Pick(keys);
    if j != k {
      TotalSizeRemove(keys - {j}, items, k);
      TotalSizeRemove(keys - {k}, items, j);
      assert keys - {j} - {k} == keys - {k} - {j};
    }
  }

  /** One step of `getStats`: the stat of key `k` extends the stats of the
      keys `done`, and its size extends their total. */
  lemma StatsStep(items: seq<ItemStat>, done: set<string>, k: string, store: map<string, Stored>,
                  prefix: string, now: int, totalSize: int, stat: ItemStat)
    requires done <= store.Keys && k in store && k !in done && StartsWith(k, prefix)
    requires StatKeys(items, prefix) == done && |items| == |done|
    requires totalSize == TotalSize(done, store)
    requires forall s :: s in items ==> Describes(s, store, prefix, now)
    requires stat == StatOf(k[|prefix|..], store[k], now)
    ensures StatKeys(items + [stat], prefix) == done + {k}
    ensures |items + [stat]| == |done + {k}|
    ensures totalSize + stat.size == TotalSize(done + {k}, store)
    ensures forall s :: s in items + [stat] ==> Describes(s, store, prefix, now)
  {
    StripPrefix(k, prefix);
    TotalSizeRemove(done + {k}, store, k);
    assert done + {k} - {k} == done;
    StatKeysAppend(items, stat, prefix);
  }

  class CacheManager {
    const prefix: string
    const defaultTtl: int
    const storage: LocalStorage

    constructor (storage: LocalStorage)
      ensures prefix == CachePrefix && defaultTtl == DefaultTtl && this.storage == storage
    {
      prefix := CachePrefix;
      defaultTtl := DefaultTtl;
      this.storage := storage;
    }

    /** `set(key, data, ttl)`: stores a fresh entry stamped `now` under the
        prefixed key (ttl defaults to five minutes) and reports success; a
        `get` at the same instant serves `data` back. */
    method Set(key: string, data: string, ttl: Option<int>, now: int) returns (ok: bool)
      modifies storage
      ensures storage.items == old(storage.items)[prefix + key := Entry(data, now, ttl.GetOr(defaultTtl))]
      ensures ok
      ensures ttl.GetOr(defaultTtl) >= 0 ==> ReadEntry(storage.GetItem(prefix + key), now) == Hit(data)
    {
      storage.SetItem(prefix + key, Entry(data, now, ttl.GetOr(defaultTtl)));
      return true;
    }

    /** `get(key)` at time `now`. */
    method Get(key: string, now: int) returns (r: CacheRead)
      modifies storage
      ensures r == ReadEntry(old(storage.GetItem(prefix + key)), now)
      ensures storage.items == AfterRead(old(storage.items), prefix + key, now)
    {
      var item := storage.GetItem(prefix + key);
      if item.None? || Serialize(item.value) == "" {
        return Miss;
      }
      match item.value
      case Text(_) =>
        Delete(key);
        return Miss;
      case Ids(_) =>
        return Undefined;
      case Entry(data, timestamp, ttl) =>
        if now - timestamp > ttl {
          Delete(key);
          return Miss;
        }
        return Hit(data);
    }

    /** `delete(key)`: only the prefixed key goes. */
    method Delete(key: string)
      modifies storage
      ensures storage.items == old(storage.items) - {prefix + key}
    {
      storage.RemoveItem(prefix + key);
    }

    /** `clearAll()`: removes every key carrying the prefix, whoever wrote
        it, and nothing else. */
    method ClearAll()
      modifies storage
      ensures storage.items == WithoutPrefixed(old(storage.items), prefix)
    {
      var remaining := storage.items.Keys;
      while remaining != {}
        invariant remaining <= old(storage.items).Keys
        invariant forall k :: k in storage.items <==>
                    k in old(storage.items) && (k in remaining || !StartsWith(k, prefix))
        invariant forall k :: k in storage.items ==> storage.items[k] == old(storage.items)[k]
        decreases |remaining|
      {
        ghost var w := ElementOf(remaining);
        var k :| k in remaining;
        if StartsWith(k, prefix) {
          storage.RemoveItem(k);
        }
        remaining := remaining - {k};
      }
    }

    /** `getStats()` at time `now`: one stat per prefixed key, their count
        and their summed stored length. The store is only read. */
    method GetStats(now: int) returns (stats: Stats)
      ensures stats.totalItems == |PrefixedKeys(storage.items, prefix)| == |stats.items|
      ensures stats.totalSize == TotalSize(PrefixedKeys(storage.items, prefix), storage.items)
      ensures StatKeys(stats.items, prefix) == PrefixedKeys(storage.items, prefix)
      ensures forall s :: s in stats.items ==> Describes(s, storage.items, prefix, now)
    {
      var store := storage.items;
      var appKeys := PrefixedKeys(store, prefix);
      var remaining := appKeys;
      ghost var done: set<string> := {};
      var totalSize := 0;
      var items: seq<ItemStat> := [];
      while remaining != {}
        invariant done !! remaining && done + remaining == appKeys && appKeys <= store.Keys
        invariant StatKeys(items, prefix) == done
        invariant |items| == |done|
        invariant totalSize == TotalSize(done, store)
        invariant forall s :: s in items ==> Describes(s, store, prefix, now)
        decreases |remaining|
      {
        ghost var w := ElementOf(remaining);
        var k :| k in remaining;
        var stat := StatOf(k[|prefix|..], store[k], now);
        StatsStep(items, done, k, store, prefix, now, totalSize, stat);
        totalSize := totalSize + stat.size;
        items := items + [stat];
        remaining := remaining - {k};
        done := done + {k};
      }
      assert done == appKeys;
      stats := Stats(|appKeys|, totalSize, items);
    }
  }
}
