/** `IStorageCache`, as the storage engine uses it: a read-through map from
    the path a caller asked for to the item the backend returned. Whether a
    miss (a null item) is remembered is the implementation's choice, so it
    is a flag here. */
module StorageCache {
  import opened Nullable
  import opened Items

  datatype Cache = Cache(entries: map<string, Option<StorageItem>>, keepsMisses: bool)

  /** `GetOrAddItemAsync(key, factory)`, with `fetched` standing for what the
      factory yields. A cached entry is returned as it is and nothing
      changes. Otherwise the fetched item is returned and remembered (a miss
      only when misses are kept); no other entry changes either way. */
  function GetOrAdd(c: Cache, key: string, fetched: Option<StorageItem>): (r: (Option<StorageItem>, Cache))
    ensures key in c.entries ==> r.0 == c.entries[key] && r.1 == c
    ensures key !in c.entries ==> r.0 == fetched
    ensures key !in c.entries ==> (key in r.1.entries <==> fetched.Some? || c.keepsMisses)
    ensures key in r.1.entries ==> r.1.entries[key] == r.0
    ensures r.1.keepsMisses == c.keepsMisses
    ensures forall k :: k != key ==> (k in r.1.entries <==> k in c.entries)
    ensures forall k :: k != key && k in c.entries ==> r.1.entries[k] == c.entries[k]
  {
    if key in c.entries then (c.entries[key], c)
    else if fetched.Some? || c.keepsMisses then (fetched, c.(entries := c.entries[key := fetched]))
    else (fetched, c)
  }

  /** `RemoveItemAsync(key)`: the key is forgotten and nothing else. */
  function Remove(c: Cache, key: string): (r: Cache)
    ensures key !in r.entries && r.keepsMisses == c.keepsMisses
    ensures forall k :: k != key ==> (k in r.entries <==> k in c.entries)
    ensures forall k :: k in r.entries ==> r.entries[k] == c.entries[k]
  {
    c.(entries := c.entries - {key})
  }

  /** `ClearAsync`: everything is forgotten. */
  function Clear(c: Cache): (r: Cache)
    ensures forall k :: k !in r.entries
    ensures r.keepsMisses == c.keepsMisses
  {
    c.(entries := map[])
  }

  /** A lookup right after a removal goes to the backend, whatever was cached
      before. */
  lemma RemoveThenGetFetches(c: Cache, key: string, fetched: Option<StorageItem>)
    ensures GetOrAdd(Remove(c, key), key, fetched).0 == fetched
  {
  }

  /** Looking the same key up twice yields the same item the second time,
      whatever the backend would say then, once the first lookup was
      remembered. */
  lemma SecondLookupIsStable(c: Cache, key: string, first: Option<StorageItem>, second: Option<StorageItem>)
    requires first.Some? || c.keepsMisses || key in c.entries
    ensures var (r1, c1) := GetOrAdd(c, key, first);
            GetOrAdd(c1, key, second) == (r1, c1)
  {
  }
}
