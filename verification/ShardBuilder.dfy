/** Building shards: a new one, and a compacted one in place of an old one
    (src/ShardBuilder.cpp). */
module ShardBuilder {
  import opened KeyValueTypes
  import opened LinearProbing
  import opened ShardModel
  import opened RebuildModel
  import opened StoreModel
  import opened StorageHashTable
  import opened TableBytes
  import opened CacheMap
  import opened Shard

  /** What a rebuild may rely on: the cache agrees with the index. */
  ghost predicate Rebuildable(s: ShardState, cache: map<Key, Ptr>) {
    && ShardInv(s)
    && (forall k :: k in s.index && k in cache ==> Coherent(cache[k], s.index[k]))
  }

  ghost predicate SomeKnownGone(entries: seq<Entry>, cache: map<Key, Ptr>) {
    exists j :: 0 <= j < |entries| && Lookup(cache, entries[j].key).IsNonexistent()
  }

  /** At any point of the loop the new index holds keys already visited only, so there is room
      for the next one. */
  lemma NextVisitFits(s: ShardState, cache: map<Key, Ptr>, entries: seq<Entry>, j: nat)
    requires ShardInv(s) && Enumerates(entries, s.index) && j < |entries|
    ensures Readable(entries, |s.values|)
    ensures var r := RebuildFrom(s.values, cache, entries[..j]);
            && |r.index| == |r.values| < SHARD_CAPACITY && entries[j].key !in r.index
            && RebuildFrom(s.values, cache, entries[..j + 1]) == Visit(s.values, cache, r, entries[j])
  {
    ShardIsReadable(s, entries);
    NewToEarlier(entries, s.index, j);
    SoFar(s.values, cache, entries, j);
    assert entries[..j + 1][..j] == entries[..j];
  }

  lemma SoFar(values: seq<Value>, cache: map<Key, Ptr>, entries: seq<Entry>, j: nat)
    requires Readable(entries, |values|) && Enumerates(entries, Contents(entries)) && j <= |entries|
    ensures var r := RebuildFrom(values, cache, entries[..j]);
            |r.index| == |r.values| <= j && forall k :: k in r.index ==> k in Contents(entries[..j])
  {
    EnumeratesItself(entries, Contents(entries), j);
    RebuildCarries(values, cache, entries[..j]);
  }

  /** What the loop ends with is a shard that asks for no rebuild. */
  lemma EndIsShard(s: ShardState, cache: map<Key, Ptr>, entries: seq<Entry>)
    requires ShardInv(s) && Enumerates(entries, s.index)
    ensures Readable(entries, |s.values|)
    ensures var after := RebuiltShard(RebuildFrom(s.values, cache, entries));
            ShardInv(after) && !RebuildRequired(after)
  {
    ShardIsReadable(s, entries);
    RebuildCarries(s.values, cache, entries);
  }

  class ShardBuilder {

    static method CreateShard(hash: Hasher) returns (shard: Shard)
      ensures fresh(shard) && fresh(shard.filter) && shard.Valid()
      ensures shard.hash == hash && shard.State() == EMPTY_SHARD
      ensures |SlotsOf(shard.indexFile)| == 34 && EmptyTable(shard.indexFile, 34)
    {
      shard := new Shard.Create(hash);
    }

    /** The new shard, and the entries to write back into the cache. None if the assertion on
        the index entry of a key known to be gone ends the program. */
    static method RebuildShard(shard: Shard, cacheMap: CacheMap, asserts: bool)
      returns (newShard: Option<Shard>, newEntries: seq<Entry>, ghost entries: seq<Entry>)
      requires shard.Valid() && cacheMap.Valid() && cacheMap.data.Length >= 7 && cacheMap.hash == shard.hash
      requires Rebuildable(shard.State(), cacheMap.Map()) && RebuildRequired(shard.State())
      ensures entries == Entries(SlotsOf(shard.indexFile))
      ensures Enumerates(entries, shard.State().index) && Readable(entries, |shard.State().values|)
      ensures newShard.None? <==> asserts && SomeKnownGone(entries, cacheMap.Map())
      ensures newShard.Some? ==>
                var r := RebuildFrom(shard.State().values, cacheMap.Map(), entries);
                && fresh(newShard.value) && fresh(newShard.value.filter)
                && newShard.value.Valid() && newShard.value.hash == shard.hash
                && newShard.value.State() == RebuiltShard(r)
                && newEntries == r.updates
                && !RebuildRequired(newShard.value.State())
                && |SlotsOf(newShard.value.indexFile)| == if |r.index| <= 22 then 34 else 68
    {
      var oldTable := shard.LoadTable();
      var shardEntries := oldTable.GetEntries();
      entries := shardEntries;
      EndIsShard(shard.State(), cacheMap.Map(), entries);
      var newTable := new StorageHashTable(shard.hash, STORAGE_HASH_TABLE_INITIAL_SIZE);
      var gone, newValues;
      gone, newValues, newEntries := VisitEntries(shard, cacheMap, shardEntries, newTable, asserts);
      if gone {
        return None, newEntries, entries;
      }
      var rebuilt := Install(shard.hash, newTable, newValues);
      newShard := Some(rebuilt);
    }

    /** The loop; `gone` says that it ended at a key known to be gone. */
    static method VisitEntries(shard: Shard, cacheMap: CacheMap, entries: seq<Entry>, newTable: StorageHashTable,
                               asserts: bool)
      returns (gone: bool, values: seq<Value>, updates: seq<Entry>)
      requires cacheMap.Valid() && cacheMap.data.Length >= 7
      requires ShardInv(shard.State())
      requires Enumerates(entries, shard.State().index) && Readable(entries, |shard.State().values|)
      requires newTable.Valid() && newTable.Map() == map[] && |newTable.data| == TableSize(0)
      modifies newTable
      ensures gone <==> asserts && SomeKnownGone(entries, cacheMap.Map())
      ensures !gone ==>
                && newTable.Valid() && |newTable.data| == TableSize(|newTable.Map()|)
                && Rebuilt(newTable.Map(), values, updates)
                   == RebuildFrom(shard.State().values, cacheMap.Map(), entries)
    {
      ghost var s, cache := shard.State(), cacheMap.Map();
      gone, values, updates := false, [], [];
      for j := 0 to |entries|
        invariant newTable.Valid() && |newTable.data| == TableSize(|newTable.Map()|)
        invariant Rebuilt(newTable.Map(), values, updates) == RebuildFrom(s.values, cache, entries[..j])
        invariant asserts ==> forall i :: 0 <= i < j ==> !Lookup(cache, entries[i].key).IsNonexistent()
      {
        gone, values, updates := VisitNext(shard, cacheMap, entries, j, newTable, values, updates);
        if gone && asserts {
          return;
        }
      }
      gone := false;
      assert entries[..|entries|] == entries;
    }

    /** One more round of the loop. */
    static method VisitNext(shard: Shard, cacheMap: CacheMap, entries: seq<Entry>, j: nat,
                            newTable: StorageHashTable, newValues: seq<Value>, newEntries: seq<Entry>)
      returns (gone: bool, values: seq<Value>, updates: seq<Entry>)
      requires cacheMap.Valid() && cacheMap.data.Length >= 7 && ShardInv(shard.State()) && j < |entries|
      requires Enumerates(entries, shard.State().index) && Readable(entries, |shard.State().values|)
      requires newTable.Valid() && |newTable.data| == TableSize(|newTable.Map()|)
      requires Rebuilt(newTable.Map(), newValues, newEntries)
               == RebuildFrom(shard.State().values, cacheMap.Map(), entries[..j])
      modifies newTable
      ensures newTable.Valid() && |newTable.data| == TableSize(|newTable.Map()|)
      ensures gone <==> Lookup(cacheMap.Map(), entries[j].key).IsNonexistent()
      ensures Rebuilt(newTable.Map(), values, updates)
              == RebuildFrom(shard.State().values, cacheMap.Map(), entries[..j + 1])
    {
      NextVisitFits(shard.State(), cacheMap.Map(), entries, j);
      gone, values, updates := VisitEntry(shard, cacheMap, entries[j], newTable, newValues, newEntries);
    }

    /** The body of the loop; `gone` says that the cache knows the key to be gone. */
    static method VisitEntry(shard: Shard, cacheMap: CacheMap, e: Entry,
                             newTable: StorageHashTable, newValues: seq<Value>, newEntries: seq<Entry>)
      returns (gone: bool, values: seq<Value>, updates: seq<Entry>)
      requires cacheMap.Valid() && cacheMap.data.Length >= 7
      requires e.ptr.GetIndex() < |shard.valuesFile| && e.key !in newTable.Map()
      requires newTable.Valid() && |newTable.data| == TableSize(|newTable.Map()|)
      requires |newTable.Map()| == |newValues| < SHARD_CAPACITY
      modifies newTable
      ensures newTable.Valid() && |newTable.data| == TableSize(|newTable.Map()|)
      ensures gone <==> Lookup(cacheMap.Map(), e.key).IsNonexistent()
      ensures Rebuilt(newTable.Map(), values, updates)
              == Visit(shard.valuesFile, cacheMap.Map(), old(Rebuilt(newTable.Map(), newValues, newEntries)), e)
    {
      gone, values, updates := false, newValues, newEntries;
      var ok, slot := cacheMap.Get(e.key);
      var cacheMapPtr := cacheMap.data[slot].ptr;
      assert cacheMapPtr == Lookup(cacheMap.Map(), e.key);
      match cacheMapPtr.GetType() {
        case DELETED =>
          updates := newEntries + [Entry(e.key, NONEXISTENT_PTR)];
        case NONEXISTENT =>
          gone := true;
        case EMPTY =>
          if e.ptr.IsPresent() {
            var newPtr;
            values, newPtr := CopyValue(shard, e, newTable, newValues);
          }
        case PRESENT =>
          var newPtr;
          values, newPtr := CopyValue(shard, e, newTable, newValues);
          updates := newEntries + [Entry(e.key, newPtr)];
      }
    }

    /** Appends the value an entry points at, and puts the entry with its new pointer. The table
        is expanded once at most. */
    static method CopyValue(shard: Shard, e: Entry, newTable: StorageHashTable, newValues: seq<Value>)
      returns (values: seq<Value>, newPtr: Ptr)
      requires e.ptr.GetIndex() < |shard.valuesFile| && e.key !in newTable.Map()
      requires newTable.Valid() && |newTable.data| == TableSize(|newTable.Map()|)
      requires |newTable.Map()| == |newValues| < SHARD_CAPACITY
      modifies newTable
      ensures newTable.Valid() && |newTable.data| == TableSize(|newTable.Map()|)
      ensures newPtr == Ptr.AtOffset(|newValues| * VALUE_SIZE, true)
      ensures values == newValues + [shard.valuesFile[e.ptr.GetIndex()]]
      ensures newTable.Map() == old(newTable.Map())[e.key := newPtr]
    {
      var value := shard.ReadValueDirectly(e.ptr);
      var newOffset := |newValues| * VALUE_SIZE;
      values := newValues + [value];
      AtOffsetReadsBack(|newValues|, true);
      newPtr := Ptr.AtOffset(newOffset, true);
      var ok := newTable.Put(Entry(e.key, newPtr));
    }

    /** The new files take the place of the old ones, and the new shard is made from the entries. */
    static method Install(hash: Hasher, table: StorageHashTable, values: seq<Value>) returns (shard: Shard)
      requires table.hash == hash && table.Valid() && |table.data| == TableSize(|table.Map()|)
      requires ShardInv(ShardState(table.Map(), values, |table.Map()| % 256))
      ensures fresh(shard) && fresh(shard.filter) && shard.Valid() && shard.hash == hash
      ensures shard.State() == ShardState(table.Map(), values, |table.Map()| % 256)
      ensures |SlotsOf(shard.indexFile)| == TableSize(|table.Map()|)
    {
      var entries := table.GetEntries();
      shard := new Shard.FromEntries(hash, entries, table.Map());
      shard.valuesFile := values;
      shard.StoreTable(table);
    }
  }
}
